/** The button (components/Button.js): when a press reaches the handler,
    which press feedback is drawn, and how the content is wrapped. */
module Button {
  import opened Common

  /** The variants the button has styles for. */
  const Variants: set<string> := {"primary", "default", "text", "outline", "sub"}
  const TextVariant := "text"

  /** How far a pressed button moves down, in points. */
  const PressDrop := 3

  /** The handler a press calls: none while the button is disabled. */
  function PressHandler<H>(disabled: bool, onPress: Option<H>): (r: Option<H>)
    ensures disabled ==> r.None?
    ensures !disabled ==> r == onPress
  {
    if disabled then None else onPress
  }

  /** The press feedback of a button: the variant whose pressed style is
      drawn, the downward shift, and whether the label takes the pressed
      text colour. */
  datatype Feedback = Feedback(pressedStyle: Option<string>, translateY: int, pressedText: bool)

  function FeedbackOf(variant: string, disabled: bool, pressed: bool): (f: Feedback)
    ensures f.pressedStyle.Some? <==> pressed && !disabled && variant in Variants
    ensures f.pressedStyle.Some? ==> f.pressedStyle.value == variant
    ensures f.translateY == PressDrop <==> pressed && !disabled && variant != TextVariant
    ensures f.translateY != PressDrop ==> f.translateY == 0
    ensures f.pressedText <==> pressed && !disabled && variant == TextVariant
  {
    var live := pressed && !disabled;
    Feedback(if live && variant in Variants then Some(variant) else None,
             if live && variant != TextVariant then PressDrop else 0,
             live && variant == TextVariant)
  }

  /** No feedback at all unless the button is pressed and enabled; a text
      button never moves and every other known variant never takes the
      pressed text colour. */
  lemma FeedbackOnlyWhenLive(variant: string, disabled: bool, pressed: bool)
    ensures !pressed || disabled ==> FeedbackOf(variant, disabled, pressed) == Feedback(None, 0, false)
    ensures variant == TextVariant ==> FeedbackOf(variant, disabled, pressed).translateY == 0
    ensures variant != TextVariant ==> !FeedbackOf(variant, disabled, pressed).pressedText
    ensures pressed && !disabled && variant in Variants ==>
              FeedbackOf(variant, disabled, pressed).translateY == PressDrop
              || FeedbackOf(variant, disabled, pressed).pressedText
  {
  }

  /** Button content: a string, or anything else (an element, a list). */
  datatype Children<N> = StringChild(text: string) | NodeChild(node: N)

  /** What is drawn inside the button. */
  datatype Content<N> = Label(text: string, disabledText: bool, pressedText: bool) | AsGiven(node: N)

  /** A string is drawn as a styled label; anything else is drawn as given. */
  function ContentOf<N>(children: Children<N>, variant: string, disabled: bool, pressed: bool): (c: Content<N>)
    ensures children.StringChild? <==> c.Label?
    ensures c.Label? ==> c.text == children.text && c.disabledText == disabled
                         && c.pressedText == FeedbackOf(variant, disabled, pressed).pressedText
    ensures c.AsGiven? ==> c.node == children.node
  {
    match children
    case StringChild(text) => Label(text, disabled, FeedbackOf(variant, disabled, pressed).pressedText)
    case NodeChild(node) => AsGiven(node)
  }

  /** Unwrapping the content gives back the children. */
  lemma ContentKeepsChildren<N>(children: Children<N>, variant: string, disabled: bool, pressed: bool)
    ensures match ContentOf(children, variant, disabled, pressed)
            case Label(text, _, _) => children == StringChild(text)
            case AsGiven(node) => children == NodeChild(node)
  {
  }
}
