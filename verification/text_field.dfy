/** The text field (components/TextField.js): the clear button, the
    container styles, focus, and whether the field can be edited. */
module TextField {

  /** What pressing the clear button does. */
  datatype ClearEffect = CallOnClear | ChangeText(text: string) | NoEffect

  /** `onClear` when given, otherwise `onChangeText('')` when that is
      given, otherwise nothing. */
  function HandleClear(hasOnClear: bool, hasOnChangeText: bool): (e: ClearEffect)
    ensures e.CallOnClear? <==> hasOnClear
    ensures e.ChangeText? <==> !hasOnClear && hasOnChangeText
    ensures e.ChangeText? ==> e.text == ""
  {
    if hasOnClear then CallOnClear
    else if hasOnChangeText then ChangeText("")
    else NoEffect
  }

  /** The clear button is drawn for a non-empty value of an enabled field
      that asks for one. */
  predicate ClearButtonShown(showClearButton: bool, value: string, disabled: bool)
  {
    showClearButton && value != "" && !disabled
  }

  /** The container leaves room for the clear button; this ignores
      `disabled`. */
  predicate WithButtonPadding(showClearButton: bool, value: string)
  {
    showClearButton && value != ""
  }

  predicate Editable(disabled: bool)
  {
    !disabled
  }

  /** The padding is there whenever the button is; it is there without the
      button only on a disabled field. Clearing through `onChangeText`
      empties the value, which takes both away. */
  lemma ClearButtonLayout(showClearButton: bool, value: string, disabled: bool)
    ensures ClearButtonShown(showClearButton, value, disabled) ==> WithButtonPadding(showClearButton, value)
    ensures WithButtonPadding(showClearButton, value) && !ClearButtonShown(showClearButton, value, disabled)
            ==> disabled && !Editable(disabled)
    ensures var e := HandleClear(false, true);
              !ClearButtonShown(showClearButton, e.text, disabled) && !WithButtonPadding(showClearButton, e.text)
  {
  }

  datatype FocusEvent = Focus | Blur

  /** The focused flag after a run of focus and blur events. */
  function Focused(focused: bool, events: seq<FocusEvent>): (r: bool)
    decreases |events|
  {
    if |events| == 0 then focused else Focused(events[0] == Focus, events[1..])
  }

  /** After at least one event the field is focused exactly when the last
      event was a focus; the field starts unfocused. */
  lemma {:induction false} FocusedByLastEvent(focused: bool, events: seq<FocusEvent>)
    ensures Focused(focused, events) == if |events| == 0 then focused else events[|events| - 1] == Focus
    decreases |events|
  {
    if |events| > 0 {
      FocusedByLastEvent(events[0] == Focus, events[1..]);
    }
  }
}
