/** The confirmation dialog (components/ModalPopup.js): its labels, its
    buttons, and which of the given handlers each way of interacting with
    it calls. Handlers are opaque values of type `H`. */
module ModalPopup {
  import opened Common
  import Button

  const DefaultPrimaryText := "확인"
  const DefaultSecondaryText := "취소"

  /** The properties the dialog is given; `None` is an omitted property. */
  datatype Props<H> = Props(
    visible: bool,
    title: string,
    description: Option<string>,
    primaryButtonText: Option<string>,
    secondaryButtonText: Option<string>,
    onPrimaryPress: Option<H>,
    onSecondaryPress: Option<H>,
    onClose: Option<H>,
    hideSecondaryButton: bool)

  function PrimaryLabel<H>(p: Props<H>): (r: string)
    ensures p.primaryButtonText.None? ==> r == DefaultPrimaryText
    ensures p.primaryButtonText.Some? ==> r == p.primaryButtonText.value
  {
    p.primaryButtonText.GetOr(DefaultPrimaryText)
  }

  function SecondaryLabel<H>(p: Props<H>): (r: string)
    ensures p.secondaryButtonText.None? ==> r == DefaultSecondaryText
    ensures p.secondaryButtonText.Some? ==> r == p.secondaryButtonText.value
  {
    p.secondaryButtonText.GetOr(DefaultSecondaryText)
  }

  /** The secondary button's handler: `onSecondaryPress`, falling back to
      `onClose`. */
  function SecondaryHandler<H>(p: Props<H>): (r: Option<H>)
    ensures p.onSecondaryPress.Some? ==> r == p.onSecondaryPress
    ensures p.onSecondaryPress.None? ==> r == p.onClose
  {
    if p.onSecondaryPress.Some? then p.onSecondaryPress else p.onClose
  }

  /** The description is drawn when it is a non-empty string. */
  predicate ShowsDescription<H>(p: Props<H>)
  {
    p.description.Some? && p.description.value != ""
  }

  predicate ShowsSecondaryButton<H>(p: Props<H>)
  {
    !p.hideSecondaryButton
  }

  /** The primary button spans the dialog when it is alone. */
  predicate PrimaryFullWidth<H>(p: Props<H>)
  {
    p.hideSecondaryButton
  }

  /** The ways of interacting with a visible dialog: a tap on the dimmed
      overlay, the system back request, a tap inside the dialog that is not
      on a button, and the two buttons. */
  datatype Interaction = OverlayPress | RequestClose | ContentPress | SecondaryPress | PrimaryPress

  /** The handler an interaction calls, if any. Both buttons are enabled
      buttons, so a press reaches their handler; a tap inside the dialog is
      stopped before it reaches the overlay. */
  function Fired<H>(p: Props<H>, i: Interaction): (r: Option<H>)
    ensures i.OverlayPress? || i.RequestClose? ==> r == p.onClose
    ensures i.ContentPress? ==> r.None?
    ensures i.PrimaryPress? ==> r == p.onPrimaryPress
    ensures i.SecondaryPress? && p.hideSecondaryButton ==> r.None?
    ensures i.SecondaryPress? && !p.hideSecondaryButton ==> r == SecondaryHandler(p)
  {
    match i
    case OverlayPress => p.onClose
    case RequestClose => p.onClose
    case ContentPress => None
    case SecondaryPress =>
      if ShowsSecondaryButton(p) then Button.PressHandler(false, SecondaryHandler(p)) else None
    case PrimaryPress => Button.PressHandler(false, p.onPrimaryPress)
  }

  /** Without an `onSecondaryPress` the secondary button does what closing
      does; when it is hidden the primary button is alone and full width. */
  lemma SecondaryActsAsClose<H>(p: Props<H>)
    ensures p.onSecondaryPress.None? && ShowsSecondaryButton(p) ==>
              Fired(p, SecondaryPress) == Fired(p, OverlayPress) == Fired(p, RequestClose)
    ensures !ShowsSecondaryButton(p) <==> PrimaryFullWidth(p)
    ensures !ShowsSecondaryButton(p) ==> Fired(p, SecondaryPress).None?
  {
  }

  /** A dialog given only a title shows "확인" and "취소", no description,
      and calls nothing whatever is pressed. */
  lemma BareDialog<H>(title: string, i: Interaction)
    ensures var p: Props<H> := Props(true, title, None, None, None, None, None, None, false);
              PrimaryLabel(p) == DefaultPrimaryText && SecondaryLabel(p) == DefaultSecondaryText
              && !ShowsDescription(p) && Fired(p, i).None?
  {
  }
}
