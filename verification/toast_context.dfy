/** The toast shared by the screens (contexts/ToastContext.js): the record
    the provider keeps, the two operations on it, and the guard that refuses
    to hand them out outside a provider. */
module ToastContext {
  import opened Common

  /** How long a toast stays up, in milliseconds, unless told otherwise. */
  const DefaultDuration := 2000

  datatype Toast = Toast(visible: bool, message: string, duration: int)

  /** The provider starts with a hidden, empty toast. */
  const Initial: Toast := Toast(false, "", DefaultDuration)

  /** `showToast(message, duration)`: the toast becomes visible with the
      message; an omitted duration is the default one. Nothing of the
      previous toast survives. */
  function ShowToast(t: Toast, message: string, duration: Option<int>): (r: Toast)
    ensures r.visible && r.message == message
    ensures duration.None? ==> r.duration == DefaultDuration
    ensures duration.Some? ==> r.duration == duration.value
  {
    Toast(true, message, duration.GetOr(DefaultDuration))
  }

  /** `hideToast()`: the toast is hidden; its message and duration stay. */
  function HideToast(t: Toast): (r: Toast)
    ensures !r.visible
    ensures r.message == t.message && r.duration == t.duration
  {
    t.(visible := false)
  }

  /** Showing does not depend on what was shown before, hiding twice is
      hiding once, and hiding a toast just shown keeps its message. */
  lemma ShowHideLaws(t: Toast, u: Toast, message: string, duration: Option<int>)
    ensures ShowToast(t, message, duration) == ShowToast(u, message, duration)
    ensures HideToast(HideToast(t)) == HideToast(t)
    ensures HideToast(ShowToast(t, message, duration))
            == Toast(false, message, duration.GetOr(DefaultDuration))
    ensures ShowToast(HideToast(t), message, duration) == ShowToast(t, message, duration)
  {
  }

  /** Hiding the initial toast leaves it as it was. */
  lemma HideInitial()
    ensures HideToast(Initial) == Initial
  {
  }

  const OutsideProviderError := "useToast must be used within a ToastProvider"

  /** The operations on the toast. */
  datatype Operation = Show | Hide

  /** What the provider puts in its context: the operations a consumer may
      call. The toast record itself is not part of it. */
  datatype ToastApi = ToastApi(operations: set<Operation>)

  /** The provider hands out `showToast` only; hiding is left to the toast
      component, which the provider renders with `hideToast` as its
      `onHide`. */
  const ProvidedApi := ToastApi({Show})

  /** `useToast()`: the context value of the nearest provider, or the error
      thrown when there is no provider above the caller. */
  function UseToast(insideProvider: bool): (r: Result<ToastApi, string>)
    ensures r.Failure? <==> !insideProvider
    ensures r.Failure? ==> r.error == OutsideProviderError
    ensures r.Success? ==> Show in r.value.operations && Hide !in r.value.operations
  {
    if insideProvider then Success(ProvidedApi) else Failure(OutsideProviderError)
  }
}
