/** The book detail screen (screens/BookDetail.js): the local favourite
    flag and its toggle, and the swipe-from-the-left-edge gesture that
    goes back. The slide animations are left out; only the decisions
    they are started by are modelled. */
module BookDetail {
  import opened Common
  import opened ToastContext
  import Session

  /** The message of the toast shown when a book becomes a favourite. */
  const AddedMessage := "읽고 싶은 책장에 추가되었어요."

  // ---------------------------------------------------------------------
  // Favourite flag
  // ---------------------------------------------------------------------

  /** The local flag after a render. On the first render (`previous` is
      `None`) and whenever the `initialFavorite` property has changed since
      the last render, the flag is reset to it; otherwise it is kept. */
  function SyncFavorite(local: bool, previous: Option<bool>, initialFavorite: bool): (r: bool)
    ensures previous != Some(initialFavorite) ==> r == initialFavorite
    ensures previous == Some(initialFavorite) ==> r == local
  {
    if previous == Some(initialFavorite) then local else initialFavorite
  }

  /** What one press of the heart does: the new local flag, how often the
      `onToggleFavorite` callback was called, and the toast afterwards. */
  datatype Toggled = Toggled(isFavorite: bool, callbackCalls: nat, toast: Toast)

  /** The heart press: the flag flips, the parent callback (when given) is
      called once, and the toast is shown only for a book that has just
      become a favourite. */
  function HandleFavoriteToggle(isFavorite: bool, hasOnToggle: bool, toast: Toast): (r: Toggled)
    ensures r.isFavorite == !isFavorite
    ensures r.callbackCalls == if hasOnToggle then 1 else 0
    ensures r.isFavorite ==> r.toast == ShowToast(toast, AddedMessage, None)
    ensures !r.isFavorite ==> r.toast == toast
  {
    var flipped := !isFavorite;
    Toggled(flipped, if hasOnToggle then 1 else 0,
            if flipped then ShowToast(toast, AddedMessage, None) else toast)
  }

  /** Two presses restore the flag, call the parent twice, and show the
      toast for exactly one of them. */
  lemma ToggleTwice(isFavorite: bool, toast: Toast)
    ensures var first := HandleFavoriteToggle(isFavorite, true, toast);
              var second := HandleFavoriteToggle(first.isFavorite, true, first.toast);
              second.isFavorite == isFavorite
              && first.callbackCalls + second.callbackCalls == 2
              && first.isFavorite != second.isFavorite
              && (first.isFavorite ==> first.toast.visible && first.toast.message == AddedMessage)
              && (second.isFavorite ==> second.toast.visible && second.toast.message == AddedMessage)
  {
  }

  /** The screen as the app opens it shows the app's favourite flag, and a
      press of the heart keeps the two in step: the press flips the local
      flag, the app's toggle flips the title in its set, and the render
      that follows finds the property changed and resets the local flag to
      the same value. The toast is up afterwards exactly when the title is
      now a favourite. */
  lemma FavoriteStaysInStep(s: Session.State, toast: Toast)
    requires Session.OverlayShown(s)
    ensures var before := Session.InitialFavorite(s);
              var pressed := HandleFavoriteToggle(SyncFavorite(false, None, before), true, toast);
              var after := Session.Step(s, Session.DetailToggleFavorite);
              var shown := SyncFavorite(pressed.isFavorite, Some(before), Session.InitialFavorite(after));
              shown == pressed.isFavorite
              && shown == (Session.DetailTitle(s) in after.favorites)
              && (shown ==> pressed.toast.visible && pressed.toast.message == AddedMessage)
  {
  }

  // ---------------------------------------------------------------------
  // Swipe back
  // ---------------------------------------------------------------------

  /** How far from the left edge a swipe may start, and how far it must
      have moved, in points. */
  const EdgeWidth: real := 50.0
  const MinSwipe: real := 10.0

  /** The fraction of the screen width a swipe must cover to go back. */
  const BackFraction: real := 0.3

  function Abs(x: real): (r: real)
    ensures r >= 0.0 && (r == x || r == -x)
  {
    if x < 0.0 then -x else x
  }

  /** The gesture is taken over: it started near the left edge, moved right
      far enough, and more sideways than up or down. */
  predicate ClaimsSwipe(pageX: real, dx: real, dy: real)
  {
    pageX < EdgeWidth && dx > MinSwipe && Abs(dy) < Abs(dx)
  }

  /** The claim, without absolute values: the vertical movement lies strictly
      between minus and plus the horizontal movement. */
  lemma ClaimsSwipeWithinCone(pageX: real, dx: real, dy: real)
    ensures ClaimsSwipe(pageX, dx, dy) <==> pageX < EdgeWidth && dx > MinSwipe && -dx < dy < dx
  {
  }

  /** While moving, the screen follows the finger only rightwards. */
  function FollowFinger(offset: real, dx: real): (r: real)
    ensures dx > 0.0 ==> r == dx
    ensures dx <= 0.0 ==> r == offset
  {
    if dx > 0.0 then dx else offset
  }

  datatype Release = GoBack | SpringBack

  /** On release the screen goes back when the swipe covered more than the
      fraction of the screen width, and springs back otherwise. */
  function OnRelease(dx: real, screenWidth: real): (r: Release)
    ensures r == GoBack <==> dx > screenWidth * BackFraction
  {
    if dx > screenWidth * BackFraction then GoBack else SpringBack
  }

  /** A longer swipe goes back whenever a shorter one does, and on a screen
      at least 40 points wide a swipe just long enough to be claimed still
      springs back. */
  lemma ReleaseMonotone(dx1: real, dx2: real, screenWidth: real)
    requires dx1 <= dx2
    ensures OnRelease(dx1, screenWidth) == GoBack ==> OnRelease(dx2, screenWidth) == GoBack
    ensures screenWidth >= 40.0 && dx1 <= MinSwipe + 1.0 ==> OnRelease(dx1, screenWidth) == SpringBack
  {
  }

  /** How often `onBack` is called once the back animation has finished. */
  function BackCalls(release: Release, hasOnBack: bool): (n: nat)
    ensures n <= 1
    ensures n == 1 <==> release == GoBack && hasOnBack
  {
    if release == GoBack && hasOnBack then 1 else 0
  }

  /** A release that goes back, with the app's handler, ends in the app's
      home view with no book selected. */
  lemma SwipeBackLeavesDetail(s: Session.State, dx: real, screenWidth: real)
    requires Session.OverlayShown(s) && dx > screenWidth * BackFraction
    ensures BackCalls(OnRelease(dx, screenWidth), true) == 1
    ensures var r := Session.Step(s, Session.DetailBack);
              r.currentView == Session.HomeView && r.selectedBook.None? && !Session.OverlayShown(r)
  {
  }
}
