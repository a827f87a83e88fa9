/** The room-creation form (screens/CreateReadingRoom.js): the next-button
    rule, the participant counter and its text field, the invited friends,
    the friend strip's edge gradients, the close confirmation, and the
    deadline label. */
module CreateRoom {
  import opened Common
  import opened Decimal
  import ModalPopup

  // ---------------------------------------------------------------------
  // Next button
  // ---------------------------------------------------------------------

  datatype Friend = Friend(id: string, nickname: string)

  /** The form can go on when the room is public, or when a private room has
      at least one invited friend. */
  predicate NextEnabled(isPublic: bool, invited: seq<Friend>)
  {
    isPublic || |invited| > 0
  }

  /** A private room with nobody invited is the only blocked case. */
  lemma NextBlockedOnlyWhenPrivateAndAlone(isPublic: bool, invited: seq<Friend>)
    ensures !NextEnabled(isPublic, invited) <==> !isPublic && invited == []
  {
  }

  // ---------------------------------------------------------------------
  // Participant counter
  // ---------------------------------------------------------------------

  /** One more. */
  function Increment(count: int): (r: int)
    ensures r == count + 1
  {
    count + 1
  }

  /** One less, but never below zero. */
  function Decrement(count: int): (r: int)
    ensures r >= 0
    ensures count >= 1 ==> r == count - 1
    ensures count <= 0 ==> r == 0
  {
    if count - 1 > 0 then count - 1 else 0
  }

  /** The minus button undoes the plus button on every count the form can
      hold, and the plus button undoes the minus button above zero. */
  lemma IncrementDecrement(count: int)
    ensures count >= 0 ==> Decrement(Increment(count)) == count
    ensures count >= 1 ==> Increment(Decrement(count)) == count
    ensures count <= 0 ==> Increment(Decrement(count)) == 1
  {
  }

  /** The count after the text field changes to `text`: a leading
      non-negative integer is taken, an emptied field is zero, and anything
      else leaves the count as it was. */
  function EditCount(count: int, text: string): (r: int)
    ensures (ParseInt(text).Some? && ParseInt(text).value >= 0) ==> r == ParseInt(text).value
    ensures text == "" ==> r == 0
    ensures (ParseInt(text).None? || ParseInt(text).value < 0) && text != "" ==> r == count
  {
    match ParseInt(text)
    case Some(n) => if n >= 0 then n else if text == "" then 0 else count
    case None => if text == "" then 0 else count
  }

  /** Typing the decimal digits of a number sets the count to that number. */
  lemma EditCountOfDecimal(count: int, n: nat)
    ensures EditCount(count, NatToDecimal(n)) == n
  {
    ParseIntOfDecimal(n);
  }

  /** The field shows `String(count)`; handing that text back changes nothing. */
  lemma EditCountOfShownText(count: nat)
    ensures EditCount(count, IntToDecimal(count)) == count
  {
    ParseIntOfDecimal(count);
  }

  /** A negative number typed in is ignored. */
  lemma EditCountIgnoresNegative(count: int, n: int)
    requires n < 0
    ensures EditCount(count, IntToDecimal(n)) == count
  {
    ParseIntOfIntToDecimal(n);
  }

  datatype CountEvent = PressPlus | PressMinus | EditText(text: string)

  function CountStep(count: int, e: CountEvent): int
  {
    match e
    case PressPlus => Increment(count)
    case PressMinus => Decrement(count)
    case EditText(t) => EditCount(count, t)
  }

  function CountRun(count: int, events: seq<CountEvent>): int
    decreases |events|
  {
    if |events| == 0 then count else CountRun(CountStep(count, events[0]), events[1..])
  }

  /** Starting from zero, no sequence of presses and edits makes the count
      negative. */
  lemma {:induction false} CountNeverNegative(count: int, events: seq<CountEvent>)
    requires count >= 0
    ensures CountRun(count, events) >= 0
    decreases |events|
  {
    if |events| > 0 {
      CountNeverNegative(CountStep(count, events[0]), events[1..]);
    }
  }

  // ---------------------------------------------------------------------
  // Invited friends
  // ---------------------------------------------------------------------

  /** The friends invited when the form opens. */
  const InitialFriends: seq<Friend> := [
    Friend("1", "포코어포코"), Friend("2", "책읽는사람"), Friend("3", "도토리"),
    Friend("4", "독서왕"), Friend("5", "리더"), Friend("6", "작가지망생")]

  /** Every friend whose id is not `id`, in order. */
  function RemoveFriend(friends: seq<Friend>, id: string): (r: seq<Friend>)
    ensures |r| <= |friends|
    ensures forall k :: 0 <= k < |r| ==> r[k].id != id
    ensures forall f :: f in r <==> f in friends && f.id != id
    ensures Subsequence(r, friends)
  {
    if |friends| == 0 then []
    else if friends[0].id == id then
      var rest := RemoveFriend(friends[1..], id);
      SubsequenceSkip(rest, friends);
      rest
    else
      var rest := RemoveFriend(friends[1..], id);
      assert ([friends[0]] + rest)[1..] == rest;
      [friends[0]] + rest
  }

  /** Removing a friend nobody has the id of changes nothing. */
  lemma {:induction false} RemoveAbsentFriend(friends: seq<Friend>, id: string)
    requires forall k :: 0 <= k < |friends| ==> friends[k].id != id
    ensures RemoveFriend(friends, id) == friends
  {
    if |friends| > 0 {
      RemoveAbsentFriend(friends[1..], id);
      assert friends == [friends[0]] + friends[1..];
    }
  }

  /** Removing the same friend again changes nothing. */
  lemma RemoveFriendTwice(friends: seq<Friend>, id: string)
    ensures RemoveFriend(RemoveFriend(friends, id), id) == RemoveFriend(friends, id)
  {
    RemoveAbsentFriend(RemoveFriend(friends, id), id);
  }

  /** Removing one friend shortens the list by exactly the entries with that id. */
  lemma {:induction false} RemoveFriendCount(friends: seq<Friend>, id: string)
    ensures |RemoveFriend(friends, id)| + CountId(friends, id) == |friends|
  {
    if |friends| > 0 {
      RemoveFriendCount(friends[1..], id);
    }
  }

  function CountId(friends: seq<Friend>, id: string): nat
  {
    if |friends| == 0 then 0
    else (if friends[0].id == id then 1 else 0) + CountId(friends[1..], id)
  }

  // ---------------------------------------------------------------------
  // Friend strip gradients
  // ---------------------------------------------------------------------

  datatype ScrollState = ScrollState(isScrollable: bool, showLeftGradient: bool, showRightGradient: bool)

  const InitialScroll := ScrollState(false, false, false)

  const ItemWidth := 66
  const ItemGap := 4
  const StripPadding := 16
  const EdgeSlack: real := 5.0

  /** The strip's content width for `n` friends: the items, the gaps
      between them, and the padding. */
  function ContentWidth(n: nat): (w: int)
    ensures n == 0 ==> w == StripPadding
    ensures n > 0 ==> w == (ItemWidth + ItemGap) * n - ItemGap + StripPadding
  {
    n * ItemWidth + (if n - 1 > 0 then n - 1 else 0) * ItemGap + StripPadding
  }

  /** The state after the strip is laid out `width` wide: scrollable when
      the content is wider, the left gradient off, the right one on exactly
      when there is more to see. */
  function OnLayout(friendCount: nat, width: real): (r: ScrollState)
    ensures r.isScrollable <==> ContentWidth(friendCount) as real > width
    ensures !r.showLeftGradient && r.showRightGradient == r.isScrollable
  {
    var scrollable := ContentWidth(friendCount) as real > width;
    ScrollState(scrollable, false, scrollable)
  }

  /** More friends never make a strip that scrolled stop scrolling. */
  lemma LayoutScrollMonotone(m: nat, n: nat, width: real)
    requires m <= n && OnLayout(m, width).isScrollable
    ensures OnLayout(n, width).isScrollable
  {
  }

  /** The state after a scroll to `scrollX` of content `scrollWidth` wide in
      a view `viewWidth` wide; within 5 of an end counts as at that end. */
  function OnScroll(scrollX: real, scrollWidth: real, viewWidth: real): (r: ScrollState)
    ensures r.isScrollable <==> scrollWidth > viewWidth
    ensures r.showLeftGradient <==> r.isScrollable && scrollX > EdgeSlack
    ensures r.showRightGradient <==> r.isScrollable && scrollX < scrollWidth - viewWidth - EdgeSlack
  {
    var scrollable := scrollWidth > viewWidth;
    var atStart := scrollX <= EdgeSlack;
    var atEnd := scrollX >= scrollWidth - viewWidth - EdgeSlack;
    ScrollState(scrollable, scrollable && !atStart, scrollable && !atEnd)
  }

  /** Gradients only ever show on a strip that scrolls. */
  lemma GradientsNeedScrolling(s: ScrollState, friendCount: nat, width: real, scrollX: real, scrollWidth: real, viewWidth: real)
    requires s == OnLayout(friendCount, width) || s == OnScroll(scrollX, scrollWidth, viewWidth)
    ensures (s.showLeftGradient || s.showRightGradient) ==> s.isScrollable
  {
  }

  /** When the content overhangs the view by more than the two slacks, some
      gradient always shows, wherever the strip is scrolled. */
  lemma SomeGradientWhenWide(scrollX: real, scrollWidth: real, viewWidth: real)
    requires scrollWidth - viewWidth > 2.0 * EdgeSlack
    ensures var r := OnScroll(scrollX, scrollWidth, viewWidth);
              r.showLeftGradient || r.showRightGradient
  {
  }

  // ---------------------------------------------------------------------
  // Close confirmation
  // ---------------------------------------------------------------------

  /** The close button, and the confirmation's three ways out: its primary
      ("취소", confirm), its secondary ("아니요") and a dismiss (overlay
      press or the system back request). */
  datatype CloseEvent = PressClose | PressConfirm | PressKeepEditing | Dismiss

  /** Whether the confirmation is shown afterwards, and whether the form
      asked its owner to go back. */
  datatype CloseOutcome = CloseOutcome(showCloseModal: bool, wentBack: bool)

  /** One close-related action; the confirmation's buttons only exist while
      it is shown. */
  function CloseStep(showCloseModal: bool, hasOnBack: bool, e: CloseEvent): (r: CloseOutcome)
    ensures e.PressClose? ==> r == CloseOutcome(true, false)
    ensures r.wentBack <==> showCloseModal && e.PressConfirm? && hasOnBack
    ensures showCloseModal && !e.PressClose? ==> !r.showCloseModal
    ensures !showCloseModal && !e.PressClose? ==> r == CloseOutcome(false, false)
  {
    match e
    case PressClose => CloseOutcome(true, false)
    case PressConfirm => if showCloseModal then CloseOutcome(false, hasOnBack) else CloseOutcome(false, false)
    case PressKeepEditing => CloseOutcome(false, false)
    case Dismiss => CloseOutcome(false, false)
  }

  /** Leaving the form takes two deliberate presses: close, then confirm. */
  lemma LeavingNeedsConfirmation(e1: CloseEvent, e2: CloseEvent)
    ensures var first := CloseStep(false, true, e1);
              var second := CloseStep(first.showCloseModal, true, e2);
              second.wentBack <==> e1.PressClose? && e2.PressConfirm?
  {
  }

  /** The confirmation dialog as the form sets it up: each of its handlers
      is the close event it stands for. */
  function CloseModal(showCloseModal: bool): (p: ModalPopup.Props<CloseEvent>)
    ensures p.visible == showCloseModal && !p.hideSecondaryButton
    ensures ModalPopup.PrimaryLabel(p) == "취소" && ModalPopup.SecondaryLabel(p) == "아니요"
  {
    ModalPopup.Props(showCloseModal, "도토리룸 만들기를 취소할까요?", None, Some("취소"), Some("아니요"),
                     Some(PressConfirm), Some(PressKeepEditing), Some(Dismiss), false)
  }

  /** Whatever is done with the shown confirmation, it closes unless the
      tap lands inside it off the buttons, and only its primary button
      leaves the form. */
  lemma ConfirmationWaysOut(i: ModalPopup.Interaction)
    ensures var fired := ModalPopup.Fired(CloseModal(true), i);
              (fired.None? <==> i.ContentPress?)
              && (fired.Some? ==> !CloseStep(true, true, fired.value).showCloseModal)
              && (fired.Some? ==> (CloseStep(true, true, fired.value).wentBack <==> i.PrimaryPress?))
  {
  }

  // ---------------------------------------------------------------------
  // Deadline label
  // ---------------------------------------------------------------------

  /** The deadline label for a date given as year, zero-based month and day:
      "{year}년 {month}월 {day}일 까지" with the month counted from one. */
  function FormatDate(year: int, month0: int, day: int): (r: string)
    ensures r == IntToDecimal(year) + ("년 " + (IntToDecimal(month0 + 1) + ("월 "
                 + (IntToDecimal(day) + "일 까지"))))
  {
    IntToDecimal(year) + ("년 " + MonthDay(month0 + 1, day))
  }

  /** The label after the year: "{month}월 {day}일 까지". */
  function MonthDay(month: int, day: int): (r: string)
    ensures r == IntToDecimal(month) + ("월 " + (IntToDecimal(day) + "일 까지"))
  {
    IntToDecimal(month) + ("월 " + DayPart(day))
  }

  /** The label after the month: "{day}일 까지". */
  function DayPart(day: int): (r: string)
    ensures |r| > |"일 까지"|
    ensures r[|r| - |"일 까지"|..] == "일 까지"
  {
    IntToDecimal(day) + "일 까지"
  }

  /** Equal texts that start with the same prefix agree after it. */
  lemma DropPrefix(p: string, x: string, y: string)
    requires p + x == p + y
    ensures x == y
  {
    assert x == (p + x)[|p|..];
    assert y == (p + y)[|p|..];
  }

  /** A number's digits followed by text that does not start with a digit
      can be read back unambiguously. */
  lemma NumberThenText(m: nat, x: string, n: nat, y: string)
    requires |x| > 0 && !IsDigit(x[0]) && |y| > 0 && !IsDigit(y[0])
    requires NatToDecimal(m) + x == NatToDecimal(n) + y
    ensures m == n && x == y
  {
    DigitPrefixUnique(NatToDecimal(m), x, NatToDecimal(n), y);
    DecimalInjective(m, n);
  }

  /** A number, then a fixed non-digit separator, then more text: equal
      texts of this form have equal numbers and equal rests. */
  lemma PeelNumber(m: nat, sep: string, x: string, n: nat, y: string)
    requires |sep| > 0 && !IsDigit(sep[0])
    requires NatToDecimal(m) + (sep + x) == NatToDecimal(n) + (sep + y)
    ensures m == n && x == y
  {
    assert (sep + x)[0] == sep[0] && (sep + y)[0] == sep[0];
    NumberThenText(m, sep + x, n, sep + y);
    DropPrefix(sep, x, y);
  }

  lemma DayPartInjective(d1: nat, d2: nat)
    requires DayPart(d1) == DayPart(d2)
    ensures d1 == d2
  {
    NumberThenText(d1, "일 까지", d2, "일 까지");
  }

  lemma MonthDayInjective(m1: nat, d1: nat, m2: nat, d2: nat)
    requires MonthDay(m1, d1) == MonthDay(m2, d2)
    ensures m1 == m2 && d1 == d2
  {
    PeelNumber(m1, "월 ", DayPart(d1), m2, DayPart(d2));
    DayPartInjective(d1, d2);
  }

  /** Different dates get different labels. */
  lemma FormatDateInjective(y1: nat, m1: nat, d1: nat, y2: nat, m2: nat, d2: nat)
    requires FormatDate(y1, m1, d1) == FormatDate(y2, m2, d2)
    ensures y1 == y2 && m1 == m2 && d1 == d2
  {
    PeelNumber(y1, "년 ", MonthDay(m1 + 1, d1), y2, MonthDay(m2 + 1, d2));
    MonthDayInjective(m1 + 1, d1, m2 + 1, d2);
  }

  /** The label ends with "일 까지", and `parseInt` of it gives back the year. */
  lemma FormatDateReadsBack(year: nat, month0: int, day: int)
    ensures var r := FormatDate(year, month0, day);
              |r| >= |"일 까지"| && r[|r| - |"일 까지"|..] == "일 까지"
              && ParseInt(r) == Some(year)
  {
    YearReadsBack(year, "년 " + MonthDay(month0 + 1, day));
    FormatDateEnds(year, month0, day);
  }

  /** A year's digits followed by "년" read back as the year. */
  lemma YearReadsBack(year: nat, rest: string)
    requires |rest| > 0 && rest[0] == '년'
    ensures ParseInt(NatToDecimal(year) + rest) == Some(year)
  {
    ParseIntOfDigits(NatToDecimal(year), rest);
    ValueOfDecimal(year);
  }

  lemma FormatDateEnds(year: int, month0: int, day: int)
    ensures var r := FormatDate(year, month0, day);
              |r| >= |"일 까지"| && r[|r| - |"일 까지"|..] == "일 까지"
  {
    var n := |"일 까지"|;
    var dp := DayPart(day);
    var md := MonthDay(month0 + 1, day);
    SuffixThrough("월 ", dp, n);
    SuffixThrough(IntToDecimal(month0 + 1), "월 " + dp, n);
    SuffixThrough("년 ", md, n);
    SuffixThrough(IntToDecimal(year), "년 " + md, n);
  }

  /** Text put in front keeps the end of a text. */
  lemma SuffixThrough(a: string, b: string, n: nat)
    requires n <= |b|
    ensures (a + b)[|a + b| - n..] == b[|b| - n..]
  {
  }
}
