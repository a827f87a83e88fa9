/** The reading-room card (components/RoomCard.js): which bottom section it
    shows, and the order and number of participant avatars. */
module RoomCard {
  import opened Common

  // ---------------------------------------------------------------------
  // Bottom section
  // ---------------------------------------------------------------------

  const InProgress := "inProgress"
  const Recruiting := "recruiting"

  /** Reading progress shows for a room in progress the user takes part in. */
  predicate ShowProgress(isParticipating: bool, status: string)
  {
    isParticipating && status == InProgress
  }

  /** The avatars alone show for a room in progress the user is not in. */
  predicate ShowPeople(isParticipating: bool, status: string)
  {
    status == InProgress && !isParticipating
  }

  /** The recruiting notice shows for a room still recruiting. */
  predicate ShowRecruiting(status: string)
  {
    status == Recruiting
  }

  /** The card shows at most one of its three bottom sections, and one
      exactly when the status is one of the two it knows. */
  lemma SectionsExclusive(isParticipating: bool, status: string)
    ensures !(ShowProgress(isParticipating, status) && ShowPeople(isParticipating, status))
    ensures !(ShowProgress(isParticipating, status) && ShowRecruiting(status))
    ensures !(ShowPeople(isParticipating, status) && ShowRecruiting(status))
    ensures ShowProgress(isParticipating, status) || ShowPeople(isParticipating, status) || ShowRecruiting(status)
            <==> status == InProgress || status == Recruiting
  {
  }

  // ---------------------------------------------------------------------
  // Participants
  // ---------------------------------------------------------------------

  /** A participant id is a JavaScript number, a string, or `null`; a
      missing id (`undefined`) is `None` around it, so `===` keeps `null`
      and `undefined` apart as the language does. */
  datatype ParticipantId = NumberId(n: int) | TextId(s: string) | NullId

  /** A participant; the id may be missing, and `joinedAt` is a timestamp. */
  datatype Participant = Participant(id: Option<ParticipantId>, joinedAt: int, image: Option<string>)

  /** The first participant whose id is `userId` (`===`, so two missing ids
      are equal). */
  function FindUser(ps: seq<Participant>, userId: Option<ParticipantId>): (r: Option<Participant>)
    ensures r.None? <==> forall k :: 0 <= k < |ps| ==> ps[k].id != userId
    ensures r.Some? ==> exists k :: 0 <= k < |ps| && ps[k] == r.value && ps[k].id == userId
                                     && forall m :: 0 <= m < k ==> ps[m].id != userId
  {
    if |ps| == 0 then None
    else if ps[0].id == userId then Some(ps[0])
    else
      var r := FindUser(ps[1..], userId);
      if r.Some? then
        var k :| 0 <= k < |ps[1..]| && ps[1..][k] == r.value && ps[1..][k].id == userId
                 && forall m :: 0 <= m < k ==> ps[1..][m].id != userId;
        assert ps[k + 1] == r.value;
        r
      else r
  }

  /** The participants whose id is not `userId`, in their original order. */
  function Others(ps: seq<Participant>, userId: Option<ParticipantId>): (r: seq<Participant>)
    ensures |r| <= |ps|
    ensures forall k :: 0 <= k < |r| ==> r[k].id != userId
    ensures multiset(r) <= multiset(ps)
  {
    if |ps| == 0 then []
    else
      assert ps == [ps[0]] + ps[1..];
      if ps[0].id == userId then Others(ps[1..], userId)
      else [ps[0]] + Others(ps[1..], userId)
  }

  /** How many participants do not have id `userId`. */
  function CountOthers(ps: seq<Participant>, userId: Option<ParticipantId>): (n: nat)
    ensures n <= |ps|
  {
    if |ps| == 0 then 0
    else (if ps[0].id == userId then 0 else 1) + CountOthers(ps[1..], userId)
  }

  /** Newest first: `joinedAt` never increases along the list. */
  predicate NewestFirst(ps: seq<Participant>)
  {
    forall i, j :: 0 <= i < j < |ps| ==> ps[i].joinedAt >= ps[j].joinedAt
  }

  /** `x` placed before the first entry that joined no later than it. */
  function Insert(x: Participant, ps: seq<Participant>): (r: seq<Participant>)
    requires NewestFirst(ps)
    ensures NewestFirst(r)
    ensures multiset(r) == multiset(ps) + multiset{x}
    ensures |r| == |ps| + 1
  {
    if |ps| == 0 || ps[0].joinedAt <= x.joinedAt then
      [x] + ps
    else
      var rest := Insert(x, ps[1..]);
      assert ps == [ps[0]] + ps[1..];
      forall k | 0 <= k < |rest|
        ensures ps[0].joinedAt >= rest[k].joinedAt
      {
        assert rest[k] in multiset(ps[1..]) + multiset{x};
      }
      InsertBelowHead(ps[0], rest);
      [ps[0]] + rest
  }

  /** A head that joined no earlier than the newest of a newest-first list
      keeps it newest first. */
  lemma InsertBelowHead(h: Participant, rest: seq<Participant>)
    requires NewestFirst(rest)
    requires forall k :: 0 <= k < |rest| ==> h.joinedAt >= rest[k].joinedAt
    ensures NewestFirst([h] + rest)
  {
  }

  /** The sort the card applies to the others: newest first, and entries
      that joined at the same time keep their order (the sort of the
      language is stable). */
  function SortNewestFirst(ps: seq<Participant>): (r: seq<Participant>)
    ensures NewestFirst(r)
    ensures multiset(r) == multiset(ps)
    ensures |r| == |ps|
  {
    if |ps| == 0 then []
    else
      assert ps == [ps[0]] + ps[1..];
      Insert(ps[0], SortNewestFirst(ps[1..]))
  }

  /** The order of the avatars: the current user first when present, then
      everyone else newest first. */
  function SortedParticipants(ps: seq<Participant>, userId: Option<ParticipantId>): (r: seq<Participant>)
    ensures |ps| == 0 ==> r == []
    ensures FindUser(ps, userId).Some? ==> |r| > 0 && r[0] == FindUser(ps, userId).value
    ensures var tail := if FindUser(ps, userId).Some? then r[1..] else r;
              NewestFirst(tail) && multiset(tail) == multiset(Others(ps, userId))
  {
    if |ps| == 0 then []
    else
      var others := SortNewestFirst(Others(ps, userId));
      match FindUser(ps, userId)
      case Some(u) => [u] + others
      case None => others
  }

  lemma {:induction false} CountOthersIsLength(ps: seq<Participant>, userId: Option<ParticipantId>)
    ensures |Others(ps, userId)| == CountOthers(ps, userId)
  {
    if |ps| > 0 {
      CountOthersIsLength(ps[1..], userId);
    }
  }

  /** The ordering the card promises: the first participant with the
      current user's id leads when there is one, and after it come the
      others, each exactly as often as in the input. */
  lemma SortedParticipantsOrder(ps: seq<Participant>, userId: Option<ParticipantId>)
    ensures var r := SortedParticipants(ps, userId);
              var u := FindUser(ps, userId);
              var tail := if u.Some? then r[1..] else r;
              (u.Some? ==> |r| > 0 && r[0] == u.value)
              && multiset(tail) == multiset(Others(ps, userId))
  {
  }

  /** How many avatars there are: one per other participant, plus one for
      the current user when present. */
  lemma SortedParticipantsLength(ps: seq<Participant>, userId: Option<ParticipantId>)
    ensures |SortedParticipants(ps, userId)|
            == CountOthers(ps, userId) + (if FindUser(ps, userId).Some? then 1 else 0)
  {
    CountOthersIsLength(ps, userId);
  }

  /** After the head, nobody has the current user's id and the list is
      newest first. */
  lemma SortedParticipantsTail(ps: seq<Participant>, userId: Option<ParticipantId>)
    ensures var r := SortedParticipants(ps, userId);
              var tail := if FindUser(ps, userId).Some? then r[1..] else r;
              NewestFirst(tail) && forall k :: 0 <= k < |tail| ==> tail[k].id != userId
  {
    var others := Others(ps, userId);
    var sorted := SortNewestFirst(others);
    forall k | 0 <= k < |sorted|
      ensures sorted[k].id != userId
    {
      assert sorted[k] in multiset(others);
    }
  }

  /** Nobody is made up: every avatar is one of the participants. */
  lemma SortedParticipantsFromInput(ps: seq<Participant>, userId: Option<ParticipantId>)
    ensures multiset(SortedParticipants(ps, userId)) <= multiset(ps)
  {
    if |ps| > 0 {
      var others := Others(ps, userId);
      var u := FindUser(ps, userId);
      if u.Some? {
        var k :| 0 <= k < |ps| && ps[k] == u.value && ps[k].id == userId;
        OthersExcludes(ps, userId, k);
      }
    }
  }

  /** A participant with the current user's id is not counted among the
      others, so the others leave room for it. */
  lemma {:induction false} OthersExcludes(ps: seq<Participant>, userId: Option<ParticipantId>, k: nat)
    requires k < |ps| && ps[k].id == userId
    ensures multiset(Others(ps, userId)) + multiset{ps[k]} <= multiset(ps)
  {
    assert ps == [ps[0]] + ps[1..];
    if k > 0 {
      OthersExcludes(ps[1..], userId, k - 1);
    }
  }

  /** Every participant beyond the first that shares the current user's id
      is left out: with two such participants the list is shorter than the
      input. */
  lemma DuplicateUserDropped(ps: seq<Participant>, userId: Option<ParticipantId>, i: nat, j: nat)
    requires i < j < |ps| && ps[i].id == userId && ps[j].id == userId
    ensures |SortedParticipants(ps, userId)| < |ps|
  {
    SortedParticipantsLength(ps, userId);
    CountOthersMissing(ps, userId, i, j);
  }

  lemma {:induction false} CountOthersMissing(ps: seq<Participant>, userId: Option<ParticipantId>, i: nat, j: nat)
    requires i < j < |ps| && ps[i].id == userId && ps[j].id == userId
    ensures CountOthers(ps, userId) + 2 <= |ps|
  {
    if i > 0 {
      CountOthersMissing(ps[1..], userId, i - 1, j - 1);
    } else {
      CountOthersOneMissing(ps[1..], userId, j - 1);
    }
  }

  lemma {:induction false} CountOthersOneMissing(ps: seq<Participant>, userId: Option<ParticipantId>, j: nat)
    requires j < |ps| && ps[j].id == userId
    ensures CountOthers(ps, userId) + 1 <= |ps|
  {
    if j > 0 {
      CountOthersOneMissing(ps[1..], userId, j - 1);
    }
  }

  /** The home screen's cards pass three empty participant objects and no
      current user: all three share the missing id, so one avatar is shown. */
  lemma HomeScreenCardsShowOneAvatar()
    ensures var empty := Participant(None, 0, None);
              var r := SortedParticipants([empty, empty, empty], None);
              r == [empty] && Displayed(r) == [empty] && MoreCount(r) == 0
  {
    var empty := Participant(None, 0, None);
    var ps := [empty, empty, empty];
    assert Others(ps, None) == [];
    assert FindUser(ps, None) == Some(empty);
  }

  /** A participant whose id is `null` is not the current user when no
      user id is given (`undefined`), and is then kept among the others. */
  lemma NullIdIsNotMissing(p: Participant)
    requires p.id == Some(NullId)
    ensures FindUser([p], None) == None
    ensures Others([p], None) == [p]
    ensures FindUser([p], Some(NullId)) == Some(p)
  {
  }

  // ---------------------------------------------------------------------
  // Avatars on the card
  // ---------------------------------------------------------------------

  const MaxAvatars := 3

  /** The avatars drawn: the first three. */
  function Displayed(sorted: seq<Participant>): (r: seq<Participant>)
    ensures r <= sorted
    ensures |r| == if |sorted| <= MaxAvatars then |sorted| else MaxAvatars
  {
    if |sorted| <= MaxAvatars then sorted else sorted[..MaxAvatars]
  }

  /** The "+n" badge: how many participants are not drawn. */
  function MoreCount(sorted: seq<Participant>): (n: nat)
    ensures n > 0 <==> |sorted| > MaxAvatars
    ensures n == |sorted| - |Displayed(sorted)|
  {
    if |sorted| > MaxAvatars then |sorted| - MaxAvatars else 0
  }

  /** Drawn avatars and the badge together account for every participant. */
  lemma DisplayedPlusMore(sorted: seq<Participant>)
    ensures |Displayed(sorted)| + MoreCount(sorted) == |sorted|
    ensures Displayed(sorted) + sorted[|Displayed(sorted)|..] == sorted
  {
  }
}
