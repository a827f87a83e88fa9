/** The two author-string normalisers of the catalog client
    (services/aladinApi.js): the compact list form and the detail form. */
module AuthorNames {
  import opened Common
  import opened Text

  /** The first index at or after `from` holding `c`. */
  function IndexFrom(s: string, c: char, from: nat): (r: Option<nat>)
    requires from <= |s|
    ensures r.None? ==> forall k :: from <= k < |s| ==> s[k] != c
    ensures r.Some? ==> from <= r.value < |s| && s[r.value] == c
                        && forall k :: from <= k < r.value ==> s[k] != c
    decreases |s| - from
  {
    if from == |s| then None
    else if s[from] == c then Some(from)
    else IndexFrom(s, c, from + 1)
  }

  /** The end of the white-space run starting at `i`. */
  function SkipSpace(s: string, i: nat): (j: nat)
    requires i <= |s|
    ensures i <= j <= |s|
    ensures SpaceBetween(s, i, j)
    ensures j < |s| ==> !IsSpace(s[j])
    decreases |s| - i
  {
    if i < |s| && IsSpace(s[i]) then SkipSpace(s, i + 1) else i
  }

  /** Where a match of the pattern `\s*\([^)]*\)` that starts at `i` ends
      (exclusive), if one starts there: optional white space, an opening
      parenthesis, and everything up to and including the next closing one. */
  function GroupAt(s: string, i: nat): (e: Option<nat>)
    requires i <= |s|
    ensures e.Some? ==> i < e.value <= |s| && s[e.value - 1] == ')'
    ensures var j := SkipSpace(s, i);
              e.Some? <==> j < |s| && s[j] == '(' && exists k :: j < k < |s| && s[k] == ')'
    ensures e.Some? ==> var j := SkipSpace(s, i);
              j < e.value - 1 && forall k :: j < k < e.value - 1 ==> s[k] != ')'
  {
    var j := SkipSpace(s, i);
    if j < |s| && s[j] == '(' then
      match IndexFrom(s, ')', j + 1)
      case Some(k) => Some(k + 1)
      case None => None
    else None
  }

  /** The global replacement of `\s*\([^)]*\)` by the empty string, applied to
      `s` from position `i` on: a left-to-right scan that drops each match and
      keeps every character no match starts at. */
  function StripFrom(s: string, i: nat): string
    requires i <= |s|
    decreases |s| - i
  {
    if i == |s| then []
    else
      match GroupAt(s, i)
      case Some(e) => StripFrom(s, e)
      case None => [s[i]] + StripFrom(s, i + 1)
  }

  /** One step of the scan: a match is skipped whole, any other character kept. */
  lemma StripUnfold(s: string, i: nat)
    requires i < |s|
    ensures GroupAt(s, i).None? ==> StripFrom(s, i) == [s[i]] + StripFrom(s, i + 1)
    ensures GroupAt(s, i).Some? ==> StripFrom(s, i) == StripFrom(s, GroupAt(s, i).value)
  {
  }

  /** `s.replace(/\s*\([^)]*\)/g, '')`. */
  function StripGroups(s: string): string
  {
    StripFrom(s, 0)
  }

  /** No opening parenthesis is followed, anywhere later, by a closing one. */
  predicate NoClosedGroup(s: string)
  {
    forall p, q :: 0 <= p < q < |s| && s[p] == '(' ==> s[q] != ')'
  }

  /** Stripping only ever drops characters: whatever it keeps came from `s`. */
  lemma {:induction false} StripKeepsFrom(s: string, i: nat, c: char)
    requires i <= |s|
    requires c in StripFrom(s, i)
    ensures c in s[i..]
    decreases |s| - i
  {
    if i < |s| {
      match GroupAt(s, i)
      case Some(e) =>
        StripKeepsFrom(s, e, c);
        assert s[e..] == s[i..][e - i..];
      case None =>
        if c != s[i] {
          StripKeepsFrom(s, i + 1, c);
          assert s[i + 1..] == s[i..][1..];
        }
    }
  }

  /** After stripping, no parenthesised group is left: every `(` that is kept
      has no `)` after it. */
  lemma {:induction false} StripLeavesNoGroup(s: string, i: nat)
    requires i <= |s|
    ensures NoClosedGroup(StripFrom(s, i))
    decreases |s| - i
  {
    if i < |s| {
      match GroupAt(s, i)
      case Some(e) =>
        StripLeavesNoGroup(s, e);
      case None =>
        StripLeavesNoGroup(s, i + 1);
        if s[i] == '(' {
          UnmatchedOpenKept(s, i);
        }
        ConsNoClosedGroup(s[i], StripFrom(s, i + 1));
        StripUnfold(s, i);
    }
  }

  /** A `(` that starts no match has no `)` after it, so none is kept after it. */
  lemma UnmatchedOpenKept(s: string, i: nat)
    requires i < |s| && s[i] == '(' && GroupAt(s, i).None?
    ensures ')' !in StripFrom(s, i + 1)
  {
    assert SkipSpace(s, i) == i;
    if ')' in StripFrom(s, i + 1) {
      StripKeepsFrom(s, i + 1, ')');
    }
  }

  /** Putting a character in front keeps a string free of closed groups,
      unless it is a `(` with a `)` somewhere after it. */
  lemma ConsNoClosedGroup(c: char, t: string)
    requires NoClosedGroup(t) && (c == '(' ==> ')' !in t)
    ensures NoClosedGroup([c] + t)
  {
    var r := [c] + t;
    forall p, q | 0 <= p < q < |r| && r[p] == '(' ensures r[q] != ')'
    {
      if p == 0 {
        assert r[q] == t[q - 1];
      } else {
        assert r[p] == t[p - 1] && r[q] == t[q - 1];
      }
    }
  }

  /** Text without any `(` is left unchanged. */
  lemma {:induction false} StripWithoutParens(s: string, i: nat)
    requires i <= |s|
    requires '(' !in s[i..]
    ensures StripFrom(s, i) == s[i..]
    decreases |s| - i
  {
    if i < |s| {
      var j := SkipSpace(s, i);
      assert j < |s| ==> s[j] == s[i..][j - i];
      assert GroupAt(s, i).None?;
      assert '(' !in s[i + 1..] by { assert s[i + 1..] == s[i..][1..]; }
      StripWithoutParens(s, i + 1);
      assert s[i..] == [s[i]] + s[i + 1..];
    }
  }

  /** Every infix of a string without closed groups is without them too. */
  lemma NoClosedGroupInfix(s: string, i: nat, j: nat)
    requires i <= j <= |s|
    requires NoClosedGroup(s)
    ensures NoClosedGroup(s[i..j])
  {
    var t := s[i..j];
    forall p, q | 0 <= p < q < |t| && t[p] == '(' ensures t[q] != ')'
    {
      assert t[p] == s[i + p] && t[q] == s[i + q];
    }
  }

  /** A non-empty group opens at `j`: `(`, at least one character that is not
      `)`, and a `)` somewhere after it. */
  predicate GroupOpensAt(s: string, j: int)
  {
    0 <= j && j + 1 < |s| && s[j] == '(' && s[j + 1] != ')' && exists q :: j + 2 <= q < |s| && s[q] == ')'
  }

  /** Some non-empty group opens at or after `from`. */
  predicate HasRole(s: string, from: int)
  {
    exists j :: from <= j < |s| && GroupOpensAt(s, j)
  }

  /** The group opening at `j` is the first non-empty one at or after `from`. */
  predicate LeftmostGroup(s: string, from: int, j: int)
  {
    from <= j && GroupOpensAt(s, j) && forall m :: from <= m < j ==> !GroupOpensAt(s, m)
  }

  /** `c` is the text right after the `(` at `j`, up to the next `)`. */
  predicate CaptureAt(s: string, j: int, c: string)
  {
    0 <= j && j + 1 + |c| < |s| && s[j + 1..j + 1 + |c|] == c && ')' !in c && s[j + 1 + |c|] == ')'
  }

  /** The capture of the first match of `/\(([^)]+)\)/` at or after `from`:
      the text between the first `(` that opens a non-empty group and the next `)`. */
  function RoleFrom(s: string, from: nat): (r: Option<string>)
    requires from <= |s|
    ensures r.Some? ==> |r.value| > 0 && ')' !in r.value
    ensures r.None? <==> !HasRole(s, from)
    ensures r.Some? ==> exists j :: LeftmostGroup(s, from, j) && CaptureAt(s, j, r.value)
    decreases |s| - from
  {
    match IndexFrom(s, '(', from)
    case None =>
      NoRoleWithoutOpen(s, from);
      None
    case Some(j) =>
      match IndexFrom(s, ')', j + 1)
      case None =>
        NoRoleWithoutClose(s, from, j);
        None
      case Some(k) =>
        if k > j + 1 then
          RoleAt(s, from, j, k);
          LeftmostHere(s, from, j, k);
          Some(s[j + 1..k])
        else
          RoleSkipsEmpty(s, from, j);
          LeftmostPastEmpty(s, from, j);
          RoleFrom(s, j + 1)
  }

  lemma NoRoleWithoutOpen(s: string, from: nat)
    requires from <= |s|
    requires forall k :: from <= k < |s| ==> s[k] != '('
    ensures !HasRole(s, from)
  {
  }

  lemma NoRoleWithoutClose(s: string, from: nat, j: nat)
    requires from <= j < |s| && s[j] == '('
    requires forall k :: from <= k < j ==> s[k] != '('
    requires forall k :: j + 1 <= k < |s| ==> s[k] != ')'
    ensures !HasRole(s, from)
  {
  }

  lemma RoleAt(s: string, from: nat, j: nat, k: nat)
    requires from <= j < k < |s| && s[j] == '(' && s[k] == ')' && k > j + 1
    requires forall m :: j + 1 <= m < k ==> s[m] != ')'
    ensures ')' !in s[j + 1..k]
    ensures HasRole(s, from)
  {
    assert GroupOpensAt(s, j);
  }

  /** The leftmost group and its capture are unique, so `RoleFrom`'s contract
      pins its result: a later group's text can never be returned. */
  lemma LeftmostCaptureUnique(s: string, from: int, i: int, c: string, j: int, d: string)
    requires LeftmostGroup(s, from, i) && CaptureAt(s, i, c)
    requires LeftmostGroup(s, from, j) && CaptureAt(s, j, d)
    ensures i == j && c == d
  {
  }

  /** With two groups, the first one's text is the role. */
  lemma RoleOfTwoGroups()
    ensures RoleFrom("(a) (b)", 0) == Some("a")
  {
    var s := "(a) (b)";
    IndexFromIs(s, '(', 0, 0);
    IndexFromIs(s, ')', 1, 2);
    RoleFromAt(s, 0, 0, 2);
    assert s[1..2] == "a";
  }

  /** A group at the first `(` at or after `from` is the leftmost one, and its
      capture runs to the next `)`. */
  lemma LeftmostHere(s: string, from: nat, j: nat, k: nat)
    requires from <= j < k < |s| && s[j] == '(' && s[k] == ')' && k > j + 1
    requires forall m :: from <= m < j ==> s[m] != '('
    requires forall m :: j + 1 <= m < k ==> s[m] != ')'
    ensures LeftmostGroup(s, from, j) && CaptureAt(s, j, s[j + 1..k])
  {
    assert GroupOpensAt(s, j);
    var c := s[j + 1..k];
    assert j + 1 + |c| == k;
    forall m | 0 <= m < |c| ensures c[m] != ')'
    {
      assert c[m] == s[j + 1 + m];
    }
  }

  /** An empty group `()` at the first `(` opens no match, so the leftmost
      group after it is the leftmost one from `from` on. */
  lemma LeftmostPastEmpty(s: string, from: nat, j: nat)
    requires from <= j && j + 1 < |s| && s[j] == '(' && s[j + 1] == ')'
    requires forall k :: from <= k < j ==> s[k] != '('
    ensures forall i :: LeftmostGroup(s, j + 1, i) ==> LeftmostGroup(s, from, i)
  {
    forall i | LeftmostGroup(s, j + 1, i) ensures LeftmostGroup(s, from, i)
    {
      forall m | from <= m < i ensures !GroupOpensAt(s, m)
      {
        if m > j {
          assert j + 1 <= m;
        }
      }
    }
  }

  lemma RoleSkipsEmpty(s: string, from: nat, j: nat)
    requires from <= j && j + 1 < |s| && s[j] == '(' && s[j + 1] == ')'
    requires forall k :: from <= k < j ==> s[k] != '('
    ensures HasRole(s, from) <==> HasRole(s, j + 1)
  {
    if HasRole(s, from) {
      var m :| from <= m < |s| && GroupOpensAt(s, m);
      assert m != j;
    }
  }

  /** The role that counts as no role at all: "지은이" (author). */
  const WriterRole: string := "지은이"

  /** One contributor of the detail form. */
  datatype AuthorEntry = AuthorEntry(name: string, role: Option<string>)

  /** The detail entry of one (already trimmed) comma-separated part: its name is
      the part with every group removed, trimmed; its role is the first
      non-empty group's text unless that is the writer role. */
  function EntryOf(part: string): (e: AuthorEntry)
    ensures Trimmed(e.name) && NoClosedGroup(e.name)
    ensures e.role.None? <==> !HasRole(part, 0) || RoleFrom(part, 0) == Some(WriterRole)
    ensures e.role.Some? ==> e.role == RoleFrom(part, 0) && e.role.value != WriterRole
  {
    var stripped := StripGroups(part);
    var name := Trim(stripped);
    StripLeavesNoGroup(part, 0);
    TrimOfNoGroup(stripped);
    var role := RoleFrom(part, 0);
    if role.Some? && role.value != WriterRole then AuthorEntry(name, role)
    else AuthorEntry(name, None)
  }

  lemma TrimOfNoGroup(s: string)
    requires NoClosedGroup(s)
    ensures NoClosedGroup(Trim(s))
  {
    var r := Trim(s);
    var i := |s| - |TrimStart(s)|;
    NoClosedGroupInfix(s, i, i + |r|);
  }

  /** `cleanAuthorName`: the compact author shown in lists. Absent or empty
      input gives the empty string; otherwise the first comma-separated
      contributor with every parenthesised group removed, trimmed. */
  function CleanAuthorName(author: Option<string>): (r: string)
    ensures author.None? || author.value == "" ==> r == ""
    ensures ',' !in r
    ensures Trimmed(r) && NoClosedGroup(r)
  {
    if author.None? || author.value == "" then ""
    else
      var first := Split(author.value, ',')[0];
      var stripped := StripGroups(first);
      StripLeavesNoGroup(first, 0);
      TrimOfNoGroup(stripped);
      NoCommaAfterStrip(first);
      Trim(stripped)
  }

  lemma NoCommaAfterStrip(first: string)
    requires ',' !in first
    ensures ',' !in Trim(StripGroups(first))
  {
    var s := StripGroups(first);
    if ',' in s {
      StripKeepsFrom(first, 0, ',');
    }
    var r := Trim(s);
    var i := |s| - |TrimStart(s)|;
    assert forall c :: c in r ==> c in s;
  }

  /** Only the text before the first comma reaches the compact form. */
  lemma CleanAuthorNameFirstOnly(first: string, rest: string)
    requires ',' !in first
    ensures CleanAuthorName(Some(first + [','] + rest)) == CleanAuthorName(Some(first))
  {
    var s := first + [','] + rest;
    SplitHead(first, rest, ',');
    assert CleanAuthorName(Some(s)) == Trim(StripGroups(first));
    if first == "" {
      assert StripGroups("") == "";
      TrimOfTrimmed("");
    } else {
      SplitWithoutSeparator(first, ',');
    }
  }

  /** The first part of a split is the text before the first separator. */
  lemma SplitHead(first: string, rest: string, sep: char)
    requires sep !in first
    ensures Split(first + [sep] + rest, sep)[0] == first
  {
    var s := first + [sep] + rest;
    var p := Split(s, sep)[0];
    assert s[|first|] == sep;
    assert Count(s, sep) > 0;
    assert p <= s && sep !in p;
    assert |p| < |s| && s[|p|] == sep;
    assert |p| == |first|;
    assert p == s[..|p|];
    assert first == s[..|first|];
  }

  /** A string without the separator splits into itself alone. */
  lemma SplitWithoutSeparator(s: string, sep: char)
    requires sep !in s
    ensures Split(s, sep) == [s]
  {
    JoinSplit(s, sep);
  }

  /** Entries for the parts of a split, one per part, in order. */
  function EntriesOf(parts: seq<string>): (r: seq<AuthorEntry>)
    ensures |r| == |parts|
    ensures forall i :: 0 <= i < |r| ==> r[i] == EntryOf(Trim(parts[i]))
  {
    seq(|parts|, i requires 0 <= i < |parts| => EntryOf(Trim(parts[i])))
  }

  /** `formatAuthorForDetail`: absent or empty input gives no entries;
      otherwise exactly one entry per comma-separated contributor, in order. */
  function FormatAuthorForDetail(author: Option<string>): (r: seq<AuthorEntry>)
    ensures author.None? || author.value == "" ==> r == []
    ensures author.Some? && author.value != "" ==>
              |r| == Count(author.value, ',') + 1
              && forall i :: 0 <= i < |r| ==> r[i] == EntryOf(Trim(Split(author.value, ',')[i]))
    ensures forall i :: 0 <= i < |r| ==> r[i].role != Some(WriterRole)
  {
    if author.None? || author.value == "" then []
    else EntriesOf(Split(author.value, ','))
  }

  /** A name followed by one role annotation, as the catalog writes a contributor:
      `"홍길동 (지은이)"`. */
  function Annotated(name: string, role: string): string
  {
    name + " (" + role + ")"
  }

  /** Where the parts of an annotated contributor sit. */
  lemma AnnotatedLayout(name: string, role: string)
    ensures var a := Annotated(name, role);
              |a| == |name| + |role| + 3
              && (forall k :: 0 <= k < |name| ==> a[k] == name[k])
              && a[|name|] == ' ' && a[|name| + 1] == '(' && a[|a| - 1] == ')'
              && (forall k :: 0 <= k < |role| ==> a[|name| + 2 + k] == role[k])
              && a[|name| + 2..|a| - 1] == role
  {
  }

  /** Text appended after an annotated contributor leaves its first
      `|name| + 2` characters and its `)` where they were. */
  lemma AnnotatedPrefix(name: string, role: string, rest: string)
    ensures var a := Annotated(name, role);
              (forall k :: 0 <= k < |a| ==> (a + rest)[k] == a[k])
              && (a + rest)[|a|..] == rest
  {
  }

  /** `IndexFrom` finds the first occurrence. */
  lemma IndexFromIs(s: string, c: char, from: nat, k: nat)
    requires from <= k < |s| && s[k] == c
    requires forall m :: from <= m < k ==> s[m] != c
    ensures IndexFrom(s, c, from) == Some(k)
  {
  }

  /** Text appended after an occurrence does not move it. */
  lemma IndexFromExtend(a: string, rest: string, c: char, from: nat, k: nat)
    requires from <= |a| && IndexFrom(a, c, from) == Some(k)
    ensures IndexFrom(a + rest, c, from) == Some(k)
  {
    forall m | from <= m <= k ensures (a + rest)[m] == a[m]
    {
    }
    IndexFromIs(a + rest, c, from, k);
  }

  /** The first `(` of an annotated contributor opens its annotation. */
  lemma AnnotatedOpen(name: string, role: string)
    requires '(' !in name
    ensures IndexFrom(Annotated(name, role), '(', 0) == Some(|name| + 1)
  {
    var a := Annotated(name, role);
    AnnotatedLayout(name, role);
    forall m | 0 <= m < |name| + 1 ensures a[m] != '('
    {
      if m < |name| {
        assert a[m] == name[m];
      }
    }
    IndexFromIs(a, '(', 0, |name| + 1);
  }

  /** The first `)` after the `(` closes the annotation. */
  lemma AnnotatedClose(name: string, role: string)
    requires ')' !in role
    ensures var a := Annotated(name, role); IndexFrom(a, ')', |name| + 2) == Some(|a| - 1)
  {
    var a := Annotated(name, role);
    AnnotatedLayout(name, role);
    forall m | |name| + 2 <= m < |a| - 1 ensures a[m] != ')'
    {
      assert a[m] == role[m - |name| - 2];
    }
    IndexFromIs(a, ')', |name| + 2, |a| - 1);
  }

  /** The group of an annotated contributor is the whole of " (role)". */
  lemma AnnotatedGroup(name: string, role: string, rest: string)
    requires ')' !in role
    ensures var a := Annotated(name, role);
              SkipSpace(a + rest, |name|) == |name| + 1 && GroupAt(a + rest, |name|) == Some(|a|)
  {
    var a := Annotated(name, role);
    AnnotatedMarks(name, role, rest);
    AnnotatedClose(name, role);
    IndexFromExtend(a, rest, ')', |name| + 2, |a| - 1);
    GroupAtHere(a + rest, |name|, |a| - 1);
  }

  /** The space and the `(` after the name stay in place whatever follows. */
  lemma AnnotatedMarks(name: string, role: string, rest: string)
    ensures var s := Annotated(name, role) + rest;
              |Annotated(name, role)| == |name| + |role| + 3
              && s[|name|] == ' ' && s[|name| + 1] == '('
  {
  }

  /** A space, then `(`, then a later `)`: the match starts at the space and
      ends after the first such `)`. */
  lemma GroupAtHere(s: string, i: nat, k: nat)
    requires i + 1 < |s| && s[i] == ' ' && s[i + 1] == '('
    requires i + 2 <= |s| && IndexFrom(s, ')', i + 2) == Some(k)
    ensures SkipSpace(s, i) == i + 1 && GroupAt(s, i) == Some(k + 1)
  {
    assert SkipSpace(s, i + 1) == i + 1;
  }

  /** Stripping an annotated contributor leaves the bare name. */
  lemma StripAnnotated(name: string, role: string)
    requires '(' !in name && ')' !in role
    requires |name| > 0 && !IsSpace(name[|name| - 1])
    ensures StripGroups(Annotated(name, role)) == name
  {
    StripAroundGroup(name, role, "");
    assert Annotated(name, role) + "" == Annotated(name, role);
    assert name + "" == name;
  }

  /** The replace removes a group together with the white space before it
      and keeps the text on both sides: `"a (r)b"` becomes `"ab"`. */
  lemma StripAroundGroup(name: string, role: string, rest: string)
    requires '(' !in name && ')' !in role && '(' !in rest
    requires |name| > 0 && !IsSpace(name[|name| - 1])
    ensures StripGroups(Annotated(name, role) + rest) == name + rest
  {
    StripAnnotatedFrom(name, role, rest, 0);
    assert name[0..] == name;
  }

  lemma {:induction false} StripAnnotatedFrom(name: string, role: string, rest: string, i: nat)
    requires '(' !in name && ')' !in role && '(' !in rest
    requires |name| > 0 && !IsSpace(name[|name| - 1])
    requires i <= |name|
    ensures StripFrom(Annotated(name, role) + rest, i) == name[i..] + rest
    decreases |name| - i
  {
    var s := Annotated(name, role) + rest;
    if i == |name| {
      StripAtGroup(name, role, rest);
      assert name[i..] == [];
    } else {
      NameStartsNoGroup(name, role, rest, i);
      StripAnnotatedFrom(name, role, rest, i + 1);
      StripKeepsChar(s, i, name[i..], name[i + 1..] + rest);
      assert name[i..] + rest == [name[i]] + (name[i + 1..] + rest);
    }
  }

  /** A character no match starts at is kept in front of the rest of the scan. */
  lemma StripKeepsChar(s: string, i: nat, kept: string, t: string)
    requires i < |s| && GroupAt(s, i).None? && |kept| > 0 && s[i] == kept[0]
    requires StripFrom(s, i + 1) == t
    ensures StripFrom(s, i) == [kept[0]] + t
  {
    StripUnfold(s, i);
  }

  /** From the white space before the group on, only `rest` is kept. */
  lemma StripAtGroup(name: string, role: string, rest: string)
    requires ')' !in role && '(' !in rest
    ensures StripFrom(Annotated(name, role) + rest, |name|) == rest
  {
    var a := Annotated(name, role);
    var s := a + rest;
    AnnotatedGroup(name, role, rest);
    assert s[|a|..] == rest;
    StripWithoutParens(s, |a|);
  }

  /** Inside the name no match starts: the white space there is followed by
      more of the name, which has no `(`. */
  lemma NameStartsNoGroup(name: string, role: string, rest: string, i: nat)
    requires '(' !in name
    requires |name| > 0 && !IsSpace(name[|name| - 1])
    requires i < |name|
    ensures GroupAt(Annotated(name, role) + rest, i).None?
    ensures (Annotated(name, role) + rest)[i] == name[i]
  {
    var s := Annotated(name, role) + rest;
    AnnotatedLayout(name, role);
    AnnotatedPrefix(name, role, rest);
    var j := SkipSpace(s, i);
    assert s[|name| - 1] == name[|name| - 1];
    assert j < |name|;
    assert s[j] == name[j];
  }

  /** The role of an annotated contributor is its annotation, whatever follows. */
  lemma RoleOfAnnotated(name: string, role: string, rest: string)
    requires '(' !in name && ')' !in role && |role| > 0
    ensures RoleFrom(Annotated(name, role) + rest, 0) == Some(role)
  {
    var a := Annotated(name, role);
    var s := a + rest;
    AnnotatedOpen(name, role);
    IndexFromExtend(a, rest, '(', 0, |name| + 1);
    AnnotatedClose(name, role);
    IndexFromExtend(a, rest, ')', |name| + 2, |a| - 1);
    AnnotatedRoleText(name, role, rest);
    RoleFromAt(s, 0, |name| + 1, |a| - 1);
  }

  /** In `name (role)` followed by more text, the role sits between the
      `(` and the final `)` of the annotated part. */
  lemma AnnotatedRoleText(name: string, role: string, rest: string)
    ensures var a := Annotated(name, role);
              |a| == |name| + |role| + 3 && (a + rest)[|name| + 2..|a| - 1] == role
  {
    var a := Annotated(name, role);
    AnnotatedLayout(name, role);
    assert (a + rest)[..|a|] == a;
    assert (a + rest)[|name| + 2..|a| - 1] == a[|name| + 2..|a| - 1];
  }

  /** When the first `(` and the next `)` enclose some text, that text is the role. */
  lemma RoleFromAt(s: string, from: nat, j: nat, k: nat)
    requires from <= |s|
    requires IndexFrom(s, '(', from) == Some(j) && IndexFrom(s, ')', j + 1) == Some(k)
    requires k > j + 1
    ensures RoleFrom(s, from) == Some(s[j + 1..k])
  {
    RoleAt(s, from, j, k);
    var c := RoleFrom(s, from).value;
    var i :| LeftmostGroup(s, from, i) && CaptureAt(s, i, c);
    LeftmostIsFirstOpen(s, from, i, j, k);
    CaptureEndsAtClose(s, j, c, k);
  }

  /** The leftmost group opens at the first `(` when that one encloses text. */
  lemma LeftmostIsFirstOpen(s: string, from: nat, i: int, j: nat, k: nat)
    requires from <= j < k < |s| && s[j] == '(' && s[k] == ')' && k > j + 1
    requires forall m :: from <= m < j ==> s[m] != '('
    requires forall m :: j + 1 <= m < k ==> s[m] != ')'
    requires LeftmostGroup(s, from, i)
    ensures i == j
  {
    assert GroupOpensAt(s, j);
  }

  /** A capture that starts after the `(` at `j` ends at the next `)`. */
  lemma CaptureEndsAtClose(s: string, j: nat, c: string, k: nat)
    requires j < k < |s| && s[k] == ')'
    requires forall m :: j + 1 <= m < k ==> s[m] != ')'
    requires CaptureAt(s, j, c)
    ensures c == s[j + 1..k]
  {
  }

  /** A contributor name as the catalog writes it: non-empty, without
      parentheses or commas, and without white space at its ends. */
  predicate PlainName(name: string)
  {
    |name| > 0 && '(' !in name && ')' !in name && ',' !in name && Trimmed(name)
  }

  /** A role annotation: non-empty, without parentheses or commas. */
  predicate PlainRole(role: string)
  {
    |role| > 0 && '(' !in role && ')' !in role && ',' !in role
  }

  /** The list form of annotated contributors is the first one's bare name. */
  lemma CleanAnnotated(name: string, role: string, rest: string)
    requires PlainName(name) && PlainRole(role)
    ensures CleanAuthorName(Some(Annotated(name, role) + [','] + rest)) == name
  {
    var a := Annotated(name, role);
    assert ',' !in a;
    CleanAuthorNameFirstOnly(a, rest);
    SplitWithoutSeparator(a, ',');
    StripAnnotated(name, role);
    TrimOfTrimmed(name);
  }

  /** The detail entry of an annotated contributor, possibly preceded by spaces. */
  lemma EntryOfAnnotated(name: string, role: string)
    requires PlainName(name) && PlainRole(role)
    ensures EntryOf(Trim(Annotated(name, role))) == AuthorEntry(name, if role == WriterRole then None else Some(role))
    ensures EntryOf(Trim(" " + Annotated(name, role))) == EntryOf(Trim(Annotated(name, role)))
  {
    var a := Annotated(name, role);
    assert a[|a| - 1] == ')' && a[0] == name[0];
    TrimOfTrimmed(a);
    TrimOfSpaced(a);
    StripAnnotated(name, role);
    TrimOfTrimmed(name);
    RoleOfAnnotated(name, role, "");
    assert a + "" == a;
  }

  /** Text with no group keeps every character: its compact form is its
      first comma-separated part, trimmed. */
  lemma CleanAuthorNameWithoutGroups(s: string)
    requires '(' !in s
    ensures CleanAuthorName(Some(s)) == Trim(Split(s, ',')[0])
  {
    var first := Split(s, ',')[0];
    if s == "" {
      TrimOfTrimmed("");
    } else {
      assert '(' !in first by {
        assert forall k :: 0 <= k < |first| ==> first[k] == s[k];
      }
      StripWithoutParens(first, 0);
      assert first[0..] == first;
    }
  }

  /** A part with no group is its own name, trimmed, and has no role. */
  lemma EntryOfWithoutGroups(part: string)
    requires '(' !in part
    ensures EntryOf(part) == AuthorEntry(Trim(part), None)
  {
    StripWithoutParens(part, 0);
    assert part[0..] == part;
    NoRoleWithoutOpen(part, 0);
  }

  /** Text on both sides of a group survives into the detail entry: the
      name is what precedes and follows the group, trimmed, and the role is
      the group's text. */
  lemma EntryOfAroundGroup(name: string, role: string, rest: string)
    requires PlainName(name) && PlainRole(role) && '(' !in rest
    ensures EntryOf(Annotated(name, role) + rest)
            == AuthorEntry(Trim(name + rest), if role == WriterRole then None else Some(role))
  {
    StripAroundGroup(name, role, rest);
    RoleOfAnnotated(name, role, rest);
  }

  lemma ExampleNames()
    ensures PlainName("홍길동") && PlainName("김철수")
    ensures PlainRole("엮은이") && PlainRole("지은이") && PlainRole("옮긴이")
  {
  }

  /** The example of the source's documentation: only the first contributor,
      without its role, reaches the list form. */
  lemma CleanAuthorNameExample()
    ensures CleanAuthorName(Some("홍길동 (엮은이), 김철수 (원작)")) == "홍길동"
  {
    ExampleNames();
    assert "홍길동 (엮은이), 김철수 (원작)" == Annotated("홍길동", "엮은이") + [','] + " 김철수 (원작)";
    CleanAnnotated("홍길동", "엮은이", " 김철수 (원작)");
  }
}
