/** JavaScript string primitives used by the catalog client and the screens:
    the white-space class shared by `\s` and `trim`, trimming, `split` on a
    single character, `includes`, and occurrence counting. */
module Text {

  /** A character that both `String.prototype.trim` and the regular-expression
      class `\s` treat as white space (ECMAScript WhiteSpace and LineTerminator). */
  predicate IsSpace(c: char)
  {
    c in SpaceChars
  }

  const SpaceChars: set<char> :=
    { '\t', '\n', '\U{000B}', '\U{000C}', '\r', ' ', '\U{00A0}', '\U{1680}',
      '\U{2000}', '\U{2001}', '\U{2002}', '\U{2003}', '\U{2004}', '\U{2005}',
      '\U{2006}', '\U{2007}', '\U{2008}', '\U{2009}', '\U{200A}',
      '\U{2028}', '\U{2029}', '\U{202F}', '\U{205F}', '\U{3000}', '\U{FEFF}' }

  predicate AllSpace(s: string)
  {
    forall i :: 0 <= i < |s| ==> IsSpace(s[i])
  }

  /** Every character of `s` in positions `lo..hi` is white space. */
  predicate SpaceBetween(s: string, lo: int, hi: int)
  {
    forall k :: 0 <= lo <= k < hi <= |s| ==> IsSpace(s[k])
  }

  /** No white space at either end. */
  predicate Trimmed(s: string)
  {
    |s| > 0 ==> !IsSpace(s[0]) && !IsSpace(s[|s| - 1])
  }

  /** The number of white-space characters `s` starts with. */
  function LeadingSpace(s: string, i: nat): (j: nat)
    requires i <= |s|
    ensures i <= j <= |s| && SpaceBetween(s, i, j)
    ensures j < |s| ==> !IsSpace(s[j])
    decreases |s| - i
  {
    if i < |s| && IsSpace(s[i]) then LeadingSpace(s, i + 1) else i
  }

  /** Where the trailing white-space run of `s[lo..]` begins. */
  function TrailingSpace(s: string, lo: nat, j: nat): (e: nat)
    requires lo <= j <= |s|
    ensures lo <= e <= j && SpaceBetween(s, e, j)
    ensures e > lo ==> !IsSpace(s[e - 1])
    decreases j
  {
    if j > lo && IsSpace(s[j - 1]) then TrailingSpace(s, lo, j - 1) else j
  }

  /** `s.trimStart()`: drops the leading white-space run. */
  function TrimStart(s: string): (r: string)
    ensures |r| <= |s| && r == s[|s| - |r|..]
    ensures SpaceBetween(s, 0, |s| - |r|)
    ensures |r| > 0 ==> !IsSpace(r[0])
  {
    s[LeadingSpace(s, 0)..]
  }

  /** Text that does not start with white space is its own `trimStart()`. */
  lemma TrimStartOfUnspaced(s: string)
    requires |s| == 0 || !IsSpace(s[0])
    ensures TrimStart(s) == s
  {
    assert LeadingSpace(s, 0) == 0;
  }

  /** `s.trim()`: the infix of `s` left after removing white space from both
      ends; it is empty exactly when `s` is all white space. */
  function Trim(s: string): (r: string)
    ensures Trimmed(r)
    ensures var i := |s| - |TrimStart(s)|;
              0 <= i <= |s| - |r| && r == s[i..i + |r|]
              && SpaceBetween(s, 0, i) && SpaceBetween(s, i + |r|, |s|)
    ensures r == [] <==> AllSpace(s)
  {
    var lo := LeadingSpace(s, 0);
    var e := TrailingSpace(s, lo, |s|);
    TrimEnds(s, lo, e);
    s[lo..e]
  }

  lemma TrimEnds(s: string, lo: nat, e: nat)
    requires lo == LeadingSpace(s, 0) && e == TrailingSpace(s, lo, |s|)
    ensures Trimmed(s[lo..e])
    ensures s[lo..e] == [] <==> AllSpace(s)
  {
    if e == lo {
      assert forall k :: 0 <= k < |s| ==> (k < lo || lo <= k) ==> IsSpace(s[k]);
    } else {
      assert s[lo..e][0] == s[lo];
      assert s[lo..e][e - lo - 1] == s[e - 1];
    }
  }

  /** Trimming a string that has no white space at its ends changes nothing. */
  lemma TrimOfTrimmed(s: string)
    requires Trimmed(s)
    ensures Trim(s) == s
  {
    if |s| > 0 {
      assert LeadingSpace(s, 0) == 0;
      assert TrailingSpace(s, 0, |s|) == |s|;
    }
    assert s[0..|s|] == s;
  }

  /** One leading space is removed by trimming. */
  lemma TrimOfSpaced(s: string)
    requires |s| > 0 && Trimmed(s)
    ensures Trim(" " + s) == s
  {
    var t := " " + s;
    assert LeadingSpace(t, 0) == 1 by {
      assert LeadingSpace(t, 1) == 1;
    }
    assert TrailingSpace(t, 1, |t|) == |t|;
    assert t[1..|t|] == s;
  }

  /** Trimming is idempotent. */
  lemma TrimIdempotent(s: string)
    ensures Trim(Trim(s)) == Trim(s)
  {
    TrimOfTrimmed(Trim(s));
  }

  /** Number of occurrences of `c` in `s`. */
  function Count(s: string, c: char): (n: nat)
    ensures n <= |s|
    ensures n == 0 <==> c !in s
  {
    if |s| == 0 then 0 else (if s[0] == c then 1 else 0) + Count(s[1..], c)
  }

  /** Joins the parts with `sep` between consecutive ones (`parts.join(sep)`). */
  function Join(parts: seq<string>, sep: char): string
    requires |parts| > 0
  {
    if |parts| == 1 then parts[0] else parts[0] + [sep] + Join(parts[1..], sep)
  }

  /** `s.split(sep)` for a one-character separator: the maximal runs between
      separators, in order; there is one more part than there are separators,
      and the first part is the text before the first separator. */
  function Split(s: string, sep: char): (parts: seq<string>)
    ensures |parts| == Count(s, sep) + 1
    ensures forall i :: 0 <= i < |parts| ==> sep !in parts[i]
    ensures parts[0] <= s
    ensures |parts| > 1 ==> |parts[0]| < |s| && s[|parts[0]|] == sep
  {
    if |s| == 0 then [""]
    else if s[0] == sep then [""] + Split(s[1..], sep)
    else
      var t := Split(s[1..], sep);
      [[s[0]] + t[0]] + t[1..]
  }

  /** Splitting and joining again gives back the original string. */
  lemma {:induction false} JoinSplit(s: string, sep: char)
    ensures Join(Split(s, sep), sep) == s
    decreases |s|
  {
    if |s| == 0 {
    } else if s[0] == sep {
      var t := Split(s[1..], sep);
      JoinSplit(s[1..], sep);
      JoinEmptyHead(t, sep);
      assert s == [sep] + s[1..];
    } else {
      var t := Split(s[1..], sep);
      JoinSplit(s[1..], sep);
      JoinExtendHead(s[0], t, sep);
      assert s == [s[0]] + s[1..];
    }
  }

  /** Prepending an empty part prepends one separator. */
  lemma JoinEmptyHead(t: seq<string>, sep: char)
    requires |t| > 0
    ensures Join([""] + t, sep) == [sep] + Join(t, sep)
  {
    assert ([""] + t)[1..] == t;
  }

  /** Extending the first part by one character extends the joined string by it. */
  lemma JoinExtendHead(c: char, t: seq<string>, sep: char)
    requires |t| > 0
    ensures Join([[c] + t[0]] + t[1..], sep) == [c] + Join(t, sep)
  {
    var parts := [[c] + t[0]] + t[1..];
    if |t| > 1 {
      assert parts[1..] == t[1..];
    }
  }

  /** Joining separator-free parts and splitting again gives back the parts. */
  lemma {:induction false} SplitJoin(parts: seq<string>, sep: char)
    requires |parts| > 0
    requires forall i :: 0 <= i < |parts| ==> sep !in parts[i]
    ensures Split(Join(parts, sep), sep) == parts
    decreases |parts|, |parts[0]|
  {
    var p := parts[0];
    if |p| == 0 {
      if |parts| > 1 {
        var rest := parts[1..];
        SepFreeTail(parts, sep);
        SplitJoin(rest, sep);
        SplitSepFirst(sep, Join(rest, sep));
        assert parts == [""] + rest;
      }
    } else {
      var shorter := [p[1..]] + parts[1..];
      var joined := Join(shorter, sep);
      SepFreeShorter(parts, sep);
      SplitJoin(shorter, sep);
      JoinHeadChar(parts, sep);
      assert p[0] != sep by { assert p[0] in p; }
      SplitOtherFirst(p[0], joined, sep);
      RebuildHead(parts);
    }
  }

  /** The parts after the first are separator-free too. */
  lemma SepFreeTail(parts: seq<string>, sep: char)
    requires |parts| > 0
    requires forall i :: 0 <= i < |parts| ==> sep !in parts[i]
    ensures forall i :: 0 <= i < |parts| - 1 ==> sep !in parts[1..][i]
  {
    forall i | 0 <= i < |parts| - 1 ensures sep !in parts[1..][i]
    {
      assert parts[1..][i] == parts[i + 1];
    }
  }

  /** Dropping the first character of the first part keeps every part
      separator-free. */
  lemma SepFreeShorter(parts: seq<string>, sep: char)
    requires |parts| > 0 && |parts[0]| > 0
    requires forall i :: 0 <= i < |parts| ==> sep !in parts[i]
    ensures var shorter := [parts[0][1..]] + parts[1..];
              forall i :: 0 <= i < |shorter| ==> sep !in shorter[i]
  {
    var shorter := [parts[0][1..]] + parts[1..];
    forall i | 0 <= i < |shorter| ensures sep !in shorter[i]
    {
      if i > 0 {
        assert shorter[i] == parts[i];
      } else {
        assert forall c :: c in parts[0][1..] ==> c in parts[0];
      }
    }
  }

  /** Putting the first character back on the first part rebuilds the parts. */
  lemma RebuildHead(parts: seq<string>)
    requires |parts| > 0 && |parts[0]| > 0
    ensures var shorter := [parts[0][1..]] + parts[1..];
              [[parts[0][0]] + shorter[0]] + shorter[1..] == parts
  {
    var shorter := [parts[0][1..]] + parts[1..];
    assert shorter[1..] == parts[1..];
    assert [parts[0][0]] + parts[0][1..] == parts[0];
  }

  /** A joined list whose first part is non-empty starts with that part's first character. */
  lemma JoinHeadChar(parts: seq<string>, sep: char)
    requires |parts| > 0 && |parts[0]| > 0
    ensures Join(parts, sep) == [parts[0][0]] + Join([parts[0][1..]] + parts[1..], sep)
  {
    var shorter := [parts[0][1..]] + parts[1..];
    assert parts[0] == [parts[0][0]] + parts[0][1..];
    if |parts| > 1 {
      assert shorter[1..] == parts[1..];
    }
  }

  /** Splitting text that starts with the separator yields an empty first part. */
  lemma SplitSepFirst(sep: char, rest: string)
    ensures Split([sep] + rest, sep) == [""] + Split(rest, sep)
  {
    assert ([sep] + rest)[1..] == rest;
  }

  /** Splitting text that starts with another character puts it on the first part. */
  lemma SplitOtherFirst(c: char, rest: string, sep: char)
    requires c != sep
    ensures var t := Split(rest, sep); Split([c] + rest, sep) == [[c] + t[0]] + t[1..]
  {
    assert ([c] + rest)[1..] == rest;
  }

  /** `s.includes(sub)`: `sub` occurs in `s` as a contiguous infix. */
  predicate Contains(s: string, sub: string)
  {
    sub <= s || (|s| > 0 && Contains(s[1..], sub))
  }

  /** `sub` occurs in `s` starting at offset `i`. */
  predicate OccursAt(s: string, sub: string, i: int)
  {
    0 <= i <= |s| - |sub| && s[i..i + |sub|] == sub
  }

  /** `Contains` holds exactly when `sub` occurs at some offset of `s`. */
  lemma {:induction false} ContainsAt(s: string, sub: string)
    ensures Contains(s, sub) <==> exists i :: OccursAt(s, sub, i)
    decreases |s|
  {
    if sub <= s {
      assert OccursAt(s, sub, 0);
    } else if |s| > 0 {
      ContainsAt(s[1..], sub);
      if Contains(s[1..], sub) {
        var i :| OccursAt(s[1..], sub, i);
        assert s[i + 1..i + 1 + |sub|] == s[1..][i..i + |sub|];
        assert OccursAt(s, sub, i + 1);
      }
      if exists i :: OccursAt(s, sub, i) {
        var i :| OccursAt(s, sub, i);
        if i > 0 {
          assert s[1..][i - 1..i - 1 + |sub|] == s[i..i + |sub|];
          assert OccursAt(s[1..], sub, i - 1);
        }
      }
    }
  }
}
