/** Option and Result values and the subsequence order shared by the
    modules of this model. */
module Common {

  /** A value that may be absent; `None` stands for JavaScript's `undefined`/`null`. */
  datatype Option<+T> = None | Some(value: T)
  {
    function GetOr(default: T): (r: T)
      ensures Some? ==> r == value
      ensures None? ==> r == default
    {
      match this
      case Some(v) => v
      case None => default
    }
  }

  /** The outcome of an operation that may throw: `Failure` is the thrown error. */
  datatype Result<+R, +E> = Success(value: R) | Failure(error: E)

  /** `sub` is `s` with some elements left out, the rest in order. */
  predicate Subsequence<T(==)>(sub: seq<T>, s: seq<T>)
  {
    if |sub| == 0 then true
    else if |s| == 0 then false
    else if sub[0] == s[0] then Subsequence(sub[1..], s[1..])
    else Subsequence(sub, s[1..])
  }

  /** Leaving out the first element of `s` keeps a subsequence of the rest
      a subsequence. */
  lemma SubsequenceSkip<T>(sub: seq<T>, s: seq<T>)
    requires |s| > 0 && Subsequence(sub, s[1..])
    ensures Subsequence(sub, s)
    decreases |s| + |sub|
  {
    if |sub| > 0 && sub[0] == s[0] {
      SubsequencePrefixTail(sub, s[1..]);
    }
  }

  /** The tail of a subsequence is a subsequence. */
  lemma {:induction false} SubsequencePrefixTail<T>(sub: seq<T>, s: seq<T>)
    requires |sub| > 0 && Subsequence(sub, s)
    ensures Subsequence(sub[1..], s)
    decreases |s| + |sub|
  {
    if sub[0] == s[0] {
      if |sub| > 1 {
        SubsequencePrefixTail(sub[1..], s[1..]);
        SubsequenceSkip(sub[1..], s);
      } else {
        assert |sub[1..]| == 0;
      }
    } else {
      SubsequencePrefixTail(sub, s[1..]);
      SubsequenceSkip(sub[1..], s);
    }
  }

  /** A prefix of a subsequence is a subsequence. */
  lemma {:induction false} PrefixOfSubsequence<T>(sub: seq<T>, s: seq<T>, n: nat)
    requires n <= |sub| && Subsequence(sub, s)
    ensures Subsequence(sub[..n], s)
    decreases |s|
  {
    if n > 0 {
      if sub[0] == s[0] {
        assert sub[..n][1..] == sub[1..][..n - 1];
        PrefixOfSubsequence(sub[1..], s[1..], n - 1);
      } else {
        PrefixOfSubsequence(sub, s[1..], n);
      }
    }
  }
}
