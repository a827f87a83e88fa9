/** The page dots under the best-review carousel (components/Navigator.js). */
module Navigator {

  const DefaultTotal := 5
  const DefaultActive := 0

  /** `Array.from({ length: total })`: a negative length makes no dots. */
  function DotCount(total: int): (n: nat)
    ensures total >= 0 ==> n == total
    ensures total < 0 ==> n == 0
  {
    if total < 0 then 0 else total
  }

  /** The dots, each `true` when drawn in the active style. */
  function Dots(total: int, active: int): (r: seq<bool>)
    ensures |r| == DotCount(total)
    ensures forall i :: 0 <= i < |r| ==> (r[i] <==> i == active)
  {
    seq(DotCount(total), i => i == active)
  }

  /** The number of `true` entries. */
  function CountActive(dots: seq<bool>): (n: nat)
    ensures n <= |dots|
  {
    if |dots| == 0 then 0
    else CountActive(dots[..|dots| - 1]) + (if dots[|dots| - 1] then 1 else 0)
  }

  /** Exactly one dot is active when the active index is in range, and
      none otherwise. */
  lemma {:induction false} OneActiveDot(total: int, active: int)
    ensures CountActive(Dots(total, active)) == if 0 <= active < DotCount(total) then 1 else 0
  {
    var n := DotCount(total);
    if n > 0 {
      var dots := Dots(total, active);
      assert dots[..n - 1] == Dots(n - 1, active);
      OneActiveDot(n - 1, active);
    }
  }

  /** With no properties the carousel shows five dots, the first active. */
  lemma DefaultDots()
    ensures Dots(DefaultTotal, DefaultActive) == [true, false, false, false, false]
  {
  }
}
