/** Powers of two, the width of the C code's 32-bit words, and counting in sets. */
module Numbers {

  const WIDTH := 0x1_0000_0000

  function Ones(b: bool): nat
  {
    if b then 1 else 0
  }

  function Pow2(n: nat): nat
  {
    if n == 0 then 1 else 2 * Pow2(n - 1)
  }

  lemma {:induction false} Pow2Add(a: nat, b: nat)
    ensures Pow2(a + b) == Pow2(a) * Pow2(b)
  {
    if a > 0 {
      Pow2Add(a - 1, b);
      assert Pow2(a + b) == 2 * (Pow2(a - 1) * Pow2(b));
    }
  }

  lemma {:induction false} Pow2Monotone(a: nat, b: nat)
    requires a <= b
    ensures Pow2(a) <= Pow2(b)
  {
    if a < b { Pow2Monotone(a, b - 1); }
  }

  lemma SquareMonotone(a: nat, b: nat)
    requires a <= b
    ensures a * a <= b * b
  {
    assert a * a <= a * b;
  }

  /** Deciding anew whether one element belongs to a set. */
  lemma CountAfter(s: set<nat>, t: set<nat>, i: nat, b: bool)
    requires t == if b then s + {i} else s - {i}
    ensures |t| == |s - {i}| + Ones(b)
  {
    assert b ==> t == (s - {i}) + {i};
  }

  lemma OnlyMember(s: set<nat>, i: nat)
    requires |s| <= 1 && i in s
    ensures s == {i}
  {
    assert s == {i} + (s - {i});
  }
}
