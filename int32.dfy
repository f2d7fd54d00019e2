/** Unchecked 32-bit signed arithmetic, as C# evaluates `int` expressions by default. */
module Int32Math {

  const TWO_TO_THE_31: int := 0x8000_0000
  const TWO_TO_THE_32: int := 0x1_0000_0000

  predicate InRange(x: int) {
    -TWO_TO_THE_31 <= x < TWO_TO_THE_31
  }

  /** The two's-complement value a 32-bit `int` holds after computing `x` without overflow checks. */
  function Wrap(x: int): (r: int)
    ensures InRange(r)
    ensures (r - x) % TWO_TO_THE_32 == 0
    ensures InRange(x) ==> r == x
  {
    (x + TWO_TO_THE_31) % TWO_TO_THE_32 - TWO_TO_THE_31
  }

  /** Adding a multiple of 2^32 does not change the wrapped value. */
  lemma WrapShift(x: int, k: int)
    ensures Wrap(x + k * TWO_TO_THE_32) == Wrap(x)
  {
    var q, m := (x + TWO_TO_THE_31) / TWO_TO_THE_32, (x + TWO_TO_THE_31) % TWO_TO_THE_32;
    assert x + k * TWO_TO_THE_32 + TWO_TO_THE_31 == (q + k) * TWO_TO_THE_32 + m;
  }

  /** Wrapping an intermediate product does not change the wrapped final product. */
  lemma WrapMul(p: int, x: int)
    ensures Wrap(Wrap(p) * x) == Wrap(p * x)
  {
    var d := (Wrap(p) - p) / TWO_TO_THE_32;
    assert Wrap(p) == p + d * TWO_TO_THE_32;
    assert Wrap(p) * x == p * x + (d * x) * TWO_TO_THE_32 by {
      assert (p + d * TWO_TO_THE_32) * x == p * x + (d * x) * TWO_TO_THE_32;
    }
    WrapShift(p * x, d * x);
  }

  /** The mathematical product of the dimensions; 1 for no dimensions. */
  function Product(s: seq<int>): int {
    if s == [] then 1 else Product(s[..|s| - 1]) * s[|s| - 1]
  }

  /** A shape of non-negative dimensions has a non-negative element count. */
  lemma {:induction false} ProductNonNegative(s: seq<int>)
    requires forall i :: 0 <= i < |s| ==> s[i] >= 0
    ensures Product(s) >= 0
  {
    if s != [] {
      ProductNonNegative(s[..|s| - 1]);
    }
  }

  /**
   * When the exact product of non-negative dimensions fits in 32 bits, the unchecked
   * `int` product is that exact, non-negative count.
   */
  lemma {:induction false} WrapProductNonNegative(s: seq<int>)
    requires forall i :: 0 <= i < |s| ==> s[i] >= 0
    requires Product(s) < TWO_TO_THE_31
    ensures Wrap(Product(s)) == Product(s) >= 0
  {
    ProductNonNegative(s);
  }

  /** A shape with a zero dimension holds no elements. */
  lemma {:induction false} ProductZero(s: seq<int>, k: nat)
    requires k < |s| && s[k] == 0
    ensures Product(s) == 0
  {
    if k < |s| - 1 {
      ProductZero(s[..|s| - 1], k);
    }
  }
}
