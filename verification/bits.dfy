// Unsigned shifts and masks as the C code computes them, on natural numbers.
module Bits {

  function Pow2(k: nat): (p: nat)
    ensures p >= 1
  {
    if k == 0 then 1 else 2 * Pow2(k - 1)
  }

  lemma Pow2Of5()
    ensures Pow2(5) == 32
  {
    assert Pow2(1) == 2 && Pow2(2) == 4 && Pow2(3) == 8 && Pow2(4) == 16;
  }

  /** The C operator & on unsigned values of any width. */
  function BitAnd(a: nat, b: nat): (r: nat)
    ensures r <= b
  {
    if a == 0 || b == 0 then 0
    else (if a % 2 == 1 && b % 2 == 1 then 1 else 0) + 2 * BitAnd(a / 2, b / 2)
  }

  /** The C operator >> on unsigned values. */
  function Shr(a: nat, k: nat): nat {
    if k == 0 then a else Shr(a / 2, k - 1)
  }

  /** Mask and shift are remainder and quotient of the division by a power of two. */
  lemma {:induction false} MaskAndShift(h: nat, k: nat)
    ensures h == Pow2(k) * Shr(h, k) + BitAnd(h, Pow2(k) - 1)
  {
    if k > 0 {
      MaskAndShift(h / 2, k - 1);
      MaskStep(h, k);
      HalvesAgree(h, Pow2(k - 1), Shr(h / 2, k - 1), BitAnd(h / 2, Pow2(k - 1) - 1));
    } else {
      assert BitAnd(h, 0) == 0;
    }
  }

  lemma HalvesAgree(h: nat, p: nat, s: nat, b: nat)
    requires h / 2 == p * s + b
    ensures h == (2 * p) * s + (h % 2 + 2 * b)
  {
    assert (2 * p) * s == 2 * (p * s);
  }

  lemma MaskStep(h: nat, k: nat)
    requires k > 0
    ensures BitAnd(h, Pow2(k) - 1) == h % 2 + 2 * BitAnd(h / 2, Pow2(k - 1) - 1)
  {
    var p := Pow2(k - 1);
    assert (2 * p - 1) / 2 == p - 1 && (2 * p - 1) % 2 == 1;
  }

  /** One more mask bit either keeps the index or adds the old size to it. */
  lemma {:induction false} MaskOfDouble(h: nat, k: nat)
    ensures var n := Pow2(k); var d := BitAnd(h, 2 * n - 1);
      BitAnd(h, n - 1) == if d < n then d else d - n
  {
    hide BitAnd;
    MaskStep(h, k + 1);
    if k > 0 {
      MaskStep(h, k);
      MaskOfDouble(h / 2, k - 1);
    }
  }

  /** n / d rounded up: how many bins of size d it takes to hold n things. */
  function Ceil(n: nat, d: nat): nat
    requires d > 0
  {
    if n == 0 then 0 else if n <= d then 1 else 1 + Ceil(n - d, d)
  }

  lemma {:induction false} CeilIsRoundedUp(n: nat, d: nat, q: nat, r: nat)
    requires n == d * q + r && r < d
    ensures Ceil(n, d) == q + if r != 0 then 1 else 0
    decreases q
  {
    if q == 0 {
      assert n == r;
    } else {
      assert d * q == d * (q - 1) + d;
      if n > d {
        CeilIsRoundedUp(n - d, d, q - 1, r);
      } else {
        ZeroFactor(d, q - 1);
      }
    }
  }

  lemma ZeroFactor(d: nat, x: nat)
    requires d > 0 && d * x == 0
    ensures x == 0
  {
  }

  /** ceil(n / b) by shift and mask, as the comment above HASH_EXPAND_BUCKETS derives it. */
  lemma CeilByMask(n: nat, k: nat)
    ensures Shr(n, k) + (if BitAnd(n, Pow2(k) - 1) != 0 then 1 else 0) == Ceil(n, Pow2(k))
  {
    MaskAndShift(n, k);
    CeilIsRoundedUp(n, Pow2(k), Shr(n, k), BitAnd(n, Pow2(k) - 1));
  }
}
