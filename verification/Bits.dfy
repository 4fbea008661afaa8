/** The unsigned shift and mask operations that hashing and flags use, and what they compute. */
module Bits {

  function Pow2(k: nat): (r: nat)
    ensures 0 < r
  {
    if k == 0 then 1 else 2 * Pow2(k - 1)
  }

  /** Bitwise AND, one bit at a time. */
  function And(x: nat, y: nat): nat {
    if x == 0 || y == 0 then 0 else 2 * And(x / 2, y / 2) + (x % 2) * (y % 2)
  }

  /** Logical shift right. */
  function ShiftRight(x: nat, k: nat): nat {
    if k == 0 then x else ShiftRight(x / 2, k - 1)
  }

  /** Whether a one-bit flag is set. */
  predicate HasFlag(x: nat, flag: nat)
    requires 0 < flag
  {
    (x / flag) % 2 == 1
  }

  lemma MulSuccessor(a: nat, d: nat)
    ensures (a + 1) * d == a * d + d
  {
  }

  lemma {:induction false} MulGap(a: nat, b: nat, d: nat)
    ensures a < b ==> a * d + d <= b * d
    decreases b
  {
    if a < b {
      MulSuccessor(b - 1, d);
      MulGap(a, b - 1, d);
    }
  }

  lemma DivModUnique(x: nat, d: nat, q: nat, r: nat)
    requires x == q * d + r && r < d
    ensures x / d == q && x % d == r
  {
    var q' := x / d;
    assert x == q' * d + x % d;
    MulGap(q', q, d);
    MulGap(q, q', d);
  }

  lemma MulDoubled(q: nat, n: nat)
    ensures q * (2 * n) == (2 * q) * n && (2 * q + 1) * n == (2 * q) * n + n
  {
  }

  lemma QuotientOfHalf(x: nat, n: nat)
    requires 0 < n
    ensures x / (2 * n) == (x / 2) / n && x % (2 * n) == 2 * ((x / 2) % n) + x % 2
  {
    var h := x / 2;
    var q, r := h / n, h % n;
    assert h == q * n + r;
    MulDoubled(q, n);
    assert q * (2 * n) == 2 * (q * n);
    DivModUnique(x, 2 * n, q, 2 * r + x % 2);
  }

  /** Masking with `2^k - 1` is the remainder modulo `2^k`. */
  lemma {:induction false} AndMask(x: nat, k: nat)
    ensures And(x, Pow2(k) - 1) == x % Pow2(k)
  {
    if x != 0 && k != 0 {
      var m := Pow2(k) - 1;
      assert m / 2 == Pow2(k - 1) - 1 && m % 2 == 1;
      AndMask(x / 2, k - 1);
      QuotientOfHalf(x, Pow2(k - 1));
    }
  }

  /** Shifting right by `k` divides by `2^k`. */
  lemma {:induction false} ShiftRightDivides(x: nat, k: nat)
    ensures ShiftRight(x, k) == x / Pow2(k)
  {
    if k != 0 {
      ShiftRightDivides(x / 2, k - 1);
      QuotientOfHalf(x, Pow2(k - 1));
    }
  }

  lemma ModOfHalf(x: nat, n: nat, p: nat, r: nat)
    requires 0 < n && x == p * n + r && r < n + n
    ensures x % n == if r < n then r else r - n
  {
    if r < n {
      DivModUnique(x, n, p, r);
    } else {
      MulSuccessor(p, n);
      DivModUnique(x, n, p + 1, r - n);
    }
  }

  lemma ModOfSum(x: nat, n: nat, q: nat, r: nat)
    requires 0 < n && x == q * (n + n) + r && r < n + n
    ensures x % n == if r < n then r else r - n
  {
    MulDoubled(q, n);
    assert q * (n + n) == q * (2 * n);
    ModOfHalf(x, n, 2 * q, r);
  }

  lemma ModBelow(r: nat, n: nat)
    requires 0 < n && r < n + n
    ensures r % n == if r < n then r else r - n
  {
    ModOfHalf(r, n, 0, r);
  }

  /** Doubling the modulus refines the remainder. */
  lemma ModOfDoubled(x: nat, n: nat)
    requires 0 < n
    ensures x % (2 * n) == x % n || x % (2 * n) == x % n + n
    ensures x % (2 * n) % n == x % n
  {
    var m := n + n;
    assert m == 2 * n;
    var q, r := x / m, x % m;
    assert x == q * m + r;
    ModOfSum(x, n, q, r);
    ModBelow(r, n);
  }
}
