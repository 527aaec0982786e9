/**
 Division of two limbs by one: exact quotient and remainder from a
 precomputed inverse, by a multiplication and one correction.
 */
module DivLimb {
  import opened Limbs

  /** The precomputed inverse: B + inv is the largest integer whose product with d stays below B^2. */
  predicate IsInverse(b: int, d: int, inv: int) { (b + inv) * d <= b * b - 1 < (b + inv + 1) * d }

  predicate Normalized(d: limb) { d >= B / 2 }

  lemma InverseFits(b: int, d: int)
    requires b >= 2 && b <= 2 * d && 0 < d < b
    ensures var t := (b - d - 1) * b + (b - 1); 0 <= t / d < b && IsInverse(b, d, t / d)
  {
    hide IsInverse;
    var t := (b - d - 1) * b + (b - 1);
    InverseNumerator(b, d);
    QuotientBelow(t, d, b);
    QuotientOf(t, d);
    InverseProduct(b, d, t / d, t % d);
  }

  lemma InverseNumerator(b: int, d: int)
    requires b >= 2 && b <= 2 * d && 0 < d < b
    ensures var t := (b - d - 1) * b + (b - 1); t == b * b - d * b - 1 && 0 <= t < d * b
  {
    assert (b - d - 1) * b == b * b - d * b - b;
    MulLe(0, b - d - 1, b);
    MulLe(b, 2 * d, b);
    assert (2 * d) * b == 2 * (d * b);
  }

  lemma InverseProduct(b: int, d: int, inv: int, r: int)
    requires 0 <= r < d && d * inv + r == b * b - d * b - 1
    ensures IsInverse(b, d, inv)
  {
    assert (b + inv) * d == d * b + d * inv;
    assert (b + inv + 1) * d == d * b + d * inv + d;
  }

  /** floor((B^2 - 1) / d) - B, in wrap-around arithmetic. */
  method Udiv1normInit(d: limb) returns (dInv: limb)
    requires Normalized(d)
    ensures IsInverse(B, d, dInv)
  {
    InverseFits(B, d);
    var a1: limb, a0: limb := (-(d as int) - 1) % B, -1 % B;
    dInv := (a1 as int * B + a0) / d;
  }

  lemma ScaledEstimate(b: int, d: int, m: int, k: int, s: int, nAdj: int, h: int, x0: int)
    requires d * m == b * b - b * d - k && m * s + nAdj == b * h + x0
    ensures b * (h * d) == (b * b) * s - (b * d) * s - k * s + d * nAdj - d * x0
  {
    assert d * (m * s) == (d * m) * s;
    assert (b * b - b * d - k) * s == (b * b) * s - (b * d) * s - k * s;
    assert d * (b * h + x0) == b * (h * d) + d * x0;
    assert d * (m * s + nAdj) == d * (m * s) + d * nAdj;
  }

  lemma ScaledNumerator(b: int, d: int, n2: int, n1: int, n10: int, nAdj: int)
    requires nAdj == n10 + n1 * (d - b)
    ensures b * (n2 * b + n10 - n2 * d) == (b * b) * (n2 + n1) - (b * d) * (n2 + n1) + b * nAdj
  {
    assert b * (n1 * (d - b)) == (b * d) * n1 - (b * b) * n1;
    assert b * nAdj == b * n10 + b * (n1 * (d - b));
    assert b * (n2 * b + n10 - n2 * d) == (b * b) * n2 + b * n10 - (b * d) * n2;
    assert (b * b) * (n2 + n1) == (b * b) * n2 + (b * b) * n1;
    assert (b * d) * (n2 + n1) == (b * d) * n2 + (b * d) * n1;
  }

  /** Times b, what is left over after the estimate is a sum of three small terms. */
  lemma EstimateIdentity(b: int, d: int, m: int, k: int, n2: int, n1: int, n10: int, nAdj: int, h: int, x0: int)
    requires d * m == b * b - b * d - k && nAdj == n10 + n1 * (d - b)
    requires m * (n2 + n1) + nAdj == b * h + x0
    ensures b * (n2 * b + n10 - (n2 + h) * d) == (b - d) * nAdj + k * (n2 + n1) + d * x0
  {
    ScaledEstimate(b, d, m, k, n2 + n1, nAdj, h, x0);
    ScaledNumerator(b, d, n2, n1, n10, nAdj);
    assert (n2 + h) * d == n2 * d + h * d;
    assert b * (n2 * b + n10 - n2 * d - h * d) == b * (n2 * b + n10 - n2 * d) - b * (h * d);
    assert (b - d) * nAdj == b * nAdj - d * nAdj;
  }

  lemma EstimateFrom(b: int, d: int, m: int, k: int, n2: int, n1: int, n10: int, nAdj: int, h: int, x0: int)
    requires 0 < d < b && 1 <= k <= d && 0 <= n2 + n1 <= d && 0 <= nAdj < d && 0 <= x0 < b
    requires d * m == b * b - b * d - k && nAdj == n10 + n1 * (d - b)
    requires m * (n2 + n1) + nAdj == b * h + x0
    ensures 0 <= n2 * b + n10 - (n2 + h) * d < 2 * d
  {
    EstimateIdentity(b, d, m, k, n2, n1, n10, nAdj, h, x0);
    EstimateBounds(b, d, k, n2 + n1, nAdj, x0);
    Unscale(b, n2 * b + n10 - (n2 + h) * d, d);
  }

  /** The estimate is the quotient or one less. */
  lemma Estimate(b: int, d: int, m: int, n2: int, n1: int, n10: int, nAdj: int)
    requires b >= 2 && b <= 2 * d && 0 < d < b && 0 <= n2 < d && 0 <= n10 < b && IsInverse(b, d, m) && m >= 0
    requires b % 2 == 0 && n1 == (if n10 >= b / 2 then 1 else 0) && nAdj == n10 + (if n10 >= b / 2 then d - b else 0)
    ensures 0 <= nAdj < d
    ensures var h := (m * (n2 + n1) + nAdj) / b; h >= 0 && 0 <= n2 * b + n10 - (n2 + h) * d < 2 * d
  {
    hide IsInverse;
    var x := m * (n2 + n1) + nAdj;
    MulLe(0, n2 + n1, m);
    InverseSlack(b, d, m);
    QuotientOf(x, b);
    EstimateFrom(b, d, m, b * b - b * d - d * m, n2, n1, n10, nAdj, x / b, x % b);
  }

  lemma QuotientOf(x: int, b: int)
    requires b > 0 && x >= 0
    ensures x == b * (x / b) + x % b && 0 <= x % b < b && x / b >= 0
  {
  }

  lemma InverseSlack(b: int, d: int, m: int)
    requires IsInverse(b, d, m)
    ensures 1 <= b * b - b * d - d * m <= d
  {
    assert (b + m) * d == b * d + d * m && (b + m + 1) * d == b * d + d * m + d;
  }

  lemma Unscale(b: int, rem: int, d: int)
    requires b > 0 && 0 <= b * rem < 2 * (d * b)
    ensures 0 <= rem < 2 * d
  {
    if rem < 0 { MulLe(rem, -1, b); }
    if rem >= 2 * d { MulLe(2 * d, rem, b); }
  }

  lemma EstimateBounds(b: int, d: int, k: int, s: int, nAdj: int, x0: int)
    requires 0 < d < b && 1 <= k <= d && 0 <= s <= d && 0 <= nAdj <= d - 1 && 0 <= x0 <= b - 1
    ensures 0 <= (b - d) * nAdj + k * s + d * x0 < 2 * (d * b)
  {
    FirstTerm(b, d, nAdj);
    SecondTerm(d, k, s);
    ThirdTerm(b, d, x0);
    SumOfTerms(b, d, d * b, d * d, (b - d) * nAdj, k * s, d * x0);
  }

  lemma SumOfTerms(b: int, d: int, db: int, dd: int, t1: int, t2: int, t3: int)
    requires b > 0 && 0 <= t1 <= db - b - dd + d && 0 <= t2 <= dd && 0 <= t3 <= db - d
    ensures 0 <= t1 + t2 + t3 < 2 * db
  {
  }

  lemma FirstTerm(b: int, d: int, nAdj: int)
    requires 0 < d < b && 0 <= nAdj <= d - 1
    ensures 0 <= (b - d) * nAdj <= d * b - b - d * d + d
  {
    MulLe(0, nAdj, b - d);
    MulLe(nAdj, d - 1, b - d);
    assert (b - d) * (d - 1) == d * b - b - d * d + d;
  }

  lemma SecondTerm(d: int, k: int, s: int)
    requires 1 <= k <= d && 0 <= s <= d
    ensures 0 <= k * s <= d * d
  {
    MulLe(0, s, k);
    MulLe(s, d, k);
    MulLe(k, d, d);
  }

  lemma ThirdTerm(b: int, d: int, x0: int)
    requires 0 < d && 0 <= x0 <= b - 1
    ensures 0 <= d * x0 <= d * b - d
  {
    MulLe(0, x0, d);
    MulLe(x0, b - 1, d);
    assert d * (b - 1) == d * b - d;
  }

  function Mask(m: limb, d: limb): (r: limb)
    requires m == 0 || m == B - 1
  {
    if m == 0 then 0 else d
  }

  /** What remains, less one divisor, is in [-d, d): its high limb is 0 or all ones and decides the correction. */
  lemma Correction(b: int, d: int, rem: int)
    requires 0 < d < b && 0 <= rem < 2 * d && 2 <= b
    ensures var a := (rem - d) % (b * b); 0 <= a < b * b && 0 <= a / b < b && 0 <= a % b < b
    ensures var a := (rem - d) % (b * b);
            if rem >= d then a / b == 0 && a % b == rem - d else a / b == b - 1 && a % b == rem - d + b
  {
    MulLe(2, b, b);
    assert (b - 1) * b == b * b - b;
    if rem >= d {
      DivideUnique(rem - d, b * b, 0, rem - d);
      DivideUnique(rem - d, b, 0, rem - d);
    } else {
      DivideUnique(rem - d, b * b, -1, rem - d + b * b);
      DivideUnique(rem - d + b * b, b, b - 1, rem - d + b);
    }
  }

  /** The high half of a product, plus the high limb of the dividend. */
  method QuotientEstimate(a1: limb, a0: limb, d: limb, dInv: limb) returns (q: limb)
    requires Normalized(d) && a1 < d && IsInverse(B, d, dInv)
    ensures 0 <= a1 * B + a0 - q * d < 2 * d
    ensures a1 * B + a0 - q * d >= d ==> q < B - 1
  {
    hide IsInverse;
    var n1m: limb := if a0 >= B / 2 then B - 1 else 0;
    var n, nAdj := Adjust(a1, a0, d, n1m);
    EstimateIsLimb(B, a1, a0, d, dInv, n, nAdj);
    q := HighPlus((dInv as int * n + nAdj) / B, a1);
  }

  lemma EstimateIsLimb(b: int, a1: int, a0: int, d: int, dInv: int, n: int, nAdj: int)
    requires b >= 2 && b <= 2 * d && 0 < d < b && 0 <= a1 < d && 0 <= a0 < b && IsInverse(b, d, dInv) && dInv >= 0
    requires b % 2 == 0 && n == a1 + (if a0 >= b / 2 then 1 else 0) && nAdj == a0 + (if a0 >= b / 2 then d - b else 0)
    ensures var q := a1 + (dInv * n + nAdj) / b;
            0 <= q < b && 0 <= a1 * b + a0 - q * d < 2 * d && (a1 * b + a0 - q * d >= d ==> q < b - 1)
  {
    hide IsInverse;
    Estimate(b, d, dInv, a1, n - a1, a0, nAdj);
    EstimateFits(b, a1, a0, d, (dInv * n + nAdj) / b);
  }

  /** A set top bit rounds the dividend up by one B and adds the divisor to the low limb. */
  method Adjust(a1: limb, a0: limb, d: limb, n1m: limb) returns (n: limb, nAdj: limb)
    requires Normalized(d) && a1 < d && n1m == if a0 >= B / 2 then B - 1 else 0
    ensures n == a1 + (if a0 >= B / 2 then 1 else 0)
    ensures nAdj == a0 + (if a0 >= B / 2 then d - B else 0)
  {
    nAdj := (a0 + Mask(n1m, d)) % B;
    n := (a1 - n1m) % B;
  }

  method HighPlus(h: int, a1: limb) returns (q: limb)
    requires 0 <= a1 + h < B
    ensures q == a1 + h
  {
    q := (h + a1) % B;
  }

  /** Quotient and remainder of a1 * B + a0 by d, for a1 < d. */
  method Udiv1norm(a1: limb, a0: limb, d: limb, dInv: limb) returns (q: limb, r: limb)
    requires Normalized(d) && a1 < d && IsInverse(B, d, dInv)
    ensures q * d + r == a1 * B + a0 && r < d
  {
    hide IsInverse;
    q := QuotientEstimate(a1, a0, d, dInv);
    q, r := Corrected(a1 as int * B + a0, q, d);
  }

  method Corrected(n: int, q1: limb, d: limb) returns (q: limb, r: limb)
    requires Normalized(d) && 0 <= n - q1 * d < 2 * d && (n - q1 * d >= d ==> q1 < B - 1)
    ensures q * d + r == n && r < d
  {
    var a: int := (n - q1 as int * d - d) % (B * B);
    Correction(B, d, n - q1 * d);
    var ah: limb := a / B;
    q := (q1 + 1 + ah) % B;
    r := (a % B + Mask(ah, d)) % B;
    Settled(n - q1 * d, q1, d, ah, a % B);
    assert (q1 as int + 1) * d == q1 as int * d + d;
  }

  /** The mask either takes one divisor back or adds one to the quotient. */
  lemma Settled(rem: int, q1: limb, d: limb, ah: limb, al: limb)
    requires Normalized(d) && 0 <= rem < 2 * d && (rem >= d ==> q1 < B - 1)
    requires if rem >= d then ah == 0 && al == rem - d else ah == B - 1 && al == rem - d + B
    ensures (q1 as int + 1 + ah) % B == (if rem >= d then q1 + 1 else q1 as int)
    ensures (al as int + Mask(ah, d)) % B == (if rem >= d then rem - d else rem)
  {
  }

  /** The estimate and its successor are limbs. */
  lemma EstimateFits(b: int, a1: int, a0: int, d: int, h: int)
    requires 0 < d < b && 0 <= a1 < d && 0 <= a0 < b && h >= 0 && 0 <= a1 * b + a0 - (a1 + h) * d < 2 * d
    ensures 0 <= a1 + h < b
    ensures a1 * b + a0 - (a1 + h) * d >= d ==> a1 + h + 1 < b
  {
    var q := a1 + h;
    MulLe(a1 + 1, d, b);
    assert (a1 + 1) * b == a1 * b + b;
    if q >= b { MulLe(b, q, d); }
    assert (q + 1) * d == q * d + d;
    if q + 1 >= b { MulLe(b, q + 1, d); }
  }
}
