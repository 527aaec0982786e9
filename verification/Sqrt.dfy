/**
 Square root with remainder: a table for the top bits, then one division per
 doubling of the precision.
 */
module Sqrt {
  import opened Limbs
  import opened DivLimb
  import opened Divnorm
  import opened Newton
  import opened Reciprocal

  // ---- one doubling of the precision ----

  /** 's' is the integer square root of 'a' and 'r' what is left. */
  predicate IsSqrt(a: int, s: int, r: int) { s >= 0 && s * s + r == a && 0 <= r <= 2 * s }

  /** Hence s * s <= a < (s + 1) * (s + 1). */
  lemma SqrtIsFloor(a: int, s: int, r: int)
    requires IsSqrt(a, s, r)
    ensures s * s <= a < (s + 1) * (s + 1)
  {
    assert (s + 1) * (s + 1) == s * s + 2 * s + 1;
  }

  /** A root of a number of at least a quarter of p * p is at least half of p, and below p. */
  lemma SqrtRange(p: int, a: int, s: int, r: int)
    requires IsSqrt(a, s, r) && p >= 2 && p % 2 == 0 && p * p <= 4 * a < 4 * (p * p)
    ensures p <= 2 * s && s < p
  {
    SqrtIsFloor(a, s, r);
    var h := p / 2;
    assert p * p == 4 * (h * h) by { assert (2 * h) * (2 * h) == 4 * (h * h); }
    if s + 1 <= h { MulLe2(s + 1, h, s + 1, h); }
    if s >= p { MulLe2(p, s, p, s); }
  }

  /**
   The step: from the root s0 of the high half, dividing by 2 * s0 gives the
   low half q of the root. The new root is exact or one too large.
   */
  lemma SqrtStep(hh: int, l: int, s0: int, r0: int, a1: int, a0: int, q: int, u: int)
    requires 1 <= l <= hh && hh <= 2 * s0 && s0 < hh && 0 <= r0 <= 2 * s0 && 0 <= a1 < l && 0 <= a0 < l
    requires r0 * l + a1 == (2 * s0) * q + u && 0 <= u < 2 * s0
    ensures 0 <= q <= l
    ensures var s, r := s0 * l + q, u * l + a0 - q * q;
            && s * s + r == (s0 * s0 + r0) * (l * l) + a1 * l + a0
            && 0 <= s <= hh * l && r <= 2 * s && (r < 0 ==> s >= 1 && 0 <= r + 2 * s - 1)
            && -(l * l) <= r
  {
    QuotientRange(hh, l, s0, r0, a1, q, u);
    StepIdentity(l, s0, r0, a1, a0, q, u);
    StepBounds(hh, l, s0, a0, q, u);
  }

  lemma QuotientRange(hh: int, l: int, s0: int, r0: int, a1: int, q: int, u: int)
    requires 1 <= l <= hh && hh <= 2 * s0 && 0 <= r0 <= 2 * s0 && 0 <= a1 < l
    requires r0 * l + a1 == (2 * s0) * q + u && 0 <= u < 2 * s0
    ensures 0 <= q <= l
  {
    MulLe(0, r0, l);
    MulLe(r0, 2 * s0, l);
    if q >= l + 1 { MulLe(l + 1, q, 2 * s0); }
    assert (2 * s0) * (l + 1) == (2 * s0) * l + 2 * s0;
    if q <= -1 { MulLe(q, -1, 2 * s0); }
  }

  lemma StepIdentity(l: int, s0: int, r0: int, a1: int, a0: int, q: int, u: int)
    requires r0 * l + a1 == (2 * s0) * q + u
    ensures var s, r := s0 * l + q, u * l + a0 - q * q;
            s * s + r == (s0 * s0 + r0) * (l * l) + a1 * l + a0
  {
    assert (s0 * l + q) * (s0 * l + q) == (s0 * s0) * (l * l) + l * ((2 * s0) * q) + q * q;
    assert l * (r0 * l + a1) == r0 * (l * l) + a1 * l;
    assert l * ((2 * s0) * q + u) == l * ((2 * s0) * q) + u * l;
  }

  lemma StepBounds(hh: int, l: int, s0: int, a0: int, q: int, u: int)
    requires 1 <= l <= hh && hh <= 2 * s0 && s0 < hh && 0 <= a0 < l && 0 <= u < 2 * s0 && 0 <= q <= l
    ensures var s, r := s0 * l + q, u * l + a0 - q * q;
            && 0 <= s <= hh * l && r <= 2 * s && (r < 0 ==> s >= 1 && 0 <= r + 2 * s - 1)
            && -(l * l) <= r
  {
    MulLe(s0, hh - 1, l);
    assert (hh - 1) * l == hh * l - l;
    MulLe(0, s0, l);
    MulLe(u, 2 * s0 - 1, l);
    assert (2 * s0 - 1) * l == 2 * (s0 * l) - l;
    MulLe(0, u, l);
    MulLe2(q, l, q, l);
    MulLe(l, 2 * s0, l);
    assert (2 * s0) * l == 2 * (s0 * l);
    if q == 0 { assert q * q == 0; }
  }

  // ---- one limb ----

  /** Integer square roots of 256 * t for t = 64, 65, ..., 255, in six rows. */
  const SQRT_ROW0: seq<int> := [
    128, 128, 129, 130, 131, 132, 133, 134, 135, 136, 137, 138, 139, 140, 141, 142,
    143, 144, 144, 145, 146, 147, 148, 149, 150, 150, 151, 152, 153, 154, 155, 155]
  const SQRT_ROW1: seq<int> := [
    156, 157, 158, 159, 160, 160, 161, 162, 163, 163, 164, 165, 166, 167, 167, 168,
    169, 170, 170, 171, 172, 173, 173, 174, 175, 176, 176, 177, 178, 178, 179, 180]
  const SQRT_ROW2: seq<int> := [
    181, 181, 182, 183, 183, 184, 185, 185, 186, 187, 187, 188, 189, 189, 190, 191,
    192, 192, 193, 193, 194, 195, 195, 196, 197, 197, 198, 199, 199, 200, 201, 201]
  const SQRT_ROW3: seq<int> := [
    202, 203, 203, 204, 204, 205, 206, 206, 207, 208, 208, 209, 209, 210, 211, 211,
    212, 212, 213, 214, 214, 215, 215, 216, 217, 217, 218, 218, 219, 219, 220, 221]
  const SQRT_ROW4: seq<int> := [
    221, 222, 222, 223, 224, 224, 225, 225, 226, 226, 227, 227, 228, 229, 229, 230,
    230, 231, 231, 232, 232, 233, 234, 234, 235, 235, 236, 236, 237, 237, 238, 238]
  const SQRT_ROW5: seq<int> := [
    239, 240, 240, 241, 241, 242, 242, 243, 243, 244, 244, 245, 245, 246, 246, 247,
    247, 248, 248, 249, 249, 250, 250, 251, 251, 252, 252, 253, 253, 254, 254, 255]
  const SQRT_TABLE: seq<int> := SQRT_ROW0 + SQRT_ROW1 + SQRT_ROW2 + SQRT_ROW3 + SQRT_ROW4 + SQRT_ROW5

  predicate IsEntry(v: int, t: int) { 128 <= v <= 255 && v * v <= 256 * t < (v + 1) * (v + 1) }

  lemma Row0(i: nat)
    requires i < 32
    ensures |SQRT_ROW0| == 32 && IsEntry(SQRT_ROW0[i], 64 + i)
  {
  }

  lemma Row1(i: nat)
    requires i < 32
    ensures |SQRT_ROW1| == 32 && IsEntry(SQRT_ROW1[i], 96 + i)
  {
  }

  lemma Row2(i: nat)
    requires i < 32
    ensures |SQRT_ROW2| == 32 && IsEntry(SQRT_ROW2[i], 128 + i)
  {
  }

  lemma Row3(i: nat)
    requires i < 32
    ensures |SQRT_ROW3| == 32 && IsEntry(SQRT_ROW3[i], 160 + i)
  {
  }

  lemma Row4(i: nat)
    requires i < 32
    ensures |SQRT_ROW4| == 32 && IsEntry(SQRT_ROW4[i], 192 + i)
  {
  }

  lemma Row5(i: nat)
    requires i < 32
    ensures |SQRT_ROW5| == 32 && IsEntry(SQRT_ROW5[i], 224 + i)
  {
  }

  /** Entry i of the whole table. */
  lemma TableEntry(i: nat)
    requires i < 192
    ensures |SQRT_TABLE| == 192 && IsEntry(SQRT_TABLE[i], 64 + i)
  {
    hide SQRT_ROW0, SQRT_ROW1, SQRT_ROW2, SQRT_ROW3, SQRT_ROW4, SQRT_ROW5, IsEntry;
    var k := i % 32;
    Row0(k);
    Row1(k);
    Row2(k);
    Row3(k);
    Row4(k);
    Row5(k);
  }

  /** The table root is exact after at most one increment. */
  method TableRoot(v: int) returns (s: int, r: int)
    requires 0x4000 <= v < 0x1_0000
    ensures IsSqrt(v, s, r)
  {
    hide SQRT_TABLE;
    var t := v / 256;
    TableEntry(t - 64);
    s := SQRT_TABLE[t - 64];
    r := v - s * s;
    assert (s + 1) * (s + 1) == s * s + 2 * s + 1;
    if r > 2 * s {
      r := r - (2 * s + 1);
      s := s + 1;
    }
  }

  /** A remainder that went below zero shows in the sign bit of the limb. */
  lemma SignBit(r: int, w: limb)
    requires -(B / 2) <= r < B / 2 && w == r % B
    ensures (w >= B / 2) == (r < 0)
    ensures r >= 0 ==> w == r
  {
  }

  lemma ScaleUp(s1: int, r1: int, v: int, l: int)
    requires IsSqrt(v, s1, r1)
    ensures (s1 * s1 + r1) * (l * l) == v * (l * l)
  {
  }

  /** Root and remainder of the high half give nearly those of the whole. */
  lemma StepIsNear(l: int, v: int, s1: int, r1: int, a1: int, a0: int, q: int, u: int)
    requires IsSqrt(v, s1, r1) && 1 <= l <= 2 * s1 && s1 < l && 0 <= a1 < l && 0 <= a0 < l
    requires r1 * l + a1 == (2 * s1) * q + u && 0 <= u < 2 * s1
    ensures 0 <= q <= l && -(l * l) <= u * l + a0 - q * q
    ensures NearRoot(v * (l * l) + a1 * l + a0, s1 * l + q, u * l + a0 - q * q, l * l)
  {
    SqrtStep(l, l, s1, r1, a1, a0, q, u);
    ScaleUp(s1, r1, v, l);
  }

  /** Twice as many bits in limb arithmetic: l is 2^8 or 2^16. */
  method DoubleBits(s1: int, r1: int, a1: int, a0: int, l: int, ghost v: int) returns (s: limb, r: limb)
    requires 2 <= l <= 0x1_0000 && l % 2 == 0 && IsSqrt(v, s1, r1) && l * l <= 4 * v < 4 * (l * l)
    requires 0 <= a1 < l && 0 <= a0 < l
    ensures IsSqrt(v * (l * l) + a1 * l + a0, s, r)
  {
    hide IsSqrt, NearRoot;
    SqrtRange(l, v, s1, r1);
    var num := r1 * l + a1;
    var q, u := num / (2 * s1), num % (2 * s1);
    QuotientParts(num, 2 * s1);
    StepIsNear(l, v, s1, r1, a1, a0, q, u);
    StepSizes(l, s1, a0, q, u);
    s, r := Fix(s1 * l + q, u * l + a0 - q * q, l * l, v * (l * l) + a1 * l + a0);
  }

  lemma QuotientParts(x: int, d: int)
    requires d > 0
    ensures x == d * (x / d) + x % d && 0 <= x % d < d
  {
  }

  lemma StepSizes(l: int, s1: int, a0: int, q: int, u: int)
    requires 2 <= l <= 0x1_0000 && 0 <= a0 < l && 0 <= u < 2 * s1 && s1 < l && 0 <= q <= l
    ensures 0 <= s1 * l + q <= 0x2_0000_0000 && -0x2_0000_0000 <= u * l + a0 - q * q <= 0x3_0000_0000
  {
    var m := 0x1_0000;
    MulLe2(s1, m, l, m);
    MulLe2(u, 2 * m, l, m);
    MulLe2(q, m, q, m);
  }

  /** One too large is noticed by the sign of the remainder and corrected. */
  method Fix(s0: int, r0: int, ghost p: int, ghost a: int) returns (s: limb, r: limb)
    requires 0 <= s0 <= 0x2_0000_0000 && -0x2_0000_0000 <= r0 <= 0x3_0000_0000 && NearRoot(a, s0, r0, p)
    ensures IsSqrt(a, s, r)
  {
    hide IsSqrt, NearRoot;
    s := s0;
    r := r0 % B;
    SignBit(r0, r);
    if r0 < 0 {
      PreviousRoot(a, s0, r0, p);
      UnwrapSum(r0, s0);
    } else {
      IsRoot(a, s0, r0, p);
    }
    if r >= B / 2 {
      s := s - 1;
      r := (r + 2 * s as int + 1) % B;
    }
  }

  lemma UnwrapSum(r0: int, s0: int)
    requires -0x2_0000_0000 <= r0 < 0 && 1 <= s0 <= 0x2_0000_0000 && 0 <= r0 + 2 * s0 - 1
    ensures (r0 % B + 2 * (s0 - 1) + 1) % B == r0 + 2 * (s0 - 1) + 1
  {
    DivideUnique(r0, B, -1, r0 + B);
    DivideUnique(r0 + B + 2 * (s0 - 1) + 1, B, 1, r0 + 2 * (s0 - 1) + 1);
  }

  /** Root and remainder of one limb with one of its two top bits set. */
  method MpSqrtrem1(a: limb) returns (s: limb, r: limb)
    requires a >= B / 4
    ensures IsSqrt(a, s, r)
  {
    hide IsSqrt;
    Slices(a);
    var s1, r1 := TableRoot(a / 0x1_0000_0000_0000);
    s, r := DoubleBits(s1, r1, (a / 0x100_0000_0000) % 0x100, (a / 0x1_0000_0000) % 0x100, 0x100,
                       a / 0x1_0000_0000_0000);
    s, r := DoubleBits(s, r, (a / 0x1_0000) % 0x1_0000, a % 0x1_0000, 0x1_0000, a / 0x1_0000_0000);
  }

  /** The 16, 8, 8, 16 and 16 bits the steps consume, from the top. */
  lemma Slices(a: limb)
    requires a >= B / 4
    ensures var v16, v32 := a / 0x1_0000_0000_0000, a / 0x1_0000_0000;
            && 0x4000 <= v16 < 0x1_0000 && 0x4000_0000 <= v32 < 0x1_0000_0000
            && v16 * (0x100 * 0x100) + ((a / 0x100_0000_0000) % 0x100) * 0x100 + (a / 0x1_0000_0000) % 0x100 == v32
            && v32 * (0x1_0000 * 0x1_0000) + ((a / 0x1_0000) % 0x1_0000) * 0x1_0000 + a % 0x1_0000 == a
  {
    TwoDigits(a, 0x1_0000);
    TwoDigits(a / 0x1_0000_0000, 0x100);
    NestedQuotient(a, 0x1_0000_0000, 0x100);
    NestedQuotient(a, 0x1_0000_0000, 0x1_0000);
  }

  lemma TwoDigits(a: nat, m: nat)
    requires m > 0
    ensures a / (m * m) * (m * m) + (a / m) % m * m + a % m == a
  {
    NestedQuotient(a, m, m);
    assert a == (a / m / m * m + a / m % m) * m + a % m;
    assert (a / m / m * m + a / m % m) * m == a / m / m * (m * m) + a / m % m * m;
  }

  // ---- two limbs ----

  const HALF: int := 0x1_0000_0000

  /**
   Root of two limbs; the root may reach 2^64 for a moment and then wraps to 0. Returns
   the top bit of the remainder.
   */
  method MpSqrtrem2(tabs: array<limb>, so: nat, taba: array<limb>, ao: nat) returns (rh: limb)
    requires so < tabs.Length && ao + 2 <= taba.Length && tabs != taba && taba[ao + 1] >= B / 4
    modifies tabs, taba
    ensures Same(tabs[..], old(tabs[..]), so, 1) && Same(taba[..], old(taba[..]), ao, 1)
    ensures rh <= 1 && IsSqrt(old(taba[ao + 1]) * B + old(taba[ao]), tabs[so], rh * B + taba[ao])
  {
    hide IsSqrt, NearRoot;
    var a0, a1 := taba[ao], taba[ao + 1];
    var s1, r1 := MpSqrtrem1(a1);
    RootBelowHalf(a1, s1, r1);
    var num: int := r1 as int * HALF + a0 / HALF;
    var q, u := num / (2 * s1 as int), num % (2 * s1 as int);
    TwoLimbStep(a1, a0, s1, r1, q, u);
    ghost var sum, rem := s1 * HALF + q, u * HALF + a0 % HALF - q * q;
    var s: limb := (s1 as int * HALF + q) % B;
    var r: int := (u * HALF + a0 % HALF - (if q / HALF != 0 then B else q * q)) % (B * B);
    NearRootRange(a1 * B + a0, sum, rem, B);
    WideSign(rem, r);
    if r / B >= B / 2 {
      s := (s - 1) % B;
      r := (r + 2 * s as int + 1) % (B * B);
      PreviousLimb(sum, rem, s, r);
    }
    FinishTwo(a1 * B + a0, sum, rem, s, r);
    tabs[so] := s;
    taba[ao] := r % B;
    rh := r / B;
  }

  lemma RootBelowHalf(a1: limb, s1: limb, r1: limb)
    requires a1 >= B / 4 && IsSqrt(a1, s1, r1)
    ensures HALF <= 2 * s1 && s1 < HALF && r1 <= 2 * s1
  {
    SqrtRange(HALF, a1, s1, r1);
  }

  lemma TwoLimbStep(a1: limb, a0: limb, s1: int, r1: int, q: int, u: int)
    requires IsSqrt(a1, s1, r1) && HALF <= 2 * s1 && s1 < HALF
    requires q == (r1 * HALF + a0 / HALF) / (2 * s1) && u == (r1 * HALF + a0 / HALF) % (2 * s1)
    ensures 0 <= q <= HALF && (q / HALF != 0 <==> q == HALF) && (q == HALF ==> q * q == B)
    ensures var s, r := s1 * HALF + q, u * HALF + a0 % HALF - q * q;
            NearRoot(a1 * B + a0, s, r, B) && -B <= r
  {
    hide IsSqrt;
    QuotientParts(r1 * HALF + a0 / HALF, 2 * s1);
    StepIsNear(HALF, a1, s1, r1, a0 / HALF, a0 % HALF, q, u);
  }

  /** The sign of a remainder kept modulo 2^128. */
  lemma WideSign(r: int, w: int)
    requires -B <= r <= 2 * B && w == r % (B * B)
    ensures (w / B >= B / 2) == (r < 0)
    ensures w == if r < 0 then r + B * B else r
  {
    if r < 0 {
      DivideUnique(r, B * B, -1, r + B * B);
      DivideUnique(w, B, B - 1, r + B);
    } else {
      DivideUnique(r, B * B, 0, r);
    }
  }

  lemma FinishTwo(a: int, sum: int, rem: int, s: limb, r: int)
    requires NearRoot(a, sum, rem, B) && a < B * B
    requires rem >= 0 ==> s == sum % B && r == rem
    requires rem < 0 ==> s == sum - 1 && r == rem + 2 * s + 1
    ensures 0 <= r / B <= 1 && IsSqrt(a, s, (r / B) * B + r % B)
  {
    hide IsSqrt, NearRoot;
    if rem >= 0 {
      RootFits(a, sum, rem, B);
    } else {
      PreviousRoot(a, sum, rem, B);
    }
    TopBit(s, r);
  }

  lemma PreviousLimb(sum: int, rem: int, s: limb, r: int)
    requires 1 <= sum <= B && -B <= rem < 0 <= rem + 2 * sum - 1
    requires s == (sum % B - 1) % B && r == (rem + B * B + 2 * s + 1) % (B * B)
    ensures s == sum - 1 && r == rem + 2 * s + 1
  {
    DivideUnique(rem + B * B + 2 * s + 1, B * B, 1, rem + 2 * s + 1);
  }

  /** The joined root 's' is the root of 'a' or one more, and then the remainder is negative. */
  ghost predicate NearRoot(a: int, s: int, r: int, p: int) {
    s * s + r == a && 0 <= s <= p && r <= 2 * s && (r < 0 ==> s >= 1 && 0 <= r + 2 * s - 1)
  }

  lemma NearRootRange(a: int, s: int, r: int, p: int)
    requires NearRoot(a, s, r, p)
    ensures 0 <= s <= p && r <= 2 * s && (r < 0 ==> s >= 1 && 0 <= r + 2 * s - 1)
  {
  }

  lemma RootFits(a: int, s: int, r: int, p: int)
    requires NearRoot(a, s, r, p) && a < p * p && r >= 0
    ensures 0 <= s < p && 0 <= r <= 2 * s && IsSqrt(a, s, r)
  {
  }

  lemma IsRoot(a: int, s: int, r: int, p: int)
    requires NearRoot(a, s, r, p) && r >= 0
    ensures IsSqrt(a, s, r)
  {
  }

  lemma PreviousRoot(a: int, s: int, r: int, p: int)
    requires NearRoot(a, s, r, p) && r < 0
    ensures 1 <= s <= p && 0 <= r + 2 * s - 1 && IsSqrt(a, s - 1, r + 2 * (s - 1) + 1)
  {
    assert (s - 1) * (s - 1) == s * s - 2 * s + 1;
  }

  /** A remainder of at most 2 * s needs one bit more than a limb. */
  lemma TopBit(s: limb, r: int)
    requires 0 <= r <= 2 * s
    ensures 0 <= r / B <= 1 && (r / B) * B + r % B == r
  {
  }

  // ---- any number of limbs ----

  lemma {:induction false} QuotientParts2(q: seq<limb>, l: nat, qh: int, d: int, rem: int, a1: int, r: int, r1: int)
    requires |q| == l + 1 && Val(q) * d + rem == a1 + Pow(l) * r1 && r1 == r - qh * d
    ensures ((qh + q[l]) * Pow(l) + Val(q[..l])) * d + rem == r * Pow(l) + a1
  {
    hide Val, Pow;
    WindowTop(q, l);
    QuotientAlgebra(Val(q), Val(q[..l]), q[l], qh, Pow(l), d, rem, a1, r, r1);
  }

  lemma QuotientAlgebra(v: int, low: int, top: int, qh: int, p: int, d: int, rem: int, a1: int, r: int, r1: int)
    requires v == low + p * top && v * d + rem == a1 + p * r1 && r1 == r - qh * d
    ensures ((qh + top) * p + low) * d + rem == r * p + a1
  {
    assert (qh + top) * p + low == v + qh * p;
    assert (v + qh * p) * d == v * d + p * (qh * d);
    assert p * (r - qh * d) == r * p - p * (qh * d);
  }

  /** Halving the quotient and giving its odd part to the remainder: division by 2 * d. */
  lemma HalveAlgebra(q0: int, qt: int, low: int, half: int, ql: int, d: int, rem: int, u: int, p: int, total: int)
    requires q0 == qt * p + low && q0 * d + rem == total && 0 <= rem < d && 0 <= ql <= 1 && u == rem + ql * d
    requires half * 2 + ql == low + (qt % 2) * p
    ensures total == (2 * d) * ((qt / 2) * p + half) + u && 0 <= u < 2 * d
  {
    var q := (qt / 2) * p + half;
    assert qt == 2 * (qt / 2) + qt % 2;
    assert (2 * (qt / 2) + qt % 2) * p == 2 * ((qt / 2) * p) + (qt % 2) * p;
    assert q0 == 2 * q + ql;
    assert (2 * q + ql) * d == (2 * d) * q + ql * d;
    assert ql == 0 ==> ql * d == 0;
    assert ql == 1 ==> ql * d == d;
  }

  lemma ReduceTop(low: int, c: int, p: int, old0: int, d: int, qh: int)
    requires low - c * p == old0 - d && 0 <= low < p && 0 <= c <= 1 && qh == 1 && 0 <= old0 < p
    requires 0 <= old0 + qh * p <= 2 * d && d < p
    ensures low == old0 + qh * p - d
  {
    assert 1 * p == p;
    assert c == 0 ==> c * p == 0;
  }

  ghost predicate Halved(total: int, d: int, q: int, u: int) { total == (2 * d) * q + u && 0 <= u < 2 * d }

  /** The number with limbs 's' below the extra limb 'top'. */
  ghost function WithTop(top: int, s: seq<limb>): (v: int) { top * Pow(|s|) + Val(s) }

  /** The remainder of the upper half, less the root when it has one bit more than h limbs. */
  method DropTopBit(tabs: array<limb>, so: nat, taba: array<limb>, ao: nat, h: nat, qh: limb)
    requires so + h <= tabs.Length && ao + h <= taba.Length && tabs != taba && qh <= 1
    requires Val(taba[ao..ao + h]) + qh * Pow(h) <= 2 * Val(tabs[so..so + h])
    modifies taba
    ensures Same(taba[..], old(taba[..]), ao, h)
    ensures Val(taba[ao..ao + h]) == Val(old(taba[ao..ao + h])) + qh * Pow(h) - qh * Val(tabs[so..so + h])
  {
    hide Val, Pow, Same;
    ghost var x, d, orig := taba[ao..ao + h], tabs[so..so + h], taba[..];
    SameNone(orig, ao);
    SameWiden(orig, orig, ao, 0, h);
    if qh != 0 {
      var c := MpSub(taba, ao, taba, ao, tabs, so, h, 0);
      ValBound(taba[ao..ao + h]);
      ValBound(x);
      ValBound(d);
      ReduceTop(Val(taba[ao..ao + h]), c, Pow(h), Val(x), Val(d), qh);
      assert 1 * Val(d) == Val(d);
    } else {
      assert 0 * Val(d) == 0 && 0 * Pow(h) == 0;
    }
  }

  /** Divides remainder and next limbs by the root of the upper half. */
  method DivideHalf(tabs: array<limb>, so: nat, taba: array<limb>, w: nat, l: nat, h: nat, tmp: array<limb>, qh: limb,
                    ghost r0: int, ghost a1: int) returns (qt: limb)
    requires 1 <= l <= h && so + h <= tabs.Length && w + l + h <= taba.Length && l + 1 <= tmp.Length
    requires tabs != taba && tabs != tmp && taba != tmp && Normalized(tabs[so + h - 1]) && qh <= 1
    requires r0 == Val(taba[w + l..w + l + h]) + qh * Pow(h) && r0 <= 2 * Val(tabs[so..so + h])
    requires a1 == Val(taba[w..w + l])
    modifies taba, tmp
    ensures Same(taba[..], old(taba[..]), w, l + h) && qt <= 2
    ensures Val(taba[w..w + h]) < Val(tabs[so..so + h])
    ensures (qt * Pow(l) + Val(tmp[0..l + 1][..l])) * Val(tabs[so..so + h]) + Val(taba[w..w + h]) == r0 * Pow(l) + a1
  {
    hide Val, Pow, Same, Normalized;
    ghost var d, origA := tabs[so..so + h], taba[..];
    DropTopBit(tabs, so, taba, w + l, h, qh);
    ghost var midA, dividend := taba[..], taba[w..w + (l + h)];
    SameSlice(midA, origA, w + l, h, w, w + l);
    assert dividend[..l] == midA[w..w + l] == origA[w..w + l];
    assert taba[w..w + l] == origA[w..w + l];
    assert dividend[l..] == taba[w + l..w + l + h];
    ValSplit(dividend, l);
    MpDivnorm(tmp, 0, taba, w, l + h, tabs, so, h);
    assert l + h - h + 1 == l + 1;
    SameThen(origA, midA, taba[..], w, l + h, w + l, h, w, l + h);
    QuotientParts2(tmp[0..l + 1], l, qh, Val(d), Val(taba[w..w + h]), a1, r0, r0 - qh * Val(d));
    qt := qh + tmp[l];
  }

  /** Divides by the root of the upper half instead of twice the root, then halves. */
  method HalveQuotient(tabs: array<limb>, so: nat, taba: array<limb>, w: nat, l: nat, h: nat,
                       tmp: array<limb>, qh: limb, ghost r0: int) returns (qh': limb, rh: limb)
    requires 1 <= l <= h && so + l + h <= tabs.Length && w + l + h <= taba.Length && l + 1 <= tmp.Length
    requires tabs != taba && tabs != tmp && taba != tmp && Normalized(tabs[so + l + h - 1]) && qh <= 1
    requires r0 == WithTop(qh, taba[w + l..w + l + h]) && r0 <= 2 * Val(tabs[so + l..so + l + h])
    modifies tabs, taba, tmp
    ensures Same(tabs[..], old(tabs[..]), so, l) && Same(taba[..], old(taba[..]), w, l + h)
    ensures qh' <= 1 && rh <= 1
    ensures Halved(WithTop(r0, old(taba[w..w + l])), old(Val(tabs[so + l..so + l + h])),
                   WithTop(qh', tabs[so..so + l]), WithTop(rh, taba[w..w + h]))
  {
    hide Val, Pow, Same, Normalized, Halved;
    ghost var origA, a1 := taba[..], Val(taba[w..w + l]);
    var qt := DivideHalf(tabs, so + l, taba, w, l, h, tmp, qh, r0, a1);
    ghost var midA := taba[..];
    qh', rh := HalveRest(tabs, so, taba, w, l, h, tmp, qt, r0 * Pow(l) + a1);
    SameThen(origA, midA, taba[..], w, l + h, w, l + h, w, h);
  }

  method HalveRest(tabs: array<limb>, so: nat, taba: array<limb>, w: nat, l: nat, h: nat, tmp: array<limb>,
                   qt: limb, ghost total: int) returns (qh': limb, rh: limb)
    requires 1 <= l <= h && so + l + h <= tabs.Length && w + h <= taba.Length && l + 1 <= tmp.Length && qt <= 2
    requires tabs != taba && tabs != tmp && taba != tmp
    requires Val(taba[w..w + h]) < Val(tabs[so + l..so + l + h])
    requires (qt * Pow(l) + Val(tmp[0..l + 1][..l])) * Val(tabs[so + l..so + l + h]) + Val(taba[w..w + h]) == total
    modifies tabs, taba
    ensures Same(tabs[..], old(tabs[..]), so, l) && Same(taba[..], old(taba[..]), w, h)
    ensures qh' <= 1 && rh <= 1
    ensures Halved(total, old(Val(tabs[so + l..so + l + h])),
                   qh' * Pow(l) + Val(tabs[so..so + l]), rh * Pow(h) + Val(taba[w..w + h]))
  {
    hide Val, Pow, Same;
    ghost var d, rem, origA, origS := tabs[so + l..so + l + h], Val(taba[w..w + h]), taba[..], tabs[..];
    assert tmp[0..l + 1][..l] == tmp[0..l];
    CopyLimbs(tabs, so, tmp, 0, l);
    ghost var mid := tabs[..];
    OneBit();
    var ql := MpShr(tabs, so, tabs, so, l, 1, qt % 2);
    SameThen(origS, mid, tabs[..], so, l, so, l, so, l);
    SameSlice(tabs[..], origS, so, l, so + l, so + l + h);
    assert tabs[so + l..so + l + h] == d;
    qh', rh := qt / 2, 0;
    SameNone(origA, w);
    SameWiden(origA, origA, w, 0, h);
    if ql != 0 {
      rh := MpAdd(taba, w, taba, w, tabs, so + l, h, 0);
    }
    assert ql == 0 ==> 0 * Val(d) == 0 && 0 * Pow(h) == 0;
    HalveAlgebra(qt * Pow(l) + Val(tmp[0..l]), qt, Val(tmp[0..l]), Val(tabs[so..so + l]), ql, Val(d), rem,
                 rh * Pow(h) + Val(taba[w..w + h]), Pow(l), total);
  }

  lemma {:induction false} OneBit()
    ensures Pow2(1) == 2
  {
    assert Pow2(1) == 2 * Pow2(0);
  }

  /** Adding the top bit of the quotient to the upper half of the root; a carry means the root is B^n for now. */
  lemma JoinRoot(low: int, l: int, high: int, c: int, hh: int, s0: int, qh: int, s: int, n: int)
    requires high + c * hh == s0 + qh && 0 <= c <= 1 && s == s0 * l + (qh * l + low) && n == hh * l
    requires 0 <= low && 0 <= high && l >= 1 && s <= n
    ensures low + l * high == s - c * n && (c == 1 ==> s == n)
  {
    assert l * (high + c * hh) == l * high + c * n;
    assert l * (s0 + qh) == s0 * l + qh * l;
    MulLe(0, high, l);
    assert c == 1 ==> c * n == n;
  }

  /** Subtracts the square of l limbs from the low 2 l limbs, using the limbs from n on for the product. */
  method SubtractProductSquare(tabs: array<limb>, so: nat, taba: array<limb>, ao: nat, n: nat, l: nat) returns (c: limb)
    requires 1 <= l && 2 * l <= n && so + l <= tabs.Length && ao + 2 * n <= taba.Length && tabs != taba
    modifies taba
    ensures c <= 1 && Same(taba[..], old(taba[..]), ao, 2 * n)
    ensures var q := Val(tabs[so..so + l]);
            Val(taba[ao..ao + n]) - c * Pow(2 * l) == Val(old(taba[ao..ao + n])) - q * q
  {
    hide Val, Pow, Same;
    ghost var orig := taba[..];
    MpMulBasecase(taba, ao + n, tabs, so, l, tabs, so, l);
    ghost var mid := taba[..];
    SameSlice(mid, orig, ao + n, l + l, ao, ao + n);
    assert taba[ao..ao + n] == mid[ao..ao + n] == orig[ao..ao + n];
    c := SubtractAbove(taba, ao, n, 2 * l);
    SameThen(orig, mid, taba[..], ao, 2 * n, ao + n, l + l, ao, 2 * l);
  }

  /** Subtracts the m limbs from limb n on from the low m limbs. */
  method SubtractAbove(taba: array<limb>, ao: nat, n: nat, m: nat) returns (c: limb)
    requires m <= n && ao + n + m <= taba.Length
    modifies taba
    ensures c <= 1 && Same(taba[..], old(taba[..]), ao, m)
    ensures Val(taba[ao..ao + n]) - c * Pow(m) == Val(old(taba[ao..ao + n])) - Val(old(taba[ao + n..ao + n + m]))
  {
    hide Val, Pow, Same;
    ghost var orig, x := taba[..], taba[ao..ao + n];
    SliceCut(taba, ao, ao + n, m);
    c := MpSub(taba, ao, taba, ao, taba, ao + n, m, 0);
    SameSlice(taba[..], orig, ao, m, ao + m, ao + n);
    SliceCut(taba, ao, ao + n, m);
    ghost var end := taba[ao..ao + n];
    assert end[m..] == taba[..][ao + m..ao + n] == orig[ao + m..ao + n] == x[m..];
    LowChange(end, x, m);
  }

  /** Numbers that agree from limb m on differ by what their low limbs differ. */
  lemma {:induction false} LowChange(s: seq<limb>, t: seq<limb>, m: nat)
    requires |s| == |t| && m <= |s| && s[m..] == t[m..]
    ensures Val(s) - Val(t) == Val(s[..m]) - Val(t[..m])
  {
    hide Val, Pow;
    ValSplit(s, m);
    ValSplit(t, m);
  }

  /** Subtracts q * q from the low n limbs, where q is B^l if 'qh' is set. */
  method SubtractSquare(tabs: array<limb>, so: nat, taba: array<limb>, ao: nat, n: nat, l: nat, qh: limb)
    returns (k: limb)
    requires 1 <= l && 2 * l <= n && so + l <= tabs.Length && ao + 2 * n <= taba.Length && tabs != taba && qh <= 1
    requires qh == 1 ==> Val(tabs[so..so + l]) == 0
    modifies taba
    ensures k <= 1 && Same(taba[..], old(taba[..]), ao, 2 * n)
    ensures var q := WithTop(qh, tabs[so..so + l]);
            Val(taba[ao..ao + n]) - k * Pow(n) == Val(old(taba[ao..ao + n])) - q * q
  {
    hide Val, Pow, Same, WithTop;
    ghost var orig := taba[..];
    QuotientSquare(l, qh, tabs[so..so + l]);
    SameNone(orig, ao);
    SameWiden(orig, orig, ao, 0, 2 * n);
    OneOrNone(qh, Pow(2 * l));
    var c := qh;
    if qh == 0 {
      c := SubtractProductSquare(tabs, so, taba, ao, n, l);
    }
    ghost var mid := taba[..];
    k := BorrowFrom(taba, ao, n, 2 * l, c);
    SameThen(orig, mid, taba[..], ao, 2 * n, ao, 2 * n, ao, n);
  }

  lemma OneOrNone(c: int, p: int)
    ensures 0 * p == 0 && 1 * p == p
  {
  }

  /** Takes c * B^m from the n limbs; limbs below m stay. */
  method BorrowFrom(taba: array<limb>, ao: nat, n: nat, m: nat, c: limb) returns (k: limb)
    requires m <= n && ao + n <= taba.Length && c <= 1
    modifies taba
    ensures k <= 1 && Same(taba[..], old(taba[..]), ao, n)
    ensures Val(taba[ao..ao + n]) - k * Pow(n) == Val(old(taba[ao..ao + n])) - c * Pow(m)
  {
    hide Val, Pow, Same;
    ghost var mid, x := taba[..], taba[ao..ao + n];
    SliceCut(taba, ao, ao + n, m);
    assert ao + m + (n - m) == ao + n;
    k := MpSubUi(taba, ao + m, c, n - m);
    SameSlice(taba[..], mid, ao + m, n - m, ao, ao + m);
    SameThen(mid, mid, taba[..], ao, n, ao, 0, ao + m, n - m);
    ghost var end := taba[ao..ao + n];
    SliceCut(taba, ao, ao + n, m);
    assert end[..m] == taba[..][ao..ao + m] == mid[ao..ao + m] == x[..m];
    HighBorrow(end, x, c, k, m);
  }

  lemma {:induction false} HighBorrow(end: seq<limb>, x: seq<limb>, c: int, k: int, m: nat)
    requires |end| == |x| && m <= |x| && end[..m] == x[..m]
    requires Val(end[m..]) - k * Pow(|x| - m) == Val(x[m..]) - c
    ensures Val(end) - k * Pow(|x|) == Val(x) - c * Pow(m)
  {
    hide Val, Pow;
    ValSplit(end, m);
    ValSplit(x, m);
    PowAdd(m, |x| - m);
    BorrowAlgebra(Pow(m), Val(end[m..]), Val(x[m..]), Pow(|x| - m), c, k);
  }

  lemma BorrowAlgebra(p: int, end: int, x: int, high: int, c: int, k: int)
    requires end - k * high == x - c
    ensures p * end - k * (p * high) == p * x - c * p
  {
    assert p * (end - k * high) == p * end - k * (p * high);
  }

  lemma {:induction false} QuotientSquare(l: nat, qh: limb, s: seq<limb>)
    requires |s| == l && qh <= 1 && (qh == 1 ==> Val(s) == 0)
    ensures var q := WithTop(qh, s); q * q == if qh == 0 then Val(s) * Val(s) else Pow(2 * l)
  {
    hide Val, Pow;
    PowAdd(l, l);
    if qh == 0 { assert 0 * Pow(l) == 0; } else { assert 1 * Pow(l) == Pow(l); }
  }

  /** One step back: the root less one, the remainder plus twice the new root plus one. */
  method StepDown(tabs: array<limb>, so: nat, taba: array<limb>, ao: nat, n: nat, rh0: limb, ghost s: int)
    returns (rh: limb, ghost c: int)
    requires n >= 1 && so + n <= tabs.Length && ao + n <= taba.Length && tabs != taba
    requires 1 <= s <= Pow(n) && Val(tabs[so..so + n]) == if s == Pow(n) then 0 else s
    modifies tabs, taba
    ensures Same(tabs[..], old(tabs[..]), so, n) && Same(taba[..], old(taba[..]), ao, n)
    ensures Val(tabs[so..so + n]) == s - 1 && rh == (rh0 + c) % B
    ensures WithTop(c, taba[ao..ao + n]) == Val(old(taba[ao..ao + n])) + 2 * (s - 1) + 1
  {
    hide Val, Pow, Same, WithTop;
    ghost var origA, t := taba[..], taba[ao..ao + n];
    var b := MpSubUi(tabs, so, 1, n);
    StepBack(tabs[so..so + n], b, Pow(n), s);
    var c1 := MpAddMul1(taba, ao, tabs, so, n, 2);
    ghost var mid, t1 := taba[..], taba[ao..ao + n];
    var c2 := MpAddUi(taba, ao, 1, n);
    rh := ((rh0 + c1) % B + c2) % B;
    SameThen(origA, mid, taba[..], ao, n, ao, n, ao, n);
    c := c1 as int + c2;
    ModTwice(rh0 + c1, c2, B);
    TwoCarries(t, t1, taba[ao..ao + n], c1, c2, s - 1);
  }

  lemma {:induction false} TwoCarries(t: seq<limb>, t1: seq<limb>, t2: seq<limb>, c1: int, c2: int, s: int)
    requires |t| == |t1| == |t2| && Val(t1) + c1 * Pow(|t|) == Val(t) + s * 2 && Val(t2) + c2 * Pow(|t|) == Val(t1) + 1
    ensures WithTop(c1 + c2, t2) == Val(t) + 2 * s + 1
  {
    hide Val, Pow;
    assert (c1 + c2) * Pow(|t|) == c1 * Pow(|t|) + c2 * Pow(|t|);
  }

  lemma ModTwice(x: int, y: int, b: int)
    requires b > 0
    ensures (x % b + y) % b == (x + y) % b
  {
    var k, m := x / b, x % b;
    var j, w := (m + y) / b, (m + y) % b;
    assert x == b * k + m && m + y == b * j + w;
    assert x + y == (k + j) * b + w;
    DivideUnique(x + y, b, k + j, w);
  }

  /** The root is one too large exactly when the remainder is negative; then one step back repairs both. */
  method FixUp(tabs: array<limb>, so: nat, taba: array<limb>, ao: nat, n: nat, rh0: limb, k: limb,
               ghost s: int, ghost r: int, ghost a: int) returns (rh: limb)
    requires n >= 1 && so + n <= tabs.Length && ao + n <= taba.Length && tabs != taba && rh0 <= 1 && k <= 1
    requires r == WithTop(rh0 - k, taba[ao..ao + n])
    requires Val(tabs[so..so + n]) == if s == Pow(n) then 0 else s
    requires NearRoot(a, s, r, Pow(n)) && a < Pow(n) * Pow(n)
    modifies tabs, taba
    ensures Same(tabs[..], old(tabs[..]), so, n) && Same(taba[..], old(taba[..]), ao, n) && rh <= 1
    ensures IsSqrt(a, Val(tabs[so..so + n]), WithTop(rh, taba[ao..ao + n]))
  {
    hide Val, Pow, Same, IsSqrt, NearRoot, WithTop;
    ghost var t, origA, origS := taba[ao..ao + n], taba[..], tabs[..];
    SameNone(origA, ao);
    SameWiden(origA, origA, ao, 0, n);
    SameNone(origS, so);
    SameWiden(origS, origS, so, 0, n);
    rh := SubHigh(rh0, k);
    HighSign(rh0 - k, t, r);
    if rh >= B / 2 {
      PreviousRoot(a, s, r, Pow(n));
      ghost var c;
      rh, c := StepDown(tabs, so, taba, ao, n, rh, s);
      SumHigh(t, taba[ao..ao + n], s - 1, c, r);
    } else {
      RootFits(a, s, r, Pow(n));
    }
  }

  /** The limb above the remainder; all ones when it is negative. */
  method SubHigh(rh0: limb, k: limb) returns (rh: limb)
    requires rh0 <= 1 && k <= 1
    ensures rh == if rh0 < k then B - 1 else rh0 - k
  {
    rh := (rh0 - k) % B;
  }

  lemma {:induction false} HighSign(d: int, t: seq<limb>, r: int)
    requires -1 <= d <= 1 && r == WithTop(d, t)
    ensures (r < 0) == (d == -1)
  {
    hide Val, Pow;
    ValBound(t);
    assert d == -1 ==> d * Pow(|t|) == -Pow(|t|);
    assert d == 0 ==> d * Pow(|t|) == 0;
    assert d == 1 ==> d * Pow(|t|) == Pow(|t|);
  }

  lemma {:induction false} StepBack(t: seq<limb>, b: int, p: int, s: int)
    requires p == Pow(|t|) && 0 <= b <= 1 && 1 <= s <= p
    requires Val(t) - b * p == (if s == p then 0 else s) - 1
    ensures Val(t) == s - 1
  {
    hide Val, Pow;
    ValBound(t);
    assert b == 1 ==> b * p == p;
    assert b == 0 ==> b * p == 0;
  }

  lemma {:induction false} SumHigh(t: seq<limb>, t2: seq<limb>, s1: int, c: int, r: int)
    requires |t| == |t2| && 0 <= s1 < Pow(|t|) && r == WithTop(-1, t)
    requires WithTop(c, t2) == Val(t) + 2 * s1 + 1 && 0 <= r + 2 * s1 + 1 <= 2 * s1
    ensures 0 <= c - 1 <= 1 && r + 2 * s1 + 1 == WithTop(c - 1, t2) && (B - 1 + c) % B == c - 1
  {
    hide Val, Pow;
    var p := Pow(|t|);
    ValBound(t2);
    assert (-1) * p == -p && (c - 1) * p == c * p - p;
    if c - 1 <= -1 { MulLe(c - 1, -1, p); }
    if c - 1 >= 2 { MulLe(2, c - 1, p); }
  }

  /** A top limb of at least B / 4 makes the number at least a quarter of B^(2n); powers of B are even. */
  lemma {:induction false} QuarterRange(a: seq<limb>, h: nat)
    requires h >= 1 && |a| == 2 * h && a[2 * h - 1] >= B / 4
    ensures Pow(h) % 2 == 0 && Pow(h) >= 2 && Pow(h) * Pow(h) <= 4 * Val(a) < 4 * (Pow(h) * Pow(h))
  {
    hide Val, Pow;
    TopOne(a);
    ValBound(a);
    PowAdd(h, h);
    PowNext(2 * h - 1);
    PowNext(h - 1);
    PowPositive(h - 1);
    QuarterTop(a[2 * h - 1], Pow(2 * h - 1));
    EvenProduct(Pow(h - 1));
  }

  lemma QuarterTop(t: int, p: int)
    requires t >= B / 4 && p >= 0
    ensures B * p <= 4 * (t * p)
  {
    MulLe(B, 4 * t, p);
    assert (4 * t) * p == 4 * (t * p);
  }

  lemma EvenProduct(x: int)
    requires x >= 1
    ensures (B * x) % 2 == 0 && B * x >= 2
  {
    assert B * x == 2 * ((B / 2) * x);
    MulLe(1, x, B);
  }

  /** The root of the upper half is a normalized divisor. */
  lemma {:induction false} UpperRoot(a: seq<limb>, t: seq<limb>, r: int)
    requires |t| >= 1 && |a| == 2 * |t| && a[|a| - 1] >= B / 4 && IsSqrt(Val(a), Val(t), r)
    ensures Normalized(t[|t| - 1]) && Pow(|t|) <= 2 * Val(t) && Val(t) < Pow(|t|) && 0 <= r <= 2 * Val(t)
  {
    hide Val, Pow, Normalized;
    QuarterRange(a, |t|);
    SqrtRange(Pow(|t|), Val(a), Val(t), r);
    TopNormalized(t);
  }

  /** A number as its two low quarters and its upper half. */
  ghost predicate Splits(a: int, ah: int, a1: int, a0: int, p: int) { a == ah * (p * p) + a1 * p + a0 }

  lemma {:induction false} FourParts(a: seq<limb>, l: nat)
    requires 2 * l <= |a|
    ensures Splits(Val(a), Val(a[2 * l..]), Val(a[l..2 * l]), Val(a[..l]), Pow(l))
    ensures 0 <= Val(a[l..2 * l]) < Pow(l) && 0 <= Val(a[..l]) < Pow(l)
  {
    hide Val, Pow;
    ValBound(a[..l]);
    ValBound(a[l..2 * l]);
    ValSplit(a, l);
    ValSplit(a[l..], l);
    assert a[l..][..l] == a[l..2 * l] && a[l..][l..] == a[2 * l..];
    assert Pow(l) * (Val(a[l..2 * l]) + Pow(l) * Val(a[2 * l..]))
        == Val(a[2 * l..]) * (Pow(l) * Pow(l)) + Val(a[l..2 * l]) * Pow(l);
  }

  /** Everything the last phase needs to know about quotient, root and remainder. */
  lemma {:induction false} StepFacts(n: nat, l: nat, h: nat, s0: int, r0: int, a1: int, a0: int, qh: int, low: int,
                                     u: int, ah: int, a: int)
    requires n == l + h && 1 <= l <= h && IsSqrt(ah, s0, r0) && Pow(h) <= 2 * s0 && s0 < Pow(h)
    requires 0 <= a1 < Pow(l) && 0 <= a0 < Pow(l) && 0 <= qh <= 1 && 0 <= low < Pow(l)
    requires Halved(r0 * Pow(l) + a1, s0, qh * Pow(l) + low, u)
    requires Splits(a, ah, a1, a0, Pow(l))
    ensures qh == 1 ==> low == 0
    ensures var q := qh * Pow(l) + low;
            NearRoot(a, s0 * Pow(l) + q, u * Pow(l) + a0 - q * q, Pow(n))
  {
    hide Pow;
    PowMonotone(l, h);
    PowPositive(l);
    HighTimesLow(n, l, h);
    SqrtStep(Pow(h), Pow(l), s0, r0, a1, a0, qh * Pow(l) + low, u);
    ScaleUp(s0, r0, ah, Pow(l));
    if qh == 1 { assert 1 * Pow(l) == Pow(l); }
  }

  /** The remainder of the halved division on top of the limbs not yet used. */
  lemma {:induction false} LowRemainder(t: seq<limb>, l: nat, rh: int, u: int)
    requires l <= |t| && u == WithTop(rh, t[l..])
    ensures WithTop(rh, t) == WithTop(u, t[..l])
  {
    hide Val, Pow;
    ValSplit(t, l);
    PowAdd(|t| - l, l);
    assert (rh * Pow(|t| - l) + Val(t[l..])) * Pow(l) == rh * (Pow(|t| - l) * Pow(l)) + Pow(l) * Val(t[l..]);
  }

  /** Joins the halves of the root, subtracts the square of the lower one, and corrects. */
  method Combine(tabs: array<limb>, so: nat, taba: array<limb>, ao: nat, n: nat, l: nat, h: nat, qh: limb, rh0: limb,
                 ghost s0: int, ghost u: int, ghost a: int) returns (rh: limb)
    requires n == l + h && 1 <= l <= h && so + n <= tabs.Length && ao + 2 * n <= taba.Length && tabs != taba
    requires qh <= 1 && rh0 <= 1 && a < Pow(n) * Pow(n)
    requires s0 == Val(tabs[so + l..so + n])
    requires u == WithTop(rh0, taba[ao + l..ao + n])
    requires qh == 1 ==> Val(tabs[so..so + l]) == 0
    requires var q := WithTop(qh, tabs[so..so + l]);
             NearRoot(a, s0 * Pow(l) + q, WithTop(u, taba[ao..ao + l]) - q * q, Pow(n))
    modifies tabs, taba
    ensures Same(tabs[..], old(tabs[..]), so, n) && Same(taba[..], old(taba[..]), ao, 2 * n) && rh <= 1
    ensures IsSqrt(a, Val(tabs[so..so + n]), WithTop(rh, taba[ao..ao + n]))
  {
    hide Val, Pow, Same, IsSqrt, NearRoot, WithTop;
    ghost var origS, origA, x := tabs[..], taba[..], taba[ao..ao + n];
    ghost var q, rest := WithTop(qh, tabs[so..so + l]), WithTop(u, taba[ao..ao + l]);
    ghost var s, r := s0 * Pow(l) + q, rest - q * q;
    SliceCut(taba, ao, ao + n, l);
    LowRemainder(x, l, rh0, u);
    NearRootRange(a, s, r, Pow(n));
    JoinHalves(tabs, so, n, l, h, qh, s0, s);
    ghost var midS := tabs[..];
    var k := SubtractSquare(tabs, so, taba, ao, n, l, qh);
    ghost var midA := taba[..];
    LessTop(x, taba[ao..ao + n], rh0, k, q * q);
    rh := FixUp(tabs, so, taba, ao, n, rh0, k, s, r, a);
    SameThen(origS, midS, tabs[..], so, n, so, n, so, n);
    SameWiden(midA, taba[..], ao, n, 2 * n);
    SameThen(origA, midA, taba[..], ao, 2 * n, ao, 2 * n, ao, 2 * n);
  }

  /** A borrow out of the limbs is taken from the extra limb. */
  lemma {:induction false} LessTop(x: seq<limb>, y: seq<limb>, top: int, k: int, d: int)
    requires |x| == |y| && Val(y) - k * Pow(|x|) == Val(x) - d
    ensures WithTop(top - k, y) == WithTop(top, x) - d
  {
    hide Val, Pow;
    assert (top - k) * Pow(|x|) == top * Pow(|x|) - k * Pow(|x|);
  }

  /** The top bit of the quotient goes into the upper half; the root may wrap to 0. */
  method JoinHalves(tabs: array<limb>, so: nat, n: nat, l: nat, h: nat, qh: limb, ghost s0: int, ghost s: int)
    requires n == l + h && 1 <= l <= h && so + n <= tabs.Length && qh <= 1
    requires s0 == Val(tabs[so + l..so + n]) && s == s0 * Pow(l) + WithTop(qh, tabs[so..so + l]) && s <= Pow(n)
    modifies tabs
    ensures Same(tabs[..], old(tabs[..]), so, n) && tabs[so..so + l] == old(tabs[so..so + l])
    ensures Val(tabs[so..so + n]) == if s == Pow(n) then 0 else s
  {
    hide Val, Pow, Same;
    ghost var orig, low := tabs[..], tabs[so..so + l];
    assert so + l + h == so + n;
    var c := MpAddUi(tabs, so + l, qh, h);
    SameSlice(tabs[..], orig, so + l, h, so, so + l);
    assert tabs[so..so + l] == tabs[..][so..so + l] == orig[so..so + l] == low;
    SameNone(orig, so);
    SameWiden(orig, orig, so, 0, n);
    SameThen(orig, orig, tabs[..], so, n, so, n, so + l, h);
    ghost var end := tabs[so..so + n];
    assert end[..l] == low && end[l..] == tabs[so + l..so + n];
    ValSplit(end, l);
    ValBound(end);
    HighTimesLow(n, l, h);
    PowPositive(l);
    JoinRoot(Val(low), Pow(l), Val(end[l..]), c, Pow(h), s0, qh, s, Pow(n));
    assert c == 1 ==> c * Pow(n) == Pow(n);
    assert c == 0 ==> c * Pow(n) == 0;
  }

  /**
   Karatsuba square root of 2n limbs with the top one at least B / 4: n limbs of
   root, n limbs and one bit of remainder.
   */
  method MpSqrtremRec(tabs: array<limb>, so: nat, taba: array<limb>, ao: nat, n: nat, tmp: array<limb>)
    returns (rh: limb)
    requires n >= 1 && so + n <= tabs.Length && ao + 2 * n <= taba.Length && n / 2 + 1 <= tmp.Length
    requires tabs != taba && tabs != tmp && taba != tmp && taba[ao + 2 * n - 1] >= B / 4
    modifies tabs, taba, tmp
    ensures Same(tabs[..], old(tabs[..]), so, n) && Same(taba[..], old(taba[..]), ao, 2 * n) && rh <= 1
    ensures IsSqrt(Val(old(taba[ao..ao + 2 * n])), Val(tabs[so..so + n]), WithTop(rh, taba[ao..ao + n]))
    decreases n, 1
  {
    hide Val, Pow, Same, IsSqrt;
    if n == 1 {
      rh := OneLimbRoot(tabs, so, taba, ao);
      return;
    }
    var l := n / 2;
    var h := n - l;
    ghost var origA, origS := taba[..], tabs[..];
    var qh := UpperHalf(tabs, so, taba, ao, n, l, h, tmp);
    ghost var midA, midS := taba[..], tabs[..];
    rh := LowerHalf(tabs, so, taba, ao, n, l, h, tmp, qh, origA[ao..ao + 2 * n]);
    SameThen(origA, midA, taba[..], ao, 2 * n, ao + 2 * l, 2 * h, ao, 2 * n);
    SameThen(origS, midS, tabs[..], so, n, so + l, h, so, n);
  }

  /** The root of the upper 2h limbs, in the upper h limbs of the root. */
  method UpperHalf(tabs: array<limb>, so: nat, taba: array<limb>, ao: nat, n: nat, l: nat, h: nat, tmp: array<limb>)
    returns (qh: limb)
    requires n == l + h && l == n / 2 && n >= 2 && so + n <= tabs.Length && ao + 2 * n <= taba.Length
    requires n / 2 + 1 <= tmp.Length
    requires tabs != taba && tabs != tmp && taba != tmp && taba[ao + 2 * n - 1] >= B / 4
    modifies tabs, taba, tmp
    ensures Same(tabs[..], old(tabs[..]), so + l, h) && Same(taba[..], old(taba[..]), ao + 2 * l, 2 * h) && qh <= 1
    ensures var a := old(taba[..])[ao..ao + 2 * n];
            && |a| == 2 * n && a[2 * n - 1] >= B / 4
            && taba[ao..ao + l] == a[..l] && taba[ao + l..ao + 2 * l] == a[l..2 * l]
            && IsSqrt(Val(a[2 * l..]), Val(tabs[so + l..so + n]), WithTop(qh, taba[ao + 2 * l..ao + 2 * l + h]))
    decreases n, 0
  {
    hide Val, Pow, Same, IsSqrt;
    ghost var origA := taba[..];
    ghost var a := origA[ao..ao + 2 * n];
    UpperLimbs(origA, ao, l, h);
    assert taba[ao + 2 * l..ao + 2 * l + 2 * h] == a[2 * l..];
    assert so + l + h == so + n && ao + 2 * l + 2 * h == ao + 2 * n;
    qh := MpSqrtremRec(tabs, so + l, taba, ao + 2 * l, h, tmp);
    LowerLimbs(taba[..], origA, a, ao, l, 2 * h);
    assert taba[..][ao..ao + l] == taba[ao..ao + l] && taba[..][ao + l..ao + 2 * l] == taba[ao + l..ao + 2 * l];
  }

  /** From the root of the upper half to the root of the whole. */
  method LowerHalf(tabs: array<limb>, so: nat, taba: array<limb>, ao: nat, n: nat, l: nat, h: nat, tmp: array<limb>,
                   qh: limb, ghost a: seq<limb>) returns (rh: limb)
    requires n == l + h && 1 <= l <= h && so + n <= tabs.Length && ao + 2 * n <= taba.Length && l + 1 <= tmp.Length
    requires tabs != taba && tabs != tmp && taba != tmp && qh <= 1 && |a| == 2 * n && a[2 * n - 1] >= B / 4
    requires taba[ao..ao + l] == a[..l] && taba[ao + l..ao + 2 * l] == a[l..2 * l]
    requires IsSqrt(Val(a[2 * l..]), Val(tabs[so + l..so + n]), WithTop(qh, taba[ao + 2 * l..ao + 2 * l + h]))
    modifies tabs, taba, tmp
    ensures Same(tabs[..], old(tabs[..]), so, n) && Same(taba[..], old(taba[..]), ao, 2 * n) && rh <= 1
    ensures IsSqrt(Val(a), Val(tabs[so..so + n]), WithTop(rh, taba[ao..ao + n]))
  {
    hide Val, Pow, Same, IsSqrt, Normalized, Halved, NearRoot, WithTop;
    ghost var midA, midS := taba[..], tabs[..];
    ghost var s0, r0 := Val(tabs[so + l..so + n]), WithTop(qh, taba[ao + 2 * l..ao + 2 * l + h]);
    UpperRoot(a[2 * l..], tabs[so + l..so + n], r0);
    var q1, r1 := LowerQuotient(tabs, so, taba, ao, n, l, h, tmp, qh, s0, r0);
    ghost var lastA, lastS, u := taba[..], tabs[..], WithTop(r1, taba[ao + l..ao + n]);
    StepReady(a, n, l, h, s0, r0, q1, tabs[so..so + l], u);
    rh := Combine(tabs, so, taba, ao, n, l, h, q1, r1, s0, u, Val(a));
    SameThen(midA, lastA, taba[..], ao, 2 * n, ao + l, n, ao, 2 * n);
    SameThen(midS, lastS, tabs[..], so, n, so, l, so, n);
  }

  /** Quotient and remainder for the lower half; root above and limbs below stay. */
  method LowerQuotient(tabs: array<limb>, so: nat, taba: array<limb>, ao: nat, n: nat, l: nat, h: nat, tmp: array<limb>,
                       qh: limb, ghost s0: int, ghost r0: int) returns (q1: limb, r1: limb)
    requires n == l + h && 1 <= l <= h && so + n <= tabs.Length && ao + 2 * n <= taba.Length && l + 1 <= tmp.Length
    requires tabs != taba && tabs != tmp && taba != tmp && qh <= 1 && Normalized(tabs[so + l..so + n][h - 1])
    requires s0 == Val(tabs[so + l..so + n]) && r0 == WithTop(qh, taba[ao + 2 * l..ao + 2 * l + h]) && r0 <= 2 * s0
    modifies tabs, taba, tmp
    ensures Same(tabs[..], old(tabs[..]), so, l) && Same(taba[..], old(taba[..]), ao + l, n) && q1 <= 1 && r1 <= 1
    ensures tabs[so + l..so + n] == old(tabs[so + l..so + n]) && taba[ao..ao + l] == old(taba[ao..ao + l])
    ensures Halved(WithTop(r0, old(taba[ao + l..ao + 2 * l])), s0, WithTop(q1, tabs[so..so + l]),
                   WithTop(r1, taba[ao + l..ao + n]))
  {
    hide Val, Pow, Same, Normalized, Halved, WithTop;
    ghost var midA, midS := taba[..], tabs[..];
    assert so + n == so + l + h && ao + 2 * l == ao + l + l && ao + n == ao + l + h;
    assert tabs[so + l..so + n][h - 1] == tabs[so + l + h - 1];
    q1, r1 := HalveQuotient(tabs, so, taba, ao + l, l, h, tmp, qh, r0);
    SameSlice(tabs[..], midS, so, l, so + l, so + n);
    SameSlice(taba[..], midA, ao + l, n, ao, ao + l);
    assert tabs[so + l..so + n] == tabs[..][so + l..so + n] == midS[so + l..so + n];
    assert taba[ao..ao + l] == taba[..][ao..ao + l] == midA[ao..ao + l];
  }

  lemma {:induction false} BelowSquare(a: seq<limb>, n: nat)
    requires |a| == 2 * n
    ensures Val(a) < Pow(n) * Pow(n)
  {
    hide Val, Pow;
    ValBound(a);
    PowAdd(n, n);
  }

  lemma {:induction false} StepReady(a: seq<limb>, n: nat, l: nat, h: nat, s0: int, r0: int, qh: int, low: seq<limb>,
                                     u: int)
    requires n == l + h && 1 <= l <= h && |a| == 2 * n && |low| == l && 0 <= qh <= 1
    requires IsSqrt(Val(a[2 * l..]), s0, r0) && Pow(h) <= 2 * s0 && s0 < Pow(h)
    requires Halved(WithTop(r0, a[l..2 * l]), s0, WithTop(qh, low), u)
    ensures Val(a) < Pow(n) * Pow(n) && (qh == 1 ==> Val(low) == 0)
    ensures var q := WithTop(qh, low); NearRoot(Val(a), s0 * Pow(l) + q, WithTop(u, a[..l]) - q * q, Pow(n))
  {
    hide Val, Pow, IsSqrt, Halved, NearRoot, Splits;
    ValBound(low);
    BelowSquare(a, n);
    FourParts(a, l);
    StepFacts(n, l, h, s0, r0, Val(a[l..2 * l]), Val(a[..l]), qh, Val(low), u, Val(a[2 * l..]), Val(a));
  }

  lemma UpperLimbs(s: seq<limb>, ao: nat, l: nat, h: nat)
    requires ao + 2 * (l + h) <= |s|
    ensures s[ao..ao + 2 * (l + h)][2 * l..] == s[ao + 2 * l..ao + 2 * l + 2 * h]
  {
  }

  /** The limbs below the upper half are as they were. */
  lemma LowerLimbs(s: seq<limb>, t: seq<limb>, a: seq<limb>, ao: nat, l: nat, m: nat)
    requires Same(s, t, ao + 2 * l, m) && ao + 2 * l + m <= |t| && a == t[ao..ao + 2 * l + m]
    ensures |s| == |t| && s[ao..ao + l] == a[..l] && s[ao + l..ao + 2 * l] == a[l..2 * l]
  {
    SameSlice(s, t, ao + 2 * l, m, ao, ao + l);
    SameSlice(s, t, ao + 2 * l, m, ao + l, ao + 2 * l);
    SubSlice(t, ao, ao + 2 * l + m, 0, l);
    SubSlice(t, ao, ao + 2 * l + m, l, 2 * l);
  }

  method OneLimbRoot(tabs: array<limb>, so: nat, taba: array<limb>, ao: nat) returns (rh: limb)
    requires so + 1 <= tabs.Length && ao + 2 <= taba.Length && tabs != taba && taba[ao + 1] >= B / 4
    modifies tabs, taba
    ensures Same(tabs[..], old(tabs[..]), so, 1) && Same(taba[..], old(taba[..]), ao, 2) && rh <= 1
    ensures IsSqrt(Val(old(taba[ao..ao + 2])), Val(tabs[so..so + 1]), WithTop(rh, taba[ao..ao + 1]))
  {
    hide Val, Pow, Same, IsSqrt;
    ghost var orig := taba[..];
    assert taba[ao..ao + 2] == [taba[ao]] + [taba[ao + 1]];
    LowDigit(taba[ao], [taba[ao + 1]]);
    ValOne(taba[ao + 1]);
    rh := MpSqrtrem2(tabs, so, taba, ao);
    SameWiden(orig, taba[..], ao, 1, 2);
    assert tabs[so..so + 1] == [tabs[so]] && taba[ao..ao + 1] == [taba[ao]];
    ValOne(tabs[so]);
    ValOne(taba[ao]);
    NoDigits([], [], []);
  }

  /** Root in 'tabs'; the remainder, n + 1 limbs, replaces the low limbs of the number. */
  method MpSqrtrem(tabs: array<limb>, taba: array<limb>, n: nat)
    requires n >= 1 && n <= tabs.Length && 2 * n <= taba.Length && tabs != taba && taba[2 * n - 1] >= B / 4
    modifies tabs, taba
    ensures Same(tabs[..], old(tabs[..]), 0, n) && Same(taba[..], old(taba[..]), 0, 2 * n)
    ensures IsSqrt(Val(old(taba[0..2 * n])), Val(tabs[0..n]), Val(taba[0..n + 1]))
    ensures var a, s := Val(old(taba[0..2 * n])), Val(tabs[0..n]); s * s <= a < (s + 1) * (s + 1)
  {
    hide Val, Pow, Same, IsSqrt;
    ghost var orig, a := taba[..], Val(taba[0..2 * n]);
    var tmp := new limb[n / 2 + 1];
    var rh := MpSqrtremRec(tabs, 0, taba, 0, n, tmp);
    ghost var low, mid := taba[0..n], taba[..];
    taba[n] := rh;
    ghost var end := taba[0..n + 1];
    assert end[..n] == low && end[n] == rh;
    WindowTop(end, n);
    SameOne(mid, n, rh);
    assert taba[..] == mid[n := rh];
    SameThen(orig, mid, taba[..], 0, 2 * n, 0, 2 * n, n, 1);
    SqrtIsFloor(a, Val(tabs[0..n]), Val(end));
  }
}
