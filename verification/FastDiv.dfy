/**
 Division by constants through a multiplication: by an arbitrary divisor with a
 precomputed multiplier, and of two limbs by the decimal base.
 */
module FastDiv {
  import opened Limbs

  // ---- a limb by an invariant divisor ----

  datatype FastDivData = FastDivData(m1: limb, shift1: nat, shift2: nat)

  /** 'p' = 2^l is the first power of two not below 'd'. */
  predicate IsCeiling(d: int, p: int, l: nat) {
    p == Pow2(l) && d <= p && p < 2 * d
  }

  /** The multiplier: with the implied bit above it, the first integer above 2^(64 + l) / d. */
  predicate IsMultiplier(b: int, d: int, p: int, m1: int) { (m1 - 1) * d <= b * (p - d) < m1 * d }

  /** For 'a' the excess of the multiplier stays below the next multiple of 'd'. */
  predicate Reaches(b: int, d: int, p: int, m1: int, a: int)
    requires d > 0
  {
    ((b + m1) * d - b * p) * a < (b * p) * ((a / d + 1) * d - a)
  }

  ghost predicate ExactMultiplier(b: int, d: int, p: int, m1: int)
    requires d > 0
  {
    b * p <= (b + m1) * d && forall a :: 0 <= a < b ==> Reaches(b, d, p, m1, a)
  }

  /** The data divide by 'd': the multiplier is exact and the two shifts make up l. */
  ghost predicate Divides(s: FastDivData, d: int)
    requires d > 0
  {
    exists l: nat ::
      && IsCeiling(d, Pow2(l), l) && ExactMultiplier(B, d, Pow2(l), s.m1)
      && s.shift1 == (if l > 1 then 1 else l) && s.shift2 == (if l > 0 then l - 1 else 0)
  }

  /** Bits of 'x', as the count of leading zeros gives them. */
  function BitLength(x: nat): (l: nat)
    ensures x < Pow2(l) && (l > 0 ==> Pow2(l - 1) <= x)
  {
    if x == 0 then 0 else 1 + BitLength(x / 2)
  }

  /** Precomputation for any divisor; a shift by 64 is taken to give 0. */
  method FastUdivInit(d: limb) returns (s: FastDivData)
    requires d > 0
    ensures Divides(s, d)
  {
    hide Divides, Pow2, BitLength;
    var l := if d == 1 then 0 else BitLength(d - 1);
    CeilingOf(d, l);
    InitData(d, l);
    var high: limb := (Pow2(l) - d) % B;
    var m1: limb := high as int * B / d + 1;
    s := FastDivData(m1, if l > 1 then 1 else l, if l > 0 then l - 1 else 0);
  }

  lemma InitData(d: limb, l: nat)
    requires d > 0 && IsCeiling(d, Pow2(l), l)
    ensures var high := (Pow2(l) - d) % B; var m1 := high * B / d + 1;
            && 0 <= m1 < B
            && Divides(FastDivData(m1, if l > 1 then 1 else l, if l > 0 then l - 1 else 0), d)
  {
    hide IsMultiplier, ExactMultiplier, Pow2;
    SmallMod(Pow2(l) - d);
    MultiplierFits(B, d, Pow2(l));
    MultiplierExact(B, d, Pow2(l), (Pow2(l) - d) * B / d + 1);
  }

  lemma SmallMod(x: int)
    requires 0 <= x < B
    ensures x % B == x
  {
  }

  lemma CeilingOf(d: limb, l: nat)
    requires d > 0 && l == if d == 1 then 0 else BitLength(d - 1)
    ensures IsCeiling(d, Pow2(l), l)
  {
    if d > 1 { assert Pow2(l) == 2 * Pow2(l - 1); }
  }

  lemma MultiplierFits(b: int, d: int, p: int)
    requires 0 < d < b && d <= p < 2 * d
    ensures var m1 := (p - d) * b / d + 1; 0 < m1 < b && IsMultiplier(b, d, p, m1)
  {
    var t := (p - d) * b;
    var q, r := t / d, t % d;
    MulLe(0, p - d, b);
    assert t == d * q + r;
    assert (q + 1) * d == d * q + d;
    MulLe(p - d, d - 1, b);
    assert (d - 1) * b == d * b - b;
    assert (b - 1) * d == d * b - d;
    if q >= b - 1 { MulLe(b - 1, q, d); }
    if q < 0 { MulLe(q, -1, d); }
  }

  /** floor(a / d) for every limb 'a'. */
  method FastUdiv(a: limb, s: FastDivData, ghost d: limb) returns (q: limb)
    requires d > 0 && Divides(s, d)
    ensures q == a / d
  {
    ghost var l: nat :| IsCeiling(d, Pow2(l), l) && ExactMultiplier(B, d, Pow2(l), s.m1)
                        && s.shift1 == (if l > 1 then 1 else l) && s.shift2 == (if l > 0 then l - 1 else 0);
    HighWord(s.m1, a, B);
    var t1: limb := s.m1 as int * a / B;
    ShiftedQuotient(a, t1, l);
    assert Reaches(B, d, Pow2(l), s.m1, a);
    QuotientIffReaches(a, d, Pow2(l), s.m1, B);
    QuotientBelowSelf(a, d);
    var t0 := (a - t1) / Pow2(s.shift1);
    q := (t1 as int + t0) / Pow2(s.shift2);
  }

  lemma HighWord(m: int, a: int, b: int)
    requires 0 <= m < b && a >= 0
    ensures 0 <= m * a / b <= a
  {
    var t := m * a / b;
    MulLe(0, m, a);
    MulLe(m, b, a);
    assert m * a == b * t + m * a % b;
    if t > a { MulLe(a + 1, t, b); }
    if t < 0 { MulLe(t, -1, b); }
  }

  lemma QuotientBelowSelf(a: int, d: int)
    requires a >= 0 && d >= 1
    ensures 0 <= a / d <= a
  {
    var q := a / d;
    assert a == d * q + a % d;
    if q < 0 { MulLe(q, -1, d); }
    TimesAtLeast(q, d);
  }

  lemma TimesAtLeast(q: int, d: int)
    requires d >= 1
    ensures q >= 0 ==> q * d >= q
  {
    if q >= 0 { MulLe(1, d, q); }
  }

  /** Halving the sum before the last shift avoids the carry out of the limb. */
  lemma ShiftedQuotient(a: int, t1: int, l: nat)
    requires 0 <= t1 <= a
    ensures var s1, s2 := if l > 1 then 1 else l, if l > 0 then l - 1 else 0;
            (t1 + (a - t1) / Pow2(s1)) / Pow2(s2) == if l == 0 then a else (t1 + a) / Pow2(l)
  {
    if l > 0 {
      assert Pow2(1) == 2 * Pow2(0) && Pow2(l) == 2 * Pow2(l - 1);
      assert t1 + (a - t1) / 2 == (t1 + a) / 2;
      NestedQuotient(t1 + a, 2, Pow2(l - 1));
    }
  }

  /** The multiplier is just large enough, and its excess does not reach the next quotient. */
  lemma MultiplierExcess(b: int, d: int, p: int, m1: int)
    requires IsMultiplier(b, d, p, m1) && d <= p
    ensures b * p < (b + m1) * d <= b * p + p
  {
    assert b * (p - d) == b * p - b * d && (b + m1) * d == b * d + m1 * d && (m1 - 1) * d == m1 * d - d;
  }

  /** The multiplier of Granlund and Montgomery is exact for every limb. */
  lemma MultiplierExact(b: int, d: int, p: int, m1: int)
    requires b >= 1 && 0 < d <= p && IsMultiplier(b, d, p, m1)
    ensures ExactMultiplier(b, d, p, m1)
  {
    hide Reaches;
    MultiplierExcess(b, d, p, m1);
    forall a | 0 <= a < b ensures Reaches(b, d, p, m1, a) { SmallExcess(b, d, p, m1, a); }
  }

  lemma SmallExcess(b: int, d: int, p: int, m1: int, a: int)
    requires b >= 1 && 0 < d <= p && 0 <= a < b && b * p < (b + m1) * d <= b * p + p
    ensures Reaches(b, d, p, m1, a)
  {
    var e, gap := (b + m1) * d - b * p, (a / d + 1) * d - a;
    NextMultiple(a, d);
    MulLe(e, p, a);
    MulLe(a, b - 1, p);
    assert (b - 1) * p == b * p - p;
    TimesAtLeast(b * p, gap);
  }

  lemma NextMultiple(a: int, d: int)
    requires d > 0
    ensures a < (a / d + 1) * d && a / d * d <= a
  {
    assert a == d * (a / d) + a % d;
  }

  /** The multiplication and the two shifts give the quotient exactly when the excess does not reach the next one. */
  lemma QuotientIffReaches(a: int, d: int, p: int, m1: int, b: int)
    requires b >= 1 && 0 < d && p >= 1 && b * p <= (b + m1) * d && 0 <= a < b && m1 >= 0
    ensures (m1 * a / b + a) / p == a / d <==> Reaches(b, d, p, m1, a)
  {
    var m, q := b + m1, a / d;
    MulLe(0, m1, a);
    SumQuotient(m1 * a, a, b);
    assert m * a == m1 * a + a * b;
    MulLe(0, m, a);
    NestedQuotient(m * a, b, p);
    NextMultiple(a, d);
    QuotientBelowSelf(a, d);
    LowerSide(a, d, p, b, m, q);
    UpperSide(a, d, b * p, m, q);
    TimesAtLeast(p, b);
    QuotientIs(m * a, b * p, q);
  }

  lemma QuotientIs(x: int, n: int, q: int)
    requires n >= 1 && q * n <= x
    ensures x / n == q <==> x < (q + 1) * n
  {
    assert x == n * (x / n) + x % n;
    assert (q + 1) * n == q * n + n;
    if x < (q + 1) * n { DivideUnique(x, n, q, x - q * n); }
  }

  lemma SumQuotient(x: int, a: int, b: int)
    requires b >= 1
    ensures (x + a * b) / b == x / b + a
  {
    assert x == b * (x / b) + x % b;
    assert (x / b + a) * b == x / b * b + a * b;
    DivideUnique(x + a * b, b, x / b + a, x % b);
  }

  lemma LowerSide(a: int, d: int, p: int, b: int, m: int, q: int)
    requires b * p <= m * d && 0 <= q && q * d <= a && m >= 0
    ensures q * (b * p) <= m * a
  {
    MulLe(b * p, m * d, q);
    MulLe(q * d, a, m);
    assert q * (m * d) == m * (q * d);
  }

  lemma UpperSide(a: int, d: int, bp: int, m: int, q: int)
    requires d >= 1
    ensures (m * d - bp) * a < bp * ((q + 1) * d - a) <==> m * a < (q + 1) * bp
  {
    var top := (q + 1) * bp;
    assert (m * d - bp) * a == (m * a) * d - bp * a;
    assert bp * ((q + 1) * d - a) == top * d - bp * a;
    if m * a < top { MulLe(m * a + 1, top, d); assert (m * a + 1) * d == (m * a) * d + d; }
    if m * a >= top { MulLe(top, m * a, d); }
  }

  // ---- powers of ten ----

  function Ten(k: nat): (p: int)
    ensures p >= 1
  {
    if k == 0 then 1 else 10 * Ten(k - 1)
  }

  const LIMB_DIGITS: nat := 19

  const mp_pow_div: seq<FastDivData> := [
    FastDivData(0x0000000000000001, 0, 0),
    FastDivData(0x999999999999999a, 1, 3),
    FastDivData(0x47ae147ae147ae15, 1, 6),
    FastDivData(0x0624dd2f1a9fbe77, 1, 9),
    FastDivData(0xa36e2eb1c432ca58, 1, 13),
    FastDivData(0x4f8b588e368f0847, 1, 16),
    FastDivData(0x0c6f7a0b5ed8d36c, 1, 19),
    FastDivData(0xad7f29abcaf48579, 1, 23),
    FastDivData(0x5798ee2308c39dfa, 1, 26),
    FastDivData(0x12e0be826d694b2f, 1, 29),
    FastDivData(0xb7cdfd9d7bdbab7e, 1, 33),
    FastDivData(0x5fd7fe17964955fe, 1, 36),
    FastDivData(0x19799812dea11198, 1, 39),
    FastDivData(0xc25c268497681c27, 1, 43),
    FastDivData(0x6849b86a12b9b01f, 1, 46),
    FastDivData(0x203af9ee756159b3, 1, 49),
    FastDivData(0xcd2b297d889bc2b7, 1, 53),
    FastDivData(0x70ef54646d496893, 1, 56),
    FastDivData(0x2725dd1d243aba0f, 1, 59),
    FastDivData(0xd83c94fb6d2ac34d, 1, 63)]

  /** An entry as numbers: 10^k and the power of two above it are spelled out. */
  lemma EntryDivides(k: nat, ten: limb, l: nat, p: int)
    requires k < |mp_pow_div| && ten == Ten(k) && p == Pow2(l) && 0 < ten <= p < 2 * ten
    requires IsMultiplier(B, ten, p, mp_pow_div[k].m1)
    requires mp_pow_div[k].shift1 == (if l > 1 then 1 else l) && mp_pow_div[k].shift2 == (if l > 0 then l - 1 else 0)
    ensures Divides(mp_pow_div[k], ten)
  {
    MultiplierExact(B, ten, p, mp_pow_div[k].m1);
  }

  /**
   The entry for 10^19 is two larger than the initialisation would make it, and
   too large for the general argument. It is exact all the same: the only
   quotients of a limb are 0 and 1.
   */
  lemma LastEntry()
    ensures !IsMultiplier(B, 10000000000000000000, B, mp_pow_div[19].m1)
    ensures IsMultiplier(B, 10000000000000000000, B, mp_pow_div[19].m1 - 2)
    ensures ExactMultiplier(B, 10000000000000000000, B, mp_pow_div[19].m1)
  {
    var d, m1 := 10000000000000000000, mp_pow_div[19].m1;
    forall a | 0 <= a < B ensures Reaches(B, d, B, m1, a) {
      if a < d { DivideUnique(a, d, 0, a); } else { DivideUnique(a, d, 1, a - d); }
    }
  }

  lemma {:induction false} PowersOfTen()
    ensures Ten(0) == 1
    ensures Ten(1) == 10
    ensures Ten(2) == 100
    ensures Ten(3) == 1000
    ensures Ten(4) == 10000
    ensures Ten(5) == 100000
    ensures Ten(6) == 1000000
    ensures Ten(7) == 10000000
    ensures Ten(8) == 100000000
    ensures Ten(9) == 1000000000
    ensures Ten(10) == 10000000000
    ensures Ten(11) == 100000000000
    ensures Ten(12) == 1000000000000
    ensures Ten(13) == 10000000000000
    ensures Ten(14) == 100000000000000
    ensures Ten(15) == 1000000000000000
    ensures Ten(16) == 10000000000000000
    ensures Ten(17) == 100000000000000000
    ensures Ten(18) == 1000000000000000000
    ensures Ten(19) == 10000000000000000000
  {
    assert Ten(0) == 1;
    assert Ten(1) == 10;
    assert Ten(2) == 100;
    assert Ten(3) == 1000;
    assert Ten(4) == 10000;
    assert Ten(5) == 100000;
    assert Ten(6) == 1000000;
    assert Ten(7) == 10000000;
    assert Ten(8) == 100000000;
    assert Ten(9) == 1000000000;
    assert Ten(10) == 10000000000;
    assert Ten(11) == 100000000000;
    assert Ten(12) == 1000000000000;
    assert Ten(13) == 10000000000000;
    assert Ten(14) == 100000000000000;
    assert Ten(15) == 1000000000000000;
    assert Ten(16) == 10000000000000000;
    assert Ten(17) == 100000000000000000;
    assert Ten(18) == 1000000000000000000;
    assert Ten(19) == 10000000000000000000;
  }

  lemma {:induction false} PowersOfTwo()
    ensures Pow2(0) == 0x1
    ensures Pow2(4) == 0x10
    ensures Pow2(7) == 0x80
    ensures Pow2(10) == 0x400
    ensures Pow2(14) == 0x4000
    ensures Pow2(17) == 0x20000
    ensures Pow2(20) == 0x100000
    ensures Pow2(24) == 0x1000000
    ensures Pow2(27) == 0x8000000
    ensures Pow2(30) == 0x40000000
    ensures Pow2(34) == 0x400000000
    ensures Pow2(37) == 0x2000000000
    ensures Pow2(40) == 0x10000000000
    ensures Pow2(44) == 0x100000000000
    ensures Pow2(47) == 0x800000000000
    ensures Pow2(50) == 0x4000000000000
    ensures Pow2(54) == 0x40000000000000
    ensures Pow2(57) == 0x200000000000000
    ensures Pow2(60) == 0x1000000000000000
    ensures Pow2(64) == 0x10000000000000000
  {
    assert Pow2(3) == 8;
    Pow2Add(4, 3);
    assert Pow2(3) == 8;
    Pow2Add(7, 3);
    assert Pow2(4) == 16;
    Pow2Add(10, 4);
    assert Pow2(3) == 8;
    Pow2Add(14, 3);
    assert Pow2(3) == 8;
    Pow2Add(17, 3);
    assert Pow2(4) == 16;
    Pow2Add(20, 4);
    assert Pow2(3) == 8;
    Pow2Add(24, 3);
    assert Pow2(3) == 8;
    Pow2Add(27, 3);
    assert Pow2(4) == 16;
    Pow2Add(30, 4);
    assert Pow2(3) == 8;
    Pow2Add(34, 3);
    assert Pow2(3) == 8;
    Pow2Add(37, 3);
    assert Pow2(4) == 16;
    Pow2Add(40, 4);
    assert Pow2(3) == 8;
    Pow2Add(44, 3);
    assert Pow2(3) == 8;
    Pow2Add(47, 3);
    assert Pow2(4) == 16;
    Pow2Add(50, 4);
    assert Pow2(3) == 8;
    Pow2Add(54, 3);
    assert Pow2(3) == 8;
    Pow2Add(57, 3);
    assert Pow2(4) == 16;
    Pow2Add(60, 4);
  }

  lemma LastEntryDivides()
    requires Ten(19) == 10000000000000000000 && Pow2(64) == B
    ensures Divides(mp_pow_div[19], Ten(19))
  {
    hide ExactMultiplier, Ten, Pow2;
    LastEntry();
  }

  /** Every entry of the table divides by its power of ten. */
  lemma TableDivides(k: nat)
    requires k <= LIMB_DIGITS
    ensures 0 < Ten(k) < B && Divides(mp_pow_div[k], Ten(k))
  {
    hide Ten, Pow2, Divides;
    PowersOfTen();
    PowersOfTwo();
    match k
    case 0 => EntryDivides(0, 1, 0, 0x1);
    case 1 => EntryDivides(1, 10, 4, 0x10);
    case 2 => EntryDivides(2, 100, 7, 0x80);
    case 3 => EntryDivides(3, 1000, 10, 0x400);
    case 4 => EntryDivides(4, 10000, 14, 0x4000);
    case 5 => EntryDivides(5, 100000, 17, 0x20000);
    case 6 => EntryDivides(6, 1000000, 20, 0x100000);
    case 7 => EntryDivides(7, 10000000, 24, 0x1000000);
    case 8 => EntryDivides(8, 100000000, 27, 0x8000000);
    case 9 => EntryDivides(9, 1000000000, 30, 0x40000000);
    case 10 => EntryDivides(10, 10000000000, 34, 0x400000000);
    case 11 => EntryDivides(11, 100000000000, 37, 0x2000000000);
    case 12 => EntryDivides(12, 1000000000000, 40, 0x10000000000);
    case 13 => EntryDivides(13, 10000000000000, 44, 0x100000000000);
    case 14 => EntryDivides(14, 100000000000000, 47, 0x800000000000);
    case 15 => EntryDivides(15, 1000000000000000, 50, 0x4000000000000);
    case 16 => EntryDivides(16, 10000000000000000, 54, 0x40000000000000);
    case 17 => EntryDivides(17, 100000000000000000, 57, 0x200000000000000);
    case 18 => EntryDivides(18, 1000000000000000000, 60, 0x1000000000000000);
    case 19 => LastEntryDivides();
  }

  /** Division and remainder by 10^shift. */
  method FastShrRemDec(a: limb, shift: nat) returns (q: limb, r: limb)
    requires shift <= LIMB_DIGITS
    ensures q == a / Ten(shift) && r == a % Ten(shift)
  {
    hide Ten, Divides;
    TableDivides(shift);
    q := FastUdiv(a, mp_pow_div[shift], Ten(shift));
    DivideParts(a, Ten(shift));
    r := a - q as int * Ten(shift);
  }

  lemma DivideParts(a: int, d: int)
    requires d > 0
    ensures a - a / d * d == a % d && 0 <= a % d < d
  {
    assert a == d * (a / d) + a % d;
  }

  // ---- two limbs by the decimal base ----

  const BF_DEC_BASE: int := 10000000000000000000

  /** floor(2^127 / 10^19). */
  const BASE_INV: int := 17014118346046923173

  /** The estimate from the top bits is at most two too small and never too large. */
  lemma BaseEstimate(a: int, t0: int, q: int)
    requires 0 <= a < B * B / 2 && t0 == a / (B / 2) && q == t0 * BASE_INV / B
    ensures 0 <= t0 < B && 0 <= q && 0 <= a - q * BF_DEC_BASE < 3 * BF_DEC_BASE
  {
    EstimateError(a, t0, a % (B / 2), q, t0 * BASE_INV % B);
  }

  lemma EstimateError(a: int, t0: int, r1: int, q: int, r2: int)
    requires 0 <= a < B * B / 2 && a == t0 * (B / 2) + r1 && 0 <= r1 < B / 2
    requires t0 * BASE_INV == q * B + r2 && 0 <= r2 < B
    ensures 0 <= t0 < B && 0 <= q && 0 <= a - q * BF_DEC_BASE < 3 * BF_DEC_BASE
  {
    TopRange(t0, r1, a);
    ErrorIdentity(B, B / 2, BF_DEC_BASE, BASE_INV, a, t0, r1, q, r2);
    SmallError(t0, r1, r2, a - q * BF_DEC_BASE);
    QuotientRange(t0, q, r2);
  }

  /** The exact error, scaled by b: what the constant, the low bits and the low product leave out. */
  lemma ErrorIdentity(b: int, h: int, d: int, inv: int, a: int, t0: int, r1: int, q: int, r2: int)
    requires a == t0 * h + r1 && t0 * inv == q * b + r2
    ensures b * (a - q * d) == (b * h - d * inv) * t0 + b * r1 + d * r2
  {
    assert b * (a - q * d) == b * a - (q * b) * d;
    assert b * (t0 * h + r1) == (b * h) * t0 + b * r1;
    assert (t0 * inv - r2) * d == (d * inv) * t0 - d * r2;
    assert (b * h - d * inv) * t0 == (b * h) * t0 - (d * inv) * t0;
  }

  lemma SmallError(t0: int, r1: int, r2: int, rem: int)
    requires 0 <= t0 < B && 0 <= r1 < B / 2 && 0 <= r2 < B
    requires B * rem == (B * (B / 2) - BF_DEC_BASE * BASE_INV) * t0 + B * r1 + BF_DEC_BASE * r2
    ensures 0 <= rem < 3 * BF_DEC_BASE
  {
  }

  lemma QuotientRange(t0: int, q: int, r2: int)
    requires 0 <= t0 && t0 * BASE_INV == q * B + r2 && 0 <= r2 < B
    ensures 0 <= q
  {
  }

  lemma TopRange(t0: int, r1: int, a: int)
    requires 0 <= a < B * B / 2 && a == t0 * (B / 2) + r1 && 0 <= r1 < B / 2
    ensures 0 <= t0 < B
  {
  }

  /** Quotient and remainder of two limbs by 10^19, for a1 below 2^63, with all sums kept to two limbs. */
  method DivdqBase(a1: limb, a0: limb) returns (q: limb, r: limb)
    requires a1 < B / 2
    ensures q * BF_DEC_BASE + r == a1 * B + a0 && r < BF_DEC_BASE
  {
    TopBits(a1, a0);
    BaseEstimate(a1 * B + a0, (a1 * B + a0) / (B / 2), (a1 * B + a0) / (B / 2) * BASE_INV / B);
    var t0: limb := (a1 as int * 2) % B + a0 / (B / 2);
    q, r := BaseCorrect(a1 as int * B + a0, t0 as int * BASE_INV / B);
  }

  /** At most two corrections, decided by the sign of what is left. */
  method BaseCorrect(a: int, est: int) returns (q: limb, r: limb)
    requires 0 <= a < B * B / 2 && est >= 0 && 0 <= a - est * BF_DEC_BASE < 3 * BF_DEC_BASE
    ensures q * BF_DEC_BASE + r == a && r < BF_DEC_BASE
  {
    ghost var rem := a - est * BF_DEC_BASE;
    var wide: int := (a - est * BF_DEC_BASE - 2 * BF_DEC_BASE) % (B * B);
    var half: limb := SignHalf(wide / B);
    BaseHalf(rem, wide, half);
    var wide2: int := (wide + BaseIf(half)) % (B * B);
    BaseSteps(rem, half, wide, wide2);
    BaseResult(est, rem, half, wide2, a);
    q := ((est + 2 + half) % B + wide2 / B) % B;
    r := (wide2 % B + BaseIf(wide2 / B)) % B;
  }

  /** Arithmetic shift right of a limb read as signed. */
  function SignHalf(x: int): (r: limb)
    requires 0 <= x < B
  {
    if x >= B / 2 then B / 2 + x / 2 else x / 2
  }

  /** The base masked with 0 or all ones. */
  function BaseIf(mask: int): (r: int)
    requires mask == 0 || mask == B - 1
  {
    if mask == 0 then 0 else BF_DEC_BASE
  }

  lemma TopBits(a1: limb, a0: limb)
    requires a1 < B / 2
    ensures (a1 * B + a0) / (B / 2) == (a1 as int * 2) % B + a0 / (B / 2) < B
  {
    SmallMod(a1 as int * 2);
    TopPart(a1, a0, B / 2, B);
  }

  lemma TopPart(a1: int, a0: int, h: int, b: int)
    requires b == 2 * h && 0 <= a1 < h && 0 <= a0 < b
    ensures (a1 * b + a0) / h == a1 * 2 + a0 / h < b
  {
    var q, r := a0 / h, a0 % h;
    assert a0 == h * q + r;
    if q >= 2 { MulLe(2, q, h); }
    assert (a1 * 2 + q) * h == a1 * (2 * h) + h * q;
    DivideUnique(a1 * b + a0, h, a1 * 2 + q, r);
  }

  /** A difference below zero shows as all ones in the high limb, once it is halved. */
  lemma BaseHalf(rem: int, wide: int, half: limb)
    requires 0 <= rem < 3 * BF_DEC_BASE && wide == (rem - 2 * BF_DEC_BASE) % (B * B) && half == SignHalf(wide / B)
    ensures half == if rem >= 2 * BF_DEC_BASE then 0 else B - 1
  {
  }

  lemma BaseSteps(rem: int, half: limb, wide: int, wide2: int)
    requires 0 <= rem < 3 * BF_DEC_BASE && wide == (rem - 2 * BF_DEC_BASE) % (B * B)
    requires half == (if rem >= 2 * BF_DEC_BASE then 0 else B - 1) && wide2 == (wide + BaseIf(half)) % (B * B)
    ensures wide2 == if rem >= 2 * BF_DEC_BASE then rem - 2 * BF_DEC_BASE else (rem - BF_DEC_BASE) % (B * B)
    ensures wide2 / B == if BF_DEC_BASE <= rem then 0 else B - 1
  {
  }

  lemma BaseResult(est: int, rem: int, half: limb, wide2: int, a: int)
    requires 0 <= rem < 3 * BF_DEC_BASE && a == est * BF_DEC_BASE + rem && 0 <= a < B * B / 2 && est >= 0
    requires half == if rem >= 2 * BF_DEC_BASE then 0 else B - 1
    requires wide2 == if rem >= 2 * BF_DEC_BASE then rem - 2 * BF_DEC_BASE else (rem - BF_DEC_BASE) % (B * B)
    requires wide2 / B == if BF_DEC_BASE <= rem then 0 else B - 1
    ensures var q := ((est + 2 + half) % B + wide2 / B) % B; var r := (wide2 % B + BaseIf(wide2 / B)) % B;
            q * BF_DEC_BASE + r == a && r < BF_DEC_BASE
  {
    BaseQuotient(est, rem, half, wide2 / B, a);
    BaseRemainder(rem, wide2);
  }

  lemma BaseQuotient(est: int, rem: int, half: limb, high: int, a: int)
    requires 0 <= rem < 3 * BF_DEC_BASE && a == est * BF_DEC_BASE + rem && 0 <= a < B * B / 2 && est >= 0
    requires half == if rem >= 2 * BF_DEC_BASE then 0 else B - 1
    requires high == if BF_DEC_BASE <= rem then 0 else B - 1
    ensures ((est + 2 + half) % B + high) % B
         == est + (if rem >= 2 * BF_DEC_BASE then 2 else if rem >= BF_DEC_BASE then 1 else 0)
  {
  }

  lemma BaseRemainder(rem: int, wide2: int)
    requires 0 <= rem < 3 * BF_DEC_BASE
    requires wide2 == if rem >= 2 * BF_DEC_BASE then rem - 2 * BF_DEC_BASE else (rem - BF_DEC_BASE) % (B * B)
    requires wide2 / B == if BF_DEC_BASE <= rem then 0 else B - 1
    ensures (wide2 % B + BaseIf(wide2 / B)) % B
         == rem - (if rem >= 2 * BF_DEC_BASE then 2 else if rem >= BF_DEC_BASE then 1 else 0) * BF_DEC_BASE
  {
  }
}
