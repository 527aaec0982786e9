/**
 Division with a subquadratic number of limb operations: Newton's iteration for
 the reciprocal, and division by multiplying with it. The three methods call
 each other.
 */
module Reciprocal {
  import opened Limbs
  import opened DivLimb
  import opened Divnorm
  import opened Newton

  const DIVNORM_LARGE_THRESHOLD := 50

  /** 'q' and 'r' are quotient and remainder of 'a' by 'd'. */
  ghost predicate Divided(a: seq<limb>, q: seq<limb>, r: seq<limb>, d: seq<limb>) {
    Val(q) * Val(d) + Val(r) == Val(a) && Val(r) < Val(d)
  }

  lemma {:induction false} TopAtMostOne(q: seq<limb>, d: seq<limb>, a: seq<limb>)
    requires |d| >= 1 && Normalized(d[|d| - 1]) && |q| >= 1 && |a| + 1 == |q| + |d| && Val(q) * Val(d) <= Val(a)
    ensures q[|q| - 1] <= 1
  {
    hide Val, Pow, Normalized;
    var n := |q| - 1;
    TopOne(q);
    ValBound(a);
    NormalizedHalf(d);
    PowAdd(n, |d|);
    TopLimbAlgebra(q[n], Val(q[..n]), Pow(n), Val(d), Pow(|d|), Val(a));
  }

  lemma TopLimbAlgebra(t: int, low: int, p: int, d: int, pd: int, a: int)
    requires (t * p + low) * d <= a < p * pd && low >= 0 && p >= 1 && pd <= 2 * d && d >= 0
    ensures t <= 1
  {
    if t >= 2 {
      MulLe(2, t, p);
      MulLe(2 * p, t * p + low, d);
      MulLe(pd, 2 * d, p);
      TwicePD(p, d);
    }
  }

  lemma TwicePD(p: int, d: int)
    ensures (2 * p) * d == p * (2 * d)
  {
  }

  // ---- pieces of the reciprocal ----

  method MpScanNz(tab: array<limb>, o: nat, n: nat) returns (nz: bool)
    requires o + n <= tab.Length
    ensures nz == (Val(tab[o..o + n]) != 0)
  {
    ghost var s := tab[o..o + n];
    var i: nat := 0;
    assert s[..0] == [];
    while i < n
      invariant 0 <= i <= n && Val(s[..i]) == 0
    {
      assert s[i] == tab[o + i];
      ValPrefix(s, i);
      if tab[o + i] != 0 {
        NonZeroPrefix(s, i);
        return true;
      }
      assert Pow(i) * 0 == 0;
      i := i + 1;
    }
    assert s[..n] == s;
    return false;
  }

  lemma {:induction false} NonZeroPrefix(s: seq<limb>, i: nat)
    requires i < |s| && s[i] != 0
    ensures Val(s) != 0
  {
    hide Val, Pow;
    ValPrefix(s, i);
    ValSplit(s, i + 1);
    MulLe(1, s[i], Pow(i));
    MulLe(0, Val(s[i + 1..]), Pow(i + 1));
  }

  /** B^k as limbs. */
  lemma {:induction false} PowerLimbs(s: seq<limb>, k: nat)
    requires |s| == k + 1 && s[k] == 1 && forall i :: 0 <= i < k ==> s[i] == 0
    ensures Val(s) == Pow(k)
  {
    hide Val, Pow;
    TopOne(s);
    ZeroLimbs(s[..k]);
  }

  lemma {:induction false} ZeroLimbs(s: seq<limb>)
    requires forall i :: 0 <= i < |s| ==> s[i] == 0
    ensures Val(s) == 0
  {
    if s != [] { ZeroLimbs(s[1..]); }
  }

  method PowerOfB(k: nat) returns (tab: array<limb>)
    ensures fresh(tab) && tab.Length == k + 1 && Val(tab[..]) == Pow(k)
  {
    tab := new limb[k + 1](_ => 0);
    tab[k] := 1;
    PowerLimbs(tab[..], k);
  }

  /** Copies limbs between different arrays. */
  method CopyLimbs(dst: array<limb>, to: nat, src: array<limb>, from: nat, n: nat)
    requires to + n <= dst.Length && from + n <= src.Length && dst != src
    modifies dst
    ensures Same(dst[..], old(dst[..]), to, n) && dst[to..to + n] == src[from..from + n]
  {
    var i: nat := 0;
    while i < n
      invariant i <= n && Same(dst[..], old(dst[..]), to, i)
      invariant dst[to..to + i] == src[from..from + i]
    {
      dst[to + i] := src[from + i];
      i := i + 1;
    }
  }

  lemma {:induction false} RecipBaseAlgebra(p: int, a: int, q: int, r: int)
    requires q * a + r == p * p && 0 <= r < a
    ensures r != 0 ==> IsRecip(p, a, q)
    ensures r == 0 ==> IsRecip(p, a, q - 1)
  {
    assert a * (q + 2) == q * a + 2 * a;
    assert a * ((q - 1) + 2) == q * a + a && a * (q - 1) == q * a - a;
  }

  /** A number in [B^n, 2 B^n) has a one on top of n limbs. */
  lemma {:induction false} OneOnTop(s: seq<limb>, n: nat)
    requires |s| == n + 1 && Pow(n) <= Val(s) < 2 * Pow(n)
    ensures s[n] == 1
  {
    hide Val, Pow;
    WindowTop(s, n);
    assert Pow(n) * 0 == 0;
    if s[n] >= 2 { MulLe(2, s[n], Pow(n)); }
  }

  /** A number up to 2 B^n needs no limb above n + 1 limbs. */
  lemma {:induction false} HighZero(s: seq<limb>, n: nat)
    requires |s| == n + 2 && Val(s) <= 2 * Pow(n)
    ensures Val(s[..n + 1]) == Val(s)
  {
    hide Val, Pow;
    WindowTop(s, n + 1);
    PowNext(n);
    if s[n + 1] >= 1 {
      MulLe(1, s[n + 1], Pow(n + 1));
      MulLe(3, B, Pow(n));
    }
    assert Pow(n + 1) * 0 == 0;
  }

  /** Subtracts a number of 'n' limbs from one of n + m limbs. */
  method SubLower(tabt: array<limb>, taba: array<limb>, ao: nat, n: nat, m: nat)
    requires n + m == tabt.Length && ao + n <= taba.Length && tabt != taba
    requires Val(taba[ao..ao + n]) <= Val(tabt[..])
    modifies tabt
    ensures Val(tabt[..]) == Val(old(tabt[..])) - Val(taba[ao..ao + n])
  {
    hide Val, Pow, Same;
    ghost var x, y := tabt[..], taba[ao..ao + n];
    assert x[0..n] == x[..n] == tabt[0..n] && x[n..] == tabt[n..n + m];
    ValSplit(x, n);
    var c := MpSub(tabt, 0, tabt, 0, taba, ao, n, 0);
    ghost var mid, low := tabt[..], tabt[0..n];
    SameSlice(mid, x, 0, n, n, n + m);
    assert tabt[n..n + m] == mid[n..n + m] == x[n..n + m] == x[n..];
    var c' := MpSubUi(tabt, n, c, m);
    SameSlice(tabt[..], mid, n, m, 0, n);
    assert tabt[..][..n] == low by { assert tabt[..][0..n] == mid[0..n] == low; }
    assert tabt[..][n..] == tabt[n..n + m];
    ValSplit(tabt[..], n);
    ValBound(tabt[..]);
    PowAdd(n, m);
    LowerAlgebra(Val(low), c, Pow(n), Val(tabt[n..n + m]), c', Pow(m), Val(x[..n]), Val(x[n..]), Val(y));
  }

  lemma LowerAlgebra(low: int, c: int, p: int, high: int, c': int, pm: int, x0: int, x1: int, y: int)
    requires low - c * p == x0 - y && high - c' * pm == x1 - c && c' >= 0 && p >= 1 && pm >= 1
    requires 0 <= low + p * high < p * pm && y <= x0 + p * x1
    ensures low + p * high == x0 + p * x1 - y
  {
    assert p * (high - c' * pm) == p * high - c' * (p * pm);
    assert p * (x1 - c) == p * x1 - c * p;
    MulLe(1, p, pm);
    if c' >= 1 { MulLe(1, c', p * pm); }
    assert c' == 0;
  }

  lemma {:induction false} TopSet(s: seq<limb>, n: nat)
    requires |s| == n + 1
    ensures s[n] != 0 ==> Val(s) >= Pow(n)
    ensures s[n] == 0 ==> Val(s) < Pow(n)
  {
    hide Val, Pow;
    WindowTop(s, n);
    assert Pow(n) * 0 == 0;
    if s[n] != 0 { MulLe(1, s[n], Pow(n)); }
  }

  /** Turns T, with 0 < T < B^m, into B^m - T: a negation modulo B^(m + 1) and one increment of the top limb. */
  method Complement(tabt: array<limb>, m: nat)
    requires tabt.Length == m + 1 && 0 < Val(tabt[..]) < Pow(m)
    modifies tabt
    ensures Val(tabt[..]) == Pow(m) - Val(old(tabt[..]))
  {
    hide Val, Pow, Same;
    ghost var t := Val(tabt[..]);
    assert tabt[0..m + 1] == tabt[..];
    var k := MpNeg(tabt, 0, tabt, 0, m + 1, 0);
    assert tabt[0..m + 1] == tabt[..];
    ghost var neg := tabt[..];
    WindowTop(neg, m);
    PowNext(m);
    ValBound(neg);
    tabt[m] := (tabt[m] + 1) % B;
    ghost var end := tabt[..];
    assert end[..m] == neg[..m];
    WindowTop(end, m);
    NegAlgebra(Val(neg[..m]), neg[m], end[m], k, Pow(m), t, B);
  }

  lemma NegAlgebra(low: int, top: int, top': int, k: int, p: int, t: int, b: int)
    requires b >= 2 && 0 <= low < p && 0 <= top < b && 0 < t < p && 0 <= k <= 1
    requires low + p * top - k * (b * p) == -t && top' == (top + 1) % b
    ensures low + p * top' == p - t
  {
    MulLe(0, top, p);
    assert k == 1;
    assert p * (b - 1) == b * p - p;
    assert p * (b - 2) == b * p - 2 * p;
    if top <= b - 2 { MulLe(top, b - 2, p); }
    assert top == b - 1;
    DivideUnique(b, b, 1, 0);
  }

  /**
   Lowers x until a * x fits below B^(n + h) and returns what is then missing;
   x ends at most two below the exact quotient.
   */
  method Residual(tabr: array<limb>, xo: nat, taba: array<limb>, ao: nat, n: nat, h: nat) returns (tabt: array<limb>)
    requires xo + h + 1 <= tabr.Length && ao + n <= taba.Length && tabr != taba && 1 <= h <= n
    requires var a, x := Val(taba[ao..ao + n]), Val(tabr[xo..xo + h + 1]);
             a > 0 && Pow(h) <= x < 2 * Pow(h) && Pow(n) * Pow(h) < a * (x + 2)
    modifies tabr
    ensures fresh(tabt) && tabt.Length == n + h + 1 && Same(tabr[..], old(tabr[..]), xo, h + 1)
    ensures var a, x := Val(taba[ao..ao + n]), Val(tabr[xo..xo + h + 1]);
            Pow(h) <= x < 2 * Pow(h) && Val(tabt[..]) == Pow(n) * Pow(h) - a * x && 0 < Val(tabt[..]) < 2 * a
  {
    hide Val, Pow, Same;
    ghost var a, orig := Val(taba[ao..ao + n]), tabr[..];
    tabt := new limb[n + h + 1];
    MpMulBasecase(tabt, 0, taba, ao, n, tabr, xo, h + 1);
    assert tabt[0..n + h + 1] == tabt[..];
    PowAdd(n, h);
    ValBound(taba[ao..ao + n]);
    ghost var x := Val(tabr[xo..xo + h + 1]);
    SameNone(orig, xo);
    SameWiden(orig, orig, xo, 0, h + 1);
    while tabt[n + h] != 0
      invariant tabt.Length == n + h + 1 && fresh(tabt) && Same(tabr[..], orig, xo, h + 1)
      invariant x == Val(tabr[xo..xo + h + 1]) && Val(tabt[..]) == a * x
      invariant Pow(h) <= x < 2 * Pow(h) && Pow(n) * Pow(h) < a * (x + 2)
      decreases x
    {
      ghost var mid := tabr[..];
      TopSet(tabt[..], n + h);
      LowerBound(Pow(h), Pow(n), a, x);
      LowerOne(tabr, xo, tabt, taba, ao, n, h, a, x);
      SameThen(orig, mid, tabr[..], xo, h + 1, xo, h + 1, xo, h + 1);
      x := x - 1;
    }
    TopSet(tabt[..], n + h);
    Missing(a, x, Pow(n) * Pow(h));
    Complement(tabt, n + h);
  }

  /** One less in x, and 'a' less in the product. */
  method LowerOne(tabr: array<limb>, xo: nat, tabt: array<limb>, taba: array<limb>, ao: nat, n: nat, h: nat,
                  ghost a: int, ghost x: int)
    requires xo + h + 1 <= tabr.Length && ao + n <= taba.Length && tabt.Length == n + h + 1 && n >= 1
    requires tabr != taba && tabr != tabt && tabt != taba
    requires a == Val(taba[ao..ao + n]) && x == Val(tabr[xo..xo + h + 1]) && Val(tabt[..]) == a * x && a > 0 && x >= 1
    modifies tabr, tabt
    ensures Same(tabr[..], old(tabr[..]), xo, h + 1)
    ensures Val(tabr[xo..xo + h + 1]) == x - 1 && Val(tabt[..]) == a * (x - 1)
  {
    hide Val, Pow, Same;
    var c := MpSubUi(tabr, xo, 1, h + 1);
    NoBorrowUi(tabr[xo..xo + h + 1], c, x);
    MulLe(1, x, a);
    SubLower(tabt, taba, ao, n, h + 1);
    assert a * (x - 1) == a * x - a;
  }

  lemma Missing(a: int, x: int, p: int)
    requires a > 0 && x >= 1 && a * x < p < a * (x + 2)
    ensures 0 < p - a * x < 2 * a && 1 <= a * x < p
  {
    assert a * (x + 2) == a * x + 2 * a;
    MulLe(1, x, a);
  }

  lemma {:induction false} NoBorrowUi(s: seq<limb>, c: int, x: int)
    requires Val(s) - c * Pow(|s|) == x - 1 && x >= 1 && 0 <= c <= 1
    ensures Val(s) == x - 1
  {
    hide Val, Pow;
    ValBound(s);
    assert 1 * Pow(|s|) == Pow(|s|);
  }

  /** B^(2h - l) * B^l is the square of B^h. */
  lemma {:induction false} SquareOfHigh(l: nat, h: nat)
    requires l < h
    ensures Pow(2 * h - l) * Pow(l) == Pow(h) * Pow(h)
  {
    hide Pow;
    PowAdd(2 * h - l, l);
    PowAdd(h, h);
  }

  lemma {:induction false} PowPositive(n: nat)
    ensures Pow(n) >= 1
  {
  }

  /** The limbs of U / B^k fit in and above those of x: nothing is carried into the top limb. */
  lemma RoomForSum(x: int, xl: int, qLow: int, q2: int, hh: int, l: int)
    requires x == hh + xl && x * l + (qLow + l * q2) < 2 * (hh * l) && l >= 1 && qLow >= 0
    ensures xl + q2 < hh
  {
    assert x * l == hh * l + xl * l;
    assert (xl + q2) * l == xl * l + l * q2;
    if xl + q2 >= hh { MulLe(hh, xl + q2, l); }
  }

  lemma AssembleAlgebra(x: int, xl: int, q: int, qLow: int, q2: int, l: int, hh: int)
    requires x == hh + xl && q == qLow + l * q2
    ensures qLow + l * ((xl + q2) + hh * 1) == x * l + q
  {
    assert l * ((xl + q2) + hh * 1) == l * (hh + xl) + l * q2;
  }

  lemma SmallHighPart(low: int, high: int, hh: int)
    requires 0 <= low && high >= 0 && low + hh * high < hh && hh >= 1
    ensures high == 0
  {
    if high >= 1 { MulLe(1, high, hh); }
  }

  /** The digits of U = Tm * x above B^k, where Tm is T without its low l limbs. */
  method Correction(tabt: array<limb>, tabr: array<limb>, xo: nat, n: nat, l: nat, h: nat) returns (tabu: array<limb>)
    requires n == l + h && l < h && tabt.Length == n + h + 1 && xo + h + 1 <= tabr.Length
    ensures fresh(tabu) && tabu.Length == n + 2 * h - l + 2
    ensures Val(tabu[..]) == Val(tabt[l..]) * Val(tabr[xo..xo + h + 1])
  {
    hide Val, Pow, Same;
    tabu := new limb[n + 2 * h - l + 2];
    MpMulBasecase(tabu, 0, tabt, l, n + h + 1 - l, tabr, xo, h + 1);
    assert tabu[0..n + h + 1 - l + (h + 1)] == tabu[..];
    assert tabt[l..l + (n + h + 1 - l)] == tabt[l..];
  }

  /** The digits of the correction fit above those of x without a carry. */
  lemma {:induction false} CorrectionFits(l: nat, h: nat, x: seq<limb>, u: seq<limb>)
    requires l < h && |x| == h + 1 && 3 * h <= |u| && x[h] == 1
    requires Val(x) * Pow(l) + Val(u[2 * h - l..]) < 2 * (Pow(h) * Pow(l))
    ensures Val(x) == Pow(h) + Val(x[..h]) && Val(x[..h]) + Val(u[2 * h..]) < Pow(h)
    ensures Val(u[2 * h..3 * h]) == Val(u[2 * h..])
  {
    hide Val, Pow;
    var k := 2 * h - l;
    PowPositive(l);
    PowPositive(h);
    WindowTop(x, h);
    assert Pow(h) * 1 == Pow(h);
    QuotientParts(u, k, l, h);
    RoomForSum(Val(x), Val(x[..h]), Val(u[k..2 * h]), Val(u[2 * h..]), Pow(h), Pow(l));
    ValSplit(u[2 * h..], h);
    assert u[2 * h..][..h] == u[2 * h..3 * h];
    SmallHighPart(Val(u[2 * h..3 * h]), Val(u[2 * h..][h..]), Pow(h));
    assert Pow(h) * 0 == 0;
  }

  lemma {:induction false} HighTimesLow(n: nat, l: nat, h: nat)
    requires n == l + h
    ensures Pow(n) == Pow(h) * Pow(l)
  {
    PowAdd(h, l);
  }

  /** What putting the two together gives: digits below, sum in the middle, the one on top. */
  ghost function Joined(x: seq<limb>, u: seq<limb>, l: nat, h: nat): (v: int)
    requires l < h && |x| == h + 1 && 3 * h <= |u|
  {
    Val(u[2 * h - l..2 * h]) + Pow(l) * ((Val(x[..h]) + Val(u[2 * h..3 * h])) + Pow(h) * 1)
  }

  lemma {:induction false} JoinedValue(l: nat, h: nat, x: seq<limb>, u: seq<limb>)
    requires l < h && |x| == h + 1 && 3 * h <= |u| && x[h] == 1
    requires Val(x) * Pow(l) + Val(u[2 * h - l..]) < 2 * (Pow(h) * Pow(l))
    ensures Val(x[..h]) + Val(u[2 * h..3 * h]) < Pow(h)
    ensures Joined(x, u, l, h) == Val(x) * Pow(l) + Val(u[2 * h - l..])
  {
    hide Val, Pow;
    var k := 2 * h - l;
    CorrectionFits(l, h, x, u);
    QuotientParts(u, k, l, h);
    AssembleAlgebra(Val(x), Val(x[..h]), Val(u[k..]), Val(u[k..2 * h]), Val(u[2 * h..3 * h]), Pow(l), Pow(h));
  }

  /** The refined reciprocal is less than two units off, and its limbs can be put together without a carry. */
  lemma {:induction false} RefineLimbs(n: nat, l: nat, h: nat, a: int, x: seq<limb>, t: seq<limb>, u: seq<limb>)
    requires n == l + h && l < h && |x| == h + 1 && |t| == n + h + 1 && |u| == n + 2 * h - l + 2
    requires 0 < a < Pow(n) <= 2 * a && Pow(h) <= Val(x) < 2 * Pow(h)
    requires Val(t) == Pow(n) * Pow(h) - a * Val(x) && 0 < Val(t) < 2 * a
    requires Val(u) == Val(t[l..]) * Val(x)
    ensures x[h] == 1 && Val(x[..h]) + Val(u[2 * h..3 * h]) < Pow(h)
    ensures IsRecip(Pow(n), a, Joined(x, u, l, h))
  {
    hide Val, Pow, IsRecip, Joined;
    var k := 2 * h - l;
    SquareOfHigh(l, h);
    HighTimesLow(n, l, h);
    PowMonotone(l, h);
    PowPositive(l);
    ValSplit(t, l);
    ValBound(t[..l]);
    ValSplit(u, k);
    ValBound(u[..k]);
    Refine(Pow(h), Pow(l), Pow(k), Pow(n), a, Val(x), Val(t), Val(t[l..]), Val(t[..l]), Val(u), Val(u[k..]),
           Val(u[..k]));
    RecipRange(Pow(n), a, Val(x) * Pow(l) + Val(u[k..]));
    OneOnTop(x, h);
    JoinedValue(l, h, x, u);
  }

  lemma {:induction false} QuotientParts(u: seq<limb>, k: nat, l: nat, h: nat)
    requires k + l == 2 * h <= |u|
    ensures Val(u[k..]) == Val(u[k..2 * h]) + Pow(l) * Val(u[2 * h..])
  {
    hide Val, Pow;
    ValSplit(u[k..], l);
    assert u[k..][..l] == u[k..2 * h] && u[k..][l..] == u[2 * h..];
  }

  /** Adds h limbs in place when the sum is known to fit, so that the carry can be dropped. */
  method AddWithin(tabr: array<limb>, at: nat, tabu: array<limb>, from: nat, h: nat)
    requires at + h <= tabr.Length && from + h <= tabu.Length && tabr != tabu
    requires Val(tabr[at..at + h]) + Val(tabu[from..from + h]) < Pow(h)
    modifies tabr
    ensures Same(tabr[..], old(tabr[..]), at, h)
    ensures Val(tabr[at..at + h]) == Val(old(tabr[at..at + h])) + Val(tabu[from..from + h])
  {
    hide Val, Pow, Same;
    ghost var sum := Val(tabr[at..at + h]) + Val(tabu[from..from + h]);
    var c := MpAdd(tabr, at, tabr, at, tabu, from, h, 0);
    NoCarry(tabr[at..at + h], c, sum);
  }

  /** Puts the refined reciprocal together in place, above and below the digits of the previous one. */
  method Assemble(tabr: array<limb>, ro: nat, tabu: array<limb>, ghost a: int, n: nat, l: nat, h: nat)
    requires n == l + h && l < h && ro + n + 1 <= tabr.Length && tabu.Length == n + 2 * h - l + 2 && tabr != tabu
    requires var x, u := tabr[ro + l..ro + n + 1], tabu[..];
             x[h] == 1 && Val(x[..h]) + Val(u[2 * h..3 * h]) < Pow(h) && IsRecip(Pow(n), a, Joined(x, u, l, h))
    modifies tabr
    ensures Same(tabr[..], old(tabr[..]), ro, n + 1)
    ensures IsRecip(Pow(n), a, Val(tabr[ro..ro + n + 1]))
  {
    hide Val, Pow, Same, IsRecip, Joined;
    ghost var orig, x, u := tabr[..], tabr[ro + l..ro + n + 1], tabu[..];
    CopyLimbs(tabr, ro, tabu, 2 * h - l, l);
    ghost var mid := tabr[..];
    assert tabr[ro..ro + l] == mid[ro..ro + l] && tabu[2 * h - l..2 * h - l + l] == u[2 * h - l..2 * h - l + l];
    OldDigits(orig, mid, ro, l, h, x);
    assert tabr[ro + l..ro + l + h] == mid[ro + l..ro + l + h] && tabu[2 * h..2 * h + h] == u[2 * h..3 * h];
    AddWithin(tabr, ro + l, tabu, 2 * h, h);
    ghost var fin := tabr[..];
    assert tabr[ro + l..ro + l + h] == fin[ro + l..ro + l + h];
    SameThen(orig, mid, fin, ro, n + 1, ro, l, ro + l, h);
    NewDigits(mid, fin, ro, l, h, u);
    AssembledValue(fin, ro, l, h, x, u);
    assert fin[ro..ro + n + 1] == tabr[ro..ro + n + 1];
  }

  /** Copying below leaves the digits of the previous reciprocal. */
  lemma OldDigits(orig: seq<limb>, mid: seq<limb>, ro: nat, l: nat, h: nat, x: seq<limb>)
    requires Same(mid, orig, ro, l) && ro + l + h + 1 <= |orig| && x == orig[ro + l..ro + l + h + 1]
    ensures |mid| == |orig| && mid[ro + l..ro + l + h] == x[..h] && mid[ro + l + h] == x[h]
  {
    SameSlice(mid, orig, ro, l, ro + l, ro + l + h);
    SubSlice(orig, ro + l, ro + l + h + 1, 0, h);
    assert x[h] == orig[ro + l + h];
  }

  /** Adding above leaves the digits below, and the one on top. */
  lemma NewDigits(mid: seq<limb>, fin: seq<limb>, ro: nat, l: nat, h: nat, u: seq<limb>)
    requires Same(fin, mid, ro + l, h) && ro + l + h + 1 <= |mid| && l < h && 2 * h <= |u|
    requires mid[ro..ro + l] == u[2 * h - l..2 * h - l + l]
    ensures |fin| == |mid| && fin[ro..ro + l] == u[2 * h - l..2 * h] && fin[ro + l + h] == mid[ro + l + h]
  {
    SameSlice(fin, mid, ro + l, h, ro, ro + l);
  }

  /** The joined digits as a number. */
  lemma {:induction false} AssembledValue(s: seq<limb>, ro: nat, l: nat, h: nat, x: seq<limb>, u: seq<limb>)
    requires l < h && ro + l + h + 1 <= |s| && |x| == h + 1 && 3 * h <= |u|
    requires s[ro..ro + l] == u[2 * h - l..2 * h] && s[ro + l + h] == 1
    requires Val(s[ro + l..ro + l + h]) == Val(x[..h]) + Val(u[2 * h..3 * h])
    ensures Val(s[ro..ro + l + h + 1]) == Joined(x, u, l, h)
  {
    hide Val, Pow;
    ThreeSlices(s, ro, l, h);
    ThreeParts(s[ro..ro + l + h + 1], l, h);
  }

  lemma ThreeSlices(s: seq<limb>, at: nat, l: nat, h: nat)
    requires at + l + h + 1 <= |s|
    ensures var end := s[at..at + l + h + 1];
            end[..l] == s[at..at + l] && end[l..l + h] == s[at + l..at + l + h] && end[l + h] == s[at + l + h]
  {
    SubSlice(s, at, at + l + h + 1, l, l + h);
  }

  lemma {:induction false} NoCarry(s: seq<limb>, c: int, sum: int)
    requires Val(s) + c * Pow(|s|) == sum < Pow(|s|) && 0 <= c <= 1
    ensures Val(s) == sum
  {
    hide Val, Pow;
    assert 1 * Pow(|s|) == Pow(|s|);
    ValBound(s);
  }

  lemma {:induction false} ThreeParts(s: seq<limb>, l: nat, h: nat)
    requires |s| == l + h + 1
    ensures Val(s) == Val(s[..l]) + Pow(l) * (Val(s[l..l + h]) + Pow(h) * s[l + h])
  {
    hide Val, Pow;
    ValSplit(s, l);
    WindowTop(s[l..], h);
    assert s[l..][..h] == s[l..l + h];
  }

  // ---- the three methods ----

  function Rank(na: nat, nb: nat): (r: nat) {
    if na >= nb + DIVNORM_LARGE_THRESHOLD && nb >= DIVNORM_LARGE_THRESHOLD then 1 else 0
  }

  /**
   Divides na limbs by nb limbs, the top one normalized. The quotient has
   na - nb + 1 limbs, the top one at most 1; the remainder replaces the low nb
   limbs of the dividend.
   */
  method MpDivnorm(tabq: array<limb>, qo: nat, taba: array<limb>, ao: nat, na: nat, tabb: array<limb>, bo: nat, nb: nat)
    requires 1 <= nb <= na && qo + (na - nb + 1) <= tabq.Length && ao + na <= taba.Length && bo + nb <= tabb.Length
    requires tabq != taba && tabq != tabb && taba != tabb && Normalized(tabb[bo + nb - 1])
    modifies tabq, taba
    ensures Same(tabq[..], old(tabq[..]), qo, na - nb + 1) && Same(taba[..], old(taba[..]), ao, na)
    ensures Divided(old(taba[ao..ao + na]), tabq[qo..qo + (na - nb + 1)], taba[ao..ao + nb], tabb[bo..bo + nb])
    ensures tabq[qo + (na - nb)] <= 1
    decreases Rank(na, nb), 2, 0
  {
    hide Val, Pow, Same, Normalized;
    if nb == 1 {
      DivideByOne(tabq, qo, taba, ao, na, tabb, bo);
    } else if na - nb >= DIVNORM_LARGE_THRESHOLD && nb >= DIVNORM_LARGE_THRESHOLD {
      MpDivnormLarge(tabq, qo, taba, ao, na, tabb, bo, nb);
    } else {
      MpDivnormBase(tabq, qo, taba, ao, na, tabb, bo, nb);
    }
  }

  /** The same by multiplication with the reciprocal. */
  method MpDivnormLarge(tabq: array<limb>, qo: nat, taba: array<limb>, ao: nat, na: nat, tabb: array<limb>, bo: nat,
                        nb: nat)
    requires 1 <= nb < na && qo + (na - nb + 1) <= tabq.Length && ao + na <= taba.Length && bo + nb <= tabb.Length
    requires tabq != taba && tabq != tabb && taba != tabb && Normalized(tabb[bo + nb - 1])
    modifies tabq, taba
    ensures Same(tabq[..], old(tabq[..]), qo, na - nb + 1) && Same(taba[..], old(taba[..]), ao, na)
    ensures Divided(old(taba[ao..ao + na]), tabq[qo..qo + (na - nb + 1)], taba[ao..ao + nb], tabb[bo..bo + nb])
    ensures tabq[qo + (na - nb)] <= 1
    decreases 1, 1, 1
  {
    hide Val, Pow, Same, Normalized;
    var n := na - nb;
    if na - nb < nb { n := n + 1; }
    var tabbInv, b1, s := DivisorInverse(tabb, bo, nb, n);
    ghost var origQ, origA, a, d := tabq[..], taba[..], taba[ao..ao + na], tabb[bo..bo + nb];
    ApproximateQuotient(tabq, qo, taba, ao, na, tabb, bo, nb, n, tabbInv, b1, s);
    ghost var midQ := tabq[..];
    SubtractProduct(tabq, qo, taba, ao, na, tabb, bo, nb);
    ghost var midA := taba[..];
    ghost var rounds := CorrectUp(tabq, qo, na - nb, taba, ao, tabb, bo, nb, a);
    SameThen(origQ, midQ, tabq[..], qo, na - nb + 1, qo, na - nb + 1, qo, na - nb + 1);
    SameThen(origA, midA, taba[..], ao, na, ao, na, ao, nb + 1);
    TopAtMostOne(tabq[qo..qo + (na - nb + 1)], d, a);
  }

  /** One or two limbs: the power B^(2n) is divided. */
  method RecipBase(tabr: array<limb>, ro: nat, taba: array<limb>, ao: nat, n: nat)
    requires 1 <= n <= 2 && ro + n + 1 <= tabr.Length && ao + n <= taba.Length && tabr != taba
    requires Normalized(taba[ao + n - 1])
    modifies tabr
    ensures Same(tabr[..], old(tabr[..]), ro, n + 1)
    ensures IsRecip(Pow(n), Val(taba[ao..ao + n]), Val(tabr[ro..ro + n + 1]))
    decreases 1, 0, 0
  {
    hide Val, Pow, Same, IsRecip, Normalized;
    NormalizedHalf(taba[ao..ao + n]);
    ValBound(taba[ao..ao + n]);
    var tabu := PowerOfB(2 * n);
    var tabt := new limb[n + 2];
    assert tabu[0..2 * n + 1] == tabu[..];
    MpDivnorm(tabt, 0, tabu, 0, 2 * n + 1, taba, ao, n);
    assert 2 * n + 1 - n + 1 == n + 2 && tabt[0..n + 2] == tabt[..];
    FinishBase(tabr, ro, tabt, tabu, taba, ao, n);
  }

  /** The reciprocal: n + 1 limbs with a one on top, less than two units below B^(2n) / a. */
  method MpRecip(tabr: array<limb>, ro: nat, taba: array<limb>, ao: nat, n: nat)
    requires n >= 1 && ro + n + 1 <= tabr.Length && ao + n <= taba.Length && tabr != taba &&
             Normalized(taba[ao + n - 1])
    modifies tabr
    ensures Same(tabr[..], old(tabr[..]), ro, n + 1)
    ensures IsRecip(Pow(n), Val(taba[ao..ao + n]), Val(tabr[ro..ro + n + 1])) && tabr[ro + n] == 1
    decreases 1, 0, n
  {
    hide Val, Pow, Same, IsRecip, Normalized;
    ghost var a, orig := taba[ao..ao + n], tabr[..];
    NormalizedHalf(a);
    ValBound(a);
    if n <= 2 {
      RecipBase(tabr, ro, taba, ao, n);
    } else {
      var l := (n - 1) / 2;
      var h := n - l;
      MpRecip(tabr, ro + l, taba, ao + l, h);
      ghost var mid := tabr[..];
      StartOfStep(tabr[ro + l..ro + l + h + 1], a, l, h);
      assert a[l..] == taba[ao + l..ao + l + h];
      var tabt := Residual(tabr, ro + l, taba, ao, n, h);
      assert tabr[ro + l..ro + l + h + 1] == tabr[ro + l..ro + n + 1];
      var tabu := Correction(tabt, tabr, ro + l, n, l, h);
      RefineLimbs(n, l, h, Val(a), tabr[ro + l..ro + n + 1], tabt[..], tabu[..]);
      ghost var mid' := tabr[..];
      Assemble(tabr, ro, tabu, Val(a), n, l, h);
      SameThen(orig, mid, mid', ro, n + 1, ro + l, h + 1, ro + l, h + 1);
      SameThen(orig, mid', tabr[..], ro, n + 1, ro, n + 1, ro, n + 1);
    }
    RecipRange(Pow(n), Val(a), Val(tabr[ro..ro + n + 1]));
    OneOnTop(tabr[ro..ro + n + 1], n);
  }

  /** What the recursive call gives is what the step starts from. */
  lemma RecipUpper(p: int, a: int, x: int)
    requires IsRecip(p, a, x)
    ensures p * p < a * (x + 2)
  {
  }

  lemma {:induction false} StartOfStep(x: seq<limb>, a: seq<limb>, l: nat, h: nat)
    requires |a| == l + h && |x| == h + 1 && h >= 1 && Normalized(a[|a| - 1])
    requires IsRecip(Pow(h), Val(a[l..]), Val(x))
    ensures Pow(h) <= Val(x) < 2 * Pow(h) && Pow(l + h) * Pow(h) < Val(a) * (Val(x) + 2) && Val(a) > 0
  {
    hide Val, Pow, Normalized, IsRecip;
    ValSplit(a, l);
    NormalizedHalf(a[l..]);
    NormalizedHalf(a);
    ValBound(a[l..]);
    PowPositive(l);
    PowPositive(h);
    PowPositive(l + h);
    RecipRange(Pow(h), Val(a[l..]), Val(x));
    RecipUpper(Pow(h), Val(a[l..]), Val(x));
    StartBound(Pow(h), Pow(l), Val(a[l..]), Val(a[..l]), Val(x));
    PowAdd(h, l);
  }

  /** ceil(B^(2n) / a) - 1 from quotient and remainder. */
  method FinishBase(tabr: array<limb>, ro: nat, tabt: array<limb>, tabu: array<limb>, taba: array<limb>, ao: nat,
                    n: nat)
    requires n >= 1 && ro + n + 1 <= tabr.Length && ao + n <= taba.Length && n <= tabu.Length && tabt.Length == n + 2
    requires tabr != tabt && tabr != tabu && tabr != taba
    requires var a := Val(taba[ao..ao + n]); 0 < a < Pow(n) <= 2 * a
    requires Val(tabt[..]) * Val(taba[ao..ao + n]) + Val(tabu[0..n]) == Pow(2 * n)
    requires Val(tabu[0..n]) < Val(taba[ao..ao + n])
    modifies tabr
    ensures Same(tabr[..], old(tabr[..]), ro, n + 1)
    ensures IsRecip(Pow(n), Val(taba[ao..ao + n]), Val(tabr[ro..ro + n + 1]))
  {
    hide Val, Pow, Same, IsRecip;
    ghost var a, q, r, orig := Val(taba[ao..ao + n]), Val(tabt[..]), Val(tabu[0..n]), tabr[..];
    PowAdd(n, n);
    RecipBaseAlgebra(Pow(n), a, q, r);
    BaseRange(Pow(n), a, q, r);
    HighZero(tabt[..], n);
    assert tabt[..][..n + 1] == tabt[0..n + 1];
    CopyLimbs(tabr, ro, tabt, 0, n + 1);
    ghost var mid := tabr[..];
    var nz := MpScanNz(tabu, 0, n);
    if !nz {
      var c := MpSubUi(tabr, ro, 1, n + 1);
      NoBorrowUi(tabr[ro..ro + n + 1], c, q);
      SameThen(orig, mid, tabr[..], ro, n + 1, ro, n + 1, ro, n + 1);
    }
  }

  lemma BaseRange(p: int, a: int, q: int, r: int)
    requires 0 < a < p <= 2 * a && q * a + r == p * p && 0 <= r < a
    ensures 1 <= q <= 2 * p
  {
    MulLe(p, 2 * a, p);
    assert (2 * a) * p == (2 * p) * a;
    if q > 2 * p { MulLe(2 * p + 1, q, a); }
    assert (2 * p + 1) * a == (2 * p) * a + a;
    if q <= 0 { MulLe(q, 0, a); }
    MulLe(1, p, p);
  }

  method DivideByOne(tabq: array<limb>, qo: nat, taba: array<limb>, ao: nat, na: nat, tabb: array<limb>, bo: nat)
    requires 1 <= na && qo + na <= tabq.Length && ao + na <= taba.Length && bo + 1 <= tabb.Length
    requires tabq != taba && tabq != tabb && taba != tabb && Normalized(tabb[bo])
    modifies tabq, taba
    ensures Same(tabq[..], old(tabq[..]), qo, na) && Same(taba[..], old(taba[..]), ao, na)
    ensures Divided(old(taba[ao..ao + na]), tabq[qo..qo + na], taba[ao..ao + 1], tabb[bo..bo + 1])
    ensures tabq[qo + na - 1] <= 1
  {
    hide Val, Pow, Same;
    ghost var a, d, orig := taba[ao..ao + na], tabb[bo..bo + 1], taba[..];
    var r := MpDiv1norm(tabq, qo, taba, ao, na, tabb[bo], 0);
    taba[ao] := r;
    assert taba[..] == orig[ao := r];
    SameOne(orig, ao, r);
    SameWiden(orig, taba[..], ao, 1, na);
    assert taba[ao..ao + 1] == [r] && d == [tabb[bo]];
    ValOne(r);
    ValOne(tabb[bo]);
    assert 0 * Pow(na) == 0;
    TopAtMostOne(tabq[qo..qo + na], d, a);
  }

  // ---- division by the reciprocal ----

  lemma {:induction false} TopNormalized(s: seq<limb>)
    requires |s| >= 1 && 2 * Val(s) >= Pow(|s|)
    ensures Normalized(s[|s| - 1])
  {
    hide Val, Pow;
    var m := |s| - 1;
    TopOne(s);
    PowNext(m);
    var half := B / 2 - 1;
    assert 2 * (half * Pow(m)) + 2 * Pow(m) == B * Pow(m);
    if s[m] <= half { MulLe(s[m], half, Pow(m)); }
  }

  /** The divisor with zeros below it. */
  method Widened(tabb: array<limb>, bo: nat, nb: nat, n: nat) returns (tabt: array<limb>)
    requires 1 <= nb <= n && bo + nb <= tabb.Length && Normalized(tabb[bo + nb - 1])
    ensures fresh(tabt) && tabt.Length == n && Normalized(tabt[n - 1])
    ensures Val(tabt[..]) == Val(tabb[bo..bo + nb]) * Pow(n - nb)
  {
    hide Val, Pow, Same, Normalized;
    tabt := new limb[n](_ => 0);
    ghost var was := tabt[..];
    CopyLimbs(tabt, n - nb, tabb, bo, nb);
    SameSlice(tabt[..], was, n - nb, nb, 0, n - nb);
    assert tabt[..][..n - nb] == tabt[..][0..n - nb] == was[0..n - nb];
    ZeroLimbs(tabt[..][..n - nb]);
    assert tabt[..][n - nb..] == tabt[n - nb..n - nb + nb] == tabb[bo..bo + nb];
    assert tabt[n - 1] == tabt[..][n - nb..][nb - 1] == tabb[bo + nb - 1];
    ValSplit(tabt[..], n - nb);
  }

  /** The divisor cut to its top n limbs, plus one; the carry tells whether that is B^n. */
  method RoundedUp(tabb: array<limb>, bo: nat, nb: nat, n: nat) returns (tabt: array<limb>, carry: limb)
    requires 1 <= n < nb && bo + nb <= tabb.Length && Normalized(tabb[bo + nb - 1])
    ensures fresh(tabt) && tabt.Length == n && carry <= 1
    ensures Val(tabt[..]) + carry * Pow(n) == Val(tabb[bo..bo + nb][nb - n..]) + 1
    ensures carry == 0 ==> Normalized(tabt[n - 1])
    ensures carry == 1 ==> Val(tabt[..]) == 0
  {
    hide Val, Pow, Same, Normalized;
    tabt := new limb[n];
    CopyLimbs(tabt, 0, tabb, bo + nb - n, n);
    ghost var high := tabb[bo..bo + nb][nb - n..];
    assert tabt[0..n] == high;
    carry := MpAddUi(tabt, 0, 1, n);
    assert tabt[0..n] == tabt[..];
    ValBound(high);
    ValBound(tabt[..]);
    if carry == 0 {
      NormalizedHalf(high);
      TopNormalized(tabt[..]);
    } else {
      assert 1 * Pow(n) == Pow(n);
    }
  }

  /** 'inv' belongs to a divisor 'b1' of n limbs that stands for the given one. */
  ghost predicate Stands(b: int, nb: nat, n: nat, b1: int, inv: int, s: int) {
    && b1 >= 1 && inv >= 0 && b1 * inv <= Pow(n) * Pow(n) < b1 * (inv + 2)
    && (n >= nb ==> s == 0 && b1 == b * Pow(n - nb))
    && (n < nb ==> 0 <= s <= Pow(nb - n) && b1 * Pow(nb - n) == b + s)
  }

  lemma {:induction false} StandsRounded(d: seq<limb>, n: nat, b1: int)
    requires 1 <= n < |d| && b1 == Val(d[|d| - n..]) + 1
    ensures var f := Pow(|d| - n); var s := b1 * f - Val(d); 0 <= s <= f
  {
    hide Val, Pow;
    ValSplit(d, |d| - n);
    ValBound(d[..|d| - n]);
    assert (Val(d[|d| - n..]) + 1) * Pow(|d| - n) == Pow(|d| - n) * Val(d[|d| - n..]) + Pow(|d| - n);
  }

  lemma PowerSquare(p: int)
    requires p >= 1
    ensures p * p <= p * p < p * (p + 2)
  {
  }

  /** The inverse of the divisor, widened or cut to n limbs. */
  method DivisorInverse(tabb: array<limb>, bo: nat, nb: nat, n: nat)
    returns (tabbInv: array<limb>, ghost b1: int, ghost s: int)
    requires 1 <= nb && 1 <= n && bo + nb <= tabb.Length && Normalized(tabb[bo + nb - 1])
    ensures fresh(tabbInv) && tabbInv.Length == n + 1
    ensures Stands(Val(tabb[bo..bo + nb]), nb, n, b1, Val(tabbInv[..]), s)
    decreases 1, 1, 0
  {
    hide Val, Pow, Same, Normalized;
    ghost var d := tabb[bo..bo + nb];
    if n >= nb {
      var tabt := Widened(tabb, bo, nb, n);
      tabbInv := new limb[n + 1];
      MpRecip(tabbInv, 0, tabt, 0, n);
      assert tabt[0..n] == tabt[..] && tabbInv[0..n + 1] == tabbInv[..];
      b1, s := Val(tabt[..]), 0;
      PositiveDivisor(tabt[..]);
    } else {
      var tabt, carry := RoundedUp(tabb, bo, nb, n);
      b1 := Val(d[nb - n..]) + 1;
      StandsRounded(d, n, b1);
      s := b1 * Pow(nb - n) - Val(d);
      if carry != 0 {
        tabbInv := PowerOfB(n);
        assert 1 * Pow(n) == Pow(n);
        PowPositive(n);
        PowerSquare(Pow(n));
      } else {
        assert 0 * Pow(n) == 0;
        tabbInv := new limb[n + 1];
        MpRecip(tabbInv, 0, tabt, 0, n);
        assert tabt[0..n] == tabt[..] && tabbInv[0..n + 1] == tabbInv[..];
      }
    }
  }

  lemma {:induction false} PositiveDivisor(d: seq<limb>)
    requires |d| >= 1 && Normalized(d[|d| - 1])
    ensures Val(d) >= 1
  {
    hide Val, Pow, Normalized;
    NormalizedHalf(d);
    PowPositive(|d|);
  }

  ghost function TheSetting(a: int, b: int, na: nat, nb: nat, n: nat, b1: int, inv: int, s: int): (x: Setting)
    requires nb < na && na - nb <= n && n + 1 <= na && n <= na - nb + 1
  {
    Setting(a, b, b1, inv, Pow(n), if n >= nb then 1 else Pow(nb - n), if n >= nb then Pow(n - nb) else 1,
            Pow(nb), Pow(na - nb), Pow(2 * n + 1 - (na - nb)), Pow(na - n - 1), s)
  }

  lemma {:induction false} PowMonotone(m: nat, n: nat)
    requires m <= n
    ensures Pow(m) <= Pow(n)
    ensures m < n ==> 16 * Pow(m) <= Pow(n)
  {
    hide Pow;
    if m < n {
      PowAdd(n - m - 1, m + 1);
      PowNext(m);
      PowPositive(n - m - 1);
      PowPositive(m);
      MulLe(1, Pow(n - m - 1), Pow(m + 1));
      MulLe(16, B, Pow(m));
    }
  }

  lemma {:induction false} SettingIsValid(a: int, d: seq<limb>, na: nat, n: nat, b1: int, inv: int, s: int)
    requires 1 <= |d| < na && Normalized(d[|d| - 1]) && 0 <= a < Pow(na) &&
             n == na - |d| + (if na - |d| < |d| then 1 else 0)
    requires Stands(Val(d), |d|, n, b1, inv, s)
    ensures ValidSetting(TheSetting(a, Val(d), na, |d|, n, b1, inv, s))
  {
    hide Val, Pow, Normalized;
    var nb := |d|;
    var nq := na - nb;
    NormalizedHalf(d);
    PositiveDivisor(d);
    PowAdd(nb, nq);
    PowAdd(2 * n + 1 - nq, na - n - 1);
    PowAdd(n, nb);
    PowMonotone(nq, n);
    PowMonotone(na - n - 1, nb);
    if n >= nb { PowAdd(n - nb, nb); } else { PowAdd(n, nb - n); }
    AllPositive(na, nb, n);
  }

  lemma {:induction false} AllPositive(na: nat, nb: nat, n: nat)
    requires nb < na && na - nb <= n && n + 1 <= na && n <= na - nb + 1
    ensures Pow(n) >= 1 && Pow(nb) >= 1 && Pow(na - nb) >= 1 && Pow(2 * n + 1 - (na - nb)) >= 1 && Pow(na - n - 1) >= 1
    ensures n >= nb ==> Pow(n - nb) >= 1
    ensures n < nb ==> Pow(nb - n) >= 1
  {
    hide Pow;
    PowPositive(n);
    PowPositive(nb);
    PowPositive(na - nb);
    PowPositive(2 * n + 1 - (na - nb));
    PowPositive(na - n - 1);
    if n >= nb { PowPositive(n - nb); } else { PowPositive(nb - n); }
  }

  /** The top limbs of inverse times dividend: never too large, at most three too small. */
  method ApproximateQuotient(tabq: array<limb>, qo: nat, taba: array<limb>, ao: nat, na: nat, tabb: array<limb>,
                             bo: nat, nb: nat, n: nat, tabbInv: array<limb>, ghost b1: int, ghost s: int)
    requires 1 <= nb < na && qo + (na - nb + 1) <= tabq.Length && ao + na <= taba.Length && bo + nb <= tabb.Length
    requires tabq != taba && tabq != tabb && tabq != tabbInv && Normalized(tabb[bo + nb - 1])
    requires n == na - nb + (if na - nb < nb then 1 else 0) && tabbInv.Length == n + 1
    requires Stands(Val(tabb[bo..bo + nb]), nb, n, b1, Val(tabbInv[..]), s)
    modifies tabq
    ensures Same(tabq[..], old(tabq[..]), qo, na - nb + 1)
    ensures var q, b := Val(tabq[qo..qo + (na - nb + 1)]), Val(tabb[bo..bo + nb]);
            q * b <= Val(taba[ao..ao + na]) < (q + 4) * b
  {
    hide Val, Pow, Same, Normalized, Stands;
    var nq := na - nb;
    var k := 2 * (n + 1) - (nq + 1);
    ghost var a, d, inv := taba[ao..ao + na], tabb[bo..bo + nb], tabbInv[..];
    var tabt := new limb[2 * (n + 1)];
    MpMulBasecase(tabt, 0, tabbInv, 0, n + 1, taba, ao + na - (n + 1), n + 1);
    ghost var t := tabt[..];
    assert tabt[0..n + 1 + (n + 1)] == t && tabbInv[0..n + 1] == inv;
    assert taba[ao + na - (n + 1)..ao + na - (n + 1) + (n + 1)] == a[na - n - 1..];
    CopyLimbs(tabq, qo, tabt, k, nq + 1);
    assert tabt[k..k + (nq + 1)] == t[k..];
    QuotientLimbs(a, d, n, b1, inv, s, t);
  }

  lemma {:induction false} QuotientLimbs(a: seq<limb>, d: seq<limb>, n: nat, b1: int, inv: seq<limb>, s: int,
                                         t: seq<limb>)
    requires 1 <= |d| < |a| && Normalized(d[|d| - 1]) && n == |a| - |d| + (if |a| - |d| < |d| then 1 else 0)
    requires Stands(Val(d), |d|, n, b1, Val(inv), s)
    requires |t| == 2 * (n + 1) && Val(t) == Val(inv) * Val(a[|a| - n - 1..])
    ensures var q := Val(t[2 * n + 1 - (|a| - |d|)..]); q * Val(d) <= Val(a) < (q + 4) * Val(d)
  {
    hide Val, Pow, Normalized, Stands, ValidSetting;
    var na, k := |a|, 2 * n + 1 - (|a| - |d|);
    ValBound(a);
    SettingIsValid(Val(a), d, na, n, b1, Val(inv), s);
    var x := TheSetting(Val(a), Val(d), na, |d|, n, b1, Val(inv), s);
    ValSplit(a, na - n - 1);
    ValBound(a[..na - n - 1]);
    ValSplit(t, k);
    ValBound(t[..k]);
    var q, at, ae := Val(t[k..]), Val(a[na - n - 1..]), Val(a[..na - n - 1]);
    assert (q + 1) * x.d == x.d * q + x.d;
    NeverTooLarge(x, at, ae, q);
    AtMostThreeTooSmall(x, at, ae, q);
  }

  /** R = A - B * Q, computed on nb + 1 limbs only. */
  method SubtractProduct(tabq: array<limb>, qo: nat, taba: array<limb>, ao: nat, na: nat, tabb: array<limb>, bo: nat,
                         nb: nat)
    requires 1 <= nb < na && qo + (na - nb + 1) <= tabq.Length && ao + na <= taba.Length && bo + nb <= tabb.Length
    requires taba != tabq && taba != tabb
    requires var q, b := Val(tabq[qo..qo + (na - nb + 1)]), Val(tabb[bo..bo + nb]);
             q * b <= Val(taba[ao..ao + na]) < (q + 4) * b
    modifies taba
    ensures Same(taba[..], old(taba[..]), ao, na)
    ensures Val(taba[ao..ao + nb + 1])
         == Val(old(taba[ao..ao + na])) - Val(tabq[qo..qo + (na - nb + 1)]) * Val(tabb[bo..bo + nb])
  {
    hide Val, Pow, Same;
    ghost var a, q, d := taba[ao..ao + na], tabq[qo..qo + (na - nb + 1)], tabb[bo..bo + nb];
    var tabt := new limb[na + 1];
    MpMulBasecase(tabt, 0, tabq, qo, na - nb + 1, tabb, bo, nb);
    ghost var t := tabt[..];
    assert tabt[0..na - nb + 1 + nb] == t;
    SliceCut(taba, ao, ao + na, nb + 1);
    SliceCut(tabt, 0, na + 1, nb + 1);
    var c := MpSub(taba, ao, taba, ao, tabt, 0, nb + 1, 0);
    SameWiden(old(taba[..]), taba[..], ao, nb + 1, na);
    LowDifference(taba[ao..ao + nb + 1], c, a, t, q, d);
  }

  /** The difference on |d| + 1 limbs is the remainder, as that fits. */
  lemma {:induction false} LowDifference(r: seq<limb>, c: int, a: seq<limb>, t: seq<limb>, q: seq<limb>, d: seq<limb>)
    requires |r| == |d| + 1 <= |a| && |r| <= |t| && Val(t) == Val(q) * Val(d)
    requires Val(r) - c * Pow(|r|) == Val(a[..|r|]) - Val(t[..|r|])
    requires Val(q) * Val(d) <= Val(a) < (Val(q) + 4) * Val(d)
    ensures Val(r) == Val(a) - Val(q) * Val(d)
  {
    hide Val, Pow;
    var n := |r|;
    ValSplit(a, n);
    ValSplit(t, n);
    ValBound(r);
    ValBound(d);
    PowNext(n - 1);
    MulLe(4, B, Pow(n - 1));
    assert (Val(q) + 4) * Val(d) == Val(q) * Val(d) + 4 * Val(d);
    Modular(Val(r), c, Val(a[..n]), Val(a[n..]), Val(t[..n]), Val(t[n..]), Pow(n));
  }

  /** Low parts alone determine a difference that is known to fit. */
  lemma Modular(r: int, c: int, a0: int, a1: int, t0: int, t1: int, p: int)
    requires r - c * p == a0 - t0 && 0 <= r < p && 0 <= (a0 + p * a1) - (t0 + p * t1) < p
    ensures r == (a0 + p * a1) - (t0 + p * t1)
  {
    var k := c - a1 + t1;
    assert p * k == c * p - p * a1 + p * t1;
    if k >= 1 { MulLe(1, k, p); }
    if k <= -1 { MulLe(k, -1, p); }
    assert p * 0 == 0;
  }

  /** Subtracts the divisor until the remainder is small enough: at most three times. */
  method CorrectUp(tabq: array<limb>, qo: nat, nq: nat, taba: array<limb>, ao: nat, tabb: array<limb>, bo: nat, nb: nat,
                   ghost a: seq<limb>) returns (ghost rounds: nat)
    requires nb >= 1 && qo + nq + 1 <= tabq.Length && ao + nb + 1 <= taba.Length && bo + nb <= tabb.Length
    requires tabq != taba && tabq != tabb && taba != tabb && Normalized(tabb[bo + nb - 1]) && |a| == nq + nb
    requires var q, b := Val(tabq[qo..qo + nq + 1]), Val(tabb[bo..bo + nb]);
             q * b + Val(taba[ao..ao + nb + 1]) == Val(a) < (q + 4) * b
    modifies tabq, taba
    ensures Same(tabq[..], old(tabq[..]), qo, nq + 1) && Same(taba[..], old(taba[..]), ao, nb + 1) && rounds <= 3
    ensures Divided(a, tabq[qo..qo + nq + 1], taba[ao..ao + nb], tabb[bo..bo + nb])
  {
    hide Val, Pow, Same, Normalized;
    ghost var d, q0, origQ, origA := tabb[bo..bo + nb], Val(tabq[qo..qo + nq + 1]), tabq[..], taba[..];
    SameNone(origQ, qo);
    SameWiden(origQ, origQ, qo, 0, nq + 1);
    SameNone(origA, ao);
    SameWiden(origA, origA, ao, 0, nb + 1);
    rounds := 0;
    while true
      invariant Same(tabq[..], origQ, qo, nq + 1) && Same(taba[..], origA, ao, nb + 1)
      invariant rounds <= 3 && Val(tabq[qo..qo + nq + 1]) == q0 + rounds
      invariant Val(tabq[qo..qo + nq + 1]) * Val(d) + Val(taba[ao..ao + nb + 1]) == Val(a)
      decreases 4 - rounds
    {
      ghost var q, r, win := Val(tabq[qo..qo + nq + 1]), Val(taba[ao..ao + nb + 1]), taba[ao..ao + nb + 1];
      assert win[..nb] == taba[ao..ao + nb] && win[nb] == taba[ao + nb];
      WindowTop(win, nb);
      ValBound(d);
      if taba[ao + nb] == 0 {
        assert Pow(nb) * 0 == 0;
        var cmp := MpCmp(taba, ao, tabb, bo, nb);
        if cmp < 0 { return; }
      } else {
        MulLe(1, win[nb], Pow(nb));
      }
      RoundsLeft(q0, rounds, Val(d), r, Val(a));
      ghost var midQ, midA := tabq[..], taba[..];
      SubOnce(taba, ao, tabb, bo, nb);
      QuotientFits(a, d, q, r, nq);
      var carry := MpAddUi(tabq, qo, 1, nq + 1);
      NoCarry(tabq[qo..qo + nq + 1], carry, q + 1);
      SameThen(origQ, midQ, tabq[..], qo, nq + 1, qo, nq + 1, qo, nq + 1);
      SameThen(origA, midA, taba[..], ao, nb + 1, ao, nb + 1, ao, nb + 1);
      assert (q + 1) * Val(d) == q * Val(d) + Val(d);
      rounds := rounds + 1;
    }
  }

  lemma RoundsLeft(q0: int, rounds: int, d: int, r: int, a: int)
    requires (q0 + rounds) * d + r == a < (q0 + 4) * d && r >= d >= 0
    ensures rounds <= 2
  {
    assert (q0 + rounds + 1) * d == (q0 + rounds) * d + d;
    if rounds >= 3 { MulLe(q0 + 4, q0 + rounds + 1, d); }
  }

  lemma {:induction false} QuotientFits(a: seq<limb>, d: seq<limb>, q: int, r: int, nq: nat)
    requires |d| >= 1 && Normalized(d[|d| - 1]) && |a| == nq + |d| && q >= 0 && q * Val(d) + r == Val(a) && r >= Val(d)
    ensures q + 1 < Pow(nq + 1)
  {
    hide Val, Pow, Normalized;
    PositiveDivisor(d);
    NormalizedHalf(d);
    ValBound(a);
    PowAdd(nq, |d|);
    PowPositive(nq);
    PowPositive(|d|);
    PowNext(nq);
    assert (q + 1) * Val(d) == q * Val(d) + Val(d);
    SizeAlgebra(q + 1, Val(a), Val(d), Pow(|d|), Pow(nq));
    MulLe(2, B, Pow(nq));
  }

  /** One subtraction from nb + 1 limbs that hold at least the divisor. */
  method SubOnce(taba: array<limb>, ao: nat, tabb: array<limb>, bo: nat, nb: nat)
    requires ao + nb + 1 <= taba.Length && bo + nb <= tabb.Length && taba != tabb
    requires Val(taba[ao..ao + nb + 1]) >= Val(tabb[bo..bo + nb])
    modifies taba
    ensures Same(taba[..], old(taba[..]), ao, nb + 1)
    ensures Val(taba[ao..ao + nb + 1]) == Val(old(taba[ao..ao + nb + 1])) - Val(tabb[bo..bo + nb])
  {
    hide Val, Pow, Same;
    ghost var was, win := taba[..], taba[ao..ao + nb + 1];
    assert win[..nb] == taba[ao..ao + nb] && win[nb] == taba[ao + nb];
    WindowTop(win, nb);
    var c := MpSub(taba, ao, taba, ao, tabb, bo, nb, 0);
    ghost var mid, low := taba[..], taba[ao..ao + nb];
    SameSlice(mid, was, ao, nb, ao + nb, ao + nb + 1);
    assert taba[ao + nb] == mid[ao + nb..ao + nb + 1][0] == was[ao + nb..ao + nb + 1][0] == win[nb];
    ValBound(low);
    EnoughAbove(Val(low), c, Pow(nb), Val(win[..nb]), win[nb], Val(tabb[bo..bo + nb]));
    taba[ao + nb] := (taba[ao + nb] - c) % B;
    ghost var end := taba[ao..ao + nb + 1];
    assert end[..nb] == low && end[nb] == win[nb] - c;
    TakenFromTop(end, win, nb, c, Val(tabb[bo..bo + nb]));
    SameOne(mid, ao + nb, taba[ao + nb]);
    assert taba[..] == mid[ao + nb := taba[ao + nb]];
    SameThen(was, mid, taba[..], ao, nb + 1, ao, nb, ao + nb, 1);
  }

  /** The borrow out of the low limbs comes off the top one. */
  lemma {:induction false} TakenFromTop(end: seq<limb>, win: seq<limb>, n: nat, c: int, d: int)
    requires |end| == |win| == n + 1 && end[n] == win[n] - c && Val(end[..n]) - c * Pow(n) == Val(win[..n]) - d
    ensures Val(end) == Val(win) - d
  {
    hide Val, Pow;
    WindowTop(end, n);
    WindowTop(win, n);
    assert Pow(n) * (win[n] - c) == Pow(n) * win[n] - c * Pow(n);
  }

  lemma EnoughAbove(low: int, c: int, p: int, x0: int, top: int, d: int)
    requires low - c * p == x0 - d && 0 <= low < p && 0 <= c <= 1 && x0 + p * top >= d && top >= 0
    ensures top >= c
  {
    assert 1 * p == p;
    assert p * 0 == 0;
  }
}
