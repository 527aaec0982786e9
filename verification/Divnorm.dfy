/**
 Long division by a normalized divisor, one quotient limb at a time.
 */
module Divnorm {
  import opened Limbs
  import opened DivLimb

  const UDIV1NORM_THRESHOLD := 3

  // ---- by one limb ----

  lemma {:induction false} DivStep(q: limb, above: seq<limb>, b: int, r: int, r': int, a: limb, t: int)
    requires Val(above) * b + r == t && q * b + r' == r * B + a
    ensures Val([q] + above) * b + r' == a + B * t
  {
    hide Val;
    LowDigit(q, above);
    DivStepAlgebra(q, Val(above), b, r, r', a, B);
  }

  lemma DivStepAlgebra(q: int, above: int, b: int, r: int, r': int, a: int, base: int)
    requires q * b + r' == r * base + a
    ensures (q + base * above) * b + r' == a + base * (above * b + r)
  {
    assert (q + base * above) * b == q * b + base * (above * b);
    assert base * (above * b + r) == base * (above * b) + base * r;
  }

  /** Two limbs by one with the double-limb operators. */
  method DivTwo(a1: limb, a0: limb, d: limb) returns (q: limb, r: limb)
    requires a1 < d
    ensures q * d + r == a1 * B + a0 && r < d
  {
    var a: int := a1 as int * B + a0;
    MulLe(a1 + 1, d, B);
    QuotientBelow(a, d, B);
    q, r := a / d, a % d;
  }

  /** With the precomputed inverse when there is one. */
  method DivLimbs(a1: limb, a0: limb, d: limb, dInv: limb, useInv: bool) returns (q: limb, r: limb)
    requires Normalized(d) && a1 < d && (useInv ==> IsInverse(B, d, dInv))
    ensures q * d + r == a1 * B + a0 && r < d
  {
    hide IsInverse;
    if useInv {
      q, r := Udiv1norm(a1, a0, d, dInv);
    } else {
      q, r := DivTwo(a1, a0, d);
    }
  }

  /** The dividend from one limb further down. */
  lemma {:induction false} DividendNext(x: seq<limb>, i: nat, r0: int)
    requires i < |x|
    ensures Val(x[i..]) + r0 * Pow(|x| - i) == x[i] + B * (Val(x[i + 1..]) + r0 * Pow(|x| - i - 1))
  {
    hide Val, Pow;
    assert x[i..] == [x[i]] + x[i + 1..];
    LowDigit(x[i], x[i + 1..]);
    PowNext(|x| - i - 1);
    MulAssoc(B, r0, Pow(|x| - i - 1));
    MulAssoc(r0, B, Pow(|x| - i - 1));
  }

  /** Divides n limbs, with 'r' above them, by one limb; returns the remainder. */
  method MpDiv1norm(tabr: array<limb>, ro: nat, taba: array<limb>, ao: nat, n: nat, b: limb, r0: limb) returns (r: limb)
    requires ro + n <= tabr.Length && ao + n <= taba.Length && (tabr == taba ==> ro >= ao)
    requires Normalized(b) && r0 < b
    modifies tabr
    ensures Same(tabr[..], old(tabr[..]), ro, n) && r < b
    ensures Val(tabr[ro..ro + n]) * b + r == Val(old(taba[ao..ao + n])) + r0 * Pow(n)
  {
    hide Val, Pow, IsInverse, Same;
    ghost var orig := tabr[..];
    SameNone(orig, ro + n);
    r := r0;
    ghost var x := taba[ao..ao + n];
    var bInv: limb := 0;
    if n >= UDIV1NORM_THRESHOLD { bInv := Udiv1normInit(b); }
    var i: nat := n;
    NoDigits(tabr[ro + n..ro + n], x[n..], []);
    while i > 0
      invariant 0 <= i <= n && r < b && Same(tabr[..], orig, ro + i, n - i)
      invariant forall j :: 0 <= j < i ==> taba[ao + j] == x[j]
      invariant Val(tabr[ro + i..ro + n]) * b + r == Val(x[i..]) + r0 * Pow(n - i)
    {
      i := i - 1;
      var a := taba[ao + i];
      ghost var above, was := tabr[ro + i + 1..ro + n], r;
      var q;
      q, r := DivLimbs(r, a, b, bInv, n >= UDIV1NORM_THRESHOLD);
      DivStep(q, above, b, was, r, a, Val(x[i + 1..]) + r0 * Pow(n - i - 1));
      SameGrowDown(orig, tabr[..], ro + i, n - i - 1, q);
      tabr[ro + i] := q;
      assert tabr[ro + i..ro + n] == [q] + above;
      DividendNext(x, i, r0);
    }
    assert x[0..] == x;
  }

  // ---- one quotient limb ----

  /** The trial digit from the top two limbs of the window and the top limb of the divisor. */
  predicate IsTrial(b: int, t1: int, t0: int, b1: int, q: int) {
    if t1 >= b1 then q == b - 1 else q * b1 <= t1 * b + t0 < (q + 1) * b1
  }

  method TrialDigit(t1: limb, t0: limb, b1: limb, b1Inv: limb, useInv: bool) returns (q: limb)
    requires Normalized(b1) && (useInv ==> IsInverse(B, b1, b1Inv))
    ensures IsTrial(B, t1, t0, b1, q)
  {
    hide IsInverse;
    if t1 >= b1 { return B - 1; }
    var r;
    q, r := DivLimbs(t1, t0, b1, b1Inv, useInv);
    assert (q + 1) * b1 == q * b1 + b1;
  }

  /** What the limbs below the top one of the divisor can add to a multiple of it is less than two divisors. */
  lemma LowPart(b: int, p: int, b1: int, bLow: int, q: int)
    requires p >= 1 && b <= 2 * b1 && 0 <= bLow < p && 0 <= q < b
    ensures 0 <= q * bLow < 2 * (b1 * p + bLow)
  {
    MulLe(0, q, bLow);
    MulLe(q, b, bLow);
    MulLe(bLow, p, b);
    MulLe(b, 2 * b1, p);
    assert b * p <= 2 * (b1 * p);
  }

  lemma UncappedBounds(b: int, p: int, b1: int, bLow: int, t: int, low: int, q: int)
    requires b >= 2 && p >= 1 && b <= 2 * b1 && 0 <= bLow < p && 0 <= low < p && 0 <= q < b
    requires q * b1 <= t < (q + 1) * b1
    ensures var w, d := t * p + low, b1 * p + bLow; w < (q + 1) * d && q * d < w + 2 * d
  {
    LowPart(b, p, b1, bLow, q);
    MultipleBelow(p, b1, bLow, t, low, q, b1 * p + bLow);
    MultipleAbove(p, b1, bLow, t, low, q + 1, b1 * p + bLow);
  }

  lemma MultipleBelow(p: int, b1: int, bLow: int, t: int, low: int, q: int, d: int)
    requires p >= 1 && low >= 0 && d == b1 * p + bLow && q * b1 <= t && q * bLow < 2 * d
    ensures q * d < t * p + low + 2 * d
  {
    MulLe(q * b1, t, p);
    assert q * d == (q * b1) * p + q * bLow;
  }

  lemma MultipleAbove(p: int, b1: int, bLow: int, t: int, low: int, q: int, d: int)
    requires p >= 1 && bLow >= 0 && low < p && d == b1 * p + bLow && t < q * b1 && q >= 0
    ensures t * p + low < q * d
  {
    MulLe(0, q, bLow);
    MulLe(t + 1, q * b1, p);
    assert (t + 1) * p == t * p + p;
    assert q * d == (q * b1) * p + q * bLow;
  }

  lemma CappedBounds(b: int, p: int, b1: int, bLow: int, t: int, low: int)
    requires b >= 2 && p >= 1 && b <= 2 * b1 && 0 <= bLow < p && 0 <= low < p && b1 * b <= t
    ensures var w, d := t * p + low, b1 * p + bLow; (b - 1) * d < w + 2 * d
  {
    var d := b1 * p + bLow;
    LowPart(b, p, b1, bLow, b - 1);
    assert (b - 1) * d == (b1 * b) * p - b1 * p + (b - 1) * bLow;
    MulLe(b1 * b, t, p);
    MulLe(0, b1, p);
  }

  /** The trial digit is not too small and at most two too large. */
  lemma TrialBounds(b: int, p: int, b1: int, bLow: int, t1: int, t0: int, low: int, q: int)
    requires b >= 2 && p >= 1 && b <= 2 * b1 && 0 <= bLow < p && 0 <= low < p && 0 <= t0 && 0 <= q < b
    requires IsTrial(b, t1, t0, b1, q)
    requires (t1 * b + t0) * p + low < b * (b1 * p + bLow)
    ensures var w, d := (t1 * b + t0) * p + low, b1 * p + bLow; w < (q + 1) * d && q * d < w + 2 * d
  {
    if t1 >= b1 {
      MulLe(b1, t1, b);
      CappedBounds(b, p, b1, bLow, t1 * b + t0, low);
    } else {
      UncappedBounds(b, p, b1, bLow, t1 * b + t0, low, q);
    }
  }

  lemma {:induction false} TopOne(d: seq<limb>)
    requires |d| >= 1
    ensures var m := |d| - 1; Val(d) == d[m] * Pow(m) + Val(d[..m]) && 0 <= Val(d[..m]) < Pow(m)
  {
    hide Val, Pow;
    var m := |d| - 1;
    assert d[..m + 1] == d;
    ValPrefix(d, m);
    ValBound(d[..m]);
  }

  lemma {:induction false} TopTwo(w: seq<limb>)
    requires |w| >= 2
    ensures var m := |w| - 2; Val(w) == (w[m + 1] * B + w[m]) * Pow(m) + Val(w[..m]) && 0 <= Val(w[..m]) < Pow(m)
  {
    hide Val, Pow;
    var m := |w| - 2;
    TopOne(w);
    TopOne(w[..m + 1]);
    assert w[..m + 1][..m] == w[..m];
    PowNext(m);
    assert (w[m + 1] as int * B + w[m]) * Pow(m) == w[m] * Pow(m) + w[m + 1] * (B * Pow(m));
  }

  /** The window as low limbs and top limb. */
  lemma {:induction false} WindowTop(w: seq<limb>, n: nat)
    requires |w| == n + 1
    ensures Val(w) == Val(w[..n]) + Pow(n) * w[n] && 0 <= Val(w[..n]) < Pow(n)
  {
    hide Val, Pow;
    TopOne(w);
  }

  /** Twice a number of 'n' limbs is less than B^(n + 1). */
  lemma {:induction false} TwiceFits(d: seq<limb>)
    ensures 2 * Val(d) < B * Pow(|d|)
  {
    hide Val, Pow;
    ValBound(d);
    MulLe(2, B, Pow(|d|));
  }

  /**
   Adds the divisor back until the window, which wrapped below zero, wraps
   back. 'd' is the true value, negative; at most two rounds are needed.
   */
  method AddBack(taba: array<limb>, w: nat, tabb: array<limb>, bo: nat, nb: nat, q0: limb, ghost d: int)
    returns (q: limb, ghost rounds: nat)
    requires w + nb < taba.Length && bo + nb <= tabb.Length && taba != tabb && nb >= 1
    requires Val(taba[w..w + nb + 1]) == d + B * Pow(nb)
    requires d < 0 && -2 * Val(tabb[bo..bo + nb]) <= d && q0 >= 1 && (-Val(tabb[bo..bo + nb]) > d ==> q0 >= 2)
    modifies taba
    ensures Same(taba[..], old(taba[..]), w, nb + 1)
    ensures rounds <= 2 && q == q0 - rounds
    ensures Val(taba[w..w + nb + 1]) == d + rounds * Val(tabb[bo..bo + nb]) < Val(tabb[bo..bo + nb])
  {
    hide Val, Pow, Same;
    ghost var orig, bv, top := taba[..], Val(tabb[bo..bo + nb]), B * Pow(nb);
    SameNone(orig, w);
    SameWiden(orig, taba[..], w, 0, nb + 1);
    q, rounds := q0, 0;
    ghost var now := d;
    while true
      invariant Same(taba[..], orig, w, nb + 1) && rounds <= 1 && q == q0 - rounds
      invariant now == d + rounds * bv && now < 0 && Val(taba[w..w + nb + 1]) == now + top
      decreases 2 - rounds
    {
      q := q - 1;
      rounds := rounds + 1;
      var back := AddOnce(taba, w, tabb, bo, nb, now, orig);
      now := now + bv;
      if back { return; }
    }
  }

  /** One round: the sum wraps exactly when the true value is no longer negative. */
  method AddOnce(taba: array<limb>, w: nat, tabb: array<limb>, bo: nat, nb: nat, ghost now: int, ghost orig: seq<limb>)
    returns (back: bool)
    requires w + nb < taba.Length && bo + nb <= tabb.Length && taba != tabb
    requires Same(taba[..], orig, w, nb + 1)
    requires now < 0 && Val(taba[w..w + nb + 1]) == now + B * Pow(nb)
    modifies taba
    ensures Same(taba[..], orig, w, nb + 1)
    ensures var next := now + Val(tabb[bo..bo + nb]);
            && back == (next >= 0)
            && Val(taba[w..w + nb + 1]) == if back then next else next + B * Pow(nb)
  {
    hide Val, Pow, Same;
    ghost var was, win := taba[..], taba[w..w + nb + 1];
    assert win[..nb] == taba[w..w + nb] && win[nb] == taba[w + nb];
    WindowTop(win, nb);
    var c := MpAdd(taba, w, taba, w, tabb, bo, nb, 0);
    SameSlice(taba[..], was, w, nb, w + nb, w + nb + 1);
    assert taba[w + nb] == win[nb] by { assert taba[..][w + nb..w + nb + 1][0] == was[w + nb..w + nb + 1][0]; }
    ghost var low, mid := taba[w..w + nb], taba[..];
    back := false;
    if c != 0 {
      var t: limb := (taba[w + nb] + 1) % B;
      taba[w + nb] := t;
      back := t == 0;
    }
    ghost var end := taba[w..w + nb + 1];
    assert end[..nb] == low && end[nb] == taba[w + nb];
    WindowTop(end, nb);
    SameOne(mid, w + nb, taba[w + nb]);
    assert taba[..] == mid[w + nb := taba[w + nb]];
    SameThen(was, mid, taba[..], w, nb + 1, w, nb, w + nb, 1);
    SameThen(orig, was, taba[..], w, nb + 1, w, nb + 1, w, nb + 1);
    WrapBack(Val(low), win[nb], end[nb], c, Pow(nb), now, Val(tabb[bo..bo + nb]), back);
  }

  lemma SameOne(s: seq<limb>, at: nat, a: limb)
    requires at < |s|
    ensures Same(s[at := a], s, at, 1)
  {
  }

  lemma WrapBack(low: int, t: int, t': int, c: int, p: int, now: int, bv: int, back: bool)
    requires 0 <= low < p && 0 <= t < B && 0 <= c <= 1 && bv >= 0 && now < 0
    requires low + c * p == now + B * p - p * t + bv
    requires back == (c == 1 && t == B - 1) && t' == if c == 0 then t else if back then 0 else t + 1
    ensures back == (now + bv >= 0)
    ensures low + p * t' == if back then now + bv else now + bv + B * p
  {
    if c == 0 {
      MulLe(t, B - 1, p);
    } else if !back {
      MulLe(t, B - 2, p);
      assert p * (t + 1) == p * t + p;
    } else {
      assert p * t == B * p - p;
    }
  }

  /** One quotient limb: the window of nb + 1 limbs is reduced below the divisor; 'rounds' counts the corrections. */
  method DivDigit(taba: array<limb>, w: nat, tabb: array<limb>, bo: nat, nb: nat, b1Inv: limb, useInv: bool)
    returns (q: limb, ghost rounds: nat)
    requires w + nb < taba.Length && bo + nb <= tabb.Length && taba != tabb && nb >= 2
    requires Normalized(tabb[bo + nb - 1]) && (useInv ==> IsInverse(B, tabb[bo + nb - 1], b1Inv))
    requires Val(taba[w + 1..w + nb + 1]) < Val(tabb[bo..bo + nb])
    modifies taba
    ensures Same(taba[..], old(taba[..]), w, nb + 1) && rounds <= 2
    ensures Val(taba[w..w + nb + 1]) + q * Val(tabb[bo..bo + nb]) == Val(old(taba[w..w + nb + 1]))
    ensures Val(taba[w..w + nb + 1]) < Val(tabb[bo..bo + nb])
  {
    hide Val, Pow, Same, IsInverse, IsTrial;
    ghost var orig, win, dv := taba[..], taba[w..w + nb + 1], tabb[bo..bo + nb];
    assert win[nb] == taba[w + nb] && win[nb - 1] == taba[w + nb - 1] && dv[nb - 1] == tabb[bo + nb - 1];
    assert win[1..] == taba[w + 1..w + nb + 1];
    q := TrialDigit(taba[w + nb], taba[w + nb - 1], tabb[bo + nb - 1], b1Inv, useInv);
    TopOne(dv);
    TopTwo(win);
    assert win == [win[0]] + win[1..];
    LowDigit(win[0], win[1..]);
    TrialBounds(B, Pow(nb - 1), dv[nb - 1], Val(dv[..nb - 1]), win[nb], win[nb - 1], Val(win[..nb - 1]), q);
    q, rounds := ReduceWindow(taba, w, tabb, bo, nb, q);
  }

  /** Subtracts the multiple the trial digit gives, and puts back what was too much. */
  method ReduceWindow(taba: array<limb>, w: nat, tabb: array<limb>, bo: nat, nb: nat, trial: limb)
    returns (q: limb, ghost rounds: nat)
    requires w + nb < taba.Length && bo + nb <= tabb.Length && taba != tabb && nb >= 2
    requires var win, dv := Val(taba[w..w + nb + 1]), Val(tabb[bo..bo + nb]);
             win < (trial + 1) * dv && trial * dv < win + 2 * dv && win < B * dv
    modifies taba
    ensures Same(taba[..], old(taba[..]), w, nb + 1) && rounds <= 2
    ensures Val(taba[w..w + nb + 1]) + q * Val(tabb[bo..bo + nb]) == Val(old(taba[w..w + nb + 1]))
    ensures Val(taba[w..w + nb + 1]) < Val(tabb[bo..bo + nb])
  {
    hide Val, Pow, Same;
    ghost var orig, win, dv := taba[..], taba[w..w + nb + 1], tabb[bo..bo + nb];
    q := trial;
    var negative := SubDivisor(taba, w, tabb, bo, nb, q, win);
    ghost var mid, d := taba[..], Val(win) - q * Val(dv);
    DigitRange(q, Val(win), Val(dv));
    if negative {
      q, rounds := AddBack(taba, w, tabb, bo, nb, q, d);
      SameThen(orig, mid, taba[..], w, nb + 1, w, nb + 1, w, nb + 1);
      BackAlgebra(q, rounds, d, Val(win), Val(dv));
    } else {
      rounds := 0;
    }
  }

  lemma DigitRange(q: int, w: int, d: int)
    requires q >= 0 && w >= 0 && d >= 0 && w < (q + 1) * d && q * d < w + 2 * d
    ensures w - q * d < d && -2 * d <= w - q * d
    ensures w - q * d < 0 ==> q >= 1
    ensures w - q * d < -d ==> q >= 2
  {
    assert (q + 1) * d == q * d + d;
    if q == 1 { assert q * d == d; }
    if q == 0 { assert q * d == 0; }
  }

  lemma BackAlgebra(q: int, rounds: int, d: int, w: int, dv: int)
    requires d == w - (q + rounds) * dv
    ensures d + rounds * dv + q * dv == w
  {
    assert (q + rounds) * dv == q * dv + rounds * dv;
  }

  /** Subtracts q times the divisor; a negative result is stored modulo B^(nb + 1). */
  method SubDivisor(taba: array<limb>, w: nat, tabb: array<limb>, bo: nat, nb: nat, q: limb, ghost win: seq<limb>)
    returns (negative: bool)
    requires w + nb < taba.Length && bo + nb <= tabb.Length && taba != tabb && nb >= 1
    requires win == taba[w..w + nb + 1]
    requires var dv := Val(tabb[bo..bo + nb]); q * dv <= Val(win) + 2 * dv
    modifies taba
    ensures Same(taba[..], old(taba[..]), w, nb + 1)
    ensures var d := Val(win) - q * Val(tabb[bo..bo + nb]);
            negative == (d < 0) && Val(taba[w..w + nb + 1]) == if negative then d + B * Pow(nb) else d
  {
    hide Val, Pow, Same;
    ghost var was, dv := taba[..], tabb[bo..bo + nb];
    assert win[..nb] == taba[w..w + nb] && win[nb] == taba[w + nb];
    WindowTop(win, nb);
    var r := MpSubMul1(taba, w, tabb, bo, nb, q);
    SameSlice(taba[..], was, w, nb, w + nb, w + nb + 1);
    assert taba[w + nb] == win[nb] by { assert taba[..][w + nb..w + nb + 1][0] == was[w + nb..w + nb + 1][0]; }
    ghost var low, mid := taba[w..w + nb], taba[..];
    var v := taba[w + nb];
    var a, c := SubUiDigit(v, r);
    negative := c != 0;
    taba[w + nb] := a;
    ghost var end := taba[w..w + nb + 1];
    assert end[..nb] == low && end[nb] == a;
    WindowTop(end, nb);
    SameOne(mid, w + nb, a);
    assert taba[..] == mid[w + nb := a];
    SameThen(was, mid, taba[..], w, nb + 1, w, nb, w + nb, 1);
    TwiceFits(dv);
    Borrow(Val(low), v, r, a, c, Pow(nb), Val(win) - q * Val(dv), 2 * Val(dv), B);
  }

  lemma Borrow(low: int, v: int, r: int, a: int, c: int, p: int, d: int, slack: int, b: int)
    requires 0 <= low < p && 0 <= a < b && 0 <= c <= 1 && a - c * b == v - r
    requires low - r * p == d - p * v && -slack <= d && slack < b * p
    ensures (c != 0) == (d < 0)
    ensures low + p * a == if c != 0 then d + b * p else d
  {
    assert p * (v - r) == p * v - r * p;
    assert p * (a - c * b) == p * a - c * (b * p);
    MulLe(0, a, p);
    MulLe(a, b - 1, p);
    assert p * (b - 1) == b * p - p;
  }

  // ---- the whole quotient ----

  /** The top limb of the quotient: is the divisor at most what is above it? */
  method TopQuotient(taba: array<limb>, w: nat, tabb: array<limb>, bo: nat, nb: nat) returns (q: limb)
    requires w + nb <= taba.Length && bo + nb <= tabb.Length
    ensures q == if Val(taba[w..w + nb]) >= Val(tabb[bo..bo + nb]) then 1 else 0
  {
    hide Val;
    ghost var x, y := taba[w..w + nb], tabb[bo..bo + nb];
    q := 1;
    var j := nb;
    while j > 0
      invariant 0 <= j <= nb && x[j..] == y[j..] && q == 1
    {
      j := j - 1;
      assert x[j] == taba[w + j] && y[j] == tabb[bo + j];
      if taba[w + j] != tabb[bo + j] {
        if taba[w + j] < tabb[bo + j] {
          TopDiffers(x, y, j);
          q := 0;
        } else {
          TopDiffers(y, x, j);
        }
        return;
      }
      assert x[j..] == [x[j]] + x[j + 1..] && y[j..] == [y[j]] + y[j + 1..];
    }
    assert x == y;
  }

  /** A normalized divisor is at least half of B^n. */
  lemma {:induction false} NormalizedHalf(d: seq<limb>)
    requires |d| >= 1 && Normalized(d[|d| - 1])
    ensures 2 * Val(d) >= Pow(|d|)
  {
    hide Val, Pow;
    var m := |d| - 1;
    TopOne(d);
    PowNext(m);
    MulLe(B, 2 * (d[m] as int), Pow(m));
    assert (2 * (d[m] as int)) * Pow(m) == 2 * (d[m] as int * Pow(m));
  }

  /** Quotient limbs so far, and the window as remainder, of the dividend from limb 'i' on. */
  ghost predicate DividesFrom(a: seq<limb>, i: nat, q: seq<limb>, r: seq<limb>, dv: int)
    requires i <= |a|
  {
    Val(a[i..]) == Val(q) * dv + Val(r) && Val(r) < dv
  }

  lemma {:induction false} DividesNext(a: seq<limb>, i: nat, q: seq<limb>, r: seq<limb>, dv: int, digit: limb,
                                       r': seq<limb>)
    requires i < |a| && DividesFrom(a, i + 1, q, r, dv)
    requires digit * dv + Val(r') == Val([a[i]] + r) && Val(r') < dv
    ensures DividesFrom(a, i, [digit] + q, r', dv)
  {
    hide Val;
    assert a[i..] == [a[i]] + a[i + 1..];
    LowDigit(a[i], a[i + 1..]);
    LowDigit(a[i], r);
    LowDigit(digit, q);
    DigitAlgebra(a[i], Val(r), Val(q), digit, Val(r'), dv, B);
  }

  lemma DigitAlgebra(a: int, r: int, q: int, digit: int, r': int, dv: int, b: int)
    requires digit * dv + r' == a + b * r
    ensures a + b * (q * dv + r) == (digit + b * q) * dv + r'
  {
    assert (digit + b * q) * dv == digit * dv + b * (q * dv);
    assert b * (q * dv + r) == b * (q * dv) + b * r;
  }

  /** A value below B^n stored in n + 1 limbs has a zero on top. */
  lemma {:induction false} TopZero(w: seq<limb>, n: nat, dv: seq<limb>)
    requires |w| == n + 1 && |dv| == n && Val(w) < Val(dv)
    ensures w[n] == 0 && Val(w[..n]) == Val(w)
  {
    hide Val, Pow;
    WindowTop(w, n);
    ValBound(dv);
    if w[n] >= 1 { MulLe(1, w[n], Pow(n)); }
    assert w[n] == 0;
    assert Pow(n) * 0 == 0;
  }

  /**
   Schoolbook division. The quotient has na - nb + 1 limbs with at most 1 on
   top; the remainder replaces the low nb limbs of the dividend.
   */
  method MpDivnormBase(tabq: array<limb>, qo: nat, taba: array<limb>, ao: nat, na: nat,
                       tabb: array<limb>, bo: nat, nb: nat)
    requires 2 <= nb <= na && qo + (na - nb + 1) <= tabq.Length && ao + na <= taba.Length && bo + nb <= tabb.Length
    requires tabq != taba && tabq != tabb && taba != tabb && Normalized(tabb[bo + nb - 1])
    modifies tabq, taba
    ensures Same(tabq[..], old(tabq[..]), qo, na - nb + 1) && Same(taba[..], old(taba[..]), ao, na)
    ensures Val(tabq[qo..qo + (na - nb + 1)]) * Val(tabb[bo..bo + nb]) + Val(taba[ao..ao + nb])
         == Val(old(taba[ao..ao + na]))
    ensures Val(taba[ao..ao + nb]) < Val(tabb[bo..bo + nb]) && tabq[qo + (na - nb)] <= 1
  {
    hide Val, Pow, Same, IsInverse, Normalized, DividesFrom;
    var n := na - nb;
    ghost var x, dv, origA, origQ := taba[ao..ao + na], Val(tabb[bo..bo + nb]), taba[..], tabq[..];
    var b1, b1Inv := tabb[bo + nb - 1], 0;
    if n >= UDIV1NORM_THRESHOLD { b1Inv := Udiv1normInit(b1); }
    assert x[..n] == taba[ao..ao + n];
    var q := FirstLimb(tabq, qo, taba, ao, na, tabb, bo, nb);
    ghost var midA, midQ := taba[..], tabq[..];
    DivRounds(tabq, qo, taba, ao, na, tabb, bo, nb, b1Inv, x);
    SameThen(origA, midA, taba[..], ao, na, ao, na, ao, na);
    SameThen(origQ, midQ, tabq[..], qo, n + 1, qo, n + 1, qo, n + 1);
    DividesAll(x, tabq[qo..qo + n + 1], taba[ao..ao + nb], dv);
  }

  /** The quotient limbs below the top one, from the highest down. */
  method DivRounds(tabq: array<limb>, qo: nat, taba: array<limb>, ao: nat, na: nat, tabb: array<limb>, bo: nat, nb: nat,
                   b1Inv: limb, ghost x: seq<limb>)
    requires 2 <= nb <= na && qo + (na - nb + 1) <= tabq.Length && ao + na <= taba.Length && bo + nb <= tabb.Length
    requires tabq != taba && tabq != tabb && taba != tabb && Normalized(tabb[bo + nb - 1])
    requires b1Inv != 0 ==> IsInverse(B, tabb[bo + nb - 1], b1Inv)
    requires |x| == na && taba[ao..ao + (na - nb)] == x[..na - nb] && tabq[qo + (na - nb)] <= 1
    requires DividesFrom(x, na - nb, tabq[qo + (na - nb)..qo + (na - nb + 1)],
                         taba[ao + (na - nb)..ao + (na - nb) + nb],
                         Val(tabb[bo..bo + nb]))
    modifies tabq, taba
    ensures Same(tabq[..], old(tabq[..]), qo, na - nb + 1) && Same(taba[..], old(taba[..]), ao, na)
    ensures tabq[qo + (na - nb)] <= 1
    ensures DividesFrom(x, 0, tabq[qo..qo + (na - nb + 1)], taba[ao..ao + nb], Val(tabb[bo..bo + nb]))
  {
    hide Val, Pow, Same, IsInverse, Normalized, DividesFrom;
    var n := na - nb;
    ghost var origA, origQ := taba[..], tabq[..];
    SameNone(origA, ao);
    SameWiden(origA, origA, ao, 0, na);
    SameNone(origQ, qo);
    SameWiden(origQ, origQ, qo, 0, n + 1);
    var i: nat := n;
    while i > 0
      invariant 0 <= i <= n && tabq[qo + n] <= 1
      invariant Same(tabq[..], origQ, qo, n + 1) && Same(taba[..], origA, ao, na)
      invariant taba[ao..ao + i] == x[..i]
      invariant DividesFrom(x, i, tabq[qo + i..qo + n + 1], taba[ao + i..ao + i + nb], Val(tabb[bo..bo + nb]))
    {
      i := i - 1;
      ghost var midA, midQ := taba[..], tabq[..];
      DivRound(tabq, qo, taba, ao, na, tabb, bo, nb, b1Inv, i, x);
      SameThen(origA, midA, taba[..], ao, na, ao, na, ao + i, nb + 1);
      SameThen(origQ, midQ, tabq[..], qo, n + 1, qo, n + 1, qo + i, 1);
    }
  }

  /** Quotient limb 'i'. */
  method DivRound(tabq: array<limb>, qo: nat, taba: array<limb>, ao: nat, na: nat, tabb: array<limb>, bo: nat, nb: nat,
                  b1Inv: limb, i: nat, ghost x: seq<limb>)
    requires 2 <= nb && i + nb < na && qo + (na - nb + 1) <= tabq.Length && ao + na <= taba.Length &&
             bo + nb <= tabb.Length
    requires tabq != taba && tabq != tabb && taba != tabb && Normalized(tabb[bo + nb - 1])
    requires b1Inv != 0 ==> IsInverse(B, tabb[bo + nb - 1], b1Inv)
    requires |x| == na && taba[ao..ao + i + 1] == x[..i + 1]
    requires DividesFrom(x, i + 1, tabq[qo + i + 1..qo + (na - nb + 1)], taba[ao + i + 1..ao + i + 1 + nb],
                         Val(tabb[bo..bo + nb]))
    modifies tabq, taba
    ensures Same(tabq[..], old(tabq[..]), qo + i, 1) && Same(taba[..], old(taba[..]), ao + i, nb + 1)
    ensures tabq[qo + (na - nb)] == old(tabq[qo + (na - nb)])
    ensures taba[ao..ao + i] == x[..i]
    ensures DividesFrom(x, i, tabq[qo + i..qo + (na - nb + 1)], taba[ao + i..ao + i + nb], Val(tabb[bo..bo + nb]))
  {
    hide Val, Pow, Same, IsInverse, Normalized, DividesFrom;
    ghost var dv, quo := Val(tabb[bo..bo + nb]), tabq[qo + i + 1..qo + (na - nb + 1)];
    ghost var rem := taba[ao + i + 1..ao + i + 1 + nb];
    ghost var midA, midQ := taba[..], tabq[..];
    WindowBelow(x, i + 1, quo, rem, dv);
    assert taba[ao + i] == taba[ao..ao + i + 1][i] == x[i];
    assert taba[ao + i..ao + i + nb + 1] == [x[i]] + rem;
    var q;
    ghost var rounds;
    q, rounds := DivDigit(taba, ao + i, tabb, bo, nb, b1Inv, b1Inv != 0);
    KeptBelow(taba[..], midA, ao, i, nb + 1, x);
    ghost var win := taba[ao + i..ao + i + nb + 1];
    TopZero(win, nb, tabb[bo..bo + nb]);
    tabq[qo + i] := q;
    SameOne(midQ, qo + i, q);
    assert tabq[..] == midQ[qo + i := q];
    assert tabq[qo + i..qo + (na - nb + 1)] == [q] + quo;
    assert win[..nb] == taba[ao + i..ao + i + nb];
    DividesNext(x, i, quo, rem, dv, q, win[..nb]);
  }

  lemma KeptBelow(s: seq<limb>, t: seq<limb>, at: nat, i: nat, n: nat, x: seq<limb>)
    requires Same(s, t, at + i, n) && at + i < |s| && i < |x| && t[at..at + i + 1] == x[..i + 1]
    ensures s[at..at + i] == x[..i]
  {
    assert t[at..at + i] == t[at..at + i + 1][..i];
    assert x[..i] == x[..i + 1][..i];
  }

  lemma {:induction false} WindowBelow(a: seq<limb>, i: nat, q: seq<limb>, r: seq<limb>, dv: int)
    requires i <= |a| && DividesFrom(a, i, q, r, dv)
    ensures Val(r) < dv
  {
  }

  lemma {:induction false} DividesAll(a: seq<limb>, q: seq<limb>, r: seq<limb>, dv: int)
    requires DividesFrom(a, 0, q, r, dv)
    ensures Val(q) * dv + Val(r) == Val(a) && Val(r) < dv
  {
    assert a[0..] == a;
  }

  method FirstLimb(tabq: array<limb>, qo: nat, taba: array<limb>, ao: nat, na: nat,
                   tabb: array<limb>, bo: nat, nb: nat) returns (q: limb)
    requires 2 <= nb <= na && qo + (na - nb + 1) <= tabq.Length && ao + na <= taba.Length && bo + nb <= tabb.Length
    requires tabq != taba && tabq != tabb && taba != tabb && Normalized(tabb[bo + nb - 1])
    modifies tabq, taba
    ensures Same(tabq[..], old(tabq[..]), qo, na - nb + 1) && Same(taba[..], old(taba[..]), ao, na)
    ensures tabq[qo + (na - nb)] <= 1
    ensures taba[ao..ao + (na - nb)] == old(taba[ao..ao + (na - nb)])
    ensures DividesFrom(old(taba[ao..ao + na]), na - nb, tabq[qo + (na - nb)..qo + (na - nb + 1)],
                        taba[ao + (na - nb)..ao + (na - nb) + nb], Val(tabb[bo..bo + nb]))
  {
    hide Val, Pow, Same, Normalized;
    var n := na - nb;
    ghost var x, d, origA, origQ := taba[ao..ao + na], tabb[bo..bo + nb], taba[..], tabq[..];
    assert x[n..] == taba[ao + n..ao + n + nb];
    q := TopQuotient(taba, ao + n, tabb, bo, nb);
    tabq[qo + n] := q;
    SameOne(origQ, qo + n, q);
    assert tabq[..] == origQ[qo + n := q];
    SameNone(origQ, qo);
    SameWiden(origQ, origQ, qo, 0, n + 1);
    SameThen(origQ, origQ, tabq[..], qo, n + 1, qo, n + 1, qo + n, 1);
    assert tabq[qo + n..qo + n + 1] == [q];
    ValOne(q);
    NormalizedHalf(d);
    ValBound(x[n..]);
    SameNone(origA, ao);
    SameWiden(origA, origA, ao, 0, na);
    if q != 0 {
      var c := MpSub(taba, ao + n, taba, ao + n, tabb, bo, nb, 0);
      SameSlice(taba[..], origA, ao + n, nb, ao, ao + n);
      assert taba[ao..ao + n] == taba[..][ao..ao + n] && old(taba[ao..ao + n]) == origA[ao..ao + n];
      SameThen(origA, origA, taba[..], ao, na, ao, na, ao + n, nb);
      NoBorrow(Val(taba[ao + n..ao + n + nb]), c, Pow(nb), Val(x[n..]), Val(d), taba[ao + n..ao + n + nb]);
    }
  }

  lemma {:induction false} NoBorrow(r: int, c: int, p: int, a: int, d: int, s: seq<limb>)
    requires 0 <= c <= 1 && r - c * p == a - d && a >= d && r == Val(s) && p == Pow(|s|)
    ensures c == 0 && r == a - d
  {
    hide Val, Pow;
    ValBound(s);
    assert 1 * p == p;
  }
}
