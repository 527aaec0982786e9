/**
 The arithmetic of the Newton reciprocal and of division by it, on whole
 numbers. H, L, N = H * L stand for powers of the base.
 */
module Newton {
  import opened Limbs

  /** 'x' approximates p * p / a from below, by less than two units. */
  predicate IsRecip(p: int, a: int, x: int) { a * x < p * p < a * (x + 2) }

  /** Hence it has one limb more than 'a', with a one on top. */
  lemma RecipRange(p: int, a: int, x: int)
    requires IsRecip(p, a, x) && 0 < a < p <= 2 * a
    ensures p <= x < 2 * p
  {
    assert (2 * a) * p == a * (2 * p) && (p - 1) * (p + 1) == p * p - 1;
    MulLe(p, 2 * a, p);
    MulLe(a, p - 1, p + 1);
    if x >= 2 * p {
      MulLe(2 * p, x, a);
    } else if x <= p - 1 {
      MulLe(x + 2, p + 1, a);
    }
  }

  // ---- one refinement ----

  /** The recursive result for the high part is at most two too small for the whole divisor. */
  lemma StartBound(hh: int, l: int, ah: int, al: int, x: int)
    requires hh * hh < ah * (x + 2) && l > 0 && al >= 0 && x >= 0
    ensures (hh * l) * hh < (ah * l + al) * (x + 2)
  {
    MulLe(0, al, x + 2);
    assert (ah * l + al) * (x + 2) == l * (ah * (x + 2)) + al * (x + 2);
    MulLe(hh * hh + 1, ah * (x + 2), l);
    assert (hh * l) * hh == (hh * hh) * l;
  }

  /** While a * x is too large, x - 1 is still at most two too small, and not below H. */
  lemma LowerBound(hh: int, n: int, a: int, x: int)
    requires n * hh <= a * x && 0 < a < n && hh > 0 && x > 0
    ensures n * hh < a * ((x - 1) + 2) && hh <= x - 1
  {
    assert a * (x + 1) == a * x + a;
    assert (n - 1) * hh == n * hh - hh;
    MulLe(a, n - 1, hh);
    if x <= hh { MulLe(x, hh, a); }
  }

  /** The exact error of the refined value, scaled by H * H. */
  lemma RefineIdentity(hh: int, l: int, k: int, n: int, a: int, x: int, t: int, tm: int, t0: int, u: int, q: int,
                       u0: int)
    requires n == hh * l && k * l == hh * hh && t == n * hh - a * x
    requires t == l * tm + t0 && u == tm * x && u == k * q + u0
    ensures (a * (x * l + q)) * (hh * hh) == (n * n) * (hh * hh) - t * t - (a * x) * t0 - (a * u0) * l
  {
    Distribute(a, x, l, q, hh * hh);
    QuotientTerm(a, q, k, l, hh * hh, u, u0);
    ResidualTerm(a, x, l, tm, u, t, t0);
    Cross(hh, l, n, a * x, t);
  }

  lemma Distribute(a: int, x: int, l: int, q: int, s: int)
    ensures (a * (x * l + q)) * s == ((a * x) * l) * s + (a * q) * s
  {
    assert a * (x * l + q) == (a * x) * l + a * q;
  }

  /** What the new digits contribute. */
  lemma QuotientTerm(a: int, q: int, k: int, l: int, s: int, u: int, u0: int)
    requires k * l == s && u == k * q + u0
    ensures (a * q) * s == (a * u) * l - (a * u0) * l
  {
    assert (a * q) * (k * l) == (a * (k * q)) * l;
    assert a * (u - u0) == a * u - a * u0;
    assert (a * u - a * u0) * l == (a * u) * l - (a * u0) * l;
  }

  lemma ResidualTerm(a: int, x: int, l: int, tm: int, u: int, t: int, t0: int)
    requires u == tm * x && t - t0 == l * tm
    ensures (a * u) * l == (a * x) * t - (a * x) * t0
  {
    assert (a * (tm * x)) * l == (a * x) * (l * tm);
    assert (a * x) * (t - t0) == (a * x) * t - (a * x) * t0;
  }

  lemma Cross(hh: int, l: int, n: int, ax: int, t: int)
    requires n == hh * l && t == n * hh - ax
    ensures (ax * l) * (hh * hh) + ax * t == (n * n) * (hh * hh) - t * t
  {
    var nh := n * hh;
    Regroup(ax, l, hh, n);
    DifferenceOfSquares(nh, t, ax);
  }

  lemma Regroup(ax: int, l: int, hh: int, n: int)
    requires n == hh * l
    ensures (ax * l) * (hh * hh) == ax * (n * hh) && (n * n) * (hh * hh) == (n * hh) * (n * hh)
  {
    assert (ax * l) * (hh * hh) == ax * ((hh * l) * hh);
  }

  lemma DifferenceOfSquares(s: int, t: int, d: int)
    requires t == s - d
    ensures d * s + d * t == s * s - t * t
  {
    assert (s - t) * (s + t) == s * s - t * t;
    assert d * (s + t) == d * s + d * t;
  }

  lemma SquareTerm(n: int, a: int, t: int)
    requires 0 < a < n && 0 < t < 2 * a
    ensures 0 < t * t <= a * (4 * n)
  {
    MulLe(1, t, t);
    MulLe(t, 2 * a, t);
    MulLe(t, 2 * n, 2 * a);
    assert (2 * a) * (2 * n) == a * (4 * n);
  }

  lemma MiddleTerm(hh: int, l: int, n: int, a: int, x: int, t0: int)
    requires l > 0 && hh > 0 && n == hh * l && 0 < a && 0 <= x < 2 * hh && 0 <= t0 < l
    ensures 0 <= (a * x) * t0 <= a * (2 * n)
  {
    assert (a * x) * t0 == a * (x * t0);
    MulLe(0, x, t0);
    MulLe(t0, l, x);
    MulLe(x, 2 * hh, l);
    MulLe(0, x * t0, a);
    MulLe(x * t0, 2 * n, a);
  }

  lemma LowTerm(hh: int, l: int, a: int, u0: int)
    requires l > 0 && 0 < a && 0 <= u0 && u0 * l < hh * hh
    ensures 0 <= (a * u0) * l <= a * (hh * hh) - a
  {
    MulLe0(u0, l);
    BelowByOne(a, u0 * l, hh * hh);
    assert (a * u0) * l == a * (u0 * l);
  }

  lemma BelowByOne(a: int, v: int, top: int)
    requires 0 <= v < top && a > 0
    ensures 0 <= a * v <= a * top - a
  {
    MulLe(0, v, a);
    MulLe(v + 1, top, a);
    assert a * (v + 1) == a * v + a;
  }

  /** The error is positive and less than two units. */
  lemma RefineError(hh: int, l: int, n: int, a: int, x: int, t: int, t0: int, u0: int)
    requires l > 0 && hh >= 6 * l && n == hh * l && 0 < a < n && 0 <= x < 2 * hh
    requires 0 < t < 2 * a && 0 <= t0 < l && 0 <= u0 && u0 * l < hh * hh
    ensures 0 < t * t + (a * x) * t0 + (a * u0) * l < (2 * a) * (hh * hh)
  {
    SquareTerm(n, a, t);
    MiddleTerm(hh, l, n, a, x, t0);
    LowTerm(hh, l, a, u0);
    SixLows(hh, l, n, a);
  }

  lemma SixLows(hh: int, l: int, n: int, a: int)
    requires l > 0 && hh >= 6 * l && n == hh * l && 0 < a
    ensures a * (4 * n) + a * (2 * n) + a * (hh * hh) <= (2 * a) * (hh * hh)
  {
    MulLe(6 * l, hh, hh);
    assert (6 * l) * hh == 6 * n;
    MulLe(6 * n, hh * hh, a);
    assert a * (6 * n) == a * (4 * n) + a * (2 * n);
    assert (2 * a) * (hh * hh) == a * (hh * hh) + a * (hh * hh);
  }

  /** Refining: the result for the whole divisor is again at most two too small. */
  lemma Refine(hh: int, l: int, k: int, n: int, a: int, x: int, t: int, tm: int, t0: int, u: int, q: int, u0: int)
    requires l > 0 && hh >= 6 * l && n == hh * l && k * l == hh * hh && 0 < a < n && 0 <= x < 2 * hh
    requires t == n * hh - a * x && 0 < t < 2 * a
    requires t == l * tm + t0 && 0 <= t0 < l && u == tm * x && u == k * q + u0 && 0 <= u0 < k
    ensures IsRecip(n, a, x * l + q)
  {
    hide IsRecip;
    RefineIdentity(hh, l, k, n, a, x, t, tm, t0, u, q, u0);
    LowPart(u0, k, l, hh * hh);
    RefineError(hh, l, n, a, x, t, t0, u0);
    WithinTwo(n, a, x * l + q, hh, t * t + (a * x) * t0 + (a * u0) * l);
  }

  lemma LowPart(u0: int, k: int, l: int, h2: int)
    requires k * l == h2 && 0 <= u0 < k && l > 0
    ensures u0 * l < h2
  {
    MulLe(u0 + 1, k, l);
    assert (u0 + 1) * l == u0 * l + l;
  }

  /** An error below two units, scaled by the square of 'h'. */
  lemma WithinTwo(n: int, a: int, r: int, h: int, err: int)
    requires h > 0 && (a * r) * (h * h) == (n * n) * (h * h) - err && 0 < err < (2 * a) * (h * h)
    ensures IsRecip(n, a, r)
  {
    Positive(h);
    FromScaled(a * r, 2 * a, n * n, h * h, err);
    assert a * (r + 2) == a * r + 2 * a;
  }

  lemma FromScaled(y: int, slack: int, top: int, s: int, err: int)
    requires s > 0 && y * s == top * s - err && 0 < err < slack * s
    ensures y < top < y + slack
  {
    if y >= top { MulLe(top, y, s); }
    assert (y + slack) * s == y * s + slack * s;
    if y + slack <= top { MulLe(y + slack, top, s); }
  }

  lemma Positive(x: int)
    requires x != 0
    ensures x * x > 0
  {
  }

  // ---- dividing by the reciprocal ----

  /**
   The setting of a division of 'a' by 'b' through the inverse 'inv' of 'b1', a
   divisor of as many limbs as the quotient needs: either b with zeros below
   (s = 0) or b cut off and rounded up. All of p, f, m, nb, qq, d, e are powers
   of the base: b < nb, a < nb * qq, inv has precision p, the high part 'at' of
   a stands at e, and the quotient limbs of inv * at at d.
   */
  datatype Setting = Setting(a: int, b: int, b1: int, inv: int, p: int, f: int, m: int, nb: int, qq: int, d: int,
                             e: int, s: int)

  ghost predicate ValidSetting(x: Setting) {
    && x.p >= 1 && x.f >= 1 && x.m >= 1 && x.nb >= 1 && x.qq >= 1 && x.d >= 1 && x.e >= 1 && x.b >= 1 && x.b1 >= 1
    && x.inv >= 0 && 0 <= x.s <= x.f && 0 <= x.a < x.nb * x.qq && x.nb <= 2 * x.b
    && x.b1 * x.f == x.b * x.m + x.s && x.m * x.nb == x.p * x.f && x.d * x.e == x.p * x.nb
    && x.qq <= x.p && (x.s > 0 ==> 16 * x.qq <= x.p) && 4 * x.e <= x.b
    && x.b1 * x.inv <= x.p * x.p < x.b1 * (x.inv + 2)
  }

  lemma Regroup4(q: int, d: int, bf: int, e: int)
    ensures (q * d) * (bf * e) == (q * (d * e)) * bf
  {
  }

  lemma Regroup5(q: int, p: int, nb: int, b: int, m: int, f: int)
    requires m * nb == p * f
    ensures (q * p * nb) * (b * m) == (q * b) * (p * p * f)
  {
    var t := q * b * p;
    assert (q * p * nb) * (b * m) == t * (m * nb);
    assert (q * b) * (p * p * f) == t * (p * f);
  }

  /** Multiples of d, scaled so that the divisor appears. */
  lemma ScaledQuotient(q: int, d: int, e: int, b1: int, f: int, b: int, m: int, s: int, p: int, nb: int)
    requires b1 * f == b * m + s && m * nb == p * f && d * e == p * nb
    ensures (q * d) * (b1 * f * e) == (q * b) * (p * p * f) + (q * p * nb) * s
  {
    var bm, qpn := b * m, q * p * nb;
    Regroup4(q, d, b1 * f, e);
    MulAssoc(q, p, nb);
    assert qpn * (bm + s) == qpn * bm + qpn * s;
    Regroup5(q, p, nb, b, m, f);
  }

  lemma ScaledProduct(x: Setting, at: int)
    ensures (x.inv * at) * (x.b1 * x.f * x.e) == (x.b1 * x.inv) * (at * x.e * x.f)
  {
    assert (x.inv * at) * (x.b1 * x.f * x.e) == x.b1 * (x.inv * at) * (x.f * x.e);
    assert (x.b1 * x.inv) * (at * x.e * x.f) == x.b1 * (x.inv * at) * (x.f * x.e);
  }

  lemma Positive3(x: int, y: int, z: int)
    requires x > 0 && y > 0 && z > 0
    ensures x * y * z > 0
  {
    MulLe(1, x, y);
    MulLe(1, x * y, z);
  }

  /** The quotient by the inverse is never too large. */
  lemma NeverTooLarge(x: Setting, at: int, ae: int, q: int)
    requires ValidSetting(x) && x.a == at * x.e + ae && at >= 0 && 0 <= ae && q >= 0 && q * x.d <= x.inv * at
    ensures q * x.b <= at * x.e <= x.a
  {
    hide ValidSetting;
    ScaledCeiling(x, at, q);
    CancelScale(q * x.b, at * x.e, x.p * x.p * x.f);
  }

  lemma CancelScale(y: int, z: int, c: int)
    requires y * c <= z * c && c > 0
    ensures y <= z
  {
    if y > z { Above(z, y, c); }
  }

  lemma ScaledCeiling(x: Setting, at: int, q: int)
    requires ValidSetting(x) && at >= 0 && q >= 0 && q * x.d <= x.inv * at
    ensures x.p * x.p * x.f > 0 && (q * x.b) * (x.p * x.p * x.f) <= (at * x.e) * (x.p * x.p * x.f)
  {
    Positive3(x.p, x.p, x.f);
    Positive3(x.b1, x.f, x.e);
    MulLe(q * x.d, x.inv * at, x.b1 * x.f * x.e);
    ScaledQuotient(q, x.d, x.e, x.b1, x.f, x.b, x.m, x.s, x.p, x.nb);
    ScaledProduct(x, at);
    Product3(q, x.p, x.nb);
    MulLe0(q * x.p * x.nb, x.s);
    Product3(at, x.e, x.f);
    InverseAbove(x.b1 * x.inv, x.p * x.p, at * x.e, x.f);
  }

  lemma InverseAbove(v: int, pp: int, ate: int, f: int)
    requires v <= pp && ate * f >= 0
    ensures v * (ate * f) <= ate * (pp * f)
  {
    MulLe(v, pp, ate * f);
    assert pp * (ate * f) == ate * (pp * f);
  }

  lemma Product3(x: int, y: int, z: int)
    requires x >= 0 && y >= 0 && z >= 0
    ensures x * y * z >= 0
  {
    MulLe(0, x, y);
    MulLe(0, x * y, z);
  }

  lemma MulLe2(x: int, y: int, u: int, v: int)
    requires 0 <= x <= y && 0 <= u <= v
    ensures 0 <= x * u <= y * v
  {
    MulLe(0, x, u);
    MulLe(x, y, u);
    MulLe(u, v, y);
  }

  lemma SizeAlgebra(q: int, a: int, b: int, nb: int, qq: int)
    requires b >= 1 && 0 <= nb <= 2 * b && qq >= 1 && q >= 0 && q * b <= a < nb * qq
    ensures q < 2 * qq
  {
    MulLe2(nb, 2 * b, qq, qq);
    assert (2 * b) * qq == (2 * qq) * b;
    if q >= 2 * qq { MulLe(2 * qq, q, b); }
  }

  /** q < 2 * qq, so (q + 1) * nb is at most four times b * qq. */
  lemma QuotientSize(q: int, a: int, b: int, nb: int, qq: int)
    requires b >= 1 && 0 <= nb <= 2 * b && qq >= 1 && q >= 0 && q * b <= a < nb * qq
    ensures (q + 1) * nb <= 4 * (b * qq)
  {
    SizeAlgebra(q, a, b, nb, qq);
    MulLe2(q + 1, 2 * qq, nb, 2 * b);
    FourTimes(qq, b);
  }

  lemma FourTimes(x: int, y: int)
    ensures (2 * x) * (2 * y) == 4 * (y * x)
  {
  }

  lemma CostAlgebra(y: int, b: int, p: int, f: int, s: int, qq: int)
    requires 0 <= 4 * y <= 16 * (b * qq) && 16 * qq <= p && b >= 1 && p >= 1 && 0 <= s <= f
    ensures (4 * y) * (p * s) <= b * (p * p * f)
  {
    MulLe(16 * qq, p, b);
    assert b * (16 * qq) == 16 * (b * qq);
    MulLe2(p, p, s, f);
    MulLe2(4 * y, b * p, p * s, p * f);
    Square(b, p, f);
  }

  lemma Square(b: int, p: int, f: int)
    ensures (b * p) * (p * f) == b * (p * p * f)
  {
  }

  /** What rounding the divisor up costs. */
  lemma RoundingCost(q: int, a: int, b: int, nb: int, qq: int, p: int, f: int, s: int)
    requires b >= 1 && 0 <= nb <= 2 * b && qq >= 1 && q >= 0 && q * b <= a < nb * qq && p >= 1 && f >= 1 && 0 <= s <= f
    requires s > 0 ==> 16 * qq <= p
    ensures 4 * (((q + 1) * p * nb) * s) <= b * (p * p * f)
  {
    if s == 0 {
      Product3(p, p, f);
      MulLe(0, p * p * f, b);
    } else {
      QuotientSize(q, a, b, nb, qq);
      MulLe(0, q + 1, nb);
      CostAlgebra((q + 1) * nb, b, p, f, s, qq);
      assert (4 * ((q + 1) * nb)) * (p * s) == 4 * (((q + 1) * p * nb) * s);
    }
  }

  /** What the inverse being up to two too small costs: the high part of the dividend, twice. */
  lemma InverseCost(b: int, m: int, ate: int, nb: int, qq: int, p: int, f: int)
    requires b >= 1 && m >= 1 && 0 <= ate <= nb * qq && m * nb == p * f && 0 <= qq <= p && p >= 1 && f >= 1
    ensures b * m * ate <= b * (p * p * f)
  {
    MulLe(1, b, m);
    MulLe2(b * m, b * m, ate, nb * qq);
    assert (b * m) * (nb * qq) == (b * qq) * (m * nb);
    MulLe2(b, b, qq, p);
    MulLe(1, p, f);
    MulLe2(b * qq, b * p, p * f, p * f);
    Square(b, p, f);
  }

  lemma RemainderCost(b: int, s: int, ate: int, nb: int, qq: int, p: int, f: int)
    requires b >= 1 && 0 <= s <= f && 0 <= ate <= nb * qq && nb <= 2 * b && nb >= 0 && 0 <= 16 * qq <= p && p >= 1
    ensures 8 * (s * ate) <= b * (p * p * f)
  {
    MulLe2(nb, 2 * b, qq, qq);
    MulLe2(s, f, ate, (2 * b) * qq);
    RemainderAlgebra(b, qq, f);
    MulLe2(b, b, 0, f);
    MulLe2(b * f, b * f, 16 * qq, p);
    MulLe2((b * f) * (16 * qq), (b * f) * p, 1, p);
    Square2(b, f, p);
  }

  lemma RemainderAlgebra(b: int, qq: int, f: int)
    ensures 8 * (f * ((2 * b) * qq)) == (b * f) * (16 * qq)
  {
  }

  lemma Square2(b: int, f: int, p: int)
    ensures ((b * f) * p) * p == b * (p * p * f)
  {
  }

  lemma NoRemainderCost(b: int, s: int, ate: int, p: int, f: int)
    requires b >= 1 && p >= 1 && f >= 1 && s == 0
    ensures 8 * (s * ate) <= b * (p * p * f)
  {
    Product3(p, p, f);
    MulLe(0, p * p * f, b);
  }

  lemma LowAlgebra(z: int, ate: int, b1f: int, bm: int, s: int, pp: int, b1: int, f: int)
    requires b1f == b1 * f && b1f == bm + s && z == (pp - 2 * b1) * (ate * f)
    ensures z == ate * (pp * f) - 2 * (bm * ate) - 2 * (s * ate)
  {
    assert (pp - 2 * b1) * (ate * f) == ate * (pp * f) - 2 * (ate * (b1 * f));
    assert ate * (bm + s) == bm * ate + s * ate;
  }

  /** The quotient by the inverse is at most three too small. */
  lemma AtMostThreeTooSmall(x: Setting, at: int, ae: int, q: int)
    requires ValidSetting(x) && x.a == at * x.e + ae && at >= 0 && 0 <= ae < x.e && q >= 0
    requires q * x.d <= x.inv * at < (q + 1) * x.d
    ensures x.a < (q + 4) * x.b
  {
    hide ValidSetting;
    NeverTooLarge(x, at, ae, q);
    MulLe0(at, x.e);
    Costs(x, at * x.e, ae, q);
    ScaledBound(x, at, q);
    CombineCosts(x.b, at * x.e, x.p * x.p * x.f, q, ((q + 1) * x.p * x.nb) * x.s, x.b * x.m * (at * x.e),
                 x.s * (at * x.e), ae);
  }

  lemma MulLe0(x: int, y: int)
    requires x >= 0 && y >= 0
    ensures x * y >= 0
  {
  }

  /** What each of the three roundings costs at most, in units of b at the scale p * p * f. */
  lemma Costs(x: Setting, ate: int, ae: int, q: int)
    requires ValidSetting(x) && q >= 0 && q * x.b <= x.a && 0 <= ate <= x.a && ae < x.e
    ensures x.b >= 1 && x.p * x.p * x.f > 0 && 4 * ae <= x.b
    ensures 4 * (((q + 1) * x.p * x.nb) * x.s) <= x.b * (x.p * x.p * x.f)
    ensures x.b * x.m * ate <= x.b * (x.p * x.p * x.f) && 8 * (x.s * ate) <= x.b * (x.p * x.p * x.f)
  {
    RoundingCost(q, x.a, x.b, x.nb, x.qq, x.p, x.f, x.s);
    InverseCost(x.b, x.m, ate, x.nb, x.qq, x.p, x.f);
    if x.s > 0 {
      RemainderCost(x.b, x.s, ate, x.nb, x.qq, x.p, x.f);
    } else {
      NoRemainderCost(x.b, x.s, ate, x.p, x.f);
    }
    Positive3(x.p, x.p, x.f);
  }

  /** The next quotient is above the exact one less what the roundings cost. */
  lemma ScaledBound(x: Setting, at: int, q: int)
    requires ValidSetting(x) && at >= 0 && x.inv * at < (q + 1) * x.d
    ensures var c, ate := x.p * x.p * x.f, at * x.e;
            ate * c - 2 * (x.b * x.m * ate) - 2 * (x.s * ate) < ((q + 1) * x.b) * c + ((q + 1) * x.p * x.nb) * x.s
  {
    Positive3(x.b1, x.f, x.e);
    Above(x.inv * at, (q + 1) * x.d, x.b1 * x.f * x.e);
    ScaledQuotient(q + 1, x.d, x.e, x.b1, x.f, x.b, x.m, x.s, x.p, x.nb);
    ScaledProduct(x, at);
    InverseBelow(x.b1, x.inv, x.p * x.p, at * x.e, x.f, x.b * x.m, x.s);
  }

  lemma Above(x: int, y: int, k: int)
    requires x < y && k > 0
    ensures x * k < y * k
  {
    MulLe(x + 1, y, k);
    assert (x + 1) * k == x * k + k;
  }

  lemma InverseBelow(b1: int, inv: int, pp: int, ate: int, f: int, bm: int, s: int)
    requires pp < b1 * (inv + 2) && ate >= 0 && f >= 0 && b1 * f == bm + s
    ensures ate * (pp * f) - 2 * (bm * ate) - 2 * (s * ate) <= (b1 * inv) * (ate * f)
  {
    assert b1 * (inv + 2) == b1 * inv + 2 * b1;
    MulLe0(ate, f);
    MulLe(pp - 2 * b1, b1 * inv, ate * f);
    LowAlgebra((pp - 2 * b1) * (ate * f), ate, b1 * f, bm, s, pp, b1, f);
  }

  lemma CombineCosts(b: int, ate: int, c: int, q: int, t1: int, t2: int, t3: int, ae: int)
    requires c > 0 && b >= 1 && 4 * ae <= b
    requires ate * c - 2 * t2 - 2 * t3 < ((q + 1) * b) * c + t1
    requires 4 * t1 <= b * c && t2 <= b * c && 8 * t3 <= b * c
    ensures ate + ae < (q + 4) * b
  {
    assert ((q + 1) * b) * c == (q * b) * c + b * c;
    CancelQuarters(ate, q * b, b, c);
    assert (q + 4) * b == q * b + 4 * b;
  }

  lemma CancelQuarters(ate: int, qb: int, b: int, c: int)
    requires 4 * (ate * c) < 4 * (qb * c) + 14 * (b * c) && c > 0
    ensures 4 * ate < 4 * qb + 14 * b
  {
    var y := 4 * qb + 14 * b;
    assert (4 * ate) * c == 4 * (ate * c) && y * c == 4 * (qb * c) + 14 * (b * c);
    if 4 * ate >= y { MulLe(y, 4 * ate, c); }
  }
}
