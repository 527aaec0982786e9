/**
 Numbers in base 2^64, least significant limb first, and what the carry loops
 over them compute.
 */
module Limbs {

  const B: int := 0x1_0000_0000_0000_0000

  type limb = x: int | 0 <= x < 0x1_0000_0000_0000_0000

  /** B to the power 'n'. */
  function Pow(n: nat): (p: int)
    ensures p >= 1
  {
    if n == 0 then 1 else B * Pow(n - 1)
  }

  function Val(s: seq<limb>): (v: int)
    ensures v >= 0
  {
    if s == [] then 0 else s[0] + B * Val(s[1..])
  }

  lemma MulAssoc(x: int, y: int, z: int)
    ensures x * (y * z) == (x * y) * z
  {
  }

  lemma {:induction false} PowAdd(m: nat, n: nat)
    ensures Pow(m + n) == Pow(m) * Pow(n)
    decreases m
  {
    if m > 0 {
      PowAdd(m - 1, n);
      MulAssoc(B, Pow(m - 1), Pow(n));
    }
  }

  lemma {:induction false} ValBound(s: seq<limb>)
    ensures Val(s) < Pow(|s|)
  {
    if s != [] { ValBound(s[1..]); }
  }

  lemma {:induction false} ValConcat(a: seq<limb>, b: seq<limb>)
    ensures Val(a + b) == Val(a) + Pow(|a|) * Val(b)
  {
    if a == [] {
      assert a + b == b;
    } else {
      assert (a + b)[1..] == a[1..] + b && (a + b)[0] == a[0];
      ValConcat(a[1..], b);
      MulAssoc(B, Pow(|a| - 1), Val(b));
    }
  }

  lemma {:induction false} ValOne(x: limb)
    ensures Val([x]) == x
  {
    assert [x][1..] == [];
  }

  /** One more limb at the top. */
  lemma {:induction false} ValSnoc(s: seq<limb>, x: limb)
    ensures Val(s + [x]) == Val(s) + Pow(|s|) * x
  {
    ValConcat(s, [x]);
    ValOne(x);
  }

  lemma {:induction false} ValPrefix(s: seq<limb>, i: nat)
    requires i < |s|
    ensures Val(s[..i + 1]) == Val(s[..i]) + Pow(i) * s[i] && Pow(i + 1) == B * Pow(i)
  {
    assert s[..i + 1] == s[..i] + [s[i]];
    ValSnoc(s[..i], s[i]);
  }

  lemma {:induction false} ValSplit(s: seq<limb>, i: nat)
    requires i <= |s|
    ensures Val(s) == Val(s[..i]) + Pow(i) * Val(s[i..])
  {
    assert s == s[..i] + s[i..];
    ValConcat(s[..i], s[i..]);
  }

  /** The step of every carry loop: digit 'a' and carry 'k1' take in the column 'd' and the carry 'k'. */
  lemma {:induction false} NextDigit(was: seq<limb>, a: limb, k: int, k1: int, d: int, t: int)
    requires Val(was) + k * Pow(|was|) == t && a + k1 * B == d + k
    ensures Val(was + [a]) + k1 * Pow(|was| + 1) == t + Pow(|was|) * d
  {
    hide Val;
    var p := Pow(|was|);
    ValSnoc(was, a);
    assert Pow(|was| + 1) == B * p;
    assert p * (a + k1 * B) == p * (d + k);
    assert p * (a + k1 * B) == p * a + k1 * (B * p);
    assert p * (d + k) == p * d + k * p;
  }

  lemma {:induction false} SumPrefix(x: seq<limb>, y: seq<limb>, i: nat)
    requires i < |x| && i < |y|
    ensures Val(x[..i + 1]) + Val(y[..i + 1]) == Val(x[..i]) + Val(y[..i]) + Pow(i) * (x[i] as int + y[i])
    ensures Val(x[..i + 1]) - Val(y[..i + 1]) == Val(x[..i]) - Val(y[..i]) + Pow(i) * (x[i] as int - y[i])
  {
    hide Val;
    ValPrefix(x, i);
    ValPrefix(y, i);
    assert Pow(i) * (x[i] as int + y[i]) == Pow(i) * x[i] + Pow(i) * y[i];
    assert Pow(i) * (x[i] as int - y[i]) == Pow(i) * x[i] - Pow(i) * y[i];
  }

  /** 's' and 't' differ at most in the 'n' limbs from 'at' on. */
  ghost predicate Same(s: seq<limb>, t: seq<limb>, at: nat, n: nat) {
    |s| == |t| && forall i :: 0 <= i < |s| && !(at <= i < at + n) ==> s[i] == t[i]
  }

  lemma SameSlice(s: seq<limb>, t: seq<limb>, at: nat, n: nat, lo: nat, hi: nat)
    requires Same(s, t, at, n) && lo <= hi <= |s| && (hi <= at || at + n <= lo)
    ensures s[lo..hi] == t[lo..hi]
  {
  }

  lemma SubSlice(t: seq<limb>, lo: nat, hi: nat, i: nat, j: nat)
    requires lo <= hi <= |t| && i <= j <= hi - lo
    ensures t[lo..hi][i..j] == t[lo + i..lo + j]
  {
    var x, y := t[lo..hi][i..j], t[lo + i..lo + j];
    assert |x| == |y|;
    forall k | 0 <= k < |x| ensures x[k] == y[k] {
      assert x[k] == t[lo..hi][i + k] == t[lo + (i + k)];
    }
  }

  lemma SliceCut(a: array<limb>, lo: nat, hi: nat, m: nat)
    requires lo + m <= hi <= a.Length
    ensures a[lo..hi][..m] == a[lo..lo + m] && a[lo..hi][m..] == a[lo + m..hi]
  {
  }

  lemma SameNone(s: seq<limb>, at: nat)
    ensures Same(s, s, at, 0)
  {
  }

  lemma SameWiden(s: seq<limb>, t: seq<limb>, at: nat, i: nat, n: nat)
    requires Same(t, s, at, i) && i <= n
    ensures Same(t, s, at, n)
  {
  }

  lemma SameGrow(s: seq<limb>, t: seq<limb>, at: nat, i: nat, a: limb)
    requires Same(t, s, at, i) && at + i < |t|
    ensures Same(t[at + i := a], s, at, i + 1)
  {
  }

  lemma SameGrowDown(s: seq<limb>, t: seq<limb>, at: nat, n: nat, a: limb)
    requires Same(t, s, at + 1, n) && at < |t|
    ensures Same(t[at := a], s, at, n + 1)
  {
  }

  /** Changes inside a larger stretch. */
  lemma SameThen(s: seq<limb>, t: seq<limb>, u: seq<limb>, at: nat, n: nat, at1: nat, n1: nat, at2: nat, n2: nat)
    requires Same(t, s, at1, n1) && Same(u, t, at2, n2)
    requires at <= at1 && at1 + n1 <= at + n && at <= at2 && at2 + n2 <= at + n
    ensures Same(u, s, at, n)
  {
  }

  // ---- one column ----

  /** Wrap-around addition; the carry shows in the comparison. */
  method AddDigit(v: limb, w: limb, k: limb) returns (a: limb, k': limb)
    requires k <= 1
    ensures k' <= 1 && a + k' * B == v + w + k
  {
    a := (v + w) % B;
    var k1 := if a < v then 1 else 0;
    a := (a + k) % B;
    k' := if a < k || k1 == 1 then 1 else 0;
  }

  method SubDigit(v: limb, w: limb, k: limb) returns (a: limb, k': limb)
    requires k <= 1
    ensures k' <= 1 && a - k' * B == v - w - k
  {
    var d: limb := (v - w) % B;
    var k1 := if d > v then 1 else 0;
    a := (d - k) % B;
    k' := if a > d || k1 == 1 then 1 else 0;
  }

  method AddUiDigit(v: limb, k: limb) returns (a: limb, k': limb)
    ensures k' <= 1 && a + k' * B == v + k
  {
    a := (v + k) % B;
    k' := if a < k then 1 else 0;
  }

  method SubUiDigit(v: limb, k: limb) returns (a: limb, k': limb)
    ensures k' <= 1 && a - k' * B == v - k
  {
    a := (v - k) % B;
    k' := if a > v then 1 else 0;
  }

  // ---- addition and subtraction ----

  method MpAdd(res: array<limb>, ro: nat, op1: array<limb>, o1: nat, op2: array<limb>, o2: nat, n: nat, carry: limb)
    returns (k: limb)
    requires ro + n <= res.Length && o1 + n <= op1.Length && o2 + n <= op2.Length && carry <= 1
    requires (res == op1 ==> ro <= o1) && (res == op2 ==> ro <= o2)
    modifies res
    ensures k <= 1 && Same(res[..], old(res[..]), ro, n)
    ensures Val(res[ro..ro + n]) + k * Pow(n) == Val(old(op1[o1..o1 + n])) + Val(old(op2[o2..o2 + n])) + carry
  {
    hide Val, Pow, Same;
    ghost var orig := res[..];
    SameNone(orig, ro);
    k := carry;
    ghost var x, y := op1[o1..o1 + n], op2[o2..o2 + n];
    NoDigits(res[ro..ro], x[..0], y[..0]);
    var i: nat := 0;
    while i < n
      invariant i <= n && k <= 1 && Same(res[..], orig, ro, i)
      invariant forall j :: i <= j < n ==> op1[o1 + j] == x[j]
      invariant forall j :: i <= j < n ==> op2[o2 + j] == y[j]
      invariant Val(res[ro..ro + i]) + k * Pow(i) == Val(x[..i]) + Val(y[..i]) + carry
    {
      ghost var k0, was := k, res[ro..ro + i];
      var a;
      a, k := AddDigit(op1[o1 + i], op2[o2 + i], k);
      SameGrow(orig, res[..], ro, i, a);
      res[ro + i] := a;
      assert res[ro..ro + i + 1] == was + [a];
      NextDigit(was, a, k0, k, x[i] as int + y[i], Val(x[..i]) + Val(y[..i]) + carry);
      SumPrefix(x, y, i);
      i := i + 1;
    }
    assert x[..n] == x && y[..n] == y;
  }

  lemma {:induction false} NoDigits(a: seq<limb>, x: seq<limb>, y: seq<limb>)
    ensures a == [] ==> Val(a) == 0
    ensures x == [] ==> Val(x) == 0
    ensures y == [] ==> Val(y) == 0
    ensures Pow(0) == 1 && Pow(1) == B
  {
    assert Pow(1) == B * Pow(0);
  }

  method MpSub(res: array<limb>, ro: nat, op1: array<limb>, o1: nat, op2: array<limb>, o2: nat, n: nat, carry: limb)
    returns (k: limb)
    requires ro + n <= res.Length && o1 + n <= op1.Length && o2 + n <= op2.Length && carry <= 1
    requires (res == op1 ==> ro <= o1) && (res == op2 ==> ro <= o2)
    modifies res
    ensures k <= 1 && Same(res[..], old(res[..]), ro, n)
    ensures Val(res[ro..ro + n]) - k * Pow(n) == Val(old(op1[o1..o1 + n])) - Val(old(op2[o2..o2 + n])) - carry
  {
    hide Val, Pow, Same;
    ghost var orig := res[..];
    SameNone(orig, ro);
    k := carry;
    ghost var x, y := op1[o1..o1 + n], op2[o2..o2 + n];
    NoDigits(res[ro..ro], x[..0], y[..0]);
    var i: nat := 0;
    while i < n
      invariant i <= n && k <= 1 && Same(res[..], orig, ro, i)
      invariant forall j :: i <= j < n ==> op1[o1 + j] == x[j]
      invariant forall j :: i <= j < n ==> op2[o2 + j] == y[j]
      invariant Val(res[ro..ro + i]) - k * Pow(i) == Val(x[..i]) - Val(y[..i]) - carry
    {
      ghost var k0, was := k, res[ro..ro + i];
      var a;
      a, k := SubDigit(op1[o1 + i], op2[o2 + i], k);
      SameGrow(orig, res[..], ro, i, a);
      res[ro + i] := a;
      assert res[ro..ro + i + 1] == was + [a];
      NextDigit(was, a, -(k0 as int), -(k as int), x[i] as int - y[i], Val(x[..i]) - Val(y[..i]) - carry);
      SumPrefix(x, y, i);
      i := i + 1;
    }
    assert x[..n] == x && y[..n] == y;
  }

  /** 0 - op2. */
  method MpNeg(res: array<limb>, ro: nat, op2: array<limb>, o2: nat, n: nat, carry: limb) returns (k: limb)
    requires ro + n <= res.Length && o2 + n <= op2.Length && carry <= 1
    requires res == op2 ==> ro <= o2
    modifies res
    ensures k <= 1 && Same(res[..], old(res[..]), ro, n)
    ensures Val(res[ro..ro + n]) - k * Pow(n) == -Val(old(op2[o2..o2 + n])) - carry
  {
    hide Val, Pow, Same;
    ghost var orig := res[..];
    SameNone(orig, ro);
    k := carry;
    ghost var y := op2[o2..o2 + n];
    NoDigits(res[ro..ro], [], y[..0]);
    var i: nat := 0;
    while i < n
      invariant i <= n && k <= 1 && Same(res[..], orig, ro, i)
      invariant forall j :: i <= j < n ==> op2[o2 + j] == y[j]
      invariant Val(res[ro..ro + i]) - k * Pow(i) == -Val(y[..i]) - carry
    {
      ghost var k0, was := k, res[ro..ro + i];
      var a;
      a, k := SubDigit(0, op2[o2 + i], k);
      SameGrow(orig, res[..], ro, i, a);
      res[ro + i] := a;
      assert res[ro..ro + i + 1] == was + [a];
      NextDigit(was, a, -(k0 as int), -(k as int), -(y[i] as int), -Val(y[..i]) - carry);
      NegPrefix(y, i);
      i := i + 1;
    }
    assert y[..n] == y;
  }

  lemma {:induction false} NegPrefix(y: seq<limb>, i: nat)
    requires i < |y|
    ensures -Val(y[..i + 1]) == -Val(y[..i]) + Pow(i) * -(y[i] as int)
  {
    hide Val;
    ValPrefix(y, i);
    assert Pow(i) * -(y[i] as int) == -(Pow(i) * y[i]);
  }

  /** A prefix was replaced and what follows it was not touched. */
  lemma {:induction false} PrefixReplaced(now: seq<limb>, was: seq<limb>, i: nat, d: int)
    requires |now| == |was| && i <= |now| && now[i..] == was[i..] && Val(now[..i]) == Val(was[..i]) + d
    ensures Val(now) == Val(was) + d
  {
    hide Val;
    ValSplit(now, i);
    ValSplit(was, i);
  }

  /** The carry has died out: the limbs above are as they were. */
  lemma {:induction false} EarlyExit(orig: seq<limb>, s: seq<limb>, o: nat, x: seq<limb>, i: nat, d: int)
    requires o + |x| <= |s| && i <= |x| && Same(s, orig, o, i) && (forall j :: i <= j < |x| ==> s[o + j] == x[j])
    requires Val(s[o..o + i]) == Val(x[..i]) + d
    ensures Same(s, orig, o, |x|) && Val(s[o..o + |x|]) == Val(x) + d
  {
    hide Val;
    var now := s[o..o + |x|];
    assert now[..i] == s[o..o + i] && now[i..] == x[i..];
    PrefixReplaced(now, x, i, d);
  }

  /** Adds one limb; stops as soon as there is no carry. */
  method MpAddUi(tab: array<limb>, o: nat, b: limb, n: nat) returns (k: limb)
    requires o + n <= tab.Length
    modifies tab
    ensures (n > 0 ==> k <= 1) && Same(tab[..], old(tab[..]), o, n)
    ensures Val(tab[o..o + n]) + k * Pow(n) == Val(old(tab[o..o + n])) + b
  {
    hide Val, Pow, Same;
    ghost var orig := tab[..];
    SameNone(orig, o);
    k := b;
    ghost var x := tab[o..o + n];
    NoDigits(tab[o..o], x[..0], []);
    var i: nat := 0;
    while i < n
      invariant i <= n && (i > 0 ==> k <= 1) && Same(tab[..], orig, o, i)
      invariant forall j :: i <= j < n ==> tab[o + j] == x[j]
      invariant Val(tab[o..o + i]) + k * Pow(i) == Val(x[..i]) + b
    {
      if k == 0 {
        EarlyExit(orig, tab[..], o, x, i, b);
        return;
      }
      ghost var k0, was := k, tab[o..o + i];
      var a;
      a, k := AddUiDigit(tab[o + i], k);
      SameGrow(orig, tab[..], o, i, a);
      tab[o + i] := a;
      assert tab[o..o + i + 1] == was + [a];
      NextDigit(was, a, k0, k, x[i], Val(x[..i]) + b);
      ValPrefix(x, i);
      i := i + 1;
    }
    assert x[..n] == x;
  }

  /** Subtracts one limb; stops as soon as there is no borrow. */
  method MpSubUi(tab: array<limb>, o: nat, b: limb, n: nat) returns (k: limb)
    requires o + n <= tab.Length
    modifies tab
    ensures (n > 0 ==> k <= 1) && (n == 0 ==> k == b) && Same(tab[..], old(tab[..]), o, n)
    ensures Val(tab[o..o + n]) - k * Pow(n) == Val(old(tab[o..o + n])) - b
  {
    hide Val, Pow, Same;
    ghost var orig := tab[..];
    SameNone(orig, o);
    k := b;
    ghost var x := tab[o..o + n];
    NoDigits(tab[o..o], x[..0], []);
    var i: nat := 0;
    while i < n
      invariant i <= n && (i > 0 ==> k <= 1) && (i == 0 ==> k == b) && Same(tab[..], orig, o, i)
      invariant forall j :: i <= j < n ==> tab[o + j] == x[j]
      invariant Val(tab[o..o + i]) - k * Pow(i) == Val(x[..i]) - b
    {
      ghost var k0, was := k, tab[o..o + i];
      var a;
      a, k := SubUiDigit(tab[o + i], k);
      SameGrow(orig, tab[..], o, i, a);
      tab[o + i] := a;
      assert tab[o..o + i + 1] == was + [a];
      NextDigit(was, a, -(k0 as int), -(k as int), x[i], Val(x[..i]) - b);
      ValPrefix(x, i);
      i := i + 1;
      if k == 0 {
        EarlyExit(orig, tab[..], o, x, i, -(b as int));
        return;
      }
    }
    assert x[..n] == x;
  }

  // ---- multiplication by one limb ----

  lemma ProductBound(x: int, y: int, b: int)
    requires 0 <= x < b && 0 <= y < b
    ensures 0 <= x * y <= b * b - 2 * b + 1
  {
    MulLe(x, b - 1, y);
    MulLe(y, b - 1, b - 1);
    assert (b - 1) * (b - 1) == b * b - 2 * b + 1;
  }

  lemma TwoLimbs(t: int, b: int)
    requires b > 0 && 0 <= t < b * b
    ensures 0 <= t / b < b && t == b * (t / b) + t % b
  {
    QuotientBelow(t, b, b);
  }

  lemma MulLe(x: int, y: int, z: int)
    requires x <= y && z >= 0
    ensures x * z <= y * z && z * x <= z * y
  {
    assert (y - x) * z >= 0;
  }

  lemma {:induction false} ScaledPrefix(x: seq<limb>, i: nat, b: int)
    requires i < |x|
    ensures Val(x[..i + 1]) * b == Val(x[..i]) * b + Pow(i) * (x[i] * b)
  {
    hide Val;
    ValPrefix(x, i);
    assert (Pow(i) * x[i]) * b == Pow(i) * (x[i] * b);
  }

  /** A product of two limbs has room for two more limbs. */
  method AddMulDigit(x: limb, y: limb, l: limb, r: limb) returns (digit: limb, l': limb)
    ensures digit + l' * B == x * y + l + r
  {
    var t: int := x as int * y + l + r;
    ProductBound(x, y, B);
    TwoLimbs(t, B);
    digit, l' := t % B, t / B;
  }

  /** The limbs 's' with 'h' on top are the product of as many limbs of x by b, plus l. */
  ghost predicate IsProduct(s: seq<limb>, h: int, x: seq<limb>, b: int, l: int) {
    |s| <= |x| && Val(s) + h * Pow(|s|) == Val(x[..|s|]) * b + l
  }

  lemma {:induction false} ProductStart(x: seq<limb>, b: int, l: int)
    ensures IsProduct([], l, x, b, l)
  {
    assert x[..0] == [] && Val([]) == 0 && Pow(0) == 1 && 0 * b == 0;
  }

  lemma {:induction false} MulColumn(was: seq<limb>, digit: limb, h0: int, h1: int, x: seq<limb>, b: int, l: int)
    requires IsProduct(was, h0, x, b, l) && |was| < |x| && digit + h1 * B == x[|was|] * b + h0
    ensures IsProduct(was + [digit], h1, x, b, l)
  {
    hide Val, Pow;
    NextDigit(was, digit, h0, h1, x[|was|] * b, Val(x[..|was|]) * b + l);
    ScaledPrefix(x, |was|, b);
  }

  lemma ProductEnd(s: seq<limb>, h: int, x: seq<limb>, b: int, l: int)
    requires IsProduct(s, h, x, b, l) && |s| == |x|
    ensures Val(s) + h * Pow(|s|) == Val(x) * b + l
  {
    assert x[..|s|] == x;
  }

  /** The same added to as many limbs of y. */
  ghost predicate IsAccumulated(s: seq<limb>, h: int, x: seq<limb>, b: int, y: seq<limb>) {
    |s| <= |x| == |y| && Val(s) + h * Pow(|s|) == Val(y[..|s|]) + Val(x[..|s|]) * b
  }

  lemma {:induction false} AccumulateStart(x: seq<limb>, b: int, y: seq<limb>)
    requires |x| == |y|
    ensures IsAccumulated([], 0, x, b, y)
  {
    assert x[..0] == [] && y[..0] == [] && Val([]) == 0 && 0 * b == 0;
  }

  lemma {:induction false} AddMulColumn(was: seq<limb>, digit: limb, h0: int, h1: int, x: seq<limb>, b: int,
                                        y: seq<limb>)
    requires IsAccumulated(was, h0, x, b, y) && |was| < |x| && digit + h1 * B == x[|was|] * b + h0 + y[|was|]
    ensures IsAccumulated(was + [digit], h1, x, b, y)
  {
    hide Val, Pow;
    var i := |was|;
    NextDigit(was, digit, h0, h1, x[i] * b + y[i], Val(y[..i]) + Val(x[..i]) * b);
    ScaledPrefix(x, i, b);
    ValPrefix(y, i);
    assert Pow(i) * (x[i] * b + y[i]) == Pow(i) * (x[i] * b) + Pow(i) * y[i];
  }

  lemma AccumulateEnd(s: seq<limb>, h: int, x: seq<limb>, b: int, y: seq<limb>)
    requires IsAccumulated(s, h, x, b, y) && |s| == |x|
    ensures Val(s) + h * Pow(|s|) == Val(y) + Val(x) * b
  {
    assert x[..|s|] == x && y[..|s|] == y;
  }

  method MpMul1(tabr: array<limb>, ro: nat, taba: array<limb>, ao: nat, n: nat, b: limb, l: limb) returns (h: limb)
    requires ro + n <= tabr.Length && ao + n <= taba.Length && (tabr == taba ==> ro <= ao)
    modifies tabr
    ensures Same(tabr[..], old(tabr[..]), ro, n)
    ensures Val(tabr[ro..ro + n]) + h * Pow(n) == Val(old(taba[ao..ao + n])) * b + l
  {
    hide Val, Pow, Same, IsProduct;
    ghost var orig := tabr[..];
    SameNone(orig, ro);
    h := l;
    ghost var x := taba[ao..ao + n];
    ProductStart(x, b, l);
    assert tabr[ro..ro] == [];
    var i: nat := 0;
    while i < n
      invariant i <= n && Same(tabr[..], orig, ro, i)
      invariant forall j :: i <= j < n ==> taba[ao + j] == x[j]
      invariant IsProduct(tabr[ro..ro + i], h, x, b, l)
    {
      ghost var h0, was := h, tabr[ro..ro + i];
      var digit;
      digit, h := AddMulDigit(taba[ao + i], b, h, 0);
      SameGrow(orig, tabr[..], ro, i, digit);
      tabr[ro + i] := digit;
      assert tabr[ro..ro + i + 1] == was + [digit];
      MulColumn(was, digit, h0, h, x, b, l);
      i := i + 1;
    }
    ProductEnd(tabr[ro..ro + n], h, x, b, l);
  }

  /** tabr += taba * b; returns the high word. */
  method MpAddMul1(tabr: array<limb>, ro: nat, taba: array<limb>, ao: nat, n: nat, b: limb) returns (l: limb)
    requires ro + n <= tabr.Length && ao + n <= taba.Length && tabr != taba
    modifies tabr
    ensures Same(tabr[..], old(tabr[..]), ro, n)
    ensures Val(tabr[ro..ro + n]) + l * Pow(n) == Val(old(tabr[ro..ro + n])) + Val(taba[ao..ao + n]) * b
  {
    hide Val, Pow, Same, IsAccumulated;
    ghost var orig := tabr[..];
    SameNone(orig, ro);
    l := 0;
    ghost var x, y := taba[ao..ao + n], tabr[ro..ro + n];
    AccumulateStart(x, b, y);
    assert tabr[ro..ro] == [];
    var i: nat := 0;
    while i < n
      invariant i <= n && Same(tabr[..], orig, ro, i)
      invariant forall j :: i <= j < n ==> tabr[ro + j] == y[j]
      invariant IsAccumulated(tabr[ro..ro + i], l, x, b, y)
    {
      ghost var l0, was := l, tabr[ro..ro + i];
      var digit;
      digit, l := AddMulDigit(taba[ao + i], b, l, tabr[ro + i]);
      SameGrow(orig, tabr[..], ro, i, digit);
      tabr[ro + i] := digit;
      assert tabr[ro..ro + i + 1] == was + [digit];
      AddMulColumn(was, digit, l0, l, x, b, y);
      i := i + 1;
    }
    AccumulateEnd(tabr[ro..ro + n], l, x, b, y);
  }

  /** One column of a multiply-and-subtract in wrap-around double-limb arithmetic. */
  method SubMulDigit(r: limb, a: limb, b: limb, l: limb) returns (digit: limb, l': limb)
    ensures digit - l' * B == r - a * b - l
  {
    ProductBound(a, b, B);
    ghost var x: int := r as int - a as int * b - l;
    Wrapped(x, B);
    var t: int := (r as int - a as int * b - l) % (B * B);
    digit := t % B;
    l' := (-(t / B)) % B;
  }

  /** The high half of a wrapped negative number, negated, is what has to be borrowed. */
  lemma Wrapped(x: int, b: int)
    requires b >= 1 && b - b * b <= x < b
    ensures var t := x % (b * b); 0 <= t % b < b && 0 <= (-(t / b)) % b < b && t % b - ((-(t / b)) % b) * b == x
  {
    if x >= 0 {
      NotWrapped(x, b);
    } else {
      var q, d, t := x / b, x % b, x % (b * b);
      BorrowRange(x, b, q, d);
      WrapAlgebra(x, b, q, d);
      DivideUnique(t, b, b + q, d);
      DivideUnique(-(b + q), b, -1, -q);
      assert (-q) * b == -(b * q);
    }
  }

  lemma NotWrapped(x: int, b: int)
    requires 0 <= x < b
    ensures var t := x % (b * b); t == x && t % b == x && (-(t / b)) % b == 0
  {
    MulLe(1, b, b);
    DivideUnique(x, b * b, 0, x);
    DivideUnique(x, b, 0, x);
    DivideUnique(0, b, 0, 0);
  }

  lemma BorrowRange(x: int, b: int, q: int, d: int)
    requires b >= 1 && b - b * b <= x < 0 && q == x / b && d == x % b
    ensures x == b * q + d && 1 - b <= q < 0
  {
    assert x == b * q + d;
    if q >= 0 { MulLe(0, q, b); }
    assert (-b) * b == -(b * b);
    if q <= -b { MulLe(q, -b, b); }
  }

  lemma WrapAlgebra(x: int, b: int, q: int, d: int)
    requires 1 <= b && 1 - b <= q < 0 && 0 <= d < b && x == b * q + d
    ensures x % (b * b) == x + b * b && x + b * b == (b + q) * b + d
  {
    assert (b + q) * b == b * b + b * q;
    MulLe(1, b + q, b);
    MulLe(b + q, b - 1, b);
    assert (b - 1) * b == b * b - b;
    DivideUnique(x, b * b, -1, x + b * b);
  }

  /** tabr -= taba * b; returns the value to subtract from the high word. */
  method MpSubMul1(tabr: array<limb>, ro: nat, taba: array<limb>, ao: nat, n: nat, b: limb) returns (l: limb)
    requires ro + n <= tabr.Length && ao + n <= taba.Length && tabr != taba
    modifies tabr
    ensures Same(tabr[..], old(tabr[..]), ro, n)
    ensures Val(tabr[ro..ro + n]) - l * Pow(n) == Val(old(tabr[ro..ro + n])) - Val(taba[ao..ao + n]) * b
  {
    hide Val, Pow, Same;
    ghost var orig := tabr[..];
    SameNone(orig, ro);
    l := 0;
    ghost var x, y := taba[ao..ao + n], tabr[ro..ro + n];
    NoDigits(tabr[ro..ro], x[..0], y[..0]);
    var i: nat := 0;
    while i < n
      invariant i <= n && Same(tabr[..], orig, ro, i)
      invariant forall j :: i <= j < n ==> tabr[ro + j] == y[j]
      invariant Val(tabr[ro..ro + i]) - l * Pow(i) == Val(y[..i]) - Val(x[..i]) * b
    {
      ghost var l0, was := l, tabr[ro..ro + i];
      var digit;
      digit, l := SubMulDigit(tabr[ro + i], taba[ao + i], b, l);
      SameGrow(orig, tabr[..], ro, i, digit);
      tabr[ro + i] := digit;
      assert tabr[ro..ro + i + 1] == was + [digit];
      NextDigit(was, digit, -(l0 as int), -(l as int), y[i] as int - x[i] as int * b, Val(y[..i]) - Val(x[..i]) * b);
      ScaledPrefix(x, i, b);
      ValPrefix(y, i);
      assert Pow(i) * (y[i] as int - x[i] as int * b) == Pow(i) * y[i] - Pow(i) * (x[i] as int * b);
      i := i + 1;
    }
    assert x[..n] == x && y[..n] == y;
  }

  // ---- multiplication ----

  lemma RowAlgebra(low: int, seg: int, now: int, r: int, y: int, v: int, p: int, q: int)
    requires now + r * q == seg + v * y
    ensures low + p * now + (p * q) * r == low + p * seg + v * (p * y)
  {
    assert p * (now + r * q) == p * now + (p * q) * r;
    assert p * (seg + v * y) == p * seg + v * (p * y);
  }

  /** One row of the schoolbook product: the partial result grows by one limb. */
  lemma {:induction false} NextRow(low: seq<limb>, seg: seq<limb>, now: seq<limb>, r: limb, y: int, v: int, t: int)
    requires |now| == |seg|
    requires Val(low + seg) == t && Val(now) + r * Pow(|seg|) == Val(seg) + v * y
    ensures Val(low + now + [r]) == t + v * (Pow(|low|) * y)
  {
    hide Val, Pow;
    var p, m := Pow(|low|), |seg|;
    ValConcat(low, seg);
    ValConcat(low, now);
    ValSnoc(low + now, r);
    PowAdd(|low|, m);
    assert |low + now| == |low| + m;
    RowAlgebra(Val(low), Val(seg), Val(now), r, y, v, p, Pow(m));
  }

  method MpMulBasecase(result: array<limb>, ro: nat, op1: array<limb>, o1: nat, n1: nat,
                       op2: array<limb>, o2: nat, n2: nat)
    requires n2 >= 1 && ro + n1 + n2 <= result.Length && o1 + n1 <= op1.Length && o2 + n2 <= op2.Length
    requires result != op1 && result != op2
    modifies result
    ensures Same(result[..], old(result[..]), ro, n1 + n2)
    ensures Val(result[ro..ro + n1 + n2]) == Val(op1[o1..o1 + n1]) * Val(op2[o2..o2 + n2])
  {
    hide Val, Pow;
    ghost var x, y, was := op1[o1..o1 + n1], op2[o2..o2 + n2], result[..];
    var h := MpMul1(result, ro, op1, o1, n1, op2[o2], 0);
    ghost var first := result[ro..ro + n1];
    result[ro + n1] := h;
    assert result[ro..ro + n1 + 1] == first + [h];
    ValSnoc(first, h);
    FirstDigit(y);
    var i: nat := 1;
    while i < n2
      invariant 1 <= i <= n2 && Same(result[..], was, ro, n1 + i)
      invariant Val(result[ro..ro + n1 + i]) == Val(x) * Val(y[..i])
    {
      AddRow(result, ro, op1, o1, n1, op2[o2 + i], i, Val(x) * Val(y[..i]));
      ValPrefix(y, i);
      assert Val(x) * (Val(y[..i]) + Pow(i) * y[i]) == Val(x) * Val(y[..i]) + Val(x) * (Pow(i) * y[i]);
      i := i + 1;
    }
    assert y[..n2] == y;
  }

  /** Adds op1 * y, shifted by 'i' limbs, to the partial result below. */
  method AddRow(result: array<limb>, ro: nat, op1: array<limb>, o1: nat, n1: nat, y: limb, i: nat, ghost t: int)
    requires ro + n1 + i < result.Length && o1 + n1 <= op1.Length && result != op1
    requires Val(result[ro..ro + n1 + i]) == t
    modifies result
    ensures Same(result[..], old(result[..]), ro, n1 + i + 1)
    ensures Val(result[ro..ro + n1 + i + 1]) == t + Val(op1[o1..o1 + n1]) * (Pow(i) * y)
  {
    hide Val, Pow;
    ghost var x, low, seg := op1[o1..o1 + n1], result[ro..ro + i], result[ro + i..ro + i + n1];
    assert result[ro..ro + n1 + i] == low + seg;
    var r := MpAddMul1(result, ro + i, op1, o1, n1, y);
    ghost var now := result[ro + i..ro + i + n1];
    assert result[ro..ro + i] == low;
    result[ro + i + n1] := r;
    assert result[ro..ro + n1 + i + 1] == low + now + [r];
    NextRow(low, seg, now, r, y, Val(x), t);
  }

  lemma {:induction false} FirstDigit(y: seq<limb>)
    requires |y| >= 1
    ensures Val(y[..1]) == y[0]
  {
    assert y[..1] == [y[0]];
    ValOne(y[0]);
  }

  // ---- shift and comparison ----

  function Pow2(k: nat): (p: int)
    ensures p >= 1
  {
    if k == 0 then 1 else 2 * Pow2(k - 1)
  }

  lemma {:induction false} Pow2Add(j: nat, k: nat)
    ensures Pow2(j + k) == Pow2(j) * Pow2(k)
    decreases j
  {
    if j > 0 { Pow2Add(j - 1, k); }
  }

  const LIMB_BITS: nat := 64

  lemma {:induction false} LimbBits()
    ensures Pow2(64) == B && Pow2(32) == 0x1_0000_0000 && Pow2(16) == 0x1_0000 && Pow2(8) == 0x100
  {
    assert Pow2(4) == 16;
    Pow2Add(4, 4);
    Pow2Add(8, 8);
    Pow2Add(16, 16);
    Pow2Add(32, 32);
  }

  /** One limb of a right shift by 'e' bits' worth; what is shifted out of the limb above comes in at the top. */
  lemma ShiftDigit(a: int, l: int, b: int, e: int, f: int, above: int, t: int)
    requires e >= 1 && f >= 1 && e * f == b && 0 <= a < b && 0 <= l && above * e + l % e == t
    ensures var d := a / e + (l * f) % b; 0 <= d < b && (d + b * above) * e + a % e == a + b * t
  {
    ShiftedOut(l, b, e, f);
    TwoParts(a / e, l % e, b, e, f, a);
    ShiftAlgebra(a, a / e, l % e, b, e, f, above);
  }

  /** The bits kept and the bits shifted in fit one limb together. */
  lemma TwoParts(q: int, low: int, b: int, e: int, f: int, a: int)
    requires e >= 1 && f >= 1 && e * f == b && 0 <= a < b && q == a / e && 0 <= low < e
    ensures 0 <= q + low * f < b
  {
    QuotientBelow(a, e, f);
    MulLe(0, low, f);
    MulLe(low + 1, e, f);
    assert (low + 1) * f == low * f + f;
  }

  lemma ShiftAlgebra(a: int, q: int, low: int, b: int, e: int, f: int, above: int)
    requires e >= 1 && e * f == b && q == a / e
    ensures (q + low * f + b * above) * e + a % e == a + b * (above * e + low)
  {
    assert a == e * q + a % e;
    assert (q + low * f + b * above) * e == q * e + low * (e * f) + b * (above * e);
  }

  lemma ShiftedOut(l: int, b: int, e: int, f: int)
    requires e >= 1 && f >= 1 && e * f == b && l >= 0
    ensures (l * f) % b == (l % e) * f
  {
    var k, low := l / e, l % e;
    assert l == e * k + low;
    assert l * f == k * b + low * f by { assert (e * k + low) * f == k * (e * f) + low * f; }
    MulLe(low, e - 1, f);
    MulLe(0, low, f);
    assert (e - 1) * f == b - f;
    ModOf(k, low * f, b);
  }

  lemma QuotientBelow(a: int, e: int, f: int)
    requires e >= 1 && 0 <= a < e * f
    ensures a / e < f
  {
    if a / e >= f { MulLe(f, a / e, e); }
  }

  lemma {:induction false} ModOf(k: int, r: int, b: int)
    requires 0 <= r < b
    ensures (k * b + r) % b == r && (k * b + r) / b == k
  {
    DivideUnique(k * b + r, b, k, r);
  }

  /** Quotient and remainder are determined by the equation and the range of the remainder. */
  lemma DivideUnique(t: int, b: int, q: int, r: int)
    requires 0 <= r < b && t == q * b + r
    ensures t / b == q && t % b == r
  {
    var q', r' := t / b, t % b;
    assert t == b * q' + r';
    assert b * (q - q') == r' - r;
    if q > q' {
      MulLe(1, q - q', b);
    } else if q < q' {
      MulLe(q - q', -1, b);
    }
  }

  lemma NestedQuotient(a: nat, m: nat, k: nat)
    requires m > 0 && k > 0
    ensures a / m / k == a / (m * k)
  {
    var q, d := a / m / k, a / m % k;
    NestedSum(q, d, k, m, a / m, a % m, a);
    DivideUnique(a, m * k, q, d * m + a % m);
  }

  lemma NestedSum(q: int, d: int, k: int, m: int, aq: int, ar: int, a: int)
    requires aq == k * q + d && a == m * aq + ar && 0 <= d < k && 0 <= ar < m
    ensures a == q * (m * k) + (d * m + ar) && 0 <= d * m + ar < m * k
  {
    assert m * (k * q + d) == q * (m * k) + d * m;
    MulLe(0, d, m);
    MulLe(d + 1, k, m);
    assert (d + 1) * m == d * m + m;
  }

  /** 's' is x with 'hp' above it, divided by e; 'rem' is the remainder. */
  ghost predicate IsShifted(s: seq<limb>, rem: int, x: seq<limb>, e: int, hp: int) {
    |s| == |x| && Val(s) * e + rem == Val(x) + hp * Pow(|x|)
  }

  lemma {:induction false} ShiftStart(e: int, hp: int)
    ensures IsShifted([], hp, [], e, hp)
  {
    assert Val([]) == 0 && Pow(0) == 1 && 0 * e == 0 && hp * 1 == hp;
  }

  lemma {:induction false} ShiftColumn(a: limb, l: limb, e: int, f: int, above: seq<limb>, x: seq<limb>, hp: int)
    requires e >= 1 && f >= 1 && e * f == B && IsShifted(above, l % e, x, e, hp)
    ensures 0 <= a / e + (l * f) % B < B
    ensures IsShifted([(a / e + (l * f) % B) as limb] + above, a % e, [a] + x, e, hp)
  {
    hide Val, Pow;
    var t, p := Val(x) + hp * Pow(|x|), Pow(|x|);
    ShiftDigit(a, l, B, e, f, Val(above), t);
    LowDigit((a / e + (l * f) % B) as limb, above);
    LowDigit(a, x);
    PowNext(|x|);
    IncomingBits(hp, p, Val(x));
  }

  lemma ShiftEnd(s: seq<limb>, rem: int, x: seq<limb>, e: int, hp: int)
    requires IsShifted(s, rem, x, e, hp)
    ensures Val(s) * e + rem == Val(x) + hp * Pow(|x|)
  {
  }

  /**
   (a + high * B^n) >> shift, cut to n limbs; returns the bits shifted out.
   The two parts of each limb do not overlap, so "or" is a sum.
   */
  method MpShr(tabr: array<limb>, ro: nat, tab: array<limb>, ao: nat, n: nat, shift: nat, high: limb)
    returns (rem: limb)
    requires ro + n <= tabr.Length && ao + n <= tab.Length && (tabr == tab ==> ro >= ao) && 1 <= shift < LIMB_BITS
    modifies tabr
    ensures Same(tabr[..], old(tabr[..]), ro, n) && 0 <= rem < Pow2(shift)
    ensures Val(tabr[ro..ro + n]) * Pow2(shift) + rem == Val(old(tab[ao..ao + n])) + (high % Pow2(shift)) * Pow(n)
  {
    hide Val, Pow, Pow2, Same, IsShifted;
    ghost var orig := tabr[..];
    SameNone(orig, ro + n);
    var e, f := Pow2(shift), Pow2(LIMB_BITS - shift);
    Pow2Add(shift, LIMB_BITS - shift);
    LimbBits();
    ghost var x, hp := tab[ao..ao + n], high % e;
    var l: limb, i: nat := high, n;
    ShiftStart(e, hp);
    assert tabr[ro + n..ro + n] == [] && x[n..] == [];
    while i > 0
      invariant 0 <= i <= n && Same(tabr[..], orig, ro + i, n - i)
      invariant forall j :: 0 <= j < i ==> tab[ao + j] == x[j]
      invariant IsShifted(tabr[ro + i..ro + n], l % e, x[i..], e, hp)
    {
      i := i - 1;
      var a := tab[ao + i];
      ghost var above := tabr[ro + i + 1..ro + n];
      ShiftColumn(a, l, e, f, above, x[i + 1..], hp);
      var d: limb := a / e + (l as int * f) % B;
      SameGrowDown(orig, tabr[..], ro + i, n - i - 1, d);
      tabr[ro + i] := d;
      assert tabr[ro + i..ro + n] == [d] + above;
      assert x[i..] == [a] + x[i + 1..];
      l := a;
    }
    assert x[0..] == x;
    rem := l % e;
    ShiftEnd(tabr[ro..ro + n], rem, x, e, hp);
  }

  lemma IncomingBits(hp: int, p: int, low: int)
    ensures B * (low + hp * p) == B * low + hp * (B * p)
  {
    assert B * (hp * p) == hp * (B * p);
  }

  lemma {:induction false} LowDigit(d: limb, above: seq<limb>)
    ensures Val([d] + above) == d + B * Val(above)
  {
    assert ([d] + above)[1..] == above;
  }

  lemma {:induction false} PowNext(n: nat)
    ensures Pow(n + 1) == B * Pow(n)
  {
  }

  /** Numbers compare like their highest differing limb. */
  lemma {:induction false} TopDiffers(a: seq<limb>, b: seq<limb>, i: nat)
    requires |a| == |b| && i < |a| && a[i + 1..] == b[i + 1..] && a[i] < b[i]
    ensures Val(a) < Val(b)
  {
    hide Val, Pow;
    ValSplit(a, i + 1);
    ValSplit(b, i + 1);
    ValPrefix(a, i);
    ValPrefix(b, i);
    ValBound(a[..i]);
    TopAlgebra(Val(a[..i]), Val(b[..i]), Pow(i), a[i], b[i]);
  }

  lemma TopAlgebra(x: int, y: int, p: int, i: int, j: int)
    requires 0 <= x < p && 0 <= y && i < j
    ensures x + p * i < y + p * j
  {
    MulLe(i + 1, j, p);
    assert (i + 1) * p == i * p + p;
  }

  method MpCmp(taba: array<limb>, ao: nat, tabb: array<limb>, bo: nat, n: nat) returns (r: int)
    requires ao + n <= taba.Length && bo + n <= tabb.Length
    ensures r == if Val(taba[ao..ao + n]) < Val(tabb[bo..bo + n]) then -1
                 else if Val(taba[ao..ao + n]) == Val(tabb[bo..bo + n]) then 0 else 1
  {
    hide Val;
    ghost var x, y := taba[ao..ao + n], tabb[bo..bo + n];
    var i := n;
    while i > 0
      invariant 0 <= i <= n && x[i..] == y[i..]
    {
      i := i - 1;
      assert x[i] == taba[ao + i] && y[i] == tabb[bo + i];
      if taba[ao + i] != tabb[bo + i] {
        if taba[ao + i] < tabb[bo + i] {
          TopDiffers(x, y, i);
          return -1;
        } else {
          TopDiffers(y, x, i);
          return 1;
        }
      }
      assert x[i..] == [x[i]] + x[i + 1..] && y[i..] == [y[i]] + y[i + 1..];
    }
    assert x == y;
    return 0;
  }
}
