/**
 Character classes end to end: the table the compiler emits for a boundary
 list, searched by bisection in the machine, accepts exactly the members.
 */
module CharRange {
  import opened Bytes
  import opened Opcodes
  import opened Pattern
  import opened Matcher
  import opened Codegen
  import opened Machine

  ghost function Low(r: seq<int>, k: int): (v: int)
    requires 0 <= k < |r| / 2
  {
    r[2 * k]
  }

  ghost function High(r: seq<int>, k: int): (v: int)
    requires 0 <= k < |r| / 2
  {
    r[2 * k + 1]
  }

  /** Pairs low <= high, in increasing order and disjoint. */
  ghost predicate SortedPairs(r: seq<int>) {
    && (forall k :: 0 <= k < |r| / 2 ==> Low(r, k) <= High(r, k))
    && (forall j, k :: 0 <= j < k < |r| / 2 ==> High(r, j) < Low(r, k))
  }

  ghost predicate InPair(r: seq<int>, c: int, k: int) {
    0 <= k < |r| / 2 && Low(r, k) <= c <= High(r, k)
  }

  lemma {:induction false} BisectFinds(r: seq<int>, c: int, lo: int, hi: int)
    requires SortedPairs(r) && 0 <= lo && 2 * hi + 1 < |r|
    ensures Bisect(r, c, lo, hi) <==> exists k :: lo <= k <= hi && InPair(r, c, k)
    decreases hi - lo + 1
  {
    if lo <= hi {
      var mid := (lo + hi) / 2;
      if c < Low(r, mid) {
        BisectFinds(r, c, lo, mid - 1);
        assert forall k :: mid < k <= hi ==> High(r, mid) < Low(r, k);
      } else if c > High(r, mid) {
        BisectFinds(r, c, mid + 1, hi);
        assert forall k :: lo <= k < mid ==> High(r, k) < Low(r, mid);
      } else {
        assert InPair(r, c, mid);
      }
    }
  }

  lemma RangeTableSorted(t: seq<int>, wide: bool)
    requires ValidPoints(t) && t != [] && (!wide ==> TopPoint(t) <= 0xffff)
    ensures SortedPairs(RangeTable(t, wide))
  {
    var r := RangeTable(t, wide);
    forall k | 0 <= k < |r| / 2 ensures Low(r, k) <= High(r, k) {
      assert t[2 * k] < t[2 * k + 1];
    }
    forall j, k | 0 <= j < k < |r| / 2 ensures High(r, j) < Low(r, k) {
      assert t[2 * j + 1] < t[2 * k];
      assert t[2 * k] < t[2 * k + 1] <= UINT32_MAX;
    }
  }

  /** The interval k of the boundary list and the pair k of the table hold the same code points. */
  lemma SamePair(t: seq<int>, wide: bool, c: int, k: nat)
    requires ValidPoints(t) && t != [] && (!wide ==> TopPoint(t) <= 0xffff && c <= 0xffff)
    requires IsCodePoint(c) && k < |t| / 2
    ensures InPair(RangeTable(t, wide), c, k) <==> InInterval(t, k, c)
  {
  }

  /** In a narrow table 0xffff at the end is only ever written for "no upper bound". */
  lemma NarrowTop(t: seq<int>)
    requires ValidPoints(t) && t != [] && TopPoint(t) <= 0xffff
    ensures RangeTable(t, false)[|t| - 1] == 0xffff <==> t[|t| - 1] == UINT32_MAX
  {
  }

  lemma BelowFirst(t: seq<int>, c: int)
    requires ValidPoints(t) && t != [] && c < t[0]
    ensures !InRanges(t, c)
  {
    forall k | 0 <= k < |t| / 2 ensures !InInterval(t, k, c) {
      if k > 0 { assert t[0] < t[2 * k]; }
    }
  }

  lemma AboveLast(t: seq<int>, c: int)
    requires ValidPoints(t) && t != [] && c >= t[|t| - 1]
    ensures !InRanges(t, c)
  {
    forall k | 0 <= k < |t| / 2 ensures !InInterval(t, k, c) {
      if 2 * k + 1 < |t| - 1 { assert t[2 * k + 1] < t[|t| - 1]; }
    }
  }

  lemma BisectIsInRanges(t: seq<int>, wide: bool, c: int)
    requires ValidPoints(t) && t != [] && (!wide ==> TopPoint(t) <= 0xffff && c <= 0xffff)
    requires IsCodePoint(c)
    ensures Bisect(RangeTable(t, wide), c, 0, |t| / 2 - 1) <==> InRanges(t, c)
  {
    hide SortedPairs, Bisect, ValidPoints, InPair, InInterval, RangeTable;
    var r := RangeTable(t, wide);
    RangeTableSorted(t, wide);
    BisectFinds(r, c, 0, |t| / 2 - 1);
    forall k | 0 <= k < |t| / 2 ensures InPair(r, c, k) <==> InInterval(t, k, c) {
      SamePair(t, wide, c, k);
    }
    if k :| 0 <= k <= |t| / 2 - 1 && InPair(r, c, k) { assert InInterval(t, k, c); }
  }

  /** The machine's test on the emitted table is membership in the boundary list. */
  lemma HitIsInRanges(t: seq<int>, c: int)
    requires ValidPoints(t) && t != [] && IsCodePoint(c)
    ensures var wide := TopPoint(t) > 0xffff; Hit(RangeTable(t, wide), c, wide) == InRanges(t, c)
  {
    hide Bisect;
    var wide := TopPoint(t) > 0xffff;
    var r, n := RangeTable(t, wide), |t| / 2;
    assert r[0] == t[0];
    if c < t[0] {
      BelowFirst(t, c);
    } else if !wide && c >= 0xffff && r[2 * n - 1] == 0xffff {
      NarrowTop(t);
      assert InInterval(t, n - 1, c);
    } else if c > r[2 * n - 1] {
      if !wide { NarrowTop(t); }
      AboveLast(t, c);
    } else {
      BisectIsInRanges(t, wide, c);
    }
  }

  lemma RangeTableFits(t: seq<int>)
    requires ValidPoints(t) && t != []
    ensures TopPoint(t) <= 0xffff ==> AllU16(RangeTable(t, false))
    ensures AllU32(RangeTable(t, true))
  {
    if TopPoint(t) <= 0xffff {
      forall i | 0 <= i < |t| ensures IsU16(RangeTable(t, false)[i]) {
        assert i < |t| - 2 ==> t[i] < t[|t| - 2];
        if i % 2 == 1 { assert t[i - 1] < t[i]; }
      }
    }
    forall i | 0 <= i < |t| ensures IsU32(RangeTable(t, true)[i]) {
      if i % 2 == 1 { assert t[i - 1] < t[i]; }
    }
  }

  /** The emitted instruction reads exactly the characters the node stands for, and fits its fields. */
  lemma CharInstrCorrect(e: Env, p: Node, ch: int)
    requires ValidEnv(e) && WellFormed(p) && (p.Dot? || p.Char? || p.Class?) && IsCodePoint(ch)
    ensures Encodable(CharInstr(e, p)) && IsCharInstr(CharInstr(e, p))
    ensures ReadsChar(e, CharInstr(e, p), ch) == CharTest(e, p, ch)
  {
    assert IsCodePoint(Canon(e, ch));
    if p.Char? {
      assert IsCodePoint(Canon(e, p.c));
    } else if p.Class? && p.points != [] {
      hide Hit, InRanges;
      RangeTableFits(p.points);
      HitIsInRanges(p.points, Canon(e, ch));
    }
  }
}
