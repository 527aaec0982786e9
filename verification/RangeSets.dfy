/**
 Sets of characters as boundary lists: union, intersection, symmetric
 difference, complement and folding of case, as the class parser uses them.
 A character is a member when an odd number of boundaries is at or below it.
 */
module RangeSets {
  import opened Opcodes
  import opened Pattern
  import opened Codegen
  import opened Machine
  import opened CharRange

  // ---- what a list of boundaries means ----

  /** Boundaries at or below 'c'. */
  function Below(t: seq<int>, c: int): (n: nat)
    ensures n <= |t|
  {
    if t == [] then 0 else (if t[0] <= c then 1 else 0) + Below(t[1..], c)
  }

  predicate Odd(n: int) { n % 2 == 1 }

  predicate Member(t: seq<int>, c: int) { Odd(Below(t, c)) }

  /** In order, possibly with repetitions: what the operations accept. */
  predicate Ascending(t: seq<int>) {
    && (forall i :: 0 <= i < |t| ==> 0 <= t[i] <= UINT32_MAX)
    && (forall i, j :: 0 <= i < j < |t| ==> t[i] <= t[j])
  }

  ghost predicate SameMembers(s: seq<int>, t: seq<int>) { forall c :: Member(s, c) == Member(t, c) }

  predicate AllAtMost(t: seq<int>, c: int) { forall i :: 0 <= i < |t| ==> t[i] <= c }

  lemma {:induction false} BelowConcat(s: seq<int>, t: seq<int>, c: int)
    ensures Below(s + t, c) == Below(s, c) + Below(t, c)
  {
    if s == [] {
      assert s + t == t;
    } else {
      assert (s + t)[1..] == s[1..] + t;
      BelowConcat(s[1..], t, c);
    }
  }

  lemma {:induction false} BelowAll(t: seq<int>, c: int)
    requires AllAtMost(t, c)
    ensures Below(t, c) == |t|
  {
    if t != [] { BelowAll(t[1..], c); }
  }

  lemma {:induction false} BelowNone(t: seq<int>, c: int)
    requires forall i :: 0 <= i < |t| ==> c < t[i]
    ensures Below(t, c) == 0
  {
    if t != [] { BelowNone(t[1..], c); }
  }

  lemma BelowOne(v: int, c: int)
    ensures Below([v], c) == if v <= c then 1 else 0
  {
    assert [v][1..] == [];
  }

  lemma BelowTwo(u: int, v: int, c: int)
    ensures Below([u, v], c) == (if u <= c then 1 else 0) + (if v <= c then 1 else 0)
  {
    assert [u, v][1..] == [v];
    BelowOne(v, c);
  }

  /** For boundaries in strict order, membership is lying in one of the intervals. */
  lemma MemberIsInRanges(t: seq<int>, c: int)
    requires SortedPoints(t)
    ensures Member(t, c) <==> InRanges(t, c)
  {
    var n := Below(t, c);
    BelowIsPrefix(t, c);
    if Odd(n) {
      assert InInterval(t, n / 2, c);
    } else if k :| 0 <= k < |t| / 2 && InInterval(t, k, c) {
      assert false;
    }
  }

  /** In an ordered list exactly the first boundaries are at or below 'c'. */
  lemma {:induction false} BelowIsPrefix(t: seq<int>, c: int)
    requires Ascending(t)
    ensures forall i :: 0 <= i < |t| ==> (t[i] <= c <==> i < Below(t, c))
  {
    if t != [] {
      if t[0] <= c {
        BelowIsPrefix(t[1..], c);
        forall i | 0 <= i < |t| ensures t[i] <= c <==> i < Below(t, c) {
          if i > 0 { assert t[i] == t[1..][i - 1]; }
        }
      } else {
        BelowNone(t, c);
      }
    }
  }

  /** At the first boundary where two lists differ, so do their members. */
  lemma FirstDifference(s: seq<int>, t: seq<int>, i: nat)
    requires SortedPoints(s) && SortedPoints(t) && i < |s| && i <= |t| && s[..i] == t[..i] && (i == |t| || s[i] < t[i])
    ensures Member(s, s[i]) != Member(t, s[i])
  {
    var c := s[i];
    BelowIsPrefix(s, c);
    BelowIsPrefix(t, c);
    assert forall j :: 0 <= j < i ==> t[j] == s[j];
    assert Below(s, c) == i + 1 by { if i + 1 < |s| { assert c < s[i + 1]; } }
    assert Below(t, c) == i by { if i > 0 { assert t[i - 1] == s[i - 1] < c; } }
  }

  lemma {:induction false} SamePrefix(s: seq<int>, t: seq<int>, i: nat)
    requires SortedPoints(s) && SortedPoints(t) && SameMembers(s, t) && i <= |s| && i <= |t|
    ensures s[..i] == t[..i]
  {
    if i > 0 {
      SamePrefix(s, t, i - 1);
      if s[i - 1] < t[i - 1] { FirstDifference(s, t, i - 1); }
      if t[i - 1] < s[i - 1] { FirstDifference(t, s, i - 1); }
      assert s[..i] == s[..i - 1] + [s[i - 1]] && t[..i] == t[..i - 1] + [t[i - 1]];
    }
  }

  /** The strictly ordered list of a set is unique. */
  lemma SameMembersSameList(s: seq<int>, t: seq<int>)
    requires SortedPoints(s) && SortedPoints(t) && SameMembers(s, t)
    ensures s == t
  {
    var n := if |s| < |t| then |s| else |t|;
    SamePrefix(s, t, n);
    if |s| < |t| { FirstDifference(t, s, n); }
    if |t| < |s| { FirstDifference(s, t, n); }
    assert s == s[..n] && t == t[..n];
  }

  // ---- the operations ----

  datatype SetOp = Union | Inter | Xor

  predicate Apply(op: SetOp, x: bool, y: bool) {
    match op
    case Union => x || y
    case Inter => x && y
    case Xor => x != y
  }

  /** Every member of 'x' is at most every boundary of 'y' from 'from' on. */
  ghost predicate Before(x: seq<int>, y: seq<int>, from: nat) {
    forall k, l :: 0 <= k < |x| && from <= l < |y| ==> x[k] <= y[l]
  }

  /** The boundaries taken so far, and the ones kept in 'r', are at most those still to come. */
  ghost predicate Consumed(a: seq<int>, b: seq<int>, i: nat, j: nat, r: seq<int>) {
    && i <= |a| && j <= |b| && Ascending(r)
    && Before(r, a, i) && Before(r, b, j) && Before(a[..i], b, j) && Before(b[..j], a, i)
  }

  ghost predicate Merged(op: SetOp, a: seq<int>, b: seq<int>, i: nat, j: nat, r: seq<int>) {
    && Consumed(a, b, i, j, r) && Odd(|r|) == Apply(op, Odd(i), Odd(j))
    && (forall c :: Member(r, c) == Apply(op, Member(a[..i], c), Member(b[..j], c)))
  }

  /** The next boundary 'v' comes from either list, or from both. */
  ghost predicate Takes(a: seq<int>, b: seq<int>, i: nat, j: nat, i': nat, j': nat, v: int) {
    && i <= i' <= i + 1 && j <= j' <= j + 1 && i + j < i' + j' && i' <= |a| && j' <= |b|
    && (i' > i ==> a[i] == v) && (j' > j ==> b[j] == v)
    && (i < |a| ==> v <= a[i]) && (j < |b| ==> v <= b[j])
  }

  lemma BeforeNext(x: seq<int>, y: seq<int>, from: nat, from': nat, v: int)
    requires Ascending(y) && from <= from' <= from + 1 && from' <= |y| && Before(x, y, from) &&
             (from < |y| ==> v <= y[from])
    ensures Before(x, y, from') && Before([v], y, from')
  {
    forall l | from' <= l < |y| ensures v <= y[l] { assert y[from] <= y[l]; }
  }

  lemma BeforeConcat(x: seq<int>, w: seq<int>, y: seq<int>, from: nat)
    requires Before(x, y, from) && Before(w, y, from)
    ensures Before(x + w, y, from)
  {
  }

  lemma PrefixNext(a: seq<int>, i: nat, i': nat, y: seq<int>, from: nat, v: int)
    requires i <= i' <= i + 1 && i' <= |a| && (i' > i ==> a[i] == v) && Before(a[..i], y, from) && Before([v], y, from)
    ensures Before(a[..i'], y, from)
  {
    if i' > i {
      assert a[..i'] == a[..i] + [v];
      BeforeConcat(a[..i], [v], y, from);
    }
  }

  lemma AtMostNext(a: seq<int>, b: seq<int>, i: nat, j: nat, i': nat, j': nat, v: int)
    requires i <= |a| && Ascending(a) && Before(a[..i], b, j) && Takes(a, b, i, j, i', j', v)
    ensures AllAtMost(a[..i'], v)
  {
    forall k | 0 <= k < i ensures a[k] <= v {
      if i' > i { assert a[k] <= a[i]; } else { assert a[..i][k] <= b[j]; }
    }
  }

  lemma KeptAtMost(a: seq<int>, b: seq<int>, i: nat, j: nat, i': nat, j': nat, v: int, r: seq<int>)
    requires Before(r, a, i) && Before(r, b, j) && Takes(a, b, i, j, i', j', v)
    ensures AllAtMost(r, v)
  {
    forall k | 0 <= k < |r| ensures r[k] <= v {
      if i' > i { assert r[k] <= a[i]; } else { assert r[k] <= b[j]; }
    }
  }

  lemma MergeOrder(a: seq<int>, b: seq<int>, i: nat, j: nat, i': nat, j': nat, v: int, r: seq<int>)
    requires Ascending(a) && Ascending(b) && Consumed(a, b, i, j, r) && Takes(a, b, i, j, i', j', v)
    ensures Consumed(a, b, i', j', r) && Consumed(a, b, i', j', r + [v])
    ensures AllAtMost(r + [v], v) && AllAtMost(a[..i'], v) && AllAtMost(b[..j'], v)
  {
    hide Before;
    KeptAtMost(a, b, i, j, i', j', v, r);
    AtMostNext(a, b, i, j, i', j', v);
    AtMostNext(b, a, j, i, j', i', v);
    assert 0 <= v <= UINT32_MAX;
    BeforeNext(r, a, i, i', v);
    BeforeNext(r, b, j, j', v);
    BeforeNext(a[..i], b, j, j', v);
    BeforeNext(b[..j], a, i, i', v);
    BeforeConcat(r, [v], a, i');
    BeforeConcat(r, [v], b, j');
    PrefixNext(a, i, i', b, j', v);
    PrefixNext(b, j, j', a, i', v);
  }

  /** Taking the next boundary and adding it when membership changes there. */
  lemma MergeStep(op: SetOp, a: seq<int>, b: seq<int>, i: nat, j: nat, r: seq<int>, i': nat, j': nat, v: int,
                  r': seq<int>)
    requires Ascending(a) && Ascending(b) && Merged(op, a, b, i, j, r) && Takes(a, b, i, j, i', j', v)
    requires r' == if Apply(op, Odd(i'), Odd(j')) != Odd(|r|) then r + [v] else r
    ensures Merged(op, a, b, i', j', r')
  {
    hide Consumed, Below;
    MergeOrder(a, b, i, j, i', j', v, r);
    forall c ensures Member(r', c) == Apply(op, Member(a[..i'], c), Member(b[..j'], c)) {
      if v <= c {
        BelowAll(r', c);
        BelowAll(a[..i'], c);
        BelowAll(b[..j'], c);
      } else {
        TakeOne(a, i, i', c);
        TakeOne(b, j, j', c);
        BelowConcat(r, [v], c);
        BelowOne(v, c);
        assert Member(r, c) == Apply(op, Member(a[..i], c), Member(b[..j], c));
      }
    }
  }

  lemma TakeOne(a: seq<int>, i: nat, i': nat, c: int)
    requires i <= i' <= i + 1 && i' <= |a| && (i' > i ==> c < a[i])
    ensures Member(a[..i'], c) == Member(a[..i], c)
  {
    if i' > i {
      assert a[..i'] == a[..i] + [a[i]];
      BelowConcat(a[..i], [a[i]], c);
      BelowOne(a[i], c);
    }
  }

  lemma NothingMerged(op: SetOp, a: seq<int>, b: seq<int>)
    ensures Merged(op, a, b, 0, 0, [])
  {
    assert a[..0] == [] && b[..0] == [];
  }

  // ---- compression ----

  /** The list has the members of 'pt' and no empty or touching intervals. */
  ghost predicate Compressed(pt: seq<int>, r: seq<int>) {
    SortedPoints(r) && SameMembers(r, pt)
  }

  /** What is done: 'out' for pt[..i], strictly below what follows. */
  ghost predicate CompressedTo(pt: seq<int>, i: nat, out: seq<int>) {
    && i <= |pt| && i % 2 == 0 && |out| <= i && SortedPoints(out)
    && (out != [] && i < |pt| ==> out[|out| - 1] < pt[i])
    && SameMembers(out, pt[..i])
  }

  /** An empty interval is dropped. */
  lemma SkipEmpty(pt: seq<int>, i: nat, out: seq<int>)
    requires Ascending(pt) && i + 1 < |pt| && pt[i] == pt[i + 1] && CompressedTo(pt, i, out)
    ensures CompressedTo(pt, i + 2, out)
  {
    hide Below;
    forall c ensures Member(out, c) == Member(pt[..i + 2], c) {
      assert pt[..i + 2] == pt[..i] + [pt[i], pt[i + 1]];
      BelowConcat(pt[..i], [pt[i], pt[i + 1]], c);
      BelowTwo(pt[i], pt[i + 1], c);
      assert Member(out, c) == Member(pt[..i], c);
    }
  }

  /** Intervals from 'i' that touch each other count as one up to 'j' + 1. */
  ghost predicate OneInterval(pt: seq<int>, i: nat, j: nat) {
    && i <= j && j + 1 < |pt| && (j - i) % 2 == 0
    && SameMembers(pt[i..j + 2], [pt[i], pt[j + 1]])
  }

  lemma OneIntervalStart(pt: seq<int>, i: nat)
    requires i + 1 < |pt|
    ensures OneInterval(pt, i, i)
  {
    assert pt[i..i + 2] == [pt[i], pt[i + 1]];
  }

  lemma OneIntervalNext(pt: seq<int>, i: nat, j: nat)
    requires OneInterval(pt, i, j) && j + 3 < |pt| && pt[j + 1] == pt[j + 2]
    ensures OneInterval(pt, i, j + 2)
  {
    hide Below;
    var whole, ends := pt[i..j + 4], [pt[i], pt[j + 3]];
    forall c ensures Member(whole, c) == Member(ends, c) {
      assert pt[i..j + 4] == pt[i..j + 2] + [pt[j + 2], pt[j + 3]];
      BelowConcat(pt[i..j + 2], [pt[j + 2], pt[j + 3]], c);
      BelowTwo(pt[j + 2], pt[j + 3], c);
      BelowTwo(pt[i], pt[j + 1], c);
      BelowTwo(pt[i], pt[j + 3], c);
      assert Member(pt[i..j + 2], c) == Member([pt[i], pt[j + 1]], c);
    }
  }

  lemma IntervalSorted(pt: seq<int>, i: nat, j: nat, out: seq<int>)
    requires Ascending(pt) && SortedPoints(out) && i <= j && j + 1 < |pt| && pt[i] != pt[i + 1]
    requires out != [] ==> out[|out| - 1] < pt[i]
    requires j + 3 < |pt| ==> pt[j + 1] != pt[j + 2]
    ensures SortedPoints(out + [pt[i], pt[j + 1]]) && (j + 3 < |pt| ==> pt[j + 1] < pt[j + 2])
  {
    assert pt[i] < pt[i + 1] <= pt[j + 1];
    forall k | 0 <= k < |out| ensures out[k] < pt[i] { assert out[k] <= out[|out| - 1]; }
  }

  lemma IntervalMeans(pt: seq<int>, i: nat, j: nat, out: seq<int>)
    requires OneInterval(pt, i, j) && SameMembers(out, pt[..i])
    ensures SameMembers(out + [pt[i], pt[j + 1]], pt[..j + 2])
  {
    hide Below;
    var out', ends := out + [pt[i], pt[j + 1]], [pt[i], pt[j + 1]];
    forall c ensures Member(out', c) == Member(pt[..j + 2], c) {
      assert pt[..j + 2] == pt[..i] + pt[i..j + 2];
      BelowConcat(pt[..i], pt[i..j + 2], c);
      BelowConcat(out, ends, c);
      assert Member(pt[i..j + 2], c) == Member(ends, c);
      assert Member(out, c) == Member(pt[..i], c);
    }
  }

  /** The interval is copied as a whole. */
  lemma CopyInterval(pt: seq<int>, i: nat, j: nat, out: seq<int>)
    requires Ascending(pt) && CompressedTo(pt, i, out) && OneInterval(pt, i, j) && pt[i] != pt[i + 1]
    requires j + 3 < |pt| ==> pt[j + 1] != pt[j + 2]
    requires |pt| % 2 == 0
    ensures CompressedTo(pt, j + 2, out + [pt[i], pt[j + 1]])
  {
    hide Member, Ascending, SameMembers, SortedPoints;
    IntervalSorted(pt, i, j, out);
    IntervalMeans(pt, i, j, out);
  }

  lemma PutTwo(s: seq<int>, k: nat, i: nat, u: int, v: int)
    requires k + 2 <= i <= |s|
    ensures var r := s[k := u][k + 1 := v]; |r| == |s| && r[..k + 2] == s[..k] + [u, v] && r[i..] == s[i..]
  {
  }

  // ---- the sets of the compiler ----

  class CharSet {
    var points: seq<int>

    constructor ()
      ensures points == []
    {
      points := [];
    }

    method AddPoint(v: int)
      modifies this
      ensures points == old(points) + [v]
    {
      points := points + [v];
    }

    /** The last interval of the run of touching ones that starts at 'i'. */
    method TouchingEnd(i: nat, ghost pt: seq<int>) returns (j: nat)
      requires i + 1 < |points| == |pt| && i % 2 == 0 && forall k :: i <= k < |pt| ==> points[k] == pt[k]
      ensures i <= j && j + 1 < |pt| && j % 2 == 0 && OneInterval(pt, i, j)
      ensures j + 3 < |pt| ==> pt[j + 1] != pt[j + 2]
    {
      hide OneInterval;
      j := i;
      OneIntervalStart(pt, i);
      while j + 3 < |points| && points[j + 1] == points[j + 2]
        invariant i <= j && j + 1 < |pt| && j % 2 == 0 && OneInterval(pt, i, j)
        decreases |pt| - j
      {
        OneIntervalNext(pt, i, j);
        j := j + 2;
      }
    }

    /** Merges touching intervals and removes empty ones, in place. */
    method Compress()
      requires Ascending(points) && |points| % 2 == 0
      modifies this
      ensures Compressed(old(points), points)
    {
      hide Compressed, CompressedTo, OneInterval, Ascending;
      ghost var pt := points;
      var len := |points|;
      var i: nat, k: nat := 0, 0;
      CompressNothing(pt);
      while i + 1 < len
        invariant |points| == len == |pt| && k <= i <= len && i % 2 == 0
        invariant points[i..] == pt[i..] && CompressedTo(pt, i, points[..k])
        decreases len - i
      {
        CompressedWithin(pt, i, points[..k]);
        SameTail(points, pt, i);
        if points[i] == points[i + 1] {
          SkipEmpty(pt, i, points[..k]);
          i := i + 2;
        } else {
          var j := TouchingEnd(i, pt);
          ghost var now := points;
          CopyInterval(pt, i, j, points[..k]);
          PutTwo(points, k, j + 2, points[i], points[j + 1]);
          points := points[k := points[i]];
          points := points[k + 1 := points[j + 1]];
          TailOfTail(now, pt, i, j + 2);
          k := k + 2;
          i := j + 2;
        }
      }
      CompressDone(pt, i, points[..k]);
      points := points[..k];
    }

    /** a op b, point by point in increasing order. */
    method Op(a: seq<int>, b: seq<int>, op: SetOp)
      requires points == [] && Ascending(a) && Ascending(b) && |a| % 2 == 0 && |b| % 2 == 0
      modifies this
      ensures SortedPoints(points)
      ensures forall c :: Member(points, c) == Apply(op, Member(a, c), Member(b, c))
      ensures op == Union ==> forall c :: Member(points, c) <==> Member(a, c) || Member(b, c)
      ensures op == Inter ==> forall c :: Member(points, c) <==> Member(a, c) && Member(b, c)
      ensures op == Xor ==>
              forall c :: Member(points, c) <==> (Member(a, c) && !Member(b, c)) || (!Member(a, c) && Member(b, c))
    {
      hide Merged, Member;
      var i: nat, j: nat := 0, 0;
      NothingMerged(op, a, b);
      while i < |a| || j < |b|
        invariant i <= |a| && j <= |b| && Merged(op, a, b, i, j, points)
        decreases |a| - i + (|b| - j)
      {
        ghost var i0, j0, r := i, j, points;
        var v;
        if i < |a| && j < |b| {
          if a[i] < b[j] { v := a[i]; i := i + 1; }
          else if a[i] == b[j] { v := a[i]; i, j := i + 1, j + 1; }
          else { v := b[j]; j := j + 1; }
        } else if i < |a| { v := a[i]; i := i + 1; }
        else { v := b[j]; j := j + 1; }
        var isIn := Apply(op, i % 2 == 1, j % 2 == 1);
        if isIn != (|points| % 2 == 1) { AddPoint(v); }
        MergeStep(op, a, b, i0, j0, r, i, j, v, points);
      }
      assert a[..i] == a && b[..j] == b;
      MergedAll(op, a, b, points);
      Compress();
    }

    method Union1(b: seq<int>)
      requires SortedPoints(points) && Ascending(b) && |b| % 2 == 0
      modifies this
      ensures SortedPoints(points)
      ensures forall c :: Member(points, c) == (Member(old(points), c) || Member(b, c))
    {
      var a := points;
      points := [];
      Op(a, b, Union);
    }

    /** Adds the characters c1..c2. */
    method UnionInterval(c1: int, c2: int)
      requires SortedPoints(points) && 0 <= c1 <= c2 < UINT32_MAX
      modifies this
      ensures SortedPoints(points)
      ensures forall c :: Member(points, c) == (Member(old(points), c) || c1 <= c <= c2)
    {
      Union1([c1, c2 + 1]);
      IntervalMembers(c1, c2 + 1);
    }

    /** Complement within 0 .. UINT32_MAX - 1. */
    method Invert()
      requires SortedPoints(points)
      modifies this
      ensures SortedPoints(points)
      ensures forall c :: Member(points, c) == (0 <= c < UINT32_MAX && !Member(old(points), c))
    {
      ghost var was := points;
      points := [0] + points + [UINT32_MAX];
      forall c { EndsAdded(was, c); }
      Compress();
    }

    /** Folds case: capital letters whose small letter is a member are added. */
    method Canonicalize()
      requires SortedPoints(points)
      modifies this
      ensures SortedPoints(points)
      ensures forall c :: Member(points, c) ==
                          (Member(old(points), c) || ('A' as int <= c <= 'Z' as int && Member(old(points), c + 32)))
    {
      var small := new CharSet();
      small.Op(points, ['a' as int, 'z' as int + 1], Inter);
      IntervalMembers('a' as int, 'z' as int + 1);
      ghost var t := small.points;
      var i := 0;
      while i < |small.points|
        modifies small
        invariant 0 <= i <= |small.points| == |t|
        invariant forall k :: 0 <= k < i ==> small.points[k] == t[k] - 32
        invariant forall k :: i <= k < |t| ==> small.points[k] == t[k]
      {
        small.points := small.points[i := small.points[i] - 32];
        i := i + 1;
      }
      AllFrom(t, 'a' as int);
      forall c
        ensures Member(small.points, c) == ('A' as int <= c <= 'Z' as int && Member(points, c + 32))
      {
        BelowShifted(t, small.points, 32, c);
        assert Member(t, c + 32) == Apply(Inter, Member(points, c + 32), Member(['a' as int, 'z' as int + 1], c + 32));
      }
      Union1(small.points);
    }
  }

  lemma IntervalMembers(lo: int, hi: int)
    requires lo < hi
    ensures forall c :: Member([lo, hi], c) == (lo <= c < hi)
  {
    forall c ensures Member([lo, hi], c) == (lo <= c < hi) { BelowTwo(lo, hi, c); }
  }

  /** Boundaries are no lower than the lowest member. */
  lemma AllFrom(t: seq<int>, lo: int)
    requires SortedPoints(t) && forall c :: Member(t, c) ==> lo <= c
    ensures forall i :: 0 <= i < |t| ==> lo <= t[i]
  {
    if t != [] {
      BelowIsPrefix(t, t[0]);
      assert Below(t, t[0]) == 1;
      assert Member(t, t[0]);
    }
  }

  lemma {:induction false} BelowShifted(s: seq<int>, t: seq<int>, d: int, c: int)
    requires |s| == |t| && forall k :: 0 <= k < |s| ==> t[k] == s[k] - d
    ensures Below(t, c) == Below(s, c + d)
  {
    if s != [] { BelowShifted(s[1..], t[1..], d, c); }
  }

  lemma CompressNothing(pt: seq<int>)
    requires |pt| % 2 == 0
    ensures CompressedTo(pt, 0, [])
  {
    assert pt[..0] == [];
  }

  lemma CompressedWithin(pt: seq<int>, i: nat, out: seq<int>)
    requires CompressedTo(pt, i, out)
    ensures |out| <= i <= |pt|
  {
  }

  lemma TailOfTail(s: seq<int>, t: seq<int>, i: nat, j: nat)
    requires |s| == |t| && i <= j <= |s| && s[i..] == t[i..]
    ensures s[j..] == t[j..]
  {
    assert s[j..] == s[i..][j - i..] && t[j..] == t[i..][j - i..];
  }

  lemma SameTail(s: seq<int>, t: seq<int>, i: nat)
    requires |s| == |t| && i <= |s| && s[i..] == t[i..]
    ensures forall k :: i <= k < |s| ==> s[k] == t[k]
  {
    forall k | i <= k < |s| ensures s[k] == t[k] { assert s[k] == s[i..][k - i]; }
  }

  lemma CompressDone(pt: seq<int>, i: nat, out: seq<int>)
    requires CompressedTo(pt, i, out) && i == |pt|
    ensures Compressed(pt, out)
  {
    assert pt[..i] == pt;
  }

  lemma MergedAll(op: SetOp, a: seq<int>, b: seq<int>, r: seq<int>)
    requires |a| % 2 == 0 && |b| % 2 == 0 && Merged(op, a, b, |a|, |b|, r)
    ensures Ascending(r) && |r| % 2 == 0 && forall c :: Member(r, c) == Apply(op, Member(a, c), Member(b, c))
  {
    assert a[..|a|] == a && b[..|b|] == b;
  }

  /** A boundary in front and one behind turn members into others. */
  lemma EndsAdded(t: seq<int>, c: int)
    requires SortedPoints(t)
    ensures Member([0] + t + [UINT32_MAX], c) == (0 <= c < UINT32_MAX && !Member(t, c))
  {
    BelowConcat([0] + t, [UINT32_MAX], c);
    BelowConcat([0], t, c);
    BelowOne(0, c);
    BelowOne(UINT32_MAX, c);
    if c < 0 { BelowNone(t, c); }
    if c >= UINT32_MAX { BelowAll(t, c); }
  }

  // ---- a class from its parts ----

  /** A character or range, or a predefined class given by its boundaries. */
  datatype ClassItem = Interval(c1: int, c2: int) | Named(points: seq<int>)

  predicate ValidItem(x: ClassItem) {
    match x
    case Interval(c1, c2) => IsCodePoint(c1) && IsCodePoint(c2)
    case Named(t) => Ascending(t) && |t| % 2 == 0
  }

  predicate BadRange(x: ClassItem) { x.Interval? && x.c2 < x.c1 }

  predicate InItem(x: ClassItem, c: int) {
    match x
    case Interval(c1, c2) => c1 <= c <= c2
    case Named(t) => Member(t, c)
  }

  predicate InSome(items: seq<ClassItem>, c: int) { exists k :: 0 <= k < |items| && InItem(items[k], c) }

  /** The meaning of a class: its items, capitals for small letters when case is ignored, and the rest when inverted. */
  predicate InClass(items: seq<ClassItem>, ignoreCase: bool, invert: bool, c: int) {
    var listed := InSome(items, c) || (ignoreCase && 'A' as int <= c <= 'Z' as int && InSome(items, c + 32));
    if invert then 0 <= c < UINT32_MAX && !listed else listed
  }

  /** Boundaries of a class, or None for a range that ends before it starts. */
  method ParseClass(items: seq<ClassItem>, ignoreCase: bool, invert: bool) returns (r: Option<seq<int>>)
    requires forall k :: 0 <= k < |items| ==> ValidItem(items[k])
    ensures r.None? <==> exists k :: 0 <= k < |items| && BadRange(items[k])
    ensures r.Some? ==> SortedPoints(r.value)
    ensures r.Some? ==> forall c :: Member(r.value, c) == InClass(items, ignoreCase, invert, c)
  {
    hide Member;
    var cr := new CharSet();
    EmptySet();
    var i := 0;
    while i < |items|
      modifies cr
      invariant 0 <= i <= |items| && SortedPoints(cr.points)
      invariant forall k :: 0 <= k < i ==> !BadRange(items[k])
      invariant forall c :: Member(cr.points, c) == InSome(items[..i], c)
    {
      ghost var was := cr.points;
      match items[i] {
        case Interval(c1, c2) =>
          if c2 < c1 { return None; }
          cr.UnionInterval(c1, c2);
        case Named(t) => cr.Union1(t);
      }
      forall c ensures Member(cr.points, c) == InSome(items[..i + 1], c) { SomeNext(items, i, c); }
      i := i + 1;
    }
    assert items[..i] == items;
    ghost var listed := cr.points;
    if ignoreCase { cr.Canonicalize(); }
    ghost var folded := cr.points;
    forall c ensures Member(folded, c) == InClass(items, ignoreCase, false, c) {
      assert Member(listed, c) == InSome(items, c) && Member(listed, c + 32) == InSome(items, c + 32);
    }
    if invert { cr.Invert(); }
    forall c ensures Member(cr.points, c) == InClass(items, ignoreCase, invert, c) {
      assert Member(folded, c) == InClass(items, ignoreCase, false, c);
    }
    r := Some(cr.points);
  }

  lemma EmptySet()
    ensures forall c :: Member([], c) == InSome([], c)
  {
    forall c ensures !Member([], c) { assert Below([], c) == 0; }
  }

  lemma SomeNext(items: seq<ClassItem>, i: nat, c: int)
    requires i < |items|
    ensures InSome(items[..i + 1], c) == (InSome(items[..i], c) || InItem(items[i], c))
  {
    var s, t := items[..i], items[..i + 1];
    assert t[i] == items[i] && forall k :: 0 <= k < i ==> t[k] == s[k];
  }

  /**
   From the text's items to the machine's bisection: the instruction emitted for
   a class of fewer than 65535 intervals accepts a character exactly when its
   canonical form is in the class.
   */
  lemma ClassEndToEnd(e: Env, items: seq<ClassItem>, invert: bool, t: seq<int>, ch: int)
    requires ValidEnv(e) && ValidPoints(t) && IsCodePoint(ch)
    requires forall c :: Member(t, c) == InClass(items, e.flags.ignoreCase, invert, c)
    ensures ReadsChar(e, ClassInstr(t), ch) <==> InClass(items, e.flags.ignoreCase, invert, Canon(e, ch))
  {
    MemberIsInRanges(t, Canon(e, ch));
    CharInstrCorrect(e, Class(t), ch);
  }
}
