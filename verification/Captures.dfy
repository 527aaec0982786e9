/**
 What a match leaves in the capture slots: a capture records where it began and
 ended, a node changes no captures but its own, and the reported match is the
 leftmost one, with capture 0 around it.
 */
module Captures {
  import opened Opcodes
  import opened Pattern
  import opened Matcher
  import opened MatcherFacts

  /** Slots outside lo..hi are the same in 'r' as in 'st'. */
  ghost predicate Keeps(lo: int, hi: int, st: St, r: St) {
    |r.caps| == |st.caps| && forall i :: 0 <= i < |st.caps| && !(lo <= i < hi) ==> r.caps[i] == st.caps[i]
  }

  ghost predicate AllKeep(lo: int, hi: int, st: St, x: Res) {
    forall i :: 0 <= i < |x.rs| ==> Keeps(lo, hi, st, x.rs[i])
  }

  ghost predicate KeepFrom(lo: int, hi: int, g: St -> Res) { forall r :: AllKeep(lo, hi, r, g(r)) }

  lemma KeepsTrans(lo: int, hi: int, st: St, r: St, x: Res)
    requires Keeps(lo, hi, st, r) && AllKeep(lo, hi, r, x)
    ensures AllKeep(lo, hi, st, x)
  {
  }

  lemma AppendKeeps(lo: int, hi: int, st: St, x: Res, y: Res)
    requires AllKeep(lo, hi, st, x) && AllKeep(lo, hi, st, y)
    ensures AllKeep(lo, hi, st, Append(x, y))
  {
  }

  lemma {:induction false} BindKeeps(lo: int, hi: int, st: St, x: Res, g: St -> Res)
    requires AllKeep(lo, hi, st, x) && KeepFrom(lo, hi, g)
    ensures AllKeep(lo, hi, st, Bind(x, g))
    decreases |x.rs|
  {
    hide Keeps, Append;
    if x.rs != [] {
      var rest := Res(x.rs[1..], x.done);
      BindKeeps(lo, hi, st, rest, g);
      KeepsTrans(lo, hi, st, x.rs[0], g(x.rs[0]));
      AppendKeeps(lo, hi, st, g(x.rs[0]), Bind(rest, g));
    }
  }

  lemma UnitKeeps(lo: int, hi: int, st: St)
    ensures AllKeep(lo, hi, st, Unit(st))
  {
  }

  lemma ChoiceKeeps(lo: int, hi: int, greedy: bool, st: St, x: Res)
    requires AllKeep(lo, hi, st, x)
    ensures AllKeep(lo, hi, st, Choice(greedy, x, st))
  {
    hide Append;
    UnitKeeps(lo, hi, st);
    AppendKeeps(lo, hi, st, x, Unit(st));
    AppendKeeps(lo, hi, st, Unit(st), x);
  }

  lemma Widen(lo: int, hi: int, lo': int, hi': int, st: St, x: Res)
    requires AllKeep(lo, hi, st, x) && lo' <= lo && hi <= hi'
    ensures AllKeep(lo', hi', st, x)
  {
  }

  /** A node changes only the slots of its own captures. */
  lemma {:induction false} MatchKeeps(e: Env, p: Node, back: bool, cc: nat, st: St, f: nat)
    requires WellFormed(p)
    ensures AllKeep(2 * cc, 2 * (cc + Caps(p)), st, Match(e, p, back, cc, st, f))
    decreases f, p, 1, 0
  {
    hide Match, AllKeep, Caps, WellFormed;
    Children(p);
    match p
    case Cat(_, _) => CatKeeps(e, p, back, cc, st, f);
    case Alt(_, _) => AltKeeps(e, p, back, cc, st, f);
    case Capture(_) => CaptureKeeps(e, p, back, cc, st, f);
    case Look(_, _, _) => LookKeeps(e, p, back, cc, st, f);
    case Quant(_, _, _, _) => QuantKeeps(e, p, back, cc, st, f);
    case _ => LeafKeeps(e, p, back, cc, st, f);
  }

  lemma LeafKeeps(e: Env, p: Node, back: bool, cc: nat, st: St, f: nat)
    requires WellFormed(p) && IsLeaf(p)
    ensures AllKeep(2 * cc, 2 * (cc + Caps(p)), st, Match(e, p, back, cc, st, f))
  {
    hide CharTest, AtLineStart, AtLineEnd, AtWordBoundary, RefPos;
  }

  lemma CapsParts(p: Node)
    ensures p.Cat? ==> Caps(p) == Caps(p.init) + Caps(p.last)
    ensures p.Alt? ==> Caps(p) == Caps(p.left) + Caps(p.right)
    ensures p.Capture? ==> Caps(p) == 1 + Caps(p.body)
    ensures p.Look? || p.Quant? ==> Caps(p) == Caps(p.body)
  {
  }

  lemma {:induction false} CatKeeps(e: Env, p: Node, back: bool, cc: nat, st: St, f: nat)
    requires p.Cat? && WellFormed(p) && WellFormed(p.init) && WellFormed(p.last)
    ensures AllKeep(2 * cc, 2 * (cc + Caps(p)), st, Match(e, p, back, cc, st, f))
    decreases f, p, 0, 0
  {
    hide Match, AllKeep, Bind, Caps, WellFormed;
    CapsParts(p);
    CatMatch(e, p, back, cc, st, f);
    var mid, lo, hi := cc + Caps(p.init), 2 * cc, 2 * (cc + Caps(p));
    var (a, ca, b, cb) := if back then (p.last, mid, p.init, cc) else (p.init, cc, p.last, mid);
    MatchKeeps(e, a, back, ca, st, f);
    Widen(2 * ca, 2 * (ca + Caps(a)), lo, hi, st, Match(e, a, back, ca, st, f));
    forall r ensures AllKeep(lo, hi, r, ThenNode(e, b, back, cb, f)(r)) {
      MatchKeeps(e, b, back, cb, r, f);
      Widen(2 * cb, 2 * (cb + Caps(b)), lo, hi, r, Match(e, b, back, cb, r, f));
    }
    BindKeeps(lo, hi, st, Match(e, a, back, ca, st, f), ThenNode(e, b, back, cb, f));
  }

  lemma {:induction false} AltKeeps(e: Env, p: Node, back: bool, cc: nat, st: St, f: nat)
    requires WellFormed(p) && p.Alt?
    ensures AllKeep(2 * cc, 2 * (cc + Caps(p)), st, Match(e, p, back, cc, st, f))
    decreases f, p, 0, 0
  {
    hide Match, AllKeep, Append, Caps;
    CapsParts(p);
    AltMatch(e, p, back, cc, st, f);
    var cb, lo, hi := cc + Caps(p.left), 2 * cc, 2 * (cc + Caps(p));
    MatchKeeps(e, p.left, back, cc, st, f);
    MatchKeeps(e, p.right, back, cb, st, f);
    Widen(lo, 2 * cb, lo, hi, st, Match(e, p.left, back, cc, st, f));
    Widen(2 * cb, hi, lo, hi, st, Match(e, p.right, back, cb, st, f));
    AppendKeeps(lo, hi, st, Match(e, p.left, back, cc, st, f), Match(e, p.right, back, cb, st, f));
  }

  lemma SetKeeps(lo: int, hi: int, st: St, slot: nat, x: Res)
    requires lo <= slot < hi && AllKeep(lo, hi, SetCap(st, slot), x)
    ensures AllKeep(lo, hi, st, x)
  {
  }

  lemma CloseKeeps(lo: int, hi: int, back: bool, cc: nat)
    requires lo <= 2 * cc && 2 * cc + 1 < hi
    ensures KeepFrom(lo, hi, ThenClose(back, cc))
  {
  }

  lemma {:induction false} CaptureKeeps(e: Env, p: Node, back: bool, cc: nat, st: St, f: nat)
    requires WellFormed(p) && p.Capture?
    ensures AllKeep(2 * cc, 2 * (cc + Caps(p)), st, Match(e, p, back, cc, st, f))
    decreases f, p, 0, 0
  {
    hide Match, AllKeep, Bind, KeepFrom, Caps, SetCap;
    CapsParts(p);
    CaptureMatch(e, p, back, cc, st, f);
    var a, lo, hi, slot := p.body, 2 * cc, 2 * (cc + Caps(p)), if back then 2 * cc + 1 else 2 * cc;
    var st0 := SetCap(st, slot);
    var x := Match(e, a, back, cc + 1, st0, f);
    MatchKeeps(e, a, back, cc + 1, st0, f);
    Widen(2 * (cc + 1), hi, lo, hi, st0, x);
    CloseKeeps(lo, hi, back, cc);
    BindKeeps(lo, hi, st0, x, ThenClose(back, cc));
    SetKeeps(lo, hi, st, slot, Bind(x, ThenClose(back, cc)));
  }

  lemma AroundKeeps(lo: int, hi: int, negative: bool, st: St, x: Res)
    requires AllKeep(lo, hi, st, x)
    ensures AllKeep(lo, hi, st, Around(negative, st, x))
  {
  }

  lemma {:induction false} LookKeeps(e: Env, p: Node, back: bool, cc: nat, st: St, f: nat)
    requires WellFormed(p) && p.Look?
    ensures AllKeep(2 * cc, 2 * (cc + Caps(p)), st, Match(e, p, back, cc, st, f))
    decreases f, p, 0, 0
  {
    hide Match, AllKeep, Around, Caps;
    CapsParts(p);
    LookMatch(e, p, back, cc, st, f);
    MatchKeeps(e, p.body, p.backward, cc, st, f);
    AroundKeeps(2 * cc, 2 * (cc + Caps(p)), p.negative, st, Match(e, p.body, p.backward, cc, st, f));
  }

  lemma ResetKeeps(lo: int, hi: int, st: St, first: nat, last: nat, x: Res)
    requires lo <= 2 * first && 2 * last + 1 < hi && AllKeep(lo, hi, ResetCaps(st, first, last), x)
    ensures AllKeep(lo, hi, st, x)
  {
  }

  lemma {:induction false} QuantKeeps(e: Env, p: Node, back: bool, cc: nat, st: St, f: nat)
    requires WellFormed(p) && p.Quant?
    ensures AllKeep(2 * cc, 2 * (cc + Caps(p)), st, Match(e, p, back, cc, st, f))
    decreases f, p, 0, 0
  {
    hide AllKeep, Bind, Caps, ResetCaps;
    var Quant(a, min, max, greedy) := p;
    CapsParts(p);
    var lo, hi := 2 * cc, 2 * (cc + Caps(p));
    var st0 := if min == 0 && Caps(a) > 0 then ResetCaps(st, cc, cc + Caps(a) - 1) else st;
    ExactlyKeeps(e, a, back, cc, min, st0, f);
    var g := ThenOptional(e, a, back, cc, min, max, greedy, f);
    forall r ensures AllKeep(lo, hi, r, g(r)) {
      if max == INT32_MAX {
        StarKeeps(e, a, back, cc, greedy, r, f);
      } else {
        UpToKeeps(e, a, back, cc, max - min, greedy, r, f);
      }
    }
    var x := Bind(Exactly(e, a, back, cc, min, st0, f), g);
    BindKeeps(lo, hi, st0, Exactly(e, a, back, cc, min, st0, f), g);
    if min == 0 && Caps(a) > 0 { ResetKeeps(lo, hi, st, cc, cc + Caps(a) - 1, x); }
  }

  lemma {:induction false} ExactlyKeeps(e: Env, a: Node, back: bool, cc: nat, n: nat, st: St, f: nat)
    requires WellFormed(a)
    ensures AllKeep(2 * cc, 2 * (cc + Caps(a)), st, Exactly(e, a, back, cc, n, st, f))
    decreases f, a, 2, 2 * n
  {
    hide AllKeep, Bind, Caps, Match, WellFormed;
    var lo, hi := 2 * cc, 2 * (cc + Caps(a));
    if n > 0 {
      MatchKeeps(e, a, back, cc, st, f);
      var g := ThenExactly(e, a, back, cc, n - 1, f);
      forall r ensures AllKeep(lo, hi, r, g(r)) { ExactlyKeeps(e, a, back, cc, n - 1, r, f); }
      BindKeeps(lo, hi, st, Match(e, a, back, cc, st, f), g);
    } else {
      UnitKeeps(lo, hi, st);
    }
  }

  lemma {:induction false} UpToKeeps(e: Env, a: Node, back: bool, cc: nat, n: nat, greedy: bool, st: St, f: nat)
    requires WellFormed(a)
    ensures AllKeep(2 * cc, 2 * (cc + Caps(a)), st, UpTo(e, a, back, cc, n, greedy, st, f))
    decreases f, a, 2, 2 * n
  {
    hide AllKeep, Bind, Caps, Match, WellFormed, Choice;
    var lo, hi := 2 * cc, 2 * (cc + Caps(a));
    if n > 0 {
      MatchKeeps(e, a, back, cc, st, f);
      var g := ThenUpTo(e, a, back, cc, n - 1, greedy, f);
      forall r ensures AllKeep(lo, hi, r, g(r)) { UpToKeeps(e, a, back, cc, n - 1, greedy, r, f); }
      BindKeeps(lo, hi, st, Match(e, a, back, cc, st, f), g);
      ChoiceKeeps(lo, hi, greedy, st, Bind(Match(e, a, back, cc, st, f), g));
    } else {
      UnitKeeps(lo, hi, st);
    }
  }

  lemma NoneKeep(lo: int, hi: int, st: St)
    ensures AllKeep(lo, hi, st, Res([], false))
  {
  }

  lemma {:induction false} StarKeeps(e: Env, a: Node, back: bool, cc: nat, greedy: bool, st: St, f: nat)
    requires WellFormed(a)
    ensures AllKeep(2 * cc, 2 * (cc + Caps(a)), st, Star(e, a, back, cc, greedy, st, f))
    decreases f, a, 4, 0
  {
    hide AllKeep, Bind, Caps, Match, WellFormed, Choice;
    var lo, hi := 2 * cc, 2 * (cc + Caps(a));
    if f > 0 {
      MatchKeeps(e, a, back, cc, st, f - 1);
      var g := ThenStar(e, a, back, cc, greedy, st.pos, f - 1);
      forall r ensures AllKeep(lo, hi, r, g(r)) {
        StarKeeps(e, a, back, cc, greedy, r, f - 1);
        UnitKeeps(lo, hi, r);
      }
      BindKeeps(lo, hi, st, Match(e, a, back, cc, st, f - 1), g);
      ChoiceKeeps(lo, hi, greedy, st, Bind(Match(e, a, back, cc, st, f - 1), g));
    } else {
      NoneKeep(lo, hi, st);
    }
  }

  // ---- what a capture records ----

  /** Begin and end of the text between 'from' and 'to', whichever way it was matched. */
  ghost predicate Records(back: bool, cc: nat, from: nat, r: St)
    requires 2 * cc + 1 < |r.caps|
  {
    if back then r.caps[2 * cc] == r.pos && r.caps[2 * cc + 1] == from
    else r.caps[2 * cc] == from && r.caps[2 * cc + 1] == r.pos
  }

  /** Every result is closed over one of 'x' that still has the opening slot. */
  ghost predicate Opened(back: bool, cc: nat, from: nat, m: nat, x: Res) {
    forall i :: 0 <= i < |x.rs| ==>
      |x.rs[i].caps| == m && 2 * cc + 1 < m && x.rs[i].caps[if back then 2 * cc + 1 else 2 * cc] == from
  }

  ghost predicate Recorded(back: bool, cc: nat, from: nat, m: nat, x: Res) {
    forall i :: 0 <= i < |x.rs| ==> |x.rs[i].caps| == m && 2 * cc + 1 < m && Records(back, cc, from, x.rs[i])
  }

  lemma {:induction false} CloseRecords(back: bool, cc: nat, from: nat, m: nat, x: Res)
    requires Opened(back, cc, from, m, x)
    ensures Recorded(back, cc, from, m, Bind(x, ThenClose(back, cc)))
    decreases |x.rs|
  {
    if x.rs != [] {
      var rest := Res(x.rs[1..], x.done);
      CloseRecords(back, cc, from, m, rest);
      OneRecorded(back, cc, from, m, x.rs[0]);
      AppendRecorded(back, cc, from, m, ThenClose(back, cc)(x.rs[0]), Bind(rest, ThenClose(back, cc)));
    }
  }

  lemma OneRecorded(back: bool, cc: nat, from: nat, m: nat, st: St)
    requires |st.caps| == m && 2 * cc + 1 < m && st.caps[if back then 2 * cc + 1 else 2 * cc] == from
    ensures Recorded(back, cc, from, m, ThenClose(back, cc)(st))
  {
  }

  lemma AppendRecorded(back: bool, cc: nat, from: nat, m: nat, x: Res, y: Res)
    requires Recorded(back, cc, from, m, x) && Recorded(back, cc, from, m, y)
    ensures Recorded(back, cc, from, m, Append(x, y))
  {
  }

  lemma OpeningKept(back: bool, cc: nat, st: St, hi: int, x: Res)
    requires 2 * cc + 1 < |st.caps| && AllKeep(2 * (cc + 1), hi, SetCap(st, if back then 2 * cc + 1 else 2 * cc), x)
    ensures Opened(back, cc, st.pos, |st.caps|, x)
  {
  }

  /**
   Each result of a capture holds, in its two slots, the position it began at
   and the one it ended at, in text order; the captures outside it are as before.
   */
  lemma CaptureRecords(e: Env, a: Node, back: bool, cc: nat, st: St, f: nat, i: nat)
    requires WellFormed(a) && 2 * (cc + 1 + Caps(a)) <= |st.caps|
    requires i < |Match(e, Capture(a), back, cc, st, f).rs|
    ensures var r := Match(e, Capture(a), back, cc, st, f).rs[i];
            && |r.caps| == |st.caps|
            && (!back ==> r.caps[2 * cc] == st.pos && r.caps[2 * cc + 1] == r.pos)
            && (back ==> r.caps[2 * cc] == r.pos && r.caps[2 * cc + 1] == st.pos)
            && (forall n :: 0 <= n < |st.caps| && !(2 * cc <= n < 2 * (cc + 1 + Caps(a))) ==> r.caps[n] == st.caps[n])
  {
    hide Match, Bind, Caps, WellFormed, SetCap, Opened;
    var p := Capture(a);
    WholeCapture(a);
    CaptureMatch(e, p, back, cc, st, f);
    MatchKeeps(e, p, back, cc, st, f);
    var st0 := SetCap(st, if back then 2 * cc + 1 else 2 * cc);
    MatchKeeps(e, a, back, cc + 1, st0, f);
    OpeningKept(back, cc, st, 2 * (cc + 1 + Caps(a)), Match(e, a, back, cc + 1, st0, f));
    CloseRecords(back, cc, st.pos, |st.caps|, Match(e, a, back, cc + 1, st0, f));
  }

  lemma WholeCapture(a: Node)
    requires WellFormed(a)
    ensures WellFormed(Capture(a)) && Caps(Capture(a)) == 1 + Caps(a)
  {
  }

  // ---- the reported match ----

  /**
   The first result of the search is the first result at the leftmost position
   that has one: everything before that position was tried and failed.
   */
  lemma {:induction false} LeftmostFirst(e: Env, p: Node, pos: nat, caps: seq<int>, f: nat) returns (start: nat)
    requires WellFormed(p) && WellFormed(Capture(p)) && pos <= |e.input| && Search(e, p, pos, caps, f).rs != []
    ensures pos <= start <= |e.input| && (e.flags.sticky ==> start == pos)
    ensures var here := Match(e, Capture(p), false, 0, St(start, caps), f);
            here.rs != [] && here.rs[0] == Search(e, p, pos, caps, f).rs[0]
    ensures forall q: nat :: pos <= q < start ==> Match(e, Capture(p), false, 0, St(q, caps), f) == Nothing
    decreases |e.input| - pos
  {
    hide Match, WellFormed, Search, Append;
    SearchStep(e, p, pos, caps, f);
    start := pos;
    if Match(e, Capture(p), false, 0, St(pos, caps), f).rs == [] {
      start := LeftmostFirst(e, p, pos + 1, caps, f);
    }
  }

  /** One position of the search: its own first result, or what the next positions give if there is none. */
  lemma SearchStep(e: Env, p: Node, pos: nat, caps: seq<int>, f: nat)
    requires WellFormed(p) && WellFormed(Capture(p)) && pos <= |e.input|
    ensures var here, r := Match(e, Capture(p), false, 0, St(pos, caps), f), Search(e, p, pos, caps, f);
            && (here.rs != [] ==> r.rs != [] && r.rs[0] == here.rs[0])
            && (here.rs == [] && r.rs != [] ==> here.done && !e.flags.sticky && pos < |e.input|
                                                && r == Search(e, p, pos + 1, caps, f))
  {
    hide Match, WellFormed;
  }

  /** The reported captures: capture 0 is where the match lies, at or after the start position. */
  lemma ReportedMatch(e: Env, p: Node, pos: nat, caps: seq<int>, f: nat)
    requires WellFormed(p) && pos <= |e.input| && |caps| == 2 * (1 + Caps(p)) && Search(e, p, pos, caps, f).rs != []
    ensures var c := Search(e, p, pos, caps, f).rs[0].caps;
            |c| == |caps| && pos <= c[0] <= c[1] <= |e.input| && (e.flags.sticky ==> c[0] == pos)
  {
    hide Match, WellFormed, Search, Caps, MustMove;
    WholeCapture(p);
    var start := LeftmostFirst(e, p, pos, caps, f);
    CaptureRecords(e, p, false, 0, St(start, caps), f, 0);
    MatchSound(e, Capture(p), false, 0, St(start, caps), f);
  }
}
