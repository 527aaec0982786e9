/**
 The compiled code of every node, run by the machine, delivers the node's list
 of results in order: sequencing, alternation, captures, lookarounds and the
 six shapes of quantified terms.
 */
module Loops {
  import opened Opcodes
  import opened Pattern
  import opened Matcher
  import opened MatcherFacts
  import opened Codegen
  import opened CodegenFacts
  import opened CharRange
  import opened Machine
  import opened Traces
  import opened Fragments
  import opened Straight

  /** Node 'p' is compiled at 'pc', to be run from stack depth 'd'. */
  ghost predicate NodeAt(P: Prog, p: Node, back: bool, cc: nat, pc: int, d: int) {
    && ValidEnv(P.e)
    && WellFormed(p)
    && cc + Caps(p) <= P.captureCount
    && Placed(P, pc, Code(P.e, p, back, cc), d)
  }

  ghost function Len(P: Prog, p: Node, back: bool, cc: nat): (n: int)
    requires WellFormed(p)
  {
    ByteLen(Code(P.e, p, back, cc))
  }

  ghost function Bound(P: Prog, f: nat): (b: int) { f - Slack(P) }

  lemma SoundOk(P: Prog, back: bool, strict: bool, st: St, x: Res)
    requires Sound(P.e, back, strict, st, x) && Ok(P, st)
    ensures AllOk(P, x)
  {
  }

  lemma MatchOk(P: Prog, p: Node, back: bool, cc: nat, st: St, f: nat)
    requires WellFormed(p) && Ok(P, st)
    ensures AllOk(P, Match(P.e, p, back, cc, st, f))
  {
    hide Match, AllOk;
    MatchSound(P.e, p, back, cc, st, f);
    SoundOk(P, back, MustMove(p), st, Match(P.e, p, back, cc, st, f));
  }

  // ---- the node itself ----

  /** Main correspondence: code of 'p' at 'pc' delivers exactly the results of 'p', in order. */
  lemma {:induction false} NodeEmits(P: Prog, p: Node, back: bool, cc: nat, pc: int, st: St,
                                     stk: seq<int>, saved: seq<Entry>, f: nat)
    requires NodeAt(P, p, back, cc, pc, |stk|) && Ok(P, st)
    ensures Emits(P, Run(pc, st, stk, saved), pc + Len(P, p, back, cc), stk, saved,
                  Match(P.e, p, back, cc, st, f), Bound(P, f))
    decreases f, p, 9, 0
  {
    hide Emits, NodeAt, Match, Len;
    match p
    case Cat(_, _) => CatEmits(P, p, back, cc, pc, st, stk, saved, f);
    case Alt(_, _) => AltEmits(P, p, back, cc, pc, st, stk, saved, f);
    case Capture(_) => CaptureEmits(P, p, back, cc, pc, st, stk, saved, f);
    case Look(_, _, _) => LookNodeEmits(P, p, back, cc, pc, st, stk, saved, f);
    case Quant(_, _, _, _) => QuantEmits(P, p, back, cc, pc, st, stk, saved, f);
    case _ => LeafEmits(P, p, back, cc, pc, st, stk, saved, f);
  }

  lemma {:induction false} NodeContinues(P: Prog, p: Node, back: bool, cc: nat, pc: int, stk: seq<int>, f: nat)
    requires NodeAt(P, p, back, cc, pc, |stk|)
    ensures Continues(P, pc, stk, pc + Len(P, p, back, cc), stk, ThenNode(P.e, p, back, cc, f), Bound(P, f))
    decreases f, p, 10, 0
  {
    hide Emits, Match, Len;
    forall st, saved | Ok(P, st)
      ensures Emits(P, Run(pc, st, stk, saved), pc + Len(P, p, back, cc), stk, saved,
                    ThenNode(P.e, p, back, cc, f)(st), Bound(P, f))
    {
      NodeEmits(P, p, back, cc, pc, st, stk, saved, f);
    }
  }

  lemma CatParts(P: Prog, p: Node, back: bool, cc: nat, pc: int, d: int)
    requires NodeAt(P, p, back, cc, pc, d) && p.Cat?
    ensures var mid := cc + Caps(p.init);
            var (a, ca, b, cb) := if back then (p.last, mid, p.init, cc) else (p.init, cc, p.last, mid);
            && NodeAt(P, a, back, ca, pc, d)
            && NodeAt(P, b, back, cb, pc + Len(P, a, back, ca), d)
            && Len(P, p, back, cc) == Len(P, a, back, ca) + Len(P, b, back, cb)
  {
    hide Placed, ByteLen, Balanced;
    var mid := cc + Caps(p.init);
    var (a, ca, b, cb) := if back then (p.last, mid, p.init, cc) else (p.init, cc, p.last, mid);
    var l, r := Code(P.e, a, back, ca), Code(P.e, b, back, cb);
    CodeBalanced(P.e, a, back, ca);
    PlacedPair(P, pc, l, r, d);
    ByteLenConcat(l, r);
  }

  lemma {:induction false} CatEmits(P: Prog, p: Node, back: bool, cc: nat, pc: int, st: St,
                                    stk: seq<int>, saved: seq<Entry>, f: nat)
    requires NodeAt(P, p, back, cc, pc, |stk|) && Ok(P, st) && p.Cat?
    ensures Emits(P, Run(pc, st, stk, saved), pc + Len(P, p, back, cc), stk, saved,
                  Match(P.e, p, back, cc, st, f), Bound(P, f))
    decreases f, p, 8, 0
  {
    hide Emits, Len, Continues, AllOk, Bind, Placed, Code, Match, WellFormed;
    Children(p);
    CatMatch(P.e, p, back, cc, st, f);
    CatParts(P, p, back, cc, pc, |stk|);
    var mid := cc + Caps(p.init);
    var (a, ca, b, cb) := if back then (p.last, mid, p.init, cc) else (p.init, cc, p.last, mid);
    var pcMid := pc + Len(P, a, back, ca);
    NodeEmits(P, a, back, ca, pc, st, stk, saved, f);
    NodeContinues(P, b, back, cb, pcMid, stk, f);
    MatchOk(P, a, back, ca, st, f);
    EmitsBind(P, Run(pc, st, stk, saved), pcMid, stk, pcMid + Len(P, b, back, cb), stk, saved,
              Match(P.e, a, back, ca, st, f), ThenNode(P.e, b, back, cb, f), Bound(P, f));
  }

  lemma AltParts(P: Prog, p: Node, back: bool, cc: nat, pc: int, d: int)
    requires NodeAt(P, p, back, cc, pc, d) && p.Alt?
    ensures var cb := cc + Caps(p.left);
            var m, n := Len(P, p.left, back, cc), Len(P, p.right, back, cb);
            && Placed(P, pc, [ISplit(true, m + 5)], d)
            && NodeAt(P, p.left, back, cc, pc + 5, d)
            && Placed(P, pc + 5 + m, [IGoto(n)], d)
            && NodeAt(P, p.right, back, cb, pc + 10 + m, d)
            && Len(P, p, back, cc) == m + n + 10
  {
    hide Placed, ByteLen, Balanced;
    var cb := cc + Caps(p.left);
    var l, r := Code(P.e, p.left, back, cc), Code(P.e, p.right, back, cb);
    var split, jump := ISplit(true, ByteLen(l) + 5), IGoto(ByteLen(r));
    assert [split] + l + [jump] + r == [split] + (l + ([jump] + r));
    PlacedCons(P, pc, split, l + ([jump] + r), d);
    CodeBalanced(P.e, p.left, back, cc);
    PlacedPair(P, pc + 5, l, [jump] + r, d);
    PlacedCons(P, pc + 5 + ByteLen(l), jump, r, d);
    LenCons(split, l + ([jump] + r));
    ByteLenConcat(l, [jump] + r);
    LenCons(jump, r);
  }

  lemma LenCons(i: Instr, s: seq<Instr>)
    ensures ByteLen([i] + s) == Size(i) + ByteLen(s)
  {
    assert ([i] + s)[1..] == s;
  }

  lemma {:induction false} AltEmits(P: Prog, p: Node, back: bool, cc: nat, pc: int, st: St,
                                    stk: seq<int>, saved: seq<Entry>, f: nat)
    requires NodeAt(P, p, back, cc, pc, |stk|) && Ok(P, st) && p.Alt?
    ensures Emits(P, Run(pc, st, stk, saved), pc + Len(P, p, back, cc), stk, saved,
                  Match(P.e, p, back, cc, st, f), Bound(P, f))
    decreases f, p, 8, 0
  {
    hide Emits, Len, AllOk, Append, Placed, Code, OneStep, Match;
    AltParts(P, p, back, cc, pc, |stk|);
    AltMatch(P.e, p, back, cc, st, f);
    var cb := cc + Caps(p.left);
    var m, n := Len(P, p.left, back, cc), Len(P, p.right, back, cb);
    var far := pc + 10 + m;
    var top := Save(SplitState, far, st, stk);
    var x, y := Match(P.e, p.left, back, cc, st, f), Match(P.e, p.right, back, cb, st, f);
    NodeEmits(P, p.left, back, cc, pc + 5, st, stk, saved + [top], f);
    MatchOk(P, p.left, back, cc, st, f);
    GotoStep(P, pc + 5 + m, n, |stk|, stk);
    EmitsThenStep(P, Run(pc + 5, st, stk, saved + [top]), pc + 5 + m, stk, far + n, stk, saved + [top], x, Bound(P, f));
    NodeEmits(P, p.right, back, cb, far, st, stk, saved, f);
    SplitEmits(P, pc, true, m + 5, |stk|, st, stk, saved, x, y, far + n, stk, Bound(P, f));
    EmitsWeaken(P, Run(pc, st, stk, saved), far + n, stk, saved, Append(x, y), Bound(P, f) + 1, Bound(P, f));
  }

  lemma WrapParts(P: Prog, pc: int, i: Instr, a: seq<Instr>, j: Instr, d: int)
    requires Placed(P, pc, [i] + a + [j], d) && Balanced(a) && StackEffect(i) == 0
    ensures Placed(P, pc, [i], d) && Placed(P, pc + Size(i), a, d) && Placed(P, pc + Size(i) + ByteLen(a), [j], d)
    ensures ByteLen([i] + a + [j]) == Size(i) + ByteLen(a) + Size(j)
  {
    hide Placed, ByteLen, Balanced;
    assert [i] + a + [j] == [i] + (a + [j]);
    PlacedCons(P, pc, i, a + [j], d);
    PlacedPair(P, pc + Size(i), a, [j], d);
    LenCons(i, a + [j]);
    ByteLenConcat(a, [j]);
    LenOne(j);
  }

  lemma LenOne(j: Instr)
    ensures ByteLen([j]) == Size(j)
  {
    assert [j][1..] == [];
    assert ByteLen([]) == 0;
  }

  lemma SaveStep(P: Prog, pc: int, end: bool, n: nat, d: int, st: St, stk: seq<int>, saved: seq<Entry>)
    requires Placed(P, pc, [ISave(end, n)], d) && n < P.captureCount && Ok(P, st)
    ensures Steps(P, Run(pc, st, stk, saved), 1) ==
            Run(pc + 2, SetCap(st, if end then 2 * n + 1 else 2 * n), stk, saved)
  {
    hide Placed, Steps;
    StepAt(P, pc, ISave(end, n), d, st, stk, saved);
  }

  lemma CloseContinues(P: Prog, pc: int, back: bool, n: nat, stk: seq<int>, b: int)
    requires Placed(P, pc, [ISave(!back, n)], |stk|) && n < P.captureCount
    ensures Continues(P, pc, stk, pc + 2, stk, ThenClose(back, n), b)
  {
    hide Emits, Placed, Steps;
    forall st, saved | Ok(P, st)
      ensures Emits(P, Run(pc, st, stk, saved), pc + 2, stk, saved, ThenClose(back, n)(st), b)
    {
      SaveStep(P, pc, !back, n, |stk|, st, stk, saved);
      var st1 := SetCap(st, if back then 2 * n else 2 * n + 1);
      EmitsUnit(P, st1, pc + 2, stk, saved, b);
      StepThen(P, Run(pc, st, stk, saved), Run(pc + 2, st1, stk, saved), pc + 2, stk, saved, Unit(st1), b);
    }
  }

  lemma CaptureParts(P: Prog, p: Node, back: bool, cc: nat, pc: int, d: int)
    requires NodeAt(P, p, back, cc, pc, d) && p.Capture?
    ensures WellFormed(p.body) && cc < P.captureCount
    ensures var len := Len(P, p.body, back, cc + 1);
            && Placed(P, pc, [ISave(back, cc)], d)
            && NodeAt(P, p.body, back, cc + 1, pc + 2, d)
            && Placed(P, pc + 2 + len, [ISave(!back, cc)], d)
            && Len(P, p, back, cc) == len + 4
  {
    hide Placed, ByteLen, Balanced, ValidEnv;
    CodeBalanced(P.e, p.body, back, cc + 1);
    WrapParts(P, pc, ISave(back, cc), Code(P.e, p.body, back, cc + 1), ISave(!back, cc), d);
  }

  lemma CaptureOk(P: Prog, p: Node, back: bool, cc: nat, pc: int, d: int, st: St)
    requires NodeAt(P, p, back, cc, pc, d) && Ok(P, st) && p.Capture?
    ensures WellFormed(p) && Ok(P, SetCap(st, if back then 2 * cc + 1 else 2 * cc))
  {
    hide WellFormed, Placed, ValidEnv, Code;
  }

  lemma CaptureAround(P: Prog, pc: int, back: bool, cc: nat, len: int, st: St, stk: seq<int>, saved: seq<Entry>,
                      x: Res, b: int)
    requires Placed(P, pc, [ISave(back, cc)], |stk|) && Placed(P, pc + 2 + len, [ISave(!back, cc)], |stk|)
    requires cc < P.captureCount && Ok(P, st) && AllOk(P, x)
    requires var st0 := SetCap(st, if back then 2 * cc + 1 else 2 * cc);
             Emits(P, Run(pc + 2, st0, stk, saved), pc + 2 + len, stk, saved, x, b)
    ensures Emits(P, Run(pc, st, stk, saved), pc + len + 4, stk, saved, Bind(x, ThenClose(back, cc)), b)
  {
    hide Emits, Continues, AllOk, Bind, Placed, Steps, SetCap, Ok;
    var st0 := SetCap(st, if back then 2 * cc + 1 else 2 * cc);
    var pcMid := pc + 2 + len;
    SaveStep(P, pc, back, cc, |stk|, st, stk, saved);
    CloseContinues(P, pcMid, back, cc, stk, b);
    EmitsBind(P, Run(pc + 2, st0, stk, saved), pcMid, stk, pcMid + 2, stk, saved, x, ThenClose(back, cc), b);
    StepThen(P, Run(pc, st, stk, saved), Run(pc + 2, st0, stk, saved), pcMid + 2, stk, saved,
             Bind(x, ThenClose(back, cc)), b);
  }

  lemma {:induction false} CaptureEmits(P: Prog, p: Node, back: bool, cc: nat, pc: int, st: St,
                                        stk: seq<int>, saved: seq<Entry>, f: nat)
    requires NodeAt(P, p, back, cc, pc, |stk|) && Ok(P, st) && p.Capture?
    ensures Emits(P, Run(pc, st, stk, saved), pc + Len(P, p, back, cc), stk, saved,
                  Match(P.e, p, back, cc, st, f), Bound(P, f))
    decreases f, p, 8, 0
  {
    hide Emits, AllOk, Bind, Placed, Len, Match, NodeAt, WellFormed, Caps, SetCap, Ok;
    CaptureOk(P, p, back, cc, pc, |stk|, st);
    CaptureMatch(P.e, p, back, cc, st, f);
    CaptureParts(P, p, back, cc, pc, |stk|);
    var st0 := SetCap(st, if back then 2 * cc + 1 else 2 * cc);
    NodeEmits(P, p.body, back, cc + 1, pc + 2, st0, stk, saved, f);
    MatchOk(P, p.body, back, cc + 1, st0, f);
    CaptureAround(P, pc, back, cc, Len(P, p.body, back, cc + 1), st, stk, saved,
                  Match(P.e, p.body, back, cc + 1, st0, f), Bound(P, f));
  }

  lemma {:induction false} LookNodeEmits(P: Prog, p: Node, back: bool, cc: nat, pc: int, st: St,
                                         stk: seq<int>, saved: seq<Entry>, f: nat)
    requires NodeAt(P, p, back, cc, pc, |stk|) && Ok(P, st) && p.Look?
    ensures Emits(P, Run(pc, st, stk, saved), pc + Len(P, p, back, cc), stk, saved,
                  Match(P.e, p, back, cc, st, f), Bound(P, f))
    decreases f, p, 8, 0
  {
    hide Emits, Around, Placed, Steps, Balanced, ByteLen;
    var Look(negative, backward, a) := p;
    var code := Code(P.e, a, backward, cc);
    CodeBalanced(P.e, a, backward, cc);
    WrapParts(P, pc, ILookahead(negative, ByteLen(code) + 1), code, IMatch, |stk|);
    var pcMatch := pc + 5 + ByteLen(code);
    var top := Save(if negative then NegativeLookaheadState else LookaheadState, pcMatch + 1, st, stk);
    NodeEmits(P, a, backward, cc, pc + 5, st, stk, saved + [top], f);
    LookEmits(P, pc, negative, ByteLen(code) + 1, pcMatch, |stk|, st, stk, saved,
              Match(P.e, a, backward, cc, st, f), Bound(P, f));
  }

  // ---- leaves ----

  lemma SimpleInstrEmits(P: Prog, pc: int, i: Instr, st: St, stk: seq<int>, saved: seq<Entry>, b: int)
    requires Placed(P, pc, [i], |stk|) && IsSimple(i)
    ensures Emits(P, Run(pc, st, stk, saved), pc + Size(i), stk, saved, Positioned(st, SimpleStep(P.e, i, st.pos)), b)
  {
    hide Emits, Placed, SimpleStep;
    MovedEmits(P, pc, i, |stk|, st, stk, saved, SimpleStep(P.e, i, st.pos), b);
  }

  lemma LeafEmits(P: Prog, p: Node, back: bool, cc: nat, pc: int, st: St, stk: seq<int>, saved: seq<Entry>, f: nat)
    requires NodeAt(P, p, back, cc, pc, |stk|) && Ok(P, st) && IsLeaf(p)
    ensures Emits(P, Run(pc, st, stk, saved), pc + Len(P, p, back, cc), stk, saved,
                  Match(P.e, p, back, cc, st, f), Bound(P, f))
  {
    hide Emits, Placed, AtLineStart, AtLineEnd, AtWordBoundary, RefPos, CharTest;
    var b := Bound(P, f);
    if p.Empty? {
      EmitsUnit(P, st, pc, stk, saved, b);
    } else if p.Dot? || p.Char? || p.Class? {
      CharNodeEmits(P, p, back, cc, pc, st, stk, saved, f);
    } else if p.BackReference? {
      LenOne(IBackReference(back, p.n));
      MovedEmits(P, pc, IBackReference(back, p.n), |stk|, st, stk, saved, RefPos(P.e, p.n, back, st), b);
    } else {
      var i := Code(P.e, p, back, cc)[0];
      assert Code(P.e, p, back, cc) == [i];
      LenOne(i);
      SimpleInstrEmits(P, pc, i, st, stk, saved, b);
    }
  }

  lemma CharNodeEmits(P: Prog, p: Node, back: bool, cc: nat, pc: int, st: St, stk: seq<int>, saved: seq<Entry>, f: nat)
    requires NodeAt(P, p, back, cc, pc, |stk|) && Ok(P, st) && (p.Dot? || p.Char? || p.Class?)
    ensures Emits(P, Run(pc, st, stk, saved), pc + Len(P, p, back, cc), stk, saved,
                  OneChar(P.e, p, back, st), Bound(P, f))
  {
    hide Emits, Placed, CharTest, ReadsChar, CharInstr;
    var i, b := CharInstr(P.e, p), Bound(P, f);
    CharInstrCorrect(P.e, p, 0);
    if back {
      BackCharEmits(P, p, pc, st, stk, saved, b);
    } else {
      if st.pos < |P.e.input| { CharInstrCorrect(P.e, p, P.e.input[st.pos]); }
      LenOne(i);
      SimpleInstrEmits(P, pc, i, st, stk, saved, b);
    }
  }

  /** Step back, test forwards, step back again. */
  lemma BackCharEmits(P: Prog, p: Node, pc: int, st: St, stk: seq<int>, saved: seq<Entry>, b: int)
    requires ValidEnv(P.e) && WellFormed(p) && Ok(P, st) && (p.Dot? || p.Char? || p.Class?)
    requires Placed(P, pc, [IPrev, CharInstr(P.e, p), IPrev], |stk|)
    ensures Emits(P, Run(pc, st, stk, saved), pc + ByteLen([IPrev, CharInstr(P.e, p), IPrev]), stk, saved,
                  OneChar(P.e, p, true, st), b)
  {
    hide Emits, Placed, CharTest, ReadsChar, CharInstr, Steps, Balanced, ByteLen;
    var i := CharInstr(P.e, p);
    CharInstrCorrect(P.e, p, 0);
    assert [IPrev, i, IPrev] == [IPrev] + [i] + [IPrev];
    BalancedOne(i);
    WrapParts(P, pc, IPrev, [i], IPrev, |stk|);
    LenOne(i);
    var c, x := Run(pc, st, stk, saved), OneChar(P.e, p, true, st);
    var pcEnd := pc + 2 + Size(i);
    StepAt(P, pc, IPrev, |stk|, st, stk, saved);
    if st.pos == 0 {
      EmitsNothing(P, saved, pcEnd, stk, b);
      StepThen(P, c, Fail(saved), pcEnd, stk, saved, x, b);
    } else {
      var st1 := St(st.pos - 1, st.caps);
      TestedBack(P, p, pc + 1, st, stk, saved, b);
      StepThen(P, c, Run(pc + 1, st1, stk, saved), pcEnd, stk, saved, x, b);
    }
  }

  /** The test and the second step back, from the position before the character. */
  lemma TestedBack(P: Prog, p: Node, pc: int, st: St, stk: seq<int>, saved: seq<Entry>, b: int)
    requires ValidEnv(P.e) && WellFormed(p) && Ok(P, st) && (p.Dot? || p.Char? || p.Class?) && st.pos > 0
    requires var i := CharInstr(P.e, p); Placed(P, pc, [i], |stk|) && Placed(P, pc + Size(i), [IPrev], |stk|)
    ensures Emits(P, Run(pc, St(st.pos - 1, st.caps), stk, saved), pc + Size(CharInstr(P.e, p)) + 1, stk, saved,
                  OneChar(P.e, p, true, st), b)
  {
    hide Emits, Placed, CharTest, ReadsChar, CharInstr, Steps;
    var i, ch := CharInstr(P.e, p), P.e.input[st.pos - 1];
    var x, pcEnd := OneChar(P.e, p, true, st), pc + Size(i) + 1;
    var st1 := St(st.pos - 1, st.caps);
    var c := Run(pc, st1, stk, saved);
    CharInstrCorrect(P.e, p, ch);
    StepAt(P, pc, i, |stk|, st1, stk, saved);
    if CharTest(P.e, p, ch) {
      var again := Run(pc + Size(i), st, stk, saved);
      StepAt(P, pc + Size(i), IPrev, |stk|, st, stk, saved);
      EmitsUnit(P, st1, pcEnd, stk, saved, b);
      StepThen(P, again, Run(pcEnd, st1, stk, saved), pcEnd, stk, saved, x, b);
      StepThen(P, c, again, pcEnd, stk, saved, x, b);
    } else {
      EmitsNothing(P, saved, pcEnd, stk, b);
      StepThen(P, c, Fail(saved), pcEnd, stk, saved, x, b);
    }
  }

  // ---- counted loops ----

  /** A counted loop of at least one round, its counter on top of the stack. */
  ghost predicate UpToAt(P: Prog, a: Node, back: bool, cc: nat, pc: int, greedy: bool, d: int)
    requires WellFormed(a)
  {
    var len := Len(P, a, back, cc);
    && Placed(P, pc, [ISplit(greedy, len + 5)], d + 1)
    && NodeAt(P, a, back, cc, pc + 5, d + 1)
    && Placed(P, pc + 5 + len, [ILoop(-(len + 10))], d + 1)
    && Placed(P, pc + 10 + len, [IDrop], d + 1)
  }

  lemma ExitDrop(P: Prog, pc: int, stk: seq<int>, k: int, st: St, b: int)
    requires Placed(P, pc, [IDrop], |stk| + 1)
    ensures forall s :: Emits(P, Run(pc, st, stk + [k], s), pc + 1, stk, s, Unit(st), b)
  {
    hide Emits, Placed, OneStep;
    DropStep(P, pc, |stk| + 1, stk, k);
    forall s ensures Emits(P, Run(pc, st, stk + [k], s), pc + 1, stk, s, Unit(st), b) {
      EmitsUnit(P, st, pc + 1, stk, s, b);
      EmitsFromStep(P, pc, stk + [k], pc + 1, stk, st, pc + 1, stk, s, Unit(st), b);
    }
  }

  lemma {:induction false} UpToLoop(P: Prog, a: Node, back: bool, cc: nat, pc: int, greedy: bool, k: nat,
                                    st: St, stk: seq<int>, saved: seq<Entry>, f: nat)
    requires WellFormed(a) && UpToAt(P, a, back, cc, pc, greedy, |stk|) && Ok(P, st) && k > 0
    ensures Emits(P, Run(pc, st, stk + [k], saved), pc + 11 + Len(P, a, back, cc), stk, saved,
                  UpTo(P.e, a, back, cc, k, greedy, st, f), Bound(P, f))
    decreases f, a, 20, 2 * k
  {
    hide Emits, Placed, Match, Bind, Choice, Len, NodeAt;
    var len, b := Len(P, a, back, cc), Bound(P, f);
    var more := Bind(Match(P.e, a, back, cc, st, f), ThenUpTo(P.e, a, back, cc, k - 1, greedy, f));
    var body, stk', pcEnd := pc + 5, stk + [k], pc + 11 + len;
    forall s ensures Emits(P, Run(body, st, stk', s), pcEnd, stk, s, more, b) {
      UpToRound(P, a, back, cc, pc, greedy, k, st, stk, s, f);
    }
    ExitDrop(P, pc + 10 + len, stk, k, st, b);
    ChoiceEmits(P, pc, greedy, len + 5, |stk| + 1, greedy, body, pc + 10 + len, st, stk', saved, more, pcEnd, stk, b);
    EmitsWeaken(P, Run(pc, st, stk + [k], saved), pc + 11 + len, stk, saved, Choice(greedy, more, st), b + 1, b);
  }

  /** One round, the countdown, and whatever rounds are left. */
  lemma {:induction false} UpToRound(P: Prog, a: Node, back: bool, cc: nat, pc: int, greedy: bool, k: nat,
                                     st: St, stk: seq<int>, saved: seq<Entry>, f: nat)
    requires WellFormed(a) && UpToAt(P, a, back, cc, pc, greedy, |stk|) && Ok(P, st) && k > 0
    ensures Emits(P, Run(pc + 5, st, stk + [k], saved), pc + 11 + Len(P, a, back, cc), stk, saved,
                  Bind(Match(P.e, a, back, cc, st, f), ThenUpTo(P.e, a, back, cc, k - 1, greedy, f)), Bound(P, f))
    decreases f, a, 20, 2 * k - 1
  {
    hide Emits, Placed, Match, Bind, Len, NodeAt, AllOk, OneStep;
    var len, b := Len(P, a, back, cc), Bound(P, f);
    var g := ThenUpTo(P.e, a, back, cc, k - 1, greedy, f);
    var pcLoop, pcEnd := pc + 5 + len, pc + 11 + len;
    NodeEmits(P, a, back, cc, pc + 5, st, stk + [k], saved, f);
    MatchOk(P, a, back, cc, st, f);
    LoopStep(P, pcLoop, -(len + 10), |stk| + 1, stk, k);
    forall r, s | Ok(P, r) ensures Emits(P, Run(pcLoop, r, stk + [k], s), pcEnd, stk, s, g(r), b) {
      if k - 1 != 0 {
        UpToLoop(P, a, back, cc, pc, greedy, k - 1, r, stk, s, f);
        EmitsFromStep(P, pcLoop, stk + [k], pc, stk + [k - 1], r, pcEnd, stk, s, g(r), b);
      } else {
        ExitDrop(P, pc + 10 + len, stk, 0, r, b);
        NoRounds(P.e, a, back, cc, greedy, r, f);
        EmitsFromStep(P, pcLoop, stk + [k], pc + 10 + len, stk + [0], r, pcEnd, stk, s, g(r), b);
      }
    }
    EmitsBind(P, Run(pc + 5, st, stk + [k], saved), pcLoop, stk + [k], pcEnd, stk, saved,
              Match(P.e, a, back, cc, st, f), g, b);
  }

  ghost predicate ExactlyAt(P: Prog, a: Node, back: bool, cc: nat, pc: int, d: int)
    requires WellFormed(a)
  {
    var len := Len(P, a, back, cc);
    && NodeAt(P, a, back, cc, pc, d + 1)
    && Placed(P, pc + len, [ILoop(-(len + 5))], d + 1)
    && Placed(P, pc + len + 5, [IDrop], d + 1)
  }

  lemma {:induction false} ExactlyLoop(P: Prog, a: Node, back: bool, cc: nat, pc: int, k: nat,
                                       st: St, stk: seq<int>, saved: seq<Entry>, f: nat)
    requires WellFormed(a) && ExactlyAt(P, a, back, cc, pc, |stk|) && Ok(P, st) && k > 0
    ensures Emits(P, Run(pc, st, stk + [k], saved), pc + Len(P, a, back, cc) + 6, stk, saved,
                  Exactly(P.e, a, back, cc, k, st, f), Bound(P, f))
    decreases f, a, 20, k
  {
    hide Emits, Placed, Match, Bind, Len, NodeAt, AllOk, OneStep;
    var len, b := Len(P, a, back, cc), Bound(P, f);
    var g := ThenExactly(P.e, a, back, cc, k - 1, f);
    var pcLoop, pcEnd := pc + len, pc + len + 6;
    NodeEmits(P, a, back, cc, pc, st, stk + [k], saved, f);
    MatchOk(P, a, back, cc, st, f);
    LoopStep(P, pcLoop, -(len + 5), |stk| + 1, stk, k);
    forall r, s | Ok(P, r) ensures Emits(P, Run(pcLoop, r, stk + [k], s), pcEnd, stk, s, g(r), b) {
      if k - 1 != 0 {
        ExactlyLoop(P, a, back, cc, pc, k - 1, r, stk, s, f);
        EmitsFromStep(P, pcLoop, stk + [k], pc, stk + [k - 1], r, pcEnd, stk, s, g(r), b);
      } else {
        ExitDrop(P, pcLoop + 5, stk, 0, r, b);
        NoRounds(P.e, a, back, cc, true, r, f);
        EmitsFromStep(P, pcLoop, stk + [k], pcLoop + 5, stk + [0], r, pcEnd, stk, s, g(r), b);
      }
    }
    EmitsBind(P, Run(pc, st, stk + [k], saved), pcLoop, stk + [k], pcEnd, stk, saved,
              Match(P.e, a, back, cc, st, f), g, b);
  }

  // ---- unbounded loops ----

  /** A loop without the zero-advance test: split, body, and back to the split in at most one step. */
  ghost predicate StarAt(P: Prog, a: Node, back: bool, cc: nat, pc: int, body: int, exit: int,
                         nextFirst: bool, off: int, greedy: bool, stk: seq<int>)
    requires WellFormed(a)
  {
    && Placed(P, pc, [ISplit(nextFirst, off)], |stk|)
    && (if greedy == nextFirst then body == pc + 5 && exit == pc + 5 + off
                               else body == pc + 5 + off && exit == pc + 5)
    && NodeAt(P, a, back, cc, body, |stk|)
    && var pcBack := body + Len(P, a, back, cc);
       pcBack == pc || OneStep(P, pcBack, stk, pc, stk)
  }

  ghost function ThenRound(e: Env, a: Node, back: bool, cc: nat, greedy: bool, f: nat): (g: St -> Res)
    requires WellFormed(a)
  {
    (st: St) => Star(e, a, back, cc, greedy, st, f)
  }

  lemma EmitsExit(P: Prog, pc: int, stk: seq<int>, st: St, b: int)
    ensures forall s :: Emits(P, Run(pc, st, stk, s), pc, stk, s, Unit(st), b)
  {
    hide Emits;
    forall s ensures Emits(P, Run(pc, st, stk, s), pc, stk, s, Unit(st), b) {
      EmitsUnit(P, st, pc, stk, s, b);
    }
  }

  /** The test may be absent: it is not wanted, or the body always consumes. */
  lemma TestIsIdle(P: Prog, a: Node, back: bool, cc: nat, greedy: bool, st: St, f: nat)
    requires WellFormed(a) && st.pos <= |P.e.input| && (!Tested(a, cc, greedy) || MustMove(a))
    ensures Bind(Match(P.e, a, back, cc, st, f), ThenStar(P.e, a, back, cc, greedy, st.pos, f))
         == Bind(Match(P.e, a, back, cc, st, f), ThenRound(P.e, a, back, cc, greedy, f))
  {
    hide Match, Bind, Star, Tested;
    var x := Match(P.e, a, back, cc, st, f);
    MatchSound(P.e, a, back, cc, st, f);
    var g, h := ThenStar(P.e, a, back, cc, greedy, st.pos, f), ThenRound(P.e, a, back, cc, greedy, f);
    forall i | 0 <= i < |x.rs| ensures g(x.rs[i]) == h(x.rs[i]) {
      assert Onward(P.e, back, MustMove(a), st, x.rs[i]);
    }
    BindSame(x, g, h);
  }

  lemma {:induction false} StarLoop(P: Prog, a: Node, back: bool, cc: nat, pc: int, body: int, exit: int,
                                    nextFirst: bool, off: int, greedy: bool,
                                    st: St, stk: seq<int>, saved: seq<Entry>, f: nat)
    requires WellFormed(a) && StarAt(P, a, back, cc, pc, body, exit, nextFirst, off, greedy, stk) && Ok(P, st)
    requires !Tested(a, cc, greedy) || MustMove(a)
    ensures Emits(P, Run(pc, st, stk, saved), exit, stk, saved, Star(P.e, a, back, cc, greedy, st, f), Bound(P, f))
    decreases f, a, 21, 0
  {
    hide Emits, Placed, Match, Bind, Choice, Len, NodeAt, Tested, StarAt;
    if f == 0 {
      EmitsUnfinished(P, Run(pc, st, stk, saved), exit, stk, saved, Bound(P, f));
    } else {
      var more := Bind(Match(P.e, a, back, cc, st, f - 1), ThenRound(P.e, a, back, cc, greedy, f - 1));
      TestIsIdle(P, a, back, cc, greedy, st, f - 1);
      var b := Bound(P, f - 1);
      forall s ensures Emits(P, Run(body, st, stk, s), exit, stk, s, more, b) {
        StarRound(P, a, back, cc, pc, body, exit, nextFirst, off, greedy, st, stk, s, f - 1);
      }
      EmitsExit(P, exit, stk, st, b);
      StarSplit(P, a, back, cc, pc, body, exit, nextFirst, off, greedy, st, stk, saved, more, b);
    }
  }

  lemma StarSplit(P: Prog, a: Node, back: bool, cc: nat, pc: int, body: int, exit: int,
                  nextFirst: bool, off: int, greedy: bool, st: St, stk: seq<int>, saved: seq<Entry>, more: Res, b: int)
    requires WellFormed(a) && StarAt(P, a, back, cc, pc, body, exit, nextFirst, off, greedy, stk)
    requires forall s :: Emits(P, Run(body, st, stk, s), exit, stk, s, more, b)
    requires forall s :: Emits(P, Run(exit, st, stk, s), exit, stk, s, Unit(st), b)
    ensures Emits(P, Run(pc, st, stk, saved), exit, stk, saved, Choice(greedy, more, st), b + 1)
  {
    hide Emits, Placed, Choice, NodeAt, Len;
    ChoiceEmits(P, pc, nextFirst, off, |stk|, greedy, body, exit, st, stk, saved, more, exit, stk, b);
  }

  lemma {:induction false} StarRound(P: Prog, a: Node, back: bool, cc: nat, pc: int, body: int, exit: int,
                                     nextFirst: bool, off: int, greedy: bool,
                                     st: St, stk: seq<int>, saved: seq<Entry>, f: nat)
    requires WellFormed(a) && StarAt(P, a, back, cc, pc, body, exit, nextFirst, off, greedy, stk) && Ok(P, st)
    requires !Tested(a, cc, greedy) || MustMove(a)
    ensures Emits(P, Run(body, st, stk, saved), exit, stk, saved,
                  Bind(Match(P.e, a, back, cc, st, f), ThenRound(P.e, a, back, cc, greedy, f)), Bound(P, f))
    decreases f, a, 22, 0
  {
    hide Emits, Placed, Match, Bind, Len, NodeAt, AllOk, Tested, Star, OneStep;
    var g, b, pcBack := ThenRound(P.e, a, back, cc, greedy, f), Bound(P, f), body + Len(P, a, back, cc);
    NodeEmits(P, a, back, cc, body, st, stk, saved, f);
    MatchOk(P, a, back, cc, st, f);
    forall r, s | Ok(P, r) ensures Emits(P, Run(pcBack, r, stk, s), exit, stk, s, g(r), b) {
      StarLoop(P, a, back, cc, pc, body, exit, nextFirst, off, greedy, r, stk, s, f);
      if pcBack != pc { EmitsFromStep(P, pcBack, stk, pc, stk, r, exit, stk, s, g(r), b); }
    }
    EmitsBind(P, Run(body, st, stk, saved), pcBack, stk, exit, stk, saved, Match(P.e, a, back, cc, st, f), g, b);
  }

  /** A loop with the zero-advance test: the start position of the round is on the stack. */
  ghost predicate TestedAt(P: Prog, a: Node, back: bool, cc: nat, pc: int, greedy: bool, d: int)
    requires WellFormed(a)
  {
    var len := Len(P, a, back, cc);
    && Placed(P, pc, [ISplit(greedy, len + 6)], d)
    && Placed(P, pc + 5, [IPushCharPos], d)
    && NodeAt(P, a, back, cc, pc + 6, d + 1)
    && Placed(P, pc + 6 + len, [IBneCharPos(-(len + 11))], d + 1)
  }

  lemma {:induction false} TestedLoop(P: Prog, a: Node, back: bool, cc: nat, pc: int, greedy: bool,
                                      st: St, stk: seq<int>, saved: seq<Entry>, f: nat)
    requires WellFormed(a) && TestedAt(P, a, back, cc, pc, greedy, |stk|) && Ok(P, st) && Tested(a, cc, greedy)
    ensures Emits(P, Run(pc, st, stk, saved), pc + 11 + Len(P, a, back, cc), stk, saved,
                  Star(P.e, a, back, cc, greedy, st, f), Bound(P, f))
    decreases f, a, 21, 0
  {
    hide Emits, Placed, Match, Bind, Choice, Len, NodeAt, Tested;
    var len := Len(P, a, back, cc);
    var exit := pc + 11 + len;
    if f == 0 {
      EmitsUnfinished(P, Run(pc, st, stk, saved), exit, stk, saved, Bound(P, f));
    } else {
      var more := Bind(Match(P.e, a, back, cc, st, f - 1), ThenStar(P.e, a, back, cc, greedy, st.pos, f - 1));
      var b := Bound(P, f - 1);
      var body := pc + 5;
      forall s ensures Emits(P, Run(body, st, stk, s), exit, stk, s, more, b) {
        TestedRound(P, a, back, cc, pc, greedy, st, stk, s, f - 1);
      }
      EmitsExit(P, exit, stk, st, b);
      ChoiceEmits(P, pc, greedy, len + 6, |stk|, greedy, body, exit, st, stk, saved, more, exit, stk, b);
    }
  }

  lemma TestStep(P: Prog, pc: int, off: int, stk: seq<int>, from: nat, st: St, saved: seq<Entry>)
    requires Placed(P, pc, [IBneCharPos(off)], |stk| + 1)
    ensures Steps(P, Run(pc, st, stk + [from], saved), 1) ==
            Run(if from != st.pos then pc + 5 + off else pc + 5, st, stk, saved)
  {
    hide Steps, Placed;
    StepAt(P, pc, IBneCharPos(off), |stk| + 1, st, stk + [from], saved);
    assert (stk + [from])[..|stk|] == stk;
  }

  lemma PushPosStep(P: Prog, pc: int, st: St, stk: seq<int>, saved: seq<Entry>)
    requires Placed(P, pc, [IPushCharPos], |stk|)
    ensures Steps(P, Run(pc, st, stk, saved), 1) == Run(pc + 1, st, stk + [st.pos], saved)
  {
    hide Steps;
    PushFits(P, pc, IPushCharPos, |stk|);
    StepAt(P, pc, IPushCharPos, |stk|, st, stk, saved);
  }

  lemma {:induction false} TestedRound(P: Prog, a: Node, back: bool, cc: nat, pc: int, greedy: bool,
                                       st: St, stk: seq<int>, saved: seq<Entry>, f: nat)
    requires WellFormed(a) && TestedAt(P, a, back, cc, pc, greedy, |stk|) && Ok(P, st) && Tested(a, cc, greedy)
    ensures Emits(P, Run(pc + 5, st, stk, saved), pc + 11 + Len(P, a, back, cc), stk, saved,
                  Bind(Match(P.e, a, back, cc, st, f), ThenStar(P.e, a, back, cc, greedy, st.pos, f)), Bound(P, f))
    decreases f, a, 22, 0
  {
    hide Emits, Placed, Match, Bind, Len, NodeAt, AllOk, Star, Steps, Tested;
    var len, b, from := Len(P, a, back, cc), Bound(P, f), st.pos;
    var g := ThenStar(P.e, a, back, cc, greedy, from, f);
    var pcTest, exit := pc + 6 + len, pc + 11 + len;
    var x, start := Match(P.e, a, back, cc, st, f), Run(pc + 6, st, stk + [from], saved);
    NodeEmits(P, a, back, cc, pc + 6, st, stk + [from], saved, f);
    MatchOk(P, a, back, cc, st, f);
    forall r, s | Ok(P, r) ensures Emits(P, Run(pcTest, r, stk + [from], s), exit, stk, s, g(r), b) {
      TestStep(P, pcTest, -(len + 11), stk, from, r, s);
      if r.pos == from {
        EmitsUnit(P, r, exit, stk, s, b);
        StepThen(P, Run(pcTest, r, stk + [from], s), Run(exit, r, stk, s), exit, stk, s, g(r), b);
      } else {
        TestedLoop(P, a, back, cc, pc, greedy, r, stk, s, f);
        StepThen(P, Run(pcTest, r, stk + [from], s), Run(pc, r, stk, s), exit, stk, s, g(r), b);
      }
    }
    EmitsBind(P, start, pcTest, stk + [from], exit, stk, saved, x, g, b);
    PushPosStep(P, pc + 5, st, stk, saved);
    StepThen(P, Run(pc + 5, st, stk, saved), start, exit, stk, saved, Bind(x, g), b);
  }

  // ---- quantified terms ----

  lemma UpToShape(a: seq<Instr>, n: int, greedy: bool)
    ensures var len: int := ByteLen(a);
            UpToCode(a, n, greedy) == [IPushI32(n)] + ([ISplit(greedy, len + 5)] + (a + [ILoop(-(len + 10)), IDrop]))
  {
    hide ByteLen;
  }

  lemma UpToParts(P: Prog, a: Node, back: bool, cc: nat, pc: int, n: int, greedy: bool, d: int)
    requires ValidEnv(P.e) && WellFormed(a) && cc + Caps(a) <= P.captureCount
    requires Placed(P, pc, UpToCode(Code(P.e, a, back, cc), n, greedy), d)
    ensures Placed(P, pc, [IPushI32(n)], d) && UpToAt(P, a, back, cc, pc + 5, greedy, d)
    ensures ByteLen(UpToCode(Code(P.e, a, back, cc), n, greedy)) == Len(P, a, back, cc) + 16
  {
    hide Placed, ByteLen, Balanced, ValidEnv, Code, UpToCode;
    var code := Code(P.e, a, back, cc);
    var len: int := ByteLen(code);
    var split, loop := ISplit(greedy, len + 5), ILoop(-(len + 10));
    var tail := [loop, IDrop];
    UpToShape(code, n, greedy);
    PlacedCons(P, pc, IPushI32(n), [split] + (code + tail), d);
    PlacedCons(P, pc + 5, split, code + tail, d + 1);
    CodeBalanced(P.e, a, back, cc);
    PlacedPair(P, pc + 10, code, tail, d + 1);
    assert tail == [loop] + [IDrop];
    PlacedCons(P, pc + 10 + len, loop, [IDrop], d + 1);
    LenCons(IPushI32(n), [split] + (code + tail));
    LenCons(split, code + tail);
    ByteLenConcat(code, tail);
    LenCons(loop, [IDrop]);
    LenOne(IDrop);
  }

  lemma ExactlyShape(a: seq<Instr>, n: int)
    ensures var len: int := ByteLen(a); ExactlyCode(a, n) == [IPushI32(n)] + (a + [ILoop(-(len + 5)), IDrop])
  {
    hide ByteLen;
  }

  lemma ExactlyParts(P: Prog, a: Node, back: bool, cc: nat, pc: int, n: int, d: int)
    requires ValidEnv(P.e) && WellFormed(a) && cc + Caps(a) <= P.captureCount
    requires Placed(P, pc, ExactlyCode(Code(P.e, a, back, cc), n), d)
    ensures Placed(P, pc, [IPushI32(n)], d) && ExactlyAt(P, a, back, cc, pc + 5, d)
    ensures ByteLen(ExactlyCode(Code(P.e, a, back, cc), n)) == Len(P, a, back, cc) + 11
  {
    hide Placed, ByteLen, Balanced, ValidEnv, Code, ExactlyCode;
    var code := Code(P.e, a, back, cc);
    var len: int := ByteLen(code);
    var loop := ILoop(-(len + 5));
    var tail := [loop, IDrop];
    ExactlyShape(code, n);
    PlacedCons(P, pc, IPushI32(n), code + tail, d);
    CodeBalanced(P.e, a, back, cc);
    PlacedPair(P, pc + 5, code, tail, d + 1);
    assert tail == [loop] + [IDrop];
    PlacedCons(P, pc + 5 + len, loop, [IDrop], d + 1);
    LenCons(IPushI32(n), code + tail);
    ByteLenConcat(code, tail);
    LenCons(loop, [IDrop]);
    LenOne(IDrop);
  }

  lemma StarShape(a: seq<Instr>, greedy: bool)
    ensures StarCode(a, greedy, true) ==
            [ISplit(greedy, ByteLen(a) + 6)] + ([IPushCharPos] + (a + [IBneCharPos(-(ByteLen(a) as int + 11))]))
  {
    hide ByteLen;
  }

  lemma TestedParts(P: Prog, a: Node, back: bool, cc: nat, pc: int, greedy: bool, d: int)
    requires ValidEnv(P.e) && WellFormed(a) && cc + Caps(a) <= P.captureCount
    requires Placed(P, pc, StarCode(Code(P.e, a, back, cc), greedy, true), d)
    ensures TestedAt(P, a, back, cc, pc, greedy, d)
    ensures ByteLen(StarCode(Code(P.e, a, back, cc), greedy, true)) == Len(P, a, back, cc) + 11
  {
    hide Placed, ByteLen, Balanced, ValidEnv, Code, StarCode;
    var code := Code(P.e, a, back, cc);
    var len: int := ByteLen(code);
    var split, test := ISplit(greedy, len + 6), IBneCharPos(-(len + 11));
    StarShape(code, greedy);
    PlacedCons(P, pc, split, [IPushCharPos] + (code + [test]), d);
    PlacedCons(P, pc + 5, IPushCharPos, code + [test], d);
    CodeBalanced(P.e, a, back, cc);
    PlacedPair(P, pc + 6, code, [test], d + 1);
    LenCons(split, [IPushCharPos] + (code + [test]));
    LenCons(IPushCharPos, code + [test]);
    ByteLenConcat(code, [test]);
    LenOne(test);
  }

  lemma PlainParts(P: Prog, a: Node, back: bool, cc: nat, pc: int, greedy: bool, stk: seq<int>)
    requires ValidEnv(P.e) && WellFormed(a) && cc + Caps(a) <= P.captureCount
    requires Placed(P, pc, StarCode(Code(P.e, a, back, cc), greedy, false), |stk|)
    ensures var len := Len(P, a, back, cc);
            && StarAt(P, a, back, cc, pc, pc + 5, pc + 10 + len, greedy, len + 5, greedy, stk)
            && ByteLen(StarCode(Code(P.e, a, back, cc), greedy, false)) == len + 10
  {
    hide Placed, ByteLen, Balanced, OneStep, ValidEnv, Code;
    var code := Code(P.e, a, back, cc);
    var len: int := ByteLen(code);
    CodeBalanced(P.e, a, back, cc);
    WrapParts(P, pc, ISplit(greedy, len + 5), code, IGoto(-(len + 10)), |stk|);
    GotoStep(P, pc + 5 + len, -(len + 10), |stk|, stk);
  }

  lemma PlusParts(P: Prog, a: Node, back: bool, cc: nat, pc: int, greedy: bool, stk: seq<int>)
    requires ValidEnv(P.e) && WellFormed(a) && cc + Caps(a) <= P.captureCount
    requires var code := Code(P.e, a, back, cc); Placed(P, pc, code + [ISplit(!greedy, -(ByteLen(code) + 5))], |stk|)
    ensures var code, len := Code(P.e, a, back, cc), Len(P, a, back, cc);
            && NodeAt(P, a, back, cc, pc, |stk|)
            && StarAt(P, a, back, cc, pc + len, pc, pc + len + 5, !greedy, -(len + 5), greedy, stk)
            && ByteLen(code + [ISplit(!greedy, -(ByteLen(code) + 5))]) == len + 5
  {
    hide Placed, ByteLen, Balanced, OneStep, ValidEnv, Code;
    var code := Code(P.e, a, back, cc);
    var split := ISplit(!greedy, -(ByteLen(code) + 5));
    CodeBalanced(P.e, a, back, cc);
    PlacedPair(P, pc, code, [split], |stk|);
    ByteLenConcat(code, [split]);
    LenOne(split);
  }

  /** What the scan of the body decides about the zero-advance test agrees with the pattern. */
  lemma ScanDecides(P: Prog, a: Node, back: bool, cc: nat, greedy: bool)
    requires WellFormed(a)
    ensures UsesAdvanceTest(Code(P.e, a, back, cc), greedy) ==> Tested(a, cc, greedy)
    ensures !UsesAdvanceTest(Code(P.e, a, back, cc), greedy) ==> !Tested(a, cc, greedy) || MustMove(a)
  {
    hide CodeSaves, CodeRefs, StartsWithChar, Code;
    CodeSets(P.e, a, back, cc);
    if StartsWithChar(Code(P.e, a, back, cc)) { StartsMeansMustMove(P.e, a, back, cc); }
  }

  /** An unbounded loop, with or without the test. */
  lemma {:induction false} StarEmits(P: Prog, a: Node, back: bool, cc: nat, pc: int, greedy: bool,
                                     st: St, stk: seq<int>, saved: seq<Entry>, f: nat)
    requires ValidEnv(P.e) && WellFormed(a) && cc + Caps(a) <= P.captureCount && Ok(P, st)
    requires var code := Code(P.e, a, back, cc);
             Placed(P, pc, StarCode(code, greedy, UsesAdvanceTest(code, greedy)), |stk|)
    ensures var code := Code(P.e, a, back, cc);
            Emits(P, Run(pc, st, stk, saved), pc + ByteLen(StarCode(code, greedy, UsesAdvanceTest(code, greedy))),
                  stk, saved, Star(P.e, a, back, cc, greedy, st, f), Bound(P, f))
    decreases f, a, 23, 0
  {
    hide Emits, Placed, Star, ByteLen, StarCode, TestedAt, StarAt, UsesAdvanceTest, Tested, Code, MustMove;
    ScanDecides(P, a, back, cc, greedy);
    if UsesAdvanceTest(Code(P.e, a, back, cc), greedy) {
      TestedParts(P, a, back, cc, pc, greedy, |stk|);
      TestedLoop(P, a, back, cc, pc, greedy, st, stk, saved, f);
    } else {
      var len := Len(P, a, back, cc);
      PlainParts(P, a, back, cc, pc, greedy, stk);
      StarLoop(P, a, back, cc, pc, pc + 5, pc + 10 + len, greedy, len + 5, greedy, st, stk, saved, f);
    }
  }

  /** A bounded loop, counter included. */
  lemma {:induction false} UpToEmits(P: Prog, a: Node, back: bool, cc: nat, pc: int, n: nat, greedy: bool,
                                     st: St, stk: seq<int>, saved: seq<Entry>, f: nat)
    requires ValidEnv(P.e) && WellFormed(a) && cc + Caps(a) <= P.captureCount && Ok(P, st) && n > 0
    requires Placed(P, pc, UpToCode(Code(P.e, a, back, cc), n, greedy), |stk|)
    ensures Emits(P, Run(pc, st, stk, saved), pc + ByteLen(UpToCode(Code(P.e, a, back, cc), n, greedy)), stk, saved,
                  UpTo(P.e, a, back, cc, n, greedy, st, f), Bound(P, f))
    decreases f, a, 23, 0
  {
    hide Emits, Placed, UpTo, ByteLen, UpToCode, UpToAt, OneStep;
    UpToParts(P, a, back, cc, pc, n, greedy, |stk|);
    PushStep(P, pc, n, |stk|, stk);
    UpToLoop(P, a, back, cc, pc + 5, greedy, n, st, stk, saved, f);
    EmitsFromStep(P, pc, stk, pc + 5, stk + [n], st, pc + 16 + Len(P, a, back, cc), stk, saved,
                  UpTo(P.e, a, back, cc, n, greedy, st, f), Bound(P, f));
  }

  lemma {:induction false} ExactlyEmits(P: Prog, a: Node, back: bool, cc: nat, pc: int, n: nat,
                                        st: St, stk: seq<int>, saved: seq<Entry>, f: nat)
    requires ValidEnv(P.e) && WellFormed(a) && cc + Caps(a) <= P.captureCount && Ok(P, st) && n > 0
    requires Placed(P, pc, ExactlyCode(Code(P.e, a, back, cc), n), |stk|)
    ensures Emits(P, Run(pc, st, stk, saved), pc + ByteLen(ExactlyCode(Code(P.e, a, back, cc), n)), stk, saved,
                  Exactly(P.e, a, back, cc, n, st, f), Bound(P, f))
    decreases f, a, 23, 0
  {
    hide Emits, Placed, Exactly, ByteLen, ExactlyCode, ExactlyAt, OneStep;
    ExactlyParts(P, a, back, cc, pc, n, |stk|);
    PushStep(P, pc, n, |stk|, stk);
    ExactlyLoop(P, a, back, cc, pc + 5, n, st, stk, saved, f);
    EmitsFromStep(P, pc, stk, pc + 5, stk + [n], st, pc + 11 + Len(P, a, back, cc), stk, saved,
                  Exactly(P.e, a, back, cc, n, st, f), Bound(P, f));
  }

  /** At most one round, without a counter. */
  lemma {:induction false} OnceEmits(P: Prog, a: Node, back: bool, cc: nat, pc: int, greedy: bool,
                                     st: St, stk: seq<int>, saved: seq<Entry>, f: nat)
    requires NodeAt(P, a, back, cc, pc + 5, |stk|) && Ok(P, st)
    requires Placed(P, pc, [ISplit(greedy, Len(P, a, back, cc))], |stk|)
    ensures Emits(P, Run(pc, st, stk, saved), pc + 5 + Len(P, a, back, cc), stk, saved,
                  UpTo(P.e, a, back, cc, 1, greedy, st, f), Bound(P, f))
    decreases f, a, 23, 0
  {
    hide Emits, Placed, Match, Bind, Choice, Len;
    var b, exit := Bound(P, f), pc + 5 + Len(P, a, back, cc);
    var x := Match(P.e, a, back, cc, st, f);
    var g := ThenUpTo(P.e, a, back, cc, 0, greedy, f);
    forall r ensures g(r) == ThenUnit()(r) { NoRounds(P.e, a, back, cc, greedy, r, f); }
    BindSame(x, g, ThenUnit());
    BindUnit(x);
    var body := pc + 5;
    forall s ensures Emits(P, Run(body, st, stk, s), exit, stk, s, x, b) {
      NodeEmits(P, a, back, cc, pc + 5, st, stk, s, f);
    }
    EmitsExit(P, exit, stk, st, b);
    ChoiceEmits(P, pc, greedy, Len(P, a, back, cc), |stk|, greedy, body, exit, st, stk, saved, x, exit, stk, b);
    EmitsWeaken(P, Run(pc, st, stk, saved), exit, stk, saved, Choice(greedy, x, st), b + 1, b);
  }

  /** Everything a quantified term's body needs to be run at depth 'd'. */
  ghost predicate BodyOk(P: Prog, p: Node, cc: nat) {
    p.Quant? && ValidEnv(P.e) && WellFormed(p) && cc + Caps(p.body) <= P.captureCount
  }

  lemma {:induction false} OptionalEmits(P: Prog, p: Node, back: bool, cc: nat, pc: int,
                                         st: St, stk: seq<int>, saved: seq<Entry>, f: nat)
    requires BodyOk(P, p, cc) && Ok(P, st) && p.min == 0
    requires Placed(P, pc, OptionalCode(Code(P.e, p.body, back, cc), p.max, p.greedy), |stk|)
    ensures Emits(P, Run(pc, st, stk, saved),
                  pc + ByteLen(OptionalCode(Code(P.e, p.body, back, cc), p.max, p.greedy)), stk, saved,
                  ThenOptional(P.e, p.body, back, cc, 0, p.max, p.greedy, f)(st), Bound(P, f))
    decreases f, p.body, 24, 0
  {
    hide Emits, Placed, Star, UpTo, StarCode, UpToCode, UsesAdvanceTest, Code, Balanced, ByteLen;
    var Quant(a, _, max, greedy) := p;
    var code := Code(P.e, a, back, cc);
    if max == 0 {
      LenNil();
      NoRounds(P.e, a, back, cc, greedy, st, f);
      EmitsUnit(P, st, pc, stk, saved, Bound(P, f));
    } else if max == 1 {
      PlacedCons(P, pc, ISplit(greedy, ByteLen(code)), code, |stk|);
      LenCons(ISplit(greedy, ByteLen(code)), code);
      OnceEmits(P, a, back, cc, pc, greedy, st, stk, saved, f);
    } else if max == INT32_MAX {
      StarEmits(P, a, back, cc, pc, greedy, st, stk, saved, f);
    } else {
      UpToEmits(P, a, back, cc, pc, max, greedy, st, stk, saved, f);
    }
  }

  lemma LenNil()
    ensures ByteLen([]) == 0
  {
  }

  lemma {:induction false} RestContinues(P: Prog, p: Node, back: bool, cc: nat, pc: int, stk: seq<int>, f: nat)
    requires BodyOk(P, p, cc)
    requires Placed(P, pc, RestCode(Code(P.e, p.body, back, cc), p.min, p.max, p.greedy), |stk|)
    ensures Continues(P, pc, stk, pc + ByteLen(RestCode(Code(P.e, p.body, back, cc), p.min, p.max, p.greedy)), stk,
                      ThenOptional(P.e, p.body, back, cc, p.min, p.max, p.greedy, f), Bound(P, f))
    decreases f, p.body, 24, 0
  {
    hide Emits, Placed, Star, UpTo, StarCode, UpToCode, UsesAdvanceTest, Code, ByteLen;
    var Quant(a, min, max, greedy) := p;
    var rest := RestCode(Code(P.e, a, back, cc), min, max, greedy);
    var g := ThenOptional(P.e, a, back, cc, min, max, greedy, f);
    forall st, saved | Ok(P, st)
      ensures Emits(P, Run(pc, st, stk, saved), pc + ByteLen(rest), stk, saved, g(st), Bound(P, f))
    {
      if max == INT32_MAX {
        StarEmits(P, a, back, cc, pc, greedy, st, stk, saved, f);
      } else if max > min {
        UpToEmits(P, a, back, cc, pc, max - min, greedy, st, stk, saved, f);
      } else {
        LenNil();
        NoRounds(P.e, a, back, cc, greedy, st, f);
        EmitsUnit(P, st, pc, stk, saved, Bound(P, f));
      }
    }
  }

  lemma {:induction false} QuantEmits(P: Prog, p: Node, back: bool, cc: nat, pc: int, st: St,
                                      stk: seq<int>, saved: seq<Entry>, f: nat)
    requires NodeAt(P, p, back, cc, pc, |stk|) && Ok(P, st) && p.Quant?
    ensures Emits(P, Run(pc, st, stk, saved), pc + Len(P, p, back, cc), stk, saved,
                  Match(P.e, p, back, cc, st, f), Bound(P, f))
    decreases f, p, 8, 0
  {
    hide Emits, Placed, Match, ByteLen, UsesAdvanceTest, QuantCode, UsesSimpleQuant;
    var Quant(a, min, max, greedy) := p;
    if UsesSimpleQuant(Code(P.e, a, back, cc), max, greedy) {
      SimpleNeedsGreedy(Code(P.e, a, back, cc), max, greedy);
      SimpleQuantEmits(P, a, back, cc, min, max, pc, st, stk, saved, f);
    } else if min == 0 {
      QuantFromZero(P, p, back, cc, pc, st, stk, saved, f);
    } else if min == 1 && max == INT32_MAX && !UsesAdvanceTest(Code(P.e, a, back, cc), greedy) {
      QuantPlus(P, p, back, cc, pc, st, stk, saved, f);
    } else {
      QuantFromSome(P, p, back, cc, pc, st, stk, saved, f);
    }
  }

  lemma SimpleNeedsGreedy(a: seq<Instr>, max: int, greedy: bool)
    requires UsesSimpleQuant(a, max, greedy)
    ensures greedy
  {
  }

  lemma ResetStep(P: Prog, pc: int, first: nat, last: nat, d: int, st: St, stk: seq<int>, saved: seq<Entry>)
    requires Placed(P, pc, [ISaveReset(first, last)], d) && last < P.captureCount && Ok(P, st)
    ensures Steps(P, Run(pc, st, stk, saved), 1) == Run(pc + 3, ResetCaps(st, first, last), stk, saved)
  {
    hide Steps, Placed;
    StepAt(P, pc, ISaveReset(first, last), d, st, stk, saved);
  }

  lemma {:induction false} QuantFromZero(P: Prog, p: Node, back: bool, cc: nat, pc: int, st: St,
                                         stk: seq<int>, saved: seq<Entry>, f: nat)
    requires NodeAt(P, p, back, cc, pc, |stk|) && Ok(P, st) && p.Quant? && p.min == 0
    requires !UsesSimpleQuant(Code(P.e, p.body, back, cc), p.max, p.greedy)
    ensures Emits(P, Run(pc, st, stk, saved), pc + Len(P, p, back, cc), stk, saved,
                  Match(P.e, p, back, cc, st, f), Bound(P, f))
    decreases f, p, 7, 0
  {
    hide Emits, Placed, ByteLen, UsesSimpleQuant, OptionalCode, Bind, Steps, UpTo, Star, Balanced;
    var Quant(a, min, max, greedy) := p;
    var rest := OptionalCode(Code(P.e, a, back, cc), max, greedy);
    var g := ThenOptional(P.e, a, back, cc, 0, max, greedy, f);
    if Caps(a) > 0 {
      var reset := ISaveReset(cc, cc + Caps(a) - 1);
      var st0 := ResetCaps(st, cc, cc + Caps(a) - 1);
      PlacedCons(P, pc, reset, rest, |stk|);
      LenCons(reset, rest);
      ResetStep(P, pc, cc, cc + Caps(a) - 1, |stk|, st, stk, saved);
      OptionalEmits(P, p, back, cc, pc + 3, st0, stk, saved, f);
      NoRounds(P.e, a, back, cc, greedy, st0, f);
      BindOne(st0, g);
      StepThen(P, Run(pc, st, stk, saved), Run(pc + 3, st0, stk, saved), pc + 3 + ByteLen(rest), stk, saved,
               g(st0), Bound(P, f));
    } else {
      assert [] + rest == rest;
      OptionalEmits(P, p, back, cc, pc, st, stk, saved, f);
      NoRounds(P.e, a, back, cc, greedy, st, f);
      BindOne(st, g);
    }
  }

  lemma {:induction false} QuantPlus(P: Prog, p: Node, back: bool, cc: nat, pc: int, st: St,
                                     stk: seq<int>, saved: seq<Entry>, f: nat)
    requires NodeAt(P, p, back, cc, pc, |stk|) && Ok(P, st) && p.Quant? && p.min == 1 && p.max == INT32_MAX
    requires !UsesSimpleQuant(Code(P.e, p.body, back, cc), p.max, p.greedy)
    requires !UsesAdvanceTest(Code(P.e, p.body, back, cc), p.greedy)
    ensures Emits(P, Run(pc, st, stk, saved), pc + Len(P, p, back, cc), stk, saved,
                  Match(P.e, p, back, cc, st, f), Bound(P, f))
    decreases f, p, 7, 0
  {
    hide Emits, Placed, ByteLen, UsesSimpleQuant, UsesAdvanceTest, Bind, UpTo, Star, Exactly, StarAt, Tested, MustMove;
    var Quant(a, min, max, greedy) := p;
    var len := Len(P, a, back, cc);
    var g := ThenOptional(P.e, a, back, cc, 1, max, greedy, f);
    PlusParts(P, a, back, cc, pc, greedy, stk);
    ScanDecides(P, a, back, cc, greedy);
    ExactlyOnce(P.e, a, back, cc, st, f);
    NodeEmits(P, a, back, cc, pc, st, stk, saved, f);
    MatchOk(P, a, back, cc, st, f);
    var split, exit, b := pc + len, pc + len + 5, Bound(P, f);
    forall r, s | Ok(P, r) ensures Emits(P, Run(split, r, stk, s), exit, stk, s, g(r), b) {
      StarLoop(P, a, back, cc, split, pc, exit, !greedy, -(len + 5), greedy, r, stk, s, f);
    }
    EmitsBind(P, Run(pc, st, stk, saved), split, stk, exit, stk, saved, Match(P.e, a, back, cc, st, f), g, b);
  }

  lemma {:induction false} MandatoryEmits(P: Prog, p: Node, back: bool, cc: nat, pc: int, st: St,
                                          stk: seq<int>, saved: seq<Entry>, f: nat)
    requires BodyOk(P, p, cc) && Ok(P, st) && p.min > 0
    requires var code := Code(P.e, p.body, back, cc);
             Placed(P, pc, if p.min == 1 then code else ExactlyCode(code, p.min), |stk|)
    ensures var code := Code(P.e, p.body, back, cc);
            Emits(P, Run(pc, st, stk, saved), pc + ByteLen(if p.min == 1 then code else ExactlyCode(code, p.min)),
                  stk, saved, Exactly(P.e, p.body, back, cc, p.min, st, f), Bound(P, f))
    decreases f, p.body, 24, 0
  {
    hide Emits, Placed, ByteLen, Exactly, ExactlyCode, Match, Code;
    if p.min == 1 {
      ExactlyOnce(P.e, p.body, back, cc, st, f);
      NodeEmits(P, p.body, back, cc, pc, st, stk, saved, f);
    } else {
      ExactlyEmits(P, p.body, back, cc, pc, p.min, st, stk, saved, f);
    }
  }

  lemma {:induction false} QuantFromSome(P: Prog, p: Node, back: bool, cc: nat, pc: int, st: St,
                                         stk: seq<int>, saved: seq<Entry>, f: nat)
    requires NodeAt(P, p, back, cc, pc, |stk|) && Ok(P, st) && p.Quant? && p.min > 0
    requires !UsesSimpleQuant(Code(P.e, p.body, back, cc), p.max, p.greedy)
    requires !(p.min == 1 && p.max == INT32_MAX && !UsesAdvanceTest(Code(P.e, p.body, back, cc), p.greedy))
    ensures Emits(P, Run(pc, st, stk, saved), pc + Len(P, p, back, cc), stk, saved,
                  Match(P.e, p, back, cc, st, f), Bound(P, f))
    decreases f, p, 7, 0
  {
    hide Emits, Placed, ByteLen, UsesSimpleQuant, UsesAdvanceTest, Bind, UpTo, Star, Exactly, Balanced, AllOk,
         ExactlyCode, RestCode, Continues;
    var Quant(a, min, max, greedy) := p;
    var code := Code(P.e, a, back, cc);
    var first, rest := if min == 1 then code else ExactlyCode(code, min), RestCode(code, min, max, greedy);
    assert Code(P.e, p, back, cc) == first + rest;
    CodeBalanced(P.e, a, back, cc);
    ExactlyBalanced(code, min);
    PlacedPair(P, pc, first, rest, |stk|);
    ByteLenConcat(first, rest);
    var pcMid := pc + ByteLen(first);
    MandatoryEmits(P, p, back, cc, pc, st, stk, saved, f);
    ExactlySound(P.e, a, back, cc, min, st, f);
    SoundOk(P, back, min > 0 && MustMove(a), st, Exactly(P.e, a, back, cc, min, st, f));
    RestContinues(P, p, back, cc, pcMid, stk, f);
    EmitsBind(P, Run(pc, st, stk, saved), pcMid, stk, pcMid + ByteLen(rest), stk, saved,
              Exactly(P.e, a, back, cc, min, st, f), ThenOptional(P.e, a, back, cc, min, max, greedy, f), Bound(P, f));
  }

  lemma ExactlyBalanced(a: seq<Instr>, n: int)
    requires Balanced(a)
    ensures Balanced(ExactlyCode(a, n))
  {
    BalancedCounted(n, a, -(ByteLen(a) + 5));
  }
}
