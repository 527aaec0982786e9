/**
 Whether the machine halts is settled within a number of steps computed from
 sizes alone, for every bytecode program, compiled or not. What a thread
 (program counter, state, integer stack) does depends on the states saved below
 it only after it failed or matched, and there are finitely many threads.
 */
module Halting {
  import opened Bytes
  import opened Opcodes
  import opened Pattern
  import opened Matcher
  import opened Machine
  import opened Straight
  import opened Adequacy

  datatype Thread = Thread(pc: int, st: St, stk: seq<int>)

  /** How a thread ends, seen from the states saved below it. */
  datatype Outcome = Unknown | Failed | Won(caps: seq<int>) | Broken

  function Over(t: Thread, saved: seq<Entry>): (c: Config) { Run(t.pc, t.st, t.stk, saved) }

  /** Follow a thread and all states it saves itself, 'f' transitions deep. */
  function Explore(P: Prog, t: Thread, f: nat): (o: Outcome)
    decreases f, 0, 0
  {
    if f == 0 then Unknown
    else
      match Step(P, Over(t, []))
      case Fail(_) => Failed
      case Succeed(caps, _) => Won(caps)
      case Run(pc, st, stk, saved) =>
        var o := Explore(P, Thread(pc, st, stk), f - 1);
        if saved == [] then o else Unwound(P, saved[0], o, f - 1)
      case _ => Broken
  }

  /** What comes of outcome 'o' once it meets the saved state 'x'. */
  function Unwound(P: Prog, x: Entry, o: Outcome, f: nat): (r: Outcome)
    decreases f, 1, x.count
  {
    match o
    case Failed =>
      if x.kind == LookaheadState then Failed
      else
        (match StepFail(P, [x])
         case Run(pc, st, stk, kept) =>
           var again := Explore(P, Thread(pc, st, stk), f);
           if kept == [] then again else Unwound(P, kept[0], again, f)
         case _ => Broken)
    case Won(caps) =>
      if x.kind == LookaheadState then Explore(P, Thread(x.pc, St(x.st.pos, caps), x.stk), f)
      else if x.kind == NegativeLookaheadState then Failed
      else o
    case _ => o
  }

  // ---- saved states below do not matter ----

  function Under(saved: seq<Entry>, c: Config): (r: Config) {
    match c
    case Run(pc, st, stk, more) => Run(pc, st, stk, saved + more)
    case Succeed(caps, more) => Succeed(caps, saved + more)
    case Fail(more) => Fail(saved + more)
    case _ => c
  }

  lemma StepUnder(P: Prog, t: Thread, saved: seq<Entry>)
    ensures Step(P, Over(t, saved)) == Under(saved, Step(P, Over(t, [])))
    ensures Step(P, Over(t, [])).Run? ==> |Step(P, Over(t, [])).saved| <= 1
    ensures Step(P, Over(t, [])).Succeed? ==> Step(P, Over(t, [])).saved == []
    ensures Step(P, Over(t, [])).Fail? ==> Step(P, Over(t, [])).saved == []
    ensures !Step(P, Over(t, [])).Halt?
  {
    hide Decode, ExecStack, ExecQuant, ExecControl, SimpleStep;
    assert saved + [] == saved;
    match Decode(P.code, t.pc)
    case None =>
    case Some(i) =>
      StackUnder(P, i, t.pc + Size(i), t.st, t.stk, saved);
      QuantUnder(P, i, t.pc + Size(i), t.st, t.stk, saved);
      ControlUnder(P, i, t.pc + Size(i), t.st, t.stk, saved);
  }

  lemma StackUnder(P: Prog, i: Instr, pc: int, st: St, stk: seq<int>, saved: seq<Entry>)
    ensures IsStackOp(i) ==>
              var c := ExecStack(P, i, pc, st, stk, []);
              ExecStack(P, i, pc, st, stk, saved) == Under(saved, c) && (c.Stuck? || (c.Run? && c.saved == []))
  {
    assert saved + [] == saved;
  }

  lemma QuantUnder(P: Prog, i: Instr, pc: int, st: St, stk: seq<int>, saved: seq<Entry>)
    ensures i.ISimpleGreedyQuant? ==>
              var c := ExecQuant(P, i, pc, st, stk, []);
              && ExecQuant(P, i, pc, st, stk, saved) == Under(saved, c)
              && (c.Stuck? || (c.Run? && |c.saved| <= 1) || c == Fail([]))
  {
    hide RunGreedy;
    assert saved + [] == saved;
    var none: seq<Entry> := [];
    forall x: Entry ensures none + [x] == [x] {}
  }

  lemma ControlUnder(P: Prog, i: Instr, pc: int, st: St, stk: seq<int>, saved: seq<Entry>)
    ensures !IsSimple(i) && !IsStackOp(i) && !i.ISimpleGreedyQuant? ==>
              var c := ExecControl(P, i, pc, st, stk, []);
              && ExecControl(P, i, pc, st, stk, saved) == Under(saved, c)
              && (c.Stuck? || (c.Run? && |c.saved| <= 1) || (c.Succeed? && c.saved == []) || c == Fail([]))
  {
    hide RefPos, SetCap, ResetCaps;
    assert saved + [] == saved;
    var none: seq<Entry> := [];
    forall x: Entry ensures none + [x] == [x] {}
  }

  /** Unwinding into the newest of several saved states. */
  lemma FailUnder(P: Prog, saved: seq<Entry>, x: Entry)
    ensures StepFail(P, saved + [x]) == Under(saved, StepFail(P, [x]))
    ensures match StepFail(P, [x])
            case Run(_, _, _, kept) =>
              x.kind != LookaheadState && (kept == [] || (|kept| == 1 && kept[0].count < x.count))
            case Fail(rest) => x.kind == LookaheadState && rest == []
            case Stuck => x.kind == GreedyQuantState
            case _ => false
  {
    hide GetU32;
    var s := saved + [x];
    assert s[|s| - 1] == x && s[..|s| - 1] == saved;
    assert [x][..0] == [] && saved + [] == saved;
  }

  lemma SucceedUnder(caps: seq<int>, saved: seq<Entry>, x: Entry)
    ensures StepSucceed(caps, saved + [x]) ==
            match x.kind
            case SplitState => Succeed(caps, saved)
            case GreedyQuantState => Succeed(caps, saved)
            case LookaheadState => Run(x.pc, St(x.st.pos, caps), x.stk, saved)
            case NegativeLookaheadState => Fail(saved)
  {
    var s := saved + [x];
    assert s[|s| - 1] == x && s[..|s| - 1] == saved;
  }

  // ---- threads never leave a finite set ----

  predicate GoodCaps(n: nat, m: nat, caps: seq<int>) {
    |caps| == m && forall i :: 0 <= i < |caps| ==> -1 <= caps[i] <= n
  }

  predicate GoodStack(n: nat, d: nat, stk: seq<int>) {
    |stk| <= d && forall i :: 0 <= i < |stk| ==> 0 <= stk[i] < STACK_WORD + n
  }

  predicate GoodState(P: Prog, m: nat, st: St, stk: seq<int>) {
    st.pos <= |P.e.input| && GoodCaps(|P.e.input|, m, st.caps) && GoodStack(|P.e.input|, P.stackMax, stk)
  }

  /** Where a jump from inside the code can lead. */
  predicate NearCode(P: Prog, pc: int) { -TWO31 <= pc <= |P.code| + TWO31 }

  predicate Bounded(P: Prog, m: nat, t: Thread) { NearCode(P, t.pc) && GoodState(P, m, t.st, t.stk) }

  predicate BoundedEntry(P: Prog, m: nat, x: Entry) {
    GoodState(P, m, x.st, x.stk) && x.count <= |P.e.input| && (x.kind != GreedyQuantState ==> NearCode(P, x.pc))
  }

  predicate BoundedConfig(P: Prog, m: nat, c: Config) {
    match c
    case Run(pc, st, stk, saved) =>
      Bounded(P, m, Thread(pc, st, stk)) && forall k :: 0 <= k < |saved| ==> BoundedEntry(P, m, saved[k])
    case Succeed(caps, _) => GoodCaps(|P.e.input|, m, caps)
    case _ => true
  }

  /** The decoder stays inside the code, and what it returns fits the operand fields. */
  lemma DecodeFits(code: seq<byte>, pc: int)
    ensures match Decode(code, pc)
            case None => true
            case Some(i) => 0 <= pc && pc + Size(i) <= |code| && SmallOperands(i)
  {
    hide GetU16, GetU32, GetTable16, GetTable32;
    if 0 <= pc < |code| {
      var op := code[pc];
      PlainFits(op);
      if Is32(op) && pc + 5 <= |code| { WordFits(op, GetU32(code, pc + 1)); }
      TableFits(op, code, pc);
      ByteFits(op, code, pc);
    }
  }

  predicate SmallOperands(i: Instr) {
    match i
    case IGoto(d) => IsS32(d)
    case ISplit(_, d) => IsS32(d)
    case ILoop(d) => IsS32(d)
    case ILookahead(_, d) => IsS32(d)
    case IBneCharPos(d) => IsS32(d)
    case IPushI32(v) => IsU32(v)
    case ISimpleGreedyQuant(d, lo, _, _) => IsS32(d) && IsU32(lo)
    case _ => true
  }

  lemma PlainFits(op: byte)
    ensures Decode0(op).Some? ==> Size(Decode0(op).value) == 1 && SmallOperands(Decode0(op).value)
  {
  }

  lemma WordFits(op: byte, v: int)
    requires IsU32(v)
    ensures Decode32(op, v).Some? ==> Size(Decode32(op, v).value) == 5 && SmallOperands(Decode32(op, v).value)
  {
  }

  lemma TableFits(op: byte, code: seq<byte>, pc: nat)
    requires pc < |code|
    ensures var r := DecodeTable(op, code, pc); r.Some? ==> pc + Size(r.value) <= |code| && SmallOperands(r.value)
  {
    hide GetU16;
  }

  lemma ByteFits(op: byte, code: seq<byte>, pc: nat)
    requires pc < |code|
    ensures var r := Decode8(op, code, pc); r.Some? ==> pc + Size(r.value) <= |code| && SmallOperands(r.value)
  {
    hide GetU16;
  }

  lemma StepBounded(P: Prog, m: nat, t: Thread)
    requires Bounded(P, m, t)
    ensures BoundedConfig(P, m, Step(P, Over(t, [])))
  {
    hide Decode, ExecStack, ExecQuant, ExecControl, SimpleStep, GoodCaps, GoodStack;
    DecodeFits(P.code, t.pc);
    match Decode(P.code, t.pc)
    case None =>
    case Some(i) =>
      StackBounded(P, m, i, t.pc + Size(i), t.st, t.stk);
      QuantBounded(P, m, i, t.pc + Size(i), t.st, t.stk);
      ControlBounded(P, m, i, t.pc + Size(i), t.st, t.stk);
  }

  lemma StackBounded(P: Prog, m: nat, i: Instr, pc: int, st: St, stk: seq<int>)
    requires GoodState(P, m, st, stk) && 0 <= pc <= |P.code| && SmallOperands(i)
    ensures IsStackOp(i) ==> BoundedConfig(P, m, ExecStack(P, i, pc, st, stk, []))
  {
    hide GoodCaps;
  }

  /** Every round moves, so there are at most as many rounds as characters left. */
  lemma {:induction false} GreedyRounds(P: Prog, pc: int, pos: nat, q: nat, max: int)
    requires 0 <= pc && pos <= |P.e.input|
    ensures match RunGreedy(P, pc, pos, q, max)
            case None => true
            case Some((to, n)) => pos <= to <= |P.e.input| && q <= n <= q + (to - pos)
    decreases |P.e.input| - pos
  {
    hide RunAtom;
    match RunAtom(P, pc, pos)
    case Reached(to) =>
      if pos < to <= |P.e.input| && !(q + 1 >= max && max != INT32_MAX) { GreedyRounds(P, pc, to, q + 1, max); }
    case _ =>
  }

  lemma QuantBounded(P: Prog, m: nat, i: Instr, pc: int, st: St, stk: seq<int>)
    requires GoodState(P, m, st, stk) && 0 <= pc <= |P.code| && SmallOperands(i)
    ensures i.ISimpleGreedyQuant? ==> BoundedConfig(P, m, ExecQuant(P, i, pc, st, stk, []))
  {
    hide GoodCaps, GoodStack, RunGreedy;
    if i.ISimpleGreedyQuant? && pc >= 16 { GreedyRounds(P, pc, st.pos, 0, i.max); }
  }

  lemma ControlBounded(P: Prog, m: nat, i: Instr, pc: int, st: St, stk: seq<int>)
    requires GoodState(P, m, st, stk) && 0 <= pc <= |P.code| && SmallOperands(i)
    ensures !IsSimple(i) && !IsStackOp(i) && !i.ISimpleGreedyQuant? ==>
              BoundedConfig(P, m, ExecControl(P, i, pc, st, stk, []))
  {
    hide GoodStack, RefPos;
  }

  lemma FailBounded(P: Prog, m: nat, x: Entry)
    requires BoundedEntry(P, m, x)
    ensures BoundedConfig(P, m, StepFail(P, [x]))
  {
    hide GoodStack, GoodCaps, GetU32;
  }

  /** So are the captures of a thread that matched. */
  lemma {:induction false} ExploreGood(P: Prog, m: nat, t: Thread, f: nat)
    requires Bounded(P, m, t)
    ensures var o := Explore(P, t, f); o.Won? ==> GoodCaps(|P.e.input|, m, o.caps)
    decreases f, 0, 0
  {
    hide Step, StepFail, GoodCaps;
    if f > 0 {
      StepBounded(P, m, t);
      match Step(P, Over(t, []))
      case Run(pc, st, stk, saved) =>
        ExploreGood(P, m, Thread(pc, st, stk), f - 1);
        if saved != [] { UnwoundGood(P, m, saved[0], Explore(P, Thread(pc, st, stk), f - 1), f - 1); }
      case _ =>
    }
  }

  lemma {:induction false} UnwoundGood(P: Prog, m: nat, x: Entry, o: Outcome, f: nat)
    requires BoundedEntry(P, m, x) && (o.Won? ==> GoodCaps(|P.e.input|, m, o.caps))
    ensures var r := Unwound(P, x, o, f); r.Won? ==> GoodCaps(|P.e.input|, m, r.caps)
    decreases f, 1, x.count
  {
    hide StepFail, GoodCaps;
    if o.Failed? && x.kind != LookaheadState {
      FailUnder(P, [], x);
      FailBounded(P, m, x);
      match StepFail(P, [x])
      case Run(pc, st, stk, kept) =>
        ExploreGood(P, m, Thread(pc, st, stk), f);
        if kept != [] { UnwoundGood(P, m, kept[0], Explore(P, Thread(pc, st, stk), f), f); }
      case _ =>
    } else if o.Won? && x.kind == LookaheadState {
      ExploreGood(P, m, Thread(x.pc, St(x.st.pos, o.caps), x.stk), f);
    }
  }

  // ---- a settled outcome is what the machine does, in a bounded number of steps ----

  function Ends(o: Outcome, saved: seq<Entry>): (c: Config) {
    match o
    case Won(caps) => Succeed(caps, saved)
    case Failed => Fail(saved)
    case _ => Stuck
  }

  /** Steps for 'c + 1' threads of 'k' steps each, with one transition before each. */
  function Rounds(c: nat, k: nat): (n: nat) { if c == 0 then k + 1 else k + 1 + Rounds(c - 1, k) }

  /** Steps to settle a thread 'f' transitions deep, if no saved count is above 'w'. */
  function Cost(w: nat, f: nat): (n: nat) { if f == 0 then 0 else 1 + Cost(w, f - 1) + Rounds(w, Cost(w, f - 1)) }

  lemma {:induction false} RoundsMonotone(c: nat, d: nat, k: nat)
    requires c <= d
    ensures Rounds(c, k) <= Rounds(d, k)
    decreases d
  {
    if c < d { RoundsMonotone(c, d - 1, k); }
  }

  lemma {:induction false} ExploreRuns(P: Prog, m: nat, t: Thread, f: nat, saved: seq<Entry>) returns (n: nat)
    requires Explore(P, t, f) != Unknown && Bounded(P, m, t)
    ensures Steps(P, Over(t, saved), n) == Ends(Explore(P, t, f), saved) && n <= Cost(|P.e.input|, f)
    decreases f, 0, 0
  {
    hide Step, StepFail, StepSucceed, GoodState, GoodCaps, NearCode;
    StepUnder(P, t, saved);
    StepBounded(P, m, t);
    var w := |P.e.input|;
    OneStep1(P, Over(t, saved));
    assert saved + [] == saved;
    n := 1;
    match Step(P, Over(t, []))
    case Run(pc, st, stk, more) =>
      var t1 := Thread(pc, st, stk);
      if more == [] {
        var k := ExploreRuns(P, m, t1, f - 1, saved);
        StepsAdd(P, Over(t, saved), 1, k);
        n := 1 + k;
      } else {
        assert saved + more == saved + [more[0]];
        var k := ExploreRuns(P, m, t1, f - 1, saved + [more[0]]);
        ExploreGood(P, m, t1, f - 1);
        var l := UnwoundRuns(P, m, more[0], Explore(P, t1, f - 1), f - 1, saved);
        StepsAdd(P, Over(t, saved), 1, k);
        StepsAdd(P, Over(t, saved), 1 + k, l);
        RoundsMonotone(more[0].count, w, Cost(w, f - 1));
        n := 1 + k + l;
      }
    case _ =>
  }

  lemma OneStep1(P: Prog, c: Config)
    ensures Steps(P, c, 1) == Step(P, c)
  {
    assert Steps(P, Step(P, c), 0) == Step(P, c);
  }

  lemma {:induction false} UnwoundRuns(P: Prog, m: nat, x: Entry, o: Outcome, f: nat, saved: seq<Entry>)
    returns (n: nat)
    requires Unwound(P, x, o, f) != Unknown && BoundedEntry(P, m, x)
    requires o.Won? ==> GoodCaps(|P.e.input|, m, o.caps)
    ensures Steps(P, Ends(o, saved + [x]), n) == Ends(Unwound(P, x, o, f), saved)
    ensures n <= Rounds(x.count, Cost(|P.e.input|, f))
    decreases f, 1, x.count
  {
    hide StepFail, StepSucceed, GoodCaps, GoodStack, NearCode, Explore, Cost;
    FailBounded(P, m, x);
    n := 0;
    var from := Ends(o, saved + [x]);
    OneStep1(P, from);
    FailUnder(P, saved, x);
    assert saved + [] == saved;
    match o
    case Failed =>
      n := 1;
      if x.kind != LookaheadState {
        match StepFail(P, [x])
        case Run(pc, st, stk, kept) =>
          var t1 := Thread(pc, st, stk);
          var k := ExploreRuns(P, m, t1, f, saved + kept);
          StepsAdd(P, from, 1, k);
          n := 1 + k;
          if kept != [] {
            assert kept == [kept[0]];
            ExploreGood(P, m, t1, f);
            var l := UnwoundRuns(P, m, kept[0], Explore(P, t1, f), f, saved);
            StepsAdd(P, from, 1 + k, l);
            RoundsMonotone(kept[0].count, x.count - 1, Cost(|P.e.input|, f));
            n := 1 + k + l;
          }
        case _ =>
      }
    case Won(caps) =>
      SucceedUnder(caps, saved, x);
      n := 1;
      if x.kind == LookaheadState {
        var t1 := Thread(x.pc, St(x.st.pos, caps), x.stk);
        var k := ExploreRuns(P, m, t1, f, saved);
        StepsAdd(P, from, 1, k);
        n := 1 + k;
      }
    case _ =>
  }

  // ---- an unsettled thread is still running ----

  lemma {:induction false} ExploreLives(P: Prog, m: nat, t: Thread, f: nat, saved: seq<Entry>) returns (n: nat)
    requires Explore(P, t, f) == Unknown && Bounded(P, m, t)
    ensures n >= f && Live(Steps(P, Over(t, saved), n))
    decreases f, 0, 0
  {
    hide Step, StepFail, StepSucceed, GoodState, GoodCaps, NearCode;
    n := 0;
    if f > 0 {
      StepUnder(P, t, saved);
      StepBounded(P, m, t);
      OneStep1(P, Over(t, saved));
      match Step(P, Over(t, []))
      case Run(pc, st, stk, more) =>
        var t1 := Thread(pc, st, stk);
        if Explore(P, t1, f - 1) == Unknown {
          var k := ExploreLives(P, m, t1, f - 1, saved + more);
          StepsAdd(P, Over(t, saved), 1, k);
          n := 1 + k;
        } else {
          assert saved + more == saved + [more[0]];
          var k := ExploreRuns(P, m, t1, f - 1, saved + [more[0]]);
          ExploreGood(P, m, t1, f - 1);
          var l := UnwoundLives(P, m, more[0], Explore(P, t1, f - 1), f - 1, saved);
          StepsAdd(P, Over(t, saved), 1, k);
          StepsAdd(P, Over(t, saved), 1 + k, l);
          n := 1 + k + l;
        }
      case _ =>
    }
  }

  lemma {:induction false} UnwoundLives(P: Prog, m: nat, x: Entry, o: Outcome, f: nat, saved: seq<Entry>)
    returns (n: nat)
    requires o != Unknown && Unwound(P, x, o, f) == Unknown && BoundedEntry(P, m, x)
    requires o.Won? ==> GoodCaps(|P.e.input|, m, o.caps)
    ensures n >= f && Live(Steps(P, Ends(o, saved + [x]), n))
    decreases f, 1, x.count
  {
    hide StepFail, StepSucceed, GoodCaps, GoodStack, NearCode, Explore, Cost;
    n := 0;
    FailBounded(P, m, x);
    var from := Ends(o, saved + [x]);
    OneStep1(P, from);
    FailUnder(P, saved, x);
    if o.Failed? {
      var Run(pc, st, stk, kept) := StepFail(P, [x]);
      var t1 := Thread(pc, st, stk);
      if Explore(P, t1, f) == Unknown {
        var k := ExploreLives(P, m, t1, f, saved + kept);
        StepsAdd(P, from, 1, k);
        n := 1 + k;
      } else {
        assert kept == [kept[0]];
        var k := ExploreRuns(P, m, t1, f, saved + kept);
        ExploreGood(P, m, t1, f);
        var l := UnwoundLives(P, m, kept[0], Explore(P, t1, f), f, saved);
        StepsAdd(P, from, 1, k);
        StepsAdd(P, from, 1 + k, l);
        n := 1 + k + l;
      }
    } else {
      SucceedUnder(o.caps, saved, x);
      var t1 := Thread(x.pc, St(x.st.pos, o.caps), x.stk);
      var k := ExploreLives(P, m, t1, f, saved);
      StepsAdd(P, from, 1, k);
      n := 1 + k;
    }
  }

  // ---- outcomes, once known, stay; and when nothing new is known, nothing ever will be ----

  lemma {:induction false} ExploreKeeps(P: Prog, t: Thread, f: nat)
    requires Explore(P, t, f) != Unknown
    ensures Explore(P, t, f + 1) == Explore(P, t, f)
    decreases f, 0, 0
  {
    hide Step, StepFail;
    StepUnder(P, t, []);
    match Step(P, Over(t, []))
    case Run(pc, st, stk, saved) =>
      var t1 := Thread(pc, st, stk);
      ExploreKeeps(P, t1, f - 1);
      if saved != [] { UnwoundKeeps(P, saved[0], Explore(P, t1, f - 1), f - 1); }
    case _ =>
  }

  lemma {:induction false} UnwoundKeeps(P: Prog, x: Entry, o: Outcome, f: nat)
    requires Unwound(P, x, o, f) != Unknown
    ensures Unwound(P, x, o, f + 1) == Unwound(P, x, o, f)
    decreases f, 1, x.count
  {
    hide StepFail;
    if o.Failed? && x.kind != LookaheadState {
      FailUnder(P, [], x);
      match StepFail(P, [x])
      case Run(pc, st, stk, kept) =>
        var t1 := Thread(pc, st, stk);
        ExploreKeeps(P, t1, f);
        if kept != [] { UnwoundKeeps(P, kept[0], Explore(P, t1, f), f); }
      case _ =>
    } else if o.Won? && x.kind == LookaheadState {
      ExploreKeeps(P, Thread(x.pc, St(x.st.pos, o.caps), x.stk), f);
    }
  }

  /** One more level of depth tells nothing new about any thread. */
  ghost predicate Settled(P: Prog, m: nat, f: nat) {
    forall t :: Bounded(P, m, t) ==> Explore(P, t, f + 1) == Explore(P, t, f)
  }

  lemma SettledAt(P: Prog, m: nat, f: nat, t: Thread)
    requires Settled(P, m, f) && Bounded(P, m, t)
    ensures Explore(P, t, f + 1) == Explore(P, t, f)
  {
  }

  lemma ExploreSettled(P: Prog, m: nat, t: Thread, f: nat)
    requires Settled(P, m, f) && Bounded(P, m, t)
    ensures Explore(P, t, f + 2) == Explore(P, t, f + 1)
  {
    hide Step, StepFail, Settled, GoodState, NearCode;
    StepUnder(P, t, []);
    StepBounded(P, m, t);
    match Step(P, Over(t, []))
    case Run(pc, st, stk, saved) =>
      var t1 := Thread(pc, st, stk);
      SettledAt(P, m, f, t1);
      ExploreGood(P, m, t1, f);
      if saved != [] { UnwoundSettled(P, m, saved[0], Explore(P, t1, f), f); }
    case _ =>
  }

  lemma {:induction false} UnwoundSettled(P: Prog, m: nat, x: Entry, o: Outcome, f: nat)
    requires Settled(P, m, f) && BoundedEntry(P, m, x) && (o.Won? ==> GoodCaps(|P.e.input|, m, o.caps))
    ensures Unwound(P, x, o, f + 1) == Unwound(P, x, o, f)
    decreases x.count
  {
    hide StepFail, Explore, Settled, GoodCaps, GoodStack;
    if o.Failed? && x.kind != LookaheadState {
      FailUnder(P, [], x);
      FailBounded(P, m, x);
      match StepFail(P, [x])
      case Run(pc, st, stk, kept) =>
        var t1 := Thread(pc, st, stk);
        SettledAt(P, m, f, t1);
        ExploreGood(P, m, t1, f);
        if kept != [] { UnwoundSettled(P, m, kept[0], Explore(P, t1, f), f); }
      case _ =>
    } else if o.Won? && x.kind == LookaheadState {
      SettledAt(P, m, f, Thread(x.pc, St(x.st.pos, o.caps), x.stk));
    }
  }

  lemma {:induction false} SettledStays(P: Prog, m: nat, f: nat, g: nat, t: Thread)
    requires Settled(P, m, f) && Bounded(P, m, t) && f <= g
    ensures Settled(P, m, g) && Explore(P, t, g) == Explore(P, t, f)
    decreases g
  {
    hide Explore, Bounded;
    if f < g {
      SettledStays(P, m, f, g - 1, t);
      forall u | Bounded(P, m, u) ensures Explore(P, u, g + 1) == Explore(P, u, g) { ExploreSettled(P, m, u, g - 1); }
    }
  }

  // ---- counting threads ----

  /** All sequences of 'k' members of 'vals'. */
  ghost function Words(vals: set<int>, k: nat): (s: set<seq<int>>) {
    if k == 0 then {[]} else set v, w | v in vals && w in Words(vals, k - 1) :: [v] + w
  }

  lemma {:induction false} WordIn(vals: set<int>, w: seq<int>)
    requires forall i :: 0 <= i < |w| ==> w[i] in vals
    ensures w in Words(vals, |w|)
  {
    if w != [] {
      forall i | 0 <= i < |w| - 1 ensures w[1..][i] in vals { assert w[1..][i] == w[i + 1]; }
      var v, rest := w[0], w[1..];
      WordIn(vals, rest);
      assert w == [v] + rest && |rest| == |w| - 1 && v in vals && rest in Words(vals, |w| - 1);
    }
  }

  ghost function ShortWords(vals: set<int>, k: nat): (s: set<seq<int>>) {
    if k == 0 then Words(vals, 0) else ShortWords(vals, k - 1) + Words(vals, k)
  }

  lemma {:induction false} ShortWordIn(vals: set<int>, k: nat, w: seq<int>)
    requires |w| <= k && forall i :: 0 <= i < |w| ==> w[i] in vals
    ensures w in ShortWords(vals, k)
  {
    hide Words;
    WordIn(vals, w);
    if |w| < k { ShortWordIn(vals, k - 1, w); }
  }

  ghost function Range(lo: int, hi: int): (s: set<int>)
    ensures forall i :: i in s <==> lo <= i < hi
    decreases hi - lo
  {
    if hi <= lo then {} else Range(lo, hi - 1) + {hi - 1}
  }

  ghost function Combine(pcs: set<int>, at: set<int>, caps: set<seq<int>>, stks: set<seq<int>>): (s: set<Thread>)
  {
    set pc, pos, c, stk | pc in pcs && pos in at && c in caps && stk in stks ::
      Thread(pc, St(if pos < 0 then 0 else pos, c), stk)
  }

  /** All threads of programs of these sizes: code bytes, subject length, capture slots, stack depth. */
  ghost function Threads(code: nat, n: nat, m: nat, depth: nat): (s: set<Thread>) {
    Combine(Range(-TWO31, code + TWO31 + 1), Range(0, n + 1), Words(Range(-1, n + 1), m),
            ShortWords(Range(0, STACK_WORD + n), depth))
  }

  ghost function ThreadsOf(P: Prog, m: nat): (s: set<Thread>) { Threads(|P.code|, |P.e.input|, m, P.stackMax) }

  lemma CombineIn(pcs: set<int>, at: set<int>, caps: set<seq<int>>, stks: set<seq<int>>, t: Thread)
    requires t.pc in pcs && t.st.pos in at && t.st.caps in caps && t.stk in stks
    ensures t in Combine(pcs, at, caps, stks)
  {
    assert t == Thread(t.pc, St(t.st.pos, t.st.caps), t.stk);
  }

  lemma BoundedIn(P: Prog, m: nat, t: Thread)
    requires Bounded(P, m, t)
    ensures t in ThreadsOf(P, m)
  {
    hide Words, ShortWords;
    WordIn(Range(-1, |P.e.input| + 1), t.st.caps);
    ShortWordIn(Range(0, STACK_WORD + |P.e.input|), P.stackMax, t.stk);
    CombineIn(Range(-TWO31, |P.code| + TWO31 + 1), Range(0, |P.e.input| + 1), Words(Range(-1, |P.e.input| + 1), m),
              ShortWords(Range(0, STACK_WORD + |P.e.input|), P.stackMax), t);
  }

  ghost function Known(P: Prog, m: nat, f: nat): (s: set<Thread>) {
    set t | t in ThreadsOf(P, m) && Bounded(P, m, t) && Explore(P, t, f) != Unknown
  }

  /** Each level that tells something new settles at least one more thread. */
  lemma KnownGrows(P: Prog, m: nat, f: nat)
    requires !Settled(P, m, f)
    ensures |Known(P, m, f)| < |Known(P, m, f + 1)|
  {
    hide Explore, ThreadsOf, Bounded;
    var t :| Bounded(P, m, t) && Explore(P, t, f + 1) != Explore(P, t, f);
    BoundedIn(P, m, t);
    if Explore(P, t, f) != Unknown { ExploreKeeps(P, t, f); }
    forall u | u in Known(P, m, f) ensures u in Known(P, m, f + 1) { ExploreKeeps(P, u, f); }
    SubsetCard(Known(P, m, f) + {t}, Known(P, m, f + 1));
  }

  lemma {:induction false} SubsetCard<T>(a: set<T>, b: set<T>)
    requires a <= b
    ensures |a| <= |b|
    decreases |a|
  {
    if x :| x in a { SubsetCard(a - {x}, b - {x}); }
  }

  lemma {:induction false} SettlesBy(P: Prog, m: nat, f: nat) returns (g: nat)
    ensures g <= f && (Settled(P, m, g) || |Known(P, m, f)| >= f)
    decreases f
  {
    hide Explore, Bounded, Settled, Known;
    if f == 0 { return 0; }
    g := SettlesBy(P, m, f - 1);
    if !Settled(P, m, g) && !Settled(P, m, f - 1) {
      KnownGrows(P, m, f - 1);
    } else if Settled(P, m, f - 1) {
      g := f - 1;
    }
  }

  // ---- the results ----

  /** Depth at which everything that can be known about any thread of such a program is known. */
  ghost function DepthLimit(code: nat, n: nat, m: nat, depth: nat): (f: nat) { |Threads(code, n, m, depth)| + 1 }

  /** Steps after which a machine of these sizes has halted, if it ever does. */
  ghost function StepLimit(code: nat, n: nat, captures: nat, depth: nat): (k: nat) {
    Cost(n, DepthLimit(code, n, 2 * captures, depth)) + 1
  }

  ghost function LimitOf(P: Prog): (k: nat) { StepLimit(|P.code|, |P.e.input|, P.captureCount, P.stackMax) }

  /** Beyond the depth limit no thread changes from unknown to known. */
  lemma KnownByLimit(P: Prog, m: nat, t: Thread, f: nat)
    requires Bounded(P, m, t) && Explore(P, t, f) != Unknown
    ensures Explore(P, t, DepthLimit(|P.code|, |P.e.input|, m, P.stackMax)) != Unknown
  {
    hide Explore, Bounded, Threads, Settled;
    var limit := DepthLimit(|P.code|, |P.e.input|, m, P.stackMax);
    var g := SettlesBy(P, m, limit);
    SubsetCard(Known(P, m, limit), ThreadsOf(P, m));
    SettledStays(P, m, g, limit, t);
    if f <= limit {
      ExploreKeepsTo(P, t, f, limit);
    } else {
      SettledStays(P, m, g, f, t);
    }
  }

  lemma {:induction false} ExploreKeepsTo(P: Prog, t: Thread, f: nat, g: nat)
    requires Explore(P, t, f) != Unknown && f <= g
    ensures Explore(P, t, g) == Explore(P, t, f)
    decreases g
  {
    hide Explore;
    if f < g {
      ExploreKeepsTo(P, t, f, g - 1);
      ExploreKeeps(P, t, g - 1);
    }
  }

  /**
   For every program whatsoever: if the machine halts at all, it has halted
   after a number of steps that depends only on the sizes of code, subject,
   captures and integer stack.
   */
  lemma HaltsIffWithinLimit(P: Prog, pos: nat)
    requires pos <= |P.e.input|
    ensures (exists n: nat :: !Live(Steps(P, Start(P, pos), n))) <==> !Live(Steps(P, Start(P, pos), LimitOf(P)))
  {
    if n: nat :| !Live(Steps(P, Start(P, pos), n)) { HaltedByLimit(P, pos, n); }
  }

  lemma HaltedByLimit(P: Prog, pos: nat, n: nat)
    requires pos <= |P.e.input| && !Live(Steps(P, Start(P, pos), n))
    ensures !Live(Steps(P, Start(P, pos), LimitOf(P)))
  {
    hide Steps, Explore, Cost, DepthLimit, Step;
    var t, m := Thread(0, St(pos, NoCaps(P)), []), 2 * P.captureCount;
    var limit := DepthLimit(|P.code|, |P.e.input|, m, P.stackMax);
    var c := Over(t, []);
    if Explore(P, t, n) == Unknown {
      var k := ExploreLives(P, m, t, n, []);
      StepsAdd(P, c, n, k - n);
      HaltStays(P, Steps(P, c, n), k - n);
      assert false;
    }
    KnownByLimit(P, m, t, n);
    var k := ExploreRuns(P, m, t, limit, []);
    EndHalts(P, Explore(P, t, limit));
    StepsAdd(P, c, k, 1);
    StepsAdd(P, c, k + 1, LimitOf(P) - (k + 1));
    HaltStays(P, Steps(P, c, k + 1), LimitOf(P) - (k + 1));
  }

  lemma EndHalts(P: Prog, o: Outcome)
    ensures !Live(Steps(P, Ends(o, []), 1))
  {
    OneStep1(P, Ends(o, []));
  }

  /**
   For a compiled pattern: the machine halts if and only if the reference
   search comes to a decision at a depth computed from those sizes.
   */
  lemma HaltsIffDecidedAtLimit(P: Prog, p: Node, pos: nat)
    requires Loaded(P, p) && pos <= |P.e.input|
    ensures var x := Answer(P, p, pos, LimitOf(P) + Slack(P) + 1);
            (exists n: nat :: !Live(Steps(P, Start(P, pos), n))) <==> x.rs != [] || x.done
  {
    hide Loaded, Search, Steps, Start, LimitOf;
    LoadedIsWellFormed(P, p);
    if n: nat :| !Live(Steps(P, Start(P, pos), n)) {
      HaltedByLimit(P, pos, n);
      var f := HaltedMeansDecided(P, p, pos, LimitOf(P));
    }
    var f := LimitOf(P) + Slack(P) + 1;
    if Answer(P, p, pos, f).rs != [] || Answer(P, p, pos, f).done { HaltsIffDecided(P, p, pos); }
  }
}
