/**
 Placing instruction lists in the program, and the machine's behaviour on the
 building blocks every construct is compiled from.
 */
module Fragments {
  import opened Bytes
  import opened Opcodes
  import opened Matcher
  import opened Codegen
  import opened CodegenFacts
  import opened Machine
  import opened Traces

  /** 's' is at 'pc', and run from stack depth 'd' it stays within the machine's integer stack. */
  ghost predicate Placed(P: Prog, pc: int, s: seq<Instr>, d: int) {
    EncodableAll(s) && At(P.code, pc, EncAll(s)) && MaxDepth(s, d) <= P.stackMax
  }

  lemma EncodableConcat(a: seq<Instr>, b: seq<Instr>)
    ensures EncodableAll(a + b) <==> EncodableAll(a) && EncodableAll(b)
  {
    if EncodableAll(a + b) {
      forall i | 0 <= i < |a| ensures Encodable(a[i]) { assert (a + b)[i] == a[i]; }
      forall i | 0 <= i < |b| ensures Encodable(b[i]) { assert (a + b)[|a| + i] == b[i]; }
    }
  }

  lemma PlacedConcat(P: Prog, pc: int, a: seq<Instr>, b: seq<Instr>, d: int)
    requires Placed(P, pc, a + b, d)
    ensures Placed(P, pc, a, d) && Placed(P, pc + ByteLen(a), b, DepthAfter(a, d))
  {
    hide MaxDepth, DepthAfter, EncAll, EncodableAll;
    EncodableConcat(a, b);
    EncAllConcat(a, b);
    AtConcat(P.code, pc, EncAll(a), EncAll(b));
    MaxDepthConcat(a, b, d);
  }

  /** A balanced fragment in front: the rest starts at the same depth. */
  lemma PlacedPair(P: Prog, pc: int, a: seq<Instr>, b: seq<Instr>, d: int)
    requires Placed(P, pc, a + b, d) && Balanced(a)
    ensures Placed(P, pc, a, d) && Placed(P, pc + ByteLen(a), b, d)
  {
    hide MaxDepth, DepthAfter, EncAll, EncodableAll;
    PlacedConcat(P, pc, a, b, d);
    assert DepthAfter(a, d) == d;
  }

  /** One instruction in front. */
  lemma PlacedCons(P: Prog, pc: int, i: Instr, s: seq<Instr>, d: int)
    requires Placed(P, pc, [i] + s, d)
    ensures Placed(P, pc, [i], d) && Placed(P, pc + Size(i), s, d + StackEffect(i))
  {
    hide Placed, DepthAfter, MinDepth;
    PlacedConcat(P, pc, [i], s, d);
    DepthOne(i, d);
    assert [i][1..] == [];
    assert ByteLen([i]) == Size(i) + ByteLen([]);
  }

  lemma StepAt(P: Prog, pc: int, i: Instr, d: int, st: St, stk: seq<int>, saved: seq<Entry>)
    requires Placed(P, pc, [i], d)
    ensures Decode(P.code, pc) == Some(i) && 0 <= pc
    ensures Steps(P, Run(pc, st, stk, saved), 1) == Exec(P, i, pc + Size(i), st, stk, saved)
  {
    hide Exec, Decode, Enc;
    assert [i][0] == i && [i][1..] == [];
    assert EncAll([i]) == Enc(i) + EncAll([]) == Enc(i);
    DecodeEnc(P.code, pc, i);
    assert Steps(P, Step(P, Run(pc, st, stk, saved)), 0) == Step(P, Run(pc, st, stk, saved));
  }

  /** Room for one more entry is what placing a push guarantees. */
  lemma PushFits(P: Prog, pc: int, i: Instr, d: int)
    requires Placed(P, pc, [i], d) && StackEffect(i) == 1
    ensures d + 1 <= P.stackMax
  {
    assert [i][1..] == [];
    assert MaxDepth([], d + 1) == d + 1;
  }

  // ---- one step, then a known outcome ----

  lemma StepThen(P: Prog, c: Config, c': Config, pcEnd: int, stk: seq<int>, saved: seq<Entry>, x: Res, b: int)
    requires Steps(P, c, 1) == c' && Emits(P, c', pcEnd, stk, saved, x, b)
    ensures Emits(P, c, pcEnd, stk, saved, x, b + 1) && Emits(P, c, pcEnd, stk, saved, x, b)
  {
    hide Emits, Steps;
    EmitsAfter(P, c, 1, pcEnd, stk, saved, x, b);
    EmitsWeaken(P, c, pcEnd, stk, saved, x, b + 1, b);
  }

  /** The outcome of an instruction that either moves on or fails. */
  lemma MovedEmits(P: Prog, pc: int, i: Instr, d: int, st: St, stk: seq<int>, saved: seq<Entry>,
                   to: Option<nat>, b: int)
    requires Placed(P, pc, [i], d)
    requires Exec(P, i, pc + Size(i), st, stk, saved) == Moved(pc + Size(i), st, to, stk, saved)
    ensures Emits(P, Run(pc, st, stk, saved), pc + Size(i), stk, saved, Positioned(st, to), b)
  {
    hide Emits, Steps, Exec, Placed;
    StepAt(P, pc, i, d, st, stk, saved);
    var c, next := Run(pc, st, stk, saved), pc + Size(i);
    if to.Some? {
      EmitsUnit(P, St(to.value, st.caps), next, stk, saved, b);
    } else {
      EmitsNothing(P, saved, next, stk, b);
    }
    StepThen(P, c, Moved(next, st, to, stk, saved), next, stk, saved, Positioned(st, to), b);
  }

  // ---- reaching the end one step later ----

  function ThenUnit(): (g: St -> Res) { (st: St) => Unit(st) }

  lemma {:induction false} BindUnit(x: Res)
    ensures Bind(x, ThenUnit()) == x
    decreases |x.rs|
  {
    if x.rs != [] {
      BindUnit(Res(x.rs[1..], x.done));
      assert [x.rs[0]] + x.rs[1..] == x.rs;
    }
  }

  lemma BindOne(st: St, g: St -> Res)
    ensures Bind(Unit(st), g) == g(st)
  {
    assert Unit(st).rs[1..] == [];
    assert g(st).rs + [] == g(st).rs;
  }

  /** Continuations that agree on the results give the same list. */
  lemma {:induction false} BindSame(x: Res, g: St -> Res, h: St -> Res)
    requires forall i :: 0 <= i < |x.rs| ==> g(x.rs[i]) == h(x.rs[i])
    ensures Bind(x, g) == Bind(x, h)
    decreases |x.rs|
  {
    if x.rs != [] {
      var x' := Res(x.rs[1..], x.done);
      forall i | 0 <= i < |x'.rs| ensures g(x'.rs[i]) == h(x'.rs[i]) { assert x'.rs[i] == x.rs[i + 1]; }
      BindSame(x', g, h);
    }
  }

  /** Every state at 'pcMid' is one step away from the same state at 'pcEnd'. */
  ghost predicate OneStep(P: Prog, pcMid: int, stk: seq<int>, pcEnd: int, stkEnd: seq<int>) {
    forall st, saved :: Steps(P, Run(pcMid, st, stk, saved), 1) == Run(pcEnd, st, stkEnd, saved)
  }

  lemma ContinuesStep(P: Prog, pcMid: int, stk: seq<int>, pcEnd: int, stkEnd: seq<int>, b: int)
    requires OneStep(P, pcMid, stk, pcEnd, stkEnd)
    ensures Continues(P, pcMid, stk, pcEnd, stkEnd, ThenUnit(), b)
  {
    hide Emits, Steps;
    forall st, saved | Ok(P, st)
      ensures Emits(P, Run(pcMid, st, stk, saved), pcEnd, stkEnd, saved, ThenUnit()(st), b)
    {
      EmitsUnit(P, st, pcEnd, stkEnd, saved, b);
      StepThen(P, Run(pcMid, st, stk, saved), Run(pcEnd, st, stkEnd, saved), pcEnd, stkEnd, saved, Unit(st), b);
    }
  }

  /** Extend a fragment by one more instruction that only moves the program counter or the stack. */
  lemma EmitsThenStep(P: Prog, c: Config, pcMid: int, stk: seq<int>, pcEnd: int, stkEnd: seq<int>,
                      saved: seq<Entry>, x: Res, b: int)
    requires Emits(P, c, pcMid, stk, saved, x, b) && AllOk(P, x)
    requires OneStep(P, pcMid, stk, pcEnd, stkEnd)
    ensures Emits(P, c, pcEnd, stkEnd, saved, x, b)
  {
    hide Emits, Steps, OneStep, Continues, AllOk;
    ContinuesStep(P, pcMid, stk, pcEnd, stkEnd, b);
    EmitsBind(P, c, pcMid, stk, pcEnd, stkEnd, saved, x, ThenUnit(), b);
    BindUnit(x);
  }

  lemma GotoStep(P: Prog, pc: int, off: int, d: int, stk: seq<int>)
    requires Placed(P, pc, [IGoto(off)], d)
    ensures OneStep(P, pc, stk, pc + 5 + off, stk)
  {
    hide Emits, Steps, Placed;
    forall st, saved
      ensures Steps(P, Run(pc, st, stk, saved), 1) == Run(pc + 5 + off, st, stk, saved)
    {
      StepAt(P, pc, IGoto(off), d, st, stk, saved);
    }
  }

  lemma DropStep(P: Prog, pc: int, d: int, stk: seq<int>, k: int)
    requires Placed(P, pc, [IDrop], d)
    ensures OneStep(P, pc, stk + [k], pc + 1, stk)
  {
    hide Emits, Steps, Placed;
    forall st, saved
      ensures Steps(P, Run(pc, st, stk + [k], saved), 1) == Run(pc + 1, st, stk, saved)
    {
      StepAt(P, pc, IDrop, d, st, stk + [k], saved);
      assert (stk + [k])[..|stk|] == stk;
    }
  }

  /** 'loop' counts down: back to the split while rounds remain, on to the drop otherwise. */
  lemma LoopStep(P: Prog, pc: int, off: int, d: int, stk: seq<int>, k: int)
    requires Placed(P, pc, [ILoop(off)], d) && k > 0
    ensures OneStep(P, pc, stk + [k], if k - 1 != 0 then pc + 5 + off else pc + 5, stk + [k - 1])
  {
    hide Emits, Steps, Placed;
    forall st, saved
      ensures Steps(P, Run(pc, st, stk + [k], saved), 1)
           == Run(if k - 1 != 0 then pc + 5 + off else pc + 5, st, stk + [k - 1], saved)
    {
      StepAt(P, pc, ILoop(off), d, st, stk + [k], saved);
      assert (stk + [k])[..|stk|] == stk;
    }
  }

  lemma PushStep(P: Prog, pc: int, v: int, d: int, stk: seq<int>)
    requires Placed(P, pc, [IPushI32(v)], d) && d == |stk|
    ensures OneStep(P, pc, stk, pc + 5, stk + [v])
  {
    hide Emits, Steps;
    PushFits(P, pc, IPushI32(v), d);
    forall st, saved
      ensures Steps(P, Run(pc, st, stk, saved), 1) == Run(pc + 5, st, stk + [v], saved)
    {
      StepAt(P, pc, IPushI32(v), d, st, stk, saved);
    }
  }

  /** Start one step earlier, with a fragment already understood from the next instruction on. */
  lemma EmitsFromStep(P: Prog, pc: int, stk: seq<int>, pc': int, stk': seq<int>, st: St,
                      pcEnd: int, stkEnd: seq<int>, saved: seq<Entry>, x: Res, b: int)
    requires OneStep(P, pc, stk, pc', stk')
    requires Emits(P, Run(pc', st, stk', saved), pcEnd, stkEnd, saved, x, b)
    ensures Emits(P, Run(pc, st, stk, saved), pcEnd, stkEnd, saved, x, b + 1)
    ensures Emits(P, Run(pc, st, stk, saved), pcEnd, stkEnd, saved, x, b)
  {
    hide Emits, Steps;
    StepThen(P, Run(pc, st, stk, saved), Run(pc', st, stk', saved), pcEnd, stkEnd, saved, x, b);
  }

  // ---- choice points ----

  /**
   A split: the branch tried first runs above a saved state, the other one
   runs when that state is restored.
   */
  lemma SplitEmits(P: Prog, pc: int, nextFirst: bool, off: int, d: int, st: St, stk: seq<int>, saved: seq<Entry>,
                   x: Res, y: Res, pcEnd: int, stkEnd: seq<int>, b: int)
    requires Placed(P, pc, [ISplit(nextFirst, off)], d)
    requires var near, far := pc + 5, pc + 5 + off;
             var one, two := if nextFirst then near else far, if nextFirst then far else near;
             && Emits(P, Run(one, st, stk, saved + [Save(SplitState, two, st, stk)]), pcEnd, stkEnd,
                      saved + [Save(SplitState, two, st, stk)], x, b)
             && Emits(P, Run(two, st, stk, saved), pcEnd, stkEnd, saved, y, b)
    ensures Emits(P, Run(pc, st, stk, saved), pcEnd, stkEnd, saved, Append(x, y), b + 1)
  {
    hide Emits, Steps, Placed;
    var near, far := pc + 5, pc + 5 + off;
    var one, two := if nextFirst then near else far, if nextFirst then far else near;
    var top := Save(SplitState, two, st, stk);
    StepAt(P, pc, ISplit(nextFirst, off), d, st, stk, saved);
    assert Steps(P, Run(pc, st, stk, saved), 1) == Run(one, st, stk, saved + [top]);
    FailIntoSplit(P, saved, top);
    StepThen(P, Fail(saved + [top]), Run(two, st, stk, saved), pcEnd, stkEnd, saved, y, b);
    EmitsAppend(P, Run(one, st, stk, saved + [top]), pcEnd, stkEnd, saved, [top], x, y, b);
    StepThen(P, Run(pc, st, stk, saved), Run(one, st, stk, saved + [top]), pcEnd, stkEnd, saved, Append(x, y), b);
  }

  lemma FailIntoSplit(P: Prog, saved: seq<Entry>, top: Entry)
    requires top.kind.SplitState? || top.kind.NegativeLookaheadState?
    ensures Steps(P, Fail(saved + [top]), 1) == Run(top.pc, top.st, top.stk, saved)
  {
    assert (saved + [top])[..|saved|] == saved;
    assert Steps(P, Step(P, Fail(saved + [top])), 0) == Step(P, Fail(saved + [top]));
  }

  /** The same, stated for a loop or option: 'greedy' decides whether the body is tried first. */
  lemma ChoiceEmits(P: Prog, pc: int, nextFirst: bool, off: int, d: int, greedy: bool, body: int, exit: int,
                    st: St, stk: seq<int>, saved: seq<Entry>, more: Res, pcEnd: int, stkEnd: seq<int>, b: int)
    requires Placed(P, pc, [ISplit(nextFirst, off)], d)
    requires (if greedy == nextFirst then body == pc + 5 && exit == pc + 5 + off
                                     else body == pc + 5 + off && exit == pc + 5)
    requires forall s :: Emits(P, Run(body, st, stk, s), pcEnd, stkEnd, s, more, b)
    requires forall s :: Emits(P, Run(exit, st, stk, s), pcEnd, stkEnd, s, Unit(st), b)
    ensures Emits(P, Run(pc, st, stk, saved), pcEnd, stkEnd, saved, Choice(greedy, more, st), b + 1)
  {
    hide Emits, Steps, Placed;
    if greedy {
      SplitEmits(P, pc, nextFirst, off, d, st, stk, saved, more, Unit(st), pcEnd, stkEnd, b);
    } else {
      SplitEmits(P, pc, nextFirst, off, d, st, stk, saved, Unit(st), more, pcEnd, stkEnd, b);
    }
  }

  // ---- lookarounds ----

  /** Success drops choice points one at a time. */
  lemma {:induction false} SucceedThrough(P: Prog, caps: seq<int>, saved: seq<Entry>, t: seq<Entry>)
    requires Choices(t)
    ensures Steps(P, Succeed(caps, saved + t), |t|) == Succeed(caps, saved)
    decreases |t|
  {
    if t == [] {
      assert saved + t == saved;
    } else {
      var u := t[..|t| - 1];
      assert (saved + t)[..|saved + t| - 1] == saved + u;
      SucceedThrough(P, caps, saved, u);
    }
  }

  lemma SucceedAtLook(P: Prog, caps: seq<int>, saved: seq<Entry>, top: Entry)
    ensures top.kind.LookaheadState? ==>
              Steps(P, Succeed(caps, saved + [top]), 1) == Run(top.pc, St(top.st.pos, caps), top.stk, saved)
    ensures top.kind.NegativeLookaheadState? ==> Steps(P, Succeed(caps, saved + [top]), 1) == Fail(saved)
  {
    assert (saved + [top])[..|saved|] == saved;
    assert Steps(P, Step(P, Succeed(caps, saved + [top])), 0) == Step(P, Succeed(caps, saved + [top]));
  }

  lemma FailIntoLook(P: Prog, saved: seq<Entry>, top: Entry)
    requires top.kind.LookaheadState?
    ensures Steps(P, Fail(saved + [top]), 1) == Fail(saved)
  {
    assert (saved + [top])[..|saved|] == saved;
    assert Steps(P, Step(P, Fail(saved + [top])), 0) == Step(P, Fail(saved + [top]));
  }

  /** From the 'match' that ends a lookaround body down to its saved state. */
  lemma MatchUnderLook(P: Prog, pcMatch: int, d: int, st: St, stk: seq<int>, saved: seq<Entry>, t: seq<Entry>)
    returns (n: nat)
    requires Placed(P, pcMatch, [IMatch], d) && Choices(t)
    ensures Steps(P, Run(pcMatch, st, stk, saved + t), n) == Succeed(st.caps, saved)
  {
    hide Steps, Placed;
    StepAt(P, pcMatch, IMatch, d, st, stk, saved + t);
    SucceedThrough(P, st.caps, saved, t);
    n := 1 + |t|;
    StepsAdd(P, Run(pcMatch, st, stk, saved + t), 1, |t|);
  }

  /** A lookaround: first result of the body, or its absence, decides. */
  lemma LookEmits(P: Prog, pc: int, negative: bool, off: int, pcMatch: int, d: int, st: St, stk: seq<int>,
                  saved: seq<Entry>, x: Res, b: int)
    requires Placed(P, pc, [ILookahead(negative, off)], d) && Placed(P, pcMatch, [IMatch], d)
    requires pc + 5 + off == pcMatch + 1
    requires var top := Save(if negative then NegativeLookaheadState else LookaheadState, pcMatch + 1, st, stk);
             Emits(P, Run(pc + 5, st, stk, saved + [top]), pcMatch, stk, saved + [top], x, b)
    ensures Emits(P, Run(pc, st, stk, saved), pcMatch + 1, stk, saved, Around(negative, st, x), b)
  {
    hide Emits, Steps, Placed;
    var top := Save(if negative then NegativeLookaheadState else LookaheadState, pcMatch + 1, st, stk);
    var c, inside, pcEnd := Run(pc, st, stk, saved), Run(pc + 5, st, stk, saved + [top]), pcMatch + 1;
    StepAt(P, pc, ILookahead(negative, off), d, st, stk, saved);
    assert Steps(P, c, 1) == inside;
    if x.rs != [] {
      var n, t := EmitsFirst(P, inside, pcMatch, stk, saved + [top], x, b);
      var m := MatchUnderLook(P, pcMatch, d, x.rs[0], stk, saved + [top], t);
      SucceedAtLook(P, x.rs[0].caps, saved, top);
      StepsAdd(P, inside, n, m);
      StepsAdd(P, inside, n + m, 1);
      LookSettled(P, inside, n + m + 1, negative, pcEnd, stk, saved, st, x, b);
    } else if x.done {
      EmitsEnd(P, inside, pcMatch, stk, saved + [top], x, b);
      var n: nat :| Steps(P, inside, n) == Fail(saved + [top]);
      if negative { FailIntoSplit(P, saved, top); } else { FailIntoLook(P, saved, top); }
      StepsAdd(P, inside, n, 1);
      LookSettled(P, inside, n + 1, negative, pcEnd, stk, saved, st, x, b);
    } else {
      EmitsEnd(P, inside, pcMatch, stk, saved + [top], x, b);
      EmitsEnd(P, inside, pcEnd, stk, saved, x, b);
    }
    StepThen(P, c, inside, pcEnd, stk, saved, Around(negative, st, x), b);
  }

  lemma LookSettled(P: Prog, inside: Config, n: nat, negative: bool, pcEnd: int, stk: seq<int>, saved: seq<Entry>,
                    st: St, x: Res, b: int)
    requires x.rs != [] || x.done
    requires Steps(P, inside, n) ==
             if x.rs != [] then (if negative then Fail(saved) else Run(pcEnd, St(st.pos, x.rs[0].caps), stk, saved))
             else if negative then Run(pcEnd, st, stk, saved) else Fail(saved)
    ensures Emits(P, inside, pcEnd, stk, saved, Around(negative, st, x), b)
  {
    hide Emits, Steps;
    var y := Around(negative, st, x);
    if y.rs != [] {
      EmitsUnit(P, y.rs[0], pcEnd, stk, saved, b);
    } else {
      EmitsNothing(P, saved, pcEnd, stk, b);
    }
    EmitsAfter(P, inside, n, pcEnd, stk, saved, y, b);
    EmitsWeaken(P, inside, pcEnd, stk, saved, y, b + n, b);
  }
}
