/**
 How a fragment of code produces a list of results: it reaches its end with the
 first result, having left only choice points on the state stack; failing into
 those produces the second result; and so on until it fails into what was on
 the stack before.
 */
module Traces {
  import opened Matcher
  import opened Machine

  ghost predicate Choices(t: seq<Entry>) {
    forall i :: 0 <= i < |t| ==> t[i].kind.SplitState? || t[i].kind.GreedyQuantState?
  }

  /**
   From 'c' the machine delivers the results of 'x' at 'pcEnd', in order. If the
   list is finished it then fails into 'saved'; if not, it is still running
   after at least 'b' steps of its own.
   */
  ghost predicate Emits(P: Prog, c: Config, pcEnd: int, stk: seq<int>, saved: seq<Entry>, x: Res, b: int)
    decreases |x.rs|
  {
    if x.rs != [] then
      exists n: nat, t: seq<Entry> ::
        && Choices(t)
        && Steps(P, c, n) == Run(pcEnd, x.rs[0], stk, saved + t)
        && Emits(P, Fail(saved + t), pcEnd, stk, saved, Res(x.rs[1..], x.done), b - n)
    else if x.done then FailsInto(P, c, saved) else Outlives(P, c, b)
  }

  ghost predicate FailsInto(P: Prog, c: Config, saved: seq<Entry>) {
    exists n: nat :: Steps(P, c, n) == Fail(saved)
  }

  ghost predicate Outlives(P: Prog, c: Config, b: int) {
    exists n: nat :: n >= b && Live(Steps(P, c, n))
  }

  lemma EmitsEnd(P: Prog, c: Config, pcEnd: int, stk: seq<int>, saved: seq<Entry>, x: Res, b: int)
    requires x.rs == []
    ensures Emits(P, c, pcEnd, stk, saved, x, b) == if x.done then FailsInto(P, c, saved) else Outlives(P, c, b)
  {
  }

  /** Take the first result apart. */
  lemma EmitsFirst(P: Prog, c: Config, pcEnd: int, stk: seq<int>, saved: seq<Entry>, x: Res, b: int)
    returns (n: nat, t: seq<Entry>)
    requires Emits(P, c, pcEnd, stk, saved, x, b) && x.rs != []
    ensures Choices(t) && Steps(P, c, n) == Run(pcEnd, x.rs[0], stk, saved + t)
    ensures Emits(P, Fail(saved + t), pcEnd, stk, saved, Tail(x), b - n)
  {
    n, t :| && Choices(t)
            && Steps(P, c, n) == Run(pcEnd, x.rs[0], stk, saved + t)
            && Emits(P, Fail(saved + t), pcEnd, stk, saved, Res(x.rs[1..], x.done), b - n);
  }

  /** Put a first result in front. */
  lemma EmitsNext(P: Prog, c: Config, n: nat, t: seq<Entry>, pcEnd: int, stk: seq<int>, saved: seq<Entry>,
                  x: Res, b: int)
    requires x.rs != [] && Choices(t) && Steps(P, c, n) == Run(pcEnd, x.rs[0], stk, saved + t)
    requires Emits(P, Fail(saved + t), pcEnd, stk, saved, Tail(x), b - n)
    ensures Emits(P, c, pcEnd, stk, saved, x, b)
  {
  }

  function Tail(x: Res): (r: Res)
    requires x.rs != []
  {
    Res(x.rs[1..], x.done)
  }

  lemma {:induction false} EmitsWeaken(P: Prog, c: Config, pcEnd: int, stk: seq<int>, saved: seq<Entry>,
                                       x: Res, b: int, b': int)
    requires Emits(P, c, pcEnd, stk, saved, x, b) && b' <= b
    ensures Emits(P, c, pcEnd, stk, saved, x, b')
    decreases |x.rs|
  {
    hide Emits, Step, Steps;
    if x.rs != [] {
      var n, t := EmitsFirst(P, c, pcEnd, stk, saved, x, b);
      EmitsWeaken(P, Fail(saved + t), pcEnd, stk, saved, Tail(x), b - n, b' - n);
      EmitsNext(P, c, n, t, pcEnd, stk, saved, x, b');
    } else {
      EmitsEnd(P, c, pcEnd, stk, saved, x, b);
      EmitsEnd(P, c, pcEnd, stk, saved, x, b');
    }
  }

  /** Steps taken before the fragment starts count towards the bound. */
  lemma EmitsAfter(P: Prog, c: Config, k: nat, pcEnd: int, stk: seq<int>, saved: seq<Entry>, x: Res, b: int)
    requires Emits(P, Steps(P, c, k), pcEnd, stk, saved, x, b)
    ensures Emits(P, c, pcEnd, stk, saved, x, b + k)
  {
    hide Emits, Step, Steps;
    var c' := Steps(P, c, k);
    if x.rs != [] {
      var n, t := EmitsFirst(P, c', pcEnd, stk, saved, x, b);
      StepsAdd(P, c, k, n);
      EmitsNext(P, c, k + n, t, pcEnd, stk, saved, x, b + k);
    } else {
      EmitsEnd(P, c', pcEnd, stk, saved, x, b);
      EmitsEnd(P, c, pcEnd, stk, saved, x, b + k);
      var n: nat :| if x.done then Steps(P, c', n) == Fail(saved) else n >= b && Live(Steps(P, c', n));
      StepsAdd(P, c, k, n);
    }
  }

  /** A fragment run above leftover choice points 't', followed by failing into them. */
  lemma {:induction false} EmitsAppend(P: Prog, c: Config, pcEnd: int, stk: seq<int>,
                                       saved: seq<Entry>, t: seq<Entry>, x: Res, y: Res, b: int)
    requires Choices(t)
    requires Emits(P, c, pcEnd, stk, saved + t, x, b)
    requires x.done ==> Emits(P, Fail(saved + t), pcEnd, stk, saved, y, b)
    ensures Emits(P, c, pcEnd, stk, saved, Append(x, y), b)
    decreases |x.rs|
  {
    hide Emits, Step, Steps;
    if x.rs != [] {
      var n, u := EmitsFirst(P, c, pcEnd, stk, saved + t, x, b);
      if x.done { EmitsWeaken(P, Fail(saved + t), pcEnd, stk, saved, y, b, b - n); }
      EmitsAppend(P, Fail(saved + t + u), pcEnd, stk, saved, t, Tail(x), y, b - n);
      assert saved + t + u == saved + (t + u);
      AppendTail(x, y);
      EmitsNext(P, c, n, t + u, pcEnd, stk, saved, Append(x, y), b);
    } else {
      EmitsAppendNone(P, c, pcEnd, stk, saved, t, x, y, b);
    }
  }

  lemma AppendTail(x: Res, y: Res)
    requires x.rs != []
    ensures Append(x, y).rs != [] && Append(x, y).rs[0] == x.rs[0]
    ensures Tail(Append(x, y)) == Append(Tail(x), y)
  {
  }

  lemma EmitsAppendNone(P: Prog, c: Config, pcEnd: int, stk: seq<int>,
                        saved: seq<Entry>, t: seq<Entry>, x: Res, y: Res, b: int)
    requires x.rs == []
    requires Emits(P, c, pcEnd, stk, saved + t, x, b)
    requires x.done ==> Emits(P, Fail(saved + t), pcEnd, stk, saved, y, b)
    ensures Emits(P, c, pcEnd, stk, saved, Append(x, y), b)
  {
    hide Emits, Step, Steps;
    EmitsEnd(P, c, pcEnd, stk, saved + t, x, b);
    if x.done {
      var n: nat :| Steps(P, c, n) == Fail(saved + t);
      EmitsAfter(P, c, n, pcEnd, stk, saved, y, b);
      EmitsWeaken(P, c, pcEnd, stk, saved, y, b + n, b);
      assert Append(x, y) == y;
    } else {
      EmitsEnd(P, c, pcEnd, stk, saved, x, b);
    }
  }

  /** A state the machine can be in: position inside the subject, two slots per capture. */
  ghost predicate Ok(P: Prog, st: St) { st.pos <= |P.e.input| && |st.caps| == 2 * P.captureCount }

  ghost predicate AllOk(P: Prog, x: Res) { forall i :: 0 <= i < |x.rs| ==> Ok(P, x.rs[i]) }

  /** Code at 'pc' continues every state as 'g' does. */
  ghost predicate Continues(P: Prog, pc: int, stk: seq<int>, pcEnd: int, stkEnd: seq<int>, g: St -> Res, b: int) {
    forall st, saved :: Ok(P, st) ==> Emits(P, Run(pc, st, stk, saved), pcEnd, stkEnd, saved, g(st), b)
  }

  lemma ContinuesWeaken(P: Prog, pc: int, stk: seq<int>, pcEnd: int, stkEnd: seq<int>, g: St -> Res, b: int, b': int)
    requires Continues(P, pc, stk, pcEnd, stkEnd, g, b) && b' <= b
    ensures Continues(P, pc, stk, pcEnd, stkEnd, g, b')
  {
    hide Emits;
    forall st, s | Ok(P, st)
      ensures Emits(P, Run(pc, st, stk, s), pcEnd, stkEnd, s, g(st), b')
    {
      EmitsWeaken(P, Run(pc, st, stk, s), pcEnd, stkEnd, s, g(st), b, b');
    }
  }

  lemma {:induction false} EmitsBind(P: Prog, c: Config, pcMid: int, stk: seq<int>, pcEnd: int, stkEnd: seq<int>,
                                     saved: seq<Entry>, x: Res, g: St -> Res, b: int)
    requires Emits(P, c, pcMid, stk, saved, x, b)
    requires Continues(P, pcMid, stk, pcEnd, stkEnd, g, b)
    requires AllOk(P, x)
    ensures Emits(P, c, pcEnd, stkEnd, saved, Bind(x, g), b)
    decreases |x.rs|
  {
    hide Emits, Step, Steps;
    if x.rs != [] {
      var n, t := EmitsFirst(P, c, pcMid, stk, saved, x, b);
      ContinuesWeaken(P, pcMid, stk, pcEnd, stkEnd, g, b, b - n);
      EmitsBind(P, Fail(saved + t), pcMid, stk, pcEnd, stkEnd, saved, Tail(x), g, b - n);
      ContinueFrom(P, pcMid, stk, pcEnd, stkEnd, g, b - n, x.rs[0], saved + t);
      EmitsBindNext(P, c, n, pcMid, stk, pcEnd, stkEnd, saved, t, x, g, b);
    } else {
      EmitsBindNone(P, c, pcMid, stk, pcEnd, stkEnd, saved, x, g, b);
    }
  }

  lemma ContinueFrom(P: Prog, pc: int, stk: seq<int>, pcEnd: int, stkEnd: seq<int>, g: St -> Res, b: int,
                     st: St, saved: seq<Entry>)
    requires Continues(P, pc, stk, pcEnd, stkEnd, g, b) && Ok(P, st)
    ensures Emits(P, Run(pc, st, stk, saved), pcEnd, stkEnd, saved, g(st), b)
  {
  }

  lemma EmitsBindNext(P: Prog, c: Config, n: nat, pcMid: int, stk: seq<int>, pcEnd: int, stkEnd: seq<int>,
                      saved: seq<Entry>, t: seq<Entry>, x: Res, g: St -> Res, b: int)
    requires x.rs != [] && Choices(t)
    requires Steps(P, c, n) == Run(pcMid, x.rs[0], stk, saved + t)
    requires Emits(P, Run(pcMid, x.rs[0], stk, saved + t), pcEnd, stkEnd, saved + t, g(x.rs[0]), b - n)
    requires Emits(P, Fail(saved + t), pcEnd, stkEnd, saved, Bind(Tail(x), g), b - n)
    ensures Emits(P, c, pcEnd, stkEnd, saved, Bind(x, g), b)
  {
    hide Emits, Step, Steps;
    EmitsAppend(P, Run(pcMid, x.rs[0], stk, saved + t), pcEnd, stkEnd, saved, t, g(x.rs[0]), Bind(Tail(x), g), b - n);
    EmitsAfter(P, c, n, pcEnd, stkEnd, saved, Bind(x, g), b - n);
  }

  lemma EmitsBindNone(P: Prog, c: Config, pcMid: int, stk: seq<int>, pcEnd: int, stkEnd: seq<int>,
                      saved: seq<Entry>, x: Res, g: St -> Res, b: int)
    requires Emits(P, c, pcMid, stk, saved, x, b) && x.rs == []
    ensures Emits(P, c, pcEnd, stkEnd, saved, Bind(x, g), b)
  {
    hide Emits;
    EmitsEnd(P, c, pcMid, stk, saved, x, b);
    EmitsEnd(P, c, pcEnd, stkEnd, saved, x, b);
  }

  /** A single result, delivered as is. */
  lemma EmitsUnit(P: Prog, st: St, pc: int, stk: seq<int>, saved: seq<Entry>, b: int)
    ensures Emits(P, Run(pc, st, stk, saved), pc, stk, saved, Unit(st), b)
  {
    hide Emits;
    assert saved + [] == saved;
    EmitsNothing(P, saved, pc, stk, b);
    EmitsNext(P, Run(pc, st, stk, saved), 0, [], pc, stk, saved, Unit(st), b);
  }

  lemma EmitsNothing(P: Prog, saved: seq<Entry>, pc: int, stk: seq<int>, b: int)
    ensures Emits(P, Fail(saved), pc, stk, saved, Nothing, b)
  {
    assert Steps(P, Fail(saved), 0) == Fail(saved);
  }

  /** Out of fuel: nothing is claimed beyond the machine being alive. */
  lemma EmitsUnfinished(P: Prog, c: Config, pcEnd: int, stk: seq<int>, saved: seq<Entry>, b: int)
    requires Live(c) && b <= 0
    ensures Emits(P, c, pcEnd, stk, saved, Res([], false), b)
  {
    assert Steps(P, c, 0) == c;
  }
}
