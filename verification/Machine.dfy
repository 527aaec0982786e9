/**
 The backtracking machine: one transition per instruction, one per entry
 popped from the state stack while unwinding.
 */
module Machine {
  import opened Bytes
  import opened Opcodes
  import opened Pattern
  import opened Matcher
  import opened Codegen

  datatype Kind = SplitState | LookaheadState | NegativeLookaheadState | GreedyQuantState

  /** One saved state. 'count' is only used by the greedy quantifier. */
  datatype Entry = Entry(kind: Kind, pc: int, st: St, stk: seq<int>, count: nat)

  datatype Config =
    | Run(pc: int, st: St, stk: seq<int>, saved: seq<Entry>)
    | Succeed(caps: seq<int>, saved: seq<Entry>)
    | Fail(saved: seq<Entry>)
    | Halt(r: Option<seq<int>>)
    | Stuck

  /** The code after the header, the subject, and the sizes stored in the header. */
  datatype Prog = Prog(code: seq<byte>, e: Env, captureCount: nat, stackMax: nat)

  // ---- character classes ----

  /** Binary search over pairs low, high (inclusive). */
  predicate Bisect(t: seq<int>, c: int, lo: int, hi: int)
    requires 0 <= lo && 2 * hi + 1 < |t|
    decreases hi - lo + 1
  {
    lo <= hi &&
    var mid := (lo + hi) / 2;
    if c < t[2 * mid] then Bisect(t, c, lo, mid - 1)
    else if c > t[2 * mid + 1] then Bisect(t, c, mid + 1, hi)
    else true
  }

  predicate Hit(t: seq<int>, c: int, wide: bool) {
    var n := |t| / 2;
    n > 0 && t[0] <= c &&
    (if !wide && c >= 0xffff && t[2 * n - 1] == 0xffff then true
     else c <= t[2 * n - 1] && Bisect(t, c, 0, n - 1))
  }

  predicate ReadsChar(e: Env, i: Instr, ch: int)
    requires IsCharInstr(i)
  {
    match i
    case IChar(c) => Canon(e, ch) == c
    case IChar32(c) => Canon(e, ch) == c
    case IDot => !IsLineTerminator(ch)
    case IAny => true
    case IRange(t) => Hit(t, Canon(e, ch), false)
    case IRange32(t) => Hit(t, Canon(e, ch), true)
  }

  predicate IsSimple(i: Instr) { IsCharInstr(i) || IsAssertInstr(i) }

  /** Effect of an instruction that only reads characters: the new position, or None for no match. */
  function SimpleStep(e: Env, i: Instr, pos: nat): (r: Option<nat>)
    requires IsSimple(i)
    ensures r.Some? ==> r.value == pos || (r.value == pos + 1 && pos < |e.input|)
  {
    if IsCharInstr(i) then (if pos < |e.input| && ReadsChar(e, i, e.input[pos]) then Some(pos + 1) else None)
    else
      var holds := match i
        case ILineStart => AtLineStart(e, pos)
        case ILineEnd => AtLineEnd(e, pos)
        case IWordBoundary(negated) => AtWordBoundary(e, pos) != negated;
      if holds then Some(pos) else None
  }

  // ---- the nested run of the greedy quantifier ----

  datatype AtomResult = Reached(pos: nat) | Missed | Bad

  /** Runs straight-line code up to its 'match', as the non-recursive call of the executor does. */
  function RunAtom(P: Prog, pc: int, pos: nat): (r: AtomResult)
    requires 0 <= pc
    ensures r.Reached? ==> pos <= r.pos && (pos <= |P.e.input| ==> r.pos <= |P.e.input|)
    decreases if pc < |P.code| then |P.code| - pc else 0
  {
    match Decode(P.code, pc)
    case None => Bad
    case Some(i) =>
      if i.IMatch? then Reached(pos)
      else if !IsSimple(i) then Bad
      else
        match SimpleStep(P.e, i, pos)
        case None => Missed
        case Some(to) => RunAtom(P, pc + Size(i), to)
  }

  /** Repeats the atom until it misses or 'max' is reached: last position and number of rounds. */
  function RunGreedy(P: Prog, pc: int, pos: nat, q: nat, max: int): (r: Option<(nat, nat)>)
    requires 0 <= pc
    decreases if pos <= |P.e.input| then |P.e.input| - pos else 0
  {
    match RunAtom(P, pc, pos)
    case Bad => None
    case Missed => Some((pos, q))
    case Reached(to) =>
      if !(pos < to <= |P.e.input|) then None
      else if q + 1 >= max && max != INT32_MAX then Some((to, q + 1))
      else RunGreedy(P, pc, to, q + 1, max)
  }

  // ---- transitions ----

  /** Unwinding after a failure: restore the newest saved state. */
  function StepFail(P: Prog, saved: seq<Entry>): (c: Config) {
    if saved == [] then Halt(None)
    else
      var top, rest := saved[|saved| - 1], saved[..|saved| - 1];
      match top.kind
      case SplitState => Run(top.pc, top.st, top.stk, rest)
      case NegativeLookaheadState => Run(top.pc, top.st, top.stk, rest)
      case LookaheadState => Fail(rest)
      case GreedyQuantState =>
        if !(0 <= top.pc && top.pc + 16 <= |P.code|) || top.count == 0 then Stuck
        else
          var step := GetU32(P.code, top.pc + 12);
          if step > top.st.pos then Stuck
          else
            var st := St(top.st.pos - step, top.st.caps);
            var kept := if top.count == 1 then [] else [top.(st := st, count := top.count - 1)];
            Run(top.pc + 16 + ToS32(GetU32(P.code, top.pc)), st, top.stk, rest + kept)
  }

  /** Unwinding after 'match': drop choice points down to the enclosing lookaround, if any. */
  function StepSucceed(caps: seq<int>, saved: seq<Entry>): (c: Config) {
    if saved == [] then Halt(Some(caps))
    else
      var top, rest := saved[|saved| - 1], saved[..|saved| - 1];
      match top.kind
      case SplitState => Succeed(caps, rest)
      case GreedyQuantState => Succeed(caps, rest)
      case LookaheadState => Run(top.pc, St(top.st.pos, caps), top.stk, rest)
      case NegativeLookaheadState => Fail(rest)
  }

  function Moved(pc: int, st: St, to: Option<nat>, stk: seq<int>, saved: seq<Entry>): (c: Config) {
    match to
    case None => Fail(saved)
    case Some(pos) => Run(pc, St(pos, st.caps), stk, saved)
  }

  function Save(kind: Kind, pc: int, st: St, stk: seq<int>): (s: Entry) { Entry(kind, pc, st, stk, 0) }

  predicate IsStackOp(i: Instr) { i.IPushI32? || i.IPushCharPos? || i.IDrop? || i.ILoop? || i.IBneCharPos? }

  /** The integer stack holds unsigned 64-bit words, so counting down from 0 wraps. */
  const STACK_WORD: int := 0x1_0000_0000_0000_0000

  function CountDown(v: int): (r: int) { if v == 0 then STACK_WORD - 1 else v - 1 }

  /** Instructions that work on the integer stack. */
  function ExecStack(P: Prog, i: Instr, pc: int, st: St, stk: seq<int>, saved: seq<Entry>): (c: Config)
    requires IsStackOp(i)
  {
    if i.IPushI32? || i.IPushCharPos? then
      if |stk| < P.stackMax then Run(pc, st, stk + [if i.IPushI32? then i.v else st.pos], saved) else Stuck
    else if stk == [] then Stuck
    else
      var top, rest := stk[|stk| - 1], stk[..|stk| - 1];
      if i.IDrop? then Run(pc, st, rest, saved)
      else if i.ILoop? then Run(if CountDown(top) != 0 then pc + i.off else pc, st, rest + [CountDown(top)], saved)
      else Run(if top != st.pos then pc + i.off else pc, st, rest, saved)
  }

  function ExecQuant(P: Prog, i: Instr, pc: int, st: St, stk: seq<int>, saved: seq<Entry>): (c: Config)
    requires i.ISimpleGreedyQuant?
  {
    if pc < 16 then Stuck
    else
      match RunGreedy(P, pc, st.pos, 0, i.max)
      case None => Stuck
      case Some((pos, q)) =>
        var to := St(pos, st.caps);
        if q < i.min then Fail(saved)
        else if q > i.min then
          Run(pc + i.off, to, stk, saved + [Entry(GreedyQuantState, pc - 16, to, stk, q - i.min)])
        else Run(pc + i.off, to, stk, saved)
  }

  /** One instruction; 'pc' is already past it. */
  function Exec(P: Prog, i: Instr, pc: int, st: St, stk: seq<int>, saved: seq<Entry>): (c: Config) {
    if IsSimple(i) then Moved(pc, st, SimpleStep(P.e, i, st.pos), stk, saved)
    else if IsStackOp(i) then ExecStack(P, i, pc, st, stk, saved)
    else if i.ISimpleGreedyQuant? then ExecQuant(P, i, pc, st, stk, saved)
    else ExecControl(P, i, pc, st, stk, saved)
  }

  /** Jumps, choice points, captures and back references. */
  function ExecControl(P: Prog, i: Instr, pc: int, st: St, stk: seq<int>, saved: seq<Entry>): (c: Config)
    requires !IsSimple(i) && !IsStackOp(i) && !i.ISimpleGreedyQuant?
  {
    match i
    case IMatch => Succeed(st.caps, saved)
    case IGoto(d) => Run(pc + d, st, stk, saved)
    case ISplit(nextFirst, d) =>
      if nextFirst then Run(pc, st, stk, saved + [Save(SplitState, pc + d, st, stk)])
      else Run(pc + d, st, stk, saved + [Save(SplitState, pc, st, stk)])
    case ILookahead(negative, d) =>
      Run(pc, st, stk, saved + [Save(if negative then NegativeLookaheadState else LookaheadState, pc + d, st, stk)])
    case ISave(end, n) =>
      if n < 0 || n >= P.captureCount || 2 * n + 1 >= |st.caps| then Stuck
      else Run(pc, SetCap(st, if end then 2 * n + 1 else 2 * n), stk, saved)
    case ISaveReset(a, b) =>
      if a < 0 || b < 0 || b >= P.captureCount || 2 * b + 1 >= |st.caps| then Stuck
      else Run(pc, ResetCaps(st, a, b), stk, saved)
    case IPrev => if st.pos == 0 then Fail(saved) else Run(pc, St(st.pos - 1, st.caps), stk, saved)
    case IBackReference(back, n) =>
      if n < 0 then Stuck else Moved(pc, st, RefPos(P.e, n, back, st), stk, saved)
  }

  function Step(P: Prog, c: Config): (r: Config) {
    match c
    case Run(pc, st, stk, saved) =>
      (match Decode(P.code, pc)
       case None => Stuck
       case Some(i) => Exec(P, i, pc + Size(i), st, stk, saved))
    case Succeed(caps, saved) => StepSucceed(caps, saved)
    case Fail(saved) => StepFail(P, saved)
    case _ => c
  }

  function Steps(P: Prog, c: Config, n: nat): (r: Config)
    decreases n
  {
    if n == 0 then c else Steps(P, Step(P, c), n - 1)
  }

  predicate Live(c: Config) { c.Run? || c.Succeed? || c.Fail? }

  lemma {:induction false} StepsAdd(P: Prog, c: Config, m: nat, n: nat)
    ensures Steps(P, c, m + n) == Steps(P, Steps(P, c, m), n)
    decreases m
  {
    if m > 0 { StepsAdd(P, Step(P, c), m - 1, n); }
  }

  /** A halted machine stays halted with the same answer. */
  lemma {:induction false} HaltStays(P: Prog, c: Config, n: nat)
    requires !Live(c)
    ensures Steps(P, c, n) == c
  {
    if n > 0 { HaltStays(P, c, n - 1); }
  }

  /** The answer does not depend on how long one waits for it. */
  lemma HaltUnique(P: Prog, c: Config, m: nat, n: nat)
    requires !Live(Steps(P, c, m)) && !Live(Steps(P, c, n))
    ensures Steps(P, c, m) == Steps(P, c, n)
  {
    if m <= n {
      StepsAdd(P, c, m, n - m);
      HaltStays(P, Steps(P, c, m), n - m);
    } else {
      StepsAdd(P, c, n, m - n);
      HaltStays(P, Steps(P, c, n), m - n);
    }
  }
}
