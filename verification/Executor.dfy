/**
 The backtracking executor: program counter, position, captures, integer stack
 and saved states are updated in place, one opcode at a time. Every method
 follows one transition of the machine.
 */
module Executor {
  import opened Bytes
  import opened Opcodes
  import opened Pattern
  import opened Matcher
  import opened Codegen
  import opened Machine
  import opened RangeSets
  import opened Meanings

  // ---- reading operands ----

  lemma FetchOpcode(code: seq<byte>, pc: int, i: Instr)
    requires Decode(code, pc) == Some(i)
    ensures 0 <= pc && pc + Size(i) <= |code| && code[pc] == Op(i)
  {
    hide GetTable16, GetTable32;
  }

  /** The operand of an opcode followed by one 32-bit word. */
  lemma Fetch32(code: seq<byte>, pc: int, i: Instr)
    requires Decode(code, pc) == Some(i) && Is32(Op(i))
    ensures 0 <= pc && pc + 5 <= |code| && Size(i) == 5
    ensures var v := GetU32(code, pc + 1); Decode32(Op(i), v) == Some(i)
  {
    FetchOpcode(code, pc, i);
  }

  lemma FetchSmall(code: seq<byte>, pc: int, i: Instr)
    requires Decode(code, pc) == Some(i)
    ensures i.ISave? || i.IBackReference? ==> 0 <= pc && pc + 2 <= |code| && code[pc + 1] == i.n
    ensures i.ISaveReset? ==> 0 <= pc && pc + 3 <= |code| && code[pc + 1] == i.first && code[pc + 2] == i.last
    ensures i.IChar? ==> 0 <= pc && pc + 3 <= |code| && GetU16(code, pc + 1) == i.c
  {
    FetchOpcode(code, pc, i);
  }

  lemma FetchTable(code: seq<byte>, pc: int, i: Instr)
    requires Decode(code, pc) == Some(i) && (i.IRange? || i.IRange32?)
    ensures 0 <= pc && pc + Size(i) <= |code| && pc + 3 <= |code|
    ensures var n := GetU16(code, pc + 1);
            && n >= 1 && |i.tab| == 2 * n
            && (i.IRange? ==> pc + 3 + 4 * n <= |code| && i.tab == GetTable16(code, pc + 3, 2 * n))
            && (i.IRange32? ==> pc + 3 + 8 * n <= |code| && i.tab == GetTable32(code, pc + 3, 2 * n))
  {
    FetchOpcode(code, pc, i);
  }

  lemma FetchQuant(code: seq<byte>, pc: int, i: Instr)
    requires Decode(code, pc) == Some(i) && i.ISimpleGreedyQuant?
    ensures 0 <= pc && pc + 17 <= |code|
    ensures i.off == ToS32(GetU32(code, pc + 1)) && i.min == GetU32(code, pc + 5) && i.max == GetU32(code, pc + 9)
  {
    FetchOpcode(code, pc, i);
  }

  /** What one opcode leads to: the next opcode, or the unwinding of the saved states. */
  datatype Status = Running | Matched | Failed

  class REExecContext {
    const bc: seq<byte>
    const e: Env
    const captureCount: nat
    const stackSizeMax: nat
    const capture: array<int>
    const stack: array<int>
    var pc: int
    var cptr: nat
    var stackLen: nat
    var stateStack: seq<Entry>

    /** All captures NULL, nothing on either stack. */
    constructor (bc: seq<byte>, e: Env, captureCount: nat, stackSizeMax: nat, cindex: nat)
      requires cindex <= |e.input|
      ensures Valid() && fresh(capture) && fresh(stack)
      ensures P() == Prog(bc, e, captureCount, stackSizeMax)
      ensures Here() == Run(0, St(cindex, seq(2 * captureCount, i => -1)), [], [])
    {
      this.bc, this.e, this.captureCount, this.stackSizeMax := bc, e, captureCount, stackSizeMax;
      capture := new int[2 * captureCount](_ => -1);
      stack := new int[stackSizeMax](_ => 0);
      pc, cptr, stackLen, stateStack := 0, cindex, 0, [];
      new;
      assert capture[..] == seq(2 * captureCount, i => -1);
    }

    ghost function P(): (P: Prog) { Prog(bc, e, captureCount, stackSizeMax) }

    ghost predicate GoodSt(st: St) {
      && st.pos <= |e.input| && |st.caps| == 2 * captureCount
      && forall i :: 0 <= i < |st.caps| ==> -1 <= st.caps[i] <= |e.input|
    }

    ghost predicate GoodEntries(s: seq<Entry>) {
      forall i :: 0 <= i < |s| ==> GoodSt(s[i].st) && |s[i].stk| <= stackSizeMax
    }

    ghost predicate Valid()
      reads this, capture
    {
      && capture.Length == 2 * captureCount && stack.Length == stackSizeMax && capture != stack
      && stackLen <= stackSizeMax
      && GoodSt(St(cptr, capture[..])) && GoodEntries(stateStack)
    }

    /** The machine configuration the fields stand for. */
    ghost function Here(): (c: Config)
      reads this, capture, stack
      requires Valid()
    {
      Run(pc, St(cptr, capture[..]), stack[..stackLen], stateStack)
    }

    ghost predicate Reached(c: Config, status: Status)
      reads this, capture, stack
      requires Valid()
    {
      match status
      case Running => c == Here()
      case Matched => c == Succeed(capture[..], stateStack)
      case Failed => c == Fail(stateStack)
    }

    // ---- tests of characters and positions ----

    method Canonicalize(c: int) returns (r: int)
      ensures r == Canon(e, c)
    {
      r := if e.flags.ignoreCase then e.fold(c) else c;
    }

    /** Bisection over pairs of 16-bit bounds; the index never runs below zero, so it may be unsigned. */
    method InRange16(at: nat, n: nat, c: int) returns (hit: bool)
      requires n >= 1 && at + 4 * n <= |bc|
      ensures hit == Hit(GetTable16(bc, at, 2 * n), c, false)
    {
      hide GetTable16, GetU16, Bisect;
      ghost var t := GetTable16(bc, at, 2 * n);
      TableEntry16(bc, at, 2 * n, 0);
      TableEntry16(bc, at, 2 * n, 2 * n - 1);
      var idxMin: nat, idxMax: nat := 0, n - 1;
      var low := GetU16(bc, at);
      if c < low { return false; }
      var high := GetU16(bc, at + idxMax * 4 + 2);
      if c >= 0xffff && high == 0xffff { return true; }
      if c > high { return false; }
      while idxMin <= idxMax
        invariant idxMin <= n && idxMax < n && t[0] <= c
        invariant Bisect(t, c, idxMin, idxMax) == Bisect(t, c, 0, n - 1)
        decreases idxMax + 1 - idxMin
      {
        hide Hit, Bisect;
        var idx := (idxMin + idxMax) / 2;
        BisectStep(t, c, idxMin, idxMax);
        TableEntry16(bc, at, 2 * n, 2 * idx);
        TableEntry16(bc, at, 2 * n, 2 * idx + 1);
        low := GetU16(bc, at + idx * 4);
        high := GetU16(bc, at + idx * 4 + 2);
        if c < low {
          idxMax := idx - 1;
        } else if c > high {
          idxMin := idx + 1;
        } else {
          return true;
        }
      }
      BisectNone(t, c, idxMin, idxMax);
      return false;
    }

    method InRange32(at: nat, n: nat, c: int) returns (hit: bool)
      requires n >= 1 && at + 8 * n <= |bc|
      ensures hit == Hit(GetTable32(bc, at, 2 * n), c, true)
    {
      hide GetTable32, GetU32, Bisect;
      ghost var t := GetTable32(bc, at, 2 * n);
      TableEntry32(bc, at, 2 * n, 0);
      TableEntry32(bc, at, 2 * n, 2 * n - 1);
      var idxMin: nat, idxMax: nat := 0, n - 1;
      var low := GetU32(bc, at);
      if c < low { return false; }
      var high := GetU32(bc, at + idxMax * 8 + 4);
      if c > high { return false; }
      while idxMin <= idxMax
        invariant idxMin <= n && idxMax < n && t[0] <= c
        invariant Bisect(t, c, idxMin, idxMax) == Bisect(t, c, 0, n - 1)
        decreases idxMax + 1 - idxMin
      {
        hide Hit, Bisect;
        var idx := (idxMin + idxMax) / 2;
        BisectStep(t, c, idxMin, idxMax);
        TableEntry32(bc, at, 2 * n, 2 * idx);
        TableEntry32(bc, at, 2 * n, 2 * idx + 1);
        low := GetU32(bc, at + idx * 8);
        high := GetU32(bc, at + idx * 8 + 4);
        if c < low {
          idxMax := idx - 1;
        } else if c > high {
          idxMin := idx + 1;
        } else {
          return true;
        }
      }
      BisectNone(t, c, idxMin, idxMax);
      return false;
    }

    /** Opcodes that read one character. */
    method TestChar(at: nat, from: nat, ghost i: Instr) returns (to: Option<nat>, next: nat)
      requires Decode(bc, at) == Some(i) && IsCharInstr(i) && from <= |e.input|
      ensures to == SimpleStep(e, i, from) && next == at + Size(i)
    {
      hide Decode, Hit, GetTable16, GetTable32;
      FetchOpcode(bc, at, i);
      var opcode := bc[at];
      if opcode == REOP_CHAR || opcode == REOP_CHAR32 {
        var val: int;
        if opcode == REOP_CHAR32 {
          Fetch32(bc, at, i);
          val, next := GetU32(bc, at + 1), at + 5;
        } else {
          FetchSmall(bc, at, i);
          val, next := GetU16(bc, at + 1), at + 3;
        }
        if from >= |e.input| { return None, next; }
        var c := Canonicalize(e.input[from]);
        return if val != c then None else Some(from + 1), next;
      } else if opcode == REOP_DOT || opcode == REOP_ANY {
        next := at + 1;
        if from == |e.input| { return None, next; }
        return if opcode == REOP_DOT && IsLineTerminator(e.input[from]) then None else Some(from + 1), next;
      } else {
        FetchTable(bc, at, i);
        var n := GetU16(bc, at + 1);
        next := at + 3 + (if opcode == REOP_RANGE then 4 * n else 8 * n);
        if from >= |e.input| { return None, next; }
        var c := Canonicalize(e.input[from]);
        var hit: bool;
        if opcode == REOP_RANGE {
          hit := InRange16(at + 3, n, c);
        } else {
          hit := InRange32(at + 3, n, c);
        }
        return if hit then Some(from + 1) else None, next;
      }
    }

    /** Opcodes that look at the characters around the position. */
    method TestPosition(opcode: byte, from: nat, ghost i: Instr) returns (holds: bool)
      requires IsAssertInstr(i) && opcode == Op(i) && from <= |e.input|
      ensures SimpleStep(e, i, from) == if holds then Some(from) else None
      ensures opcode == REOP_LINE_START ==>
                holds == (from == 0 || (e.flags.multiLine && EndsLine(e.input[from - 1])))
      ensures opcode == REOP_LINE_END ==>
                holds == (from == |e.input| || (e.flags.multiLine && EndsLine(e.input[from])))
      ensures opcode == REOP_WORD_BOUNDARY ==> holds == (WordBefore(e, from) != WordAfter(e, from))
      ensures opcode == REOP_NOT_WORD_BOUNDARY ==> holds == (WordBefore(e, from) == WordAfter(e, from))
    {
      hide Member;
      WordBoundaries(e, false, false, 0, St(from, []), 0);
      if opcode == REOP_LINE_START {
        if from == 0 { return true; }
        if !e.flags.multiLine { return false; }
        return IsLineTerminator(e.input[from - 1]);
      } else if opcode == REOP_LINE_END {
        if from == |e.input| { return true; }
        if !e.flags.multiLine { return false; }
        return IsLineTerminator(e.input[from]);
      } else {
        var v1 := if from == 0 then false else IsWordChar(e.input[from - 1]);
        var v2 := if from >= |e.input| then false else IsWordChar(e.input[from]);
        return (v1 != v2) == (opcode == REOP_WORD_BOUNDARY);
      }
    }

    method TestOpcode(at: nat, from: nat, ghost i: Instr) returns (to: Option<nat>, next: nat)
      requires Decode(bc, at) == Some(i) && IsSimple(i) && from <= |e.input|
      ensures to == SimpleStep(e, i, from) && next == at + Size(i)
    {
      hide Decode, SimpleStep, ReadsChar;
      FetchOpcode(bc, at, i);
      OpcodeClasses(i);
      var opcode := bc[at];
      if opcode in [REOP_LINE_START, REOP_LINE_END, REOP_WORD_BOUNDARY, REOP_NOT_WORD_BOUNDARY] {
        var holds := TestPosition(opcode, from, i);
        to, next := if holds then Some(from) else None, at + 1;
      } else {
        to, next := TestChar(at, from, i);
      }
    }

    // ---- opcodes that change the state ----

    /** Characters and assertions. */
    method ExecTest(ghost i: Instr) returns (status: Status)
      requires Valid() && Decode(bc, pc) == Some(i) && IsSimple(i)
      modifies this`pc, this`cptr
      ensures Valid() && Reached(Step(P(), old(Here())), status)
    {
      hide Decode, SimpleStep;
      FetchOpcode(bc, pc, i);
      var to, next := TestOpcode(pc, cptr, i);
      if to == None { return Failed; }
      pc, cptr := next, to.value;
      return Running;
    }

    /** A counter or the current position goes on the integer stack. */
    method ExecPush(ghost i: Instr) returns (status: Status)
      requires Valid() && Decode(bc, pc) == Some(i) && (i.IPushI32? || i.IPushCharPos?) && Step(P(), Here()) != Stuck
      modifies this`pc, this`stackLen, stack
      ensures Valid() && Reached(Step(P(), old(Here())), status)
    {
      hide Decode, StepFail, StepSucceed, ExecControl, ExecQuant, SimpleStep, GetU32;
      FetchOpcode(bc, pc, i);
      var opcode := bc[pc];
      if opcode == REOP_PUSH_I32 {
        Fetch32(bc, pc, i);
        var val := GetU32(bc, pc + 1);
        Push(val);
        pc := pc + 5;
      } else {
        Push(cptr);
        pc := pc + 1;
      }
      return Running;
    }

    method ExecDrop(ghost i: Instr) returns (status: Status)
      requires Valid() && Decode(bc, pc) == Some(i) && i.IDrop? && Step(P(), Here()) != Stuck
      modifies this`pc, this`stackLen
      ensures Valid() && Reached(Step(P(), old(Here())), status)
    {
      hide Decode, StepFail, StepSucceed, ExecControl, ExecQuant, SimpleStep;
      stackLen := stackLen - 1;
      assert stack[..stackLen] == old(stack[..stackLen])[..stackLen];
      pc := pc + 1;
      return Running;
    }

    /** The zero-advance test: another round only if the position has changed since it was pushed. */
    method ExecBneCharPos(ghost i: Instr) returns (status: Status)
      requires Valid() && Decode(bc, pc) == Some(i) && i.IBneCharPos? && Step(P(), Here()) != Stuck
      modifies this`pc, this`stackLen
      ensures Valid() && Reached(Step(P(), old(Here())), status)
    {
      hide Decode, StepFail, StepSucceed, ExecControl, ExecQuant, SimpleStep, GetU32;
      Fetch32(bc, pc, i);
      var val := GetU32(bc, pc + 1);
      pc := pc + 5;
      stackLen := stackLen - 1;
      assert stack[..stackLen] == old(stack[..stackLen])[..stackLen];
      if stack[stackLen] != cptr { pc := pc + ToS32(val); }
      return Running;
    }

    method Push(v: int)
      requires Valid() && stackLen < stackSizeMax
      modifies this`stackLen, stack
      ensures Valid() && stackLen == old(stackLen) + 1 && stack[..stackLen] == old(stack[..stackLen]) + [v]
    {
      stack[stackLen] := v;
      stackLen := stackLen + 1;
    }

    /** Count down; jump back while the counter is not zero. */
    method ExecLoop(ghost i: Instr) returns (status: Status)
      requires Valid() && Decode(bc, pc) == Some(i) && i.ILoop? && Step(P(), Here()) != Stuck
      modifies this`pc, stack
      ensures Valid() && Reached(Step(P(), old(Here())), status)
    {
      hide Decode, StepFail, StepSucceed, ExecControl, ExecQuant, SimpleStep, GetU32;
      Fetch32(bc, pc, i);
      var val := GetU32(bc, pc + 1);
      pc := pc + 5;
      ghost var was := stack[..stackLen];
      stack[stackLen - 1] := CountDown(stack[stackLen - 1]);
      assert stack[..stackLen] == was[..stackLen - 1] + [CountDown(was[stackLen - 1])];
      if stack[stackLen - 1] != 0 { pc := pc + ToS32(val); }
      return Running;
    }

    /** A copy of position, captures and integer stack goes on the state stack. */
    method PushState(pc1: int, pos: nat, kind: Kind, count: nat)
      requires Valid() && pos <= |e.input|
      modifies this`stateStack
      ensures Valid()
      ensures stateStack == old(stateStack) + [Entry(kind, pc1, St(pos, capture[..]), stack[..stackLen], count)]
    {
      stateStack := stateStack + [Entry(kind, pc1, St(pos, capture[..]), stack[..stackLen], count)];
    }

    /** A choice point: one of the two ways is taken, the other saved. */
    method ExecSplit(ghost i: Instr) returns (status: Status)
      requires Valid() && Decode(bc, pc) == Some(i) && i.ISplit?
      modifies this`pc, this`stateStack
      ensures Valid() && Reached(Step(P(), old(Here())), status)
    {
      hide Decode, StepFail, StepSucceed, ExecStack, ExecQuant, SimpleStep, GetU32;
      FetchOpcode(bc, pc, i);
      Fetch32(bc, pc, i);
      var opcode, val := bc[pc], GetU32(bc, pc + 1);
      pc := pc + 5;
      var pc1: int;
      if opcode == REOP_SPLIT_NEXT_FIRST {
        pc1 := pc + ToS32(val);
      } else {
        pc1 := pc;
        pc := pc + ToS32(val);
      }
      PushState(pc1, cptr, SplitState, 0);
      return Running;
    }

    method ExecGoto(ghost i: Instr) returns (status: Status)
      requires Valid() && Decode(bc, pc) == Some(i) && i.IGoto?
      modifies this`pc
      ensures Valid() && Reached(Step(P(), old(Here())), status)
    {
      hide Decode, StepFail, StepSucceed, ExecStack, ExecQuant, SimpleStep, GetU32;
      Fetch32(bc, pc, i);
      var val := GetU32(bc, pc + 1);
      pc := pc + 5 + ToS32(val);
      return Running;
    }

    /** Where to go on after the lookaround is saved; the inside comes first. */
    method ExecLookahead(ghost i: Instr) returns (status: Status)
      requires Valid() && Decode(bc, pc) == Some(i) && i.ILookahead?
      modifies this`pc, this`stateStack
      ensures Valid() && Reached(Step(P(), old(Here())), status)
    {
      hide Decode, StepFail, StepSucceed, ExecStack, ExecQuant, SimpleStep, GetU32;
      FetchOpcode(bc, pc, i);
      Fetch32(bc, pc, i);
      var opcode, val := bc[pc], GetU32(bc, pc + 1);
      pc := pc + 5;
      PushState(pc + ToS32(val), cptr, if opcode == REOP_LOOKAHEAD then LookaheadState else NegativeLookaheadState, 0);
      return Running;
    }

    /** One end of a capture. */
    method ExecSave(ghost i: Instr) returns (status: Status)
      requires Valid() && Decode(bc, pc) == Some(i) && i.ISave? && Step(P(), Here()) != Stuck
      modifies this`pc, capture
      ensures Valid() && Reached(Step(P(), old(Here())), status)
      ensures var slot := 2 * i.n + (if i.end then 1 else 0);
              0 <= slot < capture.Length && capture[..] == old(capture[..])[slot := cptr]
    {
      hide Decode;
      FetchOpcode(bc, pc, i);
      FetchSmall(bc, pc, i);
      var opcode, val := bc[pc], bc[pc + 1];
      pc := pc + 2;
      assert val < captureCount;
      var slot: nat := 2 * val + (opcode - REOP_SAVE_START);
      ghost var caps := capture[..];
      capture[slot] := cptr;
      assert capture[..] == caps[slot := cptr];
      return Running;
    }

    /** Captures first..last become NULL. */
    method ExecSaveReset(ghost i: Instr) returns (status: Status)
      requires Valid() && Decode(bc, pc) == Some(i) && i.ISaveReset? && Step(P(), Here()) != Stuck
      modifies this`pc, capture
      ensures Valid() && Reached(Step(P(), old(Here())), status)
    {
      hide Decode;
      FetchOpcode(bc, pc, i);
      FetchSmall(bc, pc, i);
      var val: int, val2: int := bc[pc + 1], bc[pc + 2];
      pc := pc + 3;
      assert val2 < captureCount;
      ghost var caps := capture[..];
      while val <= val2
        invariant i.first <= val && (val <= val2 + 1 || val == i.first)
        invariant Valid() && pc == old(pc) + 3
        invariant forall k :: 0 <= k < |caps| ==> capture[k] == if 2 * i.first <= k < 2 * val then -1 else caps[k]
      {
        capture[2 * val] := -1;
        capture[2 * val + 1] := -1;
        val := val + 1;
      }
      assert capture[..] == ResetCaps(St(cptr, caps), i.first, i.last).caps;
      return Running;
    }

    method ExecPrev(ghost i: Instr) returns (status: Status)
      requires Valid() && Decode(bc, pc) == Some(i) && i.IPrev?
      modifies this`pc, this`cptr
      ensures Valid() && Reached(Step(P(), old(Here())), status)
    {
      hide Decode;
      if cptr == 0 { return Failed; }
      pc, cptr := pc + 1, cptr - 1;
      return Running;
    }

    // ---- back references ----

    method CompareForward(start: nat, end: nat) returns (to: Option<nat>)
      requires Valid() && start <= |e.input| && end <= |e.input|
      ensures to == MatchRef(e, start, end, cptr)
      ensures start <= end ==>
                to == if cptr + (end - start) <= |e.input|
                         && SameText(e, Text(e, start, end - start), Text(e, cptr, end - start))
                      then Some(cptr + (end - start)) else None
    {
      hide SameText, Text;
      if start <= end { MatchRefMeans(e, start, end, cptr); }
      var cptr1: nat, cptr2: nat := start, cptr;
      while cptr1 < end
        invariant cptr1 <= |e.input| && cptr2 <= |e.input|
        invariant MatchRef(e, cptr1, end, cptr2) == MatchRef(e, start, end, cptr)
        decreases end - cptr1
      {
        if cptr2 >= |e.input| { return None; }
        var c1 := Canonicalize(e.input[cptr1]);
        var c2 := Canonicalize(e.input[cptr2]);
        if c1 != c2 { return None; }
        cptr1, cptr2 := cptr1 + 1, cptr2 + 1;
      }
      return Some(cptr2);
    }

    method CompareBackward(start: nat, end: nat) returns (to: Option<nat>)
      requires Valid() && start <= |e.input| && end <= |e.input|
      ensures to == MatchRefBack(e, start, end, cptr)
      ensures start <= end ==>
                to == if end - start <= cptr
                         && SameText(e, Text(e, start, end - start), Text(e, cptr - (end - start), end - start))
                      then Some(cptr - (end - start)) else None
    {
      hide SameText, Text;
      if start <= end { MatchRefBackMeans(e, start, end, cptr); }
      var cptr1: nat, cptr2: nat := end, cptr;
      while cptr1 > start
        invariant cptr1 <= |e.input| && cptr2 <= |e.input|
        invariant MatchRefBack(e, start, cptr1, cptr2) == MatchRefBack(e, start, end, cptr)
        decreases cptr1
      {
        if cptr2 == 0 { return None; }
        var c1 := Canonicalize(e.input[cptr1 - 1]);
        var c2 := Canonicalize(e.input[cptr2 - 1]);
        if c1 != c2 { return None; }
        cptr1, cptr2 := cptr1 - 1, cptr2 - 1;
      }
      return Some(cptr2);
    }

    method ExecBackReference(ghost i: Instr) returns (status: Status)
      requires Valid() && Decode(bc, pc) == Some(i) && i.IBackReference? && Step(P(), Here()) != Stuck
      modifies this`pc, this`cptr
      ensures Valid() && Reached(Step(P(), old(Here())), status)
    {
      hide Decode, MatchRef, MatchRefBack;
      FetchOpcode(bc, pc, i);
      FetchSmall(bc, pc, i);
      var opcode, val := bc[pc], bc[pc + 1];
      if val >= captureCount { return Failed; }
      var start, end := capture[2 * val], capture[2 * val + 1];
      if start < 0 || end < 0 {
        pc := pc + 2;
        return Running;
      }
      var to: Option<nat>;
      if opcode == REOP_BACK_REFERENCE {
        to := CompareForward(start, end);
      } else {
        to := CompareBackward(start, end);
      }
      if to == None { return Failed; }
      pc, cptr := pc + 2, to.value;
      return Running;
    }

    // ---- the greedy quantifier over a straight-line atom ----

    /** The executor's call on itself with saving switched off: only tests, up to the closing 'match'. */
    method RunAtomOnce(start: int, from: nat) returns (res: Option<nat>)
      requires Valid() && 0 <= start && RunAtom(P(), start, from) != Bad && from <= |e.input|
      ensures res == if RunAtom(P(), start, from).Reached? then Some(RunAtom(P(), start, from).pos) else None
    {
      hide RunAtom, Decode, SimpleStep, IsSimple, GoodEntries;
      var at: int, pos: nat := start, from;
      while true
        invariant 0 <= at && pos <= |e.input|
        invariant RunAtom(P(), at, pos) == RunAtom(P(), start, from)
        decreases |bc| - at
      {
        ghost var i := AtomStep(P(), at, pos);
        FetchOpcode(bc, at, i);
        if bc[at] == REOP_MATCH { return Some(pos); }
        var to, next := TestOpcode(at, pos, i);
        if to == None { return None; }
        at, pos := next, to.value;
      }
    }

    method Repeat(start: int, from: nat, max: int) returns (pos: nat, q: nat)
      requires Valid() && 0 <= start && from <= |e.input| && RunGreedy(P(), start, from, 0, max).Some?
      ensures RunGreedy(P(), start, from, 0, max) == Some((pos, q)) && pos <= |e.input|
    {
      pos, q := from, 0;
      while true
        invariant pos <= |e.input|
        invariant RunGreedy(P(), start, pos, q, max) == RunGreedy(P(), start, from, 0, max)
        decreases |e.input| - pos
      {
        hide RunAtom;
        var res := RunAtomOnce(start, pos);
        if res == None { return; }
        pos := res.value;
        q := q + 1;
        if q >= max && max != INT32_MAX { return; }
      }
    }

    method ExecSimpleQuant(ghost i: Instr) returns (status: Status)
      requires Valid() && Decode(bc, pc) == Some(i) && i.ISimpleGreedyQuant? && Step(P(), Here()) != Stuck
      modifies this`pc, this`cptr, this`stateStack
      ensures Valid() && Reached(Step(P(), old(Here())), status)
    {
      hide Decode, RunGreedy;
      FetchQuant(bc, pc, i);
      var nextPos, quantMin, quantMax := GetU32(bc, pc + 1), GetU32(bc, pc + 5), GetU32(bc, pc + 9);
      pc := pc + 17;
      var pc1 := pc;
      var pos, q := Repeat(pc1, cptr, quantMax);
      cptr := pos;
      if q < quantMin { return Failed; }
      pc := pc + ToS32(nextPos);
      if q > quantMin { PushState(pc1 - 16, cptr, GreedyQuantState, q - quantMin); }
      return Running;
    }

    // ---- one opcode ----

    method ExecMatch(ghost i: Instr) returns (status: Status)
      requires Valid() && Decode(bc, pc) == Some(i) && i.IMatch?
      ensures Valid() && Reached(Step(P(), old(Here())), status)
    {
      return Matched;
    }

    /** The dispatch on the opcode. */
    method ExecOpcode() returns (status: Status)
      requires Valid() && Step(P(), Here()) != Stuck
      modifies this, capture, stack
      ensures Valid() && Reached(Step(P(), old(Here())), status)
    {
      hide Decode, Exec, Valid, Reached, Here;
      ghost var i := Fetched();
      FetchOpcode(bc, pc, i);
      TestOps(i);
      OpcodeGroups(i);
      StackOpcodeGroups(i);
      var opcode := bc[pc];
      if opcode == REOP_MATCH { status := ExecMatch(i); }
      else if IsTestOp(opcode) { status := ExecTest(i); }
      else if opcode == REOP_SPLIT_GOTO_FIRST || opcode == REOP_SPLIT_NEXT_FIRST { status := ExecSplit(i); }
      else if opcode == REOP_LOOKAHEAD || opcode == REOP_NEGATIVE_LOOKAHEAD { status := ExecLookahead(i); }
      else if opcode == REOP_GOTO { status := ExecGoto(i); }
      else if opcode == REOP_SAVE_START || opcode == REOP_SAVE_END { status := ExecSave(i); }
      else if opcode == REOP_SAVE_RESET { status := ExecSaveReset(i); }
      else if opcode == REOP_PUSH_I32 || opcode == REOP_PUSH_CHAR_POS { status := ExecPush(i); }
      else if opcode == REOP_DROP { status := ExecDrop(i); }
      else if opcode == REOP_LOOP { status := ExecLoop(i); }
      else if opcode == REOP_BNE_CHAR_POS { status := ExecBneCharPos(i); }
      else if opcode == REOP_BACK_REFERENCE || opcode == REOP_BACKWARD_BACK_REFERENCE {
        status := ExecBackReference(i);
      }
      else if opcode == REOP_PREV { status := ExecPrev(i); }
      else { status := ExecSimpleQuant(i); }
    }

    lemma Fetched() returns (i: Instr)
      requires Valid() && Step(P(), Here()) != Stuck
      ensures Decode(bc, pc) == Some(i)
    {
      hide Decode, Exec;
      i := Decode(bc, pc).value;
    }

    // ---- unwinding ----

    /** Captures and integer stack are copied back from a saved state. */
    method Restore(rs: Entry, withCaptures: bool)
      requires Valid() && GoodSt(rs.st) && |rs.stk| <= stackSizeMax
      modifies this`stackLen, capture, stack
      ensures Valid() && stack[..stackLen] == rs.stk
      ensures capture[..] == if withCaptures then rs.st.caps else old(capture[..])
    {
      if withCaptures {
        forall i | 0 <= i < capture.Length { capture[i] := rs.st.caps[i]; }
      }
      stackLen := |rs.stk|;
      forall i | 0 <= i < stackLen { stack[i] := rs.stk[i]; }
      assert capture[..] == if withCaptures then rs.st.caps else old(capture[..]);
    }

    /** What is being unwound: a match with the current captures, or a failure. */
    ghost function Unwinding(ret: bool): (c: Config)
      reads this, capture
    {
      if ret then Succeed(capture[..], stateStack) else Fail(stateStack)
    }

    /** Take the newest state off the stack and go on where it says. */
    method Resume(withCaptures: bool)
      requires Valid() && stateStack != []
      modifies this, capture, stack
      ensures Valid()
      ensures var top := old(stateStack[|stateStack| - 1]);
              Here() == Run(top.pc, St(top.st.pos, if withCaptures then top.st.caps else old(capture[..])), top.stk,
                            old(stateStack[..|stateStack| - 1]))
    {
      var rs := stateStack[|stateStack| - 1];
      Restore(rs, withCaptures);
      pc, cptr := rs.pc, rs.st.pos;
      stateStack := stateStack[..|stateStack| - 1];
    }

    /** The quantifier gives back one round: as many characters as the atom has, one count less. */
    method GiveBack()
      requires Valid() && stateStack != [] && stateStack[|stateStack| - 1].kind == GreedyQuantState
      requires StepFail(P(), stateStack) != Stuck
      modifies this, capture, stack
      ensures Valid() && Here() == StepFail(P(), old(stateStack))
    {
      hide GetU32;
      var rs, rest := stateStack[|stateStack| - 1], stateStack[..|stateStack| - 1];
      Restore(rs, true);
      pc, cptr := rs.pc, rs.st.pos;
      var charCount := GetU32(bc, pc + 12);
      for i := 0 to charCount
        invariant cptr == rs.st.pos - i && charCount <= rs.st.pos
        invariant Valid() && pc == rs.pc && stateStack == rest + [rs]
        invariant stack[..stackLen] == rs.stk && capture[..] == rs.st.caps
      {
        cptr := cptr - 1;
      }
      pc := pc + 16 + ToS32(GetU32(bc, pc));
      rs := rs.(st := St(cptr, rs.st.caps), count := rs.count - 1);
      stateStack := if rs.count == 0 then rest else rest + [rs];
    }

    /** One round of the unwinding loop: execution resumes, or the next state is looked at. */
    method Unwind(ret: bool) returns (resumed: bool, ret': bool)
      requires Valid() && stateStack != [] && Step(P(), Unwinding(ret)) != Stuck
      modifies this, capture, stack
      ensures Valid()
      ensures Step(P(), old(Unwinding(ret))) == if resumed then Here() else Unwinding(ret')
    {
      hide GetU32;
      var rs := stateStack[|stateStack| - 1];
      ret' := ret;
      if rs.kind == SplitState && !ret {
        Resume(true);
        return true, ret';
      } else if rs.kind == GreedyQuantState && !ret {
        GiveBack();
        return true, ret';
      } else if rs.kind == LookaheadState || rs.kind == NegativeLookaheadState {
        ret' := (rs.kind == LookaheadState && ret) || (rs.kind == NegativeLookaheadState && !ret);
        if ret' {
          // A positive lookahead keeps the captures it has set.
          Resume(rs.kind != LookaheadState);
          return true, ret';
        }
      }
      stateStack := stateStack[..|stateStack| - 1];
      return false, ret';
    }

    // ---- the whole run ----

    lemma HaltsInAStep(c: Config, n: nat)
      requires Steps(P(), c, n).Halt? && Live(c)
      ensures n > 0 && Step(P(), c) != Stuck && Steps(P(), c, n) == Steps(P(), Step(P(), c), n - 1)
    {
      hide Step;
      if n > 0 && Step(P(), c) == Stuck { HaltStays(P(), Stuck, n - 1); }
    }

    /** Runs the code to its end; 'n' bounds the number of transitions of the machine. */
    method LreExecBacktrack(ghost n: nat) returns (ret: bool)
      requires Valid() && Steps(P(), Here(), n).Halt?
      modifies this, capture, stack
      ensures Valid()
      ensures Steps(P(), old(Here()), n) == Halt(if ret then Some(capture[..]) else None)
    {
      hide Step, Steps, Valid;
      ghost var left: nat := n;
      while true
        invariant Valid() && Steps(P(), Here(), left) == Steps(P(), old(Here()), n)
        decreases left
      {
        HaltsInAStep(Here(), left);
        var status := ExecOpcode();
        left := left - 1;
        if status != Running {
          ret := status == Matched;
          var resumed := false;
          while !resumed
            invariant Valid()
            invariant Steps(P(), if resumed then Here() else Unwinding(ret), left) == Steps(P(), old(Here()), n)
            decreases left, !resumed
          {
            HaltsInAStep(Unwinding(ret), left);
            if stateStack == [] {
              AtTheEnd(ret, left);
              return;
            }
            resumed, ret := Unwind(ret);
            left := left - 1;
          }
        }
      }
    }

    lemma AtTheEnd(ret: bool, n: nat)
      requires stateStack == [] && n > 0
      ensures Steps(P(), Unwinding(ret), n) == Halt(if ret then Some(capture[..]) else None)
    {
      HaltStays(P(), Step(P(), Unwinding(ret)), n - 1);
    }
  }

  predicate IsTestOp(op: byte) {
    op in [REOP_CHAR, REOP_CHAR32, REOP_DOT, REOP_ANY, REOP_RANGE, REOP_RANGE32,
           REOP_LINE_START, REOP_LINE_END, REOP_WORD_BOUNDARY, REOP_NOT_WORD_BOUNDARY]
  }

  /** The cases of the dispatch. */
  lemma TestOps(i: Instr)
    ensures IsTestOp(Op(i)) <==> IsSimple(i)
  {
  }

  lemma OpcodeGroups(i: Instr)
    ensures Op(i) == REOP_MATCH <==> i.IMatch?
    ensures Op(i) in [REOP_SPLIT_GOTO_FIRST, REOP_SPLIT_NEXT_FIRST] <==> i.ISplit?
    ensures Op(i) in [REOP_LOOKAHEAD, REOP_NEGATIVE_LOOKAHEAD] <==> i.ILookahead?
    ensures Op(i) == REOP_GOTO <==> i.IGoto?
    ensures Op(i) in [REOP_SAVE_START, REOP_SAVE_END] <==> i.ISave?
    ensures Op(i) == REOP_SAVE_RESET <==> i.ISaveReset?
  {
  }

  lemma StackOpcodeGroups(i: Instr)
    ensures Op(i) in [REOP_PUSH_I32, REOP_PUSH_CHAR_POS] <==> i.IPushI32? || i.IPushCharPos?
    ensures Op(i) == REOP_DROP <==> i.IDrop?
    ensures Op(i) == REOP_LOOP <==> i.ILoop?
    ensures Op(i) == REOP_BNE_CHAR_POS <==> i.IBneCharPos?
    ensures Op(i) in [REOP_BACK_REFERENCE, REOP_BACKWARD_BACK_REFERENCE] <==> i.IBackReference?
    ensures Op(i) == REOP_PREV <==> i.IPrev?
    ensures Op(i) == REOP_SIMPLE_GREEDY_QUANT <==> i.ISimpleGreedyQuant?
  {
  }

  lemma BisectStep(t: seq<int>, c: int, lo: nat, hi: nat)
    requires lo <= hi && 2 * hi + 1 < |t|
    ensures var mid := (lo + hi) / 2;
            && (c < t[2 * mid] ==> Bisect(t, c, lo, hi) == Bisect(t, c, lo, mid - 1))
            && (c >= t[2 * mid] && c > t[2 * mid + 1] ==> Bisect(t, c, lo, hi) == Bisect(t, c, mid + 1, hi))
            && (c >= t[2 * mid] && c <= t[2 * mid + 1] ==> Bisect(t, c, lo, hi))
  {
  }

  lemma BisectNone(t: seq<int>, c: int, lo: nat, hi: int)
    requires lo > hi && 2 * hi + 1 < |t|
    ensures !Bisect(t, c, lo, hi)
  {
  }

  /** One instruction of a straight-line atom. */
  lemma AtomStep(P: Prog, pc: int, pos: nat) returns (i: Instr)
    requires 0 <= pc && RunAtom(P, pc, pos) != Bad
    ensures Decode(P.code, pc) == Some(i)
    ensures Op(i) == REOP_MATCH ==> RunAtom(P, pc, pos) == Reached(pos)
    ensures Op(i) != REOP_MATCH ==> IsSimple(i)
    ensures Op(i) != REOP_MATCH && SimpleStep(P.e, i, pos).None? ==> RunAtom(P, pc, pos) == Missed
    ensures Op(i) != REOP_MATCH && SimpleStep(P.e, i, pos).Some? ==>
              RunAtom(P, pc, pos) == RunAtom(P, pc + Size(i), SimpleStep(P.e, i, pos).value)
  {
    hide Decode, SimpleStep;
    i := Decode(P.code, pc).value;
    if Op(i) == REOP_MATCH { MatchOpcode(i); }
  }

  lemma MatchOpcode(i: Instr)
    requires Op(i) == REOP_MATCH
    ensures i.IMatch?
  {
  }

  /** Which group of opcodes an instruction belongs to. */
  lemma OpcodeClasses(i: Instr)
    ensures Op(i) in [REOP_LINE_START, REOP_LINE_END, REOP_WORD_BOUNDARY, REOP_NOT_WORD_BOUNDARY] <==> IsAssertInstr(i)
    ensures IsAssertInstr(i) ==> Size(i) == 1 && !IsCharInstr(i)
  {
  }
}
