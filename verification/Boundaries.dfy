/**
 Well-formed bytecode over all runs: every jump lands on an instruction, and
 the integer stack is always as deep as the linear scan says for that place.
 */
module Boundaries {
  import opened Bytes
  import opened Opcodes
  import opened Pattern
  import opened Matcher
  import opened Codegen
  import opened CodegenFacts
  import opened Machine
  import opened Fragments
  import opened Loops
  import opened Adequacy
  import opened Scans
  import opened Executor

  // ---- where jumps land ----

  /** An instruction of 's', or its end, begins at byte 'at', where the scan has depth 'd'. */
  ghost predicate CutAt(s: seq<Instr>, j: int, at: int, d: int) {
    0 <= j <= |s| && ByteLen(s[..j]) == at && DepthAfter(s[..j], 0) == d
  }

  ghost predicate Cut(s: seq<Instr>, at: int, d: int) { exists j :: CutAt(s, j, at, d) }

  predicate IsJump(i: Instr) {
    i.IGoto? || i.ISplit? || i.ILoop? || i.ILookahead? || i.IBneCharPos? || i.ISimpleGreedyQuant?
  }

  /** The jumps of 's', whose first instruction is at byte 'at' and depth 'd' of 'w', land on instructions of 'w'. */
  ghost predicate JumpsLand(s: seq<Instr>, w: seq<Instr>, at: int, d: int) {
    s != [] ==>
      && (IsJump(s[0]) ==> Cut(w, at + Size(s[0]) + s[0].off, d + StackEffect(s[0])))
      && JumpsLand(s[1..], w, at + Size(s[0]), d + StackEffect(s[0]))
  }

  ghost predicate JumpsOk(s: seq<Instr>) { JumpsLand(s, s, 0, 0) }

  lemma {:induction false} LandConcat(a: seq<Instr>, b: seq<Instr>, w: seq<Instr>, at: int, d: int)
    ensures JumpsLand(a + b, w, at, d) <==> JumpsLand(a, w, at, d) && JumpsLand(b, w, at + ByteLen(a), DepthAfter(a, d))
    decreases |a|
  {
    if a == [] {
      assert a + b == b;
    } else {
      assert (a + b)[1..] == a[1..] + b;
      LandConcat(a[1..], b, w, at + Size(a[0]), d + StackEffect(a[0]));
    }
  }

  lemma {:induction false} DepthShift(s: seq<Instr>, d: int)
    ensures DepthAfter(s, d) == DepthAfter(s, 0) + d
    decreases |s|
  {
    if s != [] {
      DepthShift(s[1..], d + StackEffect(s[0]));
      DepthShift(s[1..], StackEffect(s[0]));
    }
  }

  lemma CutMoves(x: seq<Instr>, w: seq<Instr>, y: seq<Instr>, at: int, d: int)
    requires Cut(w, at, d)
    ensures Cut(x + w + y, ByteLen(x) + at, DepthAfter(x, 0) + d)
  {
    hide ByteLen, DepthAfter;
    var j :| CutAt(w, j, at, d);
    assert (x + w + y)[..|x| + j] == x + w[..j];
    ByteLenConcat(x, w[..j]);
    DepthAfterConcat(x, w[..j], 0);
    DepthShift(w[..j], DepthAfter(x, 0));
    assert CutAt(x + w + y, |x| + j, ByteLen(x) + at, DepthAfter(x, 0) + d);
  }

  /** A fragment means the same wherever it is put. */
  lemma {:induction false} LandMoves(s: seq<Instr>, x: seq<Instr>, w: seq<Instr>, y: seq<Instr>, at: int, d: int)
    requires JumpsLand(s, w, at, d)
    ensures JumpsLand(s, x + w + y, ByteLen(x) + at, DepthAfter(x, 0) + d)
    decreases |s|
  {
    if s != [] {
      if IsJump(s[0]) { CutMoves(x, w, y, at + Size(s[0]) + s[0].off, d + StackEffect(s[0])); }
      LandMoves(s[1..], x, w, y, at + Size(s[0]), d + StackEffect(s[0]));
    }
  }

  lemma CutEnds(a: seq<Instr>, b: seq<Instr>)
    ensures Cut(a + b, ByteLen(a), DepthAfter(a, 0))
  {
    assert (a + b)[..|a|] == a;
    assert CutAt(a + b, |a|, ByteLen(a), DepthAfter(a, 0));
  }

  lemma LandOne(i: Instr, w: seq<Instr>, at: int, d: int)
    requires IsJump(i) ==> Cut(w, at + Size(i) + i.off, d + StackEffect(i))
    ensures JumpsLand([i], w, at, d)
  {
    assert [i][1..] == [];
  }

  lemma OkNil()
    ensures JumpsOk([])
  {
  }

  lemma OkOne(i: Instr)
    requires !IsJump(i)
    ensures JumpsOk([i])
  {
    LandOne(i, [i], 0, 0);
  }

  lemma OkConcat(a: seq<Instr>, b: seq<Instr>)
    requires JumpsOk(a) && JumpsOk(b)
    ensures JumpsOk(a + b)
  {
    hide JumpsLand, ByteLen, DepthAfter;
    LandMoves(a, [], a, b, 0, 0);
    assert [] + a + b == a + b;
    NilFacts();
    LandMoves(b, a, b, [], 0, 0);
    assert a + b + [] == a + b;
    LandConcat(a, b, a + b, 0, 0);
  }

  lemma NilFacts()
    ensures ByteLen([]) == 0 && DepthAfter([], 0) == 0
  {
  }

  /** Code put around a fragment: the new jumps may go to its start, to its end, to either end of the whole. */
  lemma OkAround(h: seq<Instr>, a: seq<Instr>, t: seq<Instr>)
    requires JumpsOk(a) && Balanced(a)
    requires JumpsLand(h, h + a + t, 0, 0)
    requires JumpsLand(t, h + a + t, ByteLen(h) + ByteLen(a), DepthAfter(h, 0))
    ensures JumpsOk(h + a + t)
  {
    hide JumpsLand, ByteLen, DepthAfter, MinDepth;
    var w, dh := h + a + t, DepthAfter(h, 0);
    LandMoves(a, h, a, t, 0, 0);
    assert h + a + t == h + (a + t);
    LandConcat(h, a + t, w, 0, 0);
    LandConcat(a, t, w, ByteLen(h), dh);
    assert DepthAfter(a, dh) == dh;
  }

  lemma AroundCuts(h: seq<Instr>, a: seq<Instr>, t: seq<Instr>)
    requires Balanced(a)
    ensures var w, dh := h + a + t, DepthAfter(h, 0);
            && Cut(w, 0, 0) && Cut(w, ByteLen(h), dh) && Cut(w, ByteLen(h) + ByteLen(a), dh)
            && Cut(w, ByteLen(h) + ByteLen(a) + ByteLen(t), DepthAfter(t, dh))
  {
    hide ByteLen, DepthAfter, MinDepth, Cut;
    var w, dh := h + a + t, DepthAfter(h, 0);
    NilFacts();
    assert [] + w == w;
    assert h + (a + t) == w;
    assert w + [] == w;
    CutEnds([], w);
    CutEnds(h, a + t);
    CutEnds(h + a, t);
    CutEnds(w, []);
    ByteLenConcat(h, a);
    ByteLenConcat(h + a, t);
    DepthAfterConcat(h, a, 0);
    DepthAfterConcat(h + a, t, 0);
    assert DepthAfter(a, dh) == dh;
  }

  // ---- each construct ----

  lemma LenTwo(i: Instr, j: Instr)
    ensures ByteLen([i, j]) == Size(i) + Size(j)
    ensures DepthAfter([i, j], 0) == StackEffect(i) + StackEffect(j)
  {
    assert [i, j] == [i] + [j];
    LenCons(i, [j]);
    LenOne(j);
    DepthTwo(i, j, 0);
  }

  lemma LandTwo(i: Instr, j: Instr, w: seq<Instr>, at: int, d: int)
    requires IsJump(i) ==> Cut(w, at + Size(i) + i.off, d + StackEffect(i))
    requires IsJump(j) ==> Cut(w, at + Size(i) + Size(j) + j.off, d + StackEffect(i) + StackEffect(j))
    ensures JumpsLand([i, j], w, at, d)
  {
    assert [i, j][1..] == [j];
    LandOne(j, w, at + Size(i), d + StackEffect(i));
  }

  /** One instruction on either side. */
  lemma OkWrap(i: Instr, a: seq<Instr>, j: Instr)
    requires JumpsOk(a) && Balanced(a) && StackEffect(i) == 0 && StackEffect(j) == 0
    requires IsJump(i) ==> i.off == ByteLen(a) || i.off == ByteLen(a) + Size(j)
    requires IsJump(j) ==> j.off == -(Size(i) + ByteLen(a) + Size(j)) || j.off == -(ByteLen(a) + Size(j))
    ensures JumpsOk([i] + a + [j])
  {
    hide JumpsLand, ByteLen, DepthAfter, MinDepth, Cut;
    var w := [i] + a + [j];
    AroundCuts([i], a, [j]);
    LenOne(i);
    LenOne(j);
    DepthOne(i, 0);
    DepthOne(j, 0);
    LandOne(i, w, 0, 0);
    LandOne(j, w, Size(i) + ByteLen(a), 0);
    OkAround([i], a, [j]);
  }

  lemma OkStar(a: seq<Instr>, greedy: bool, test: bool)
    requires JumpsOk(a) && Balanced(a)
    ensures JumpsOk(StarCode(a, greedy, test))
  {
    hide JumpsLand, ByteLen, DepthAfter, MinDepth, Cut;
    var len: int := ByteLen(a);
    if test {
      var split, back := ISplit(greedy, len + 6), IBneCharPos(-(len + 11));
      var h, t := [split, IPushCharPos], [back];
      var w := h + a + t;
      AroundCuts(h, a, t);
      LenTwo(split, IPushCharPos);
      LenOne(back);
      DepthOne(back, 1);
      LandTwo(split, IPushCharPos, w, 0, 0);
      LandOne(back, w, 6 + len, 1);
      OkAround(h, a, t);
    } else {
      OkWrap(ISplit(greedy, len + 5), a, IGoto(-(len + 10)));
    }
  }

  lemma CutBeforeLast(h: seq<Instr>, a: seq<Instr>, i: Instr, j: Instr)
    requires Balanced(a)
    ensures Cut(h + a + [i, j], ByteLen(h) + ByteLen(a) + Size(i), DepthAfter(h, 0) + StackEffect(i))
  {
    hide ByteLen, DepthAfter, MinDepth, Cut;
    var x := h + a + [i];
    assert h + a + [i, j] == x + [j];
    CutEnds(x, [j]);
    ByteLenConcat(h + a, [i]);
    ByteLenConcat(h, a);
    LenOne(i);
    DepthAfterConcat(h + a, [i], 0);
    DepthAfterConcat(h, a, 0);
    assert DepthAfter(a, DepthAfter(h, 0)) == DepthAfter(h, 0);
    DepthOne(i, DepthAfter(h, 0));
  }

  lemma OkUpTo(a: seq<Instr>, n: int, greedy: bool)
    requires JumpsOk(a) && Balanced(a)
    ensures JumpsOk(UpToCode(a, n, greedy))
  {
    hide JumpsLand, ByteLen, DepthAfter, MinDepth, Cut;
    var len: int := ByteLen(a);
    var push, split, loop := IPushI32(n), ISplit(greedy, len + 5), ILoop(-(len + 10));
    var h, t := [push, split], [loop, IDrop];
    var w := h + a + t;
    LenTwo(push, split);
    CutBeforeLast(h, a, loop, IDrop);
    assert w == [push] + ([split] + a + t);
    CutEnds([push], [split] + a + t);
    LenOne(push);
    DepthOne(push, 0);
    LandTwo(push, split, w, 0, 0);
    LandTwo(loop, IDrop, w, 10 + len, 1);
    OkAround(h, a, t);
  }

  lemma OkExactly(a: seq<Instr>, n: int)
    requires JumpsOk(a) && Balanced(a)
    ensures JumpsOk(ExactlyCode(a, n))
  {
    hide JumpsLand, ByteLen, DepthAfter, MinDepth, Cut;
    var len: int := ByteLen(a);
    var push, loop := IPushI32(n), ILoop(-(len + 5));
    var h, t := [push], [loop, IDrop];
    AroundCuts(h, a, t);
    LenOne(push);
    DepthOne(push, 0);
    LandOne(push, h + a + t, 0, 0);
    LandTwo(loop, IDrop, h + a + t, 5 + len, 1);
    OkAround(h, a, t);
  }

  /** One instruction in front, or behind. */
  lemma OkBeside(i: Instr, a: seq<Instr>)
    requires JumpsOk(a) && Balanced(a) && StackEffect(i) == 0 && IsJump(i)
    ensures i.off == ByteLen(a) ==> JumpsOk([i] + a)
    ensures i.off == -(ByteLen(a) + Size(i)) ==> JumpsOk(a + [i])
  {
    hide JumpsLand, ByteLen, DepthAfter, MinDepth, Cut;
    NilFacts();
    LenOne(i);
    DepthOne(i, 0);
    assert [i] + a + [] == [i] + a && [] + a + [i] == a + [i];
    AroundCuts([i], a, []);
    AroundCuts([], a, [i]);
    LandNone([i] + a, ByteLen([i]) + ByteLen(a), DepthAfter([i], 0));
    LandNone(a + [i], 0, 0);
    if i.off == ByteLen(a) {
      LandOne(i, [i] + a, 0, 0);
      OkAround([i], a, []);
    }
    if i.off == -(ByteLen(a) + Size(i)) {
      LandOne(i, a + [i], ByteLen(a), 0);
      OkAround([], a, [i]);
    }
  }

  lemma LandNone(w: seq<Instr>, at: int, d: int)
    ensures JumpsLand([], w, at, d)
  {
  }

  lemma OkAlt(l: seq<Instr>, r: seq<Instr>)
    requires JumpsOk(l) && JumpsOk(r) && Balanced(l) && Balanced(r)
    ensures JumpsOk([ISplit(true, ByteLen(l) + 5)] + l + [IGoto(ByteLen(r))] + r)
  {
    hide JumpsLand, ByteLen, DepthAfter, MinDepth, Cut;
    var split, jump := ISplit(true, ByteLen(l) + 5), IGoto(ByteLen(r));
    var h, t := [split], [jump] + r;
    var w := h + l + t;
    assert w == [split] + l + [jump] + r;
    LenOne(split);
    DepthOne(split, 0);
    LenCons(jump, r);
    LenOne(jump);
    DepthOne(jump, 0);
    DepthAfterConcat([jump], r, 0);
    assert DepthAfter(r, 0) == 0 && DepthAfter(l, 0) == 0;
    AroundCuts(h, l, t);
    var x := [split] + l + [jump];
    CutEnds(x, r);
    ByteLenConcat([split] + l, [jump]);
    ByteLenConcat([split], l);
    DepthAfterConcat([split] + l, [jump], 0);
    DepthAfterConcat([split], l, 0);
    LandOne(split, w, 0, 0);
    LandOne(jump, w, 5 + ByteLen(l), 0);
    LandMoves(r, x, r, [], 0, 0);
    assert x + r + [] == w;
    LandConcat([jump], r, w, 5 + ByteLen(l), 0);
    OkAround(h, l, t);
  }

  lemma OkOptional(a: seq<Instr>, max: int, greedy: bool)
    requires JumpsOk(a) && Balanced(a)
    ensures JumpsOk(OptionalCode(a, max, greedy))
  {
    hide JumpsOk, ByteLen, Balanced, StarCode, UpToCode, UsesAdvanceTest;
    OkNil();
    OkBeside(ISplit(greedy, ByteLen(a)), a);
    OkStar(a, greedy, UsesAdvanceTest(a, greedy));
    OkUpTo(a, max, greedy);
  }

  lemma OkRest(a: seq<Instr>, min: int, max: int, greedy: bool)
    requires JumpsOk(a) && Balanced(a)
    ensures JumpsOk(RestCode(a, min, max, greedy))
  {
    hide JumpsOk, ByteLen, Balanced, StarCode, UpToCode, UsesAdvanceTest;
    OkNil();
    OkStar(a, greedy, UsesAdvanceTest(a, greedy));
    OkUpTo(a, max - min, greedy);
  }

  lemma OkQuant(a: seq<Instr>, cc: int, n: int, min: int, max: int, greedy: bool)
    requires JumpsOk(a) && Balanced(a)
    ensures JumpsOk(QuantCode(a, cc, n, min, max, greedy))
  {
    hide JumpsOk, ByteLen, Balanced, OptionalCode, RestCode, ExactlyCode, UsesAdvanceTest, UsesSimpleQuant, SimpleCount;
    var plus := ISplit(!greedy, -(ByteLen(a) + 5));
    if UsesSimpleQuant(a, max, greedy) {
      OkWrap(ISimpleGreedyQuant(ByteLen(a) + 1, min, max, SimpleCount(a)), a, IMatch);
    } else if min == 0 {
      OkNil();
      OkOne(ISaveReset(cc, cc + n - 1));
      OkOptional(a, max, greedy);
      OkConcat(ResetCode(cc, n), OptionalCode(a, max, greedy));
    } else if min == 1 && max == INT32_MAX && !UsesAdvanceTest(a, greedy) {
      OkBeside(plus, a);
    } else {
      OkExactly(a, min);
      OkRest(a, min, max, greedy);
      OkConcat(if min == 1 then a else ExactlyCode(a, min), RestCode(a, min, max, greedy));
    }
  }

  lemma OkLeaf(e: Env, p: Node, back: bool, cc: nat)
    requires WellFormed(p) && !p.Cat? && !p.Alt? && !p.Capture? && !p.Look? && !p.Quant?
    ensures JumpsOk(Code(e, p, back, cc))
  {
    hide JumpsOk, CharInstr;
    OkNil();
    if p.Dot? || p.Char? || p.Class? {
      var i := CharInstr(e, p);
      CharIsNoJump(e, p);
      OkOne(i);
      OkOne(IPrev);
      OkConcat([IPrev], [i]);
      OkConcat([IPrev] + [i], [IPrev]);
      assert [IPrev, i, IPrev] == [IPrev] + [i] + [IPrev];
    } else if p != Empty {
      OkOne(Code(e, p, back, cc)[0]);
    }
  }

  lemma CharIsNoJump(e: Env, p: Node)
    requires WellFormed(p) && (p.Dot? || p.Char? || p.Class?)
    ensures !IsJump(CharInstr(e, p))
  {
    hide RangeTable;
  }

  lemma OkPair(e: Env, p: Node, back: bool, cc: nat)
    requires WellFormed(p) && (p.Cat? || p.Alt?)
    requires var (a, b) := if p.Cat? then (p.init, p.last) else (p.left, p.right);
             JumpsOk(Code(e, a, back, cc)) && JumpsOk(Code(e, b, back, cc + Caps(a)))
    ensures JumpsOk(Code(e, p, back, cc))
  {
    hide JumpsOk, Balanced, ByteLen;
    if p.Cat? {
      OkConcat(Code(e, p.init, back, cc), Code(e, p.last, back, cc + Caps(p.init)));
      OkConcat(Code(e, p.last, back, cc + Caps(p.init)), Code(e, p.init, back, cc));
    } else {
      CodeBalanced(e, p.left, back, cc);
      CodeBalanced(e, p.right, back, cc + Caps(p.left));
      OkAlt(Code(e, p.left, back, cc), Code(e, p.right, back, cc + Caps(p.left)));
    }
  }

  lemma OkNested(e: Env, p: Node, back: bool, cc: nat)
    requires WellFormed(p) && (p.Capture? || p.Look? || p.Quant?)
    requires JumpsOk(Code(e, p.body, if p.Look? then p.backward else back, if p.Capture? then cc + 1 else cc))
    ensures JumpsOk(Code(e, p, back, cc))
  {
    hide JumpsOk, QuantCode, Balanced, ByteLen;
    CodeBalanced(e, p.body, if p.Look? then p.backward else back, if p.Capture? then cc + 1 else cc);
    if p.Capture? {
      OkWrap(ISave(back, cc), Code(e, p.body, back, cc + 1), ISave(!back, cc));
    } else if p.Look? {
      var inner := Code(e, p.body, p.backward, cc);
      OkWrap(ILookahead(p.negative, ByteLen(inner) + 1), inner, IMatch);
    } else {
      OkQuant(Code(e, p.body, back, cc), cc, Caps(p.body), p.min, p.max, p.greedy);
    }
  }

  /** Every jump of a compiled fragment lands on an instruction of the fragment or just past its end. */
  lemma {:induction false} CodeJumpsOk(e: Env, p: Node, back: bool, cc: nat)
    requires WellFormed(p)
    ensures JumpsOk(Code(e, p, back, cc))
  {
    hide JumpsOk, Code;
    match p
    case Cat(a, b) =>
      CodeJumpsOk(e, a, back, cc);
      CodeJumpsOk(e, b, back, cc + Caps(a));
      OkPair(e, p, back, cc);
    case Alt(a, b) =>
      CodeJumpsOk(e, a, back, cc);
      CodeJumpsOk(e, b, back, cc + Caps(a));
      OkPair(e, p, back, cc);
    case Capture(a) =>
      CodeJumpsOk(e, a, back, cc + 1);
      OkNested(e, p, back, cc);
    case Look(_, backward, a) =>
      CodeJumpsOk(e, a, backward, cc);
      OkNested(e, p, back, cc);
    case Quant(a, _, _, _) =>
      CodeJumpsOk(e, a, back, cc);
      OkNested(e, p, back, cc);
    case _ => OkLeaf(e, p, back, cc);
  }

  lemma ProgramJumpsOk(e: Env, p: Node)
    requires WellFormed(p)
    ensures JumpsOk(ProgramCode(e, p))
  {
    hide JumpsOk, Code;
    CodeJumpsOk(e, Capture(p), false, 0);
    OkOne(IMatch);
    PreludeJumpsOk(e);
    OkConcat(SearchPrelude(e), Code(e, Capture(p), false, 0));
    OkConcat(SearchPrelude(e) + Code(e, Capture(p), false, 0), [IMatch]);
  }

  lemma PreludeJumpsOk(e: Env)
    ensures JumpsOk(SearchPrelude(e))
  {
    hide JumpsOk, Balanced;
    OkNil();
    OkOne(IAny);
    BalancedOne(IAny);
    LenOne(IAny);
    OkWrap(ISplit(false, 6), [IAny], IGoto(-11));
    assert [ISplit(false, 6), IAny, IGoto(-11)] == [ISplit(false, 6)] + [IAny] + [IGoto(-11)];
  }

  // ---- all reachable states ----

  /** A saved state of the greedy quantifier points at the operands of its opcode. */
  ghost predicate QuantAt(s: seq<Instr>, j: int, at: int, d: int) {
    0 <= j < |s| && s[j].ISimpleGreedyQuant? && CutAt(s, j, at - 1, d)
  }

  ghost predicate EntryOk(s: seq<Instr>, x: Entry) {
    if x.kind == GreedyQuantState then exists j :: QuantAt(s, j, x.pc, |x.stk|) else Cut(s, x.pc, |x.stk|)
  }

  ghost predicate SavedOk(s: seq<Instr>, saved: seq<Entry>) { forall k :: 0 <= k < |saved| ==> EntryOk(s, saved[k]) }

  ghost predicate ConfigOk(s: seq<Instr>, c: Config) {
    match c
    case Run(pc, _, stk, saved) => Cut(s, pc, |stk|) && SavedOk(s, saved)
    case Succeed(_, saved) => SavedOk(s, saved)
    case Fail(saved) => SavedOk(s, saved)
    case _ => true
  }

  ghost predicate Assembled(P: Prog, s: seq<Instr>) { EncodableAll(s) && P.code == EncAll(s) && JumpsOk(s) }

  /** At a cut the decoder finds the instruction of the list, or the end of the code. */
  lemma DecodeAtCut(P: Prog, s: seq<Instr>, j: int, at: int, d: int)
    requires Assembled(P, s) && CutAt(s, j, at, d)
    ensures j < |s| ==> Decode(P.code, at) == Some(s[j]) && CutAt(s, j + 1, at + Size(s[j]), d + StackEffect(s[j]))
    ensures j == |s| ==> Decode(P.code, at) == None
  {
    hide Decode, EncAll, ByteLen, DepthAfter, JumpsOk, Enc;
    if j < |s| {
      InstrAt(P.code, s, j);
      DecodeEnc(P.code, at, s[j]);
      assert s[..j + 1] == s[..j] + [s[j]];
      DepthAfterConcat(s[..j], [s[j]], 0);
      DepthOne(s[j], d);
    } else {
      assert s[..j] == s;
      DecodePastEnd(P.code, at);
    }
  }

  lemma DecodePastEnd(code: seq<byte>, pc: int)
    requires pc >= |code|
    ensures Decode(code, pc) == None
  {
  }

  lemma {:induction false} JumpCut(s: seq<Instr>, w: seq<Instr>, at: int, d: int, j: nat)
    requires JumpsLand(s, w, at, d) && j < |s| && IsJump(s[j])
    ensures Cut(w, at + ByteLen(s[..j]) + Size(s[j]) + s[j].off, DepthAfter(s[..j], d) + StackEffect(s[j]))
    decreases j
  {
    if j == 0 {
      assert s[..0] == [];
    } else {
      assert s[..j] == [s[0]] + s[1..j];
      assert s[1..][..j - 1] == s[1..j];
      JumpCut(s[1..], w, at + Size(s[0]), d + StackEffect(s[0]), j - 1);
    }
  }

  /** The targets of the instruction at a cut. */
  lemma TargetCut(P: Prog, s: seq<Instr>, j: int, at: int, d: int)
    requires Assembled(P, s) && CutAt(s, j, at, d) && j < |s| && IsJump(s[j])
    ensures Cut(s, at + Size(s[j]) + s[j].off, d + StackEffect(s[j]))
  {
    hide JumpsLand, ByteLen, DepthAfter;
    JumpCut(s, s, 0, 0, j);
  }

  lemma CutIs(s: seq<Instr>, j: int, at: int, d: int)
    requires CutAt(s, j, at, d)
    ensures Cut(s, at, d)
  {
  }

  lemma SavedPush(s: seq<Instr>, saved: seq<Entry>, x: Entry)
    requires SavedOk(s, saved) && EntryOk(s, x)
    ensures SavedOk(s, saved + [x])
  {
    hide EntryOk;
  }

  lemma SavedPop(s: seq<Instr>, saved: seq<Entry>)
    requires SavedOk(s, saved) && saved != []
    ensures SavedOk(s, saved[..|saved| - 1]) && EntryOk(s, saved[|saved| - 1])
  {
    hide EntryOk;
  }

  lemma FailOk(P: Prog, s: seq<Instr>, saved: seq<Entry>)
    requires Assembled(P, s) && SavedOk(s, saved)
    ensures ConfigOk(s, StepFail(P, saved))
  {
    hide Assembled, SavedOk, CutAt, GetU32;
    if saved != [] {
      var top, rest := saved[|saved| - 1], saved[..|saved| - 1];
      SavedPop(s, saved);
      if top.kind == GreedyQuantState && StepFail(P, saved) != Stuck {
        var j :| QuantAt(s, j, top.pc, |top.stk|);
        DecodeAtCut(P, s, j, top.pc - 1, |top.stk|);
        FetchQuant(P.code, top.pc - 1, s[j]);
        TargetCut(P, s, j, top.pc - 1, |top.stk|);
        var st := St(top.st.pos - GetU32(P.code, top.pc + 12), top.st.caps);
        SavedPush(s, rest, top.(st := st, count := top.count - 1));
        assert rest + [] == rest;
      }
    }
  }

  lemma SucceedOk(s: seq<Instr>, caps: seq<int>, saved: seq<Entry>)
    requires SavedOk(s, saved)
    ensures ConfigOk(s, StepSucceed(caps, saved))
  {
    hide SavedOk;
    if saved != [] { SavedPop(s, saved); }
  }

  lemma StackOpOk(P: Prog, s: seq<Instr>, i: Instr, pc: int, st: St, stk: seq<int>, saved: seq<Entry>)
    requires IsStackOp(i) && SavedOk(s, saved) && Cut(s, pc, |stk| + StackEffect(i))
    requires IsJump(i) ==> Cut(s, pc + i.off, |stk| + StackEffect(i))
    ensures ConfigOk(s, ExecStack(P, i, pc, st, stk, saved))
  {
    hide SavedOk, Cut;
  }

  lemma ControlOk(P: Prog, s: seq<Instr>, i: Instr, pc: int, st: St, stk: seq<int>, saved: seq<Entry>)
    requires !IsSimple(i) && !IsStackOp(i) && !i.ISimpleGreedyQuant? && SavedOk(s, saved)
    requires Cut(s, pc, |stk|) && (IsJump(i) ==> Cut(s, pc + i.off, |stk|))
    ensures ConfigOk(s, ExecControl(P, i, pc, st, stk, saved))
  {
    hide SavedOk, Cut, RefPos, SetCap, ResetCaps;
    if i.ISplit? {
      SavedPush(s, saved, Save(SplitState, pc + i.off, st, stk));
      SavedPush(s, saved, Save(SplitState, pc, st, stk));
    } else if i.ILookahead? {
      SavedPush(s, saved, Save(if i.negative then NegativeLookaheadState else LookaheadState, pc + i.off, st, stk));
    }
  }

  /** What an instruction may do from a cut: go on after it, go to its target, or unwind. */
  lemma ExecOk(P: Prog, s: seq<Instr>, j: int, at: int, st: St, stk: seq<int>, saved: seq<Entry>)
    requires Assembled(P, s) && CutAt(s, j, at, |stk|) && 0 <= j < |s| && SavedOk(s, saved)
    ensures ConfigOk(s, Exec(P, s[j], at + Size(s[j]), st, stk, saved))
  {
    hide Assembled, SavedOk, CutAt, Cut, SimpleStep, ExecStack, ExecControl, ExecQuant;
    var i := s[j];
    DecodeAtCut(P, s, j, at, |stk|);
    CutIs(s, j + 1, at + Size(i), |stk| + StackEffect(i));
    if IsJump(i) { TargetCut(P, s, j, at, |stk|); }
    if IsSimple(i) {
      SimpleOk(P, s, j, at, st, stk, saved);
    } else if IsStackOp(i) {
      StackOpOk(P, s, i, at + Size(i), st, stk, saved);
    } else if i.ISimpleGreedyQuant? {
      QuantOk(P, s, j, at, st, stk, saved);
    } else {
      ControlOk(P, s, i, at + Size(i), st, stk, saved);
    }
  }

  lemma SimpleOk(P: Prog, s: seq<Instr>, j: int, at: int, st: St, stk: seq<int>, saved: seq<Entry>)
    requires 0 <= j < |s| && IsSimple(s[j]) && Cut(s, at + Size(s[j]), |stk|) && SavedOk(s, saved)
    ensures ConfigOk(s, Exec(P, s[j], at + Size(s[j]), st, stk, saved))
  {
    hide SavedOk, CutAt, Cut, SimpleStep, ExecStack, ExecControl, ExecQuant;
  }

  lemma QuantOk(P: Prog, s: seq<Instr>, j: int, at: int, st: St, stk: seq<int>, saved: seq<Entry>)
    requires Assembled(P, s) && CutAt(s, j, at, |stk|) && 0 <= j < |s| && s[j].ISimpleGreedyQuant? && SavedOk(s, saved)
    ensures ConfigOk(s, ExecQuant(P, s[j], at + 17, st, stk, saved))
  {
    hide Assembled, SavedOk, CutAt, Cut, RunGreedy;
    TargetCut(P, s, j, at, |stk|);
    CutRange(s, j, at, |stk|);
    match RunGreedy(P, at + 17, st.pos, 0, s[j].max)
    case None =>
    case Some((pos, q)) =>
      if q > s[j].min {
        var x := Entry(GreedyQuantState, at + 1, St(pos, st.caps), stk, q - s[j].min);
        assert QuantAt(s, j, x.pc, |x.stk|);
        SavedPush(s, saved, x);
      }
  }

  lemma StepOk(P: Prog, s: seq<Instr>, c: Config)
    requires Assembled(P, s) && ConfigOk(s, c)
    ensures ConfigOk(s, Step(P, c))
  {
    hide Assembled, SavedOk, CutAt, Exec, StepFail, StepSucceed, Decode;
    match c
    case Run(pc, st, stk, saved) =>
      var j :| CutAt(s, j, pc, |stk|);
      CutRange(s, j, pc, |stk|);
      DecodeAtCut(P, s, j, pc, |stk|);
      if j < |s| { ExecOk(P, s, j, pc, st, stk, saved); }
    case Succeed(caps, saved) => SucceedOk(s, caps, saved);
    case Fail(saved) => FailOk(P, s, saved);
    case _ =>
  }

  lemma CutRange(s: seq<Instr>, j: int, at: int, d: int)
    requires CutAt(s, j, at, d)
    ensures 0 <= j <= |s| && at >= 0
  {
  }

  lemma {:induction false} StepsOk(P: Prog, s: seq<Instr>, c: Config, n: nat)
    requires Assembled(P, s) && ConfigOk(s, c)
    ensures ConfigOk(s, Steps(P, c, n))
    decreases n
  {
    hide Assembled, ConfigOk, Step;
    if n > 0 {
      StepOk(P, s, c);
      StepsOk(P, s, Step(P, c), n - 1);
    }
  }

  lemma ProgramAssembled(e: Env, p: Node)
    requires ValidEnv(e) && Compilable(e, p)
    ensures Assembled(Program(e, p), ProgramCode(e, p)) && Cut(ProgramCode(e, p), 0, 0)
  {
    hide JumpsOk, EncAll, ProgramCode, ByteLen, DepthAfter, EncodableAll;
    ProgramEncodable(e, p);
    ProgramJumpsOk(e, p);
    NilFacts();
    CutEnds([], ProgramCode(e, p));
    assert [] + ProgramCode(e, p) == ProgramCode(e, p);
  }

  lemma DepthWithin(s: seq<Instr>, j: int, at: int, d: int)
    requires CutAt(s, j, at, d)
    ensures d <= MaxDepth(s, 0)
  {
    hide MaxDepth, DepthAfter;
    assert s == s[..j] + s[j..];
    MaxDepthConcat(s[..j], s[j..], 0);
    MaxAbove(s[..j], 0);
  }

  /**
   In every reachable state the program counter is at an instruction of the
   program, and the integer stack is exactly as deep as the linear scan finds at
   that place, hence never deeper than the size stored in the header.
   */
  lemma ReachableStates(e: Env, p: Node, pos: nat, n: nat)
    requires ValidEnv(e) && Compilable(e, p) && pos <= |e.input|
    ensures var P, s := Program(e, p), ProgramCode(e, p);
            var c := Steps(P, Start(P, pos), n);
            && ConfigOk(s, c)
            && (c.Run? ==> |c.stk| <= P.stackMax &&
                           exists j :: CutAt(s, j, c.pc, |c.stk|) && j < |s| && Decode(P.code, c.pc) == Some(s[j]))
  {
    hide Assembled, CutAt, Steps, SavedOk, ProgramCode, ValidEnv, Decode, Placed, Exec;
    var P, s := Program(e, p), ProgramCode(e, p);
    ProgramAssembled(e, p);
    StartOk(P, s, pos);
    StepsOk(P, s, Start(P, pos), n);
    var c := Steps(P, Start(P, pos), n);
    if c.Run? {
      var j :| CutAt(s, j, c.pc, |c.stk|);
      CutRange(s, j, c.pc, |c.stk|);
      DepthWithin(s, j, c.pc, |c.stk|);
      DecodeAtCut(P, s, j, c.pc, |c.stk|);
      NotAtTheEnd(e, p, pos, n);
    }
  }

  lemma StartOk(P: Prog, s: seq<Instr>, pos: nat)
    requires Cut(s, 0, 0)
    ensures ConfigOk(s, Start(P, pos))
  {
    hide Cut;
  }

  /** The end of the code is never reached: the machine would be stuck there. */
  lemma NotAtTheEnd(e: Env, p: Node, pos: nat, n: nat)
    requires ValidEnv(e) && Compilable(e, p) && pos <= |e.input|
    ensures var P := Program(e, p); var c := Steps(P, Start(P, pos), n); c.Run? ==> Decode(P.code, c.pc) != None
  {
    hide Placed, Decode, Exec, ValidEnv, Compilable, Steps;
    var P := Program(e, p);
    CompiledIsLoaded(e, p);
    NeverStuck(P, p, pos, n + 1);
    StepsAdd(P, Start(P, pos), n, 1);
    OneStepMore(P, Steps(P, Start(P, pos), n));
  }

  lemma OneStepMore(P: Prog, c: Config)
    ensures Steps(P, c, 1) == Step(P, c)
  {
    assert Steps(P, Step(P, c), 0) == Step(P, c);
  }
}
