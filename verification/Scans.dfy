/**
 The three linear passes over emitted bytecode. Each walks the bytes with the
 opcode size table and returns what the pass over the instruction list defines.
 */
module Scans {
  import opened Bytes
  import opened Opcodes
  import opened Pattern
  import opened Codegen
  import opened CodegenFacts

  /** The fixed part of each instruction, as in the opcode table. */
  function InfoSize(op: byte): (n: nat)
    ensures n >= 1
  {
    if op in [REOP_CHAR, REOP_SAVE_RESET, REOP_RANGE, REOP_RANGE32] then 3
    else if Is32(op) then 5
    else if op in [REOP_SAVE_START, REOP_SAVE_END, REOP_BACK_REFERENCE, REOP_BACKWARD_BACK_REFERENCE] then 2
    else if op == REOP_SIMPLE_GREEDY_QUANT then 17
    else 1
  }

  // The case labels of the passes.

  predicate IsCharOp(op: byte) { op in [REOP_RANGE, REOP_RANGE32, REOP_CHAR, REOP_CHAR32, REOP_DOT, REOP_ANY] }

  predicate IsAssertOp(op: byte) {
    op in [REOP_LINE_START, REOP_LINE_END, REOP_WORD_BOUNDARY, REOP_NOT_WORD_BOUNDARY]
  }

  predicate IsNeutralOp(op: byte) {
    || IsAssertOp(op)
    || op in [REOP_PUSH_I32, REOP_PUSH_CHAR_POS, REOP_DROP, REOP_PREV, REOP_SAVE_START, REOP_SAVE_END,
              REOP_SAVE_RESET, REOP_BACK_REFERENCE, REOP_BACKWARD_BACK_REFERENCE]
  }

  lemma OpClasses(i: Instr)
    ensures IsCharOp(Op(i)) == IsCharInstr(i)
    ensures IsAssertOp(Op(i)) == IsAssertInstr(i)
    ensures IsNeutralOp(Op(i)) == IsNeutral(i)
  {
    hide *;
    CharOps(i);
    AssertOps(i);
    NeutralOps(i);
  }

  lemma CharOps(i: Instr)
    ensures IsCharOp(Op(i)) == IsCharInstr(i)
  {
  }

  lemma AssertOps(i: Instr)
    ensures IsAssertOp(Op(i)) == IsAssertInstr(i)
  {
  }

  lemma NeutralOps(i: Instr)
    ensures IsNeutralOp(Op(i)) == IsNeutral(i)
  {
  }

  lemma StackOps(i: Instr)
    ensures Op(i) in [REOP_PUSH_I32, REOP_PUSH_CHAR_POS] <==> StackEffect(i) == 1
    ensures Op(i) in [REOP_DROP, REOP_BNE_CHAR_POS] <==> StackEffect(i) == -1
  {
  }

  /** The size table plus the length of a range table, as every pass computes it. */
  method InstrLen(bc: seq<byte>, pos: nat, ghost i: Instr) returns (len: nat)
    requires Encodable(i) && At(bc, pos, Enc(i))
    ensures len == Size(i)
  {
    OperandsAt(bc, pos, i);
    var opcode := bc[pos];
    len := InfoSize(opcode);
    if opcode == REOP_RANGE {
      TableLen(bc, pos, i);
      var val := GetU16(bc, pos + 1);
      len := len + val * 4;
    } else if opcode == REOP_RANGE32 {
      TableLen(bc, pos, i);
      var val := GetU16(bc, pos + 1);
      len := len + val * 8;
    }
  }

  lemma TableLen(bc: seq<byte>, pos: nat, i: Instr)
    requires Encodable(i) && At(bc, pos, Enc(i)) && (i.IRange? || i.IRange32?)
    ensures pos + 3 <= |bc| && GetU16(bc, pos + 1) == |i.tab| / 2
  {
    OperandsAt(bc, pos, i);
    if i.IRange? {
      AtConcat(bc, pos + 1, PutU16(|i.tab| / 2), PutTable16(i.tab));
    } else {
      AtConcat(bc, pos + 1, PutU16(|i.tab| / 2), PutTable32(i.tab));
    }
    GetAfterPut16(bc, pos + 1, |i.tab| / 2);
  }

  /** Instruction 'k' of a list sits where the encodings before it end. */
  lemma {:induction false} InstrAt(bc: seq<byte>, s: seq<Instr>, k: nat)
    requires EncodableAll(s) && bc == EncAll(s) && k < |s|
    ensures At(bc, ByteLen(s[..k]), Enc(s[k])) && ByteLen(s[..k + 1]) == ByteLen(s[..k]) + Size(s[k])
    ensures ByteLen(s[..k + 1]) <= |bc|
  {
    hide EncAll, ByteLen, Enc, Size;
    var a, b := s[..k], s[k + 1..];
    assert s == a + [s[k]] + b && s[..k + 1] == a + [s[k]];
    EncOne(s[k]);
    EncAllConcat(a + [s[k]], b);
    EncAllConcat(a, [s[k]]);
    ByteLenConcat(a, [s[k]]);
    AtMiddle(EncAll(a), Enc(s[k]), EncAll(b));
  }

  lemma AtMiddle(x: seq<byte>, y: seq<byte>, z: seq<byte>)
    ensures At(x + y + z, |x|, y)
  {
    assert (x + y + z)[|x|..|x| + |y|] == y;
  }

  lemma EncOne(i: Instr)
    requires Encodable(i)
    ensures EncodableAll([i]) && EncAll([i]) == Enc(i) && ByteLen([i]) == Size(i)
  {
    assert [i][1..] == [];
    assert EncAll([]) == [];
  }

  lemma WholeList(s: seq<Instr>, k: nat)
    requires k <= |s| && ByteLen(s[..k]) >= ByteLen(s)
    ensures k == |s| && s[..k] == s
  {
    assert s == s[..k] + s[k..];
    ByteLenConcat(s[..k], s[k..]);
  }

  lemma BeforeEnd(s: seq<Instr>, k: nat)
    requires k <= |s| && ByteLen(s[..k]) < ByteLen(s)
    ensures k < |s|
  {
    assert s[..|s|] == s;
  }

  lemma PrefixStep(s: seq<Instr>, k: nat)
    requires k < |s|
    ensures s[..k + 1] == s[..k] + [s[k]]
  {
  }

  // ---- character count of a straight-line atom ----

  /** Returns -1 if the fast quantifier cannot be used, otherwise the number of characters in the atom. */
  method ReIsSimpleQuantifier(bc: seq<byte>, ghost s: seq<Instr>) returns (count: int)
    requires EncodableAll(s) && bc == EncAll(s)
    ensures count == SimpleCount(s)
  {
    count := 0;
    var pos := 0;
    ghost var k: nat := 0;
    while pos < |bc|
      invariant k <= |s| && pos == ByteLen(s[..k])
      invariant count == SimpleCount(s[..k]) >= 0
      decreases |bc| - pos
    {
      hide *;
      BeforeEnd(s, k);
      InstrAt(bc, s, k);
      CountNext(s, k);
      OperandsAt(bc, pos, s[k]);
      OpClasses(s[k]);
      var opcode := bc[pos];
      var len := InstrLen(bc, pos, s[k]);
      if IsCharOp(opcode) {
        count := count + 1;
      } else if !IsAssertOp(opcode) {
        return -1;
      }
      pos := pos + len;
      k := k + 1;
    }
    WholeList(s, k);
  }

  lemma CountNext(s: seq<Instr>, k: nat)
    requires k < |s| && SimpleCount(s[..k]) >= 0
    ensures IsCharInstr(s[k]) ==> SimpleCount(s[..k + 1]) == SimpleCount(s[..k]) + 1
    ensures IsAssertInstr(s[k]) ==> SimpleCount(s[..k + 1]) == SimpleCount(s[..k])
    ensures !IsCharInstr(s[k]) && !IsAssertInstr(s[k]) ==> SimpleCount(s) == -1
  {
    hide SimpleCount;
    PrefixStep(s, k);
    SimpleCountConcat(s[..k], [s[k]]);
    CountOne(s[k]);
    assert s == s[..k + 1] + s[k + 1..];
    SimpleCountConcat(s[..k + 1], s[k + 1..]);
  }

  lemma CountOne(i: Instr)
    ensures SimpleCount([i]) == if IsCharInstr(i) then 1 else if IsAssertInstr(i) then 0 else -1
  {
    assert [i][1..] == [];
  }

  // ---- does the code always advance? ----

  /** The scan's verdict so far: not known yet, advances, or may not. */
  datatype Verdict = Unknown | Advances | MayNot

  ghost function VerdictOf(s: seq<Instr>): (v: Verdict) {
    if StartsWithChar(s) then Advances else if AllNeutral(s) then Unknown else MayNot
  }

  lemma VerdictNext(s: seq<Instr>, k: nat)
    requires k < |s|
    ensures VerdictOf(s[..k]) != Unknown ==> VerdictOf(s[..k + 1]) == VerdictOf(s[..k])
    ensures VerdictOf(s[..k]) == Unknown ==>
              VerdictOf(s[..k + 1]) ==
              if IsCharInstr(s[k]) then Advances else if IsNeutral(s[k]) then Unknown else MayNot
  {
    hide StartsWithChar, AllNeutral;
    PrefixStep(s, k);
    StartsConcat(s[..k], [s[k]]);
    StartsOne(s[k]);
    NeutralSplit(s[..k], s[k]);
    StartsOrNeutral(s[..k]);
  }

  lemma StartsOne(i: Instr)
    ensures StartsWithChar([i]) == IsCharInstr(i)
  {
    assert [i][1..] == [];
  }

  lemma NeutralSplit(a: seq<Instr>, i: Instr)
    ensures AllNeutral(a + [i]) == (AllNeutral(a) && IsNeutral(i))
  {
    if AllNeutral(a + [i]) {
      assert (a + [i])[|a|] == i;
      forall k | 0 <= k < |a| ensures IsNeutral(a[k]) { assert (a + [i])[k] == a[k]; }
    }
  }

  lemma {:induction false} StartsOrNeutral(s: seq<Instr>)
    ensures !(StartsWithChar(s) && AllNeutral(s))
  {
    if StartsWithChar(s) && AllNeutral(s) {
      StartsOrNeutral(s[1..]);
    }
  }

  /** Bit 0: the capture is written. Bit 1: it is referred to. */
  ghost predicate BitmapOf(bitmap: array<bv8>, saves: set<int>, refs: set<int>)
    reads bitmap
  {
    bitmap.Length == CAPTURE_COUNT_MAX &&
    forall i :: 0 <= i < bitmap.Length ==>
      && bitmap[i] <= 3
      && (bitmap[i] & 1 != 0 <==> i in saves)
      && (bitmap[i] & 2 != 0 <==> i in refs)
  }

  /** Marks one capture; the other bit of its entry is left alone. */
  method Mark(bitmap: array<bv8>, val: nat, bit: bv8, ghost saves: set<int>, ghost refs: set<int>)
    requires val < CAPTURE_COUNT_MAX && (bit == 1 || bit == 2) && BitmapOf(bitmap, saves, refs)
    modifies bitmap
    ensures BitmapOf(bitmap, if bit == 1 then saves + {val} else saves, if bit == 2 then refs + {val} else refs)
  {
    BitOr(bitmap[val]);
    bitmap[val] := bitmap[val] | bit;
  }

  lemma BitOr(x: bv8)
    requires x <= 3
    ensures (x | 1) & 1 != 0 && (x | 1) & 2 == x & 2 && (x | 1) <= 3
    ensures (x | 2) & 2 != 0 && (x | 2) & 1 == x & 1 && (x | 2) <= 3
  {
  }

  lemma SpanNext(lo: int, k: int)
    requires lo <= k
    ensures Span(lo, k + 1) == Span(lo, k) + {k}
  {
  }

  /** The marks an instruction adds. */
  method MarkInstr(bitmap: array<bv8>, bc: seq<byte>, pos: nat, ghost i: Instr, ghost saves: set<int>,
                   ghost refs: set<int>)
    requires Encodable(i) && At(bc, pos, Enc(i))
    requires BitmapOf(bitmap, saves, refs)
    modifies bitmap
    ensures BitmapOf(bitmap, saves + InstrSaves(i), refs + InstrRefs(i))
  {
    hide BitmapOf;
    OperandsAt(bc, pos, i);
    var opcode := bc[pos];
    assert saves + {} == saves && refs + {} == refs;
    if opcode in [REOP_SAVE_START, REOP_SAVE_END] {
      AtIndex(bc, pos + 1, Operands(i), 0);
      Mark(bitmap, bc[pos + 1], 1, saves, refs);
    } else if opcode == REOP_SAVE_RESET {
      AtIndex(bc, pos + 1, Operands(i), 0);
      AtIndex(bc, pos + 1, Operands(i), 1);
      MarkSpan(bitmap, bc[pos + 1], bc[pos + 2], saves, refs);
    } else if opcode in [REOP_BACK_REFERENCE, REOP_BACKWARD_BACK_REFERENCE] {
      AtIndex(bc, pos + 1, Operands(i), 0);
      Mark(bitmap, bc[pos + 1], 2, saves, refs);
    }
  }

  /** A reset marks its captures except the last. */
  method MarkSpan(bitmap: array<bv8>, first: nat, last: nat, ghost saves: set<int>, ghost refs: set<int>)
    requires last < CAPTURE_COUNT_MAX
    requires BitmapOf(bitmap, saves, refs)
    modifies bitmap
    ensures BitmapOf(bitmap, saves + Span(first, last), refs)
  {
    hide BitmapOf;
    var val: nat := first;
    assert saves + Span(first, first) == saves;
    while val < last
      invariant first <= val && (val <= last || val == first)
      invariant BitmapOf(bitmap, saves + Span(first, val), refs)
    {
      Mark(bitmap, val, 1, saves + Span(first, val), refs);
      SpanNext(first, val);
      assert saves + Span(first, val) + {val as int} == saves + Span(first, val + 1);
      val := val + 1;
    }
    assert Span(first, val) == Span(first, last);
  }

  lemma SetsNext(s: seq<Instr>, k: nat)
    requires k < |s|
    ensures CodeSaves(s[..k + 1]) == CodeSaves(s[..k]) + InstrSaves(s[k])
    ensures CodeRefs(s[..k + 1]) == CodeRefs(s[..k]) + InstrRefs(s[k])
  {
    PrefixStep(s, k);
    CodeSetsConcat(s[..k], [s[k]]);
    SetsOne(s[k]);
  }

  /** A verdict folds one more opcode in. */
  method Judge(opcode: byte, ret: int, ghost i: Instr, ghost v: Verdict) returns (r: int)
    requires opcode == Op(i) && VerdictCode(ret, v)
    ensures VerdictCode(r, if v != Unknown then v
                           else if IsCharInstr(i) then Advances else if IsNeutral(i) then Unknown else MayNot)
  {
    hide Op;
    OpClasses(i);
    r := ret;
    if IsCharOp(opcode) {
      if ret == -2 { r := 1; }
    } else if !IsNeutralOp(opcode) {
      if ret == -2 { r := 0; }
    }
  }

  predicate VerdictCode(ret: int, v: Verdict) {
    ret == match v case Unknown => -2 case Advances => 1 case MayNot => 0
  }

  /** Is some capture both written and referred to? */
  method AnyBoth(bitmap: array<bv8>, ghost saves: set<int>, ghost refs: set<int>) returns (b: bool)
    requires BitmapOf(bitmap, saves, refs)
    requires forall i :: i in refs ==> 0 <= i < CAPTURE_COUNT_MAX
    ensures b <==> saves * refs != {}
  {
    for i := 0 to CAPTURE_COUNT_MAX
      invariant forall j :: 0 <= j < i ==> !(j in saves && j in refs)
    {
      BothBits(bitmap[i]);
      if bitmap[i] == 3 {
        assert i in saves * refs;
        return true;
      }
    }
    assert forall j :: j in refs ==> j !in saves;
    return false;
  }

  /** References found so far are small numbers. */
  lemma {:induction false} RefsSmall(s: seq<Instr>)
    requires EncodableAll(s)
    ensures forall i :: i in CodeRefs(s) ==> 0 <= i < CAPTURE_COUNT_MAX
  {
    if s != [] {
      assert EncodableAll(s[1..]);
      RefsSmall(s[1..]);
      assert Encodable(s[0]);
    }
  }

  /**
   1 if the opcodes always advance the character position, 0 if they may not,
   -1 if the code may depend on what its previous execution captured.
   */
  method ReCheckAdvance(bc: seq<byte>, ghost s: seq<Instr>) returns (r: int)
    requires EncodableAll(s) && bc == EncAll(s)
    ensures r == CheckAdvance(s)
  {
    hide BitmapOf;
    var bitmap := NewBitmap();
    var ret, hasBackReference := -2, false;
    var pos := 0;
    ghost var k: nat := 0;
    NothingScanned(s);
    while pos < |bc|
      invariant k <= |s| && pos == ByteLen(s[..k])
      invariant BitmapOf(bitmap, CodeSaves(s[..k]), CodeRefs(s[..k])) && fresh(bitmap)
      invariant VerdictCode(ret, VerdictOf(s[..k]))
      invariant hasBackReference <==> CodeRefs(s[..k]) != {}
      decreases |bc| - pos
    {
      hide *;
      BeforeEnd(s, k);
      InstrAt(bc, s, k);
      VerdictNext(s, k);
      SetsNext(s, k);
      OperandsAt(bc, pos, s[k]);
      var opcode := bc[pos];
      var len := InstrLen(bc, pos, s[k]);
      ret := Judge(opcode, ret, s[k], VerdictOf(s[..k]));
      MarkInstr(bitmap, bc, pos, s[k], CodeSaves(s[..k]), CodeRefs(s[..k]));
      RefOps(s[k]);
      if opcode == REOP_BACK_REFERENCE || opcode == REOP_BACKWARD_BACK_REFERENCE { hasBackReference := true; }
      pos := pos + len;
      k := k + 1;
    }
    hide *;
    WholeList(s, k);
    RefsSmall(s);
    ScanMeaning(s);
    assert CodeSaves(s[..k]) == CodeSaves(s) && CodeRefs(s[..k]) == CodeRefs(s) && VerdictCode(ret, VerdictOf(s));
    if hasBackReference {
      var both := AnyBoth(bitmap, CodeSaves(s), CodeRefs(s));
      if both { return -1; }
    }
    VerdictCodes(ret, VerdictOf(s));
    if ret == -2 { ret := 0; }
    return ret;
  }

  method NewBitmap() returns (bitmap: array<bv8>)
    ensures fresh(bitmap) && BitmapOf(bitmap, {}, {})
  {
    bitmap := new bv8[CAPTURE_COUNT_MAX](_ => 0);
  }

  lemma NothingScanned(s: seq<Instr>)
    ensures s[..0] == [] && ByteLen(s[..0]) == 0 && VerdictOf(s[..0]) == Unknown
    ensures CodeSaves(s[..0]) == {} && CodeRefs(s[..0]) == {}
  {
  }

  lemma VerdictCodes(ret: int, v: Verdict)
    requires VerdictCode(ret, v)
    ensures ret == -2 <==> v == Unknown
    ensures ret == 1 <==> v == Advances
    ensures ret == 0 <==> v == MayNot
  {
  }

  lemma ScanMeaning(s: seq<Instr>)
    ensures CodeRefs(s) == {} ==> CodeSaves(s) * CodeRefs(s) == {}
    ensures CheckAdvance(s) ==
            if CodeSaves(s) * CodeRefs(s) != {} then -1 else if VerdictOf(s) == Advances then 1 else 0
  {
  }

  lemma RefOps(i: Instr)
    ensures Op(i) in [REOP_BACK_REFERENCE, REOP_BACKWARD_BACK_REFERENCE] <==> InstrRefs(i) != {}
  {
    match i case IBackReference(_, n) => assert n in InstrRefs(i); case _ =>
  }

  lemma BothBits(x: bv8)
    requires x <= 3
    ensures x == 3 <==> x & 1 != 0 && x & 2 != 0
  {
  }

  // ---- depth of the integer stack ----

  lemma DepthNext(s: seq<Instr>, k: nat)
    requires k < |s|
    ensures DepthAfter(s[..k + 1], 0) == DepthAfter(s[..k], 0) + StackEffect(s[k])
    ensures MaxDepth(s[..k + 1], 0) == Max(MaxDepth(s[..k], 0), DepthAfter(s[..k + 1], 0))
    ensures MaxDepth(s[..k + 1], 0) <= MaxDepth(s, 0) && MinDepth(s, 0) <= DepthAfter(s[..k + 1], 0)
  {
    hide DepthAfter, MaxDepth, MinDepth, StackEffect;
    var a := s[..k];
    var d := DepthAfter(a, 0);
    PrefixStep(s, k);
    DepthAfterConcat(a, [s[k]], 0);
    MaxDepthConcat(a, [s[k]], 0);
    DepthOne(s[k], d);
    MaxOne(s[k], d);
    MaxAbove(a, 0);
    assert s == s[..k + 1] + s[k + 1..];
    MaxDepthConcat(s[..k + 1], s[k + 1..], 0);
    MinDepthConcat(s[..k + 1], s[k + 1..], 0);
    MinBelow(s[..k + 1], 0);
  }

  lemma MaxOne(i: Instr, d: int)
    ensures MaxDepth([i], d) == Max(d, d + StackEffect(i))
  {
    assert [i][1..] == [];
  }

  lemma {:induction false} MaxAbove(s: seq<Instr>, d: int)
    ensures MaxDepth(s, d) >= DepthAfter(s, d)
    decreases |s|
  {
    if s != [] { MaxAbove(s[1..], d + StackEffect(s[0])); }
  }

  lemma {:induction false} MinBelow(s: seq<Instr>, d: int)
    ensures MinDepth(s, d) <= DepthAfter(s, d)
    decreases |s|
  {
    if s != [] { MinBelow(s[1..], d + StackEffect(s[0])); }
  }

  /** The largest depth of the integer stack, or -1 if it is over the limit. */
  method ComputeStackSize(bc: seq<byte>, ghost s: seq<Instr>) returns (r: int)
    requires EncodableAll(s) && bc == EncAll(s) && MinDepth(s, 0) >= 0
    ensures r == if MaxDepth(s, 0) > STACK_SIZE_MAX then -1 else MaxDepth(s, 0)
  {
    var stackSize, stackSizeMax := 0, 0;
    var pos := 0;
    ghost var k: nat := 0;
    while pos < |bc|
      invariant k <= |s| && pos == ByteLen(s[..k])
      invariant stackSize == DepthAfter(s[..k], 0)
      invariant 0 <= stackSize && stackSizeMax == MaxDepth(s[..k], 0) <= STACK_SIZE_MAX
      decreases |bc| - pos
    {
      hide *;
      BeforeEnd(s, k);
      InstrAt(bc, s, k);
      DepthNext(s, k);
      OperandsAt(bc, pos, s[k]);
      StackOps(s[k]);
      MaxAbove(s[..k], 0);
      var opcode := bc[pos];
      var len := InstrLen(bc, pos, s[k]);
      if opcode in [REOP_PUSH_I32, REOP_PUSH_CHAR_POS] {
        stackSize := stackSize + 1;
        if stackSize > stackSizeMax {
          if stackSize > STACK_SIZE_MAX {
            MaxDefinition(MaxDepth(s[..k], 0), DepthAfter(s[..k + 1], 0));
            return -1;
          }
          stackSizeMax := stackSize;
        }
      } else if opcode in [REOP_DROP, REOP_BNE_CHAR_POS] {
        assert stackSize > 0;
        stackSize := stackSize - 1;
      } else {
        StackEffects(s[k]);
      }
      MaxDefinition(MaxDepth(s[..k], 0), DepthAfter(s[..k + 1], 0));
      pos := pos + len;
      k := k + 1;
    }
    WholeList(s, k);
    return stackSizeMax;
  }

  lemma MaxDefinition(x: int, y: int)
    ensures Max(x, y) == if x > y then x else y
  {
  }

  lemma StackEffects(i: Instr)
    ensures StackEffect(i) in {-1, 0, 1}
  {
  }
}
