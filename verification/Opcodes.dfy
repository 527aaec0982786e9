/**
 The instruction set of the regular expression machine: one constructor per
 opcode, its byte encoding, and the decoder the machine fetches with.
 */
module Opcodes {
  import opened Bytes

  const REOP_CHAR: byte := 1
  const REOP_CHAR32: byte := 2
  const REOP_DOT: byte := 3
  const REOP_ANY: byte := 4
  const REOP_LINE_START: byte := 5
  const REOP_LINE_END: byte := 6
  const REOP_GOTO: byte := 7
  const REOP_SPLIT_GOTO_FIRST: byte := 8
  const REOP_SPLIT_NEXT_FIRST: byte := 9
  const REOP_MATCH: byte := 10
  const REOP_SAVE_START: byte := 11
  const REOP_SAVE_END: byte := 12
  const REOP_SAVE_RESET: byte := 13
  const REOP_LOOP: byte := 14
  const REOP_PUSH_I32: byte := 15
  const REOP_DROP: byte := 16
  const REOP_WORD_BOUNDARY: byte := 17
  const REOP_NOT_WORD_BOUNDARY: byte := 18
  const REOP_BACK_REFERENCE: byte := 19
  const REOP_BACKWARD_BACK_REFERENCE: byte := 20
  const REOP_RANGE: byte := 21
  const REOP_RANGE32: byte := 22
  const REOP_LOOKAHEAD: byte := 23
  const REOP_NEGATIVE_LOOKAHEAD: byte := 24
  const REOP_PUSH_CHAR_POS: byte := 25
  const REOP_BNE_CHAR_POS: byte := 26
  const REOP_PREV: byte := 27
  const REOP_SIMPLE_GREEDY_QUANT: byte := 28

  const INT32_MAX: int := 0x7fff_ffff
  const UINT32_MAX: int := 0xffff_ffff

  /**
   One decoded instruction. Jump distances count from the end of the
   instruction. Range tables list low and high bounds alternately.
   */
  datatype Instr =
    | IChar(c: int)
    | IChar32(c: int)
    | IDot
    | IAny
    | ILineStart
    | ILineEnd
    | IGoto(off: int)
    | ISplit(nextFirst: bool, off: int)
    | IMatch
    | ISave(end: bool, n: int)
    | ISaveReset(first: int, last: int)
    | ILoop(off: int)
    | IPushI32(v: int)
    | IDrop
    | IWordBoundary(negated: bool)
    | IBackReference(backward: bool, n: int)
    | IRange(tab: seq<int>)
    | IRange32(tab: seq<int>)
    | ILookahead(negative: bool, off: int)
    | IPushCharPos
    | IBneCharPos(off: int)
    | IPrev
    | ISimpleGreedyQuant(off: int, min: int, max: int, count: int)

  const CAPTURE_COUNT_MAX: int := 255

  /** Every operand fits the field it is stored in; capture numbers also respect the compiler's limit. */
  predicate Encodable(i: Instr) {
    match i
    case IChar(c) => IsU16(c)
    case IChar32(c) => IsU32(c)
    case IGoto(d) => IsS32(d)
    case ISplit(_, d) => IsS32(d)
    case ISave(_, n) => 0 <= n < CAPTURE_COUNT_MAX
    case ISaveReset(a, b) => 0 <= a < CAPTURE_COUNT_MAX && 0 <= b < CAPTURE_COUNT_MAX
    case ILoop(d) => IsS32(d)
    case IPushI32(v) => IsU32(v)
    case IBackReference(_, n) => 0 <= n < CAPTURE_COUNT_MAX
    case IRange(t) => t != [] && |t| % 2 == 0 && IsU16(|t| / 2) && AllU16(t)
    case IRange32(t) => t != [] && |t| % 2 == 0 && IsU16(|t| / 2) && AllU32(t)
    case ILookahead(_, d) => IsS32(d)
    case IBneCharPos(d) => IsS32(d)
    case ISimpleGreedyQuant(d, lo, hi, n) => IsS32(d) && IsU32(lo) && IsU32(hi) && IsU32(n)
    case _ => true
  }

  function Size(i: Instr): (n: nat)
    ensures n >= 1
  {
    match i
    case IChar(_) => 3
    case IChar32(_) => 5
    case IGoto(_) => 5
    case ISplit(_, _) => 5
    case ISave(_, _) => 2
    case ISaveReset(_, _) => 3
    case ILoop(_) => 5
    case IPushI32(_) => 5
    case IBackReference(_, _) => 2
    case IRange(t) => 3 + 2 * |t|
    case IRange32(t) => 3 + 4 * |t|
    case ILookahead(_, _) => 5
    case IBneCharPos(_) => 5
    case ISimpleGreedyQuant(_, _, _, _) => 17
    case _ => 1
  }

  function Op(i: Instr): byte {
    match i
    case IChar(_) => REOP_CHAR
    case IChar32(_) => REOP_CHAR32
    case IDot => REOP_DOT
    case IAny => REOP_ANY
    case ILineStart => REOP_LINE_START
    case ILineEnd => REOP_LINE_END
    case IGoto(_) => REOP_GOTO
    case ISplit(next, _) => if next then REOP_SPLIT_NEXT_FIRST else REOP_SPLIT_GOTO_FIRST
    case IMatch => REOP_MATCH
    case ISave(end, _) => if end then REOP_SAVE_END else REOP_SAVE_START
    case ISaveReset(_, _) => REOP_SAVE_RESET
    case ILoop(_) => REOP_LOOP
    case IPushI32(_) => REOP_PUSH_I32
    case IDrop => REOP_DROP
    case IWordBoundary(neg) => if neg then REOP_NOT_WORD_BOUNDARY else REOP_WORD_BOUNDARY
    case IBackReference(back, _) => if back then REOP_BACKWARD_BACK_REFERENCE else REOP_BACK_REFERENCE
    case IRange(_) => REOP_RANGE
    case IRange32(_) => REOP_RANGE32
    case ILookahead(neg, _) => if neg then REOP_NEGATIVE_LOOKAHEAD else REOP_LOOKAHEAD
    case IPushCharPos => REOP_PUSH_CHAR_POS
    case IBneCharPos(_) => REOP_BNE_CHAR_POS
    case IPrev => REOP_PREV
    case ISimpleGreedyQuant(_, _, _, _) => REOP_SIMPLE_GREEDY_QUANT
  }

  /** The operand bytes, everything after the opcode. */
  function Operands(i: Instr): (s: seq<byte>)
    requires Encodable(i)
    ensures |s| == Size(i) - 1
  {
    match i
    case IChar(c) => PutU16(c)
    case IChar32(c) => PutU32(c)
    case IGoto(d) => PutU32(ToU32(d))
    case ISplit(_, d) => PutU32(ToU32(d))
    case ISave(_, n) => [n]
    case ISaveReset(a, b) => [a, b]
    case ILoop(d) => PutU32(ToU32(d))
    case IPushI32(v) => PutU32(v)
    case IBackReference(_, n) => [n]
    case IRange(t) => PutU16(|t| / 2) + PutTable16(t)
    case IRange32(t) => PutU16(|t| / 2) + PutTable32(t)
    case ILookahead(_, d) => PutU32(ToU32(d))
    case IBneCharPos(d) => PutU32(ToU32(d))
    case ISimpleGreedyQuant(d, lo, hi, n) => PutU32(ToU32(d)) + (PutU32(lo) + (PutU32(hi) + PutU32(n)))
    case _ => []
  }

  function Enc(i: Instr): (s: seq<byte>)
    requires Encodable(i)
    ensures |s| == Size(i) && s[0] == Op(i)
  {
    [Op(i)] + Operands(i)
  }

  datatype Option<+T> = None | Some(value: T)

  /** Decoding of an instruction whose only operand is a 32-bit word. */
  function Decode32(op: byte, v: int): (r: Option<Instr>)
    requires IsU32(v)
    ensures r.Some? ==> !r.value.ISimpleGreedyQuant?
  {
    var d := ToS32(v);
    if op == REOP_CHAR32 then Some(IChar32(v))
    else if op == REOP_GOTO then Some(IGoto(d))
    else if op == REOP_SPLIT_GOTO_FIRST then Some(ISplit(false, d))
    else if op == REOP_SPLIT_NEXT_FIRST then Some(ISplit(true, d))
    else if op == REOP_LOOP then Some(ILoop(d))
    else if op == REOP_PUSH_I32 then Some(IPushI32(v))
    else if op == REOP_LOOKAHEAD then Some(ILookahead(false, d))
    else if op == REOP_NEGATIVE_LOOKAHEAD then Some(ILookahead(true, d))
    else if op == REOP_BNE_CHAR_POS then Some(IBneCharPos(d))
    else None
  }

  predicate Is32(op: byte) {
    op in [REOP_CHAR32, REOP_GOTO, REOP_SPLIT_GOTO_FIRST, REOP_SPLIT_NEXT_FIRST, REOP_LOOP, REOP_PUSH_I32,
           REOP_LOOKAHEAD, REOP_NEGATIVE_LOOKAHEAD, REOP_BNE_CHAR_POS]
  }

  /** Instructions without operands. */
  function Decode0(op: byte): (r: Option<Instr>)
    ensures r.Some? ==> !r.value.ISimpleGreedyQuant?
  {
    if op == REOP_DOT then Some(IDot)
    else if op == REOP_ANY then Some(IAny)
    else if op == REOP_LINE_START then Some(ILineStart)
    else if op == REOP_LINE_END then Some(ILineEnd)
    else if op == REOP_MATCH then Some(IMatch)
    else if op == REOP_DROP then Some(IDrop)
    else if op == REOP_WORD_BOUNDARY then Some(IWordBoundary(false))
    else if op == REOP_NOT_WORD_BOUNDARY then Some(IWordBoundary(true))
    else if op == REOP_PUSH_CHAR_POS then Some(IPushCharPos)
    else if op == REOP_PREV then Some(IPrev)
    else None
  }

  /** Instructions with one or two byte operands. */
  function Decode8(op: byte, code: seq<byte>, pc: nat): (r: Option<Instr>)
    requires pc < |code|
    ensures r.Some? ==> !r.value.ISimpleGreedyQuant?
  {
    if pc + 2 > |code| then None
    else if op == REOP_SAVE_START then Some(ISave(false, code[pc + 1]))
    else if op == REOP_SAVE_END then Some(ISave(true, code[pc + 1]))
    else if op == REOP_BACK_REFERENCE then Some(IBackReference(false, code[pc + 1]))
    else if op == REOP_BACKWARD_BACK_REFERENCE then Some(IBackReference(true, code[pc + 1]))
    else if pc + 3 > |code| then None
    else if op == REOP_SAVE_RESET then Some(ISaveReset(code[pc + 1], code[pc + 2]))
    else if op == REOP_CHAR then Some(IChar(GetU16(code, pc + 1)))
    else None
  }

  /** Instructions followed by a table of bounds, which must not be empty. */
  function DecodeTable(op: byte, code: seq<byte>, pc: nat): (r: Option<Instr>)
    requires pc < |code|
    ensures r.Some? ==> !r.value.ISimpleGreedyQuant?
  {
    if pc + 3 > |code| then None
    else
      var n := GetU16(code, pc + 1);
      if n == 0 then None
      else if op == REOP_RANGE && pc + 3 + 4 * n <= |code| then Some(IRange(GetTable16(code, pc + 3, 2 * n)))
      else if op == REOP_RANGE32 && pc + 3 + 8 * n <= |code| then Some(IRange32(GetTable32(code, pc + 3, 2 * n)))
      else None
  }

  /** The instruction at 'pc', or None when the bytes there are not one. */
  function Decode(code: seq<byte>, pc: int): (r: Option<Instr>) {
    if !(0 <= pc < |code|) then None
    else
      var op := code[pc];
      if Decode0(op).Some? then Decode0(op)
      else if Is32(op) then (if pc + 5 <= |code| then Decode32(op, GetU32(code, pc + 1)) else None)
      else if op == REOP_RANGE || op == REOP_RANGE32 then DecodeTable(op, code, pc)
      else if op == REOP_SIMPLE_GREEDY_QUANT then
        if pc + 17 <= |code| then
          Some(ISimpleGreedyQuant(ToS32(GetU32(code, pc + 1)), GetU32(code, pc + 5),
                                  GetU32(code, pc + 9), GetU32(code, pc + 13)))
        else None
      else Decode8(op, code, pc)
  }

  lemma OperandsAt(code: seq<byte>, pc: int, i: Instr)
    requires Encodable(i) && At(code, pc, Enc(i))
    ensures 0 <= pc && pc + Size(i) <= |code| && code[pc] == Op(i) && At(code, pc + 1, Operands(i))
  {
    AtConcat(code, pc, [Op(i)], Operands(i));
    AtIndex(code, pc, [Op(i)], 0);
  }

  lemma DecodeQuantOperands(code: seq<byte>, pc: nat, d: int, lo: int, hi: int, n: int)
    requires IsU32(d) && IsU32(lo) && IsU32(hi) && IsU32(n)
    requires At(code, pc, PutU32(d) + (PutU32(lo) + (PutU32(hi) + PutU32(n))))
    ensures pc + 16 <= |code|
    ensures GetU32(code, pc) == d && GetU32(code, pc + 4) == lo
    ensures GetU32(code, pc + 8) == hi && GetU32(code, pc + 12) == n
  {
    AtConcat(code, pc, PutU32(d), PutU32(lo) + (PutU32(hi) + PutU32(n)));
    AtConcat(code, pc + 4, PutU32(lo), PutU32(hi) + PutU32(n));
    AtConcat(code, pc + 8, PutU32(hi), PutU32(n));
    GetAfterPut32(code, pc, d);
    GetAfterPut32(code, pc + 4, lo);
    GetAfterPut32(code, pc + 8, hi);
    GetAfterPut32(code, pc + 12, n);
  }

  lemma DecodeTable16(code: seq<byte>, pc: nat, i: Instr)
    requires Encodable(i) && i.IRange? && At(code, pc, Enc(i))
    ensures Decode(code, pc) == Some(i)
  {
    hide PutU16, PutTable16, GetTable16, GetU16, AllU16;
    OperandsAt(code, pc, i);
    var n := |i.tab| / 2;
    AtConcat(code, pc + 1, PutU16(n), PutTable16(i.tab));
    GetAfterPutTable16(code, pc + 3, i.tab);
    GetAfterPut16(code, pc + 1, n);
  }

  lemma DecodeTable32(code: seq<byte>, pc: nat, i: Instr)
    requires Encodable(i) && i.IRange32? && At(code, pc, Enc(i))
    ensures Decode(code, pc) == Some(i)
  {
    hide PutU16, PutTable32, GetTable32, GetU16, AllU32;
    OperandsAt(code, pc, i);
    var n := |i.tab| / 2;
    AtConcat(code, pc + 1, PutU16(n), PutTable32(i.tab));
    GetAfterPutTable32(code, pc + 3, i.tab);
    GetAfterPut16(code, pc + 1, n);
  }

  lemma Decode32Operand(code: seq<byte>, pc: nat, i: Instr, v: int)
    requires Encodable(i) && At(code, pc, Enc(i)) && Is32(Op(i))
    requires IsU32(v) && Operands(i) == PutU32(v)
    ensures pc + 5 <= |code| && Decode(code, pc) == Decode32(Op(i), v)
  {
    OperandsAt(code, pc, i);
    GetAfterPut32(code, pc + 1, v);
  }

  /** Round trip: the decoder reads back every instruction the compiler writes. */
  lemma DecodeEnc(code: seq<byte>, pc: int, i: Instr)
    requires Encodable(i) && At(code, pc, Enc(i))
    ensures Decode(code, pc) == Some(i) && 0 <= pc && pc + Size(i) <= |code|
  {
    OperandsAt(code, pc, i);
    match i
    case IRange(_) => DecodeTable16(code, pc, i);
    case IRange32(_) => DecodeTable32(code, pc, i);
    case ISimpleGreedyQuant(d, lo, hi, n) => DecodeQuantOperands(code, pc + 1, ToU32(d), lo, hi, n);
    case IChar32(c) => Decode32Operand(code, pc, i, c);
    case IPushI32(v) => Decode32Operand(code, pc, i, v);
    case IGoto(d) => Decode32Operand(code, pc, i, ToU32(d));
    case ISplit(_, d) => Decode32Operand(code, pc, i, ToU32(d));
    case ILoop(d) => Decode32Operand(code, pc, i, ToU32(d));
    case ILookahead(_, d) => Decode32Operand(code, pc, i, ToU32(d));
    case IBneCharPos(d) => Decode32Operand(code, pc, i, ToU32(d));
    case IChar(c) => GetAfterPut16(code, pc + 1, c);
    case ISave(_, n) => AtIndex(code, pc + 1, Operands(i), 0);
    case IBackReference(_, n) => AtIndex(code, pc + 1, Operands(i), 0);
    case ISaveReset(a, b) => AtIndex(code, pc + 1, Operands(i), 0); AtIndex(code, pc + 1, Operands(i), 1);
    case _ =>
  }
}
