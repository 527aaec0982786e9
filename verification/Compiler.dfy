/**
 The compiler: byte code is appended, shifted to make room in the middle, and
 patched in place while the pattern is parsed.
 */
module Compiler {
  import opened Bytes
  import opened Opcodes
  import opened Pattern
  import opened Codegen
  import opened CodegenFacts
  import opened CharRange
  import opened Adequacy
  import opened Scans
  import opened Image

  /** What the parser can hand over; the number of ranges of a class is not yet checked. */
  predicate Parsed(p: Node) {
    match p
    case Char(c) => IsCodePoint(c)
    case Class(t) => SortedPoints(t)
    case BackReference(n) => n < CAPTURE_COUNT_MAX
    case Cat(a, b) => Parsed(a) && Parsed(b)
    case Alt(a, b) => Parsed(a) && Parsed(b)
    case Capture(a) => Parsed(a)
    case Look(_, _, a) => Parsed(a)
    case Quant(a, min, max, _) => Parsed(a) && min <= max <= INT32_MAX
    case _ => true
  }

  /** Bytes the buffer may need while 'p' is compiled; a quantifier {0} emits its body and takes it back. */
  ghost function Space(e: Env, p: Node, back: bool, cc: nat): (n: nat)
    requires Parsed(p)
  {
    match p
    case Cat(a, b) => Space(e, a, back, cc) + Space(e, b, back, cc + Caps(a))
    case Alt(a, b) => Space(e, a, back, cc) + Space(e, b, back, cc + Caps(a)) + 10
    case Capture(a) => Space(e, a, back, cc + 1) + 4
    case Look(_, backward, a) => Space(e, a, backward, cc) + 6
    case Quant(a, _, _, _) => Max(Space(e, a, back, cc), if WellFormed(p) then ByteLen(Code(e, p, back, cc)) else 0)
    case _ => if WellFormed(p) then ByteLen(Code(e, p, back, cc)) else 0
  }

  lemma {:induction false} SpaceCovers(e: Env, p: Node, back: bool, cc: nat)
    requires Parsed(p) && WellFormed(p)
    ensures ByteLen(Code(e, p, back, cc)) <= Space(e, p, back, cc)
  {
    hide ByteLen, Code;
    CodeLen(e, p, back, cc);
    match p
    case Cat(a, b) => SpaceCovers(e, a, back, cc); SpaceCovers(e, b, back, cc + Caps(a));
    case Alt(a, b) => SpaceCovers(e, a, back, cc); SpaceCovers(e, b, back, cc + Caps(a));
    case Capture(a) => SpaceCovers(e, a, back, cc + 1);
    case Look(_, backward, a) => SpaceCovers(e, a, backward, cc);
    case _ =>
  }

  ghost predicate Accepted(p: Node, cc: nat) { WellFormed(p) && cc + Caps(p) <= CAPTURE_COUNT_MAX }

  // ---- byte sequences of the composed forms ----

  lemma EncWrap(i: Instr, a: seq<Instr>, j: Instr)
    requires Encodable(i) && EncodableAll(a) && Encodable(j)
    ensures EncodableAll([i] + a + [j]) && EncAll([i] + a + [j]) == Enc(i) + EncAll(a) + Enc(j)
  {
    hide EncAll, Enc;
    EncOne(i);
    EncOne(j);
    EncAllConcat([i], a);
    EncAllConcat([i] + a, [j]);
  }

  lemma EncTwo(i: Instr, j: Instr)
    requires Encodable(i) && Encodable(j)
    ensures EncodableAll([i, j]) && EncAll([i, j]) == Enc(i) + Enc(j)
  {
    hide EncAll, Enc;
    EncOne(i);
    EncOne(j);
    assert [i, j] == [i] + [j];
    EncAllConcat([i], [j]);
  }

  lemma EncBetween(h: seq<Instr>, a: seq<Instr>, t: seq<Instr>)
    requires EncodableAll(h) && EncodableAll(a) && EncodableAll(t)
    ensures EncodableAll(h + a + t) && EncAll(h + a + t) == EncAll(h) + EncAll(a) + EncAll(t)
  {
    hide EncAll;
    EncAllConcat(h, a);
    EncAllConcat(h + a, t);
  }

  function SplitOp(greedy: bool): (op: byte) { if greedy then REOP_SPLIT_NEXT_FIRST else REOP_SPLIT_GOTO_FIRST }

  /** Opcode and 32-bit operand of a jump. */
  function Jump(op: byte, d: int): (b: seq<byte>)
    requires IsS32(d)
    ensures |b| == 5
  {
    [op] + PutU32(ToU32(d))
  }

  /** Opcode and unsigned 32-bit operand. */
  function Word(op: byte, v: int): (b: seq<byte>)
    requires IsU32(v)
    ensures |b| == 5
  {
    [op] + PutU32(v)
  }

  lemma ForwardJump(op: byte, d: int)
    requires 0 <= d < TWO31
    ensures Word(op, d) == Jump(op, d)
  {
  }

  lemma JumpBytes(greedy: bool, d: int)
    requires IsS32(d)
    ensures Enc(ISplit(greedy, d)) == Jump(SplitOp(greedy), d) && Enc(IGoto(d)) == Jump(REOP_GOTO, d)
    ensures Enc(ILoop(d)) == Jump(REOP_LOOP, d) && Enc(IBneCharPos(d)) == Jump(REOP_BNE_CHAR_POS, d)
  {
    hide PutU32;
  }

  lemma PlainBytes(n: int)
    requires IsU32(n)
    ensures Enc(IPushCharPos) == [REOP_PUSH_CHAR_POS] && Enc(IDrop) == [REOP_DROP] && Enc(IMatch) == [REOP_MATCH]
    ensures Enc(IPushI32(n)) == Word(REOP_PUSH_I32, n)
  {
    hide PutU32;
  }

  lemma EncPlainStar(a: seq<Instr>, greedy: bool)
    requires EncodableAll(a) && ByteLen(a) + 11 < TWO31
    ensures EncodableAll(StarCode(a, greedy, false))
    ensures var len: int := ByteLen(a);
            EncAll(StarCode(a, greedy, false)) ==
            Word(SplitOp(greedy), len + 5) + EncAll(a) + Jump(REOP_GOTO, -(len + 10))
  {
    hide EncAll, Enc, ByteLen, Jump, Word;
    var len: int := ByteLen(a);
    ForwardJump(SplitOp(greedy), len + 5);
    JumpBytes(greedy, len + 5);
    JumpBytes(greedy, -(len + 10));
    EncWrap(ISplit(greedy, len + 5), a, IGoto(-(len + 10)));
  }

  lemma EncTestedStar(a: seq<Instr>, greedy: bool)
    requires EncodableAll(a) && ByteLen(a) + 11 < TWO31
    ensures EncodableAll(StarCode(a, greedy, true))
    ensures var len: int := ByteLen(a);
            EncAll(StarCode(a, greedy, true)) ==
            Word(SplitOp(greedy), len + 6) + [REOP_PUSH_CHAR_POS] + EncAll(a) + Jump(REOP_BNE_CHAR_POS, -(len + 11))
  {
    hide EncAll, Enc, ByteLen, EncodableAll, Jump, Word;
    var len: int := ByteLen(a);
    TestedEnds(greedy, len + 6, -(len + 11));
    EncBetween([ISplit(greedy, len + 6), IPushCharPos], a, [IBneCharPos(-(len + 11))]);
  }

  /** The instructions around the body of a tested loop. */
  lemma TestedEnds(greedy: bool, d: int, b: int)
    requires 0 <= d < TWO31 && IsS32(b)
    ensures EncodableAll([ISplit(greedy, d), IPushCharPos]) && EncodableAll([IBneCharPos(b)])
    ensures EncAll([ISplit(greedy, d), IPushCharPos]) == Word(SplitOp(greedy), d) + [REOP_PUSH_CHAR_POS]
    ensures EncAll([IBneCharPos(b)]) == Jump(REOP_BNE_CHAR_POS, b)
  {
    hide EncAll, Enc, EncodableAll, Jump, Word;
    ForwardJump(SplitOp(greedy), d);
    JumpBytes(greedy, d);
    JumpBytes(greedy, b);
    PlainBytes(0);
    EncTwo(ISplit(greedy, d), IPushCharPos);
    EncOne(IBneCharPos(b));
  }

  lemma EncUpTo(a: seq<Instr>, n: int, greedy: bool)
    requires EncodableAll(a) && ByteLen(a) + 16 < TWO31 && IsU32(n)
    ensures EncodableAll(UpToCode(a, n, greedy))
    ensures var len: int := ByteLen(a);
            EncAll(UpToCode(a, n, greedy)) ==
            Word(REOP_PUSH_I32, n) + Word(SplitOp(greedy), len + 5) + EncAll(a) +
            (Jump(REOP_LOOP, -(len + 10)) + [REOP_DROP])
  {
    hide EncAll, Enc, ByteLen, EncodableAll, Jump, Word;
    var len: int := ByteLen(a);
    ForwardJump(SplitOp(greedy), len + 5);
    JumpBytes(greedy, len + 5);
    JumpBytes(greedy, -(len + 10));
    PlainBytes(n);
    EncTwo(IPushI32(n), ISplit(greedy, len + 5));
    EncTwo(ILoop(-(len + 10)), IDrop);
    EncBetween([IPushI32(n), ISplit(greedy, len + 5)], a, [ILoop(-(len + 10)), IDrop]);
  }

  lemma EncExactly(a: seq<Instr>, n: int)
    requires EncodableAll(a) && ByteLen(a) + 11 < TWO31 && IsU32(n)
    ensures EncodableAll(ExactlyCode(a, n))
    ensures var len: int := ByteLen(a);
            EncAll(ExactlyCode(a, n)) ==
            Word(REOP_PUSH_I32, n) + EncAll(a) + (Jump(REOP_LOOP, -(len + 5)) + [REOP_DROP])
  {
    hide EncAll, Enc, ByteLen, EncodableAll, Jump, Word;
    var len: int := ByteLen(a);
    JumpBytes(true, -(len + 5));
    PlainBytes(n);
    EncOne(IPushI32(n));
    EncTwo(ILoop(-(len + 5)), IDrop);
    EncBetween([IPushI32(n)], a, [ILoop(-(len + 5)), IDrop]);
  }

  class REParseState {
    var byteCode: seq<byte>
    var captureCount: nat
    const e: Env

    constructor (e: Env)
      ensures byteCode == [] && captureCount == 1 && this.e == e
    {
      byteCode := [];
      captureCount := 1;
      this.e := e;
    }

    // ---- the header ----

    /** Flags, and zeros until the rest is known. */
    method PutHeader(reFlags: byte)
      requires byteCode == []
      modifies this`byteCode
      ensures byteCode == Header(reFlags, 0, 0, 0)
    {
      byteCode := byteCode + [reFlags];
      byteCode := byteCode + [0];
      byteCode := byteCode + [0];
      byteCode := byteCode + PutU32(0);
    }

    method StoreHeader(stackSize: byte, ghost reFlags: byte, ghost code: seq<byte>)
      requires byteCode == Header(reFlags, 0, 0, 0) + code && captureCount <= CAPTURE_COUNT_MAX && |code| < TWO31
      modifies this`byteCode
      ensures byteCode == Header(reFlags, captureCount, stackSize, |code|) + code
    {
      hide PutU32;
      Store(RE_HEADER_CAPTURE_COUNT, [captureCount]);
      Store(RE_HEADER_STACK_SIZE, [stackSize]);
      assert byteCode == [reFlags, captureCount, stackSize] + PutU32(0) + code;
      Store(3, PutU32(|byteCode| - RE_HEADER_LEN));
    }

    // ---- appending ----

    method EmitOp(op: byte)
      modifies this`byteCode
      ensures byteCode == old(byteCode) + [op]
    {
      byteCode := byteCode + [op];
    }

    /** Returns the offset of the 32-bit operand. */
    method EmitOpU32(op: byte, val: int) returns (pos: nat)
      requires IsU32(val)
      modifies this`byteCode
      ensures byteCode == old(byteCode) + Word(op, val) && pos == |old(byteCode)| + 1
    {
      EmitOp(op);
      pos := |byteCode|;
      byteCode := byteCode + PutU32(val);
    }

    /** A jump back to 'target': the distance counts from the end of the instruction, modulo 2^32. */
    method EmitGoto(op: byte, target: nat)
      requires target <= |byteCode| && |byteCode| + 5 < TWO31
      modifies this`byteCode
      ensures byteCode == old(byteCode) + Jump(op, target - (|old(byteCode)| + 5))
    {
      EmitOp(op);
      var pos := |byteCode|;
      byteCode := byteCode + PutU32((target - (pos + 4)) % TWO32);
    }

    method EmitOpU8(op: byte, val: byte)
      modifies this`byteCode
      ensures byteCode == old(byteCode) + [op, val]
    {
      EmitOp(op);
      byteCode := byteCode + [val];
    }

    method EmitOpU16(op: byte, val: int)
      requires IsU16(val)
      modifies this`byteCode
      ensures byteCode == old(byteCode) + ([op] + PutU16(val))
    {
      EmitOp(op);
      byteCode := byteCode + PutU16(val);
    }

    /** Append a copy of a stretch of the buffer itself. */
    method DbufPutSelf(offset: nat, len: nat)
      requires offset + len <= |byteCode|
      modifies this`byteCode
      ensures byteCode == old(byteCode) + old(byteCode)[offset..offset + len]
    {
      byteCode := byteCode + byteCode[offset..offset + len];
    }

    /** Move the bytes from 'termStart' on in front of those from 'start' on. */
    method Rotate(start: nat, termStart: nat, ghost was: seq<byte>, ghost a: seq<byte>, ghost b: seq<byte>)
      requires byteCode == was + a + b && start == |was| && termStart == start + |a|
      modifies this`byteCode
      ensures byteCode == was + b + a
    {
      var end := |byteCode|;
      var termSize := end - termStart;
      // A gap of the size of the term opens at 'start', and the term, now past 'end', is copied into it.
      ghost var gap := DbufInsert(start, termSize);
      assert byteCode == was + gap + (a + b);
      var term := byteCode[end..end + termSize];
      assert term == b;
      Store(start, term);
      assert byteCode == was + b + (a + b);
      byteCode := byteCode[..end];
    }

    // ---- making room and patching ----

    /** Shift everything from 'pos' up by 'len' bytes; the gap keeps stale bytes, about which nothing is said. */
    method DbufInsert(pos: nat, len: nat) returns (ghost gap: seq<byte>)
      requires pos <= |byteCode|
      modifies this`byteCode
      ensures |gap| == len && byteCode == old(byteCode)[..pos] + gap + old(byteCode)[pos..]
    {
      var stale: seq<byte> := seq(len, i => 0);
      gap := stale;
      byteCode := byteCode[..pos] + stale + byteCode[pos..];
    }

    /** Overwrite bytes in place. */
    method Store(pos: nat, bytes: seq<byte>)
      requires pos + |bytes| <= |byteCode|
      modifies this`byteCode
      ensures byteCode == old(byteCode)[..pos] + bytes + old(byteCode)[pos + |bytes|..]
    {
      byteCode := byteCode[..pos] + bytes + byteCode[pos + |bytes|..];
    }

    /** The same, when what surrounds the gap is known. */
    method Fill(pos: nat, bytes: seq<byte>, ghost pre: seq<byte>, ghost gap: seq<byte>, ghost post: seq<byte>)
      returns (ghost rest: seq<byte>)
      requires byteCode == pre + gap + post && pos == |pre| && |bytes| <= |gap|
      modifies this`byteCode
      ensures byteCode == (pre + bytes) + rest + post && |rest| == |gap| - |bytes|
    {
      Store(pos, bytes);
      rest := gap[|bytes|..];
    }

    /** Room for one instruction in front of what starts at 'pos', opcode and operand stored into the gap. */
    method InsertOpU32(pos: nat, op: byte, val: int, ghost pre: seq<byte>, ghost post: seq<byte>)
      requires byteCode == pre + post && pos == |pre| && IsU32(val)
      modifies this`byteCode
      ensures byteCode == pre + Word(op, val) + post
    {
      hide PutU32;
      ghost var gap := DbufInsert(pos, 5);
      assert byteCode == pre + gap + post;
      gap := Fill(pos, [op], pre, gap, post);
      gap := Fill(pos + 1, PutU32(val), pre + [op], gap, post);
      assert pre + [op] + PutU32(val) + gap + post == pre + ([op] + PutU32(val)) + post;
    }

    /** Overwrite the operand of an instruction that was emitted before its target was known. */
    method PatchU32(pos: nat, val: int, op: byte, was: int, ghost pre: seq<byte>, ghost post: seq<byte>)
      requires IsU32(was) && IsU32(val) && byteCode == pre + Word(op, was) + post && pos == |pre| + 1
      modifies this`byteCode
      ensures byteCode == pre + Word(op, val) + post
    {
      hide PutU32;
      Store(pos, PutU32(val));
      assert byteCode == (pre + [op]) + PutU32(val) + post;
      assert pre + [op] + PutU32(val) == pre + ([op] + PutU32(val));
    }

    /** The buffer is a fixed part followed by the code of the atom being quantified. */
    ghost predicate Holds(pre: seq<byte>, a: seq<Instr>)
      reads this
    {
      EncodableAll(a) && byteCode == pre + EncAll(a)
    }

    // ---- quantifiers ----

    /** Straight-line atom: terminate it with 'match' and put the one fast opcode in front. */
    method PutSimpleQuant(atom: nat, quantMin: nat, quantMax: nat, len: int, ghost pre: seq<byte>, ghost a: seq<Instr>)
      requires Holds(pre, a) && atom == |pre| && len == SimpleCount(a) > 0
      requires quantMin <= quantMax <= INT32_MAX && ByteLen(a) + 18 < TWO31
      modifies this`byteCode
      ensures Holds(pre, SimpleQuantCode(a, quantMin, quantMax))
    {
      hide EncAll, SimpleCount, PutU32, ByteLen, EncodableAll;
      LenAtLeast(a);
      EmitOp(REOP_MATCH);
      ghost var body := EncAll(a) + [REOP_MATCH];
      assert byteCode == pre + body;
      ghost var gap := DbufInsert(atom, 17);
      assert byteCode == pre + gap + body;
      var pos := atom;
      gap := Fill(pos, [REOP_SIMPLE_GREEDY_QUANT], pre, gap, body);
      pos := pos + 1;
      var next := |byteCode| - atom - 17;
      PutQuantFields(pos, next, quantMin, quantMax, len, pre + [REOP_SIMPLE_GREEDY_QUANT], gap, body);
      EncSimpleQuant(a, quantMin, quantMax);
      QuantFieldBytes(next, quantMin, quantMax, len);
      Regroup(pre, [REOP_SIMPLE_GREEDY_QUANT], QuantFields(next, quantMin, quantMax, len), EncAll(a), [REOP_MATCH]);
    }

    method PutQuantFields(pos: nat, next: int, quantMin: int, quantMax: int, len: int,
                          ghost pre: seq<byte>, ghost gap: seq<byte>, ghost post: seq<byte>)
      requires byteCode == pre + gap + post && |pre| == pos && |gap| == 16
      requires IsU32(next) && IsU32(quantMin) && IsU32(quantMax) && IsU32(len)
      modifies this`byteCode
      ensures byteCode == pre + QuantFields(next, quantMin, quantMax, len) + post
    {
      hide PutU32;
      var a, b, c, d := PutU32(next), PutU32(quantMin), PutU32(quantMax), PutU32(len);
      ghost var gap1 := Fill(pos, a, pre, gap, post);
      ghost var gap2 := Fill(pos + 4, b, pre + a, gap1, post);
      ghost var gap3 := Fill(pos + 8, c, pre + a + b, gap2, post);
      ghost var gap4 := Fill(pos + 12, d, pre + a + b + c, gap3, post);
      assert pre + a + b + c + d + gap4 + post == pre + (a + b + c + d) + post;
    }

    /** Split in front, jump back behind; with the zero-advance test also a push and a compare. */
    method WrapInStar(atom: nat, greedy: bool, test: bool, ghost pre: seq<byte>, ghost a: seq<Instr>)
      requires Holds(pre, a) && atom == |pre| && |pre| + ByteLen(a) + 11 < TWO31
      modifies this`byteCode
      ensures Holds(pre, StarCode(a, greedy, test))
    {
      hide EncAll, StarCode, ByteLen, EncodableAll, Word, Jump, PutU32;
      ghost var body := EncAll(a);
      var len := |byteCode| - atom;
      if test {
        EncTestedStar(a, greedy);
        InsertSplitAndPush(atom, SplitOp(greedy), len + 5 + 1, pre, body);
        EmitGoto(REOP_BNE_CHAR_POS, atom);
        Regroup(pre, Word(SplitOp(greedy), len + 6), [REOP_PUSH_CHAR_POS], body, Jump(REOP_BNE_CHAR_POS, -(len + 11)));
      } else {
        EncPlainStar(a, greedy);
        InsertOpU32(atom, SplitOp(greedy), len + 5, pre, body);
        EmitGoto(REOP_GOTO, atom);
        Regroup(pre, Word(SplitOp(greedy), len + 5), [], body, Jump(REOP_GOTO, -(len + 10)));
      }
    }

    method InsertSplitAndPush(atom: nat, op: byte, val: int, ghost pre: seq<byte>, ghost body: seq<byte>)
      requires byteCode == pre + body && atom == |pre| && IsU32(val)
      modifies this`byteCode
      ensures byteCode == pre + Word(op, val) + [REOP_PUSH_CHAR_POS] + body
    {
      hide PutU32;
      ghost var gap := DbufInsert(atom, 5 + 1);
      assert byteCode == pre + gap + body;
      gap := Fill(atom, [op], pre, gap, body);
      gap := Fill(atom + 1, PutU32(val), pre + [op], gap, body);
      gap := Fill(atom + 1 + 4, [REOP_PUSH_CHAR_POS], pre + [op] + PutU32(val), gap, body);
      assert pre + [op] + PutU32(val) == pre + ([op] + PutU32(val));
    }

    /** A counter, a split in front of the atom, the countdown and the drop behind. */
    method WrapInUpTo(atom: nat, quantMax: nat, greedy: bool, ghost pre: seq<byte>, ghost a: seq<Instr>)
      requires Holds(pre, a) && atom == |pre| && quantMax <= INT32_MAX && |pre| + ByteLen(a) + 16 < TWO31
      modifies this`byteCode
      ensures Holds(pre, UpToCode(a, quantMax, greedy))
    {
      hide EncAll, UpToCode, ByteLen, EncodableAll, Word, Jump, PutU32;
      ghost var body := EncAll(a);
      var len := |byteCode| - atom;
      EncUpTo(a, quantMax, greedy);
      InsertPushAndSplit(atom, quantMax, SplitOp(greedy), len + 5, pre, body);
      EmitGoto(REOP_LOOP, atom + 5);
      ghost var loop := Jump(REOP_LOOP, -(len + 10));
      EmitOp(REOP_DROP);
      Regroup(pre, Word(REOP_PUSH_I32, quantMax), Word(SplitOp(greedy), len + 5), body, loop + [REOP_DROP]);
      assert pre + Word(REOP_PUSH_I32, quantMax) + Word(SplitOp(greedy), len + 5) + body + loop + [REOP_DROP]
          == pre + Word(REOP_PUSH_I32, quantMax) + Word(SplitOp(greedy), len + 5) + body + (loop + [REOP_DROP]);
    }

    method InsertPushAndSplit(atom: nat, quantMax: int, op: byte, val: int, ghost pre: seq<byte>, ghost body: seq<byte>)
      requires byteCode == pre + body && atom == |pre| && IsU32(val) && IsU32(quantMax)
      modifies this`byteCode
      ensures byteCode == pre + Word(REOP_PUSH_I32, quantMax) + Word(op, val) + body
    {
      hide PutU32;
      ghost var gap := DbufInsert(atom, 10);
      assert byteCode == pre + gap + body;
      var pos := atom;
      gap := Fill(pos, [REOP_PUSH_I32], pre, gap, body);
      pos := pos + 1;
      gap := Fill(pos, PutU32(quantMax), pre + [REOP_PUSH_I32], gap, body);
      pos := pos + 4;
      ghost var pre1 := pre + Word(REOP_PUSH_I32, quantMax);
      assert pre + [REOP_PUSH_I32] + PutU32(quantMax) == pre1;
      gap := Fill(pos, [op], pre1, gap, body);
      pos := pos + 1;
      gap := Fill(pos, PutU32(val), pre1 + [op], gap, body);
      assert pre1 + [op] + PutU32(val) == pre1 + ([op] + PutU32(val));
    }

    /** The mandatory rounds of a counted quantifier, in place; the atom itself has moved up by five bytes. */
    method WrapInExactly(atom: nat, quantMin: nat, ghost pre: seq<byte>, ghost a: seq<Instr>)
      requires Holds(pre, a) && atom == |pre| && quantMin <= INT32_MAX && |pre| + ByteLen(a) + 11 < TWO31
      modifies this`byteCode
      ensures Holds(pre, ExactlyCode(a, quantMin))
      ensures At(byteCode, atom + 5, EncAll(a))
    {
      hide EncAll, ExactlyCode, ByteLen, EncodableAll, Word, Jump, PutU32, At, Enc;
      ghost var body := EncAll(a);
      EncExactly(a, quantMin);
      InsertOpU32(atom, REOP_PUSH_I32, quantMin, pre, body);
      ghost var push := Word(REOP_PUSH_I32, quantMin);
      EmitGoto(REOP_LOOP, atom + 5);
      ghost var loop := Jump(REOP_LOOP, -(|body| + 5));
      EmitOp(REOP_DROP);
      AtMiddle(pre + push, body, loop + [REOP_DROP]);
      Regroup(pre, push, [], body, loop + [REOP_DROP]);
      assert pre + push + body + loop + [REOP_DROP] == pre + push + body + (loop + [REOP_DROP]);
    }

    /** A second copy of the atom, as an unbounded loop. */
    method AppendStar(atom: nat, len: nat, greedy: bool, test: bool, ghost pre: seq<byte>, ghost a: seq<Instr>)
      requires EncodableAll(a) && At(byteCode, atom, EncAll(a)) && byteCode == pre && len == ByteLen(a)
      requires |pre| + ByteLen(a) + 11 < TWO31
      modifies this`byteCode
      ensures Holds(pre, StarCode(a, greedy, test))
    {
      hide EncAll, StarCode, EncodableAll, ByteLen, Word, Jump, PutU32, At;
      ghost var body := EncAll(a);
      var pos := |byteCode|;
      if test {
        EncTestedStar(a, greedy);
        var _ := EmitOpU32(SplitOp(greedy), len + 5 + 1);
        EmitOp(REOP_PUSH_CHAR_POS);
        KeepsAt(pre, Word(SplitOp(greedy), len + 6) + [REOP_PUSH_CHAR_POS], byteCode, atom, body);
        DbufPutSelf(atom, len);
        EmitGoto(REOP_BNE_CHAR_POS, pos);
        Regroup(pre, Word(SplitOp(greedy), len + 6), [REOP_PUSH_CHAR_POS], body, Jump(REOP_BNE_CHAR_POS, -(len + 11)));
      } else {
        EncPlainStar(a, greedy);
        var _ := EmitOpU32(SplitOp(greedy), len + 5);
        KeepsAt(pre, Word(SplitOp(greedy), len + 5), byteCode, atom, body);
        DbufPutSelf(atom, len);
        EmitGoto(REOP_GOTO, pos);
        Regroup(pre, Word(SplitOp(greedy), len + 5), [], body, Jump(REOP_GOTO, -(len + 10)));
      }
    }

    /** A second copy of the atom, at most 'n' more rounds. */
    method AppendUpTo(atom: nat, len: nat, n: nat, greedy: bool, ghost pre: seq<byte>, ghost a: seq<Instr>)
      requires EncodableAll(a) && At(byteCode, atom, EncAll(a)) && byteCode == pre && len == ByteLen(a)
      requires n <= INT32_MAX && |pre| + ByteLen(a) + 16 < TWO31
      modifies this`byteCode
      ensures Holds(pre, UpToCode(a, n, greedy))
    {
      hide EncAll, UpToCode, EncodableAll, ByteLen, Word, Jump, PutU32, At;
      ghost var body := EncAll(a);
      EncUpTo(a, n, greedy);
      var _ := EmitOpU32(REOP_PUSH_I32, n);
      var pos := |byteCode|;
      var _ := EmitOpU32(SplitOp(greedy), len + 5);
      KeepsAt(pre, Word(REOP_PUSH_I32, n) + Word(SplitOp(greedy), len + 5), byteCode, atom, body);
      DbufPutSelf(atom, len);
      EmitGoto(REOP_LOOP, pos);
      ghost var loop := Jump(REOP_LOOP, -(len + 10));
      EmitOp(REOP_DROP);
      Regroup(pre, Word(REOP_PUSH_I32, n), Word(SplitOp(greedy), len + 5), body, loop + [REOP_DROP]);
      assert pre + Word(REOP_PUSH_I32, n) + Word(SplitOp(greedy), len + 5) + body + loop + [REOP_DROP]
          == pre + Word(REOP_PUSH_I32, n) + Word(SplitOp(greedy), len + 5) + body + (loop + [REOP_DROP]);
    }

    /** Reset of the captures in the atom, in front of it; the atom moves up by three bytes. */
    method InsertReset(atom: nat, first: nat, last: nat, ghost pre: seq<byte>, ghost a: seq<Instr>)
      requires Holds(pre, a) && atom == |pre| && first < CAPTURE_COUNT_MAX && last < CAPTURE_COUNT_MAX
      modifies this`byteCode
      ensures Holds(pre + Enc(ISaveReset(first, last)), a)
    {
      hide EncAll, EncodableAll;
      ghost var body := EncAll(a);
      ghost var gap := DbufInsert(atom, 3);
      assert byteCode == pre + gap + body;
      gap := Fill(atom, [REOP_SAVE_RESET], pre, gap, body);
      gap := Fill(atom + 1, [first], pre + [REOP_SAVE_RESET], gap, body);
      gap := Fill(atom + 2, [last], pre + [REOP_SAVE_RESET] + [first], gap, body);
      assert pre + [REOP_SAVE_RESET] + [first] + [last] + gap == pre + Enc(ISaveReset(first, last));
    }

    /** Minimum 0: the atom becomes optional. */
    method PutOptional(atom: nat, quantMax: nat, greedy: bool, test: bool, ghost pre: seq<byte>, ghost a: seq<Instr>)
      requires Holds(pre, a) && atom == |pre| && quantMax <= INT32_MAX && test == UsesAdvanceTest(a, greedy)
      requires |pre| + ByteLen(a) + 16 < TWO31
      modifies this`byteCode
      ensures Holds(pre, OptionalCode(a, quantMax, greedy))
    {
      hide EncAll, StarCode, UpToCode, ByteLen, EncodableAll, UsesAdvanceTest, Word, Jump;
      var len := |byteCode| - atom;
      if quantMax == 0 {
        byteCode := byteCode[..atom];
        EncNone();
        assert byteCode == pre + [];
      } else if quantMax == 1 {
        InsertOpU32(atom, SplitOp(greedy), len, pre, EncAll(a));
        EncSplit(a, greedy);
        assert pre + Word(SplitOp(greedy), len) + EncAll(a) == pre + (Word(SplitOp(greedy), len) + EncAll(a));
      } else if quantMax == INT32_MAX {
        WrapInStar(atom, greedy, test, pre, a);
      } else {
        WrapInUpTo(atom, quantMax, greedy, pre, a);
      }
    }

    /** The quantifier of a term, once its bounds and greediness are known. */
    method ParseQuantifier(lastAtomStart: nat, lastCaptureCount: nat, quantMin: nat, quantMax: nat, greedy: bool,
                           ghost pre: seq<byte>, ghost a: seq<Instr>)
      requires Holds(pre, a) && lastAtomStart == |pre|
      requires quantMin <= quantMax <= INT32_MAX && lastCaptureCount <= captureCount <= CAPTURE_COUNT_MAX
      requires |pre| + ByteLen(a) + 32 < TWO31
      requires |pre| + ByteLen(QuantCode(a, lastCaptureCount, captureCount - lastCaptureCount,
                                         quantMin, quantMax, greedy)) + 32 < TWO31
      modifies this`byteCode
      ensures Holds(pre, QuantCode(a, lastCaptureCount, captureCount - lastCaptureCount, quantMin, quantMax, greedy))
    {
      hide EncAll, SimpleCount, CheckAdvance, ByteLen, EncodableAll;
      hide SimpleQuantCode, OptionalCode, RestCode, ExactlyCode;
      var atom := lastAtomStart;
      assert byteCode[atom..] == EncAll(a);
      var test := false;
      if greedy {
        if quantMax > 0 {
          var len := ReIsSimpleQuantifier(byteCode[atom..], a);
          if len > 0 {
            PutSimpleQuant(atom, quantMin, quantMax, len, pre, a);
            return;
          }
        }
        var advance := ReCheckAdvance(byteCode[atom..], a);
        test := advance == 0;
      }
      assert test == UsesAdvanceTest(a, greedy) && !UsesSimpleQuant(a, quantMax, greedy);
      if quantMin == 0 {
        PutFromZero(atom, lastCaptureCount, quantMax, greedy, test, pre, a);
      } else if quantMin == 1 && quantMax == INT32_MAX && !test {
        EmitGoto(SplitOp(!greedy), atom);
        EncPlus(a, greedy);
        assert pre + EncAll(a) + Jump(SplitOp(!greedy), -(ByteLen(a) + 5))
            == pre + (EncAll(a) + Jump(SplitOp(!greedy), -(ByteLen(a) + 5)));
      } else {
        RestNeedsRoom(a, quantMin, quantMax, greedy);
        PutFromSome(atom, lastCaptureCount, quantMin, quantMax, greedy, test, pre, a);
      }
    }

    method PutFromZero(atom: nat, lastCaptureCount: nat, quantMax: nat, greedy: bool, test: bool,
                       ghost pre: seq<byte>, ghost a: seq<Instr>)
      requires Holds(pre, a) && atom == |pre| && quantMax <= INT32_MAX && test == UsesAdvanceTest(a, greedy)
      requires lastCaptureCount <= captureCount <= CAPTURE_COUNT_MAX && |pre| + ByteLen(a) + 32 < TWO31
      modifies this`byteCode
      ensures Holds(pre,
                    ResetCode(lastCaptureCount, captureCount - lastCaptureCount) + OptionalCode(a, quantMax, greedy))
    {
      hide EncAll, ByteLen, EncodableAll, OptionalCode, UsesAdvanceTest, Enc;
      ghost var rest := OptionalCode(a, quantMax, greedy);
      ghost var reset := ResetCode(lastCaptureCount, captureCount - lastCaptureCount);
      if lastCaptureCount != captureCount {
        var last := captureCount - 1;
        ghost var op := ISaveReset(lastCaptureCount, last);
        EncOne(op);
        InsertReset(atom, lastCaptureCount, last, pre, a);
        PutOptional(atom + 3, quantMax, greedy, test, pre + Enc(op), a);
        EncPair(reset, rest);
        assert pre + Enc(op) + EncAll(rest) == pre + (Enc(op) + EncAll(rest));
      } else {
        PutOptional(atom, quantMax, greedy, test, pre, a);
        assert [] + rest == rest;
      }
    }

    method PutFromSome(atom: nat, lastCaptureCount: nat, quantMin: nat, quantMax: nat, greedy: bool, test: bool,
                       ghost pre: seq<byte>, ghost a: seq<Instr>)
      requires Holds(pre, a) && atom == |pre| && 0 < quantMin <= quantMax <= INT32_MAX &&
               test == UsesAdvanceTest(a, greedy)
      requires |pre| + ByteLen(a) + 32 < TWO31
      requires HasRest(quantMin, quantMax) ==>
                 |pre| + ByteLen(if quantMin == 1 then a else ExactlyCode(a, quantMin)) + ByteLen(a) + 16 < TWO31
      modifies this`byteCode
      ensures Holds(pre,
                    (if quantMin == 1 then a else ExactlyCode(a, quantMin)) + RestCode(a, quantMin, quantMax, greedy))
    {
      hide EncAll, ByteLen, EncodableAll, StarCode, UpToCode, ExactlyCode, UsesAdvanceTest, At;
      var start, len := atom, |byteCode| - atom;
      ghost var first := if quantMin == 1 then a else ExactlyCode(a, quantMin);
      ghost var rest := RestCode(a, quantMin, quantMax, greedy);
      if quantMin == 1 {
        AtMiddle(pre, EncAll(a), []);
        assert byteCode == pre + EncAll(a) + [];
      } else {
        WrapInExactly(start, quantMin, pre, a);
        start := start + 5;
      }
      ghost var now := byteCode;
      if quantMax == INT32_MAX {
        AppendStar(start, len, greedy, test, now, a);
      } else if quantMax > quantMin {
        AppendUpTo(start, len, quantMax - quantMin, greedy, now, a);
      } else {
        EncNone();
        assert byteCode == now + [];
      }
      EncPair(first, rest);
      assert pre + EncAll(first) + EncAll(rest) == pre + (EncAll(first) + EncAll(rest));
    }

    // ---- character classes ----

    /** Appends the test for a boundary list, as a narrow or a wide table; false when there are too many ranges. */
    method EmitRange(points: seq<int>) returns (ok: bool)
      requires SortedPoints(points)
      modifies this`byteCode
      ensures ok <==> ValidPoints(points)
      ensures ok ==> Encodable(ClassInstr(points)) && byteCode == old(byteCode) + Enc(ClassInstr(points))
    {
      hide Enc, SortedPoints, RangeTable, Encodable;
      var len := |points| / 2;
      if len >= 65535 { return false; }
      assert ValidPoints(points);
      if len == 0 {
        EmptyClass(points);
        var _ := EmitOpU32(REOP_CHAR32, UINT32_MAX);
      } else {
        TableBytes(points);
        EvenLength(points);
        var high := points[|points| - 1];
        if high == UINT32_MAX { high := points[|points| - 2]; }
        assert high == TopPoint(points);
        if high <= 0xffff {
          EmitOpU16(REOP_RANGE, len);
          EmitTable16(points, byteCode);
        } else {
          EmitOpU16(REOP_RANGE32, len);
          EmitTable32(points, byteCode);
        }
        Append3(old(byteCode), [if high <= 0xffff then REOP_RANGE else REOP_RANGE32] + PutU16(len), byteCode,
                Enc(ClassInstr(points)));
      }
      return true;
    }

    method EmitTable16(points: seq<int>, ghost pre: seq<byte>)
      requires ValidPoints(points) && byteCode == pre && AllU16(RangeTable(points, false))
      modifies this`byteCode
      ensures byteCode == pre + PutTable16(RangeTable(points, false))
    {
      hide SortedPoints, RangeTable, ValidPoints, PutU16, PutTable16;
      ghost var t := RangeTable(points, false);
      var i: nat := 0;
      EvenLength(points);
      NoTable();
      assert t[..0] == [];
      while i < |points|
        invariant i <= |points| && i % 2 == 0
        invariant byteCode == pre + PutTable16(t[..i])
      {
        TablePair(points, false, i);
        var low, high := points[i], points[i + 1] - 1;
        if high == UINT32_MAX - 1 { high := 0xffff; }
        byteCode := byteCode + PutU16(low);
        byteCode := byteCode + PutU16(high);
        Table16Next(t, i);
        assert pre + PutTable16(t[..i]) + PutU16(low) + PutU16(high) ==
               pre + (PutTable16(t[..i]) + PutU16(low) + PutU16(high));
        i := i + 2;
      }
      assert t[..i] == t;
    }

    method EmitTable32(points: seq<int>, ghost pre: seq<byte>)
      requires ValidPoints(points) && byteCode == pre && AllU32(RangeTable(points, true))
      modifies this`byteCode
      ensures byteCode == pre + PutTable32(RangeTable(points, true))
    {
      hide SortedPoints, RangeTable, ValidPoints, PutU32, PutTable32;
      ghost var t := RangeTable(points, true);
      var i: nat := 0;
      EvenLength(points);
      NoTable();
      assert t[..0] == [];
      while i < |points|
        invariant i <= |points| && i % 2 == 0
        invariant byteCode == pre + PutTable32(t[..i])
      {
        TablePair(points, true, i);
        var low, high := points[i], points[i + 1] - 1;
        byteCode := byteCode + PutU32(low);
        byteCode := byteCode + PutU32(high);
        Table32Next(t, i);
        assert pre + PutTable32(t[..i]) + PutU32(low) + PutU32(high) ==
               pre + (PutTable32(t[..i]) + PutU32(low) + PutU32(high));
        i := i + 2;
      }
      assert t[..i] == t;
    }
  }

  lemma NoTable()
    ensures PutTable16([]) == [] && PutTable32([]) == []
  {
  }

  lemma EvenLength(points: seq<int>)
    requires ValidPoints(points)
    ensures |points| % 2 == 0
  {
  }

  /** One pair of table entries: both ends included, "no upper bound" as 0xffff in a narrow table. */
  lemma TablePair(points: seq<int>, wide: bool, i: nat)
    requires ValidPoints(points) && i % 2 == 0 && i < |points|
    requires if wide then AllU32(RangeTable(points, true)) else AllU16(RangeTable(points, false))
    ensures i + 1 < |points| == |RangeTable(points, wide)|
    ensures var t := RangeTable(points, wide);
            && t[i] == points[i]
            && t[i + 1] == (if !wide && points[i + 1] - 1 == UINT32_MAX - 1 then 0xffff else points[i + 1] - 1)
            && (if wide then AllU32(t) && IsU32(t[i]) && IsU32(t[i + 1])
                else AllU16(t) && IsU16(t[i]) && IsU16(t[i + 1]))
  {
  }

  lemma EmptyClass(points: seq<int>)
    requires ValidPoints(points) && |points| / 2 == 0
    ensures points == [] && ClassInstr(points) == IChar32(UINT32_MAX)
    ensures Encodable(IChar32(UINT32_MAX)) && Enc(IChar32(UINT32_MAX)) == Word(REOP_CHAR32, UINT32_MAX)
  {
    hide PutU32;
  }

  lemma TableBytes(points: seq<int>)
    requires ValidPoints(points) && points != []
    ensures Encodable(ClassInstr(points)) && IsU16(|points| / 2)
    ensures AllU32(RangeTable(points, true)) && (TopPoint(points) <= 0xffff ==> AllU16(RangeTable(points, false)))
    ensures var n := PutU16(|points| / 2);
            Enc(ClassInstr(points)) == (if TopPoint(points) <= 0xffff
                                        then [REOP_RANGE] + n + PutTable16(RangeTable(points, false))
                                        else [REOP_RANGE32] + n + PutTable32(RangeTable(points, true)))
  {
    hide PutTable16, PutTable32, PutU16;
    RangeTableFits(points);
  }

  lemma Append3(a: seq<byte>, b: seq<byte>, now: seq<byte>, c: seq<byte>)
    requires |b| <= |c| && b == c[..|b|] && now == a + b + c[|b|..]
    ensures now == a + c
  {
  }

  lemma {:induction false} PutTable16Concat(a: seq<int>, b: seq<int>)
    requires AllU16(a) && AllU16(b)
    ensures AllU16(a + b) && PutTable16(a + b) == PutTable16(a) + PutTable16(b)
  {
    hide PutU16;
    if a == [] {
      assert a + b == b;
    } else {
      assert (a + b)[1..] == a[1..] + b && (a + b)[0] == a[0];
      PutTable16Concat(a[1..], b);
    }
  }

  lemma {:induction false} PutTable32Concat(a: seq<int>, b: seq<int>)
    requires AllU32(a) && AllU32(b)
    ensures AllU32(a + b) && PutTable32(a + b) == PutTable32(a) + PutTable32(b)
  {
    hide PutU32;
    if a == [] {
      assert a + b == b;
    } else {
      assert (a + b)[1..] == a[1..] + b && (a + b)[0] == a[0];
      PutTable32Concat(a[1..], b);
    }
  }

  lemma Table16Next(t: seq<int>, i: nat)
    requires AllU16(t) && i + 1 < |t|
    ensures PutTable16(t[..i + 2]) == PutTable16(t[..i]) + PutU16(t[i]) + PutU16(t[i + 1])
  {
    hide PutU16;
    var pair := [t[i], t[i + 1]];
    assert t[..i + 2] == t[..i] + pair;
    PutTable16Concat(t[..i], pair);
    assert pair[1..] == [t[i + 1]] && pair[1..][1..] == [];
    assert PutTable16(pair) == PutU16(t[i]) + (PutU16(t[i + 1]) + PutTable16([]));
  }

  lemma Table32Next(t: seq<int>, i: nat)
    requires AllU32(t) && i + 1 < |t|
    ensures PutTable32(t[..i + 2]) == PutTable32(t[..i]) + PutU32(t[i]) + PutU32(t[i + 1])
  {
    hide PutU32;
    var pair := [t[i], t[i + 1]];
    assert t[..i + 2] == t[..i] + pair;
    PutTable32Concat(t[..i], pair);
    assert pair[1..] == [t[i + 1]] && pair[1..][1..] == [];
    assert PutTable32(pair) == PutU32(t[i]) + (PutU32(t[i + 1]) + PutTable32([]));
  }

  /** The atom is emitted a second time. */
  predicate HasRest(min: int, max: int) { max == INT32_MAX || max > min }

  lemma RestNeedsRoom(a: seq<Instr>, min: nat, max: nat, greedy: bool)
    requires min <= max <= INT32_MAX
    ensures var first := if min == 1 then a else ExactlyCode(a, min);
            ByteLen(first + RestCode(a, min, max, greedy)) >=
            ByteLen(first) + (if HasRest(min, max) then ByteLen(a) else 0)
  {
    hide ByteLen, StarCode, UpToCode, ExactlyCode, UsesAdvanceTest;
    ByteLenConcat(if min == 1 then a else ExactlyCode(a, min), RestCode(a, min, max, greedy));
    StarLonger(a, greedy, UsesAdvanceTest(a, greedy));
    CountedLonger(a, max - min, greedy);
  }

  lemma EncNone()
    ensures EncodableAll([]) && EncAll([]) == []
  {
  }

  lemma EncPair(a: seq<Instr>, b: seq<Instr>)
    requires EncodableAll(a) && EncodableAll(b)
    ensures EncodableAll(a + b) && EncAll(a + b) == EncAll(a) + EncAll(b)
  {
    EncAllConcat(a, b);
  }

  lemma EncSplit(a: seq<Instr>, greedy: bool)
    requires EncodableAll(a) && ByteLen(a) < TWO31
    ensures EncodableAll([ISplit(greedy, ByteLen(a))] + a)
    ensures EncAll([ISplit(greedy, ByteLen(a))] + a) == Word(SplitOp(greedy), ByteLen(a)) + EncAll(a)
  {
    hide EncAll, Enc, ByteLen, Jump, Word;
    EncOne(ISplit(greedy, ByteLen(a)));
    ForwardJump(SplitOp(greedy), ByteLen(a));
    JumpBytes(greedy, ByteLen(a));
    EncAllConcat([ISplit(greedy, ByteLen(a))], a);
  }

  lemma EncPlus(a: seq<Instr>, greedy: bool)
    requires EncodableAll(a) && ByteLen(a) + 5 < TWO31
    ensures EncodableAll(a + [ISplit(!greedy, -(ByteLen(a) + 5))])
    ensures EncAll(a + [ISplit(!greedy, -(ByteLen(a) + 5))]) == EncAll(a) + Jump(SplitOp(!greedy), -(ByteLen(a) + 5))
  {
    hide EncAll, Enc, ByteLen, Jump;
    var split := ISplit(!greedy, -(ByteLen(a) + 5));
    EncOne(split);
    JumpBytes(!greedy, -(ByteLen(a) + 5));
    EncAllConcat(a, [split]);
  }

  lemma Regroup(p: seq<byte>, a: seq<byte>, b: seq<byte>, c: seq<byte>, d: seq<byte>)
    ensures p + a + b + c + d == p + (a + b + c + d)
    ensures p + (a + b) + c + d == p + (a + b + c + d)
    ensures p + a + b + (c + d) == p + (a + b + c + d)
    ensures b == [] ==> p + a + c + d == p + (a + c + d)
  {
  }

  function QuantFields(next: int, quantMin: int, quantMax: int, len: int): (b: seq<byte>)
    requires IsU32(next) && IsU32(quantMin) && IsU32(quantMax) && IsU32(len)
    ensures |b| == 16
  {
    PutU32(next) + PutU32(quantMin) + PutU32(quantMax) + PutU32(len)
  }

  lemma EncSimpleQuant(a: seq<Instr>, min: nat, max: nat)
    requires EncodableAll(a) && min <= max <= INT32_MAX && SimpleCount(a) > 0 && ByteLen(a) + 18 < TWO31
    ensures EncodableAll(SimpleQuantCode(a, min, max))
    ensures var op := ISimpleGreedyQuant(ByteLen(a) + 1, min, max, SimpleCount(a));
            EncAll(SimpleQuantCode(a, min, max)) == Enc(op) + EncAll(a) + [REOP_MATCH]
  {
    hide EncAll, ByteLen, SimpleCount;
    LenAtLeast(a);
    PlainBytes(0);
    EncWrap(ISimpleGreedyQuant(ByteLen(a) + 1, min, max, SimpleCount(a)), a, IMatch);
  }

  lemma QuantFieldBytes(next: int, quantMin: int, quantMax: int, len: int)
    requires IsS32(next) && next >= 0 && IsU32(quantMin) && IsU32(quantMax) && IsU32(len)
    ensures Enc(ISimpleGreedyQuant(next, quantMin, quantMax, len))
         == [REOP_SIMPLE_GREEDY_QUANT] + QuantFields(next, quantMin, quantMax, len)
  {
    hide PutU32;
  }

  lemma KeepsAt(was: seq<byte>, more: seq<byte>, now: seq<byte>, pos: nat, frag: seq<byte>)
    requires now == was + more && At(was, pos, frag)
    ensures At(now, pos, frag) && now[pos..pos + |frag|] == frag
  {
    assert now[pos..pos + |frag|] == was[pos..pos + |frag|];
  }
}
