/**
 The recursive descent over a pattern: disjunctions, alternatives and terms,
 each emitting into the shared buffer, and the header written at the end.
 */
module Parser {
  import opened Bytes
  import opened Opcodes
  import opened Pattern
  import opened Codegen
  import opened CodegenFacts
  import opened CharRange
  import opened Adequacy
  import opened Scans
  import opened Compiler
  import opened Image

  // ---- bytes of each construct ----

  ghost predicate Fits(e: Env, p: Node, back: bool, cc: nat) {
    ValidEnv(e) && Accepted(p, cc) && ByteLen(Code(e, p, back, cc)) < TWO31
  }

  /** The bytes of a node the compiler accepts. */
  ghost function CodeBytes(e: Env, p: Node, back: bool, cc: nat): (b: seq<byte>)
    requires Fits(e, p, back, cc)
    ensures |b| == ByteLen(Code(e, p, back, cc))
  {
    CodeEncodable(e, p, back, cc);
    EncAll(Code(e, p, back, cc))
  }

  lemma CatBytes(e: Env, p: Node, back: bool, cc: nat)
    requires p.Cat? && Fits(e, p, back, cc)
    ensures Fits(e, p.init, back, cc) && Fits(e, p.last, back, cc + Caps(p.init))
    ensures var a, b := CodeBytes(e, p.init, back, cc), CodeBytes(e, p.last, back, cc + Caps(p.init));
            CodeBytes(e, p, back, cc) == if back then b + a else a + b
  {
    hide ByteLen, EncAll, EncodableAll, ValidEnv, Enc, Code;
    CatCode(e, p, back, cc);
    var cb := cc + Caps(p.init);
    CodeLen(e, p, back, cc);
    var a, b := Code(e, p.init, back, cc), Code(e, p.last, back, cb);
    CodeEncodable(e, p.init, back, cc);
    CodeEncodable(e, p.last, back, cb);
    if back { EncAllConcat(b, a); } else { EncAllConcat(a, b); }
  }

  lemma AltBytes(e: Env, p: Node, back: bool, cc: nat)
    requires p.Alt? && Fits(e, p, back, cc)
    ensures Fits(e, p.left, back, cc) && Fits(e, p.right, back, cc + Caps(p.left))
    ensures var l, r := CodeBytes(e, p.left, back, cc), CodeBytes(e, p.right, back, cc + Caps(p.left));
            && |l| + 5 < TWO31 && |r| < TWO31
            && CodeBytes(e, p, back, cc) == Word(REOP_SPLIT_NEXT_FIRST, |l| + 5) + l + Word(REOP_GOTO, |r|) + r
  {
    hide ByteLen, EncAll, EncodableAll, ValidEnv, Enc, Word, Jump, Code;
    AltCode(e, p, back, cc);
    var cr := cc + Caps(p.left);
    CodeLen(e, p, back, cc);
    CodeEncodable(e, p.left, back, cc);
    CodeEncodable(e, p.right, back, cr);
    var l, r := Code(e, p.left, back, cc), Code(e, p.right, back, cr);
    var split, jump := ISplit(true, ByteLen(l) + 5), IGoto(ByteLen(r));
    EncWrap(split, l, jump);
    EncAllConcat([split] + l + [jump], r);
    JumpBytes(true, ByteLen(l) + 5);
    JumpBytes(true, ByteLen(r));
    ForwardJump(REOP_SPLIT_NEXT_FIRST, ByteLen(l) + 5);
    ForwardJump(REOP_GOTO, ByteLen(r));
  }

  function SaveOp(end: bool): (op: byte) { if end then REOP_SAVE_END else REOP_SAVE_START }

  lemma CaptureBytes(e: Env, p: Node, back: bool, cc: nat)
    requires p.Capture? && Fits(e, p, back, cc)
    ensures Fits(e, p.body, back, cc + 1)
    ensures CodeBytes(e, p, back, cc) == [SaveOp(back), cc] + CodeBytes(e, p.body, back, cc + 1) + [SaveOp(!back), cc]
  {
    hide ByteLen, EncAll, EncodableAll, ValidEnv, Code;
    CaptureCode(e, p, back, cc);
    CodeLen(e, p, back, cc);
    CodeEncodable(e, p.body, back, cc + 1);
    EncWrap(ISave(back, cc), Code(e, p.body, back, cc + 1), ISave(!back, cc));
  }

  function LookOp(negative: bool): (op: byte) { if negative then REOP_NEGATIVE_LOOKAHEAD else REOP_LOOKAHEAD }

  lemma LookBytes(e: Env, p: Node, back: bool, cc: nat)
    requires p.Look? && Fits(e, p, back, cc)
    ensures Fits(e, p.body, p.backward, cc)
    ensures var a := CodeBytes(e, p.body, p.backward, cc);
            |a| + 1 < TWO31 && CodeBytes(e, p, back, cc) == Word(LookOp(p.negative), |a| + 1) + a + [REOP_MATCH]
  {
    hide ByteLen, EncAll, EncodableAll, ValidEnv, PutU32, Code;
    LookCode(e, p, back, cc);
    CodeLen(e, p, back, cc);
    CodeEncodable(e, p.body, p.backward, cc);
    var inner := Code(e, p.body, p.backward, cc);
    EncWrap(ILookahead(p.negative, ByteLen(inner) + 1), inner, IMatch);
  }

  lemma CharBytes(e: Env, p: Node, back: bool, cc: nat)
    requires (p.Dot? || p.Char? || p.Class?) && Fits(e, p, back, cc)
    ensures Encodable(CharInstr(e, p))
    ensures var b := Enc(CharInstr(e, p));
            CodeBytes(e, p, back, cc) == if back then [REOP_PREV] + b + [REOP_PREV] else b
  {
    hide CharInstr, ByteLen, EncAll, Enc, EncodableAll;
    CharInstrCorrect(e, p, 0);
    var i := CharInstr(e, p);
    PrevBytes();
    if back {
      assert [IPrev, i, IPrev] == [IPrev] + [i] + [IPrev];
      EncOne(i);
      EncWrap(IPrev, [i], IPrev);
    } else {
      EncOne(i);
    }
  }

  lemma PrevBytes()
    ensures Enc(IPrev) == [REOP_PREV]
  {
  }

  predicate IsPlain(p: Node) { p.Empty? || p.LineStart? || p.LineEnd? || p.WordBoundary? || p.BackReference? }

  function PlainOps(p: Node, back: bool): (b: seq<byte>)
    requires IsPlain(p) && WellFormed(p)
  {
    match p
    case Empty => []
    case LineStart => [REOP_LINE_START]
    case LineEnd => [REOP_LINE_END]
    case WordBoundary(negated) => [if negated then REOP_NOT_WORD_BOUNDARY else REOP_WORD_BOUNDARY]
    case BackReference(n) => [if back then REOP_BACKWARD_BACK_REFERENCE else REOP_BACK_REFERENCE, n]
  }

  lemma PlainBytesOf(e: Env, p: Node, back: bool, cc: nat)
    requires IsPlain(p) && Fits(e, p, back, cc)
    ensures CodeBytes(e, p, back, cc) == PlainOps(p, back)
  {
    hide ByteLen, EncAll, ValidEnv, EncodableAll;
    EncNone();
    CodeEncodable(e, p, back, cc);
    match p
    case LineStart => EncOne(ILineStart);
    case LineEnd => EncOne(ILineEnd);
    case WordBoundary(negated) => EncOne(IWordBoundary(negated));
    case BackReference(n) => EncOne(IBackReference(back, n));
    case Empty =>
  }

  // ---- the descent ----

  /** Enough address space for every intermediate state of the buffer. */
  ghost predicate Spacious(s: REParseState, p: Node, back: bool)
    reads s
  {
    && Parsed(p) && ValidEnv(s.e)
    && |s.byteCode| + Space(s.e, p, back, s.captureCount) + 32 < TWO31
    && s.captureCount <= CAPTURE_COUNT_MAX
  }

  /** The code of 'p' has been appended to 'was' and its captures have been numbered from 'cc'. */
  ghost predicate Emitted(s: REParseState, was: seq<byte>, p: Node, back: bool, cc: nat)
    reads s
  {
    && Fits(s.e, p, back, cc)
    && s.byteCode == was + CodeBytes(s.e, p, back, cc)
    && s.captureCount == cc + Caps(p)
  }

  predicate IsGroup(p: Node) { p.Empty? || p.Cat? || p.Alt? }

  // How the three mutually recursive methods descend at one and the same node.
  function TermRank(p: Node): nat { if p.Alt? then 1 else if IsGroup(p) then 2 else 0 }
  function AlternativeRank(p: Node): nat { if p.Alt? then 2 else if IsGroup(p) then 0 else 1 }
  function DisjunctionRank(p: Node): nat { if p.Alt? then 0 else if IsGroup(p) then 1 else 2 }

  lemma SpaceOfParts(s: REParseState, p: Node, back: bool)
    requires Spacious(s, p, back)
    ensures Accepted(p, s.captureCount) ==> Fits(s.e, p, back, s.captureCount)
    ensures p.Cat? ==> Spacious(s, p.init, back)
    ensures p.Alt? ==> Spacious(s, p.left, back)
  {
    hide ByteLen, Code;
    if WellFormed(p) { SpaceCovers(s.e, p, back, s.captureCount); }
  }

  /** Alternatives: a split goes in front of everything so far, a jump behind it, patched when the next one is done. */
  method ReParseDisjunction(s: REParseState, p: Node, back: bool) returns (ok: bool)
    requires Spacious(s, p, back)
    modifies s
    ensures ok <==> Accepted(p, old(s.captureCount))
    ensures ok ==> Emitted(s, old(s.byteCode), p, back, old(s.captureCount))
    decreases p, DisjunctionRank(p)
  {
    hide CodeBytes, Space, Fits, Word, PutU32, ValidEnv, ByteLen, Code;
    if !p.Alt? {
      ok := ReParseAlternative(s, p, back);
      return;
    }
    ghost var was, cc := s.byteCode, s.captureCount;
    SpaceOfParts(s, p, back);
    var start := |s.byteCode|;
    ok := ReParseDisjunction(s, p.left, back);
    if !ok { return; }
    ghost var l := CodeBytes(s.e, p.left, back, cc);
    SpaceAfter(s.e, p, back, cc);
    var len := |s.byteCode| - start;
    s.InsertOpU32(start, REOP_SPLIT_NEXT_FIRST, len + 5, was, l);
    ghost var head := was + Word(REOP_SPLIT_NEXT_FIRST, len + 5) + l;
    var pos := s.EmitOpU32(REOP_GOTO, 0);
    ok := ReParseAlternative(s, p.right, back);
    if !ok { return; }
    ghost var r := CodeBytes(s.e, p.right, back, cc + Caps(p.left));
    len := |s.byteCode| - (pos + 4);
    AltBytes(s.e, p, back, cc);
    s.PatchU32(pos, len, REOP_GOTO, 0, head, r);
    Regroup(was, Word(REOP_SPLIT_NEXT_FIRST, |l| + 5), l, Word(REOP_GOTO, len), r);
  }

  /** Once the first part of a pair has been emitted there is space for the second. */
  lemma SpaceAfter(e: Env, p: Node, back: bool, cc: nat)
    requires Parsed(p) && ValidEnv(e) && (p.Cat? || p.Alt?)
    ensures p.Cat? && Fits(e, p.init, back, cc) ==>
              |CodeBytes(e, p.init, back, cc)| + Space(e, p.last, back, cc + Caps(p.init)) <= Space(e, p, back, cc)
    ensures p.Alt? && Fits(e, p.left, back, cc) ==>
              |CodeBytes(e, p.left, back, cc)| + Space(e, p.right, back, cc + Caps(p.left)) + 10
                <= Space(e, p, back, cc)
  {
    hide ByteLen, Code, ValidEnv;
    if p.Cat? && WellFormed(p.init) { SpaceCovers(e, p.init, back, cc); }
    if p.Alt? && WellFormed(p.left) { SpaceCovers(e, p.left, back, cc); }
  }

  /** Terms one after the other; going backwards each new term is rotated in front of those before it. */
  method ReParseAlternative(s: REParseState, p: Node, back: bool) returns (ok: bool)
    requires Spacious(s, p, back)
    modifies s
    ensures ok <==> Accepted(p, old(s.captureCount))
    ensures ok ==> Emitted(s, old(s.byteCode), p, back, old(s.captureCount))
    decreases p, AlternativeRank(p)
  {
    hide CodeBytes, Space, Fits, Word, PutU32, ValidEnv, ByteLen, Code;
    if p.Empty? {
      NothingEmitted(s, back);
      return true;
    } else if !p.Cat? {
      ok := ReParseTerm(s, p, back);
      return;
    }
    ghost var was, cc := s.byteCode, s.captureCount;
    SpaceOfParts(s, p, back);
    var start := |s.byteCode|;
    ok := ReParseAlternative(s, p.init, back);
    if !ok { return; }
    ghost var a := CodeBytes(s.e, p.init, back, cc);
    SpaceAfter(s.e, p, back, cc);
    var termStart := |s.byteCode|;
    ok := ReParseTerm(s, p.last, back);
    if !ok { return; }
    ghost var b := CodeBytes(s.e, p.last, back, cc + Caps(p.init));
    CatBytes(s.e, p, back, cc);
    if back {
      s.Rotate(start, termStart, was, a, b);
      assert was + b + a == was + (b + a);
    } else {
      assert was + a + b == was + (a + b);
    }
  }

  lemma NothingEmitted(s: REParseState, back: bool)
    requires Spacious(s, Empty, back)
    ensures Emitted(s, s.byteCode, Empty, back, s.captureCount)
  {
    PlainBytesOf(s.e, Empty, back, s.captureCount);
  }

  /** One term. Anything the grammar does not have as a term stands for a group in parentheses. */
  method ReParseTerm(s: REParseState, p: Node, back: bool) returns (ok: bool)
    requires Spacious(s, p, back)
    modifies s
    ensures ok <==> Accepted(p, old(s.captureCount))
    ensures ok ==> Emitted(s, old(s.byteCode), p, back, old(s.captureCount))
    decreases p, TermRank(p)
  {
    hide CodeBytes, Space, Fits, ValidEnv;
    if IsGroup(p) {
      ok := ReParseDisjunction(s, p, back);
    } else if p.Capture? {
      ok := ReParseCapture(s, p, back);
    } else if p.Look? {
      ok := ReParseLookaround(s, p, back);
    } else if p.Quant? {
      ok := ReParseQuantified(s, p, back);
    } else if IsPlain(p) {
      ReParsePlain(s, p, back);
      ok := true;
    } else {
      ok := ReParseChar(s, p, back);
    }
  }

  /** Assertions and back references: the opcode, and the capture number if there is one. */
  method ReParsePlain(s: REParseState, p: Node, back: bool)
    requires Spacious(s, p, back) && IsPlain(p) && !p.Empty?
    modifies s
    ensures Accepted(p, old(s.captureCount)) && Emitted(s, old(s.byteCode), p, back, old(s.captureCount))
  {
    hide CodeBytes, Space, ValidEnv;
    SpaceOfParts(s, p, back);
    PlainBytesOf(s.e, p, back, s.captureCount);
    match p
    case LineStart => s.EmitOp(REOP_LINE_START);
    case LineEnd => s.EmitOp(REOP_LINE_END);
    case WordBoundary(negated) => s.EmitOp(if negated then REOP_NOT_WORD_BOUNDARY else REOP_WORD_BOUNDARY);
    case BackReference(n) => s.EmitOpU8(if back then REOP_BACKWARD_BACK_REFERENCE else REOP_BACK_REFERENCE, n);
  }

  /** A test of one character; going backwards it is stepped over before and after. */
  method ReParseChar(s: REParseState, p: Node, back: bool) returns (ok: bool)
    requires Spacious(s, p, back) && (p.Dot? || p.Char? || p.Class?)
    modifies s
    ensures ok <==> Accepted(p, old(s.captureCount))
    ensures ok ==> Emitted(s, old(s.byteCode), p, back, old(s.captureCount))
  {
    hide CodeBytes, Space, ValidEnv, CharInstr, Enc, ByteLen, Code, Encodable;
    ghost var was := s.byteCode;
    CharsOpenNothing(p);
    SpaceOfParts(s, p, back);
    if back { s.EmitOp(REOP_PREV); }
    ok := ReEmitChar(s, p);
    if !ok { return; }
    CharBytes(s.e, p, back, s.captureCount);
    if back {
      s.EmitOp(REOP_PREV);
      ghost var b := Enc(CharInstr(s.e, p));
      assert was + [REOP_PREV] + b + [REOP_PREV] == was + ([REOP_PREV] + b + [REOP_PREV]);
    }
  }

  lemma CharsOpenNothing(p: Node)
    requires p.Dot? || p.Char? || p.Class?
    ensures Caps(p) == 0
  {
  }

  method ReEmitChar(s: REParseState, p: Node) returns (ok: bool)
    requires Parsed(p) && ValidEnv(s.e) && (p.Dot? || p.Char? || p.Class?)
    modifies s`byteCode
    ensures ok <==> WellFormed(p)
    ensures ok ==> Encodable(CharInstr(s.e, p)) && s.byteCode == old(s.byteCode) + Enc(CharInstr(s.e, p))
  {
    hide PutU16, PutU32, ClassInstr;
    match p
    case Dot =>
      s.EmitOp(if s.e.flags.dotAll then REOP_ANY else REOP_DOT);
      ok := true;
    case Char(_) =>
      var c := p.c;
      if s.e.flags.ignoreCase { c := s.e.fold(c); }
      if c <= 0xffff {
        s.EmitOpU16(REOP_CHAR, c);
      } else {
        var _ := s.EmitOpU32(REOP_CHAR32, c);
      }
      ok := true;
    case Class(points) =>
      hide Enc, Encodable;
      ok := s.EmitRange(points);
  }

  /** The capture takes the next number; its two slots are written in the order of the direction. */
  method ReParseCapture(s: REParseState, p: Node, back: bool) returns (ok: bool)
    requires Spacious(s, p, back) && p.Capture?
    modifies s
    ensures ok <==> Accepted(p, old(s.captureCount))
    ensures ok ==> Emitted(s, old(s.byteCode), p, back, old(s.captureCount))
    decreases p, 0, 0
  {
    hide CodeBytes, Fits, ByteLen, Code, ValidEnv;
    if s.captureCount >= CAPTURE_COUNT_MAX { return false; }
    ghost var was, cc := s.byteCode, s.captureCount;
    SpaceOfParts(s, p, back);
    var captureIndex := s.captureCount;
    s.captureCount := s.captureCount + 1;
    s.EmitOpU8(SaveOp(back), captureIndex);
    ok := ReParseDisjunction(s, p.body, back);
    if !ok { return; }
    s.EmitOpU8(SaveOp(!back), captureIndex);
    CaptureBytes(s.e, p, back, cc);
    ghost var b := CodeBytes(s.e, p.body, back, cc + 1);
    assert was + [SaveOp(back), cc] + b + [SaveOp(!back), cc] == was + ([SaveOp(back), cc] + b + [SaveOp(!back), cc]);
  }

  /** A lookaround is closed by 'match'; its opcode is patched to jump past it. */
  method ReParseLookaround(s: REParseState, p: Node, back: bool) returns (ok: bool)
    requires Spacious(s, p, back) && p.Look?
    modifies s
    ensures ok <==> Accepted(p, old(s.captureCount))
    ensures ok ==> Emitted(s, old(s.byteCode), p, back, old(s.captureCount))
    decreases p, 0, 0
  {
    hide CodeBytes, Fits, ByteLen, Code, ValidEnv, Word, PutU32;
    ghost var was, cc := s.byteCode, s.captureCount;
    SpaceOfParts(s, p, back);
    var pos := s.EmitOpU32(LookOp(p.negative), 0);
    ok := ReParseDisjunction(s, p.body, p.backward);
    if !ok { return; }
    s.EmitOp(REOP_MATCH);
    LookBytes(s.e, p, back, cc);
    ghost var b := CodeBytes(s.e, p.body, p.backward, cc);
    assert s.byteCode == was + Word(LookOp(p.negative), 0) + (b + [REOP_MATCH]);
    var len := |s.byteCode| - (pos + 4);
    s.PatchU32(pos, len, LookOp(p.negative), 0, was, b + [REOP_MATCH]);
    assert was + Word(LookOp(p.negative), len) + (b + [REOP_MATCH]) ==
           was + (Word(LookOp(p.negative), len) + b + [REOP_MATCH]);
  }

  /** An atom and its quantifier, which reworks the code of the atom in place. */
  method ReParseQuantified(s: REParseState, p: Node, back: bool) returns (ok: bool)
    requires Spacious(s, p, back) && p.Quant?
    modifies s
    ensures ok <==> Accepted(p, old(s.captureCount))
    ensures ok ==> Emitted(s, old(s.byteCode), p, back, old(s.captureCount))
    decreases p, 0, 0
  {
    hide ByteLen, ValidEnv, EncAll, QuantCode, EncodableAll;
    ghost var was, cc := s.byteCode, s.captureCount;
    SpaceOfParts(s, p, back);
    var lastAtomStart, lastCaptureCount := |s.byteCode|, s.captureCount;
    ok := ReParseTerm(s, p.body, back);
    if !ok { return; }
    ghost var a := Code(s.e, p.body, back, cc);
    CodeEncodable(s.e, p.body, back, cc);
    SpaceCovers(s.e, p.body, back, cc);
    SpaceCovers(s.e, p, back, cc);
    s.ParseQuantifier(lastAtomStart, lastCaptureCount, p.min, p.max, p.greedy, was, a);
    CodeEncodable(s.e, p, back, cc);
  }

  // ---- whole programs ----

  lemma ProgramDepth(e: Env, p: Node)
    requires WellFormed(p)
    ensures MinDepth(ProgramCode(e, p), 0) >= 0
  {
    hide Code, DepthAfter, MinDepth;
    var prelude, body := SearchPrelude(e), Code(e, Capture(p), false, 0);
    CodeBalanced(e, Capture(p), false, 0);
    PreludeBalanced(e);
    BalancedOne(IMatch);
    BalancedConcat(prelude, body);
    BalancedConcat(prelude + body, [IMatch]);
  }

  lemma PreludeBalanced(e: Env)
    ensures Balanced(SearchPrelude(e))
  {
    hide DepthAfter, MinDepth;
    BalancedNil();
    BalancedOne(ISplit(false, 6));
    BalancedOne(IAny);
    BalancedOne(IGoto(-11));
    BalancedConcat([IAny], [IGoto(-11)]);
    BalancedConcat([ISplit(false, 6)], [IAny] + [IGoto(-11)]);
    assert [ISplit(false, 6), IAny, IGoto(-11)] == [ISplit(false, 6)] + ([IAny] + [IGoto(-11)]);
  }

  /** The search loop in front of the pattern, as it is emitted. */
  function PreludeBytes(e: Env): (b: seq<byte>) {
    if e.flags.sticky then []
    else Word(REOP_SPLIT_GOTO_FIRST, 6) + [REOP_ANY] + Word(REOP_GOTO, TWO32 - 11)
  }

  lemma EncPrelude(e: Env)
    ensures EncodableAll(SearchPrelude(e)) && EncAll(SearchPrelude(e)) == PreludeBytes(e)
  {
    hide EncAll, PutU32;
    EncNone();
    EncWrap(ISplit(false, 6), [IAny], IGoto(-11));
    EncOne(IAny);
    assert [ISplit(false, 6), IAny, IGoto(-11)] == [ISplit(false, 6)] + [IAny] + [IGoto(-11)];
  }

  lemma ProgramBytes(e: Env, p: Node)
    requires Fits(e, Capture(p), false, 0)
    ensures EncodableAll(ProgramCode(e, p))
    ensures EncAll(ProgramCode(e, p)) == PreludeBytes(e) + CodeBytes(e, Capture(p), false, 0) + [REOP_MATCH]
    ensures ByteLen(ProgramCode(e, p)) == |PreludeBytes(e)| + ByteLen(Code(e, Capture(p), false, 0)) + 1
  {
    hide EncAll, ByteLen, Code, PreludeBytes, EncodableAll, ValidEnv;
    var prelude, body := SearchPrelude(e), Code(e, Capture(p), false, 0);
    EncPrelude(e);
    CodeEncodable(e, Capture(p), false, 0);
    EncOne(IMatch);
    PlainBytes(0);
    EncBetween(prelude, body, [IMatch]);
    ByteLenConcat(prelude + body, [IMatch]);
    ByteLenConcat(prelude, body);
  }

  /** Flags and case folding are all the compiler knows of the run; the subject comes later. */
  function CompileEnv(reFlags: byte, fold: int -> int): (e: Env) { Env([], FlagsOf(reFlags), fold) }

  /** What the compiler returns for a pattern within its limits. */
  ghost function CompiledImage(e: Env, p: Node, reFlags: byte): (b: seq<byte>)
    requires ValidEnv(e) && Compilable(e, p)
    ensures |b| >= RE_HEADER_LEN
  {
    ProgramEncodable(e, p);
    var s := ProgramCode(e, p);
    Header(reFlags, 1 + Caps(p), MaxDepth(s, 0), ByteLen(s)) + EncAll(s)
  }

  lemma CaptureAccepted(e: Env, p: Node)
    requires Parsed(p)
    ensures Accepted(p, 1) <==> Accepted(Capture(p), 0)
    ensures Space(e, Capture(p), false, 0) == Space(e, p, false, 1) + 4
    ensures Caps(Capture(p)) == 1 + Caps(p)
  {
  }

  method EmitPrelude(s: REParseState)
    modifies s`byteCode
    ensures s.byteCode == old(s.byteCode) + PreludeBytes(s.e)
  {
    hide Word;
    if !s.e.flags.sticky {
      var _ := s.EmitOpU32(REOP_SPLIT_GOTO_FIRST, 1 + 5);
      s.EmitOp(REOP_ANY);
      var _ := s.EmitOpU32(REOP_GOTO, TWO32 - (5 + 1 + 5));
    }
  }

  /** Search loop, capture 0 around the pattern, and the final 'match'. */
  method EmitProgram(s: REParseState, p: Node) returns (ok: bool)
    requires s.captureCount == 1 && |s.byteCode| == RE_HEADER_LEN
    requires Parsed(p) && ValidEnv(s.e) && Space(s.e, p, false, 1) + 64 < TWO31
    modifies s
    ensures ok <==> Accepted(p, 1)
    ensures ok ==> s.captureCount == 1 + Caps(p) && EncodableAll(ProgramCode(s.e, p)) &&
                   s.byteCode == old(s.byteCode) + EncAll(ProgramCode(s.e, p)) &&
                   ByteLen(ProgramCode(s.e, p)) < TWO31
  {
    hide CodeBytes, Space, ByteLen, Code, EncAll, EncodableAll, ValidEnv, ProgramCode, PreludeBytes;
    ghost var was, prelude := s.byteCode, PreludeBytes(s.e);
    PreludeLen(s.e);
    EmitPrelude(s);
    s.EmitOpU8(REOP_SAVE_START, 0);
    ok := ReParseDisjunction(s, p, false);
    if !ok { return; }
    s.EmitOpU8(REOP_SAVE_END, 0);
    s.EmitOp(REOP_MATCH);
    FitsCapture(s.e, p);
    CaptureBytes(s.e, Capture(p), false, 0);
    ProgramBytes(s.e, p);
    ghost var body := CodeBytes(s.e, p, false, 1);
    assert was + prelude + [REOP_SAVE_START, 0] + body + [REOP_SAVE_END, 0] + [REOP_MATCH]
        == was + (prelude + ([REOP_SAVE_START, 0] + body + [REOP_SAVE_END, 0]) + [REOP_MATCH]);
  }

  lemma PreludeLen(e: Env)
    ensures |PreludeBytes(e)| <= 11
  {
  }

  /**
   Compiles a pattern. There is no result exactly when a class has too many
   ranges, there are too many captures, or the quantifiers nest too deep.
   */
  method LreCompile(p: Node, reFlags: byte, fold: int -> int) returns (r: Option<seq<byte>>)
    requires Parsed(p) && ValidEnv(CompileEnv(reFlags, fold))
    requires Space(CompileEnv(reFlags, fold), p, false, 1) + 64 < TWO31
    ensures r.Some? <==> Compilable(CompileEnv(reFlags, fold), p)
    ensures r.Some? ==> r.value == CompiledImage(CompileEnv(reFlags, fold), p, reFlags)
  {
    hide Space, ByteLen, EncAll, EncodableAll, ValidEnv, MaxDepth, MinDepth, ProgramCode, CompileEnv, PutU32;
    var e := CompileEnv(reFlags, fold);
    var s := new REParseState(e);
    s.PutHeader(reFlags);
    var ok := EmitProgram(s, p);
    if !ok { return None; }
    ProgramDepth(e, p);
    ghost var code := ProgramCode(e, p);
    assert s.byteCode[RE_HEADER_LEN..] == EncAll(code);
    var stackSize := ComputeStackSize(s.byteCode[RE_HEADER_LEN..], code);
    if stackSize < 0 { return None; }
    s.StoreHeader(stackSize, reFlags, EncAll(code));
    return Some(s.byteCode);
  }

  lemma FitsCapture(e: Env, p: Node)
    requires Parsed(p) && ValidEnv(e) && Accepted(p, 1) && Space(e, p, false, 1) + 64 < TWO31
    ensures Fits(e, Capture(p), false, 0) && ByteLen(Code(e, Capture(p), false, 0)) <= Space(e, p, false, 1) + 4
  {
    hide ByteLen, Code;
    SpaceCovers(e, Capture(p), false, 0);
    CaptureAccepted(e, p);
  }
}
