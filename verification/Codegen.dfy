/**
 What the compiler emits for each node, as a list of instructions, and the
 linear scans it makes over code it has already emitted. Every jump distance
 is relative, so a fragment means the same wherever it is placed.
 */
module Codegen {
  import opened Bytes
  import opened Opcodes
  import opened Pattern

  predicate EncodableAll(s: seq<Instr>) { forall i :: 0 <= i < |s| ==> Encodable(s[i]) }

  function ByteLen(s: seq<Instr>): (n: nat)
    ensures n >= |s|
  {
    if s == [] then 0 else Size(s[0]) + ByteLen(s[1..])
  }

  function EncAll(s: seq<Instr>): (b: seq<byte>)
    requires EncodableAll(s)
    ensures |b| == ByteLen(s)
  {
    if s == [] then [] else Enc(s[0]) + EncAll(s[1..])
  }

  lemma {:induction false} ByteLenConcat(a: seq<Instr>, b: seq<Instr>)
    ensures ByteLen(a + b) == ByteLen(a) + ByteLen(b)
  {
    if a == [] {
      assert a + b == b;
    } else {
      assert (a + b)[1..] == a[1..] + b;
      ByteLenConcat(a[1..], b);
    }
  }

  lemma {:induction false} EncAllConcat(a: seq<Instr>, b: seq<Instr>)
    requires EncodableAll(a) && EncodableAll(b)
    ensures EncodableAll(a + b) && EncAll(a + b) == EncAll(a) + EncAll(b)
  {
    hide Enc, Encodable;
    if a == [] {
      assert a + b == b;
    } else {
      assert (a + b)[1..] == a[1..] + b && (a + b)[0] == a[0];
      EncAllConcat(a[1..], b);
      assert Enc(a[0]) + (EncAll(a[1..]) + EncAll(b)) == (Enc(a[0]) + EncAll(a[1..])) + EncAll(b);
    }
  }

  // ---- linear scans ----

  predicate IsCharInstr(i: Instr) { i.IChar? || i.IChar32? || i.IDot? || i.IAny? || i.IRange? || i.IRange32? }

  predicate IsAssertInstr(i: Instr) { i.ILineStart? || i.ILineEnd? || i.IWordBoundary? }

  /** Opcodes the advance check skips without drawing a conclusion. */
  predicate IsNeutral(i: Instr) {
    || IsAssertInstr(i) || i.IPushI32? || i.IPushCharPos? || i.IDrop? || i.IPrev?
    || i.ISave? || i.ISaveReset? || i.IBackReference?
  }

  /** The first opcode that settles the question is one that reads a character. */
  predicate StartsWithChar(s: seq<Instr>) {
    s != [] && (IsCharInstr(s[0]) || (IsNeutral(s[0]) && StartsWithChar(s[1..])))
  }

  function InstrSaves(i: Instr): (r: set<int>) {
    match i
    case ISave(_, n) => {n}
    case ISaveReset(a, b) => Span(a, b)
    case _ => {}
  }

  function InstrRefs(i: Instr): (r: set<int>) {
    match i
    case IBackReference(_, n) => {n}
    case _ => {}
  }

  function CodeSaves(s: seq<Instr>): (r: set<int>) {
    if s == [] then {} else InstrSaves(s[0]) + CodeSaves(s[1..])
  }

  function CodeRefs(s: seq<Instr>): (r: set<int>) {
    if s == [] then {} else InstrRefs(s[0]) + CodeRefs(s[1..])
  }

  /** 1: always advances. 0: may not. -1: the outcome may depend on captures of the previous round. */
  function CheckAdvance(s: seq<Instr>): (r: int) {
    if CodeSaves(s) * CodeRefs(s) != {} then -1
    else if StartsWithChar(s) then 1 else 0
  }

  /** Number of characters of straight-line code without captures or jumps; -1 for any other code. */
  function SimpleCount(s: seq<Instr>): (r: int)
    ensures -1 <= r <= |s|
  {
    if s == [] then 0
    else
      var rest := SimpleCount(s[1..]);
      if rest < 0 then -1
      else if IsCharInstr(s[0]) then rest + 1
      else if IsAssertInstr(s[0]) then rest
      else -1
  }

  function StackEffect(i: Instr): (d: int) {
    if i.IPushI32? || i.IPushCharPos? then 1 else if i.IDrop? || i.IBneCharPos? then -1 else 0
  }

  /** Depth of the integer stack after the code, scanned linearly from depth 'd'. */
  function DepthAfter(s: seq<Instr>, d: int): (r: int) {
    if s == [] then d else DepthAfter(s[1..], d + StackEffect(s[0]))
  }

  /** Largest depth met on the way, at least 'd'. */
  function MaxDepth(s: seq<Instr>, d: int): (r: int)
    ensures r >= d
  {
    if s == [] then d
    else
      var rest := MaxDepth(s[1..], d + StackEffect(s[0]));
      if rest > d then rest else d
  }

  // ---- code of each construct ----

  /** 16-bit tables store 0xffff for "no upper bound". */
  function RangeTable(t: seq<int>, wide: bool): (r: seq<int>)
    requires ValidPoints(t)
    ensures |r| == |t|
  {
    seq(|t|, i requires 0 <= i < |t| =>
               if i % 2 == 0 then t[i]
               else if !wide && t[i] == UINT32_MAX then 0xffff
               else t[i] - 1)
  }

  /** Highest boundary that matters for the choice of table width. */
  function TopPoint(t: seq<int>): (r: int)
    requires ValidPoints(t) && t != []
  {
    if t[|t| - 1] == UINT32_MAX then t[|t| - 2] else t[|t| - 1]
  }

  function ClassInstr(t: seq<int>): (i: Instr)
    requires ValidPoints(t)
  {
    if t == [] then IChar32(UINT32_MAX)
    else if TopPoint(t) <= 0xffff then IRange(RangeTable(t, false))
    else IRange32(RangeTable(t, true))
  }

  function CharInstr(e: Env, p: Node): (i: Instr)
    requires p.Dot? || p.Char? || (p.Class? && ValidPoints(p.points))
  {
    match p
    case Dot => if e.flags.dotAll then IAny else IDot
    case Char(c) => if Canon(e, c) <= 0xffff then IChar(Canon(e, c)) else IChar32(Canon(e, c))
    case Class(t) => ClassInstr(t)
  }

  /** A round of a loop that began with 'back' bytes of code before its closing jump. */
  function StarCode(a: seq<Instr>, greedy: bool, test: bool): (s: seq<Instr>) {
    var len := ByteLen(a);
    if test then [ISplit(greedy, len + 6), IPushCharPos] + a + [IBneCharPos(-(len + 11))]
    else [ISplit(greedy, len + 5)] + a + [IGoto(-(len + 10))]
  }

  function ExactlyCode(a: seq<Instr>, n: int): (s: seq<Instr>) {
    [IPushI32(n)] + a + [ILoop(-(ByteLen(a) + 5)), IDrop]
  }

  function UpToCode(a: seq<Instr>, n: int, greedy: bool): (s: seq<Instr>) {
    [IPushI32(n), ISplit(greedy, ByteLen(a) + 5)] + a + [ILoop(-(ByteLen(a) + 10)), IDrop]
  }

  function SimpleQuantCode(a: seq<Instr>, min: int, max: int): (s: seq<Instr>) {
    [ISimpleGreedyQuant(ByteLen(a) + 1, min, max, SimpleCount(a))] + a + [IMatch]
  }

  predicate UsesSimpleQuant(a: seq<Instr>, max: int, greedy: bool) {
    greedy && max > 0 && SimpleCount(a) > 0
  }

  predicate UsesAdvanceTest(a: seq<Instr>, greedy: bool) { greedy && CheckAdvance(a) == 0 }

  function ResetCode(cc: int, n: int): (s: seq<Instr>) {
    if n > 0 then [ISaveReset(cc, cc + n - 1)] else []
  }

  /** Quantifier with minimum 0, after the capture reset. */
  function OptionalCode(a: seq<Instr>, max: int, greedy: bool): (s: seq<Instr>) {
    if max == 0 then []
    else if max == 1 then [ISplit(greedy, ByteLen(a))] + a
    else if max == INT32_MAX then StarCode(a, greedy, UsesAdvanceTest(a, greedy))
    else UpToCode(a, max, greedy)
  }

  /** What follows the mandatory rounds when the minimum is positive. */
  function RestCode(a: seq<Instr>, min: int, max: int, greedy: bool): (s: seq<Instr>) {
    if max == INT32_MAX then StarCode(a, greedy, UsesAdvanceTest(a, greedy))
    else if max > min then UpToCode(a, max - min, greedy)
    else []
  }

  function QuantCode(a: seq<Instr>, cc: int, n: int, min: int, max: int, greedy: bool): (s: seq<Instr>) {
    if UsesSimpleQuant(a, max, greedy) then SimpleQuantCode(a, min, max)
    else if min == 0 then ResetCode(cc, n) + OptionalCode(a, max, greedy)
    else if min == 1 && max == INT32_MAX && !UsesAdvanceTest(a, greedy) then
      a + [ISplit(!greedy, -(ByteLen(a) + 5))]
    else (if min == 1 then a else ExactlyCode(a, min)) + RestCode(a, min, max, greedy)
  }

  function Code(e: Env, p: Node, back: bool, cc: nat): (s: seq<Instr>)
    requires WellFormed(p)
  {
    match p
    case Empty => []
    case LineStart => [ILineStart]
    case LineEnd => [ILineEnd]
    case WordBoundary(negated) => [IWordBoundary(negated)]
    case Dot => CharCode(e, p, back)
    case Char(_) => CharCode(e, p, back)
    case Class(_) => CharCode(e, p, back)
    case BackReference(n) => [IBackReference(back, n)]
    case Cat(a, b) =>
      if back then Code(e, b, back, cc + Caps(a)) + Code(e, a, back, cc)
      else Code(e, a, back, cc) + Code(e, b, back, cc + Caps(a))
    case Alt(a, b) =>
      var l, r := Code(e, a, back, cc), Code(e, b, back, cc + Caps(a));
      [ISplit(true, ByteLen(l) + 5)] + l + [IGoto(ByteLen(r))] + r
    case Capture(a) => [ISave(back, cc)] + Code(e, a, back, cc + 1) + [ISave(!back, cc)]
    case Look(negative, backward, a) =>
      var inner := Code(e, a, backward, cc);
      [ILookahead(negative, ByteLen(inner) + 1)] + inner + [IMatch]
    case Quant(a, min, max, greedy) => QuantCode(Code(e, a, back, cc), cc, Caps(a), min, max, greedy)
  }

  /** Going backwards, a character is read by stepping over it, testing it and stepping over it again. */
  function CharCode(e: Env, p: Node, back: bool): (s: seq<Instr>)
    requires p.Dot? || p.Char? || (p.Class? && ValidPoints(p.points))
  {
    if back then [IPrev, CharInstr(e, p), IPrev] else [CharInstr(e, p)]
  }

  /** The whole program: an unanchored search loop unless sticky, then capture 0 around the pattern. */
  function SearchPrelude(e: Env): (s: seq<Instr>) {
    if e.flags.sticky then [] else [ISplit(false, 6), IAny, IGoto(-11)]
  }

  function ProgramCode(e: Env, p: Node): (s: seq<Instr>)
    requires WellFormed(p)
  {
    SearchPrelude(e) + Code(e, Capture(p), false, 0) + [IMatch]
  }
}
