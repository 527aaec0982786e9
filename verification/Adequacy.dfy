/**
 Whole programs: the machine started on a compiled pattern gives the first
 result of the reference search, halts exactly when that search comes to a
 decision, and is never stuck.
 */
module Adequacy {
  import opened Bytes
  import opened Opcodes
  import opened Pattern
  import opened Matcher
  import opened MatcherFacts
  import opened Codegen
  import opened CodegenFacts
  import opened CharRange
  import opened Machine
  import opened Traces
  import opened Fragments
  import opened Straight
  import opened Loops

  /** The limits the compiler enforces, and offsets that fit their 32-bit fields. */
  ghost predicate Compilable(e: Env, p: Node) {
    && WellFormed(p)
    && 1 + Caps(p) <= CAPTURE_COUNT_MAX
    && MaxDepth(ProgramCode(e, p), 0) <= STACK_SIZE_MAX
    && ByteLen(ProgramCode(e, p)) < TWO31
  }

  // ---- every operand fits ----

  lemma EncodableOne(i: Instr)
    requires Encodable(i)
    ensures EncodableAll([i])
  {
  }

  lemma EncodableWrap(i: Instr, a: seq<Instr>, j: Instr)
    requires Encodable(i) && EncodableAll(a) && Encodable(j)
    ensures EncodableAll([i] + a + [j])
  {
  }

  lemma StarEncodable(a: seq<Instr>, greedy: bool, test: bool)
    requires EncodableAll(a) && ByteLen(StarCode(a, greedy, test)) < TWO31
    ensures EncodableAll(StarCode(a, greedy, test))
  {
    hide ByteLen;
    var len: int := ByteLen(a);
    if test {
      StarShape(a, greedy);
      LenCons(ISplit(greedy, len + 6), [IPushCharPos] + (a + [IBneCharPos(-(len + 11))]));
      LenCons(IPushCharPos, a + [IBneCharPos(-(len + 11))]);
      ByteLenConcat(a, [IBneCharPos(-(len + 11))]);
      LenOne(IBneCharPos(-(len + 11)));
    } else {
      WrapLen(ISplit(greedy, len + 5), a, IGoto(-(len + 10)));
    }
  }

  lemma WrapLen(i: Instr, a: seq<Instr>, j: Instr)
    ensures ByteLen([i] + a + [j]) == Size(i) + ByteLen(a) + Size(j)
  {
    hide ByteLen;
    assert [i] + a + [j] == [i] + (a + [j]);
    LenCons(i, a + [j]);
    ByteLenConcat(a, [j]);
    LenOne(j);
  }

  lemma UpToEncodable(a: seq<Instr>, n: int, greedy: bool)
    requires EncodableAll(a) && IsU32(n) && ByteLen(UpToCode(a, n, greedy)) < TWO31
    ensures EncodableAll(UpToCode(a, n, greedy))
  {
    hide ByteLen;
    var len: int := ByteLen(a);
    var tail := [ILoop(-(len + 10)), IDrop];
    UpToShape(a, n, greedy);
    LenCons(IPushI32(n), [ISplit(greedy, len + 5)] + (a + tail));
    LenCons(ISplit(greedy, len + 5), a + tail);
    ByteLenConcat(a, tail);
    assert tail == [ILoop(-(len + 10))] + [IDrop];
    LenCons(ILoop(-(len + 10)), [IDrop]);
  }

  lemma ExactlyEncodable(a: seq<Instr>, n: int)
    requires EncodableAll(a) && IsU32(n) && ByteLen(ExactlyCode(a, n)) < TWO31
    ensures EncodableAll(ExactlyCode(a, n))
  {
    hide ByteLen;
    var len: int := ByteLen(a);
    var tail := [ILoop(-(len + 5)), IDrop];
    ExactlyShape(a, n);
    LenCons(IPushI32(n), a + tail);
    ByteLenConcat(a, tail);
    assert tail == [ILoop(-(len + 5))] + [IDrop];
    LenCons(ILoop(-(len + 5)), [IDrop]);
  }

  lemma OptionalEncodable(a: seq<Instr>, max: int, greedy: bool)
    requires EncodableAll(a) && 0 <= max <= INT32_MAX && ByteLen(OptionalCode(a, max, greedy)) < TWO31
    ensures EncodableAll(OptionalCode(a, max, greedy))
  {
    hide ByteLen, StarCode, UpToCode, UsesAdvanceTest;
    if max == 1 {
      LenCons(ISplit(greedy, ByteLen(a)), a);
    } else if max == INT32_MAX {
      StarEncodable(a, greedy, UsesAdvanceTest(a, greedy));
    } else if max > 0 {
      UpToEncodable(a, max, greedy);
    }
  }

  lemma RestEncodable(a: seq<Instr>, min: int, max: int, greedy: bool)
    requires EncodableAll(a) && 0 <= min <= max <= INT32_MAX && ByteLen(RestCode(a, min, max, greedy)) < TWO31
    ensures EncodableAll(RestCode(a, min, max, greedy))
  {
    hide ByteLen, StarCode, UpToCode, UsesAdvanceTest;
    if max == INT32_MAX {
      StarEncodable(a, greedy, UsesAdvanceTest(a, greedy));
    } else if max > min {
      UpToEncodable(a, max - min, greedy);
    }
  }

  lemma QuantEncodable(a: seq<Instr>, cc: nat, n: nat, min: nat, max: nat, greedy: bool)
    requires min <= max <= INT32_MAX && cc + n <= CAPTURE_COUNT_MAX
    requires (max > 0 ==> EncodableAll(a)) && ByteLen(QuantCode(a, cc, n, min, max, greedy)) < TWO31
    ensures EncodableAll(QuantCode(a, cc, n, min, max, greedy))
  {
    if max == 0 {
      DeadQuantEncodable(a, cc, n, greedy);
      return;
    }
    hide ByteLen, EncodableAll, OptionalCode, RestCode, ExactlyCode, UsesAdvanceTest;
    var plus := ISplit(!greedy, -(ByteLen(a) + 5));
    if UsesSimpleQuant(a, max, greedy) {
      var op := ISimpleGreedyQuant(ByteLen(a) + 1, min, max, SimpleCount(a));
      WrapLen(op, a, IMatch);
      LenAtLeast(a);
      EncodableWrap(op, a, IMatch);
    } else if min == 0 {
      var reset, rest := ResetCode(cc, n), OptionalCode(a, max, greedy);
      ByteLenConcat(reset, rest);
      OptionalEncodable(a, max, greedy);
      EncodableNil();
      if n > 0 { EncodableOne(ISaveReset(cc, cc + n - 1)); }
      EncodableConcat(reset, rest);
    } else if min == 1 && max == INT32_MAX && !UsesAdvanceTest(a, greedy) {
      ByteLenConcat(a, [plus]);
      LenOne(plus);
      EncodableOne(plus);
      EncodableConcat(a, [plus]);
    } else {
      var first, rest := if min == 1 then a else ExactlyCode(a, min), RestCode(a, min, max, greedy);
      ByteLenConcat(first, rest);
      if min != 1 { ExactlyEncodable(a, min); }
      RestEncodable(a, min, max, greedy);
      EncodableConcat(first, rest);
    }
  }

  lemma EncodableNil()
    ensures EncodableAll([])
  {
  }

  lemma LenAtLeast(a: seq<Instr>)
    ensures SimpleCount(a) <= ByteLen(a)
  {
  }

  lemma LeafEncodable(e: Env, p: Node, back: bool, cc: nat)
    requires ValidEnv(e) && WellFormed(p) && IsLeaf(p)
    ensures EncodableAll(Code(e, p, back, cc))
  {
    if p.Dot? || p.Char? || p.Class? {
      hide CharInstr;
      CharInstrCorrect(e, p, 0);
    }
  }

  lemma AltLen(split: Instr, l: seq<Instr>, jump: Instr, r: seq<Instr>)
    ensures ByteLen([split] + l + [jump] + r) == Size(split) + ByteLen(l) + Size(jump) + ByteLen(r)
  {
    hide ByteLen;
    WrapLen(split, l, jump);
    ByteLenConcat([split] + l + [jump], r);
  }

  lemma AltEncodable(l: seq<Instr>, r: seq<Instr>)
    requires EncodableAll(l) && EncodableAll(r) && ByteLen(l) + ByteLen(r) + 10 < TWO31
    ensures EncodableAll([ISplit(true, ByteLen(l) + 5)] + l + [IGoto(ByteLen(r))] + r)
  {
    hide ByteLen;
    var split, jump := ISplit(true, ByteLen(l) + 5), IGoto(ByteLen(r));
    EncodableWrap(split, l, jump);
    EncodableConcat([split] + l + [jump], r);
  }

  /** The code of a pattern within the compiler's limits can be written out: no operand overflows its field. */
  lemma {:induction false} CodeEncodable(e: Env, p: Node, back: bool, cc: nat)
    requires ValidEnv(e) && WellFormed(p) && cc + Caps(p) <= CAPTURE_COUNT_MAX
    requires ByteLen(Code(e, p, back, cc)) < TWO31
    ensures EncodableAll(Code(e, p, back, cc))
  {
    hide ByteLen, EncodableAll, ValidEnv, Code;
    CodeLen(e, p, back, cc);
    match p
    case Cat(a, b) =>
      CodeEncodable(e, a, back, cc);
      CodeEncodable(e, b, back, cc + Caps(a));
      PairEncodable(e, p, back, cc);
    case Alt(a, b) =>
      CodeEncodable(e, a, back, cc);
      CodeEncodable(e, b, back, cc + Caps(a));
      PairEncodable(e, p, back, cc);
    case Capture(a) =>
      CodeEncodable(e, a, back, cc + 1);
      NestedEncodable(e, p, back, cc);
    case Look(_, backward, a) =>
      CodeEncodable(e, a, backward, cc);
      NestedEncodable(e, p, back, cc);
    case Quant(a, min, max, greedy) =>
      if max > 0 { CodeEncodable(e, a, back, cc); }
      NestedEncodable(e, p, back, cc);
    case _ => LeafEncodable(e, p, back, cc);
  }

  /** Emitted children are no longer than their parent. */
  lemma CodeLen(e: Env, p: Node, back: bool, cc: nat)
    requires WellFormed(p)
    ensures p.Cat? ==> ByteLen(Code(e, p, back, cc)) ==
                       ByteLen(Code(e, p.init, back, cc)) + ByteLen(Code(e, p.last, back, cc + Caps(p.init)))
    ensures p.Alt? ==> ByteLen(Code(e, p, back, cc)) ==
                       ByteLen(Code(e, p.left, back, cc)) + ByteLen(Code(e, p.right, back, cc + Caps(p.left))) + 10
    ensures p.Capture? ==> ByteLen(Code(e, p.body, back, cc + 1)) + 4 == ByteLen(Code(e, p, back, cc))
    ensures p.Look? ==> ByteLen(Code(e, p.body, p.backward, cc)) + 6 == ByteLen(Code(e, p, back, cc))
    ensures p.Quant? && p.max > 0 ==> ByteLen(Code(e, p.body, back, cc)) <= ByteLen(Code(e, p, back, cc))
  {
    hide ByteLen, QuantCode, Code, WellFormed, Caps;
    Children(p);
    if p.Cat? {
      CatCode(e, p, back, cc);
      ByteLenConcat(Code(e, p.init, back, cc), Code(e, p.last, back, cc + Caps(p.init)));
      ByteLenConcat(Code(e, p.last, back, cc + Caps(p.init)), Code(e, p.init, back, cc));
    } else if p.Alt? {
      AltCode(e, p, back, cc);
      var l, r := Code(e, p.left, back, cc), Code(e, p.right, back, cc + Caps(p.left));
      AltLen(ISplit(true, ByteLen(l) + 5), l, IGoto(ByteLen(r)), r);
    } else if p.Capture? {
      CaptureCode(e, p, back, cc);
      WrapLen(ISave(back, cc), Code(e, p.body, back, cc + 1), ISave(!back, cc));
    } else if p.Look? {
      LookCode(e, p, back, cc);
      var inner := Code(e, p.body, p.backward, cc);
      WrapLen(ILookahead(p.negative, ByteLen(inner) + 1), inner, IMatch);
    } else if p.Quant? {
      QuantNodeCode(e, p, back, cc);
      BodyShorter(Code(e, p.body, back, cc), cc, Caps(p.body), p.min, p.max, p.greedy);
    }
  }

  lemma PairEncodable(e: Env, p: Node, back: bool, cc: nat)
    requires WellFormed(p) && (p.Cat? || p.Alt?) && ByteLen(Code(e, p, back, cc)) < TWO31
    requires var (a, b) := if p.Cat? then (p.init, p.last) else (p.left, p.right);
             EncodableAll(Code(e, a, back, cc)) && EncodableAll(Code(e, b, back, cc + Caps(a)))
    ensures EncodableAll(Code(e, p, back, cc))
  {
    hide ByteLen, EncodableAll;
    CodeLen(e, p, back, cc);
    if p.Cat? {
      var l, r := Code(e, p.init, back, cc), Code(e, p.last, back, cc + Caps(p.init));
      EncodableConcat(l, r);
      EncodableConcat(r, l);
    } else {
      AltEncodable(Code(e, p.left, back, cc), Code(e, p.right, back, cc + Caps(p.left)));
    }
  }

  lemma NestedEncodable(e: Env, p: Node, back: bool, cc: nat)
    requires WellFormed(p) && cc + Caps(p) <= CAPTURE_COUNT_MAX && ByteLen(Code(e, p, back, cc)) < TWO31
    requires p.Capture? || p.Look? || p.Quant?
    requires p.Capture? ==> EncodableAll(Code(e, p.body, back, cc + 1))
    requires p.Look? ==> EncodableAll(Code(e, p.body, p.backward, cc))
    requires p.Quant? && p.max > 0 ==> EncodableAll(Code(e, p.body, back, cc))
    ensures EncodableAll(Code(e, p, back, cc))
  {
    hide ByteLen, EncodableAll, QuantCode;
    CodeLen(e, p, back, cc);
    if p.Capture? {
      EncodableWrap(ISave(back, cc), Code(e, p.body, back, cc + 1), ISave(!back, cc));
    } else if p.Look? {
      var inner := Code(e, p.body, p.backward, cc);
      EncodableWrap(ILookahead(p.negative, ByteLen(inner) + 1), inner, IMatch);
    } else {
      QuantEncodable(Code(e, p.body, back, cc), cc, Caps(p.body), p.min, p.max, p.greedy);
    }
  }

  /** A body that is emitted at all is no longer than the quantified term. */
  lemma BodyShorter(a: seq<Instr>, cc: nat, n: nat, min: nat, max: nat, greedy: bool)
    requires min <= max
    ensures max > 0 ==> ByteLen(a) <= ByteLen(QuantCode(a, cc, n, min, max, greedy))
  {
    hide ByteLen, StarCode, UpToCode, ExactlyCode, UsesAdvanceTest;
    var plus := ISplit(!greedy, -(ByteLen(a) + 5));
    StarLonger(a, greedy, UsesAdvanceTest(a, greedy));
    CountedLonger(a, max, greedy);
    CountedLonger(a, min, greedy);
    if UsesSimpleQuant(a, max, greedy) {
      WrapLen(ISimpleGreedyQuant(ByteLen(a) + 1, min, max, SimpleCount(a)), a, IMatch);
    } else if min == 0 {
      ByteLenConcat(ResetCode(cc, n), OptionalCode(a, max, greedy));
      LenCons(ISplit(greedy, ByteLen(a)), a);
    } else if min == 1 && max == INT32_MAX && !UsesAdvanceTest(a, greedy) {
      ByteLenConcat(a, [plus]);
    } else {
      ByteLenConcat(if min == 1 then a else ExactlyCode(a, min), RestCode(a, min, max, greedy));
    }
  }

  lemma StarLonger(a: seq<Instr>, greedy: bool, test: bool)
    ensures ByteLen(StarCode(a, greedy, test)) >= ByteLen(a)
  {
    hide ByteLen;
    var len: int := ByteLen(a);
    if test {
      StarShape(a, greedy);
      LenCons(ISplit(greedy, len + 6), [IPushCharPos] + (a + [IBneCharPos(-(len + 11))]));
      LenCons(IPushCharPos, a + [IBneCharPos(-(len + 11))]);
      ByteLenConcat(a, [IBneCharPos(-(len + 11))]);
    } else {
      WrapLen(ISplit(greedy, len + 5), a, IGoto(-(len + 10)));
    }
  }

  lemma CountedLonger(a: seq<Instr>, n: int, greedy: bool)
    ensures ByteLen(UpToCode(a, n, greedy)) >= ByteLen(a) && ByteLen(ExactlyCode(a, n)) >= ByteLen(a)
  {
    hide ByteLen;
    var len: int := ByteLen(a);
    var t1, t2 := [ILoop(-(len + 10)), IDrop], [ILoop(-(len + 5)), IDrop];
    UpToShape(a, n, greedy);
    ExactlyShape(a, n);
    LenCons(IPushI32(n), [ISplit(greedy, len + 5)] + (a + t1));
    LenCons(ISplit(greedy, len + 5), a + t1);
    ByteLenConcat(a, t1);
    LenCons(IPushI32(n), a + t2);
    ByteLenConcat(a, t2);
  }

  lemma DeadQuantEncodable(a: seq<Instr>, cc: nat, n: nat, greedy: bool)
    requires cc + n <= CAPTURE_COUNT_MAX
    ensures EncodableAll(QuantCode(a, cc, n, 0, 0, greedy))
  {
    hide SimpleCount, ByteLen;
    assert QuantCode(a, cc, n, 0, 0, greedy) == ResetCode(cc, n) + [];
  }

  // ---- the program ----

  /** The compiled program, as the header and code bytes determine it. */
  ghost function Program(e: Env, p: Node): (P: Prog)
    requires ValidEnv(e) && Compilable(e, p)
    ensures P.e == e && P.captureCount == 1 + Caps(p) && Placed(P, 0, ProgramCode(e, p), 0)
  {
    ProgramEncodable(e, p);
    var s := ProgramCode(e, p);
    assert EncAll(s)[0..|EncAll(s)|] == EncAll(s);
    Prog(EncAll(s), e, 1 + Caps(p), MaxDepth(s, 0))
  }

  lemma ProgramEncodable(e: Env, p: Node)
    requires ValidEnv(e) && Compilable(e, p)
    ensures EncodableAll(ProgramCode(e, p))
  {
    hide ByteLen, EncodableAll, Code, MaxDepth, ValidEnv;
    var prelude, body := SearchPrelude(e), Code(e, Capture(p), false, 0);
    ByteLenConcat(prelude + body, [IMatch]);
    ByteLenConcat(prelude, body);
    CodeEncodable(e, Capture(p), false, 0);
    EncodableOne(IMatch);
    PreludeEncodable(e);
    EncodableConcat(prelude, body);
    EncodableConcat(prelude + body, [IMatch]);
  }

  lemma PreludeEncodable(e: Env)
    ensures EncodableAll(SearchPrelude(e))
  {
  }

  function Start(P: Prog, pos: nat): (c: Config) { Run(0, St(pos, NoCaps(P)), [], []) }

  function NoCaps(P: Prog): (caps: seq<int>) { seq(2 * P.captureCount, i => -1) }

  /** Where the pieces of the program are. */
  lemma ProgramParts(P: Prog, p: Node)
    requires ValidEnv(P.e) && WellFormed(p) && 1 + Caps(p) <= P.captureCount && Placed(P, 0, ProgramCode(P.e, p), 0)
    ensures var at := if P.e.flags.sticky then 0 else 11;
            && NodeAt(P, Capture(p), false, 0, at, 0)
            && Placed(P, at + Len(P, Capture(p), false, 0), [IMatch], 0)
            && (!P.e.flags.sticky ==> Placed(P, 0, [ISplit(false, 6)], 0) && Placed(P, 5, [IAny], 0)
                                      && Placed(P, 6, [IGoto(-11)], 0))
  {
    hide Placed, ByteLen, Code, ValidEnv, Balanced, WellFormed, Caps;
    CaptureWellFormed(p);
    var body := Code(P.e, Capture(p), false, 0);
    CodeBalanced(P.e, Capture(p), false, 0);
    if P.e.flags.sticky {
      assert ProgramCode(P.e, p) == body + [IMatch];
      PlacedPair(P, 0, body, [IMatch], 0);
    } else {
      var s := body + [IMatch];
      assert ProgramCode(P.e, p) == [ISplit(false, 6)] + ([IAny] + ([IGoto(-11)] + s));
      PlacedCons(P, 0, ISplit(false, 6), [IAny] + ([IGoto(-11)] + s), 0);
      PlacedCons(P, 5, IAny, [IGoto(-11)] + s, 0);
      PlacedCons(P, 6, IGoto(-11), s, 0);
      PlacedPair(P, 11, body, [IMatch], 0);
    }
  }

  ghost function MatchPc(P: Prog, p: Node): (pc: int)
    requires WellFormed(p)
  {
    (if P.e.flags.sticky then 0 else 11) + Len(P, Capture(p), false, 0)
  }

  ghost predicate Loaded(P: Prog, p: Node) {
    ValidEnv(P.e) && WellFormed(p) && 1 + Caps(p) <= P.captureCount && Placed(P, 0, ProgramCode(P.e, p), 0)
  }

  /** The search loop delivers the results of every start position in turn. */
  lemma {:induction false} SearchEmits(P: Prog, p: Node, pos: nat, caps: seq<int>, saved: seq<Entry>, f: nat)
    requires Loaded(P, p) && Ok(P, St(pos, caps))
    ensures Emits(P, Run(0, St(pos, caps), [], saved), MatchPc(P, p), [], saved, Search(P.e, p, pos, caps, f),
                  Bound(P, f))
    decreases |P.e.input| - pos
  {
    hide Emits, Placed, Match, Len, Append, Steps;
    ProgramParts(P, p);
    var st, pcEnd, b := St(pos, caps), MatchPc(P, p), Bound(P, f);
    var here := Match(P.e, Capture(p), false, 0, st, f);
    if P.e.flags.sticky {
      NodeEmits(P, Capture(p), false, 0, 0, st, [], saved, f);
    } else {
      var top := Save(SplitState, 5, st, []);
      NodeEmits(P, Capture(p), false, 0, 11, st, [], saved + [top], f);
      var next := if pos >= |P.e.input| then Nothing else Search(P.e, p, pos + 1, caps, f);
      NextStart(P, p, pos, caps, saved, f);
      SplitEmits(P, 0, false, 6, 0, st, [], saved, here, next, pcEnd, [], b);
      EmitsWeaken(P, Run(0, st, [], saved), pcEnd, [], saved, Append(here, next), b + 1, b);
      AppendNothing(here);
    }
  }

  lemma AppendNothing(x: Res)
    ensures Append(x, Nothing) == x
  {
    assert x.rs + [] == x.rs;
  }

  /** Skip one character and search again, or give up at the end of the subject. */
  lemma {:induction false} NextStart(P: Prog, p: Node, pos: nat, caps: seq<int>, saved: seq<Entry>, f: nat)
    requires Loaded(P, p) && Ok(P, St(pos, caps)) && !P.e.flags.sticky
    requires Placed(P, 5, [IAny], 0) && Placed(P, 6, [IGoto(-11)], 0)
    ensures Emits(P, Run(5, St(pos, caps), [], saved), MatchPc(P, p), [], saved,
                  if pos >= |P.e.input| then Nothing else Search(P.e, p, pos + 1, caps, f), Bound(P, f))
    decreases |P.e.input| - pos, 0
  {
    hide Emits, Placed, Match, Len, Append, Steps, Search, Decode, Loaded, MatchPc;
    LoadedIsWellFormed(P, p);
    var st, pcEnd, b := St(pos, caps), MatchPc(P, p), Bound(P, f);
    StepAt(P, 5, IAny, 0, st, [], saved);
    if pos >= |P.e.input| {
      EmitsNothing(P, saved, pcEnd, [], b);
      StepThen(P, Run(5, st, [], saved), Fail(saved), pcEnd, [], saved, Nothing, b);
    } else {
      var st1, x := St(pos + 1, caps), Search(P.e, p, pos + 1, caps, f);
      SearchEmits(P, p, pos + 1, caps, saved, f);
      StepAt(P, 6, IGoto(-11), 0, st1, [], saved);
      StepThen(P, Run(6, st1, [], saved), Run(0, st1, [], saved), pcEnd, [], saved, x, b);
      StepThen(P, Run(5, st, [], saved), Run(6, st1, [], saved), pcEnd, [], saved, x, b);
    }
  }

  // ---- what the machine answers ----

  /** The reference search from 'pos'. */
  function Answer(P: Prog, p: Node, pos: nat, f: nat): (r: Res)
    requires WellFormed(p)
  {
    Search(P.e, p, pos, NoCaps(P), f)
  }

  /** Once the search has a first result, the machine halts with its captures. */
  lemma FirstResultHalts(P: Prog, p: Node, pos: nat, f: nat) returns (n: nat)
    requires Loaded(P, p) && pos <= |P.e.input| && Answer(P, p, pos, f).rs != []
    ensures Steps(P, Start(P, pos), n) == Halt(Some(Answer(P, p, pos, f).rs[0].caps))
  {
    hide Emits, Placed, Search, Len, Steps;
    var x, c, pcEnd := Answer(P, p, pos, f), Start(P, pos), MatchPc(P, p);
    SearchEmits(P, p, pos, NoCaps(P), [], f);
    ProgramParts(P, p);
    var k, t := EmitsFirst(P, c, pcEnd, [], [], x, Bound(P, f));
    var m := MatchUnderLook(P, pcEnd, 0, x.rs[0], [], [], t);
    StepsAdd(P, c, k, m);
    StepsAdd(P, c, k + m, 1);
    HaltStep(P, x.rs[0].caps);
    n := k + m + 1;
  }

  lemma HaltStep(P: Prog, caps: seq<int>)
    ensures Steps(P, Succeed(caps, []), 1) == Halt(Some(caps)) && Steps(P, Fail([]), 1) == Halt(None)
  {
    assert Steps(P, Step(P, Succeed(caps, [])), 0) == Step(P, Succeed(caps, []));
    assert Steps(P, Step(P, Fail([])), 0) == Step(P, Fail([]));
  }

  /** Once the search is finished and empty, the machine halts without a match. */
  lemma NoResultHalts(P: Prog, p: Node, pos: nat, f: nat) returns (n: nat)
    requires Loaded(P, p) && pos <= |P.e.input| && Answer(P, p, pos, f) == Nothing
    ensures Steps(P, Start(P, pos), n) == Halt(None)
  {
    hide Emits, Placed, Search, Len, Steps;
    var c, pcEnd := Start(P, pos), MatchPc(P, p);
    SearchEmits(P, p, pos, NoCaps(P), [], f);
    EmitsEnd(P, c, pcEnd, [], [], Nothing, Bound(P, f));
    var k: nat :| Steps(P, c, k) == Fail([]);
    StepsAdd(P, c, k, 1);
    HaltStep(P, []);
    n := k + 1;
  }

  /** While the search is undecided at fuel 'f', the machine runs for about 'f' steps at least. */
  lemma UndecidedRuns(P: Prog, p: Node, pos: nat, f: nat) returns (n: nat)
    requires Loaded(P, p) && pos <= |P.e.input|
    requires Answer(P, p, pos, f).rs == [] && !Answer(P, p, pos, f).done
    ensures n + Slack(P) >= f && Live(Steps(P, Start(P, pos), n))
  {
    hide Emits, Placed, Search, Len, Steps;
    var c := Start(P, pos);
    SearchEmits(P, p, pos, NoCaps(P), [], f);
    EmitsEnd(P, c, MatchPc(P, p), [], [], Answer(P, p, pos, f), Bound(P, f));
    n :| n >= Bound(P, f) && Live(Steps(P, c, n));
  }

  /** Whatever the machine stops with is what the search says, given fuel for that many steps. */
  lemma HaltedMeansDecided(P: Prog, p: Node, pos: nat, n: nat) returns (f: nat)
    requires Loaded(P, p) && pos <= |P.e.input| && !Live(Steps(P, Start(P, pos), n))
    ensures f == n + Slack(P) + 1
    ensures var x := Answer(P, p, pos, f);
            && (x.rs != [] || x.done)
            && Steps(P, Start(P, pos), n) == Halt(if x.rs != [] then Some(x.rs[0].caps) else None)
  {
    hide Emits, Placed, Search, Len, Steps;
    f := n + Slack(P) + 1;
    var c, x := Start(P, pos), Answer(P, p, pos, f);
    if x.rs != [] {
      var k := FirstResultHalts(P, p, pos, f);
      HaltUnique(P, c, n, k);
    } else if x.done {
      var k := NoResultHalts(P, p, pos, f);
      HaltUnique(P, c, n, k);
    } else {
      var k := UndecidedRuns(P, p, pos, f);
      StepsAdd(P, c, n, k - n);
      HaltStays(P, Steps(P, c, n), k - n);
      assert false;
    }
  }

  /**
   Main theorem. For every pattern and subject: the machine reports a match with
   captures 'caps' exactly when the reference search finds it first, and reports
   no match exactly when the search ends empty.
   */
  lemma MachineAgreesWithSearch(P: Prog, p: Node, pos: nat, caps: seq<int>)
    requires Loaded(P, p) && pos <= |P.e.input|
    ensures (exists n: nat :: Steps(P, Start(P, pos), n) == Halt(Some(caps)))
       <==> (exists f: nat :: Answer(P, p, pos, f).rs != [] && Answer(P, p, pos, f).rs[0].caps == caps)
    ensures (exists n: nat :: Steps(P, Start(P, pos), n) == Halt(None))
       <==> (exists f: nat :: Answer(P, p, pos, f) == Nothing)
  {
    hide Loaded, Answer, Steps, Start;
    LoadedIsWellFormed(P, p);
    if n: nat :| Steps(P, Start(P, pos), n) == Halt(Some(caps)) {
      var f := HaltedMeansDecided(P, p, pos, n);
    }
    if f: nat :| Answer(P, p, pos, f).rs != [] && Answer(P, p, pos, f).rs[0].caps == caps {
      var n := FirstResultHalts(P, p, pos, f);
    }
    if n: nat :| Steps(P, Start(P, pos), n) == Halt(None) {
      var f := HaltedMeansDecided(P, p, pos, n);
    }
    if f: nat :| Answer(P, p, pos, f) == Nothing {
      var n := NoResultHalts(P, p, pos, f);
    }
  }

  /** The machine stops exactly when the search reaches a decision at some depth. */
  lemma HaltsIffDecided(P: Prog, p: Node, pos: nat)
    requires Loaded(P, p) && pos <= |P.e.input|
    ensures (exists n: nat :: !Live(Steps(P, Start(P, pos), n)))
       <==> (exists f: nat :: Answer(P, p, pos, f).rs != [] || Answer(P, p, pos, f).done)
  {
    hide Loaded, Search, Steps, Start;
    LoadedIsWellFormed(P, p);
    if n: nat :| !Live(Steps(P, Start(P, pos), n)) {
      var f := HaltedMeansDecided(P, p, pos, n);
    }
    if f: nat :| Answer(P, p, pos, f).rs != [] || Answer(P, p, pos, f).done {
      if Answer(P, p, pos, f).rs != [] {
        var n := FirstResultHalts(P, p, pos, f);
      } else {
        var n := NoResultHalts(P, p, pos, f);
      }
    }
  }

  /** No run of a compiled pattern leaves its code, its stacks or its captures. */
  lemma NeverStuck(P: Prog, p: Node, pos: nat, n: nat)
    requires Loaded(P, p) && pos <= |P.e.input|
    ensures Steps(P, Start(P, pos), n) != Stuck
  {
    hide Loaded, Answer, Steps, Start;
    if Steps(P, Start(P, pos), n) == Stuck {
      var f := HaltedMeansDecided(P, p, pos, n);
      assert false;
    }
  }

  /** What 'Loaded' asks for is what compiling within the limits gives. */
  lemma CompiledIsLoaded(e: Env, p: Node)
    requires ValidEnv(e) && Compilable(e, p)
    ensures Loaded(Program(e, p), p)
  {
  }

  // ---- termination ----

  lemma {:induction false} SearchDone(e: Env, p: Node, pos: nat, caps: seq<int>, f: nat)
    requires WellFormed(p) && Guarded(p, 1) && pos <= |e.input| && f >= Need(p, |e.input|)
    ensures Search(e, p, pos, caps, f).done
    decreases |e.input| - pos
  {
    hide Match, Need, Guarded;
    assert Guarded(Capture(p), 0) && Need(Capture(p), |e.input|) == Need(p, |e.input|) by {
      GuardedCapture(p, |e.input|);
    }
    MatchDone(e, Capture(p), false, 0, St(pos, caps), f);
    if !e.flags.sticky && pos < |e.input| { SearchDone(e, p, pos + 1, caps, f); }
  }

  lemma GuardedCapture(p: Node, n: nat)
    requires Guarded(p, 1)
    ensures Guarded(Capture(p), 0) && Need(Capture(p), n) == Need(p, n)
  {
  }

  /** A guarded pattern halts on every subject, from every start position. */
  lemma GuardedHalts(P: Prog, p: Node, pos: nat)
    requires Loaded(P, p) && Guarded(p, 1) && pos <= |P.e.input|
    ensures exists n: nat :: Steps(P, Start(P, pos), n).Halt?
  {
    hide Loaded, Search, Steps, Start, Guarded, Need;
    var f := Need(p, |P.e.input|);
    LoadedIsWellFormed(P, p);
    SearchDone(P.e, p, pos, NoCaps(P), f);
    if Answer(P, p, pos, f).rs != [] {
      var n := FirstResultHalts(P, p, pos, f);
    } else {
      var n := NoResultHalts(P, p, pos, f);
    }
  }

  lemma LoadedIsWellFormed(P: Prog, p: Node)
    requires Loaded(P, p)
    ensures WellFormed(p)
  {
  }

  // ---- and where it fails ----

  /** A lazy loop over nothing, followed by a class without members: "(?:)*?[]". */
  const LAZY_EMPTY_LOOP: Node := Cat(Quant(Empty, 0, INT32_MAX, false), Class([]))

  /** A greedy loop whose body refers to a capture it sets: "(?:()\1)*". */
  const SELF_REFERENTIAL_LOOP: Node := Quant(Cat(Capture(Empty), BackReference(1)), 0, INT32_MAX, true)

  lemma {:induction false} LazyStarUnfinished(e: Env, cc: nat, st: St, f: nat)
    ensures !Star(e, Empty, false, cc, false, st, f).done
  {
    if f > 0 {
      var g := ThenStar(e, Empty, false, cc, false, st.pos, f - 1);
      BindOne(st, g);
      LazyStarUnfinished(e, cc, st, f - 1);
    }
  }

  lemma {:induction false} BindBarren(x: Res, g: St -> Res)
    requires forall st :: g(st) == Nothing
    ensures Bind(x, g) == Res([], x.done)
    decreases |x.rs|
  {
    if x.rs != [] { BindBarren(Res(x.rs[1..], x.done), g); }
  }

  lemma LazyEmptyLoopUndecided(e: Env, st: St, f: nat)
    ensures Match(e, LAZY_EMPTY_LOOP, false, 1, st, f) == Res([], false)
  {
    hide Bind;
    var loop := Quant(Empty, 0, INT32_MAX, false);
    var g := ThenOptional(e, Empty, false, 1, 0, INT32_MAX, false, f);
    NoRounds(e, Empty, false, 1, false, st, f);
    BindOne(st, g);
    LazyStarUnfinished(e, 1, st, f);
    var h := ThenNode(e, Class([]), false, 1, f);
    forall r ensures h(r) == Nothing { EmptyClassFails(e, r, f); }
    BindBarren(Match(e, loop, false, 1, st, f), h);
  }

  lemma EmptyClassFails(e: Env, st: St, f: nat)
    ensures Match(e, Class([]), false, 1, st, f) == Nothing
  {
  }

  lemma SearchUndecided(e: Env, p: Node, pos: nat, caps: seq<int>, f: nat)
    requires WellFormed(p) && Match(e, p, false, 1, SetCap(St(pos, caps), 0), f) == Res([], false)
    ensures Search(e, p, pos, caps, f) == Res([], false)
  {
    hide *;
    CaptureWellFormed(p);
    CaptureMatch(e, Capture(p), false, 0, St(pos, caps), f);
    BindUnfinished(ThenClose(false, 0));
    SearchStops(e, p, pos, caps, f);
  }

  lemma CaptureWellFormed(p: Node)
    requires WellFormed(p)
    ensures WellFormed(Capture(p)) && Caps(Capture(p)) == 1 + Caps(p)
  {
  }

  lemma BindUnfinished(g: St -> Res)
    ensures Bind(Res([], false), g) == Res([], false)
  {
  }

  lemma SearchStops(e: Env, p: Node, pos: nat, caps: seq<int>, f: nat)
    requires WellFormed(p) && Match(e, Capture(p), false, 0, St(pos, caps), f) == Res([], false)
    ensures Search(e, p, pos, caps, f) == Res([], false)
  {
    hide Match;
  }

  /** The machine never stops on an undecided search. */
  lemma UndecidedNeverHalts(P: Prog, p: Node, pos: nat, n: nat)
    requires Loaded(P, p) && pos <= |P.e.input|
    requires forall f: nat :: Answer(P, p, pos, f) == Res([], false)
    ensures Live(Steps(P, Start(P, pos), n))
  {
    hide Loaded, Steps, Start, Search;
    LoadedIsWellFormed(P, p);
    if !Live(Steps(P, Start(P, pos), n)) {
      var f := HaltedMeansDecided(P, p, pos, n);
      assert false;
    }
  }

  /** Code without stack operations and tables stays at its depth and is short. */
  lemma {:induction false} FlatCode(s: seq<Instr>, d: int)
    requires forall i :: 0 <= i < |s| ==> StackEffect(s[i]) == 0 && Size(s[i]) <= 5
    ensures MaxDepth(s, d) == d && ByteLen(s) <= 5 * |s|
  {
    hide StackEffect, Size;
    if s != [] { FlatCode(s[1..], d + StackEffect(s[0])); }
  }

  /** A pattern whose code is flat is within every limit. */
  lemma FlatCompilable(e: Env, p: Node, s: seq<Instr>)
    requires WellFormed(p) && 1 + Caps(p) <= CAPTURE_COUNT_MAX && s == Code(e, p, false, 1) && |s| <= 10
    requires forall i :: 0 <= i < |s| ==> StackEffect(s[i]) == 0 && Size(s[i]) <= 5
    ensures Compilable(e, p)
  {
    hide Code, Caps, WellFormed;
    ProgramList(e, p, s);
    FlatCode(ProgramCode(e, p), 0);
  }

  lemma ProgramList(e: Env, p: Node, s: seq<Instr>)
    requires WellFormed(p) && s == Code(e, p, false, 1)
    ensures ProgramCode(e, p) == SearchPrelude(e) + ([ISave(false, 0)] + s + [ISave(true, 0)]) + [IMatch]
  {
    CaptureWellFormed(p);
  }

  /** The code of the lazy loop: try to leave first, else go round without moving. */
  lemma LazyEmptyLoopCode(e: Env)
    ensures Code(e, LAZY_EMPTY_LOOP, false, 1) == [ISplit(false, 5), IGoto(-10), IChar32(UINT32_MAX)]
  {
    var a: seq<Instr> := [];
    assert Code(e, Empty, false, 1) == a && ByteLen(a) == 0 && CodeSaves(a) == {};
    assert QuantCode(a, 1, 0, 0, INT32_MAX, false) == [ISplit(false, 5), IGoto(-10)];
  }

  const SELF_BODY: seq<Instr> := [ISave(false, 1), ISave(true, 1), IBackReference(false, 1)]

  lemma SelfBodyCode(e: Env)
    ensures Code(e, SELF_REFERENTIAL_LOOP.body, false, 1) == SELF_BODY && Caps(SELF_REFERENTIAL_LOOP.body) == 1
  {
    var Cat(a, b) := SELF_REFERENTIAL_LOOP.body;
    assert Code(e, Empty, false, 2) == [] && Caps(a) == 1;
    assert Code(e, a, false, 1) == [ISave(false, 1)] + [] + [ISave(true, 1)];
    assert Code(e, b, false, 2) == [IBackReference(false, 1)];
  }

  lemma SelfBodyScans()
    ensures ByteLen(SELF_BODY) == 6 && SimpleCount(SELF_BODY) == -1 && CheckAdvance(SELF_BODY) == -1
  {
    var a := SELF_BODY;
    assert a[1..] == [ISave(true, 1), IBackReference(false, 1)] && a[1..][1..] == [IBackReference(false, 1)];
    assert 1 in CodeSaves(a) && 1 in CodeRefs(a) && 1 in CodeSaves(a) * CodeRefs(a);
  }

  /** The code of the self-referential loop: its reset, and a loop without a test. */
  lemma SelfLoopCode(e: Env)
    ensures Code(e, SELF_REFERENTIAL_LOOP, false, 1)
         == [ISaveReset(1, 1), ISplit(true, 11), ISave(false, 1), ISave(true, 1), IBackReference(false, 1), IGoto(-16)]
  {
    hide ByteLen, SimpleCount, CheckAdvance, Caps;
    SelfBodyCode(e);
    SelfBodyScans();
    var p := SELF_REFERENTIAL_LOOP;
    assert Code(e, p, false, 1) == QuantCode(SELF_BODY, 1, 1, 0, INT32_MAX, true);
  }

  lemma LazyEmptyLoopCompilable(e: Env)
    ensures Compilable(e, LAZY_EMPTY_LOOP) && !Guarded(LAZY_EMPTY_LOOP, 1)
  {
    hide Compilable, MaxDepth, ByteLen, Code;
    LazyEmptyLoopCode(e);
    FlatCompilable(e, LAZY_EMPTY_LOOP, [ISplit(false, 5), IGoto(-10), IChar32(UINT32_MAX)]);
  }

  lemma SelfLoopCompilable(e: Env)
    ensures Compilable(e, SELF_REFERENTIAL_LOOP)
  {
    hide Compilable, MaxDepth, ByteLen, Code;
    SelfLoopCode(e);
    FlatCompilable(e, SELF_REFERENTIAL_LOOP,
                   [ISaveReset(1, 1), ISplit(true, 11), ISave(false, 1), ISave(true, 1), IBackReference(false, 1),
                    IGoto(-16)]);
  }

  /**
   Without a guard the machine can run for ever: lazy loops have no zero-advance
   test. The compiler accepts the pattern under all flags.
   */
  lemma LazyEmptyLoopNeverHalts(e: Env, pos: nat, n: nat)
    requires ValidEnv(e) && pos <= |e.input|
    ensures Compilable(e, LAZY_EMPTY_LOOP) && !Guarded(LAZY_EMPTY_LOOP, 1)
    ensures var P := Program(e, LAZY_EMPTY_LOOP); Live(Steps(P, Start(P, pos), n))
  {
    hide Loaded, Steps, Start, Search, Match, Compilable, Program, ValidEnv, Guarded, Code;
    LazyEmptyLoopCompilable(e);
    var P := Program(e, LAZY_EMPTY_LOOP);
    CompiledIsLoaded(e, LAZY_EMPTY_LOOP);
    forall f: nat ensures Answer(P, LAZY_EMPTY_LOOP, pos, f) == Res([], false) {
      LazyEmptyLoopUndecided(e, SetCap(St(pos, NoCaps(P)), 0), f);
      SearchUndecided(e, LAZY_EMPTY_LOOP, pos, NoCaps(P), f);
    }
    UndecidedNeverHalts(P, LAZY_EMPTY_LOOP, pos, n);
  }

  lemma EmptyCaptureMatch(e: Env, st: St, f: nat)
    requires |st.caps| >= 4
    ensures Match(e, Capture(Empty), false, 1, st, f) == Unit(SetCap(SetCap(st, 2), 3))
  {
    hide Bind, SetCap;
    CaptureMatch(e, Capture(Empty), false, 1, st, f);
    BindOne(SetCap(st, 2), ThenClose(false, 1));
  }

  lemma EmptyReferenceMatch(e: Env, st: St, f: nat)
    requires |st.caps| >= 4 && st.caps[2] == st.pos == st.caps[3] <= |e.input|
    ensures Match(e, BackReference(1), false, 2, st, f) == Unit(st)
  {
    assert RefPos(e, 1, false, st) == Some(st.pos);
  }

  /** One round of the self-referential body succeeds without moving. */
  lemma SelfRound(e: Env, st: St, f: nat) returns (st': St)
    requires st.pos <= |e.input| && |st.caps| >= 4
    ensures Match(e, SELF_REFERENTIAL_LOOP.body, false, 1, st, f) == Unit(st')
    ensures st'.pos == st.pos && |st'.caps| == |st.caps|
  {
    hide Bind;
    st' := SetCap(SetCap(st, 2), 3);
    var g := ThenNode(e, BackReference(1), false, 2, f);
    EmptyCaptureMatch(e, st, f);
    EmptyReferenceMatch(e, st', f);
    BindOne(st', g);
    SelfBody(e, st, f);
  }

  lemma SelfBody(e: Env, st: St, f: nat)
    ensures Match(e, SELF_REFERENTIAL_LOOP.body, false, 1, st, f)
         == Bind(Match(e, Capture(Empty), false, 1, st, f), ThenNode(e, BackReference(1), false, 2, f))
  {
    hide Bind;
    var Cat(a, b) := SELF_REFERENTIAL_LOOP.body;
  }

  lemma {:induction false} SelfStarUndecided(e: Env, st: St, f: nat)
    requires st.pos <= |e.input| && |st.caps| >= 4
    ensures Star(e, SELF_REFERENTIAL_LOOP.body, false, 1, true, st, f) == Res([], false)
    decreases f
  {
    hide Match, Bind;
    var a := SELF_REFERENTIAL_LOOP.body;
    SelfIsSelfReferential();
    if f > 0 {
      var st' := SelfRound(e, st, f - 1);
      BindOne(st', ThenStar(e, a, false, 1, true, st.pos, f - 1));
      SelfStarUndecided(e, st', f - 1);
    }
  }

  lemma SelfIsSelfReferential()
    ensures SelfReferential(SELF_REFERENTIAL_LOOP.body, 1) && !Guarded(SELF_REFERENTIAL_LOOP, 1)
  {
    var a := SELF_REFERENTIAL_LOOP.body;
    assert 1 in Saves(a, 1) && 1 in Refs(a);
    assert 1 in Saves(a, 1) * Refs(a);
  }

  lemma SelfLoopUndecided(e: Env, st: St, f: nat)
    requires st.pos <= |e.input| && |st.caps| >= 4
    ensures Match(e, SELF_REFERENTIAL_LOOP, false, 1, st, f) == Res([], false)
  {
    hide Bind, Star;
    var a := SELF_REFERENTIAL_LOOP.body;
    var st0 := ResetCaps(st, 1, 1);
    NoRounds(e, a, false, 1, true, st0, f);
    BindOne(st0, ThenOptional(e, a, false, 1, 0, INT32_MAX, true, f));
    SelfStarUndecided(e, st0, f);
  }

  /**
   A greedy loop over a body that refers to its own captures is compiled without
   the test, and can run for ever too.
   */
  lemma SelfReferentialLoopNeverHalts(e: Env, pos: nat, n: nat)
    requires ValidEnv(e) && pos <= |e.input|
    ensures Compilable(e, SELF_REFERENTIAL_LOOP) && !Guarded(SELF_REFERENTIAL_LOOP, 1)
    ensures var P := Program(e, SELF_REFERENTIAL_LOOP); Live(Steps(P, Start(P, pos), n))
  {
    hide Loaded, Steps, Start, Search, Match, Compilable, Program, ValidEnv, Guarded, Code;
    SelfIsSelfReferential();
    SelfLoopCompilable(e);
    var P := Program(e, SELF_REFERENTIAL_LOOP);
    CompiledIsLoaded(e, SELF_REFERENTIAL_LOOP);
    forall f: nat ensures Answer(P, SELF_REFERENTIAL_LOOP, pos, f) == Res([], false) {
      SelfLoopUndecided(e, SetCap(St(pos, NoCaps(P)), 0), f);
      SearchUndecided(e, SELF_REFERENTIAL_LOOP, pos, NoCaps(P), f);
    }
    UndecidedNeverHalts(P, SELF_REFERENTIAL_LOOP, pos, n);
  }
}
