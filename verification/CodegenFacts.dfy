/**
 Facts about the emitted code: it leaves the integer stack as deep as it found
 it, and what the linear scans conclude from it is true of the pattern.
 */
module CodegenFacts {
  import opened Opcodes
  import opened Pattern
  import opened Codegen
  import opened Machine

  // ---- the integer stack ----

  lemma {:induction false} DepthAfterConcat(a: seq<Instr>, b: seq<Instr>, d: int)
    ensures DepthAfter(a + b, d) == DepthAfter(b, DepthAfter(a, d))
    decreases |a|
  {
    if a == [] {
      assert a + b == b;
    } else {
      assert (a + b)[1..] == a[1..] + b;
      DepthAfterConcat(a[1..], b, d + StackEffect(a[0]));
    }
  }

  function Max(x: int, y: int): (r: int) { if x > y then x else y }

  lemma {:induction false} MaxDepthConcat(a: seq<Instr>, b: seq<Instr>, d: int)
    ensures MaxDepth(a + b, d) == Max(MaxDepth(a, d), MaxDepth(b, DepthAfter(a, d)))
    decreases |a|
  {
    if a == [] {
      assert a + b == b;
    } else {
      assert (a + b)[1..] == a[1..] + b;
      MaxDepthConcat(a[1..], b, d + StackEffect(a[0]));
    }
  }

  /** Smallest depth met on the way, at most 'd'. */
  function MinDepth(s: seq<Instr>, d: int): (r: int)
    ensures r <= d
  {
    if s == [] then d
    else
      var rest := MinDepth(s[1..], d + StackEffect(s[0]));
      if rest < d then rest else d
  }

  function Min(x: int, y: int): (r: int) { if x < y then x else y }

  lemma {:induction false} MinDepthConcat(a: seq<Instr>, b: seq<Instr>, d: int)
    ensures MinDepth(a + b, d) == Min(MinDepth(a, d), MinDepth(b, DepthAfter(a, d)))
    decreases |a|
  {
    if a == [] {
      assert a + b == b;
    } else {
      assert (a + b)[1..] == a[1..] + b;
      MinDepthConcat(a[1..], b, d + StackEffect(a[0]));
    }
  }

  /** The code ends as deep as it began and is never shallower in between. */
  ghost predicate Balanced(s: seq<Instr>) { forall d :: DepthAfter(s, d) == d && MinDepth(s, d) >= d }

  lemma BalancedConcat(a: seq<Instr>, b: seq<Instr>)
    requires Balanced(a) && Balanced(b)
    ensures Balanced(a + b)
  {
    forall d ensures DepthAfter(a + b, d) == d && MinDepth(a + b, d) >= d {
      DepthAfterConcat(a, b, d);
      MinDepthConcat(a, b, d);
    }
  }

  lemma BalancedOne(i: Instr)
    requires StackEffect(i) == 0
    ensures Balanced([i])
  {
    forall d ensures DepthAfter([i], d) == d && MinDepth([i], d) >= d { DepthOne(i, d); }
  }

  lemma DepthOne(i: Instr, d: int)
    ensures DepthAfter([i], d) == d + StackEffect(i)
    ensures MinDepth([i], d) == Min(d, d + StackEffect(i))
  {
    assert [i][1..] == [];
  }

  lemma DepthTwo(i: Instr, j: Instr, d: int)
    ensures DepthAfter([i, j], d) == d + StackEffect(i) + StackEffect(j)
    ensures MinDepth([i, j], d) == Min(d, Min(d + StackEffect(i), d + StackEffect(i) + StackEffect(j)))
  {
    assert [i, j][1..] == [j];
    DepthOne(j, d + StackEffect(i));
  }

  /** A balanced middle between code that pushes one entry and code that pops it again. */
  lemma BalancedBetween(h: seq<Instr>, a: seq<Instr>, t: seq<Instr>)
    requires Balanced(a)
    requires forall k :: DepthAfter(h, k) == k + 1 && MinDepth(h, k) >= k
    requires forall k :: DepthAfter(t, k) == k - 1 && MinDepth(t, k) >= k - 1
    ensures Balanced(h + a + t)
  {
    forall k ensures DepthAfter(h + a + t, k) == k && MinDepth(h + a + t, k) >= k {
      DepthAfterConcat(h + a, t, k);
      DepthAfterConcat(h, a, k);
      MinDepthConcat(h + a, t, k);
      MinDepthConcat(h, a, k);
      assert DepthAfter(t, k + 1) == k && MinDepth(t, k + 1) >= k;
    }
  }

  /** A counter is pushed before and dropped after, whatever the middle is. */
  lemma BalancedCounted(v: int, a: seq<Instr>, d: int)
    requires Balanced(a)
    ensures Balanced([IPushI32(v)] + a + [ILoop(d), IDrop])
  {
    hide Balanced;
    var head, tail := [IPushI32(v)], [ILoop(d), IDrop];
    forall k ensures DepthAfter(head, k) == k + 1 && MinDepth(head, k) >= k { DepthOne(IPushI32(v), k); }
    forall k ensures DepthAfter(tail, k) == k - 1 && MinDepth(tail, k) >= k - 1 { DepthTwo(ILoop(d), IDrop, k); }
    BalancedBetween(head, a, tail);
  }

  lemma BalancedStar(a: seq<Instr>, greedy: bool, test: bool)
    requires Balanced(a)
    ensures Balanced(StarCode(a, greedy, test))
  {
    hide Balanced;
    var len: int := ByteLen(a);
    if test {
      var split, bne := ISplit(greedy, len + 6), IBneCharPos(-(len + 11));
      var head, tail := [split, IPushCharPos], [bne];
      forall k ensures DepthAfter(head, k) == k + 1 && MinDepth(head, k) >= k { DepthTwo(split, IPushCharPos, k); }
      forall k ensures DepthAfter(tail, k) == k - 1 && MinDepth(tail, k) >= k - 1 { DepthOne(bne, k); }
      BalancedBetween(head, a, tail);
    } else {
      BalancedOne(ISplit(greedy, len + 5));
      BalancedOne(IGoto(-(len + 10)));
      BalancedConcat([ISplit(greedy, len + 5)], a);
      BalancedConcat([ISplit(greedy, len + 5)] + a, [IGoto(-(len + 10))]);
    }
  }

  lemma BalancedUpTo(a: seq<Instr>, n: int, greedy: bool)
    requires Balanced(a)
    ensures Balanced(UpToCode(a, n, greedy))
  {
    var split := ISplit(greedy, ByteLen(a) + 5);
    BalancedOne(split);
    BalancedConcat([split], a);
    BalancedCounted(n, [split] + a, -(ByteLen(a) + 10));
    assert [IPushI32(n), split] + a == [IPushI32(n)] + ([split] + a);
  }

  lemma BalancedOptional(a: seq<Instr>, max: int, greedy: bool)
    requires Balanced(a)
    ensures Balanced(OptionalCode(a, max, greedy))
  {
    BalancedStar(a, greedy, UsesAdvanceTest(a, greedy));
    BalancedUpTo(a, max, greedy);
    BalancedOne(ISplit(greedy, ByteLen(a)));
    BalancedConcat([ISplit(greedy, ByteLen(a))], a);
  }

  lemma BalancedRest(a: seq<Instr>, min: int, max: int, greedy: bool)
    requires Balanced(a)
    ensures Balanced(RestCode(a, min, max, greedy))
  {
    BalancedStar(a, greedy, UsesAdvanceTest(a, greedy));
    BalancedUpTo(a, max - min, greedy);
  }

  lemma BalancedQuant(a: seq<Instr>, cc: int, n: int, min: int, max: int, greedy: bool)
    requires Balanced(a)
    ensures Balanced(QuantCode(a, cc, n, min, max, greedy))
  {
    hide Balanced, StarCode, RestCode, OptionalCode, CheckAdvance, SimpleCount, ByteLen;
    if UsesSimpleQuant(a, max, greedy) {
      var op := ISimpleGreedyQuant(ByteLen(a) + 1, min, max, SimpleCount(a));
      BalancedOne(op);
      BalancedOne(IMatch);
      BalancedConcat([op], a);
      BalancedConcat([op] + a, [IMatch]);
    } else if min == 0 {
      BalancedOptional(a, max, greedy);
      BalancedOne(ISaveReset(cc, cc + n - 1));
      BalancedNil();
      BalancedConcat(ResetCode(cc, n), OptionalCode(a, max, greedy));
    } else if min == 1 && max == INT32_MAX && !UsesAdvanceTest(a, greedy) {
      BalancedOne(ISplit(!greedy, -(ByteLen(a) + 5)));
      BalancedConcat(a, [ISplit(!greedy, -(ByteLen(a) + 5))]);
    } else {
      BalancedCounted(min, a, -(ByteLen(a) + 5));
      BalancedRest(a, min, max, greedy);
      BalancedConcat(if min == 1 then a else ExactlyCode(a, min), RestCode(a, min, max, greedy));
    }
  }

  lemma BalancedNil()
    ensures Balanced([])
  {
  }

  lemma BalancedWrap(i: Instr, a: seq<Instr>, j: Instr)
    requires Balanced(a) && StackEffect(i) == 0 && StackEffect(j) == 0
    ensures Balanced([i] + a + [j])
  {
    BalancedOne(i);
    BalancedOne(j);
    BalancedConcat([i], a);
    BalancedConcat([i] + a, [j]);
  }

  /** Every fragment leaves the integer stack exactly as deep as it found it. */
  lemma {:induction false} CodeBalanced(e: Env, p: Node, back: bool, cc: nat)
    requires WellFormed(p)
    ensures Balanced(Code(e, p, back, cc))
  {
    hide Balanced, QuantCode, ByteLen;
    match p
    case Cat(a, b) =>
      CodeBalanced(e, a, back, cc);
      CodeBalanced(e, b, back, cc + Caps(a));
      BalancedConcat(Code(e, b, back, cc + Caps(a)), Code(e, a, back, cc));
      BalancedConcat(Code(e, a, back, cc), Code(e, b, back, cc + Caps(a)));
    case Alt(a, b) =>
      CodeBalanced(e, a, back, cc);
      CodeBalanced(e, b, back, cc + Caps(a));
      var l, r := Code(e, a, back, cc), Code(e, b, back, cc + Caps(a));
      BalancedWrap(ISplit(true, ByteLen(l) + 5), l, IGoto(ByteLen(r)));
      BalancedConcat([ISplit(true, ByteLen(l) + 5)] + l + [IGoto(ByteLen(r))], r);
    case Capture(a) =>
      CodeBalanced(e, a, back, cc + 1);
      BalancedWrap(ISave(back, cc), Code(e, a, back, cc + 1), ISave(!back, cc));
    case Look(negative, backward, a) =>
      CodeBalanced(e, a, backward, cc);
      var inner := Code(e, a, backward, cc);
      BalancedWrap(ILookahead(negative, ByteLen(inner) + 1), inner, IMatch);
    case Quant(a, min, max, greedy) =>
      CodeBalanced(e, a, back, cc);
      BalancedQuant(Code(e, a, back, cc), cc, Caps(a), min, max, greedy);
    case _ => LeafBalanced(e, p, back, cc);
  }

  lemma LeafBalanced(e: Env, p: Node, back: bool, cc: nat)
    requires WellFormed(p) && !p.Cat? && !p.Alt? && !p.Capture? && !p.Look? && !p.Quant?
    ensures Balanced(Code(e, p, back, cc))
  {
    hide Balanced;
    BalancedNil();
    if p.Dot? || p.Char? || p.Class? {
      var i := CharInstr(e, p);
      BalancedOne(i);
      BalancedWrap(IPrev, [i], IPrev);
      assert [IPrev, i, IPrev] == [IPrev] + [i] + [IPrev];
    } else if p != Empty {
      BalancedOne(Code(e, p, back, cc)[0]);
      assert Code(e, p, back, cc) == [Code(e, p, back, cc)[0]];
    }
  }

  // ---- captures written and referred to ----

  lemma {:induction false} CodeSetsConcat(a: seq<Instr>, b: seq<Instr>)
    ensures CodeSaves(a + b) == CodeSaves(a) + CodeSaves(b)
    ensures CodeRefs(a + b) == CodeRefs(a) + CodeRefs(b)
  {
    if a == [] {
      assert a + b == b;
    } else {
      assert (a + b)[1..] == a[1..] + b;
      CodeSetsConcat(a[1..], b);
    }
  }

  ghost predicate NoSets(s: seq<Instr>) { CodeSaves(s) == {} && CodeRefs(s) == {} }

  lemma SetsOne(i: Instr)
    ensures CodeSaves([i]) == InstrSaves(i) && CodeRefs([i]) == InstrRefs(i)
  {
    assert [i][1..] == [];
    assert CodeSaves([]) == {} && CodeRefs([]) == {};
  }

  lemma SetsTwo(i: Instr, j: Instr)
    ensures CodeSaves([i, j]) == InstrSaves(i) + InstrSaves(j)
    ensures CodeRefs([i, j]) == InstrRefs(i) + InstrRefs(j)
  {
    assert [i, j] == [i] + [j];
    CodeSetsConcat([i], [j]);
    SetsOne(i);
    SetsOne(j);
  }

  lemma SetsAround(h: seq<Instr>, a: seq<Instr>, t: seq<Instr>)
    requires NoSets(h) && NoSets(t)
    ensures CodeSaves(h + a + t) == CodeSaves(a) && CodeRefs(h + a + t) == CodeRefs(a)
  {
    CodeSetsConcat(h + a, t);
    CodeSetsConcat(h, a);
  }

  lemma StarSets(a: seq<Instr>, greedy: bool, test: bool)
    ensures CodeSaves(StarCode(a, greedy, test)) == CodeSaves(a) && CodeRefs(StarCode(a, greedy, test)) == CodeRefs(a)
  {
    hide CodeSaves, CodeRefs;
    var len: int := ByteLen(a);
    SetsTwo(ISplit(greedy, len + 6), IPushCharPos);
    SetsOne(ISplit(greedy, len + 5));
    SetsOne(IBneCharPos(-(len + 11)));
    SetsOne(IGoto(-(len + 10)));
    if test {
      SetsAround([ISplit(greedy, len + 6), IPushCharPos], a, [IBneCharPos(-(len + 11))]);
    } else {
      SetsAround([ISplit(greedy, len + 5)], a, [IGoto(-(len + 10))]);
    }
  }

  lemma CountedSets(a: seq<Instr>, n: int, greedy: bool)
    ensures CodeSaves(UpToCode(a, n, greedy)) == CodeSaves(a) && CodeRefs(UpToCode(a, n, greedy)) == CodeRefs(a)
    ensures CodeSaves(ExactlyCode(a, n)) == CodeSaves(a) && CodeRefs(ExactlyCode(a, n)) == CodeRefs(a)
  {
    hide CodeSaves, CodeRefs;
    var len: int := ByteLen(a);
    SetsTwo(IPushI32(n), ISplit(greedy, len + 5));
    SetsTwo(ILoop(-(len + 10)), IDrop);
    SetsTwo(ILoop(-(len + 5)), IDrop);
    SetsOne(IPushI32(n));
    SetsAround([IPushI32(n), ISplit(greedy, len + 5)], a, [ILoop(-(len + 10)), IDrop]);
    SetsAround([IPushI32(n)], a, [ILoop(-(len + 5)), IDrop]);
  }

  lemma OptionalSets(a: seq<Instr>, max: int, greedy: bool)
    ensures CodeSaves(OptionalCode(a, max, greedy)) == if max == 0 then {} else CodeSaves(a)
    ensures CodeRefs(OptionalCode(a, max, greedy)) == if max == 0 then {} else CodeRefs(a)
  {
    hide StarCode, UpToCode;
    StarSets(a, greedy, UsesAdvanceTest(a, greedy));
    CountedSets(a, max, greedy);
    SetsOne(ISplit(greedy, ByteLen(a)));
    CodeSetsConcat([ISplit(greedy, ByteLen(a))], a);
  }

  lemma RestSets(a: seq<Instr>, min: int, max: int, greedy: bool)
    ensures CodeSaves(RestCode(a, min, max, greedy)) <= CodeSaves(a)
    ensures CodeRefs(RestCode(a, min, max, greedy)) <= CodeRefs(a)
  {
    hide StarCode, UpToCode;
    StarSets(a, greedy, UsesAdvanceTest(a, greedy));
    CountedSets(a, max - min, greedy);
  }

  lemma QuantSets(a: seq<Instr>, cc: nat, n: nat, min: nat, max: nat, greedy: bool)
    requires min <= max && (SimpleCount(a) >= 0 ==> n == 0)
    ensures CodeSaves(QuantCode(a, cc, n, min, max, greedy))
         == (if min == 0 then Span(cc, cc + n - 1) else {}) + (if max == 0 then {} else CodeSaves(a))
    ensures CodeRefs(QuantCode(a, cc, n, min, max, greedy)) == if max == 0 then {} else CodeRefs(a)
  {
    hide CodeSaves, CodeRefs, SimpleCount, CheckAdvance, StarCode, UpToCode, OptionalCode, RestCode, ExactlyCode;
    var plus, quant := ISplit(!greedy, -(ByteLen(a) + 5)), ISimpleGreedyQuant(ByteLen(a) + 1, min, max, SimpleCount(a));
    SetsNil();
    if UsesSimpleQuant(a, max, greedy) {
      SetsOne(quant);
      SetsOne(IMatch);
      SetsAround([quant], a, [IMatch]);
    } else if min == 0 {
      OptionalSets(a, max, greedy);
      CodeSetsConcat(ResetCode(cc, n), OptionalCode(a, max, greedy));
      SetsOne(ISaveReset(cc, cc + n - 1));
    } else if min == 1 && max == INT32_MAX && !UsesAdvanceTest(a, greedy) {
      SetsOne(plus);
      CodeSetsConcat(a, [plus]);
    } else {
      CountedSets(a, min, greedy);
      RestSets(a, min, max, greedy);
      CodeSetsConcat(if min == 1 then a else ExactlyCode(a, min), RestCode(a, min, max, greedy));
    }
  }

  lemma SetsNil()
    ensures NoSets([])
  {
  }

  lemma WrapSets(i: Instr, a: seq<Instr>, j: Instr)
    ensures CodeSaves([i] + a + [j]) == InstrSaves(i) + CodeSaves(a) + InstrSaves(j)
    ensures CodeRefs([i] + a + [j]) == InstrRefs(i) + CodeRefs(a) + InstrRefs(j)
  {
    SetsOne(i);
    SetsOne(j);
    CodeSetsConcat([i], a);
    CodeSetsConcat([i] + a, [j]);
  }

  lemma AltSets(l: seq<Instr>, r: seq<Instr>)
    ensures CodeSaves([ISplit(true, ByteLen(l) + 5)] + l + [IGoto(ByteLen(r))] + r) == CodeSaves(l) + CodeSaves(r)
    ensures CodeRefs([ISplit(true, ByteLen(l) + 5)] + l + [IGoto(ByteLen(r))] + r) == CodeRefs(l) + CodeRefs(r)
  {
    WrapSets(ISplit(true, ByteLen(l) + 5), l, IGoto(ByteLen(r)));
    CodeSetsConcat([ISplit(true, ByteLen(l) + 5)] + l + [IGoto(ByteLen(r))], r);
  }

  ghost predicate SetsAgree(e: Env, p: Node, back: bool, cc: nat)
    requires WellFormed(p)
  {
    CodeSaves(Code(e, p, back, cc)) == Saves(p, cc) && CodeRefs(Code(e, p, back, cc)) == Refs(p)
  }

  /** The captures the scan finds are those the pattern writes and refers to. */
  lemma {:induction false} CodeSets(e: Env, p: Node, back: bool, cc: nat)
    requires WellFormed(p)
    ensures SetsAgree(e, p, back, cc)
  {
    hide SetsAgree, Code;
    match p
    case Cat(a, b) =>
      CodeSets(e, a, back, cc);
      CodeSets(e, b, back, cc + Caps(a));
      PairSets(e, p, back, cc);
    case Alt(a, b) =>
      CodeSets(e, a, back, cc);
      CodeSets(e, b, back, cc + Caps(a));
      PairSets(e, p, back, cc);
    case Capture(a) =>
      CodeSets(e, a, back, cc + 1);
      WrappedSets(e, p, back, cc);
    case Look(_, backward, a) =>
      CodeSets(e, a, backward, cc);
      WrappedSets(e, p, back, cc);
    case Quant(a, _, _, _) =>
      CodeSets(e, a, back, cc);
      NodeQuantSets(e, p, back, cc);
    case _ => LeafSets(e, p, back, cc);
  }

  /** The code of a concatenation: its parts in order, the last one first when going backwards. */
  lemma CatCode(e: Env, p: Node, back: bool, cc: nat)
    requires p.Cat? && WellFormed(p) && WellFormed(p.init) && WellFormed(p.last)
    ensures var mid := cc + Caps(p.init);
            Code(e, p, back, cc) ==
            if back then Code(e, p.last, back, mid) + Code(e, p.init, back, cc)
            else Code(e, p.init, back, cc) + Code(e, p.last, back, mid)
  {
    hide WellFormed, Caps;
  }

  lemma AltCode(e: Env, p: Node, back: bool, cc: nat)
    requires p.Alt? && WellFormed(p) && WellFormed(p.left) && WellFormed(p.right)
    ensures var l, r := Code(e, p.left, back, cc), Code(e, p.right, back, cc + Caps(p.left));
            Code(e, p, back, cc) == [ISplit(true, ByteLen(l) + 5)] + l + [IGoto(ByteLen(r))] + r
  {
    hide WellFormed, Caps, ByteLen;
  }

  lemma CaptureCode(e: Env, p: Node, back: bool, cc: nat)
    requires p.Capture? && WellFormed(p) && WellFormed(p.body)
    ensures Code(e, p, back, cc) == [ISave(back, cc)] + Code(e, p.body, back, cc + 1) + [ISave(!back, cc)]
  {
    hide WellFormed;
  }

  lemma LookCode(e: Env, p: Node, back: bool, cc: nat)
    requires p.Look? && WellFormed(p) && WellFormed(p.body)
    ensures var inner := Code(e, p.body, p.backward, cc);
            Code(e, p, back, cc) == [ILookahead(p.negative, ByteLen(inner) + 1)] + inner + [IMatch]
  {
    hide WellFormed, ByteLen;
  }

  lemma QuantNodeCode(e: Env, p: Node, back: bool, cc: nat)
    requires p.Quant? && WellFormed(p) && WellFormed(p.body)
    ensures Code(e, p, back, cc) == QuantCode(Code(e, p.body, back, cc), cc, Caps(p.body), p.min, p.max, p.greedy)
  {
    hide WellFormed, QuantCode, Caps;
  }

  /** One step of the captures a node writes and refers to. */
  lemma NodeSets(p: Node, cc: nat)
    ensures p.Cat? ==> Saves(p, cc) == Saves(p.init, cc) + Saves(p.last, cc + Caps(p.init))
                       && Refs(p) == Refs(p.init) + Refs(p.last)
    ensures p.Alt? ==> Saves(p, cc) == Saves(p.left, cc) + Saves(p.right, cc + Caps(p.left))
                       && Refs(p) == Refs(p.left) + Refs(p.right)
    ensures p.Capture? ==> Saves(p, cc) == {cc as int} + Saves(p.body, cc + 1) && Refs(p) == Refs(p.body)
    ensures p.Look? ==> Saves(p, cc) == Saves(p.body, cc) && Refs(p) == Refs(p.body)
  {
    hide Caps, Span;
  }

  lemma PairSets(e: Env, p: Node, back: bool, cc: nat)
    requires WellFormed(p) && (p.Cat? || p.Alt?)
    requires p.Cat? ==> SetsAgree(e, p.init, back, cc) && SetsAgree(e, p.last, back, cc + Caps(p.init))
    requires p.Alt? ==> SetsAgree(e, p.left, back, cc) && SetsAgree(e, p.right, back, cc + Caps(p.left))
    ensures SetsAgree(e, p, back, cc)
  {
    hide CodeSaves, CodeRefs, ByteLen, Code, Saves, Refs, Caps, WellFormed;
    Children(p);
    NodeSets(p, cc);
    if p.Cat? {
      CatCode(e, p, back, cc);
      CatSets(Code(e, p.init, back, cc), Code(e, p.last, back, cc + Caps(p.init)), back);
    } else {
      AltCode(e, p, back, cc);
      AltSets(Code(e, p.left, back, cc), Code(e, p.right, back, cc + Caps(p.left)));
    }
  }

  lemma WrappedSets(e: Env, p: Node, back: bool, cc: nat)
    requires WellFormed(p) && (p.Capture? || p.Look?)
    requires p.Capture? ==> SetsAgree(e, p.body, back, cc + 1)
    requires p.Look? ==> SetsAgree(e, p.body, p.backward, cc)
    ensures SetsAgree(e, p, back, cc)
  {
    hide CodeSaves, CodeRefs, ByteLen, Code, Saves, Refs, WellFormed;
    Children(p);
    NodeSets(p, cc);
    if p.Capture? {
      CaptureCode(e, p, back, cc);
      CaptureSets(Code(e, p.body, back, cc + 1), back, cc);
    } else {
      LookCode(e, p, back, cc);
      LookSets(Code(e, p.body, p.backward, cc), p.negative);
    }
  }

  lemma NodeQuantSets(e: Env, p: Node, back: bool, cc: nat)
    requires WellFormed(p) && p.Quant? && SetsAgree(e, p.body, back, cc)
    ensures SetsAgree(e, p, back, cc)
  {
    hide CodeSaves, CodeRefs, QuantCode, SimpleCount, Span, ByteLen;
    if SimpleCount(Code(e, p.body, back, cc)) >= 0 { SimpleHasNoCaptures(e, p.body, back, cc); }
    QuantSets(Code(e, p.body, back, cc), cc, Caps(p.body), p.min, p.max, p.greedy);
  }

  lemma CatSets(l: seq<Instr>, r: seq<Instr>, back: bool)
    ensures CodeSaves(if back then r + l else l + r) == CodeSaves(l) + CodeSaves(r)
    ensures CodeRefs(if back then r + l else l + r) == CodeRefs(l) + CodeRefs(r)
  {
    CodeSetsConcat(r, l);
    CodeSetsConcat(l, r);
  }

  lemma CaptureSets(a: seq<Instr>, back: bool, cc: nat)
    ensures CodeSaves([ISave(back, cc)] + a + [ISave(!back, cc)]) == {cc as int} + CodeSaves(a)
    ensures CodeRefs([ISave(back, cc)] + a + [ISave(!back, cc)]) == CodeRefs(a)
  {
    WrapSets(ISave(back, cc), a, ISave(!back, cc));
  }

  lemma LookSets(a: seq<Instr>, negative: bool)
    ensures CodeSaves([ILookahead(negative, ByteLen(a) + 1)] + a + [IMatch]) == CodeSaves(a)
    ensures CodeRefs([ILookahead(negative, ByteLen(a) + 1)] + a + [IMatch]) == CodeRefs(a)
  {
    WrapSets(ILookahead(negative, ByteLen(a) + 1), a, IMatch);
  }

  lemma LeafSets(e: Env, p: Node, back: bool, cc: nat)
    requires WellFormed(p) && !p.Cat? && !p.Alt? && !p.Capture? && !p.Look? && !p.Quant?
    ensures SetsAgree(e, p, back, cc)
  {
    hide CodeSaves, CodeRefs;
    SetsNil();
    if p.Dot? || p.Char? || p.Class? {
      var i := CharInstr(e, p);
      SetsOne(i);
      SetsOne(IPrev);
      SetsAround([IPrev], [i], [IPrev]);
      assert [IPrev, i, IPrev] == [IPrev] + [i] + [IPrev];
    } else if p != Empty {
      SetsOne(Code(e, p, back, cc)[0]);
      assert Code(e, p, back, cc) == [Code(e, p, back, cc)[0]];
    }
  }

  // ---- straight-line atoms ----

  lemma {:induction false} SimpleCountConcat(a: seq<Instr>, b: seq<Instr>)
    ensures SimpleCount(a + b) ==
            if SimpleCount(a) < 0 || SimpleCount(b) < 0 then -1 else SimpleCount(a) + SimpleCount(b)
  {
    if a == [] {
      assert a + b == b;
    } else {
      assert (a + b)[1..] == a[1..] + b;
      SimpleCountConcat(a[1..], b);
    }
  }

  lemma SimpleCountHead(i: Instr, s: seq<Instr>)
    requires !IsSimple(i)
    ensures SimpleCount([i] + s) == -1
  {
    assert ([i] + s)[1..] == s;
  }

  lemma StarNotSimple(a: seq<Instr>, greedy: bool, test: bool)
    ensures SimpleCount(StarCode(a, greedy, test)) == -1
  {
    hide SimpleCount;
    var s := StarCode(a, greedy, test);
    assert s == [s[0]] + s[1..];
    SimpleCountHead(s[0], s[1..]);
  }

  lemma CountedNotSimple(a: seq<Instr>, n: int, greedy: bool)
    ensures SimpleCount(UpToCode(a, n, greedy)) == -1 && SimpleCount(ExactlyCode(a, n)) == -1
  {
    hide SimpleCount;
    var s, t := UpToCode(a, n, greedy), ExactlyCode(a, n);
    assert s == [s[0]] + s[1..];
    assert t == [t[0]] + t[1..];
    SimpleCountHead(s[0], s[1..]);
    SimpleCountHead(t[0], t[1..]);
  }

  /**
   A quantified term is straight-line code itself exactly when it is emitted as nothing
   or as one bare copy of such a body.
   */
  lemma SimpleQuantExactly(a: seq<Instr>, cc: nat, n: nat, min: nat, max: nat, greedy: bool)
    requires min <= max
    ensures SimpleCount(QuantCode(a, cc, n, min, max, greedy)) >= 0
       <==> (max == 0 && n == 0) || (min == max == 1 && SimpleCount(a) >= 0 && !UsesSimpleQuant(a, max, greedy))
    ensures max == 0 && n == 0 ==> QuantCode(a, cc, n, min, max, greedy) == []
    ensures min == max == 1 && !UsesSimpleQuant(a, max, greedy) ==> QuantCode(a, cc, n, min, max, greedy) == a
  {
    hide SimpleCount, CheckAdvance, StarCode, UpToCode, ExactlyCode;
    SimpleCountNil();
    if UsesSimpleQuant(a, max, greedy) {
      var quant := ISimpleGreedyQuant(ByteLen(a) + 1, min, max, SimpleCount(a));
      assert [quant] + a + [IMatch] == [quant] + (a + [IMatch]);
      SimpleCountHead(quant, a + [IMatch]);
    } else {
      assert max == 0 && n == 0 ==> ResetCode(cc, n) + OptionalCode(a, max, greedy) == [];
      assert min == max == 1 ==> a + RestCode(a, min, max, greedy) == a;
      if SimpleCount(QuantCode(a, cc, n, min, max, greedy)) >= 0 {
        SimpleQuantShape(a, cc, n, min, max, greedy);
      }
    }
  }

  lemma SimpleCountNil()
    ensures SimpleCount([]) == 0
  {
  }

  /** Straight-line code of a quantified term is either empty or one copy of its body. */
  lemma SimpleQuantShape(a: seq<Instr>, cc: nat, n: nat, min: nat, max: nat, greedy: bool)
    requires min <= max && SimpleCount(QuantCode(a, cc, n, min, max, greedy)) >= 0
    ensures (max == 0 && n == 0 && QuantCode(a, cc, n, min, max, greedy) == [])
         || (min == 1 && max == 1 && QuantCode(a, cc, n, min, max, greedy) == a)
  {
    hide SimpleCount, CheckAdvance, StarCode, UpToCode, ExactlyCode;
    var plus, quant := ISplit(!greedy, -(ByteLen(a) + 5)), ISimpleGreedyQuant(ByteLen(a) + 1, min, max, SimpleCount(a));
    if UsesSimpleQuant(a, max, greedy) {
      assert [quant] + a + [IMatch] == [quant] + (a + [IMatch]);
      SimpleCountHead(quant, a + [IMatch]);
    } else if min == 0 {
      SimpleCountConcat(ResetCode(cc, n), OptionalCode(a, max, greedy));
      SimpleCountHead(ISaveReset(cc, cc + n - 1), []);
      assert [ISaveReset(cc, cc + n - 1)] + [] == [ISaveReset(cc, cc + n - 1)];
      SimpleCountHead(ISplit(greedy, ByteLen(a)), a);
      StarNotSimple(a, greedy, UsesAdvanceTest(a, greedy));
      CountedNotSimple(a, max, greedy);
    } else if min == 1 && max == INT32_MAX && !UsesAdvanceTest(a, greedy) {
      assert [plus] + [] == [plus];
      SimpleCountConcat(a, [plus]);
      SimpleCountHead(plus, []);
    } else {
      SimpleCountConcat(if min == 1 then a else ExactlyCode(a, min), RestCode(a, min, max, greedy));
      StarNotSimple(a, greedy, UsesAdvanceTest(a, greedy));
      CountedNotSimple(a, max - min, greedy);
      CountedNotSimple(a, min, greedy);
      if max == 1 { assert a + [] == a; }
    }
  }

  lemma {:induction false} SimpleHasNoCaptures(e: Env, p: Node, back: bool, cc: nat)
    requires WellFormed(p) && SimpleCount(Code(e, p, back, cc)) >= 0
    ensures Caps(p) == 0
    decreases p, 0
  {
    hide SimpleCount, QuantCode;
    match p
    case Cat(a, b) =>
      SimpleCountConcat(Code(e, b, back, cc + Caps(a)), Code(e, a, back, cc));
      SimpleCountConcat(Code(e, a, back, cc), Code(e, b, back, cc + Caps(a)));
      SimpleHasNoCaptures(e, a, back, cc);
      SimpleHasNoCaptures(e, b, back, cc + Caps(a));
    case Alt(_, _) => NotSimple(Code(e, p, back, cc));
    case Capture(_) => NotSimple(Code(e, p, back, cc));
    case Look(_, _, _) => NotSimple(Code(e, p, back, cc));
    case Quant(a, min, max, greedy) =>
      SimpleQuantShape(Code(e, a, back, cc), cc, Caps(a), min, max, greedy);
      if max == 1 { SimpleHasNoCaptures(e, a, back, cc); }
    case _ =>
  }

  lemma NotSimple(s: seq<Instr>)
    requires s != [] && !IsSimple(s[0])
    ensures SimpleCount(s) == -1
  {
    assert s == [s[0]] + s[1..];
  }

  // ---- the advance check ----

  predicate AllNeutral(s: seq<Instr>) { forall i :: 0 <= i < |s| ==> IsNeutral(s[i]) }

  lemma {:induction false} StartsConcat(a: seq<Instr>, b: seq<Instr>)
    ensures StartsWithChar(a + b) == (StartsWithChar(a) || (AllNeutral(a) && StartsWithChar(b)))
  {
    if a == [] {
      assert a + b == b;
    } else {
      assert (a + b)[1..] == a[1..] + b;
      StartsConcat(a[1..], b);
      assert AllNeutral(a) == (IsNeutral(a[0]) && AllNeutral(a[1..])) by {
        if IsNeutral(a[0]) && AllNeutral(a[1..]) {
          forall i | 0 <= i < |a| ensures IsNeutral(a[i]) { if i > 0 { assert a[i] == a[1..][i - 1]; } }
        }
      }
    }
  }

  predicate Decides(i: Instr) { !IsNeutral(i) && !IsCharInstr(i) }

  lemma StartsHead(s: seq<Instr>)
    requires s != [] && Decides(s[0])
    ensures !StartsWithChar(s)
  {
  }

  lemma StarStarts(a: seq<Instr>, greedy: bool, test: bool)
    ensures !StartsWithChar(StarCode(a, greedy, test))
  {
    StartsHead(StarCode(a, greedy, test));
  }

  lemma UpToStarts(a: seq<Instr>, n: int, greedy: bool)
    ensures !StartsWithChar(UpToCode(a, n, greedy))
  {
    var s := UpToCode(a, n, greedy);
    assert s[1..][0] == ISplit(greedy, ByteLen(a) + 5);
    StartsHead(s[1..]);
  }

  lemma ExactlyStarts(a: seq<Instr>, n: int)
    ensures StartsWithChar(ExactlyCode(a, n)) ==> StartsWithChar(a)
    ensures !AllNeutral(ExactlyCode(a, n))
  {
    hide StartsWithChar, ByteLen, AllNeutral;
    var tail := [ILoop(-(ByteLen(a) + 5)), IDrop];
    StartsConcat([IPushI32(n)] + a, tail);
    StartsConcat([IPushI32(n)], a);
    StartsHead(tail);
    OneNeutral(IPushI32(n));
    NotAllNeutral(ExactlyCode(a, n), 1 + |a|);
  }

  lemma OneNeutral(i: Instr)
    ensures !IsCharInstr(i) ==> !StartsWithChar([i])
  {
    assert [i][1..] == [];
  }

  lemma NotAllNeutral(s: seq<Instr>, k: nat)
    requires k < |s| && !IsNeutral(s[k])
    ensures !AllNeutral(s)
  {
  }

  lemma QuantStarts(a: seq<Instr>, cc: nat, n: nat, min: nat, max: nat, greedy: bool)
    requires min <= max && StartsWithChar(QuantCode(a, cc, n, min, max, greedy))
    ensures min > 0 && StartsWithChar(a)
  {
    hide StartsWithChar, SimpleCount, CheckAdvance, StarCode, UpToCode, ExactlyCode, ByteLen;
    var plus := ISplit(!greedy, -(ByteLen(a) + 5));
    StartsNil();
    if UsesSimpleQuant(a, max, greedy) {
      StartsHead(SimpleQuantCode(a, min, max));
    } else if min == 0 {
      StartsConcat(ResetCode(cc, n), OptionalCode(a, max, greedy));
      OneNeutral(ISaveReset(cc, cc + n - 1));
      StartsHead([ISplit(greedy, ByteLen(a))] + a);
      StarStarts(a, greedy, UsesAdvanceTest(a, greedy));
      UpToStarts(a, max, greedy);
    } else if min == 1 && max == INT32_MAX && !UsesAdvanceTest(a, greedy) {
      StartsConcat(a, [plus]);
      StartsHead([plus]);
    } else {
      StartsConcat(if min == 1 then a else ExactlyCode(a, min), RestCode(a, min, max, greedy));
      StarStarts(a, greedy, UsesAdvanceTest(a, greedy));
      UpToStarts(a, max - min, greedy);
      ExactlyStarts(a, min);
    }
  }

  lemma StartsNil()
    ensures !StartsWithChar([])
  {
  }

  /** When the linear scan answers 1, the node really has to consume. */
  lemma {:induction false} StartsMeansMustMove(e: Env, p: Node, back: bool, cc: nat)
    requires WellFormed(p) && StartsWithChar(Code(e, p, back, cc))
    ensures MustMove(p)
  {
    hide StartsWithChar, QuantCode, ByteLen;
    match p
    case Cat(a, b) =>
      var l, r := Code(e, a, back, cc), Code(e, b, back, cc + Caps(a));
      StartsConcat(l, r);
      StartsConcat(r, l);
      if StartsWithChar(l) { StartsMeansMustMove(e, a, back, cc); }
      if StartsWithChar(r) { StartsMeansMustMove(e, b, back, cc + Caps(a)); }
    case Alt(_, _) => StartsHead(Code(e, p, back, cc));
    case Capture(a) =>
      var inner := Code(e, a, back, cc + 1);
      StartsConcat([ISave(back, cc)] + inner, [ISave(!back, cc)]);
      StartsConcat([ISave(back, cc)], inner);
      OneNeutral(ISave(back, cc));
      OneNeutral(ISave(!back, cc));
      StartsMeansMustMove(e, a, back, cc + 1);
    case Look(_, _, _) => StartsHead(Code(e, p, back, cc));
    case Quant(a, min, max, greedy) =>
      QuantStarts(Code(e, a, back, cc), cc, Caps(a), min, max, greedy);
      StartsMeansMustMove(e, a, back, cc);
    case Empty => StartsNil();
    case LineStart => OneNeutral(ILineStart);
    case LineEnd => OneNeutral(ILineEnd);
    case WordBoundary(n) => OneNeutral(IWordBoundary(n));
    case BackReference(n) => OneNeutral(IBackReference(back, n));
    case _ =>
  }
}
