/**
 Straight-line atoms and the fast greedy quantifier built on them. Such an
 atom matches in at most one way and always takes the same number of
 characters, so "step back and continue" visits the same states, in the same
 order, as the general loop.
 */
module Straight {
  import opened Bytes
  import opened Opcodes
  import opened Pattern
  import opened Matcher
  import opened MatcherFacts
  import opened Codegen
  import opened CodegenFacts
  import opened CharRange
  import opened Machine
  import opened Traces
  import opened Fragments

  /** The position after running straight-line code, or None. */
  function Path(e: Env, s: seq<Instr>, pos: nat): (r: Option<nat>) {
    if s == [] then Some(pos)
    else if !IsSimple(s[0]) then None
    else
      match SimpleStep(e, s[0], pos)
      case None => None
      case Some(to) => Path(e, s[1..], to)
  }

  lemma {:induction false} PathConcat(e: Env, a: seq<Instr>, b: seq<Instr>, pos: nat)
    ensures Path(e, a + b, pos) == match Path(e, a, pos) case None => None case Some(to) => Path(e, b, to)
    decreases |a|
  {
    hide SimpleStep;
    if a == [] {
      assert a + b == b;
    } else {
      assert (a + b)[1..] == a[1..] + b;
      if IsSimple(a[0]) {
        match SimpleStep(e, a[0], pos)
        case None =>
        case Some(to) => PathConcat(e, a[1..], b, to);
      }
    }
  }

  /** A character count that is exact: every successful run moves by 'SimpleCount'. */
  lemma {:induction false} PathAdvance(e: Env, s: seq<Instr>, pos: nat)
    requires SimpleCount(s) >= 0 && pos <= |e.input|
    ensures Path(e, s, pos).Some? ==> Path(e, s, pos).value == pos + SimpleCount(s) <= |e.input|
  {
    if s != [] {
      match SimpleStep(e, s[0], pos)
      case None =>
      case Some(to) => PathAdvance(e, s[1..], to);
    }
  }

  /** The reference list of a straight-line node has at most one entry, where its code leads. */
  lemma {:induction false} SimpleMatch(e: Env, p: Node, back: bool, cc: nat, st: St, f: nat)
    requires WellFormed(p) && ValidEnv(e) && st.pos <= |e.input|
    requires SimpleCount(Code(e, p, back, cc)) >= 0
    ensures Match(e, p, back, cc, st, f) == Positioned(st, Path(e, Code(e, p, back, cc), st.pos))
    decreases p
  {
    hide SimpleCount, Path, Bind, QuantCode, Match;
    match p
    case Cat(_, _) => SimpleCat(e, p, back, cc, st, f);
    case Quant(_, _, _, _) => SimpleQuantNode(e, p, back, cc, st, f);
    case Alt(_, _) => NotSimple(Code(e, p, back, cc));
    case Capture(_) => NotSimple(Code(e, p, back, cc));
    case Look(_, _, _) => NotSimple(Code(e, p, back, cc));
    case BackReference(_) => NotSimple(Code(e, p, back, cc));
    case _ => SimpleLeaf(e, p, back, cc, st, f);
  }

  lemma {:induction false} SimpleCat(e: Env, p: Node, back: bool, cc: nat, st: St, f: nat)
    requires WellFormed(p) && ValidEnv(e) && st.pos <= |e.input| && p.Cat?
    requires SimpleCount(Code(e, p, back, cc)) >= 0
    ensures Match(e, p, back, cc, st, f) == Positioned(st, Path(e, Code(e, p, back, cc), st.pos))
    decreases p, 0
  {
    hide SimpleCount, Path, Bind, WellFormed, Caps, Code, Match;
    Children(p);
    var mid := cc + Caps(p.init);
    var (a, ca, b, cb) := if back then (p.last, mid, p.init, cc) else (p.init, cc, p.last, mid);
    var l, r := Code(e, a, back, ca), Code(e, b, back, cb);
    var g := ThenNode(e, b, back, cb, f);
    CatMatch(e, p, back, cc, st, f);
    CatCode(e, p, back, cc);
    SimpleCountConcat(l, r);
    PathConcat(e, l, r, st.pos);
    SimpleMatch(e, a, back, ca, st, f);
    match Path(e, l, st.pos)
    case None => BindNothing(g);
    case Some(to) =>
      PathAdvance(e, l, st.pos);
      var st1 := St(to, st.caps);
      SimpleMatch(e, b, back, cb, st1, f);
      BindOne(st1, g);
  }

  lemma BindNothing(g: St -> Res)
    ensures Bind(Nothing, g) == Nothing
  {
  }

  lemma {:induction false} SimpleQuantNode(e: Env, p: Node, back: bool, cc: nat, st: St, f: nat)
    requires WellFormed(p) && ValidEnv(e) && st.pos <= |e.input| && p.Quant?
    requires SimpleCount(Code(e, p, back, cc)) >= 0
    ensures Match(e, p, back, cc, st, f) == Positioned(st, Path(e, Code(e, p, back, cc), st.pos))
    decreases p, 0
  {
    hide SimpleCount, Path, Bind, QuantCode;
    var Quant(a, min, max, greedy) := p;
    var code := Code(e, a, back, cc);
    SimpleQuantShape(code, cc, Caps(a), min, max, greedy);
    var g := ThenOptional(e, a, back, cc, min, max, greedy, f);
    if max == 0 {
      PathNil(e, st.pos);
      NoRounds(e, a, back, cc, greedy, st, f);
      BindOne(st, g);
    } else {
      SimpleMatch(e, a, back, cc, st, f);
      ExactlyOnce(e, a, back, cc, st, f);
      match Path(e, code, st.pos)
      case None => BindNothing(g);
      case Some(to) =>
        NoRounds(e, a, back, cc, greedy, St(to, st.caps), f);
        BindOne(St(to, st.caps), g);
    }
  }

  lemma PathNil(e: Env, pos: nat)
    ensures Path(e, [], pos) == Some(pos)
  {
  }

  lemma NoRounds(e: Env, a: Node, back: bool, cc: nat, greedy: bool, st: St, f: nat)
    requires WellFormed(a)
    ensures Exactly(e, a, back, cc, 0, st, f) == Unit(st) && UpTo(e, a, back, cc, 0, greedy, st, f) == Unit(st)
  {
  }

  lemma ExactlyOnce(e: Env, a: Node, back: bool, cc: nat, st: St, f: nat)
    requires WellFormed(a)
    ensures Exactly(e, a, back, cc, 1, st, f) == Match(e, a, back, cc, st, f)
  {
    hide Bind, Match;
    var x := Match(e, a, back, cc, st, f);
    forall r ensures ThenExactly(e, a, back, cc, 0, f)(r) == ThenUnit()(r) { NoRounds(e, a, back, cc, true, r, f); }
    BindSame(x, ThenExactly(e, a, back, cc, 0, f), ThenUnit());
    BindUnit(x);
  }

  lemma SimpleLeaf(e: Env, p: Node, back: bool, cc: nat, st: St, f: nat)
    requires WellFormed(p) && ValidEnv(e) && st.pos <= |e.input| && IsLeaf(p) && !p.BackReference?
    requires SimpleCount(Code(e, p, back, cc)) >= 0
    ensures Match(e, p, back, cc, st, f) == Positioned(st, Path(e, Code(e, p, back, cc), st.pos))
  {
    hide CharTest, AtLineStart, AtLineEnd, AtWordBoundary, ReadsChar, CharInstr, Bind, SimpleCount;
    if p.Dot? || p.Char? || p.Class? {
      BackNotSimple(e, p, cc);
      if !back {
        if st.pos < |e.input| { CharInstrCorrect(e, p, e.input[st.pos]); }
        CharInstrCorrect(e, p, 0);
      }
    }
  }

  /** Going backwards, a character is never straight-line code: it steps with 'prev'. */
  lemma BackNotSimple(e: Env, p: Node, cc: nat)
    requires WellFormed(p) && (p.Dot? || p.Char? || p.Class?)
    ensures SimpleCount(Code(e, p, true, cc)) == -1
  {
    hide CharInstr;
    NotSimple(Code(e, p, true, cc));
  }

  /** The advance check is sound: when it answers 1, no match of the node leaves the position where it was. */
  lemma CheckAdvanceSound(e: Env, p: Node, back: bool, cc: nat, st: St, f: nat)
    requires WellFormed(p) && st.pos <= |e.input| && CheckAdvance(Code(e, p, back, cc)) == 1
    ensures forall i :: 0 <= i < |Match(e, p, back, cc, st, f).rs| ==> Match(e, p, back, cc, st, f).rs[i].pos != st.pos
  {
    hide Match, Code, MustMove, StartsWithChar;
    StartsMeansMustMove(e, p, back, cc);
    MatchSound(e, p, back, cc, st, f);
  }

  // ---- counting rounds ----

  /** Rounds of the atom that succeed from 'pos', at most 'n'. */
  function Count(e: Env, a: seq<Instr>, pos: nat, n: nat): (c: nat)
    ensures c <= n
    decreases n
  {
    if n == 0 then 0
    else
      match Path(e, a, pos)
      case None => 0
      case Some(to) => 1 + Count(e, a, to, n - 1)
  }

  /** The position 'm' rounds of 'k' characters further on. */
  function Skip(pos: nat, m: nat, k: nat): (r: nat)
    ensures r >= pos
    decreases m
  {
    if m == 0 then pos else Skip(pos + k, m - 1, k)
  }

  /** The states after m, m - 1, ..., 0 rounds. */
  function Down(pos: nat, caps: seq<int>, m: nat, k: nat): (r: seq<St>)
    ensures |r| == m + 1
    decreases m
  {
    if m == 0 then [St(pos, caps)] else Down(pos + k, caps, m - 1, k) + [St(pos, caps)]
  }

  lemma {:induction false} SkipLast(pos: nat, m: nat, k: nat)
    requires m > 0
    ensures Skip(pos, m, k) == Skip(pos, m - 1, k) + k
    decreases m
  {
    if m > 1 { SkipLast(pos + k, m - 1, k); }
  }

  lemma {:induction false} SkipAdd(pos: nat, m: nat, n: nat, k: nat)
    ensures Skip(pos, m + n, k) == Skip(Skip(pos, m, k), n, k)
    decreases m
  {
    if m > 0 { SkipAdd(pos + k, m - 1, n, k); }
  }

  lemma {:induction false} DownHead(pos: nat, caps: seq<int>, m: nat, k: nat)
    ensures Down(pos, caps, m, k)[0] == St(Skip(pos, m, k), caps)
    ensures Down(pos, caps, m, k)[1..] == if m == 0 then [] else Down(pos, caps, m - 1, k)
    decreases m
  {
    if m > 0 {
      DownHead(pos + k, caps, m - 1, k);
      var d := Down(pos + k, caps, m - 1, k);
      assert (d + [St(pos, caps)])[1..] == d[1..] + [St(pos, caps)];
    }
  }

  lemma {:induction false} CountRoom(e: Env, a: seq<Instr>, pos: nat, n: nat)
    requires SimpleCount(a) > 0 && pos <= |e.input|
    ensures Count(e, a, pos, n) <= |e.input| - pos
    ensures pos + Count(e, a, pos, n) <= Skip(pos, Count(e, a, pos, n), SimpleCount(a)) <= |e.input|
    decreases n
  {
    hide SimpleCount, Path;
    if n > 0 {
      PathAdvance(e, a, pos);
      match Path(e, a, pos)
      case None =>
      case Some(to) => CountRoom(e, a, to, n - 1);
    }
  }

  /** The first 'm' rounds, then the rest. */
  lemma {:induction false} CountSplit(e: Env, a: seq<Instr>, pos: nat, m: nat, n: nat)
    requires SimpleCount(a) > 0 && pos <= |e.input| && m <= n
    ensures Count(e, a, pos, m) == m ==>
              Count(e, a, pos, n) == m + Count(e, a, Skip(pos, m, SimpleCount(a)), n - m)
    ensures Count(e, a, pos, m) < m ==> Count(e, a, pos, n) < m
    decreases m
  {
    hide SimpleCount, Path;
    if m > 0 {
      PathAdvance(e, a, pos);
      match Path(e, a, pos)
      case None =>
      case Some(to) => CountSplit(e, a, to, m - 1, n - 1);
    }
  }

  // ---- the reference list of a straight-line quantifier ----

  /** Node 'a' compiles to the straight-line, consuming code 'code'. */
  ghost predicate Straightly(e: Env, a: Node, back: bool, cc: nat, code: seq<Instr>)
  {
    ValidEnv(e) && WellFormed(a) && code == Code(e, a, back, cc) && SimpleCount(code) > 0
  }

  lemma {:induction false} ExactlyList(e: Env, a: Node, back: bool, cc: nat, code: seq<Instr>, n: nat, st: St, f: nat)
    requires Straightly(e, a, back, cc, code) && st.pos <= |e.input|
    ensures Exactly(e, a, back, cc, n, st, f) ==
            if Count(e, code, st.pos, n) == n then Unit(St(Skip(st.pos, n, SimpleCount(code)), st.caps)) else Nothing
    decreases n
  {
    hide SimpleCount, Path, Bind, Match, Code;
    if n > 0 {
      SimpleMatch(e, a, back, cc, st, f);
      PathAdvance(e, code, st.pos);
      var g := ThenExactly(e, a, back, cc, n - 1, f);
      match Path(e, code, st.pos)
      case None => BindNothing(g);
      case Some(to) =>
        BindOne(St(to, st.caps), g);
        ExactlyList(e, a, back, cc, code, n - 1, St(to, st.caps), f);
    }
  }

  lemma {:induction false} UpToList(e: Env, a: Node, back: bool, cc: nat, code: seq<Instr>, n: nat, st: St, f: nat)
    requires Straightly(e, a, back, cc, code) && st.pos <= |e.input|
    ensures UpTo(e, a, back, cc, n, true, st, f) ==
            Res(Down(st.pos, st.caps, Count(e, code, st.pos, n), SimpleCount(code)), true)
    decreases n
  {
    hide SimpleCount, Path, Bind, Match, Code;
    if n > 0 {
      SimpleMatch(e, a, back, cc, st, f);
      PathAdvance(e, code, st.pos);
      var g := ThenUpTo(e, a, back, cc, n - 1, true, f);
      match Path(e, code, st.pos)
      case None => BindNothing(g);
      case Some(to) =>
        BindOne(St(to, st.caps), g);
        UpToList(e, a, back, cc, code, n - 1, St(to, st.caps), f);
    }
  }

  /** An unbounded loop is either finished or, deepest round first, has produced nothing yet. */
  lemma {:induction false} StarList(e: Env, a: Node, back: bool, cc: nat, code: seq<Instr>, n: nat, st: St, f: nat)
    requires Straightly(e, a, back, cc, code) && st.pos <= |e.input| && n >= |e.input| - st.pos
    ensures Star(e, a, back, cc, true, st, f) ==
            if Count(e, code, st.pos, n) < f
            then Res(Down(st.pos, st.caps, Count(e, code, st.pos, n), SimpleCount(code)), true)
            else Res([], false)
    decreases f
  {
    hide SimpleCount, Path, Bind, Match, Code;
    if f > 0 {
      SimpleMatch(e, a, back, cc, st, f - 1);
      PathAdvance(e, code, st.pos);
      var g := ThenStar(e, a, back, cc, true, st.pos, f - 1);
      match Path(e, code, st.pos)
      case None => BindNothing(g);
      case Some(to) =>
        BindOne(St(to, st.caps), g);
        StarList(e, a, back, cc, code, n - 1, St(to, st.caps), f - 1);
    }
  }

  /** How many rounds the fast quantifier may try. */
  function Limit(e: Env, min: nat, max: nat): (n: nat) { if max == INT32_MAX then |e.input| + min else max }

  lemma QuantList(e: Env, a: Node, back: bool, cc: nat, code: seq<Instr>, min: nat, max: nat, st: St, f: nat)
    requires Straightly(e, a, back, cc, code) && st.pos <= |e.input| && min <= max <= INT32_MAX && Caps(a) == 0
    ensures var c := Count(e, code, st.pos, Limit(e, min, max));
            Match(e, Quant(a, min, max, true), back, cc, st, f) ==
            if c < min then Nothing
            else if max == INT32_MAX && c - min >= f then Res([], false)
            else Res(Down(Skip(st.pos, min, SimpleCount(code)), st.caps, c - min, SimpleCount(code)), true)
  {
    hide SimpleCount, Path, Bind, Code, Exactly, UpTo, Star, Count, Skip, Down;
    var n, k := Limit(e, min, max), SimpleCount(code);
    ExactlyList(e, a, back, cc, code, min, st, f);
    CountSplit(e, code, st.pos, min, n);
    CountRoom(e, code, st.pos, min);
    var g := ThenOptional(e, a, back, cc, min, max, true, f);
    if Count(e, code, st.pos, min) == min {
      var st1 := St(Skip(st.pos, min, k), st.caps);
      BindOne(st1, g);
      if max == INT32_MAX {
        StarList(e, a, back, cc, code, n - min, st1, f);
      } else {
        UpToList(e, a, back, cc, code, n - min, st1, f);
      }
    } else {
      CountAtMost(e, code, st.pos, min);
      BindNothing(g);
    }
  }

  lemma CountAtMost(e: Env, a: seq<Instr>, pos: nat, n: nat)
    ensures Count(e, a, pos, n) <= n
  {
  }

  // ---- the machine's side ----

  lemma {:induction false} AtomFollowsPath(P: Prog, a: seq<Instr>, pc: int, d: int, pos: nat)
    requires Placed(P, pc, a + [IMatch], d) && SimpleCount(a) >= 0 && 0 <= pc
    ensures RunAtom(P, pc, pos) == match Path(P.e, a, pos) case None => Missed case Some(to) => Reached(to)
    decreases |a|
  {
    hide Placed, SimpleStep;
    if a == [] {
      assert a + [IMatch] == [IMatch];
      DecodePlaced(P, pc, IMatch, d);
    } else {
      assert a + [IMatch] == [a[0]] + (a[1..] + [IMatch]);
      PlacedCons(P, pc, a[0], a[1..] + [IMatch], d);
      DecodePlaced(P, pc, a[0], d);
      match SimpleStep(P.e, a[0], pos)
      case None =>
      case Some(to) => AtomFollowsPath(P, a[1..], pc + Size(a[0]), d, to);
    }
  }

  lemma DecodePlaced(P: Prog, pc: int, i: Instr, d: int)
    requires Placed(P, pc, [i], d)
    ensures Decode(P.code, pc) == Some(i) && 0 <= pc && pc + Size(i) <= |P.code|
  {
    hide Decode, Enc;
    assert [i][0] == i && [i][1..] == [];
    assert EncAll([i]) == Enc(i) + EncAll([]) == Enc(i);
    DecodeEnc(P.code, pc, i);
  }

  lemma {:induction false} GreedyCounts(P: Prog, a: seq<Instr>, pc: int, d: int, pos: nat, q: nat, max: nat, n: nat)
    requires Placed(P, pc, a + [IMatch], d) && SimpleCount(a) > 0 && 0 <= pc && pos <= |P.e.input|
    requires if max == INT32_MAX then n >= |P.e.input| - pos else q < max && n == max - q
    ensures var c := Count(P.e, a, pos, n);
            RunGreedy(P, pc, pos, q, max) == Some((Skip(pos, c, SimpleCount(a)), q + c))
    decreases |P.e.input| - pos
  {
    hide Placed, SimpleCount, Path, RunAtom;
    AtomFollowsPath(P, a, pc, d, pos);
    PathAdvance(P.e, a, pos);
    match Path(P.e, a, pos)
    case None =>
    case Some(to) =>
      if !(q + 1 >= max && max != INT32_MAX) { GreedyCounts(P, a, pc, d, to, q + 1, max, n - 1); }
  }

  /** The saved state of the fast quantifier with 'm' rounds left to give back. */
  function Held(pc: int, pos: nat, caps: seq<int>, stk: seq<int>, m: nat): (s: seq<Entry>) {
    if m == 0 then [] else [Entry(GreedyQuantState, pc, St(pos, caps), stk, m)]
  }

  lemma QuantFields(P: Prog, pc: int, i: Instr, d: int)
    requires Placed(P, pc, [i], d) && i.ISimpleGreedyQuant?
    ensures 0 <= pc && pc + 17 <= |P.code|
    ensures ToS32(GetU32(P.code, pc + 1)) == i.off && GetU32(P.code, pc + 13) == i.count
  {
    hide Decode32, Decode0, Decode8, DecodeTable, GetU32, ToS32, Placed;
    DecodePlaced(P, pc, i, d);
  }

  lemma GiveBack(P: Prog, pc: int, i: Instr, d: int, pos: nat, caps: seq<int>, stk: seq<int>, saved: seq<Entry>, m: nat)
    requires Placed(P, pc, [i], d) && i.ISimpleGreedyQuant? && m > 0 && i.count >= 0
    ensures Steps(P, Fail(saved + Held(pc + 1, Skip(pos, m, i.count), caps, stk, m)), 1) ==
            Run(pc + 17 + i.off, St(Skip(pos, m - 1, i.count), caps), stk,
                saved + Held(pc + 1, Skip(pos, m - 1, i.count), caps, stk, m - 1))
  {
    hide Placed;
    QuantFields(P, pc, i, d);
    SkipLast(pos, m, i.count);
    var top := Entry(GreedyQuantState, pc + 1, St(Skip(pos, m, i.count), caps), stk, m);
    var c := Fail(saved + [top]);
    assert (saved + [top])[..|saved|] == saved;
    assert Steps(P, Step(P, c), 0) == Step(P, c);
  }

  /** Failing into the held state delivers the remaining rounds from the longest to the shortest. */
  lemma {:induction false} HeldEmits(P: Prog, pc: int, i: Instr, d: int, pos: nat, caps: seq<int>, stk: seq<int>,
                                     saved: seq<Entry>, m: nat, b: int)
    requires Placed(P, pc, [i], d) && i.ISimpleGreedyQuant? && i.count >= 0
    ensures var top := Skip(pos, m, i.count);
            Emits(P, Run(pc + 17 + i.off, St(top, caps), stk, saved + Held(pc + 1, top, caps, stk, m)),
                  pc + 17 + i.off, stk, saved, Res(Down(pos, caps, m, i.count), true), b)
    decreases m
  {
    hide Emits, Steps, Placed;
    var top, pcEnd := Skip(pos, m, i.count), pc + 17 + i.off;
    var x := Res(Down(pos, caps, m, i.count), true);
    var held := Held(pc + 1, top, caps, stk, m);
    var c := Run(pcEnd, St(top, caps), stk, saved + held);
    DownHead(pos, caps, m, i.count);
    if m == 0 {
      assert saved + held == saved;
      EmitsUnit(P, St(top, caps), pcEnd, stk, saved, b);
    } else {
      var below := Skip(pos, m - 1, i.count);
      HeldEmits(P, pc, i, d, pos, caps, stk, saved, m - 1, b);
      GiveBack(P, pc, i, d, pos, caps, stk, saved, m);
      StepThen(P, Fail(saved + held), Run(pcEnd, St(below, caps), stk, saved + Held(pc + 1, below, caps, stk, m - 1)),
               pcEnd, stk, saved, Tail(x), b);
      StepsNone(P, c);
      EmitsNext(P, c, 0, held, pcEnd, stk, saved, x, b);
    }
  }

  lemma StepsNone(P: Prog, c: Config)
    ensures Steps(P, c, 0) == c
  {
  }

  /** What the opcode itself does: run greedily, then hold the surplus rounds. */
  lemma QuantStep(P: Prog, pc: int, a: seq<Instr>, min: nat, max: nat, d: int, st: St, stk: seq<int>, saved: seq<Entry>)
    requires Placed(P, pc, SimpleQuantCode(a, min, max), d) && SimpleCount(a) > 0 && 0 < max && min <= max <= INT32_MAX
    requires st.pos <= |P.e.input|
    ensures var k, c := SimpleCount(a), Count(P.e, a, st.pos, Limit(P.e, min, max));
            var top := Skip(st.pos, c, k);
            var pcEnd := pc + ByteLen(SimpleQuantCode(a, min, max));
            Steps(P, Run(pc, st, stk, saved), 1) ==
            if c < min then Fail(saved)
            else Run(pcEnd, St(top, st.caps), stk, saved + Held(pc + 1, top, st.caps, stk, c - min))
  {
    hide Placed, RunGreedy, Count, Skip, SimpleCount;
    var op := ISimpleGreedyQuant(ByteLen(a) + 1, min, max, SimpleCount(a));
    assert SimpleQuantCode(a, min, max) == [op] + (a + [IMatch]);
    PlacedCons(P, pc, op, a + [IMatch], d);
    StepAt(P, pc, op, d, st, stk, saved);
    GreedyCounts(P, a, pc + 17, d, st.pos, 0, max, Limit(P.e, min, max));
    QuantLen(op, a);
    assert saved + [] == saved;
  }

  lemma QuantLen(op: Instr, a: seq<Instr>)
    ensures ByteLen([op] + (a + [IMatch])) == Size(op) + ByteLen(a) + 1
  {
    assert ([op] + (a + [IMatch]))[1..] == a + [IMatch];
    ByteLenConcat(a, [IMatch]);
    assert [IMatch][1..] == [];
    assert ByteLen([IMatch]) == 1 + ByteLen([]);
  }

  function Slack(P: Prog): (n: nat) { |P.e.input| + 2 }

  /** The fast quantifier explores the same continuations in the same order as the general loop. */
  lemma SimpleQuantEmits(P: Prog, a: Node, back: bool, cc: nat, min: nat, max: nat, pc: int, st: St,
                         stk: seq<int>, saved: seq<Entry>, f: nat)
    requires ValidEnv(P.e) && WellFormed(Quant(a, min, max, true)) && Ok(P, st)
    requires UsesSimpleQuant(Code(P.e, a, back, cc), max, true)
    requires Placed(P, pc, Code(P.e, Quant(a, min, max, true), back, cc), |stk|)
    ensures Emits(P, Run(pc, st, stk, saved), pc + ByteLen(Code(P.e, Quant(a, min, max, true), back, cc)), stk, saved,
                  Match(P.e, Quant(a, min, max, true), back, cc, st, f), f - Slack(P))
  {
    hide Emits, Steps, Placed, SimpleCount, Match, Count, Skip, Down, SimpleQuantCode;
    var code := Code(P.e, a, back, cc);
    var k, c := SimpleCount(code), Count(P.e, code, st.pos, Limit(P.e, min, max));
    var pcEnd, b := pc + ByteLen(SimpleQuantCode(code, min, max)), f - Slack(P);
    var x := Match(P.e, Quant(a, min, max, true), back, cc, st, f);
    SimpleHasNoCaptures(P.e, a, back, cc);
    QuantList(P.e, a, back, cc, code, min, max, st, f);
    QuantStep(P, pc, code, min, max, |stk|, st, stk, saved);
    CountRoom(P.e, code, st.pos, Limit(P.e, min, max));
    var start := Run(pc, st, stk, saved);
    if c < min {
      EmitsNothing(P, saved, pcEnd, stk, b);
      StepThen(P, start, Fail(saved), pcEnd, stk, saved, x, b);
    } else if max == INT32_MAX && c - min >= f {
      EmitsUnfinished(P, start, pcEnd, stk, saved, b);
    } else {
      SkipAdd(st.pos, min, c - min, k);
      HeldAtEnd(P, pc, code, min, max, |stk|, Skip(st.pos, min, k), st.caps, stk, saved, c - min, b);
      var top := Skip(st.pos, c, k);
      StepThen(P, start, Run(pcEnd, St(top, st.caps), stk, saved + Held(pc + 1, top, st.caps, stk, c - min)),
               pcEnd, stk, saved, x, b);
    }
  }

  lemma HeldAtEnd(P: Prog, pc: int, a: seq<Instr>, min: nat, max: nat, d: int, pos: nat, caps: seq<int>,
                  stk: seq<int>, saved: seq<Entry>, m: nat, b: int)
    requires Placed(P, pc, SimpleQuantCode(a, min, max), d) && SimpleCount(a) > 0
    ensures var k := SimpleCount(a);
            var top, pcEnd := Skip(pos, m, k), pc + ByteLen(SimpleQuantCode(a, min, max));
            Emits(P, Run(pcEnd, St(top, caps), stk, saved + Held(pc + 1, top, caps, stk, m)),
                  pcEnd, stk, saved, Res(Down(pos, caps, m, k), true), b)
  {
    hide Emits, Steps, Placed, SimpleCount, Skip, Down;
    var op := ISimpleGreedyQuant(ByteLen(a) + 1, min, max, SimpleCount(a));
    assert SimpleQuantCode(a, min, max) == [op] + (a + [IMatch]);
    PlacedCons(P, pc, op, a + [IMatch], d);
    QuantLen(op, a);
    HeldEmits(P, pc, op, d, pos, caps, stk, saved, m, b);
  }
}
