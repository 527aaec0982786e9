/**
 The reference meaning of a pattern: a direct recursive matcher that lists, in
 priority order, every way a node can match from a given state. Unbounded
 loops spend one unit of fuel per round; a list that ends because the fuel
 ran out is marked unfinished.
 */
module Matcher {
  import opened Opcodes
  import opened Pattern

  /** Position in the subject and the 2 * n capture slots, -1 standing for NULL. */
  datatype St = St(pos: nat, caps: seq<int>)

  datatype Res = Res(rs: seq<St>, done: bool)

  function Unit(st: St): (r: Res) { Res([st], true) }

  const Nothing: Res := Res([], true)

  function Guard(b: bool, st: St): (r: Res) { if b then Unit(st) else Nothing }

  /** Try 'x' first, then 'y'. An unfinished list hides everything after it. */
  function Append(x: Res, y: Res): (r: Res) {
    if x.done then Res(x.rs + y.rs, y.done) else x
  }

  /** Continue every result of 'x' with 'g', in order. */
  function Bind(x: Res, g: St -> Res): (r: Res)
    decreases |x.rs|
  {
    if x.rs == [] then x else Append(g(x.rs[0]), Bind(Res(x.rs[1..], x.done), g))
  }

  function Choice(greedy: bool, more: Res, st: St): (r: Res) {
    if greedy then Append(more, Unit(st)) else Append(Unit(st), more)
  }

  function SetCap(st: St, slot: nat): (r: St) {
    if slot < |st.caps| then St(st.pos, st.caps[slot := st.pos]) else st
  }

  /** Captures first..last, both slots of each, become NULL. */
  function ResetCaps(st: St, first: nat, last: nat): (r: St) {
    St(st.pos, seq(|st.caps|, i requires 0 <= i < |st.caps| =>
                              if 2 * first <= i <= 2 * last + 1 then -1 else st.caps[i]))
  }

  predicate CharTest(e: Env, p: Node, ch: int)
    requires p.Dot? || p.Char? || p.Class?
  {
    match p
    case Dot => e.flags.dotAll || !IsLineTerminator(ch)
    case Char(c) => Canon(e, ch) == Canon(e, c)
    case Class(t) => InRanges(t, Canon(e, ch))
  }

  function OneChar(e: Env, p: Node, back: bool, st: St): (r: Res)
    requires p.Dot? || p.Char? || p.Class?
  {
    if back then
      if 0 < st.pos <= |e.input| && CharTest(e, p, e.input[st.pos - 1]) then Unit(St(st.pos - 1, st.caps)) else Nothing
    else
      if st.pos < |e.input| && CharTest(e, p, e.input[st.pos]) then Unit(St(st.pos + 1, st.caps)) else Nothing
  }

  predicate AtLineStart(e: Env, pos: nat) {
    pos == 0 || (e.flags.multiLine && pos <= |e.input| && IsLineTerminator(e.input[pos - 1]))
  }

  predicate AtLineEnd(e: Env, pos: nat) {
    pos == |e.input| || (e.flags.multiLine && pos < |e.input| && IsLineTerminator(e.input[pos]))
  }

  predicate AtWordBoundary(e: Env, pos: nat) {
    var before := 0 < pos <= |e.input| && IsWordChar(e.input[pos - 1]);
    var after := pos < |e.input| && IsWordChar(e.input[pos]);
    before != after
  }

  /** Compare input[s..t] with what lies at 'pos', forwards; the new position or None. */
  function MatchRef(e: Env, s: nat, t: nat, pos: nat): (r: Option<nat>)
    requires t <= |e.input|
    ensures r.Some? && pos <= |e.input| ==> pos <= r.value <= |e.input|
    decreases if s < t then t - s else 0
  {
    if s >= t then Some(pos)
    else if pos >= |e.input| || Canon(e, e.input[s]) != Canon(e, e.input[pos]) then None
    else MatchRef(e, s + 1, t, pos + 1)
  }

  /** The same comparison from the right end, moving backwards. */
  function MatchRefBack(e: Env, s: nat, t: nat, pos: nat): (r: Option<nat>)
    requires t <= |e.input| && pos <= |e.input|
    ensures r.Some? ==> r.value <= pos
    decreases if s < t then t - s else 0
  {
    if s >= t then Some(pos)
    else if pos == 0 || Canon(e, e.input[t - 1]) != Canon(e, e.input[pos - 1]) then None
    else MatchRefBack(e, s, t - 1, pos - 1)
  }

  /** A capture that is not set matches the empty string; one that does not exist matches nothing. */
  function RefPos(e: Env, n: nat, back: bool, st: St): (r: Option<nat>)
    ensures r.Some? && st.pos <= |e.input| ==> r.value <= |e.input|
    ensures r.Some? && st.pos <= |e.input| ==> if back then r.value <= st.pos else st.pos <= r.value
  {
    if 2 * n + 1 >= |st.caps| then None
    else
      var s, t := st.caps[2 * n], st.caps[2 * n + 1];
      if s < 0 || t < 0 || t > |e.input| || st.pos > |e.input| then Some(st.pos)
      else if back then MatchRefBack(e, s, t, st.pos) else MatchRef(e, s, t, st.pos)
  }

  function Positioned(st: St, to: Option<nat>): (r: Res) {
    match to
    case None => Nothing
    case Some(pos) => Unit(St(pos, st.caps))
  }

  /** A lookaround keeps the captures of its first match when it is positive, and never the position. */
  function Around(negative: bool, st: St, inner: Res): (r: Res) {
    if inner.rs != [] then (if negative then Nothing else Unit(St(st.pos, inner.rs[0].caps)))
    else if !inner.done then inner
    else if negative then Unit(st) else Nothing
  }

  /** All the ways node 'p', whose first capture is number 'cc', matches from 'st'. */
  function Match(e: Env, p: Node, back: bool, cc: nat, st: St, f: nat): (r: Res)
    requires WellFormed(p)
    decreases f, p, 0, 0
  {
    match p
    case Empty => Unit(st)
    case LineStart => Guard(AtLineStart(e, st.pos), st)
    case LineEnd => Guard(AtLineEnd(e, st.pos), st)
    case WordBoundary(negated) => Guard(AtWordBoundary(e, st.pos) != negated, st)
    case Dot => OneChar(e, p, back, st)
    case Char(_) => OneChar(e, p, back, st)
    case Class(_) => OneChar(e, p, back, st)
    case BackReference(n) => Positioned(st, RefPos(e, n, back, st))
    case Cat(a, b) =>
      if back then Bind(Match(e, b, back, cc + Caps(a), st, f), ThenNode(e, a, back, cc, f))
      else Bind(Match(e, a, back, cc, st, f), ThenNode(e, b, back, cc + Caps(a), f))
    case Alt(a, b) => Append(Match(e, a, back, cc, st, f), Match(e, b, back, cc + Caps(a), st, f))
    case Capture(a) =>
      Bind(Match(e, a, back, cc + 1, SetCap(st, if back then 2 * cc + 1 else 2 * cc), f), ThenClose(back, cc))
    case Look(negative, backward, a) => Around(negative, st, Match(e, a, backward, cc, st, f))
    case Quant(a, min, max, greedy) =>
      var st0 := if min == 0 && Caps(a) > 0 then ResetCaps(st, cc, cc + Caps(a) - 1) else st;
      Bind(Exactly(e, a, back, cc, min, st0, f), ThenOptional(e, a, back, cc, min, max, greedy, f))
  }

  /** Exactly 'n' rounds of 'a'. */
  function Exactly(e: Env, a: Node, back: bool, cc: nat, n: nat, st: St, f: nat): (r: Res)
    requires WellFormed(a)
    decreases f, a, 2, 2 * n
  {
    if n == 0 then Unit(st) else Bind(Match(e, a, back, cc, st, f), ThenExactly(e, a, back, cc, n - 1, f))
  }

  /** Between 0 and 'n' rounds; greedy tries another round before stopping. */
  function UpTo(e: Env, a: Node, back: bool, cc: nat, n: nat, greedy: bool, st: St, f: nat): (r: Res)
    requires WellFormed(a)
    decreases f, a, 2, 2 * n
  {
    if n == 0 then Unit(st)
    else Choice(greedy, Bind(Match(e, a, back, cc, st, f), ThenUpTo(e, a, back, cc, n - 1, greedy, f)), st)
  }

  /**
   Any number of rounds. A greedy loop whose body does not refer to its own
   captures stops after a round that did not move; the others have no such test.
   */
  function Star(e: Env, a: Node, back: bool, cc: nat, greedy: bool, st: St, f: nat): (r: Res)
    requires WellFormed(a)
    decreases f, a, 4, 0
  {
    if f == 0 then Res([], false)
    else Choice(greedy, Bind(Match(e, a, back, cc, st, f - 1), ThenStar(e, a, back, cc, greedy, st.pos, f - 1)), st)
  }

  predicate Tested(a: Node, cc: nat, greedy: bool) { greedy && !SelfReferential(a, cc) }

  // The continuations, named so that they can be referred to in proofs.

  function ThenNode(e: Env, p: Node, back: bool, cc: nat, f: nat): (g: St -> Res)
    requires WellFormed(p)
    decreases f, p, 1, 0
  {
    (st: St) => Match(e, p, back, cc, st, f)
  }

  function ThenClose(back: bool, cc: nat): (g: St -> Res) {
    (st: St) => Unit(SetCap(st, if back then 2 * cc else 2 * cc + 1))
  }

  function ThenExactly(e: Env, a: Node, back: bool, cc: nat, n: nat, f: nat): (g: St -> Res)
    requires WellFormed(a)
    decreases f, a, 2, 2 * n + 1
  {
    (st: St) => Exactly(e, a, back, cc, n, st, f)
  }

  function ThenUpTo(e: Env, a: Node, back: bool, cc: nat, n: nat, greedy: bool, f: nat): (g: St -> Res)
    requires WellFormed(a)
    decreases f, a, 2, 2 * n + 1
  {
    (st: St) => UpTo(e, a, back, cc, n, greedy, st, f)
  }

  function ThenStar(e: Env, a: Node, back: bool, cc: nat, greedy: bool, from: nat, f: nat): (g: St -> Res)
    requires WellFormed(a)
    decreases f, a, 4, 1
  {
    (st: St) => if Tested(a, cc, greedy) && st.pos == from then Unit(st) else Star(e, a, back, cc, greedy, st, f)
  }

  function ThenOptional(e: Env, a: Node, back: bool, cc: nat, min: nat, max: nat, greedy: bool, f: nat): (g: St -> Res)
    requires WellFormed(a) && min <= max
    decreases f, a, 5, 0
  {
    (st: St) => if max == INT32_MAX then Star(e, a, back, cc, greedy, st, f)
          else UpTo(e, a, back, cc, max - min, greedy, st, f)
  }

  /** The first match at 'pos' or, unless sticky, at the first later position that has one. */
  function Search(e: Env, p: Node, pos: nat, caps: seq<int>, f: nat): (r: Res)
    requires WellFormed(p)
    decreases |e.input| - pos
  {
    var here := Match(e, Capture(p), false, 0, St(pos, caps), f);
    if e.flags.sticky || pos >= |e.input| then here else Append(here, Search(e, p, pos + 1, caps, f))
  }
}
