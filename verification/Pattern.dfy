/**
 Regular expression patterns, as the calls of the recursive descent parser
 build them, and the characters they are matched against.
 */
module Pattern {
  import opened Opcodes

  /** Compile-time and run-time flags kept in the bytecode header. */
  datatype Flags = Flags(sticky: bool, multiLine: bool, dotAll: bool, ignoreCase: bool)

  /**
   The subject: fixed-width characters, plus the case folding the engine
   consults when the ignore-case flag is set.
   */
  datatype Env = Env(input: seq<int>, flags: Flags, fold: int -> int)

  const MAX_CODE_POINT: int := 0x10ffff

  predicate IsCodePoint(c: int) { 0 <= c <= MAX_CODE_POINT }

  ghost predicate ValidEnv(e: Env) {
    && (forall i :: 0 <= i < |e.input| ==> IsCodePoint(e.input[i]))
    && (forall c :: IsCodePoint(c) ==> IsCodePoint(e.fold(c)))
  }

  function Canon(e: Env, c: int): (r: int) {
    if e.flags.ignoreCase then e.fold(c) else c
  }

  predicate IsLineTerminator(c: int) { c == 10 || c == 13 || c == 0x2028 || c == 0x2029 }

  predicate IsWordChar(c: int) {
    || ('0' as int <= c <= '9' as int)
    || ('a' as int <= c <= 'z' as int)
    || ('A' as int <= c <= 'Z' as int)
    || c == '_' as int
  }

  const STACK_SIZE_MAX: int := 255

  /**
   One node per construct. 'Cat' grows to the right one term at a time and
   'Alt' one alternative at a time, the order the parser meets them in.
   Captures carry no index: they are numbered by position, left to right.
   */
  datatype Node =
    | Empty
    | LineStart
    | LineEnd
    | WordBoundary(negated: bool)
    | Dot
    | Char(c: int)
    | Class(points: seq<int>)
    | BackReference(n: nat)
    | Cat(init: Node, last: Node)
    | Alt(left: Node, right: Node)
    | Capture(body: Node)
    | Look(negative: bool, backward: bool, body: Node)
    | Quant(body: Node, min: nat, max: nat, greedy: bool)

  /** How many captures the node opens. */
  function Caps(p: Node): (n: nat) {
    match p
    case Cat(a, b) => Caps(a) + Caps(b)
    case Alt(a, b) => Caps(a) + Caps(b)
    case Capture(a) => 1 + Caps(a)
    case Look(_, _, a) => Caps(a)
    case Quant(a, _, _, _) => Caps(a)
    case _ => 0
  }

  /** Boundary lists: even length, strictly increasing, [p0,p1) u [p2,p3) u ... */
  predicate SortedPoints(t: seq<int>) {
    && |t| % 2 == 0
    && (forall i :: 0 <= i < |t| ==> 0 <= t[i] <= UINT32_MAX)
    && (forall i, j :: 0 <= i < j < |t| ==> t[i] < t[j])
  }

  const MAX_RANGES: int := 65535

  /** A boundary list the compiler accepts. */
  predicate ValidPoints(t: seq<int>) { SortedPoints(t) && |t| / 2 < MAX_RANGES }

  predicate InInterval(t: seq<int>, k: int, c: int)
    requires 0 <= k < |t| / 2
  {
    t[2 * k] <= c < t[2 * k + 1]
  }

  predicate InRanges(t: seq<int>, c: int) { exists k :: 0 <= k < |t| / 2 && InInterval(t, k, c) }

  /** What the parser guarantees of every node it builds. */
  predicate WellFormed(p: Node) {
    match p
    case Char(c) => IsCodePoint(c)
    case Class(t) => ValidPoints(t)
    case BackReference(n) => n < CAPTURE_COUNT_MAX
    case Cat(a, b) => WellFormed(a) && WellFormed(b)
    case Alt(a, b) => WellFormed(a) && WellFormed(b)
    case Capture(a) => WellFormed(a)
    case Look(_, _, a) => WellFormed(a)
    case Quant(a, min, max, _) => WellFormed(a) && min <= max <= INT32_MAX
    case _ => true
  }

  /** The integers lo, lo + 1, ..., hi - 1. */
  function Span(lo: int, hi: int): (s: set<int>)
    ensures forall i :: i in s <==> lo <= i < hi
    decreases if lo < hi then hi - lo else 0
  {
    if lo >= hi then {} else {lo} + Span(lo + 1, hi)
  }

  /** Captures the node may write, as the emitted code shows them: the last one of a reset is not marked. */
  function Saves(p: Node, cc: nat): (s: set<int>) {
    match p
    case Cat(a, b) => Saves(a, cc) + Saves(b, cc + Caps(a))
    case Alt(a, b) => Saves(a, cc) + Saves(b, cc + Caps(a))
    case Capture(a) => {cc as int} + Saves(a, cc + 1)
    case Look(_, _, a) => Saves(a, cc)
    case Quant(a, min, max, _) =>
      (if min == 0 then Span(cc, cc + Caps(a) - 1) else {}) + (if max == 0 then {} else Saves(a, cc))
    case _ => {}
  }

  function Refs(p: Node): (s: set<int>) {
    match p
    case BackReference(n) => {n as int}
    case Cat(a, b) => Refs(a) + Refs(b)
    case Alt(a, b) => Refs(a) + Refs(b)
    case Capture(a) => Refs(a)
    case Look(_, _, a) => Refs(a)
    case Quant(a, _, max, _) => if max == 0 then {} else Refs(a)
    case _ => {}
  }

  /** The node refers back to a capture it writes itself, so one round may enable the next. */
  predicate SelfReferential(p: Node, cc: nat) { Saves(p, cc) * Refs(p) != {} }

  lemma Children(p: Node)
    requires WellFormed(p)
    ensures p.Cat? ==> WellFormed(p.init) && WellFormed(p.last)
    ensures p.Alt? ==> WellFormed(p.left) && WellFormed(p.right)
    ensures p.Capture? || p.Look? || p.Quant? ==> WellFormed(p.body)
    ensures p.Quant? ==> p.min <= p.max
  {
  }

  /** Every way of matching the node moves the position. */
  predicate MustMove(p: Node) {
    match p
    case Dot => true
    case Char(_) => true
    case Class(_) => true
    case Cat(a, b) => MustMove(a) || MustMove(b)
    case Alt(a, b) => MustMove(a) && MustMove(b)
    case Capture(a) => MustMove(a)
    case Quant(a, min, _, _) => min > 0 && MustMove(a)
    case _ => false
  }

  /** Every unbounded loop either consumes in each round or has the zero-advance test. */
  predicate Guarded(p: Node, cc: nat) {
    match p
    case Cat(a, b) => Guarded(a, cc) && Guarded(b, cc + Caps(a))
    case Alt(a, b) => Guarded(a, cc) && Guarded(b, cc + Caps(a))
    case Capture(a) => Guarded(a, cc + 1)
    case Look(_, _, a) => Guarded(a, cc)
    case Quant(a, _, max, greedy) =>
      Guarded(a, cc) && (max == INT32_MAX ==> MustMove(a) || (greedy && !SelfReferential(a, cc)))
    case _ => true
  }
}
