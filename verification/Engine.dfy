/**
 Compile, then execute: the result of the bytecode is the first result of the
 reference matcher on the pattern.
 */
module Engine {
  import opened Bytes
  import opened Opcodes
  import opened Pattern
  import opened Matcher
  import opened MatcherFacts
  import opened Captures
  import opened Codegen
  import opened Fragments
  import opened Machine
  import opened Adequacy
  import opened Image
  import opened Compiler
  import opened Parser
  import opened Executor

  /** The machine program an image stands for on a given subject. */
  function ImageProg(bcBuf: seq<byte>, input: seq<int>, fold: int -> int): (P: Prog)
    requires |bcBuf| >= RE_HEADER_LEN
  {
    Prog(bcBuf[RE_HEADER_LEN..], Env(input, FlagsOf(bcBuf[RE_HEADER_FLAGS]), fold),
         bcBuf[RE_HEADER_CAPTURE_COUNT], bcBuf[RE_HEADER_STACK_SIZE])
  }

  /** Executes an image from position 'cindex'; 'n' bounds the number of transitions. */
  method LreExec(bcBuf: seq<byte>, input: seq<int>, cindex: nat, fold: int -> int, ghost n: nat)
    returns (ret: bool, captures: seq<int>)
    requires |bcBuf| >= RE_HEADER_LEN && cindex <= |input|
    requires var P := ImageProg(bcBuf, input, fold); Steps(P, Start(P, cindex), n).Halt?
    ensures var P := ImageProg(bcBuf, input, fold);
            Steps(P, Start(P, cindex), n) == Halt(if ret then Some(captures) else None)
  {
    hide Steps, FlagsOf;
    var s := new REExecContext(bcBuf[RE_HEADER_LEN..], Env(input, FlagsOf(bcBuf[RE_HEADER_FLAGS]), fold),
                               bcBuf[RE_HEADER_CAPTURE_COUNT], bcBuf[RE_HEADER_STACK_SIZE], cindex);
    ret := s.LreExecBacktrack(n);
    captures := s.capture[..];
  }

  // ---- the code does not depend on the subject ----

  lemma {:induction false} CodeIgnoresInput(e: Env, e': Env, p: Node, back: bool, cc: nat)
    requires WellFormed(p) && e.flags == e'.flags && e.fold == e'.fold
    ensures Code(e, p, back, cc) == Code(e', p, back, cc)
  {
    hide QuantCode, ByteLen, Code, ValidPoints;
    match p
    case Cat(a, b) =>
      CodeIgnoresInput(e, e', a, back, cc);
      CodeIgnoresInput(e, e', b, back, cc + Caps(a));
      SameCode(e, e', p, back, cc);
    case Alt(a, b) =>
      CodeIgnoresInput(e, e', a, back, cc);
      CodeIgnoresInput(e, e', b, back, cc + Caps(a));
      SameCode(e, e', p, back, cc);
    case Capture(a) =>
      CodeIgnoresInput(e, e', a, back, cc + 1);
      SameCode(e, e', p, back, cc);
    case Look(_, backward, a) =>
      CodeIgnoresInput(e, e', a, backward, cc);
      SameCode(e, e', p, back, cc);
    case Quant(a, _, _, _) =>
      CodeIgnoresInput(e, e', a, back, cc);
      SameCode(e, e', p, back, cc);
    case _ => SameCode(e, e', p, back, cc);
  }

  /** A node is emitted alike when its children are. */
  lemma {:induction false} SameCode(e: Env, e': Env, p: Node, back: bool, cc: nat)
    requires WellFormed(p) && e.flags == e'.flags && e.fold == e'.fold
    requires p.Cat? ==> Code(e, p.init, back, cc) == Code(e', p.init, back, cc)
    requires p.Cat? ==> Code(e, p.last, back, cc + Caps(p.init)) == Code(e', p.last, back, cc + Caps(p.init))
    requires p.Alt? ==> Code(e, p.left, back, cc) == Code(e', p.left, back, cc)
    requires p.Alt? ==> Code(e, p.right, back, cc + Caps(p.left)) == Code(e', p.right, back, cc + Caps(p.left))
    requires p.Capture? ==> Code(e, p.body, back, cc + 1) == Code(e', p.body, back, cc + 1)
    requires p.Look? ==> Code(e, p.body, p.backward, cc) == Code(e', p.body, p.backward, cc)
    requires p.Quant? ==> Code(e, p.body, back, cc) == Code(e', p.body, back, cc)
    ensures Code(e, p, back, cc) == Code(e', p, back, cc)
  {
    hide QuantCode, ByteLen, ClassInstr, ValidPoints;
  }

  ghost predicate ValidSubject(input: seq<int>) { forall i :: 0 <= i < |input| ==> IsCodePoint(input[i]) }

  function RunEnv(input: seq<int>, reFlags: byte, fold: int -> int): (e: Env) { Env(input, FlagsOf(reFlags), fold) }

  lemma SameProgram(p: Node, reFlags: byte, fold: int -> int, input: seq<int>)
    requires ValidEnv(CompileEnv(reFlags, fold)) && ValidSubject(input) && Compilable(CompileEnv(reFlags, fold), p)
    ensures var e := RunEnv(input, reFlags, fold);
            ValidEnv(e) && Compilable(e, p) && ProgramCode(e, p) == ProgramCode(CompileEnv(reFlags, fold), p)
  {
    hide Code, ByteLen, MaxDepth, FlagsOf;
    CodeIgnoresInput(CompileEnv(reFlags, fold), RunEnv(input, reFlags, fold), Capture(p), false, 0);
  }

  /** An image can be loaded on every subject. */
  lemma ImageLoads(p: Node, reFlags: byte, fold: int -> int, input: seq<int>)
    requires ValidEnv(CompileEnv(reFlags, fold)) && ValidSubject(input) && Compilable(CompileEnv(reFlags, fold), p)
    ensures var P := ImageProg(CompiledImage(CompileEnv(reFlags, fold), p, reFlags), input, fold);
            Loaded(P, p) && P.e == RunEnv(input, reFlags, fold) && P.captureCount == 1 + Caps(p)
  {
    hide ByteLen, EncAll, ProgramCode, MaxDepth, FlagsOf, ValidEnv, PutU32, Placed, EncodableAll;
    var e, image := RunEnv(input, reFlags, fold), CompiledImage(CompileEnv(reFlags, fold), p, reFlags);
    SameProgram(p, reFlags, fold, input);
    var Q := Program(e, p);
    ProgramEncodable(e, p);
    assert image[RE_HEADER_LEN..] == EncAll(ProgramCode(e, p));
    assert ImageProg(image, input, fold) == Q;
  }

  // ---- from pattern to match ----

  datatype Outcome = Rejected | NoMatch | Found(captures: seq<int>)

  /** The reference search of a pattern with all captures unset. */
  function Reference(p: Node, reFlags: byte, fold: int -> int, input: seq<int>, cindex: nat, f: nat): (r: Res)
    requires WellFormed(p)
  {
    Search(RunEnv(input, reFlags, fold), p, cindex, seq(2 * (1 + Caps(p)), i => -1), f)
  }

  predicate Decided(r: Res) { r.rs != [] || r.done }

  function Verdict(r: Res): (o: Outcome) { if r.rs == [] then NoMatch else Found(r.rs[0].caps) }

  /** A decided search bounds the run of the machine and gives its answer. */
  lemma ImageAnswers(p: Node, reFlags: byte, fold: int -> int, input: seq<int>, cindex: nat, f: nat) returns (n: nat)
    requires ValidEnv(CompileEnv(reFlags, fold)) && ValidSubject(input) && cindex <= |input|
    requires Compilable(CompileEnv(reFlags, fold), p) && Decided(Reference(p, reFlags, fold, input, cindex, f))
    ensures var P := ImageProg(CompiledImage(CompileEnv(reFlags, fold), p, reFlags), input, fold);
            var r := Reference(p, reFlags, fold, input, cindex, f);
            Steps(P, Start(P, cindex), n) == Halt(if r.rs == [] then None else Some(r.rs[0].caps))
  {
    hide Steps, Search, Loaded, CompileEnv, Compilable, ValidEnv, CompiledImage;
    ImageLoads(p, reFlags, fold, input);
    CompilableIsWellFormed(CompileEnv(reFlags, fold), p);
    var P := ImageProg(CompiledImage(CompileEnv(reFlags, fold), p, reFlags), input, fold);
    assert Answer(P, p, cindex, f) == Reference(p, reFlags, fold, input, cindex, f);
    if Answer(P, p, cindex, f).rs != [] {
      n := FirstResultHalts(P, p, cindex, f);
    } else {
      n := NoResultHalts(P, p, cindex, f);
    }
  }

  /**
   The slots of a reported match: capture 0 lies in the subject from the start position
   on, right there when sticky.
   */
  predicate PlacedMatch(p: Node, reFlags: byte, cindex: nat, n: nat, c: seq<int>) {
    |c| == 2 * (1 + Caps(p)) && cindex <= c[0] <= c[1] <= n && ((reFlags / 32) % 2 == 1 ==> c[0] == cindex)
  }

  lemma VerdictPlaced(p: Node, reFlags: byte, fold: int -> int, input: seq<int>, cindex: nat, f: nat)
    requires Compilable(CompileEnv(reFlags, fold), p) && cindex <= |input|
    ensures WellFormed(p)
    ensures var v := Verdict(Reference(p, reFlags, fold, input, cindex, f));
            v.Found? ==> PlacedMatch(p, reFlags, cindex, |input|, v.captures)
  {
    hide Search, WellFormed, Caps, CompileEnv, Compilable;
    CompilableIsWellFormed(CompileEnv(reFlags, fold), p);
    var e, caps := RunEnv(input, reFlags, fold), seq(2 * (1 + Caps(p)), i => -1);
    if Search(e, p, cindex, caps, f).rs != [] { ReportedMatch(e, p, cindex, caps, f); }
  }

  /**
   Compile and execute. The outcome is what the reference search says at any
   depth 'f' at which it is decided, whichever that is.
   */
  method CompileAndExec(p: Node, reFlags: byte, fold: int -> int, input: seq<int>, cindex: nat, ghost f: nat)
    returns (r: Outcome)
    requires Parsed(p) && ValidEnv(CompileEnv(reFlags, fold)) && ValidSubject(input) && cindex <= |input|
    requires Space(CompileEnv(reFlags, fold), p, false, 1) + 64 < TWO31
    requires WellFormed(p) ==> Decided(Reference(p, reFlags, fold, input, cindex, f))
    ensures r == Rejected <==> !Compilable(CompileEnv(reFlags, fold), p)
    ensures r != Rejected ==> r == Verdict(Reference(p, reFlags, fold, input, cindex, f))
    ensures r.Found? ==> PlacedMatch(p, reFlags, cindex, |input|, r.captures)
  {
    hide Steps, Search, Loaded, CompileEnv, ValidEnv, CompiledImage, ImageProg, Start, ValidSubject, PlacedMatch;
    var image := LreCompile(p, reFlags, fold);
    if image == None { return Rejected; }
    VerdictPlaced(p, reFlags, fold, input, cindex, f);
    ghost var n := ImageAnswers(p, reFlags, fold, input, cindex, f);
    var ret, captures := LreExec(image.value, input, cindex, fold, n);
    return if ret then Found(captures) else NoMatch;
  }

  lemma CompilableIsWellFormed(e: Env, p: Node)
    requires Compilable(e, p)
    ensures WellFormed(p)
  {
  }

  /** When every unbounded loop is guarded the search is decided at a depth that is known beforehand. */
  lemma GuardedDecided(p: Node, reFlags: byte, fold: int -> int, input: seq<int>, cindex: nat)
    requires WellFormed(p) && Guarded(p, 1) && cindex <= |input|
    ensures Decided(Reference(p, reFlags, fold, input, cindex, Need(p, |input|)))
  {
    hide Search, Guarded, Need;
    SearchDone(RunEnv(input, reFlags, fold), p, cindex, seq(2 * (1 + Caps(p)), i => -1), Need(p, |input|));
  }

  /** For guarded patterns compiling and executing always ends, with the verdict of the reference search. */
  method CompileAndExecGuarded(p: Node, reFlags: byte, fold: int -> int, input: seq<int>, cindex: nat)
    returns (r: Outcome)
    requires Parsed(p) && ValidEnv(CompileEnv(reFlags, fold)) && ValidSubject(input) && cindex <= |input|
    requires Space(CompileEnv(reFlags, fold), p, false, 1) + 64 < TWO31 && Guarded(p, 1)
    ensures r == Rejected <==> !Compilable(CompileEnv(reFlags, fold), p)
    ensures r != Rejected ==> r == Verdict(Reference(p, reFlags, fold, input, cindex, Need(p, |input|)))
    ensures r.Found? ==> PlacedMatch(p, reFlags, cindex, |input|, r.captures)
  {
    hide Steps, Search, CompileEnv, ValidEnv, Guarded, Need, Decided, PlacedMatch;
    if WellFormed(p) { GuardedDecided(p, reFlags, fold, input, cindex); }
    r := CompileAndExec(p, reFlags, fold, input, cindex, Need(p, |input|));
  }
}
