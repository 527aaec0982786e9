/**
 What holds of every list of results: positions only move in the direction of
 the scan, they do move when the node must consume, and with enough fuel a
 guarded pattern always has a finished list.
 */
module MatcherFacts {
  import opened Opcodes
  import opened Pattern
  import opened Matcher

  ghost predicate Onward(e: Env, back: bool, strict: bool, st: St, r: St) {
    && |r.caps| == |st.caps|
    && r.pos <= |e.input|
    && (if back then r.pos <= st.pos else st.pos <= r.pos)
    && (strict ==> r.pos != st.pos)
  }

  ghost predicate Sound(e: Env, back: bool, strict: bool, st: St, x: Res) {
    forall i :: 0 <= i < |x.rs| ==> Onward(e, back, strict, st, x.rs[i])
  }

  ghost predicate SoundFrom(e: Env, back: bool, strict: bool, st: St, g: St -> Res) {
    forall r :: Onward(e, back, false, st, r) ==> Sound(e, back, strict, r, g(r))
  }

  lemma AppendSound(e: Env, back: bool, strict: bool, st: St, x: Res, y: Res)
    requires Sound(e, back, strict, st, x) && Sound(e, back, strict, st, y)
    ensures Sound(e, back, strict, st, Append(x, y))
  {
  }

  /** Following a state that is itself onward from 'st'. */
  lemma SoundTrans(e: Env, back: bool, s1: bool, s2: bool, st: St, r: St, x: Res)
    requires Onward(e, back, s1, st, r) && Sound(e, back, s2, r, x)
    ensures Sound(e, back, s1 || s2, st, x)
  {
  }

  lemma {:induction false} BindSound(e: Env, back: bool, s1: bool, s2: bool, st: St, x: Res, g: St -> Res)
    requires Sound(e, back, s1, st, x) && SoundFrom(e, back, s2, st, g)
    ensures Sound(e, back, s1 || s2, st, Bind(x, g))
    decreases |x.rs|
  {
    if x.rs != [] {
      var x' := Res(x.rs[1..], x.done);
      BindSound(e, back, s1, s2, st, x', g);
      SoundTrans(e, back, s1, s2, st, x.rs[0], g(x.rs[0]));
      AppendSound(e, back, s1 || s2, st, g(x.rs[0]), Bind(x', g));
    }
  }

  lemma ChoiceSound(e: Env, back: bool, greedy: bool, st: St, x: Res)
    requires Sound(e, back, false, st, x) && st.pos <= |e.input|
    ensures Sound(e, back, false, st, Choice(greedy, x, st))
  {
    assert Sound(e, back, false, st, Unit(st));
    AppendSound(e, back, false, st, x, Unit(st));
    AppendSound(e, back, false, st, Unit(st), x);
  }

  /** Every result lies in scan order from 'st', strictly so when the node must consume. */
  lemma {:induction false} MatchSound(e: Env, p: Node, back: bool, cc: nat, st: St, f: nat)
    requires WellFormed(p) && st.pos <= |e.input|
    ensures Sound(e, back, MustMove(p), st, Match(e, p, back, cc, st, f))
    decreases f, p, 1, 0
  {
    hide Match, Sound, MustMove;
    match p
    case Cat(_, _) => CatSound(e, p, back, cc, st, f);
    case Alt(_, _) => AltSound(e, p, back, cc, st, f);
    case Capture(_) => CaptureSound(e, p, back, cc, st, f);
    case Look(_, _, _) => LookSound(e, p, back, cc, st, f);
    case Quant(_, _, _, _) => QuantSound(e, p, back, cc, st, f);
    case _ => LeafSound(e, p, back, cc, st, f);
  }

  /** A concatenation runs its parts in order, the last one first when going backwards. */
  lemma CatMatch(e: Env, p: Node, back: bool, cc: nat, st: St, f: nat)
    requires p.Cat? && WellFormed(p) && WellFormed(p.init) && WellFormed(p.last)
    ensures var mid := cc + Caps(p.init);
            Match(e, p, back, cc, st, f) ==
            if back then Bind(Match(e, p.last, back, mid, st, f), ThenNode(e, p.init, back, cc, f))
            else Bind(Match(e, p.init, back, cc, st, f), ThenNode(e, p.last, back, mid, f))
  {
    hide Bind, WellFormed, Caps;
  }

  /** One step of the matcher on an alternative, and on a capture. */
  lemma AltMatch(e: Env, p: Node, back: bool, cc: nat, st: St, f: nat)
    requires WellFormed(p) && p.Alt?
    ensures Match(e, p, back, cc, st, f)
         == Append(Match(e, p.left, back, cc, st, f), Match(e, p.right, back, cc + Caps(p.left), st, f))
  {
    hide Append, WellFormed, Caps;
  }

  lemma CaptureMatch(e: Env, p: Node, back: bool, cc: nat, st: St, f: nat)
    requires WellFormed(p) && p.Capture?
    ensures Match(e, p, back, cc, st, f)
         == Bind(Match(e, p.body, back, cc + 1, SetCap(st, if back then 2 * cc + 1 else 2 * cc), f),
                 ThenClose(back, cc))
  {
    hide Bind, WellFormed, SetCap;
  }

  lemma LookMatch(e: Env, p: Node, back: bool, cc: nat, st: St, f: nat)
    requires WellFormed(p) && p.Look?
    ensures Match(e, p, back, cc, st, f) == Around(p.negative, st, Match(e, p.body, p.backward, cc, st, f))
  {
    hide Around, WellFormed;
  }

  lemma MustMoveStep(p: Node)
    ensures p.Cat? ==> MustMove(p) == (MustMove(p.init) || MustMove(p.last))
    ensures p.Alt? ==> MustMove(p) == (MustMove(p.left) && MustMove(p.right))
    ensures p.Capture? ==> MustMove(p) == MustMove(p.body)
    ensures p.Look? ==> !MustMove(p)
  {
  }

  lemma {:induction false} AltSound(e: Env, p: Node, back: bool, cc: nat, st: St, f: nat)
    requires WellFormed(p) && st.pos <= |e.input| && p.Alt?
    ensures Sound(e, back, MustMove(p), st, Match(e, p, back, cc, st, f))
    decreases f, p, 0, 0
  {
    hide Sound, Bind, Append, Match, MustMove;
    var Alt(a, b) := p;
    AltMatch(e, p, back, cc, st, f);
    MustMoveStep(p);
    MatchSound(e, a, back, cc, st, f);
    MatchSound(e, b, back, cc + Caps(a), st, f);
    AltResults(e, back, MustMove(a), MustMove(b), st, Match(e, a, back, cc, st, f),
               Match(e, b, back, cc + Caps(a), st, f));
  }

  lemma {:induction false} LookSound(e: Env, p: Node, back: bool, cc: nat, st: St, f: nat)
    requires WellFormed(p) && st.pos <= |e.input| && p.Look?
    ensures Sound(e, back, MustMove(p), st, Match(e, p, back, cc, st, f))
    decreases f, p, 0, 0
  {
    hide Sound, Bind, Around, Match, MustMove;
    LookMatch(e, p, back, cc, st, f);
    MustMoveStep(p);
    MatchSound(e, p.body, p.backward, cc, st, f);
    AroundSound(e, back, p.backward, MustMove(p.body), p.negative, st, Match(e, p.body, p.backward, cc, st, f));
  }

  lemma AltResults(e: Env, back: bool, s1: bool, s2: bool, st: St, x: Res, y: Res)
    requires Sound(e, back, s1, st, x) && Sound(e, back, s2, st, y)
    ensures Sound(e, back, s1 && s2, st, Append(x, y))
  {
  }

  lemma AroundSound(e: Env, back: bool, inner: bool, s: bool, negative: bool, st: St, x: Res)
    requires Sound(e, inner, s, st, x) && st.pos <= |e.input|
    ensures Sound(e, back, false, st, Around(negative, st, x))
  {
  }

  predicate IsLeaf(p: Node) {
    !p.Cat? && !p.Alt? && !p.Capture? && !p.Look? && !p.Quant?
  }

  lemma LeafSound(e: Env, p: Node, back: bool, cc: nat, st: St, f: nat)
    requires WellFormed(p) && st.pos <= |e.input| && IsLeaf(p)
    ensures Sound(e, back, MustMove(p), st, Match(e, p, back, cc, st, f))
  {
    hide Bind, CharTest, AtLineStart, AtLineEnd, AtWordBoundary, RefPos;
  }

  lemma {:induction false} CatSound(e: Env, p: Node, back: bool, cc: nat, st: St, f: nat)
    requires WellFormed(p) && st.pos <= |e.input| && p.Cat?
    ensures Sound(e, back, MustMove(p), st, Match(e, p, back, cc, st, f))
    decreases f, p, 0, 0
  {
    hide Bind, Match, MustMove, WellFormed;
    Children(p);
    CatMatch(e, p, back, cc, st, f);
    MustMoveStep(p);
    var mid := cc + Caps(p.init);
    var (a, ca, b, cb) := if back then (p.last, mid, p.init, cc) else (p.init, cc, p.last, mid);
    MatchSound(e, a, back, ca, st, f);
    forall r | Onward(e, back, false, st, r)
      ensures Sound(e, back, MustMove(b), r, ThenNode(e, b, back, cb, f)(r))
    {
      MatchSound(e, b, back, cb, r, f);
    }
    BindSound(e, back, MustMove(a), MustMove(b), st, Match(e, a, back, ca, st, f), ThenNode(e, b, back, cb, f));
  }

  lemma {:induction false} CaptureSound(e: Env, p: Node, back: bool, cc: nat, st: St, f: nat)
    requires WellFormed(p) && st.pos <= |e.input| && p.Capture?
    ensures Sound(e, back, MustMove(p), st, Match(e, p, back, cc, st, f))
    decreases f, p, 0, 0
  {
    hide Bind, Match, MustMove, WellFormed, Sound, SoundFrom;
    Children(p);
    CaptureMatch(e, p, back, cc, st, f);
    MustMoveStep(p);
    var a := p.body;
    var st0 := SetCap(st, if back then 2 * cc + 1 else 2 * cc);
    MatchSound(e, a, back, cc + 1, st0, f);
    CloseSound(e, back, cc, st0);
    SoundSame(e, back, MustMove(a), st, st0, Bind(Match(e, a, back, cc + 1, st0, f), ThenClose(back, cc)));
    BindSound(e, back, MustMove(a), false, st0, Match(e, a, back, cc + 1, st0, f), ThenClose(back, cc));
  }

  lemma CloseSound(e: Env, back: bool, cc: nat, st: St)
    ensures SoundFrom(e, back, false, st, ThenClose(back, cc))
  {
  }

  lemma SoundSame(e: Env, back: bool, s: bool, st: St, st0: St, x: Res)
    requires st.pos == st0.pos && |st.caps| == |st0.caps|
    ensures Sound(e, back, s, st, x) == Sound(e, back, s, st0, x)
  {
  }

  lemma {:induction false} QuantSound(e: Env, p: Node, back: bool, cc: nat, st: St, f: nat)
    requires WellFormed(p) && st.pos <= |e.input| && p.Quant?
    ensures Sound(e, back, MustMove(p), st, Match(e, p, back, cc, st, f))
    decreases f, p, 0, 0
  {
    hide Bind;
    var Quant(a, min, max, greedy) := p;
    var st0 := if min == 0 && Caps(a) > 0 then ResetCaps(st, cc, cc + Caps(a) - 1) else st;
    ExactlySound(e, a, back, cc, min, st0, f);
    var g := ThenOptional(e, a, back, cc, min, max, greedy, f);
    forall r | Onward(e, back, false, st0, r)
      ensures Sound(e, back, false, r, g(r))
    {
      if max == INT32_MAX {
        StarSound(e, a, back, cc, greedy, r, f);
      } else {
        UpToSound(e, a, back, cc, max - min, greedy, r, f);
      }
    }
    BindSound(e, back, min > 0 && MustMove(a), false, st0, Exactly(e, a, back, cc, min, st0, f), g);
  }

  lemma NothingSound(e: Env, back: bool, st: St)
    ensures Sound(e, back, false, st, Res([], false))
  {
  }

  lemma SoundWeaken(e: Env, back: bool, strict: bool, st: St, x: Res)
    requires Sound(e, back, strict, st, x)
    ensures Sound(e, back, false, st, x)
  {
  }

  lemma UnitSound(e: Env, back: bool, st: St)
    requires st.pos <= |e.input|
    ensures Sound(e, back, false, st, Unit(st))
  {
  }

  lemma {:induction false} ExactlySound(e: Env, a: Node, back: bool, cc: nat, n: nat, st: St, f: nat)
    requires WellFormed(a) && st.pos <= |e.input|
    ensures Sound(e, back, n > 0 && MustMove(a), st, Exactly(e, a, back, cc, n, st, f))
    decreases f, a, 2, 2 * n
  {
    hide Bind, Match, MustMove, WellFormed, Sound, Choice;
    if n > 0 {
      MatchSound(e, a, back, cc, st, f);
      var g := ThenExactly(e, a, back, cc, n - 1, f);
      forall r | Onward(e, back, false, st, r)
        ensures Sound(e, back, false, r, g(r))
      {
        ExactlySound(e, a, back, cc, n - 1, r, f);
        SoundWeaken(e, back, n - 1 > 0 && MustMove(a), r, g(r));
      }
      BindSound(e, back, MustMove(a), false, st, Match(e, a, back, cc, st, f), g);
    } else {
      UnitSound(e, back, st);
    }
  }

  lemma {:induction false} UpToSound(e: Env, a: Node, back: bool, cc: nat, n: nat, greedy: bool, st: St, f: nat)
    requires WellFormed(a) && st.pos <= |e.input|
    ensures Sound(e, back, false, st, UpTo(e, a, back, cc, n, greedy, st, f))
    decreases f, a, 2, 2 * n
  {
    hide Bind, Match, MustMove, WellFormed, Sound, Choice;
    if n > 0 {
      MatchSound(e, a, back, cc, st, f);
      var g := ThenUpTo(e, a, back, cc, n - 1, greedy, f);
      forall r | Onward(e, back, false, st, r)
        ensures Sound(e, back, false, r, g(r))
      {
        UpToSound(e, a, back, cc, n - 1, greedy, r, f);
      }
      BindSound(e, back, MustMove(a), false, st, Match(e, a, back, cc, st, f), g);
      SoundWeaken(e, back, MustMove(a), st, Bind(Match(e, a, back, cc, st, f), g));
      ChoiceSound(e, back, greedy, st, Bind(Match(e, a, back, cc, st, f), g));
    } else {
      UnitSound(e, back, st);
    }
  }

  lemma {:induction false} StarSound(e: Env, a: Node, back: bool, cc: nat, greedy: bool, st: St, f: nat)
    requires WellFormed(a) && st.pos <= |e.input|
    ensures Sound(e, back, false, st, Star(e, a, back, cc, greedy, st, f))
    decreases f, a, 4, 0
  {
    hide Bind, Match, MustMove, WellFormed, Sound, Choice;
    if f > 0 {
      MatchSound(e, a, back, cc, st, f - 1);
      var g := ThenStar(e, a, back, cc, greedy, st.pos, f - 1);
      forall r | Onward(e, back, false, st, r)
        ensures Sound(e, back, false, r, g(r))
      {
        StarSound(e, a, back, cc, greedy, r, f - 1);
        UnitSound(e, back, r);
      }
      BindSound(e, back, MustMove(a), false, st, Match(e, a, back, cc, st, f - 1), g);
      SoundWeaken(e, back, MustMove(a), st, Bind(Match(e, a, back, cc, st, f - 1), g));
      ChoiceSound(e, back, greedy, st, Bind(Match(e, a, back, cc, st, f - 1), g));
    } else {
      NothingSound(e, back, st);
    }
  }

  // ---- enough fuel ----

  /** Fuel that is always enough for a guarded pattern on a subject of 'n' characters. */
  function Need(p: Node, n: nat): (f: nat) {
    match p
    case Cat(a, b) => Need(a, n) + Need(b, n)
    case Alt(a, b) => Need(a, n) + Need(b, n)
    case Capture(a) => Need(a, n)
    case Look(_, _, a) => Need(a, n)
    case Quant(a, _, max, _) => Need(a, n) + (if max == INT32_MAX then n + 1 else 0)
    case _ => 0
  }

  ghost predicate DoneFrom(e: Env, back: bool, strict: bool, st: St, g: St -> Res) {
    forall r :: Onward(e, back, strict, st, r) ==> g(r).done
  }

  lemma {:induction false} BindDone(e: Env, back: bool, strict: bool, st: St, x: Res, g: St -> Res)
    requires x.done && Sound(e, back, strict, st, x) && DoneFrom(e, back, strict, st, g)
    ensures Bind(x, g).done
    decreases |x.rs|
  {
    if x.rs != [] { BindDone(e, back, strict, st, Res(x.rs[1..], x.done), g); }
  }

  function Room(e: Env, back: bool, pos: nat): (n: nat)
    requires pos <= |e.input|
    ensures n <= |e.input|
  {
    if back then pos else |e.input| - pos
  }

  /** A guarded pattern has a finished list of results, whatever the subject. */
  lemma {:induction false} MatchDone(e: Env, p: Node, back: bool, cc: nat, st: St, f: nat)
    requires WellFormed(p) && st.pos <= |e.input| && Guarded(p, cc) && f >= Need(p, |e.input|)
    ensures Match(e, p, back, cc, st, f).done
    decreases f, p, 1, 0
  {
    match p
    case Cat(_, _) => CatDone(e, p, back, cc, st, f);
    case Alt(a, b) =>
      MatchDone(e, a, back, cc, st, f);
      MatchDone(e, b, back, cc + Caps(a), st, f);
    case Capture(_) => CaptureDone(e, p, back, cc, st, f);
    case Look(_, backward, a) => MatchDone(e, a, backward, cc, st, f);
    case Quant(_, _, _, _) => QuantDone(e, p, back, cc, st, f);
    case _ =>
  }

  lemma {:induction false} CatDone(e: Env, p: Node, back: bool, cc: nat, st: St, f: nat)
    requires WellFormed(p) && st.pos <= |e.input| && Guarded(p, cc) && f >= Need(p, |e.input|) && p.Cat?
    ensures Match(e, p, back, cc, st, f).done
    decreases f, p, 0, 0
  {
    hide Bind;
    var mid := cc + Caps(p.init);
    var (a, ca, b, cb) := if back then (p.last, mid, p.init, cc) else (p.init, cc, p.last, mid);
    MatchDone(e, a, back, ca, st, f);
    MatchSound(e, a, back, ca, st, f);
    forall r | Onward(e, back, MustMove(a), st, r) ensures ThenNode(e, b, back, cb, f)(r).done {
      MatchDone(e, b, back, cb, r, f);
    }
    BindDone(e, back, MustMove(a), st, Match(e, a, back, ca, st, f), ThenNode(e, b, back, cb, f));
  }

  lemma {:induction false} CaptureDone(e: Env, p: Node, back: bool, cc: nat, st: St, f: nat)
    requires WellFormed(p) && st.pos <= |e.input| && Guarded(p, cc) && f >= Need(p, |e.input|) && p.Capture?
    ensures Match(e, p, back, cc, st, f).done
    decreases f, p, 0, 0
  {
    hide Bind;
    var a := p.body;
    var st0 := SetCap(st, if back then 2 * cc + 1 else 2 * cc);
    MatchDone(e, a, back, cc + 1, st0, f);
    MatchSound(e, a, back, cc + 1, st0, f);
    BindDone(e, back, MustMove(a), st0, Match(e, a, back, cc + 1, st0, f), ThenClose(back, cc));
  }

  lemma {:induction false} QuantDone(e: Env, p: Node, back: bool, cc: nat, st: St, f: nat)
    requires WellFormed(p) && st.pos <= |e.input| && Guarded(p, cc) && f >= Need(p, |e.input|) && p.Quant?
    ensures Match(e, p, back, cc, st, f).done
    decreases f, p, 0, 0
  {
    hide Bind;
    var Quant(a, min, max, greedy) := p;
    var st0 := if min == 0 && Caps(a) > 0 then ResetCaps(st, cc, cc + Caps(a) - 1) else st;
    ExactlyDone(e, a, back, cc, min, st0, f);
    ExactlySound(e, a, back, cc, min, st0, f);
    var g := ThenOptional(e, a, back, cc, min, max, greedy, f);
    var strict := min > 0 && MustMove(a);
    forall r | Onward(e, back, strict, st0, r) ensures g(r).done {
      if max == INT32_MAX {
        StarDone(e, a, back, cc, greedy, r, f);
      } else {
        UpToDone(e, a, back, cc, max - min, greedy, r, f);
      }
    }
    BindDone(e, back, strict, st0, Exactly(e, a, back, cc, min, st0, f), g);
  }

  lemma {:induction false} ExactlyDone(e: Env, a: Node, back: bool, cc: nat, n: nat, st: St, f: nat)
    requires WellFormed(a) && st.pos <= |e.input| && Guarded(a, cc) && f >= Need(a, |e.input|)
    ensures Exactly(e, a, back, cc, n, st, f).done
    decreases f, a, 2, 2 * n
  {
    hide Bind, Match, MustMove, WellFormed, Sound, Choice;
    if n > 0 {
      MatchDone(e, a, back, cc, st, f);
      MatchSound(e, a, back, cc, st, f);
      var g := ThenExactly(e, a, back, cc, n - 1, f);
      forall r | Onward(e, back, MustMove(a), st, r) ensures g(r).done {
        ExactlyDone(e, a, back, cc, n - 1, r, f);
      }
      BindDone(e, back, MustMove(a), st, Match(e, a, back, cc, st, f), g);
    }
  }

  lemma {:induction false} UpToDone(e: Env, a: Node, back: bool, cc: nat, n: nat, greedy: bool, st: St, f: nat)
    requires WellFormed(a) && st.pos <= |e.input| && Guarded(a, cc) && f >= Need(a, |e.input|)
    ensures UpTo(e, a, back, cc, n, greedy, st, f).done
    decreases f, a, 2, 2 * n
  {
    hide Bind, Match, MustMove, WellFormed, Sound;
    if n > 0 {
      MatchDone(e, a, back, cc, st, f);
      MatchSound(e, a, back, cc, st, f);
      var g := ThenUpTo(e, a, back, cc, n - 1, greedy, f);
      forall r | Onward(e, back, MustMove(a), st, r) ensures g(r).done {
        UpToDone(e, a, back, cc, n - 1, greedy, r, f);
      }
      BindDone(e, back, MustMove(a), st, Match(e, a, back, cc, st, f), g);
    }
  }

  /** Each further round has less of the subject left. */
  lemma {:induction false} StarDone(e: Env, a: Node, back: bool, cc: nat, greedy: bool, st: St, f: nat)
    requires WellFormed(a) && st.pos <= |e.input| && Guarded(a, cc)
    requires MustMove(a) || Tested(a, cc, greedy)
    requires f >= Need(a, |e.input|) + Room(e, back, st.pos) + 1
    ensures Star(e, a, back, cc, greedy, st, f).done
    decreases f, a, 4, 0
  {
    hide Bind, Match, Need, MustMove, Guarded;
    MatchDone(e, a, back, cc, st, f - 1);
    MatchSound(e, a, back, cc, st, f - 1);
    var g := ThenStar(e, a, back, cc, greedy, st.pos, f - 1);
    forall r | Onward(e, back, MustMove(a), st, r) ensures g(r).done {
      if r.pos != st.pos { StarDone(e, a, back, cc, greedy, r, f - 1); }
    }
    BindDone(e, back, MustMove(a), st, Match(e, a, back, cc, st, f - 1), g);
  }
}
