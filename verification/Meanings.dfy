/**
 What the definitions shared by the reference matcher, the machine and the
 executor mean, said without them: characters and assertions by code points,
 back references and captures by the text between positions, flags by bits.
 */
module Meanings {
  import opened Bytes
  import opened Opcodes
  import opened Pattern
  import opened Matcher
  import opened MatcherFacts
  import opened Fragments
  import opened Straight
  import opened Codegen
  import opened RangeSets
  import opened Image
  import opened Machine

  // ---- characters ----

  /** The boundary list of the class "\w". */
  const CHAR_RANGE_W: seq<int> := [0x30, 0x3a, 0x41, 0x5b, 0x5f, 0x60, 0x61, 0x7b]

  lemma FourRanges(t: seq<int>, c: int)
    requires |t| == 8
    ensures InRanges(t, c) <==> t[0] <= c < t[1] || t[2] <= c < t[3] || t[4] <= c < t[5] || t[6] <= c < t[7]
  {
    assert InInterval(t, 0, c) <==> t[0] <= c < t[1];
    assert InInterval(t, 1, c) <==> t[2] <= c < t[3];
    assert InInterval(t, 2, c) <==> t[4] <= c < t[5];
    assert InInterval(t, 3, c) <==> t[6] <= c < t[7];
  }

  /** The word test of the executor is the class "\w" of the compiler. */
  lemma WordCharIsClass(c: int)
    ensures IsWordChar(c) <==> Member(CHAR_RANGE_W, c)
  {
    hide Member, InRanges;
    MemberIsInRanges(CHAR_RANGE_W, c);
    FourRanges(CHAR_RANGE_W, c);
  }

  predicate EndsLine(c: int) { c in {0x0a, 0x0d, 0x2028, 0x2029} }

  /** Line feed, carriage return, line separator and paragraph separator end lines, and nothing else does. */
  lemma LineTerminators(c: int)
    ensures IsLineTerminator(c) <==> EndsLine(c)
  {
  }

  /** '^' and '$' by the neighbouring character. */
  lemma LineAnchors(e: Env, back: bool, cc: nat, st: St, f: nat)
    requires st.pos <= |e.input|
    ensures Match(e, LineStart, back, cc, st, f).done && Match(e, LineEnd, back, cc, st, f).done
    ensures Match(e, LineStart, back, cc, st, f).rs ==
            if st.pos == 0 || (e.flags.multiLine && EndsLine(e.input[st.pos - 1])) then [st] else []
    ensures Match(e, LineEnd, back, cc, st, f).rs ==
            if st.pos == |e.input| || (e.flags.multiLine && EndsLine(e.input[st.pos])) then [st] else []
  {
  }

  /** A word character lies right before, or right after, the position. */
  predicate WordBefore(e: Env, pos: nat)
    requires pos <= |e.input|
  {
    pos > 0 && Member(CHAR_RANGE_W, e.input[pos - 1])
  }

  predicate WordAfter(e: Env, pos: nat)
    requires pos <= |e.input|
  {
    pos < |e.input| && Member(CHAR_RANGE_W, e.input[pos])
  }

  /**
   '\b' holds where the class "\w" changes between the two sides, the outside counting
   as no member; '\B' elsewhere.
   */
  lemma WordBoundaries(e: Env, negated: bool, back: bool, cc: nat, st: St, f: nat)
    requires st.pos <= |e.input|
    ensures AtWordBoundary(e, st.pos) <==> WordBefore(e, st.pos) != WordAfter(e, st.pos)
    ensures Match(e, WordBoundary(negated), back, cc, st, f) ==
            Res(if (WordBefore(e, st.pos) == WordAfter(e, st.pos)) == negated then [st] else [], true)
  {
    hide Member;
    if st.pos > 0 { WordCharIsClass(e.input[st.pos - 1]); }
    if st.pos < |e.input| { WordCharIsClass(e.input[st.pos]); }
  }

  /** Two characters are the same to the engine: equal, or equal after folding when case is ignored. */
  predicate Alike(e: Env, x: int, y: int) {
    if e.flags.ignoreCase then e.fold(x) == e.fold(y) else x == y
  }

  /** The character that reading in the given direction yields at 'pos', if any. */
  function Next(e: Env, back: bool, pos: nat): (c: Option<int>) {
    if back then (if 0 < pos <= |e.input| then Some(e.input[pos - 1]) else None)
    else if pos < |e.input| then Some(e.input[pos]) else None
  }

  predicate Accepts(e: Env, p: Node, ch: int)
    requires p.Dot? || p.Char? || p.Class?
  {
    match p
    case Dot => e.flags.dotAll || !EndsLine(ch)
    case Char(c) => Alike(e, ch, c)
    case Class(t) => Member(t, if e.flags.ignoreCase then e.fold(ch) else ch)
  }

  /** A character node takes one character of the text in the direction of matching. */
  lemma CharacterMeans(e: Env, p: Node, back: bool, cc: nat, st: St, f: nat)
    requires (p.Dot? || p.Char? || p.Class?) && WellFormed(p) && st.pos <= |e.input|
    ensures var ch := Next(e, back, st.pos);
            Match(e, p, back, cc, st, f) ==
            if ch.Some? && Accepts(e, p, ch.value)
            then Res([St(if back then st.pos - 1 else st.pos + 1, st.caps)], true)
            else Res([], true)
  {
    hide Member, InRanges;
    var ch := Next(e, back, st.pos);
    if ch.Some? && p.Class? { MemberIsInRanges(p.points, if e.flags.ignoreCase then e.fold(ch.value) else ch.value); }
  }

  // ---- literal text, in both directions ----

  function Literal(cs: seq<int>): (p: Node) {
    if cs == [] then Empty else Cat(Literal(cs[..|cs| - 1]), Char(cs[|cs| - 1]))
  }

  /** The text at 'pos' is 'cs'. */
  predicate TextAt(e: Env, cs: seq<int>, pos: int) {
    0 <= pos && pos + |cs| <= |e.input| && forall i :: 0 <= i < |cs| ==> Alike(e, e.input[pos + i], cs[i])
  }

  predicate AllCodePoints(cs: seq<int>) { forall i :: 0 <= i < |cs| ==> IsCodePoint(cs[i]) }

  lemma {:induction false} LiteralWellFormed(cs: seq<int>)
    requires AllCodePoints(cs)
    ensures WellFormed(Literal(cs)) && Caps(Literal(cs)) == 0
  {
    if cs != [] { LiteralWellFormed(cs[..|cs| - 1]); }
  }

  /** A literal matches once, exactly where its characters stand, ending or starting at the position. */
  lemma {:induction false} LiteralMeans(e: Env, cs: seq<int>, back: bool, cc: nat, st: St, f: nat)
    requires AllCodePoints(cs) && WellFormed(Literal(cs)) && st.pos <= |e.input|
    ensures Match(e, Literal(cs), back, cc, st, f) ==
            if back then
              if TextAt(e, cs, st.pos - |cs|) then Res([St(st.pos - |cs|, st.caps)], true) else Res([], true)
            else
              if TextAt(e, cs, st.pos) then Res([St(st.pos + |cs|, st.caps)], true) else Res([], true)
    decreases |cs|
  {
    hide Match, WellFormed, Bind, Caps, Alike;
    if cs == [] {
      EmptyMatch(e, back, cc, st, f);
    } else {
      var init, last := cs[..|cs| - 1], cs[|cs| - 1];
      var p := Literal(cs);
      LiteralWellFormed(init);
      Children(p);
      CatMatch(e, p, back, cc, st, f);
      TextSplit(e, cs, if back then st.pos - |cs| else st.pos);
      if back {
        var g := ThenNode(e, Literal(init), back, cc, f);
        CharacterMeans(e, Char(last), back, cc, st, f);
        if st.pos > 0 && Alike(e, e.input[st.pos - 1], last) {
          var st1 := St(st.pos - 1, st.caps);
          BindOne(st1, g);
          LiteralMeans(e, init, back, cc, st1, f);
        } else {
          BindNothing(g);
        }
      } else {
        var g := ThenNode(e, Char(last), back, cc, f);
        LiteralMeans(e, init, back, cc, st, f);
        if TextAt(e, init, st.pos) {
          var st1 := St(st.pos + |init|, st.caps);
          BindOne(st1, g);
          CharacterMeans(e, Char(last), back, cc, st1, f);
        } else {
          BindNothing(g);
        }
      }
    }
  }

  lemma TextSplit(e: Env, cs: seq<int>, pos: int)
    requires cs != []
    ensures TextAt(e, cs, pos) <==>
            TextAt(e, cs[..|cs| - 1], pos) && pos + |cs| <= |e.input| && Alike(e, e.input[pos + |cs| - 1], cs[|cs| - 1])
  {
    var init := cs[..|cs| - 1];
    if TextAt(e, init, pos) && pos + |cs| <= |e.input| && Alike(e, e.input[pos + |cs| - 1], cs[|cs| - 1]) {
      forall i | 0 <= i < |cs| ensures Alike(e, e.input[pos + i], cs[i]) {
        if i < |cs| - 1 { assert init[i] == cs[i]; }
      }
    }
    if TextAt(e, cs, pos) {
      forall i | 0 <= i < |init| ensures Alike(e, e.input[pos + i], init[i]) { assert init[i] == cs[i]; }
    }
  }

  lemma EmptyMatch(e: Env, back: bool, cc: nat, st: St, f: nat)
    ensures Match(e, Empty, back, cc, st, f) == Res([st], true)
  {
  }

  // ---- order: alternatives, loops, lookarounds ----

  /** All ways of the left alternative come before those of the right one. */
  lemma AlternativesInOrder(e: Env, p: Node, back: bool, cc: nat, st: St, f: nat)
    requires WellFormed(p) && p.Alt?
    ensures var l, r := Match(e, p.left, back, cc, st, f), Match(e, p.right, back, cc + Caps(p.left), st, f);
            l.done ==> Match(e, p, back, cc, st, f).rs == l.rs + r.rs && Match(e, p, back, cc, st, f).done == r.done
  {
    hide Match, Caps, WellFormed;
    AltMatch(e, p, back, cc, st, f);
  }

  /**
   A lookaround stays at its position; a positive one takes the captures of the first
   way, a negative one needs that there is none.
   */
  lemma LookaroundMeans(e: Env, p: Node, back: bool, cc: nat, st: St, f: nat)
    requires WellFormed(p) && p.Look?
    ensures var inner, r := Match(e, p.body, p.backward, cc, st, f), Match(e, p, back, cc, st, f);
            && (!p.negative && inner.rs != [] ==> r == Res([St(st.pos, inner.rs[0].caps)], true))
            && (!p.negative && inner.rs == [] && inner.done ==> r == Res([], true))
            && (p.negative && inner.rs != [] ==> r == Res([], true))
            && (p.negative && inner.rs == [] && inner.done ==> r == Res([st], true))
  {
    hide Match, WellFormed;
    LookMatch(e, p, back, cc, st, f);
  }

  /** How many characters from 'pos' on a character node accepts in a row. */
  function RunLength(e: Env, p: Node, pos: nat): (n: nat)
    requires (p.Dot? || p.Char? || p.Class?) && pos <= |e.input|
    ensures pos + n <= |e.input|
    decreases |e.input| - pos
  {
    if pos < |e.input| && Accepts(e, p, e.input[pos]) then 1 + RunLength(e, p, pos + 1) else 0
  }

  /** The positions pos..pos + m, the farthest first when greedy and last when lazy. */
  function Stops(pos: nat, caps: seq<int>, m: nat, greedy: bool): (r: seq<St>)
    ensures |r| == m + 1
  {
    seq(m + 1, i requires 0 <= i <= m => St(pos + (if greedy then m - i else i), caps))
  }

  lemma StopsStep(pos: nat, caps: seq<int>, m: nat)
    requires m > 0
    ensures Stops(pos, caps, m, true) == Stops(pos + 1, caps, m - 1, true) + [St(pos, caps)]
    ensures Stops(pos, caps, m, false) == [St(pos, caps)] + Stops(pos + 1, caps, m - 1, false)
  {
  }

  predicate OneCharacter(p: Node) { p.Dot? || p.Char? || p.Class? }

  function Least(x: nat, y: nat): (r: nat) { if x <= y then x else y }

  /** One more round, then the rest, in the order of the loop. */
  lemma ChoiceStep(e: Env, p: Node, greedy: bool, cc: nat, st: St, f: nat, g: St -> Res, m: nat)
    requires OneCharacter(p) && WellFormed(p) && st.pos < |e.input| && Accepts(e, p, e.input[st.pos])
    requires g(St(st.pos + 1, st.caps)) == Res(Stops(st.pos + 1, st.caps, m, greedy), true)
    ensures Choice(greedy, Bind(Match(e, p, false, cc, st, f), g), st) ==
            Res(Stops(st.pos, st.caps, m + 1, greedy), true)
  {
    hide Match, Bind, WellFormed, Accepts, Stops;
    CharacterMeans(e, p, false, cc, st, f);
    BindOne(St(st.pos + 1, st.caps), g);
    StopsStep(st.pos, st.caps, m + 1);
  }

  lemma ChoiceStop(e: Env, p: Node, greedy: bool, cc: nat, st: St, f: nat, g: St -> Res)
    requires OneCharacter(p) && WellFormed(p) && st.pos <= |e.input|
    requires st.pos < |e.input| ==> !Accepts(e, p, e.input[st.pos])
    ensures Choice(greedy, Bind(Match(e, p, false, cc, st, f), g), st) == Res(Stops(st.pos, st.caps, 0, greedy), true)
  {
    hide Match, Bind, WellFormed, Accepts;
    CharacterMeans(e, p, false, cc, st, f);
    BindNothing(g);
  }

  lemma {:induction false} UpToOfCharacter(e: Env, p: Node, cc: nat, n: nat, greedy: bool, st: St, f: nat)
    requires OneCharacter(p) && WellFormed(p) && st.pos <= |e.input|
    ensures UpTo(e, p, false, cc, n, greedy, st, f) ==
            Res(Stops(st.pos, st.caps, Least(n, RunLength(e, p, st.pos)), greedy), true)
    decreases n
  {
    hide Match, Bind, WellFormed, Accepts, Stops, Choice;
    if n == 0 {
      OneStop(st, greedy);
    } else {
      var g := ThenUpTo(e, p, false, cc, n - 1, greedy, f);
      if st.pos < |e.input| && Accepts(e, p, e.input[st.pos]) {
        var st1 := St(st.pos + 1, st.caps);
        UpToOfCharacter(e, p, cc, n - 1, greedy, st1, f);
        ChoiceStep(e, p, greedy, cc, st, f, g, Least(n - 1, RunLength(e, p, st1.pos)));
      } else {
        ChoiceStop(e, p, greedy, cc, st, f, g);
      }
    }
  }

  lemma OneStop(st: St, greedy: bool)
    ensures Stops(st.pos, st.caps, 0, greedy) == [st]
  {
  }

  lemma {:induction false} StarOfCharacter(e: Env, p: Node, cc: nat, greedy: bool, st: St, f: nat)
    requires OneCharacter(p) && WellFormed(p) && st.pos <= |e.input| && f > |e.input| - st.pos
    ensures Star(e, p, false, cc, greedy, st, f) ==
            Res(Stops(st.pos, st.caps, RunLength(e, p, st.pos), greedy), true)
    decreases f
  {
    hide Match, Bind, WellFormed, Accepts, Stops, Choice, Tested;
    var g := ThenStar(e, p, false, cc, greedy, st.pos, f - 1);
    if st.pos < |e.input| && Accepts(e, p, e.input[st.pos]) {
      var st1 := St(st.pos + 1, st.caps);
      StarOfCharacter(e, p, cc, greedy, st1, f - 1);
      ChoiceStep(e, p, greedy, cc, st, f - 1, g, RunLength(e, p, st1.pos));
    } else {
      ChoiceStop(e, p, greedy, cc, st, f - 1, g);
    }
  }

  lemma {:induction false} ExactlyOfCharacter(e: Env, p: Node, cc: nat, n: nat, st: St, f: nat)
    requires OneCharacter(p) && WellFormed(p) && st.pos <= |e.input|
    ensures Exactly(e, p, false, cc, n, st, f) ==
            Res(if n <= RunLength(e, p, st.pos) then [St(st.pos + n, st.caps)] else [], true)
    decreases n
  {
    hide Match, Bind, WellFormed, Accepts;
    if n > 0 {
      var g := ThenExactly(e, p, false, cc, n - 1, f);
      CharacterMeans(e, p, false, cc, st, f);
      if st.pos < |e.input| && Accepts(e, p, e.input[st.pos]) {
        var st1 := St(st.pos + 1, st.caps);
        ExactlyOfCharacter(e, p, cc, n - 1, st1, f);
        BindOne(st1, g);
      } else {
        BindNothing(g);
      }
    }
  }

  lemma {:induction false} RunAfter(e: Env, p: Node, pos: nat, n: nat)
    requires OneCharacter(p) && pos <= |e.input| && n <= RunLength(e, p, pos)
    ensures RunLength(e, p, pos + n) == RunLength(e, p, pos) - n
    decreases n
  {
    if n > 0 { RunAfter(e, p, pos + 1, n - 1); }
  }

  /**
   A quantified character, with any bounds: if fewer than 'min' characters in a
   row are accepted there is no way; otherwise one way for each number of
   characters from 'min' to as many as there are and 'max' allows, in falling
   order when greedy and in rising order when lazy.
   */
  lemma QuantifiedCharacter(e: Env, p: Node, min: nat, max: nat, greedy: bool, cc: nat, st: St, f: nat)
    requires OneCharacter(p) && WellFormed(p) && min <= max <= INT32_MAX && st.pos <= |e.input| && f > |e.input|
    ensures var r, run := Match(e, Quant(p, min, max, greedy), false, cc, st, f), RunLength(e, p, st.pos);
            var top := if max == INT32_MAX then run else Least(run, max);
            && r.done
            && (run < min ==> r.rs == [])
            && (run >= min ==> |r.rs| == top - min + 1 && forall i :: 0 <= i < |r.rs| ==>
                  r.rs[i] == St(st.pos + (if greedy then top - i else min + i), st.caps))
  {
    hide Bind, Accepts, RunLength;
    var g := ThenOptional(e, p, false, cc, min, max, greedy, f);
    ExactlyOfCharacter(e, p, cc, min, st, f);
    if min <= RunLength(e, p, st.pos) {
      var st1 := St(st.pos + min, st.caps);
      RunAfter(e, p, st.pos, min);
      BindOne(st1, g);
      if max == INT32_MAX {
        StarOfCharacter(e, p, cc, greedy, st1, f);
      } else {
        UpToOfCharacter(e, p, cc, max - min, greedy, st1, f);
      }
    } else {
      BindNothing(g);
    }
  }

  // ---- back references ----

  /** Two texts are the same to the engine, character by character. */
  predicate SameText(e: Env, x: seq<int>, y: seq<int>) {
    |x| == |y| && forall i :: 0 <= i < |x| ==> Alike(e, x[i], y[i])
  }

  /** The text of 'n' characters from 's' on. */
  function Text(e: Env, s: nat, n: nat): (x: seq<int>)
    requires s + n <= |e.input|
  {
    e.input[s..s + n]
  }

  lemma TextParts(e: Env, s: nat, n: nat)
    requires s + n <= |e.input|
    ensures |Text(e, s, n)| == n && (n == 0 ==> Text(e, s, n) == [])
    ensures n > 0 ==> Text(e, s, n)[0] == e.input[s] && Text(e, s, n)[1..] == Text(e, s + 1, n - 1)
    ensures n > 0 ==> Text(e, s, n)[n - 1] == e.input[s + n - 1] && Text(e, s, n)[..n - 1] == Text(e, s, n - 1)
  {
  }

  /** Comparing forwards finds a copy of the text from 's' to 't' at 'pos', and ends after it. */
  lemma {:induction false} MatchRefMeans(e: Env, s: nat, t: nat, pos: nat)
    requires s <= t <= |e.input| && pos <= |e.input|
    ensures MatchRef(e, s, t, pos) ==
            if pos + (t - s) <= |e.input| && SameText(e, Text(e, s, t - s), Text(e, pos, t - s))
            then Some(pos + (t - s)) else None
    decreases t - s
  {
    hide SameText, Text;
    TextParts(e, s, t - s);
    if pos + (t - s) <= |e.input| {
      TextParts(e, pos, t - s);
      if s < t { FirstAndRest(e, Text(e, s, t - s), Text(e, pos, t - s)); } else { EmptyText(e); }
    }
    if s < t && pos < |e.input| { MatchRefMeans(e, s + 1, t, pos + 1); }
  }

  lemma EmptyText(e: Env)
    ensures SameText(e, [], [])
  {
  }

  lemma FirstAndRest(e: Env, x: seq<int>, y: seq<int>)
    requires |x| == |y| > 0
    ensures SameText(e, x, y) <==> Alike(e, x[0], y[0]) && SameText(e, x[1..], y[1..])
  {
    if Alike(e, x[0], y[0]) && SameText(e, x[1..], y[1..]) {
      forall i | 0 <= i < |x| ensures Alike(e, x[i], y[i]) {
        if i > 0 { assert Alike(e, x[1..][i - 1], y[1..][i - 1]); }
      }
    }
  }

  lemma RestAndLast(e: Env, x: seq<int>, y: seq<int>)
    requires |x| == |y| > 0
    ensures SameText(e, x, y) <==>
            SameText(e, x[..|x| - 1], y[..|x| - 1]) && Alike(e, x[|x| - 1], y[|x| - 1])
  {
    if SameText(e, x[..|x| - 1], y[..|x| - 1]) && Alike(e, x[|x| - 1], y[|x| - 1]) {
      forall i | 0 <= i < |x| ensures Alike(e, x[i], y[i]) {
        if i < |x| - 1 { assert Alike(e, x[..|x| - 1][i], y[..|x| - 1][i]); }
      }
    }
  }

  /** Comparing backwards finds it before 'pos'. */
  lemma {:induction false} MatchRefBackMeans(e: Env, s: nat, t: nat, pos: nat)
    requires s <= t <= |e.input| && pos <= |e.input|
    ensures MatchRefBack(e, s, t, pos) ==
            if t - s <= pos && SameText(e, Text(e, s, t - s), Text(e, pos - (t - s), t - s))
            then Some(pos - (t - s)) else None
    decreases t - s
  {
    hide SameText, Text;
    TextParts(e, s, t - s);
    if t - s <= pos {
      TextParts(e, pos - (t - s), t - s);
      if s < t { RestAndLast(e, Text(e, s, t - s), Text(e, pos - (t - s), t - s)); } else { EmptyText(e); }
    }
    if s < t && pos > 0 { MatchRefBackMeans(e, s, t - 1, pos - 1); }
  }

  /** Both ends of capture 'n' are set, in order and inside the subject. */
  predicate IsSet(e: Env, n: nat, st: St) {
    2 * n + 1 < |st.caps| && 0 <= st.caps[2 * n] <= st.caps[2 * n + 1] <= |e.input|
  }

  /**
   A back reference to a set capture takes exactly a copy of its text, after or
   before the position; to one with an end not set it takes nothing; to one
   that does not exist it fails.
   */
  lemma BackReferenceMeans(e: Env, n: nat, back: bool, cc: nat, st: St, f: nat)
    requires n < CAPTURE_COUNT_MAX && st.pos <= |e.input|
    ensures var r := Match(e, BackReference(n), back, cc, st, f);
            && (2 * n + 1 >= |st.caps| ==> r == Res([], true))
            && (2 * n + 1 < |st.caps| && (st.caps[2 * n] < 0 || st.caps[2 * n + 1] < 0) ==> r == Res([st], true))
            && (IsSet(e, n, st) ==>
                  var s, len := st.caps[2 * n], st.caps[2 * n + 1] - st.caps[2 * n];
                  if back then
                    r == if len <= st.pos && SameText(e, Text(e, s, len), Text(e, st.pos - len, len))
                         then Res([St(st.pos - len, st.caps)], true) else Res([], true)
                  else
                    r == if st.pos + len <= |e.input| && SameText(e, Text(e, s, len), Text(e, st.pos, len))
                         then Res([St(st.pos + len, st.caps)], true) else Res([], true))
  {
    hide MatchRef, MatchRefBack, SameText;
    if IsSet(e, n, st) {
      MatchRefMeans(e, st.caps[2 * n], st.caps[2 * n + 1], st.pos);
      MatchRefBackMeans(e, st.caps[2 * n], st.caps[2 * n + 1], st.pos);
    }
  }

  // ---- captures that are reset ----

  /** Both ends of captures first..last are unset afterwards; everything else stays. */
  lemma ResetMeans(st: St, first: nat, last: nat, n: nat)
    requires 2 * n + 1 < |st.caps|
    ensures var r := ResetCaps(st, first, last);
            && r.pos == st.pos && |r.caps| == |st.caps|
            && (first <= n <= last ==> r.caps[2 * n] == r.caps[2 * n + 1] == -1)
            && (!(first <= n <= last) ==> r.caps[2 * n] == st.caps[2 * n] && r.caps[2 * n + 1] == st.caps[2 * n + 1])
  {
  }

  /** A quantifier that makes no round leaves the captures inside it unset, and no others. */
  lemma SkippedCaptures(e: Env, a: Node, greedy: bool, back: bool, cc: nat, st: St, f: nat, n: nat)
    requires WellFormed(a) && 2 * (cc + Caps(a)) <= |st.caps| && 2 * n + 1 < |st.caps|
    ensures var r := Match(e, Quant(a, 0, 0, greedy), back, cc, st, f);
            && |r.rs| == 1 && r.done && r.rs[0].pos == st.pos && |r.rs[0].caps| == |st.caps|
            && (cc <= n < cc + Caps(a) ==> r.rs[0].caps[2 * n] == r.rs[0].caps[2 * n + 1] == -1)
            && (!(cc <= n < cc + Caps(a)) ==> r.rs[0].caps[2 * n] == st.caps[2 * n]
                                              && r.rs[0].caps[2 * n + 1] == st.caps[2 * n + 1])
  {
    hide Bind, ResetCaps, Caps;
    var st0 := if Caps(a) > 0 then ResetCaps(st, cc, cc + Caps(a) - 1) else st;
    var g := ThenOptional(e, a, back, cc, 0, 0, greedy, f);
    NoRounds(e, a, back, cc, greedy, st0, f);
    BindOne(st0, g);
    if Caps(a) > 0 { ResetMeans(st, cc, cc + Caps(a) - 1, n); }
  }

  // ---- the header and the machine words ----

  function Bit(b: bool): (v: int) { if b then 1 else 0 }

  /** The flag byte, bit by bit: global, ignore case, multiline, dot all, UTF-16, sticky, and named groups on top. */
  lemma FlagBits(global: bool, ignoreCase: bool, multiLine: bool, dotAll: bool, utf16: bool, sticky: bool, named: bool)
    ensures FlagsOf(Bit(global) + 2 * Bit(ignoreCase) + 4 * Bit(multiLine) + 8 * Bit(dotAll)
                    + 16 * Bit(utf16) + 32 * Bit(sticky) + 128 * Bit(named))
         == Flags(sticky, multiLine, dotAll, ignoreCase)
  {
  }

  /** The number of each opcode is its place in the list of opcodes, from 0 for the one that is never used. */
  lemma OpcodeNumbers(i: Instr)
    ensures Op(i) == match i
                     case IChar(_) => 1
                     case IChar32(_) => 2
                     case IDot => 3
                     case IAny => 4
                     case ILineStart => 5
                     case ILineEnd => 6
                     case IGoto(_) => 7
                     case ISplit(nextFirst, _) => if nextFirst then 9 else 8
                     case IMatch => 10
                     case ISave(end, _) => if end then 12 else 11
                     case ISaveReset(_, _) => 13
                     case ILoop(_) => 14
                     case IPushI32(_) => 15
                     case IDrop => 16
                     case IWordBoundary(negated) => if negated then 18 else 17
                     case IBackReference(backward, _) => if backward then 20 else 19
                     case IRange(_) => 21
                     case IRange32(_) => 22
                     case ILookahead(negative, _) => if negative then 24 else 23
                     case IPushCharPos => 25
                     case IBneCharPos(_) => 26
                     case IPrev => 27
                     case ISimpleGreedyQuant(_, _, _, _) => 28
  {
  }

  /** Flags, captures and stack size take a byte each, the code length four, lowest first. */
  lemma HeaderBytes(reFlags: byte, captureCount: byte, stackSize: byte, len: int)
    requires IsU32(len)
    ensures var h := Header(reFlags, captureCount, stackSize, len);
            && |h| == 7 && h[0] == reFlags && h[1] == captureCount && h[2] == stackSize
            && LowFirst(h[3..]) == len
  {
    LittleEndian(len);
    assert Header(reFlags, captureCount, stackSize, len)[3..] == PutU32(len);
  }

  /** The number whose bytes, lowest first, are 'b'. */
  function LowFirst(b: seq<byte>): (v: int) { if b == [] then 0 else b[0] as int + 0x100 * LowFirst(b[1..]) }

  /** Numbers of 16 and 32 bits are stored lowest byte first. */
  lemma LittleEndian(v: int)
    requires IsU32(v)
    ensures |PutU32(v)| == 4 && LowFirst(PutU32(v)) == v
    ensures v < 0x1_0000 ==> |PutU16(v)| == 2 && LowFirst(PutU16(v)) == v
  {
    hide LowFirst, PutU16;
    TwoBytes(v % TWO16);
    TwoBytes(v / TWO16);
    LowThenHigh(PutU16(v % TWO16), PutU16(v / TWO16));
    if v < TWO16 { TwoBytes(v); }
  }

  lemma TwoBytes(v: int)
    requires IsU16(v)
    ensures LowFirst(PutU16(v)) == v
  {
    var b := PutU16(v);
    assert b[1..] == [b[1]];
    LowOne(b[1]);
    assert LowFirst(b) == b[0] as int + 0x100 * LowFirst(b[1..]);
  }

  lemma LowOne(x: byte)
    ensures LowFirst([x]) == x
  {
    assert [x][1..] == [] && LowFirst([]) == 0;
  }

  lemma LowThenHigh(a: seq<byte>, b: seq<byte>)
    requires |a| == 2
    ensures LowFirst(a + b) == LowFirst(a) + 0x1_0000 * LowFirst(b)
  {
    var rest := [a[1]] + b;
    assert (a + b)[1..] == rest && rest[1..] == b && a[1..] == [a[1]];
    LowOne(a[1]);
    assert LowFirst(a) == a[0] as int + 0x100 * LowFirst([a[1]]);
    assert LowFirst(rest) == a[1] as int + 0x100 * LowFirst(b);
  }

  /** Distances are two's complement numbers of 32 bits. */
  lemma SignedDistance(d: int)
    requires -0x8000_0000 <= d < 0x8000_0000
    ensures 0 <= ToU32(d) < 0x1_0000_0000 && (ToU32(d) - d) % 0x1_0000_0000 == 0 && ToS32(ToU32(d)) == d
  {
  }

  /** The counter of a loop is one less modulo 2^64. */
  lemma CounterStep(v: int)
    requires 0 <= v < 0x1_0000_0000_0000_0000
    ensures CountDown(v) == (v - 1) % 0x1_0000_0000_0000_0000
  {
  }

  /** The captures a reset marks as written are those from the first up to, not including, the last. */
  lemma ResetMarks(a: int, b: int, n: int)
    ensures n in InstrSaves(ISaveReset(a, b)) <==> a <= n < b
  {
  }
}
