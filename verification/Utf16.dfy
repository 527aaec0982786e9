/**
 Subjects of 16-bit units read in pairs: stepping forwards and backwards over
 characters agree on every string, also with unpaired surrogates, as long as one
 starts between characters. Positions in units are then positions in the list of
 characters under an increasing map, which is all the machine depends on.
 */
module Utf16 {
  import opened Pattern

  type unit = x: int | 0 <= x < 0x1_0000

  predicate IsHigh(u: unit) { 0xd800 <= u < 0xdc00 }

  predicate IsLow(u: unit) { 0xdc00 <= u < 0xe000 }

  function Join(high: unit, low: unit): (c: int) { high % 0x400 * 0x400 + low % 0x400 + 0x1_0000 }

  datatype Stepped = Stepped(c: int, at: nat)

  // ---- the five ways the executor reads ----

  function GetChar(s: seq<unit>, at: nat): (r: Stepped)
    requires at < |s|
  {
    if IsHigh(s[at]) && at + 1 < |s| && IsLow(s[at + 1]) then Stepped(Join(s[at], s[at + 1]), at + 2)
    else Stepped(s[at], at + 1)
  }

  function PeekChar(s: seq<unit>, at: nat): (c: int)
    requires at < |s|
  {
    if IsHigh(s[at]) && at + 1 < |s| && IsLow(s[at + 1]) then Join(s[at], s[at + 1]) else s[at]
  }

  function PeekPrevChar(s: seq<unit>, at: nat): (c: int)
    requires 0 < at <= |s|
  {
    if IsLow(s[at - 1]) && at >= 2 && IsHigh(s[at - 2]) then Join(s[at - 2], s[at - 1]) else s[at - 1]
  }

  function GetPrevChar(s: seq<unit>, at: nat): (r: Stepped)
    requires 0 < at <= |s|
  {
    var i := at - 1;
    if IsLow(s[i]) && i > 0 && IsHigh(s[i - 1]) then Stepped(Join(s[i - 1], s[i]), i - 1) else Stepped(s[i], i)
  }

  function PrevChar(s: seq<unit>, at: nat): (i: nat)
    requires 0 < at <= |s|
    ensures i < at
  {
    var i := at - 1;
    if IsLow(s[i]) && i > 0 && IsHigh(s[i - 1]) then i - 1 else i
  }

  // ---- one step and back ----

  /** Not between the two halves of a pair. */
  predicate Boundary(s: seq<unit>, at: nat) {
    at <= |s| && !(0 < at < |s| && IsHigh(s[at - 1]) && IsLow(s[at]))
  }

  /** Stepping back undoes stepping forwards, and reads the same character. */
  lemma ForwardThenBack(s: seq<unit>, at: nat)
    requires Boundary(s, at) && at < |s|
    ensures var r := GetChar(s, at);
            && Boundary(s, r.at) && GetPrevChar(s, r.at) == Stepped(r.c, at) && PrevChar(s, r.at) == at
            && PeekChar(s, at) == r.c && PeekPrevChar(s, r.at) == r.c
  {
  }

  /** And the other way round. */
  lemma BackThenForward(s: seq<unit>, at: nat)
    requires Boundary(s, at) && at > 0
    ensures var r := GetPrevChar(s, at);
            Boundary(s, r.at) && GetChar(s, r.at) == Stepped(r.c, at) && PrevChar(s, at) == r.at
  {
  }

  // ---- the string as characters ----

  function Chars(s: seq<unit>): (cs: seq<int>)
    ensures |cs| <= |s|
  {
    if s == [] then [] else var r := GetChar(s, 0); [r.c] + Chars(s[r.at..])
  }

  /** Where character 'k' starts. */
  function Offset(s: seq<unit>, k: nat): (at: nat)
    requires k <= |Chars(s)|
    ensures at <= |s|
    decreases k
  {
    if k == 0 then 0 else var r := GetChar(s, 0); r.at + Offset(s[r.at..], k - 1)
  }

  /** Reading forwards only looks ahead. */
  lemma GetCharShift(s: seq<unit>, n: nat, at: nat)
    requires n <= |s| && n + at < |s|
    ensures var r := GetChar(s[n..], at); GetChar(s, n + at) == Stepped(r.c, n + r.at)
  {
    assert s[n..][at] == s[n + at];
    if n + at + 1 < |s| { assert s[n..][at + 1] == s[n + at + 1]; }
  }

  /** Character 'k' is read where it starts, and the next one starts after it. */
  lemma {:induction false} GetCharAt(s: seq<unit>, k: nat)
    requires k < |Chars(s)|
    ensures Offset(s, k) < |s| && GetChar(s, Offset(s, k)) == Stepped(Chars(s)[k], Offset(s, k + 1))
    decreases k
  {
    var r := GetChar(s, 0);
    if k > 0 {
      var rest := s[r.at..];
      GetCharAt(rest, k - 1);
      GetCharShift(s, r.at, Offset(rest, k - 1));
    } else {
      assert Offset(s[r.at..], 0) == 0;
    }
  }

  lemma {:induction false} OffsetIsBoundary(s: seq<unit>, k: nat)
    requires k <= |Chars(s)|
    ensures Boundary(s, Offset(s, k))
    decreases k
  {
    if k > 0 {
      OffsetIsBoundary(s, k - 1);
      GetCharAt(s, k - 1);
      ForwardThenBack(s, Offset(s, k - 1));
    }
  }

  /** The last character ends where the string does. */
  lemma {:induction false} OffsetEnd(s: seq<unit>)
    ensures Offset(s, |Chars(s)|) == |s|
    decreases |s|
  {
    if s != [] { OffsetEnd(s[GetChar(s, 0).at..]); }
  }

  lemma {:induction false} OffsetIncreases(s: seq<unit>, j: nat, k: nat)
    requires j < k <= |Chars(s)|
    ensures Offset(s, j) < Offset(s, k)
    decreases k
  {
    GetCharAt(s, k - 1);
    if j < k - 1 { OffsetIncreases(s, j, k - 1); }
  }

  lemma {:induction false} CharsAreCodePoints(s: seq<unit>)
    ensures forall k :: 0 <= k < |Chars(s)| ==> IsCodePoint(Chars(s)[k])
    decreases |s|
  {
    if s != [] {
      var r := GetChar(s, 0);
      CharsAreCodePoints(s[r.at..]);
    }
  }

  /** Every position between characters is the start of one, or the end. */
  lemma {:induction false} BoundaryIsOffset(s: seq<unit>, at: nat) returns (k: nat)
    requires Boundary(s, at)
    ensures k <= |Chars(s)| && Offset(s, k) == at
    decreases at
  {
    k := 0;
    if at > 0 {
      BackThenForward(s, at);
      var r := GetPrevChar(s, at);
      var j := BoundaryIsOffset(s, r.at);
      if j == |Chars(s)| { OffsetEnd(s); }
      GetCharAt(s, j);
      k := j + 1;
    }
  }

  // ---- the value of a pair, against the encoder ----

  /** The units of a code point: itself, or a high and a low surrogate. */
  function EncodeChar(c: int): (s: seq<unit>)
    requires IsCodePoint(c)
  {
    if c < 0x1_0000 then [c] else [0xd800 + (c - 0x1_0000) / 0x400, 0xdc00 + (c - 0x1_0000) % 0x400]
  }

  predicate AllPoints(cs: seq<int>) { forall i :: 0 <= i < |cs| ==> IsCodePoint(cs[i]) }

  function Encode(cs: seq<int>): (s: seq<unit>)
    requires AllPoints(cs)
  {
    if cs == [] then [] else EncodeChar(cs[0]) + Encode(cs[1..])
  }

  /** No high surrogate stands directly before a low one, where the two would be read as a pair. */
  predicate Separate(cs: seq<int>) {
    forall i :: 0 <= i < |cs| - 1 ==> !(0xd800 <= cs[i] < 0xdc00 && 0xdc00 <= cs[i + 1] < 0xe000)
  }

  /** A surrogate pair is read as the code point it encodes. */
  lemma PairValue(c: int, rest: seq<unit>)
    requires 0x1_0000 <= c <= 0x10ffff
    ensures var s := EncodeChar(c) + rest; GetChar(s, 0) == Stepped(c, 2)
  {
    var d := c - 0x1_0000;
    JoinParts(d / 0x400, d % 0x400);
  }

  lemma JoinParts(high: int, low: int)
    requires 0 <= high < 0x400 && 0 <= low < 0x400
    ensures Join(0xd800 + high, 0xdc00 + low) == 0x1_0000 + high * 0x400 + low
  {
  }

  lemma SingleValue(c: int, rest: seq<unit>)
    requires 0 <= c < 0x1_0000 && (rest != [] ==> !(0xd800 <= c < 0xdc00 && 0xdc00 <= rest[0] < 0xe000))
    ensures var s := EncodeChar(c) + rest; GetChar(s, 0) == Stepped(c, 1)
  {
  }

  lemma EncodeHead(cs: seq<int>)
    requires AllPoints(cs) && cs != []
    ensures Encode(cs) != [] && Encode(cs)[0] == EncodeChar(cs[0])[0]
  {
  }

  /** Round trip: the characters of an encoded list are the list. */
  lemma {:induction false} CharsOfEncode(cs: seq<int>)
    requires AllPoints(cs) && Separate(cs)
    ensures Chars(Encode(cs)) == cs
  {
    hide GetChar, EncodeChar;
    if cs != [] {
      var rest := cs[1..];
      assert forall i :: 0 <= i < |rest| ==> rest[i] == cs[i + 1];
      CharsOfEncode(rest);
      FirstRead(cs);
      var s, n := Encode(cs), |EncodeChar(cs[0])|;
      assert s[n..] == Encode(rest);
      assert [cs[0]] + rest == cs;
    }
  }

  lemma FirstRead(cs: seq<int>)
    requires AllPoints(cs) && Separate(cs) && cs != []
    ensures GetChar(Encode(cs), 0) == Stepped(cs[0], |EncodeChar(cs[0])|) && |EncodeChar(cs[0])| > 0
  {
    if |cs| > 1 { EncodeHead(cs[1..]); }
    if cs[0] < 0x1_0000 { SingleValue(cs[0], Encode(cs[1..])); } else { PairValue(cs[0], Encode(cs[1..])); }
  }

  /** And back: every string is the encoding of its characters, which keep high and low surrogates apart. */
  lemma {:induction false} EncodeOfChars(s: seq<unit>)
    ensures AllPoints(Chars(s)) && Separate(Chars(s)) && Encode(Chars(s)) == s
    decreases |s|
  {
    if s != [] {
      var r := GetChar(s, 0);
      var rest := s[r.at..];
      EncodeOfChars(rest);
      EncodeRead(s);
      assert Chars(s)[1..] == Chars(rest) && s == s[..r.at] + rest;
    }
  }

  lemma EncodeRead(s: seq<unit>)
    requires s != []
    ensures var r := GetChar(s, 0); IsCodePoint(r.c) && EncodeChar(r.c) == s[..r.at]
    ensures var r := GetChar(s, 0); IsHigh(s[0]) && r.at < |s| && r.at == 1 ==> !IsLow(s[1])
  {
  }

  // ---- what the executor sees ----

  /** Whatever is asked about the text at a position has the same answer for the list of characters. */
  lemma SeesCharacters(s: seq<unit>, k: nat)
    requires k <= |Chars(s)|
    ensures var at := Offset(s, k);
            && (at == |s| <==> k == |Chars(s)|) && (at == 0 <==> k == 0)
            && (k < |Chars(s)| ==> GetChar(s, at) == Stepped(Chars(s)[k], Offset(s, k + 1))
                                   && PeekChar(s, at) == Chars(s)[k])
            && (k > 0 ==> GetPrevChar(s, at) == Stepped(Chars(s)[k - 1], Offset(s, k - 1))
                          && PeekPrevChar(s, at) == Chars(s)[k - 1] && PrevChar(s, at) == Offset(s, k - 1))
  {
    OffsetEnd(s);
    if k < |Chars(s)| {
      OffsetIsBoundary(s, k);
      GetCharAt(s, k);
      ForwardThenBack(s, Offset(s, k));
    }
    if k > 0 {
      OffsetIsBoundary(s, k - 1);
      GetCharAt(s, k - 1);
      ForwardThenBack(s, Offset(s, k - 1));
    }
  }

  /** 'n' steps back, as a choice point of the fast quantifier makes them. */
  method GoBack(s: seq<unit>, at: nat, n: nat, ghost k: nat) returns (cptr: nat)
    requires n <= k <= |Chars(s)| && at == Offset(s, k)
    ensures cptr == Offset(s, k - n)
  {
    cptr := at;
    var i := 0;
    while i < n
      invariant 0 <= i <= n && cptr == Offset(s, k - i)
    {
      SeesCharacters(s, k - i);
      cptr := PrevChar(s, cptr);
      i := i + 1;
    }
  }
}
