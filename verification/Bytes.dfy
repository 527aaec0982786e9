/**
 Byte buffers: little-endian integers inside a sequence of bytes, and the
 "this fragment sits at this offset" relation used everywhere below.
 */
module Bytes {

  type byte = x: int | 0 <= x < 256

  const TWO16: int := 0x1_0000
  const TWO31: int := 0x8000_0000
  const TWO32: int := 0x1_0000_0000

  predicate IsU16(v: int) { 0 <= v < TWO16 }
  predicate IsU32(v: int) { 0 <= v < TWO32 }

  /** A jump distance that survives the trip through a 32-bit two's complement field. */
  predicate IsS32(v: int) { -TWO31 <= v < TWO31 }

  function PutU16(v: int): (s: seq<byte>)
    requires IsU16(v)
    ensures |s| == 2
  {
    [v % 256, v / 256]
  }

  function PutU32(v: int): (s: seq<byte>)
    requires IsU32(v)
    ensures |s| == 4
  {
    PutU16(v % TWO16) + PutU16(v / TWO16)
  }

  function GetU16(b: seq<byte>, pos: nat): (v: int)
    requires pos + 2 <= |b|
    ensures IsU16(v)
  {
    var lo: int, hi: int := b[pos], b[pos + 1];
    lo + 256 * hi
  }

  function GetU32(b: seq<byte>, pos: nat): (v: int)
    requires pos + 4 <= |b|
    ensures IsU32(v)
  {
    GetU16(b, pos) + TWO16 * GetU16(b, pos + 2)
  }

  /** Signed distances are stored modulo 2^32 and read back as 32-bit signed. */
  function ToU32(d: int): (v: int)
    requires IsS32(d)
    ensures IsU32(v)
  {
    if d < 0 then d + TWO32 else d
  }

  function ToS32(v: int): (d: int)
    requires IsU32(v)
    ensures IsS32(d)
  {
    if v >= TWO31 then v - TWO32 else v
  }

  /** Fragment 'frag' occupies code[pos..pos + |frag|]. */
  ghost predicate At(code: seq<byte>, pos: int, frag: seq<byte>) {
    0 <= pos && pos + |frag| <= |code| && code[pos..pos + |frag|] == frag
  }

  lemma AtConcat(code: seq<byte>, pos: int, a: seq<byte>, b: seq<byte>)
    ensures At(code, pos, a + b) <==> At(code, pos, a) && At(code, pos + |a|, b)
  {
    var n := |a| + |b|;
    if At(code, pos, a + b) {
      var w := code[pos..pos + n];
      assert w == a + b;
      assert w[..|a|] == a && w[|a|..] == b;
      assert code[pos..pos + |a|] == w[..|a|];
      assert code[pos + |a|..pos + |a| + |b|] == w[|a|..];
    }
    if At(code, pos, a) && At(code, pos + |a|, b) {
      assert code[pos..pos + n] == code[pos..pos + |a|] + code[pos + |a|..pos + n];
    }
  }

  lemma AtIndex(code: seq<byte>, pos: int, frag: seq<byte>, k: nat)
    requires At(code, pos, frag) && k < |frag|
    ensures code[pos + k] == frag[k]
  {
    assert code[pos..pos + |frag|][k] == code[pos + k];
  }

  lemma GetAfterPut16(code: seq<byte>, pos: nat, v: int)
    requires IsU16(v) && At(code, pos, PutU16(v))
    ensures GetU16(code, pos) == v
  {
    AtIndex(code, pos, PutU16(v), 0);
    AtIndex(code, pos, PutU16(v), 1);
  }

  lemma GetAfterPut32(code: seq<byte>, pos: nat, v: int)
    requires IsU32(v) && At(code, pos, PutU32(v))
    ensures GetU32(code, pos) == v
  {
    AtConcat(code, pos, PutU16(v % TWO16), PutU16(v / TWO16));
    GetAfterPut16(code, pos, v % TWO16);
    GetAfterPut16(code, pos + 2, v / TWO16);
  }

  /** Tables of 16-bit and 32-bit words, as emitted for a character class. */
  predicate AllU16(t: seq<int>) { forall i :: 0 <= i < |t| ==> IsU16(t[i]) }
  predicate AllU32(t: seq<int>) { forall i :: 0 <= i < |t| ==> IsU32(t[i]) }

  function PutTable16(t: seq<int>): (s: seq<byte>)
    requires AllU16(t)
    ensures |s| == 2 * |t|
  {
    if t == [] then [] else PutU16(t[0]) + PutTable16(t[1..])
  }

  function PutTable32(t: seq<int>): (s: seq<byte>)
    requires AllU32(t)
    ensures |s| == 4 * |t|
  {
    if t == [] then [] else PutU32(t[0]) + PutTable32(t[1..])
  }

  function GetTable16(b: seq<byte>, pos: nat, n: nat): (t: seq<int>)
    decreases n
    requires pos + 2 * n <= |b|
    ensures |t| == n && AllU16(t)
  {
    if n == 0 then [] else [GetU16(b, pos)] + GetTable16(b, pos + 2, n - 1)
  }

  function GetTable32(b: seq<byte>, pos: nat, n: nat): (t: seq<int>)
    decreases n
    requires pos + 4 * n <= |b|
    ensures |t| == n && AllU32(t)
  {
    if n == 0 then [] else [GetU32(b, pos)] + GetTable32(b, pos + 4, n - 1)
  }

  lemma {:induction false} GetAfterPutTable16(code: seq<byte>, pos: nat, t: seq<int>)
    requires AllU16(t) && At(code, pos, PutTable16(t))
    ensures GetTable16(code, pos, |t|) == t
    decreases |t|
  {
    if t != [] {
      AtConcat(code, pos, PutU16(t[0]), PutTable16(t[1..]));
      GetAfterPut16(code, pos, t[0]);
      GetAfterPutTable16(code, pos + 2, t[1..]);
    }
  }

  lemma {:induction false} GetAfterPutTable32(code: seq<byte>, pos: nat, t: seq<int>)
    requires AllU32(t) && At(code, pos, PutTable32(t))
    ensures GetTable32(code, pos, |t|) == t
    decreases |t|
  {
    if t != [] {
      AtConcat(code, pos, PutU32(t[0]), PutTable32(t[1..]));
      GetAfterPut32(code, pos, t[0]);
      GetAfterPutTable32(code, pos + 4, t[1..]);
    }
  }

  /** The k-th entry of a table, read straight out of the code. */
  lemma {:induction false} TableEntry16(code: seq<byte>, pos: nat, n: nat, k: nat)
    requires pos + 2 * n <= |code| && k < n
    ensures GetTable16(code, pos, n)[k] == GetU16(code, pos + 2 * k)
    decreases n
  {
    if k > 0 { TableEntry16(code, pos + 2, n - 1, k - 1); }
  }

  lemma {:induction false} TableEntry32(code: seq<byte>, pos: nat, n: nat, k: nat)
    requires pos + 4 * n <= |code| && k < n
    ensures GetTable32(code, pos, n)[k] == GetU32(code, pos + 4 * k)
    decreases n
  {
    if k > 0 { TableEntry32(code, pos + 4, n - 1, k - 1); }
  }
}
