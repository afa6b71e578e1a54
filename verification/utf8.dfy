/** UTF-8 as the WHATWG Encoding Standard defines it: the encoder used when a
    string becomes bytes, and the decoder (without BOM handling) that turns
    malformed input into U+FFFD instead of failing.  A Dafny `char` is a
    Unicode scalar value, which is what both algorithms work on. */
module Utf8 {

  newtype byte = x: int | 0 <= x < 256

  const Replacement: char := '\U{FFFD}'

  /** The low six bits of `x`, as a continuation byte carries them. */
  function Low6(x: int): int
    requires 0 <= x
  {
    x % 64
  }

  /** The bytes that encode one scalar value: one to four, with the lead byte
      announcing the length and every other byte in 0x80..0xBF. */
  function EncodeChar(c: char): (r: seq<byte>)
    ensures 1 <= |r| <= 4
    ensures (c as int < 0x80) <==> |r| == 1
    ensures |r| == 1 ==> r[0] as int == c as int
    ensures |r| > 1 ==> 0xC2 <= r[0] <= 0xF4
    ensures forall k :: 1 <= k < |r| ==> 0x80 <= r[k] <= 0xBF
  {
    var cp := c as int;
    if cp < 0x80 then [cp as byte]
    else if cp < 0x800 then
      [(0xC0 + cp / 64) as byte, (0x80 + Low6(cp)) as byte]
    else if cp < 0x10000 then
      [(0xE0 + cp / 64 / 64) as byte, (0x80 + Low6(cp / 64)) as byte, (0x80 + Low6(cp)) as byte]
    else
      [(0xF0 + cp / 64 / 64 / 64) as byte, (0x80 + Low6(cp / 64 / 64)) as byte,
       (0x80 + Low6(cp / 64)) as byte, (0x80 + Low6(cp)) as byte]
  }

  /** UTF-8 encode: the encodings of the scalar values, in order. */
  function Encode(s: string): seq<byte>
  {
    if s == [] then [] else EncodeChar(s[0]) + Encode(s[1..])
  }

  /** `b[k]` exists and lies in `lo..hi`: the continuation test of the decoder. */
  predicate ContinuesAt(b: seq<byte>, k: nat, lo: int, hi: int)
  {
    k < |b| && lo <= b[k] as int <= hi
  }

  /** One step of the decoder on the front of `b`: the scalar value it yields
      (U+FFFD on error) and how many bytes it consumed.  A continuation byte
      out of range is not consumed: it is restored and starts the next step. */
  function DecodeFirst(b: seq<byte>): (r: (char, nat))
    requires |b| > 0
    ensures 1 <= r.1 <= |b|
  {
    var b0 := b[0] as int;
    if b0 < 0x80 then (b0 as char, 1)
    else if 0xC2 <= b0 <= 0xDF then
      if !ContinuesAt(b, 1, 0x80, 0xBF) then (Replacement, 1)
      else (((b0 - 0xC0) * 64 + (b[1] as int - 0x80)) as char, 2)
    else if 0xE0 <= b0 <= 0xEF then
      var lo := if b0 == 0xE0 then 0xA0 else 0x80;
      var hi := if b0 == 0xED then 0x9F else 0xBF;
      if !ContinuesAt(b, 1, lo, hi) then (Replacement, 1)
      else if !ContinuesAt(b, 2, 0x80, 0xBF) then (Replacement, 2)
      else ((((b0 - 0xE0) * 64 + (b[1] as int - 0x80)) * 64 + (b[2] as int - 0x80)) as char, 3)
    else if 0xF0 <= b0 <= 0xF4 then
      var lo := if b0 == 0xF0 then 0x90 else 0x80;
      var hi := if b0 == 0xF4 then 0x8F else 0xBF;
      if !ContinuesAt(b, 1, lo, hi) then (Replacement, 1)
      else if !ContinuesAt(b, 2, 0x80, 0xBF) then (Replacement, 2)
      else if !ContinuesAt(b, 3, 0x80, 0xBF) then (Replacement, 3)
      else (((((b0 - 0xF0) * 64 + (b[1] as int - 0x80)) * 64 + (b[2] as int - 0x80)) * 64
             + (b[3] as int - 0x80)) as char, 4)
    else (Replacement, 1)
  }

  /** UTF-8 decode without BOM: never fails, yields U+FFFD for each error. */
  function Decode(b: seq<byte>): (s: string)
    ensures |s| <= |b|
    decreases |b|
  {
    if b == [] then []
    else
      var (c, n) := DecodeFirst(b);
      [c] + Decode(b[n..])
  }

  lemma {:induction false} EncodeAppend(s: string, t: string)
    ensures Encode(s + t) == Encode(s) + Encode(t)
  {
    if s != [] {
      assert (s + t)[0] == s[0] && (s + t)[1..] == s[1..] + t;
      EncodeAppend(s[1..], t);
      assert Encode(s + t) == EncodeChar(s[0]) + (Encode(s[1..]) + Encode(t));
    } else {
      assert s + t == t;
    }
  }

  /** An ASCII character is encoded as the single byte holding its code. */
  lemma {:induction false} EncodeAscii(s: string)
    requires forall k :: 0 <= k < |s| ==> s[k] as int < 0x80
    ensures |Encode(s)| == |s|
    ensures forall k :: 0 <= k < |s| ==> Encode(s)[k] as int == s[k] as int
  {
    if s != [] {
      EncodeAscii(s[1..]);
    }
  }

  /** The decoder reads back exactly the scalar value at the front, and no more. */
  lemma DecodeFirstEncodeChar(c: char, rest: seq<byte>)
    ensures DecodeFirst(EncodeChar(c) + rest) == (c, |EncodeChar(c)|)
  {
  }

  /** Round trip: decoding the UTF-8 encoding of a string gives the string back. */
  lemma {:induction false} DecodeEncode(s: string)
    ensures Decode(Encode(s)) == s
  {
    if s != [] {
      var e := EncodeChar(s[0]);
      DecodeFirstEncodeChar(s[0], Encode(s[1..]));
      assert (e + Encode(s[1..]))[|e|..] == Encode(s[1..]);
      DecodeEncode(s[1..]);
    }
  }
}
