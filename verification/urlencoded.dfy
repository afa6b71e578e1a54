/** The application/x-www-form-urlencoded format of the WHATWG URL Standard:
    the serializer of section 5.2, which `URLSearchParams.toString()` runs, and
    the parser of section 5.1, which a receiver of such a body runs.  Names and
    values are strings of scalar values; the body on the wire is the UTF-8
    encoding of the serialized string. */
module FormUrlEncoded {
  import opened Wrappers
  import opened Text
  import Utf8

  type byte = Utf8.byte

  /** A name-value pair of a URLSearchParams list. */
  type Pair = (string, string)

  const Amp: byte := 0x26
  const Equals: byte := 0x3D
  const PlusSign: byte := 0x2B
  const Space: byte := 0x20
  const Percent: byte := 0x25

  /** Bytes outside the application/x-www-form-urlencoded percent-encode set:
      ASCII alphanumerics and `*`, `-`, `.`, `_`. */
  predicate IsKept(b: byte)
  {
    (0x30 <= b <= 0x39) || (0x41 <= b <= 0x5A) || (0x61 <= b <= 0x7A)
    || b == 0x2A || b == 0x2D || b == 0x2E || b == 0x5F
  }

  /** Upper-case hexadecimal digit for `n`. */
  function HexDigit(n: int): (c: char)
    requires 0 <= n < 16
    ensures c as int < 0x80
  {
    if n < 10 then ('0' as int + n) as char else ('A' as int + n - 10) as char
  }

  predicate IsHex(b: byte)
  {
    (0x30 <= b <= 0x39) || (0x41 <= b <= 0x46) || (0x61 <= b <= 0x66)
  }

  function HexValue(b: byte): (n: int)
    requires IsHex(b)
    ensures 0 <= n < 16
  {
    if b <= 0x39 then b as int - 0x30
    else if b <= 0x46 then b as int - 0x37
    else b as int - 0x57
  }

  /** Percent-encode one byte, with space-as-plus: a space becomes `+`, a kept
      byte stays, every other byte becomes `%` and two upper-case hex digits. */
  function EncodeByte(b: byte): (r: string)
    ensures 1 <= |r| <= 3
    ensures forall k :: 0 <= k < |r| ==> r[k] as int < 0x80
    ensures '&' !in r && '=' !in r
    ensures '+' in r <==> b == Space
  {
    if b == Space then "+"
    else if IsKept(b) then [b as int as char]
    else ['%', HexDigit(b as int / 16), HexDigit(b as int % 16)]
  }

  function PercentEncode(bs: seq<byte>): (r: string)
    ensures forall k :: 0 <= k < |r| ==> r[k] as int < 0x80
  {
    if bs == [] then "" else EncodeByte(bs[0]) + PercentEncode(bs[1..])
  }

  /** "Percent-encode after encoding" a name or a value with UTF-8. */
  function EncodeComponent(s: string): (r: string)
    ensures forall k :: 0 <= k < |r| ==> r[k] as int < 0x80
  {
    PercentEncode(Utf8.Encode(s))
  }

  function SerializePair(p: Pair): string
  {
    EncodeComponent(p.0) + "=" + EncodeComponent(p.1)
  }

  /** The serializer of section 5.2: the encoded pairs, each `name=value`,
      separated by `&`. */
  function Serialize(pairs: seq<Pair>): (r: string)
    ensures r == "" <==> pairs == []
    ensures forall k :: 0 <= k < |r| ==> r[k] as int < 0x80
  {
    if pairs == [] then ""
    else if |pairs| == 1 then SerializePair(pairs[0])
    else SerializePair(pairs[0]) + "&" + Serialize(pairs[1..])
  }

  /** Percent-decode a byte sequence: `%` and two hex digits become one byte;
      any other byte, including a `%` not followed by two hex digits, stays. */
  function PercentDecode(b: seq<byte>): seq<byte>
  {
    if b == [] then []
    else if b[0] == Percent && |b| >= 3 && IsHex(b[1]) && IsHex(b[2]) then
      [(HexValue(b[1]) * 16 + HexValue(b[2])) as byte] + PercentDecode(b[3..])
    else [b[0]] + PercentDecode(b[1..])
  }

  function PlusToSpace(b: seq<byte>): (r: seq<byte>)
  {
    seq(|b|, k requires 0 <= k < |b| => if b[k] == PlusSign then Space else b[k])
  }

  /** Strictly split on `d`: every occurrence separates two pieces, so the
      empty input gives one empty piece. */
  function SplitOn(b: seq<byte>, d: byte): (r: seq<seq<byte>>)
    ensures |r| >= 1
  {
    if b == [] then [[]]
    else
      var rest := SplitOn(b[1..], d);
      if b[0] == d then [[]] + rest else [[b[0]] + rest[0]] + rest[1..]
  }

  /** Name and value of one non-empty piece: split at the first `=` (no `=`
      gives an empty value), `+` read as space, percent-decoded, UTF-8 decoded. */
  function ParseTuple(bytes: seq<byte>): Pair
  {
    var (name, value) :=
      match IndexOf(bytes, Equals, 0)
      case Some(k) => (bytes[..k], bytes[k + 1..])
      case None => (bytes, []);
    (Utf8.Decode(PercentDecode(PlusToSpace(name))), Utf8.Decode(PercentDecode(PlusToSpace(value))))
  }

  function ParseTuples(pieces: seq<seq<byte>>): seq<Pair>
  {
    if pieces == [] then []
    else (if pieces[0] == [] then [] else [ParseTuple(pieces[0])]) + ParseTuples(pieces[1..])
  }

  /** The parser of section 5.1: split on `&`, skip empty pieces, parse the rest. */
  function Parse(input: seq<byte>): seq<Pair>
  {
    ParseTuples(SplitOn(input, Amp))
  }

  // ---------------------------------------------------------------------
  // Round trip

  /** The bytes a serialized component puts on the wire. */
  function Wire(bs: seq<byte>): seq<byte>
  {
    Utf8.Encode(PercentEncode(bs))
  }

  lemma PlusToSpaceAppend(x: seq<byte>, y: seq<byte>)
    ensures PlusToSpace(x + y) == PlusToSpace(x) + PlusToSpace(y)
  {
  }

  /** The wire bytes of one encoded byte: decoding them gives the byte back,
      and they hold neither `&` nor `=`. */
  lemma EncodeByteWire(b: byte, rest: seq<byte>)
    ensures var w := Utf8.Encode(EncodeByte(b));
      && Amp !in w && Equals !in w
      && PercentDecode(PlusToSpace(w) + rest) == [b] + PercentDecode(rest)
  {
    var e := EncodeByte(b);
    var w := Utf8.Encode(e);
    Utf8.EncodeAscii(e);
    if b == Space {
      assert w == [PlusSign];
      assert PlusToSpace(w) + rest == [Space] + rest;
    } else if IsKept(b) {
      assert w == [b];
      assert PlusToSpace(w) + rest == [b] + rest;
    } else {
      var hi, lo := b as int / 16, b as int % 16;
      assert w[0] == Percent && w[1] as int == HexDigit(hi) as int && w[2] as int == HexDigit(lo) as int;
      var x := PlusToSpace(w) + rest;
      assert x[0] == Percent && x[1] == w[1] && x[2] == w[2] && x[3..] == rest;
      assert IsHex(x[1]) && HexValue(x[1]) == hi;
      assert IsHex(x[2]) && HexValue(x[2]) == lo;
    }
  }

  /** A component's wire bytes percent-decode to the bytes it encoded and hold
      neither `&` nor `=`. */
  lemma {:induction false} WireDecodes(bs: seq<byte>)
    ensures PercentDecode(PlusToSpace(Wire(bs))) == bs
    ensures Amp !in Wire(bs) && Equals !in Wire(bs)
  {
    if bs != [] {
      var w0 := Utf8.Encode(EncodeByte(bs[0]));
      Utf8.EncodeAppend(EncodeByte(bs[0]), PercentEncode(bs[1..]));
      assert Wire(bs) == w0 + Wire(bs[1..]);
      PlusToSpaceAppend(w0, Wire(bs[1..]));
      WireDecodes(bs[1..]);
      EncodeByteWire(bs[0], PlusToSpace(Wire(bs[1..])));
    }
  }

  lemma PairWire(p: Pair)
    ensures Utf8.Encode(SerializePair(p)) == Wire(Utf8.Encode(p.0)) + [Equals] + Wire(Utf8.Encode(p.1))
  {
    Utf8.EncodeAppend(EncodeComponent(p.0) + "=", EncodeComponent(p.1));
    Utf8.EncodeAppend(EncodeComponent(p.0), "=");
  }

  /** A serialized pair parses back to the pair, and its wire bytes hold no `&`. */
  lemma PairRoundTrip(p: Pair)
    ensures var w := Utf8.Encode(SerializePair(p));
      && w != [] && Amp !in w && ParseTuple(w) == p
  {
    var n, v := Wire(Utf8.Encode(p.0)), Wire(Utf8.Encode(p.1));
    var w := Utf8.Encode(SerializePair(p));
    PairWire(p);
    WireDecodes(Utf8.Encode(p.0));
    WireDecodes(Utf8.Encode(p.1));
    IndexOfAfter(n, Equals, v);
    assert w[..|n|] == n && w[|n| + 1..] == v;
    Utf8.DecodeEncode(p.0);
    Utf8.DecodeEncode(p.1);
  }

  lemma {:induction false} SplitOnLacking(x: seq<byte>, d: byte)
    requires d !in x
    ensures SplitOn(x, d) == [x]
  {
    if x != [] {
      SplitOnLacking(x[1..], d);
      assert [x[0]] + x[1..] == x;
    }
  }

  lemma {:induction false} SplitOnPiece(x: seq<byte>, d: byte, rest: seq<byte>)
    requires d !in x
    ensures SplitOn(x + [d] + rest, d) == [x] + SplitOn(rest, d)
  {
    var b := x + [d] + rest;
    if x == [] {
      assert b[1..] == rest;
    } else {
      assert b[1..] == x[1..] + [d] + rest;
      SplitOnPiece(x[1..], d, rest);
      assert [x[0]] + x[1..] == x;
    }
  }

  /** The wire bytes of two or more pairs: the first pair's, `&`, the rest's. */
  lemma SerializeWire(pairs: seq<Pair>)
    requires |pairs| > 1
    ensures Utf8.Encode(Serialize(pairs))
      == Utf8.Encode(SerializePair(pairs[0])) + [Amp] + Utf8.Encode(Serialize(pairs[1..]))
  {
    Utf8.EncodeAppend(SerializePair(pairs[0]) + "&", Serialize(pairs[1..]));
    Utf8.EncodeAppend(SerializePair(pairs[0]), "&");
  }

  /** A non-empty first piece contributes its tuple, then the rest follow. */
  lemma ParseTuplesCons(w: seq<byte>, rest: seq<seq<byte>>)
    requires w != []
    ensures ParseTuples([w] + rest) == [ParseTuple(w)] + ParseTuples(rest)
  {
    assert ([w] + rest)[1..] == rest;
  }

  /** Round trip: parsing the UTF-8 bytes of a serialized list gives the list
      back, pair for pair and in order. */
  lemma {:induction false} ParseSerialize(pairs: seq<Pair>)
    ensures Parse(Utf8.Encode(Serialize(pairs))) == pairs
  {
    if pairs == [] {
      assert Utf8.Encode(Serialize(pairs)) == [];
      assert SplitOn([], Amp) == [[]];
      assert ParseTuples([[]]) == [] + ParseTuples([]);
    } else if |pairs| == 1 {
      var w := Utf8.Encode(SerializePair(pairs[0]));
      PairRoundTrip(pairs[0]);
      SplitOnLacking(w, Amp);
      ParseTuplesCons(w, []);
    } else {
      ParseSerialize(pairs[1..]);
      ParseSerializeCons(pairs);
    }
  }

  /** The induction step: the first pair, then `&`, then a list that already
      parses back. */
  lemma ParseSerializeCons(pairs: seq<Pair>)
    requires |pairs| > 1
    requires Parse(Utf8.Encode(Serialize(pairs[1..]))) == pairs[1..]
    ensures Parse(Utf8.Encode(Serialize(pairs))) == pairs
  {
    var w := Utf8.Encode(SerializePair(pairs[0]));
    var r := Utf8.Encode(Serialize(pairs[1..]));
    PairRoundTrip(pairs[0]);
    SerializeWire(pairs);
    SplitOnPiece(w, Amp, r);
    ParseTuplesCons(w, SplitOn(r, Amp));
    assert pairs == [pairs[0]] + pairs[1..];
  }
}
