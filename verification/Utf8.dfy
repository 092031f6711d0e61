/** UTF-8: the bytes that are digested, signed and read back (section 3 of RFC 3629). */
module Utf8 {
  import opened Outcomes

  type Byte = n: int | 0 <= n < 256

  type Bytes = seq<Byte>

  function EncodeChar(c: char): (bs: Bytes)
    ensures 1 <= |bs| <= 4
  {
    var n := c as int;
    if n < 0x80 then [n]
    else if n < 0x800 then [0xC0 + n / 64, 0x80 + n % 64]
    else if n < 0x10000 then [0xE0 + n / 64 / 64, 0x80 + n / 64 % 64, 0x80 + n % 64]
    else [0xF0 + n / 64 / 64 / 64, 0x80 + n / 64 / 64 % 64, 0x80 + n / 64 % 64, 0x80 + n % 64]
  }

  /** `text.encode("utf-8")`. */
  function Encode(s: string): Bytes {
    if s == "" then [] else EncodeChar(s[0]) + Encode(s[1..])
  }

  /** How many bytes a lead byte announces, and the payload bits it carries. */
  function Lead(b: Byte): (int, int) {
    if b < 0x80 then (1, b)
    else if b < 0xC0 then (0, 0)
    else if b < 0xE0 then (2, b - 0xC0)
    else if b < 0xF0 then (3, b - 0xE0)
    else if b < 0xF8 then (4, b - 0xF0)
    else (0, 0)
  }

  function CodePoint(bs: Bytes): (n: int)
    requires bs != []
  {
    var (k, lead) := Lead(bs[0]);
    if k == 2 && |bs| >= 2 then lead * 64 + bs[1] - 0x80
    else if k == 3 && |bs| >= 3 then (lead * 64 + bs[1] - 0x80) * 64 + bs[2] - 0x80
    else if k == 4 && |bs| >= 4 then ((lead * 64 + bs[1] - 0x80) * 64 + bs[2] - 0x80) * 64 + bs[3] - 0x80
    else lead
  }

  predicate IsScalarValue(n: int) {
    0 <= n < 0xD800 || 0xE000 <= n < 0x11_0000
  }

  /** The character at the start of `bs`; overlong forms, surrogates and stray bytes are refused. */
  function DecodeChar(bs: Bytes): (c: Option<char>)
    requires bs != []
    ensures c.Some? ==> EncodeChar(c.value) <= bs
  {
    var n := CodePoint(bs);
    if IsScalarValue(n) && EncodeChar(n as char) <= bs then Some(n as char) else None
  }

  /** `data.decode("utf-8")`, None where Python raises. */
  function Decode(bs: Bytes): Option<string>
    decreases |bs|
  {
    if bs == [] then Some("")
    else
      match DecodeChar(bs)
      case None => None
      case Some(c) =>
        match Decode(bs[|EncodeChar(c)|..])
        case None => None
        case Some(s) => Some([c] + s)
  }

  lemma CodePointOfChar(c: char, rest: Bytes)
    ensures CodePoint(EncodeChar(c) + rest) == c as int
  {
  }

  lemma DecodeEncodedChar(c: char, rest: Bytes)
    ensures DecodeChar(EncodeChar(c) + rest) == Some(c)
  {
    CodePointOfChar(c, rest);
  }

  lemma DecodeStep(e: Bytes, rest: Bytes, c: char, s: string)
    requires e == EncodeChar(c) && DecodeChar(e + rest) == Some(c) && Decode(rest) == Some(s)
    ensures Decode(e + rest) == Some([c] + s)
  {
    assert (e + rest)[|e|..] == rest;
  }

  lemma {:induction false} DecodeEncode(s: string)
    ensures Decode(Encode(s)) == Some(s)
  {
    if s != "" {
      DecodeEncode(s[1..]);
      DecodeEncodedChar(s[0], Encode(s[1..]));
      DecodeStep(EncodeChar(s[0]), Encode(s[1..]), s[0], s[1..]);
      assert s == [s[0]] + s[1..];
    }
  }

  lemma EncodeCons(c: char, s: string)
    ensures Encode([c] + s) == EncodeChar(c) + Encode(s)
  {
    assert ([c] + s)[1..] == s;
  }

  lemma PrefixThenRest(p: Bytes, bs: Bytes)
    requires p <= bs
    ensures bs == p + bs[|p|..]
  {
  }

  lemma {:induction false} EncodeDecode(bs: Bytes)
    requires Decode(bs).Some?
    ensures Encode(Decode(bs).value) == bs
    decreases |bs|
  {
    if bs != [] {
      var c := DecodeChar(bs).value;
      var rest := bs[|EncodeChar(c)|..];
      EncodeDecode(rest);
      EncodeCons(c, Decode(rest).value);
      PrefixThenRest(EncodeChar(c), bs);
    }
  }

  // ----- the bytes of one character -----

  predicate IsContinuation(b: int) {
    0x80 <= b < 0xC0
  }

  /**
   The four forms: the shortest that fits, the marks of its length on the first byte and of a continuation on the
   others, and the code point in the bits that are left.
   */
  predicate IsFormOf(bs: seq<int>, n: int) {
    if n < 0x80 then bs == [n]
    else if n < 0x800 then
      |bs| == 2 && 0xC2 <= bs[0] < 0xE0 && IsContinuation(bs[1]) && n == (bs[0] - 0xC0) * 0x40 + (bs[1] - 0x80)
    else if n < 0x10000 then
      && |bs| == 3 && 0xE0 <= bs[0] < 0xF0 && IsContinuation(bs[1]) && IsContinuation(bs[2])
      && n == (bs[0] - 0xE0) * 0x1000 + (bs[1] - 0x80) * 0x40 + (bs[2] - 0x80)
    else
      && |bs| == 4 && 0xF0 <= bs[0] < 0xF5 && IsContinuation(bs[1]) && IsContinuation(bs[2]) && IsContinuation(bs[3])
      && n == (bs[0] - 0xF0) * 0x40000 + (bs[1] - 0x80) * 0x1000 + (bs[2] - 0x80) * 0x40 + (bs[3] - 0x80)
  }

  lemma BytesOfChar(c: char)
    ensures IsFormOf(EncodeChar(c), c as int)
  {
    var n := c as int;
    assert n == n / 64 * 64 + n % 64;
  }

  /** ASCII text is its own bytes. */
  lemma {:induction false} AsciiIsItsBytes(s: string)
    requires forall i :: 0 <= i < |s| ==> s[i] as int < 0x80
    ensures |Encode(s)| == |s| && forall i :: 0 <= i < |s| ==> Encode(s)[i] == s[i] as int
  {
    if s != "" {
      AsciiIsItsBytes(s[1..]);
    }
  }

  /** Different texts have different bytes. */
  lemma EncodeInjective(a: string, b: string)
    ensures Encode(a) == Encode(b) ==> a == b
  {
    DecodeEncode(a);
    DecodeEncode(b);
  }
}
