/** Hash functions, hexadecimal digests, and the one way two different texts can share a digest. */
module Digests {
  import opened Numerals
  import opened PyText
  import Utf8

  type Digest = d: Utf8.Bytes | |d| == 32 witness seq(32, _ => 0)

  /** SHA-256 as any function to 32 bytes. */
  type Hash = Utf8.Bytes -> Digest

  /** Two different inputs with one hash value. */
  ghost predicate Collision(h: Hash, x: Utf8.Bytes, y: Utf8.Bytes) {
    x != y && h(x) == h(y)
  }

  /** `digest.hex()`. */
  function Hex(bs: Utf8.Bytes): (s: string)
    ensures |s| == 2 * |bs|
  {
    if bs == [] then "" else [HexChar(bs[0] / 16), HexChar(bs[0] % 16)] + Hex(bs[1..])
  }

  lemma {:induction false} HexInjective(a: Utf8.Bytes, b: Utf8.Bytes)
    requires Hex(a) == Hex(b)
    ensures a == b
  {
    if a != [] {
      HexDigitRoundTrip(a[0] / 16);
      HexDigitRoundTrip(a[0] % 16);
      HexDigitRoundTrip(b[0] / 16);
      HexDigitRoundTrip(b[0] % 16);
      assert Hex(a)[0] == Hex(b)[0] && Hex(a)[1] == Hex(b)[1];
      assert a[0] == b[0];
      assert Hex(a)[2..] == Hex(a[1..]) && Hex(b)[2..] == Hex(b[1..]);
      HexInjective(a[1..], b[1..]);
      assert a == [a[0]] + a[1..] && b == [b[0]] + b[1..];
    }
  }

  /** Two lower-case digits for each byte, the high one first. */
  lemma {:induction false} HexDigitsOfByte(bs: Utf8.Bytes, i: nat)
    requires i < |bs|
    ensures Hex(bs)[2 * i] == HEX_DIGITS[bs[i] / 16] && Hex(bs)[2 * i + 1] == HEX_DIGITS[bs[i] % 16]
  {
    if i == 0 {
      HexCharIsListed(bs[0] / 16);
      HexCharIsListed(bs[0] % 16);
    } else {
      HexDigitsOfByte(bs[1..], i - 1);
      assert Hex(bs)[2..] == Hex(bs[1..]);
    }
  }

  lemma {:induction false} HexIsAscii(bs: Utf8.Bytes)
    ensures AllPrintableAscii(Hex(bs))
  {
    if bs != [] {
      HexIsAscii(bs[1..]);
    }
  }

  /** `"sha256:" + hashlib.sha256(data).hexdigest()`. */
  function Sha256Text(h: Hash, data: Utf8.Bytes): string {
    "sha256:" + Hex(h(data))
  }

  lemma Sha256TextEqual(h: Hash, x: Utf8.Bytes, y: Utf8.Bytes)
    ensures Sha256Text(h, x) == Sha256Text(h, y) <==> h(x) == h(y)
  {
    if Sha256Text(h, x) == Sha256Text(h, y) {
      assert Sha256Text(h, x)[7..] == Hex(h(x));
      assert Sha256Text(h, y)[7..] == Hex(h(y));
      HexInjective(h(x), h(y));
    }
  }
}
