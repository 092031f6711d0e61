/** Decimal and hexadecimal numerals, and the JSON number grammar (section 6 of RFC 8259). */
module Numerals {
  import opened Outcomes

  predicate IsDigit(c: char) {
    '0' <= c <= '9'
  }

  function DigitChar(d: nat): (c: char)
    requires d < 10
    ensures IsDigit(c)
  {
    ('0' as int + d) as char
  }

  function DigitValue(c: char): (d: nat)
    requires IsDigit(c)
    ensures d < 10
  {
    c as int - '0' as int
  }

  /** The decimal numeral of a natural number, without leading zeros. */
  function DecimalText(n: nat): (s: string)
    ensures s != ""
    ensures forall i :: 0 <= i < |s| ==> IsDigit(s[i])
    ensures s[0] == '0' ==> n == 0 && s == "0"
  {
    if n < 10 then [DigitChar(n)] else DecimalText(n / 10) + [DigitChar(n % 10)]
  }

  /** `str(n)` of an integer. */
  function IntText(n: int): (s: string)
    ensures s != ""
  {
    if n < 0 then "-" + DecimalText(-n) else DecimalText(n)
  }

  const DECIMAL_DIGITS := "0123456789"

  /** Numerals digit by digit: one more digit is one more character at the end, a minus sign is one in front. */
  lemma IntTextByDigits(n: nat, d: nat)
    requires 0 < n && d < 10
    ensures IntText(d) == [DECIMAL_DIGITS[d]]
    ensures IntText(10 * n + d) == IntText(n) + [DECIMAL_DIGITS[d]]
    ensures IntText(-(n as int)) == "-" + IntText(n)
  {
    assert (10 * n + d) / 10 == n && (10 * n + d) % 10 == d;
  }

  /** The value of a run of decimal digits. */
  function DecimalValue(s: string): nat
    requires forall i :: 0 <= i < |s| ==> IsDigit(s[i])
  {
    if s == "" then 0 else DecimalValue(s[..|s| - 1]) * 10 + DigitValue(s[|s| - 1])
  }

  lemma {:induction false} DecimalRoundTrip(n: nat)
    ensures DecimalValue(DecimalText(n)) == n
  {
    if n < 10 {
      assert DecimalText(n)[..0] == "";
    } else {
      DecimalRoundTrip(n / 10);
      assert DecimalText(n)[..|DecimalText(n)| - 1] == DecimalText(n / 10);
    }
  }

  // ----- hexadecimal -----

  function HexChar(d: nat): (c: char)
    requires d < 16
  {
    if d < 10 then ('0' as int + d) as char else ('a' as int + d - 10) as char
  }

  const HEX_DIGITS := "0123456789abcdef"
  const CAPITAL_HEX_DIGITS := "0123456789ABCDEF"

  lemma HexCharIsListed(d: nat)
    requires d < 16
    ensures HexChar(d) == HEX_DIGITS[d]
  {
  }

  /** The value of one hexadecimal digit, in either letter case. */
  function HexValue(c: char): (d: Option<nat>)
    ensures d.Some? ==> d.value < 16
  {
    if '0' <= c <= '9' then Some(c as int - '0' as int)
    else if 'a' <= c <= 'f' then Some(c as int - 'a' as int + 10)
    else if 'A' <= c <= 'F' then Some(c as int - 'A' as int + 10)
    else None
  }

  /** A character is the digit of a value exactly when it stands at that place of one of the two lists. */
  lemma HexValueIsPlace(c: char, d: nat)
    requires d < 16
    ensures HexValue(c) == Some(d) <==> c == HEX_DIGITS[d] || c == CAPITAL_HEX_DIGITS[d]
  {
  }

  lemma HexDigitRoundTrip(d: nat)
    requires d < 16
    ensures HexValue(HexChar(d)) == Some(d)
  {
  }

  /** Four lower-case hexadecimal digits, as Python's `{0:04x}` writes them. */
  function Hex4(n: nat): (s: string)
    requires n < 0x10000
    ensures |s| == 4
  {
    [HexChar(n / 16 / 16 / 16), HexChar(n / 16 / 16 % 16), HexChar(n / 16 % 16), HexChar(n % 16)]
  }

  function ParseHex4(s: string): (n: Option<nat>)
    ensures n.Some? ==> |s| >= 4 && n.value < 0x10000
  {
    if |s| < 4 then None
    else
      match (HexValue(s[0]), HexValue(s[1]), HexValue(s[2]), HexValue(s[3]))
      case (Some(a), Some(b), Some(c), Some(d)) => Some(((a * 16 + b) * 16 + c) * 16 + d)
      case _ => None
  }

  lemma Hex4RoundTrip(n: nat, rest: string)
    requires n < 0x10000
    ensures ParseHex4(Hex4(n) + rest) == Some(n)
  {
    HexDigitRoundTrip(n / 16 / 16 / 16);
    HexDigitRoundTrip(n / 16 / 16 % 16);
    HexDigitRoundTrip(n / 16 % 16);
    HexDigitRoundTrip(n % 16);
  }

  // ----- the number grammar -----

  /** End of the digit run starting at `i`. */
  function DigitsEnd(t: string, i: nat): (j: nat)
    requires i <= |t|
    ensures i <= j <= |t|
    decreases |t| - i
  {
    if i < |t| && IsDigit(t[i]) then DigitsEnd(t, i + 1) else i
  }

  /** `-?(0|[1-9][0-9]*)` from the start of `t`: its end, or None. */
  function IntegerEnd(t: string): (j: Option<nat>)
    ensures j.Some? ==> 0 < j.value <= |t|
  {
    var i := if t != "" && t[0] == '-' then 1 else 0;
    if i == |t| || !IsDigit(t[i]) then None
    else if t[i] == '0' then Some(i + 1)
    else Some(DigitsEnd(t, i + 1))
  }

  /** An optional `.[0-9]+` at `i`. */
  function FractionEnd(t: string, i: nat): (j: nat)
    requires i <= |t|
    ensures i <= j <= |t|
  {
    if i + 1 < |t| && t[i] == '.' && IsDigit(t[i + 1]) then DigitsEnd(t, i + 1) else i
  }

  /** An optional `[eE][+-]?[0-9]+` at `i`. */
  function ExponentEnd(t: string, i: nat): (j: nat)
    requires i <= |t|
    ensures i <= j <= |t|
  {
    if i < |t| && (t[i] == 'e' || t[i] == 'E') then
      var k := if i + 1 < |t| && (t[i + 1] == '+' || t[i + 1] == '-') then i + 2 else i + 1;
      if k < |t| && IsDigit(t[k]) then DigitsEnd(t, k) else i
    else i
  }

  datatype Scanned = Scanned(integerEnd: nat, end: nat)

  /** The longest number at the start of `t`; it is an integer when the two ends agree. */
  function ScanNumber(t: string): (r: Option<Scanned>)
    ensures r.Some? ==> 0 < r.value.integerEnd <= r.value.end <= |t|
  {
    match IntegerEnd(t)
    case None => None
    case Some(i) => Some(Scanned(i, ExponentEnd(t, FractionEnd(t, i))))
  }

  /** A number text with a fraction or an exponent: the shape of a finite Python float's `repr`. */
  predicate IsFloatLexeme(s: string) {
    var r := ScanNumber(s);
    r.Some? && r.value.end == |s| && r.value.integerEnd < |s|
  }

  /** What may follow a number in printed JSON. */
  predicate EndsNumber(rest: string) {
    rest == "" || (!IsDigit(rest[0]) && rest[0] !in ".eE+-")
  }

  lemma DigitsEndStable(t: string, rest: string, i: nat)
    requires i <= |t| && EndsNumber(rest)
    ensures DigitsEnd(t + rest, i) == DigitsEnd(t, i)
    decreases |t| - i
  {
    if i < |t| {
      DigitsEndStable(t, rest, i + 1);
    }
  }

  lemma IntegerEndStable(t: string, rest: string)
    requires EndsNumber(rest) && IntegerEnd(t).Some?
    ensures IntegerEnd(t + rest) == IntegerEnd(t)
  {
    var i := if t[0] == '-' then 1 else 0;
    DigitsEndStable(t, rest, i + 1);
  }

  lemma FractionEndStable(t: string, rest: string, i: nat)
    requires EndsNumber(rest) && i <= |t|
    requires ExponentEnd(t, FractionEnd(t, i)) == |t|
    ensures FractionEnd(t + rest, i) == FractionEnd(t, i)
  {
    if i < |t| {
      DigitsEndStable(t, rest, i + 1);
    }
  }

  lemma ExponentEndStable(t: string, rest: string, i: nat)
    requires EndsNumber(rest) && i <= |t| && ExponentEnd(t, i) == |t|
    ensures ExponentEnd(t + rest, i) == |t|
  {
    if i < |t| {
      var k := if i + 1 < |t| && (t[i + 1] == '+' || t[i + 1] == '-') then i + 2 else i + 1;
      DigitsEndStable(t, rest, k);
    }
  }

  /** Text that cannot continue a number does not change how far a number reaches. */
  lemma ScanStable(t: string, rest: string)
    requires EndsNumber(rest) && ScanNumber(t).Some? && ScanNumber(t).value.end == |t|
    ensures ScanNumber(t + rest) == ScanNumber(t)
  {
    IntegerEndStable(t, rest);
    var i := IntegerEnd(t).value;
    FractionEndStable(t, rest, i);
    ExponentEndStable(t, rest, FractionEnd(t, i));
  }

  lemma DigitsEndAll(s: string, i: nat)
    requires i <= |s| && forall k :: i <= k < |s| ==> IsDigit(s[k])
    ensures DigitsEnd(s, i) == |s|
    decreases |s| - i
  {
  }

  lemma ScanInt(n: int)
    ensures ScanNumber(IntText(n)) == Some(Scanned(|IntText(n)|, |IntText(n)|))
  {
    var s := IntText(n);
    DigitsEndAll(s, if n < 0 then 2 else 1);
  }

  /** The integer a scanned integer text denotes. */
  function IntValue(s: string): int
    requires ScanNumber(s) == Some(Scanned(|s|, |s|))
  {
    if s[0] == '-' then
      DigitRunIsDigits(s, 1);
      0 - DecimalValue(s[1..])
    else
      DigitRunIsDigits(s, 0);
      assert s[0..] == s;
      DecimalValue(s)
  }

  lemma DigitsEndDigits(s: string, i: nat)
    requires i <= |s|
    ensures forall k :: i <= k < DigitsEnd(s, i) ==> IsDigit(s[k])
    decreases |s| - i
  {
  }

  lemma DigitRunIsDigits(s: string, i: nat)
    requires ScanNumber(s) == Some(Scanned(|s|, |s|)) && i == if s[0] == '-' then 1 else 0
    ensures forall k :: 0 <= k < |s[i..]| ==> IsDigit(s[i..][k])
  {
    DigitsEndDigits(s, i + 1);
  }

  lemma IntRoundTrip(n: int)
    ensures ScanNumber(IntText(n)) == Some(Scanned(|IntText(n)|, |IntText(n)|))
    ensures IntValue(IntText(n)) == n
  {
    ScanInt(n);
    var s := IntText(n);
    if n < 0 {
      DecimalRoundTrip(-n);
      assert s[1..] == DecimalText(-n);
    } else {
      DecimalRoundTrip(n);
    }
  }
}
