/** Facts about parsed values and about the characters of printed texts. */
module JsonTextFacts {
  import opened Outcomes
  import opened Numerals
  import opened PyText
  import opened Json
  import opened JsonText
  import opened JsonParser
  import opened JsonRoundTrip
  import Seqs

  // ----- `Emit(v, .., rest)` is the text of `v` and then `rest` -----

  lemma {:induction false} CharsThen(s: string, ensureAscii: bool, rest: string, more: string)
    ensures EmitChars(s, ensureAscii, rest + more) == EmitChars(s, ensureAscii, rest) + more
  {
    if s != "" {
      CharsThen(s[1..], ensureAscii, rest, more);
      Seqs.ConcatAssociative(Escape(s[0], ensureAscii), EmitChars(s[1..], ensureAscii, rest), more);
    }
  }

  lemma StringThen(s: string, ensureAscii: bool, rest: string, more: string)
    ensures EmitString(s, ensureAscii, rest + more) == EmitString(s, ensureAscii, rest) + more
  {
    CharsThen(s, ensureAscii, "\"" + rest, more);
    Seqs.ConcatAssociative("\"", rest, more);
    Seqs.ConcatAssociative("\"", EmitChars(s, ensureAscii, "\"" + rest), more);
  }

  lemma ScalarThen(v: Json, st: Style, depth: nat, rest: string, more: string)
    requires !v.Arr? && !v.Obj?
    ensures Emit(v, st, depth, rest + more) == Emit(v, st, depth, rest) + more
  {
    if v.Str? {
      StringThen(v.s, st.ensureAscii, rest, more);
    } else {
      Seqs.ConcatAssociative(AtomText(v), rest, more);
    }
  }

  lemma TwoThen(a: string, b: string, rest: string, more: string)
    ensures a + (b + (rest + more)) == (a + (b + rest)) + more
  {
    Seqs.ConcatAssociative(b, rest, more);
    Seqs.ConcatAssociative(a, b + rest, more);
  }

  /** The text of a value does not depend on what follows it. */
  lemma {:induction false} EmitThen(v: Json, st: Style, depth: nat, rest: string, more: string)
    ensures Emit(v, st, depth, rest + more) == Emit(v, st, depth, rest) + more
    decreases v, 0
  {
    match v {
      case Arr(items) =>
        if items == [] {
          Seqs.ConcatAssociative("[]", rest, more);
        } else {
          var tail := Gap(st, depth) + ("]" + rest);
          TwoThen(Gap(st, depth), "]", rest, more);
          ItemsThen(items, st, depth + 1, tail, more);
          TwoThen("[", Gap(st, depth + 1), EmitItems(items, st, depth + 1, tail), more);
        }
      case Obj(ms) =>
        if ms == [] {
          Seqs.ConcatAssociative("{}", rest, more);
        } else {
          var tail := Gap(st, depth) + ("}" + rest);
          TwoThen(Gap(st, depth), "}", rest, more);
          MembersThen(ms, st, depth + 1, tail, more);
          TwoThen("{", Gap(st, depth + 1), EmitMembers(ms, st, depth + 1, tail), more);
        }
      case _ => ScalarThen(v, st, depth, rest, more);
    }
  }

  lemma {:induction false} ItemsThen(items: seq<Json>, st: Style, depth: nat, rest: string, more: string)
    requires items != []
    ensures EmitItems(items, st, depth, rest + more) == EmitItems(items, st, depth, rest) + more
    decreases items, 1
  {
    if |items| > 1 {
      ItemsThen(items[1..], st, depth, rest, more);
      TwoThen(",", Gap(st, depth), EmitItems(items[1..], st, depth, rest), more);
    }
    EmitThen(items[0], st, depth, AfterItem(items, st, depth, rest), more);
  }

  lemma {:induction false} MembersThen(ms: Dict, st: Style, depth: nat, rest: string, more: string)
    requires ms != []
    ensures EmitMembers(ms, st, depth, rest + more) == EmitMembers(ms, st, depth, rest) + more
    decreases ms, 1
  {
    if |ms| > 1 {
      MembersThen(ms[1..], st, depth, rest, more);
      TwoThen(",", Gap(st, depth), EmitMembers(ms[1..], st, depth, rest), more);
    }
    var after := AfterMember(ms, st, depth, rest);
    EmitThen(ms[0].val, st, depth, after, more);
    var val := Emit(ms[0].val, st, depth, after);
    Seqs.ConcatAssociative(Colon(st), val, more);
    StringThen(ms[0].key, st.ensureAscii, Colon(st) + val, more);
  }

  // ----- every parsed value is well formed -----

  lemma ParsedScalarWellFormed(t: string)
    ensures ParseScalar(t).Some? ==> WellFormed(ParseScalar(t).value.0)
  {
    if ScanNumber(t).Some? {
      ScanPrefix(t);
    }
  }

  /** Repeated keys and odd layout included, parsing only ever builds values Python could hold. */
  lemma {:induction false} ParsedValueWellFormed(t: string)
    ensures ParseValue(t).Some? ==> WellFormed(ParseValue(t).value.0)
    decreases |t|, 0
  {
    ParsedScalarWellFormed(t);
    if t != "" {
      BracketDispatch(t);
      var u := SkipBlanks(t[1..]);
      ParsedItemsWellFormed(u);
      ParsedMembersWellFormed(u, []);
    }
  }

  lemma {:induction false} ParsedItemsWellFormed(t: string)
    ensures ParseItems(t).Some? ==>
              forall i :: 0 <= i < |ParseItems(t).value.0| ==> WellFormed(ParseItems(t).value.0[i])
    decreases |t|, 1
  {
    ParsedValueWellFormed(t);
    if ParseValue(t).Some? {
      var u := SkipBlanks(ParseValue(t).value.1);
      if u != "" && u[0] == ',' {
        ParsedItemsWellFormed(SkipBlanks(u[1..]));
      }
    }
  }

  lemma SetWellFormed(ms: Dict, k: string, v: Json)
    requires WellFormedDict(ms) && WellFormed(v)
    ensures WellFormedDict(Set(ms, k, v))
  {
    SetMembers(ms, k, v);
    var r := Set(ms, k, v);
    forall i | 0 <= i < |r| ensures WellFormed(r[i].val) {
      assert r[i] in r;
    }
  }

  lemma ParsedMemberWellFormed(t: string)
    requires forall u: string :: |u| < |t| && ParseValue(u).Some? ==> WellFormed(ParseValue(u).value.0)
    ensures ParseMember(t).Some? ==> WellFormed(ParseMember(t).value.0.val)
  {
  }

  lemma {:induction false} ParsedMembersWellFormed(t: string, acc: Dict)
    requires WellFormedDict(acc)
    ensures ParseMembers(t, acc).Some? ==> WellFormedDict(ParseMembers(t, acc).value.0)
    decreases |t|, 1
  {
    forall u: string | |u| < |t| && ParseValue(u).Some? ensures WellFormed(ParseValue(u).value.0) {
      ParsedValueWellFormed(u);
    }
    ParsedMemberWellFormed(t);
    match ParseMember(t)
    case None =>
    case Some((m, t1)) =>
      SetWellFormed(acc, m.key, m.val);
      ParseMembersStep(t, acc, m, t1);
      var u := SkipBlanks(t1);
      if u != "" && u[0] == ',' {
        ParsedMembersWellFormed(SkipBlanks(u[1..]), Set(acc, m.key, m.val));
      }
  }

  lemma ParseWellFormed(text: string)
    ensures Parse(text).Some? ==> WellFormed(Parse(text).value)
  {
    ParsedValueWellFormed(SkipBlanks(text));
  }

  // ----- an audit line is printable ASCII -----

  predicate NumberChar(c: char) {
    IsDigit(c) || c in "+-.eE"
  }

  lemma DigitRunChars(t: string, i: nat)
    requires i <= |t|
    ensures forall k :: i <= k < DigitsEnd(t, i) ==> NumberChar(t[k])
  {
    DigitsEndDigits(t, i);
  }

  lemma NumberTextChars(s: string)
    requires ScanNumber(s).Some? && ScanNumber(s).value.end == |s|
    ensures forall k :: 0 <= k < |s| ==> NumberChar(s[k])
  {
    var sign := if s[0] == '-' then 1 else 0;
    var i := ScanNumber(s).value.integerEnd;
    DigitRunChars(s, sign + 1);
    assert forall k :: 0 <= k < i ==> NumberChar(s[k]);
    var j := FractionEnd(s, i);
    FractionChars(s, i);
    ExponentChars(s, j);
  }

  lemma NumberTextIsAscii(s: string)
    requires ScanNumber(s).Some? && ScanNumber(s).value.end == |s|
    ensures AllPrintableAscii(s)
  {
    NumberTextChars(s);
  }

  lemma FractionChars(s: string, i: nat)
    requires i <= |s|
    ensures forall k :: i <= k < FractionEnd(s, i) ==> NumberChar(s[k])
  {
    if i < |s| {
      DigitRunChars(s, i + 1);
    }
  }

  lemma ExponentChars(s: string, i: nat)
    requires i <= |s|
    ensures forall k :: i <= k < ExponentEnd(s, i) ==> NumberChar(s[k])
  {
    if i < |s| {
      var k := if i + 1 < |s| && (s[i + 1] == '+' || s[i + 1] == '-') then i + 2 else i + 1;
      DigitRunChars(s, k);
    }
  }

  lemma ConcatAscii(a: string, b: string)
    requires AllPrintableAscii(a) && AllPrintableAscii(b)
    ensures AllPrintableAscii(a + b)
  {
  }

  lemma UnicodeEscapeIsAscii(n: nat)
    requires n < 0x10000
    ensures AllPrintableAscii(Unicode16(n))
  {
    assert forall d: nat :: d < 16 ==> IsPrintableAscii(HexChar(d));
    ConcatAscii("\\u", Hex4(n));
  }

  lemma SurrogatePairIsAscii(high: nat, low: nat)
    requires high < 0x10000 && low < 0x10000
    ensures AllPrintableAscii(Unicode16(high) + Unicode16(low))
  {
    UnicodeEscapeIsAscii(high);
    UnicodeEscapeIsAscii(low);
    ConcatAscii(Unicode16(high), Unicode16(low));
  }

  lemma EscapeUnicodeIsAscii(c: char)
    ensures AllPrintableAscii(EscapeUnicode(c))
  {
    var n := c as int;
    if n < 0x10000 {
      UnicodeEscapeIsAscii(n);
    } else {
      var high, low := 0xD800 + (n - 0x10000) / 0x400, 0xDC00 + (n - 0x10000) % 0x400;
      SurrogatePairIsAscii(high, low);
      assert EscapeUnicode(c) == Unicode16(high) + Unicode16(low);
    }
  }

  lemma EscapeIsAscii(c: char)
    ensures AllPrintableAscii(Escape(c, true))
  {
    EscapeUnicodeIsAscii(c);
  }

  lemma {:induction false} CharsAreAscii(s: string, rest: string)
    requires AllPrintableAscii(rest)
    ensures AllPrintableAscii(EmitChars(s, true, rest))
  {
    if s != "" {
      CharsAreAscii(s[1..], rest);
      EscapeIsAscii(s[0]);
      ConcatAscii(Escape(s[0], true), EmitChars(s[1..], true, rest));
    }
  }

  lemma StringIsAscii(s: string, rest: string)
    requires AllPrintableAscii(rest)
    ensures AllPrintableAscii(EmitString(s, true, rest))
  {
    ConcatAscii("\"", rest);
    CharsAreAscii(s, "\"" + rest);
    ConcatAscii("\"", EmitChars(s, true, "\"" + rest));
  }

  lemma AtomIsAscii(v: Json)
    requires WellFormed(v) && !v.Str? && !v.Arr? && !v.Obj?
    ensures AllPrintableAscii(AtomText(v))
  {
    match v {
      case Int(n) => IntRoundTrip(n); NumberTextIsAscii(IntText(n));
      case Float(lexeme) => NumberTextIsAscii(lexeme);
      case _ =>
    }
  }

  lemma ScalarIsAscii(v: Json, depth: nat, rest: string)
    requires WellFormed(v) && !v.Arr? && !v.Obj? && AllPrintableAscii(rest)
    ensures AllPrintableAscii(Emit(v, AUDIT_LINE, depth, rest))
  {
    if v.Str? {
      StringIsAscii(v.s, rest);
    } else {
      AtomIsAscii(v);
      ConcatAscii(AtomText(v), rest);
    }
  }

  /** With `ensure_ascii` and compact separators a printed value holds only space to tilde. */
  lemma {:induction false} EmittedIsAscii(v: Json, depth: nat, rest: string)
    requires WellFormed(v) && AllPrintableAscii(rest)
    ensures AllPrintableAscii(Emit(v, AUDIT_LINE, depth, rest))
    decreases v, 0
  {
    match v {
      case Arr(items) =>
        if items != [] {
          ConcatAscii("]", rest);
          ItemsAreAscii(items, depth + 1, Gap(AUDIT_LINE, depth) + ("]" + rest));
        }
      case Obj(ms) =>
        if ms != [] {
          ConcatAscii("}", rest);
          MembersAreAscii(ms, depth + 1, Gap(AUDIT_LINE, depth) + ("}" + rest));
        }
      case _ => ScalarIsAscii(v, depth, rest);
    }
  }

  lemma {:induction false} ItemsAreAscii(items: seq<Json>, depth: nat, rest: string)
    requires items != [] && AllPrintableAscii(rest)
    requires forall i :: 0 <= i < |items| ==> WellFormed(items[i])
    ensures AllPrintableAscii(EmitItems(items, AUDIT_LINE, depth, rest))
    decreases items, 1
  {
    if |items| > 1 {
      ItemsAreAscii(items[1..], depth, rest);
    }
    EmittedIsAscii(items[0], depth, AfterItem(items, AUDIT_LINE, depth, rest));
  }

  lemma {:induction false} MembersAreAscii(ms: Dict, depth: nat, rest: string)
    requires ms != [] && AllPrintableAscii(rest)
    requires forall i :: 0 <= i < |ms| ==> WellFormed(ms[i].val)
    ensures AllPrintableAscii(EmitMembers(ms, AUDIT_LINE, depth, rest))
    decreases ms, 1
  {
    if |ms| > 1 {
      MembersAreAscii(ms[1..], depth, rest);
    }
    var val := Emit(ms[0].val, AUDIT_LINE, depth, AfterMember(ms, AUDIT_LINE, depth, rest));
    EmittedIsAscii(ms[0].val, depth, AfterMember(ms, AUDIT_LINE, depth, rest));
    ConcatAscii(":", val);
    StringIsAscii(ms[0].key, Colon(AUDIT_LINE) + val);
  }

  lemma AsciiIsOneLine(s: string)
    requires AllPrintableAscii(s)
    ensures NoLineBreak(s)
  {
  }
}
