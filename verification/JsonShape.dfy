/**
 The printed texts, spelled out. `Compact` and `Indented` write every bracket, comma, colon, escape and
 indentation as a literal; what `JsonText` prints is proved to be these texts.
 */
module JsonShape {
  import opened Outcomes
  import opened Numerals
  import opened PyText
  import opened Json
  import opened JsonText
  import opened JsonTextFacts
  import Seqs

  // ----- strings -----

  function HexDigit(d: nat): (c: char)
    requires d < 16
    ensures NoQuote(c)
  {
    HEX_DIGITS[d]
  }

  /** One `\u` escape. */
  function CodeUnit(n: nat): string
    requires n < 0x10000
  {
    ['\\', 'u', HexDigit(n / 4096), HexDigit(n / 256 % 16), HexDigit(n / 16 % 16), HexDigit(n % 16)]
  }

  /** One escape, or the two of a surrogate pair. */
  function CodeUnits(n: nat): string
    requires n < 0x11_0000
  {
    if n < 0x10000 then CodeUnit(n)
    else CodeUnit(0xD7C0 + n / 0x400) + CodeUnit(0xDC00 + n % 0x400)
  }

  /** How one character stands between the quotes. */
  function CharText(c: char, asciiOnly: bool): string {
    var n := c as int;
    if n == 0x22 then ['\\', '"']
    else if n == 0x5C then ['\\', '\\']
    else if n == 0x08 then ['\\', 'b']
    else if n == 0x09 then ['\\', 't']
    else if n == 0x0A then ['\\', 'n']
    else if n == 0x0C then ['\\', 'f']
    else if n == 0x0D then ['\\', 'r']
    else if 0x20 <= n < 0x7F || (0x7F <= n && !asciiOnly) then [c]
    else CodeUnits(n)
  }

  function Chars(s: string, asciiOnly: bool): string {
    if s == "" then "" else CharText(s[0], asciiOnly) + Chars(s[1..], asciiOnly)
  }

  function Quoted(s: string, asciiOnly: bool): string {
    ['"'] + Chars(s, asciiOnly) + ['"']
  }

  /** Nothing a JSON string has to escape. */
  predicate NothingToEscape(s: string) {
    forall i :: 0 <= i < |s| ==> s[i] >= ' ' && NoQuote(s[i])
  }

  // ----- values -----

  function LiteralText(v: Json): string
    requires !v.Str? && !v.Arr? && !v.Obj?
  {
    match v
    case Null => "null"
    case Bool(b) => if b then "true" else "false"
    case Int(n) => IntText(n)
    case Float(lexeme) => lexeme
    case NonFinite(NaN) => "NaN"
    case NonFinite(PositiveInfinity) => "Infinity"
    case NonFinite(NegativeInfinity) => "-Infinity"
  }

  /** A value on one line: commas and colons with nothing around them. */
  function Compact(v: Json, asciiOnly: bool): string
    decreases v, 0
  {
    match v
    case Str(s) => Quoted(s, asciiOnly)
    case Arr(items) => ['['] + CompactItems(items, asciiOnly) + [']']
    case Obj(ms) => ['{'] + CompactMembers(ms, asciiOnly) + ['}']
    case _ => LiteralText(v)
  }

  function CompactItems(items: seq<Json>, asciiOnly: bool): string
    decreases items, 1
  {
    if items == [] then []
    else
      Compact(items[0], asciiOnly) +
      if |items| == 1 then [] else [','] + CompactItems(items[1..], asciiOnly)
  }

  function CompactMembers(ms: Dict, asciiOnly: bool): string
    decreases ms, 1
  {
    if ms == [] then []
    else
      Quoted(ms[0].key, asciiOnly) + [':'] + Compact(ms[0].val, asciiOnly) +
      if |ms| == 1 then [] else [','] + CompactMembers(ms[1..], asciiOnly)
  }

  /** A new line, two blanks deeper at every level. */
  function NewLine(level: nat): string {
    ['\n'] + seq(2 * level, _ => ' ')
  }

  /** A value over several lines: each item or member on a line of its own. */
  function Indented(v: Json, level: nat, asciiOnly: bool): string
    decreases v, 0
  {
    match v
    case Str(s) => Quoted(s, asciiOnly)
    case Arr(items) =>
      if items == [] then ['[', ']'] else ['['] + IndentedItems(items, level + 1, asciiOnly) + NewLine(level) + [']']
    case Obj(ms) =>
      if ms == [] then ['{', '}'] else ['{'] + IndentedMembers(ms, level + 1, asciiOnly) + NewLine(level) + ['}']
    case _ => LiteralText(v)
  }

  function IndentedItems(items: seq<Json>, level: nat, asciiOnly: bool): string
    decreases items, 1
  {
    if items == [] then []
    else
      NewLine(level) + Indented(items[0], level, asciiOnly) +
      if |items| == 1 then [] else [','] + IndentedItems(items[1..], level, asciiOnly)
  }

  function IndentedMembers(ms: Dict, level: nat, asciiOnly: bool): string
    decreases ms, 1
  {
    if ms == [] then []
    else
      NewLine(level) + Quoted(ms[0].key, asciiOnly) + [':', ' '] + Indented(ms[0].val, level, asciiOnly) +
      if |ms| == 1 then [] else [','] + IndentedMembers(ms[1..], level, asciiOnly)
  }

  // ----- what is printed for strings and atoms -----

  lemma CodeUnitIs(n: nat)
    requires n < 0x10000
    ensures Unicode16(n) == CodeUnit(n)
  {
    assert n / 16 / 16 / 16 == n / 4096 && n / 16 / 16 == n / 256;
    HexCharIsListed(n / 4096);
    HexCharIsListed(n / 256 % 16);
    HexCharIsListed(n / 16 % 16);
    HexCharIsListed(n % 16);
  }

  lemma PairIs(high: nat, low: nat)
    requires high < 0x10000 && low < 0x10000
    ensures Unicode16(high) + Unicode16(low) == CodeUnit(high) + CodeUnit(low)
  {
    CodeUnitIs(high);
    CodeUnitIs(low);
  }

  lemma PairOf(n: nat)
    requires 0x10000 <= n < 0x11_0000
    ensures 0xD800 + (n - 0x10000) / 0x400 == 0xD7C0 + n / 0x400 < 0x10000
    ensures 0xDC00 + (n - 0x10000) % 0x400 == 0xDC00 + n % 0x400 < 0x10000
  {
  }

  lemma EscapeUnicodeIs(c: char)
    ensures EscapeUnicode(c) == CodeUnits(c as int)
  {
    var n := c as int;
    if n < 0x10000 {
      CodeUnitIs(n);
    } else {
      PairOf(n);
      PairIs(0xD7C0 + n / 0x400, 0xDC00 + n % 0x400);
    }
  }

  /** Every escape, and every character left as it is. */
  lemma EscapeIs(c: char, asciiOnly: bool)
    ensures Escape(c, asciiOnly) == CharText(c, asciiOnly)
  {
    EscapeUnicodeIs(c);
  }

  lemma {:induction false} EmitCharsIs(s: string, asciiOnly: bool, rest: string)
    ensures EmitChars(s, asciiOnly, rest) == Chars(s, asciiOnly) + rest
  {
    if s == "" {
      assert Chars(s, asciiOnly) + rest == rest;
    } else {
      EmitCharsIs(s[1..], asciiOnly, rest);
      EscapeIs(s[0], asciiOnly);
      Seqs.ConcatAssociative(CharText(s[0], asciiOnly), Chars(s[1..], asciiOnly), rest);
    }
  }

  lemma EmitStringIs(s: string, asciiOnly: bool, rest: string)
    ensures EmitString(s, asciiOnly, rest) == Quoted(s, asciiOnly) + rest
  {
    EmitCharsIs(s, asciiOnly, "\"" + rest);
    Around("\"", Chars(s, asciiOnly), "\"", rest);
  }

  lemma Around(a: string, b: string, c: string, rest: string)
    ensures a + (b + (c + rest)) == a + b + c + rest
  {
  }

  lemma ScalarIs(v: Json, st: Style, depth: nat, rest: string)
    requires !v.Arr? && !v.Obj?
    ensures Emit(v, st, depth, rest) ==
            (if v.Str? then Quoted(v.s, st.ensureAscii) else LiteralText(v)) + rest
  {
    if v.Str? {
      EmitStringIs(v.s, st.ensureAscii, rest);
    }
  }

  // ----- the compact text -----

  lemma {:induction false} EmitIsCompact(v: Json, asciiOnly: bool, depth: nat, rest: string)
    ensures Emit(v, Style(asciiOnly, false), depth, rest) == Compact(v, asciiOnly) + rest
    decreases v, 0
  {
    var st := Style(asciiOnly, false);
    match v {
      case Arr(items) =>
        if items == [] {
          Around("[", "", "]", rest);
        } else {
          EmitItemsIsCompact(items, asciiOnly, depth + 1, "" + ("]" + rest));
          Around("[", CompactItems(items, asciiOnly), "]", rest);
          NoGap(asciiOnly, depth, "]" + rest);
          NoGap(asciiOnly, depth + 1, EmitItems(items, st, depth + 1, "]" + rest));
        }
      case Obj(ms) =>
        if ms == [] {
          Around("{", "", "}", rest);
        } else {
          EmitMembersIsCompact(ms, asciiOnly, depth + 1, "}" + rest);
          Around("{", CompactMembers(ms, asciiOnly), "}", rest);
          NoGap(asciiOnly, depth, "}" + rest);
          NoGap(asciiOnly, depth + 1, EmitMembers(ms, st, depth + 1, "}" + rest));
        }
      case _ => ScalarIs(v, st, depth, rest);
    }
  }

  lemma NoGap(asciiOnly: bool, depth: nat, t: string)
    ensures Gap(Style(asciiOnly, false), depth) + t == t
  {
  }

  lemma {:induction false} EmitItemsIsCompact(items: seq<Json>, asciiOnly: bool, depth: nat, rest: string)
    requires items != []
    ensures EmitItems(items, Style(asciiOnly, false), depth, rest) == CompactItems(items, asciiOnly) + rest
    decreases items, 1
  {
    var st := Style(asciiOnly, false);
    EmitIsCompact(items[0], asciiOnly, depth, AfterItem(items, st, depth, rest));
    if |items| == 1 {
      EndOfList(Compact(items[0], asciiOnly), rest);
    } else {
      EmitItemsIsCompact(items[1..], asciiOnly, depth, rest);
      NoGap(asciiOnly, depth, EmitItems(items[1..], st, depth, rest));
      Separated(Compact(items[0], asciiOnly), ",", CompactItems(items[1..], asciiOnly), rest);
    }
  }

  lemma EndOfList(last: string, rest: string)
    ensures last + rest == last + [] + rest
  {
  }

  lemma Separated(first: string, separator: string, others: string, rest: string)
    ensures first + (separator + (others + rest)) == first + (separator + others) + rest
  {
  }

  lemma {:induction false} EmitMembersIsCompact(ms: Dict, asciiOnly: bool, depth: nat, rest: string)
    requires ms != []
    ensures EmitMembers(ms, Style(asciiOnly, false), depth, rest) == CompactMembers(ms, asciiOnly) + rest
    decreases ms, 1
  {
    var st := Style(asciiOnly, false);
    var after := AfterMember(ms, st, depth, rest);
    var key, val := Quoted(ms[0].key, asciiOnly), Compact(ms[0].val, asciiOnly);
    EmitIsCompact(ms[0].val, asciiOnly, depth, after);
    EmitStringIs(ms[0].key, asciiOnly, ":" + (val + after));
    Around(key, ":", val, after);
    if |ms| == 1 {
      EndOfList(key + ":" + val, rest);
    } else {
      EmitMembersIsCompact(ms[1..], asciiOnly, depth, rest);
      NoGap(asciiOnly, depth, EmitMembers(ms[1..], st, depth, rest));
      Separated(key + ":" + val, ",", CompactMembers(ms[1..], asciiOnly), rest);
    }
  }

  /** `separators=(",", ":")` and sorted keys, spelled out. */
  lemma SortedTextIsCompact(v: Json, asciiOnly: bool)
    ensures SortedText(v, Style(asciiOnly, false)) == Compact(SortKeys(v), asciiOnly)
  {
    EmitIsCompact(SortKeys(v), asciiOnly, 0, "");
    assert Compact(SortKeys(v), asciiOnly) + "" == Compact(SortKeys(v), asciiOnly);
  }

  /** The canonical text of a value is its compact text with sorted keys, characters beyond ASCII as they are. */
  lemma CanonicalTextIs(v: Json)
    ensures CanonicalText(v) == if Finite(v) then Ok(Compact(SortKeys(v), false)) else Err(OutOfRangeFloat)
  {
    SortedTextIsCompact(v, false);
  }

  // ----- the indented text -----

  lemma SpacesAre(n: nat)
    ensures Spaces(n) == seq(n, _ => ' ')
  {
  }

  lemma GapIsNewLine(asciiOnly: bool, depth: nat)
    ensures Gap(Style(asciiOnly, true), depth) == NewLine(depth)
  {
    SpacesAre(2 * depth);
  }

  lemma {:induction false} EmitIsIndented(v: Json, asciiOnly: bool, depth: nat, rest: string)
    ensures Emit(v, Style(asciiOnly, true), depth, rest) == Indented(v, depth, asciiOnly) + rest
    decreases v, 0
  {
    match v {
      case Arr(items) =>
        if items != [] {
          EmitItemsIsIndented(items, asciiOnly, depth + 1, NewLine(depth) + ("]" + rest));
          ArrayIsIndented(items, asciiOnly, depth, rest);
        }
      case Obj(ms) =>
        if ms != [] {
          EmitMembersIsIndented(ms, asciiOnly, depth + 1, NewLine(depth) + ("}" + rest));
          ObjectIsIndented(ms, asciiOnly, depth, rest);
        }
      case _ => ScalarIs(v, Style(asciiOnly, true), depth, rest);
    }
  }

  lemma ArrayIsIndented(items: seq<Json>, asciiOnly: bool, depth: nat, rest: string)
    requires items != []
    requires var st, tail := Style(asciiOnly, true), NewLine(depth) + ("]" + rest);
             Gap(st, depth + 1) + EmitItems(items, st, depth + 1, tail) ==
             IndentedItems(items, depth + 1, asciiOnly) + tail
    ensures Emit(Arr(items), Style(asciiOnly, true), depth, rest) == Indented(Arr(items), depth, asciiOnly) + rest
  {
    GapIsNewLine(asciiOnly, depth);
    Bracketed("[", IndentedItems(items, depth + 1, asciiOnly), NewLine(depth), "]", rest);
  }

  lemma ObjectIsIndented(ms: Dict, asciiOnly: bool, depth: nat, rest: string)
    requires ms != []
    requires var st, tail := Style(asciiOnly, true), NewLine(depth) + ("}" + rest);
             Gap(st, depth + 1) + EmitMembers(ms, st, depth + 1, tail) ==
             IndentedMembers(ms, depth + 1, asciiOnly) + tail
    ensures Emit(Obj(ms), Style(asciiOnly, true), depth, rest) == Indented(Obj(ms), depth, asciiOnly) + rest
  {
    GapIsNewLine(asciiOnly, depth);
    Bracketed("{", IndentedMembers(ms, depth + 1, asciiOnly), NewLine(depth), "}", rest);
  }

  lemma Bracketed(open: string, body: string, line: string, close: string, rest: string)
    ensures open + (body + (line + (close + rest))) == open + body + line + close + rest
  {
  }

  lemma {:induction false} EmitItemsIsIndented(items: seq<Json>, asciiOnly: bool, depth: nat, rest: string)
    requires items != []
    ensures Gap(Style(asciiOnly, true), depth) + EmitItems(items, Style(asciiOnly, true), depth, rest) ==
            IndentedItems(items, depth, asciiOnly) + rest
    decreases items, 1
  {
    var st := Style(asciiOnly, true);
    var line, first := NewLine(depth), Indented(items[0], depth, asciiOnly);
    GapIsNewLine(asciiOnly, depth);
    EmitIsIndented(items[0], asciiOnly, depth, AfterItem(items, st, depth, rest));
    Seqs.ConcatAssociative(line, first, AfterItem(items, st, depth, rest));
    if |items| == 1 {
      EndOfList(line + first, rest);
    } else {
      EmitItemsIsIndented(items[1..], asciiOnly, depth, rest);
      Separated(line + first, ",", IndentedItems(items[1..], depth, asciiOnly), rest);
    }
  }

  lemma {:induction false} EmitMembersIsIndented(ms: Dict, asciiOnly: bool, depth: nat, rest: string)
    requires ms != []
    ensures Gap(Style(asciiOnly, true), depth) + EmitMembers(ms, Style(asciiOnly, true), depth, rest) ==
            IndentedMembers(ms, depth, asciiOnly) + rest
    decreases ms, 1
  {
    var st := Style(asciiOnly, true);
    var after := AfterMember(ms, st, depth, rest);
    var line, key, val := NewLine(depth), Quoted(ms[0].key, asciiOnly), Indented(ms[0].val, depth, asciiOnly);
    GapIsNewLine(asciiOnly, depth);
    EmitIsIndented(ms[0].val, asciiOnly, depth, after);
    EmitStringIs(ms[0].key, asciiOnly, ": " + (val + after));
    Bracketed(line, key, ": ", val, after);
    if |ms| == 1 {
      EndOfList(line + key + ": " + val, rest);
    } else {
      EmitMembersIsIndented(ms[1..], asciiOnly, depth, rest);
      Separated(line + key + ": " + val, ",", IndentedMembers(ms[1..], depth, asciiOnly), rest);
    }
  }

  /** `indent=2` and sorted keys, spelled out. */
  lemma SortedTextIsIndented(v: Json, asciiOnly: bool)
    ensures SortedText(v, Style(asciiOnly, true)) == Indented(SortKeys(v), 0, asciiOnly)
  {
    EmitIsIndented(SortKeys(v), asciiOnly, 0, "");
    assert Indented(SortKeys(v), 0, asciiOnly) + "" == Indented(SortKeys(v), 0, asciiOnly);
  }

  // ----- no white space between the tokens -----

  /** Outside string literals, told by their quotes and backslashes, no white space of any kind. */
  predicate NoBlankOutside(t: string, inString: bool)
    decreases |t|
  {
    if t == "" then true
    else if !inString then !IsSpace(t[0]) && NoBlankOutside(t[1..], t[0] == '"')
    else if t[0] == '\\' && |t| > 1 then NoBlankOutside(t[2..], true)
    else NoBlankOutside(t[1..], t[0] != '"')
  }

  predicate NoQuote(c: char) {
    c != '"' && c != '\\'
  }

  lemma {:induction false} PlainInString(p: string, rest: string)
    requires forall i :: 0 <= i < |p| ==> NoQuote(p[i])
    ensures NoBlankOutside(p + rest, true) == NoBlankOutside(rest, true)
  {
    if p == "" {
      assert p + rest == rest;
    } else {
      PlainInString(p[1..], rest);
      assert (p + rest)[1..] == p[1..] + rest;
    }
  }

  lemma {:induction false} PlainOutside(p: string, rest: string)
    requires Plain(p)
    ensures NoBlankOutside(p + rest, false) == NoBlankOutside(rest, false)
  {
    if p == "" {
      assert p + rest == rest;
    } else {
      PlainOutside(p[1..], rest);
      assert (p + rest)[1..] == p[1..] + rest;
    }
  }

  lemma EscapedInString(c: char, p: string, rest: string)
    requires forall i :: 0 <= i < |p| ==> NoQuote(p[i])
    ensures NoBlankOutside(['\\', c] + p + rest, true) == NoBlankOutside(rest, true)
  {
    assert (['\\', c] + p + rest)[2..] == p + rest;
    PlainInString(p, rest);
  }

  lemma CodeUnitInString(n: nat, rest: string)
    requires n < 0x10000
    ensures NoBlankOutside(CodeUnit(n) + rest, true) == NoBlankOutside(rest, true)
  {
    var p := CodeUnit(n)[2..];
    EscapedInString('u', p, rest);
    assert ['\\', 'u'] + p == CodeUnit(n);
  }

  lemma CodeUnitsInString(n: nat, rest: string)
    requires n < 0x11_0000
    ensures NoBlankOutside(CodeUnits(n) + rest, true) == NoBlankOutside(rest, true)
  {
    if n < 0x10000 {
      CodeUnitInString(n, rest);
    } else {
      var high, low := 0xD7C0 + n / 0x400, 0xDC00 + n % 0x400;
      CodeUnitInString(low, rest);
      CodeUnitInString(high, CodeUnit(low) + rest);
      Seqs.ConcatAssociative(CodeUnit(high), CodeUnit(low), rest);
    }
  }

  lemma CharInString(c: char, asciiOnly: bool, rest: string)
    ensures NoBlankOutside(CharText(c, asciiOnly) + rest, true) == NoBlankOutside(rest, true)
  {
    var t := CharText(c, asciiOnly);
    if |t| == 2 {
      EscapedInString(t[1], "", rest);
      assert t == ['\\', t[1]] + "";
    } else if t == [c] {
      PlainInString(t, rest);
    } else {
      CodeUnitsInString(c as int, rest);
    }
  }

  lemma {:induction false} CharsInString(s: string, asciiOnly: bool, rest: string)
    ensures NoBlankOutside(Chars(s, asciiOnly) + rest, true) == NoBlankOutside(rest, true)
  {
    if s == "" {
      assert Chars(s, asciiOnly) + rest == rest;
    } else {
      CharsInString(s[1..], asciiOnly, rest);
      CharInString(s[0], asciiOnly, Chars(s[1..], asciiOnly) + rest);
      Seqs.ConcatAssociative(CharText(s[0], asciiOnly), Chars(s[1..], asciiOnly), rest);
    }
  }

  /** A quoted text opens and closes one string literal. */
  lemma QuotedIsOneLiteral(s: string, asciiOnly: bool, rest: string)
    ensures NoBlankOutside(Quoted(s, asciiOnly) + rest, false) == NoBlankOutside(rest, false)
  {
    var close := ['"'] + rest;
    var t := ['"'] + (Chars(s, asciiOnly) + close);
    CharsInString(s, asciiOnly, close);
    Around(['"'], Chars(s, asciiOnly), ['"'], rest);
    assert t[1..] == Chars(s, asciiOnly) + close;
    assert close[1..] == rest;
  }

  predicate Plain(s: string) {
    forall i :: 0 <= i < |s| ==> NoQuote(s[i]) && !IsSpace(s[i])
  }

  lemma NumberIsPlain(s: string)
    requires ScanNumber(s).Some? && ScanNumber(s).value.end == |s|
    ensures Plain(s)
  {
    NumberTextChars(s);
  }

  lemma LiteralIsPlain(v: Json)
    requires WellFormed(v) && !v.Str? && !v.Arr? && !v.Obj?
    ensures Plain(LiteralText(v))
  {
    match v {
      case Int(n) =>
        IntRoundTrip(n);
        NumberIsPlain(IntText(n));
      case Float(lexeme) => NumberIsPlain(lexeme);
      case _ =>
    }
  }

  lemma TokenOutside(c: char, rest: string)
    requires NoQuote(c) && !IsSpace(c)
    ensures NoBlankOutside([c] + rest, false) == NoBlankOutside(rest, false)
  {
    PlainOutside([c], rest);
  }

  lemma {:induction false} CompactIsTight(v: Json, asciiOnly: bool, rest: string)
    requires WellFormed(v)
    ensures NoBlankOutside(Compact(v, asciiOnly) + rest, false) == NoBlankOutside(rest, false)
    decreases v, 0
  {
    match v {
      case Str(s) => QuotedIsOneLiteral(s, asciiOnly, rest);
      case Arr(items) =>
        TokenOutside(']', rest);
        ItemsAreTight(items, asciiOnly, [']'] + rest);
        TokenOutside('[', CompactItems(items, asciiOnly) + ([']'] + rest));
        Around(['['], CompactItems(items, asciiOnly), [']'], rest);
      case Obj(ms) =>
        TokenOutside('}', rest);
        MembersAreTight(ms, asciiOnly, ['}'] + rest);
        TokenOutside('{', CompactMembers(ms, asciiOnly) + (['}'] + rest));
        Around(['{'], CompactMembers(ms, asciiOnly), ['}'], rest);
      case _ =>
        LiteralIsPlain(v);
        PlainOutside(LiteralText(v), rest);
    }
  }

  lemma {:induction false} ItemsAreTight(items: seq<Json>, asciiOnly: bool, rest: string)
    requires forall i :: 0 <= i < |items| ==> WellFormed(items[i])
    ensures NoBlankOutside(CompactItems(items, asciiOnly) + rest, false) == NoBlankOutside(rest, false)
    decreases items, 1
  {
    if items == [] {
      assert CompactItems(items, asciiOnly) + rest == rest;
    } else if |items| == 1 {
      CompactIsTight(items[0], asciiOnly, rest);
      EndOfList(Compact(items[0], asciiOnly), rest);
    } else {
      var others := CompactItems(items[1..], asciiOnly);
      ItemsAreTight(items[1..], asciiOnly, rest);
      TokenOutside(',', others + rest);
      CompactIsTight(items[0], asciiOnly, [','] + (others + rest));
      Separated(Compact(items[0], asciiOnly), [','], others, rest);
    }
  }

  lemma MemberIsTight(m: Member, asciiOnly: bool, rest: string)
    requires NoBlankOutside(Compact(m.val, asciiOnly) + rest, false) == NoBlankOutside(rest, false)
    ensures NoBlankOutside(Quoted(m.key, asciiOnly) + [':'] + Compact(m.val, asciiOnly) + rest, false) ==
            NoBlankOutside(rest, false)
  {
    var val := Compact(m.val, asciiOnly) + rest;
    TokenOutside(':', val);
    QuotedIsOneLiteral(m.key, asciiOnly, [':'] + val);
    Around(Quoted(m.key, asciiOnly), [':'], Compact(m.val, asciiOnly), rest);
  }

  lemma {:induction false} MembersAreTight(ms: Dict, asciiOnly: bool, rest: string)
    requires forall i :: 0 <= i < |ms| ==> WellFormed(ms[i].val)
    ensures NoBlankOutside(CompactMembers(ms, asciiOnly) + rest, false) == NoBlankOutside(rest, false)
    decreases ms, 1
  {
    if ms == [] {
      assert CompactMembers(ms, asciiOnly) + rest == rest;
    } else {
      var first := Quoted(ms[0].key, asciiOnly) + [':'] + Compact(ms[0].val, asciiOnly);
      if |ms| == 1 {
        CompactIsTight(ms[0].val, asciiOnly, rest);
        MemberIsTight(ms[0], asciiOnly, rest);
        EndOfList(first, rest);
      } else {
        var others := CompactMembers(ms[1..], asciiOnly);
        MembersAreTight(ms[1..], asciiOnly, rest);
        TokenOutside(',', others + rest);
        CompactIsTight(ms[0].val, asciiOnly, [','] + (others + rest));
        MemberIsTight(ms[0], asciiOnly, [','] + (others + rest));
        Separated(first, [','], others, rest);
      }
    }
  }

  /** Canonical text holds no white space but what stands inside string literals. */
  lemma CanonicalTextIsTight(v: Json)
    requires WellFormed(v) && CanonicalText(v).Ok?
    ensures NoBlankOutside(CanonicalText(v).value, false)
  {
    SortKeysWellFormed(v);
    CanonicalTextIs(v);
    CompactIsTight(SortKeys(v), false, "");
    assert Compact(SortKeys(v), false) + "" == Compact(SortKeys(v), false);
  }

  // ----- one and two members -----

  lemma CompactOne(m: Member, asciiOnly: bool)
    ensures Compact(Obj([m]), asciiOnly) == "{" + Quoted(m.key, asciiOnly) + ":" + Compact(m.val, asciiOnly) + "}"
  {
    var body := Quoted(m.key, asciiOnly) + [':'] + Compact(m.val, asciiOnly);
    EndOfList(body, []);
    assert CompactMembers([m], asciiOnly) == body;
  }

  lemma Listed(open: string, first: string, separator: string, second: string, close: string)
    ensures open + (first + (separator + second)) + close == open + first + separator + second + close
  {
  }

  lemma CompactTwo(m: Member, n: Member, asciiOnly: bool)
    ensures var first := Quoted(m.key, asciiOnly) + ":" + Compact(m.val, asciiOnly);
            var second := Quoted(n.key, asciiOnly) + ":" + Compact(n.val, asciiOnly);
            Compact(Obj([m, n]), asciiOnly) == "{" + first + "," + second + "}"
  {
    var first := Quoted(m.key, asciiOnly) + [':'] + Compact(m.val, asciiOnly);
    var second := Quoted(n.key, asciiOnly) + [':'] + Compact(n.val, asciiOnly);
    assert [m, n][1..] == [n];
    EndOfList(second, []);
    assert CompactMembers([n], asciiOnly) == second;
    assert CompactMembers([m, n], asciiOnly) == first + ([','] + second);
    Listed("{", first, ",", second, "}");
  }

  /** A dict of one member. */
  lemma OneMemberText(k: string, v: Json, text: string)
    requires CanonicalText(v) == Ok(text)
    ensures CanonicalText(Obj([Member(k, v)])) == Ok("{" + Quoted(k, false) + ":" + text + "}")
  {
    var ms, sorted := [Member(k, v)], [Member(k, SortKeys(v))];
    CanonicalTextIs(v);
    CanonicalTextIs(Obj(ms));
    assert SortValues(ms) == sorted && Sort(sorted) == sorted;
    CompactOne(sorted[0], false);
  }

  lemma SortTwo(a: Member, b: Member)
    requires Less(a.key, b.key)
    ensures SortKeys(Obj([a, b])) == SortKeys(Obj([b, a])) ==
            Obj([Member(a.key, SortKeys(a.val)), Member(b.key, SortKeys(b.val))])
  {
    var x, y := Member(a.key, SortKeys(a.val)), Member(b.key, SortKeys(b.val));
    if Less(b.key, a.key) {
      LessTransitive(a.key, b.key, a.key);
    }
    LessIrreflexive(a.key);
    assert SortValues([a, b]) == [x, y] && SortValues([b, a]) == [y, x];
    SortOfTwo(x, y);
  }

  lemma SortOfTwo(x: Member, y: Member)
    requires Less(x.key, y.key) && !Less(y.key, x.key)
    ensures Sort([x, y]) == [x, y] && Sort([y, x]) == [x, y]
  {
    assert [x, y][1..] == [y] && [y, x][1..] == [x];
    assert Sort([y]) == [y] && Sort([x]) == [x];
    assert [x][1..] == [];
    assert Insert(y, [x]) == [x] + Insert(y, []);
  }

  /** A dict of two members, in whichever order it was built: a comma between them, the smaller key first. */
  lemma TwoMembersText(a: Member, b: Member, first: string, second: string)
    requires Less(a.key, b.key) && CanonicalText(a.val) == Ok(first) && CanonicalText(b.val) == Ok(second)
    ensures var x, y := Quoted(a.key, false) + ":" + first, Quoted(b.key, false) + ":" + second;
            CanonicalText(Obj([a, b])) == CanonicalText(Obj([b, a])) == Ok("{" + x + "," + y + "}")
  {
    CanonicalTextIs(a.val);
    CanonicalTextIs(b.val);
    SortTwo(a, b);
    CanonicalTextIs(Obj([a, b]));
    CanonicalTextIs(Obj([b, a]));
    FiniteTwo(a, b);
    FiniteTwo(b, a);
    CompactTwo(Member(a.key, SortKeys(a.val)), Member(b.key, SortKeys(b.val)), false);
  }

  lemma FiniteTwo(a: Member, b: Member)
    ensures Finite(Obj([a, b])) <==> Finite(a.val) && Finite(b.val)
  {
    assert [a, b][0] == a && [a, b][1] == b;
  }

  lemma {:induction false} CharsAsTheyAre(s: string)
    ensures |Chars(s, false)| >= |s|
    ensures Chars(s, false) == s <==> NothingToEscape(s)
  {
    if s != "" {
      CharsAsTheyAre(s[1..]);
      assert s == [s[0]] + s[1..];
      if NothingToEscape(s) {
        assert CharText(s[0], false) == [s[0]];
      } else if s[0] < ' ' || !NoQuote(s[0]) {
        assert |CharText(s[0], false)| > 1;
      } else {
        assert CharText(s[0], false) == [s[0]];
        assert Chars(s, false)[1..] == Chars(s[1..], false);
      }
    }
  }

  /** A text stands between the quotes as it is, whatever its language, exactly when nothing has to be escaped. */
  lemma StringAsItIs(s: string)
    ensures CanonicalText(Str(s)) == Ok("\"" + s + "\"") <==> NothingToEscape(s)
  {
    CanonicalTextIs(Str(s));
    CharsAsTheyAre(s);
    var t := Quoted(s, false);
    assert t[1..|t| - 1] == Chars(s, false);
    assert ("\"" + s + "\"")[1..|s| + 1] == s;
  }

  // ----- records of named fields -----

  /** `"name":text` for each name, with commas between. */
  function FieldTexts(names: seq<string>, texts: seq<string>): string
    requires |names| == |texts|
  {
    if names == [] then ""
    else
      "\"" + names[0] + "\":" + texts[0] +
      if |names| == 1 then "" else "," + FieldTexts(names[1..], texts[1..])
  }

  lemma FirstLess(a: string, b: string, i: nat)
    requires LessAt(a, b, i)
    ensures Less(a, b)
  {
    LessAtFirstDifference(a, b);
  }

  lemma {:induction false} ChainSorted(ms: Dict)
    requires forall i :: 0 <= i && i + 1 < |ms| ==> Less(ms[i].key, ms[i + 1].key)
    ensures SortedKeys(ms)
  {
    if |ms| > 1 {
      ChainSorted(ms[1..]);
      forall j | 0 < j < |ms| ensures Less(ms[0].key, ms[j].key) {
        if j > 1 {
          assert Less(ms[1..][0].key, ms[1..][j - 1].key);
          LessTransitive(ms[0].key, ms[1].key, ms[j].key);
        }
      }
    }
  }

  lemma {:induction false} AsciiCharsAsTheyAre(s: string, asciiOnly: bool)
    requires AllPrintableAscii(s) && NothingToEscape(s)
    ensures Chars(s, asciiOnly) == s
  {
    if s != "" {
      AsciiCharsAsTheyAre(s[1..], asciiOnly);
      assert s == [s[0]] + s[1..];
    }
  }

  lemma FieldName(name: string, asciiOnly: bool)
    requires AllPrintableAscii(name) && NothingToEscape(name)
    ensures Quoted(name, asciiOnly) + ":" == "\"" + name + "\":"
  {
    AsciiCharsAsTheyAre(name, asciiOnly);
  }

  lemma {:induction false} MembersAreFields(ms: Dict, names: seq<string>, texts: seq<string>, asciiOnly: bool)
    requires |ms| == |names| == |texts|
    requires forall i :: 0 <= i < |ms| ==> ms[i].key == names[i] && Compact(ms[i].val, asciiOnly) == texts[i]
    requires forall i :: 0 <= i < |names| ==> AllPrintableAscii(names[i]) && NothingToEscape(names[i])
    ensures CompactMembers(ms, asciiOnly) == FieldTexts(names, texts)
  {
    if ms != [] {
      FieldName(names[0], asciiOnly);
      MembersAreFields(ms[1..], names[1..], texts[1..], asciiOnly);
    }
  }

  lemma ObjectText(ms: Dict, asciiOnly: bool)
    ensures Compact(Obj(ms), asciiOnly) == "{" + CompactMembers(ms, asciiOnly) + "}"
  {
  }
}
