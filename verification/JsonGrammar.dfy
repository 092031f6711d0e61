/**
 JSON texts as trees of their tokens (sections 2 to 7 of RFC 8259), with every choice a writer has: blanks between
 tokens, the spelling of each character, repeated keys. The decoder reads exactly these texts, and each as its value.
 */
module JsonGrammar {
  import opened Outcomes
  import opened Numerals
  import opened PyText
  import opened Json
  import opened JsonText
  import opened JsonParser
  import opened JsonRoundTrip
  import Seqs

  // ----- the characters of a string -----

  datatype Spelling = Raw(c: char) | Short(letter: char) | Unit(digits: string) | Pair(high: string, low: string)

  predicate IsHex4(s: string) {
    |s| == 4 && forall i :: 0 <= i < 4 ==> HexValue(s[i]).Some?
  }

  function Hex4Value(s: string): (n: nat)
    requires IsHex4(s)
    ensures n < 0x10000
  {
    HexValue(s[0]).value * 0x1000 + HexValue(s[1]).value * 0x100 + HexValue(s[2]).value * 0x10 + HexValue(s[3]).value
  }

  predicate IsSpelling(p: Spelling) {
    match p
    case Raw(c) => c >= ' ' && c != '"' && c != '\\'
    case Short(letter) => letter in "\"\\/bfnrt"
    case Unit(digits) => IsHex4(digits) && !(0xD800 <= Hex4Value(digits) < 0xE000)
    case Pair(high, low) =>
      IsHex4(high) && IsHex4(low) && 0xD800 <= Hex4Value(high) < 0xDC00 && 0xDC00 <= Hex4Value(low) < 0xE000
  }

  function SpelledChar(p: Spelling): char
    requires IsSpelling(p)
  {
    match p
    case Raw(c) => c
    case Short(letter) =>
      if letter == 'b' then 0x08 as char
      else if letter == 'f' then 0x0C as char
      else if letter == 'n' then 0x0A as char
      else if letter == 'r' then 0x0D as char
      else if letter == 't' then 0x09 as char
      else letter
    case Unit(digits) => Hex4Value(digits) as char
    case Pair(high, low) => (0x10000 + (Hex4Value(high) - 0xD800) * 0x400 + (Hex4Value(low) - 0xDC00)) as char
  }

  function SpelledText(p: Spelling, rest: string): string {
    match p
    case Raw(c) => [c] + rest
    case Short(letter) => ['\\', letter] + rest
    case Unit(digits) => ['\\', 'u'] + (digits + rest)
    case Pair(high, low) => ['\\', 'u'] + (high + (['\\', 'u'] + (low + rest)))
  }

  lemma ReadHex4(s: string, rest: string)
    requires IsHex4(s)
    ensures ParseHex4(s + rest) == Some(Hex4Value(s)) && (s + rest)[4..] == rest
  {
  }

  lemma ReadUnit(digits: string, rest: string)
    requires IsSpelling(Unit(digits))
    ensures ParseUnicode(digits + rest) == Some((SpelledChar(Unit(digits)), rest))
  {
    ReadHex4(digits, rest);
  }

  lemma ReadPair(high: string, low: string, rest: string)
    requires IsSpelling(Pair(high, low))
    ensures ParseUnicode(high + (['\\', 'u'] + (low + rest))) == Some((SpelledChar(Pair(high, low)), rest))
  {
    var tail := ['\\', 'u'] + (low + rest);
    var t := high + tail;
    ReadHex4(high, tail);
    ReadHex4(low, rest);
    assert t[4] == tail[0] && t[5] == tail[1];
    assert t[6..] == tail[2..] == low + rest;
    assert t[10..] == (low + rest)[4..];
  }

  /** A spelled character is read as the character, whatever follows. */
  lemma ReadSpelling(p: Spelling, rest: string)
    requires IsSpelling(p)
    ensures var t := SpelledText(p, rest); t != "" && t[0] != '"' && ParseChar(t) == Some((SpelledChar(p), rest))
  {
    var t := SpelledText(p, rest);
    match p {
      case Raw(c) => assert t[1..] == rest;
      case Short(letter) => assert t[2..] == rest;
      case Unit(digits) =>
        assert t[2..] == digits + rest;
        ReadUnit(digits, rest);
      case Pair(high, low) =>
        assert t[2..] == high + (['\\', 'u'] + (low + rest));
        ReadPair(high, low, rest);
    }
  }

  lemma Hex4Of(t: string) returns (digits: string)
    requires ParseHex4(t).Some?
    ensures IsHex4(digits) && Hex4Value(digits) == ParseHex4(t).value && t == digits + t[4..]
  {
    digits := t[..4];
  }

  lemma PairOf(t: string, high: string) returns (p: Spelling)
    requires ParseUnicode(t).Some? && ParseHex4(t).Some? && 0xD800 <= ParseHex4(t).value < 0xDC00
    requires IsHex4(high) && Hex4Value(high) == ParseHex4(t).value && t == high + t[4..]
    ensures IsSpelling(p) && SpelledChar(p) == ParseUnicode(t).value.0
    ensures ['\\', 'u'] + t == SpelledText(p, ParseUnicode(t).value.1)
  {
    var low := Hex4Of(t[6..]);
    p := Pair(high, low);
    assert t[6..][4..] == t[10..];
    assert t[4..] == ['\\', 'u'] + t[6..];
  }

  lemma SpellingOfUnicode(t: string) returns (p: Spelling)
    requires ParseUnicode(t).Some?
    ensures IsSpelling(p) && SpelledChar(p) == ParseUnicode(t).value.0
    ensures ['\\', 'u'] + t == SpelledText(p, ParseUnicode(t).value.1)
  {
    var digits := Hex4Of(t);
    if 0xD800 <= Hex4Value(digits) < 0xDC00 {
      p := PairOf(t, digits);
    } else {
      p := Unit(digits);
    }
  }

  /** Every character that is read was spelled in one of these ways. */
  lemma SpellingOf(t: string) returns (p: Spelling)
    requires t != "" && t[0] != '"' && ParseChar(t).Some?
    ensures IsSpelling(p) && SpelledChar(p) == ParseChar(t).value.0
    ensures t == SpelledText(p, ParseChar(t).value.1)
  {
    if t[0] != '\\' {
      p := Raw(t[0]);
      assert t == [t[0]] + t[1..];
    } else if t[1] == 'u' {
      p := SpellingOfUnicode(t[2..]);
      assert t == ['\\', 'u'] + t[2..];
    } else {
      p := Short(t[1]);
      assert t == ['\\', t[1]] + t[2..];
    }
  }

  // ----- strings -----

  predicate IsSpelled(ps: seq<Spelling>) {
    forall i :: 0 <= i < |ps| ==> IsSpelling(ps[i])
  }

  function SpelledString(ps: seq<Spelling>): string
    requires IsSpelled(ps)
  {
    if ps == [] then "" else [SpelledChar(ps[0])] + SpelledString(ps[1..])
  }

  /** The characters and the closing quote. */
  function StringText(ps: seq<Spelling>, rest: string): string {
    if ps == [] then ['"'] + rest else SpelledText(ps[0], StringText(ps[1..], rest))
  }

  lemma {:induction false} ReadString(ps: seq<Spelling>, rest: string)
    requires IsSpelled(ps)
    ensures ParseString(StringText(ps, rest)) == Some((SpelledString(ps), rest))
  {
    if ps == [] {
      assert StringText(ps, rest)[1..] == rest;
    } else {
      ReadSpelling(ps[0], StringText(ps[1..], rest));
      ReadString(ps[1..], rest);
    }
  }

  lemma {:induction false} StringOf(t: string) returns (ps: seq<Spelling>)
    requires ParseString(t).Some?
    ensures IsSpelled(ps) && SpelledString(ps) == ParseString(t).value.0
    ensures t == StringText(ps, ParseString(t).value.1)
    decreases |t|
  {
    if t[0] == '"' {
      ps := [];
      assert t == ['"'] + t[1..];
    } else {
      var p := SpellingOf(t);
      var others := StringOf(ParseChar(t).value.1);
      ps := [p] + others;
      assert ps[1..] == others;
    }
  }

  // ----- documents -----

  /** A scalar is a literal or a number with its text; a list or record without entries may hold blanks. */
  datatype Doc =
    | Scalar(v: Json, text: string)
    | Quote(ps: seq<Spelling>)
    | List(blank: string, items: seq<Item>)
    | Record(blank: string, entries: seq<Entry>)

  datatype Item = Item(before: string, doc: Doc, after: string)

  datatype Entry = Entry(before: string, key: seq<Spelling>, colonBefore: string, colonAfter: string, doc: Doc,
                         after: string)

  predicate AllBlank(s: string) {
    forall i :: 0 <= i < |s| ==> IsBlank(s[i])
  }

  predicate IsScalar(v: Json, text: string) {
    || (v == Null && text == "null")
    || (v == Bool(true) && text == "true")
    || (v == Bool(false) && text == "false")
    || (v == NonFinite(NaN) && text == "NaN")
    || (v == NonFinite(PositiveInfinity) && text == "Infinity")
    || (v == NonFinite(NegativeInfinity) && text == "-Infinity")
    || IsNumber(v, text)
  }

  /** The whole text is a number: an integer by its value, any other by its text. */
  predicate IsNumber(v: Json, text: string) {
    && ScanNumber(text).Some? && ScanNumber(text).value.end == |text|
    && v == if ScanNumber(text).value.integerEnd == |text| then Int(IntValue(text)) else Float(text)
  }

  predicate IsDoc(d: Doc)
    decreases d
  {
    match d
    case Scalar(v, text) => IsScalar(v, text)
    case Quote(ps) => IsSpelled(ps)
    case List(blank, items) => AllBlank(blank) && AreItems(items)
    case Record(blank, entries) => AllBlank(blank) && AreEntries(entries)
  }

  predicate IsItem(x: Item)
    decreases x
  {
    AllBlank(x.before) && IsDoc(x.doc) && AllBlank(x.after)
  }

  predicate AreItems(items: seq<Item>)
    decreases items
  {
    forall i :: 0 <= i < |items| ==> IsItem(items[i])
  }

  predicate IsEntry(e: Entry)
    decreases e
  {
    && AllBlank(e.before) && IsSpelled(e.key) && AllBlank(e.colonBefore) && AllBlank(e.colonAfter)
    && IsDoc(e.doc) && AllBlank(e.after)
  }

  predicate AreEntries(entries: seq<Entry>)
    decreases entries
  {
    forall i :: 0 <= i < |entries| ==> IsEntry(entries[i])
  }

  /** The text of a document, then `rest`. */
  function DocText(d: Doc, rest: string): string
    decreases d, 0
  {
    match d
    case Scalar(_, text) => text + rest
    case Quote(ps) => ['"'] + StringText(ps, rest)
    case List(blank, items) => ['['] + if items == [] then blank + ([']'] + rest) else ItemsText(items, rest)
    case Record(blank, entries) => ['{'] + if entries == [] then blank + (['}'] + rest) else EntriesText(entries, rest)
  }

  function ItemsText(items: seq<Item>, rest: string): string
    requires items != []
    decreases items, 1
  {
    items[0].before + DocText(items[0].doc, AfterDoc(items, rest))
  }

  function AfterDoc(items: seq<Item>, rest: string): string
    requires items != []
    decreases items, 0
  {
    items[0].after + if |items| == 1 then [']'] + rest else [','] + ItemsText(items[1..], rest)
  }

  function EntriesText(entries: seq<Entry>, rest: string): string
    requires entries != []
    decreases entries, 2
  {
    entries[0].before + (['"'] + StringText(entries[0].key, AfterKey(entries, rest)))
  }

  function AfterKey(entries: seq<Entry>, rest: string): string
    requires entries != []
    decreases entries, 1
  {
    var e := entries[0];
    e.colonBefore + ([':'] + (e.colonAfter + DocText(e.doc, AfterEntry(entries, rest))))
  }

  function AfterEntry(entries: seq<Entry>, rest: string): string
    requires entries != []
    decreases entries, 0
  {
    entries[0].after + if |entries| == 1 then ['}'] + rest else [','] + EntriesText(entries[1..], rest)
  }

  /** What a document stands for: a later member with the key of an earlier one replaces its value. */
  function Value(d: Doc): Json
    requires IsDoc(d)
    decreases d, 0
  {
    match d
    case Scalar(v, _) => v
    case Quote(ps) => Str(SpelledString(ps))
    case List(_, items) => Arr(ItemValues(items))
    case Record(_, entries) => Obj(EntryValues(entries, []))
  }

  function ItemValues(items: seq<Item>): seq<Json>
    requires AreItems(items)
    decreases items, 1
  {
    if items == [] then []
    else
      assert IsItem(items[0]);
      [Value(items[0].doc)] + ItemValues(items[1..])
  }

  function EntryValues(entries: seq<Entry>, acc: Dict): Dict
    requires AreEntries(entries)
    decreases entries, 1
  {
    if entries == [] then acc
    else
      assert IsEntry(entries[0]);
      EntryValues(entries[1..], Set(acc, SpelledString(entries[0].key), Value(entries[0].doc)))
  }

  // ----- every document is read -----

  lemma {:induction false} SkipAll(w: string, t: string)
    requires AllBlank(w) && (t != "" ==> !IsBlank(t[0]))
    ensures SkipBlanks(w + t) == t
  {
    if w == "" {
      assert w + t == t;
    } else {
      SkipAll(w[1..], t);
      assert (w + t)[1..] == w[1..] + t;
    }
  }

  /** Blanks and then a comma or a closing bracket do not continue a number. */
  lemma BlanksEndNumber(w: string, c: char, t: string)
    requires AllBlank(w) && c in ",]}"
    ensures EndsNumber(w + ([c] + t)) && SkipBlanks(w + ([c] + t)) == [c] + t
  {
    SkipAll(w, [c] + t);
    assert (w + ([c] + t))[0] == if w == "" then c else w[0];
  }

  lemma ReadScalar(v: Json, text: string, rest: string)
    requires IsScalar(v, text) && EndsNumber(rest)
    ensures ParseScalar(text + rest) == Some((v, rest)) && StartsAtom(text + rest)
  {
    if IsNumber(v, text) {
      NumberStart(text);
      ParseScanned(text, rest);
      assert (text + rest)[0] == text[0] && (|text| > 1 ==> (text + rest)[1] == text[1]);
    } else {
      assert text == AtomText(v);
      ParseEmittedLiteral(v, rest);
      LiteralIsNoNumber(v, rest);
      AtomStart(v);
      StartsAtomThen(text, rest);
    }
  }

  lemma DocStart(d: Doc, rest: string)
    requires IsDoc(d) && EndsNumber(rest)
    ensures var t := DocText(d, rest); t != "" && !IsBlank(t[0]) && t[0] != ']'
  {
    if d.Scalar? {
      ReadScalar(d.v, d.text, rest);
    }
  }

  /** A document is read as its value, whatever follows that cannot continue a number. */
  lemma {:induction false} ReadDoc(d: Doc, rest: string)
    requires IsDoc(d) && EndsNumber(rest)
    ensures ParseValue(DocText(d, rest)) == Some((Value(d), rest))
    decreases d, 0
  {
    var t := DocText(d, rest);
    match d {
      case Scalar(v, text) => ReadScalar(v, text, rest);
      case Quote(ps) =>
        ReadString(ps, rest);
        assert t[1..] == StringText(ps, rest);
      case List(blank, items) =>
        BracketDispatch(t);
        if items == [] {
          SkipAll(blank, [']'] + rest);
          assert t[1..] == blank + ([']'] + rest) && ([']'] + rest)[1..] == rest;
        } else {
          ReadItems(items, rest);
          assert t[1..] == ItemsText(items, rest);
        }
      case Record(blank, entries) =>
        BracketDispatch(t);
        if entries == [] {
          SkipAll(blank, ['}'] + rest);
          assert t[1..] == blank + (['}'] + rest) && (['}'] + rest)[1..] == rest;
        } else {
          ReadEntries(entries, [], rest);
          assert t[1..] == EntriesText(entries, rest);
        }
    }
  }

  lemma {:induction false} ReadItems(items: seq<Item>, rest: string)
    requires items != [] && AreItems(items)
    ensures var u := SkipBlanks(ItemsText(items, rest));
            u != "" && u[0] != ']' && ParseItems(u) == Some((ItemValues(items), rest))
    decreases items, 1
  {
    var after := AfterDoc(items, rest);
    var u := DocText(items[0].doc, after);
    if |items| == 1 {
      BlanksEndNumber(items[0].after, ']', rest);
      ReadDoc(items[0].doc, after);
      ParseItemsStep(u, Value(items[0].doc), after);
      assert ([']'] + rest)[1..] == rest;
      assert items[1..] == [] && [Value(items[0].doc)] + [] == [Value(items[0].doc)];
    } else {
      var more := ItemsText(items[1..], rest);
      BlanksEndNumber(items[0].after, ',', more);
      ReadDoc(items[0].doc, after);
      ReadItems(items[1..], rest);
      ParseItemsStep(u, Value(items[0].doc), after);
      assert ([','] + more)[1..] == more;
    }
    DocStart(items[0].doc, after);
    SkipAll(items[0].before, u);
  }

  lemma ReadMember(e: Entry, after: string, text: string)
    requires IsEntry(e) && EndsNumber(after)
    requires ParseValue(DocText(e.doc, after)) == Some((Value(e.doc), after))
    requires text == ['"'] + StringText(e.key, e.colonBefore + ([':'] + (e.colonAfter + DocText(e.doc, after))))
    ensures ParseMember(text) == Some((Member(SpelledString(e.key), Value(e.doc)), after))
  {
    var val := DocText(e.doc, after);
    var tail := e.colonBefore + ([':'] + (e.colonAfter + val));
    ReadString(e.key, tail);
    assert text[1..] == StringText(e.key, tail);
    SkipAll(e.colonBefore, [':'] + (e.colonAfter + val));
    assert ([':'] + (e.colonAfter + val))[1..] == e.colonAfter + val;
    DocStart(e.doc, after);
    SkipAll(e.colonAfter, val);
  }

  lemma {:induction false} ReadEntries(entries: seq<Entry>, acc: Dict, rest: string)
    requires entries != [] && AreEntries(entries)
    ensures var u := SkipBlanks(EntriesText(entries, rest));
            u != "" && u[0] != '}' && ParseMembers(u, acc) == Some((EntryValues(entries, acc), rest))
    decreases entries, 1
  {
    var e, after := entries[0], AfterEntry(entries, rest);
    var u := ['"'] + StringText(e.key, AfterKey(entries, rest));
    var m := Member(SpelledString(e.key), Value(e.doc));
    assert IsEntry(e);
    SkipAll(e.before, u);
    if |entries| == 1 {
      BlanksEndNumber(e.after, '}', rest);
      ReadDoc(e.doc, after);
      ReadMember(e, after, u);
      ParseMembersStep(u, acc, m, after);
      assert (['}'] + rest)[1..] == rest;
      assert entries[1..] == [];
    } else {
      var more := EntriesText(entries[1..], rest);
      BlanksEndNumber(e.after, ',', more);
      ReadDoc(e.doc, after);
      ReadMember(e, after, u);
      ReadEntries(entries[1..], Set(acc, m.key, m.val), rest);
      ParseMembersStep(u, acc, m, after);
      assert ([','] + more)[1..] == more;
    }
  }

  // ----- nothing but documents is read -----

  lemma {:induction false} BlanksBefore(t: string) returns (w: string)
    ensures AllBlank(w) && t == w + SkipBlanks(t)
    decreases |t|
  {
    if t != "" && IsBlank(t[0]) {
      var v := BlanksBefore(t[1..]);
      w := [t[0]] + v;
      assert t == [t[0]] + t[1..];
    } else {
      w := "";
    }
  }

  lemma NumberOf(t: string) returns (d: Doc)
    requires ParseNumber(t).Some?
    ensures IsDoc(d) && Value(d) == ParseNumber(t).value.0 && t == DocText(d, ParseNumber(t).value.1)
  {
    var end := ScanNumber(t).value.end;
    ScanPrefix(t);
    d := Scalar(ParseNumber(t).value.0, t[..end]);
    assert t == t[..end] + t[end..];
  }

  lemma LiteralOf(t: string, text: string, v: Json)
    requires text <= t && ParseLiteral(t) == Some((v, t[|text|..])) && IsScalar(v, text)
    ensures IsDoc(Scalar(v, text)) && Value(Scalar(v, text)) == v && t == DocText(Scalar(v, text), t[|text|..])
  {
    assert t == text + t[|text|..];
  }

  lemma ScalarOf(t: string) returns (d: Doc)
    requires ParseScalar(t).Some?
    ensures IsDoc(d) && Value(d) == ParseScalar(t).value.0 && t == DocText(d, ParseScalar(t).value.1)
  {
    if t[0] == '"' {
      var ps := StringOf(t[1..]);
      d := Quote(ps);
      assert t == ['"'] + t[1..];
    } else if StartsNumber(t) {
      d := NumberOf(t);
    } else {
      var (v, rest) := ParseLiteral(t).value;
      var text := AtomText(v);
      LiteralOf(t, text, v);
      d := Scalar(v, text);
    }
  }

  /** Whatever is read is the text of a document, and is read as its value. */
  lemma {:induction false} DocOf(t: string) returns (d: Doc)
    requires ParseValue(t).Some?
    ensures IsDoc(d) && Value(d) == ParseValue(t).value.0 && t == DocText(d, ParseValue(t).value.1)
    decreases |t|, 0
  {
    if t != "" && t[0] == '[' {
      var u := SkipBlanks(t[1..]);
      var w := BlanksBefore(t[1..]);
      assert t == ['['] + (w + u);
      if u[0] == ']' {
        d := List(w, []);
        assert u == [']'] + u[1..];
      } else {
        var items := ItemsOf(u, w);
        d := List("", items);
      }
    } else if t != "" && t[0] == '{' {
      var u := SkipBlanks(t[1..]);
      var w := BlanksBefore(t[1..]);
      assert t == ['{'] + (w + u);
      if u[0] == '}' {
        d := Record(w, []);
        assert u == ['}'] + u[1..];
      } else {
        var entries := EntriesOf(u, w, []);
        d := Record("", entries);
      }
    } else {
      d := ScalarOf(t);
    }
  }

  /** The items of a list whose first is preceded by these blanks. */
  lemma {:induction false} ItemsOf(t: string, before: string) returns (items: seq<Item>)
    requires ParseItems(t).Some? && AllBlank(before)
    ensures items != [] && AreItems(items) && ItemValues(items) == ParseItems(t).value.0
    ensures before + t == ItemsText(items, ParseItems(t).value.1)
    decreases |t|, 1
  {
    var d := DocOf(t);
    var t1 := ParseValue(t).value.1;
    var u := SkipBlanks(t1);
    var after := BlanksBefore(t1);
    var item := Item(before, d, after);
    assert u == [u[0]] + u[1..];
    if u[0] == ']' {
      items := [item];
      LastItem(item, u[1..]);
    } else {
      var next := BlanksBefore(u[1..]);
      var others := ItemsOf(SkipBlanks(u[1..]), next);
      items := [item] + others;
      MoreItems(item, others, ParseItems(t).value.1);
    }
  }

  lemma LastItem(x: Item, rest: string)
    requires IsItem(x)
    ensures AreItems([x]) && ItemValues([x]) == [Value(x.doc)]
    ensures ItemsText([x], rest) == x.before + DocText(x.doc, x.after + ([']'] + rest))
  {
    assert [x][1..] == [] && ItemValues([]) == [];
    assert [Value(x.doc)] + [] == [Value(x.doc)];
  }

  lemma MoreItems(x: Item, others: seq<Item>, rest: string)
    requires IsItem(x) && others != [] && AreItems(others)
    ensures AreItems([x] + others) && ItemValues([x] + others) == [Value(x.doc)] + ItemValues(others)
    ensures ItemsText([x] + others, rest) == x.before + DocText(x.doc, x.after + ([','] + ItemsText(others, rest)))
  {
    var items := [x] + others;
    assert items[1..] == others && items[0] == x;
    assert AfterDoc(items, rest) == x.after + ([','] + ItemsText(others, rest));
  }

  lemma {:induction false} EntriesOf(t: string, before: string, acc: Dict) returns (entries: seq<Entry>)
    requires ParseMembers(t, acc).Some? && AllBlank(before)
    ensures entries != [] && AreEntries(entries) && EntryValues(entries, acc) == ParseMembers(t, acc).value.0
    ensures before + t == EntriesText(entries, ParseMembers(t, acc).value.1)
    decreases |t|, 2
  {
    var (m, t1) := ParseMember(t).value;
    var u := SkipBlanks(t1);
    var after := BlanksBefore(t1);
    var e := EntryOf(t, before, after);
    assert u == [u[0]] + u[1..];
    if u[0] == '}' {
      entries := [e];
      LastEntry(e, acc, u[1..]);
    } else {
      var next := BlanksBefore(u[1..]);
      var others := EntriesOf(SkipBlanks(u[1..]), next, Set(acc, m.key, m.val));
      entries := [e] + others;
      MoreEntries(e, others, acc, ParseMembers(t, acc).value.1);
    }
  }

  /** An entry and what follows its value. */
  function EntryText(e: Entry, after: string): string {
    e.before + (['"'] + StringText(e.key, e.colonBefore + ([':'] + (e.colonAfter + DocText(e.doc, after)))))
  }

  lemma LastEntry(e: Entry, acc: Dict, rest: string)
    requires IsEntry(e)
    ensures AreEntries([e]) && EntryValues([e], acc) == Set(acc, SpelledString(e.key), Value(e.doc))
    ensures EntriesText([e], rest) == EntryText(e, e.after + (['}'] + rest))
  {
    var entries := [e];
    assert entries[1..] == [] && entries[0] == e;
    assert AfterEntry(entries, rest) == e.after + (['}'] + rest);
    var one := Set(acc, SpelledString(e.key), Value(e.doc));
    assert EntryValues([], one) == one;
  }

  lemma MoreEntries(e: Entry, others: seq<Entry>, acc: Dict, rest: string)
    requires IsEntry(e) && others != [] && AreEntries(others)
    ensures AreEntries([e] + others)
    ensures EntryValues([e] + others, acc) == EntryValues(others, Set(acc, SpelledString(e.key), Value(e.doc)))
    ensures EntriesText([e] + others, rest) == EntryText(e, e.after + ([','] + EntriesText(others, rest)))
  {
    var entries := [e] + others;
    assert entries[1..] == others && entries[0] == e;
    assert AfterEntry(entries, rest) == e.after + ([','] + EntriesText(others, rest));
    assert EntriesText(entries, rest) == e.before + (['"'] + StringText(e.key, AfterKey(entries, rest)));
  }

  lemma {:induction false} EntryOf(t: string, before: string, after: string) returns (e: Entry)
    requires ParseMember(t).Some? && AllBlank(before) && AllBlank(after)
    ensures IsEntry(e) && e.before == before && e.after == after
    ensures Member(SpelledString(e.key), Value(e.doc)) == ParseMember(t).value.0
    ensures var val := DocText(e.doc, ParseMember(t).value.1);
            t == ['"'] + StringText(e.key, e.colonBefore + ([':'] + (e.colonAfter + val)))
    decreases |t|, 1
  {
    var key := StringOf(t[1..]);
    var t1 := ParseString(t[1..]).value.1;
    var u := SkipBlanks(t1);
    var colonBefore := BlanksBefore(t1);
    var colonAfter := BlanksBefore(u[1..]);
    var d := DocOf(SkipBlanks(u[1..]));
    e := Entry(before, key, colonBefore, colonAfter, d, after);
    assert t == ['"'] + t[1..] && u == [':'] + u[1..];
  }

  // ----- the decoder is the grammar -----

  /** A document with blanks before and after it. */
  ghost predicate IsJsonText(text: string, v: Json) {
    exists lead, d, trail ::
      AllBlank(lead) && IsDoc(d) && AllBlank(trail) && text == lead + DocText(d, trail) && Value(d) == v
  }

  lemma {:induction false} SkipsToNothing(t: string)
    ensures SkipBlanks(t) == "" <==> AllBlank(t)
  {
    if t != "" && IsBlank(t[0]) {
      SkipsToNothing(t[1..]);
      assert t == [t[0]] + t[1..];
    }
  }

  lemma ReadText(lead: string, d: Doc, trail: string)
    requires AllBlank(lead) && IsDoc(d) && AllBlank(trail)
    ensures Parse(lead + DocText(d, trail)) == Some(Value(d))
  {
    assert EndsNumber(trail);
    DocStart(d, trail);
    SkipAll(lead, DocText(d, trail));
    ReadDoc(d, trail);
    SkipsToNothing(trail);
  }

  /** Decoding succeeds exactly on the texts of the grammar, and gives the value they stand for. */
  lemma ParseIsExact(text: string, v: Json)
    ensures Parse(text) == Some(v) <==> IsJsonText(text, v)
  {
    if Parse(text) == Some(v) {
      var lead := BlanksBefore(text);
      var d := DocOf(SkipBlanks(text));
      SkipsToNothing(ParseValue(SkipBlanks(text)).value.1);
    }
    if IsJsonText(text, v) {
      var lead, d, trail :|
        AllBlank(lead) && IsDoc(d) && AllBlank(trail) && text == lead + DocText(d, trail) && Value(d) == v;
      ReadText(lead, d, trail);
    }
  }

  // ----- numbers -----

  /** The parts of a number (section 6 of RFC 8259); a missing fraction or exponent has no digits. */
  datatype Numeral = Numeral(minus: bool, whole: string, fraction: string, mark: string, exponent: string)

  predicate AllDigits(s: string) {
    forall i :: 0 <= i < |s| ==> IsDigit(s[i])
  }

  predicate IsNumeral(n: Numeral) {
    && AllDigits(n.whole) && n.whole != "" && (n.whole[0] == '0' ==> |n.whole| == 1)
    && AllDigits(n.fraction) && AllDigits(n.exponent)
    && if n.exponent == "" then n.mark == "" else IsMark(n.mark)
  }

  /** `e` or `E`, perhaps with a sign. */
  predicate IsMark(m: string) {
    1 <= |m| <= 2 && (m[0] == 'e' || m[0] == 'E') && (|m| == 2 ==> m[1] == '+' || m[1] == '-')
  }

  function Sign(n: Numeral): string {
    if n.minus then ['-'] else []
  }

  function Point(n: Numeral): string {
    if n.fraction == "" then [] else ['.']
  }

  function NumeralText(n: Numeral): string {
    Sign(n) + (n.whole + (Point(n) + (n.fraction + (n.mark + n.exponent))))
  }

  function NumeralValue(n: Numeral): Json
    requires IsNumeral(n)
  {
    if n.fraction != "" || n.exponent != "" then Float(NumeralText(n))
    else Int(if n.minus then 0 - DecimalValue(n.whole) else DecimalValue(n.whole))
  }

  lemma DigitsEndAt(s: string, i: nat, j: nat)
    requires i <= j <= |s| && (j < |s| ==> !IsDigit(s[j])) && forall k :: i <= k < j ==> IsDigit(s[k])
    ensures DigitsEnd(s, i) == j
    decreases j - i
  {
  }

  lemma DigitsEndStops(s: string, i: nat)
    requires i <= |s|
    ensures forall k :: i <= k < DigitsEnd(s, i) ==> IsDigit(s[k])
    ensures DigitsEnd(s, i) < |s| ==> !IsDigit(s[DigitsEnd(s, i)])
    decreases |s| - i
  {
  }

  lemma ScanWhole(n: Numeral)
    requires IsNumeral(n)
    ensures IntegerEnd(NumeralText(n)) == Some(|Sign(n)| + |n.whole|)
  {
    var t, i := NumeralText(n), |Sign(n)|;
    var j := i + |n.whole|;
    var tail := Point(n) + (n.fraction + (n.mark + n.exponent));
    assert t[i] == n.whole[0];
    assert forall k :: i <= k < j ==> t[k] == n.whole[k - i];
    assert j < |t| ==> t[j] == tail[0];
    DigitsEndAt(t, i + 1, j);
  }

  lemma ScanFraction(t: string, i: nat, point: string, fraction: string, tail: string)
    requires i <= |t| && t[i..] == point + (fraction + tail)
    requires AllDigits(fraction) && point == if fraction == "" then [] else ['.']
    requires tail != "" ==> !IsDigit(tail[0]) && tail[0] != '.'
    ensures FractionEnd(t, i) == i + |point| + |fraction|
  {
    var j := i + |point| + |fraction|;
    assert forall x :: i <= x < |t| ==> t[x] == t[i..][x - i];
    if fraction != "" {
      assert t[i] == '.';
      assert forall x :: i + 1 <= x < j ==> t[x] == fraction[x - i - 1];
      assert j < |t| ==> t[j] == tail[0];
      DigitsEndAt(t, i + 1, j);
    } else {
      assert i < |t| ==> t[i] == tail[0];
    }
  }

  lemma ScanExponent(t: string, j: nat, mark: string, exponent: string)
    requires j <= |t| && t[j..] == mark + exponent
    requires AllDigits(exponent) && if exponent == "" then mark == "" else IsMark(mark)
    ensures ExponentEnd(t, j) == |t|
  {
    var k := j + |mark|;
    assert forall x :: j <= x < |t| ==> t[x] == t[j..][x - j];
    assert forall x :: j <= x < k ==> t[x] == mark[x - j];
    assert forall x :: k <= x < |t| ==> t[x] == exponent[x - k];
    DigitsEndAt(t, k, |t|);
  }

  lemma ScanParts(t: string, head: string, point: string, fraction: string, mark: string, exponent: string)
    requires t == head + (point + (fraction + (mark + exponent)))
    requires AllDigits(fraction) && point == if fraction == "" then [] else ['.']
    requires AllDigits(exponent) && if exponent == "" then mark == "" else IsMark(mark)
    ensures FractionEnd(t, |head|) == |head| + |point| + |fraction| && ExponentEnd(t, FractionEnd(t, |head|)) == |t|
  {
    var tail := mark + exponent;
    var j := |head| + |point| + |fraction|;
    assert t[|head|..] == point + (fraction + tail);
    ScanFraction(t, |head|, point, fraction, tail);
    assert t[j..] == tail;
    ScanExponent(t, j, mark, exponent);
  }

  lemma ScanRest(n: Numeral)
    requires IsNumeral(n)
    ensures var t, i := NumeralText(n), |Sign(n)| + |n.whole|;
            FractionEnd(t, i) == i + |Point(n)| + |n.fraction| && ExponentEnd(t, FractionEnd(t, i)) == |t|
  {
    var head := Sign(n) + n.whole;
    Seqs.ConcatAssociative(Sign(n), n.whole, Point(n) + (n.fraction + (n.mark + n.exponent)));
    ScanParts(NumeralText(n), head, Point(n), n.fraction, n.mark, n.exponent);
  }

  lemma IntegerNumeral(n: Numeral)
    requires IsNumeral(n) && n.fraction == "" && n.exponent == ""
    requires ScanNumber(NumeralText(n)) == Some(Scanned(|NumeralText(n)|, |NumeralText(n)|))
    ensures Int(IntValue(NumeralText(n))) == NumeralValue(n)
  {
    var t := NumeralText(n);
    assert t == Sign(n) + n.whole;
    if n.minus {
      assert t[1..] == n.whole;
    } else {
      assert t == n.whole;
    }
  }

  /** The text of the parts is a number, and denotes their value. */
  lemma NumeralIsNumber(n: Numeral)
    requires IsNumeral(n)
    ensures IsNumber(NumeralValue(n), NumeralText(n))
  {
    var t := NumeralText(n);
    ScanWhole(n);
    ScanRest(n);
    assert |t| == |Sign(n)| + |n.whole| + |Point(n)| + |n.fraction| + |n.mark| + |n.exponent|;
    if n.fraction == "" && n.exponent == "" {
      IntegerNumeral(n);
    }
  }

  lemma ExponentParts(t: string, j: nat) returns (mark: string, exponent: string)
    requires j <= |t| && ExponentEnd(t, j) == |t|
    ensures t[j..] == mark + exponent && AllDigits(exponent)
    ensures if exponent == "" then mark == "" else IsMark(mark)
  {
    if j == |t| {
      mark, exponent := "", "";
    } else {
      var k := if j + 1 < |t| && (t[j + 1] == '+' || t[j + 1] == '-') then j + 2 else j + 1;
      DigitsEndStops(t, k);
      mark, exponent := t[j..k], t[k..];
      assert t[j..] == t[j..k] + t[k..];
    }
  }

  lemma FractionParts(t: string, i: nat) returns (point: string, fraction: string)
    requires i <= |t|
    ensures t[i..FractionEnd(t, i)] == point + fraction && AllDigits(fraction)
    ensures point == if fraction == "" then [] else ['.']
  {
    var j := FractionEnd(t, i);
    if j == i {
      point, fraction := [], [];
    } else {
      DigitsEndStops(t, i + 1);
      point, fraction := ['.'], t[i + 1..j];
      assert t[i..j] == [t[i]] + t[i + 1..j];
    }
  }

  lemma WholeParts(t: string, i: nat) returns (sign: string, whole: string)
    requires IntegerEnd(t) == Some(i)
    ensures t[..i] == sign + whole && (sign == "" || sign == "-") && whole != "" && AllDigits(whole)
    ensures whole[0] == '0' ==> |whole| == 1
  {
    var k := if t[0] == '-' then 1 else 0;
    DigitsEndStops(t, k + 1);
    sign, whole := t[..k], t[k..i];
    assert t[..i] == t[..k] + t[k..i];
  }

  lemma FiveParts(t: string, i: nat, j: nat, a: string, b: string, c: string, d: string, e: string, f: string)
    requires i <= j <= |t| && t[..i] == a + b && t[i..j] == c + d && t[j..] == e + f
    ensures t == a + (b + (c + (d + (e + f))))
  {
    assert t == t[..i] + (t[i..j] + t[j..]);
  }

  /** Every number has such parts. */
  lemma NumberHasParts(v: Json, text: string) returns (n: Numeral)
    requires IsNumber(v, text)
    ensures IsNumeral(n) && text == NumeralText(n) && v == NumeralValue(n)
  {
    var i := ScanNumber(text).value.integerEnd;
    var j := FractionEnd(text, i);
    var sign, whole := WholeParts(text, i);
    var point, fraction := FractionParts(text, i);
    var mark, exponent := ExponentParts(text, j);
    n := Numeral(sign == "-", whole, fraction, mark, exponent);
    FiveParts(text, i, j, sign, whole, point, fraction, mark, exponent);
    assert sign == Sign(n) && point == Point(n);
    NumeralIsNumber(n);
  }

  /** A text is a number exactly when it has these parts, and then denotes their value. */
  lemma NumberExactlyWhen(v: Json, text: string)
    ensures IsNumber(v, text) <==> exists n :: IsNumeral(n) && text == NumeralText(n) && v == NumeralValue(n)
  {
    if IsNumber(v, text) {
      var n := NumberHasParts(v, text);
    }
    if n :| IsNumeral(n) && text == NumeralText(n) && v == NumeralValue(n) {
      NumeralIsNumber(n);
    }
  }
}
