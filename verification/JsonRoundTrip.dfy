/** Parsing undoes printing, in every style; so a text determines the value that was printed. */
module JsonRoundTrip {
  import opened Outcomes
  import opened Numerals
  import opened PyText
  import opened Json
  import opened JsonText
  import opened JsonParser

  // ----- strings -----

  lemma ParseUnicode16(n: nat, rest: string)
    requires n < 0x10000
    ensures ParseHex4((Unicode16(n) + rest)[2..]) == Some(n)
    ensures (Unicode16(n) + rest)[6..] == rest
  {
    Hex4RoundTrip(n, rest);
    assert (Unicode16(n) + rest)[2..] == Hex4(n) + rest;
  }

  lemma ParseEscapedUnicode(c: char, rest: string)
    ensures ParseChar(EscapeUnicode(c) + rest) == Some((c, rest))
  {
    var n := c as int;
    var t := EscapeUnicode(c) + rest;
    if n < 0x10000 {
      ParseUnicode16(n, rest);
      assert t[2..][4..] == rest;
    } else {
      var high, low := 0xD800 + (n - 0x10000) / 0x400, 0xDC00 + (n - 0x10000) % 0x400;
      var tail := Unicode16(low) + rest;
      assert t == Unicode16(high) + tail;
      ParseUnicode16(high, tail);
      ParseUnicode16(low, rest);
      assert t[2..][4..] == tail;
      assert t[2..][6..] == tail[2..];
      assert t[2..][10..] == rest;
      assert t[2..][4] == tail[0] && t[2..][5] == tail[1];
    }
  }

  /** Reading an escaped character gives the character back. */
  lemma ParseEscaped(c: char, ensureAscii: bool, rest: string)
    ensures var t := Escape(c, ensureAscii) + rest;
            t[0] != '"' && ParseChar(t) == Some((c, rest))
  {
    var t := Escape(c, ensureAscii) + rest;
    if |Escape(c, ensureAscii)| == 1 {
      assert t[1..] == rest;
    } else if |Escape(c, ensureAscii)| == 2 {
      assert t[2..] == rest;
    } else {
      ParseEscapedUnicode(c, rest);
    }
  }

  lemma {:induction false} ParseEmittedChars(s: string, ensureAscii: bool, rest: string)
    ensures ParseString(EmitChars(s, ensureAscii, "\"" + rest)) == Some((s, rest))
  {
    if s == "" {
      assert ("\"" + rest)[1..] == rest;
    } else {
      var tail := EmitChars(s[1..], ensureAscii, "\"" + rest);
      ParseEscaped(s[0], ensureAscii, tail);
      ParseEmittedChars(s[1..], ensureAscii, rest);
      assert s == [s[0]] + s[1..];
    }
  }

  lemma ParseEmittedString(s: string, ensureAscii: bool, rest: string)
    ensures ParseString(EmitString(s, ensureAscii, rest)[1..]) == Some((s, rest))
  {
    ParseEmittedChars(s, ensureAscii, rest);
    assert EmitString(s, ensureAscii, rest)[1..] == EmitChars(s, ensureAscii, "\"" + rest);
  }

  // ----- layout -----

  lemma SkipSpaces(n: nat, t: string)
    requires t != "" && !IsBlank(t[0])
    ensures SkipBlanks(Spaces(n) + t) == t
  {
    if n == 0 {
      assert Spaces(0) + t == t;
    } else {
      SkipSpaces(n - 1, t);
      assert (Spaces(n) + t)[1..] == Spaces(n - 1) + t;
    }
  }

  /** The layout before a token is skipped. */
  lemma SkipGap(st: Style, depth: nat, t: string)
    requires t != "" && !IsBlank(t[0])
    ensures SkipBlanks(Gap(st, depth) + t) == t
  {
    if st.indented {
      SkipSpaces(2 * depth, t);
      assert (Gap(st, depth) + t)[1..] == Spaces(2 * depth) + t;
    } else {
      assert Gap(st, depth) + t == t;
    }
  }

  lemma SkipColon(st: Style, t: string)
    requires t != "" && !IsBlank(t[0])
    ensures var u := Colon(st) + t; u[0] == ':' && SkipBlanks(u) == u && SkipBlanks(u[1..]) == t
  {
    var u := Colon(st) + t;
    if st.indented {
      assert u[1..] == " " + t;
      assert u[1..][1..] == t;
    } else {
      assert u[1..] == t;
    }
  }

  /** The layout before a closing bracket is skipped and cannot continue a number. */
  lemma CloseBracket(bracket: string, st: Style, depth: nat, rest: string)
    requires bracket == "]" || bracket == "}"
    ensures var tail := Gap(st, depth) + (bracket + rest);
            EndsNumber(tail) && SkipBlanks(tail) == bracket + rest
  {
    SkipGap(st, depth, bracket + rest);
    if !st.indented {
      assert Gap(st, depth) + (bracket + rest) == bracket + rest;
    }
  }

  /** A text that starts neither with a blank nor with a bracket. */
  predicate StartsAtom(t: string) {
    t != "" && !IsBlank(t[0]) && t[0] !in "[]{}"
  }

  lemma AtomStart(v: Json)
    requires WellFormed(v) && !v.Str? && !v.Arr? && !v.Obj?
    ensures StartsAtom(AtomText(v))
  {
    match v {
      case Float(lexeme) => assert lexeme[0] == '-' || IsDigit(lexeme[0]);
      case Int(n) => assert IntText(n)[0] == '-' || IsDigit(IntText(n)[0]);
      case _ =>
    }
  }

  lemma StartsAtomThen(t: string, rest: string)
    requires StartsAtom(t)
    ensures StartsAtom(t + rest)
  {
    assert (t + rest)[0] == t[0];
  }

  lemma ScalarStart(v: Json, st: Style, depth: nat, rest: string)
    requires WellFormed(v) && !v.Arr? && !v.Obj?
    ensures StartsAtom(Emit(v, st, depth, rest))
  {
    if v.Str? {
      assert Emit(v, st, depth, rest)[0] == '"';
    } else {
      AtomStart(v);
      StartsAtomThen(AtomText(v), rest);
    }
  }

  /** A printed value starts neither with a blank nor with a closing bracket. */
  lemma EmitStart(v: Json, st: Style, depth: nat, rest: string)
    requires WellFormed(v)
    ensures var t := Emit(v, st, depth, rest); t != "" && !IsBlank(t[0]) && t[0] != ']'
  {
    match v {
      case Arr(_) => assert Emit(v, st, depth, rest)[0] == '[';
      case Obj(_) => assert Emit(v, st, depth, rest)[0] == '{';
      case _ => ScalarStart(v, st, depth, rest);
    }
  }

  // ----- numbers -----

  /** Reading a text that is all one number, whatever follows it. */
  lemma ParseScanned(s: string, rest: string)
    requires EndsNumber(rest) && ScanNumber(s).Some? && ScanNumber(s).value.end == |s|
    ensures ParseNumber(s + rest) ==
            Some((if ScanNumber(s).value.integerEnd == |s| then Int(IntValue(s)) else Float(s), rest))
  {
    ScanStable(s, rest);
    assert (s + rest)[..|s|] == s && (s + rest)[|s|..] == rest;
  }

  lemma NumberStart(s: string)
    requires ScanNumber(s).Some?
    ensures IsDigit(s[0]) || (s[0] == '-' && |s| > 1 && IsDigit(s[1]))
  {
  }

  lemma PrefixStart(p: string, t: string)
    ensures p != "" && p <= t ==> t != "" && t[0] == p[0]
    ensures |p| > 1 && p <= t ==> |t| > 1 && t[1] == p[1]
  {
  }

  lemma ParseEmittedNumber(v: Json, rest: string)
    requires WellFormed(v) && (v.Int? || v.Float?) && EndsNumber(rest)
    ensures ParseScalar(AtomText(v) + rest) == Some((v, rest))
  {
    var s := AtomText(v);
    if v.Int? {
      IntRoundTrip(v.n);
    }
    NumberStart(s);
    ParseScanned(s, rest);
  }

  lemma ParseEmittedLiteral(v: Json, rest: string)
    requires v.Null? || v.Bool? || v.NonFinite?
    ensures ParseLiteral(AtomText(v) + rest) == Some((v, rest))
  {
    var t := AtomText(v) + rest;
    PrefixStart("null", t);
    PrefixStart("true", t);
    PrefixStart("false", t);
    PrefixStart("NaN", t);
    PrefixStart("Infinity", t);
    assert t[|AtomText(v)|..] == rest;
    assert AtomText(v) <= t;
  }

  lemma LiteralStart(v: Json)
    requires v.Null? || v.Bool? || v.NonFinite?
    ensures var s := AtomText(v); |s| >= 2 && s[0] != '"' && !IsDigit(s[0]) && !IsDigit(s[1])
  {
  }

  lemma LiteralIsNoNumber(v: Json, rest: string)
    requires v.Null? || v.Bool? || v.NonFinite?
    ensures ParseScalar(AtomText(v) + rest) == ParseLiteral(AtomText(v) + rest)
  {
    var s := AtomText(v);
    LiteralStart(v);
    assert (s + rest)[0] == s[0] && (s + rest)[1] == s[1];
  }

  lemma ParseEmittedScalar(v: Json, st: Style, depth: nat, rest: string)
    requires WellFormed(v) && !v.Arr? && !v.Obj? && EndsNumber(rest)
    ensures ParseScalar(Emit(v, st, depth, rest)) == Some((v, rest))
  {
    if v.Str? {
      ParseEmittedString(v.s, st.ensureAscii, rest);
    } else if v.Int? || v.Float? {
      ParseEmittedNumber(v, rest);
    } else {
      ParseEmittedLiteral(v, rest);
      LiteralIsNoNumber(v, rest);
    }
  }

  // ----- values -----

  /** Reading a printed value gives the value and what was printed after it. */
  lemma {:induction false} ParseEmitted(v: Json, st: Style, depth: nat, rest: string)
    requires WellFormed(v) && EndsNumber(rest)
    ensures ParseValue(Emit(v, st, depth, rest)) == Some((v, rest))
    decreases v, 1
  {
    match v {
      case Arr(items) => ParseEmittedArray(items, st, depth, rest);
      case Obj(ms) => ParseEmittedObject(ms, st, depth, rest);
      case _ =>
        ParseEmittedScalar(v, st, depth, rest);
        ScalarStart(v, st, depth, rest);
    }
  }

  lemma BracketDispatch(t: string)
    requires t != ""
    ensures t[0] == '[' ==> ParseValue(t) == ParseArray(t[1..])
    ensures t[0] == '{' ==> ParseValue(t) == ParseObject(t[1..])
  {
  }

  lemma {:induction false} ParseEmittedArray(items: seq<Json>, st: Style, depth: nat, rest: string)
    requires WellFormed(Arr(items))
    ensures ParseValue(Emit(Arr(items), st, depth, rest)) == Some((Arr(items), rest))
    decreases items, 3
  {
    var t := Emit(Arr(items), st, depth, rest);
    BracketDispatch(t);
    if items == [] {
      assert t[1..] == "]" + rest;
      assert t[1..][1..] == rest;
    } else {
      var body := EmitItems(items, st, depth + 1, Gap(st, depth) + ("]" + rest));
      assert t[1..] == Gap(st, depth + 1) + body;
      EmitStart(items[0], st, depth + 1, AfterItem(items, st, depth + 1, Gap(st, depth) + ("]" + rest)));
      SkipGap(st, depth + 1, body);
      CloseBracket("]", st, depth, rest);
      ParseEmittedItems(items, st, depth + 1, Gap(st, depth) + ("]" + rest), rest);
    }
  }

  lemma ParseItemsStep(t: string, x: Json, after: string)
    requires ParseValue(t) == Some((x, after))
    ensures var u := SkipBlanks(after);
            && (u != "" && u[0] == ']' ==> ParseItems(t) == Some(([x], u[1..])))
            && (u != "" && u[0] == ',' ==>
                  var rest := ParseItems(SkipBlanks(u[1..]));
                  rest.Some? ==> ParseItems(t) == Some(([x] + rest.value.0, rest.value.1)))
  {
  }

  lemma CommaFirst(gap: string, more: string)
    ensures var u := "," + (gap + more); EndsNumber(u) && SkipBlanks(u) == u && u[1..] == gap + more
  {
  }

  /** An item, a comma and more items read as a longer list. */
  lemma ParseItemsMore(t: string, x: Json, st: Style, depth: nat, more: string, xs: seq<Json>, rest: string)
    requires ParseValue(t) == Some((x, "," + (Gap(st, depth) + more)))
    requires more != "" && !IsBlank(more[0]) && ParseItems(more) == Some((xs, rest))
    ensures ParseItems(t) == Some(([x] + xs, rest))
  {
    CommaFirst(Gap(st, depth), more);
    SkipGap(st, depth, more);
    ParseItemsStep(t, x, "," + (Gap(st, depth) + more));
  }

  lemma ParseItemsLast(t: string, x: Json, tail: string, rest: string)
    requires ParseValue(t) == Some((x, tail)) && SkipBlanks(tail) == "]" + rest
    ensures ParseItems(t) == Some(([x], rest))
  {
    ParseItemsStep(t, x, tail);
    assert ("]" + rest)[1..] == rest;
  }

  lemma {:induction false} ParseEmittedItems(items: seq<Json>, st: Style, depth: nat, tail: string, rest: string)
    requires items != [] && forall i :: 0 <= i < |items| ==> WellFormed(items[i])
    requires EndsNumber(tail) && SkipBlanks(tail) == "]" + rest
    ensures ParseItems(EmitItems(items, st, depth, tail)) == Some((items, rest))
    decreases items, 2
  {
    var t, after := EmitItems(items, st, depth, tail), AfterItem(items, st, depth, tail);
    if |items| == 1 {
      ParseEmitted(items[0], st, depth, after);
      ParseItemsLast(t, items[0], tail, rest);
      assert items == [items[0]];
    } else {
      var more := EmitItems(items[1..], st, depth, tail);
      CommaFirst(Gap(st, depth), more);
      ParseEmitted(items[0], st, depth, after);
      EmitStart(items[1], st, depth, AfterItem(items[1..], st, depth, tail));
      ParseEmittedItems(items[1..], st, depth, tail, rest);
      ParseItemsMore(t, items[0], st, depth, more, items[1..], rest);
      assert items == [items[0]] + items[1..];
    }
  }

  lemma {:induction false} ParseEmittedObject(ms: Dict, st: Style, depth: nat, rest: string)
    requires WellFormed(Obj(ms))
    ensures ParseValue(Emit(Obj(ms), st, depth, rest)) == Some((Obj(ms), rest))
    decreases ms, 3
  {
    var t := Emit(Obj(ms), st, depth, rest);
    BracketDispatch(t);
    if ms == [] {
      assert t[1..] == "}" + rest;
      assert t[1..][1..] == rest;
    } else {
      var body := EmitMembers(ms, st, depth + 1, Gap(st, depth) + ("}" + rest));
      assert t[1..] == Gap(st, depth + 1) + body;
      SkipGap(st, depth + 1, body);
      assert ms[0..] == ms && ms[..0] == [];
      CloseBracket("}", st, depth, rest);
      ParseEmittedMembers(ms, 0, st, depth + 1, Gap(st, depth) + ("}" + rest), rest);
      assert ParseObject(t[1..]) == Some((Obj(ms), rest));
    }
  }

  lemma {:induction false} ParseEmittedMember(m: Member, st: Style, depth: nat, after: string)
    requires WellFormed(m.val) && EndsNumber(after)
    ensures ParseMember(EmitString(m.key, st.ensureAscii, Colon(st) + Emit(m.val, st, depth, after))) ==
            Some((m, after))
    decreases m, 2
  {
    var val := Emit(m.val, st, depth, after);
    ParseEmittedString(m.key, st.ensureAscii, Colon(st) + val);
    EmitStart(m.val, st, depth, after);
    SkipColon(st, val);
    ParseEmitted(m.val, st, depth, after);
  }

  lemma SetFresh(ms: Dict, k: string, v: Json)
    requires forall i :: 0 <= i < |ms| ==> ms[i].key != k
    ensures Set(ms, k, v) == ms + [Member(k, v)]
  {
  }

  lemma ParseMembersStep(t: string, acc: Dict, m: Member, after: string)
    requires ParseMember(t) == Some((m, after))
    ensures var u := SkipBlanks(after);
            var ms := Set(acc, m.key, m.val);
            && (u != "" && u[0] == '}' ==> ParseMembers(t, acc) == Some((ms, u[1..])))
            && (u != "" && u[0] == ',' ==> ParseMembers(t, acc) == ParseMembers(SkipBlanks(u[1..]), ms))
  {
  }

  /** With the first `n` members read, reading on completes the dict. */
  lemma {:induction false} ParseEmittedMembers(ms: Dict, n: nat, st: Style, depth: nat, tail: string, rest: string)
    requires n < |ms| && WellFormedDict(ms)
    requires EndsNumber(tail) && SkipBlanks(tail) == "}" + rest
    ensures ParseMembers(EmitMembers(ms[n..], st, depth, tail), ms[..n]) == Some((ms, rest))
    decreases ms, 2, |ms| - n
  {
    var m := ms[n];
    var t, after := EmitMembers(ms[n..], st, depth, tail), AfterMember(ms[n..], st, depth, tail);
    SetFresh(ms[..n], m.key, m.val);
    assert ms[..n] + [m] == ms[..n + 1];
    if n + 1 == |ms| {
      ParseEmittedMember(m, st, depth, after);
      ParseMembersStep(t, ms[..n], m, after);
      assert ("}" + rest)[1..] == rest;
      assert ms[..n + 1] == ms;
    } else {
      assert ms[n..][1..] == ms[n + 1..];
      var more := EmitMembers(ms[n + 1..], st, depth, tail);
      CommaFirst(Gap(st, depth), more);
      ParseEmittedMember(m, st, depth, after);
      ParseMembersStep(t, ms[..n], m, after);
      SkipGap(st, depth, more);
      ParseEmittedMembers(ms, n + 1, st, depth, tail, rest);
    }
  }

  // ----- what a text determines -----

  /** Parsing a sorted-key text, in any style, gives the value with its keys sorted. */
  lemma ParsePrinted(v: Json, st: Style)
    requires WellFormed(v)
    ensures Parse(SortedText(v, st)) == Some(SortKeys(v))
  {
    SortKeysWellFormed(v);
    EmitStart(SortKeys(v), st, 0, "");
    ParseEmitted(SortKeys(v), st, 0, "");
  }

  /** In every style: one text for two values exactly when they are equal, dicts as mappings. */
  lemma TextDeterminesValue(a: Json, b: Json, st: Style)
    requires WellFormed(a) && WellFormed(b)
    ensures SortedText(a, st) == SortedText(b, st) <==> Same(a, b)
  {
    ParsePrinted(a, st);
    ParsePrinted(b, st);
    SortKeysDecidesSame(a, b);
  }
}
