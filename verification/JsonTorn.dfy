/**
 Texts that end in a whole JSON object which something else stands before: none of them is a JSON text. What
 the parser makes of such a text is followed token by token up to where the object begins.
 */
module JsonTorn {
  import opened Outcomes
  import opened Numerals
  import opened PyText
  import opened Json
  import opened JsonParser

  /** `t` is some text and then `l`. */
  predicate EndsIn(t: string, l: string) {
    |l| <= |t| && t[|t| - |l|..] == l
  }

  /** Where `l` begins in a text that ends in it. */
  function Joint(t: string, l: string): (p: nat)
    requires EndsIn(t, l)
    ensures p + |l| == |t|
  {
    |t| - |l|
  }

  /** The text of an object, all of it, whose first key begins with a character that can follow no value. */
  predicate IsObjectText(l: string) {
    && |l| >= 3 && l[0] == '{' && l[1] == '"'
    && !IsBlank(l[2]) && l[2] !in ",:]}"
    && ParseValue(l).Some? && ParseValue(l).value.1 == ""
  }

  lemma JointChar(t: string, l: string)
    requires EndsIn(t, l) && l != ""
    ensures t[Joint(t, l)] == l[0]
  {
    assert t[Joint(t, l)..][0] == l[0];
  }

  lemma DropBeforeJoint(t: string, k: nat, l: string)
    requires EndsIn(t, l) && k <= Joint(t, l)
    ensures EndsIn(t[k..], l)
  {
  }

  /** Past its first character, unless that is where `l` begins. */
  lemma DropFirst(t: string, l: string)
    requires EndsIn(t, l) && IsObjectText(l) && t[0] != '{'
    ensures EndsIn(t[1..], l)
  {
    JointChar(t, l);
    DropBeforeJoint(t, 1, l);
  }

  lemma {:induction false} SkipBlanksThrough(t: string, l: string)
    requires EndsIn(t, l) && IsObjectText(l)
    ensures EndsIn(SkipBlanks(t), l)
    decreases |t|
  {
    if IsBlank(t[0]) {
      DropFirst(t, l);
      SkipBlanksThrough(t[1..], l);
    }
  }

  /** After a string closed by the first quote of `l` nothing can go on. */
  predicate IsStuck(rest: string, l: string)
    requires |l| >= 2
  {
    rest == l[2..]
  }

  lemma StuckStays(rest: string, l: string)
    requires IsObjectText(l) && IsStuck(rest, l)
    ensures SkipBlanks(rest) == rest && rest != "" && rest[0] !in ",:]}"
  {
    assert rest[0] == l[2];
  }

  // ----- strings -----

  lemma Hex4Through(t: string, l: string)
    requires EndsIn(t, l) && IsObjectText(l) && ParseHex4(t).Some?
    ensures Joint(t, l) >= 4
  {
    JointChar(t, l);
    assert HexValue('{') == None;
  }

  lemma UnicodeThrough(t: string, l: string)
    requires EndsIn(t, l) && IsObjectText(l) && ParseUnicode(t).Some?
    ensures EndsIn(ParseUnicode(t).value.1, l)
  {
    JointChar(t, l);
    Hex4Through(t, l);
    var n := ParseHex4(t).value;
    if 0xD800 <= n < 0xDC00 {
      assert Joint(t, l) >= 6;
      DropBeforeJoint(t, 6, l);
      Hex4Through(t[6..], l);
      DropBeforeJoint(t, 10, l);
    } else {
      DropBeforeJoint(t, 4, l);
    }
  }

  lemma EscapeThrough(t: string, l: string)
    requires EndsIn(t, l) && IsObjectText(l) && t[0] == '\\' && ParseEscape(t).Some?
    ensures EndsIn(ParseEscape(t).value.1, l)
  {
    JointChar(t, l);
    assert t[1] != '{';
    DropBeforeJoint(t, 2, l);
    if t[1] == 'u' {
      UnicodeThrough(t[2..], l);
    } else {
      EscapeTakesTwo(t);
    }
  }

  lemma EscapeTakesTwo(t: string)
    requires |t| >= 2 && t[0] == '\\' && t[1] != 'u' && ParseEscape(t).Some?
    ensures ParseEscape(t).value.1 == t[2..]
  {
  }

  /** One character of a string is read before the joint, or not at all. */
  lemma CharThrough(t: string, l: string)
    requires EndsIn(t, l) && IsObjectText(l) && t != l && ParseChar(t).Some?
    ensures EndsIn(ParseChar(t).value.1, l)
  {
    if t[0] == '\\' {
      EscapeThrough(t, l);
    } else {
      assert Joint(t, l) > 0;
      DropBeforeJoint(t, 1, l);
    }
  }

  /** A string ends before the joint, or at the first quote of `l`. */
  lemma {:induction false} StringThrough(t: string, l: string)
    requires EndsIn(t, l) && IsObjectText(l)
    ensures match ParseString(t)
            case None => true
            case Some((_, rest)) => EndsIn(rest, l) || IsStuck(rest, l)
    decreases |t|
  {
    if t == l {
      assert ParseChar(l) == Some(('{', l[1..]));
      assert ParseString(l[1..]) == Some(("", l[1..][1..]));
      assert l[1..][1..] == l[2..];
    } else if t[0] == '"' {
      DropFirst(t, l);
    } else if ParseChar(t).Some? {
      CharThrough(t, l);
      StringThrough(ParseChar(t).value.1, l);
    }
  }

  // ----- literals and numbers -----

  lemma DigitsBefore(t: string, i: nat, p: nat)
    requires i <= p < |t| && t[p] == '{'
    ensures DigitsEnd(t, i) <= p
    decreases |t| - i
  {
  }

  lemma NumberBefore(t: string, p: nat)
    requires p < |t| && t[p] == '{' && ScanNumber(t).Some?
    ensures ScanNumber(t).value.integerEnd <= ScanNumber(t).value.end <= p
  {
    var sign := if t[0] == '-' then 1 else 0;
    assert sign < p;
    DigitsBefore(t, sign + 1, p);
    var i := IntegerEnd(t).value;
    if i + 1 < |t| && t[i] == '.' && IsDigit(t[i + 1]) {
      DigitsBefore(t, i + 1, p);
    }
    var k := FractionEnd(t, i);
    if k < |t| && (t[k] == 'e' || t[k] == 'E') {
      var m := if k + 1 < |t| && (t[k + 1] == '+' || t[k + 1] == '-') then k + 2 else k + 1;
      if m < |t| && IsDigit(t[m]) {
        DigitsBefore(t, m, p);
      }
    }
  }

  lemma NumberThrough(t: string, l: string)
    requires EndsIn(t, l) && IsObjectText(l) && ParseNumber(t).Some?
    ensures EndsIn(ParseNumber(t).value.1, l)
  {
    JointChar(t, l);
    NumberBefore(t, Joint(t, l));
    DropBeforeJoint(t, ScanNumber(t).value.integerEnd, l);
    DropBeforeJoint(t, ScanNumber(t).value.end, l);
  }

  lemma WordThrough(word: string, t: string, l: string)
    requires EndsIn(t, l) && IsObjectText(l) && word <= t && '{' !in word
    ensures EndsIn(t[|word|..], l)
  {
    JointChar(t, l);
    assert forall i :: 0 <= i < |word| ==> word[i] == t[i];
    DropBeforeJoint(t, |word|, l);
  }

  /** A literal is one of six words, none of which holds a brace. */
  lemma LiteralIsWord(t: string) returns (word: string)
    requires ParseLiteral(t).Some?
    ensures word <= t && '{' !in word && ParseLiteral(t).value.1 == t[|word|..]
  {
    if "null" <= t {
      word := "null";
    } else if "true" <= t {
      word := "true";
    } else if "false" <= t {
      word := "false";
    } else if "NaN" <= t {
      word := "NaN";
    } else if "Infinity" <= t {
      word := "Infinity";
    } else {
      word := "-Infinity";
    }
  }

  lemma LiteralThrough(t: string, l: string)
    requires EndsIn(t, l) && IsObjectText(l) && ParseLiteral(t).Some?
    ensures EndsIn(ParseLiteral(t).value.1, l)
  {
    var word := LiteralIsWord(t);
    WordThrough(word, t, l);
  }

  lemma ScalarThrough(t: string, l: string)
    requires EndsIn(t, l) && IsObjectText(l) && ParseScalar(t).Some?
    ensures var rest := ParseScalar(t).value.1; EndsIn(rest, l) || IsStuck(rest, l)
  {
    if t[0] == '"' {
      DropFirst(t, l);
      StringThrough(t[1..], l);
    } else if StartsNumber(t) {
      NumberThrough(t, l);
    } else {
      LiteralThrough(t, l);
    }
  }

  // ----- values -----

  /**
   A value is read before the joint, or is a string closed by the first quote of `l`, or is `l` itself, after
   which there is nothing left for what would have to close around it.
   */
  lemma {:induction false} ValueThrough(t: string, l: string)
    requires EndsIn(t, l) && IsObjectText(l) && ParseValue(t).Some?
    ensures var rest := ParseValue(t).value.1; EndsIn(rest, l) || IsStuck(rest, l) || (t == l && rest == "")
    decreases |t|, 0
  {
    if t != l {
      assert Joint(t, l) == 0 ==> t == l;
      DropBeforeJoint(t, 1, l);
      if t[0] == '[' {
        ArrayThrough(t[1..], l);
      } else if t[0] == '{' {
        ObjectThrough(t[1..], l);
      } else {
        ScalarThrough(t, l);
      }
    }
  }

  lemma {:induction false} ArrayThrough(t: string, l: string)
    requires EndsIn(t, l) && IsObjectText(l) && ParseArray(t).Some?
    ensures EndsIn(ParseArray(t).value.1, l)
    decreases |t|, 2
  {
    var u := SkipBlanks(t);
    SkipBlanksThrough(t, l);
    if u[0] == ']' {
      DropFirst(u, l);
    } else {
      ItemsThrough(u, l);
    }
  }

  /** An array whose items reach the joint is never closed. */
  lemma {:induction false} ItemsThrough(t: string, l: string)
    requires EndsIn(t, l) && IsObjectText(l) && ParseItems(t).Some?
    ensures EndsIn(ParseItems(t).value.1, l)
    decreases |t|, 1
  {
    ValueThrough(t, l);
    var rest := ParseValue(t).value.1;
    var u := SkipBlanks(rest);
    NextToken(rest, l);
    DropFirst(u, l);
    if u[0] == ',' {
      SkipBlanksThrough(u[1..], l);
      ItemsThrough(SkipBlanks(u[1..]), l);
    }
  }

  /** A separator or closing bracket after a value stands before the joint. */
  lemma NextToken(rest: string, l: string)
    requires IsObjectText(l) && (EndsIn(rest, l) || IsStuck(rest, l) || rest == "")
    requires SkipBlanks(rest) != "" && SkipBlanks(rest)[0] in ",:]}"
    ensures EndsIn(SkipBlanks(rest), l)
  {
    if EndsIn(rest, l) {
      SkipBlanksThrough(rest, l);
    } else if IsStuck(rest, l) {
      StuckStays(rest, l);
    }
  }

  lemma {:induction false} ObjectThrough(t: string, l: string)
    requires EndsIn(t, l) && IsObjectText(l) && ParseObject(t).Some?
    ensures EndsIn(ParseObject(t).value.1, l)
    decreases |t|, 2
  {
    var u := SkipBlanks(t);
    SkipBlanksThrough(t, l);
    if u[0] == '}' {
      DropFirst(u, l);
    } else {
      MembersThrough(u, [], l);
    }
  }

  lemma {:induction false} MemberThrough(t: string, l: string)
    requires EndsIn(t, l) && IsObjectText(l) && ParseMember(t).Some?
    ensures var rest := ParseMember(t).value.1; EndsIn(rest, l) || IsStuck(rest, l) || rest == ""
    decreases |t|, 0
  {
    DropFirst(t, l);
    StringThrough(t[1..], l);
    var rest := ParseString(t[1..]).value.1;
    var u := SkipBlanks(rest);
    NextToken(rest, l);
    DropFirst(u, l);
    SkipBlanksThrough(u[1..], l);
    ValueThrough(SkipBlanks(u[1..]), l);
  }

  /** A dict whose members reach the joint is never closed. */
  lemma {:induction false} MembersThrough(t: string, acc: Dict, l: string)
    requires EndsIn(t, l) && IsObjectText(l) && ParseMembers(t, acc).Some?
    ensures EndsIn(ParseMembers(t, acc).value.1, l)
    decreases |t|, 1
  {
    MemberThrough(t, l);
    var (m, rest) := ParseMember(t).value;
    var u := SkipBlanks(rest);
    NextToken(rest, l);
    DropFirst(u, l);
    if u[0] == ',' {
      SkipBlanksThrough(u[1..], l);
      MembersThrough(SkipBlanks(u[1..]), Set(acc, m.key, m.val), l);
    }
  }

  // ----- whole texts -----

  /** A text that ends in a whole object is a JSON text exactly when only blanks stand before the object. */
  lemma ObjectAtTheEnd(text: string, l: string)
    requires EndsIn(text, l) && IsObjectText(l)
    ensures Parse(text) == if SkipBlanks(text) == l then Some(ParseValue(l).value.0) else None
  {
    var u := SkipBlanks(text);
    SkipBlanksThrough(text, l);
    if u != l && ParseValue(u).Some? {
      ValueThrough(u, l);
      var rest := ParseValue(u).value.1;
      if EndsIn(rest, l) {
        SkipBlanksThrough(rest, l);
      } else {
        StuckStays(rest, l);
      }
    }
  }
}
