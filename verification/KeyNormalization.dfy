/**
 Key normalization. `SnakeKey` is `normalized_key` of the provisioning and external-security families,
 `FlatKey` is `_normalized_key` of the outcome and effect families, both on ASCII keys; the external family
 refuses every other key before it normalizes. The loops themselves are proved for every key, with the
 character classes of Unicode as a parameter.
 */
module KeyNormalization {
  import opened Numerals
  import opened PyText
  import opened Seqs

  predicate IsAsciiText(s: string) {
    forall i :: 0 <= i < |s| ==> s[i] as int < 128
  }

  predicate IsUpper(c: char) {
    'A' <= c <= 'Z'
  }

  predicate IsLower(c: char) {
    'a' <= c <= 'z'
  }

  predicate IsAlnum(c: char) {
    IsUpper(c) || IsLower(c) || IsDigit(c)
  }

  function Lower(c: char): char {
    if IsUpper(c) then (c as int + 32) as char else c
  }

  function Folded(c: char): char {
    if IsAlnum(c) then Lower(c) else '_'
  }

  // ----- the character loop -----

  /** What one character contributes after a lower-case letter or digit, or after anything else. */
  function SnakePart(c: char, afterLower: bool): string {
    if IsUpper(c) && afterLower then ['_', Folded(c)] else [Folded(c)]
  }

  function EndsLower(s: string): bool {
    s != "" && (IsLower(s[|s| - 1]) || IsDigit(s[|s| - 1]))
  }

  /** The joined parts of the camel-case splitting loop. */
  function SnakeParts(s: string): string {
    if s == "" then ""
    else SnakeParts(s[..|s| - 1]) + SnakePart(s[|s| - 1], EndsLower(s[..|s| - 1]))
  }

  /** The joined parts of the loop that only folds separators. */
  function FlatParts(s: string): (r: string)
    ensures |r| == |s|
    ensures forall i :: 0 <= i < |s| ==> r[i] == Folded(s[i])
  {
    seq(|s|, i requires 0 <= i < |s| => Folded(s[i]))
  }

  // ----- runs of underscores -----

  /** `"__" in s`. */
  predicate HasDouble(s: string) {
    exists i :: 0 <= i < |s| - 1 && s[i] == '_' && s[i + 1] == '_'
  }

  /** `s.replace("__", "_")`: left to right, without overlap. */
  function ReplaceDouble(s: string): string {
    if |s| < 2 then s
    else if s[0] == '_' && s[1] == '_' then "_" + ReplaceDouble(s[2..])
    else [s[0]] + ReplaceDouble(s[1..])
  }

  /** Every maximal run of underscores reduced to one. */
  function Collapse(s: string): string {
    if |s| < 2 then s
    else if s[0] == '_' && s[1] == '_' then Collapse(s[1..])
    else [s[0]] + Collapse(s[1..])
  }

  lemma DoubleTail(s: string)
    requires s != ""
    ensures HasDouble(s) <==> (|s| > 1 && s[0] == '_' && s[1] == '_') || HasDouble(s[1..])
  {
    if HasDouble(s) {
      var i :| 0 <= i < |s| - 1 && s[i] == '_' && s[i + 1] == '_';
      if i > 0 {
        assert s[1..][i - 1] == '_' && s[1..][i - 1 + 1] == '_';
      }
    }
    if HasDouble(s[1..]) {
      var i :| 0 <= i < |s[1..]| - 1 && s[1..][i] == '_' && s[1..][i + 1] == '_';
      assert s[i + 1] == '_' && s[i + 1 + 1] == '_';
    }
  }

  lemma {:induction false} ReplaceKeepsCollapse(s: string)
    ensures Collapse(ReplaceDouble(s)) == Collapse(s)
    ensures ReplaceDouble(s) != "" <==> s != ""
    ensures s != "" ==> ReplaceDouble(s)[0] == s[0]
    decreases |s|
  {
    if |s| >= 2 {
      if s[0] == '_' && s[1] == '_' {
        ReplaceKeepsCollapse(s[2..]);
        CollapseAfterUnderscore(ReplaceDouble(s[2..]));
        CollapseAfterUnderscore(s[2..]);
        assert s[1..] == "_" + s[2..];
      } else {
        ReplaceKeepsCollapse(s[1..]);
        assert ([s[0]] + ReplaceDouble(s[1..]))[1..] == ReplaceDouble(s[1..]);
      }
    }
  }

  /** Collapsing behind an underscore: a following underscore is absorbed. */
  lemma CollapseAfterUnderscore(t: string)
    ensures Collapse("_" + t) == if t != "" && t[0] == '_' then Collapse(t) else "_" + Collapse(t)
  {
    assert ("_" + t)[1..] == t;
  }

  lemma {:induction false} CollapseOfClean(s: string)
    requires !HasDouble(s)
    ensures Collapse(s) == s
  {
    if |s| >= 2 {
      DoubleTail(s);
      CollapseOfClean(s[1..]);
      assert s == [s[0]] + s[1..];
    }
  }

  lemma {:induction false} CollapseIsClean(s: string)
    ensures !HasDouble(Collapse(s))
    ensures Collapse(s) != "" <==> s != ""
    ensures s != "" ==> Collapse(s)[0] == s[0]
  {
    if |s| >= 2 {
      CollapseIsClean(s[1..]);
      if !(s[0] == '_' && s[1] == '_') {
        var r := [s[0]] + Collapse(s[1..]);
        DoubleTail(r);
        assert r[1..] == Collapse(s[1..]);
      }
    }
  }

  lemma {:induction false} ReplaceShortens(s: string)
    ensures |ReplaceDouble(s)| <= |s|
    ensures HasDouble(s) ==> |ReplaceDouble(s)| < |s|
    decreases |s|
  {
    if |s| >= 2 {
      DoubleTail(s);
      ReplaceShortens(s[1..]);
      ReplaceShortens(s[2..]);
    }
  }

  // ----- how many passes -----

  function LeadingRun(s: string): nat {
    if s == "" || s[0] != '_' then 0 else 1 + LeadingRun(s[1..])
  }

  function Max(a: nat, b: nat): nat {
    if a < b then b else a
  }

  /** The length of the longest run of underscores. */
  function LongestRun(s: string): nat {
    if s == "" then 0 else Max(LeadingRun(s), LongestRun(s[1..]))
  }

  /** Some run is as long as the longest, and none is longer. */
  lemma {:induction false} LongestRunIsARun(s: string)
    ensures forall i :: 0 <= i <= |s| ==> LeadingRun(s[i..]) <= LongestRun(s)
    ensures exists i :: 0 <= i <= |s| && LeadingRun(s[i..]) == LongestRun(s)
  {
    assert s[0..] == s;
    if s != "" {
      LongestRunIsARun(s[1..]);
      forall i | 0 < i <= |s| ensures s[i..] == s[1..][i - 1..] {
      }
      var j :| 0 <= j <= |s[1..]| && LeadingRun(s[1..][j..]) == LongestRun(s[1..]);
      assert s[j + 1..] == s[1..][j..];
    }
  }

  lemma {:induction false} DoubleIsLongRun(s: string)
    ensures HasDouble(s) <==> LongestRun(s) >= 2
    ensures LeadingRun(s) <= LongestRun(s)
  {
    if s != "" {
      DoubleTail(s);
      DoubleIsLongRun(s[1..]);
    }
  }

  lemma RunsOfPair(s: string)
    requires |s| >= 2 && s[0] == '_' && s[1] == '_'
    ensures LeadingRun(s) == 2 + LeadingRun(s[2..])
    ensures LongestRun(s) == Max(LeadingRun(s), LongestRun(s[2..]))
  {
    assert s[1..][1..] == s[2..];
  }

  lemma RunsOfCons(c: char, t: string)
    ensures LeadingRun([c] + t) == if c == '_' then 1 + LeadingRun(t) else 0
    ensures LongestRun([c] + t) == Max(LeadingRun([c] + t), LongestRun(t))
  {
    assert ([c] + t)[1..] == t;
  }

  /** One pass halves the longest run, rounding up. */
  lemma {:induction false} ReplaceHalvesRuns(s: string)
    ensures LeadingRun(ReplaceDouble(s)) == (LeadingRun(s) + 1) / 2
    ensures LongestRun(ReplaceDouble(s)) == (LongestRun(s) + 1) / 2
    decreases |s|
  {
    if |s| < 2 {
    } else if s[0] == '_' && s[1] == '_' {
      ReplaceHalvesRuns(s[2..]);
      RunsOfPair(s);
      assert ReplaceDouble(s) == ['_'] + ReplaceDouble(s[2..]);
      RunsOfCons('_', ReplaceDouble(s[2..]));
    } else {
      ReplaceHalvesRuns(s[1..]);
      assert s == [s[0]] + s[1..];
      RunsOfCons(s[0], s[1..]);
      assert ReplaceDouble(s) == [s[0]] + ReplaceDouble(s[1..]);
      RunsOfCons(s[0], ReplaceDouble(s[1..]));
    }
  }

  function Pow2(k: nat): nat {
    if k == 0 then 1 else 2 * Pow2(k - 1)
  }

  /** Rounds of halving, rounding up, until at most one is left. */
  function Halvings(n: nat): nat {
    if n <= 1 then 0 else 1 + Halvings((n + 1) / 2)
  }

  /** `Halvings(n)` is the ceiling of the base-two logarithm of `n`. */
  lemma {:induction false} HalvingsIsCeilLog2(n: nat, k: nat)
    ensures Halvings(n) <= k <==> n <= Pow2(k)
    decreases n
  {
    if n <= 1 {
      PowPositive(k);
    } else if k > 0 {
      HalvingsIsCeilLog2((n + 1) / 2, k - 1);
    }
  }

  lemma PowPositive(k: nat)
    ensures Pow2(k) >= 1
  {
  }

  /** The `while "__" in s` loop, counting its passes. */
  method CollapseLoop(s: string) returns (r: string, passes: nat)
    ensures r == Collapse(s) && !HasDouble(r)
    ensures passes == Halvings(LongestRun(s))
  {
    r := s;
    passes := 0;
    while HasDouble(r)
      invariant Collapse(r) == Collapse(s)
      invariant passes + Halvings(LongestRun(r)) == Halvings(LongestRun(s))
      decreases |r|
    {
      ReplaceKeepsCollapse(r);
      ReplaceShortens(r);
      DoubleIsLongRun(r);
      ReplaceHalvesRuns(r);
      r := ReplaceDouble(r);
      passes := passes + 1;
    }
    CollapseOfClean(r);
    DoubleIsLongRun(r);
  }

  // ----- the normal forms -----

  function LTrim(s: string): string {
    if s != "" && s[0] == '_' then LTrim(s[1..]) else s
  }

  function RTrim(s: string): string {
    if s != "" && s[|s| - 1] == '_' then RTrim(s[..|s| - 1]) else s
  }

  /** `s.strip("_")`. */
  function Trim(s: string): string {
    RTrim(LTrim(s))
  }

  function SnakeKey(raw: string): string {
    Trim(Collapse(SnakeParts(Strip(raw))))
  }

  function FlatKey(raw: string): string {
    Trim(Collapse(FlatParts(Strip(raw))))
  }

  // ----- keys of any characters -----

  /** `str.isupper`, `islower`, `isdigit` and `isalnum` of one character, and its `lower()`, which may be longer. */
  datatype CharClasses = CharClasses(
    isUpper: char -> bool,
    isLower: char -> bool,
    isDigit: char -> bool,
    isAlnum: char -> bool,
    lower: char -> string)

  /** The classes are those of ASCII on ASCII characters. */
  ghost predicate ExtendsAscii(u: CharClasses) {
    forall c: char :: c as int < 128 ==>
      && u.isUpper(c) == IsUpper(c) && u.isLower(c) == IsLower(c) && u.isDigit(c) == IsDigit(c)
      && u.isAlnum(c) == IsAlnum(c) && u.lower(c) == [Lower(c)]
  }

  function FoldedIn(u: CharClasses, c: char): string {
    if u.isAlnum(c) then u.lower(c) else "_"
  }

  function EndsLowerIn(u: CharClasses, s: string): bool {
    s != "" && (u.isLower(s[|s| - 1]) || u.isDigit(s[|s| - 1]))
  }

  function SnakePartsIn(u: CharClasses, s: string): string {
    if s == "" then ""
    else
      var front, c := s[..|s| - 1], s[|s| - 1];
      SnakePartsIn(u, front) + (if u.isUpper(c) && EndsLowerIn(u, front) then "_" else "") + FoldedIn(u, c)
  }

  function FlatPartsIn(u: CharClasses, s: string): string {
    if s == "" then "" else FlatPartsIn(u, s[..|s| - 1]) + FoldedIn(u, s[|s| - 1])
  }

  function SnakeKeyIn(u: CharClasses, raw: string): string {
    Trim(Collapse(SnakePartsIn(u, Strip(raw))))
  }

  function FlatKeyIn(u: CharClasses, raw: string): string {
    Trim(Collapse(FlatPartsIn(u, Strip(raw))))
  }

  /** No underscore at either end and no two in a row. */
  predicate SingleInner(key: string) {
    !HasDouble(key) && (key != "" ==> key[0] != '_' && key[|key| - 1] != '_')
  }

  lemma PartsOfOneMore(u: CharClasses, s: string, c: char)
    ensures var p := SnakePartsIn(u, s);
            SnakePartsIn(u, s + [c]) ==
            (if u.isUpper(c) && EndsLowerIn(u, s) then p + "_" else p) + FoldedIn(u, c)
    ensures EndsLowerIn(u, s + [c]) == (u.isLower(c) || u.isDigit(c))
  {
    assert (s + [c])[..|s|] == s;
    assert SnakePartsIn(u, s) + "" == SnakePartsIn(u, s);
  }

  /** The character loop. */
  method JoinParts(u: CharClasses, text: string) returns (parts: string)
    ensures parts == SnakePartsIn(u, text)
  {
    parts := "";
    var previousIsLowerOrDigit := false;
    for i := 0 to |text|
      invariant parts == SnakePartsIn(u, text[..i])
      invariant previousIsLowerOrDigit == EndsLowerIn(u, text[..i])
    {
      assert text[..i + 1] == text[..i] + [text[i]];
      var c := text[i];
      PartsOfOneMore(u, text[..i], c);
      if u.isUpper(c) && previousIsLowerOrDigit {
        parts := parts + "_";
      }
      parts := parts + FoldedIn(u, c);
      previousIsLowerOrDigit := u.isLower(c) || u.isDigit(c);
    }
    assert text[..|text|] == text;
  }

  /** `normalized_key` of the provisioning and external-security families. */
  method NormalizedKey(u: CharClasses, raw: string) returns (key: string)
    ensures key == SnakeKeyIn(u, raw)
    ensures SingleInner(key)
  {
    var parts := JoinParts(u, Strip(raw));
    var normalized, passes := CollapseLoop(parts);
    key := Trim(normalized);
    TrimmedIsSingleInner(normalized);
  }

  /** `_normalized_key` of the outcome and effect families. */
  method FlatNormalizedKey(u: CharClasses, raw: string) returns (key: string)
    ensures key == FlatKeyIn(u, raw)
    ensures SingleInner(key)
  {
    var normalized, passes := CollapseLoop(FlatPartsIn(u, Strip(raw)));
    key := Trim(normalized);
    TrimmedIsSingleInner(normalized);
  }

  lemma AsciiPart(u: CharClasses, front: string, c: char)
    requires ExtendsAscii(u) && IsAsciiText(front) && c as int < 128
    ensures FoldedIn(u, c) == [Folded(c)] && u.isUpper(c) == IsUpper(c) && EndsLowerIn(u, front) == EndsLower(front)
  {
  }

  lemma {:induction false} PartsOfAscii(u: CharClasses, s: string)
    requires ExtendsAscii(u) && IsAsciiText(s)
    ensures SnakePartsIn(u, s) == SnakeParts(s) && FlatPartsIn(u, s) == FlatParts(s)
  {
    if s == "" {
      assert FlatParts(s) == "";
    } else {
      var front, c := s[..|s| - 1], s[|s| - 1];
      PartsOfAscii(u, front);
      assert FlatParts(s) == FlatParts(front) + [Folded(c)];
      AsciiPart(u, front, c);
      if u.isUpper(c) && EndsLowerIn(u, front) {
        assert SnakeParts(front) + "_" + [Folded(c)] == SnakeParts(front) + ['_', Folded(c)];
      } else {
        assert SnakeParts(front) + "" + [Folded(c)] == SnakeParts(front) + [Folded(c)];
      }
    }
  }

  lemma {:induction false} LStripIsSuffix(s: string) returns (i: nat)
    ensures i <= |s| && LStrip(s) == s[i..]
  {
    i := 0;
    if s != "" && IsSpace(s[0]) {
      var j := LStripIsSuffix(s[1..]);
      i := j + 1;
    }
  }

  lemma {:induction false} RStripIsPrefix(s: string) returns (i: nat)
    ensures i <= |s| && RStrip(s) == s[..i]
  {
    i := |s|;
    if s != "" && IsSpace(s[|s| - 1]) {
      i := RStripIsPrefix(s[..|s| - 1]);
    }
  }

  /** On ASCII keys the normal forms do not depend on how the classes go on beyond ASCII. */
  lemma AsciiNormalForms(u: CharClasses, raw: string)
    requires ExtendsAscii(u) && IsAsciiText(raw)
    ensures SnakeKeyIn(u, raw) == SnakeKey(raw) && FlatKeyIn(u, raw) == FlatKey(raw)
  {
    var i := LStripIsSuffix(raw);
    var j := RStripIsPrefix(LStrip(raw));
    PartsOfAscii(u, Strip(raw));
  }

  // ----- the spelling of a key -----

  /** `key.replace("_", "")`. */
  function Squashed(s: string): string {
    if s == "" then ""
    else (if s[0] == '_' then "" else [s[0]]) + Squashed(s[1..])
  }

  /** The letters and digits of a key, in lower case: its spelling. */
  function Spelling(s: string): string {
    if s == "" then ""
    else (if IsAlnum(s[0]) then [Lower(s[0])] else "") + Spelling(s[1..])
  }

  lemma {:induction false} SquashedConcat(a: string, b: string)
    ensures Squashed(a + b) == Squashed(a) + Squashed(b)
  {
    if a == "" {
      assert a + b == b;
    } else {
      SquashedConcat(a[1..], b);
      assert (a + b)[1..] == a[1..] + b;
      ConcatAssociative(if a[0] == '_' then "" else [a[0]], Squashed(a[1..]), Squashed(b));
    }
  }

  lemma {:induction false} SpellingConcat(a: string, b: string)
    ensures Spelling(a + b) == Spelling(a) + Spelling(b)
  {
    if a == "" {
      assert a + b == b;
    } else {
      SpellingConcat(a[1..], b);
      assert (a + b)[1..] == a[1..] + b;
      ConcatAssociative(if IsAlnum(a[0]) then [Lower(a[0])] else "", Spelling(a[1..]), Spelling(b));
    }
  }

  lemma SnakePartSpelling(c: char, afterLower: bool)
    ensures Squashed(SnakePart(c, afterLower)) == Spelling([c])
  {
    var p := SnakePart(c, afterLower);
    assert [c][1..] == "";
    if |p| == 2 {
      assert Squashed(p[1..]) == [Folded(c)] by {
        assert p[1..] == [Folded(c)];
        assert p[1..][1..] == "";
      }
    } else {
      assert p[1..] == "";
    }
  }

  lemma {:induction false} SnakePartsSpelling(s: string)
    ensures Squashed(SnakeParts(s)) == Spelling(s)
  {
    if s != "" {
      var front, c := s[..|s| - 1], s[|s| - 1];
      SnakePartsSpelling(front);
      SquashedConcat(SnakeParts(front), SnakePart(c, EndsLower(front)));
      SnakePartSpelling(c, EndsLower(front));
      SpellingConcat(front, [c]);
      assert s == front + [c];
    }
  }

  lemma {:induction false} FlatPartsSpelling(s: string)
    ensures Squashed(FlatParts(s)) == Spelling(s)
  {
    if s != "" {
      FlatPartsSpelling(s[1..]);
      assert FlatParts(s)[1..] == FlatParts(s[1..]);
    }
  }

  lemma {:induction false} CollapseSquashed(s: string)
    ensures Squashed(Collapse(s)) == Squashed(s)
  {
    if |s| >= 2 {
      CollapseSquashed(s[1..]);
      assert ([s[0]] + Collapse(s[1..]))[1..] == Collapse(s[1..]);
    }
  }

  lemma {:induction false} LTrimSquashed(s: string)
    ensures Squashed(LTrim(s)) == Squashed(s)
  {
    if s != "" && s[0] == '_' {
      LTrimSquashed(s[1..]);
    }
  }

  lemma {:induction false} RTrimSquashed(s: string)
    ensures Squashed(RTrim(s)) == Squashed(s)
  {
    if s != "" && s[|s| - 1] == '_' {
      RTrimSquashed(s[..|s| - 1]);
      SquashedConcat(s[..|s| - 1], "_");
      assert s == s[..|s| - 1] + "_";
      assert "_"[1..] == "";
    }
  }

  lemma {:induction false} LStripSpelling(s: string)
    ensures Spelling(LStrip(s)) == Spelling(s)
  {
    if s != "" && IsSpace(s[0]) {
      LStripSpelling(s[1..]);
    }
  }

  lemma {:induction false} RStripSpelling(s: string)
    ensures Spelling(RStrip(s)) == Spelling(s)
  {
    if s != "" && IsSpace(s[|s| - 1]) {
      RStripSpelling(s[..|s| - 1]);
      SpellingConcat(s[..|s| - 1], [s[|s| - 1]]);
      assert s == s[..|s| - 1] + [s[|s| - 1]];
      assert [s[|s| - 1]][1..] == "";
    }
  }

  lemma StripSpelling(s: string)
    ensures Spelling(Strip(s)) == Spelling(s)
  {
    LStripSpelling(s);
    RStripSpelling(LStrip(s));
  }

  lemma TrimmedSquashed(parts: string)
    ensures Squashed(Trim(Collapse(parts))) == Squashed(parts)
  {
    RTrimSquashed(LTrim(Collapse(parts)));
    LTrimSquashed(Collapse(parts));
    CollapseSquashed(parts);
  }

  /** Without its underscores, the normal form of a key is the spelling of the key. */
  lemma SnakeKeySpells(raw: string)
    requires IsAsciiText(raw)
    ensures Squashed(SnakeKey(raw)) == Spelling(raw)
  {
    TrimmedSquashed(SnakeParts(Strip(raw)));
    SnakePartsSpelling(Strip(raw));
    StripSpelling(raw);
  }

  lemma FlatKeySpells(raw: string)
    requires IsAsciiText(raw)
    ensures Squashed(FlatKey(raw)) == Spelling(raw)
  {
    TrimmedSquashed(FlatParts(Strip(raw)));
    FlatPartsSpelling(Strip(raw));
    StripSpelling(raw);
  }

  /** So erasing underscores gives one text in either family. */
  lemma NormalFormsSpell(raw: string)
    requires IsAsciiText(raw)
    ensures Squashed(SnakeKey(raw)) == Squashed(FlatKey(raw)) == Spelling(raw)
  {
    SnakeKeySpells(raw);
    FlatKeySpells(raw);
  }

  // ----- normal forms are fixed -----

  predicate SnakeChar(c: char) {
    IsLower(c) || IsDigit(c) || c == '_'
  }

  predicate SnakeChars(s: string) {
    forall i :: 0 <= i < |s| ==> SnakeChar(s[i])
  }

  /** snake_case: lower-case letters and digits with single inner underscores. */
  predicate IsSnake(s: string) {
    SnakeChars(s) && SingleInner(s)
  }

  lemma {:induction false} SnakePartsChars(s: string)
    ensures SnakeChars(SnakeParts(s))
  {
    if s != "" {
      SnakePartsChars(s[..|s| - 1]);
    }
  }

  lemma {:induction false} CollapseChars(s: string)
    requires SnakeChars(s)
    ensures SnakeChars(Collapse(s))
  {
    if |s| >= 2 {
      CollapseChars(s[1..]);
    }
  }

  lemma {:induction false} LTrimClean(s: string)
    requires !HasDouble(s)
    ensures var r := LTrim(s); !HasDouble(r) && (r != "" ==> r[0] != '_') && (SnakeChars(s) ==> SnakeChars(r))
  {
    if s != "" && s[0] == '_' {
      DoubleTail(s);
      LTrimClean(s[1..]);
    }
  }

  lemma DoubleInFront(s: string)
    requires s != ""
    ensures HasDouble(s[..|s| - 1]) ==> HasDouble(s)
  {
    var front := s[..|s| - 1];
    if HasDouble(front) {
      var i :| 0 <= i < |front| - 1 && front[i] == '_' && front[i + 1] == '_';
      assert s[i] == '_' && s[i + 1] == '_';
    }
  }

  lemma {:induction false} RTrimClean(s: string)
    requires !HasDouble(s) && (s != "" ==> s[0] != '_')
    ensures SingleInner(RTrim(s)) && (SnakeChars(s) ==> SnakeChars(RTrim(s)))
  {
    if s != "" && s[|s| - 1] == '_' {
      var front := s[..|s| - 1];
      DoubleInFront(s);
      RTrimClean(front);
    }
  }

  /** Stripping the underscores off a collapsed text leaves single inner ones. */
  lemma TrimmedIsSingleInner(s: string)
    requires !HasDouble(s)
    ensures SingleInner(Trim(s)) && (SnakeChars(s) ==> SnakeChars(Trim(s)))
  {
    LTrimClean(s);
    RTrimClean(LTrim(s));
  }

  /** Both normal forms are snake_case. */
  lemma NormalFormsAreSnake(raw: string)
    ensures IsSnake(SnakeKey(raw)) && IsSnake(FlatKey(raw))
  {
    var text := Strip(raw);
    SnakePartsChars(text);
    CollapseChars(SnakeParts(text));
    CollapseChars(FlatParts(text));
    CollapseIsClean(SnakeParts(text));
    CollapseIsClean(FlatParts(text));
    TrimmedIsSingleInner(Collapse(SnakeParts(text)));
    TrimmedIsSingleInner(Collapse(FlatParts(text)));
  }

  lemma {:induction false} SnakePartsOfSnake(s: string)
    requires SnakeChars(s)
    ensures SnakeParts(s) == s
  {
    if s != "" {
      SnakePartsOfSnake(s[..|s| - 1]);
      assert s == s[..|s| - 1] + [s[|s| - 1]];
    }
  }

  lemma SnakeStripped(s: string)
    requires SnakeChars(s)
    ensures Strip(s) == s
  {
    StripClean(s);
  }

  lemma FlatPartsOfSnake(s: string)
    requires SnakeChars(s)
    ensures FlatParts(s) == s
  {
    assert forall i :: 0 <= i < |s| ==> Folded(s[i]) == s[i];
  }

  lemma TrimOfSnake(s: string)
    requires IsSnake(s)
    ensures Trim(s) == s
  {
  }

  /** A snake_case name is its own normal form, in either family. */
  lemma SnakeIsFixed(s: string)
    requires IsSnake(s)
    ensures SnakeKey(s) == s && FlatKey(s) == s
  {
    SnakeStripped(s);
    SnakePartsOfSnake(s);
    FlatPartsOfSnake(s);
    CollapseOfClean(s);
    TrimOfSnake(s);
  }

  /** Normalizing a normal form changes nothing, and each family fixes what the other produces. */
  lemma NormalizationIsIdempotent(raw: string)
    ensures SnakeKey(SnakeKey(raw)) == SnakeKey(raw)
    ensures FlatKey(FlatKey(raw)) == FlatKey(raw)
    ensures FlatKey(SnakeKey(raw)) == SnakeKey(raw)
  {
    NormalFormsAreSnake(raw);
    SnakeIsFixed(SnakeKey(raw));
    SnakeIsFixed(FlatKey(raw));
  }

  /** Two keys have equal normal forms up to underscores exactly when their letters and digits agree. */
  lemma SameSpellingSameSquash(a: string, b: string)
    requires IsAsciiText(a) && IsAsciiText(b)
    ensures Squashed(SnakeKey(a)) == Squashed(SnakeKey(b)) <==> Spelling(a) == Spelling(b)
  {
    SnakeKeySpells(a);
    SnakeKeySpells(b);
  }
}
