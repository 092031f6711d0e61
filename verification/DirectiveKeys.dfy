/** The key predicates of the external-security family: which spellings of a key are refused. */
module DirectiveKeys {
  import opened PyText
  import opened Seqs
  import opened KeyNormalization
  import opened KeySplits
  import opened Numerals

  // ----- substring tests -----

  predicate StartsWith(s: string, p: string) {
    p <= s
  }

  predicate EndsWith(s: string, p: string) {
    |p| <= |s| && s[|s| - |p|..] == p
  }

  predicate At(s: string, sub: string, i: nat) {
    i + |sub| <= |s| && s[i..i + |sub|] == sub
  }

  /** `sub in s`. */
  predicate Contains(s: string, sub: string) {
    exists i :: 0 <= i <= |s| && At(s, sub, i)
  }

  lemma ContainsInLarger(s: string, sub: string, before: string, after: string)
    requires Contains(s, sub)
    ensures Contains(before + s + after, sub)
  {
    var i :| 0 <= i <= |s| && At(s, sub, i);
    var t := before + s + after;
    var j := |before| + i;
    assert t[j..j + |sub|] == s[i..i + |sub|];
    assert At(t, sub, j);
  }

  lemma ContainsTransitive(s: string, mid: string, sub: string)
    requires Contains(s, mid) && Contains(mid, sub)
    ensures Contains(s, sub)
  {
    var i :| 0 <= i <= |s| && At(s, mid, i);
    ContainsInLarger(mid, sub, s[..i], s[i + |mid|..]);
    assert s == s[..i] + mid + s[i + |mid|..];
  }

  lemma ContainsPrefix(s: string, sub: string)
    requires sub <= s
    ensures Contains(s, sub)
  {
    assert At(s, sub, 0);
  }

  /** `key.split("_")`. */
  function Split(s: string): (parts: seq<string>)
    ensures parts != []
    decreases |s|
  {
    var i := Find(s, '_');
    if i == |s| then [s] else [s[..i]] + Split(s[i + 1..])
  }

  lemma {:induction false} SquashedOfPlain(s: string)
    requires forall i :: 0 <= i < |s| ==> s[i] != '_'
    ensures Squashed(s) == s
  {
    if s != "" {
      SquashedOfPlain(s[1..]);
      assert s == [s[0]] + s[1..];
    }
  }

  lemma SquashedUnderscore(u: string)
    requires u != "" && u[0] == '_'
    ensures Squashed(u) == Squashed(u[1..])
  {
  }

  /** The first segment stands before the squashed rest. */
  lemma SquashedAfterFirst(s: string, head: string, rest: string)
    requires s == head + rest && rest != "" && rest[0] == '_'
    requires forall i :: 0 <= i < |head| ==> head[i] != '_'
    ensures Squashed(s) == head + Squashed(rest[1..])
  {
    SquashedConcat(head, rest);
    SquashedOfPlain(head);
    SquashedUnderscore(rest);
  }

  /** Every segment of a key is a substring of the squashed key. */
  lemma {:induction false} SegmentIsSubstring(s: string, part: string)
    requires part in Split(s)
    ensures Contains(Squashed(s), part)
    decreases |s|
  {
    var i := Find(s, '_');
    if i == |s| {
      SquashedOfPlain(s);
      ContainsPrefix(s, s);
    } else {
      var head, tail := s[..i], s[i + 1..];
      SquashedAfterFirst(s, head, s[i..]);
      assert s[i..][1..] == tail;
      if part == head {
        ContainsPrefix(Squashed(s), head);
      } else {
        assert part in Split(tail);
        SegmentIsSubstring(tail, part);
        ContainsInLarger(Squashed(tail), part, head, "");
        assert head + Squashed(tail) + "" == head + Squashed(tail);
      }
    }
  }

  // ----- the tables -----

  const SECRET_SEGMENTS: seq<string> :=
    ["token", "tokens", "password", "passwd", "secret", "secrets", "credential", "credentials", "apikey"]

  const SECRET_SUBSTRINGS: seq<string> :=
    ["token", "password", "passwd", "secret", "credential", "apikey"]

  const RESERVED_EXTENSION_KEYS: seq<string> :=
    ["authority", "authority_class", "executable", "decision_ref", "tenant_ref", "schema_version",
     "privacy_class", "fact_class", "status", "provenance"]

  /** For each secret segment, the secret substring it contains. */
  const SUBSTRING_OF_SEGMENT: seq<nat> := [0, 0, 1, 2, 3, 3, 4, 4, 5]

  lemma SecretSegmentsHoldSubstrings(part: string)
    requires part in SECRET_SEGMENTS
    ensures exists sub :: sub in SECRET_SUBSTRINGS && Contains(part, sub)
  {
    var k :| 0 <= k < |SECRET_SEGMENTS| && SECRET_SEGMENTS[k] == part;
    var sub := SECRET_SUBSTRINGS[SUBSTRING_OF_SEGMENT[k]];
    ContainsPrefix(part, sub);
    assert sub in SECRET_SUBSTRINGS;
  }

  // ----- the predicates as written -----

  function SquashedNames(names: set<string>): set<string> {
    set n | n in names :: Squashed(n)
  }

  /** `_is_directive_key`, for any table of banned names. */
  predicate IsDirectiveKey(raw: string, banned: set<string>) {
    var key := SnakeKey(raw);
    var squashed := Squashed(key);
    || key in banned
    || squashed in SquashedNames(banned)
    || EndsWith(squashed, "command")
    || StartsWith(squashed, "command")
    || EndsWith(squashed, "rule")
    || EndsWith(squashed, "rules")
    || StartsWith(squashed, "execute")
    || EndsWith(squashed, "override")
    || StartsWith(squashed, "override")
    || Contains(squashed, "executor")
    || (exists part :: part in Split(key) && part in SECRET_SEGMENTS)
    || (exists sub :: sub in SECRET_SUBSTRINGS && Contains(squashed, sub))
    || EndsWith(squashed, "success")
    || StartsWith(squashed, "success")
  }

  /** `_is_locator_key`, for any table of locator names. */
  predicate IsLocatorKey(raw: string, locators: set<string>) {
    SnakeKey(raw) in locators || Squashed(SnakeKey(raw)) in SquashedNames(locators)
  }

  /** `is_reserved_key`. */
  predicate IsReservedKey(raw: string) {
    Squashed(SnakeKey(raw)) in SquashedNames(set n | n in RESERVED_EXTENSION_KEYS)
  }

  // ----- what they come to: predicates on the spelling -----

  predicate DirectiveSpelling(w: string, banned: set<string>) {
    || w in SquashedNames(banned)
    || EndsWith(w, "command")
    || StartsWith(w, "command")
    || EndsWith(w, "rule")
    || EndsWith(w, "rules")
    || StartsWith(w, "execute")
    || EndsWith(w, "override")
    || StartsWith(w, "override")
    || Contains(w, "executor")
    || (exists sub :: sub in SECRET_SUBSTRINGS && Contains(w, sub))
    || EndsWith(w, "success")
    || StartsWith(w, "success")
  }

  /**
   Whether an ASCII key is refused depends on its letters and digits alone: the tests on the exact name
   and on single segments never decide.
   */
  lemma DirectiveBySpelling(raw: string, banned: set<string>)
    requires IsAsciiText(raw)
    ensures IsDirectiveKey(raw, banned) <==> DirectiveSpelling(Spelling(raw), banned)
  {
    SnakeKeySpells(raw);
    var key := SnakeKey(raw);
    if exists part :: part in Split(key) && part in SECRET_SEGMENTS {
      var part :| part in Split(key) && part in SECRET_SEGMENTS;
      SegmentIsSubstring(key, part);
      SecretSegmentsHoldSubstrings(part);
      var sub :| sub in SECRET_SUBSTRINGS && Contains(part, sub);
      ContainsTransitive(Squashed(key), part, sub);
    }
  }

  lemma LocatorBySpelling(raw: string, locators: set<string>)
    requires IsAsciiText(raw)
    ensures IsLocatorKey(raw, locators) <==> Spelling(raw) in SquashedNames(locators)
  {
    SnakeKeySpells(raw);
  }

  lemma ReservedBySpelling(raw: string)
    requires IsAsciiText(raw)
    ensures IsReservedKey(raw) <==> exists n :: n in RESERVED_EXTENSION_KEYS && Squashed(n) == Spelling(raw)
  {
    SnakeKeySpells(raw);
  }

  /** camelCase, kebab-case, spaced and snake_case spellings of one key get one answer from every guard. */
  lemma SpellingsShareOneAnswer(a: string, b: string, banned: set<string>, locators: set<string>)
    requires IsAsciiText(a) && IsAsciiText(b) && Spelling(a) == Spelling(b)
    ensures IsDirectiveKey(a, banned) <==> IsDirectiveKey(b, banned)
    ensures IsLocatorKey(a, locators) <==> IsLocatorKey(b, locators)
    ensures IsReservedKey(a) <==> IsReservedKey(b)
  {
    DirectiveBySpelling(a, banned);
    DirectiveBySpelling(b, banned);
    LocatorBySpelling(a, locators);
    LocatorBySpelling(b, locators);
    ReservedBySpelling(a);
    ReservedBySpelling(b);
  }

  // ----- the execute flag -----

  /** The test the walker makes before it demands the value False. */
  predicate IsExecuteFlagKey(raw: string) {
    SnakeKey(raw) == "executable"
  }

  predicate LowerWord(s: string) {
    forall i :: 0 <= i < |s| ==> IsLower(s[i])
  }

  lemma WordIsFixed(w: string)
    requires LowerWord(w)
    ensures SnakeKey(w) == w && Squashed(w) == w && Spelling(w) == w
  {
    SnakeIsFixed(w);
    SquashedOfPlain(w);
    SnakeKeySpells(w);
  }

  lemma ExecutableIsLowerWord(w: string)
    requires w == "executable"
    ensures LowerWord(w)
  {
  }

  lemma WordHasNoUnderscore(w: string)
    requires LowerWord(w)
    ensures '_' !in w && Squashed(w) == w
  {
    SquashedOfPlain(w);
  }

  /**
   The flag test is stricter than the other predicates: it asks for the spelling, and that the raw key hold
   neither a separator nor a step to upper case between two of its letters.
   */
  lemma ExecuteFlagBySpelling(raw: string)
    requires IsAsciiText(raw)
    ensures IsExecuteFlagKey(raw) <==> Spelling(raw) == "executable" && !HoldsTwoWords(raw)
  {
    var key := SnakeKey(raw);
    SnakeKeySpells(raw);
    SplitsExactlyWhen(raw);
    if '_' !in key {
      SquashedOfPlain(key);
    }
    if IsExecuteFlagKey(raw) {
      ExecutableIsLowerWord(key);
      WordHasNoUnderscore(key);
    }
  }

  lemma JoinedIsSnake(x: string, y: string)
    requires LowerWord(x) && LowerWord(y) && x != "" && y != ""
    ensures IsSnake(x + "_" + y)
  {
    var a := x + "_" + y;
    assert forall i :: 0 <= i < |a| && i != |x| ==> IsLower(a[i]);
  }

  lemma JoinedSquash(x: string, y: string)
    requires LowerWord(x) && LowerWord(y)
    ensures Squashed(x + "_" + y) == x + y
  {
    WordHasNoUnderscore(x);
    WordHasNoUnderscore(y);
    var rest := "_" + y;
    assert rest[1..] == y;
    assert x + "_" + y == x + rest;
    SquashedAfterFirst(x + "_" + y, x, rest);
  }

  /** A key joined with an underscore spells what the joined word spells, yet normalizes otherwise. */
  lemma SplitWord(x: string, y: string)
    requires LowerWord(x) && LowerWord(y) && x != "" && y != ""
    ensures Spelling(x + "_" + y) == Spelling(x + y)
    ensures SnakeKey(x + y) == x + y && SnakeKey(x + "_" + y) != x + y
  {
    var a := x + "_" + y;
    WordIsFixed(x + y);
    JoinedIsSnake(x, y);
    JoinedSquash(x, y);
    SnakeIsFixed(a);
    SnakeKeySpells(a);
    assert |a| == |x + y| + 1;
  }

  /** A step to upper case inside a word splits it, and an upper-case first letter does not. */
  lemma CamelWord(x: string, y: string, c: char)
    requires LowerWord(x) && LowerWord(y) && x != "" && IsLower(c)
    ensures var upper := (c as int - 32) as char;
            && Spelling(x + [upper] + y) == Spelling(x + [c] + y)
            && HoldsTwoWords(x + [upper] + y) && !HoldsTwoWords(x + [c] + y)
  {
    var upper := (c as int - 32) as char;
    var camel, word := x + [upper] + y, x + [c] + y;
    SpellingConcat(x + [upper], y);
    SpellingConcat(x, [upper]);
    SpellingConcat(x + [c], y);
    SpellingConcat(x, [c]);
    assert Spelling([upper]) == [c] && Spelling([c]) == [c];
    assert StartsWord(camel, |x|, true);
    assert camel[..|x|][0] == x[0];
    assert LowerWord(word);
  }

  /** Wherever the word is cut in two by an underscore, the flag test misses it. */
  lemma SplitFlagIsMissed(x: string, y: string)
    requires x + y == "executable" && x != "" && y != ""
    ensures Spelling(x + "_" + y) == Spelling(x + y)
    ensures IsExecuteFlagKey(x + y) && !IsExecuteFlagKey(x + "_" + y)
  {
    var word := x + y;
    ExecutableIsLowerWord(word);
    forall i | 0 <= i < |x| ensures IsLower(x[i]) {
      assert word[i] == x[i];
    }
    forall i | 0 <= i < |y| ensures IsLower(y[i]) {
      assert word[|x| + i] == y[i];
    }
    SplitWord(x, y);
  }

  /** Whichever letter after the first is a capital, the flag test misses it. */
  lemma CamelFlagIsMissed(x: string, c: char, y: string)
    requires x + [c] + y == "executable" && x != ""
    ensures IsLower(c)
    ensures var camel := x + [(c as int - 32) as char] + y;
            Spelling(camel) == Spelling(x + [c] + y) && !IsExecuteFlagKey(camel)
  {
    var word := x + [c] + y;
    ExecutableIsLowerWord(word);
    forall i | 0 <= i < |x| ensures IsLower(x[i]) {
      assert word[i] == x[i];
    }
    assert word[|x|] == c;
    forall i | 0 <= i < |y| ensures IsLower(y[i]) {
      assert word[|x| + 1 + i] == y[i];
    }
    CamelWord(x, y, c);
    ExecuteFlagBySpelling(x + [(c as int - 32) as char] + y);
  }

  lemma FlagInTwo() returns (x: string, y: string)
    ensures x != "" && y != "" && x + y == "executable" && x + "_" + y == "execut_able"
  {
    x, y := "execut", "able";
  }

  lemma FlagAroundLetter() returns (x: string, y: string)
    ensures x != "" && x + ['c'] + y == "executable" && x + ['C'] + y == "exeCutable"
  {
    x, y := "exe", "utable";
  }

  /** The flag test is not spelling independent: an underscore, or a capital, inside the word changes its answer. */
  lemma ExecuteFlagIsNotSpellingIndependent() returns (flag: string, split: string, camel: string)
    ensures flag == "executable" && split == "execut_able" && camel == "exeCutable"
    ensures Spelling(flag) == Spelling(split) == Spelling(camel)
    ensures IsExecuteFlagKey(flag) && !IsExecuteFlagKey(split) && !IsExecuteFlagKey(camel)
  {
    var x, y := FlagInTwo();
    var v, w := FlagAroundLetter();
    flag, split, camel := x + y, x + "_" + y, v + ['C'] + w;
    SplitFlagIsMissed(x, y);
    CamelFlagIsMissed(v, 'c', w);
  }
}
