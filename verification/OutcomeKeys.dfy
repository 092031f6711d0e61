/** The key test of the outcome family, whose normal form does not split camelCase. */
module OutcomeKeys {
  import opened Numerals
  import opened PyText
  import opened KeyNormalization
  import opened KeySplits
  import opened DirectiveKeys

  /** The single words of `_BANNED_KEYS`. */
  const BANNED_WORDS: set<string> := {
    "execute", "command", "commands", "approve", "approval", "override", "success", "successful"
  }

  /** The two words of each of its other names. */
  const NAME_WORDS: seq<(string, string)> :=
    [ ("execution", "command"), ("provider", "command"), ("arbiter", "override"), ("auto", "execute"),
      ("select", "action"), ("selected", "action"), ("model", "recommendation"), ("attacker", "belief") ]

  function Name(i: nat): string
    requires i < |NAME_WORDS|
  {
    NAME_WORDS[i].0 + "_" + NAME_WORDS[i].1
  }

  predicate IsBannedName(key: string) {
    exists i :: 0 <= i < |NAME_WORDS| && Name(i) == key
  }

  /** `_is_forbidden_key`. */
  predicate IsForbiddenKey(raw: string) {
    var key := FlatKey(raw);
    || key in BANNED_WORDS
    || IsBannedName(key)
    || Contains(key, "provider_command")
    || EndsWith(key, "_command")
    || StartsWith(key, "command_")
    || StartsWith(key, "success_")
    || EndsWith(key, "_success")
    || Contains(key, "attacker_belief")
    || Contains(key, "model_recommendation")
  }

  lemma NameWordsAreWords(i: nat)
    requires i < |NAME_WORDS|
    ensures var (x, y) := NAME_WORDS[i]; LowerWord(x) && LowerWord(y) && x != "" && y != "" && |x| + |y| >= 11
  {
  }

  /** Each of the names is two lower-case words, longer together than any single word. */
  lemma NameIsTwoWords(name: string) returns (x: string, y: string)
    requires IsBannedName(name)
    ensures name == x + "_" + y && x != "" && y != "" && LowerWord(x) && LowerWord(y) && |x| + |y| >= 11
  {
    var i :| 0 <= i < |NAME_WORDS| && Name(i) == name;
    NameWordsAreWords(i);
    x, y := NAME_WORDS[i].0, NAME_WORDS[i].1;
  }

  lemma WordsAreShort(word: string)
    requires word in BANNED_WORDS
    ensures |word| <= 10
  {
  }

  lemma PartHoldsUnderscore(key: string, sub: string, i: nat)
    requires At(key, sub, i) && '_' in sub
    ensures '_' in key
  {
    var k :| 0 <= k < |sub| && sub[k] == '_';
    assert key[i..i + |sub|][k] == key[i + k];
  }

  predicate Fits(key: string, sub: string) {
    Contains(key, sub) || StartsWith(key, sub) || EndsWith(key, sub)
  }

  /** A key that holds a text with an underscore holds an underscore. */
  lemma HoldsItsUnderscore(key: string, sub: string)
    requires '_' in sub && Fits(key, sub)
    ensures '_' in key
  {
    if StartsWith(key, sub) {
      PartHoldsUnderscore(key, sub, 0);
    } else if EndsWith(key, sub) {
      PartHoldsUnderscore(key, sub, |key| - |sub|);
    } else {
      var i :| 0 <= i <= |key| && At(key, sub, i);
      PartHoldsUnderscore(key, sub, i);
    }
  }

  lemma PlainKeyFits(key: string, sub: string)
    requires '_' in sub && '_' !in key
    ensures !Fits(key, sub)
  {
    if Fits(key, sub) {
      HoldsItsUnderscore(key, sub);
    }
  }

  lemma NoPlainName(key: string)
    requires '_' !in key
    ensures !IsBannedName(key)
  {
    forall i | 0 <= i < |NAME_WORDS| ensures Name(i) != key {
      assert Name(i)[|NAME_WORDS[i].0|] == '_';
    }
  }

  /** Without an underscore in its normal form a key is forbidden only as one of the single words. */
  lemma PlainKeyIsWord(raw: string)
    requires '_' !in FlatKey(raw)
    ensures IsForbiddenKey(raw) <==> FlatKey(raw) in BANNED_WORDS
  {
    var key := FlatKey(raw);
    NoPlainName(key);
    PlainKeyFits(key, "provider_command");
    PlainKeyFits(key, "_command");
    PlainKeyFits(key, "command_");
    PlainKeyFits(key, "success_");
    PlainKeyFits(key, "_success");
    PlainKeyFits(key, "attacker_belief");
    PlainKeyFits(key, "model_recommendation");
  }

  /**
   A key without a separator between two of its letters and digits is forbidden exactly when its spelling is
   one of the single words, whatever names of several words its capitals spell.
   */
  lemma ForbiddenWithoutSeparator(raw: string)
    requires IsAsciiText(raw) && !HoldsSeparator(raw)
    ensures IsForbiddenKey(raw) <==> Spelling(raw) in BANNED_WORDS
  {
    FlatSplitsExactlyWhen(raw);
    FlatKeySpells(raw);
    SquashedOfPlain(FlatKey(raw));
    PlainKeyIsWord(raw);
  }

  /** A name of several words, with its underscore, is its own normal form and spells no single word. */
  lemma NameIsForbidden(name: string)
    requires IsBannedName(name)
    ensures IsForbiddenKey(name) && IsAsciiText(name) && |Spelling(name)| >= 11
  {
    var x, y := NameIsTwoWords(name);
    JoinedIsSnake(x, y);
    SnakeIsFixed(name);
    SnakeKeySpells(name);
    JoinedSquash(x, y);
  }

  /**
   Whichever listed name of several words a key spells: without a separator between two of its letters it
   passes, although the name itself is forbidden.
   */
  lemma SpellingWithoutSeparatorPasses(name: string, raw: string)
    requires IsBannedName(name) && IsAsciiText(raw) && Spelling(raw) == Spelling(name)
    ensures IsForbiddenKey(name)
    ensures !HoldsSeparator(raw) ==> !IsForbiddenKey(raw)
  {
    NameIsForbidden(name);
    if !HoldsSeparator(raw) {
      ForbiddenWithoutSeparator(raw);
      if Spelling(raw) in BANNED_WORDS {
        WordsAreShort(Spelling(raw));
      }
    }
  }

  // ----- keys of two words -----

  lemma WordHoldsNone(x: string)
    requires LowerWord(x)
    ensures '_' !in x
  {
    WordHasNoUnderscore(x);
  }

  /** `p_q` stands in `x_y` exactly around the one underscore. */
  lemma JoinedContains(x: string, y: string, p: string, q: string)
    requires '_' !in x && '_' !in y && '_' !in p && '_' !in q
    ensures Contains(x + "_" + y, p + "_" + q) <==> EndsWith(x, p) && StartsWith(y, q)
  {
    var key, sub := x + "_" + y, p + "_" + q;
    if Contains(key, sub) {
      var i :| 0 <= i <= |key| && At(key, sub, i);
      assert key[i..i + |sub|][|p|] == key[i + |p|] == '_';
      assert i + |p| == |x|;
      assert key[i..i + |sub|][..|p|] == x[i..] && sub[..|p|] == p;
      assert key[i..i + |sub|][|p| + 1..] == y[..|q|] && sub[|p| + 1..] == q;
    }
    if EndsWith(x, p) && StartsWith(y, q) {
      var i := |x| - |p|;
      assert key[i..i + |sub|] == x[i..] + "_" + y[..|q|];
      assert At(key, sub, i);
    }
  }

  lemma JoinedEnds(x: string, y: string, w: string)
    requires '_' !in x && '_' !in y && '_' !in w
    ensures EndsWith(x + "_" + y, "_" + w) <==> y == w
    ensures StartsWith(x + "_" + y, w + "_") <==> x == w
  {
    var key := x + "_" + y;
    assert key[|x|] == '_' && key[..|x|] == x && key[|x| + 1..] == y;
    if EndsWith(key, "_" + w) {
      var i := |key| - |w| - 1;
      assert key[i] == ("_" + w)[0] && ("_" + w)[1..] == w;
      assert i == |x|;
    }
    if StartsWith(key, w + "_") {
      assert key[|w|] == (w + "_")[|w|] && (w + "_")[..|w|] == w;
      assert |w| == |x|;
    }
  }

  /** The two words of a name, the first perhaps with more before it, the second with more behind. */
  predicate HoldsName(x: string, y: string, p: string, q: string) {
    EndsWith(x, p) && StartsWith(y, q)
  }

  lemma NoBannedWord(key: string)
    requires '_' in key
    ensures key !in BANNED_WORDS
  {
  }

  lemma PhraseInKey(x: string, y: string, p: string, q: string, phrase: string)
    requires '_' !in x && '_' !in y && '_' !in p && '_' !in q && phrase == p + "_" + q
    ensures Contains(x + "_" + y, phrase) <==> HoldsName(x, y, p, q)
  {
    JoinedContains(x, y, p, q);
  }

  lemma WordAtEnd(x: string, y: string, w: string, suffix: string, prefix: string)
    requires '_' !in x && '_' !in y && '_' !in w && suffix == "_" + w && prefix == w + "_"
    ensures EndsWith(x + "_" + y, suffix) <==> y == w
    ensures StartsWith(x + "_" + y, prefix) <==> x == w
  {
    JoinedEnds(x, y, w);
  }

  lemma PhrasesInKey(x: string, y: string)
    requires '_' !in x && '_' !in y
    ensures Contains(x + "_" + y, "provider_command") <==> HoldsName(x, y, "provider", "command")
    ensures Contains(x + "_" + y, "attacker_belief") <==> HoldsName(x, y, "attacker", "belief")
    ensures Contains(x + "_" + y, "model_recommendation") <==> HoldsName(x, y, "model", "recommendation")
  {
    PhraseInKey(x, y, "provider", "command", "provider_command");
    PhraseInKey(x, y, "attacker", "belief", "attacker_belief");
    PhraseInKey(x, y, "model", "recommendation", "model_recommendation");
  }

  lemma WordsAtEnds(x: string, y: string)
    requires '_' !in x && '_' !in y
    ensures EndsWith(x + "_" + y, "_command") <==> y == "command"
    ensures StartsWith(x + "_" + y, "command_") <==> x == "command"
    ensures EndsWith(x + "_" + y, "_success") <==> y == "success"
    ensures StartsWith(x + "_" + y, "success_") <==> x == "success"
  {
    WordAtEnd(x, y, "command", "_command", "command_");
    WordAtEnd(x, y, "success", "_success", "success_");
  }

  /** When a key of two lower-case words is forbidden. */
  lemma TwoWordsForbidden(x: string, y: string)
    requires LowerWord(x) && LowerWord(y) && x != "" && y != ""
    ensures IsForbiddenKey(x + "_" + y) <==>
            || IsBannedName(x + "_" + y)
            || x == "command" || y == "command" || x == "success" || y == "success"
            || HoldsName(x, y, "provider", "command")
            || HoldsName(x, y, "attacker", "belief")
            || HoldsName(x, y, "model", "recommendation")
  {
    var key := x + "_" + y;
    JoinedIsSnake(x, y);
    SnakeIsFixed(key);
    WordHoldsNone(x);
    WordHoldsNone(y);
    assert key[|x|] == '_';
    NoBannedWord(key);
    PhrasesInKey(x, y);
    WordsAtEnds(x, y);
  }

  // ----- spellings of one name -----

  lemma AlnumHasNoSeparator(raw: string)
    requires forall i :: 0 <= i < |raw| ==> IsAlnum(raw[i])
    ensures !HoldsSeparator(raw)
  {
  }

  lemma JoinedSpelling(x: string, y: string, name: string, word: string)
    requires LowerWord(x) && LowerWord(y) && x != "" && y != "" && name == x + "_" + y && word == x + y
    ensures Spelling(name) == Spelling(word)
  {
    SplitWord(x, y);
  }

  lemma CamelSpelling(x: string, c: char, y: string, word: string, camel: string)
    requires LowerWord(x) && LowerWord(y) && x != "" && IsLower(c)
    requires word == x + [c] + y && camel == x + [(c as int - 32) as char] + y
    ensures Spelling(camel) == Spelling(word) && IsAsciiText(camel) && !HoldsSeparator(camel)
  {
    CamelWord(x, y, c);
    AlnumHasNoSeparator(camel);
  }

  /** `attacker_belief` is forbidden and `attackerBelief` is not. */
  lemma AttackerBeliefSpellings() returns (name: string, camel: string)
    ensures name == "attacker_belief" && camel == "attackerBelief"
    ensures Spelling(camel) == Spelling(name) && IsForbiddenKey(name) && !IsForbiddenKey(camel)
  {
    var x, y, word;
    name, camel, word, x, y := BeliefParts();
    JoinedSpelling(x, ['b'] + y, name, word);
    CamelSpelling(x, 'b', y, word, camel);
    SpellingWithoutSeparatorPasses(name, camel);
  }

  lemma BeliefParts() returns (name: string, camel: string, word: string, x: string, y: string)
    ensures name == "attacker_belief" && camel == "attackerBelief" && IsBannedName(name)
    ensures LowerWord(x) && LowerWord(y) && x != ""
    ensures name == x + "_" + (['b'] + y) && camel == x + ['B'] + y && word == x + ['b'] + y == x + (['b'] + y)
  {
    x, y := "attacker", "elief";
    name, camel, word := x + "_" + (['b'] + y), x + ['B'] + y, x + ['b'] + y;
    assert Name(7) == name;
  }
}
