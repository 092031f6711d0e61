/** Which raw keys the two normal forms of a key split into words. */
module KeySplits {
  import opened Numerals
  import opened PyText
  import opened KeyNormalization

  /** An upper-case letter after a lower-case letter or digit. */
  predicate StepsUp(s: string, i: nat)
    requires 0 < i < |s|
  {
    IsUpper(s[i]) && (IsLower(s[i - 1]) || IsDigit(s[i - 1]))
  }

  /** A letter or digit after a separator or, when `camel` counts, a step to upper case. */
  predicate StartsWord(s: string, i: nat, camel: bool)
    requires i < |s|
  {
    0 < i && IsAlnum(s[i]) && (!IsAlnum(s[i - 1]) || (camel && StepsUp(s, i)))
  }

  predicate HasAlnum(s: string) {
    exists h :: 0 <= h < |s| && IsAlnum(s[h])
  }

  /** A word starts somewhere behind a letter or digit: the raw key holds two words. */
  predicate HoldsWords(s: string, camel: bool) {
    exists i :: 0 <= i < |s| && StartsWord(s, i, camel) && HasAlnum(s[..i])
  }

  /** A separator, or a step to upper case, between two letters or digits. */
  predicate HoldsTwoWords(s: string) {
    HoldsWords(s, true)
  }

  /** A separator between two letters or digits. */
  predicate HoldsSeparator(s: string) {
    HoldsWords(s, false)
  }

  /** What either loop writes. */
  function Parts(s: string, camel: bool): string {
    if camel then SnakeParts(s) else FlatParts(s)
  }

  /** The same question of a text of lower-case characters and underscores. */
  predicate AfterUnderscore(p: string, i: nat)
    requires i < |p|
  {
    0 < i && p[i] != '_' && p[i - 1] == '_'
  }

  predicate HasWord(p: string) {
    exists h :: 0 <= h < |p| && p[h] != '_'
  }

  predicate HasInner(p: string) {
    exists i :: 0 <= i < |p| && AfterUnderscore(p, i) && HasWord(p[..i])
  }

  predicate HasStart(p: string) {
    exists i :: 0 <= i < |p| && AfterUnderscore(p, i)
  }

  lemma HasAlnumSnoc(s: string, c: char)
    ensures HasAlnum(s + [c]) <==> HasAlnum(s) || IsAlnum(c)
  {
    var t := s + [c];
    assert t[|s|] == c;
    if HasAlnum(s) {
      var h :| 0 <= h < |s| && IsAlnum(s[h]);
      assert t[h] == s[h];
    }
  }

  lemma TwoWordsSnoc(s: string, c: char, camel: bool)
    ensures HoldsWords(s + [c], camel) <==>
            HoldsWords(s, camel) || (StartsWord(s + [c], |s|, camel) && HasAlnum(s))
  {
    var t := s + [c];
    assert t[..|s|] == s;
    forall i | 0 <= i < |s| ensures (StartsWord(t, i, camel) <==> StartsWord(s, i, camel)) && t[..i] == s[..i] {
    }
  }

  lemma HasWordSnoc(p: string, c: char)
    ensures HasWord(p + [c]) <==> HasWord(p) || c != '_'
  {
    var t := p + [c];
    assert t[|p|] == c;
    if HasWord(p) {
      var h :| 0 <= h < |p| && p[h] != '_';
      assert t[h] == p[h];
    }
  }

  lemma InnerSnoc(p: string, c: char)
    ensures HasInner(p + [c]) <==> HasInner(p) || (AfterUnderscore(p + [c], |p|) && HasWord(p))
  {
    var t := p + [c];
    assert t[..|p|] == p;
    forall i | 0 <= i < |p| ensures (AfterUnderscore(t, i) <==> AfterUnderscore(p, i)) && t[..i] == p[..i] {
    }
  }

  /** One more character of the text, without an underscore of its own before it. */
  lemma OneMoreChar(p: string, f: char)
    ensures HasWord(p + [f]) <==> HasWord(p) || f != '_'
    ensures HasInner(p + [f]) <==>
            HasInner(p) || (p != "" && f != '_' && p[|p| - 1] == '_' && HasWord(p))
  {
    HasWordSnoc(p, f);
    InnerSnoc(p, f);
  }

  /** One more character behind an underscore of its own. */
  lemma OneMoreWord(p: string, f: char)
    requires f != '_'
    ensures HasWord(p + ['_'] + [f])
    ensures HasInner(p + ['_'] + [f]) <==> HasInner(p) || HasWord(p)
  {
    OneMoreChar(p, '_');
    OneMoreChar(p + ['_'], f);
  }

  /** How the parts of a longer text extend those of a shorter one. */
  lemma PartsSnoc(front: string, c: char, camel: bool)
    ensures Parts(front + [c], camel) ==
            if camel && IsUpper(c) && EndsLower(front) then Parts(front, camel) + ['_'] + [Folded(c)]
            else Parts(front, camel) + [Folded(c)]
  {
    assert (front + [c])[..|front|] == front;
    if camel {
      assert SnakeParts(front) + ['_', Folded(c)] == SnakeParts(front) + ['_'] + [Folded(c)];
    } else {
      assert FlatParts(front + [c]) == FlatParts(front) + [Folded(c)];
    }
  }

  lemma LastIsAlnum(s: string)
    requires EndsLower(s)
    ensures HasAlnum(s)
  {
    assert IsAlnum(s[|s| - 1]);
  }

  /** The parts `p` written for `s` hold words and splits where `s` does. */
  predicate Tracks(s: string, p: string, camel: bool) {
    && (HasWord(p) <==> HasAlnum(s))
    && (HasInner(p) <==> HoldsWords(s, camel))
    && (s == "" <==> p == "")
    && (s != "" ==> p[|p| - 1] == Folded(s[|s| - 1]))
  }

  lemma TracksFolded(s: string, p: string, c: char, camel: bool)
    requires Tracks(s, p, camel) && !(camel && IsUpper(c) && EndsLower(s))
    ensures Tracks(s + [c], p + [Folded(c)], camel)
  {
    OneMoreChar(p, Folded(c));
    HasAlnumSnoc(s, c);
    TwoWordsSnoc(s, c, camel);
  }

  lemma TracksSplit(s: string, p: string, c: char)
    requires Tracks(s, p, true) && IsUpper(c) && EndsLower(s)
    ensures Tracks(s + [c], p + ['_'] + [Folded(c)], true)
  {
    OneMoreWord(p, Folded(c));
    LastIsAlnum(s);
    HasAlnumSnoc(s, c);
    TwoWordsSnoc(s, c, true);
  }

  /** What a character loop writes holds a word behind an underscore exactly when the text holds two words. */
  lemma {:induction false} PartsSplitLikeText(s: string, camel: bool)
    ensures Tracks(s, Parts(s, camel), camel)
  {
    if s != "" {
      var front, c := s[..|s| - 1], s[|s| - 1];
      assert s == front + [c];
      PartsSplitLikeText(front, camel);
      PartsSnoc(front, c, camel);
      if camel && IsUpper(c) && EndsLower(front) {
        TracksSplit(front, Parts(front, camel), c);
      } else {
        TracksFolded(front, Parts(front, camel), c, camel);
      }
    }
  }

  lemma HasWordCons(c: char, t: string)
    ensures HasWord([c] + t) <==> c != '_' || HasWord(t)
  {
    var s := [c] + t;
    assert s[0] == c;
    if HasWord(t) {
      var h :| 0 <= h < |t| && t[h] != '_';
      assert s[h + 1] == t[h];
    }
  }

  lemma StartCons(c: char, t: string)
    ensures HasStart([c] + t) <==> HasStart(t) || (c == '_' && t != "" && t[0] != '_')
  {
    var s := [c] + t;
    forall i | 0 < i < |t| ensures AfterUnderscore(s, i + 1) <==> AfterUnderscore(t, i) {
    }
    if HasStart(s) {
      var i :| 0 <= i < |s| && AfterUnderscore(s, i);
      assert i > 1 ==> AfterUnderscore(t, i - 1);
    }
    if HasStart(t) {
      var i :| 0 <= i < |t| && AfterUnderscore(t, i);
      assert AfterUnderscore(s, i + 1);
    }
    if c == '_' && t != "" && t[0] != '_' {
      assert AfterUnderscore(s, 1);
    }
  }

  lemma InnerCons(c: char, t: string)
    ensures HasInner([c] + t) <==> if c == '_' then HasInner(t) else HasStart(t)
  {
    var s := [c] + t;
    forall i | 0 < i < |t|
      ensures AfterUnderscore(s, i + 1) <==> AfterUnderscore(t, i)
      ensures HasWord(s[..i + 1]) <==> c != '_' || HasWord(t[..i])
    {
      assert s[..i + 1] == [c] + t[..i];
      HasWordCons(c, t[..i]);
    }
    if HasInner(s) {
      assert s[..1] == [c];
      var i :| 0 <= i < |s| && AfterUnderscore(s, i) && HasWord(s[..i]);
      assert i > 1 ==> AfterUnderscore(t, i - 1);
    }
    if c == '_' && HasInner(t) {
      var i :| 0 <= i < |t| && AfterUnderscore(t, i) && HasWord(t[..i]);
      assert AfterUnderscore(s, i + 1);
    }
    if c != '_' && HasStart(t) {
      var i :| 0 <= i < |t| && AfterUnderscore(t, i);
      assert AfterUnderscore(s, i + 1);
    }
  }

  lemma {:induction false} CollapseKeepsInner(s: string)
    ensures HasInner(Collapse(s)) <==> HasInner(s)
    ensures HasStart(Collapse(s)) <==> HasStart(s)
  {
    if |s| >= 2 {
      var t := s[1..];
      CollapseKeepsInner(t);
      CollapseIsClean(t);
      assert s == [s[0]] + t;
      InnerCons(s[0], t);
      StartCons(s[0], t);
      InnerCons(s[0], Collapse(t));
      StartCons(s[0], Collapse(t));
    }
  }

  lemma {:induction false} LTrimKeepsInner(s: string)
    ensures HasInner(LTrim(s)) <==> HasInner(s)
  {
    if s != "" && s[0] == '_' {
      LTrimKeepsInner(s[1..]);
      assert s == [s[0]] + s[1..];
      InnerCons(s[0], s[1..]);
    }
  }

  lemma {:induction false} RTrimKeepsInner(s: string)
    ensures HasInner(RTrim(s)) <==> HasInner(s)
  {
    if s != "" && s[|s| - 1] == '_' {
      var front := s[..|s| - 1];
      RTrimKeepsInner(front);
      assert s == front + ['_'];
      InnerSnoc(front, '_');
    }
  }

  lemma UnderscoreInSnakeIsInner(key: string)
    requires IsSnake(key)
    ensures '_' in key <==> HasInner(key)
  {
    if '_' in key {
      var k :| 0 <= k < |key| && key[k] == '_';
      assert 0 < k < |key| - 1;
      assert key[k + 1] != '_';
      assert AfterUnderscore(key, k + 1);
      assert key[..k + 1][0] != '_';
    }
  }

  lemma SeparatorInFront(c: char, t: string, camel: bool)
    requires !IsAlnum(c)
    ensures HoldsWords([c] + t, camel) <==> HoldsWords(t, camel)
  {
    var s := [c] + t;
    forall i | 0 < i < |t|
      ensures StartsWord(s, i + 1, camel) <==> StartsWord(t, i, camel)
      ensures HasAlnum(s[..i + 1]) <==> HasAlnum(t[..i])
    {
      AlnumBehindSeparator(s[..i + 1], t[..i], c);
    }
    if HoldsWords(s, camel) {
      assert s[..1] == [c];
      var i :| 0 <= i < |s| && StartsWord(s, i, camel) && HasAlnum(s[..i]);
      assert StartsWord(t, i - 1, camel);
    }
    if HoldsWords(t, camel) {
      var i :| 0 <= i < |t| && StartsWord(t, i, camel) && HasAlnum(t[..i]);
      assert StartsWord(s, i + 1, camel);
    }
  }

  lemma AlnumBehindSeparator(s: string, t: string, c: char)
    requires s == [c] + t && !IsAlnum(c)
    ensures HasAlnum(s) <==> HasAlnum(t)
  {
    if HasAlnum(t) {
      var h :| 0 <= h < |t| && IsAlnum(t[h]);
      assert s[h + 1] == t[h];
    }
    if HasAlnum(s) {
      var h :| 0 <= h < |s| && IsAlnum(s[h]);
      assert t[h - 1] == s[h];
    }
  }

  lemma {:induction false} LStripKeepsWords(s: string, camel: bool)
    ensures HoldsWords(LStrip(s), camel) <==> HoldsWords(s, camel)
  {
    if s != "" && IsSpace(s[0]) {
      LStripKeepsWords(s[1..], camel);
      assert s == [s[0]] + s[1..];
      SeparatorInFront(s[0], s[1..], camel);
    }
  }

  lemma {:induction false} RStripKeepsWords(s: string, camel: bool)
    ensures HoldsWords(RStrip(s), camel) <==> HoldsWords(s, camel)
  {
    if s != "" && IsSpace(s[|s| - 1]) {
      var front, c := s[..|s| - 1], s[|s| - 1];
      RStripKeepsWords(front, camel);
      assert s == front + [c];
      TwoWordsSnoc(front, c, camel);
    }
  }

  lemma InnerOfNormalForm(raw: string, camel: bool)
    ensures HasInner(Trim(Collapse(Parts(Strip(raw), camel)))) <==> HoldsWords(raw, camel)
  {
    var parts := Parts(Strip(raw), camel);
    RTrimKeepsInner(LTrim(Collapse(parts)));
    LTrimKeepsInner(Collapse(parts));
    CollapseKeepsInner(parts);
    PartsSplitLikeText(Strip(raw), camel);
    RStripKeepsWords(LStrip(raw), camel);
    LStripKeepsWords(raw, camel);
  }

  /**
   Exactly which raw keys get an underscore: those with a separator, or a step from a lower-case letter or
   digit to an upper-case letter, between two of their letters and digits.
   */
  lemma SplitsExactlyWhen(raw: string)
    ensures '_' in SnakeKey(raw) <==> HoldsTwoWords(raw)
  {
    NormalFormsAreSnake(raw);
    UnderscoreInSnakeIsInner(SnakeKey(raw));
    InnerOfNormalForm(raw, true);
  }

  /** In the other families only a separator counts. */
  lemma FlatSplitsExactlyWhen(raw: string)
    ensures '_' in FlatKey(raw) <==> HoldsSeparator(raw)
  {
    NormalFormsAreSnake(raw);
    UnderscoreInSnakeIsInner(FlatKey(raw));
    InnerOfNormalForm(raw, false);
  }
}
