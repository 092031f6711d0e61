/** Typed references `kind:body` (`effect_contracts.refs`). */
module Refs {
  import opened Outcomes
  import PyText

  const KINDS: set<string> := {
    "trace", "decision", "execution", "effect", "effect_observation", "lifecycle", "presentation", "environment",
    "advisory", "evidence", "session", "surface", "artifact", "identity", "credential", "policy", "profile", "scope",
    "outcome", "envelope", "fixture", "observation_objective", "hypothesis", "frame"
  }

  predicate IsKindChar(c: char) {
    'a' <= c <= 'z' || '0' <= c <= '9' || c == '_'
  }

  predicate IsBodyChar(c: char) {
    'A' <= c <= 'Z' || 'a' <= c <= 'z' || '0' <= c <= '9' || c in "._~@=+:-"
  }

  /** `[a-z][a-z0-9_]{0,31}` */
  predicate IsKindText(s: string) {
    1 <= |s| <= 32 && 'a' <= s[0] <= 'z' && forall i :: 0 <= i < |s| ==> IsKindChar(s[i])
  }

  /** `[A-Za-z0-9._~@=+:-]{1,200}` */
  predicate IsBody(s: string) {
    1 <= |s| <= 200 && forall i :: 0 <= i < |s| ==> IsBodyChar(s[i])
  }

  function Spell(kind: string, body: string): string {
    kind + ":" + body
  }

  /** The pattern matches the whole text with these two groups. */
  predicate Matches(raw: string, kind: string, body: string) {
    raw == Spell(kind, body) && IsKindText(kind) && IsBody(body)
  }

  /** Where a left-to-right scan of the kind characters stops. */
  function KindEnd(raw: string, i: nat): (e: nat)
    requires i <= |raw|
    ensures i <= e <= |raw|
    ensures forall j :: i <= j < e ==> IsKindChar(raw[j])
    ensures e < |raw| ==> !IsKindChar(raw[e])
    decreases |raw| - i
  {
    if i < |raw| && IsKindChar(raw[i]) then KindEnd(raw, i + 1) else i
  }

  /** `parse_ref`: the kind, absent for an untyped value, and the body. */
  function ParseRef(raw: string): (Option<string>, string) {
    var e := KindEnd(raw, 0);
    if e < |raw| && raw[e] == ':' && IsKindText(raw[..e]) && IsBody(raw[e + 1..]) && raw[..e] in KINDS then
      (Some(raw[..e]), raw[e + 1..])
    else
      (None, raw)
  }

  /** `require_ref_kind` returns rather than raises. */
  predicate RequireAccepts(raw: string, kind: string) {
    ParseRef(raw).0 == Some(kind)
  }

  predicate Forbidden(kind: Option<string>, forbidden: set<string>) {
    kind.Some? && kind.value in forbidden
  }

  predicate EndsInNewline(s: string) {
    s != "" && s[|s| - 1] == '\n'
  }

  /** `reject_ref_kinds` returns rather than raises. */
  predicate RejectAccepts(raw: Option<string>, forbidden: set<string>) {
    match raw
    case None => true
    case Some(s) =>
      var kind := ParseRef(s).0;
      var seen := if kind.None? && EndsInNewline(s) then ParseRef(s[..|s| - 1]).0 else kind;
      !Forbidden(seen, forbidden)
  }

  // ----- one grammar, read and written -----

  lemma KindChars(k: string, i: nat)
    requires k in KINDS && i < |k|
    ensures IsKindChar(k[i])
  {
  }

  lemma KindIsSpelledAsKind(k: string)
    requires k in KINDS
    ensures IsKindText(k)
  {
    forall i | 0 <= i < |k| ensures IsKindChar(k[i]) {
      KindChars(k, i);
    }
  }

  /** The pattern splits a text in one way only, at the first colon, whatever colons the body holds. */
  lemma MatchIsUnique(raw: string, kind: string, body: string)
    requires Matches(raw, kind, body)
    ensures KindEnd(raw, 0) == |kind| && raw[..|kind|] == kind && raw[|kind| + 1..] == body
    ensures raw[|kind|] == ':' && forall i :: 0 <= i < |kind| ==> raw[i] != ':'
  {
    var e := KindEnd(raw, 0);
    assert forall i :: 0 <= i < |kind| ==> raw[i] == kind[i];
    assert raw[|kind|] == ':';
    assert !(e < |kind|);
    assert !(e > |kind|);
  }

  /** Reading a printed reference gives back its kind and body. */
  lemma ParseSpelled(kind: string, body: string)
    requires kind in KINDS && IsBody(body)
    ensures ParseRef(Spell(kind, body)) == (Some(kind), body)
  {
    KindIsSpelledAsKind(kind);
    MatchIsUnique(Spell(kind, body), kind, body);
  }

  /** Any of the marks the pattern allows, colons among them, may stand inside a body. */
  lemma MarkedBodyIsRead(kind: string, a: string, mark: char, b: string)
    requires kind in KINDS && IsBody(a) && IsBody(b) && |a| + |b| < 200 && mark in "._~@=+:-"
    ensures ParseRef(kind + ":" + (a + [mark] + b)) == (Some(kind), a + [mark] + b)
  {
    ParseSpelled(kind, a + [mark] + b);
  }

  /** A text is read as a reference of a kind exactly when the pattern matches it with a kind of the list. */
  lemma ParseIsExact(raw: string, kind: string, body: string)
    ensures ParseRef(raw) == (Some(kind), body) <==> Matches(raw, kind, body) && kind in KINDS
  {
    var e := KindEnd(raw, 0);
    if ParseRef(raw) == (Some(kind), body) {
      assert raw == raw[..e] + ":" + raw[e + 1..];
    }
    if Matches(raw, kind, body) && kind in KINDS {
      ParseSpelled(kind, body);
    }
  }

  /** An ASCII letter or digit or one of eight marks, by code point. */
  predicate IsBodyCodePoint(n: int) {
    0x30 <= n <= 0x39 || 0x41 <= n <= 0x5A || 0x61 <= n <= 0x7A || n in {0x2B, 0x2D, 0x2E, 0x3A, 0x3D, 0x40, 0x5F, 0x7E}
  }

  lemma BodyCharByCodePoint(c: char)
    ensures IsBodyChar(c) <==> IsBodyCodePoint(c as int)
  {
  }

  /** A listed kind, a colon, and one to two hundred of these characters. */
  lemma ReadExactlyWhen(raw: string, kind: string, body: string)
    ensures ParseRef(raw) == (Some(kind), body) <==>
            && raw == kind + ":" + body && kind in KINDS
            && 1 <= |body| <= 200 && forall i :: 0 <= i < |body| ==> IsBodyCodePoint(body[i] as int)
  {
    ParseIsExact(raw, kind, body);
    if kind in KINDS {
      KindIsSpelledAsKind(kind);
    }
    forall i | 0 <= i < |body| ensures IsBodyChar(body[i]) <==> IsBodyCodePoint(body[i] as int) {
      BodyCharByCodePoint(body[i]);
    }
  }

  /** What is read as a reference prints as the text it was read from. */
  lemma SpellParsed(raw: string)
    requires ParseRef(raw).0.Some?
    ensures Spell(ParseRef(raw).0.value, ParseRef(raw).1) == raw
  {
    ParseIsExact(raw, ParseRef(raw).0.value, ParseRef(raw).1);
  }

  predicate IsOpaqueChar(c: char) {
    !PyText.IsSpace(c) && c !in "/\\\"'`$(){}<>|;&*?!#%,"
  }

  lemma BodyCharIsOpaque(c: char)
    requires IsBodyChar(c)
    ensures IsOpaqueChar(c)
  {
  }

  /** An accepted reference is opaque: no path, quote, blank or line break fits in it. */
  lemma AcceptedIsOpaque(raw: string, c: char)
    requires ParseRef(raw).0.Some? && c in raw
    ensures 3 <= |raw| <= 233
    ensures IsBodyChar(c) && IsOpaqueChar(c)
  {
    var kind, body := ParseRef(raw).0.value, ParseRef(raw).1;
    ParseIsExact(raw, kind, body);
    var i :| 0 <= i < |raw| && raw[i] == c;
    if i < |kind| {
      assert c == kind[i];
    } else if i > |kind| {
      assert c == body[i - |kind| - 1];
    }
    BodyCharIsOpaque(c);
  }

  /** A value accepted in the slot of one kind is refused wherever that kind is rejected. */
  lemma SlotsAreDisjoint(raw: string, kind: string, forbidden: set<string>)
    requires RequireAccepts(raw, kind)
    ensures RejectAccepts(Some(raw), forbidden) <==> kind !in forbidden
  {
  }

  // ----- the forgiven newline -----

  lemma NewlineIsUntyped(s: string)
    requires '\n' in s
    ensures ParseRef(s).0.None?
  {
    if ParseRef(s).0.Some? {
      AcceptedIsOpaque(s, '\n');
    }
  }

  /** The text `reject_ref_kinds` judges: one trailing newline is looked through. */
  function Judged(s: string): string {
    if EndsInNewline(s) then s[..|s| - 1] else s
  }

  /** A value is refused exactly when, with one trailing newline dropped, it spells a forbidden kind. */
  lemma RejectIsExact(s: string, forbidden: set<string>)
    ensures !RejectAccepts(Some(s), forbidden) <==>
            exists kind, body :: kind in KINDS && kind in forbidden && Matches(Judged(s), kind, body)
  {
    if EndsInNewline(s) {
      NewlineIsUntyped(s);
    }
    var t := Judged(s);
    if !RejectAccepts(Some(s), forbidden) {
      ParseIsExact(t, ParseRef(t).0.value, ParseRef(t).1);
    }
    forall kind, body | kind in KINDS && kind in forbidden && Matches(t, kind, body)
      ensures !RejectAccepts(Some(s), forbidden)
    {
      ParseIsExact(t, kind, body);
    }
  }

  /**
   Appending a newline leaves the answer alone, except for a value that already ends in one and is refused
   for what stands before it.
   */
  lemma NewlineInvariance(s: string, forbidden: set<string>)
    ensures RejectAccepts(Some(s + "\n"), forbidden) == RejectAccepts(Some(s), forbidden) <==>
            !(EndsInNewline(s) && Forbidden(ParseRef(s[..|s| - 1]).0, forbidden))
  {
    var n := s + "\n";
    assert n[|n| - 1] == '\n' && n[..|n| - 1] == s;
    NewlineIsUntyped(n);
    if EndsInNewline(s) {
      NewlineIsUntyped(s);
    }
  }

  /** Two newlines hide a forbidden kind that one newline does not. */
  lemma TwoNewlinesHide(kind: string, body: string, forbidden: set<string>)
    requires kind in KINDS && kind in forbidden && IsBody(body)
    ensures !RejectAccepts(Some(Spell(kind, body) + "\n"), forbidden)
    ensures RejectAccepts(Some(Spell(kind, body) + "\n\n"), forbidden)
  {
    var s := Spell(kind, body);
    ParseSpelled(kind, body);
    NewlineInvariance(s, forbidden);
    AcceptedHasNoNewline(s);
    NewlineInvariance(s + "\n", forbidden);
    assert (s + "\n")[..|s + "\n"| - 1] == s;
    assert s + "\n" + "\n" == s + "\n\n";
  }

  lemma AcceptedHasNoNewline(s: string)
    requires ParseRef(s).0.Some?
    ensures !EndsInNewline(s)
  {
    if EndsInNewline(s) {
      NewlineIsUntyped(s);
    }
  }
}
