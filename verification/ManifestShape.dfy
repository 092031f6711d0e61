/** The bytes a release is signed over, spelled out. */
module ManifestShape {
  import opened Outcomes
  import opened Json
  import opened JsonShape
  import opened JsonText
  import opened Canonical
  import opened Digests
  import opened Integrity
  import opened Manifest
  import opened PyText
  import opened ReleaseBinding
  import Utf8

  const BODY_FIELDS: seq<string> := ["covered", "files", "package_version", "release_candidate", "schema_version"]

  const SURFACE_FIELDS: seq<string> := ["files", "roots"]

  /** A list of one text that needs no escape. */
  function ListText(s: string): string {
    "[\"" + s + "\"]"
  }

  /** The covered surface, as it is printed. */
  function SurfaceText(): string {
    "{" + FieldTexts(SURFACE_FIELDS, [ListText("pyproject.toml"), ListText("src")]) + "}"
  }

  function BodyTexts(h: Hash, r: Release): (texts: seq<string>)
    ensures |texts| == |BODY_FIELDS|
  {
    [ SurfaceText(), Compact(SortKeys(Obj(Files(h, r))), false), Quoted(r.version, false), Quoted(r.candidate, false),
      "\"" + "fabric-release-candidate-digest/v0.1" + "\"" ]
  }

  lemma BodyFieldsInOrder(i: nat)
    requires i + 1 < |BODY_FIELDS|
    ensures Less(BODY_FIELDS[i], BODY_FIELDS[i + 1])
  {
  }

  /** Lower-case letters and underscores. */
  predicate IsFieldName(s: string) {
    forall i :: 0 <= i < |s| ==> 'a' <= s[i] <= 'z' || s[i] == '_'
  }

  lemma BodyFieldsAreNames(i: nat)
    requires i < |BODY_FIELDS|
    ensures IsFieldName(BODY_FIELDS[i])
  {
  }

  lemma NamesArePlain(names: seq<string>)
    requires forall i :: 0 <= i < |names| ==> IsFieldName(names[i])
    ensures forall i :: 0 <= i < |names| ==> AllPrintableAscii(names[i]) && NothingToEscape(names[i])
  {
  }

  function BodyMembers(surface: Json, files: Json, version: string, candidate: string, schema: string): (ms: Dict)
    ensures |ms| == |BODY_FIELDS| && forall i :: 0 <= i < |ms| ==> ms[i].key == BODY_FIELDS[i]
  {
    [ Member("covered", surface), Member("files", files), Member("package_version", Str(version)),
      Member("release_candidate", Str(candidate)), Member("schema_version", Str(schema)) ]
  }

  function SortedBody(h: Hash, r: Release): Dict {
    BodyMembers(SortKeys(COVERED_SURFACE), SortKeys(Obj(Files(h, r))), r.version, r.candidate, SCHEMA_VERSION)
  }

  lemma SortedBodyPlaces(h: Hash, r: Release)
    ensures var ms, body := SortedBody(h, r), Body(h, r);
            && |body| == 5
            && ms[0] == Member(body[3].key, SortKeys(body[3].val))
            && ms[1] == Member(body[4].key, SortKeys(body[4].val))
            && ms[2] == Member(body[2].key, SortKeys(body[2].val))
            && ms[3] == Member(body[1].key, SortKeys(body[1].val))
            && ms[4] == Member(body[0].key, SortKeys(body[0].val))
  {
  }

  /** Five members listed in another order, their values sorted. */
  lemma FiveMembers(body: Dict, ns: Dict)
    requires |body| == |ns| == 5
    requires ns[0] == Member(body[3].key, SortKeys(body[3].val)) && ns[1] == Member(body[4].key, SortKeys(body[4].val))
    requires ns[2] == Member(body[2].key, SortKeys(body[2].val)) && ns[3] == Member(body[1].key, SortKeys(body[1].val))
    requires ns[4] == Member(body[0].key, SortKeys(body[0].val))
    ensures forall x :: x in SortKeys(Obj(body)).members <==> x in ns
  {
    var ms := SortKeys(Obj(body)).members;
    forall x | x in ms ensures x in ns {
      var i := SortedMemberFrom(body, x);
      assert x == ns[if i == 0 then 4 else if i == 1 then 3 else if i == 2 then 2 else if i == 3 then 0 else 1];
    }
    forall x | x in ns ensures x in ms {
      var j :| 0 <= j < |ns| && ns[j] == x;
      SortedMemberOf(body, if j == 0 then 3 else if j == 1 then 4 else if j == 2 then 2 else if j == 3 then 1 else 0);
    }
  }

  lemma BodySorts(h: Hash, r: Release)
    ensures SortKeys(Obj(Body(h, r))) == Obj(SortedBody(h, r))
  {
    var body, ms, ns := Body(h, r), SortKeys(Obj(Body(h, r))).members, SortedBody(h, r);
    forall i | 0 <= i && i + 1 < |ns| ensures Less(ns[i].key, ns[i + 1].key) {
      BodyFieldsInOrder(i);
    }
    ChainSorted(ns);
    BodyIsProper(h, r);
    SortKeysSorted(body);
    SortedBodyPlaces(h, r);
    FiveMembers(body, ns);
    SortedUnique(ms, ns);
  }

  lemma PlainQuoted(s: string)
    requires NothingToEscape(s)
    ensures Quoted(s, false) == "\"" + s + "\""
  {
    CharsAsTheyAre(s);
  }

  lemma ListOfOne(s: string)
    requires NothingToEscape(s)
    ensures Compact(Arr([Str(s)]), false) == ListText(s)
  {
    PlainQuoted(s);
    assert CompactItems([Str(s)], false) == Quoted(s, false);
  }

  lemma SortedSurface(file: string, root: string)
    requires Less("files", "roots")
    ensures SortKeys(Obj([Member("roots", Arr([Str(root)])), Member("files", Arr([Str(file)]))])) ==
            Obj([Member("files", Arr([Str(file)])), Member("roots", Arr([Str(root)]))])
  {
    SortTwo(Member("files", Arr([Str(file)])), Member("roots", Arr([Str(root)])));
    assert SortItems([Str(root)]) == [Str(root)] && SortItems([Str(file)]) == [Str(file)];
  }

  lemma SurfaceNames()
    ensures Less("files", "roots") && IsFieldName("files") && IsFieldName("roots")
  {
  }

  lemma SurfaceFields(file: string, root: string)
    requires NothingToEscape(file) && NothingToEscape(root)
    ensures Compact(Obj([Member("files", Arr([Str(file)])), Member("roots", Arr([Str(root)]))]), false) ==
            "{" + FieldTexts(SURFACE_FIELDS, [ListText(file), ListText(root)]) + "}"
  {
    var ms := [Member("files", Arr([Str(file)])), Member("roots", Arr([Str(root)]))];
    SurfaceNames();
    NamesArePlain(SURFACE_FIELDS);
    ListOfOne(file);
    ListOfOne(root);
    MembersAreFields(ms, SURFACE_FIELDS, [ListText(file), ListText(root)], false);
    ObjectText(ms, false);
  }

  lemma PlainTexts()
    ensures NothingToEscape("pyproject.toml") && NothingToEscape("src")
    ensures NothingToEscape("fabric-release-candidate-digest/v0.1")
  {
  }

  lemma SurfaceTextIs()
    ensures Compact(SortKeys(COVERED_SURFACE), false) == SurfaceText()
  {
    var file, root := "pyproject.toml", "src";
    PlainTexts();
    SurfaceNames();
    SortedSurface(file, root);
    SurfaceFields(file, root);
  }

  lemma SchemaText(s: string)
    requires s == "fabric-release-candidate-digest/v0.1"
    ensures Compact(Str(s), false) == "\"" + s + "\""
  {
    PlainTexts();
    PlainQuoted(s);
  }

  lemma ValueTexts(surface: Json, files: Json, version: string, candidate: string, schema: string, i: nat)
    requires i < |BODY_FIELDS|
    ensures Compact(BodyMembers(surface, files, version, candidate, schema)[i].val, false) ==
            [ Compact(surface, false), Compact(files, false), Quoted(version, false), Quoted(candidate, false),
              Quoted(schema, false) ][i]
  {
  }

  lemma BodyTextsAre(h: Hash, r: Release, i: nat, schema: string)
    requires i < |BODY_FIELDS| && schema == SCHEMA_VERSION
    ensures Compact(SortedBody(h, r)[i].val, false) == BodyTexts(h, r)[i]
  {
    SurfaceTextIs();
    SchemaText(schema);
    ValueTexts(SortKeys(COVERED_SURFACE), SortKeys(Obj(Files(h, r))), r.version, r.candidate, schema, i);
  }

  lemma BodyText(h: Hash, r: Release, ms: Dict, names: seq<string>, texts: seq<string>)
    requires ms == SortedBody(h, r) && names == BODY_FIELDS && texts == BodyTexts(h, r)
    ensures Compact(Obj(ms), false) == "{" + FieldTexts(names, texts) + "}"
  {
    forall i | 0 <= i < |names| ensures IsFieldName(names[i]) {
      BodyFieldsAreNames(i);
    }
    NamesArePlain(names);
    forall i | 0 <= i < |ms| ensures Compact(ms[i].val, false) == texts[i] {
      BodyTextsAre(h, r, i, SCHEMA_VERSION);
    }
    MembersAreFields(ms, names, texts, false);
    ObjectText(ms, false);
  }

  lemma {:induction false} WithoutNone(ms: Dict, names: set<string>)
    requires forall i :: 0 <= i < |ms| ==> ms[i].key !in names
    ensures Without(ms, names) == ms
  {
    if ms != [] {
      WithoutNone(ms[1..], names);
    }
  }

  lemma BodyIsWhole(body: Dict, names: set<string>)
    requires Bare(body) && names == Unbound()
    ensures Without(body, names) == body
  {
    forall i | 0 <= i < |body| ensures body[i].key !in names {
      assert HasKey(body, body[i].key);
    }
    WithoutNone(body, names);
  }

  lemma BodyBytes(h: Hash, r: Release, text: string)
    requires text == "{" + FieldTexts(BODY_FIELDS, BodyTexts(h, r)) + "}"
    ensures CanonicalBytes(Obj(Body(h, r))) == Ok(Utf8.Encode(text))
  {
    BodyIsProper(h, r);
    CanonicalTextIs(Obj(Body(h, r)));
    BodySorts(h, r);
    BodyText(h, r, SortedBody(h, r), BODY_FIELDS, BodyTexts(h, r));
  }

  lemma SignedIsBody(h: Hash, r: Release, data: Utf8.Bytes)
    requires r.tracked != [] && CanonicalBytes(Obj(Body(h, r))) == Ok(data)
    ensures SignableBytes(Obj(ManifestOf(h, r))) == Ok(data)
    ensures Get(ManifestOf(h, r), DIGEST_FIELD) == Some(Str(Sha256Text(h, data)))
  {
    var body := Body(h, r);
    var text := ManifestIsBodyAndDigest(h, r);
    BodyIsProper(h, r);
    BodyIsWhole(body, Unbound());
    WithoutSet(body, Unbound(), DIGEST_FIELD, Str(text));
  }

  lemma DigestFieldIs()
    ensures DIGEST_FIELD == "content_digest"
  {
  }

  /**
   The bytes to sign of a built manifest, and the digest it carries: five fields in order, nothing between the
   tokens, neither the digest nor a locator among them.
   */
  lemma SignedTextIs(h: Hash, r: Release)
    requires r.tracked != []
    ensures var text := "{" + FieldTexts(BODY_FIELDS, BodyTexts(h, r)) + "}";
            && SignableBytes(Obj(ManifestOf(h, r))) == Ok(Utf8.Encode(text))
            && Get(ManifestOf(h, r), "content_digest") == Some(Str("sha256:" + Hex(h(Utf8.Encode(text)))))
  {
    var text := "{" + FieldTexts(BODY_FIELDS, BodyTexts(h, r)) + "}";
    BodyBytes(h, r, text);
    SignedIsBody(h, r, Utf8.Encode(text));
    DigestFieldIs();
  }
}
