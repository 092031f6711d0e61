/** The release-candidate manifest: `tools/rc_digest.py` and the signable bytes of `tools/rc_signature.py`. */
module Manifest {
  import opened Outcomes
  import opened Json
  import opened JsonShape
  import opened JsonText
  import opened JsonParser
  import opened JsonRoundTrip
  import opened JsonTextFacts
  import opened Canonical
  import opened Digests
  import opened Integrity
  import opened StringOrder
  import opened PyText
  import Utf8

  const SCHEMA_VERSION := "fabric-release-candidate-digest/v0.1"
  const DIGEST_FIELD := "content_digest"

  /** The roots and single files whose content makes up a candidate. */
  const COVERED_SURFACE := Obj([Member("roots", Arr([Str("src")])), Member("files", Arr([Str("pyproject.toml")]))])

  datatype BuildError = NoTrackedFiles | DigestFailure(error: IntegrityError)

  /**
   What a manifest is built from: the tracked paths of the covered surface, the bytes at each, the candidate's
   name and the package version.
   */
  datatype Release = Release(tracked: seq<string>, read: string -> Utf8.Bytes, candidate: string, version: string)

  /** `_file_digest`. */
  function FileDigest(h: Hash, r: Release, path: string): string {
    Sha256Text(h, r.read(path))
  }

  /** The `files` dict: each path with the digest of its bytes. */
  function FileDigests(h: Hash, r: Release, paths: seq<string>): Dict {
    if paths == [] then []
    else
      var last := paths[|paths| - 1];
      Set(FileDigests(h, r, paths[..|paths| - 1]), last, Str(FileDigest(h, r, last)))
  }

  /** The manifest before its own digest is stored. */
  function Undigested(files: Dict, candidate: string, version: string): Dict {
    [ Member("schema_version", Str(SCHEMA_VERSION)),
      Member("release_candidate", Str(candidate)),
      Member("package_version", Str(version)),
      Member("covered", COVERED_SURFACE),
      Member("files", Obj(files)) ]
  }

  function Files(h: Hash, r: Release): Dict {
    FileDigests(h, r, SortStrings(r.tracked))
  }

  /** What the digest of a manifest covers: everything but the digest. */
  function Body(h: Hash, r: Release): Dict {
    Undigested(Files(h, r), r.candidate, r.version)
  }

  /** `build_manifest`. */
  function Built(h: Hash, r: Release): Result<Dict, BuildError> {
    if r.tracked == [] then Err(NoTrackedFiles)
    else
      match Seal(h, Body(h, r), DIGEST_FIELD, DEFAULT_DIGEST_EXCLUSIONS)
      case Err(e) => Err(DigestFailure(e))
      case Ok(ms) => Ok(ms)
  }

  /** The `files` dict answers for exactly the tracked paths, each with the digest of its bytes. */
  ghost predicate ListsFiles(h: Hash, files: Dict, r: Release) {
    forall p: string :: Get(files, p) == if p in r.tracked then Some(Str(FileDigest(h, r, p))) else None
  }

  /** A manifest that says what it was built from, and carries its own correct digest and nothing else. */
  ghost predicate Describes(h: Hash, ms: Dict, r: Release) {
    && Get(ms, "schema_version") == Some(Str(SCHEMA_VERSION))
    && Get(ms, "release_candidate") == Some(Str(r.candidate))
    && Get(ms, "package_version") == Some(Str(r.version))
    && Get(ms, "covered") == Some(COVERED_SURFACE)
    && (exists files :: Get(ms, "files") == Some(Obj(files)) && ListsFiles(h, files, r))
    && AssertContentDigest(h, Obj(ms), DIGEST_FIELD, DEFAULT_DIGEST_EXCLUSIONS).Ok?
    && Get(ms, DIGEST_FIELD).Some?
    && |ms| == 6
  }

  /** `build_manifest`: refused for an empty tree only; otherwise the tree is listed and the digest is correct. */
  method BuildManifest(h: Hash, release: Release) returns (r: Result<Dict, BuildError>)
    ensures r == Built(h, release)
    ensures r.Ok? <==> release.tracked != []
    ensures r.Ok? ==> Describes(h, r.value, release)
  {
    if release.tracked == [] {
      return Err(NoTrackedFiles);
    }
    var paths := SortStrings(release.tracked);
    var files: Dict := [];
    for i := 0 to |paths|
      invariant files == FileDigests(h, release, paths[..i])
    {
      files := Set(files, paths[i], Str(FileDigest(h, release, paths[i])));
      assert paths[..i + 1][..i] == paths[..i];
    }
    assert paths[..|paths|] == paths;
    var manifest := Undigested(files, release.candidate, release.version);
    match ContentDigest(h, Obj(manifest), Some(DIGEST_FIELD), DEFAULT_DIGEST_EXCLUSIONS) {
      case Err(e) =>
        r := Err(DigestFailure(e));
      case Ok(text) =>
        manifest := Set(manifest, DIGEST_FIELD, Str(text));
        r := Ok(manifest);
    }
    BuiltDescribes(h, release);
  }

  /** `json.dumps(manifest, indent=2, sort_keys=True, ensure_ascii=False) + "\n"`. */
  function ManifestText(manifest: Json): string {
    SortedText(manifest, MANIFEST_FILE) + "\n"
  }

  /** The written file: two blanks to a level, a blank after each colon, and a final line feed. */
  lemma ManifestTextIs(manifest: Json)
    ensures ManifestText(manifest) == Indented(SortKeys(manifest), 0, false) + "\n"
  {
    SortedTextIsIndented(manifest, false);
  }

  datatype CheckError = NotJson | NotCanonical | Differs

  /** `--check`: the recorded file against the manifest of the current tree. */
  function CheckManifest(recordedText: string, manifest: Json): Result<(), CheckError> {
    match Parse(recordedText)
    case None => Err(NotJson)
    case Some(recorded) =>
      match (CanonicalText(recorded), CanonicalText(manifest))
      case (Ok(a), Ok(b)) => if a == b then Ok(()) else Err(Differs)
      case _ => Err(NotCanonical)
  }

  /** `signable_bytes`: the canonical bytes the content digest covers. */
  function SignableBytes(manifest: Json): Result<Utf8.Bytes, IntegrityError> {
    match Covered(manifest, Some(DIGEST_FIELD), DEFAULT_DIGEST_EXCLUSIONS)
    case Err(e) => Err(e)
    case Ok(covered) =>
      match CanonicalBytes(Obj(covered))
      case Err(_) => Err(Unencodable)
      case Ok(data) => Ok(data)
  }

  /** Reading a written manifest gives the manifest back. */
  lemma ParseManifestText(manifest: Json)
    requires WellFormed(manifest)
    ensures Parse(ManifestText(manifest)) == Some(SortKeys(manifest))
    ensures Same(manifest, SortKeys(manifest))
  {
    SortKeysWellFormed(manifest);
    SortKeysSame(manifest);
    EmitThen(SortKeys(manifest), MANIFEST_FILE, 0, "", "\n");
    assert "" + "\n" == "\n";
    EmitStart(SortKeys(manifest), MANIFEST_FILE, 0, "\n");
    ParseEmitted(SortKeys(manifest), MANIFEST_FILE, 0, "\n");
    assert SkipBlanks("\n") == "";
  }

  /** `--check` passes exactly when the recorded text holds a value equal to the rebuilt manifest. */
  lemma CheckDecidesEquality(recordedText: string, manifest: Json)
    requires WellFormed(manifest) && Finite(manifest)
    ensures CheckManifest(recordedText, manifest).Ok? <==>
              Parse(recordedText).Some? && Same(Parse(recordedText).value, manifest)
  {
    ParseWellFormed(recordedText);
    if Parse(recordedText).Some? {
      var recorded := Parse(recordedText).value;
      TextDeterminesValue(recorded, manifest, CANONICAL);
      if Same(recorded, manifest) {
        SameFinite(recorded, manifest);
      }
    }
  }

  /** Two equal manifests have the same bytes to sign, however each was written down. */
  lemma SignableIgnoresLayout(a: Json, b: Json)
    requires WellFormed(a) && WellFormed(b) && Same(a, b)
    ensures SignableBytes(a) == SignableBytes(b)
  {
    if a.Obj? {
      var ms, ns, names := a.members, b.members, Uncovered(Some(DIGEST_FIELD), DEFAULT_DIGEST_EXCLUSIONS);
      SameDictByLookup(ms, ns);
      forall k | k !in names ensures SameLookup(Get(ms, k), Get(ns, k)) {
      }
      if Finite(Obj(Without(ms, names))) {
        BytesCoverOutside(ms, ns, names);
      } else if Finite(Obj(Without(ns, names))) {
        SameDictByLookup(ns, ms);
        SameSymmetric(a, b);
        BytesCoverOutside(ns, ms, names);
      }
    }
  }

  /** Writing a manifest with indentation and reading it back changes neither the check nor the signed bytes. */
  lemma WrittenManifestChecks(manifest: Json)
    requires WellFormed(manifest) && Finite(manifest)
    ensures CheckManifest(ManifestText(manifest), manifest).Ok?
    ensures SignableBytes(Parse(ManifestText(manifest)).value) == SignableBytes(manifest)
  {
    ParseManifestText(manifest);
    SortKeysWellFormed(manifest);
    SameSymmetric(manifest, SortKeys(manifest));
    CheckDecidesEquality(ManifestText(manifest), manifest);
    SignableIgnoresLayout(manifest, SortKeys(manifest));
  }

  /** A locator added after signing leaves the signed bytes alone. */
  lemma LocatorKeepsSignedBytes(ms: Dict, locator: Json)
    ensures SignableBytes(Obj(Set(ms, LOCATOR_FIELD, locator))) == SignableBytes(Obj(ms))
  {
    WithoutSet(ms, Uncovered(Some(DIGEST_FIELD), DEFAULT_DIGEST_EXCLUSIONS), LOCATOR_FIELD, locator);
  }

  /** The file with the locator no longer passes `--check` against the tree it was built from. */
  lemma LocatorFailsCheck(ms: Dict, locator: Json)
    requires WellFormedDict(ms) && Finite(Obj(ms)) && WellFormed(locator)
    requires Get(ms, LOCATOR_FIELD) == None
    ensures !CheckManifest(ManifestText(Obj(Set(ms, LOCATOR_FIELD, locator))), Obj(ms)).Ok?
  {
    var signed := Set(ms, LOCATOR_FIELD, locator);
    SetWellFormed(ms, LOCATOR_FIELD, locator);
    GetSet(ms, LOCATOR_FIELD, locator);
    ParseManifestText(Obj(signed));
    SortKeysWellFormed(Obj(signed));
    CheckDecidesEquality(ManifestText(Obj(signed)), Obj(ms));
    AddedFieldDiffers(signed, ms, LOCATOR_FIELD);
    if Same(SortKeys(Obj(signed)), Obj(ms)) {
      SameTransitive(Obj(signed), SortKeys(Obj(signed)), Obj(ms));
    }
  }

  lemma AddedFieldDiffers(a: Dict, b: Dict, k: string)
    requires WellFormedDict(a) && WellFormedDict(b) && Get(a, k).Some? && Get(b, k) == None
    ensures !Same(Obj(a), Obj(b))
  {
    SameDictByLookup(a, b);
    assert !SameLookup(Get(a, k), Get(b, k));
  }

  // ----- a built manifest -----

  lemma {:induction false} FileDigestsWellFormed(h: Hash, r: Release, paths: seq<string>)
    ensures WellFormedDict(FileDigests(h, r, paths)) && Finite(Obj(FileDigests(h, r, paths)))
  {
    if paths != [] {
      var shorter, last := paths[..|paths| - 1], paths[|paths| - 1];
      var ms := FileDigests(h, r, shorter);
      FileDigestsWellFormed(h, r, shorter);
      SetWellFormed(ms, last, Str(FileDigest(h, r, last)));
      SetFinite(ms, last, Str(FileDigest(h, r, last)));
    }
  }

  lemma {:induction false} FileDigestsLookup(h: Hash, r: Release, paths: seq<string>, p: string)
    ensures Get(FileDigests(h, r, paths), p) == if p in paths then Some(Str(FileDigest(h, r, p))) else None
  {
    if paths != [] {
      var shorter, last := paths[..|paths| - 1], paths[|paths| - 1];
      assert paths == shorter + [last];
      FileDigestsLookup(h, r, shorter, p);
      if p == last {
        GetSet(FileDigests(h, r, shorter), last, Str(FileDigest(h, r, last)));
      } else {
        GetSetOther(FileDigests(h, r, shorter), last, Str(FileDigest(h, r, last)), p);
      }
    }
  }

  lemma SortedHasTheSame(paths: seq<string>, p: string)
    ensures p in SortStrings(paths) <==> p in paths
  {
    assert p in multiset(SortStrings(paths)) <==> p in multiset(paths);
  }

  /** The files of a manifest, whatever order they were listed in. */
  lemma FilesAreListed(h: Hash, r: Release)
    ensures ListsFiles(h, Files(h, r), r)
  {
    forall p: string
      ensures Get(Files(h, r), p) == if p in r.tracked then Some(Str(FileDigest(h, r, p))) else None
    {
      SortedHasTheSame(r.tracked, p);
      FileDigestsLookup(h, r, SortStrings(r.tracked), p);
    }
  }

  lemma SetFinite(ms: Dict, k: string, v: Json)
    requires UniqueKeys(ms) && Finite(Obj(ms)) && Finite(v)
    ensures Finite(Obj(Set(ms, k, v)))
  {
    SetMembers(ms, k, v);
    var r := Set(ms, k, v);
    forall i | 0 <= i < |r| ensures Finite(r[i].val) {
      assert r[i] in r;
    }
  }

  lemma UndigestedWellFormed(files: Dict, candidate: string, version: string)
    requires WellFormedDict(files) && Finite(Obj(files))
    ensures WellFormedDict(Undigested(files, candidate, version))
    ensures Finite(Obj(Undigested(files, candidate, version)))
  {
    var ms := Undigested(files, candidate, version);
    assert |ms[0].key| == 14 && |ms[1].key| == 17 && |ms[2].key| == 15 && |ms[3].key| == 7 && |ms[4].key| == 5;
    UniqueByLength(ms);
    CoveredSurfaceWellFormed();
  }

  lemma BodyWellFormed(h: Hash, r: Release)
    ensures WellFormedDict(Body(h, r)) && Finite(Obj(Body(h, r)))
  {
    FileDigestsWellFormed(h, r, SortStrings(r.tracked));
    UndigestedWellFormed(Files(h, r), r.candidate, r.version);
  }

  lemma UniqueByLength(ms: Dict)
    requires forall i, j :: 0 <= i < j < |ms| ==> |ms[i].key| != |ms[j].key|
    ensures UniqueKeys(ms)
  {
  }

  lemma CoveredSurfaceWellFormed()
    ensures WellFormed(COVERED_SURFACE) && Finite(COVERED_SURFACE)
  {
    var ms := COVERED_SURFACE.members;
    assert ms[0].key[0] == 'r' && ms[1].key[0] == 'f';
  }

  lemma WithoutFinite(ms: Dict, names: set<string>)
    requires UniqueKeys(ms) && Finite(Obj(ms))
    ensures Finite(Obj(Without(ms, names)))
  {
    WithoutMembers(ms, names);
    var r := Without(ms, names);
    forall i | 0 <= i < |r| ensures Finite(r[i].val) {
      assert r[i] in r;
    }
  }

  /** Every non-empty tree has a manifest; it carries its own correct digest and its written form passes the check. */
  lemma BuiltManifestIsSound(h: Hash, r: Release)
    requires r.tracked != []
    ensures var m := Built(h, r);
            && m.Ok?
            && WellFormedDict(m.value) && Finite(Obj(m.value))
            && AssertContentDigest(h, Obj(m.value), DIGEST_FIELD, DEFAULT_DIGEST_EXCLUSIONS).Ok?
            && CheckManifest(ManifestText(Obj(m.value)), Obj(m.value)).Ok?
  {
    var ms := Body(h, r);
    BodyWellFormed(h, r);
    WithoutFinite(ms, Uncovered(Some(DIGEST_FIELD), DEFAULT_DIGEST_EXCLUSIONS));
    SealedIsAccepted(h, ms, DIGEST_FIELD, DEFAULT_DIGEST_EXCLUSIONS);
    var digest := Str(ContentDigest(h, Obj(ms), Some(DIGEST_FIELD), DEFAULT_DIGEST_EXCLUSIONS).value);
    SetWellFormed(ms, DIGEST_FIELD, digest);
    SetFinite(ms, DIGEST_FIELD, digest);
    WrittenManifestChecks(Obj(Set(ms, DIGEST_FIELD, digest)));
  }

  /** The two fields no body has. */
  predicate Bare(ms: Dict) {
    Get(ms, DIGEST_FIELD) == None && Get(ms, LOCATOR_FIELD) == None
  }

  lemma BodyIsBare(files: Dict, candidate: string, version: string)
    ensures var ms := Undigested(files, candidate, version); Bare(ms) && !HasKey(ms, DIGEST_FIELD)
  {
    var ms := Undigested(files, candidate, version);
    assert |ms[0].key| == 14 && |ms[1].key| == 17 && |ms[2].key| == 15 && |ms[3].key| == 7 && |ms[4].key| == 5;
    assert |DIGEST_FIELD| == 14 && DIGEST_FIELD[0] != ms[0].key[0];
    assert |LOCATOR_FIELD| == 13;
  }

  lemma BodyFields(files: Dict, candidate: string, version: string, i: nat)
    requires WellFormedDict(files) && Finite(Obj(files)) && i < 5
    ensures var ms := Undigested(files, candidate, version); Get(ms, ms[i].key) == Some(ms[i].val)
  {
    UndigestedWellFormed(files, candidate, version);
    GetOfMember(Undigested(files, candidate, version), Undigested(files, candidate, version)[i]);
  }

  /** A built manifest is its body and then the digest of its body. */
  lemma BuiltIsBodyAndDigest(h: Hash, r: Release) returns (text: string)
    requires r.tracked != []
    ensures ContentDigest(h, Obj(Body(h, r)), Some(DIGEST_FIELD), DEFAULT_DIGEST_EXCLUSIONS) == Ok(text)
    ensures Built(h, r) == Ok(Set(Body(h, r), DIGEST_FIELD, Str(text)))
  {
    BuiltManifestIsSound(h, r);
    text := ContentDigest(h, Obj(Body(h, r)), Some(DIGEST_FIELD), DEFAULT_DIGEST_EXCLUSIONS).value;
  }

  /** What a manifest with its digest stored answers. */
  lemma DigestedLookup(body: Dict, text: string, k: string)
    ensures Get(Set(body, DIGEST_FIELD, Str(text)), k) == if k == DIGEST_FIELD then Some(Str(text)) else Get(body, k)
  {
    if k == DIGEST_FIELD {
      GetSet(body, k, Str(text));
    } else {
      GetSetOther(body, DIGEST_FIELD, Str(text), k);
    }
  }

  lemma BuiltField(h: Hash, r: Release, text: string, i: nat)
    requires i < 5
    ensures var body := Body(h, r); Get(Set(body, DIGEST_FIELD, Str(text)), body[i].key) == Some(body[i].val)
  {
    var body := Body(h, r);
    FileDigestsWellFormed(h, r, SortStrings(r.tracked));
    BodyFields(Files(h, r), r.candidate, r.version, i);
    BodyIsBare(Files(h, r), r.candidate, r.version);
    DigestedLookup(body, text, body[i].key);
  }

  lemma BuiltFields(h: Hash, r: Release, text: string)
    ensures var ms := Set(Body(h, r), DIGEST_FIELD, Str(text));
            && Get(ms, "schema_version") == Some(Str(SCHEMA_VERSION))
            && Get(ms, "release_candidate") == Some(Str(r.candidate))
            && Get(ms, "package_version") == Some(Str(r.version))
            && Get(ms, "covered") == Some(COVERED_SURFACE)
            && Get(ms, "files") == Some(Obj(Files(h, r)))
  {
    BuiltField(h, r, text, 0);
    BuiltField(h, r, text, 1);
    BuiltField(h, r, text, 2);
    BuiltField(h, r, text, 3);
    BuiltField(h, r, text, 4);
  }

  /** What a built manifest says: the tree, path by path, under the candidate and version it was built for. */
  lemma BuiltDescribes(h: Hash, r: Release)
    requires r.tracked != []
    ensures Built(h, r).Ok? && Describes(h, Built(h, r).value, r)
  {
    var text := BuiltIsBodyAndDigest(h, r);
    var body := Body(h, r);
    BuiltManifestIsSound(h, r);
    FilesAreListed(h, r);
    BodyIsBare(Files(h, r), r.candidate, r.version);
    SetFresh(body, DIGEST_FIELD, Str(text));
    DigestedLookup(body, text, DIGEST_FIELD);
    BuiltFields(h, r, text);
  }

  /** Listing the same paths in another order gives the same manifest. */
  lemma ListingOrderIsInvisible(h: Hash, r: Release, tracked: seq<string>)
    requires multiset(tracked) == multiset(r.tracked)
    ensures Built(h, r.(tracked := tracked)) == Built(h, r)
  {
    assert |tracked| == |multiset(tracked)| && |r.tracked| == |multiset(r.tracked)|;
    SortIgnoresOrder(tracked, r.tracked);
    SameReads(h, r.(tracked := tracked), r, SortStrings(tracked));
  }

  lemma {:induction false} SameReads(h: Hash, a: Release, b: Release, paths: seq<string>)
    requires a.read == b.read
    ensures FileDigests(h, a, paths) == FileDigests(h, b, paths)
  {
    if paths != [] {
      SameReads(h, a, b, paths[..|paths| - 1]);
    }
  }
}
