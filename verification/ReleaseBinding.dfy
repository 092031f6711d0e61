/**
 What a release manifest binds: its digest, the `--check` comparison and the signed bytes all determine the
 tree it was built from, and a detached signature survives every rewriting of the manifest file.
 */
module ReleaseBinding {
  import opened Outcomes
  import opened Json
  import opened JsonParser
  import opened JsonRoundTrip
  import opened JsonText
  import opened JsonTextFacts
  import opened Canonical
  import opened Digests
  import opened Integrity
  import opened Manifest
  import opened PyText
  import R = ReleaseSignature
  import StringOrder
  import Utf8

  /** The fields the digest of a manifest leaves out. */
  function Unbound(): (names: set<string>)
    ensures names == {DIGEST_FIELD, LOCATOR_FIELD}
  {
    assert DEFAULT_DIGEST_EXCLUSIONS[0] == LOCATOR_FIELD;
    Uncovered(Some(DIGEST_FIELD), DEFAULT_DIGEST_EXCLUSIONS)
  }

  // ----- when two manifests are about the same release -----

  /** The same paths, with the same bytes at each, or bytes that collide under the hash. */
  ghost predicate SameContent(h: Hash, a: Release, b: Release) {
    && (forall p: string :: p in a.tracked <==> p in b.tracked)
    && forall p: string :: p in a.tracked ==> a.read(p) == b.read(p) || Collision(h, a.read(p), b.read(p))
  }

  ghost predicate SameRelease(h: Hash, a: Release, b: Release) {
    a.candidate == b.candidate && a.version == b.version && SameContent(h, a, b)
  }

  /** At one path: absent from both trees, or tracked in both with the same bytes or colliding ones. */
  ghost predicate SameAt(h: Hash, a: Release, b: Release, p: string) {
    && (p in a.tracked <==> p in b.tracked)
    && (p in a.tracked ==> a.read(p) == b.read(p) || Collision(h, a.read(p), b.read(p)))
  }

  lemma LookupDecidesPath(h: Hash, a: Release, b: Release, p: string)
    ensures SameLookup(Get(Files(h, a), p), Get(Files(h, b), p)) <==> SameAt(h, a, b, p)
  {
    FilesAreListed(h, a);
    FilesAreListed(h, b);
    Sha256TextEqual(h, a.read(p), b.read(p));
  }

  /** Two `files` dicts are equal exactly when the trees have the same content. */
  lemma FilesDecideContent(h: Hash, a: Release, b: Release)
    ensures Same(Obj(Files(h, a)), Obj(Files(h, b))) <==> SameContent(h, a, b)
  {
    var x, y := Files(h, a), Files(h, b);
    FilesWellFormed(h, a);
    FilesWellFormed(h, b);
    SameDictByLookup(x, y);
    forall p: string ensures SameLookup(Get(x, p), Get(y, p)) <==> SameAt(h, a, b, p) {
      LookupDecidesPath(h, a, b, p);
    }
    ContentByPath(h, a, b);
  }

  lemma ContentByPath(h: Hash, a: Release, b: Release)
    ensures SameContent(h, a, b) <==> forall p: string :: SameAt(h, a, b, p)
  {
    if forall p: string :: SameAt(h, a, b, p) {
      forall p: string ensures p in a.tracked <==> p in b.tracked {
        assert SameAt(h, a, b, p);
      }
      forall p: string | p in a.tracked ensures a.read(p) == b.read(p) || Collision(h, a.read(p), b.read(p)) {
        assert SameAt(h, a, b, p);
      }
    }
  }

  lemma FilesWellFormed(h: Hash, r: Release)
    ensures WellFormedDict(Files(h, r)) && Finite(Obj(Files(h, r)))
  {
    FileDigestsWellFormed(h, r, StringOrder.SortStrings(r.tracked));
  }

  /** Two dicts with one list of keys are equal exactly when they are position by position. */
  lemma SameByPosition(a: Dict, b: Dict)
    requires UniqueKeys(a) && |a| == |b| && forall i :: 0 <= i < |a| ==> a[i].key == b[i].key
    ensures Same(Obj(a), Obj(b)) <==> forall i :: 0 <= i < |a| ==> Same(a[i].val, b[i].val)
  {
    forall i | 0 <= i < |a| ensures HasKey(b, a[i].key) && HasKey(a, b[i].key) {
    }
  }

  lemma UndigestedByField(filesA: Dict, a: Release, filesB: Dict, b: Release)
    requires WellFormedDict(filesA) && Finite(Obj(filesA))
    ensures Same(Obj(Undigested(filesA, a.candidate, a.version)), Obj(Undigested(filesB, b.candidate, b.version))) <==>
            a.candidate == b.candidate && a.version == b.version && Same(Obj(filesA), Obj(filesB))
  {
    var x, y := Undigested(filesA, a.candidate, a.version), Undigested(filesB, b.candidate, b.version);
    UndigestedWellFormed(filesA, a.candidate, a.version);
    SameByPosition(x, y);
    CoveredSurfaceWellFormed();
    SameReflexive(COVERED_SURFACE);
    FivePositions(x, y);
  }

  lemma FivePositions(x: Dict, y: Dict)
    requires |x| == |y| == 5
    ensures (forall i :: 0 <= i < |x| ==> Same(x[i].val, y[i].val)) <==>
            && Same(x[0].val, y[0].val) && Same(x[1].val, y[1].val) && Same(x[2].val, y[2].val)
            && Same(x[3].val, y[3].val) && Same(x[4].val, y[4].val)
  {
  }

  lemma BodiesDecideRelease(h: Hash, a: Release, b: Release)
    ensures Same(Obj(Body(h, a)), Obj(Body(h, b))) <==> SameRelease(h, a, b)
  {
    FilesWellFormed(h, a);
    UndigestedByField(Files(h, a), a, Files(h, b), b);
    FilesDecideContent(h, a, b);
  }

  // ----- dicts with and without their digest -----

  /** Dicts without either unbound field are equal exactly when they agree outside those fields. */
  lemma BareDictsAgree(x: Dict, y: Dict)
    requires WellFormedDict(x) && WellFormedDict(y) && Bare(x) && Bare(y)
    ensures AgreeOutside(x, y, Unbound()) <==> Same(Obj(x), Obj(y))
  {
    SameDictByLookup(x, y);
  }

  /** Storing a digest does not change what two dicts agree on elsewhere. */
  lemma DigestedDictsAgree(x: Dict, s: string, y: Dict, t: string)
    ensures AgreeOutside(Set(x, DIGEST_FIELD, Str(s)), Set(y, DIGEST_FIELD, Str(t)), Unbound()) <==>
            AgreeOutside(x, y, Unbound())
  {
    forall k | k !in Unbound()
      ensures Get(Set(x, DIGEST_FIELD, Str(s)), k) == Get(x, k) && Get(Set(y, DIGEST_FIELD, Str(t)), k) == Get(y, k)
    {
      DigestedLookup(x, s, k);
      DigestedLookup(y, t, k);
    }
  }

  /** Dicts with a digest stored are equal exactly when they were before and the digests agree. */
  lemma DigestedDictsSame(x: Dict, s: string, y: Dict, t: string)
    requires WellFormedDict(x) && WellFormedDict(y) && Bare(x) && Bare(y)
    ensures Same(Obj(Set(x, DIGEST_FIELD, Str(s))), Obj(Set(y, DIGEST_FIELD, Str(t)))) <==>
            Same(Obj(x), Obj(y)) && s == t
  {
    var p, q := Set(x, DIGEST_FIELD, Str(s)), Set(y, DIGEST_FIELD, Str(t));
    SetWellFormed(x, DIGEST_FIELD, Str(s));
    SetWellFormed(y, DIGEST_FIELD, Str(t));
    SameDictByLookup(x, y);
    SameDictByLookup(p, q);
    forall k
      ensures Get(p, k) == (if k == DIGEST_FIELD then Some(Str(s)) else Get(x, k)) &&
              Get(q, k) == (if k == DIGEST_FIELD then Some(Str(t)) else Get(y, k))
    {
      DigestedLookup(x, s, k);
      DigestedLookup(y, t, k);
    }
    if SameLookups(p, q) {
      assert SameLookup(Get(p, DIGEST_FIELD), Get(q, DIGEST_FIELD));
      forall k ensures SameLookup(Get(x, k), Get(y, k)) {
        assert SameLookup(Get(p, k), Get(q, k));
      }
    }
  }

  lemma BodyIsProper(h: Hash, r: Release)
    ensures WellFormedDict(Body(h, r)) && Finite(Obj(Body(h, r))) && Bare(Body(h, r))
    ensures Finite(Obj(Without(Body(h, r), Unbound())))
  {
    BodyWellFormed(h, r);
    BodyIsBare(Files(h, r), r.candidate, r.version);
    WithoutFinite(Body(h, r), Unbound());
  }

  lemma BodiesAgree(h: Hash, a: Release, b: Release)
    ensures AgreeOutside(Body(h, a), Body(h, b), Unbound()) <==> SameRelease(h, a, b)
  {
    BodyIsProper(h, a);
    BodyIsProper(h, b);
    BareDictsAgree(Body(h, a), Body(h, b));
    BodiesDecideRelease(h, a, b);
  }

  // ----- the digest, the check and the signed bytes -----

  /** The manifest of a non-empty tree. */
  function ManifestOf(h: Hash, r: Release): (m: Dict)
    requires r.tracked != []
    ensures Built(h, r) == Ok(m)
    ensures WellFormedDict(m) && Finite(Obj(m))
  {
    BuiltManifestIsSound(h, r);
    Built(h, r).value
  }

  lemma ManifestIsBodyAndDigest(h: Hash, r: Release) returns (text: string)
    requires r.tracked != []
    ensures ContentDigest(h, Obj(Body(h, r)), Some(DIGEST_FIELD), DEFAULT_DIGEST_EXCLUSIONS) == Ok(text)
    ensures ManifestOf(h, r) == Set(Body(h, r), DIGEST_FIELD, Str(text))
    ensures Get(ManifestOf(h, r), DIGEST_FIELD) == Some(Str(text))
  {
    text := BuiltIsBodyAndDigest(h, r);
    GetSet(Body(h, r), DIGEST_FIELD, Str(text));
  }

  /** The bytes the digests of two releases are computed over collide. */
  ghost predicate BodiesCollide(h: Hash, a: Release, b: Release) {
    BodyIsProper(h, a);
    BodyIsProper(h, b);
    Collision(h, CoveredBytes(Body(h, a), Unbound()), CoveredBytes(Body(h, b), Unbound()))
  }

  lemma BodyDigestsAgree(h: Hash, a: Release, b: Release)
    ensures ContentDigest(h, Obj(Body(h, a)), Some(DIGEST_FIELD), DEFAULT_DIGEST_EXCLUSIONS) ==
            ContentDigest(h, Obj(Body(h, b)), Some(DIGEST_FIELD), DEFAULT_DIGEST_EXCLUSIONS) <==>
            SameRelease(h, a, b) || BodiesCollide(h, a, b)
  {
    BodyIsProper(h, a);
    BodyIsProper(h, b);
    BodiesAgree(h, a, b);
    DigestCoversEverythingElse(h, Body(h, a), Body(h, b), Some(DIGEST_FIELD), DEFAULT_DIGEST_EXCLUSIONS);
  }

  /**
   The digest binds the tree: two manifests carry one digest exactly for the same candidate, version, paths
   and bytes, unless the hash collides on the files at one path or on the two bodies.
   */
  lemma DigestBindsRelease(h: Hash, a: Release, b: Release)
    requires a.tracked != [] && b.tracked != []
    ensures Get(ManifestOf(h, a), DIGEST_FIELD) == Get(ManifestOf(h, b), DIGEST_FIELD) <==>
            SameRelease(h, a, b) || BodiesCollide(h, a, b)
  {
    var s := ManifestIsBodyAndDigest(h, a);
    var t := ManifestIsBodyAndDigest(h, b);
    BodyDigestsAgree(h, a, b);
  }

  lemma ManifestsDecideRelease(h: Hash, a: Release, b: Release)
    requires a.tracked != [] && b.tracked != []
    ensures Same(Obj(ManifestOf(h, a)), Obj(ManifestOf(h, b))) <==> SameRelease(h, a, b)
  {
    var s := ManifestIsBodyAndDigest(h, a);
    var t := ManifestIsBodyAndDigest(h, b);
    BodyIsProper(h, a);
    BodyIsProper(h, b);
    DigestedDictsSame(Body(h, a), s, Body(h, b), t);
    BodiesDecideRelease(h, a, b);
    BodyDigestsAgree(h, a, b);
  }

  lemma SameThroughSorting(p: Json, q: Json)
    requires WellFormed(p) && WellFormed(q)
    ensures Same(SortKeys(p), q) <==> Same(p, q)
  {
    SortKeysWellFormed(p);
    SortKeysSame(p);
    SameSymmetric(p, SortKeys(p));
    if Same(p, q) {
      SameTransitive(SortKeys(p), p, q);
    }
    if Same(SortKeys(p), q) {
      SameTransitive(p, SortKeys(p), q);
    }
  }

  lemma WrittenManifestPasses(p: Json, q: Json)
    requires WellFormed(p) && WellFormed(q) && Finite(q)
    ensures CheckManifest(ManifestText(p), q).Ok? <==> Same(p, q)
  {
    ParseManifestText(p);
    CheckDecidesEquality(ManifestText(p), q);
    SameThroughSorting(p, q);
  }

  /**
   `--check` answers the question it is asked: the manifest written from release `a` passes against the tree of
   `b` exactly for the same candidate, version, paths and bytes, or bytes at one path that collide.
   */
  lemma CheckBindsRelease(h: Hash, a: Release, b: Release)
    requires a.tracked != [] && b.tracked != []
    ensures CheckManifest(ManifestText(Obj(ManifestOf(h, a))), Obj(ManifestOf(h, b))).Ok? <==> SameRelease(h, a, b)
  {
    WrittenManifestPasses(Obj(ManifestOf(h, a)), Obj(ManifestOf(h, b)));
    ManifestsDecideRelease(h, a, b);
  }

  /** What is signed determines every field but the digest and the locator. */
  lemma SignedBytesDetermineManifest(a: Dict, b: Dict)
    requires WellFormedDict(a) && WellFormedDict(b) && SignableBytes(Obj(a)).Ok?
    ensures SignableBytes(Obj(a)) == SignableBytes(Obj(b)) <==> AgreeOutside(a, b, Unbound())
  {
    BytesCoverOutside(a, b, Unbound());
  }

  lemma ManifestIsSignable(h: Hash, r: Release)
    requires r.tracked != []
    ensures SignableBytes(Obj(ManifestOf(h, r))).Ok?
  {
    WithoutFinite(ManifestOf(h, r), Unbound());
  }

  /** The signed bytes bind the tree: two manifests have the same exactly for the same release. */
  lemma SignedBytesBindRelease(h: Hash, a: Release, b: Release)
    requires a.tracked != [] && b.tracked != []
    ensures SignableBytes(Obj(ManifestOf(h, a))) == SignableBytes(Obj(ManifestOf(h, b))) <==> SameRelease(h, a, b)
  {
    var s := ManifestIsBodyAndDigest(h, a);
    var t := ManifestIsBodyAndDigest(h, b);
    ManifestIsSignable(h, a);
    SignedBytesDetermineManifest(ManifestOf(h, a), ManifestOf(h, b));
    DigestedDictsAgree(Body(h, a), s, Body(h, b), t);
    BodiesAgree(h, a, b);
  }

  /** The file with the locator of its signature added fails `--check` against the very tree it was built from. */
  lemma LocatedManifestFailsCheck(h: Hash, r: Release, locator: Json)
    requires r.tracked != [] && WellFormed(locator)
    ensures !CheckManifest(ManifestText(Obj(Set(ManifestOf(h, r), LOCATOR_FIELD, locator))), Obj(ManifestOf(h, r))).Ok?
    ensures CheckManifest(ManifestText(Obj(ManifestOf(h, r))), Obj(ManifestOf(h, r))).Ok?
  {
    var text := ManifestIsBodyAndDigest(h, r);
    BodyIsProper(h, r);
    DigestedLookup(Body(h, r), text, LOCATOR_FIELD);
    assert |LOCATOR_FIELD| == 13 && |DIGEST_FIELD| == 14;
    LocatorFailsCheck(ManifestOf(h, r), locator);
    WrittenManifestChecks(Obj(ManifestOf(h, r)));
  }

  // ----- verification of a manifest file -----

  datatype ReleaseError = UnreadableManifest | UnsignableManifest | NotVerified(error: R.SignatureError)

  /** `verify` from the texts of the manifest and of the signature file. */
  function Verdict(manifestText: string, signatureText: string, trusted: R.TrustedKeys, check: R.Verifier)
    : Result<seq<string>, ReleaseError>
  {
    match Parse(manifestText)
    case None => Err(UnreadableManifest)
    case Some(manifest) =>
      match SignableBytes(manifest)
      case Err(_) => Err(UnsignableManifest)
      case Ok(payload) =>
        match R.VerifyLines(SplitLines(signatureText), trusted, payload, check)
        case Err(e) => Err(NotVerified(e))
        case Ok(signers) => Ok(signers)
  }

  /** Files that hold equal values get one verdict: layout, key order and escapes of the manifest do not matter. */
  lemma RewritingKeepsVerdict(a: string, b: string, signatureText: string, trusted: R.TrustedKeys, check: R.Verifier)
    requires Parse(a).Some? && Parse(b).Some? && Same(Parse(a).value, Parse(b).value)
    ensures Verdict(a, signatureText, trusted, check) == Verdict(b, signatureText, trusted, check)
  {
    ParseWellFormed(a);
    ParseWellFormed(b);
    SignableIgnoresLayout(Parse(a).value, Parse(b).value);
  }

  /** In particular a manifest printed in any style, with or without the final line feed, keeps its verdict. */
  lemma ReindentingKeepsVerdict(manifest: Json, style: Style, signatureText: string, trusted: R.TrustedKeys,
                                check: R.Verifier)
    requires WellFormed(manifest)
    ensures Verdict(SortedText(manifest, style), signatureText, trusted, check) ==
            Verdict(ManifestText(manifest), signatureText, trusted, check)
  {
    ParsePrinted(manifest, style);
    ParseManifestText(manifest);
    SortKeysWellFormed(manifest);
    SameReflexive(SortKeys(manifest));
    RewritingKeepsVerdict(SortedText(manifest, style), ManifestText(manifest), signatureText, trusted, check);
  }

  /** So does one that gets the locator of its signature added and is written again. */
  lemma AddingLocatorKeepsVerdict(ms: Dict, locator: Json, signatureText: string, trusted: R.TrustedKeys,
                                  check: R.Verifier)
    requires WellFormedDict(ms) && WellFormed(locator)
    ensures Verdict(ManifestText(Obj(Set(ms, LOCATOR_FIELD, locator))), signatureText, trusted, check) ==
            Verdict(ManifestText(Obj(ms)), signatureText, trusted, check)
  {
    SetWellFormed(ms, LOCATOR_FIELD, locator);
    WrittenKeepsSignable(Obj(ms));
    WrittenKeepsSignable(Obj(Set(ms, LOCATOR_FIELD, locator)));
    LocatorKeepsSignedBytes(ms, locator);
  }

  lemma WrittenKeepsSignable(manifest: Json)
    requires WellFormed(manifest)
    ensures Parse(ManifestText(manifest)).Some?
    ensures SignableBytes(Parse(ManifestText(manifest)).value) == SignableBytes(manifest)
  {
    ParseManifestText(manifest);
    SortKeysWellFormed(manifest);
    SignableIgnoresLayout(manifest, SortKeys(manifest));
  }

  /** A line under a trusted key whose signature that key accepts for two different messages. */
  ghost predicate LineSignsBoth(line: string, trusted: R.TrustedKeys, check: R.Verifier, x: Utf8.Bytes, y: Utf8.Bytes) {
    && x != y
    && R.Claims(line, trusted)
    && R.Genuine(R.ReadLine(line).entry, trusted, x, check)
    && R.Genuine(R.ReadLine(line).entry, trusted, y, check)
  }

  /**
   A signature file accepted for the manifests of two releases means one release, unless a line of it names a
   trusted key that accepts the signature for both messages: what is verified is the tree itself.
   */
  lemma OneSignatureOneRelease(h: Hash, a: Release, b: Release, signatureText: string, trusted: R.TrustedKeys,
                               check: R.Verifier)
    requires a.tracked != [] && b.tracked != []
    requires Verdict(ManifestText(Obj(ManifestOf(h, a))), signatureText, trusted, check).Ok?
    requires Verdict(ManifestText(Obj(ManifestOf(h, b))), signatureText, trusted, check).Ok?
    ensures SignableBytes(Obj(ManifestOf(h, a))).Ok? && SignableBytes(Obj(ManifestOf(h, b))).Ok?
    ensures SameRelease(h, a, b) ||
            exists line :: line in SplitLines(signatureText) &&
              LineSignsBoth(line, trusted, check, SignableBytes(Obj(ManifestOf(h, a))).value,
                            SignableBytes(Obj(ManifestOf(h, b))).value)
  {
    var p, q := Obj(ManifestOf(h, a)), Obj(ManifestOf(h, b));
    WrittenKeepsSignable(p);
    WrittenKeepsSignable(q);
    ManifestIsSignable(h, a);
    ManifestIsSignable(h, b);
    OnePayload(SplitLines(signatureText), trusted, SignableBytes(p).value, SignableBytes(q).value, check);
    SignedBytesBindRelease(h, a, b);
  }

  lemma OnePayload(lines: seq<string>, trusted: R.TrustedKeys, x: Utf8.Bytes, y: Utf8.Bytes, check: R.Verifier)
    requires R.VerifyLines(lines, trusted, x, check).Ok? && R.VerifyLines(lines, trusted, y, check).Ok?
    ensures x == y || exists line :: line in lines && LineSignsBoth(line, trusted, check, x, y)
  {
    R.VerificationIsExact(lines, trusted, x, check);
    R.VerificationIsExact(lines, trusted, y, check);
    var i :| 0 <= i < |lines| && R.Claims(lines[i], trusted);
    assert R.Harmless(lines[i], trusted, x, check) && R.Harmless(lines[i], trusted, y, check);
    assert x != y ==> LineSignsBoth(lines[i], trusted, check, x, y);
  }
}
