/** Content digests of records: `provisioning_contracts.integrity` and `deception_integrity`. */
module Integrity {
  import opened Outcomes
  import opened Json
  import opened JsonShape
  import opened JsonText
  import opened Canonical
  import opened Digests
  import Utf8

  datatype IntegrityError = NotAMapping | Unencodable | Mismatch

  const LOCATOR_FIELD := "signature_ref"
  const DEFAULT_DIGEST_EXCLUSIONS := [LOCATOR_FIELD]

  /** The names a digest leaves out: the digest's own field and the excluded ones. */
  function Uncovered(digestField: Option<string>, exclude: seq<string>): set<string> {
    (if digestField.Some? then {digestField.value} else {}) + set n | n in exclude
  }

  /** The members a digest covers. */
  function Covered(payload: Json, digestField: Option<string>, exclude: seq<string>)
    : Result<Dict, IntegrityError>
  {
    if payload.Obj? then Ok(Without(payload.members, Uncovered(digestField, exclude))) else Err(NotAMapping)
  }

  /** `digest_payload`: a copy of the record with the uncovered names popped one by one. */
  method DigestPayload(payload: Json, digestField: Option<string>, exclude: seq<string>)
    returns (r: Result<Dict, IntegrityError>)
    requires WellFormed(payload)
    ensures r == Covered(payload, digestField, exclude)
  {
    if !payload.Obj? {
      return Err(NotAMapping);
    }
    var copy := payload.members;
    WithoutNothing(copy);
    if digestField.Some? {
      PopIsWithout(copy, {}, digestField.value);
      copy := Pop(copy, digestField.value);
      assert {} + {digestField.value} == Uncovered(digestField, exclude[..0]);
    } else {
      assert {} == Uncovered(digestField, exclude[..0]);
    }
    for i := 0 to |exclude|
      invariant copy == Without(payload.members, Uncovered(digestField, exclude[..i]))
    {
      PopIsWithout(payload.members, Uncovered(digestField, exclude[..i]), exclude[i]);
      assert Uncovered(digestField, exclude[..i + 1]) == Uncovered(digestField, exclude[..i]) + {exclude[i]} by {
        assert exclude[..i + 1] == exclude[..i] + [exclude[i]];
      }
      copy := Pop(copy, exclude[i]);
    }
    assert exclude[..|exclude|] == exclude;
    r := Ok(copy);
  }

  /** `content_digest`. */
  function ContentDigest(h: Hash, payload: Json, digestField: Option<string>, exclude: seq<string>)
    : Result<string, IntegrityError>
  {
    match Covered(payload, digestField, exclude)
    case Err(e) => Err(e)
    case Ok(covered) =>
      match CanonicalBytes(Obj(covered))
      case Err(_) => Err(Unencodable)
      case Ok(data) => Ok(Sha256Text(h, data))
  }

  /**
   `str(payload.get(field) or "")`. The `str` of a number, list or dict never begins with "sha256:", so
   such a value is refused like the empty text it is given here.
   */
  function Declared(ms: Dict, field: string): string {
    match Get(ms, field)
    case Some(Str(s)) => s
    case _ => ""
  }

  /** `assert_content_digest`. */
  function AssertContentDigest(h: Hash, payload: Json, field: string, exclude: seq<string>)
    : Result<(), IntegrityError>
  {
    match ContentDigest(h, payload, Some(field), exclude)
    case Err(e) => Err(e)
    case Ok(calculated) => if Declared(payload.members, field) == calculated then Ok(()) else Err(Mismatch)
  }

  /** A record with a freshly computed digest stored in its digest field. */
  function Seal(h: Hash, ms: Dict, field: string, exclude: seq<string>): Result<Dict, IntegrityError> {
    match ContentDigest(h, Obj(ms), Some(field), exclude)
    case Err(e) => Err(e)
    case Ok(text) => Ok(Set(ms, field, Str(text)))
  }

  /** Sealing succeeds for every record free of NaN in covered fields, and the sealed record is accepted. */
  lemma SealedIsAccepted(h: Hash, ms: Dict, field: string, exclude: seq<string>)
    requires WellFormedDict(ms)
    ensures Seal(h, ms, field, exclude).Ok? <==> Finite(Obj(Without(ms, Uncovered(Some(field), exclude))))
    ensures Seal(h, ms, field, exclude).Ok? ==>
              AssertContentDigest(h, Obj(Seal(h, ms, field, exclude).value), field, exclude).Ok?
  {
    var sealed := Seal(h, ms, field, exclude);
    if sealed.Ok? {
      var text := ContentDigest(h, Obj(ms), Some(field), exclude).value;
      WithoutSet(ms, Uncovered(Some(field), exclude), field, Str(text));
      GetSet(ms, field, Str(text));
    }
  }

  /** Setting an uncovered field, such as a detached signature locator, leaves the digest alone. */
  lemma UncoveredFieldIsFree(h: Hash, ms: Dict, field: string, exclude: seq<string>, name: string, v: Json)
    requires name in Uncovered(Some(field), exclude)
    ensures ContentDigest(h, Obj(Set(ms, name, v)), Some(field), exclude) ==
            ContentDigest(h, Obj(ms), Some(field), exclude)
  {
    WithoutSet(ms, Uncovered(Some(field), exclude), name, v);
  }

  function CoveredBytes(ms: Dict, names: set<string>): Utf8.Bytes
    requires Finite(Obj(Without(ms, names)))
  {
    CanonicalBytes(Obj(Without(ms, names))).value
  }

  /** Two digests agree exactly when the records agree outside the uncovered names, or the hash collides. */
  lemma DigestCoversEverythingElse(h: Hash, a: Dict, b: Dict, field: Option<string>, exclude: seq<string>)
    requires WellFormedDict(a) && WellFormedDict(b)
    requires ContentDigest(h, Obj(a), field, exclude).Ok? && ContentDigest(h, Obj(b), field, exclude).Ok?
    ensures var names := Uncovered(field, exclude);
            ContentDigest(h, Obj(a), field, exclude) == ContentDigest(h, Obj(b), field, exclude) <==>
            AgreeOutside(a, b, names) || Collision(h, CoveredBytes(a, names), CoveredBytes(b, names))
  {
    var names := Uncovered(field, exclude);
    var x, y := CoveredBytes(a, names), CoveredBytes(b, names);
    Sha256TextEqual(h, x, y);
    BytesCoverOutside(a, b, names);
  }

  /**
   Tampering is found: two accepted records declaring one digest agree on every covered field, unless the
   two covered byte strings are a collision of the hash.
   */
  lemma AcceptedTwinsAgree(h: Hash, a: Dict, b: Dict, field: string, exclude: seq<string>)
    requires WellFormedDict(a) && WellFormedDict(b)
    requires AssertContentDigest(h, Obj(a), field, exclude).Ok?
    requires Declared(a, field) == Declared(b, field)
    ensures AssertContentDigest(h, Obj(b), field, exclude).Ok? <==>
            var names := Uncovered(Some(field), exclude);
            && Finite(Obj(Without(b, names)))
            && (AgreeOutside(a, b, names) || Collision(h, CoveredBytes(a, names), CoveredBytes(b, names)))
  {
    if Finite(Obj(Without(b, Uncovered(Some(field), exclude)))) {
      DigestCoversEverythingElse(h, a, b, Some(field), exclude);
    }
  }

  /** A digest written out: the algorithm, a colon, and the hash of the canonical text without two fields. */
  lemma DigestIs(h: Hash, ms: Dict, field: string)
    ensures var covered := Obj(Without(ms, {field, "signature_ref"}));
            ContentDigest(h, Obj(ms), Some(field), DEFAULT_DIGEST_EXCLUSIONS) ==
            if Finite(covered) then Ok("sha256:" + Hex(h(Utf8.Encode(Compact(SortKeys(covered), false)))))
            else Err(Unencodable)
  {
    var covered := Obj(Without(ms, {field, "signature_ref"}));
    assert DEFAULT_DIGEST_EXCLUSIONS[0] == "signature_ref";
    assert Uncovered(Some(field), DEFAULT_DIGEST_EXCLUSIONS) == {field, "signature_ref"};
    CanonicalTextIs(covered);
  }

  // ----- deception packages and transition catalogs -----

  /** `package_signing_payload` and `catalog_signing_payload`: a deep copy with two names popped. */
  method SigningPayload(value: Dict, digestField: string) returns (payload: Dict)
    requires UniqueKeys(value)
    ensures Covered(Obj(value), Some(digestField), DEFAULT_DIGEST_EXCLUSIONS) == Ok(payload)
  {
    payload := value;
    WithoutNothing(payload);
    PopIsWithout(payload, {}, digestField);
    payload := Pop(payload, digestField);
    assert {} + {digestField} == {digestField};
    PopIsWithout(value, {digestField}, LOCATOR_FIELD);
    payload := Pop(payload, LOCATOR_FIELD);
    assert Uncovered(Some(digestField), DEFAULT_DIGEST_EXCLUSIONS) == {digestField} + {LOCATOR_FIELD};
  }
}
