/** The HMAC transport signature of decision envelopes: `deception_contracts.decision_signing`. */
module DecisionSigning {
  import opened Outcomes
  import opened Json
  import opened JsonText
  import opened JsonShape
  import opened Canonical
  import opened Digests
  import opened PyText
  import Utf8

  /** HMAC-SHA256 as any function of key and message to 32 bytes. */
  type Mac = (Utf8.Bytes, Utf8.Bytes) -> Digest

  datatype Key = TextKey(text: string) | BytesKey(bytes: Utf8.Bytes) | OtherKey

  datatype SigningError = KeyType | Unencodable | NotAscii

  function AsKey(key: Key): Result<Utf8.Bytes, SigningError> {
    match key
    case TextKey(text) => Ok(Utf8.Encode(text))
    case BytesKey(bytes) => Ok(bytes)
    case OtherKey => Err(KeyType)
  }

  /** `canonical_decision_bytes`: every field but the signature. */
  function CanonicalDecisionBytes(decision: Dict, field: string): Result<Utf8.Bytes, TextError> {
    CanonicalBytes(Obj(Without(decision, {field})))
  }

  /** `compute_decision_signature`. */
  function ComputeSignature(mac: Mac, decision: Dict, key: Key, field: string): Result<string, SigningError> {
    match AsKey(key)
    case Err(e) => Err(e)
    case Ok(k) =>
      match CanonicalDecisionBytes(decision, field)
      case Err(_) => Err(Unencodable)
      case Ok(data) => Ok(Hex(mac(k, data)))
  }

  /** The decision with its signature stored. */
  function Signed(mac: Mac, decision: Dict, key: Key, field: string): Result<Dict, SigningError> {
    match ComputeSignature(mac, decision, key, field)
    case Err(e) => Err(e)
    case Ok(signature) => Ok(Set(decision, field, Str(signature)))
  }

  /** `sign_decision`: the caller's dict is copied, then the copy gets its signature. */
  method SignDecision(mac: Mac, decision: Dict, key: Key, field: string) returns (r: Result<Dict, SigningError>)
    ensures r == Signed(mac, decision, key, field)
  {
    var signed := decision;
    var signature := ComputeSignature(mac, decision, key, field);
    match signature {
      case Err(e) =>
        r := Err(e);
      case Ok(text) =>
        signed := Set(signed, field, Str(text));
        r := Ok(signed);
    }
  }

  predicate IsAscii(s: string) {
    forall i :: 0 <= i < |s| ==> s[i] as int < 128
  }

  /** `hmac.compare_digest` of two strings raises unless both are ASCII. */
  function CompareDigest(a: string, b: string): Result<bool, SigningError> {
    if IsAscii(a) && IsAscii(b) then Ok(a == b) else Err(NotAscii)
  }

  /** `verify_decision_signature`: every error answers false. */
  predicate VerifySignature(mac: Mac, decision: Dict, key: Key, field: string) {
    match Get(decision, field)
    case Some(Str(provided)) =>
      if provided == "" then false
      else
        (match ComputeSignature(mac, decision, key, field)
         case Err(_) => false
         case Ok(expected) =>
           match CompareDigest(provided, expected)
           case Err(_) => false
           case Ok(equal) => equal)
    case _ => false
  }

  lemma HexComparable(bs: Utf8.Bytes)
    ensures IsAscii(Hex(bs))
  {
    HexIsAscii(bs);
  }

  lemma {:induction false} SetOfPresent(ms: Dict, k: string, v: Json)
    ensures Set(ms, k, v) == ms <==> Get(ms, k) == Some(v)
  {
    if ms == [] {
    } else if ms[0].key == k {
      assert ms == [ms[0]] + ms[1..];
      assert Set(ms, k, v)[0] == Member(k, v);
    } else {
      SetOfPresent(ms[1..], k, v);
      assert ms == [ms[0]] + ms[1..];
      assert Set(ms, k, v)[1..] == Set(ms[1..], k, v);
    }
  }

  /** A decision verifies exactly when signing it again would change nothing at all. */
  lemma VerifiesWhenSigningChangesNothing(mac: Mac, decision: Dict, key: Key, field: string)
    ensures VerifySignature(mac, decision, key, field) <==> Signed(mac, decision, key, field) == Ok(decision)
  {
    var signature := ComputeSignature(mac, decision, key, field);
    if signature.Ok? {
      HexComparable(mac(AsKey(key).value, CanonicalDecisionBytes(decision, field).value));
      SetOfPresent(decision, field, Str(signature.value));
    }
  }

  /** Signing works for every key of a proper type and every decision without NaN outside the signature. */
  lemma SignThenVerify(mac: Mac, decision: Dict, key: Key, field: string)
    ensures Signed(mac, decision, key, field).Ok? <==> !key.OtherKey? && Finite(Obj(Without(decision, {field})))
    ensures Signed(mac, decision, key, field).Ok? ==>
              VerifySignature(mac, Signed(mac, decision, key, field).value, key, field)
  {
    var signed := Signed(mac, decision, key, field);
    if signed.Ok? {
      SigningIsIdempotent(mac, decision, key, field);
      VerifiesWhenSigningChangesNothing(mac, signed.value, key, field);
    }
  }

  /** Signing a signed decision, under any key, gives what signing the original gives. */
  lemma ResigningForgetsOldSignature(mac: Mac, decision: Dict, earlier: Key, key: Key, field: string)
    requires Signed(mac, decision, earlier, field).Ok?
    ensures Signed(mac, Signed(mac, decision, earlier, field).value, key, field) == Signed(mac, decision, key, field)
  {
    var first := ComputeSignature(mac, decision, earlier, field).value;
    WithoutSet(decision, {field}, field, Str(first));
    var second := ComputeSignature(mac, decision, key, field);
    if second.Ok? {
      SetSet(decision, field, Str(first), Str(second.value));
    }
  }

  lemma SigningIsIdempotent(mac: Mac, decision: Dict, key: Key, field: string)
    requires Signed(mac, decision, key, field).Ok?
    ensures Signed(mac, Signed(mac, decision, key, field).value, key, field) == Signed(mac, decision, key, field)
  {
    ResigningForgetsOldSignature(mac, decision, key, key, field);
  }

  /** Two different messages with one MAC under one key. */
  ghost predicate Forgery(mac: Mac, key: Utf8.Bytes, x: Utf8.Bytes, y: Utf8.Bytes) {
    x != y && mac(key, x) == mac(key, y)
  }

  /**
   Carrying the signature of a verified decision `a`, a decision `b` verifies exactly when it agrees with
   `a` on every other field, or the two messages share a MAC.
   */
  lemma SignatureBindsEveryOtherField(mac: Mac, a: Dict, b: Dict, key: Key, field: string)
    requires WellFormedDict(a) && WellFormedDict(b)
    requires VerifySignature(mac, a, key, field) && Get(b, field) == Get(a, field)
    ensures VerifySignature(mac, b, key, field) <==>
            && Finite(Obj(Without(b, {field})))
            && (AgreeOutside(a, b, {field}) ||
                Forgery(mac, AsKey(key).value, CanonicalDecisionBytes(a, field).value,
                        CanonicalDecisionBytes(b, field).value))
  {
    var k, x := AsKey(key).value, CanonicalDecisionBytes(a, field).value;
    if Finite(Obj(Without(b, {field}))) {
      var y := CanonicalDecisionBytes(b, field).value;
      BytesCoverOutside(a, b, {field});
      HexComparable(mac(k, x));
      HexComparable(mac(k, y));
      if Hex(mac(k, x)) == Hex(mac(k, y)) {
        HexInjective(mac(k, x), mac(k, y));
      }
    }
  }

  /** Missing, empty and non-text signatures never verify. */
  lemma NoSignatureNoVerification(mac: Mac, decision: Dict, key: Key, field: string)
    ensures VerifySignature(mac, decision, key, field) ==>
              exists s :: s != "" && Get(decision, field) == Some(Str(s)) && |s| == 64
  {
    if VerifySignature(mac, decision, key, field) {
      var s := Get(decision, field).value.s;
      assert s != "" && Get(decision, field) == Some(Str(s)) && |s| == 64;
    }
  }

  // ----- which key, which message, which text -----

  /** The message is the compact text of the decision without its signature, keys sorted, in UTF-8. */
  lemma MessageIs(decision: Dict, field: string)
    ensures CanonicalDecisionBytes(decision, field) ==
            var covered := Obj(Without(decision, {field}));
            if Finite(covered) then Ok(Utf8.Encode(Compact(SortKeys(covered), false))) else Err(OutOfRangeFloat)
  {
    CanonicalTextIs(Obj(Without(decision, {field})));
  }

  /** What is stored: the hexadecimal text of the MAC, under the key's own bytes or its UTF-8 bytes. */
  lemma SignatureIs(mac: Mac, decision: Dict, key: Key, field: string)
    requires Signed(mac, decision, key, field).Ok?
    ensures !key.OtherKey? && CanonicalDecisionBytes(decision, field).Ok?
    ensures var k := if key.TextKey? then Utf8.Encode(key.text) else key.bytes;
            Get(Signed(mac, decision, key, field).value, field) ==
            Some(Str(Hex(mac(k, CanonicalDecisionBytes(decision, field).value))))
    ensures Without(Signed(mac, decision, key, field).value, {field}) == Without(decision, {field})
  {
    var signature := ComputeSignature(mac, decision, key, field).value;
    GetSet(decision, field, Str(signature));
    WithoutSet(decision, {field}, field, Str(signature));
  }

  lemma VerifiesUnderKey(mac: Mac, signed: Dict, k: Utf8.Bytes, key: Key, field: string)
    requires CanonicalDecisionBytes(signed, field).Ok? && AsKey(key).Ok?
    requires Get(signed, field) == Some(Str(Hex(mac(k, CanonicalDecisionBytes(signed, field).value))))
    ensures VerifySignature(mac, signed, key, field) <==>
            mac(k, CanonicalDecisionBytes(signed, field).value) ==
            mac(AsKey(key).value, CanonicalDecisionBytes(signed, field).value)
  {
    var m := CanonicalDecisionBytes(signed, field).value;
    HexComparable(mac(k, m));
    HexComparable(mac(AsKey(key).value, m));
    if Hex(mac(k, m)) == Hex(mac(AsKey(key).value, m)) {
      HexInjective(mac(k, m), mac(AsKey(key).value, m));
    }
  }

  /** Signed under one text and verified under another: only for one text, or two that share the MAC of the message. */
  lemma TextKeyUnderTextKey(mac: Mac, decision: Dict, s: string, t: string, field: string)
    requires Signed(mac, decision, TextKey(s), field).Ok?
    ensures CanonicalDecisionBytes(decision, field).Ok?
    ensures var m := CanonicalDecisionBytes(decision, field).value;
            VerifySignature(mac, Signed(mac, decision, TextKey(s), field).value, TextKey(t), field) <==>
            s == t || mac(Utf8.Encode(s), m) == mac(Utf8.Encode(t), m)
  {
    SignatureIs(mac, decision, TextKey(s), field);
    VerifiesUnderKey(mac, Signed(mac, decision, TextKey(s), field).value, Utf8.Encode(s), TextKey(t), field);
  }

  lemma BytesKeyUnderBytesKey(mac: Mac, decision: Dict, x: Utf8.Bytes, y: Utf8.Bytes, field: string)
    requires Signed(mac, decision, BytesKey(x), field).Ok?
    ensures CanonicalDecisionBytes(decision, field).Ok?
    ensures var m := CanonicalDecisionBytes(decision, field).value;
            VerifySignature(mac, Signed(mac, decision, BytesKey(x), field).value, BytesKey(y), field) <==>
            x == y || mac(x, m) == mac(y, m)
  {
    SignatureIs(mac, decision, BytesKey(x), field);
    VerifiesUnderKey(mac, Signed(mac, decision, BytesKey(x), field).value, x, BytesKey(y), field);
  }

  /** A text key and a bytes key stand for each other exactly when the bytes are the text's UTF-8, or share the MAC. */
  lemma TextKeyUnderBytesKey(mac: Mac, decision: Dict, s: string, y: Utf8.Bytes, field: string)
    requires Signed(mac, decision, TextKey(s), field).Ok?
    ensures CanonicalDecisionBytes(decision, field).Ok? && Signed(mac, decision, BytesKey(y), field).Ok?
    ensures var m := CanonicalDecisionBytes(decision, field).value;
            var agree := Utf8.Encode(s) == y || mac(Utf8.Encode(s), m) == mac(y, m);
            && (VerifySignature(mac, Signed(mac, decision, TextKey(s), field).value, BytesKey(y), field) <==> agree)
            && (VerifySignature(mac, Signed(mac, decision, BytesKey(y), field).value, TextKey(s), field) <==> agree)
  {
    SignatureIs(mac, decision, TextKey(s), field);
    SignatureIs(mac, decision, BytesKey(y), field);
    VerifiesUnderKey(mac, Signed(mac, decision, TextKey(s), field).value, Utf8.Encode(s), BytesKey(y), field);
    VerifiesUnderKey(mac, Signed(mac, decision, BytesKey(y), field).value, y, TextKey(s), field);
  }

  /** A key that is neither text nor bytes signs nothing and verifies nothing. */
  lemma OtherKeyIsRefused(mac: Mac, decision: Dict, field: string)
    ensures Signed(mac, decision, OtherKey, field) == Err(KeyType)
    ensures !VerifySignature(mac, decision, OtherKey, field)
  {
  }
}
