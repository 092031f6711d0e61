/** Verification of detached release signatures: `tools/rc_signature.py`. */
module ReleaseSignature {
  import opened Outcomes
  import opened Digests
  import opened Json
  import opened Numerals
  import opened PyText
  import opened Seqs
  import opened StringOrder
  import Utf8

  datatype SignatureError =
    | BadKeyFile
    | NoTrustedKey
    | Unsigned
    | BadLine(lineno: nat)
    | NoSignatures
    | NotHex(keyId: string)
    | DoesNotVerify(keyId: string)
    | NoTrustedSignature

  /** Ed25519 verification: public key, message, signature. */
  type Verifier = (Utf8.Bytes, Utf8.Bytes, Utf8.Bytes) -> bool

  // ----- hexadecimal text -----

  predicate IsAsciiSpace(c: char) {
    c == ' ' || 9 <= c as int <= 13
  }

  /** `bytes.fromhex`: pairs of digits, with ASCII white space allowed between pairs. */
  function FromHex(s: string): Option<Utf8.Bytes> {
    if s == "" then Some([])
    else if IsAsciiSpace(s[0]) then FromHex(s[1..])
    else if |s| < 2 then None
    else
      match (HexValue(s[0]), HexValue(s[1]), FromHex(s[2..]))
      case (Some(a), Some(b), Some(rest)) => Some([a * 16 + b] + rest)
      case _ => None
  }

  lemma AsciiSpaceIs(c: char)
    ensures IsAsciiSpace(c) <==> c in " \t\n\r\U{0B}\U{0C}"
  {
  }

  /** White space between the bytes is passed over; inside a byte, and any character but a digit, is refused. */
  lemma HexPair(high: char, low: char, rest: string)
    ensures FromHex([high, low] + rest) ==
            if IsAsciiSpace(high) then FromHex([low] + rest)
            else if HexValue(high).Some? && HexValue(low).Some? && FromHex(rest).Some? then
              Some([HexValue(high).value * 16 + HexValue(low).value] + FromHex(rest).value)
            else None
  {
    var s := [high, low] + rest;
    assert s[1..] == [low] + rest && s[2..] == rest;
  }

  /** What is written in hexadecimal is read back. */
  lemma {:induction false} HexIsReadBack(bs: Utf8.Bytes)
    ensures FromHex(Hex(bs)) == Some(bs)
  {
    if bs != [] {
      var high, low := HexChar(bs[0] / 16), HexChar(bs[0] % 16);
      HexIsReadBack(bs[1..]);
      HexDigitRoundTrip(bs[0] / 16);
      HexDigitRoundTrip(bs[0] % 16);
      HexPair(high, low, Hex(bs[1..]));
      assert bs == [bs[0]] + bs[1..];
    }
  }

  // ----- trusted keys -----

  /** Key id to the hexadecimal text of its public key. */
  type TrustedKeys = map<string, string>

  predicate KeyEntryOk(m: Member) {
    && Strip(m.key) != ""
    && m.val.Str?
    && FromHex(m.val.s).Some?
    && |FromHex(m.val.s).value| == 32
  }

  predicate AllEntriesOk(ms: Dict) {
    forall i :: 0 <= i < |ms| ==> KeyEntryOk(ms[i])
  }

  /** The table the entries are copied into. */
  function KeysOf(ms: Dict): TrustedKeys
    requires AllEntriesOk(ms)
  {
    if ms == [] then map[]
    else KeysOf(ms[..|ms| - 1])[ms[|ms| - 1].key := ms[|ms| - 1].val.s]
  }

  /** The verdict on the key file; None stands for the absent file. */
  function LoadedKeys(doc: Option<Json>): Result<TrustedKeys, SignatureError> {
    match doc
    case None => Ok(map[])
    case Some(v) =>
      if !v.Obj? then Err(BadKeyFile)
      else
        match Get(v.members, "keys")
        case Some(Obj(ms)) => if AllEntriesOk(ms) then Ok(KeysOf(ms)) else Err(BadKeyFile)
        case _ => Err(BadKeyFile)
  }

  lemma KeysOfOneMore(ms: Dict, m: Member)
    requires AllEntriesOk(ms) && KeyEntryOk(m)
    ensures AllEntriesOk(ms + [m]) && KeysOf(ms + [m]) == KeysOf(ms)[m.key := m.val.s]
  {
    assert (ms + [m])[..|ms|] == ms;
  }

  /** `load_trusted_keys`. */
  method LoadTrustedKeys(doc: Option<Json>) returns (r: Result<TrustedKeys, SignatureError>)
    ensures r == LoadedKeys(doc)
  {
    if doc == None {
      return Ok(map[]);
    }
    if !doc.value.Obj? {
      return Err(BadKeyFile);
    }
    var keys := Get(doc.value.members, "keys");
    if keys == None || !keys.value.Obj? {
      return Err(BadKeyFile);
    }
    var ms := keys.value.members;
    var trusted: TrustedKeys := map[];
    for i := 0 to |ms|
      invariant AllEntriesOk(ms[..i]) && trusted == KeysOf(ms[..i])
    {
      if !KeyEntryOk(ms[i]) {
        return Err(BadKeyFile);
      }
      assert ms[..i + 1] == ms[..i] + [ms[i]];
      KeysOfOneMore(ms[..i], ms[i]);
      trusted := trusted[ms[i].key := ms[i].val.s];
    }
    assert ms[..|ms|] == ms;
    r := Ok(trusted);
  }

  lemma KeysOfSnoc(ms: Dict)
    requires UniqueKeys(ms) && ms != []
    ensures UniqueKeys(ms[..|ms| - 1])
    ensures forall m :: m in ms <==> m in ms[..|ms| - 1] || m == ms[|ms| - 1]
    ensures forall m :: m in ms[..|ms| - 1] ==> m.key != ms[|ms| - 1].key
  {
    assert ms == ms[..|ms| - 1] + [ms[|ms| - 1]];
  }

  /** The table holds exactly the listed pairs, and every public key in it is 32 bytes. */
  lemma {:induction false} KeysAreTheListed(ms: Dict, id: string, hex: string)
    requires UniqueKeys(ms) && AllEntriesOk(ms)
    ensures (id in KeysOf(ms) && KeysOf(ms)[id] == hex) <==> Member(id, Str(hex)) in ms
    ensures Member(id, Str(hex)) in ms ==> FromHex(hex).Some? && |FromHex(hex).value| == 32
  {
    if ms != [] {
      KeysOfSnoc(ms);
      KeysAreTheListed(ms[..|ms| - 1], id, hex);
    }
  }

  /** An entry of the key file: a key id that is not blank, and the hexadecimal text of thirty-two bytes. */
  predicate IsKeyEntry(id: string, v: Json) {
    !AllSpace(id) && v.Str? && FromHex(v.s).Some? && |FromHex(v.s).value| == 32
  }

  lemma EntryIsChecked(m: Member)
    ensures KeyEntryOk(m) <==> IsKeyEntry(m.key, m.val)
  {
    var w, v := StripParts(m.key);
  }

  /** A key file loads exactly when each of its entries is one, and then as the table of those entries. */
  lemma KeyFileLoads(doc: Dict, ms: Dict)
    requires UniqueKeys(ms) && Get(doc, "keys") == Some(Obj(ms))
    ensures var r := LoadedKeys(Some(Obj(doc)));
            && (r.Ok? <==> forall i :: 0 <= i < |ms| ==> IsKeyEntry(ms[i].key, ms[i].val))
            && (r.Ok? ==> forall id, hex :: (id in r.value && r.value[id] == hex) <==> Member(id, Str(hex)) in ms)
  {
    forall i | 0 <= i < |ms| ensures KeyEntryOk(ms[i]) <==> IsKeyEntry(ms[i].key, ms[i].val) {
      EntryIsChecked(ms[i]);
    }
    if AllEntriesOk(ms) {
      forall id, hex ensures (id in KeysOf(ms) && KeysOf(ms)[id] == hex) <==> Member(id, Str(hex)) in ms {
        KeysAreTheListed(ms, id, hex);
      }
    }
  }

  /** Any other document is refused; no document is an empty table, under which nothing verifies. */
  lemma OtherKeyFiles(doc: Json, lines: seq<string>, payload: Utf8.Bytes, check: Verifier)
    requires !doc.Obj? || Get(doc.members, "keys") == None || !Get(doc.members, "keys").value.Obj?
    ensures LoadedKeys(Some(doc)) == Err(BadKeyFile)
    ensures LoadedKeys(None) == Ok(map[]) && VerifyLines(lines, map[], payload, check) == Err(NoTrustedKey)
  {
  }

  // ----- the signature file -----

  datatype Entry = Entry(keyId: string, hexSignature: string)

  datatype Line = Skipped | Signature(entry: Entry) | Malformed

  /** One line of a signature file. */
  function ReadLine(raw: string): Line {
    var line := Strip(raw);
    if line == "" || line[0] == '#' then Skipped
    else
      var i := Find(line, ':');
      if i == |line| || Strip(line[..i]) == "" || Strip(line[i + 1..]) == "" then Malformed
      else Signature(Entry(Strip(line[..i]), Strip(line[i + 1..])))
  }

  /** The entries of the lines, in order, up to the first malformed line. */
  function EntriesOf(lines: seq<string>): Result<seq<Entry>, SignatureError> {
    if lines == [] then Ok([])
    else
      match EntriesOf(lines[..|lines| - 1])
      case Err(e) => Err(e)
      case Ok(entries) =>
        match ReadLine(lines[|lines| - 1])
        case Skipped => Ok(entries)
        case Malformed => Err(BadLine(|lines|))
        case Signature(e) => Ok(entries + [e])
  }

  function ParsedEntries(lines: seq<string>): Result<seq<Entry>, SignatureError> {
    match EntriesOf(lines)
    case Err(e) => Err(e)
    case Ok(entries) => if entries == [] then Err(NoSignatures) else Ok(entries)
  }

  lemma {:induction false} FirstErrorStays(lines: seq<string>, n: nat)
    requires n <= |lines| && EntriesOf(lines[..n]).Err?
    ensures EntriesOf(lines) == EntriesOf(lines[..n])
    decreases |lines| - n
  {
    if n == |lines| {
      assert lines[..n] == lines;
    } else {
      assert lines[..n + 1][..n] == lines[..n];
      FirstErrorStays(lines, n + 1);
    }
  }

  /** `parse_signature_file`. */
  method ParseSignatureFile(text: string) returns (r: Result<seq<Entry>, SignatureError>)
    ensures r == ParsedEntries(SplitLines(text))
  {
    var lines := SplitLines(text);
    var entries: seq<Entry> := [];
    for i := 0 to |lines|
      invariant EntriesOf(lines[..i]) == Ok(entries)
    {
      assert lines[..i + 1][..i] == lines[..i];
      match ReadLine(lines[i]) {
        case Skipped =>
        case Malformed =>
          FirstErrorStays(lines, i + 1);
          return Err(BadLine(i + 1));
        case Signature(e) =>
          entries := entries + [e];
      }
    }
    assert lines[..|lines|] == lines;
    if entries == [] {
      return Err(NoSignatures);
    }
    r := Ok(entries);
  }

  // ----- the accept, ignore or fail loop -----

  /** The entry's signature is proper hex and verifies under the trusted key it names. */
  predicate Genuine(e: Entry, trusted: TrustedKeys, payload: Utf8.Bytes, check: Verifier)
    requires e.keyId in trusted
  {
    && FromHex(trusted[e.keyId]).Some?
    && FromHex(e.hexSignature).Some?
    && check(FromHex(trusted[e.keyId]).value, payload, FromHex(e.hexSignature).value)
  }

  function Signers(entries: seq<Entry>, trusted: TrustedKeys, payload: Utf8.Bytes, check: Verifier)
    : Result<seq<string>, SignatureError>
  {
    if entries == [] then Ok([])
    else
      match Signers(entries[..|entries| - 1], trusted, payload, check)
      case Err(error) => Err(error)
      case Ok(signedBy) =>
        var e := entries[|entries| - 1];
        if e.keyId !in trusted then Ok(signedBy)
        else if FromHex(e.hexSignature) == None then Err(NotHex(e.keyId))
        else if !Genuine(e, trusted, payload, check) then Err(DoesNotVerify(e.keyId))
        else Ok(signedBy + [e.keyId])
  }

  /** The verdict on the lines of a signature file. */
  function VerifyLines(lines: seq<string>, trusted: TrustedKeys, payload: Utf8.Bytes, check: Verifier)
    : Result<seq<string>, SignatureError>
  {
    if trusted == map[] then Err(NoTrustedKey)
    else
      match ParsedEntries(lines)
      case Err(e) => Err(e)
      case Ok(entries) =>
        match Signers(entries, trusted, payload, check)
        case Err(e) => Err(e)
        case Ok(signedBy) => if signedBy == [] then Err(NoTrustedSignature) else Ok(SortStrings(signedBy))
  }

  lemma {:induction false} FirstFailureStays(entries: seq<Entry>, n: nat, trusted: TrustedKeys, payload: Utf8.Bytes,
                                             check: Verifier)
    requires n <= |entries| && Signers(entries[..n], trusted, payload, check).Err?
    ensures Signers(entries, trusted, payload, check) == Signers(entries[..n], trusted, payload, check)
    decreases |entries| - n
  {
    if n == |entries| {
      assert entries[..n] == entries;
    } else {
      assert entries[..n + 1][..n] == entries[..n];
      FirstFailureStays(entries, n + 1, trusted, payload, check);
    }
  }

  /** `verify`, given the signable bytes, the trusted keys and the text of the signature file if there is one. */
  method Verify(payload: Utf8.Bytes, trusted: TrustedKeys, signatureFile: Option<string>, check: Verifier)
    returns (r: Result<seq<string>, SignatureError>)
    ensures signatureFile.Some? ==> r == VerifyLines(SplitLines(signatureFile.value), trusted, payload, check)
    ensures signatureFile == None ==> r.Err?
  {
    if trusted == map[] {
      return Err(NoTrustedKey);
    }
    if signatureFile == None {
      return Err(Unsigned);
    }
    var parsed := ParseSignatureFile(signatureFile.value);
    if parsed.Err? {
      return Err(parsed.error);
    }
    var entries := parsed.value;
    var signedBy: seq<string> := [];
    for i := 0 to |entries|
      invariant Signers(entries[..i], trusted, payload, check) == Ok(signedBy)
    {
      assert entries[..i + 1][..i] == entries[..i];
      var e := entries[i];
      if e.keyId !in trusted {
        continue;
      }
      if FromHex(e.hexSignature) == None {
        FirstFailureStays(entries, i + 1, trusted, payload, check);
        return Err(NotHex(e.keyId));
      }
      if !Genuine(e, trusted, payload, check) {
        FirstFailureStays(entries, i + 1, trusted, payload, check);
        return Err(DoesNotVerify(e.keyId));
      }
      signedBy := signedBy + [e.keyId];
    }
    assert entries[..|entries|] == entries;
    if signedBy == [] {
      return Err(NoTrustedSignature);
    }
    r := Ok(SortStrings(signedBy));
  }

  // ----- what the verdict says -----

  /** A line that names a trusted key. */
  predicate Claims(line: string, trusted: TrustedKeys) {
    ReadLine(line).Signature? && ReadLine(line).entry.keyId in trusted
  }

  /** A line that does no harm: skipped, untrusted, or genuine. */
  predicate Harmless(line: string, trusted: TrustedKeys, payload: Utf8.Bytes, check: Verifier) {
    match ReadLine(line)
    case Skipped => true
    case Malformed => false
    case Signature(e) => e.keyId in trusted ==> Genuine(e, trusted, payload, check)
  }

  /** The key ids the lines claim, in order. */
  function ClaimedIds(lines: seq<string>, trusted: TrustedKeys): seq<string> {
    if lines == [] then []
    else
      ClaimedIds(lines[..|lines| - 1], trusted) +
      (if Claims(lines[|lines| - 1], trusted) then [ReadLine(lines[|lines| - 1]).entry.keyId] else [])
  }

  ghost predicate AllHarmless(lines: seq<string>, trusted: TrustedKeys, payload: Utf8.Bytes, check: Verifier) {
    forall i :: 0 <= i < |lines| ==> Harmless(lines[i], trusted, payload, check)
  }

  ghost predicate AnyClaims(lines: seq<string>, trusted: TrustedKeys) {
    exists i :: 0 <= i < |lines| && Claims(lines[i], trusted)
  }

  lemma HarmlessConcat(a: seq<string>, b: seq<string>, trusted: TrustedKeys, payload: Utf8.Bytes, check: Verifier)
    ensures AllHarmless(a + b, trusted, payload, check) <==>
            AllHarmless(a, trusted, payload, check) && AllHarmless(b, trusted, payload, check)
  {
    var c := a + b;
    assert forall i :: 0 <= i < |a| ==> a[i] == c[i];
    assert forall i :: 0 <= i < |b| ==> b[i] == c[|a| + i];
  }

  lemma ClaimsConcat(a: seq<string>, b: seq<string>, trusted: TrustedKeys)
    ensures AnyClaims(a + b, trusted) <==> AnyClaims(a, trusted) || AnyClaims(b, trusted)
  {
    var c := a + b;
    assert forall i :: 0 <= i < |a| ==> a[i] == c[i];
    if AnyClaims(b, trusted) {
      var i :| 0 <= i < |b| && Claims(b[i], trusted);
      assert c[|a| + i] == b[i];
    }
  }

  lemma {:induction false} EntriesWhenHarmless(lines: seq<string>, trusted: TrustedKeys, payload: Utf8.Bytes,
                                               check: Verifier)
    requires AllHarmless(lines, trusted, payload, check)
    ensures EntriesOf(lines).Ok?
  {
    if lines != [] {
      EntriesWhenHarmless(lines[..|lines| - 1], trusted, payload, check);
    }
  }

  lemma SnocLine(lines: seq<string>, trusted: TrustedKeys, payload: Utf8.Bytes, check: Verifier)
    requires lines != []
    ensures var front, last := lines[..|lines| - 1], lines[|lines| - 1];
            && (AllHarmless(lines, trusted, payload, check) <==>
                AllHarmless(front, trusted, payload, check) && Harmless(last, trusted, payload, check))
            && (AnyClaims(lines, trusted) <==> AnyClaims(front, trusted) || Claims(last, trusted))
  {
    var front, last := lines[..|lines| - 1], lines[|lines| - 1];
    assert lines == front + [last];
    HarmlessConcat(front, [last], trusted, payload, check);
    ClaimsConcat(front, [last], trusted);
    assert [last][0] == last;
  }

  lemma SignersSnoc(entries: seq<Entry>, e: Entry, trusted: TrustedKeys, payload: Utf8.Bytes, check: Verifier)
    ensures Signers(entries + [e], trusted, payload, check).Ok? <==>
            && Signers(entries, trusted, payload, check).Ok?
            && (e.keyId in trusted ==> Genuine(e, trusted, payload, check))
    ensures Signers(entries + [e], trusted, payload, check).Ok? ==>
              Signers(entries + [e], trusted, payload, check).value ==
              Signers(entries, trusted, payload, check).value + (if e.keyId in trusted then [e.keyId] else [])
  {
    assert (entries + [e])[..|entries|] == entries;
  }

  /** Reading lines and collecting signers in one pass. */
  lemma {:induction false} SignersOfLines(lines: seq<string>, trusted: TrustedKeys, payload: Utf8.Bytes,
                                          check: Verifier)
    requires EntriesOf(lines).Ok?
    ensures var r := Signers(EntriesOf(lines).value, trusted, payload, check);
            && (r.Ok? <==> AllHarmless(lines, trusted, payload, check))
            && (r.Ok? ==> r.value == ClaimedIds(lines, trusted))
  {
    if lines != [] {
      var front, last := lines[..|lines| - 1], lines[|lines| - 1];
      SignersOfLines(front, trusted, payload, check);
      SnocLine(lines, trusted, payload, check);
      if ReadLine(last).Signature? {
        SignersSnoc(EntriesOf(front).value, ReadLine(last).entry, trusted, payload, check);
      }
    }
  }

  lemma {:induction false} ClaimsShow(lines: seq<string>, trusted: TrustedKeys, payload: Utf8.Bytes, check: Verifier)
    ensures ClaimedIds(lines, trusted) != [] <==> AnyClaims(lines, trusted)
  {
    if lines != [] {
      ClaimsShow(lines[..|lines| - 1], trusted, payload, check);
      SnocLine(lines, trusted, payload, check);
    }
  }

  lemma {:induction false} NoEntriesNoClaims(lines: seq<string>, trusted: TrustedKeys)
    requires EntriesOf(lines) == Ok([])
    ensures ClaimedIds(lines, trusted) == []
  {
    if lines != [] {
      NoEntriesNoClaims(lines[..|lines| - 1], trusted);
    }
  }

  /** A file passes: some line claims a trusted key, no line is malformed, every claim of a trusted key is genuine. */
  ghost predicate Passes(lines: seq<string>, trusted: TrustedKeys, payload: Utf8.Bytes, check: Verifier) {
    AnyClaims(lines, trusted) && AllHarmless(lines, trusted, payload, check)
  }

  /** Verification succeeds exactly on such files, and then names the claimed ids in order. */
  lemma VerificationIsExact(lines: seq<string>, trusted: TrustedKeys, payload: Utf8.Bytes, check: Verifier)
    ensures VerifyLines(lines, trusted, payload, check).Ok? <==> Passes(lines, trusted, payload, check)
    ensures VerifyLines(lines, trusted, payload, check).Ok? ==>
              VerifyLines(lines, trusted, payload, check).value == SortStrings(ClaimedIds(lines, trusted))
  {
    ClaimsShow(lines, trusted, payload, check);
    if AllHarmless(lines, trusted, payload, check) {
      EntriesWhenHarmless(lines, trusted, payload, check);
    }
    if EntriesOf(lines).Ok? {
      SignersOfLines(lines, trusted, payload, check);
      if EntriesOf(lines).value == [] {
        NoEntriesNoClaims(lines, trusted);
      }
    }
  }

  /** One verdict: both succeed with the same signers, or both fail. */
  ghost predicate SameVerdict(a: Result<seq<string>, SignatureError>, b: Result<seq<string>, SignatureError>) {
    (a.Ok? <==> b.Ok?) && (a.Ok? ==> a == b)
  }

  lemma {:induction false} ClaimedConcat(a: seq<string>, b: seq<string>, trusted: TrustedKeys)
    ensures ClaimedIds(a + b, trusted) == ClaimedIds(a, trusted) + ClaimedIds(b, trusted)
    decreases |b|
  {
    if b == [] {
      assert a + b == a;
    } else {
      var front := b[..|b| - 1];
      ClaimedConcat(a, front, trusted);
      assert (a + b)[..|a + b| - 1] == a + front;
      ConcatAssociative(ClaimedIds(a, trusted), ClaimedIds(front, trusted),
                        if Claims(b[|b| - 1], trusted) then [ReadLine(b[|b| - 1]).entry.keyId] else []);
    }
  }

  lemma ClaimedOne(line: string, trusted: TrustedKeys)
    ensures ClaimedIds([line], trusted) == if Claims(line, trusted) then [ReadLine(line).entry.keyId] else []
  {
    assert [line][..0] == [];
  }

  lemma MiddleContents(a: seq<string>, x: string, b: seq<string>)
    ensures multiset(a + [x] + b) == multiset(a + b) + multiset{x}
  {
  }

  /** Taking one occurrence of `x` out of a list. */
  lemma TakeOut(b: seq<string>, x: string) returns (b0: seq<string>, b1: seq<string>)
    requires x in b
    ensures b == b0 + [x] + b1
    ensures multiset(b0 + b1) == multiset(b) - multiset{x}
  {
    var k :| 0 <= k < |b| && b[k] == x;
    b0, b1 := b[..k], b[k + 1..];
    assert b == b0 + [x] + b1;
    MiddleContents(b0, x, b1);
  }

  lemma ClaimedMiddle(a: seq<string>, x: string, b: seq<string>, trusted: TrustedKeys)
    ensures multiset(ClaimedIds(a + [x] + b, trusted)) ==
            multiset(ClaimedIds(a + b, trusted)) + multiset(ClaimedIds([x], trusted))
  {
    ClaimedConcat(a + [x], b, trusted);
    ClaimedConcat(a, [x], trusted);
    ClaimedConcat(a, b, trusted);
  }

  lemma {:induction false} PermutedClaims(a: seq<string>, b: seq<string>, trusted: TrustedKeys)
    requires multiset(a) == multiset(b)
    ensures multiset(ClaimedIds(a, trusted)) == multiset(ClaimedIds(b, trusted))
    decreases |a|
  {
    assert |a| == |multiset(a)| && |b| == |multiset(b)|;
    if a != [] {
      var front, x := a[..|a| - 1], a[|a| - 1];
      assert a == front + [x];
      assert x in multiset(b);
      var b0, b1 := TakeOut(b, x);
      assert multiset(front) == multiset(a) - multiset{x};
      PermutedClaims(front, b0 + b1, trusted);
      ClaimedMiddle(b0, x, b1, trusted);
      ClaimedConcat(front, [x], trusted);
    }
  }

  lemma PassesByContents(a: seq<string>, b: seq<string>, trusted: TrustedKeys, payload: Utf8.Bytes, check: Verifier)
    requires multiset(a) == multiset(b) && Passes(a, trusted, payload, check)
    ensures Passes(b, trusted, payload, check)
  {
    var i :| 0 <= i < |a| && Claims(a[i], trusted);
    assert a[i] in multiset(b);
    var j :| 0 <= j < |b| && b[j] == a[i];
    forall j | 0 <= j < |b| ensures Harmless(b[j], trusted, payload, check) {
      assert b[j] in multiset(a);
      var k :| 0 <= k < |a| && a[k] == b[j];
    }
  }

  /** The verdict does not depend on the order of the lines. */
  lemma LineOrderIsInvisible(a: seq<string>, b: seq<string>, trusted: TrustedKeys, payload: Utf8.Bytes, check: Verifier)
    requires multiset(a) == multiset(b)
    ensures SameVerdict(VerifyLines(a, trusted, payload, check), VerifyLines(b, trusted, payload, check))
  {
    VerificationIsExact(a, trusted, payload, check);
    VerificationIsExact(b, trusted, payload, check);
    if Passes(a, trusted, payload, check) {
      PassesByContents(a, b, trusted, payload, check);
    }
    if Passes(b, trusted, payload, check) {
      PassesByContents(b, a, trusted, payload, check);
    }
    PermutedClaims(a, b, trusted);
    SortIgnoresOrder(ClaimedIds(a, trusted), ClaimedIds(b, trusted));
  }

  /** A comment, a blank line, or a well-formed line of an untrusted key. */
  predicate Inert(line: string, trusted: TrustedKeys) {
    match ReadLine(line)
    case Skipped => true
    case Malformed => false
    case Signature(e) => e.keyId !in trusted
  }

  lemma InsertedLine(a: seq<string>, line: string, b: seq<string>, trusted: TrustedKeys, payload: Utf8.Bytes,
                     check: Verifier)
    requires Inert(line, trusted)
    ensures Passes(a + [line] + b, trusted, payload, check) <==> Passes(a + b, trusted, payload, check)
    ensures ClaimedIds(a + [line] + b, trusted) == ClaimedIds(a + b, trusted)
  {
    HarmlessConcat(a + [line], b, trusted, payload, check);
    HarmlessConcat(a, [line], trusted, payload, check);
    HarmlessConcat(a, b, trusted, payload, check);
    ClaimsConcat(a + [line], b, trusted);
    ClaimsConcat(a, [line], trusted);
    ClaimsConcat(a, b, trusted);
    ClaimedConcat(a + [line], b, trusted);
    ClaimedConcat(a, [line], trusted);
    ClaimedConcat(a, b, trusted);
    ClaimedOne(line, trusted);
    assert ClaimedIds(a, trusted) + [] == ClaimedIds(a, trusted);
  }

  /** Lists of lines with one verdict, whatever the keys, the payload and the primitive. */
  ghost predicate SameLines(a: seq<string>, b: seq<string>, trusted: TrustedKeys) {
    && ClaimedIds(a, trusted) == ClaimedIds(b, trusted)
    && forall payload, check :: Passes(a, trusted, payload, check) <==> Passes(b, trusted, payload, check)
  }

  lemma SameLinesSameVerdict(a: seq<string>, b: seq<string>, trusted: TrustedKeys, payload: Utf8.Bytes,
                             check: Verifier)
    requires SameLines(a, b, trusted)
    ensures SameVerdict(VerifyLines(a, trusted, payload, check), VerifyLines(b, trusted, payload, check))
  {
    VerificationIsExact(a, trusted, payload, check);
    VerificationIsExact(b, trusted, payload, check);
  }

  lemma InsertedIsSame(a: seq<string>, line: string, b: seq<string>, trusted: TrustedKeys)
    requires Inert(line, trusted)
    ensures SameLines(a + [line] + b, a + b, trusted)
  {
    forall payload, check
      ensures Passes(a + [line] + b, trusted, payload, check) <==> Passes(a + b, trusted, payload, check)
      ensures ClaimedIds(a + [line] + b, trusted) == ClaimedIds(a + b, trusted)
    {
      InsertedLine(a, line, b, trusted, payload, check);
    }
    InsertedLine(a, line, b, trusted, [], (k, m, g) => false);
  }

  lemma InertLineIsSame(before: string, line: string, end: string, after: string, trusted: TrustedKeys)
    requires AtBoundary(before, after)
    requires NoLineBreak(line) && Inert(line, trusted) && (IsTerminator(end) || (end == "" && after == ""))
    ensures SameLines(SplitLines(before + (line + (end + after))), SplitLines(before + after), trusted)
  {
    var a, b := LineInserted(before, line, end, after);
    InsertedIsSame(a, line, b, trusted);
    InsertedIsSame(a, "", b, trusted);
  }

  /**
   Inserting a comment, a blank line or a well-formed line of an untrusted key, with any terminator, at any
   boundary between two lines of the text, at its start or after its last terminator leaves the verdict alone.
   */
  lemma InertLinesAreInvisible(before: string, line: string, end: string, after: string, trusted: TrustedKeys,
                               payload: Utf8.Bytes, check: Verifier)
    requires AtBoundary(before, after)
    requires NoLineBreak(line) && Inert(line, trusted) && (IsTerminator(end) || (end == "" && after == ""))
    ensures SameVerdict(VerifyLines(SplitLines(before + (line + (end + after))), trusted, payload, check),
                        VerifyLines(SplitLines(before + after), trusted, payload, check))
  {
    InertLineIsSame(before, line, end, after, trusted);
    SameLinesSameVerdict(SplitLines(before + (line + (end + after))), SplitLines(before + after), trusted, payload,
                         check);
  }

  /** So does appending one to a text whose last line is unterminated, once that line is ended. */
  lemma AppendedLinesAreInvisible(text: string, ended: string, line: string, end: string, trusted: TrustedKeys,
                                  payload: Utf8.Bytes, check: Verifier)
    requires text != "" && !IsLineBreak(text[|text| - 1]) && IsTerminator(ended)
    requires NoLineBreak(line) && Inert(line, trusted) && (IsTerminator(end) || end == "")
    ensures SameVerdict(VerifyLines(SplitLines(text + ended + (line + end)), trusted, payload, check),
                        VerifyLines(SplitLines(text), trusted, payload, check))
  {
    var whole := text + ended;
    TerminatorAddsNoLine(text, ended);
    InertLinesAreInvisible(whole, line, end, "", trusted, payload, check);
    assert end + "" == end && whole + "" == whole;
  }
}
