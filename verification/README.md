# Verified model of the Azazel Fabric record boundary

Azazel Fabric describes records that several products share. Nothing in it acts; what it guarantees is the
boundary each record crosses, and that boundary is what this project models and proves:

1. A JSON-shaped payload is walked by a bounded guard that looks for forbidden keys.
2. The payload is turned into canonical text (sorted keys, fixed separators) and bytes.
3. The bytes are digested or authenticated, and manifests are signed.
4. The record is matched against other records: re-sent proposals, observations, effects, terrains, interfaces.

`dafny verify dfyconfig.toml` checks everything.

## How it is built

- `Json.dfy` holds the one datatype of JSON values. A dict is a list of members in insertion order, as Python
  keeps it, with distinct keys (`WellFormed`). Equality of values is `Same`, which compares dicts as mappings.
  Finite floats are carried as text, their `repr` when printed; NaN and the infinities are values of their own.
- `JsonText.dfy` is the encoder of Python's `json` in the three styles the repository uses, `JsonParser.dfy` the
  decoder (sections 4 to 7 of RFC 8259, with Python's `NaN` and `Infinity`, and the last of two equal keys winning).
  `JsonRoundTrip.dfy` proves that they undo each other, `JsonGrammar.dfy` that the decoder reads exactly the texts of
  the grammar, and `JsonShape.dfy` that what is printed is the text a reader would write down, literal by literal;
  `AuditLines.dfy` and `ManifestShape.dfy` do so for a log line and for the bytes a release is signed over,
  `SignatureLines.dfy` for the lines of a signature file. No digest, signature, replay or log theorem assumes anything
  about texts: all of them rest on this printer and this parser, and on UTF-8 (`Utf8.dfy`).
- SHA-256, HMAC and Ed25519 are arbitrary functions. Where a theorem needs "different bytes, different digest", it
  names the two byte strings that would be a collision instead of assuming there is none.
- Code that works step by step is a method with its loop, proved equal to a specification function: key
  normalization, `digest_payload`, `sign_decision`, `build_manifest`, `write_jsonl`/`read_jsonl` on a file object,
  `load_trusted_keys`, `parse_signature_file`, `verify`, `matching_interfaces`. Code made of expressions and calls is
  functions.
- Key normalization is proved for keys of any characters, with Python's character classes as a parameter; the lemmas
  on spelling are about ASCII keys.
- An exception is a `Result` or an `Option`; a theorem about acceptance is about the absence of every one of them.
- `Replay.dfy` takes mappings as they were sent; the dump of the record a model builds from one, with its defaults and
  coercions, is a parameter, and the rules the guards lean on are spelled out (`ProposalRules`, `ObservationRules`).
  `EffectChain.dfy` takes records with their construction rules (`ValidEffect`, `ValidObservation`, `ValidTerrain`).
  In both the instant a timestamp text denotes is a parameter.
- `ReleaseBinding.dfy` puts the release tools together: the tree, its manifest, the written file and its signature.

## What the code turned out not to do

Each of these is a lemma, beside one that says exactly when the code does behave so.

- The `executable` flag test compares the normal form, so it is not independent of spelling the way the other key
  tests are: `execut_able` and `exeCutable` are answered differently from `executable`
  (`DirectiveKeys.ExecuteFlagBySpelling`, `ExecuteFlagIsNotSpellingIndependent`, and at the guard
  `Guards.PassesSetToTrueExactlyWhen`, `SpellingsOfTheFlagAtTheGuard`).
- The key test of the outcome family does not split camelCase, so a spelling without separators of a name of several
  words passes it (`OutcomeKeys.ForbiddenWithoutSeparator`, `AttackerBeliefSpellings`).
- A release manifest that carries a `signature_ref` still has the bytes it was signed over, but no longer passes
  `rc_digest --check` (`Manifest.LocatorKeepsSignedBytes`, `ReleaseBinding.CheckBindsRelease`,
  `LocatedManifestFailsCheck`).
- `reject_ref_kinds` looks through one trailing newline, not two (`Refs.NewlineInvariance`, `TwoNewlinesHide`).
- The effect window has no lower bound: a live report from before the effect was created passes
  (`EffectChain.AdmittedExactlyWhen`, `AdmittedBeforeCreation`).
- An audit log whose last line is torn becomes unreadable as a whole at the next append, unless only white space
  stands on that line (`AuditLog.AppendAfterTornLine`, `LostLineFeedLosesTheLog`).
- The inventory's rule of distinct composite keys does not make every interface reachable: one whose fields are all
  carried by another entry, with one more, is matched by no selector alone
  (`Interfaces.CommissionableExactlyWhen`, `ShadowedEntryHasNoSelector`).
- Pinning more fields never moves an assignment, and adding interfaces never does, but both at once can
  (`Interfaces.AddingAndPinningMove`, `AddingAndPinningCanMove`).
- A terrain activated by a decision and naming neither effect nor trace binds every effect of that decision
  (`EffectChain.DecisionAloneBindsEveryEffectOfIt`, `OneTerrainTwoEffects`).

## Model

| member | source | states |
|---|---|---|
| JsonRoundTrip.ParseEmitted | src/azazel_fabric/provisioning_contracts/integrity.py:42-51 | In any style, at any depth and before any text that cannot continue a number, decoding what the encoder printed gives back exactly the value and the text after it. |
| JsonRoundTrip.ParsePrinted | src/azazel_fabric/provisioning_contracts/integrity.py:42-51 | Decoding a sorted-key text of any style gives the value with the members of every dict in code-point order of their keys. |
| JsonRoundTrip.TextDeterminesValue | src/azazel_fabric/provisioning_contracts/integrity.py:42-51 | Canonical text is injective and ignores key order: two values print one text if and only if they are equal with dicts as mappings. |
| JsonShape.CanonicalTextIs | src/azazel_fabric/provisioning_contracts/integrity.py:42-51 | The canonical text is the compact text with sorted keys, in which every bracket, comma, colon, quote and escape is a literal; a NaN or an infinity is refused. |
| JsonShape.CanonicalTextIsTight | src/azazel_fabric/provisioning_contracts/integrity.py:45-48 | No white space of any kind stands in it outside string literals, told by a scan over quotes and backslashes. |
| JsonShape.OneMemberText | src/azazel_fabric/provisioning_contracts/integrity.py:45-48 | A dict of one member is an opening brace, the quoted key, a colon, the text of the value and a closing brace. |
| JsonShape.TwoMembersText | src/azazel_fabric/provisioning_contracts/integrity.py:45-48 | Two members, in whichever order they were put in, are joined by a comma alone, the smaller key first. |
| JsonShape.EscapeIs | src/azazel_fabric/provisioning_contracts/integrity.py:49 | The seven escapes of two characters, the `\u` escapes with four lower-case digits, surrogate pairs, and the characters written as they are. |
| JsonShape.StringAsItIs | src/azazel_fabric/provisioning_contracts/integrity.py:49 | A text stands between its quotes unchanged, in any language, if and only if it holds no quote, backslash or control character. |
| PyText.LessAtFirstDifference | src/azazel_fabric/provisioning_contracts/integrity.py:47 | Keys are ordered by code point where they first differ, a proper prefix first. |
| Numerals.IntTextByDigits | src/azazel_fabric/provisioning_contracts/integrity.py:45 | Integers are printed digit by digit in decimal, a minus sign in front. |
| Json.SortKeysDecidesSame | src/azazel_fabric/provisioning_contracts/integrity.py:46-48 | Sorting the keys at every level is a normal form of equality of values, in both directions. |
| Json.SameDictByLookup | src/azazel_fabric/provisioning_contracts/integrity.py:37-38 | Two dicts are equal values if and only if every lookup answers alike, which is what makes field-by-field claims about digests meaningful. |
| JsonTextFacts.ParseWellFormed | src/azazel_fabric/audit/jsonl.py:32-38 | Whatever text is decoded, the value has distinct keys in every dict and number lexemes of the printed grammar. |
| JsonGrammar.ParseIsExact | src/azazel_fabric/audit/jsonl.py:32-38 | Decoding succeeds if and only if the text is one of the grammar, with any blanks between tokens and any spelling of each character, and gives the value it stands for, the last of two equal keys winning. |
| JsonGrammar.ReadDoc | tools/rc_digest.py:116 | Every text of the grammar is read as its value, whatever follows that cannot continue a number. |
| JsonGrammar.NumberExactlyWhen | tools/rc_digest.py:116 | A text is a number if and only if it has a sign or none, digits without a leading zero, a fraction or none and an exponent or none; without the last two it is an integer of that value. |
| JsonTextFacts.EmittedIsAscii | src/azazel_fabric/audit/jsonl.py:29 | With ASCII escaping every character printed, surrogate pairs included, lies between space and tilde. |
| JsonShape.SortedTextIsIndented | tools/rc_digest.py:113 | The indented text written out: two blanks to a level, one item or member to a line, a blank after each colon. |
| JsonTextFacts.EmitThen | src/azazel_fabric/audit/jsonl.py:29 | The text of a value does not depend on what is printed after it. |
| Utf8.DecodeEncode | src/azazel_fabric/provisioning_contracts/integrity.py:54-57 | UTF-8 bytes decode to the text they were encoded from. |
| Utf8.EncodeDecode | tools/rc_digest.py:116 | Bytes that decode at all are the encoding of what they decode to: no overlong form or surrogate gets in. |
| Utf8.BytesOfChar | src/azazel_fabric/provisioning_contracts/integrity.py:57 | The bytes of a character: the shortest of the four forms, its marks, and the code point in the remaining bits. |
| Canonical.BytesDetermineValue | src/azazel_fabric/provisioning_contracts/integrity.py:54-57 | Two values, the first without NaN, have the same canonical bytes if and only if they are equal. |
| Canonical.RefusedExactlyForSpecials | src/azazel_fabric/provisioning_contracts/integrity.py:50 | Canonical bytes exist if and only if no node of the value, at any depth, is a NaN or an infinity. |
| Canonical.BytesRoundTrip | src/azazel_fabric/provisioning_contracts/integrity.py:42-57 | Canonical bytes decode and parse back to an equal value. |
| Canonical.BytesCoverOutside | src/azazel_fabric/provisioning_contracts/integrity.py:60-82 | The covered bytes of two records agree if and only if the records agree on every field outside the names left out. |
| Integrity.DigestPayload | src/azazel_fabric/provisioning_contracts/integrity.py:60-82 | The copy with names popped one by one is the record without exactly the digest field and the excluded names, repeated names included; anything but a mapping is refused. |
| Integrity.SealedIsAccepted | src/azazel_fabric/provisioning_contracts/integrity.py:85-114 | A record can be sealed if and only if no covered field holds a NaN, and a sealed record is accepted. |
| Integrity.DigestIs | src/azazel_fabric/provisioning_contracts/integrity.py:85-94 | A digest is `sha256:` and the hexadecimal hash of the canonical text without the digest field and `signature_ref`. |
| Digests.HexDigitsOfByte | src/azazel_fabric/provisioning_contracts/integrity.py:94 | Each byte is two lower-case digits, the high one first. |
| Integrity.UncoveredFieldIsFree | src/azazel_fabric/provisioning_contracts/integrity.py:25-27 | Setting an excluded field, such as a signature locator assigned later, leaves the digest alone. |
| Integrity.DigestCoversEverythingElse | src/azazel_fabric/provisioning_contracts/integrity.py:68-72 | Two digests agree if and only if the records agree on every covered field, or the two covered byte strings collide. |
| Integrity.AcceptedTwinsAgree | src/azazel_fabric/provisioning_contracts/integrity.py:97-114 | Given an accepted record, another that declares the same digest is accepted if and only if it is free of NaN and agrees on every covered field, or collides. |
| Integrity.SigningPayload | src/azazel_fabric/deception_integrity.py:26-41 | The package payload is the record without its digest and its signature locator, the covered part every digest theorem speaks of. |
| DecisionSigning.SignDecision | src/azazel_fabric/deception_contracts/decision_signing.py:80-96 | The copy that gets its signature is the specified one, and a key of another type or a NaN is refused before anything is stored. |
| DecisionSigning.MessageIs | src/azazel_fabric/deception_contracts/decision_signing.py:45-64 | What is signed: the compact text of the decision without its signature field, keys sorted, in UTF-8. |
| DecisionSigning.SignatureIs | src/azazel_fabric/deception_contracts/decision_signing.py:67-96 | What is stored: the hexadecimal MAC of that message under the bytes of the key, or the UTF-8 bytes of a text key. |
| DecisionSigning.TextKeyUnderTextKey | src/azazel_fabric/deception_contracts/decision_signing.py:29-33 | A decision signed under one text key verifies under another if and only if the keys are equal or share the MAC of the message. |
| DecisionSigning.BytesKeyUnderBytesKey | src/azazel_fabric/deception_contracts/decision_signing.py:29-33 | The same for two bytes keys. |
| DecisionSigning.TextKeyUnderBytesKey | src/azazel_fabric/deception_contracts/decision_signing.py:29-33 | A text key and a bytes key verify for each other if and only if the bytes are the UTF-8 of the text, or share the MAC. |
| DecisionSigning.OtherKeyIsRefused | src/azazel_fabric/deception_contracts/decision_signing.py:34-42 | A key that is neither text nor bytes signs nothing and verifies nothing. |
| DecisionSigning.VerifiesWhenSigningChangesNothing | src/azazel_fabric/deception_contracts/decision_signing.py:99-120 | A decision verifies if and only if signing it again would change nothing at all. |
| DecisionSigning.SignThenVerify | src/azazel_fabric/deception_contracts/decision_signing.py:80-120 | Signing works for every text or bytes key and every decision without NaN outside the signature, and what was signed verifies. |
| DecisionSigning.ResigningForgetsOldSignature | src/azazel_fabric/deception_contracts/decision_signing.py:92-96 | Signing a signed decision under any key gives what signing the original gives. |
| DecisionSigning.SigningIsIdempotent | src/azazel_fabric/deception_contracts/decision_signing.py:92-96 | Signing twice is signing once. |
| DecisionSigning.SignatureBindsEveryOtherField | src/azazel_fabric/deception_contracts/decision_signing.py:45-64 | With the signature of a verified decision, another decision verifies if and only if it agrees on every other field, or the two messages share a MAC. |
| DecisionSigning.NoSignatureNoVerification | src/azazel_fabric/deception_contracts/decision_signing.py:111-120 | Only a text of sixty-four characters under the signature field can verify; missing, empty, non-text and non-ASCII values answer false without an error. |
| StringOrder.SortIgnoresOrder | tools/rc_digest.py:66 | A sorted list depends on its elements and their number, not on the order they came in. |
| Manifest.BuildManifest | tools/rc_digest.py:73-87 | A manifest is refused for an empty tree only; otherwise its `files` dict answers for exactly the tracked paths, each with the digest of its bytes, under the given candidate and version, and beside its own correct digest it holds nothing else. |
| Manifest.FilesAreListed | tools/rc_digest.py:76-78 | In whatever order the paths were listed, looking up a path gives the digest of its bytes if it is tracked and nothing otherwise. |
| Manifest.BuiltDescribes | tools/rc_digest.py:79-87 | The fields of a built manifest, one by one: schema, candidate, version, covered surface, the listed files and a digest that its own check accepts, six in all. |
| Manifest.ParseManifestText | tools/rc_digest.py:113 | The indented text of a manifest reads back as an equal manifest. |
| Manifest.ManifestTextIs | tools/rc_digest.py:113 | The written file is that indented text with sorted keys and a final line feed. |
| Manifest.CheckDecidesEquality | tools/rc_digest.py:115-123 | The check passes if and only if the recorded text holds a value equal to the rebuilt manifest. |
| Manifest.SignableIgnoresLayout | tools/rc_signature.py:76-79 | Equal manifests have the same bytes to sign, however each was written down. |
| Manifest.WrittenManifestChecks | tools/rc_digest.py:111-123 | Writing a manifest with indentation and reading it back passes the check and leaves the bytes to sign unchanged. |
| Manifest.LocatorKeepsSignedBytes | tools/rc_signature.py:76-79 | A locator added after signing leaves the signed bytes alone. |
| Manifest.LocatorFailsCheck | tools/rc_digest.py:117 | A manifest with the locator added fails the check against the same manifest without it. |
| Manifest.BuiltManifestIsSound | tools/rc_digest.py:73-123 | Every non-empty tree has a manifest; the digest it carries is accepted and its written form passes the check. |
| Manifest.ListingOrderIsInvisible | tools/rc_digest.py:66-78 | Listing the same paths in another order gives the same manifest. |
| ReleaseBinding.DigestBindsRelease | tools/rc_digest.py:8-14 | Two manifests carry one digest if and only if candidate, version, tracked paths and the bytes at every path agree, or the hash collides on the files at one path or on the two bodies. |
| ReleaseBinding.CheckBindsRelease | tools/rc_digest.py:111-123 | The manifest written from one release passes the check against the tree of another if and only if candidate, version, paths and bytes agree, up to colliding files. |
| ReleaseBinding.LocatedManifestFailsCheck | tools/rc_digest.py:111-123 | The manifest built from a tree passes the check against that tree, and the same file with a locator added fails it. |
| ReleaseBinding.SignedBytesDetermineManifest | tools/rc_signature.py:76-79 | Two manifests have the same bytes to sign if and only if they agree on every field but the digest and the locator. |
| ReleaseBinding.SignedBytesBindRelease | tools/rc_signature.py:76-79 | The bytes to sign of two built manifests are the same if and only if candidate, version, paths and bytes agree, up to colliding files. |
| ManifestShape.SignedTextIs | tools/rc_digest.py:79-87 | The bytes to sign of a built manifest, field by field in order with nothing between the tokens, and the digest it carries, computed over the same bytes. |
| ReleaseBinding.RewritingKeepsVerdict | tools/rc_signature.py:142-143 | Manifest files that hold equal values get one verdict on one signature file, whatever their layout, key order and escapes. |
| ReleaseBinding.ReindentingKeepsVerdict | tools/rc_signature.py:142-143 | A manifest printed in any style gets the verdict of the indented one. |
| ReleaseBinding.AddingLocatorKeepsVerdict | tools/rc_signature.py:142-189 | A manifest that gets a signature locator added and is written again keeps its verdict. |
| ReleaseBinding.OneSignatureOneRelease | tools/rc_signature.py:133-139 | If one signature file is accepted for the manifests of two releases, candidate, version, paths and bytes agree, up to colliding files, or a line of the file names a trusted key that accepts its signature for both messages. |
| AuditLog.WriteJsonl | src/azazel_fabric/audit/jsonl.py:49-61 | The file grows by exactly one line per event, in order, and the count is the number of events. |
| AuditLog.IterJsonl | src/azazel_fabric/audit/jsonl.py:41-46 | The loop over the lines gives the events of the non-blank ones, in order, and stops at the first malformed line. |
| AuditLog.ReadJsonl | src/azazel_fabric/audit/jsonl.py:64-66 | The events of the text the file holds, or an error as soon as one line is malformed. |
| AuditLines.LogIsReadExactlyWhen | src/azazel_fabric/audit/jsonl.py:41-46 | A log is read if and only if every line is blank or a record, and then as one event for each line that is not blank. |
| AuditLines.BlankLinesAreInvisible | src/azazel_fabric/audit/jsonl.py:43-45 | A blank line, with any terminator, at any boundary between lines, at the start or at the end, changes nothing that is read. |
| AuditLines.AppendedBlanksAreInvisible | src/azazel_fabric/audit/jsonl.py:43-45 | Neither does one behind a last line that was not ended, once it is ended. |
| AuditLines.BreaksAreNoEvents | src/azazel_fabric/audit/jsonl.py:43-45 | A log of one line break holds no event and is not malformed. |
| AuditLines.LineIsReadExactlyWhen | src/azazel_fabric/schema/audit.py:14-30 | A line is an event if and only if it is a dict with the five required texts and fit optional fields; each field is the one of its name, or its default. |
| AuditLines.UnknownFieldIsIgnored | src/azazel_fabric/schema/audit.py:14-30 | A field the record does not know changes nothing. |
| AuditLines.LineText | src/azazel_fabric/audit/jsonl.py:21-29 | A line written out: the eight fields by name in sorted order, nothing between the tokens, missing texts as null. |
| AuditLog.LineSurvivesFraming | src/azazel_fabric/audit/jsonl.py:21-29 | A line holds no line break of any kind that `splitlines` knows and nothing that `strip` removes. |
| AuditLog.LineRoundTrip | src/azazel_fabric/audit/jsonl.py:21-38 | Decoding a line gives the event back, with the keys of its payload in order. |
| AuditLog.AppendThenRead | src/azazel_fabric/audit/jsonl.py:41-66 | Appending events to any log that ends in a line break and reading it gives what was read before and then the events; a malformed log stays malformed. |
| AuditLog.AppendAfterTornLine | src/azazel_fabric/audit/jsonl.py:41-66 | Appending events to any text at all: the log can be read afterwards if and only if it could be read up to its last unterminated line and nothing but white space stands on that line; it then gives what was read before and the events. |
| AuditLog.RecordBehindTornLine | src/azazel_fabric/audit/jsonl.py:41-46 | A record behind a torn line, read with it as one line, is the record if the torn line is blank and is refused otherwise, however much of another record or of anything else stands there. |
| JsonTorn.ObjectAtTheEnd | src/azazel_fabric/audit/jsonl.py:32-38 | A text that ends in a whole object is a JSON text if and only if only blanks stand before the object: an open string, array or object in front of it is never closed. |
| AuditLog.TwoRecordsOnOneLine | src/azazel_fabric/audit/jsonl.py:32-38 | Two records on one line are refused as one malformed line. |
| AuditLog.LostLineFeedLosesTheLog | src/azazel_fabric/audit/jsonl.py:41-66 | In particular a log whose last record lost its line feed cannot be read at all after the next append. |
| AuditLog.WriteThenRead | src/azazel_fabric/audit/jsonl.py:41-66 | Writing any list of events and reading the text back gives equal events, in order. |
| KeyNormalization.CollapseLoop | src/azazel_fabric/provisioning_contracts/validation.py:53-55 | The replace loop ends with every run of underscores reduced to one, after as many passes as halving the longest run, rounding up, takes to reach one. |
| KeyNormalization.HalvingsIsCeilLog2 | src/azazel_fabric/provisioning_contracts/validation.py:54-55 | That number of passes is the ceiling of the base-two logarithm of the longest run. |
| KeyNormalization.ReplaceHalvesRuns | src/azazel_fabric/provisioning_contracts/validation.py:55 | One pass halves the longest run and the leading run, rounding up. |
| KeyNormalization.NormalizedKey | src/azazel_fabric/provisioning_contracts/validation.py:43-56 | For keys of any characters and any character classes: the loop with its flag, the collapse and the strip compute the specified form, which has no underscore at either end and no two in a row. Which keys it splits is SplitsExactlyWhen. |
| KeyNormalization.FlatNormalizedKey | src/azazel_fabric/outcome_contracts/validation.py:22-26 | For keys of any characters: the loop without camel splitting computes the specified form, again with single inner underscores. |
| KeyNormalization.JoinParts | src/azazel_fabric/provisioning_contracts/validation.py:46-53 | The character loop with its flag writes the specified parts, for any character classes and lower-case forms of any length. |
| KeyNormalization.AsciiNormalForms | src/azazel_fabric/external_security_contracts/validation.py:441-459 | On ASCII keys both forms are the ASCII ones, however the classes go on beyond ASCII. |
| KeySplits.SplitsExactlyWhen | src/azazel_fabric/provisioning_contracts/validation.py:46-56 | The normal form holds an underscore if and only if the raw key has a separator, or a step from a lower-case letter or digit to an upper-case letter, between two of its letters and digits. |
| KeySplits.FlatSplitsExactlyWhen | src/azazel_fabric/outcome_contracts/validation.py:22-26 | Without camel splitting the normal form holds an underscore if and only if the raw key has a separator between two of its letters and digits. |
| OutcomeKeys.ForbiddenWithoutSeparator | src/azazel_fabric/outcome_contracts/validation.py:29-40 | A key without such a separator is forbidden if and only if its spelling is one of the eight single words of the table; none of the other tests applies to it. |
| OutcomeKeys.TwoWordsForbidden | src/azazel_fabric/outcome_contracts/validation.py:29-40 | A key of two lower-case words is forbidden if and only if it is listed, has `command` or `success` as a word, or holds one of three phrases around its underscore. |
| OutcomeKeys.SpellingWithoutSeparatorPasses | src/azazel_fabric/outcome_contracts/validation.py:29-40 | Each of the eight names of several words is forbidden, and no spelling of it without a separator is. |
| OutcomeKeys.AttackerBeliefSpellings | src/azazel_fabric/outcome_contracts/validation.py:8-13 | `attacker_belief` and `attackerBelief` have one spelling; the first is forbidden, the second is not. |
| KeyNormalization.NormalFormsSpell | src/azazel_fabric/external_security_contracts/validation.py:441-463 | Without underscores both normal forms are the lower-cased letters and digits of the key. |
| KeyNormalization.NormalFormsAreSnake | src/azazel_fabric/provisioning_contracts/validation.py:43-56 | Both normal forms are lower-case words joined by single underscores. |
| KeyNormalization.NormalizationIsIdempotent | src/azazel_fabric/provisioning_contracts/validation.py:43-56 | Normalizing a normal form changes nothing, across the two families. |
| KeyNormalization.SameSpellingSameSquash | src/azazel_fabric/external_security_contracts/validation.py:462-463 | Two keys squash alike if and only if they have the same letters and digits. |
| DirectiveKeys.DirectiveBySpelling | src/azazel_fabric/external_security_contracts/validation.py:486-505 | Whether a key is a directive is a function of its spelling alone; the exact-name and secret-segment tests never decide. |
| DirectiveKeys.LocatorBySpelling | src/azazel_fabric/external_security_contracts/validation.py:511-513 | A key is a locator if and only if its spelling is that of a listed name. |
| DirectiveKeys.ReservedBySpelling | src/azazel_fabric/external_security_contracts/validation.py:516-519 | A key is reserved if and only if its spelling is that of a reserved name. |
| DirectiveKeys.SpellingsShareOneAnswer | src/azazel_fabric/external_security_contracts/validation.py:486-519 | camelCase, kebab-case, spaced and snake_case spellings of one key get one answer from all three tests. |
| DirectiveKeys.ExecuteFlagBySpelling | src/azazel_fabric/external_security_contracts/validation.py:561 | A key is the execute flag if and only if it has the spelling and holds neither a separator nor a step to upper case between two of its letters. |
| DirectiveKeys.SplitFlagIsMissed | src/azazel_fabric/external_security_contracts/validation.py:561 | Wherever the word is cut in two by an underscore, the flag test answers differently. |
| DirectiveKeys.CamelFlagIsMissed | src/azazel_fabric/external_security_contracts/validation.py:561 | Whichever letter after the first is a capital, the flag test answers differently. |
| DirectiveKeys.ExecuteFlagIsNotSpellingIndependent | src/azazel_fabric/external_security_contracts/validation.py:558-562 | `executable`, `execut_able` and `exeCutable` have one spelling; the flag test accepts the first only. |
| Walkers.WalkIsExact | src/azazel_fabric/external_security_contracts/validation.py:528-571 | Whichever check fires first, a walk accepts a payload if and only if every node of the tree is within the depth and passes the rules on nodes. |
| Walkers.SubPayloadAccepted | src/azazel_fabric/external_security_contracts/validation.py:528-571 | Every sub-payload of an accepted payload is itself accepted. |
| Walkers.LaxerRulesAccept | src/azazel_fabric/provisioning_contracts/validation.py:223-251 | Rules that ask for less, at no smaller depth, accept whatever stricter rules accept. |
| Guards.ExternalGuardIsExact | src/azazel_fabric/external_security_contracts/validation.py:528-602 | Acceptance means: every node at depth at most 12, every size within its bound, every float finite, every key printable ASCII and not banned, every flag key mapped to False. |
| Guards.PassesSetToTrueExactlyWhen | src/azazel_fabric/external_security_contracts/validation.py:549-563 | A record of one ASCII key set to True passes the guard if and only if the key is short, printable and not banned, and is not the execute flag in a spelling without a separator or a step to upper case inside. |
| Guards.SpellingsOfTheFlagAtTheGuard | src/azazel_fabric/external_security_contracts/validation.py:558-562 | Set to True, `executable` is always refused; `execut_able` and `exeCutable` pass if and only if the table does not hold them. |
| DirectiveSearch.BoundedSearchIsExact | src/azazel_fabric/deception_contracts/validation.py:21-38 | From any depth, the bounded search comes back empty-handed if and only if the unbounded predicate is false and the payload is not too high. |
| DirectiveSearch.RefusedExactlyWhen | src/azazel_fabric/deception_contracts/validation.py:72-83 | The assertion refuses a payload if and only if it holds a banned key anywhere or is higher than 32. |
| DirectiveSearch.WalkCoversSearch | src/azazel_fabric/mio_contracts/validation.py:20-25 | A walk no deeper than the search that refuses every banned key leaves the search nothing to find. |
| DirectiveSearch.LargerTableRefusesMore | src/azazel_fabric/engagement_contracts/validation.py:20-35 | What a search with more names lets through, a search with fewer does. |
| Guards.EngagementCoversDeception | src/azazel_fabric/engagement_contracts/validation.py:64-77 | What the engagement guard accepts, the deception guard accepts. |
| Guards.MioCoversDeception | src/azazel_fabric/mio_contracts/validation.py:91-142 | What the M.I.O. guard accepts, the deception guard accepts. |
| Guards.ExternalCoversDeception | src/azazel_fabric/external_security_contracts/validation.py:588-602 | What the external guard accepts, the deception guard accepts, although it matches normal forms and not raw names. |
| Guards.ProvisioningCoversDeception | src/azazel_fabric/provisioning_contracts/validation.py:144-151 | What the provisioning guard accepts, with keys of any characters, the deception guard accepts: four of the eleven names are in its table, the other seven end in a refused suffix. |
| Guards.ProvisioningGuardIsExact | src/azazel_fabric/provisioning_contracts/validation.py:216-251 | The provisioning guard accepts if and only if every node lies at depth at most 8, within its sizes, with keys of at most 128 characters that are not refused. |
| Guards.TwoWordsRefused | src/azazel_fabric/provisioning_contracts/validation.py:144-151 | A key of two lower-case words is refused for the table of names, for its second word as a suffix or for its first as a prefix, and for nothing else. |
| Guards.SkeletonIsExact | src/azazel_fabric/knowledge_context.py:170-192 | Guarding the key skeleton accepts a payload if and only if the payload meets the rules on depth, cardinality and keys. |
| Guards.MioWalkIsSkeletonAndStrings | src/azazel_fabric/mio_contracts/validation.py:91-120 | The full M.I.O. walk is the skeleton check and the bound of 8192 on every string. |
| Timestamps.ToUtcKeepsInstant | src/azazel_fabric/knowledge_context.py:148-158 | Converting to UTC, across day, month and year ends, keeps the instant. |
| Timestamps.OrdinalInjective | src/azazel_fabric/knowledge_context.py:155-160 | A day number determines its date, leap years included. |
| Timestamps.UtcTextRoundTrip | src/azazel_fabric/knowledge_context.py:125-160 | For every accepted text, the UTC text printed for it is accepted and denotes the same instant. |
| Timestamps.UtcTextDeterminesInstant | src/azazel_fabric/knowledge_context.py:155-160 | Two accepted spellings print one text if and only if they denote one instant, whatever their offsets and fraction lengths. |
| Timestamps.UtcTextIsFixed | src/azazel_fabric/knowledge_context.py:155-160 | Printing what a printed text denotes prints it again. |
| Timestamps.OffsetDenotes | src/azazel_fabric/knowledge_context.py:143-153 | A time with an offset east denotes the time in UTC less the offset, one west the time plus the offset; it is accepted if and only if that instant lies in the calendar. |
| Timestamps.FractionDenotes | src/azazel_fabric/knowledge_context.py:132-142 | A fraction of one to six digits adds its value times ten to the number of missing digits, in microseconds. |
| Timestamps.AcceptedIsSpelled | src/azazel_fabric/knowledge_context.py:71-73 | Whatever is accepted is the date and time of its fields, a fraction of at most six digits, and `Z` or a sign with hours and minutes of a clock. |
| Timestamps.ZuluExactlyWhen | src/azazel_fabric/knowledge_context.py:125-153 | Such a text in UTC is accepted if and only if its fields are those of a calendar date and a clock, leap years included. |
| Timestamps.ZoneExactlyWhen | src/azazel_fabric/knowledge_context.py:125-153 | With an offset: if and only if they are, and the instant lies in the calendar. |
| Timestamps.ToUtcExactlyWhen | src/azazel_fabric/knowledge_context.py:150-153 | Conversion overflows if and only if the instant lies before 0001-01-01 or after 9999-12-31 in UTC. |
| ReleaseSignature.LoadTrustedKeys | tools/rc_signature.py:82-113 | The loop that copies the entries gives the specified table, or the error of a document without a `keys` object or with an entry that is not a non-blank id and a hex key of thirty-two bytes. |
| ReleaseSignature.KeysAreTheListed | tools/rc_signature.py:97-113 | The table maps an id to a key text if and only if the document lists that pair, and every listed key is thirty-two bytes. |
| ReleaseSignature.KeyFileLoads | tools/rc_signature.py:91-113 | A key file loads if and only if every key id is not blank and every key is the hexadecimal text of thirty-two bytes, and then as the table of its entries. |
| ReleaseSignature.OtherKeyFiles | tools/rc_signature.py:91-96 | Any other document is refused; without a key file the table is empty and nothing verifies. |
| ReleaseSignature.HexIsReadBack | tools/rc_signature.py:104 | Bytes written in hexadecimal are read back. |
| ReleaseSignature.ParseSignatureFile | tools/rc_signature.py:116-130 | The entries of the lines in order, comments and blank lines skipped; the first malformed line or an empty result is an error. |
| SignatureLines.EntryLine | tools/rc_signature.py:121-127 | The line `id:signature`, with white space anywhere around the two, is read as that key id and that signature. |
| SignatureLines.LineWithColon | tools/rc_signature.py:124-127 | Any line with a colon is read around its first one, each side stripped; it is malformed if and only if one side is blank. |
| SignatureLines.LineWithoutColon | tools/rc_signature.py:124-126 | A line without a colon is malformed unless it is skipped. |
| SignatureLines.SkippedExactlyWhen | tools/rc_signature.py:121-123 | A line is skipped if and only if, after its leading white space, nothing is left or a `#` follows. |
| SignatureLines.FirstMalformedIsReported | tools/rc_signature.py:120-126 | The line number reported is that of the first malformed line, counted from one. |
| ReleaseSignature.Verify | tools/rc_signature.py:133-189 | The loop over the entries gives the verdict specified for the lines; without a signature file it fails. |
| ReleaseSignature.VerificationIsExact | tools/rc_signature.py:136-139 | Verification succeeds if and only if some line names a trusted key, no line is malformed and every line naming a trusted key is genuine; it then returns the named ids, sorted. |
| SignatureLines.OneLineFile | tools/rc_signature.py:149-189 | The verdict on the text `id:hex` and a line feed, all of it: no trusted key, untrusted id, not hexadecimal, not verifying, or signed by that id. |
| SignatureLines.OneLineFileIsAccepted | tools/rc_signature.py:167-189 | It is accepted if and only if the id is trusted and the check accepts the two decoded texts. |
| ReleaseSignature.LineOrderIsInvisible | tools/rc_signature.py:167-189 | Permuting the lines changes neither success nor the signers returned. |
| ReleaseSignature.InertLinesAreInvisible | tools/rc_signature.py:119-123 | A comment, a blank line or a well-formed untrusted line, with any terminator, can be inserted at every boundary between two lines, at the start and after the last terminator, without changing the verdict; joints that make or complete a "\r\n" included. |
| ReleaseSignature.AppendedLinesAreInvisible | tools/rc_signature.py:119-123 | The same for appending one to a text whose last line is unterminated, once a terminator is put between. |
| PyText.SplitAtBoundary | tools/rc_signature.py:120 | Whole lines are split independently of what follows them, at every line break `splitlines` knows, unless the joint makes one "\r\n". |
| Replay.ReplayGuardIsExact | src/azazel_fabric/external_security_contracts/validation.py:1079-1100 | A re-sent mapping is accepted if and only if both mappings build records and the second record has another id, or equals the first in every field once defaults are filled in, or the hash collides. |
| Replay.RunIsConstant | src/azazel_fabric/external_security_contracts/validation.py:1079-1100 | Along any run of re-sends with one id, each pair of neighbours accepted, every record equals the first. |
| Replay.ObservationGuardIsExact | src/azazel_fabric/external_security_contracts/validation.py:1103-1140 | For constructed records the observation guard accepts if and only if the references agree and, for an in-place status, the window starts in time and the report is made in time. |
| Replay.RunNeverExtends | src/azazel_fabric/external_security_contracts/models.py:772-782 | An in-place observation accepted against any proposal of a run lies between not_before and expires_at of the first, a span of 604800 seconds at most. |
| Replay.ObservationsOfARunShareOneWeek | src/azazel_fabric/external_security_contracts/models.py:184-186 | Any two in-place observations accepted anywhere along a run lie within one week of each other. |
| Replay.ObservationsOfARunShareRefs | src/azazel_fabric/external_security_contracts/validation.py:1118-1120 | Observations accepted anywhere along a run, in place or not, name one tenant, trace and decision. |
| Replay.LateReportsAreNotInPlace | src/azazel_fabric/external_security_contracts/validation.py:1109-1111 | After expiry an accepted observation has a status that is not in place. |
| Replay.LateReportExactlyWhen | src/azazel_fabric/external_security_contracts/validation.py:1122-1145 | A report made after expiry is accepted if and only if its status is none of `accepted_by_device`, `applied` and `observed`. |
| Replay.ProposalIsBuiltExactlyWhen | src/azazel_fabric/external_security_contracts/models.py:772-782 | A proposal is built if and only if its window runs forward and lasts at most a week. |
| Replay.ObservationIsBuiltExactlyWhen | src/azazel_fabric/external_security_contracts/models.py:858-863 | An observation is built if and only if its window does not run backwards and had ended when it was made. |
| Replay.OtherSchemasBuildNothing | src/azazel_fabric/external_security_contracts/validation.py:1054-1076 | A mapping builds a record only under one of the four schema names, and only one of the same schema. |
| EffectChain.BindingIsExact | src/azazel_fabric/effect_contracts/validation.py:277-343 | For a constructed terrain the branches come to: the same decision on both sides or none, and no clash of effect or trace. |
| EffectChain.TerrainJoinsOneEffect | src/azazel_fabric/effect_contracts/validation.py:236-343 | Accepted chains that share a terrain are about effects of one decision; without one, or when the terrain names its effect, about one effect of one trace. |
| EffectChain.DecisionAloneBindsEveryEffectOfIt | src/azazel_fabric/effect_contracts/validation.py:326-331 | A terrain with a decision alone binds exactly the effects of that decision. |
| EffectChain.OneTerrainTwoEffects | src/azazel_fabric/effect_contracts/validation.py:304-331 | Two different valid effects of one decision and a valid terrain accepted in the chain of each. |
| EffectChain.EffectIdStandsForNothingElse | src/azazel_fabric/effect_contracts/models.py:222-225 | In constructed records an effect's id is never a decision, a trace, or the decision behind a terrain. |
| EffectChain.ChainIsExact | src/azazel_fabric/effect_contracts/validation.py:236-274 | Whatever fires first, a chain is accepted if and only if nothing in it names another trace, effect, decision or terrain. |
| EffectChain.SharedRecordMeansOneEffect | src/azazel_fabric/effect_contracts/validation.py:242-247 | Accepted chains that share an observation are about one effect; sharing an envelope, one trace, and one effect if it names one. |
| EffectChain.ChainsJoin | src/azazel_fabric/effect_contracts/validation.py:252-256 | A chain over two lists of observations is accepted if and only if both chains are. |
| EffectChain.NeverLiveAfterExpiry | src/azazel_fabric/effect_contracts/validation.py:346-368 | Over any run of admitted observations, every claim of active_materialized lies at or before expires_at, and so does the latest instant a consumer believes the effect live. |
| EffectChain.ReplayAddsNothing | src/azazel_fabric/effect_contracts/validation.py:347-354 | Replaying observations already seen does not move that instant. |
| EffectChain.AdmittedExactlyWhen | src/azazel_fabric/effect_contracts/validation.py:346-368 | For constructed records an observation is admitted if and only if it belongs to the effect and, if it claims active_materialized, was made by expires_at. |
| EffectChain.LiveBeforeCreationIsAdmitted | src/azazel_fabric/effect_contracts/validation.py:358-363 | A live report from before the effect was created is admitted: there is no lower bound. |
| EffectChain.AdmittedBeforeCreation | src/azazel_fabric/effect_contracts/validation.py:358-363 | A valid effect and an admitted valid report that it was active before it was created, for any three instants in order. |
| Interfaces.MatchingInterfaces | src/azazel_fabric/provisioning_contracts/validation.py:386-400 | The nested loops with their early exit give the entries that agree with every pinned field, in order, or the error of a selector that is not composite. |
| Interfaces.ResolveInterfaceAssignment | src/azazel_fabric/provisioning_contracts/validation.py:403-425 | The method returns the specified resolution, with its four ways to fail. |
| Interfaces.ResolvesToTheOnlyMatch | src/azazel_fabric/provisioning_contracts/validation.py:403-425 | An assignment resolves if and only if the selector is composite and exactly one place of the inventory agrees with all it pins. |
| Interfaces.CompositeExactlyWhen | src/azazel_fabric/provisioning_contracts/validation.py:346-383 | A selector is composite if and only if it carries `bus_path`, `permanent_mac` and one of `pci_id`, `usb_vid_pid` and `serial`, none of them empty. |
| Interfaces.PartialSelectorNeverResolves | src/azazel_fabric/provisioning_contracts/validation.py:371-383 | A selector of less resolves to nothing in any inventory, even where one entry alone agrees with it. |
| Interfaces.AgreesExactlyWhen | src/azazel_fabric/provisioning_contracts/validation.py:332-343 | Matching compares nine fields, by name, and no other. |
| Interfaces.PinningMoreNeverMoves | src/azazel_fabric/provisioning_contracts/validation.py:391-400 | A selector that pins more resolves to the same interface if it agrees, and to nothing otherwise. |
| Interfaces.AddingNeverMoves | src/azazel_fabric/provisioning_contracts/validation.py:415-424 | Adding entries keeps the interface or makes the assignment ambiguous. |
| Interfaces.ReorderingNeverMoves | src/azazel_fabric/provisioning_contracts/validation.py:386-400 | Permuting the inventory changes neither the interface nor the error. |
| Interfaces.RenamingNeverMoves | src/azazel_fabric/provisioning_contracts/validation.py:360-368 | Changing kernel names, keys or anything outside the composite identity changes neither the hardware resolved to nor the error. |
| Interfaces.AddingAndPinningMove | src/azazel_fabric/provisioning_contracts/validation.py:386-425 | Adding an entry and pinning more moves the assignment to the new entry if and only if that agrees with the new selector and the old one does not. |
| Interfaces.PinningTheDifferenceMoves | src/azazel_fabric/provisioning_contracts/validation.py:386-425 | For any two entries that differ in a field the selector leaves open, adding the second and pinning its value moves the assignment to it. |
| Interfaces.AddingAndPinningCanMove | src/azazel_fabric/provisioning_contracts/validation.py:386-425 | An inventory of two entries that differ in their driver only, and the two selectors. |
| Interfaces.SelectorsOfOneInterfaceAgree | src/azazel_fabric/provisioning_contracts/validation.py:386-400 | Selectors that resolve to one interface, in any inventories, agree wherever both pin a field. |
| Interfaces.CommissionableExactlyWhen | src/azazel_fabric/provisioning_contracts/validation.py:371-383 | Some selector resolves to an entry if and only if the entry has a composite identity and no other entry carries all of it. |
| Interfaces.ShadowedEntryHasNoSelector | src/azazel_fabric/provisioning_contracts/models.py:185-190 | An inventory with distinct composite keys in which one entry has no selector at all. |
| Interfaces.FullyIdentifiedIsCommissionable | src/azazel_fabric/provisioning_contracts/models.py:185-190 | With distinct keys, an entry that carries every composite field resolves by its own selector. |
| Refs.ParseIsExact | src/azazel_fabric/effect_contracts/refs.py:113-131 | A text is read as a reference of a kind and body if and only if it is their spelling, the pattern allows both, and the kind is listed. |
| Refs.ReadExactlyWhen | src/azazel_fabric/effect_contracts/refs.py:113-131 | A text is a reference if and only if it is a listed kind, a colon, and one to two hundred ASCII letters, digits and eight marks. |
| Refs.MarkedBodyIsRead | src/azazel_fabric/effect_contracts/refs.py:92-98 | Any of the marks, colons among them, may stand inside a body. |
| Refs.ParseSpelled | src/azazel_fabric/effect_contracts/refs.py:116-131 | Reading a printed reference gives back its kind and body, whatever colons the body holds. |
| Refs.SpellParsed | src/azazel_fabric/effect_contracts/refs.py:116-131 | What is read as a reference prints as the text it was read from. |
| Refs.MatchIsUnique | src/azazel_fabric/effect_contracts/refs.py:92-98 | The pattern splits a text in one way only, at its first colon. |
| Refs.AcceptedIsOpaque | src/azazel_fabric/effect_contracts/refs.py:87-90 | No slash, quote, white space, line break or shell character occurs in an accepted reference. |
| Refs.SlotsAreDisjoint | src/azazel_fabric/effect_contracts/refs.py:134-166 | A value accepted in the slot of one kind is refused wherever that kind is rejected, and only there. |
| Refs.RejectIsExact | src/azazel_fabric/effect_contracts/refs.py:145-166 | A value is refused if and only if, with one trailing newline dropped, it spells a forbidden kind. |
| Refs.NewlineInvariance | src/azazel_fabric/effect_contracts/refs.py:155-160 | The answers for a value and for the value with a newline appended agree if and only if the value does not itself end in a newline after a forbidden kind. |
| Refs.TwoNewlinesHide | src/azazel_fabric/effect_contracts/refs.py:155-160 | A forbidden kind followed by two newlines is accepted, by one refused. |

## Left out

- KeyNormalization.NormalFormsSpell: ASCII keys only, and so are idempotence, the condition for splitting and the lemmas of `DirectiveKeys`; of other keys only the loops and the shape of their result are proved. The external family refuses other keys before it normalizes; the provisioning, outcome and effect families do not.
- KeySplits.SplitsExactlyWhen: letters, digits and capitals are those of ASCII, where the provisioning family goes by their Unicode classes.
- KeyNormalization.NormalFormsAreSnake: ASCII forms only; for keys of any characters `KeyNormalization.NormalizedKey` states that underscores are single and inner.
- KeyNormalization.NormalizationIsIdempotent: ASCII forms only. In Unicode the lower-case form of one letter may hold a character that is no letter, which a second pass would turn into a separator.
- AuditLog.WriteThenRead: a NaN in a payload equals itself here, as its text does, where Python's NaN does not.
- Manifest.CheckDecidesEquality: a float of the recorded text is compared as it is written, so `1.50` and `1.5` differ, where Python compares their `repr`. A manifest the tool wrote holds no floats.
- Integrity.AcceptedTwinsAgree: a declared digest that is not a text counts as the empty text; both are refused, since no other `str` begins with `sha256:`.
- ReleaseSignature.Verify: a key or signature of a wrong length that makes PyNaCl raise something other than `BadSignatureError` is one of the failures here.
- Replay.ReplayGuardIsExact: how a model coerces a mapping and fills in defaults, and the rules it checks beside the times and references, are one parameter; timestamps are read by another, because `datetime.fromisoformat` accepts more than the profile of `Timestamps.dfy`.
- Strings with lone surrogates: Python can hold them, print them and read their escapes; a Dafny character is a Unicode scalar value.
- Floats as numbers: a finite float is the text it was read from or its `repr`, so `1.0`, `1` and `true` are three different values, as in the canonical text, although Python's `==` equates them.
- Python values that are not JSON: tuples, bytes, subclasses, keys that are not strings, objects with `model_dump`.
- The interpreter's recursion limit and its limit on the digits of an integer.
- The audit log is read by the parser modelled here; the decoder behind `model_validate_json` is taken to agree with it on the lines the log writes.
- Text-file mechanics: newline translation, buffering and encoding errors; `TextFile` only holds its content.
- The literal banned-name tables of the engagement, M.I.O., provisioning and external families, beyond the eleven runtime directives and the secret words: they are parameters.
- Regular-expression screens for secrets, commands, locators and free text, and the tenant confinement check.
- Pydantic mechanics: coercion, length limits, frozen models, default filling, and the envelope serializer that drops empty fields.
- Field rules of the effect, external and provisioning models that no modelled guard leans on.
- `KnowledgeContextResponseV1` and `assert_response_correlates`: field equalities and a membership test, which would add easy members.
- The outcome walker, one more table of bounds for `Walkers.Walk`, with the key test of `OutcomeKeys.dfy` as its test on a member; its size limit on the canonical bytes.
- The effect walker `_walk_keys`: a search like `DirectiveSearch.FindBanned` over the normal forms of the keys, bounded in depth alone.
- Git, file reading and writing, argument parsing and exit codes in `tools/`: the manifest is built from a list of paths and a digest for each.
- `api`, `notify`, `paths`, `view`, `schema`, `cti_contracts` and `testing`: lookups, defaults and single checks.
