/** The lines of a signature file, spelled out from the raw text. */
module SignatureLines {
  import opened Outcomes
  import opened PyText
  import opened ReleaseSignature
  import opened StringOrder
  import Seqs
  import Utf8

  lemma FindFirst(a: string, c: char, b: string)
    requires c !in a
    ensures Find(a + ([c] + b), c) == |a|
  {
    var s := a + ([c] + b);
    assert s[|a|] == c;
    assert forall k :: 0 <= k < |a| ==> s[k] == a[k];
  }

  /** After its leading white space a line has nothing left, or begins a comment. */
  ghost predicate IsSkippable(raw: string) {
    exists w, text :: AllSpace(w) && raw == w + text && (text == "" || text[0] == '#')
  }

  lemma SkippedIsSkippable(raw: string)
    requires ReadLine(raw) == Skipped
    ensures IsSkippable(raw)
  {
    var w, v := StripParts(raw);
    if Strip(raw) == "" {
      assert raw == raw + "";
    } else {
      assert (Strip(raw) + v)[0] == Strip(raw)[0];
    }
  }

  lemma SkippableIsSkipped(raw: string, w: string, text: string)
    requires AllSpace(w) && raw == w + text && (text == "" || text[0] == '#')
    ensures ReadLine(raw) == Skipped
  {
    if text == "" {
      var u, v := StripParts(w);
      assert raw == w;
    } else {
      assert text == ['#'] + text[1..];
      StripOutside(w, '#', text[1..]);
      assert w == w + "";
      LStripSpaces(w, "");
    }
  }

  /** A line is passed over exactly when it is blank or a comment. */
  lemma SkippedExactlyWhen(raw: string)
    ensures ReadLine(raw) == Skipped <==> IsSkippable(raw)
  {
    if ReadLine(raw) == Skipped {
      SkippedIsSkippable(raw);
    }
    if IsSkippable(raw) {
      var w, text :| AllSpace(w) && raw == w + text && (text == "" || text[0] == '#');
      SkippableIsSkipped(raw, w, text);
    }
  }

  lemma BlankStrips(s: string)
    ensures Strip(s) == "" <==> AllSpace(s)
  {
    var w, v := StripParts(s);
  }

  lemma SplitAtColon(raw: string, left: string, right: string)
    requires Strip(raw) == left + (":" + right) && ':' !in left && ReadLine(raw) != Skipped
    ensures ReadLine(raw) ==
            if Strip(left) == "" || Strip(right) == "" then Malformed else Signature(Entry(Strip(left), Strip(right)))
  {
    var line := Strip(raw);
    FindFirst(left, ':', right);
    assert line[..|left|] == left && line[|left| + 1..] == right;
  }

  /** A line with a colon is read around its first one: key id before it, signature after it, each stripped. */
  lemma LineWithColon(a: string, b: string)
    requires ':' !in a && !IsSkippable(a + (":" + b))
    ensures ReadLine(a + (":" + b)) ==
            if AllSpace(a) || AllSpace(b) then Malformed else Signature(Entry(Strip(a), Strip(b)))
  {
    var raw := a + (":" + b);
    SkippedExactlyWhen(raw);
    StripOutside(a, ':', b);
    var w := LStripParts(a);
    SplitAtColon(raw, LStrip(a), RStrip(b));
    StripAfterLStrip(a);
    StripAfterRStrip(b);
    BlankStrips(a);
    BlankStrips(b);
  }

  lemma LineWithoutColon(raw: string)
    requires ':' !in raw && !IsSkippable(raw)
    ensures ReadLine(raw) == Malformed
  {
    SkippedExactlyWhen(raw);
    var w, v := StripParts(raw);
    assert ':' !in Strip(raw);
  }

  /** What a key id must be to stand before the colon of a line. */
  predicate IsKeyId(id: string) {
    id != "" && NothingToStrip(id) && ':' !in id && id[0] != '#'
  }

  predicate IsSignatureText(hex: string) {
    hex != "" && NothingToStrip(hex)
  }

  lemma FirstStays(raw: string, w: string, t: string, u: string, text: string)
    requires raw == w + t && raw == u + text && AllSpace(w) && AllSpace(u) && t != "" && !IsSpace(t[0])
    ensures text != "" && (text[0] == t[0] || IsSpace(text[0]))
  {
    assert forall i :: 0 <= i < |u| ==> raw[i] == u[i];
    assert forall i :: 0 <= i < |w| ==> raw[i] == w[i];
    assert raw[|w|] == t[0];
    assert |u| <= |w|;
    assert text[0] == raw[|u|];
  }

  lemma NotSkippable(w: string, id: string, more: string)
    requires AllSpace(w) && IsKeyId(id)
    ensures !IsSkippable(w + (id + more))
  {
    var raw := w + (id + more);
    assert (id + more)[0] == id[0];
    forall u, text | AllSpace(u) && raw == u + text ensures text != "" && text[0] != '#' {
      FirstStays(raw, w, id + more, u, text);
    }
  }

  /** `id : signature`, with white space anywhere around the two. */
  lemma EntryLine(w0: string, id: string, w1: string, w2: string, hex: string, w3: string)
    requires IsKeyId(id) && IsSignatureText(hex)
    requires AllSpace(w0) && AllSpace(w1) && AllSpace(w2) && AllSpace(w3)
    ensures ReadLine(w0 + id + w1 + ":" + w2 + hex + w3) == Signature(Entry(id, hex))
  {
    var a, b := w0 + (id + w1), w2 + (hex + w3);
    assert w0 + id + w1 + ":" + w2 + hex + w3 == a + (":" + b);
    assert a + (":" + b) == w0 + (id + (w1 + (":" + b)));
    NotSkippable(w0, id, w1 + (":" + b));
    LineWithColon(a, b);
    StripAround(w0, id, w1);
    StripAround(w2, hex, w3);
    assert a[|w0|] == id[0] && b[|w2|] == hex[0];
  }

  // ----- a file of one line -----

  lemma OneEntry(lines: seq<string>, e: Entry)
    requires |lines| == 1 && ReadLine(lines[0]) == Signature(e)
    ensures ParsedEntries(lines) == Ok([e])
  {
    assert lines[..0] == [];
    assert EntriesOf([]) == Ok([]);
    assert [] + [e] == [e];
  }

  lemma OneSigner(e: Entry, trusted: TrustedKeys, payload: Utf8.Bytes, check: Verifier)
    ensures Signers([e], trusted, payload, check) ==
            if e.keyId !in trusted then Ok([])
            else if FromHex(e.hexSignature) == None then Err(NotHex(e.keyId))
            else if Genuine(e, trusted, payload, check) then Ok([e.keyId])
            else Err(DoesNotVerify(e.keyId))
  {
    assert [e][..0] == [];
    assert Signers([], trusted, payload, check) == Ok([]);
    assert [] + [e.keyId] == [e.keyId];
  }

  lemma BareEntryLine(id: string, hex: string)
    requires IsKeyId(id) && IsSignatureText(hex)
    ensures ReadLine(id + ":" + hex) == Signature(Entry(id, hex))
  {
    NotSkippable("", id, ":" + hex);
    assert "" + (id + (":" + hex)) == id + (":" + hex) == id + ":" + hex;
    LineWithColon(id, hex);
    StripClean(id);
    StripClean(hex);
  }

  lemma OneLineText(line: string)
    requires NoLineBreak(line)
    ensures SplitLines(line + "\n") == [line]
  {
    var end := "\n";
    FirstLine(line, end, "");
    assert end + "" == end;
  }

  lemma SortOne(id: string)
    ensures SortStrings([id]) == [id]
  {
    assert SortStrings([]) == [];
  }

  /** The verdict on a file of one line `id:signature`, all of it. */
  lemma OneLineFile(id: string, hex: string, trusted: TrustedKeys, payload: Utf8.Bytes, check: Verifier)
    requires IsKeyId(id) && IsSignatureText(hex) && NoLineBreak(id) && NoLineBreak(hex)
    ensures VerifyLines(SplitLines(id + ":" + hex + "\n"), trusted, payload, check) ==
            if trusted == map[] then Err(NoTrustedKey)
            else if id !in trusted then Err(NoTrustedSignature)
            else
              match (FromHex(trusted[id]), FromHex(hex))
              case (Some(key), Some(signature)) =>
                if check(key, payload, signature) then Ok([id]) else Err(DoesNotVerify(id))
              case (None, Some(_)) => Err(DoesNotVerify(id))
              case (_, None) => Err(NotHex(id))
  {
    var line := id + ":" + hex;
    OneLineText(line);
    BareEntryLine(id, hex);
    OneEntry([line], Entry(id, hex));
    OneSigner(Entry(id, hex), trusted, payload, check);
    SortOne(id);
  }

  /** It is accepted exactly when the id is trusted and the check accepts the two decoded texts. */
  lemma OneLineFileIsAccepted(id: string, hex: string, trusted: TrustedKeys, payload: Utf8.Bytes, check: Verifier)
    requires IsKeyId(id) && IsSignatureText(hex) && NoLineBreak(id) && NoLineBreak(hex)
    ensures VerifyLines(SplitLines(id + ":" + hex + "\n"), trusted, payload, check) == Ok([id]) <==>
            && id in trusted && FromHex(trusted[id]).Some? && FromHex(hex).Some?
            && check(FromHex(trusted[id]).value, payload, FromHex(hex).value)
  {
    OneLineFile(id, hex, trusted, payload, check);
  }

  // ----- which line is reported -----

  /** The line number in the error is that of the first malformed line, counted from one. */
  lemma {:induction false} FirstMalformedIsReported(lines: seq<string>, n: nat)
    requires n < |lines| && ReadLine(lines[n]) == Malformed
    requires forall i :: 0 <= i < n ==> ReadLine(lines[i]) != Malformed
    ensures EntriesOf(lines) == Err(BadLine(n + 1))
  {
    NoneMalformed(lines[..n]);
    assert lines[..n + 1][..n] == lines[..n];
    FirstErrorStays(lines, n + 1);
  }

  lemma {:induction false} NoneMalformed(lines: seq<string>)
    requires forall i :: 0 <= i < |lines| ==> ReadLine(lines[i]) != Malformed
    ensures EntriesOf(lines).Ok?
  {
    if lines != [] {
      NoneMalformed(lines[..|lines| - 1]);
    }
  }
}
