/** Audit events as JSON lines: `audit/jsonl.py` over the record of `schema/audit.py`. */
module AuditLog {
  import opened Outcomes
  import opened Json
  import opened JsonText
  import opened JsonParser
  import opened JsonRoundTrip
  import opened JsonTextFacts
  import opened JsonTorn
  import opened PyText
  import Seqs

  datatype AuditEvent = AuditEvent(
    eventId: string,
    traceId: string,
    timestamp: string,
    product: string,
    eventType: string,
    payload: Dict,
    configHash: Option<string>,
    hmac: Option<string>)

  function Optional(s: Option<string>): Json {
    match s
    case None => Null
    case Some(text) => Str(text)
  }

  /** The field names of the model, in its order. */
  const FIELDS: seq<string> :=
    ["event_id", "trace_id", "timestamp", "product", "event_type", "payload", "config_hash", "hmac"]

  function Values(e: AuditEvent): (vs: seq<Json>)
    ensures |vs| == |FIELDS|
  {
    [ Str(e.eventId), Str(e.traceId), Str(e.timestamp), Str(e.product), Str(e.eventType), Obj(e.payload),
      Optional(e.configHash), Optional(e.hmac) ]
  }

  /** `event.model_dump()`. */
  function Dump(e: AuditEvent): (ms: Dict)
    ensures |ms| == |FIELDS|
    ensures forall i :: 0 <= i < |FIELDS| ==> ms[i] == Member(FIELDS[i], Values(e)[i])
  {
    seq(|FIELDS|, i requires 0 <= i < |FIELDS| => Member(FIELDS[i], Values(e)[i]))
  }

  function AsText(v: Option<Json>): Option<string> {
    match v
    case Some(Str(s)) => Some(s)
    case _ => None
  }

  /** A `str | None` field with default None; the outer None is a validation error. */
  function AsOptionalText(v: Option<Json>): Option<Option<string>> {
    match v
    case None => Some(None)
    case Some(Null) => Some(None)
    case Some(Str(s)) => Some(Some(s))
    case _ => None
  }

  /** A dict field whose default is the empty dict. */
  function AsDict(v: Option<Json>): Option<Dict> {
    match v
    case None => Some([])
    case Some(Obj(ms)) => Some(ms)
    case _ => None
  }

  /** What a dict holds under each field name. */
  function Lookups(ms: Dict): (vs: seq<Option<Json>>)
    ensures |vs| == |FIELDS|
    ensures forall i :: 0 <= i < |FIELDS| ==> vs[i] == Get(ms, FIELDS[i])
  {
    seq(|FIELDS|, i requires 0 <= i < |FIELDS| => Get(ms, FIELDS[i]))
  }

  /** Model validation of a parsed line; unknown fields are ignored. */
  function Validate(v: Json): Option<AuditEvent> {
    if v.Obj? then FromFields(Lookups(v.members)) else None
  }

  function FromFields(vs: seq<Option<Json>>): Option<AuditEvent>
    requires |vs| == |FIELDS|
  {
    var id, trace, at := AsText(vs[0]), AsText(vs[1]), AsText(vs[2]);
    var maker, kind, body := AsText(vs[3]), AsText(vs[4]), AsDict(vs[5]);
    var config, mac := AsOptionalText(vs[6]), AsOptionalText(vs[7]);
    if id.None? || trace.None? || at.None? || maker.None? || kind.None? then None
    else if body.None? || config.None? || mac.None? then None
    else Some(AuditEvent(id.value, trace.value, at.value, maker.value, kind.value, body.value, config.value, mac.value))
  }

  /** `to_jsonl_line`. */
  function ToLine(e: AuditEvent): string {
    SortedText(Obj(Dump(e)), AUDIT_LINE)
  }

  /** `from_jsonl_line`, None where it raises. */
  function FromLine(line: string): Option<AuditEvent> {
    match Parse(line)
    case None => None
    case Some(v) => Validate(v)
  }

  /** The text `write_jsonl` appends. */
  function LogText(events: seq<AuditEvent>): string {
    if events == [] then ""
    else LogText(events[..|events| - 1]) + ToLine(events[|events| - 1]) + "\n"
  }

  /** The events of the non-blank lines, None when some line is malformed. */
  function EventsOfLines(lines: seq<string>): Option<seq<AuditEvent>> {
    if lines == [] then Some([])
    else
      match EventsOfLines(lines[..|lines| - 1])
      case None => None
      case Some(events) => AfterLine(events, lines[|lines| - 1])
  }

  /** What `read_jsonl` makes of a text. */
  function ReadLog(text: string): Option<seq<AuditEvent>> {
    EventsOfLines(SplitLines(text))
  }

  /** An open text file, positioned at its end. */
  class TextFile {
    var content: string

    constructor (text: string)
      ensures content == text
    {
      content := text;
    }

    method Write(s: string)
      modifies this
      ensures content == old(content) + s
    {
      content := content + s;
    }
  }

  datatype ReadError = MalformedLine

  /** `write_jsonl`: one line per event, and the number of events written. */
  method WriteJsonl(events: seq<AuditEvent>, fp: TextFile) returns (count: nat)
    modifies fp
    ensures fp.content == old(fp.content) + LogText(events)
    ensures count == |events|
  {
    count := 0;
    for i := 0 to |events|
      invariant count == i
      invariant fp.content == old(fp.content) + LogText(events[..i])
    {
      fp.Write(ToLine(events[i]));
      fp.Write("\n");
      count := count + 1;
      assert events[..i + 1][..i] == events[..i];
      AppendLine(old(fp.content), LogText(events[..i]), ToLine(events[i]));
    }
    assert events[..|events|] == events;
  }

  lemma AppendLine(before: string, log: string, line: string)
    ensures before + log + line + "\n" == before + (log + line + "\n")
  {
  }

  /** What a line adds to the events read before it. */
  function AfterLine(events: seq<AuditEvent>, raw: string): Option<seq<AuditEvent>> {
    var stripped := Strip(raw);
    if stripped == "" then Some(events)
    else
      match FromLine(stripped)
      case None => None
      case Some(e) => Some(events + [e])
  }

  lemma EventsOfOneMore(lines: seq<string>, raw: string)
    ensures EventsOfLines(lines + [raw]) ==
            match EventsOfLines(lines) case None => None case Some(events) => AfterLine(events, raw)
  {
    assert (lines + [raw])[..|lines|] == lines;
  }

  lemma MalformedBefore(lines: seq<string>)
    requires lines != [] && EventsOfLines(lines[..|lines| - 1]) == None
    ensures EventsOfLines(lines) == None
  {
  }

  lemma {:induction false} MalformedStays(lines: seq<string>, n: nat)
    requires n <= |lines| && EventsOfLines(lines[..n]) == None
    ensures EventsOfLines(lines) == None
    decreases |lines|
  {
    if n == |lines| {
      assert lines[..n] == lines;
    } else {
      var front := lines[..|lines| - 1];
      assert front[..n] == lines[..n];
      MalformedStays(front, n);
      MalformedBefore(lines);
    }
  }

  /** `iter_jsonl`, drained: None as soon as a line is malformed. */
  method IterJsonl(lines: seq<string>) returns (r: Option<seq<AuditEvent>>)
    ensures r == EventsOfLines(lines)
  {
    var events: seq<AuditEvent> := [];
    for i := 0 to |lines|
      invariant EventsOfLines(lines[..i]) == Some(events)
    {
      EventsOfOneMore(lines[..i], lines[i]);
      assert lines[..i + 1] == lines[..i] + [lines[i]];
      var step := ReadLine(events, lines[i]);
      if step == None {
        MalformedStays(lines, i + 1);
        return None;
      }
      events := step.value;
    }
    assert lines[..|lines|] == lines;
    r := Some(events);
  }

  /** One turn of the loop: a blank line yields nothing, a malformed one raises. */
  method ReadLine(events: seq<AuditEvent>, raw: string) returns (r: Option<seq<AuditEvent>>)
    ensures r == AfterLine(events, raw)
  {
    var stripped := Strip(raw);
    if stripped == "" {
      return Some(events);
    }
    var e := FromLine(stripped);
    if e == None {
      return None;
    }
    r := Some(events + [e.value]);
  }

  /** `read_jsonl`. */
  method ReadJsonl(fp: TextFile) returns (r: Result<seq<AuditEvent>, ReadError>)
    ensures r == match ReadLog(fp.content) case Some(events) => Ok(events) case None => Err(MalformedLine)
  {
    var events := IterJsonl(SplitLines(fp.content));
    match events {
      case Some(found) => r := Ok(found);
      case None => r := Err(MalformedLine);
    }
  }

  // ----- one line -----

  ghost predicate WellFormedEvent(e: AuditEvent) {
    WellFormedDict(e.payload)
  }

  /** The event with the keys of its payload in order: what comes back from the log. */
  function SortPayload(e: AuditEvent): AuditEvent {
    e.(payload := SortKeys(Obj(e.payload)).members)
  }

  /** Equality of events as Python compares them: payload dicts as mappings. */
  ghost predicate SameEvent(a: AuditEvent, b: AuditEvent) {
    a.(payload := []) == b.(payload := []) && Same(Obj(a.payload), Obj(b.payload))
  }

  lemma FieldsDistinct()
    ensures forall i, j :: 0 <= i < j < |FIELDS| ==> FIELDS[i] != FIELDS[j]
  {
    assert |FIELDS[0]| == 8 && |FIELDS[1]| == 8 && |FIELDS[2]| == 9 && |FIELDS[3]| == 7;
    assert |FIELDS[4]| == 10 && |FIELDS[5]| == 7 && |FIELDS[6]| == 11 && |FIELDS[7]| == 4;
    assert FIELDS[0][0] == 'e' && FIELDS[1][0] == 't';
    assert FIELDS[3][1] == 'r' && FIELDS[5][1] == 'a';
  }

  lemma DumpWellFormed(e: AuditEvent)
    requires WellFormedEvent(e)
    ensures WellFormedDict(Dump(e))
  {
    FieldsDistinct();
  }

  lemma GetSorted(ms: Dict, i: nat)
    requires UniqueKeys(ms) && i < |ms|
    ensures Get(SortKeys(Obj(ms)).members, ms[i].key) == Some(SortKeys(ms[i].val))
  {
    SortedMemberOf(ms, i);
    SortKeysSorted(ms);
    SortedIsUnique(SortKeys(Obj(ms)).members);
    GetOfMember(SortKeys(Obj(ms)).members, Member(ms[i].key, SortKeys(ms[i].val)));
  }

  lemma SortedAtom(v: Json)
    requires v.Str? || v.Null?
    ensures SortKeys(v) == v
  {
  }

  lemma ValidateValues(e: AuditEvent, vs: seq<Option<Json>>)
    requires |vs| == |FIELDS|
    requires forall i :: 0 <= i < |FIELDS| ==> vs[i] == Some(SortKeys(Values(e)[i]))
    ensures FromFields(vs) == Some(SortPayload(e))
  {
    SortedAtom(Str(e.eventId));
    SortedAtom(Str(e.traceId));
    SortedAtom(Str(e.timestamp));
    SortedAtom(Str(e.product));
    SortedAtom(Str(e.eventType));
    SortedAtom(Optional(e.configHash));
    SortedAtom(Optional(e.hmac));
    assert vs[5] == Some(SortKeys(Obj(e.payload)));
  }

  /** Validating the sorted dump of an event gives the event back. */
  lemma ValidateDump(e: AuditEvent)
    requires WellFormedEvent(e)
    ensures Validate(SortKeys(Obj(Dump(e)))) == Some(SortPayload(e))
  {
    DumpWellFormed(e);
    var ms := SortKeys(Obj(Dump(e))).members;
    forall i | 0 <= i < |FIELDS| ensures Get(ms, FIELDS[i]) == Some(SortKeys(Values(e)[i])) {
      GetSorted(Dump(e), i);
    }
    ValidateValues(e, Lookups(ms));
  }

  lemma SortPayloadSame(e: AuditEvent)
    requires WellFormedEvent(e)
    ensures SameEvent(e, SortPayload(e))
  {
    assert WellFormed(Obj(e.payload));
    SortKeysSame(Obj(e.payload));
  }

  /** The last character of a printed dict is its closing brace. */
  lemma DictTextEnds(ms: Dict)
    requires ms != []
    ensures var t := Emit(Obj(ms), AUDIT_LINE, 0, ""); t != "" && t[0] == '{' && t[|t| - 1] == '}'
  {
    MembersThen(ms, AUDIT_LINE, 1, "", "}");
    assert "" + "}" == "}";
    assert Gap(AUDIT_LINE, 0) + ("}" + "") == "}";
  }

  /** A line is printable ASCII: no line break cuts it and stripping leaves it whole. */
  lemma LineSurvivesFraming(e: AuditEvent)
    requires WellFormedEvent(e)
    ensures AllPrintableAscii(ToLine(e)) && NoLineBreak(ToLine(e))
    ensures Strip(ToLine(e)) == ToLine(e) && ToLine(e) != ""
  {
    var v := Obj(Dump(e));
    DumpWellFormed(e);
    SortKeysWellFormed(v);
    EmittedIsAscii(SortKeys(v), 0, "");
    AsciiIsOneLine(ToLine(e));
    SortedMemberOf(Dump(e), 0);
    DictTextEnds(SortKeys(v).members);
    StripClean(ToLine(e));
  }

  lemma LineRoundTrip(e: AuditEvent)
    requires WellFormedEvent(e)
    ensures FromLine(ToLine(e)) == Some(SortPayload(e))
  {
    DumpWellFormed(e);
    ParsePrinted(Obj(Dump(e)), AUDIT_LINE);
    ValidateDump(e);
  }

  // ----- the whole log -----

  function SortPayloads(events: seq<AuditEvent>): (r: seq<AuditEvent>)
    ensures |r| == |events|
    ensures forall i :: 0 <= i < |events| ==> r[i] == SortPayload(events[i])
  {
    seq(|events|, i requires 0 <= i < |events| => SortPayload(events[i]))
  }

  lemma SortPayloadsSnoc(events: seq<AuditEvent>)
    requires events != []
    ensures SortPayloads(events) ==
            SortPayloads(events[..|events| - 1]) + [SortPayload(events[|events| - 1])]
  {
  }

  /** A log and the events read after it; a malformed log stays malformed. */
  function Extended(log: Option<seq<AuditEvent>>, later: seq<AuditEvent>): Option<seq<AuditEvent>> {
    match log
    case Some(earlier) => Some(earlier + later)
    case None => None
  }

  /** A log and what the line after it gives. */
  function WithLine(log: Option<seq<AuditEvent>>, first: Option<AuditEvent>): Option<seq<AuditEvent>> {
    match first
    case Some(e) => Extended(log, [e])
    case None => None
  }

  lemma ExtendedTwice(log: Option<seq<AuditEvent>>, a: seq<AuditEvent>, b: seq<AuditEvent>)
    ensures Extended(Extended(log, a), b) == Extended(log, a + b)
  {
    if log.Some? {
      Seqs.ConcatAssociative(log.value, a, b);
    }
  }

  /** A line put at the end of whole lines is read last. */
  lemma OneMoreLine(before: string, line: string)
    requires AtBoundary(before, line) && NoLineBreak(line) && Strip(line) != ""
    ensures ReadLog(before + line + "\n") == WithLine(ReadLog(before), FromLine(Strip(line)))
  {
    FirstLine(line, "\n", "");
    assert "\n" + "" == "\n";
    Seqs.ConcatAssociative(before, line, "\n");
    assert (line + "\n")[0] == line[0];
    SplitAtBoundary(before, line + "\n");
    var lines := SplitLines(before) + [line];
    assert SplitLines(before + line + "\n") == lines;
    assert lines[..|lines| - 1] == SplitLines(before);
  }

  lemma OneMoreEvent(before: string, e: AuditEvent)
    requires AtBoundary(before, "") && WellFormedEvent(e)
    ensures ReadLog(before + ToLine(e) + "\n") == Extended(ReadLog(before), [SortPayload(e)])
  {
    LineSurvivesFraming(e);
    LineRoundTrip(e);
    assert IsPrintableAscii(ToLine(e)[0]);
    OneMoreLine(before, ToLine(e));
  }

  lemma LogEndsInLineFeed(text: string, events: seq<AuditEvent>)
    requires AtBoundary(text, "")
    ensures AtBoundary(text + LogText(events), "")
  {
    if events == [] {
      assert text + "" == text;
    }
  }

  /** Lines appended to a log that ends in a line break are read after what was there, and nothing else changes. */
  lemma {:induction false} AppendThenRead(text: string, events: seq<AuditEvent>)
    requires AtBoundary(text, "")
    requires forall i :: 0 <= i < |events| ==> WellFormedEvent(events[i])
    ensures ReadLog(text + LogText(events)) == Extended(ReadLog(text), SortPayloads(events))
    decreases |events|
  {
    if events == [] {
      assert text + "" == text;
      if ReadLog(text).Some? {
        assert ReadLog(text).value + [] == ReadLog(text).value;
      }
    } else {
      var shorter, e := events[..|events| - 1], events[|events| - 1];
      var before := text + LogText(shorter);
      AppendThenRead(text, shorter);
      LogEndsInLineFeed(text, shorter);
      OneMoreEvent(before, e);
      AppendLine(text, LogText(shorter), ToLine(e));
      SortPayloadsSnoc(events);
      ExtendedTwice(ReadLog(text), SortPayloads(shorter), [SortPayload(e)]);
    }
  }

  // ----- a torn last line -----

  lemma LogTextSnoc(events: seq<AuditEvent>, e: AuditEvent)
    ensures LogText(events + [e]) == LogText(events) + (ToLine(e) + "\n")
  {
    assert (events + [e])[..|events|] == events;
    Seqs.ConcatAssociative(LogText(events), ToLine(e), "\n");
  }

  lemma LogTextOne(e: AuditEvent)
    ensures LogText([e]) == ToLine(e) + "\n"
  {
    LogTextSnoc([], e);
    assert [] + [e] == [e];
    assert "" + (ToLine(e) + "\n") == ToLine(e) + "\n";
  }

  lemma {:induction false} LogTextCons(e: AuditEvent, others: seq<AuditEvent>)
    ensures LogText([e] + others) == LogText([e]) + LogText(others)
  {
    if others == [] {
      assert [e] + others == [e];
      assert LogText([e]) + "" == LogText([e]);
    } else {
      var front, last := others[..|others| - 1], others[|others| - 1];
      assert others == front + [last] && [e] + others == [e] + front + [last];
      LogTextCons(e, front);
      LogTextSnoc([e] + front, last);
      LogTextSnoc(front, last);
      Seqs.ConcatAssociative(LogText([e]), LogText(front), ToLine(last) + "\n");
    }
  }

  lemma {:induction false} StripKeepsEnd(s: string)
    requires s != "" && !IsSpace(s[|s| - 1])
    ensures Strip(s) != ""
  {
    if IsSpace(s[0]) {
      StripKeepsEnd(s[1..]);
    }
  }

  lemma LineInBraces(e: AuditEvent)
    requires WellFormedEvent(e)
    ensures var t := ToLine(e); t != "" && t[0] == '{' && t[|t| - 1] == '}'
  {
    SortedMemberOf(Dump(e), 0);
    DictTextEnds(SortKeys(Obj(Dump(e))).members);
  }

  /** A line that completes a torn one is read with it, as one line. */
  lemma TornLine(whole: string, torn: string, e: AuditEvent)
    requires NoLineBreak(torn) && AtBoundary(whole, torn) && WellFormedEvent(e)
    ensures ReadLog(whole + torn + ToLine(e) + "\n") ==
            WithLine(ReadLog(whole), FromLine(Strip(torn + ToLine(e))))
  {
    var line := torn + ToLine(e);
    LineSurvivesFraming(e);
    LineInBraces(e);
    assert line[|line| - 1] == '}';
    StripKeepsEnd(line);
    assert line[0] == if torn == "" then ToLine(e)[0] else torn[0];
    OneMoreLine(whole, line);
    Seqs.ConcatAssociative(whole, torn, ToLine(e));
  }

  /** Appending a log is appending its first line and then the others. */
  lemma FirstLineThenOthers(text: string, events: seq<AuditEvent>)
    requires events != []
    ensures text + LogText(events) == text + ToLine(events[0]) + "\n" + LogText(events[1..])
  {
    var line, log := ToLine(events[0]), LogText(events[1..]);
    assert events == [events[0]] + events[1..];
    LogTextCons(events[0], events[1..]);
    LogTextOne(events[0]);
    Seqs.ConcatAssociative(text, line, "\n");
    Seqs.ConcatAssociative(text, line + "\n", log);
  }

  lemma EndedByLineFeed(t: string)
    ensures AtBoundary(t + "\n", "")
  {
    assert (t + "\n")[|t|] == '\n';
  }

  lemma FieldsBeginWithLetters(i: nat)
    requires i < |FIELDS|
    ensures FIELDS[i] != "" && 'a' <= FIELDS[i][0] <= 'z'
  {
  }

  /** A record line opens with a brace, a quote and a letter, and is the whole text of an object. */
  lemma LineIsObjectText(e: AuditEvent)
    requires WellFormedEvent(e)
    ensures IsObjectText(ToLine(e))
  {
    var v := Obj(Dump(e));
    DumpWellFormed(e);
    SortKeysWellFormed(v);
    SortedMemberOf(Dump(e), 0);
    ParseEmitted(SortKeys(v), AUDIT_LINE, 0, "");
    var ms := SortKeys(v).members;
    assert ms[0] in ms;
    var i := SortedMemberFrom(Dump(e), ms[0]);
    FieldsBeginWithLetters(i);
    DictTextOpens(ms);
  }

  /** The first three characters of a printed dict whose first key begins with a letter. */
  lemma DictTextOpens(ms: Dict)
    requires ms != [] && ms[0].key != "" && 'a' <= ms[0].key[0] <= 'z'
    ensures var t := Emit(Obj(ms), AUDIT_LINE, 0, ""); |t| >= 3 && t[0] == '{' && t[1] == '"' && t[2] == ms[0].key[0]
  {
    var after := Colon(AUDIT_LINE) + Emit(ms[0].val, AUDIT_LINE, 1, AfterMember(ms, AUDIT_LINE, 1, "" + ("}" + "")));
    KeyOpens(ms[0].key, after);
    assert Emit(Obj(ms), AUDIT_LINE, 0, "") == "{" + ("" + EmitMembers(ms, AUDIT_LINE, 1, "" + ("}" + "")));
  }

  lemma KeyOpens(key: string, rest: string)
    requires key != "" && 'a' <= key[0] <= 'z'
    ensures var t := EmitString(key, true, rest); |t| >= 2 && t[0] == '"' && t[1] == key[0]
  {
    assert Escape(key[0], true) == [key[0]];
  }

  // ----- what stands before the record on its line -----

  lemma {:induction false} LStripBefore(torn: string, l: string)
    requires l != "" && !IsSpace(l[0])
    ensures LStrip(torn + l) == LStrip(torn) + l
  {
    if torn == "" {
      assert torn + l == l;
    } else if IsSpace(torn[0]) {
      LStripBefore(torn[1..], l);
      assert (torn + l)[1..] == torn[1..] + l;
    }
  }

  lemma {:induction false} RStripToNothing(s: string)
    ensures RStrip(s) == "" ==> forall i :: 0 <= i < |s| ==> IsSpace(s[i])
  {
    if s != "" && IsSpace(s[|s| - 1]) {
      RStripToNothing(s[..|s| - 1]);
    }
  }

  lemma {:induction false} LStripOpens(s: string)
    ensures LStrip(s) != "" ==> !IsSpace(LStrip(s)[0])
  {
    if s != "" && IsSpace(s[0]) {
      LStripOpens(s[1..]);
    }
  }

  /** The joined line, stripped, is the record behind what is left of the torn line. */
  lemma StripBefore(torn: string, l: string)
    requires l != "" && !IsSpace(l[0]) && !IsSpace(l[|l| - 1])
    ensures Strip(torn + l) == LStrip(torn) + l
    ensures Strip(torn) == "" <==> LStrip(torn) == ""
    ensures LStrip(torn) != "" ==> !IsSpace(LStrip(torn)[0])
  {
    LStripBefore(torn, l);
    LStripOpens(torn);
    RStripToNothing(LStrip(torn));
    var joined := LStrip(torn) + l;
    assert joined[|joined| - 1] == l[|l| - 1];
  }

  lemma ObjectBehindText(left: string, l: string)
    requires left != "" && !IsSpace(left[0]) && IsObjectText(l)
    ensures Parse(left + l) == None
  {
    assert (left + l)[|left|..] == l;
    assert (left + l)[0] == left[0];
    assert |left + l| != |l|;
    ObjectAtTheEnd(left + l, l);
  }

  /** A record behind anything but white space is no record. */
  lemma RecordBehindTornLine(torn: string, e: AuditEvent)
    requires WellFormedEvent(e)
    ensures FromLine(Strip(torn + ToLine(e))) == if Strip(torn) == "" then Some(SortPayload(e)) else None
  {
    var l, left := ToLine(e), LStrip(torn);
    LineInBraces(e);
    StripBefore(torn, l);
    if left == "" {
      assert left + l == l;
      LineRoundTrip(e);
    } else {
      LineIsObjectText(e);
      ObjectBehindText(left, l);
    }
  }

  lemma AppendBehindTornLine(whole: string, torn: string, events: seq<AuditEvent>)
    requires NoLineBreak(torn) && AtBoundary(whole, torn)
    requires events != [] && forall i :: 0 <= i < |events| ==> WellFormedEvent(events[i])
    ensures ReadLog(whole + torn + LogText(events)) ==
            Extended(WithLine(ReadLog(whole), FromLine(Strip(torn + ToLine(events[0])))), SortPayloads(events[1..]))
  {
    var first := WithLine(ReadLog(whole), FromLine(Strip(torn + ToLine(events[0]))));
    TornLine(whole, torn, events[0]);
    ReadOthers(whole + torn, events, first);
  }

  lemma ReadOthers(text: string, events: seq<AuditEvent>, first: Option<seq<AuditEvent>>)
    requires events != [] && forall i :: 0 <= i < |events| ==> WellFormedEvent(events[i])
    requires ReadLog(text + ToLine(events[0]) + "\n") == first
    ensures ReadLog(text + LogText(events)) == Extended(first, SortPayloads(events[1..]))
  {
    FirstLineThenOthers(text, events);
    OthersFollow(text + ToLine(events[0]), events);
  }

  lemma OthersFollow(first: string, events: seq<AuditEvent>)
    requires events != [] && forall i :: 0 <= i < |events| ==> WellFormedEvent(events[i])
    ensures ReadLog(first + "\n" + LogText(events[1..])) ==
            Extended(ReadLog(first + "\n"), SortPayloads(events[1..]))
  {
    EndedByLineFeed(first);
    AppendThenRead(first + "\n", events[1..]);
  }

  /**
   Appending events to any text at all: with nothing but white space on an unterminated last line the events
   are read after what stands before it; with anything else there, the log cannot be read any more.
   */
  lemma AppendAfterTornLine(whole: string, torn: string, events: seq<AuditEvent>)
    requires NoLineBreak(torn) && AtBoundary(whole, torn)
    requires events != [] && forall i :: 0 <= i < |events| ==> WellFormedEvent(events[i])
    ensures ReadLog(whole + torn + LogText(events)) ==
            if Strip(torn) == "" then Extended(ReadLog(whole), SortPayloads(events)) else None
    ensures ReadLog(whole + torn + LogText(events)).Some? <==> ReadLog(whole).Some? && Strip(torn) == ""
  {
    AppendBehindTornLine(whole, torn, events);
    RecordBehindTornLine(torn, events[0]);
    FirstThenOthers(ReadLog(whole), events);
  }

  lemma FirstThenOthers(log: Option<seq<AuditEvent>>, events: seq<AuditEvent>)
    requires events != []
    ensures Extended(WithLine(log, Some(SortPayload(events[0]))), SortPayloads(events[1..])) ==
            Extended(log, SortPayloads(events))
    ensures Extended(WithLine(log, None), SortPayloads(events[1..])) == None
    ensures Extended(log, SortPayloads(events)).Some? <==> log.Some?
  {
    ExtendedTwice(log, [SortPayload(events[0])], SortPayloads(events[1..]));
    assert SortPayloads(events) == [SortPayload(events[0])] + SortPayloads(events[1..]);
  }

  /** Two records on one line are no record. */
  lemma TwoRecordsOnOneLine(a: AuditEvent, b: AuditEvent)
    requires WellFormedEvent(a) && WellFormedEvent(b)
    ensures FromLine(ToLine(a) + ToLine(b)) == None
  {
    LineSurvivesFraming(a);
    JoinedLine(a, b);
    RecordBehindTornLine(ToLine(a), b);
  }

  /** A log whose last record lost its line feed cannot be read any more after the next append. */
  lemma LostLineFeedLosesTheLog(whole: string, last: AuditEvent, events: seq<AuditEvent>)
    requires AtBoundary(whole, "") && WellFormedEvent(last)
    requires events != [] && forall i :: 0 <= i < |events| ==> WellFormedEvent(events[i])
    ensures ReadLog(whole + ToLine(last) + LogText(events)) == None
  {
    LineSurvivesFraming(last);
    LineInBraces(last);
    AppendAfterTornLine(whole, ToLine(last), events);
  }

  lemma JoinedLine(a: AuditEvent, b: AuditEvent)
    requires WellFormedEvent(a) && WellFormedEvent(b)
    ensures Strip(ToLine(a) + ToLine(b)) == ToLine(a) + ToLine(b)
  {
    var line := ToLine(a) + ToLine(b);
    LineInBraces(a);
    LineInBraces(b);
    assert line[0] == '{' && line[|line| - 1] == '}';
    StripClean(line);
  }

  /** Writing any events and reading the text back gives the same events. */
  lemma WriteThenRead(events: seq<AuditEvent>)
    requires forall i :: 0 <= i < |events| ==> WellFormedEvent(events[i])
    ensures ReadLog(LogText(events)).Some?
    ensures var r := ReadLog(LogText(events)).value;
            |r| == |events| && forall i :: 0 <= i < |events| ==> SameEvent(events[i], r[i])
  {
    AppendThenRead("", events);
    assert "" + LogText(events) == LogText(events);
    assert ReadLog("") == Some([]);
    assert [] + SortPayloads(events) == SortPayloads(events);
    forall i | 0 <= i < |events| ensures SameEvent(events[i], SortPayloads(events)[i]) {
      SortPayloadSame(events[i]);
    }
  }
}
