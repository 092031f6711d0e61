/** The lines of an audit log, spelled out: how one is written, what it must hold, and which are passed over. */
module AuditLines {
  import opened Outcomes
  import opened Json
  import opened JsonParser
  import opened JsonShape
  import opened AuditLog
  import opened PyText
  import Seqs

  // ----- the text of a line -----

  /** The field names in the order they are printed. */
  const PRINTED_FIELDS: seq<string> :=
    ["config_hash", "event_id", "event_type", "hmac", "payload", "product", "timestamp", "trace_id"]

  function OptionalText(s: Option<string>): string {
    match s
    case None => "null"
    case Some(text) => Quoted(text, true)
  }

  /** What is printed for each field, in that order. */
  function PrintedValues(e: AuditEvent): (r: seq<string>)
    ensures |r| == |PRINTED_FIELDS|
  {
    [ OptionalText(e.configHash), Quoted(e.eventId, true), Quoted(e.eventType, true), OptionalText(e.hmac),
      Compact(SortKeys(Obj(e.payload)), true), Quoted(e.product, true), Quoted(e.timestamp, true),
      Quoted(e.traceId, true) ]
  }

  lemma PrintedInOrder(i: nat)
    requires i + 1 < |PRINTED_FIELDS|
    ensures Less(PRINTED_FIELDS[i], PRINTED_FIELDS[i + 1])
  {
    FirstLess("event_id", "event_type", 6);
    FirstLess("payload", "product", 1);
    FirstLess("timestamp", "trace_id", 1);
  }

  /** Where each field of the model is printed. */
  const PLACES: seq<nat> := [1, 7, 6, 5, 2, 4, 0, 3]

  function PrintedMembers(e: AuditEvent): (ms: Dict)
    ensures |ms| == |PRINTED_FIELDS|
    ensures forall i :: 0 <= i < |PRINTED_FIELDS| ==> ms[i].key == PRINTED_FIELDS[i]
    ensures forall i :: 0 <= i < |FIELDS| ==> ms[PLACES[i]] == Member(FIELDS[i], SortKeys(Values(e)[i]))
  {
    [ Member("config_hash", Optional(e.configHash)), Member("event_id", Str(e.eventId)),
      Member("event_type", Str(e.eventType)), Member("hmac", Optional(e.hmac)),
      Member("payload", SortKeys(Obj(e.payload))), Member("product", Str(e.product)),
      Member("timestamp", Str(e.timestamp)), Member("trace_id", Str(e.traceId)) ]
  }

  lemma PrintedFromModel(e: AuditEvent, j: nat) returns (i: nat)
    requires j < |PRINTED_FIELDS|
    ensures i < |FIELDS| && PLACES[i] == j
  {
    i := if j == 0 then 6 else if j == 1 then 0 else if j == 2 then 4 else if j == 3 then 7
         else if j == 4 then 5 else if j == 5 then 3 else if j == 6 then 2 else 1;
  }

  lemma PrintedHoldsEach(e: AuditEvent, i: nat)
    requires i < |FIELDS|
    ensures Member(FIELDS[i], SortKeys(Values(e)[i])) in PrintedMembers(e)
  {
    assert PrintedMembers(e)[PLACES[i]] == Member(FIELDS[i], SortKeys(Values(e)[i]));
  }

  lemma PrintedIsSortedDump(e: AuditEvent)
    requires WellFormedEvent(e)
    ensures SortKeys(Obj(Dump(e))) == Obj(PrintedMembers(e))
  {
    var ms, ns := SortKeys(Obj(Dump(e))).members, PrintedMembers(e);
    forall i | 0 <= i && i + 1 < |ns| ensures Less(ns[i].key, ns[i + 1].key) {
      PrintedInOrder(i);
    }
    ChainSorted(ns);
    DumpWellFormed(e);
    SortKeysSorted(Dump(e));
    forall x | x in ms ensures x in ns {
      var i := SortedMemberFrom(Dump(e), x);
      PrintedHoldsEach(e, i);
    }
    forall x | x in ns ensures x in ms {
      var j :| 0 <= j < |ns| && ns[j] == x;
      var i := PrintedFromModel(e, j);
      SortedMemberOf(Dump(e), i);
    }
    SortedUnique(ms, ns);
  }

  lemma PrintedNamesArePlain(i: nat)
    requires i < |PRINTED_FIELDS|
    ensures AllPrintableAscii(PRINTED_FIELDS[i]) && NothingToEscape(PRINTED_FIELDS[i])
  {
  }

  lemma PrintedValuesAre(e: AuditEvent, i: nat)
    requires i < |PRINTED_FIELDS|
    ensures Compact(PrintedMembers(e)[i].val, true) == PrintedValues(e)[i]
  {
  }

  lemma FieldsOfLine(e: AuditEvent, ms: Dict, names: seq<string>, texts: seq<string>)
    requires ms == PrintedMembers(e) && names == PRINTED_FIELDS && texts == PrintedValues(e)
    ensures CompactMembers(ms, true) == FieldTexts(names, texts)
  {
    forall i | 0 <= i < |names| ensures AllPrintableAscii(names[i]) && NothingToEscape(names[i]) {
      PrintedNamesArePlain(i);
    }
    forall i | 0 <= i < |ms| ensures Compact(ms[i].val, true) == texts[i] {
      PrintedValuesAre(e, i);
    }
    MembersAreFields(ms, names, texts, true);
  }

  /** A line of the log, written out: the eight fields in order, nothing between the tokens. */
  lemma LineText(e: AuditEvent)
    requires WellFormedEvent(e)
    ensures ToLine(e) == "{" + FieldTexts(PRINTED_FIELDS, PrintedValues(e)) + "}"
    ensures NoBlankOutside(ToLine(e), false)
  {
    var ms := PrintedMembers(e);
    PrintedIsSortedDump(e);
    SortedTextIsCompact(Obj(Dump(e)), true);
    ObjectText(ms, true);
    FieldsOfLine(e, ms, PRINTED_FIELDS, PrintedValues(e));
    LineIsTight(e);
  }

  lemma LineIsTight(e: AuditEvent)
    requires WellFormedEvent(e)
    ensures NoBlankOutside(ToLine(e), false)
  {
    DumpWellFormed(e);
    SortKeysWellFormed(Obj(Dump(e)));
    SortedTextIsCompact(Obj(Dump(e)), true);
    CompactIsTight(SortKeys(Obj(Dump(e))), true, "");
    assert Compact(SortKeys(Obj(Dump(e))), true) + "" == Compact(SortKeys(Obj(Dump(e))), true);
  }

  // ----- what a line must hold -----

  predicate IsText(v: Option<Json>) {
    v.Some? && v.value.Str?
  }

  /** An optional text is missing, null or a text. */
  predicate IsOptionalText(v: Option<Json>) {
    v.None? || v.value.Null? || v.value.Str?
  }

  predicate IsOptionalDict(v: Option<Json>) {
    v.None? || v.value.Obj?
  }

  /** The five required texts, a payload that is a dict if it is there at all, two optional texts. */
  predicate IsRecord(ms: Dict) {
    && IsText(Get(ms, "event_id")) && IsText(Get(ms, "trace_id")) && IsText(Get(ms, "timestamp"))
    && IsText(Get(ms, "product")) && IsText(Get(ms, "event_type")) && IsOptionalDict(Get(ms, "payload"))
    && IsOptionalText(Get(ms, "config_hash")) && IsOptionalText(Get(ms, "hmac"))
  }

  predicate OptionalIs(v: Option<Json>, s: Option<string>) {
    if s.Some? then v == Some(Str(s.value)) else v == None || v == Some(Null)
  }

  predicate DictIs(v: Option<Json>, body: Dict) {
    v == Some(Obj(body)) || (v == None && body == [])
  }

  /** Each field of the event is what the dict holds under its name, or the default. */
  predicate Reads(ms: Dict, e: AuditEvent) {
    && Get(ms, "event_id") == Some(Str(e.eventId)) && Get(ms, "trace_id") == Some(Str(e.traceId))
    && Get(ms, "timestamp") == Some(Str(e.timestamp)) && Get(ms, "product") == Some(Str(e.product))
    && Get(ms, "event_type") == Some(Str(e.eventType)) && DictIs(Get(ms, "payload"), e.payload)
    && OptionalIs(Get(ms, "config_hash"), e.configHash) && OptionalIs(Get(ms, "hmac"), e.hmac)
  }

  lemma FieldsAccepted(vs: seq<Option<Json>>)
    requires |vs| == |FIELDS|
    ensures FromFields(vs).Some? <==>
            && IsText(vs[0]) && IsText(vs[1]) && IsText(vs[2]) && IsText(vs[3]) && IsText(vs[4])
            && IsOptionalDict(vs[5]) && IsOptionalText(vs[6]) && IsOptionalText(vs[7])
  {
  }

  lemma FieldsRead(vs: seq<Option<Json>>)
    requires |vs| == |FIELDS| && FromFields(vs).Some?
    ensures var e := FromFields(vs).value;
            && vs[0] == Some(Str(e.eventId)) && vs[1] == Some(Str(e.traceId)) && vs[2] == Some(Str(e.timestamp))
            && vs[3] == Some(Str(e.product)) && vs[4] == Some(Str(e.eventType)) && DictIs(vs[5], e.payload)
            && OptionalIs(vs[6], e.configHash) && OptionalIs(vs[7], e.hmac)
  {
  }

  lemma LookupsByName(ms: Dict)
    ensures Lookups(ms) ==
            [ Get(ms, "event_id"), Get(ms, "trace_id"), Get(ms, "timestamp"), Get(ms, "product"),
              Get(ms, "event_type"), Get(ms, "payload"), Get(ms, "config_hash"), Get(ms, "hmac") ]
  {
  }

  /** A line is read as an event exactly when it is the text of a dict that holds a record, and as that record. */
  lemma LineIsReadExactlyWhen(line: string)
    ensures FromLine(line).Some? <==> Parse(line).Some? && Parse(line).value.Obj? && IsRecord(Parse(line).value.members)
    ensures FromLine(line).Some? ==> Reads(Parse(line).value.members, FromLine(line).value)
  {
    if Parse(line).Some? && Parse(line).value.Obj? {
      var ms := Parse(line).value.members;
      LookupsByName(ms);
      FieldsAccepted(Lookups(ms));
      if FromLine(line).Some? {
        FieldsRead(Lookups(ms));
      }
    }
  }

  /** A field the model does not know changes nothing. */
  lemma UnknownFieldIsIgnored(ms: Dict, k: string, v: Json)
    requires k !in FIELDS
    ensures Validate(Obj(Set(ms, k, v))) == Validate(Obj(ms))
  {
    forall i | 0 <= i < |FIELDS| ensures Get(Set(ms, k, v), FIELDS[i]) == Get(ms, FIELDS[i]) {
      GetSetOther(ms, k, v, FIELDS[i]);
    }
    assert Lookups(Set(ms, k, v)) == Lookups(ms);
  }

  // ----- blank lines -----

  lemma {:induction false} BlankAddsNothing(a: seq<string>, blank: string, b: seq<string>)
    requires Strip(blank) == ""
    ensures EventsOfLines(a + [blank] + b) == EventsOfLines(a + b)
    decreases |b|
  {
    if b == [] {
      assert a + [blank] + b == a + [blank] && a + b == a;
      EventsOfOneMore(a, blank);
    } else {
      var front, last := b[..|b| - 1], b[|b| - 1];
      BlankAddsNothing(a, blank, front);
      assert a + [blank] + b == (a + [blank] + front) + [last] && a + b == (a + front) + [last];
      EventsOfOneMore(a + [blank] + front, last);
      EventsOfOneMore(a + front, last);
    }
  }

  /**
   A line of nothing or of white space, with any terminator, at any boundary between two lines of a log, at its
   start or after its last terminator, changes nothing that is read.
   */
  lemma BlankLinesAreInvisible(before: string, blank: string, end: string, after: string)
    requires AtBoundary(before, after)
    requires NoLineBreak(blank) && Strip(blank) == "" && (IsTerminator(end) || (end == "" && after == ""))
    ensures ReadLog(before + (blank + (end + after))) == ReadLog(before + after)
  {
    var a, b := LineInserted(before, blank, end, after);
    BlankAddsNothing(a, blank, b);
    BlankAddsNothing(a, "", b);
  }

  /** Neither does one behind a last line that was not ended, once it is ended. */
  lemma AppendedBlanksAreInvisible(log: string, ended: string, blank: string, end: string)
    requires log != "" && !IsLineBreak(log[|log| - 1]) && IsTerminator(ended)
    requires NoLineBreak(blank) && Strip(blank) == "" && (IsTerminator(end) || end == "")
    ensures ReadLog(log + ended + (blank + end)) == ReadLog(log)
  {
    TerminatorAddsNoLine(log, ended);
    BlankLinesAreInvisible(log + ended, blank, end, "");
    assert end + "" == end && log + ended + "" == log + ended;
  }

  lemma BreaksAreNoEvents()
    ensures ReadLog("\n") == ReadLog("\r\n") == ReadLog("") == Some([])
  {
    BlankLinesAreInvisible("", "", "\n", "");
    BlankLinesAreInvisible("", "", "\r\n", "");
  }

  /** A line that is passed over, or gives an event. */
  predicate Readable(line: string) {
    Strip(line) == "" || FromLine(Strip(line)).Some?
  }

  /** The lines that are not blank. */
  function NonBlank(lines: seq<string>): seq<string> {
    if lines == [] then []
    else
      NonBlank(lines[..|lines| - 1]) +
      if Strip(lines[|lines| - 1]) == "" then [] else [Strip(lines[|lines| - 1])]
  }

  predicate EachRead(texts: seq<string>, events: seq<AuditEvent>) {
    |texts| == |events| && forall i :: 0 <= i < |texts| ==> FromLine(texts[i]) == Some(events[i])
  }

  lemma {:induction false} ReadableLogs(lines: seq<string>)
    ensures EventsOfLines(lines).Some? <==> forall i :: 0 <= i < |lines| ==> Readable(lines[i])
  {
    if lines != [] {
      var front, last := lines[..|lines| - 1], lines[|lines| - 1];
      ReadableLogs(front);
      assert lines == front + [last];
      EventsOfOneMore(front, last);
    }
  }

  lemma {:induction false} EachLineRead(lines: seq<string>)
    requires EventsOfLines(lines).Some?
    ensures EachRead(NonBlank(lines), EventsOfLines(lines).value)
  {
    if lines != [] {
      var front, last := lines[..|lines| - 1], lines[|lines| - 1];
      EachLineRead(front);
      OneMoreRead(NonBlank(front), EventsOfLines(front).value, Strip(last));
    }
  }

  lemma OneMoreRead(texts: seq<string>, events: seq<AuditEvent>, text: string)
    requires EachRead(texts, events)
    ensures FromLine(text).Some? ==> EachRead(texts + [text], events + [FromLine(text).value])
  {
  }

  /** A log is read exactly when each line is blank or a record, and then holds one event for each line not blank. */
  lemma LogIsReadExactlyWhen(lines: seq<string>)
    ensures EventsOfLines(lines).Some? <==> forall i :: 0 <= i < |lines| ==> Readable(lines[i])
    ensures EventsOfLines(lines).Some? ==> EachRead(NonBlank(lines), EventsOfLines(lines).value)
  {
    ReadableLogs(lines);
    if EventsOfLines(lines).Some? {
      EachLineRead(lines);
    }
  }
}
