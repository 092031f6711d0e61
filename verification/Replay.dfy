/** Re-sent proposals and the device observations made about them (`external_security_contracts`). */
module Replay {
  import opened Outcomes
  import opened Json
  import opened JsonText
  import opened Canonical
  import opened Digests

  /**
   What a record is checked with: the instant, in microseconds, a text denotes (absent when
   `parse_timestamp` raises), and the dump of the record that a model builds from a mapping, with its coercions
   and defaults (absent when one of the rules not spelled out below refuses it).
   */
  datatype Checks = Checks(parse: string -> Option<int>, construct: Dict -> Option<Dict>)

  datatype ReplayError =
    | NotARecord
    | Unencodable
    | Changed
    | OtherProposal
    | Disagrees
    | NotATimestamp
    | OutsideWindow

  const PROPOSAL := "exposure-change-proposal/v0.1"
  const OBSERVATION := "device-change-observation/v0.1"
  const SCHEMAS: set<string> := {
    "external-observation-envelope/v0.1", "advisory-context-envelope/v0.1", PROPOSAL, OBSERVATION
  }

  const MAX_PROPOSAL_WINDOW_SECONDS := 7 * 24 * 3600
  const MICROS_PER_SECOND := 1_000_000

  const IN_PLACE_DEVICE_STATUSES: set<string> := {"accepted_by_device", "applied", "observed"}

  /** `_get`: a missing field reads as `None`. */
  function Field(d: Dict, name: string): Json {
    match Get(d, name)
    case Some(v) => v
    case None => Null
  }

  /** `parse_timestamp(_get(...))`. */
  function InstantOf(c: Checks, v: Json): Option<int> {
    if v.Str? then c.parse(v.s) else None
  }

  function InstantAt(c: Checks, d: Dict, name: string): Option<int> {
    InstantOf(c, Field(d, name))
  }

  // ----- what construction of a record has already checked -----

  predicate HasSchema(d: Dict, schema: string) {
    Field(d, "schema_version") == Str(schema)
  }

  /** The window rule of `ExposureChangeProposal`: forward, and a week at most. */
  predicate ProposalRules(c: Checks, d: Dict) {
    && InstantAt(c, d, "not_before").Some? && InstantAt(c, d, "expires_at").Some?
    && var length := InstantAt(c, d, "expires_at").value - InstantAt(c, d, "not_before").value;
       0 < length <= MAX_PROPOSAL_WINDOW_SECONDS * MICROS_PER_SECOND
  }

  /** The members of a nested record. */
  function Nested(d: Dict, name: string): Dict {
    var v := Field(d, name);
    if v.Obj? then v.members else []
  }

  /** The time rules of `EventWindow` and `DeviceChangeObservation`. */
  predicate ObservationRules(c: Checks, d: Dict) {
    var window := Nested(d, "observation_window");
    && Field(d, "observation_window").Obj?
    && InstantAt(c, window, "start").Some? && InstantAt(c, window, "end").Some?
    && InstantAt(c, d, "observed_at").Some?
    && InstantAt(c, window, "start").value <= InstantAt(c, window, "end").value <= InstantAt(c, d, "observed_at").value
  }

  /** The rules spelled out above, for a record of any of the four schemas. */
  predicate MeetsRules(c: Checks, d: Dict) {
    && (HasSchema(d, PROPOSAL) ==> ProposalRules(c, d))
    && (HasSchema(d, OBSERVATION) ==> ObservationRules(c, d))
  }

  predicate KnownSchema(d: Dict) {
    Field(d, "schema_version").Str? && Field(d, "schema_version").s in SCHEMAS
  }

  /** `as_record`: the dump of the record a mapping builds, None where it raises. */
  function AsRecord(c: Checks, sent: Dict): (r: Option<Dict>)
    ensures r.Some? ==> MeetsRules(c, r.value)
  {
    if !KnownSchema(sent) then None
    else
      match c.construct(sent)
      case None => None
      case Some(d) =>
        if Field(d, "schema_version") == Field(sent, "schema_version") && MeetsRules(c, d) then Some(d) else None
  }

  /** A mapping of no known schema, or whose record would be of another, builds nothing. */
  lemma OtherSchemasBuildNothing(c: Checks, sent: Dict)
    ensures AsRecord(c, sent).Some? ==>
              && AsRecord(c, sent) == c.construct(sent)
              && Field(AsRecord(c, sent).value, "schema_version") == Field(sent, "schema_version")
              && (|| Field(sent, "schema_version") == Str("external-observation-envelope/v0.1")
                  || Field(sent, "schema_version") == Str("advisory-context-envelope/v0.1")
                  || Field(sent, "schema_version") == Str("exposure-change-proposal/v0.1")
                  || Field(sent, "schema_version") == Str("device-change-observation/v0.1"))
  {
  }

  /** A proposal is built exactly when its window runs forward and is a week long at most. */
  lemma ProposalIsBuiltExactlyWhen(c: Checks, sent: Dict, d: Dict)
    requires c.construct(sent) == Some(d)
    requires Field(sent, "schema_version") == Field(d, "schema_version") == Str("exposure-change-proposal/v0.1")
    ensures AsRecord(c, sent) == Some(d) <==>
            var starts, ends := InstantAt(c, d, "not_before"), InstantAt(c, d, "expires_at");
            starts.Some? && ends.Some? && starts.value < ends.value <= starts.value + 604_800_000_000
  {
    SchemasDiffer();
  }

  /** An observation is built exactly when its window does not run backwards and had ended when it was made. */
  lemma ObservationIsBuiltExactlyWhen(c: Checks, sent: Dict, d: Dict, window: Dict)
    requires c.construct(sent) == Some(d) && Field(d, "observation_window") == Obj(window)
    requires Field(sent, "schema_version") == Field(d, "schema_version") == Str("device-change-observation/v0.1")
    ensures AsRecord(c, sent) == Some(d) <==>
            var starts, ends := InstantAt(c, window, "start"), InstantAt(c, window, "end");
            var made := InstantAt(c, d, "observed_at");
            starts.Some? && ends.Some? && made.Some? && starts.value <= ends.value <= made.value
  {
    SchemasDiffer();
  }

  lemma SchemasDiffer()
    ensures PROPOSAL == "exposure-change-proposal/v0.1" && OBSERVATION == "device-change-observation/v0.1"
    ensures PROPOSAL != OBSERVATION && PROPOSAL in SCHEMAS && OBSERVATION in SCHEMAS
  {
    assert PROPOSAL[0] == 'e' && OBSERVATION[0] == 'd';
  }

  // ----- the guards -----

  /** `canonical_digest`. */
  function CanonicalDigest(h: Hash, d: Dict): Result<string, ReplayError> {
    match CanonicalBytes(Obj(d))
    case Err(_) => Err(Unencodable)
    case Ok(data) => Ok(Sha256Text(h, data))
  }

  /** `assert_no_replay_extension`. */
  function AssertNoReplayExtension(h: Hash, c: Checks, original: Dict, candidate: Dict): Result<(), ReplayError> {
    match (AsRecord(c, original), AsRecord(c, candidate))
    case (Some(a), Some(b)) => CompareRecords(h, a, b)
    case _ => Err(NotARecord)
  }

  /** Records with different ids are not compared. */
  function CompareRecords(h: Hash, a: Dict, b: Dict): Result<(), ReplayError> {
    if Field(a, "proposal_id") != Field(b, "proposal_id") then Ok(())
    else
      match (CanonicalDigest(h, a), CanonicalDigest(h, b))
      case (Ok(x), Ok(y)) => if x != y then Err(Changed) else Ok(())
      case _ => Err(Unencodable)
  }

  predicate InPlace(o: Dict) {
    Field(o, "status").Str? && Field(o, "status").s in IN_PLACE_DEVICE_STATUSES
  }

  /** The last part of the guard: the observation window, when there is one. */
  function AssertWindowWithin(c: Checks, window: Json, notBefore: int, expires: int): Result<(), ReplayError> {
    if window.Null? then Ok(())
    else
      var ms := if window.Obj? then window.members else [];
      match (InstantAt(c, ms, "start"), InstantAt(c, ms, "end"))
      case (Some(start), Some(end)) => if start < notBefore || end > expires then Err(OutsideWindow) else Ok(())
      case _ => Err(NotATimestamp)
  }

  /** The comparisons made for a status that reports the change as in place. */
  function AssertReportWithin(c: Checks, p: Dict, o: Dict): Result<(), ReplayError> {
    match (InstantAt(c, o, "observed_at"), InstantAt(c, p, "not_before"), InstantAt(c, p, "expires_at"))
    case (Some(observed), Some(notBefore), Some(expires)) =>
      if observed < notBefore || observed > expires then Err(OutsideWindow)
      else AssertWindowWithin(c, Field(o, "observation_window"), notBefore, expires)
    case _ => Err(NotATimestamp)
  }

  predicate RefsAgree(p: Dict, o: Dict) {
    && Field(o, "tenant_ref") == Field(p, "tenant_ref")
    && Field(o, "trace_ref") == Field(p, "trace_ref")
    && Field(o, "decision_ref") == Field(p, "decision_ref")
  }

  /** `assert_device_observation_within_proposal`. */
  function AssertDeviceObservation(c: Checks, proposal: Dict, observation: Dict): Result<(), ReplayError> {
    match (AsRecord(c, proposal), AsRecord(c, observation))
    case (Some(p), Some(o)) => CompareReport(c, p, o)
    case _ => Err(NotARecord)
  }

  function CompareReport(c: Checks, p: Dict, o: Dict): Result<(), ReplayError> {
    if Field(o, "proposal_ref") != Field(p, "proposal_id") then Err(OtherProposal)
    else if !RefsAgree(p, o) then Err(Disagrees)
    else if !InPlace(o) then Ok(())
    else AssertReportWithin(c, p, o)
  }

  // ----- one pair -----

  ghost predicate DigestCollision(h: Hash, a: Dict, b: Dict) {
    && CanonicalBytes(Obj(a)).Ok? && CanonicalBytes(Obj(b)).Ok?
    && Collision(h, CanonicalBytes(Obj(a)).value, CanonicalBytes(Obj(b)).value)
  }

  /** Another id, or nothing changed, or a collision of the hash. */
  ghost predicate NoReplayChange(h: Hash, a: Dict, b: Dict) {
    || Field(a, "proposal_id") != Field(b, "proposal_id")
    || (Finite(Obj(a)) && Same(Obj(a), Obj(b)))
    || DigestCollision(h, a, b)
  }

  lemma ComparisonIsExact(h: Hash, a: Dict, b: Dict)
    requires WellFormedDict(a) && WellFormedDict(b)
    ensures CompareRecords(h, a, b).Ok? <==> NoReplayChange(h, a, b)
  {
    if Finite(Obj(a)) {
      BytesDetermineValue(Obj(a), Obj(b));
      if Same(Obj(a), Obj(b)) {
        SameFinite(Obj(a), Obj(b));
      }
      if Finite(Obj(b)) {
        Sha256TextEqual(h, CanonicalBytes(Obj(a)).value, CanonicalBytes(Obj(b)).value);
      }
    }
  }

  /** Dumps of records are proper dicts. */
  ghost predicate ProperRecord(c: Checks, sent: Dict) {
    AsRecord(c, sent).Some? ==> WellFormedDict(AsRecord(c, sent).value)
  }

  /**
   A re-sent record is accepted exactly when both mappings build records and the second has another id, or
   equals the first in every field once defaults are filled in, or the hash collides.
   */
  lemma ReplayGuardIsExact(h: Hash, c: Checks, original: Dict, candidate: Dict)
    requires ProperRecord(c, original) && ProperRecord(c, candidate)
    ensures AssertNoReplayExtension(h, c, original, candidate).Ok? <==>
            && AsRecord(c, original).Some? && AsRecord(c, candidate).Some?
            && NoReplayChange(h, AsRecord(c, original).value, AsRecord(c, candidate).value)
  {
    if AsRecord(c, original).Some? && AsRecord(c, candidate).Some? {
      ComparisonIsExact(h, AsRecord(c, original).value, AsRecord(c, candidate).value);
    }
  }

  /** The whole observation lies within the proposal's window. */
  predicate WithinProposal(c: Checks, p: Dict, o: Dict)
    requires ProposalRules(c, p) && ObservationRules(c, o)
  {
    && InstantAt(c, p, "not_before").value <= InstantAt(c, Nested(o, "observation_window"), "start").value
    && InstantAt(c, o, "observed_at").value <= InstantAt(c, p, "expires_at").value
  }

  lemma WindowComparisons(c: Checks, ms: Dict, notBefore: int, expires: int)
    requires InstantAt(c, ms, "start").Some? && InstantAt(c, ms, "end").Some?
    ensures AssertWindowWithin(c, Obj(ms), notBefore, expires).Ok? <==>
            notBefore <= InstantAt(c, ms, "start").value && InstantAt(c, ms, "end").value <= expires
  {
  }

  lemma ReportComparisons(c: Checks, p: Dict, o: Dict)
    requires ProposalRules(c, p) && ObservationRules(c, o)
    ensures AssertReportWithin(c, p, o).Ok? <==> WithinProposal(c, p, o)
  {
    WindowComparisons(c, Nested(o, "observation_window"), InstantAt(c, p, "not_before").value,
                      InstantAt(c, p, "expires_at").value);
  }

  /** The records two mappings build are a proposal and an observation. */
  predicate ProposalAndReport(c: Checks, proposal: Dict, observation: Dict) {
    && AsRecord(c, proposal).Some? && HasSchema(AsRecord(c, proposal).value, PROPOSAL)
    && AsRecord(c, observation).Some? && HasSchema(AsRecord(c, observation).value, OBSERVATION)
  }

  /**
   For a constructed observation of a constructed proposal the four comparisons come to two: the window starts
   in time and the report is made in time.
   */
  lemma ObservationGuardIsExact(c: Checks, proposal: Dict, observation: Dict)
    requires ProposalAndReport(c, proposal, observation)
    ensures var p, o := AsRecord(c, proposal).value, AsRecord(c, observation).value;
            AssertDeviceObservation(c, proposal, observation).Ok? <==>
            && Field(o, "proposal_ref") == Field(p, "proposal_id")
            && RefsAgree(p, o)
            && (InPlace(o) ==> WithinProposal(c, p, o))
  {
    ReportComparisons(c, AsRecord(c, proposal).value, AsRecord(c, observation).value);
  }

  // ----- fields of equal records -----

  lemma SameTextField(a: Dict, b: Dict, name: string)
    requires SameLookups(a, b)
    ensures Field(a, name).Str? || Field(b, name).Str? ==> Field(a, name) == Field(b, name)
  {
    assert SameLookup(Get(a, name), Get(b, name));
  }

  lemma SameInstants(c: Checks, a: Dict, b: Dict, name: string)
    requires SameLookups(a, b)
    ensures InstantAt(c, a, name) == InstantAt(c, b, name)
  {
    SameTextField(a, b, name);
  }

  // ----- whole runs -----

  /** Every mapping of the run builds a record, whatever defaults it leaves to the model. */
  ghost predicate AllRecords(c: Checks, run: seq<Dict>) {
    forall i :: 0 <= i < |run| ==> AsRecord(c, run[i]).Some? && ProperRecord(c, run[i])
  }

  function RecordAt(c: Checks, run: seq<Dict>, i: nat): Dict
    requires AllRecords(c, run) && i < |run|
  {
    AsRecord(c, run[i]).value
  }

  /** A run of proposals with one id, each pair of neighbours accepted by the replay guard. */
  ghost predicate AcceptedRun(h: Hash, c: Checks, run: seq<Dict>) {
    && AllRecords(c, run)
    && (forall i, j :: 0 <= i && j == i + 1 && j < |run| ==>
          && Field(RecordAt(c, run, i), "proposal_id") == Field(RecordAt(c, run, j), "proposal_id")
          && AssertNoReplayExtension(h, c, run[i], run[j]).Ok?)
  }

  ghost predicate CollisionIn(h: Hash, c: Checks, run: seq<Dict>)
    requires AllRecords(c, run)
  {
    exists i, j :: 0 <= i < |run| && 0 <= j < |run| && DigestCollision(h, RecordAt(c, run, i), RecordAt(c, run, j))
  }

  /** However long the run, every field of every record in it equals the first's, or the hash collided on the way. */
  lemma {:induction false} RunIsConstant(h: Hash, c: Checks, run: seq<Dict>, k: nat)
    requires AcceptedRun(h, c, run) && k < |run| && !CollisionIn(h, c, run)
    ensures Same(Obj(RecordAt(c, run, 0)), Obj(RecordAt(c, run, k)))
  {
    var first, last := RecordAt(c, run, 0), RecordAt(c, run, k);
    if k == 0 {
      SameReflexive(Obj(first));
    } else {
      var i := k - 1;
      var before := RecordAt(c, run, i);
      RunIsConstant(h, c, run, i);
      assert k == i + 1;
      assert AssertNoReplayExtension(h, c, run[i], run[k]).Ok?;
      ReplayGuardIsExact(h, c, run[i], run[k]);
      SameTransitive(Obj(first), Obj(before), Obj(last));
    }
  }

  /** Lookups agree along the run. */
  lemma RunLookups(h: Hash, c: Checks, run: seq<Dict>, k: nat)
    requires AcceptedRun(h, c, run) && k < |run| && !CollisionIn(h, c, run)
    ensures SameLookups(RecordAt(c, run, 0), RecordAt(c, run, k))
  {
    RunIsConstant(h, c, run, k);
    SameDictByLookup(RecordAt(c, run, 0), RecordAt(c, run, k));
  }

  /** An accepted report that its subject is in place. */
  predicate AcceptedInPlace(c: Checks, proposal: Dict, observation: Dict) {
    && AssertDeviceObservation(c, proposal, observation).Ok?
    && Field(AsRecord(c, observation).value, "schema_version") == Str("device-change-observation/v0.1")
    && InPlace(AsRecord(c, observation).value)
  }

  /**
   An in-place observation accepted against any proposal of the run lies within the window of the first, which
   is a week at most: no number of re-sends extends an exposure.
   */
  lemma RunNeverExtends(h: Hash, c: Checks, run: seq<Dict>, k: nat, observation: Dict)
    requires AcceptedRun(h, c, run) && k < |run| && !CollisionIn(h, c, run)
    requires Field(RecordAt(c, run, 0), "schema_version") == Str("exposure-change-proposal/v0.1")
    requires AcceptedInPlace(c, run[k], observation)
    ensures ProposalRules(c, RecordAt(c, run, 0)) && ObservationRules(c, AsRecord(c, observation).value)
    ensures var p, o := RecordAt(c, run, 0), AsRecord(c, observation).value;
            var start := InstantAt(c, Nested(o, "observation_window"), "start").value;
            var end := InstantAt(c, Nested(o, "observation_window"), "end").value;
            var observed := InstantAt(c, o, "observed_at").value;
            var notBefore := InstantAt(c, p, "not_before").value;
            var expires := InstantAt(c, p, "expires_at").value;
            && notBefore <= start <= end <= observed <= expires
            && observed - start <= 604_800_000_000
  {
    var first, p := RecordAt(c, run, 0), RecordAt(c, run, k);
    RunLookups(h, c, run, k);
    SameTextField(first, p, "schema_version");
    SameInstants(c, first, p, "not_before");
    SameInstants(c, first, p, "expires_at");
    ObservationGuardIsExact(c, run[k], observation);
  }

  /** Any two in-place observations accepted anywhere along the run lie within one week of each other. */
  lemma ObservationsOfARunShareOneWeek(h: Hash, c: Checks, run: seq<Dict>, j: nat, a: Dict, k: nat, b: Dict)
    requires AcceptedRun(h, c, run) && j < |run| && k < |run| && !CollisionIn(h, c, run)
    requires Field(RecordAt(c, run, 0), "schema_version") == Str("exposure-change-proposal/v0.1")
    requires AcceptedInPlace(c, run[j], a) && AcceptedInPlace(c, run[k], b)
    ensures ObservationRules(c, AsRecord(c, a).value) && ObservationRules(c, AsRecord(c, b).value)
    ensures InstantAt(c, AsRecord(c, b).value, "observed_at").value -
            InstantAt(c, AsRecord(c, a).value, "observed_at").value <= 604_800_000_000
  {
    RunNeverExtends(h, c, run, j, a);
    RunNeverExtends(h, c, run, k, b);
  }

  /** Observations accepted anywhere along the run, in place or not, name one decision, tenant and trace. */
  lemma ObservationsOfARunShareRefs(
      h: Hash, c: Checks, run: seq<Dict>, j: nat, a: Dict, k: nat, b: Dict, name: string)
    requires AcceptedRun(h, c, run) && j < |run| && k < |run| && !CollisionIn(h, c, run)
    requires AssertDeviceObservation(c, run[j], a).Ok? && AssertDeviceObservation(c, run[k], b).Ok?
    requires name == "tenant_ref" || name == "trace_ref" || name == "decision_ref"
    requires Field(AsRecord(c, a).value, name).Str?
    ensures Field(AsRecord(c, a).value, name) == Field(AsRecord(c, b).value, name)
  {
    var first, p, q := RecordAt(c, run, 0), RecordAt(c, run, j), RecordAt(c, run, k);
    assert Field(AsRecord(c, a).value, name) == Field(p, name);
    assert Field(AsRecord(c, b).value, name) == Field(q, name);
    RunLookups(h, c, run, j);
    RunLookups(h, c, run, k);
    SameTextField(first, p, name);
    SameTextField(first, q, name);
  }

  lemma LateReport(c: Checks, proposal: Dict, observation: Dict, p: Dict, o: Dict)
    requires ProposalAndReport(c, proposal, observation)
    requires p == AsRecord(c, proposal).value && o == AsRecord(c, observation).value
    requires Field(o, "proposal_ref") == Field(p, "proposal_id") && RefsAgree(p, o)
    requires InstantAt(c, o, "observed_at").value > InstantAt(c, p, "expires_at").value
    ensures AssertDeviceObservation(c, proposal, observation).Ok? <==> !InPlace(o)
  {
    ObservationGuardIsExact(c, proposal, observation);
  }

  lemma InPlaceStatuses(o: Dict, status: string)
    requires Field(o, "status") == Str(status)
    ensures InPlace(o) <==> status == "accepted_by_device" || status == "applied" || status == "observed"
  {
  }

  /** A report made after expiry is accepted exactly when it does not claim one of the three in-place statuses. */
  lemma LateReportExactlyWhen(c: Checks, proposal: Dict, observation: Dict, status: string)
    requires ProposalAndReport(c, proposal, observation)
    requires var p, o := AsRecord(c, proposal).value, AsRecord(c, observation).value;
             && Field(o, "proposal_ref") == Field(p, "proposal_id") && RefsAgree(p, o)
             && Field(o, "status") == Str(status)
             && InstantAt(c, o, "observed_at").value > InstantAt(c, p, "expires_at").value
    ensures AssertDeviceObservation(c, proposal, observation).Ok? <==>
            status != "accepted_by_device" && status != "applied" && status != "observed"
  {
    var p, o := AsRecord(c, proposal).value, AsRecord(c, observation).value;
    InPlaceStatuses(o, status);
    LateReport(c, proposal, observation, p, o);
  }

  /** After expiry an observation is accepted only with a status that is not in place. */
  lemma LateReportsAreNotInPlace(c: Checks, proposal: Dict, observation: Dict)
    requires ProposalAndReport(c, proposal, observation)
    requires AssertDeviceObservation(c, proposal, observation).Ok?
    requires InstantAt(c, AsRecord(c, observation).value, "observed_at").value >
             InstantAt(c, AsRecord(c, proposal).value, "expires_at").value
    ensures !InPlace(AsRecord(c, observation).value)
  {
    ObservationGuardIsExact(c, proposal, observation);
  }
}
