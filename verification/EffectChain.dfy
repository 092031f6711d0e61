/** Chains of effect records: `effect_contracts.validation` and the rules of `effect_contracts.models` it leans on. */
module EffectChain {
  import opened Outcomes
  import Refs

  /** The instant a text denotes, absent when `parse_timestamp` raises. */
  type Clock = string -> Option<int>

  datatype Authority =
    | ObservedFact
    | ProducerDecisionRef
    | AdvisoryInference
    | PlannedShadow
    | ActiveMaterialized
    | StaleOrUnknown

  datatype Status = Eligible | Selected | Rejected | Started | Active | Completed | Terminated | Failed

  datatype Effect = Effect(
    effectId: string,
    traceId: string,
    decisionRef: Option<string>,
    advisoryRef: Option<string>,
    authority: Authority,
    createdAt: string,
    expiresAt: string)

  datatype Observation = Observation(
    effectRef: string,
    traceId: string,
    executionRef: Option<string>,
    status: Status,
    observedAt: string,
    terminationReason: Option<string>,
    authority: Authority)

  datatype Envelope = Envelope(traceId: string, effectRef: Option<string>, presentationRef: Option<string>)

  datatype Terrain = Terrain(
    presentationId: string,
    activationDecisionRef: Option<string>,
    sourceEffectRef: Option<string>,
    traceId: Option<string>,
    authority: Authority)

  datatype ChainError =
    | ObservationOfOtherTrace
    | ObservationOfOtherEffect
    | EnvelopeOfOtherTrace
    | EnvelopeOfOtherEffect
    | EnvelopeOfOtherTerrain
    | TerrainNamesNoDecision
    | TerrainNamesOtherDecision
    | TerrainNamesUnheldDecision
    | TerrainUnbound
    | TerrainOfOtherTrace
    | TerrainOfOtherEffect

  // ----- what construction of a record has already checked -----

  /** Kinds that never stand in for an inherited decision, trace or execution id. */
  const NOT_A_DECISION: set<string> := {
    "lifecycle", "presentation", "advisory", "effect", "effect_observation", "environment", "surface", "artifact",
    "observation_objective", "hypothesis", "frame"
  }

  /** Each of them is a kind a reference can have, and a value of it is refused as a trace, decision or execution id. */
  lemma ExcludedKindIsRefused(kind: string, body: string)
    requires kind in NOT_A_DECISION && Refs.IsBody(body)
    ensures kind in Refs.KINDS && !Refs.RejectAccepts(Some(kind + ":" + body), NOT_A_DECISION)
  {
    Refs.ParseSpelled(kind, body);
  }

  predicate Live(s: Status) {
    s == Started || s == Active
  }

  predicate ValidEffect(clock: Clock, e: Effect) {
    && Refs.RequireAccepts(e.effectId, "effect")
    && Refs.RejectAccepts(Some(e.traceId), NOT_A_DECISION)
    && Refs.RejectAccepts(e.decisionRef, NOT_A_DECISION)
    && clock(e.createdAt).Some? && clock(e.expiresAt).Some?
    && clock(e.createdAt).value < clock(e.expiresAt).value
    && e.authority != ObservedFact && e.authority != ActiveMaterialized
    && (e.authority == ProducerDecisionRef ==> e.decisionRef.Some? && e.advisoryRef.None?)
    && (e.authority == AdvisoryInference ==>
          e.advisoryRef.Some? && e.decisionRef.None? && Refs.RequireAccepts(e.advisoryRef.value, "advisory"))
  }

  predicate ValidObservation(clock: Clock, o: Observation) {
    && Refs.RequireAccepts(o.effectRef, "effect")
    && Refs.RejectAccepts(o.executionRef, NOT_A_DECISION)
    && clock(o.observedAt).Some?
    && (o.authority == ObservedFact || o.authority == ActiveMaterialized)
    && (o.status == Terminated || o.status == Failed ==> o.terminationReason.Some?)
    && (Live(o.status) <==> o.authority == ActiveMaterialized)
  }

  predicate ValidTerrain(t: Terrain) {
    && Refs.RequireAccepts(t.presentationId, "presentation")
    && Refs.RejectAccepts(t.activationDecisionRef, NOT_A_DECISION)
    && Refs.RejectAccepts(t.traceId, NOT_A_DECISION)
    && (t.sourceEffectRef.Some? ==> Refs.RequireAccepts(t.sourceEffectRef.value, "effect"))
    && (t.activationDecisionRef.Some? || t.sourceEffectRef.Some?)
    && (t.sourceEffectRef.Some? ==> t.traceId.Some?)
    && t.authority != AdvisoryInference
  }

  // ----- the guards -----

  /** `_assert_terrain_binds_to_effect`. */
  function AssertTerrainBinds(e: Effect, t: Terrain): Result<(), ChainError> {
    if e.decisionRef.Some? && t.activationDecisionRef.None? then Err(TerrainNamesNoDecision)
    else if e.decisionRef.Some? && t.activationDecisionRef != e.decisionRef then Err(TerrainNamesOtherDecision)
    else if e.decisionRef.None? && t.activationDecisionRef.Some? then Err(TerrainNamesUnheldDecision)
    else if e.decisionRef.None? && t.sourceEffectRef.None? then Err(TerrainUnbound)
    else if t.traceId.Some? && t.traceId.value != e.traceId then Err(TerrainOfOtherTrace)
    else if t.sourceEffectRef.Some? && t.sourceEffectRef.value != e.effectId then Err(TerrainOfOtherEffect)
    else Ok(())
  }

  /** The loop over the observations, which raises at the first that does not belong. */
  function AssertObservations(e: Effect, os: seq<Observation>): Result<(), ChainError> {
    if os == [] then Ok(())
    else if os[0].traceId != e.traceId then Err(ObservationOfOtherTrace)
    else if os[0].effectRef != e.effectId then Err(ObservationOfOtherEffect)
    else AssertObservations(e, os[1..])
  }

  function AssertEnvelope(e: Effect, v: Option<Envelope>): Result<(), ChainError> {
    match v
    case None => Ok(())
    case Some(env) =>
      if env.traceId != e.traceId then Err(EnvelopeOfOtherTrace)
      else if env.effectRef.Some? && env.effectRef.value != e.effectId then Err(EnvelopeOfOtherEffect)
      else Ok(())
  }

  function AssertTerrain(e: Effect, v: Option<Envelope>, t: Option<Terrain>): Result<(), ChainError> {
    match t
    case None => Ok(())
    case Some(terrain) =>
      var bound := AssertTerrainBinds(e, terrain);
      if bound.Err? then bound
      else if v.Some? && v.value.presentationRef.Some? && v.value.presentationRef.value != terrain.presentationId then
        Err(EnvelopeOfOtherTerrain)
      else Ok(())
  }

  /** `assert_effect_chain_consistent`. */
  function AssertChain(e: Effect, os: seq<Observation>, v: Option<Envelope>, t: Option<Terrain>)
    : Result<(), ChainError>
  {
    var observed := AssertObservations(e, os);
    if observed.Err? then observed
    else
      var enveloped := AssertEnvelope(e, v);
      if enveloped.Err? then enveloped else AssertTerrain(e, v, t)
  }

  datatype WindowError = NotATimestamp | LiveAfterExpiry

  /** `assert_observation_within_effect_window`. */
  function AssertWithinWindow(clock: Clock, e: Effect, o: Observation): Result<(), WindowError> {
    if !Live(o.status) then Ok(())
    else
      match (clock(o.observedAt), clock(e.expiresAt))
      case (Some(observed), Some(expires)) => if observed > expires then Err(LiveAfterExpiry) else Ok(())
      case _ => Err(NotATimestamp)
  }

  // ----- one terrain, one effect -----

  /** Absent, or naming exactly this. */
  predicate AbsentOr(named: Option<string>, id: string) {
    named == None || named == Some(id)
  }

  /** For a constructed terrain the branches come to this: same decision or none on both sides, and no clash. */
  lemma BindingIsExact(e: Effect, t: Terrain)
    requires ValidTerrain(t)
    ensures AssertTerrainBinds(e, t).Ok? <==>
            && t.activationDecisionRef == e.decisionRef
            && AbsentOr(t.sourceEffectRef, e.effectId)
            && AbsentOr(t.traceId, e.traceId)
  {
  }

  /**
   Two accepted chains that share a terrain are about effects of one decision. When there is none, or the
   terrain names its effect, they are about one effect of one trace: no terrain joins a decided effect to an
   undecided one.
   */
  lemma TerrainJoinsOneEffect(
      t: Terrain, a: Effect, aSeen: seq<Observation>, aEnvelope: Option<Envelope>,
      b: Effect, bSeen: seq<Observation>, bEnvelope: Option<Envelope>)
    requires ValidTerrain(t)
    requires AssertChain(a, aSeen, aEnvelope, Some(t)).Ok? && AssertChain(b, bSeen, bEnvelope, Some(t)).Ok?
    ensures a.decisionRef == b.decisionRef
    ensures a.decisionRef.None? || t.sourceEffectRef.Some? ==> a.effectId == b.effectId && a.traceId == b.traceId
    ensures t.traceId.Some? ==> a.traceId == b.traceId
  {
    BindingIsExact(a, t);
    BindingIsExact(b, t);
  }

  /** A decision-bound terrain that names neither effect nor trace binds every effect of that decision. */
  lemma DecisionAloneBindsEveryEffectOfIt(e: Effect, t: Terrain)
    requires ValidTerrain(t) && t.sourceEffectRef.None? && t.traceId.None?
    ensures AssertTerrainBinds(e, t).Ok? <==> e.decisionRef == t.activationDecisionRef
  {
    BindingIsExact(e, t);
  }

  lemma TextsAreBodies(body: string)
    requires body == "a" || body == "b"
    ensures Refs.IsBody(body)
  {
  }

  /** A valid effect under the decision `decision:a`, created and expiring at the given instants. */
  lemma DecidedEffect(clock: Clock, body: string, created: string, expires: string) returns (e: Effect)
    requires body == "a" || body == "b"
    requires clock(created).Some? && clock(expires).Some? && clock(created).value < clock(expires).value
    ensures ValidEffect(clock, e)
    ensures e.effectId == Refs.Spell("effect", body) && e.traceId == Refs.Spell("trace", "a")
    ensures e.decisionRef == Some(Refs.Spell("decision", "a")) && e.createdAt == created && e.expiresAt == expires
  {
    TextsAreBodies(body);
    TextsAreBodies("a");
    var id, trace, decision := Refs.Spell("effect", body), Refs.Spell("trace", "a"), Refs.Spell("decision", "a");
    Refs.ParseSpelled("effect", body);
    Refs.ParseSpelled("trace", "a");
    Refs.ParseSpelled("decision", "a");
    Refs.SlotsAreDisjoint(trace, "trace", NOT_A_DECISION);
    Refs.SlotsAreDisjoint(decision, "decision", NOT_A_DECISION);
    e := Effect(id, trace, Some(decision), None, ProducerDecisionRef, created, expires);
  }

  lemma SpellingsDiffer(kind: string, body: string, other: string)
    requires body != other
    ensures Refs.Spell(kind, body) != Refs.Spell(kind, other)
  {
    assert Refs.Spell(kind, body)[|kind| + 1..] == body;
    assert Refs.Spell(kind, other)[|kind| + 1..] == other;
  }

  /** A valid terrain that names the decision `decision:a` and nothing else. */
  lemma DecidedTerrain() returns (t: Terrain)
    ensures ValidTerrain(t) && t.sourceEffectRef.None? && t.traceId.None?
    ensures t.activationDecisionRef == Some(Refs.Spell("decision", "a"))
  {
    var presentation, decision := Refs.Spell("presentation", "a"), Refs.Spell("decision", "a");
    TextsAreBodies("a");
    Refs.ParseSpelled("presentation", "a");
    Refs.ParseSpelled("decision", "a");
    Refs.SlotsAreDisjoint(decision, "decision", NOT_A_DECISION);
    t := Terrain(presentation, Some(decision), None, None, ProducerDecisionRef);
  }

  lemma DecisionAloneChains(e: Effect, t: Terrain)
    requires ValidTerrain(t) && t.sourceEffectRef.None? && t.traceId.None? && e.decisionRef == t.activationDecisionRef
    ensures AssertChain(e, [], None, Some(t)).Ok?
  {
    DecisionAloneBindsEveryEffectOfIt(e, t);
  }

  /** Two different effects of one decision and one terrain that is accepted in the chain of each. */
  lemma OneTerrainTwoEffects(clock: Clock, created: string, expires: string)
    returns (a: Effect, b: Effect, t: Terrain)
    requires clock(created).Some? && clock(expires).Some? && clock(created).value < clock(expires).value
    ensures ValidEffect(clock, a) && ValidEffect(clock, b) && ValidTerrain(t)
    ensures a.effectId != b.effectId
    ensures AssertChain(a, [], None, Some(t)).Ok? && AssertChain(b, [], None, Some(t)).Ok?
  {
    a := DecidedEffect(clock, "a", created, expires);
    b := DecidedEffect(clock, "b", created, expires);
    SpellingsDiffer("effect", "a", "b");
    t := DecidedTerrain();
    DecisionAloneChains(a, t);
    DecisionAloneChains(b, t);
  }

  /** An effect's own id cannot pass for its decision, its trace, or the decision behind its terrain. */
  lemma EffectIdStandsForNothingElse(clock: Clock, e: Effect, t: Terrain)
    requires ValidEffect(clock, e) && ValidTerrain(t)
    ensures e.decisionRef != Some(e.effectId) && e.traceId != e.effectId
    ensures t.activationDecisionRef != Some(e.effectId) && t.traceId != Some(e.effectId)
    ensures t.sourceEffectRef != Some(t.presentationId)
  {
    Refs.SlotsAreDisjoint(e.effectId, "effect", NOT_A_DECISION);
    assert "effect" in NOT_A_DECISION;
  }

  // ----- whole chains -----

  predicate Belongs(e: Effect, o: Observation) {
    o.traceId == e.traceId && o.effectRef == e.effectId
  }

  lemma {:induction false} ObservationsAreExact(e: Effect, os: seq<Observation>)
    ensures AssertObservations(e, os).Ok? <==> forall i :: 0 <= i < |os| ==> Belongs(e, os[i])
  {
    if os != [] {
      ObservationsAreExact(e, os[1..]);
      assert os == [os[0]] + os[1..];
      if AssertObservations(e, os).Ok? {
        forall i | 0 <= i < |os| ensures Belongs(e, os[i]) {
          if i > 0 { assert os[i] == os[1..][i - 1]; }
        }
      }
    }
  }

  /** Whatever fires first, a chain is accepted exactly when nothing in it names another trace, effect or terrain. */
  lemma ChainIsExact(e: Effect, os: seq<Observation>, v: Option<Envelope>, t: Option<Terrain>)
    requires t.Some? ==> ValidTerrain(t.value)
    ensures AssertChain(e, os, v, t).Ok? <==>
            && (forall o :: o in os ==> Belongs(e, o))
            && (v.Some? ==> v.value.traceId == e.traceId && AbsentOr(v.value.effectRef, e.effectId))
            && (t.Some? ==>
                  && t.value.activationDecisionRef == e.decisionRef
                  && AbsentOr(t.value.sourceEffectRef, e.effectId)
                  && AbsentOr(t.value.traceId, e.traceId))
            && (v.Some? && t.Some? ==> AbsentOr(v.value.presentationRef, t.value.presentationId))
  {
    ObservationsAreExact(e, os);
    if t.Some? {
      BindingIsExact(e, t.value);
    }
  }

  /** Two accepted chains that share an observation, or an envelope naming its effect, are about one effect. */
  lemma SharedRecordMeansOneEffect(
      a: Effect, aSeen: seq<Observation>, aEnvelope: Option<Envelope>, aTerrain: Option<Terrain>,
      b: Effect, bSeen: seq<Observation>, bEnvelope: Option<Envelope>, bTerrain: Option<Terrain>)
    requires AssertChain(a, aSeen, aEnvelope, aTerrain).Ok? && AssertChain(b, bSeen, bEnvelope, bTerrain).Ok?
    ensures (exists o :: o in aSeen && o in bSeen) ==> a.effectId == b.effectId && a.traceId == b.traceId
    ensures aEnvelope.Some? && aEnvelope == bEnvelope ==>
              && a.traceId == b.traceId
              && (aEnvelope.value.effectRef.Some? ==> a.effectId == b.effectId)
  {
    ObservationsAreExact(a, aSeen);
    ObservationsAreExact(b, bSeen);
    if o :| o in aSeen && o in bSeen {
      assert Belongs(a, o) && Belongs(b, o);
    }
  }

  /** Two chains of one effect join into one chain. */
  lemma ChainsJoin(e: Effect, xs: seq<Observation>, ys: seq<Observation>, v: Option<Envelope>, t: Option<Terrain>)
    ensures AssertChain(e, xs + ys, v, t).Ok? <==> AssertChain(e, xs, v, t).Ok? && AssertChain(e, ys, v, t).Ok?
  {
    ObservationsAreExact(e, xs);
    ObservationsAreExact(e, ys);
    ObservationsAreExact(e, xs + ys);
    if AssertObservations(e, xs + ys).Ok? {
      forall i | 0 <= i < |xs| ensures Belongs(e, xs[i]) { assert (xs + ys)[i] == xs[i]; }
      forall i | 0 <= i < |ys| ensures Belongs(e, ys[i]) { assert (xs + ys)[|xs| + i] == ys[i]; }
    }
  }

  // ----- runs of observations -----

  /** A consumer admits an observation when it belongs to the effect and passes the window guard. */
  predicate Admitted(clock: Clock, e: Effect, o: Observation) {
    ValidObservation(clock, o) && AssertChain(e, [o], None, None).Ok? && AssertWithinWindow(clock, e, o).Ok?
  }

  /** What a consumer that kept the run believes: the latest instant at which the effect was reported live. */
  function LastLive(clock: Clock, os: seq<Observation>): Option<int> {
    if os == [] then None
    else
      var before := LastLive(clock, os[..|os| - 1]);
      var o := os[|os| - 1];
      if o.authority != ActiveMaterialized || clock(o.observedAt).None? then before
      else if before.None? || before.value < clock(o.observedAt).value then clock(o.observedAt)
      else before
  }

  lemma {:induction false} LastLiveIsClaimed(clock: Clock, os: seq<Observation>)
    ensures LastLive(clock, os).Some? ==>
              exists o :: o in os && o.authority == ActiveMaterialized && clock(o.observedAt) == LastLive(clock, os)
    ensures forall o :: o in os && o.authority == ActiveMaterialized && clock(o.observedAt).Some? ==>
              LastLive(clock, os).Some? && clock(o.observedAt).value <= LastLive(clock, os).value
  {
    if os != [] {
      LastLiveIsClaimed(clock, os[..|os| - 1]);
      assert os == os[..|os| - 1] + [os[|os| - 1]];
    }
  }

  /** A report that claims a live effect belongs to it and is not later than `expires`. */
  predicate ReportsInTime(clock: Clock, e: Effect, o: Observation, expires: int) {
    o.authority == ActiveMaterialized ==>
      Belongs(e, o) && clock(o.observedAt).Some? && clock(o.observedAt).value <= expires
  }

  lemma AdmittedReportsInTime(clock: Clock, e: Effect, o: Observation)
    requires ValidEffect(clock, e) && Admitted(clock, e, o)
    ensures ReportsInTime(clock, e, o, clock(e.expiresAt).value)
  {
    ObservationsAreExact(e, [o]);
    assert Belongs(e, [o][0]);
  }

  lemma LastLiveInTime(clock: Clock, e: Effect, os: seq<Observation>, expires: int)
    requires forall o :: o in os ==> ReportsInTime(clock, e, o, expires)
    ensures LastLive(clock, os).Some? ==> LastLive(clock, os).value <= expires
  {
    LastLiveIsClaimed(clock, os);
  }

  /**
   Whatever run of observations is admitted, in whatever order and with whatever repeats, the effect is
   never believed live after it expired: every report that claims `active_materialized` lies before.
   */
  lemma NeverLiveAfterExpiry(clock: Clock, e: Effect, os: seq<Observation>)
    requires ValidEffect(clock, e)
    requires forall i :: 0 <= i < |os| ==> Admitted(clock, e, os[i])
    ensures forall o :: o in os ==> ReportsInTime(clock, e, o, clock(e.expiresAt).value)
    ensures LastLive(clock, os).Some? ==> LastLive(clock, os).value <= clock(e.expiresAt).value
  {
    var expires := clock(e.expiresAt).value;
    forall o | o in os ensures ReportsInTime(clock, e, o, expires) {
      AdmittedReportsInTime(clock, e, o);
    }
    LastLiveInTime(clock, e, os, expires);
  }

  /** Replaying admitted observations adds nothing to what the run already said. */
  lemma ReplayAddsNothing(clock: Clock, os: seq<Observation>, again: seq<Observation>)
    requires forall o :: o in again ==> o in os
    ensures LastLive(clock, os + again) == LastLive(clock, os)
  {
    LastLiveIsClaimed(clock, os);
    LastLiveIsClaimed(clock, os + again);
  }

  /** For constructed records the expiry is the only instant that matters, and only to a live report. */
  lemma AdmittedExactlyWhen(clock: Clock, e: Effect, o: Observation)
    requires ValidEffect(clock, e) && ValidObservation(clock, o)
    ensures Admitted(clock, e, o) <==>
            && Belongs(e, o)
            && (o.status == Started || o.status == Active ==> clock(o.observedAt).value <= clock(e.expiresAt).value)
    ensures o.authority == ActiveMaterialized <==> o.status == Started || o.status == Active
  {
    ObservationsAreExact(e, [o]);
    assert Belongs(e, [o][0]) <==> Belongs(e, o);
  }

  /** The guard has no lower bound: a live report from before the effect was created is admitted. */
  lemma LiveBeforeCreationIsAdmitted(clock: Clock, e: Effect, o: Observation)
    requires ValidEffect(clock, e) && ValidObservation(clock, o) && Belongs(e, o)
    requires clock(o.observedAt).value < clock(e.createdAt).value
    ensures Admitted(clock, e, o)
  {
    ObservationsAreExact(e, [o]);
  }

  /** A valid effect and a live report of it, made before the effect was created and admitted. */
  lemma AdmittedBeforeCreation(clock: Clock, early: string, created: string, expires: string)
    returns (e: Effect, o: Observation)
    requires clock(early).Some? && clock(created).Some? && clock(expires).Some?
    requires clock(early).value < clock(created).value < clock(expires).value
    ensures ValidEffect(clock, e) && e.createdAt == created && e.expiresAt == expires
    ensures ValidObservation(clock, o) && o.status == Active && o.observedAt == early
    ensures Admitted(clock, e, o)
  {
    e := DecidedEffect(clock, "a", created, expires);
    o := Observation(e.effectId, e.traceId, None, Active, early, None, ActiveMaterialized);
    LiveBeforeCreationIsAdmitted(clock, e, o);
  }
}
