/**
 The bounded walkers that guard a payload. The provisioning, external-security, M.I.O. and outcome
 families each hold the same recursive function with their own limits and their own test on a member, so
 one walk is modelled over `Rules`. Members and items are visited in order and the first refusal wins.
 */
module Walkers {
  import opened Outcomes
  import opened Json
  import opened Numerals

  datatype Problem =
    | TooDeep
    | LongString
    | NotFinite
    | TooManyMembers
    | TooManyItems
    | LongKey
    | KeyNotAscii
    | BannedKey
    | ExecuteFlag

  datatype Refusal = Refusal(path: seq<string>, problem: Problem)

  /** The limits of one family, and what it finds wrong with a member before it looks at its value. */
  datatype Rules = Rules(
    depth: nat,
    mapItems: nat,
    sequenceItems: nat,
    stringLength: nat,
    finiteOnly: bool,
    refuses: Member -> Option<Problem>)

  /** `_walk(value, path=path, depth=depth)`. */
  function Walk(v: Json, rules: Rules, path: seq<string>, depth: nat): Result<(), Refusal>
    decreases v, 0
  {
    if depth > rules.depth then Err(Refusal(path, TooDeep))
    else
      match v
      case Str(s) => if |s| > rules.stringLength then Err(Refusal(path, LongString)) else Ok(())
      case NonFinite(_) => if rules.finiteOnly then Err(Refusal(path, NotFinite)) else Ok(())
      case Obj(ms) =>
        if |ms| > rules.mapItems then Err(Refusal(path, TooManyMembers))
        else WalkMembers(ms, rules, path, depth)
      case Arr(items) =>
        if |items| > rules.sequenceItems then Err(Refusal(path, TooManyItems))
        else WalkItems(items, 0, rules, path, depth)
      case _ => Ok(())
  }

  function WalkMembers(ms: Dict, rules: Rules, path: seq<string>, depth: nat): Result<(), Refusal>
    decreases ms, 1
  {
    if ms == [] then Ok(())
    else
      match rules.refuses(ms[0])
      case Some(problem) => Err(Refusal(path + [ms[0].key], problem))
      case None =>
        match Walk(ms[0].val, rules, path + [ms[0].key], depth + 1)
        case Err(e) => Err(e)
        case Ok(_) => WalkMembers(ms[1..], rules, path, depth)
  }

  function WalkItems(items: seq<Json>, index: nat, rules: Rules, path: seq<string>, depth: nat): Result<(), Refusal>
    decreases items, 1
  {
    if items == [] then Ok(())
    else
      match Walk(items[0], rules, path + [IntText(index)], depth + 1)
      case Err(e) => Err(e)
      case Ok(_) => WalkItems(items[1..], index + 1, rules, path, depth)
  }

  // ----- every node of a value -----

  function Children(v: Json): (vs: seq<Json>)
    ensures forall i :: 0 <= i < |vs| ==> vs[i] < v
  {
    match v
    case Arr(items) => items
    case Obj(ms) => seq(|ms|, i requires 0 <= i < |ms| => ms[i].val)
    case _ => []
  }

  /** The node reached by following child positions from the root. */
  function NodeAt(v: Json, p: seq<nat>): Option<Json>
    decreases |p|
  {
    if p == [] then Some(v)
    else if p[0] < |Children(v)| then NodeAt(Children(v)[p[0]], p[1..])
    else None
  }

  /** What the rules ask of one node, whatever is below it. */
  predicate NodeOk(n: Json, rules: Rules) {
    match n
    case Str(s) => |s| <= rules.stringLength
    case NonFinite(_) => !rules.finiteOnly
    case Obj(ms) => |ms| <= rules.mapItems && forall i :: 0 <= i < |ms| ==> rules.refuses(ms[i]) == None
    case Arr(items) => |items| <= rules.sequenceItems
    case _ => true
  }

  ghost predicate NodeWithin(v: Json, p: seq<nat>, rules: Rules, depth: nat) {
    NodeAt(v, p).Some? ==> depth + |p| <= rules.depth && NodeOk(NodeAt(v, p).value, rules)
  }

  /** Every node is within the depth and passes the test on nodes. */
  ghost predicate EveryNode(v: Json, rules: Rules, depth: nat) {
    forall p: seq<nat> :: NodeWithin(v, p, rules, depth)
  }

  /** A value has the property when its root does and every child does one level down. */
  lemma EveryNodeStep(v: Json, rules: Rules, depth: nat)
    ensures EveryNode(v, rules, depth) <==>
            && depth <= rules.depth
            && NodeOk(v, rules)
            && forall i :: 0 <= i < |Children(v)| ==> EveryNode(Children(v)[i], rules, depth + 1)
  {
    if EveryNode(v, rules, depth) {
      assert NodeWithin(v, [], rules, depth);
      forall i | 0 <= i < |Children(v)| ensures EveryNode(Children(v)[i], rules, depth + 1) {
        var child, below := Children(v)[i], depth + 1;
        forall p: seq<nat> ensures NodeWithin(child, p, rules, below) {
          assert NodeWithin(v, [i] + p, rules, depth);
          assert ([i] + p)[1..] == p;
        }
      }
    }
    if && depth <= rules.depth
       && NodeOk(v, rules)
       && forall i :: 0 <= i < |Children(v)| ==> EveryNode(Children(v)[i], rules, depth + 1)
    {
      forall p: seq<nat> ensures NodeWithin(v, p, rules, depth) {
        if p != [] && p[0] < |Children(v)| {
          assert EveryNode(Children(v)[p[0]], rules, depth + 1);
          assert NodeWithin(Children(v)[p[0]], p[1..], rules, depth + 1);
        }
      }
    }
  }

  /** The walk accepts a payload exactly when every node passes, whichever check would have fired first. */
  lemma {:induction false} WalkIsExact(v: Json, rules: Rules, path: seq<string>, depth: nat)
    ensures Walk(v, rules, path, depth).Ok? <==> EveryNode(v, rules, depth)
    decreases v, 0
  {
    EveryNodeStep(v, rules, depth);
    match v {
      case Obj(ms) =>
        WalkMembersIsExact(ms, rules, path, depth);
        assert forall i :: 0 <= i < |ms| ==> Children(v)[i] == ms[i].val;
      case Arr(items) =>
        WalkItemsIsExact(items, 0, rules, path, depth);
        assert forall i :: 0 <= i < |items| ==> Children(v)[i] == items[i];
      case _ =>
    }
  }

  lemma {:induction false} WalkMembersIsExact(ms: Dict, rules: Rules, path: seq<string>, depth: nat)
    ensures WalkMembers(ms, rules, path, depth).Ok? <==>
            forall i :: 0 <= i < |ms| ==> rules.refuses(ms[i]) == None && EveryNode(ms[i].val, rules, depth + 1)
    decreases ms, 1
  {
    if ms != [] {
      WalkIsExact(ms[0].val, rules, path + [ms[0].key], depth + 1);
      WalkMembersIsExact(ms[1..], rules, path, depth);
      assert forall i :: 0 < i < |ms| ==> ms[i] == ms[1..][i - 1];
    }
  }

  lemma {:induction false} WalkItemsIsExact(items: seq<Json>, index: nat, rules: Rules, path: seq<string>, depth: nat)
    ensures WalkItems(items, index, rules, path, depth).Ok? <==>
            forall i :: 0 <= i < |items| ==> EveryNode(items[i], rules, depth + 1)
    decreases items, 1
  {
    if items != [] {
      WalkIsExact(items[0], rules, path + [IntText(index)], depth + 1);
      WalkItemsIsExact(items[1..], index + 1, rules, path, depth);
      assert forall i :: 0 < i < |items| ==> items[i] == items[1..][i - 1];
    }
  }

  lemma {:induction false} NodeAtConcat(v: Json, p: seq<nat>, q: seq<nat>)
    requires NodeAt(v, p).Some?
    ensures NodeAt(v, p + q) == NodeAt(NodeAt(v, p).value, q)
    decreases |p|
  {
    if p == [] {
      assert p + q == q;
    } else {
      NodeAtConcat(Children(v)[p[0]], p[1..], q);
      assert (p + q)[1..] == p[1..] + q;
    }
  }

  /** Whatever is inside an accepted payload is accepted on its own. */
  lemma SubPayloadAccepted(v: Json, p: seq<nat>, rules: Rules)
    requires Walk(v, rules, [], 0).Ok? && NodeAt(v, p).Some?
    ensures Walk(NodeAt(v, p).value, rules, [], 0).Ok?
  {
    WalkIsExact(v, rules, [], 0);
    var n := NodeAt(v, p).value;
    forall q: seq<nat> ensures NodeWithin(n, q, rules, 0) {
      NodeAtConcat(v, p, q);
      assert NodeWithin(v, p + q, rules, 0);
    }
    WalkIsExact(n, rules, [], 0);
  }

  /** Rules that ask for less accept more. */
  lemma LaxerRulesAccept(v: Json, strict: Rules, lax: Rules)
    requires Walk(v, strict, [], 0).Ok?
    requires strict.depth <= lax.depth
    requires forall n :: NodeOk(n, strict) ==> NodeOk(n, lax)
    ensures Walk(v, lax, [], 0).Ok?
  {
    WalkIsExact(v, strict, [], 0);
    forall p: seq<nat> ensures NodeWithin(v, p, lax, 0) {
      assert NodeWithin(v, p, strict, 0);
    }
    WalkIsExact(v, lax, [], 0);
  }
}
