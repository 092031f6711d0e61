/**
 The depth-bounded search for banned keys of the deception and engagement families, against the unbounded
 predicate, and against every node of the payload.
 */
module DirectiveSearch {
  import opened Outcomes
  import opened Json
  import opened Walkers

  const MAX_DIRECTIVE_WALK_DEPTH := 32

  datatype Search = Found | NotFound | Deep

  /** `_find_banned_key`: True, False, or the exception for a payload too deep. */
  function FindBanned(v: Json, banned: set<string>, depth: nat): Search
    decreases v, 0
  {
    if depth > MAX_DIRECTIVE_WALK_DEPTH then Deep
    else
      match v
      case Obj(ms) => FindInMembers(ms, banned, depth)
      case Arr(items) => FindInItems(items, banned, depth)
      case _ => NotFound
  }

  function FindInMembers(ms: Dict, banned: set<string>, depth: nat): Search
    decreases ms, 1
  {
    if ms == [] then NotFound
    else if ms[0].key in banned then Found
    else
      match FindBanned(ms[0].val, banned, depth + 1)
      case NotFound => FindInMembers(ms[1..], banned, depth)
      case r => r
  }

  /** `any(...)` stops at the first True, and an exception passes through it. */
  function FindInItems(items: seq<Json>, banned: set<string>, depth: nat): Search
    decreases items, 1
  {
    if items == [] then NotFound
    else
      match FindBanned(items[0], banned, depth + 1)
      case NotFound => FindInItems(items[1..], banned, depth)
      case r => r
  }

  /** The assertion raises unless the bounded search comes back empty-handed. */
  predicate DirectivesRefused(v: Json, banned: set<string>) {
    FindBanned(v, banned, 0) != NotFound
  }

  /** `contains_runtime_directive` and its siblings: no bound. */
  predicate ContainsBanned(v: Json, banned: set<string>)
    decreases v
  {
    match v
    case Obj(ms) => exists i :: 0 <= i < |ms| && (ms[i].key in banned || ContainsBanned(ms[i].val, banned))
    case Arr(items) => exists i :: 0 <= i < |items| && ContainsBanned(items[i], banned)
    case _ => false
  }

  /** The depth of the deepest node. */
  function Height(v: Json): nat
    decreases v, 0
  {
    match v
    case Obj(ms) => if ms == [] then 0 else 1 + HighestValue(ms)
    case Arr(items) => if items == [] then 0 else 1 + HighestItem(items)
    case _ => 0
  }

  function HighestValue(ms: Dict): nat
    requires ms != []
    decreases ms, 1
  {
    var h := Height(ms[0].val);
    if |ms| == 1 then h else var r := HighestValue(ms[1..]); if h < r then r else h
  }

  function HighestItem(items: seq<Json>): nat
    requires items != []
    decreases items, 1
  {
    var h := Height(items[0]);
    if |items| == 1 then h else var r := HighestItem(items[1..]); if h < r then r else h
  }

  /**
   The bounded search is empty-handed exactly when the unbounded predicate is false and the payload is
   not too high, in whatever order keys and depth would have stopped it.
   */
  lemma {:induction false} BoundedSearchIsExact(v: Json, banned: set<string>, depth: nat)
    ensures FindBanned(v, banned, depth) == NotFound <==>
            !ContainsBanned(v, banned) && depth + Height(v) <= MAX_DIRECTIVE_WALK_DEPTH
    decreases v, 0
  {
    match v {
      case Obj(ms) => MembersSearchIsExact(ms, banned, depth);
      case Arr(items) => ItemsSearchIsExact(items, banned, depth);
      case _ =>
    }
  }

  lemma {:induction false} MembersSearchIsExact(ms: Dict, banned: set<string>, depth: nat)
    ensures FindInMembers(ms, banned, depth) == NotFound <==>
            && (forall i :: 0 <= i < |ms| ==> ms[i].key !in banned && !ContainsBanned(ms[i].val, banned))
            && (ms != [] ==> depth + 1 + HighestValue(ms) <= MAX_DIRECTIVE_WALK_DEPTH)
    decreases ms, 1
  {
    if ms != [] {
      BoundedSearchIsExact(ms[0].val, banned, depth + 1);
      MembersSearchIsExact(ms[1..], banned, depth);
      assert forall i :: 0 < i < |ms| ==> ms[i] == ms[1..][i - 1];
    }
  }

  lemma {:induction false} ItemsSearchIsExact(items: seq<Json>, banned: set<string>, depth: nat)
    ensures FindInItems(items, banned, depth) == NotFound <==>
            && (forall i :: 0 <= i < |items| ==> !ContainsBanned(items[i], banned))
            && (items != [] ==> depth + 1 + HighestItem(items) <= MAX_DIRECTIVE_WALK_DEPTH)
    decreases items, 1
  {
    if items != [] {
      BoundedSearchIsExact(items[0], banned, depth + 1);
      ItemsSearchIsExact(items[1..], banned, depth);
      assert forall i :: 0 < i < |items| ==> items[i] == items[1..][i - 1];
    }
  }

  /** The assertion refuses a payload exactly when it holds a banned key somewhere or is higher than 32. */
  lemma RefusedExactlyWhen(v: Json, banned: set<string>)
    ensures DirectivesRefused(v, banned) <==>
            ContainsBanned(v, banned) || Height(v) > 32
  {
    BoundedSearchIsExact(v, banned, 0);
  }

  // ----- the same answer, node by node -----

  /** No member of this node has a banned key. */
  ghost predicate CleanNode(n: Json, banned: set<string>) {
    n.Obj? ==> forall i :: 0 <= i < |n.members| ==> n.members[i].key !in banned
  }

  ghost predicate CleanWithin(v: Json, p: seq<nat>, banned: set<string>, depth: nat) {
    NodeAt(v, p).Some? ==> depth + |p| <= MAX_DIRECTIVE_WALK_DEPTH && CleanNode(NodeAt(v, p).value, banned)
  }

  ghost predicate CleanEverywhere(v: Json, banned: set<string>, depth: nat) {
    forall p: seq<nat> :: CleanWithin(v, p, banned, depth)
  }

  lemma CleanStep(v: Json, banned: set<string>, depth: nat)
    requires CleanEverywhere(v, banned, depth)
    ensures depth <= MAX_DIRECTIVE_WALK_DEPTH && CleanNode(v, banned)
    ensures forall i :: 0 <= i < |Children(v)| ==> CleanEverywhere(Children(v)[i], banned, depth + 1)
  {
    assert CleanWithin(v, [], banned, depth);
    forall i | 0 <= i < |Children(v)| ensures CleanEverywhere(Children(v)[i], banned, depth + 1) {
      var child, below := Children(v)[i], depth + 1;
      forall p: seq<nat> ensures CleanWithin(child, p, banned, below) {
        assert CleanWithin(v, [i] + p, banned, depth);
        assert ([i] + p)[1..] == p;
      }
    }
  }

  /** A payload clean at every node and nowhere too deep passes the bounded search. */
  lemma {:induction false} CleanIsNotFound(v: Json, banned: set<string>, depth: nat)
    requires CleanEverywhere(v, banned, depth)
    ensures FindBanned(v, banned, depth) == NotFound
    decreases v, 0
  {
    CleanStep(v, banned, depth);
    match v {
      case Obj(ms) =>
        forall i | 0 <= i < |ms| ensures FindBanned(ms[i].val, banned, depth + 1) == NotFound {
          assert Children(v)[i] == ms[i].val;
          CleanIsNotFound(ms[i].val, banned, depth + 1);
        }
        MembersAllNotFound(ms, banned, depth);
      case Arr(items) =>
        forall i | 0 <= i < |items| ensures FindBanned(items[i], banned, depth + 1) == NotFound {
          assert Children(v)[i] == items[i];
          CleanIsNotFound(items[i], banned, depth + 1);
        }
        ItemsAllNotFound(items, banned, depth);
      case _ =>
    }
  }

  lemma {:induction false} MembersAllNotFound(ms: Dict, banned: set<string>, depth: nat)
    requires forall i :: 0 <= i < |ms| ==> ms[i].key !in banned && FindBanned(ms[i].val, banned, depth + 1) == NotFound
    ensures FindInMembers(ms, banned, depth) == NotFound
  {
    if ms != [] {
      MembersAllNotFound(ms[1..], banned, depth);
    }
  }

  lemma {:induction false} ItemsAllNotFound(items: seq<Json>, banned: set<string>, depth: nat)
    requires forall i :: 0 <= i < |items| ==> FindBanned(items[i], banned, depth + 1) == NotFound
    ensures FindInItems(items, banned, depth) == NotFound
  {
    if items != [] {
      ItemsAllNotFound(items[1..], banned, depth);
    }
  }

  /** A walk no deeper than 32 that refuses every banned key leaves nothing for the search to find. */
  lemma WalkCoversSearch(v: Json, rules: Rules, banned: set<string>)
    requires Walk(v, rules, [], 0).Ok?
    requires rules.depth <= MAX_DIRECTIVE_WALK_DEPTH
    requires forall m: Member :: m.key in banned ==> rules.refuses(m) != None
    ensures !DirectivesRefused(v, banned)
  {
    WalkIsExact(v, rules, [], 0);
    forall p: seq<nat> ensures CleanWithin(v, p, banned, 0) {
      assert NodeWithin(v, p, rules, 0);
    }
    CleanIsNotFound(v, banned, 0);
  }

  /** Searching for more names refuses more. */
  lemma {:induction false} LargerTableRefusesMore(v: Json, banned: set<string>, more: set<string>, depth: nat)
    requires banned <= more && FindBanned(v, more, depth) == NotFound
    ensures FindBanned(v, banned, depth) == NotFound
  {
    BoundedSearchIsExact(v, more, depth);
    FewerNamesFound(v, banned, more);
    BoundedSearchIsExact(v, banned, depth);
  }

  lemma {:induction false} FewerNamesFound(v: Json, banned: set<string>, more: set<string>)
    requires banned <= more
    ensures ContainsBanned(v, banned) ==> ContainsBanned(v, more)
    decreases v
  {
    match v {
      case Obj(ms) =>
        forall i | 0 <= i < |ms| ensures ContainsBanned(ms[i].val, banned) ==> ContainsBanned(ms[i].val, more) {
          FewerNamesFound(ms[i].val, banned, more);
        }
      case Arr(items) =>
        forall i | 0 <= i < |items| ensures ContainsBanned(items[i], banned) ==> ContainsBanned(items[i], more) {
          FewerNamesFound(items[i], banned, more);
        }
      case _ =>
    }
  }
}
