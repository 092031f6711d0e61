/** The guards of the contract families, each an instance of the walk or of the bounded search. */
module Guards {
  import opened Outcomes
  import opened Json
  import opened PyText
  import opened KeyNormalization
  import opened KeySplits
  import opened DirectiveKeys
  import opened Walkers
  import opened DirectiveSearch

  // ----- the external-security family -----

  /** The tests on one member, in the order they are made. */
  function ExternalMember(m: Member, banned: string -> bool): Option<Problem> {
    if |m.key| > 128 then Some(LongKey)
    else if !AllPrintableAscii(m.key) then Some(KeyNotAscii)
    else if banned(m.key) then Some(BannedKey)
    else if IsExecuteFlagKey(m.key) && m.val != Bool(false) then Some(ExecuteFlag)
    else None
  }

  function ExternalRules(banned: string -> bool): Rules {
    Rules(12, 128, 256, 4096, true, m => ExternalMember(m, banned))
  }

  /** `assert_no_external_security_directives` and `assert_no_target_locators`, by their key predicate. */
  function ExternalGuard(v: Json, banned: string -> bool): Result<(), Refusal> {
    Walk(v, ExternalRules(banned), [], 0)
  }

  /** What the family promises of one node. */
  predicate ExternalNode(n: Json, banned: string -> bool) {
    match n
    case Str(s) => |s| <= 4096
    case NonFinite(_) => false
    case Arr(items) => |items| <= 256
    case Obj(ms) =>
      && |ms| <= 128
      && forall i :: 0 <= i < |ms| ==>
           && |ms[i].key| <= 128
           && AllPrintableAscii(ms[i].key)
           && !banned(ms[i].key)
           && (SnakeKey(ms[i].key) == "executable" ==> ms[i].val == Bool(false))
    case _ => true
  }

  ghost predicate ExternalWithin(v: Json, p: seq<nat>, banned: string -> bool) {
    NodeAt(v, p).Some? ==> |p| <= 12 && ExternalNode(NodeAt(v, p).value, banned)
  }

  lemma ExternalNodeIsNodeOk(n: Json, banned: string -> bool)
    ensures NodeOk(n, ExternalRules(banned)) <==> ExternalNode(n, banned)
  {
  }

  /** The guard accepts exactly the payloads whose every node is within its bounds and clean. */
  lemma ExternalGuardIsExact(v: Json, banned: string -> bool)
    ensures ExternalGuard(v, banned).Ok? <==> forall p: seq<nat> :: ExternalWithin(v, p, banned)
  {
    var rules := ExternalRules(banned);
    WalkIsExact(v, rules, [], 0);
    forall p: seq<nat> ensures NodeWithin(v, p, rules, 0) <==> ExternalWithin(v, p, banned) {
      if NodeAt(v, p).Some? {
        ExternalNodeIsNodeOk(NodeAt(v, p).value, banned);
      }
    }
    if EveryNode(v, rules, 0) {
      forall p: seq<nat> ensures ExternalWithin(v, p, banned) {
        assert NodeWithin(v, p, rules, 0);
      }
    }
    if forall p: seq<nat> :: ExternalWithin(v, p, banned) {
      forall p: seq<nat> ensures NodeWithin(v, p, rules, 0) {
        assert ExternalWithin(v, p, banned);
      }
    }
  }

  /** A record of this one key, set to True, passes the guard. */
  predicate PassesSetToTrue(key: string, banned: string -> bool) {
    ExternalGuard(Obj([Member(key, Bool(true))]), banned).Ok?
  }

  lemma OneMemberWalk(m: Member, rules: Rules)
    requires m.val.Bool? && rules.depth >= 1 && rules.mapItems >= 1
    ensures Walk(Obj([m]), rules, [], 0).Ok? <==> rules.refuses(m) == None
  {
    WalkIsExact(Obj([m]), rules, [], 0);
    EveryNodeStep(Obj([m]), rules, 0);
    EveryNodeStep(m.val, rules, 1);
    assert [m][0] == m;
  }

  /**
   Which keys a record may hold with the value True: those within the bounds and not banned, but for the
   execute flag in a spelling without a separator or a step to upper case inside.
   */
  lemma PassesSetToTrueExactlyWhen(key: string, banned: string -> bool)
    requires IsAsciiText(key)
    ensures PassesSetToTrue(key, banned) <==>
            && |key| <= 128 && AllPrintableAscii(key) && !banned(key)
            && (Spelling(key) == "executable" ==> HoldsTwoWords(key))
  {
    OneMemberWalk(Member(key, Bool(true)), ExternalRules(banned));
    ExecuteFlagBySpelling(key);
  }

  lemma FlagKeysAreShortAndPrintable(key: string)
    requires key == "executable" || key == "execut_able" || key == "exeCutable"
    ensures IsAsciiText(key) && |key| <= 128 && AllPrintableAscii(key)
  {
  }

  /** A table that holds none of them: of three keys of one spelling, two can be set to True under the guard. */
  lemma SpellingsOfTheFlagAtTheGuard(banned: string -> bool) returns (flag: string, split: string, camel: string)
    ensures flag == "executable" && split == "execut_able" && camel == "exeCutable"
    ensures !PassesSetToTrue(flag, banned)
    ensures PassesSetToTrue(split, banned) <==> !banned(split)
    ensures PassesSetToTrue(camel, banned) <==> !banned(camel)
  {
    flag, split, camel := ExecuteFlagIsNotSpellingIndependent();
    FlagKeysAreShortAndPrintable(flag);
    FlagKeysAreShortAndPrintable(split);
    FlagKeysAreShortAndPrintable(camel);
    PassesSetToTrueExactlyWhen(flag, banned);
    PassesSetToTrueExactlyWhen(split, banned);
    PassesSetToTrueExactlyWhen(camel, banned);
    ExecuteFlagBySpelling(flag);
    ExecuteFlagBySpelling(split);
    ExecuteFlagBySpelling(camel);
  }

  // ----- the other families -----

  /** `_is_banned_provisioning_key`, for any table of names; this family normalizes keys of any characters. */
  predicate IsProvisioningDirective(u: CharClasses, raw: string, names: set<string>) {
    IsProvisioningName(SnakeKeyIn(u, raw), names)
  }

  predicate IsProvisioningName(key: string, names: set<string>) {
    key in names || EndsInOne(key, BANNED_SUFFIXES) || StartsInOne(key, BANNED_PREFIXES)
  }

  predicate EndsInOne(key: string, suffixes: seq<string>) {
    exists suffix :: suffix in suffixes && EndsWith(key, suffix)
  }

  predicate StartsInOne(key: string, prefixes: seq<string>) {
    exists prefix :: prefix in prefixes && StartsWith(key, prefix)
  }

  const BANNED_SUFFIXES: seq<string> :=
    [ "_command", "_cmd", "_script", "_argv", "_entrypoint", "_unit", "_unit_file", "_route", "_gateway",
      "_nexthop", "_rule", "_rules", "_ruleset", "_device_path", "_device_node", "_dev_node", "_mount_point",
      "_executor", "_authorized", "_approved", "_granted", "_permitted", "_trusted", "_verified", "_verdict" ]

  const BANNED_PREFIXES: seq<string> := ["command_", "exec_", "run_", "systemd_", "nft_", "iptables_"]

  function ProvisioningMember(m: Member, refused: string -> bool): Option<Problem> {
    if |m.key| > 128 then Some(LongKey) else if refused(m.key) then Some(BannedKey) else None
  }

  function ProvisioningRules(refused: string -> bool): Rules {
    Rules(8, 128, 512, 4096, false, m => ProvisioningMember(m, refused))
  }

  /** What the provisioning family promises of one node. */
  predicate ProvisioningNode(n: Json, refused: string -> bool) {
    match n
    case Str(s) => |s| <= 4096
    case Arr(items) => |items| <= 512
    case Obj(ms) => |ms| <= 128 && forall i :: 0 <= i < |ms| ==> |ms[i].key| <= 128 && !refused(ms[i].key)
    case _ => true
  }

  ghost predicate ProvisioningWithin(v: Json, p: seq<nat>, refused: string -> bool) {
    NodeAt(v, p).Some? ==> |p| <= 8 && ProvisioningNode(NodeAt(v, p).value, refused)
  }

  lemma ProvisioningNodeIsNodeOk(n: Json, refused: string -> bool)
    ensures NodeOk(n, ProvisioningRules(refused)) <==> ProvisioningNode(n, refused)
  {
  }

  /** The provisioning guard accepts exactly the payloads whose every node is within its bounds and clean. */
  lemma ProvisioningGuardIsExact(v: Json, refused: string -> bool)
    ensures Walk(v, ProvisioningRules(refused), [], 0).Ok? <==> forall p: seq<nat> :: ProvisioningWithin(v, p, refused)
  {
    var rules := ProvisioningRules(refused);
    WalkIsExact(v, rules, [], 0);
    forall p: seq<nat> ensures NodeWithin(v, p, rules, 0) <==> ProvisioningWithin(v, p, refused) {
      if NodeAt(v, p).Some? {
        ProvisioningNodeIsNodeOk(NodeAt(v, p).value, refused);
      }
    }
    if EveryNode(v, rules, 0) {
      forall p: seq<nat> ensures ProvisioningWithin(v, p, refused) {
        assert NodeWithin(v, p, rules, 0);
      }
    }
    if forall p: seq<nat> :: ProvisioningWithin(v, p, refused) {
      forall p: seq<nat> ensures NodeWithin(v, p, rules, 0) {
        assert ProvisioningWithin(v, p, refused);
      }
    }
  }

  function MioMember(m: Member, banned: set<string>): Option<Problem> {
    if m.key in banned then Some(BannedKey) else None
  }

  function MioRules(banned: set<string>): Rules {
    Rules(6, 64, 128, 8192, false, m => MioMember(m, banned))
  }

  // ----- one family's acceptance covers another's -----

  /**
   The runtime-directive names every family refuses, as their two words: "docker_command" and so on. The
   last four are not caught by a provisioning suffix; that family's table names them.
   */
  const DIRECTIVE_WORDS: seq<(string, string)> :=
    [ ("docker", "command"), ("podman", "command"), ("shell", "command"), ("runtime", "command"),
      ("firewall", "rule"), ("nft", "rule"), ("iptables", "rule"),
      ("execute", "now"), ("must", "execute"), ("override", "authority"), ("bypass", "arbiter") ]

  function DirectiveName(i: nat): string
    requires i < |DIRECTIVE_WORDS|
  {
    DIRECTIVE_WORDS[i].0 + "_" + DIRECTIVE_WORDS[i].1
  }

  /** `BANNED_RUNTIME_DIRECTIVE_FIELDS`. */
  function RuntimeDirectives(): set<string> {
    set i | 0 <= i < |DIRECTIVE_WORDS| :: DirectiveName(i)
  }

  lemma DirectiveWordsAreWords(i: nat)
    requires i < |DIRECTIVE_WORDS|
    ensures LowerWord(DIRECTIVE_WORDS[i].0) && LowerWord(DIRECTIVE_WORDS[i].1)
    ensures DIRECTIVE_WORDS[i].0 != "" && DIRECTIVE_WORDS[i].1 != ""
  {
  }

  lemma DirectiveIsFixed(name: string)
    requires name in RuntimeDirectives()
    ensures SnakeKey(name) == name && IsAsciiText(name)
  {
    var i :| 0 <= i < |DIRECTIVE_WORDS| && DirectiveName(i) == name;
    DirectiveWordsAreWords(i);
    JoinedIsSnake(DIRECTIVE_WORDS[i].0, DIRECTIVE_WORDS[i].1);
    SnakeIsFixed(name);
  }

  /** The deception guard. */
  predicate DeceptionAccepts(v: Json) {
    !DirectivesRefused(v, RuntimeDirectives())
  }

  /** What the engagement guard accepts, the deception guard accepts: one search with more names. */
  lemma EngagementCoversDeception(v: Json, extra: set<string>)
    requires !DirectivesRefused(v, RuntimeDirectives() + extra)
    ensures DeceptionAccepts(v)
  {
    LargerTableRefusesMore(v, RuntimeDirectives(), RuntimeDirectives() + extra, 0);
  }

  lemma MioCoversDeception(v: Json, extra: set<string>)
    requires Walk(v, MioRules(RuntimeDirectives() + extra), [], 0).Ok?
    ensures DeceptionAccepts(v)
  {
    WalkCoversSearch(v, MioRules(RuntimeDirectives() + extra), RuntimeDirectives());
  }

  /** The external guard, whose table holds the runtime directives, covers the deception guard. */
  lemma ExternalCoversDeception(v: Json, extra: set<string>)
    requires ExternalGuard(v, raw => IsDirectiveKey(raw, RuntimeDirectives() + extra)).Ok?
    ensures DeceptionAccepts(v)
  {
    var rules := ExternalRules(raw => IsDirectiveKey(raw, RuntimeDirectives() + extra));
    forall m: Member | m.key in RuntimeDirectives() ensures rules.refuses(m) != None {
      DirectiveIsFixed(m.key);
    }
    WalkCoversSearch(v, rules, RuntimeDirectives());
  }

  lemma JoinedEnds(x: string, y: string)
    ensures EndsWith(x + "_" + y, "_" + y)
  {
    var s := x + "_" + y;
    assert s == x + ("_" + y);
    assert s[|x|..] == "_" + y;
  }

  lemma SuffixRefused(key: string, names: set<string>, suffix: string)
    requires suffix in BANNED_SUFFIXES && EndsWith(key, suffix)
    ensures IsProvisioningName(key, names)
  {
  }

  lemma SuffixOfTwoWords(x: string, y: string, suffix: string)
    requires LowerWord(x) && LowerWord(y) && suffix != "" && suffix[0] == '_'
    ensures EndsWith(x + "_" + y, suffix) <==> suffix == "_" + y
  {
    var key := x + "_" + y;
    if EndsWith(key, suffix) {
      var i := |key| - |suffix|;
      assert key[i] == '_';
      assert i == |x|;
      assert key[i..] == "_" + y;
    }
    if suffix == "_" + y {
      JoinedEnds(x, y);
    }
  }

  lemma PrefixOfTwoWords(x: string, y: string, prefix: string)
    requires LowerWord(x) && LowerWord(y) && prefix != "" && prefix[|prefix| - 1] == '_'
    ensures StartsWith(x + "_" + y, prefix) <==> prefix == x + "_"
  {
    var key := x + "_" + y;
    if StartsWith(key, prefix) {
      assert key[|prefix| - 1] == prefix[|prefix| - 1];
      assert |prefix| - 1 == |x|;
      assert prefix == key[..|prefix|] == x + "_";
    }
    if prefix == x + "_" {
      assert key == prefix + y;
    }
  }

  lemma SuffixesAndPrefixesOpen()
    ensures forall s :: s in BANNED_SUFFIXES ==> s != "" && s[0] == '_'
    ensures forall s :: s in BANNED_PREFIXES ==> s != "" && s[|s| - 1] == '_'
  {
  }

  lemma SomeSuffix(x: string, y: string, table: seq<string>)
    requires LowerWord(x) && LowerWord(y) && forall s :: s in table ==> s != "" && s[0] == '_'
    ensures EndsInOne(x + "_" + y, table) <==> "_" + y in table
  {
    forall suffix | suffix in table ensures EndsWith(x + "_" + y, suffix) <==> suffix == "_" + y {
      SuffixOfTwoWords(x, y, suffix);
    }
  }

  lemma SomePrefix(x: string, y: string, table: seq<string>)
    requires LowerWord(x) && LowerWord(y) && forall s :: s in table ==> s != "" && s[|s| - 1] == '_'
    ensures StartsInOne(x + "_" + y, table) <==> x + "_" in table
  {
    forall prefix | prefix in table ensures StartsWith(x + "_" + y, prefix) <==> prefix == x + "_" {
      PrefixOfTwoWords(x, y, prefix);
    }
  }

  /** A key of two lower-case words is refused for the table, for its second word or for its first. */
  lemma TwoWordsRefused(x: string, y: string, names: set<string>)
    requires LowerWord(x) && LowerWord(y)
    ensures IsProvisioningName(x + "_" + y, names) <==>
            x + "_" + y in names || "_" + y in BANNED_SUFFIXES || x + "_" in BANNED_PREFIXES
  {
    SuffixesAndPrefixesOpen();
    SomeSuffix(x, y, BANNED_SUFFIXES);
    SomePrefix(x, y, BANNED_PREFIXES);
  }

  lemma CommandAndRuleAreSuffixes(word: string)
    requires word == "command" || word == "rule"
    ensures "_" + word in BANNED_SUFFIXES
  {
    assert word == "command" ==> BANNED_SUFFIXES[0] == "_" + word;
    assert word == "rule" ==> BANNED_SUFFIXES[10] == "_" + word;
  }

  lemma ProvisioningRefusesDirective(i: nat, names: set<string>)
    requires i < |DIRECTIVE_WORDS| && (i >= 7 ==> DirectiveName(i) in names)
    ensures IsProvisioningName(DirectiveName(i), names)
  {
    if i < 7 {
      var last := DIRECTIVE_WORDS[i].1;
      JoinedEnds(DIRECTIVE_WORDS[i].0, last);
      CommandAndRuleAreSuffixes(last);
      SuffixRefused(DirectiveName(i), names, "_" + last);
    }
  }

  /** `assert_no_provisioning_directives`. */
  function ProvisioningGuard(u: CharClasses, v: Json, names: set<string>): Result<(), Refusal> {
    Walk(v, ProvisioningRules(raw => IsProvisioningDirective(u, raw, names)), [], 0)
  }

  /** The provisioning guard, whose table holds the last four runtime directives, covers the deception guard. */
  lemma ProvisioningCoversDeception(u: CharClasses, v: Json, names: set<string>)
    requires ExtendsAscii(u)
    requires forall i :: 7 <= i < |DIRECTIVE_WORDS| ==> DirectiveName(i) in names
    requires ProvisioningGuard(u, v, names).Ok?
    ensures DeceptionAccepts(v)
  {
    var rules := ProvisioningRules(raw => IsProvisioningDirective(u, raw, names));
    forall m: Member | m.key in RuntimeDirectives() ensures rules.refuses(m) != None {
      var i :| 0 <= i < |DIRECTIVE_WORDS| && DirectiveName(i) == m.key;
      ProvisioningRefusesDirective(i, names);
      DirectiveIsFixed(m.key);
      AsciiNormalForms(u, m.key);
    }
    WalkCoversSearch(v, rules, RuntimeDirectives());
  }

  // ----- the key skeleton of the knowledge context -----

  /** `_keys_only`: keys and shape, no leaves; None where it raises. */
  function KeysOnly(v: Json, depth: nat): (r: Option<Json>)
    decreases v, 0
  {
    if depth > 8 then None
    else
      match v
      case Obj(ms) =>
        (match KeysOnlyMembers(ms, depth + 1)
         case None => None
         case Some(r) => Some(Obj(r)))
      case Arr(items) =>
        (match KeysOnlyItems(items, depth + 1)
         case None => None
         case Some(r) => Some(Arr(r)))
      case _ => Some(Null)
  }

  function KeysOnlyMembers(ms: Dict, depth: nat): (r: Option<Dict>)
    ensures r.Some? <==> forall i :: 0 <= i < |ms| ==> KeysOnly(ms[i].val, depth).Some?
    ensures r.Some? ==> |r.value| == |ms|
    ensures r.Some? ==>
              forall i :: 0 <= i < |ms| ==> r.value[i] == Member(ms[i].key, KeysOnly(ms[i].val, depth).value)
    decreases ms, 1
  {
    if ms == [] then Some([])
    else
      match (KeysOnly(ms[0].val, depth), KeysOnlyMembers(ms[1..], depth))
      case (Some(v), Some(rest)) => Some([Member(ms[0].key, v)] + rest)
      case _ => None
  }

  function KeysOnlyItems(items: seq<Json>, depth: nat): (r: Option<seq<Json>>)
    ensures r.Some? <==> forall i :: 0 <= i < |items| ==> KeysOnly(items[i], depth).Some?
    ensures r.Some? ==> |r.value| == |items|
    ensures r.Some? ==>
              forall i :: 0 <= i < |items| ==> r.value[i] == KeysOnly(items[i], depth).value
    decreases items, 1
  {
    if items == [] then Some([])
    else
      match (KeysOnly(items[0], depth), KeysOnlyItems(items[1..], depth))
      case (Some(v), Some(rest)) => Some([v] + rest)
      case _ => None
  }

  /** The M.I.O. guard applied to the skeleton of a payload. */
  predicate SkeletonAccepted(v: Json, banned: set<string>) {
    KeysOnly(v, 0).Some? && Walk(KeysOnly(v, 0).value, MioRules(banned), [], 0).Ok?
  }

  /** The rules on depth, cardinality and keys, without the one on strings. */
  predicate ShapeNode(n: Json, banned: set<string>) {
    match n
    case Obj(ms) => |ms| <= 64 && forall i :: 0 <= i < |ms| ==> ms[i].key !in banned
    case Arr(items) => |items| <= 128
    case _ => true
  }

  ghost predicate ShapeWithin(v: Json, p: seq<nat>, banned: set<string>) {
    NodeAt(v, p).Some? ==> |p| <= 6 && ShapeNode(NodeAt(v, p).value, banned)
  }

  ghost predicate ShortStringAt(v: Json, p: seq<nat>) {
    NodeAt(v, p).Some? && NodeAt(v, p).value.Str? ==> |NodeAt(v, p).value.s| <= 8192
  }

  /** A skeleton has the nodes of its payload, with the same keys and sizes. */
  lemma {:induction false} SkeletonNode(v: Json, p: seq<nat>, depth: nat, banned: set<string>)
    requires KeysOnly(v, depth).Some?
    ensures var s := KeysOnly(v, depth).value;
            && (NodeAt(s, p).Some? <==> NodeAt(v, p).Some?)
            && (NodeAt(v, p).Some? ==>
                  (NodeOk(NodeAt(s, p).value, MioRules(banned)) <==> ShapeNode(NodeAt(v, p).value, banned)))
    decreases |p|
  {
    var s := KeysOnly(v, depth).value;
    if p == [] {
      SkeletonRoot(v, depth, banned);
    } else if p[0] < |Children(v)| {
      SkeletonRoot(v, depth, banned);
      SkeletonNode(Children(v)[p[0]], p[1..], depth + 1, banned);
    } else {
      SkeletonRoot(v, depth, banned);
    }
  }

  lemma SkeletonRoot(v: Json, depth: nat, banned: set<string>)
    requires KeysOnly(v, depth).Some?
    ensures var s := KeysOnly(v, depth).value;
            && (NodeOk(s, MioRules(banned)) <==> ShapeNode(v, banned))
            && |Children(s)| == |Children(v)|
            && forall i :: 0 <= i < |Children(v)| ==>
                 KeysOnly(Children(v)[i], depth + 1) == Some(Children(s)[i])
  {
    match v {
      case Obj(ms) =>
        assert KeysOnlyMembers(ms, depth + 1).Some?;
      case Arr(items) =>
        assert KeysOnlyItems(items, depth + 1).Some?;
      case _ =>
    }
  }

  /** A payload too deep for the skeleton has a node too deep for the guard. */
  lemma {:induction false} NoSkeletonIsTooDeep(v: Json, depth: nat) returns (p: seq<nat>)
    requires KeysOnly(v, depth) == None
    ensures NodeAt(v, p).Some? && depth + |p| > 8
    decreases v
  {
    if depth > 8 {
      p := [];
    } else {
      match v {
        case Obj(ms) =>
          var i :| 0 <= i < |ms| && KeysOnly(ms[i].val, depth + 1) == None;
          var q := NoSkeletonIsTooDeep(ms[i].val, depth + 1);
          p := [i] + q;
          assert p[1..] == q;
        case Arr(items) =>
          var i :| 0 <= i < |items| && KeysOnly(items[i], depth + 1) == None;
          var q := NoSkeletonIsTooDeep(items[i], depth + 1);
          p := [i] + q;
          assert p[1..] == q;
      }
    }
  }

  /** The skeleton is accepted exactly when the payload meets the rules on depth, cardinality and keys. */
  lemma SkeletonIsExact(v: Json, banned: set<string>)
    ensures SkeletonAccepted(v, banned) <==> forall p: seq<nat> :: ShapeWithin(v, p, banned)
  {
    if KeysOnly(v, 0) == None {
      var p := NoSkeletonIsTooDeep(v, 0);
      assert !ShapeWithin(v, p, banned);
    } else {
      var s, rules := KeysOnly(v, 0).value, MioRules(banned);
      WalkIsExact(s, rules, [], 0);
      forall p: seq<nat> ensures NodeWithin(s, p, rules, 0) <==> ShapeWithin(v, p, banned) {
        SkeletonNode(v, p, 0, banned);
      }
      if EveryNode(s, rules, 0) {
        forall p: seq<nat> ensures ShapeWithin(v, p, banned) {
          assert NodeWithin(s, p, rules, 0);
        }
      }
      if forall p: seq<nat> :: ShapeWithin(v, p, banned) {
        forall p: seq<nat> ensures NodeWithin(s, p, rules, 0) {
          assert ShapeWithin(v, p, banned);
        }
      }
    }
  }

  lemma MioNode(n: Json, banned: set<string>)
    ensures NodeOk(n, MioRules(banned)) <==> ShapeNode(n, banned) && (n.Str? ==> |n.s| <= 8192)
  {
  }

  /** The full M.I.O. walk is the skeleton check plus the bound on strings. */
  lemma MioWalkIsSkeletonAndStrings(v: Json, banned: set<string>)
    ensures Walk(v, MioRules(banned), [], 0).Ok? <==>
            SkeletonAccepted(v, banned) && forall p: seq<nat> :: ShortStringAt(v, p)
  {
    var rules := MioRules(banned);
    WalkIsExact(v, rules, [], 0);
    SkeletonIsExact(v, banned);
    forall p: seq<nat> ensures NodeWithin(v, p, rules, 0) <==> ShapeWithin(v, p, banned) && ShortStringAt(v, p) {
      if NodeAt(v, p).Some? {
        MioNode(NodeAt(v, p).value, banned);
      }
    }
    if EveryNode(v, rules, 0) {
      forall p: seq<nat> ensures ShapeWithin(v, p, banned) && ShortStringAt(v, p) {
        assert NodeWithin(v, p, rules, 0);
      }
    }
    if SkeletonAccepted(v, banned) && forall p: seq<nat> :: ShortStringAt(v, p) {
      forall p: seq<nat> ensures NodeWithin(v, p, rules, 0) {
        assert ShapeWithin(v, p, banned) && ShortStringAt(v, p);
      }
    }
  }
}
