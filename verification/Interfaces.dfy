/** Matching a commissioned selector against an inventory (`provisioning_contracts.validation`). */
module Interfaces {
  import opened Outcomes

  /** The fields a record carries that are not `None`. */
  type Fields = map<string, string>

  datatype Interface = Interface(interfaceKey: string, fields: Fields, kernelName: Option<string>)

  const COMPOSITE_IDENTITY_FIELDS: seq<string> := [
    "bus_path", "permanent_mac", "pci_id", "usb_vid_pid", "serial", "driver", "firmware_version", "wireless_phy",
    "physical_label"
  ]

  const REQUIRED_SELECTOR_FIELDS: seq<string> := ["bus_path", "permanent_mac"]
  const DISCRIMINATOR_FIELDS: seq<string> := ["pci_id", "usb_vid_pid", "serial"]

  datatype ResolutionError =
    | NoSelector
    | MissingRequired
    | NoDiscriminator
    | NoMatch
    | Ambiguous(count: nat)

  /** `_field`. */
  function Field(x: Fields, name: string): Option<string> {
    if name in x then Some(x[name]) else None
  }

  /** Python's truth of a field: present and not empty. */
  predicate Truthy(x: Fields, name: string) {
    name in x && x[name] != ""
  }

  /** `assert_selector_is_composite`. */
  function AssertComposite(selector: Fields): Result<(), ResolutionError> {
    if exists i :: 0 <= i < |REQUIRED_SELECTOR_FIELDS| && !Truthy(selector, REQUIRED_SELECTOR_FIELDS[i]) then
      Err(MissingRequired)
    else if forall i :: 0 <= i < |DISCRIMINATOR_FIELDS| ==> !Truthy(selector, DISCRIMINATOR_FIELDS[i]) then
      Err(NoDiscriminator)
    else
      Ok(())
  }

  /** Every field the selector pins has the same value in `x`. */
  predicate Agrees(x: Fields, selector: Fields) {
    forall i :: 0 <= i < |COMPOSITE_IDENTITY_FIELDS| ==> AgreesOn(x, selector, COMPOSITE_IDENTITY_FIELDS[i])
  }

  predicate AgreesOn(x: Fields, selector: Fields, name: string) {
    name in selector ==> Field(x, name) == Some(selector[name])
  }

  /** The inventory entries that agree with the selector, in inventory order. */
  function Matching(interfaces: seq<Interface>, selector: Fields): seq<Interface> {
    if interfaces == [] then []
    else
      var last := interfaces[|interfaces| - 1];
      Matching(interfaces[..|interfaces| - 1], selector) + if Agrees(last.fields, selector) then [last] else []
  }

  /** What `resolve_interface_assignment` makes of the matches. */
  function Resolve(interfaces: seq<Interface>, selector: Option<Fields>): Result<Interface, ResolutionError> {
    match selector
    case None => Err(NoSelector)
    case Some(s) =>
      match AssertComposite(s)
      case Err(e) => Err(e)
      case Ok(_) =>
        var found := Matching(interfaces, s);
        if |found| == 0 then Err(NoMatch) else if |found| > 1 then Err(Ambiguous(|found|)) else Ok(found[0])
  }

  /** `matching_interfaces`: the inner loop leaves at the first pinned field that differs. */
  method MatchingInterfaces(interfaces: seq<Interface>, selector: Fields)
    returns (r: Result<seq<Interface>, ResolutionError>)
    ensures r == match AssertComposite(selector)
                 case Err(e) => Err(e)
                 case Ok(_) => Ok(Matching(interfaces, selector))
  {
    var composite := AssertComposite(selector);
    if composite.Err? {
      return Err(composite.error);
    }
    var matches := [];
    for i := 0 to |interfaces|
      invariant matches == Matching(interfaces[..i], selector)
    {
      var candidate := interfaces[i].fields;
      var k := 0;
      var differs := false;
      while k < |COMPOSITE_IDENTITY_FIELDS| && !differs
        invariant 0 <= k <= |COMPOSITE_IDENTITY_FIELDS|
        invariant differs ==> !Agrees(candidate, selector)
        invariant !differs ==> forall j :: 0 <= j < k ==> AgreesOn(candidate, selector, COMPOSITE_IDENTITY_FIELDS[j])
        decreases |COMPOSITE_IDENTITY_FIELDS| - k, !differs
      {
        var name := COMPOSITE_IDENTITY_FIELDS[k];
        var wanted := Field(selector, name);
        if wanted.Some? && Field(candidate, name) != wanted {
          assert !AgreesOn(candidate, selector, name);
          differs := true;
        } else {
          k := k + 1;
        }
      }
      assert interfaces[..i + 1][..i] == interfaces[..i];
      if !differs {
        matches := matches + [interfaces[i]];
      }
    }
    assert interfaces[..|interfaces|] == interfaces;
    r := Ok(matches);
  }

  /** `resolve_interface_assignment`. */
  method ResolveInterfaceAssignment(interfaces: seq<Interface>, selector: Option<Fields>)
    returns (r: Result<Interface, ResolutionError>)
    ensures r == Resolve(interfaces, selector)
  {
    if selector.None? {
      return Err(NoSelector);
    }
    var matches := MatchingInterfaces(interfaces, selector.value);
    match matches {
      case Err(e) => r := Err(e);
      case Ok(found) =>
        if |found| == 0 {
          r := Err(NoMatch);
        } else if |found| > 1 {
          r := Err(Ambiguous(|found|));
        } else {
          r := Ok(found[0]);
        }
    }
  }

  /** The fields a selector has to carry, by name. */
  lemma CompositeExactlyWhen(s: Fields)
    ensures AssertComposite(s) ==
            if !Truthy(s, "bus_path") || !Truthy(s, "permanent_mac") then Err(MissingRequired)
            else if !Truthy(s, "pci_id") && !Truthy(s, "usb_vid_pid") && !Truthy(s, "serial") then Err(NoDiscriminator)
            else Ok(())
  {
    assert REQUIRED_SELECTOR_FIELDS[0] == "bus_path" && REQUIRED_SELECTOR_FIELDS[1] == "permanent_mac";
    assert DISCRIMINATOR_FIELDS[0] == "pci_id" && DISCRIMINATOR_FIELDS[1] == "usb_vid_pid";
    assert DISCRIMINATOR_FIELDS[2] == "serial";
  }

  /** The nine fields compared, by name; a field the selector does not pin, and any other field, is not looked at. */
  lemma AgreesExactlyWhen(x: Fields, s: Fields)
    ensures Agrees(x, s) <==>
            && AgreesOn(x, s, "bus_path") && AgreesOn(x, s, "permanent_mac") && AgreesOn(x, s, "pci_id")
            && AgreesOn(x, s, "usb_vid_pid") && AgreesOn(x, s, "serial") && AgreesOn(x, s, "driver")
            && AgreesOn(x, s, "firmware_version") && AgreesOn(x, s, "wireless_phy") && AgreesOn(x, s, "physical_label")
  {
    var names := COMPOSITE_IDENTITY_FIELDS;
    assert names[0] == "bus_path" && names[1] == "permanent_mac" && names[2] == "pci_id";
    assert names[3] == "usb_vid_pid" && names[4] == "serial" && names[5] == "driver";
    assert names[6] == "firmware_version" && names[7] == "wireless_phy" && names[8] == "physical_label";
  }

  /** A selector of anything less resolves to nothing in any inventory, even where one entry alone agrees with it. */
  lemma PartialSelectorNeverResolves(interfaces: seq<Interface>, s: Fields)
    requires !Truthy(s, "bus_path") || !Truthy(s, "permanent_mac") ||
             (!Truthy(s, "pci_id") && !Truthy(s, "usb_vid_pid") && !Truthy(s, "serial"))
    ensures Resolve(interfaces, Some(s)) == Err(MissingRequired) || Resolve(interfaces, Some(s)) == Err(NoDiscriminator)
  {
    CompositeExactlyWhen(s);
  }

  // ----- the composite key -----

  type Key = seq<Option<string>>

  /** `interface_composite_key`. */
  function CompositeKey(x: Fields): (k: Key)
    ensures |k| == |COMPOSITE_IDENTITY_FIELDS|
  {
    seq(|COMPOSITE_IDENTITY_FIELDS|,
        i requires 0 <= i < |COMPOSITE_IDENTITY_FIELDS| => Field(x, COMPOSITE_IDENTITY_FIELDS[i]))
  }

  predicate KeyAgrees(k: Key, selector: Fields)
    requires |k| == |COMPOSITE_IDENTITY_FIELDS|
  {
    forall i :: 0 <= i < |k| && COMPOSITE_IDENTITY_FIELDS[i] in selector ==>
      k[i] == Some(selector[COMPOSITE_IDENTITY_FIELDS[i]])
  }

  lemma AgreesByKey(x: Fields, selector: Fields)
    ensures Agrees(x, selector) <==> KeyAgrees(CompositeKey(x), selector)
  {
    var k := CompositeKey(x);
    forall i | 0 <= i < |k|
      ensures AgreesOn(x, selector, COMPOSITE_IDENTITY_FIELDS[i]) <==>
              (COMPOSITE_IDENTITY_FIELDS[i] in selector ==> k[i] == Some(selector[COMPOSITE_IDENTITY_FIELDS[i]]))
    {
    }
  }

  /** An entry is matched exactly when it is in the inventory and agrees, as often as it is in the inventory. */
  lemma {:induction false} MatchingCounts(interfaces: seq<Interface>, selector: Fields, x: Interface)
    ensures multiset(Matching(interfaces, selector))[x] ==
            if Agrees(x.fields, selector) then multiset(interfaces)[x] else 0
  {
    if interfaces != [] {
      var init, last := interfaces[..|interfaces| - 1], interfaces[|interfaces| - 1];
      assert interfaces == init + [last];
      MatchingCounts(init, selector, x);
    }
  }

  /** Exactly one place of the inventory agrees with the selector. */
  ghost predicate OnlyMatch(interfaces: seq<Interface>, selector: Fields, i: nat) {
    && i < |interfaces|
    && Agrees(interfaces[i].fields, selector)
    && forall j :: 0 <= j < |interfaces| && j != i ==> !Agrees(interfaces[j].fields, selector)
  }

  lemma {:induction false} NoneMatch(interfaces: seq<Interface>, selector: Fields)
    ensures Matching(interfaces, selector) == [] <==>
            forall j :: 0 <= j < |interfaces| ==> !Agrees(interfaces[j].fields, selector)
  {
    if interfaces != [] {
      var init := interfaces[..|interfaces| - 1];
      NoneMatch(init, selector);
      forall j | 0 <= j < |init| ensures init[j] == interfaces[j] { }
    }
  }

  lemma {:induction false} OneMatch(interfaces: seq<Interface>, selector: Fields) returns (i: nat)
    requires |Matching(interfaces, selector)| == 1
    ensures OnlyMatch(interfaces, selector, i) && Matching(interfaces, selector) == [interfaces[i]]
  {
    var n := |interfaces| - 1;
    var init := interfaces[..n];
    NoneMatch(init, selector);
    if Agrees(interfaces[n].fields, selector) {
      i := n;
      assert Matching(init, selector) == [];
      forall j | 0 <= j < n ensures !Agrees(interfaces[j].fields, selector) {
        assert init[j] == interfaces[j];
      }
    } else {
      i := OneMatch(init, selector);
      forall j | 0 <= j < n && j != i ensures !Agrees(interfaces[j].fields, selector) {
        assert init[j] == interfaces[j];
      }
    }
  }

  lemma {:induction false} OnlyMatchIsMatching(interfaces: seq<Interface>, selector: Fields, i: nat)
    requires OnlyMatch(interfaces, selector, i)
    ensures Matching(interfaces, selector) == [interfaces[i]]
  {
    var n := |interfaces| - 1;
    var init := interfaces[..n];
    forall j | 0 <= j < n ensures init[j] == interfaces[j] { }
    if i == n {
      NoneMatch(init, selector);
    } else {
      OnlyMatchIsMatching(init, selector, i);
    }
  }

  /** An assignment resolves exactly when one inventory entry, and no other, agrees with all it pins. */
  lemma ResolvesToTheOnlyMatch(interfaces: seq<Interface>, selector: Fields, x: Interface)
    ensures Resolve(interfaces, Some(selector)) == Ok(x) <==>
            && AssertComposite(selector).Ok?
            && exists i: nat :: OnlyMatch(interfaces, selector, i) && interfaces[i] == x
  {
    if Resolve(interfaces, Some(selector)) == Ok(x) {
      var i := OneMatch(interfaces, selector);
    }
    if i: nat :| OnlyMatch(interfaces, selector, i) && interfaces[i] == x {
      OnlyMatchIsMatching(interfaces, selector, i);
    }
  }

  // ----- a resolved assignment stays where it is -----

  /** Everything `s` pins, `t` pins to the same value. */
  predicate PinsAtLeast(t: Fields, s: Fields) {
    forall name :: name in s ==> name in t && t[name] == s[name]
  }

  lemma PinningMoreAgreesLess(x: Fields, s: Fields, t: Fields)
    requires PinsAtLeast(t, s) && Agrees(x, t)
    ensures Agrees(x, s)
  {
    forall i | 0 <= i < |COMPOSITE_IDENTITY_FIELDS| ensures AgreesOn(x, s, COMPOSITE_IDENTITY_FIELDS[i]) {
      assert AgreesOn(x, t, COMPOSITE_IDENTITY_FIELDS[i]);
    }
  }

  lemma PinningMoreStaysComposite(s: Fields, t: Fields)
    requires PinsAtLeast(t, s) && AssertComposite(s).Ok?
    ensures AssertComposite(t).Ok?
  {
    forall i | 0 <= i < |REQUIRED_SELECTOR_FIELDS| ensures Truthy(t, REQUIRED_SELECTOR_FIELDS[i]) {
      assert Truthy(s, REQUIRED_SELECTOR_FIELDS[i]);
    }
    var d :| 0 <= d < |DISCRIMINATOR_FIELDS| && Truthy(s, DISCRIMINATOR_FIELDS[d]);
    assert Truthy(t, DISCRIMINATOR_FIELDS[d]);
  }

  /** Pinning more fields keeps the interface, if it agrees with them, and otherwise resolves to nothing. */
  lemma PinningMoreNeverMoves(interfaces: seq<Interface>, s: Fields, t: Fields, x: Interface)
    requires Resolve(interfaces, Some(s)) == Ok(x) && PinsAtLeast(t, s)
    ensures Resolve(interfaces, Some(t)) == if Agrees(x.fields, t) then Ok(x) else Err(NoMatch)
  {
    PinningMoreStaysComposite(s, t);
    var i := OneMatch(interfaces, s);
    forall j | 0 <= j < |interfaces| && Agrees(interfaces[j].fields, t) ensures j == i {
      PinningMoreAgreesLess(interfaces[j].fields, s, t);
    }
    if Agrees(x.fields, t) {
      OnlyMatchIsMatching(interfaces, t, i);
    } else {
      NoneMatch(interfaces, t);
    }
  }

  /** `now` holds every entry of `before` at least as often, whatever the order. */
  predicate HoldsAtLeast(now: seq<Interface>, before: seq<Interface>) {
    multiset(before) <= multiset(now)
  }

  lemma SameCounts(before: seq<Interface>, now: seq<Interface>, s: Fields)
    requires multiset(now) == multiset(before)
    ensures multiset(Matching(now, s)) == multiset(Matching(before, s))
  {
    forall y ensures multiset(Matching(now, s))[y] == multiset(Matching(before, s))[y] {
      MatchingCounts(before, s, y);
      MatchingCounts(now, s, y);
    }
  }

  lemma StillMatches(before: seq<Interface>, now: seq<Interface>, s: Fields, x: Interface)
    requires Matching(before, s) == [x] && HoldsAtLeast(now, before)
    ensures x in Matching(now, s)
  {
    MatchingCounts(before, s, x);
    MatchingCounts(now, s, x);
    assert multiset(Matching(before, s))[x] == 1;
    assert multiset(before)[x] <= multiset(now)[x];
    assert x in multiset(Matching(now, s));
  }

  /** Adding and reordering entries keeps the interface, unless a new entry agrees too: then nothing resolves. */
  lemma AddingNeverMoves(before: seq<Interface>, now: seq<Interface>, s: Fields, x: Interface)
    requires Resolve(before, Some(s)) == Ok(x) && HoldsAtLeast(now, before)
    ensures Resolve(now, Some(s)) == Ok(x) || (Resolve(now, Some(s)).Err? && Resolve(now, Some(s)).error.Ambiguous?)
  {
    assert Matching(before, s) == [x];
    StillMatches(before, now, s, x);
  }

  /** Reordering the inventory changes nothing, not even the error. */
  lemma ReorderingNeverMoves(before: seq<Interface>, now: seq<Interface>, s: Option<Fields>)
    requires multiset(now) == multiset(before)
    ensures Resolve(now, s) == Resolve(before, s)
  {
    if s.Some? {
      SameCounts(before, now, s.value);
      var m, n := Matching(before, s.value), Matching(now, s.value);
      assert |multiset(m)| == |m| && |multiset(n)| == |n|;
      if |m| == 1 {
        assert m[0] in multiset(n);
      }
    }
  }

  /** The same hardware in the same order; keys, kernel names and whatever is outside the composite may differ. */
  predicate SameHardware(before: seq<Interface>, now: seq<Interface>) {
    |before| == |now| && forall i :: 0 <= i < |before| ==> CompositeKey(before[i].fields) == CompositeKey(now[i].fields)
  }

  lemma SameKeySameAgreement(x: Fields, y: Fields, s: Fields)
    requires CompositeKey(x) == CompositeKey(y)
    ensures Agrees(x, s) <==> Agrees(y, s)
  {
    AgreesByKey(x, s);
    AgreesByKey(y, s);
  }

  lemma SameHardwareAppend(a: seq<Interface>, b: seq<Interface>, x: Interface, y: Interface)
    requires SameHardware(a, b) && CompositeKey(x.fields) == CompositeKey(y.fields)
    ensures SameHardware(a + [x], b + [y])
  {
  }

  lemma {:induction false} SameHardwareMatches(before: seq<Interface>, now: seq<Interface>, s: Fields)
    requires SameHardware(before, now)
    ensures SameHardware(Matching(before, s), Matching(now, s))
  {
    if before != [] {
      var n := |before| - 1;
      var b, c := Matching(before[..n], s), Matching(now[..n], s);
      SameHardwareMatches(before[..n], now[..n], s);
      SameKeySameAgreement(before[n].fields, now[n].fields, s);
      SameHardwareAppend(b, c, before[n], now[n]);
      if Agrees(before[n].fields, s) {
        assert Matching(before, s) == b + [before[n]] && Matching(now, s) == c + [now[n]];
      } else {
        assert Matching(before, s) == b && Matching(now, s) == c;
      }
    }
  }

  /** Renaming interfaces changes neither whether an assignment resolves, nor to which hardware, nor the error. */
  lemma RenamingNeverMoves(before: seq<Interface>, now: seq<Interface>, s: Option<Fields>)
    requires SameHardware(before, now)
    ensures match (Resolve(before, s), Resolve(now, s))
            case (Ok(x), Ok(y)) => CompositeKey(x.fields) == CompositeKey(y.fields)
            case (Err(e), Err(f)) => e == f
            case _ => false
  {
    if s.Some? {
      SameHardwareMatches(before, now, s.value);
    }
  }

  lemma MatchingSnoc(before: seq<Interface>, y: Interface, t: Fields)
    ensures Matching(before + [y], t) == Matching(before, t) + if Agrees(y.fields, t) then [y] else []
  {
    assert (before + [y])[..|before|] == before;
  }

  /** Both at once can move it: the added entry takes over when the old one does not agree with what is newly pinned. */
  lemma AddingAndPinningMove(before: seq<Interface>, s: Fields, t: Fields, x: Interface, y: Interface)
    requires Resolve(before, Some(s)) == Ok(x) && PinsAtLeast(t, s)
    ensures Resolve(before + [y], Some(t)) == Ok(y) && y != x <==> Agrees(y.fields, t) && !Agrees(x.fields, t)
  {
    PinningMoreNeverMoves(before, s, t, x);
    PinningMoreStaysComposite(s, t);
    MatchingSnoc(before, y, t);
    if Agrees(x.fields, t) {
      assert Matching(before, t) == [x];
    } else {
      assert Matching(before, t) == [];
    }
  }

  lemma ExtendedAgrees(x: Fields, s: Fields)
    requires PinsAtLeast(x, s)
    ensures Agrees(x, s)
  {
    forall i | 0 <= i < |COMPOSITE_IDENTITY_FIELDS| ensures AgreesOn(x, s, COMPOSITE_IDENTITY_FIELDS[i]) {
    }
  }

  lemma SoleEntryResolves(x: Interface, s: Fields)
    requires AssertComposite(s).Ok? && Agrees(x.fields, s)
    ensures Resolve([x], Some(s)) == Ok(x)
  {
    assert OnlyMatch([x], s, 0);
    OnlyMatchIsMatching([x], s, 0);
  }

  lemma OtherValueDisagrees(x: Fields, t: Fields, name: string)
    requires name in COMPOSITE_IDENTITY_FIELDS && name in x && name in t && x[name] != t[name]
    ensures !Agrees(x, t) && CompositeKey(x) != CompositeKey(t)
  {
    var i :| 0 <= i < |COMPOSITE_IDENTITY_FIELDS| && COMPOSITE_IDENTITY_FIELDS[i] == name;
    assert !AgreesOn(x, t, COMPOSITE_IDENTITY_FIELDS[i]);
    assert CompositeKey(x)[i] != CompositeKey(t)[i];
  }

  /** Two interfaces that differ in one field no selector pinned: adding the second and pinning its value moves. */
  lemma PinningTheDifferenceMoves(s: Fields, name: string, x: Interface, y: Interface)
    requires AssertComposite(s).Ok? && name in COMPOSITE_IDENTITY_FIELDS && name !in s
    requires PinsAtLeast(x.fields, s) && name in x.fields
    requires PinsAtLeast(y.fields, s) && name in y.fields && x.fields[name] != y.fields[name]
    ensures var t := s[name := y.fields[name]];
            && PinsAtLeast(t, s) && DistinctKeys([x, y])
            && Resolve([x], Some(s)) == Ok(x) && Resolve([x] + [y], Some(t)) == Ok(y) && y != x
  {
    var t := s[name := y.fields[name]];
    ExtendedAgrees(x.fields, s);
    SoleEntryResolves(x, s);
    ExtendedAgrees(y.fields, t);
    OtherValueDisagrees(x.fields, t, name);
    OtherValueDisagrees(x.fields, y.fields, name);
    AddingAndPinningMove([x], s, t, x, y);
  }

  /** An inventory and two selectors for which it does: the two interfaces differ in their driver only. */
  lemma AddingAndPinningCanMove() returns (x: Interface, y: Interface, s: Fields, t: Fields)
    ensures s == map["bus_path" := "pci-0000:01:00.0", "permanent_mac" := "02:00:00:00:00:01", "pci_id" := "8086:1533"]
    ensures x.fields == s["driver" := "igb"] && y.fields == t == s["driver" := "vfio-pci"]
    ensures PinsAtLeast(t, s) && DistinctKeys([x, y])
    ensures Resolve([x], Some(s)) == Ok(x) && Resolve([x] + [y], Some(t)) == Ok(y) && y != x
  {
    s := map["bus_path" := "pci-0000:01:00.0", "permanent_mac" := "02:00:00:00:00:01", "pci_id" := "8086:1533"];
    t := s["driver" := "vfio-pci"];
    x, y := Interface("lan0", s["driver" := "igb"], None), Interface("lan1", t, None);
    assert COMPOSITE_IDENTITY_FIELDS[5] == "driver";
    RequiredOfSample(s);
    PinningTheDifferenceMoves(s, "driver", x, y);
  }

  lemma RequiredOfSample(s: Fields)
    requires "bus_path" in s && "permanent_mac" in s && "pci_id" in s
    requires s["bus_path"] != "" && s["permanent_mac"] != "" && s["pci_id"] != ""
    ensures AssertComposite(s).Ok?
  {
    assert REQUIRED_SELECTOR_FIELDS[0] == "bus_path" && REQUIRED_SELECTOR_FIELDS[1] == "permanent_mac";
    assert Truthy(s, DISCRIMINATOR_FIELDS[0]);
  }

  // ----- two selectors -----

  /** Two selectors that resolve to one interface agree wherever both pin a field of the composite identity. */
  lemma SelectorsOfOneInterfaceAgree(
      a: seq<Interface>, s: Fields, b: seq<Interface>, t: Fields, x: Interface, y: Interface, name: string)
    requires Resolve(a, Some(s)) == Ok(x) && Resolve(b, Some(t)) == Ok(y)
    requires CompositeKey(x.fields) == CompositeKey(y.fields)
    requires name in COMPOSITE_IDENTITY_FIELDS && name in s && name in t
    ensures s[name] == t[name]
  {
    var i := OneMatch(a, s);
    var j := OneMatch(b, t);
    SameKeySameAgreement(x.fields, y.fields, t);
    var k :| 0 <= k < |COMPOSITE_IDENTITY_FIELDS| && COMPOSITE_IDENTITY_FIELDS[k] == name;
    assert AgreesOn(x.fields, s, COMPOSITE_IDENTITY_FIELDS[k]) && AgreesOn(x.fields, t, COMPOSITE_IDENTITY_FIELDS[k]);
  }

  // ----- which interfaces can be commissioned at all -----

  /** The selector that pins everything the composite identity of `x` carries. */
  function OwnSelector(x: Fields): (s: Fields)
    ensures forall name :: name in s <==> name in x && name in COMPOSITE_IDENTITY_FIELDS
    ensures forall name :: name in s ==> s[name] == x[name]
  {
    map name | name in x && name in COMPOSITE_IDENTITY_FIELDS :: x[name]
  }

  /** The rule of `HardwareInventory` on its interfaces. */
  predicate DistinctKeys(interfaces: seq<Interface>) {
    forall i, j :: 0 <= i < j < |interfaces| ==>
      CompositeKey(interfaces[i].fields) != CompositeKey(interfaces[j].fields)
  }

  lemma RequiredAndDiscriminatorsAreComposite(name: string)
    requires name in REQUIRED_SELECTOR_FIELDS || name in DISCRIMINATOR_FIELDS
    ensures name in COMPOSITE_IDENTITY_FIELDS
  {
    assert COMPOSITE_IDENTITY_FIELDS[0] == "bus_path" && COMPOSITE_IDENTITY_FIELDS[1] == "permanent_mac";
    assert COMPOSITE_IDENTITY_FIELDS[2] == "pci_id" && COMPOSITE_IDENTITY_FIELDS[3] == "usb_vid_pid";
    assert COMPOSITE_IDENTITY_FIELDS[4] == "serial";
  }

  lemma OwnSelectorIsComposite(x: Fields)
    ensures AssertComposite(OwnSelector(x)).Ok? <==> AssertComposite(x).Ok?
  {
    forall i | 0 <= i < |REQUIRED_SELECTOR_FIELDS|
      ensures Truthy(OwnSelector(x), REQUIRED_SELECTOR_FIELDS[i]) <==> Truthy(x, REQUIRED_SELECTOR_FIELDS[i])
    {
      RequiredAndDiscriminatorsAreComposite(REQUIRED_SELECTOR_FIELDS[i]);
    }
    forall i | 0 <= i < |DISCRIMINATOR_FIELDS|
      ensures Truthy(OwnSelector(x), DISCRIMINATOR_FIELDS[i]) <==> Truthy(x, DISCRIMINATOR_FIELDS[i])
    {
      RequiredAndDiscriminatorsAreComposite(DISCRIMINATOR_FIELDS[i]);
    }
  }

  lemma AgreeingSelectorIsComposite(x: Fields, s: Fields)
    requires Agrees(x, s) && AssertComposite(s).Ok?
    ensures AssertComposite(x).Ok?
  {
    forall i | 0 <= i < |REQUIRED_SELECTOR_FIELDS| ensures Truthy(x, REQUIRED_SELECTOR_FIELDS[i]) {
      PinnedByAgreement(x, s, REQUIRED_SELECTOR_FIELDS[i]);
    }
    var d :| 0 <= d < |DISCRIMINATOR_FIELDS| && Truthy(s, DISCRIMINATOR_FIELDS[d]);
    PinnedByAgreement(x, s, DISCRIMINATOR_FIELDS[d]);
  }

  lemma PinnedByAgreement(x: Fields, s: Fields, name: string)
    requires name in REQUIRED_SELECTOR_FIELDS || name in DISCRIMINATOR_FIELDS
    requires Agrees(x, s) && Truthy(s, name)
    ensures Truthy(x, name)
  {
    RequiredAndDiscriminatorsAreComposite(name);
    var k :| 0 <= k < |COMPOSITE_IDENTITY_FIELDS| && COMPOSITE_IDENTITY_FIELDS[k] == name;
    assert AgreesOn(x, s, COMPOSITE_IDENTITY_FIELDS[k]);
  }

  /** Whatever agrees with `x`'s own selector agrees with every selector `x` agrees with. */
  lemma OwnSelectorIsTightest(x: Fields, y: Fields, s: Fields)
    requires Agrees(x, s) && Agrees(y, OwnSelector(x))
    ensures Agrees(y, s)
  {
    forall i | 0 <= i < |COMPOSITE_IDENTITY_FIELDS| ensures AgreesOn(y, s, COMPOSITE_IDENTITY_FIELDS[i]) {
      var name := COMPOSITE_IDENTITY_FIELDS[i];
      assert AgreesOn(x, s, COMPOSITE_IDENTITY_FIELDS[i]);
      assert AgreesOn(y, OwnSelector(x), COMPOSITE_IDENTITY_FIELDS[i]);
    }
  }

  lemma AgreesWithOwn(x: Fields)
    ensures Agrees(x, OwnSelector(x))
  {
  }

  /**
   An inventory entry can be commissioned by some selector exactly when it has a composite identity and no
   other entry carries all of it. Distinct keys are not enough: an entry that has everything `x` has, and
   more, leaves `x` without any selector.
   */
  lemma CommissionableExactlyWhen(interfaces: seq<Interface>, i: nat)
    requires i < |interfaces|
    ensures (exists s :: AssertComposite(s).Ok? && OnlyMatch(interfaces, s, i)) <==>
            && AssertComposite(interfaces[i].fields).Ok?
            && forall j :: 0 <= j < |interfaces| && j != i ==>
                 !Agrees(interfaces[j].fields, OwnSelector(interfaces[i].fields))
  {
    var x := interfaces[i].fields;
    var mine := OwnSelector(x);
    AgreesWithOwn(x);
    OwnSelectorIsComposite(x);
    if s :| AssertComposite(s).Ok? && OnlyMatch(interfaces, s, i) {
      AgreeingSelectorIsComposite(x, s);
      forall j | 0 <= j < |interfaces| && j != i ensures !Agrees(interfaces[j].fields, mine) {
        if Agrees(interfaces[j].fields, mine) {
          OwnSelectorIsTightest(x, interfaces[j].fields, s);
        }
      }
    }
    if AssertComposite(x).Ok? && forall j :: 0 <= j < |interfaces| && j != i ==> !Agrees(interfaces[j].fields, mine) {
      assert OnlyMatch(interfaces, mine, i);
    }
  }

  lemma MoreFieldsStillAgree(x: Fields, y: Fields, s: Fields)
    requires PinsAtLeast(y, x) && Agrees(x, s)
    ensures Agrees(y, s)
  {
    forall k | 0 <= k < |COMPOSITE_IDENTITY_FIELDS| ensures AgreesOn(y, s, COMPOSITE_IDENTITY_FIELDS[k]) {
      assert AgreesOn(x, s, COMPOSITE_IDENTITY_FIELDS[k]);
    }
  }

  /** A recordable inventory whose first entry no selector reaches: the second has all it has, and more. */
  lemma ShadowedEntryHasNoSelector(a: Interface, b: Interface, s: Fields)
    requires "firmware_version" !in a.fields && b.fields == a.fields["firmware_version" := "1.0"]
    ensures DistinctKeys([a, b])
    ensures Resolve([a, b], Some(s)) != Ok(a)
  {
    assert COMPOSITE_IDENTITY_FIELDS[6] == "firmware_version";
    assert CompositeKey(a.fields)[6] != CompositeKey(b.fields)[6];
    if |Matching([a, b], s)| == 1 {
      var i := OneMatch([a, b], s);
      if Agrees(a.fields, s) {
        MoreFieldsStillAgree(a.fields, b.fields, s);
      }
    }
  }

  predicate FullyIdentified(x: Fields) {
    forall k :: 0 <= k < |COMPOSITE_IDENTITY_FIELDS| ==> COMPOSITE_IDENTITY_FIELDS[k] in x
  }

  lemma SameKeyAsFull(x: Fields, y: Fields)
    requires FullyIdentified(x) && Agrees(y, OwnSelector(x))
    ensures CompositeKey(y) == CompositeKey(x)
  {
    forall k | 0 <= k < |COMPOSITE_IDENTITY_FIELDS| ensures CompositeKey(y)[k] == CompositeKey(x)[k] {
      assert AgreesOn(y, OwnSelector(x), COMPOSITE_IDENTITY_FIELDS[k]);
    }
  }

  /** With distinct keys, an entry that carries every composite field can always be commissioned. */
  lemma FullyIdentifiedIsCommissionable(interfaces: seq<Interface>, i: nat)
    requires DistinctKeys(interfaces) && i < |interfaces| && AssertComposite(interfaces[i].fields).Ok?
    requires FullyIdentified(interfaces[i].fields)
    ensures Resolve(interfaces, Some(OwnSelector(interfaces[i].fields))) == Ok(interfaces[i])
  {
    var x := interfaces[i].fields;
    var mine := OwnSelector(x);
    AgreesWithOwn(x);
    OwnSelectorIsComposite(x);
    forall j | 0 <= j < |interfaces| && j != i ensures !Agrees(interfaces[j].fields, mine) {
      if Agrees(interfaces[j].fields, mine) {
        SameKeyAsFull(x, interfaces[j].fields);
        assert false;
      }
    }
    OnlyMatchIsMatching(interfaces, mine, i);
  }
}
