/**
 JSON values as Python holds them after `json.loads` or `model_dump(mode="json")`: a dict is a list of
 members in insertion order with distinct keys. Two dicts are equal whatever that order is, so equality
 of values is the relation `Same`, not `==`.
 */
module Json {
  import opened Outcomes
  import opened Numerals
  import opened PyText

  /** The three floats that have no JSON text of their own. */
  datatype Special = NaN | PositiveInfinity | NegativeInfinity

  /** A finite float is carried as text: its `repr`, or the number text it was parsed from. */
  datatype Json =
    | Null
    | Bool(b: bool)
    | Int(n: int)
    | Float(lexeme: string)
    | NonFinite(kind: Special)
    | Str(s: string)
    | Arr(items: seq<Json>)
    | Obj(members: seq<Member>)

  datatype Member = Member(key: string, val: Json)

  type Dict = seq<Member>

  ghost predicate UniqueKeys(ms: Dict) {
    forall i, j :: 0 <= i < j < |ms| ==> ms[i].key != ms[j].key
  }

  /** What every value built by Python satisfies: distinct keys in every dict, floats printed as floats. */
  ghost predicate WellFormed(v: Json) {
    match v
    case Float(lexeme) => IsFloatLexeme(lexeme)
    case Arr(items) => forall i :: 0 <= i < |items| ==> WellFormed(items[i])
    case Obj(members) => UniqueKeys(members) && forall i :: 0 <= i < |members| ==> WellFormed(members[i].val)
    case _ => true
  }

  ghost predicate WellFormedDict(ms: Dict) {
    UniqueKeys(ms) && forall i :: 0 <= i < |ms| ==> WellFormed(ms[i].val)
  }

  // ----- dict operations -----

  predicate HasKey(ms: Dict, k: string) {
    exists i :: 0 <= i < |ms| && ms[i].key == k
  }

  /** `d.get(k)`. */
  function Get(ms: Dict, k: string): (v: Option<Json>)
    ensures v.Some? <==> HasKey(ms, k)
    ensures v.Some? ==> Member(k, v.value) in ms
  {
    if ms == [] then None
    else if ms[0].key == k then
      assert ms[0] == Member(k, ms[0].val);
      Some(ms[0].val)
    else
      var r := Get(ms[1..], k);
      assert HasKey(ms[1..], k) ==> HasKey(ms, k) by {
        if HasKey(ms[1..], k) {
          var i :| 0 <= i < |ms[1..]| && ms[1..][i].key == k;
          assert ms[i + 1].key == k;
        }
      }
      assert HasKey(ms, k) ==> HasKey(ms[1..], k) by {
        if HasKey(ms, k) {
          var i :| 0 <= i < |ms| && ms[i].key == k;
          assert ms[1..][i - 1].key == k;
        }
      }
      r
  }

  /** `d[k] = v`: an existing key keeps its place, a new key goes last. */
  function Set(ms: Dict, k: string, v: Json): Dict {
    if ms == [] then [Member(k, v)]
    else if ms[0].key == k then [Member(k, v)] + ms[1..]
    else [ms[0]] + Set(ms[1..], k, v)
  }

  /** `d.pop(k, None)`. */
  function Pop(ms: Dict, k: string): Dict {
    if ms == [] then []
    else if ms[0].key == k then ms[1..]
    else [ms[0]] + Pop(ms[1..], k)
  }

  /** The members of `ms` whose key is not among `names`. */
  function Without(ms: Dict, names: set<string>): Dict {
    if ms == [] then []
    else if ms[0].key in names then Without(ms[1..], names)
    else [ms[0]] + Without(ms[1..], names)
  }

  lemma GetOfMember(ms: Dict, m: Member)
    requires UniqueKeys(ms) && m in ms
    ensures Get(ms, m.key) == Some(m.val)
  {
    var i :| 0 <= i < |ms| && ms[i] == m;
    assert HasKey(ms, m.key);
    var w := Get(ms, m.key).value;
    var j :| 0 <= j < |ms| && ms[j] == Member(m.key, w);
    assert i == j;
  }

  lemma TailKeys(ms: Dict)
    requires UniqueKeys(ms) && ms != []
    ensures UniqueKeys(ms[1..]) && forall m :: m in ms[1..] ==> m.key != ms[0].key && m in ms
  {
  }

  lemma {:induction false} SetContents(ms: Dict, k: string, v: Json, m: Member)
    requires UniqueKeys(ms)
    ensures m in Set(ms, k, v) <==> m == Member(k, v) || (m in ms && m.key != k)
  {
    if ms != [] {
      TailKeys(ms);
      assert ms == [ms[0]] + ms[1..];
      if ms[0].key != k {
        SetContents(ms[1..], k, v, m);
      }
    }
  }

  lemma {:induction false} SetMembers(ms: Dict, k: string, v: Json)
    requires UniqueKeys(ms)
    ensures UniqueKeys(Set(ms, k, v))
    ensures forall m :: m in Set(ms, k, v) <==> m == Member(k, v) || (m in ms && m.key != k)
  {
    forall m ensures m in Set(ms, k, v) <==> m == Member(k, v) || (m in ms && m.key != k) {
      SetContents(ms, k, v, m);
    }
    if ms != [] && ms[0].key != k {
      TailKeys(ms);
      SetMembers(ms[1..], k, v);
      var r := Set(ms[1..], k, v);
      forall j | 0 <= j < |r| ensures r[j].key != ms[0].key {
        assert r[j] in r;
      }
    }
  }

  lemma {:induction false} WithoutMembers(ms: Dict, names: set<string>)
    requires UniqueKeys(ms)
    ensures UniqueKeys(Without(ms, names))
    ensures forall m :: m in Without(ms, names) <==> m in ms && m.key !in names
  {
    if ms == [] {
    } else {
      WithoutMembers(ms[1..], names);
      var r := Without(ms[1..], names);
      forall j | 0 <= j < |r| ensures r[j].key != ms[0].key {
        assert r[j] in r;
        var i :| 0 <= i < |ms[1..]| && ms[1..][i] == r[j];
        assert ms[i + 1].key != ms[0].key;
      }
    }
  }

  lemma {:induction false} WithoutNothing(ms: Dict)
    ensures Without(ms, {}) == ms
  {
    if ms != [] {
      WithoutNothing(ms[1..]);
    }
  }

  lemma {:induction false} WithoutAbsent(ms: Dict, k: string)
    requires forall i :: 0 <= i < |ms| ==> ms[i].key != k
    ensures Without(ms, {k}) == ms
  {
    if ms != [] {
      WithoutAbsent(ms[1..], k);
    }
  }

  /** Popping one key after a group of keys is dropping the larger group. */
  lemma {:induction false} PopIsWithout(ms: Dict, names: set<string>, k: string)
    requires UniqueKeys(ms)
    ensures Pop(Without(ms, names), k) == Without(ms, names + {k})
  {
    if ms == [] {
    } else if ms[0].key in names {
      PopIsWithout(ms[1..], names, k);
    } else if ms[0].key == k {
      WithoutMore(ms[1..], names, k);
    } else {
      PopIsWithout(ms[1..], names, k);
      assert Without(ms, names)[1..] == Without(ms[1..], names);
    }
  }

  lemma {:induction false} WithoutMore(ms: Dict, names: set<string>, k: string)
    requires forall i :: 0 <= i < |ms| ==> ms[i].key != k
    ensures Without(ms, names + {k}) == Without(ms, names)
  {
    if ms != [] {
      WithoutMore(ms[1..], names, k);
    }
  }

  lemma {:induction false} WithoutSet(ms: Dict, names: set<string>, k: string, v: Json)
    requires k in names
    ensures Without(Set(ms, k, v), names) == Without(ms, names)
  {
    if ms == [] {
    } else if ms[0].key == k {
      assert Set(ms, k, v)[1..] == ms[1..];
    } else {
      WithoutSet(ms[1..], names, k, v);
      assert Set(ms, k, v)[1..] == Set(ms[1..], k, v);
    }
  }

  lemma {:induction false} SetSet(ms: Dict, k: string, v: Json, w: Json)
    ensures Set(Set(ms, k, v), k, w) == Set(ms, k, w)
  {
    if ms == [] {
    } else if ms[0].key == k {
    } else {
      SetSet(ms[1..], k, v, w);
      assert Set(ms, k, v)[1..] == Set(ms[1..], k, v);
    }
  }

  lemma {:induction false} GetSet(ms: Dict, k: string, v: Json)
    ensures Get(Set(ms, k, v), k) == Some(v)
  {
    if ms == [] {
    } else if ms[0].key == k {
    } else {
      GetSet(ms[1..], k, v);
      assert Set(ms, k, v)[1..] == Set(ms[1..], k, v);
    }
  }

  lemma {:induction false} GetSetOther(ms: Dict, k: string, v: Json, j: string)
    requires j != k
    ensures Get(Set(ms, k, v), j) == Get(ms, j)
  {
    if ms != [] && ms[0].key != k {
      GetSetOther(ms[1..], k, v, j);
      assert Set(ms, k, v)[1..] == Set(ms[1..], k, v);
    } else if ms != [] {
      assert Set(ms, k, v)[1..] == ms[1..];
    }
  }

  // ----- equality of values -----

  /** Equality of values, with dicts compared as mappings. */
  ghost predicate Same(a: Json, b: Json)
    decreases a
  {
    match a
    case Arr(xs) =>
      && b.Arr?
      && |xs| == |b.items|
      && forall i :: 0 <= i < |xs| ==> Same(xs[i], b.items[i])
    case Obj(ms) =>
      && b.Obj?
      && SameKeys(ms, b.members)
      && forall i, j :: 0 <= i < |ms| && 0 <= j < |b.members| && ms[i].key == b.members[j].key ==>
           Same(ms[i].val, b.members[j].val)
    case _ => a == b
  }

  ghost predicate SameKeys(ms: Dict, ns: Dict) {
    && (forall i :: 0 <= i < |ms| ==> HasKey(ns, ms[i].key))
    && (forall j :: 0 <= j < |ns| ==> HasKey(ms, ns[j].key))
  }

  // ----- sorted keys -----

  predicate SortedKeys(ms: Dict) {
    forall i, j :: 0 <= i < j < |ms| ==> Less(ms[i].key, ms[j].key)
  }

  function Insert(m: Member, ms: Dict): Dict {
    if ms == [] || Less(m.key, ms[0].key) then [m] + ms
    else [ms[0]] + Insert(m, ms[1..])
  }

  /** The members in code-point order of their keys, as `sort_keys=True` visits them. */
  function Sort(ms: Dict): Dict {
    if ms == [] then [] else Insert(ms[0], Sort(ms[1..]))
  }

  lemma {:induction false} InsertMembers(m: Member, ms: Dict)
    ensures forall x :: x in Insert(m, ms) <==> x == m || x in ms
  {
    if ms == [] || Less(m.key, ms[0].key) {
    } else {
      InsertMembers(m, ms[1..]);
    }
  }

  lemma {:induction false} SortMembers(ms: Dict)
    ensures forall x :: x in Sort(ms) <==> x in ms
  {
    if ms == [] {
    } else {
      SortMembers(ms[1..]);
      InsertMembers(ms[0], Sort(ms[1..]));
    }
  }

  lemma {:induction false} InsertSorted(m: Member, ms: Dict)
    requires SortedKeys(ms) && forall i :: 0 <= i < |ms| ==> ms[i].key != m.key
    ensures SortedKeys(Insert(m, ms))
  {
    if ms == [] {
    } else if Less(m.key, ms[0].key) {
      forall j | 0 < j < |ms| ensures Less(m.key, ms[j].key) {
        LessTransitive(m.key, ms[0].key, ms[j].key);
      }
    } else {
      InsertSorted(m, ms[1..]);
      InsertMembers(m, ms[1..]);
      LessTotal(m.key, ms[0].key);
      var r := Insert(m, ms[1..]);
      forall j | 0 <= j < |r| ensures Less(ms[0].key, r[j].key) {
        assert r[j] in r;
      }
    }
  }

  lemma {:induction false} SortSorted(ms: Dict)
    requires UniqueKeys(ms)
    ensures SortedKeys(Sort(ms))
  {
    if ms != [] {
      SortSorted(ms[1..]);
      SortMembers(ms[1..]);
      var r := Sort(ms[1..]);
      forall i | 0 <= i < |r| ensures r[i].key != ms[0].key {
        assert r[i] in r;
      }
      InsertSorted(ms[0], r);
    }
  }

  lemma SortedIsUnique(ms: Dict)
    requires SortedKeys(ms)
    ensures UniqueKeys(ms)
  {
    forall i, j | 0 <= i < j < |ms| ensures ms[i].key != ms[j].key {
      LessIrreflexive(ms[i].key);
    }
  }

  lemma FirstIsMember(ms: Dict)
    ensures ms == [] || ms[0] in ms
  {
  }

  /** Two dicts in key order with the same members are the same list. */
  lemma {:induction false} SortedUnique(ms: Dict, ns: Dict)
    requires SortedKeys(ms) && SortedKeys(ns)
    requires forall x :: x in ms <==> x in ns
    ensures ms == ns
  {
    FirstIsMember(ns);
    if ms != [] {
      assert ms[0] in ns;
      var i :| 0 <= i < |ns| && ns[i] == ms[0];
      assert ns[0] in ms;
      var j :| 0 <= j < |ms| && ms[j] == ns[0];
      if i > 0 {
        assert Less(ns[0].key, ms[0].key);
        if j > 0 { LessTransitive(ns[0].key, ms[0].key, ns[0].key); }
        LessIrreflexive(ns[0].key);
        assert false;
      }
      TailMembers(ms);
      TailMembers(ns);
      SortedUnique(ms[1..], ns[1..]);
    }
  }

  lemma TailMembers(ms: Dict)
    requires SortedKeys(ms) && ms != []
    ensures forall x :: x in ms[1..] <==> x in ms && x != ms[0]
  {
    forall i | 0 < i < |ms| ensures ms[i] != ms[0] {
      LessIrreflexive(ms[0].key);
    }
  }

  /** The value with the members of every dict in key order: what `sort_keys=True` prints. */
  function SortKeys(v: Json): (r: Json)
    decreases v, 0
  {
    match v
    case Arr(items) => Arr(SortItems(items))
    case Obj(members) => Obj(Sort(SortValues(members)))
    case _ => v
  }

  function SortItems(items: seq<Json>): (r: seq<Json>)
    ensures |r| == |items|
    ensures forall i :: 0 <= i < |items| ==> r[i] == SortKeys(items[i])
    decreases items, 1
  {
    if items == [] then [] else [SortKeys(items[0])] + SortItems(items[1..])
  }

  function SortValues(ms: Dict): (r: Dict)
    ensures |r| == |ms|
    ensures forall i :: 0 <= i < |ms| ==> r[i] == Member(ms[i].key, SortKeys(ms[i].val))
    decreases ms, 1
  {
    if ms == [] then [] else [Member(ms[0].key, SortKeys(ms[0].val))] + SortValues(ms[1..])
  }

  lemma SortedMemberOf(ms: Dict, i: nat)
    requires i < |ms|
    ensures Member(ms[i].key, SortKeys(ms[i].val)) in SortKeys(Obj(ms)).members
  {
    SortMembers(SortValues(ms));
    assert SortValues(ms)[i] in SortValues(ms);
  }

  lemma SortedMemberFrom(ms: Dict, x: Member) returns (i: nat)
    requires x in SortKeys(Obj(ms)).members
    ensures i < |ms| && x == Member(ms[i].key, SortKeys(ms[i].val))
  {
    SortMembers(SortValues(ms));
    i :| 0 <= i < |ms| && SortValues(ms)[i] == x;
  }

  lemma SortKeysSorted(ms: Dict)
    requires UniqueKeys(ms)
    ensures SortedKeys(SortKeys(Obj(ms)).members)
  {
    SortSorted(SortValues(ms));
  }

  lemma IncludedMembers(ms: Dict, ns: Dict)
    requires SameKeys(ms, ns)
    requires forall i, j :: 0 <= i < |ms| && 0 <= j < |ns| && ms[i].key == ns[j].key ==>
               SortKeys(ms[i].val) == SortKeys(ns[j].val)
    ensures forall x :: x in SortKeys(Obj(ms)).members ==> x in SortKeys(Obj(ns)).members
  {
    forall x | x in SortKeys(Obj(ms)).members ensures x in SortKeys(Obj(ns)).members {
      var i := SortedMemberFrom(ms, x);
      var j :| 0 <= j < |ns| && ns[j].key == ms[i].key;
      SortedMemberOf(ns, j);
    }
  }

  /** Two values are equal, dicts as mappings, exactly when sorting their keys gives one tree. */
  lemma {:induction false} SortKeysDecidesSame(a: Json, b: Json)
    requires WellFormed(a) && WellFormed(b)
    ensures Same(a, b) <==> SortKeys(a) == SortKeys(b)
    decreases a
  {
    match a {
      case Arr(xs) =>
        if b.Arr? && |xs| == |b.items| {
          forall i | 0 <= i < |xs| ensures Same(xs[i], b.items[i]) <==> SortKeys(xs[i]) == SortKeys(b.items[i]) {
            SortKeysDecidesSame(xs[i], b.items[i]);
          }
          var sx, sy := SortItems(xs), SortItems(b.items);
          assert sx == sy <==> forall i :: 0 <= i < |xs| ==> sx[i] == sy[i];
        }
      case Obj(ms) =>
        if b.Obj? {
          var ns := b.members;
          forall i, j | 0 <= i < |ms| && 0 <= j < |ns|
            ensures Same(ms[i].val, ns[j].val) <==> SortKeys(ms[i].val) == SortKeys(ns[j].val)
          {
            SortKeysDecidesSame(ms[i].val, ns[j].val);
          }
          SortKeysDecidesSameDict(ms, ns);
        }
      case _ =>
    }
  }

  lemma EqualSortedSameKeys(ms: Dict, ns: Dict)
    requires SortKeys(Obj(ms)) == SortKeys(Obj(ns))
    ensures SameKeys(ms, ns)
  {
    forall i | 0 <= i < |ms| ensures HasKey(ns, ms[i].key) {
      SortedMemberOf(ms, i);
      var j := SortedMemberFrom(ns, Member(ms[i].key, SortKeys(ms[i].val)));
    }
    forall j | 0 <= j < |ns| ensures HasKey(ms, ns[j].key) {
      SortedMemberOf(ns, j);
      var i := SortedMemberFrom(ms, Member(ns[j].key, SortKeys(ns[j].val)));
    }
  }

  /** Lists with the same members, once their values are sorted, sort to one list. */
  lemma SameMembersSortAlike(ms: Dict, ns: Dict)
    requires UniqueKeys(ms) && UniqueKeys(ns) && SameKeys(ms, ns)
    requires forall i, j :: 0 <= i < |ms| && 0 <= j < |ns| && ms[i].key == ns[j].key ==>
               SortKeys(ms[i].val) == SortKeys(ns[j].val)
    ensures SortKeys(Obj(ms)) == SortKeys(Obj(ns))
  {
    IncludedMembers(ms, ns);
    IncludedMembers(ns, ms);
    SortKeysSorted(ms);
    SortKeysSorted(ns);
    SortedUnique(SortKeys(Obj(ms)).members, SortKeys(Obj(ns)).members);
  }

  lemma SortKeysDecidesSameDict(ms: Dict, ns: Dict)
    requires UniqueKeys(ms) && UniqueKeys(ns)
    requires forall i, j :: 0 <= i < |ms| && 0 <= j < |ns| ==>
               (Same(ms[i].val, ns[j].val) <==> SortKeys(ms[i].val) == SortKeys(ns[j].val))
    ensures Same(Obj(ms), Obj(ns)) <==> SortKeys(Obj(ms)) == SortKeys(Obj(ns))
  {
    if Same(Obj(ms), Obj(ns)) {
      SameMembersSortAlike(ms, ns);
    }
    if SortKeys(Obj(ms)) == SortKeys(Obj(ns)) {
      EqualSortedSameKeys(ms, ns);
      forall i, j | 0 <= i < |ms| && 0 <= j < |ns| && ms[i].key == ns[j].key
        ensures Same(ms[i].val, ns[j].val)
      {
        SortedMemberOf(ms, i);
        var k := SortedMemberFrom(ns, Member(ms[i].key, SortKeys(ms[i].val)));
        assert k == j;
      }
    }
  }

  /** Sorting keys keeps a value well formed and equal to itself. */
  lemma {:induction false} SortKeysWellFormed(v: Json)
    requires WellFormed(v)
    ensures WellFormed(SortKeys(v))
    decreases v
  {
    match v {
      case Arr(items) =>
        forall i | 0 <= i < |items| ensures WellFormed(SortItems(items)[i]) {
          SortKeysWellFormed(items[i]);
        }
      case Obj(ms) =>
        SortKeysSorted(ms);
        SortedIsUnique(SortKeys(v).members);
        var r := SortKeys(v).members;
        forall k | 0 <= k < |r| ensures WellFormed(r[k].val) {
          assert r[k] in r;
          var i := SortedMemberFrom(ms, r[k]);
          SortKeysWellFormed(ms[i].val);
        }
      case _ =>
    }
  }

  /** Sorting keys twice is sorting them once. */
  lemma {:induction false} SortKeysIdempotent(v: Json)
    requires WellFormed(v)
    ensures SortKeys(SortKeys(v)) == SortKeys(v)
    decreases v
  {
    match v {
      case Arr(items) =>
        var r := SortItems(items);
        forall i | 0 <= i < |items| ensures SortItems(r)[i] == r[i] {
          SortKeysIdempotent(items[i]);
        }
        assert SortItems(r) == r;
      case Obj(ms) =>
        var r := SortKeys(v).members;
        forall k | 0 <= k < |r| ensures SortValues(r)[k] == r[k] {
          assert r[k] in r;
          var i := SortedMemberFrom(ms, r[k]);
          SortKeysIdempotent(ms[i].val);
        }
        assert SortValues(r) == r;
        SortKeysSorted(ms);
        SortOfSorted(r);
      case _ =>
    }
  }

  lemma {:induction false} SortOfSorted(ms: Dict)
    requires SortedKeys(ms)
    ensures Sort(ms) == ms
  {
    if ms != [] {
      SortOfSorted(ms[1..]);
      assert Sort(ms) == Insert(ms[0], ms[1..]);
    }
  }

  lemma SameReflexive(v: Json)
    requires WellFormed(v)
    ensures Same(v, v)
  {
    SortKeysDecidesSame(v, v);
  }

  lemma SortKeysSame(v: Json)
    requires WellFormed(v)
    ensures Same(v, SortKeys(v))
  {
    SortKeysWellFormed(v);
    SortKeysIdempotent(v);
    SortKeysDecidesSame(v, SortKeys(v));
  }

  lemma SameSymmetric(a: Json, b: Json)
    requires WellFormed(a) && WellFormed(b) && Same(a, b)
    ensures Same(b, a)
  {
    SortKeysDecidesSame(a, b);
    SortKeysDecidesSame(b, a);
  }

  lemma SameTransitive(a: Json, b: Json, c: Json)
    requires WellFormed(a) && WellFormed(b) && WellFormed(c) && Same(a, b) && Same(b, c)
    ensures Same(a, c)
  {
    SortKeysDecidesSame(a, b);
    SortKeysDecidesSame(b, c);
    SortKeysDecidesSame(a, c);
  }

  ghost predicate SameLookup(a: Option<Json>, b: Option<Json>) {
    match (a, b)
    case (None, None) => true
    case (Some(x), Some(y)) => Same(x, y)
    case _ => false
  }

  ghost predicate SameLookups(ms: Dict, ns: Dict) {
    forall k :: SameLookup(Get(ms, k), Get(ns, k))
  }

  /** Two dicts are equal as mappings exactly when they answer every lookup alike. */
  lemma SameDictByLookup(ms: Dict, ns: Dict)
    requires WellFormedDict(ms) && WellFormedDict(ns)
    ensures Same(Obj(ms), Obj(ns)) <==> SameLookups(ms, ns)
  {
    if Same(Obj(ms), Obj(ns)) {
      forall k ensures SameLookup(Get(ms, k), Get(ns, k)) {
        LookupsAgree(ms, ns, k);
      }
    }
    if SameLookups(ms, ns) {
      LookupsGiveSame(ms, ns);
    }
  }

  lemma LookupsAgree(ms: Dict, ns: Dict, k: string)
    requires UniqueKeys(ms) && UniqueKeys(ns) && Same(Obj(ms), Obj(ns))
    ensures SameLookup(Get(ms, k), Get(ns, k))
  {
    if HasKey(ns, k) {
      var j :| 0 <= j < |ns| && ns[j].key == k;
      assert HasKey(ms, ns[j].key);
    }
    if HasKey(ms, k) {
      var i :| 0 <= i < |ms| && ms[i].key == k;
      GetOfMember(ms, ms[i]);
      var j :| 0 <= j < |ns| && ns[j].key == k;
      GetOfMember(ns, ns[j]);
    }
  }

  lemma LookupsGiveSame(ms: Dict, ns: Dict)
    requires UniqueKeys(ms) && UniqueKeys(ns) && SameLookups(ms, ns)
    ensures Same(Obj(ms), Obj(ns))
  {
    forall i | 0 <= i < |ms| ensures HasKey(ns, ms[i].key) {
      assert HasKey(ms, ms[i].key);
      assert SameLookup(Get(ms, ms[i].key), Get(ns, ms[i].key));
    }
    forall j | 0 <= j < |ns| ensures HasKey(ms, ns[j].key) {
      assert HasKey(ns, ns[j].key);
      assert SameLookup(Get(ms, ns[j].key), Get(ns, ns[j].key));
    }
    forall i, j | 0 <= i < |ms| && 0 <= j < |ns| && ms[i].key == ns[j].key
      ensures Same(ms[i].val, ns[j].val)
    {
      GetOfMember(ms, ms[i]);
      GetOfMember(ns, ns[j]);
      assert SameLookup(Get(ms, ms[i].key), Get(ns, ms[i].key));
    }
  }
}
