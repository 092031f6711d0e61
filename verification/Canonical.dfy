/** Canonical JSON bytes: what every digest and signature of the repository is computed over. */
module Canonical {
  import opened Outcomes
  import opened Json
  import opened JsonText
  import opened JsonParser
  import opened JsonRoundTrip
  import opened Walkers
  import Utf8

  /** `canonical_contract_bytes`: refused exactly when a NaN or an infinity is inside. */
  function CanonicalBytes(v: Json): (r: Result<Utf8.Bytes, TextError>)
    ensures r.Ok? <==> Finite(v)
  {
    match CanonicalText(v)
    case Ok(text) => Ok(Utf8.Encode(text))
    case Err(e) => Err(e)
  }

  ghost predicate NoSpecialAt(v: Json, p: seq<nat>) {
    NodeAt(v, p).Some? ==> !NodeAt(v, p).value.NonFinite?
  }

  lemma FiniteChildren(v: Json)
    ensures Finite(v) <==> !v.NonFinite? && forall i :: 0 <= i < |Children(v)| ==> Finite(Children(v)[i])
  {
    var children := Children(v);
    match v {
      case Arr(items) => assert children == items;
      case Obj(ms) =>
        assert |children| == |ms|;
        if Finite(v) {
          forall i | 0 <= i < |children| ensures Finite(children[i]) {
            assert children[i] == ms[i].val;
          }
        }
        if forall i :: 0 <= i < |children| ==> Finite(children[i]) {
          forall i | 0 <= i < |ms| ensures Finite(ms[i].val) {
            assert children[i] == ms[i].val;
          }
        }
      case _ =>
    }
  }

  lemma NoSpecialBelow(v: Json, i: nat)
    requires i < |Children(v)| && forall p: seq<nat> :: NoSpecialAt(v, p)
    ensures forall p: seq<nat> :: NoSpecialAt(Children(v)[i], p)
  {
    forall p: seq<nat> ensures NoSpecialAt(Children(v)[i], p) {
      assert NoSpecialAt(v, [i] + p);
      assert ([i] + p)[1..] == p;
    }
  }

  /** A value has canonical bytes exactly when no node of it, at any depth, is a NaN or an infinity. */
  lemma {:induction false} RefusedExactlyForSpecials(v: Json)
    ensures CanonicalBytes(v).Ok? <==> forall p: seq<nat> :: NoSpecialAt(v, p)
    decreases v
  {
    FiniteChildren(v);
    forall i | 0 <= i < |Children(v)|
      ensures Finite(Children(v)[i]) <==> forall p: seq<nat> :: NoSpecialAt(Children(v)[i], p)
    {
      RefusedExactlyForSpecials(Children(v)[i]);
    }
    if Finite(v) {
      forall p: seq<nat> ensures NoSpecialAt(v, p) {
        if p != [] && p[0] < |Children(v)| {
          assert NoSpecialAt(Children(v)[p[0]], p[1..]);
        }
      }
    }
    if forall p: seq<nat> :: NoSpecialAt(v, p) {
      assert NoSpecialAt(v, []);
      forall i | 0 <= i < |Children(v)| ensures Finite(Children(v)[i]) {
        NoSpecialBelow(v, i);
      }
    }
  }

  lemma FiniteByKey(ms: Dict, ns: Dict)
    requires SameKeys(ms, ns) && Finite(Obj(ms))
    requires forall i, j :: 0 <= i < |ms| && 0 <= j < |ns| && ms[i].key == ns[j].key ==>
               (Finite(ms[i].val) <==> Finite(ns[j].val))
    ensures Finite(Obj(ns))
  {
    forall j | 0 <= j < |ns| ensures Finite(ns[j].val) {
      var i :| 0 <= i < |ms| && ms[i].key == ns[j].key;
    }
  }

  lemma {:induction false} SameFinite(a: Json, b: Json)
    requires Same(a, b)
    ensures Finite(a) <==> Finite(b)
    decreases a
  {
    match a {
      case Arr(xs) =>
        forall i | 0 <= i < |xs| ensures Finite(xs[i]) <==> Finite(b.items[i]) {
          SameFinite(xs[i], b.items[i]);
        }
      case Obj(ms) =>
        var ns := b.members;
        forall i, j | 0 <= i < |ms| && 0 <= j < |ns| && ms[i].key == ns[j].key
          ensures Finite(ms[i].val) <==> Finite(ns[j].val)
        {
          SameFinite(ms[i].val, ns[j].val);
        }
        if Finite(a) {
          FiniteByKey(ms, ns);
        }
        if Finite(b) {
          FiniteByKey(ns, ms);
        }
      case _ =>
    }
  }

  /** Canonical bytes agree exactly when the values are equal, dicts as mappings. */
  lemma BytesDetermineValue(a: Json, b: Json)
    requires WellFormed(a) && WellFormed(b) && CanonicalBytes(a).Ok?
    ensures CanonicalBytes(a) == CanonicalBytes(b) <==> Same(a, b)
  {
    TextDeterminesValue(a, b, CANONICAL);
    if Same(a, b) {
      SameFinite(a, b);
    }
    if CanonicalBytes(a) == CanonicalBytes(b) {
      Utf8.EncodeInjective(SortedText(a, CANONICAL), SortedText(b, CANONICAL));
    }
  }

  /** The canonical bytes decode and parse back to the value. */
  lemma BytesRoundTrip(v: Json)
    requires WellFormed(v) && CanonicalBytes(v).Ok?
    ensures Utf8.Decode(CanonicalBytes(v).value).Some?
    ensures Parse(Utf8.Decode(CanonicalBytes(v).value).value) == Some(SortKeys(v))
    ensures Same(v, SortKeys(v))
  {
    Utf8.DecodeEncode(SortedText(v, CANONICAL));
    ParsePrinted(v, CANONICAL);
    SortKeysSame(v);
  }

  // ----- dropping fields -----

  lemma {:induction false} GetWithout(ms: Dict, names: set<string>, k: string)
    ensures Get(Without(ms, names), k) == if k in names then None else Get(ms, k)
  {
    if ms != [] {
      GetWithout(ms[1..], names, k);
      if ms[0].key !in names {
        assert Without(ms, names)[1..] == Without(ms[1..], names);
      }
    }
  }

  lemma WithoutWellFormed(ms: Dict, names: set<string>)
    requires WellFormedDict(ms)
    ensures WellFormedDict(Without(ms, names))
  {
    WithoutMembers(ms, names);
    var r := Without(ms, names);
    forall i | 0 <= i < |r| ensures WellFormed(r[i].val) {
      assert r[i] in r;
    }
  }

  /** Two records agree on every field outside `names`. */
  ghost predicate AgreeOutside(a: Dict, b: Dict, names: set<string>) {
    forall k :: k !in names ==> SameLookup(Get(a, k), Get(b, k))
  }

  /** The bytes of two records without `names` agree exactly when the records agree outside `names`. */
  lemma BytesCoverOutside(a: Dict, b: Dict, names: set<string>)
    requires WellFormedDict(a) && WellFormedDict(b)
    requires CanonicalBytes(Obj(Without(a, names))).Ok?
    ensures CanonicalBytes(Obj(Without(a, names))) == CanonicalBytes(Obj(Without(b, names))) <==>
            AgreeOutside(a, b, names)
  {
    var x, y := Without(a, names), Without(b, names);
    WithoutWellFormed(a, names);
    WithoutWellFormed(b, names);
    BytesDetermineValue(Obj(x), Obj(y));
    SameDictByLookup(x, y);
    forall k ensures Get(x, k) == (if k in names then None else Get(a, k)) &&
                     Get(y, k) == (if k in names then None else Get(b, k)) {
      GetWithout(a, names, k);
      GetWithout(b, names, k);
    }
    if SameLookups(x, y) {
      forall k | k !in names ensures SameLookup(Get(a, k), Get(b, k)) {
        assert SameLookup(Get(x, k), Get(y, k));
      }
    }
  }
}
