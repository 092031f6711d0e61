/** `sorted` on strings. */
module StringOrder {
  import opened PyText

  predicate LessEqual(a: string, b: string) {
    a == b || Less(a, b)
  }

  predicate SortedStrings(s: seq<string>) {
    forall i, j :: 0 <= i < j < |s| ==> LessEqual(s[i], s[j])
  }

  function InsertString(x: string, s: seq<string>): (r: seq<string>)
    ensures multiset(r) == multiset(s) + multiset{x}
  {
    if s == [] || LessEqual(x, s[0]) then [x] + s
    else
      assert s == [s[0]] + s[1..];
      [s[0]] + InsertString(x, s[1..])
  }

  function SortStrings(s: seq<string>): (r: seq<string>)
    ensures multiset(r) == multiset(s)
  {
    if s == [] then []
    else
      assert s == [s[0]] + s[1..];
      InsertString(s[0], SortStrings(s[1..]))
  }

  lemma LessEqualTransitive(a: string, b: string, c: string)
    requires LessEqual(a, b) && LessEqual(b, c)
    ensures LessEqual(a, c)
  {
    if a != b && b != c {
      LessTransitive(a, b, c);
    }
  }

  lemma {:induction false} InsertKeepsSorted(x: string, s: seq<string>)
    requires SortedStrings(s)
    ensures SortedStrings(InsertString(x, s))
  {
    if s == [] {
    } else if LessEqual(x, s[0]) {
      forall j | 0 <= j < |s| ensures LessEqual(x, s[j]) {
        LessEqualTransitive(x, s[0], s[j]);
      }
    } else {
      InsertKeepsSorted(x, s[1..]);
      LessTotal(x, s[0]);
      var r := InsertString(x, s[1..]);
      forall j | 0 <= j < |r| ensures LessEqual(s[0], r[j]) {
        assert r[j] in multiset(r);
        if r[j] != x {
          assert r[j] in multiset(s[1..]);
          var k :| 0 <= k < |s[1..]| && s[1..][k] == r[j];
          assert s[k + 1] == r[j];
        }
      }
    }
  }

  lemma {:induction false} SortIsSorted(s: seq<string>)
    ensures SortedStrings(SortStrings(s))
  {
    if s != [] {
      SortIsSorted(s[1..]);
      InsertKeepsSorted(s[0], SortStrings(s[1..]));
    }
  }

  lemma TailContents(a: seq<string>, b: seq<string>)
    requires a != [] && b != [] && a[0] == b[0] && multiset(a) == multiset(b)
    ensures multiset(a[1..]) == multiset(b[1..])
  {
    assert a == [a[0]] + a[1..] && b == [b[0]] + b[1..];
    assert multiset(a[1..]) == multiset(a) - multiset{a[0]};
    assert multiset(b[1..]) == multiset(b) - multiset{a[0]};
  }

  lemma NotLessBothWays(a: string, b: string)
    requires LessEqual(a, b) && LessEqual(b, a)
    ensures a == b
  {
    if a != b {
      LessTransitive(a, b, a);
      LessIrreflexive(a);
    }
  }

  lemma SameLeast(a: seq<string>, b: seq<string>)
    requires SortedStrings(a) && SortedStrings(b) && a != [] && b != []
    requires a[0] in b && b[0] in a
    ensures a[0] == b[0]
  {
    var i :| 0 <= i < |b| && b[i] == a[0];
    var j :| 0 <= j < |a| && a[j] == b[0];
    NotLessBothWays(a[0], b[0]);
  }

  lemma SameContentsSameMembers(a: seq<string>, b: seq<string>)
    requires multiset(a) == multiset(b)
    ensures |a| == |b| && forall x :: x in a ==> x in b
  {
    assert |a| == |multiset(a)| && |b| == |multiset(b)|;
    forall x | x in a ensures x in b {
      assert x in multiset(a);
    }
  }

  /** A sorted list is determined by its elements and how often each occurs. */
  lemma {:induction false} SortedByContents(a: seq<string>, b: seq<string>)
    requires SortedStrings(a) && SortedStrings(b) && multiset(a) == multiset(b)
    ensures a == b
  {
    SameContentsSameMembers(a, b);
    SameContentsSameMembers(b, a);
    if a != [] {
      SameLeast(a, b);
      TailContents(a, b);
      SortedByContents(a[1..], b[1..]);
      assert a == [a[0]] + a[1..] && b == [b[0]] + b[1..];
    }
  }

  /** Sorting depends on the elements only, not on the order they came in. */
  lemma SortIgnoresOrder(a: seq<string>, b: seq<string>)
    requires multiset(a) == multiset(b)
    ensures SortStrings(a) == SortStrings(b)
  {
    SortIsSorted(a);
    SortIsSorted(b);
    SortedByContents(SortStrings(a), SortStrings(b));
  }
}
