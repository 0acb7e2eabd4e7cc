/** Finite sets, sequences and multisets. */
module Finite {

  lemma PickOne<T>(s: set<T>) returns (x: T)
    requires s != {}
    ensures x in s
  {
    x :| x in s;
  }

  lemma {:induction false} Subset<T>(s: set<T>, t: set<T>)
    requires s <= t
    ensures |s| <= |t|
    decreases s
  {
    if s != {} {
      var x := PickOne(s);
      Subset(s - {x}, t - {x});
    }
  }

  lemma {:induction false} AtMost(s: set<int>, n: nat)
    requires forall x :: x in s ==> 0 <= x < n
    ensures |s| <= n
  {
    if s != {} {
      var x := PickOne(s);
      assert 0 <= x < n;
      AtMost(s - {n - 1}, n - 1);
    }
  }

  ghost predicate Distinct<T>(s: seq<T>) {
    forall i, j :: 0 <= i < j < |s| ==> s[i] != s[j]
  }

  lemma BagShuffle<T>(a: multiset<T>, x: multiset<T>, b: multiset<T>, y: multiset<T>, c: multiset<T>)
    requires a + x == b + y
    ensures (a + c) + x == (b + c) + y && (c + a) + x == (c + b) + y
  {
    assert (a + c) + x == (a + x) + c && (c + a) + x == (a + x) + c;
    assert (b + c) + y == (b + y) + c && (c + b) + y == (b + y) + c;
  }
}
