// Cardinality facts about finite sets, shared by the modules whose loops
// are bounded by the size of a set.
module Sets {
  lemma SubsetCard<T>(a: set<T>, b: set<T>)
    requires a <= b
    ensures |a| <= |b|
  {
    assert b == a + (b - a);
  }

  lemma ProperSubsetCard<T>(a: set<T>, b: set<T>)
    requires a < b
    ensures |a| < |b|
  {
    assert b == a + (b - a);
    assert |b| == |a| + |b - a|;
    assert b - a != {};
  }

  lemma CardOne<T>(s: set<T>)
    ensures |s| == 1 <==> (s != {} && forall x, y :: x in s && y in s ==> x == y)
  {
    if |s| == 1 {
      var x :| x in s;
      assert |s - {x}| == 0;
      assert s - {x} == {};
    }
    if s != {} && forall x, y :: x in s && y in s ==> x == y {
      var x :| x in s;
      assert s == {x};
    }
  }

  /** The element of a singleton set. */
  function OnlyElement<T>(s: set<T>): (x: T)
    requires |s| == 1
    ensures s == {x}
  {
    CardOne(s);
    var x :| x in s;
    x
  }
}
