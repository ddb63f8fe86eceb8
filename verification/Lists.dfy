/** What lists of different kinds have in common. */
module Lists {

  predicate Distinct<T(==)>(s: seq<T>) {
    forall i, j :: 0 <= i < j < |s| ==> s[i] != s[j]
  }

  function Elements<T(==, !new)>(s: seq<T>): (elements: set<T>)
    ensures forall x :: x in elements <==> x in s
  {
    set x | x in s
  }

  lemma {:induction false} DistinctCount<T(!new)>(s: seq<T>)
    requires Distinct(s)
    ensures |Elements(s)| == |s|
  {
    if s != [] {
      var init, x := s[..|s| - 1], s[|s| - 1];
      DistinctCount(init);
      assert s == init + [x];
      assert Elements(s) == Elements(init) + {x};
    }
  }
}
