// Sizes of finite sets of numbers and of the elements of sequences.
module Counting {

  function Elements<T(!new)>(s: seq<T>): (e: set<T>)
    ensures forall x :: x in e <==> x in s
  {
    set x | x in s
  }

  ghost predicate Distinct<T(!new)>(s: seq<T>) {
    forall i, j :: 0 <= i < j < |s| ==> s[i] != s[j]
  }

  lemma {:induction false} DistinctSize<T(!new)>(s: seq<T>)
    requires Distinct(s)
    ensures |Elements(s)| == |s|
  {
    if s != [] {
      var init, last := s[..|s| - 1], s[|s| - 1];
      DistinctSize(init);
      assert last !in init;
      assert s == init + [last];
      assert Elements(s) == Elements(init) + {last};
    }
  }

  lemma Member<T>(s: set<T>) returns (x: T)
    requires s != {}
    ensures x in s
  {
    x :| x in s;
  }

  lemma SubsetSize<T>(a: set<T>, b: set<T>)
    requires a <= b
    ensures |a| <= |b|
  {
    assert b == a + (b - a);
  }

  lemma {:induction false} SetBelow(s: set<int>, bound: nat)
    requires forall x :: x in s ==> 0 <= x < bound
    ensures |s| <= bound
    decreases bound
  {
    if s != {} {
      var x := Member(s);
      SetBelow(s - {bound - 1}, bound - 1);
    }
  }

  // Pairwise different numbers below `bound` are at most `bound` many.
  lemma {:induction false} Pigeonhole(s: seq<int>, bound: nat)
    requires forall j :: 0 <= j < |s| ==> 0 <= s[j] < bound
    requires Distinct(s)
    ensures |s| <= bound
  {
    DistinctSize(s);
    SetBelow(Elements(s), bound);
  }
}
