// Sums over finite sets.
module Totals {
  ghost function Total<T>(s: set<T>, size: T -> nat): nat
    decreases |s|
  {
    if s == {} then 0 else
      var x :| x in s;
      size(x) + Total(s - {x}, size)
  }

  lemma {:induction false} TotalRemove<T>(s: set<T>, x: T, size: T -> nat)
    requires x in s
    ensures Total(s, size) == size(x) + Total(s - {x}, size)
    decreases |s|
  {
    var y :| y in s && Total(s, size) == size(y) + Total(s - {y}, size);
    if y != x {
      TotalRemove(s - {y}, x, size);
      TotalRemove(s - {x}, y, size);
      assert s - {y} - {x} == s - {x} - {y};
    }
  }

  lemma TotalAdd<T>(s: set<T>, x: T, size: T -> nat)
    requires x !in s
    ensures Total(s + {x}, size) == Total(s, size) + size(x)
  {
    TotalRemove(s + {x}, x, size);
    assert s + {x} - {x} == s;
  }

  lemma {:induction false} TotalUnion<T>(a: set<T>, b: set<T>, size: T -> nat)
    requires a !! b
    ensures Total(a + b, size) == Total(a, size) + Total(b, size)
    decreases |b|
  {
    if b == {} {
      assert a + b == a;
    } else {
      var x :| x in b;
      TotalUnion(a, b - {x}, size);
      TotalAdd(a + (b - {x}), x, size);
      TotalRemove(b, x, size);
      assert a + (b - {x}) + {x} == a + b;
    }
  }

  lemma TotalSubset<T>(a: set<T>, b: set<T>, size: T -> nat)
    requires a <= b
    ensures Total(a, size) <= Total(b, size)
  {
    TotalUnion(a, b - a, size);
    assert a + (b - a) == b;
  }
}
