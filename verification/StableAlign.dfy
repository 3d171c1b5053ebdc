// Stable placement of token/route pairs into padded expert buckets.
module StableAlign {
  import opened Division

  // ---- The library functions the placement is made of ----

  // torch.sort, stable: the permutation orders keys, and equal keys by index.
  ghost predicate IsStableSort(keys: seq<nat>, order: seq<nat>) {
    && |order| == |keys| && (forall a {:trigger order[a]} :: 0 <= a < |order| ==> order[a] < |keys|)
    && (forall a, b :: 0 <= a < b < |order| ==>
          keys[order[a]] < keys[order[b]] || (keys[order[a]] == keys[order[b]] && order[a] < order[b]))
    && (forall i: nat :: i < |keys| ==> i in order)
  }

  // torch.searchsorted: how many entries of a sorted sequence are below a value, or not above it.
  function SearchSorted(s: seq<nat>, v: nat, right: bool): (r: nat)
    ensures r <= |s|
  {
    if s == [] then 0
    else if s[|s| - 1] < v || (right && s[|s| - 1] == v) then |s|
    else SearchSorted(s[..|s| - 1], v, right)
  }

  lemma {:induction false} SearchSortedIs(s: seq<nat>, v: nat, right: bool)
    requires forall a, b :: 0 <= a <= b < |s| ==> s[a] <= s[b]
    ensures forall a {:trigger s[a]} :: 0 <= a < |s| ==>
      (a < SearchSorted(s, v, right) <==> s[a] < v || (right && s[a] == v))
  {
    if s != [] && !(s[|s| - 1] < v || (right && s[|s| - 1] == v)) {
      SearchSortedIs(s[..|s| - 1], v, right);
      assert forall a :: 0 <= a < |s| - 1 ==> s[..|s| - 1][a] == s[a];
    } else if s != [] {
      assert forall a :: 0 <= a < |s| ==> s[a] <= s[|s| - 1];
    }
  }

  // ---- The placement ----

  // Expert -1 is bucket 0, expert e is bucket e + 1.
  function Keys(flat: seq<int>): (r: seq<nat>)
    requires forall i {:trigger flat[i]} :: 0 <= i < |flat| ==> flat[i] >= -1
    ensures |r| == |flat|
  {
    seq(|flat|, i requires 0 <= i < |flat| => flat[i] + 1)
  }

  datatype Placement = Placement(flat: seq<int>, experts: nat, block: nat, order: seq<nat>) {
    ghost predicate Valid() {
      && block >= 1 && (forall i {:trigger flat[i]} :: 0 <= i < |flat| ==> -1 <= flat[i] < experts)
      && IsStableSort(Keys(flat), order)
    }

    // The sorted bucket numbers.
    function Buckets(): (r: seq<nat>)
      requires Valid()
      ensures |r| == |flat|
    {
      seq(|flat|, a requires 0 <= a < |flat| => Keys(flat)[order[a]])
    }

    // bare_prefix: pairs in buckets before e.
    function Bare(e: nat): (r: nat)
      requires Valid()
      ensures r <= |flat|
    {
      SearchSorted(Buckets(), e, false)
    }

    lemma BucketsSorted()
      requires Valid()
      ensures forall a, b :: 0 <= a <= b < |flat| ==> Buckets()[a] <= Buckets()[b]
      ensures forall a {:trigger Buckets()[a]} :: 0 <= a < |flat| ==> Buckets()[a] <= experts
    {
    }

    lemma InBucket(e: nat)
      requires Valid()
      ensures Bare(e) <= Bare(e + 1) && Bare(0) == 0
      ensures forall a {:trigger Buckets()[a]} :: 0 <= a < |flat| ==>
        (Bare(e) <= a < Bare(e + 1) <==> Buckets()[a] == e)
      ensures e == experts ==> Bare(e + 1) == |flat|
    {
      BucketsSorted();
      SearchSortedIs(Buckets(), e, false);
      SearchSortedIs(Buckets(), e + 1, false);
      SearchSortedIs(Buckets(), 0, false);
      assert |flat| > 0 ==> Buckets()[0] >= 0;
      assert Bare(e + 1) < |flat| ==> Buckets()[Bare(e + 1)] >= e + 1;
    }

    function Count(e: nat): nat
      requires Valid()
    {
      InBucket(e);
      Bare(e + 1) - Bare(e)
    }

    function Padded(e: nat): nat
      requires Valid()
    {
      (Count(e) + block - 1) / block * block
    }

    // Where bucket e starts among the padded ones; the cumulative sum up to it.
    function Start(e: nat): nat
      requires Valid()
    {
      if e == 0 then 0 else Start(e - 1) + Padded(e - 1)
    }

    function Capacity(): nat
      requires block >= 1
    {
      if |flat| < experts + 1 then |flat| * block else |flat| + (experts + 1) * (block - 1)
    }

    // The capacity is the smaller of the two bounds.
    lemma CapacityIsLesser()
      requires block >= 1
      ensures Capacity() <= |flat| * block && Capacity() <= |flat| + (experts + 1) * (block - 1)
      ensures Capacity() == |flat| * block || Capacity() == |flat| + (experts + 1) * (block - 1)
    {
      Distributes(|flat|, 0, |flat|, block - 1);
      assert |flat| * block == |flat| + |flat| * (block - 1);
      if |flat| < experts + 1 {
        MulMono(block - 1, |flat|, experts + 1);
      } else {
        MulMono(block - 1, experts + 1, |flat|);
      }
    }

    // The padding of one bucket, as its own arithmetic.
    lemma PaddedBounds(e: nat)
      requires Valid()
      ensures Padded(e) % block == 0 && Count(e) <= Padded(e) <= Count(e) + (block - 1)
      ensures Padded(e) <= Count(e) * block
    {
      RoundUp(Count(e), block);
    }

    lemma PaddedIsMultiple(e: nat)
      requires Valid()
      ensures Padded(e) % block == 0
    {
      MultipleOf((Count(e) + block - 1) / block, block);
    }

    lemma {:induction false} StartAligned(e: nat)
      requires Valid()
      ensures Start(e) % block == 0
    {
      if e == 0 {
        ZeroIsMultiple(block);
      } else {
        StartAligned(e - 1);
        PaddedIsMultiple(e - 1);
        SumOfMultiples(Start(e - 1), Padded(e - 1), block);
      }
    }

    lemma {:induction false} StartGrows(d: nat, e: nat)
      requires Valid() && d <= e
      ensures Start(d) <= Start(e) && (d < e ==> Start(d) + Padded(d) <= Start(e))
    {
      if d < e { StartGrows(d, e - 1); }
    }

    /** The buckets fit: one block a pair where pairs are few, a block less one a bucket else. */
    lemma {:induction false} Fits(e: nat)
      requires Valid()
      ensures Start(e) <= Bare(e) * block && Start(e) <= Bare(e) + e * (block - 1)
    {
      InBucket(0);
      if e > 0 {
        Fits(e - 1);
        PaddedBounds(e - 1);
        InBucket(e - 1);
        Distributes(Bare(e - 1), Count(e - 1), Bare(e), block);
        Distributes(e - 1, 1, e, block - 1);
      }
    }

    function Total(): nat
      requires Valid()
    {
      Start(experts + 1)
    }

    lemma TotalFits()
      requires Valid()
      ensures Total() <= Capacity()
    {
      Fits(experts + 1);
      InBucket(experts);
    }

    // positions: where the pair ranked a goes.
    function Position(a: nat): (p: nat)
      requires Valid() && a < |flat|
      ensures Start(Buckets()[a]) <= p < Start(Buckets()[a]) + Count(Buckets()[a])
    {
      var e := Buckets()[a];
      InBucket(e);
      a + Start(e) - Bare(e)
    }

    lemma PositionsGrow(a: nat, b: nat)
      requires Valid() && a < b < |flat|
      ensures Position(a) < Position(b) <= Capacity() && Position(b) < Total()
    {
      BucketsSorted();
      var d, e := Buckets()[a], Buckets()[b];
      PaddedBounds(d);
      PaddedBounds(e);
      if d < e { StartGrows(d, e); }
      StartGrows(e, experts + 1);
      TotalFits();
    }

    lemma PositionFits(a: nat)
      requires Valid() && a < |flat|
      ensures Position(a) < Total() <= Capacity()
    {
      BucketsSorted();
      PaddedBounds(Buckets()[a]);
      StartGrows(Buckets()[a], experts + 1);
      TotalFits();
    }

    // ---- The result ----

    // The padded ends, of the buckets in order.
    function Ends(): (r: seq<nat>)
      requires Valid()
      ensures |r| == experts + 1
    {
      seq(experts + 1, e requires 0 <= e <= experts => Start(e + 1))
    }

    // expert_ids of one block.
    function ExpertId(blk: nat): int
      requires Valid()
    {
      if blk * block < Total() then SearchSorted(Ends(), blk * block, true) - 1 else -1
    }

    // expert_ids of the block that holds a position.
    function ExpertAt(p: nat): int
      requires Valid()
    {
      ExpertId(p / block)
    }

    // A position of bucket e lies in a block of expert e - 1.
    lemma BlockOfBucket(e: nat, p: nat)
      requires Valid() && e <= experts && Start(e) <= p < Start(e + 1)
      ensures ExpertAt(p) == e - 1
    {
      hide Start, SearchSorted;
      StartAligned(e);
      StartGrows(e, e + 1);
      StartGrows(e + 1, experts + 1);
      BlockStart(p, block, Start(e));
      var start, ends := p / block * block, Ends();
      forall a, b | 0 <= a <= b < |ends| ensures ends[a] <= ends[b] { StartGrows(a + 1, b + 1); }
      SearchSortedIs(ends, start, true);
      var found := SearchSorted(ends, start, true);
      if e > 0 {
        assert ends[e - 1] == Start(e);
      }
      assert ends[e] == Start(e + 1);
    }

    // The bucket that holds a position.
    lemma {:induction false} BucketOf(p: nat, n: nat) returns (e: nat)
      requires Valid() && p < Start(n)
      ensures e < n && Start(e) <= p < Start(e + 1)
    {
      if Start(n - 1) <= p { e := n - 1; } else { e := BucketOf(p, n - 1); }
    }

    // The scattered ids: each ranked pair at its position, the pair count everywhere else.
    ghost predicate Scattered(sorted: seq<nat>, n: nat)
      requires Valid() && n <= |flat|
    {
      && |sorted| == Capacity()
      && (forall a {:trigger Position(a)} :: 0 <= a < n ==> Position(a) < |sorted| && sorted[Position(a)] == order[a])
      && (forall p {:trigger sorted[p]} :: 0 <= p < |sorted| && (forall a :: 0 <= a < n ==> Position(a) != p) ==>
            sorted[p] == |flat|)
    }

    lemma ScatterStep(sorted: seq<nat>, n: nat)
      requires Valid() && n < |flat| && Scattered(sorted, n)
      ensures Position(n) < |sorted| && Scattered(sorted[Position(n) := order[n]], n + 1)
    {
      PositionFits(n);
      var more := sorted[Position(n) := order[n]];
      forall a: nat | a < n + 1 ensures Position(a) < |more| && more[Position(a)] == order[a] {
        if a < n { PositionsGrow(a, n); }
      }
    }
  }

  lemma RoundUp(c: nat, block: nat)
    requires block >= 1
    ensures (c + block - 1) / block * block % block == 0
    ensures c <= (c + block - 1) / block * block <= c + block - 1
    ensures (c + block - 1) / block * block <= c * block
  {
    var q := (c + block - 1) / block;
    var r := (c + block - 1) % block;
    Divided(c + block - 1, block);
    MultipleOf(q, block);
    RoundUpTo(c, block, q, r);
  }

  lemma Divided(a: nat, block: nat)
    requires block >= 1
    ensures a == a / block * block + a % block && a % block < block
  {
  }

  lemma RoundUpTo(c: nat, block: nat, q: nat, r: nat)
    requires block >= 1 && c + block - 1 == q * block + r && r < block
    ensures c <= q * block <= c + block - 1 && q * block <= c * block
  {
    if q > c {
      MulMono(block, c + 1, q);
      Distributes(c, 1, c + 1, block);
      if c > 0 { MulMono(c, 1, block); }
    } else {
      MulMono(block, q, c);
    }
  }

  lemma MultipleOf(q: nat, block: nat)
    requires block >= 1
    ensures q * block % block == 0 && q * block / block == q
  {
    QuotientUnique(q * block, block, q);
  }

  lemma ZeroIsMultiple(block: nat)
    requires block >= 1
    ensures 0 % block == 0
  {
  }

  lemma SumOfMultiples(a: nat, b: nat, block: nat)
    requires block >= 1 && a % block == 0 && b % block == 0
    ensures (a + b) % block == 0
  {
    var x, y := a / block, b / block;
    assert a == block * x && b == block * y;
    Distributes(x, y, x + y, block);
    MultipleOf(x + y, block);
  }

  lemma Distributes(a: nat, b: nat, c: nat, m: nat)
    requires c == a + b
    ensures c * m == a * m + b * m
  {
  }

  lemma BlockStart(p: nat, block: nat, start: nat)
    requires block >= 1 && start % block == 0 && start <= p
    ensures start <= p / block * block <= p
  {
    Divided(p, block);
    Divided(start, block);
    QuotientMono(start, p, block);
    MulMono(block, start / block, p / block);
  }

  /** moe_align_block_size_stable, given what the stable sort returned. */
  method Align(pl: Placement) returns (sorted: seq<nat>, experts: seq<int>, total: nat)
    requires pl.Valid()
    ensures pl.Scattered(sorted, |pl.flat|) && total == pl.Total() <= |sorted|
    ensures |experts| == (pl.Capacity() + pl.block - 1) / pl.block
    ensures forall blk {:trigger experts[blk]} :: 0 <= blk < |experts| ==> experts[blk] == pl.ExpertId(blk)
  {
    pl.TotalFits();
    var n := |pl.flat|;
    sorted := seq(pl.Capacity(), _ => n);
    for a := 0 to n
      invariant pl.Scattered(sorted, a)
    {
      pl.ScatterStep(sorted, a);
      sorted := sorted[pl.Position(a) := pl.order[a]];
    }
    experts := seq((pl.Capacity() + pl.block - 1) / pl.block, blk requires 0 <= blk => pl.ExpertId(blk));
    total := pl.Total();
  }

  // ---- What the placement guarantees ----

  // A live position, and the rank of the pair it holds.
  lemma RankAt(pl: Placement, sorted: seq<nat>, p: nat) returns (a: nat)
    requires pl.Valid() && pl.Scattered(sorted, |pl.flat|) && p < |sorted| && sorted[p] != |pl.flat|
    ensures a < |pl.flat| && pl.Position(a) == p && sorted[p] == pl.order[a]
  {
    if forall b :: 0 <= b < |pl.flat| ==> pl.Position(b) != p {
      assert false;
    }
    a :| 0 <= a < |pl.flat| && pl.Position(a) == p;
  }

  /** Every pair is placed once, and within the padded total. */
  lemma PlacedOnce(pl: Placement, sorted: seq<nat>, i: nat) returns (p: nat)
    requires pl.Valid() && pl.Scattered(sorted, |pl.flat|) && i < |pl.flat|
    ensures p < pl.Total() <= |sorted| && sorted[p] == i
    ensures forall q :: 0 <= q < |sorted| && sorted[q] == i ==> q == p
  {
    pl.TotalFits();
    assert i in pl.order;
    var a: nat :| a < |pl.order| && pl.order[a] == i;
    pl.PositionFits(a);
    p := pl.Position(a);
    forall q: nat | q < |sorted| && sorted[q] == i ensures q == p {
      var b := RankAt(pl, sorted, q);
    }
  }

  /** A block holds pairs of the expert it is marked with, and of no other. */
  lemma BlockHoldsItsExpert(pl: Placement, sorted: seq<nat>, p: nat)
    requires pl.Valid() && pl.Scattered(sorted, |pl.flat|) && p < |sorted| && sorted[p] != |pl.flat|
    ensures sorted[p] < |pl.flat| && p < pl.Total() && pl.ExpertAt(p) == pl.flat[sorted[p]]
  {
    var a := RankAt(pl, sorted, p);
    var e := pl.Buckets()[a];
    pl.PositionFits(a);
    pl.BucketsSorted();
    pl.PaddedBounds(e);
    pl.BlockOfBucket(e, p);
  }

  /** Within the blocks of one expert live pairs come first, in increasing flat index. */
  lemma PairsThenPadding(pl: Placement, sorted: seq<nat>, p: nat, q: nat)
    requires pl.Valid() && pl.Scattered(sorted, |pl.flat|) && p < q < pl.Total() && q < |sorted|
    requires pl.ExpertAt(p) == pl.ExpertAt(q) && sorted[q] != |pl.flat|
    ensures sorted[p] != |pl.flat| && sorted[p] < sorted[q]
  {
    var d := pl.BucketOf(p, pl.experts + 1);
    pl.BlockOfBucket(d, p);
    var b := RankAt(pl, sorted, q);
    var e := pl.Buckets()[b];
    pl.BucketsSorted();
    pl.PaddedBounds(e);
    pl.BlockOfBucket(e, q);
    assert d == e;
    var a: nat := p - pl.Start(e) + pl.Bare(e);
    pl.InBucket(e);
    assert a < b;
    assert pl.Buckets()[a] == e;
    assert pl.Position(a) == p;
    assert pl.order[a] < pl.order[b];
  }

  /** Beyond the padded total there are only padding and unmarked blocks. */
  lemma NothingPastTotal(pl: Placement, sorted: seq<nat>, p: nat)
    requires pl.Valid() && pl.Scattered(sorted, |pl.flat|) && pl.Total() <= p < |sorted|
    ensures sorted[p] == |pl.flat| && pl.ExpertAt(p) == -1
  {
    forall a | 0 <= a < |pl.flat| ensures pl.Position(a) != p { pl.PositionFits(a); }
    pl.StartAligned(pl.experts + 1);
    BlockStart(p, pl.block, pl.Total());
  }
}
