// Which quantization groups a whole-K launch may have, and when rounding to them splits a column.
module StripeGroups {
  import opened Division
  import opened StripePlan

  // K tiles of a whole-K launch are 64 deep, four blocks of 16.
  const THREAD_K: nat := 64
  const THREAD_K_BLOCKS: nat := 4

  // group_size as the wrapper derives it from the number of scale groups.
  function GroupSize(sizeK: nat, numGroups: nat): int {
    if numGroups > 1 then sizeK / numGroups else -1
  }

  function GroupBlocks(groupSize: int): int { if groupSize == -1 then -1 else groupSize / 16 }

  // Stripes are rounded to so many K tiles; 0 where they are not rounded.
  function RoundingGroup(groupBlocks: int): nat {
    if groupBlocks >= THREAD_K_BLOCKS then groupBlocks / THREAD_K_BLOCKS else 0
  }

  function Group(sizeK: nat, numGroups: nat): nat { RoundingGroup(GroupBlocks(GroupSize(sizeK, numGroups))) }

  /** The launch checks: whole tiles, whole groups, and a kernel built for the group blocks. */
  predicate Accepted(sizeK: nat, numGroups: nat) {
    var groupBlocks := GroupBlocks(GroupSize(sizeK, numGroups));
    && sizeK > 0 && sizeK % THREAD_K == 0 && (numGroups > 1 ==> sizeK % numGroups == 0)
    && groupBlocks in {-1, 1, 2, 4, 8} && (groupBlocks != -1 ==> sizeK % groupBlocks == 0)
  }

  /** What the checks say: without groups any whole number of tiles; else whole groups as many blocks
      deep as there is a kernel for. Stripes are rounded for groups of at least a tile, to the whole
      tiles of a group. */
  lemma AcceptedIff(sizeK: nat, numGroups: nat)
    ensures numGroups <= 1 ==> (Accepted(sizeK, numGroups) <==> sizeK > 0 && sizeK % 64 == 0)
    ensures numGroups <= 1 ==> Group(sizeK, numGroups) == 0
    ensures numGroups > 1 ==>
      (Accepted(sizeK, numGroups) <==>
        && sizeK > 0 && sizeK % 64 == 0 && sizeK % numGroups == 0
        && exists b :: b in {1, 2, 4, 8} && 16 * b <= GroupSize(sizeK, numGroups) < 16 * b + 16)
    ensures numGroups > 1 ==> GroupSize(sizeK, numGroups) == sizeK / numGroups
    ensures numGroups > 1 && Accepted(sizeK, numGroups) ==>
      Group(sizeK, numGroups) == sizeK / numGroups / 64
  {
    if numGroups > 1 {
      var size: nat := GroupSize(sizeK, numGroups);
      BlocksOf(size);
      if sizeK % 64 == 0 && GroupBlocks(size) in {1, 2, 4, 8} { WholeTiles(sizeK, GroupBlocks(size)); }
    }
  }

  lemma BlocksOf(size: nat)
    ensures GroupBlocks(size) in {1, 2, 4, 8} <==> exists b :: b in {1, 2, 4, 8} && 16 * b <= size < 16 * b + 16
    ensures GroupBlocks(size) >= 0 && RoundingGroup(GroupBlocks(size)) == size / 64
  {
    if GroupBlocks(size) in {1, 2, 4, 8} { assert 16 * GroupBlocks(size) <= size < 16 * GroupBlocks(size) + 16; }
  }

  lemma WholeTiles(sizeK: nat, b: nat)
    requires sizeK % 64 == 0 && b in {1, 2, 4, 8}
    ensures sizeK % b == 0
  {
    if b == 1 {
      assert sizeK % 1 == 0;
    } else if b == 2 {
      assert sizeK % 2 == 0;
    } else if b == 4 {
      assert sizeK % 4 == 0;
    } else {
      assert sizeK % 8 == 0;
    }
  }

  lemma GroupIsSmall(sizeK: nat, numGroups: nat)
    requires Accepted(sizeK, numGroups)
    ensures Group(sizeK, numGroups) <= 2
    ensures Group(sizeK, numGroups) == 2 <==> GroupBlocks(GroupSize(sizeK, numGroups)) == 8
    ensures sizeK / THREAD_K > 0
  {
  }

  /** Groups of whole 16-deep blocks divide the K tiles of every launch that is accepted. */
  lemma WholeBlocksDivide(sizeK: nat, numGroups: nat)
    requires Accepted(sizeK, numGroups) && (numGroups > 1 ==> GroupSize(sizeK, numGroups) % 16 == 0)
    ensures Group(sizeK, numGroups) != 0 ==> (sizeK / THREAD_K) % Group(sizeK, numGroups) == 0
  {
    GroupIsSmall(sizeK, numGroups);
    if Group(sizeK, numGroups) == 2 {
      var size := GroupSize(sizeK, numGroups);
      assert size == 16 * 8;
      assert sizeK == numGroups * 128 by { Divided(sizeK, numGroups, 128); }
      Halves(numGroups);
    }
  }

  lemma Divided(a: nat, d: nat, q: int)
    requires d > 0 && a % d == 0 && a / d == q
    ensures a == d * q
  {
  }

  lemma Halves(numGroups: nat)
    ensures numGroups * 128 / 64 == 2 * numGroups && 2 * numGroups % 2 == 0
  {
  }

  /** So a whole-K launch whose groups are whole blocks keeps every column whole. */
  lemma WholeBlocksKeepColumnsWhole(sizeK: nat, numGroups: nat, n: nat, parallel: nat, blocks: nat, c: nat)
    requires Accepted(sizeK, numGroups) && (numGroups > 1 ==> GroupSize(sizeK, numGroups) % 16 == 0)
    requires n > 0 && blocks > 0 && c < n * parallel
    ensures var k := sizeK / THREAD_K;
            var iters := PlanIters(k, n, parallel, blocks, true, Group(sizeK, numGroups));
            iters > 0 && Plan(k, n, parallel, blocks, iters).Sharers(c) == 1
  {
    GroupIsSmall(sizeK, numGroups);
    WholeBlocksDivide(sizeK, numGroups);
    WholeKKeepsColumnsWhole(sizeK / THREAD_K, n, parallel, blocks, Group(sizeK, numGroups), c);
  }

  // ---- The exact condition ----

  // Rounding to groups of two tiles adds a tile to an odd stripe.
  lemma RoundedToTwo(base: nat)
    ensures 2 * DivCeil(base, 2) == base + base % 2
  {
  }

  lemma RoundedToOne(base: nat)
    ensures 1 * DivCeil(base, 1) == base
  {
  }

  lemma OddProduct(k: nat, m: nat)
    ensures (k * m) % 2 == 1 <==> k % 2 == 1 && m % 2 == 1
  {
    var a, b := k / 2, m / 2;
    if k % 2 == 0 {
      MulAssoc(2, a, m);
      Parity(k * m, a * m, 0);
    } else if m % 2 == 0 {
      MulAssoc(2, b, k);
      Parity(k * m, k * b, 0);
    } else {
      OddTimesOdd(a, b);
      Parity(k * m, 2 * (a * b) + a + b, 1);
    }
  }

  lemma Parity(x: int, half: int, r: int)
    requires x == 2 * half + r && 0 <= r < 2
    ensures x % 2 == r
  {
  }

  lemma OddTimesOdd(a: int, b: int)
    ensures (2 * a + 1) * (2 * b + 1) == 2 * (2 * (a * b) + a + b) + 1
  {
  }

  /** An accepted whole-K launch splits a column exactly if its groups are 128 deep or a little
      more, its K tiles are odd in number and more than one, each CTA has an odd number of columns,
      and there are more columns than that. */
  lemma WholeKSplitsIff(sizeK: nat, numGroups: nat, n: nat, parallel: nat, blocks: nat)
    requires Accepted(sizeK, numGroups) && n > 0 && parallel > 0 && blocks > 0
    ensures var k, m := sizeK / THREAD_K, DivCeil(n * parallel, blocks);
            var p := Plan(k, n, parallel, blocks, NatIters(k, n, parallel, blocks, Group(sizeK, numGroups)));
            && p.iters > 0
            && ((exists c: nat :: c < p.Cols() && p.Sharers(c) != 1) <==>
                GroupBlocks(GroupSize(sizeK, numGroups)) == 8 && k % 2 == 1 && k > 1 && m % 2 == 1 && n * parallel > m)
  {
    var k, group := sizeK / THREAD_K, Group(sizeK, numGroups);
    var m := DivCeil(n * parallel, blocks);
    GroupIsSmall(sizeK, numGroups);
    PlanItersValid(k, n, parallel, blocks, true, group);
    var p := Plan(k, n, parallel, blocks, NatIters(k, n, parallel, blocks, group));
    UnsplitIff(p);
    StripeLength(k, n, parallel, blocks, group);
    WholeOrNot(k, m, n * parallel, group);
  }

  function NatIters(k: nat, n: nat, parallel: nat, blocks: nat, group: nat): nat
    requires k > 0 && n > 0 && blocks > 0
  {
    PlanItersValid(k, n, parallel, blocks, true, group);
    PlanIters(k, n, parallel, blocks, true, group)
  }

  lemma StripeLength(k: nat, n: nat, parallel: nat, blocks: nat, group: nat)
    requires k > 0 && n > 0 && blocks > 0 && group <= 2
    ensures var m := DivCeil(n * parallel, blocks);
            m >= 0 && PlanIters(k, n, parallel, blocks, true, group) == k * m + (if group == 2 then (k * m) % 2 else 0)
  {
    var m := DivCeil(n * parallel, blocks);
    CeilAtLeast(n * parallel, blocks, 0);
    MulMono(k, 0, m);
    RoundedToOne(k * m);
    RoundedToTwo(k * m);
  }

  // Whether a stripe of k * m tiles, made even, holds the line of k * cols tiles or whole columns.
  lemma WholeOrNot(k: nat, m: nat, cols: nat, group: nat)
    requires k > 0
    ensures var iters := k * m + (if group == 2 then (k * m) % 2 else 0);
            (k * cols <= iters || iters % k == 0) <==> !(group == 2 && k % 2 == 1 && k > 1 && m % 2 == 1 && cols > m)
  {
    OddProduct(k, m);
    MultipleHasNoRemainder(k, m);
    if group == 2 && (k * m) % 2 == 1 {
      if k > 1 {
        assert k * (m + 1) == k * m + k;
        OneMore(k, m);
      }
      if cols > m { MulMono(k, m + 1, cols); } else { MulMono(k, cols, m); }
    }
  }

  lemma OneMore(k: int, m: int)
    requires k > 1
    ensures (k * m + 1) % k == 1
  {
    assert k * (m + 1) == k * m + k;
    QuotientUnique(k * m + 1, k, m);
  }

  /** A launch that passes the checks and splits a column: 33 K tiles in 16 groups of 132, two
      columns on 132 CTAs. */
  lemma AcceptedAndSplit()
    ensures Accepted(2112, 16) && GroupSize(2112, 16) == 132 && Group(2112, 16) == 2
    ensures PlanIters(33, 2, 1, 132, true, 0) == 33 && PlanIters(33, 2, 1, 132, true, 2) == 34
    ensures Plan(33, 2, 1, 132, 34).Sharers(1) == 2
  {
  }
}
