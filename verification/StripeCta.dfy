// One CTA of the Marlin kernel: it walks its stripe column slice by column slice.
module StripeCta {
  import opened Division
  import opened StripePlan

  // What one pass of the main loop works on.
  datatype Slice = Slice(col: nat, parId: nat, sliceCol: nat, row: nat, len: nat,
                         count: int, idx: int, lock: int, block: int)

  // ---- MoE blocks ----------------------------------------------------------------------

  // Blocks whose expert is present; -1 marks a block filtered by expert parallelism.
  function ValidBlocks(expertIds: seq<int>): (n: nat)
    ensures n <= |expertIds|
  {
    if expertIds == [] then 0
    else ValidBlocks(expertIds[..|expertIds| - 1]) + (if expertIds[|expertIds| - 1] == -1 then 0 else 1)
  }

  // Block i is the one MoE problem number parId runs on: the parId-th present block.
  ghost predicate IsBlockOf(expertIds: seq<int>, isEP: bool, parId: nat, i: int) {
    && 0 <= i < |expertIds|
    && if isEP then expertIds[i] != -1 && ValidBlocks(expertIds[..i]) == parId else i == parId
  }

  lemma {:induction false} ValidBlocksGrow(e: seq<int>, i: nat, j: nat)
    requires i <= j <= |e|
    ensures ValidBlocks(e[..i]) <= ValidBlocks(e[..j]) <= ValidBlocks(e[..i]) + (j - i)
    decreases j - i
  {
    if i < j {
      ValidBlocksGrow(e, i, j - 1);
      assert e[..j][..j - 1] == e[..j - 1];
    }
  }

  // Each MoE problem has one block, and different problems have different blocks.
  lemma {:induction false} BlockOfIsInjective(e: seq<int>, isEP: bool, p: nat, i: int, q: nat, j: int)
    requires IsBlockOf(e, isEP, p, i) && IsBlockOf(e, isEP, q, j)
    ensures p == q <==> i == j
  {
    if isEP && i != j {
      var lo, hi := if i < j then i else j, if i < j then j else i;
      assert e[..lo + 1][..lo] == e[..lo];
      ValidBlocksGrow(e, lo + 1, hi);
    }
  }

  lemma WholeSlice(e: seq<int>)
    ensures e[..|e|] == e
  {
  }

  lemma AllValidCount(e: seq<int>, i: nat)
    requires i <= |e| && ValidBlocks(e) == |e|
    ensures ValidBlocks(e[..i]) == i && (i < |e| ==> e[i] != -1)
  {
    assert e[..|e|] == e && e[..0] == [];
    ValidBlocksGrow(e, 0, i);
    ValidBlocksGrow(e, i, |e|);
    if i < |e| {
      assert e[..i + 1][..i] == e[..i];
      ValidBlocksGrow(e, i + 1, |e|);
    }
  }

  // ---- slices ---------------------------------------------------------------------------

  function Max(a: int, b: int): int { if a >= b then a else b }

  // A slice of CTA b is the part of one column inside its stripe, with the numbers the
  // reduction over the CTAs of that column needs.
  ghost predicate SliceOk(p: Plan, b: nat, e: seq<int>, isEP: bool, s: Slice) {
    && p.iters > 0 && s.parId < p.parallel && s.sliceCol < p.nTiles
    && s.col == s.parId * p.nTiles + s.sliceCol
    && s.len > 0
    && p.kTiles * s.col + s.row == Max(p.iters * b, p.kTiles * s.col)
    && p.kTiles * s.col + s.row + s.len == Min(p.StripeEnd(b), p.kTiles * (s.col + 1))
    && s.count == p.Sharers(s.col) && s.idx == p.LastCta(s.col) - b && 0 <= s.idx < s.count
    && (s.count > 1 ==> s.lock == p.SharedLock(s.col))
    && IsBlockOf(e, isEP, s.parId, s.block)
  }

  // Consecutive slices of CTA b from its first tile up to a tile of the line.
  ghost predicate Walked(p: Plan, b: nat, e: seq<int>, isEP: bool, slices: seq<Slice>, stop: int) {
    && (forall j {:trigger slices[j]} :: 0 <= j < |slices| ==>
          SliceOk(p, b, e, isEP, slices[j]) && slices[j].col == slices[0].col + j)
    && (slices != [] ==> SliceStart(p, slices[0]) == p.iters * b && SliceStop(p, slices[|slices| - 1]) == stop)
    && (slices == [] ==> stop <= p.iters * b)
  }

  lemma NotWalked(p: Plan, b: nat, e: seq<int>, isEP: bool, stop: int)
    requires stop <= p.iters * b
    ensures Walked(p, b, e, isEP, [], stop)
  {
  }

  lemma WalkExtended(p: Plan, b: nat, e: seq<int>, isEP: bool, slices: seq<Slice>, s: Slice)
    requires Walked(p, b, e, isEP, slices, SliceStart(p, s)) && SliceOk(p, b, e, isEP, s)
    requires slices != [] ==> s.col == slices[|slices| - 1].col + 1
    requires slices == [] ==> SliceStart(p, s) == p.iters * b
    ensures Walked(p, b, e, isEP, slices + [s], SliceStop(p, s))
  {
  }

  class Cta {
    const p: Plan
    const b: nat               // blockIdx.x
    const expertIds: seq<int>  // one entry per padded MoE block
    const isEP: bool

    var sliceRow: int
    var sliceColPar: int
    var sliceCol: int
    var sliceIters: int
    var sliceCount: int
    var sliceIdx: int
    var parId: int
    var blockId: int
    var locksOff: int

    // The launch parameters fit together: `parallel` counts the blocks to run.
    ghost predicate Launched() {
      && p.Valid() && b < p.blocks
      && p.parallel == (if isEP then ValidBlocks(expertIds) else |expertIds|)
    }

    ghost function At(): int reads this { p.kTiles * sliceColPar + sliceRow }

    ghost function LockBefore(): int reads this {
      if p.Cols() >= p.blocks then b else sliceColPar - 1
    }

    ghost function LockAfter(): int reads this {
      LockBefore() + (if p.Cols() < p.blocks || (sliceCount > 1 && sliceIdx == sliceCount - 1) then 1 else 0)
    }

    // The CTA stands at a slice boundary, before init_slice looks at it.
    ghost predicate AtBoundary()
      reads this
    {
      && Launched()
      && 0 <= sliceRow < p.kTiles && 0 <= sliceColPar && 0 <= parId
      && 0 <= sliceCol <= p.nTiles
      && sliceColPar == parId * p.nTiles + sliceCol
      && p.iters * b <= At()
      && (sliceRow > 0 ==> At() == p.iters * b)
      && (At() < p.StripeEnd(b) ==> locksOff == LockBefore())
      && (At() < p.StripeEnd(b) && parId < p.parallel ==> IsBlockOf(expertIds, isEP, parId, blockId))
    }

    // init_slice found work, and everything it computed is right.
    ghost predicate InSlice()
      reads this
    {
      && AtSlice()
      && SliceOk(p, b, expertIds, isEP, Current())
    }

    ghost predicate AtSlice()
      reads this
    {
      && Launched()
      && 0 <= sliceRow < p.kTiles && 0 <= sliceColPar && 0 <= parId && 0 <= sliceCol && 0 < sliceIters
      && locksOff == LockAfter()
    }

    function Current(): Slice
      reads this
      requires 0 <= sliceRow && 0 <= sliceColPar && 0 <= parId && 0 <= sliceCol && 0 < sliceIters
    {
      Slice(sliceColPar, parId, sliceCol, sliceRow, sliceIters, sliceCount, sliceIdx, locksOff, blockId)
    }

    constructor (p: Plan, b: nat, expertIds: seq<int>, isEP: bool)
      requires p.Valid() && b < p.blocks
      requires p.parallel == (if isEP then ValidBlocks(expertIds) else |expertIds|)
      ensures this.p == p && this.b == b && this.expertIds == expertIds && this.isEP == isEP
      ensures AtBoundary() && At() == p.iters * b
    {
      this.p, this.b, this.expertIds, this.isEP := p, b, expertIds, isEP;
      sliceRow := (p.iters * b) % p.kTiles;
      var start := (p.iters * b) / p.kTiles;
      sliceColPar := start;
      sliceIters, sliceCount, sliceIdx := 0, 0, 0;
      blockId := -1;
      sliceCol := if start >= p.nTiles then start % p.nTiles else start;
      parId := if start >= p.nTiles then start / p.nTiles else 0;
      locksOff := if p.parallel * p.nTiles >= p.blocks then b else start - 1;
      new;
      StartPosition(p, b);
      UpdateNextMoeBlock();
    }

    // Move to the block of problem parId; -1 means no block has been read yet.
    method UpdateNextMoeBlock()
      requires Launched() && 0 <= parId
      requires blockId == -1
            || (0 < parId && IsBlockOf(expertIds, isEP, parId - 1, blockId))
      modifies this`blockId
      ensures parId < p.parallel ==> IsBlockOf(expertIds, isEP, parId, blockId)
      ensures parId >= p.parallel ==> blockId == old(blockId)
    {
      if parId >= p.parallel { return; }
      if isEP && |expertIds| - p.parallel > 0 {
        var skipCount := if blockId == -1 then parId else 0;
        var i := blockId + 1;
        ghost var from := i;
        if blockId == -1 {
          assert expertIds[..0] == [];
        } else {
          assert expertIds[..i][..blockId] == expertIds[..blockId];
        }
        while i < |expertIds|
          invariant 0 <= i <= |expertIds|
          invariant ValidBlocks(expertIds[..i]) + skipCount == parId && 0 <= skipCount
        {
          assert expertIds[..i + 1][..i] == expertIds[..i];
          if expertIds[i] != -1 {
            if skipCount == 0 {
              blockId := i;
              return;
            }
            skipCount := skipCount - 1;
          }
          i := i + 1;
        }
        WholeSlice(expertIds);
        assert false;
      } else {
        blockId := parId;
        if isEP { AllValidCount(expertIds, parId); }
      }
    }

    // Everything about the current slice that synchronization needs.
    method InitSlice()
      requires AtBoundary()
      modifies this`sliceIters, this`sliceCount, this`sliceIdx, this`locksOff, this`sliceCol, this`parId, this`blockId
      ensures old(At()) >= p.StripeEnd(b) ==> sliceIters == 0
      ensures old(At()) < p.StripeEnd(b) ==> sliceIters > 0 && InSlice()
    {
      ClampIters();
      if sliceIters == 0 { return; }
      ShareOfColumn();
      SliceCountIsSharers(p, sliceColPar);
      SliceIdxIsRankFromBottom(p, sliceColPar, b);
      PickLock();
      EnterProblem();
    }

    // locks_off: the lock of the column about to be reduced.
    method PickLock()
      requires Launched() && sliceColPar >= 0 && p.iters > 0
      requires p.FirstCta(sliceColPar) <= b <= p.LastCta(sliceColPar)
      requires sliceCount == p.Sharers(sliceColPar) && sliceIdx == p.LastCta(sliceColPar) - b
      requires locksOff == LockBefore()
      modifies this`locksOff
      ensures sliceCount > 1 ==> locksOff == p.SharedLock(sliceColPar)
      ensures locksOff == LockAfter()
    {
      if p.parallel * p.nTiles >= p.blocks {
        if sliceCount > 1 && sliceIdx == sliceCount - 1 { locksOff := locksOff + 1; }
      } else {
        locksOff := locksOff + 1;
      }
      if p.Cols() >= p.blocks && p.Sharers(sliceColPar) > 1 { LockIsShared(p, b, sliceColPar); }
    }

    // Wrap to the next MoE problem when the columns of the current one are done.
    method EnterProblem()
      requires Launched() && 0 <= parId && 0 <= sliceCol <= p.nTiles
      requires 0 <= sliceColPar < p.Cols() && sliceColPar == parId * p.nTiles + sliceCol
      requires parId < p.parallel ==> IsBlockOf(expertIds, isEP, parId, blockId)
      modifies this`sliceCol, this`parId, this`blockId
      ensures 0 <= parId < p.parallel && 0 <= sliceCol < p.nTiles
      ensures sliceColPar == parId * p.nTiles + sliceCol
      ensures IsBlockOf(expertIds, isEP, parId, blockId)
    {
      ProblemOfColumn(p, sliceColPar, parId, sliceCol);
      if sliceCol == p.nTiles {
        sliceCol := 0;
        parId := parId + 1;
        UpdateNextMoeBlock();
      }
    }

    // slice_iters: the rest of the stripe, cut at the end of the column.
    method ClampIters()
      requires AtBoundary()
      modifies this`sliceIters
      ensures At() >= p.StripeEnd(b) ==> sliceIters == 0
      ensures At() < p.StripeEnd(b) ==>
                && sliceIters > 0 && sliceColPar < p.Cols() && p.iters > 0
                && p.FirstCta(sliceColPar) <= b <= p.LastCta(sliceColPar)
                && At() == Max(p.iters * b, p.kTiles * sliceColPar)
                && At() + sliceIters == Min(p.StripeEnd(b), p.kTiles * (sliceColPar + 1))
    {
      sliceIters := p.iters * (b + 1) - (p.kTiles * sliceColPar + sliceRow);
      if sliceIters < 0 || sliceColPar >= p.nTiles * p.parallel { sliceIters := 0; }
      PositionInLine(p, sliceColPar, sliceRow);
      if sliceIters == 0 { return; }
      if sliceRow + sliceIters > p.kTiles { sliceIters := p.kTiles - sliceRow; }
      BoundaryIsMine(p, b, sliceColPar, sliceRow, sliceIters);
    }

    // slice_count and slice_idx.
    method ShareOfColumn()
      requires p.iters > 0 && sliceColPar >= 0
      modifies this`sliceCount, this`sliceIdx
      ensures sliceCount == CodeSliceCount(p, sliceColPar)
      ensures sliceIdx == CodeSliceIdx(p, sliceColPar, b)
    {
      sliceCount := 1;
      sliceIdx := 0;
      var colFirst := p.iters * DivCeil(p.kTiles * sliceColPar, p.iters);
      if colFirst <= p.kTiles * (sliceColPar + 1) {
        var colOff := colFirst - p.kTiles * sliceColPar;
        sliceCount := DivCeil(p.kTiles - colOff, p.iters);
        if colOff > 0 { sliceCount := sliceCount + 1; }
        var deltaFirst := p.iters * b - colFirst;
        if deltaFirst < 0 || (colOff == 0 && deltaFirst == 0) {
          sliceIdx := sliceCount - 1;
        } else {
          sliceIdx := sliceCount - 1 - deltaFirst / p.iters;
          if colOff > 0 { sliceIdx := sliceIdx - 1; }
        }
      }
    }

    /** The whole life of a CTA. `tiles` lists the line tiles it multiplies, in order;
        `slices` the column slices it reduces. */
    method Run() returns (tiles: seq<int>, slices: seq<Slice>)
      requires AtBoundary() && At() == p.iters * b
      modifies this
      ensures |tiles| == Max(0, p.StripeEnd(b) - p.iters * b)
      ensures forall j :: 0 <= j < |tiles| ==> tiles[j] == p.iters * b + j
      ensures Walked(p, b, expertIds, isEP, slices, p.StripeEnd(b)) && (|tiles| == 0 <==> slices == [])
    {
      hide SliceOk, Walked, Plan.Valid, IsBlockOf;
      tiles, slices := [], [];
      ghost var lo, hi := p.iters * b, p.StripeEnd(b);
      NotWalked(p, b, expertIds, isEP, lo);
      InitSlice();
      while sliceIters != 0
        invariant sliceIters != 0 ==> InSlice() && At() == lo + |tiles| && At() < hi
        invariant sliceIters == 0 ==> |tiles| == Max(0, hi - lo)
        invariant forall j :: 0 <= j < |tiles| ==> tiles[j] == lo + j
        invariant Walked(p, b, expertIds, isEP, slices, lo + |tiles|) && (|tiles| == 0 <==> slices == [])
        invariant sliceIters != 0 && slices != [] ==> sliceColPar == slices[|slices| - 1].col + 1
        decreases hi - lo - |tiles|
      {
        ghost var s := Current();
        SliceBounds(p, b, expertIds, isEP, s);
        WalkExtended(p, b, expertIds, isEP, slices, s);
        slices := slices + [Current()];
        tiles := MultiplySlice(tiles);
        NextColumn(s);
        InitSlice();
      }
      if slices == [] { NotWalked(p, b, expertIds, isEP, hi); }
    }

    // The k loop: one tile per decrement of slice_iters.
    method MultiplySlice(done: seq<int>) returns (tiles: seq<int>)
      requires sliceIters >= 0
      modifies this`sliceIters
      ensures sliceIters == 0
      ensures |tiles| == |done| + old(sliceIters) && done <= tiles
      ensures forall j :: |done| <= j < |tiles| ==> tiles[j] == At() + (j - |done|)
    {
      tiles := done;
      while sliceIters > 0
        invariant 0 <= sliceIters <= old(sliceIters)
        invariant |tiles| == |done| + old(sliceIters) - sliceIters && done <= tiles
        invariant forall j :: |done| <= j < |tiles| ==> tiles[j] == At() + (j - |done|)
      {
        tiles := tiles + [p.kTiles * sliceColPar + sliceRow + (|tiles| - |done|)];
        sliceIters := sliceIters - 1;
      }
    }

    // After a slice: the top of the next column. `s` is the slice just finished.
    method NextColumn(ghost s: Slice)
      requires Launched() && SliceOk(p, b, expertIds, isEP, s) && sliceIters == 0
      requires 0 <= sliceColPar && 0 <= parId && 0 <= sliceCol && 0 <= sliceRow
      requires s == Slice(sliceColPar, parId, sliceCol, sliceRow, s.len, sliceCount, sliceIdx, locksOff, blockId)
      requires locksOff == LockAfter()
      modifies this`sliceRow, this`sliceColPar, this`sliceCol
      ensures sliceColPar == s.col + 1
      ensures AtBoundary()
      ensures SliceStop(p, s) < p.StripeEnd(b) ==> At() == SliceStop(p, s)
      ensures SliceStop(p, s) == p.StripeEnd(b) ==> At() >= p.StripeEnd(b)
    {
      SliceBounds(p, b, expertIds, isEP, s);
      if s.count > 1 && s.idx == s.count - 1 { LastOfColumnEnds(p, b, expertIds, isEP, s); }
      sliceRow := 0;
      sliceColPar := sliceColPar + 1;
      sliceCol := sliceCol + 1;
    }
  }

  function SliceStart(p: Plan, s: Slice): int { p.kTiles * s.col + s.row }

  function SliceStop(p: Plan, s: Slice): int { p.kTiles * s.col + s.row + s.len }

  // ---- lemmas for the walk ------------------------------------------------------------------

  lemma StartPosition(p: Plan, b: nat)
    requires p.Valid()
    ensures var start := (p.iters * b) / p.kTiles;
            && 0 <= start && p.kTiles * start + (p.iters * b) % p.kTiles == p.iters * b
            && start == (start / p.nTiles) * p.nTiles + start % p.nTiles
            && (start < p.nTiles ==> start / p.nTiles == 0 && start % p.nTiles == start)
  {
    MulMono(p.iters, 0, b);
    QuotientGalois(p.iters * b, p.kTiles, 0);
    var start := (p.iters * b) / p.kTiles;
    if start < p.nTiles { QuotientUnique(start, p.nTiles, 0); }
  }

  lemma PositionInLine(p: Plan, c: nat, r: nat)
    requires p.kTiles > 0 && r < p.kTiles
    ensures c >= p.Cols() <==> p.kTiles * c + r >= p.Total()
  {
    if c >= p.Cols() {
      MulMono(p.kTiles, p.Cols(), c);
    } else {
      MulMono(p.kTiles, c + 1, p.Cols());
      assert p.kTiles * (c + 1) == p.kTiles * c + p.kTiles;
    }
  }

  // A slice boundary inside the stripe lies in a column the CTA works in.
  lemma BoundaryIsMine(p: Plan, b: nat, c: nat, r: nat, len: int)
    requires p.Valid() && c < p.Cols() && r < p.kTiles
    requires p.iters * b <= p.kTiles * c + r < p.iters * (b + 1)
    requires r > 0 ==> p.kTiles * c + r == p.iters * b
    requires len == Min(p.iters * (b + 1) - (p.kTiles * c + r), p.kTiles - r)
    ensures p.iters > 0 && p.FirstCta(c) <= b <= p.LastCta(c)
    ensures p.kTiles * c + r < p.StripeEnd(b)
    ensures p.kTiles * c + r == Max(p.iters * b, p.kTiles * c)
    ensures p.kTiles * c + r + len == Min(p.StripeEnd(b), p.kTiles * (c + 1))
  {
    ColumnEdges(p, c);
    var t := p.kTiles * c + r;
    QuotientUnique(t, p.iters, b);
    QuotientMono(p.kTiles * c, t, p.iters);
    QuotientMono(t, p.kTiles * (c + 1) - 1, p.iters);
  }

  lemma LockIsShared(p: Plan, b: nat, c: nat)
    requires p.Valid() && p.iters > 0 && p.FirstCta(c) <= b <= p.LastCta(c)
    requires p.Sharers(c) > 1
    requires p.Cols() >= p.blocks
    ensures p.SharedLock(c) == if p.LastCta(c) - b == p.Sharers(c) - 1 then b + 1 else b
  {
    LastCtaStartsInside(p, c);
  }

  lemma ProblemOfColumn(p: Plan, c: nat, parId: nat, sliceCol: nat)
    requires c < p.Cols() && sliceCol <= p.nTiles && c == parId * p.nTiles + sliceCol
    ensures parId < p.parallel
    ensures sliceCol == p.nTiles ==> c == (parId + 1) * p.nTiles && parId + 1 < p.parallel
  {
    assert p.Cols() == p.nTiles * p.parallel;
    assert (parId + 1) * p.nTiles == parId * p.nTiles + p.nTiles;
    if p.parallel <= parId { MulMono(p.nTiles, p.parallel, parId); }
    if sliceCol == p.nTiles && p.parallel <= parId + 1 { MulMono(p.nTiles, p.parallel, parId + 1); }
  }

  lemma SliceBounds(p: Plan, b: nat, e: seq<int>, isEP: bool, s: Slice)
    requires SliceOk(p, b, e, isEP, s)
    ensures p.iters * b <= SliceStart(p, s) < SliceStop(p, s) <= p.StripeEnd(b)
    ensures SliceStop(p, s) <= p.kTiles * (s.col + 1)
    ensures SliceStop(p, s) < p.StripeEnd(b) ==> SliceStop(p, s) == p.kTiles * (s.col + 1)
  {
  }

  // The CTA that starts a shared column leaves the rest of it to others.
  lemma LastOfColumnEnds(p: Plan, b: nat, e: seq<int>, isEP: bool, s: Slice)
    requires SliceOk(p, b, e, isEP, s) && s.count > 1 && s.idx == s.count - 1
    ensures p.iters * (b + 1) < p.kTiles * (s.col + 1)
  {
    QuotientGalois(p.kTiles * (s.col + 1) - 1, p.iters, b + 1);
  }

  // ---- the whole launch -----------------------------------------------------------------------

  /** Over the runs of all CTAs, every tile of the line is multiplied exactly once. */
  lemma {:induction false} EveryTileOnce(p: Plan, visits: seq<seq<int>>, t: nat)
    requires p.Valid() && |visits| == p.blocks && t < p.Total()
    requires forall b :: 0 <= b < p.blocks ==> |visits[b]| == Max(0, p.StripeEnd(b) - p.iters * b)
    requires forall b, j :: 0 <= b < p.blocks && 0 <= j < |visits[b]| ==> visits[b][j] == p.iters * b + j
    ensures exists b, j :: 0 <= b < p.blocks && 0 <= j < |visits[b]| && visits[b][j] == t
    ensures forall b, j, b', j' ::
              && 0 <= b < p.blocks && 0 <= j < |visits[b]| && visits[b][j] == t
              && 0 <= b' < p.blocks && 0 <= j' < |visits[b']| && visits[b'][j'] == t
              ==> b == b' && j == j'
  {
    TileHasOneOwner(p, t);
    var b: nat :| b < p.blocks && p.Owns(b, t);
    assert visits[b][t - p.iters * b] == t;
    forall b, j, b', j' |
      && 0 <= b < p.blocks && 0 <= j < |visits[b]| && visits[b][j] == t
      && 0 <= b' < p.blocks && 0 <= j' < |visits[b']| && visits[b'][j'] == t
      ensures b == b' && j == j'
    {
      assert p.Owns(b, t) && p.Owns(b', t);
    }
  }
}
