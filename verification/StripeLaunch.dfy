// A Marlin launch as a whole: the reduction protocol on the tables init_slice computes.
module StripeLaunch {
  import opened Division
  import opened StripePlan
  import opened StripeCta
  import opened StripeReduce

  function ColBegin(p: Plan, b: int): int
    requires p.kTiles > 0
  {
    (p.iters * b) / p.kTiles
  }

  function ColEnd(p: Plan, b: nat): int
    requires p.kTiles > 0
  {
    if p.iters * b < p.StripeEnd(b) then (p.StripeEnd(b) - 1) / p.kTiles + 1 else ColBegin(p, b)
  }

  // The K tiles of column c that CTA b accumulates, counted from the top of the column.
  function Own(p: Plan, b: int, c: int): Sum {
    Part(if c < 0 then 0 else c,
         Max(p.iters * b, p.kTiles * c) - p.kTiles * c,
         Min(Min(p.iters * (b + 1), p.Total()), p.kTiles * (c + 1)) - p.kTiles * c)
  }

  function LaunchLayout(p: Plan): (l: Layout)
    requires p.kTiles > 0 && p.iters > 0
    ensures l.Cols() == p.Cols() && l.Blocks() == p.blocks
  {
    Layout(
      seq(p.Cols(), c requires 0 <= c => p.FirstCta(c)),
      seq(p.Cols(), c requires 0 <= c => p.LastCta(c)),
      seq(p.Cols(), c requires 0 <= c => p.SharedLock(c)),
      seq(p.blocks, b requires 0 <= b => ColBegin(p, b)),
      seq(p.blocks, b requires 0 <= b => ColEnd(p, b)),
      (b, c) => Own(p, b, c))
  }

  lemma ColumnsInLine(p: Plan, b: nat)
    requires p.Valid() && p.iters > 0
    ensures 0 <= ColBegin(p, b) <= ColEnd(p, b)
    ensures ColBegin(p, b) < ColEnd(p, b) ==> ColEnd(p, b) <= p.Cols()
  {
    MulMono(p.iters, 0, b);
    QuotientGalois(p.iters * b, p.kTiles, 0);
    if p.iters * b < p.StripeEnd(b) {
      QuotientMono(p.iters * b, p.StripeEnd(b) - 1, p.kTiles);
      QuotientGalois(p.StripeEnd(b) - 1, p.kTiles, p.Cols());
    }
  }

  // The columns between a CTA's first and last tile are the ones it works in.
  lemma ColumnsOfCta(p: Plan, b: nat, c: nat)
    requires p.Valid() && p.iters > 0 && c < p.Cols()
    ensures ColBegin(p, b) <= c < ColEnd(p, b) <==> p.FirstCta(c) <= b <= p.LastCta(c)
  {
    ColumnEdges(p, c);
    StripeMeetsRange(p.iters, b, p.kTiles * c, p.kTiles * (c + 1));
    QuotientGalois(p.StripeEnd(b) - 1, p.kTiles, c);
    QuotientGalois(p.iters * b, p.kTiles, c + 1);
  }

  // The tables of every launch meet what the protocol assumes.
  lemma {:induction false} LaunchLayoutValid(p: Plan)
    requires p.Valid() && p.iters > 0
    ensures LaunchLayout(p).Valid()
  {
    var l := LaunchLayout(p);
    forall c | 0 <= c < l.Cols()
      ensures 0 <= l.first[c] <= l.last[c] < l.Blocks()
      ensures l.Sharers(c) > 1 ==> 0 <= l.lock[c] < l.Blocks()
    {
      ColumnCtasInGrid(p, c);
      SharedLocksDistinct(p, c, c);
    }
    forall b | 0 <= b < l.Blocks()
      ensures 0 <= l.begin[b] <= l.end[b] && (l.begin[b] < l.end[b] ==> l.end[b] <= l.Cols())
    {
      ColumnsInLine(p, b);
    }
    forall b, c | 0 <= b < l.Blocks() && 0 <= c < l.Cols()
      ensures l.begin[b] <= c < l.end[b] <==> l.first[c] <= b <= l.last[c]
    {
      ColumnsOfCta(p, b, c);
    }
    forall c, c' | 0 <= c < c' < l.Cols() && l.Sharers(c) > 1 && l.Sharers(c') > 1
      ensures l.lock[c] != l.lock[c']
    {
      SharedLocksDistinct(p, c, c');
    }
  }

  // The tables of a launch.
  function Tables(p: Plan): (l: Layout)
    requires p.Valid() && p.iters > 0
    ensures l == LaunchLayout(p) && l.Valid() && l.Cols() == p.Cols() && l.Blocks() == p.blocks
  {
    LaunchLayoutValid(p);
    LaunchLayout(p)
  }

  // ---- The CTAs' own walks -------------------------------------------------------------------

  // What every CTA of the launch returned from its run.
  ghost predicate Walks(p: Plan, e: seq<int>, isEP: bool, walks: seq<seq<Slice>>) {
    && p.Valid() && p.iters > 0 && |walks| == p.blocks
    && forall b {:trigger walks[b]} :: 0 <= b < p.blocks ==> Walked(p, b, e, isEP, walks[b], p.StripeEnd(b))
  }

  // A slice as its CTA accumulates it.
  function PartOf(s: Slice): Sum { Part(s.col, s.row, s.row + s.len) }

  // The number of a CTA's column, counted from its first.
  lemma FirstColumn(p: Plan, b: nat, e: seq<int>, isEP: bool, s: Slice)
    requires p.kTiles > 0 && SliceOk(p, b, e, isEP, s) && SliceStart(p, s) == p.iters * b
    ensures s.col == ColBegin(p, b)
  {
    SliceBounds(p, b, e, isEP, s);
    assert p.kTiles * (s.col + 1) == p.kTiles * s.col + p.kTiles;
    QuotientUnique(p.iters * b, p.kTiles, s.col);
  }

  lemma LastColumn(p: Plan, b: nat, e: seq<int>, isEP: bool, s: Slice)
    requires p.kTiles > 0 && SliceOk(p, b, e, isEP, s) && SliceStop(p, s) == p.StripeEnd(b)
    ensures s.col + 1 == ColEnd(p, b)
  {
    SliceBounds(p, b, e, isEP, s);
    assert p.kTiles * (s.col + 1) == p.kTiles * s.col + p.kTiles;
    QuotientUnique(p.StripeEnd(b) - 1, p.kTiles, s.col);
  }

  /** A CTA's own slices are what the tables say of it: one for each of its columns in order, with
      the K tiles, the number of sharers, the rank and the lock of the tables. */
  lemma WalkIsTables(p: Plan, e: seq<int>, isEP: bool, walks: seq<seq<Slice>>, b: nat, j: nat)
    requires Walks(p, e, isEP, walks) && b < p.blocks
    ensures |walks[b]| == ColEnd(p, b) - ColBegin(p, b)
    ensures j < |walks[b]| ==>
      var s, l := walks[b][j], Tables(p);
      && s.col == l.begin[b] + j < |l.last| == |l.first| == |l.lock| && SliceOk(p, b, e, isEP, s)
      && l.own(b, s.col) == PartOf(s) && s.count == l.Sharers(s.col) && s.idx == Idx(l, b, s.col)
      && (s.count > 1 ==> s.lock == l.lock[s.col])
  {
    var slices := walks[b];
    assert Walked(p, b, e, isEP, slices, p.StripeEnd(b));
    if slices != [] {
      var first, last := slices[0], slices[|slices| - 1];
      assert SliceOk(p, b, e, isEP, first) && SliceOk(p, b, e, isEP, last);
      FirstColumn(p, b, e, isEP, first);
      LastColumn(p, b, e, isEP, last);
      SliceBounds(p, b, e, isEP, first);
      if j < |slices| { SliceIsTables(p, b, e, isEP, slices[j]); }
    }
  }

  lemma SliceIsTables(p: Plan, b: nat, e: seq<int>, isEP: bool, s: Slice)
    requires p.Valid() && p.iters > 0 && b < p.blocks && SliceOk(p, b, e, isEP, s)
    ensures var l := Tables(p);
      && s.col < |l.last| == |l.first| == |l.lock|
      && l.own(b, s.col) == PartOf(s) && s.count == l.Sharers(s.col) && s.idx == Idx(l, b, s.col)
      && (s.count > 1 ==> s.lock == l.lock[s.col])
  {
    SliceInLine(p, s.parId, s.sliceCol);
  }

  lemma SliceInLine(p: Plan, parId: nat, sliceCol: nat)
    requires parId < p.parallel && sliceCol < p.nTiles
    ensures parId * p.nTiles + sliceCol < p.Cols()
  {
    MulMono(p.nTiles, parId + 1, p.parallel);
    assert p.nTiles * (parId + 1) == parId * p.nTiles + p.nTiles;
  }

  // The slice of column c in the walk of CTA b.
  ghost function SliceIn(p: Plan, e: seq<int>, isEP: bool, walks: seq<seq<Slice>>, b: nat, c: nat): (s: Slice)
    requires Walks(p, e, isEP, walks) && b < p.blocks && c < p.Cols() && p.FirstCta(c) <= b <= p.LastCta(c)
    ensures s.col == c && s.idx == p.LastCta(c) - b && Tables(p).own(b, c) == PartOf(s)
  {
    ColumnsOfCta(p, b, c);
    ColumnsInLine(p, b);
    WalkIsTables(p, e, isEP, walks, b, c - ColBegin(p, b));
    walks[b][c - ColBegin(p, b)]
  }

  // The tree the walks make of a column: the slices of rank 0..d-1, each later one on top.
  ghost function WalkTree(p: Plan, e: seq<int>, isEP: bool, walks: seq<seq<Slice>>, c: nat, d: nat): Sum
    requires Walks(p, e, isEP, walks) && c < p.Cols() && 0 < d <= p.Sharers(c)
  {
    ColumnCtasInGrid(p, c);
    var part := PartOf(SliceIn(p, e, isEP, walks, p.LastCta(c) - (d - 1), c));
    if d == 1 then part else Plus(part, WalkTree(p, e, isEP, walks, c, d - 1))
  }

  lemma {:induction false} ChainIsWalkTree(p: Plan, e: seq<int>, isEP: bool, walks: seq<seq<Slice>>, c: nat, d: nat)
    requires Walks(p, e, isEP, walks) && c < p.Cols() && 0 < d <= p.Sharers(c)
    ensures Chain(Tables(p), c, d) == WalkTree(p, e, isEP, walks, c, d)
  {
    hide Plan.FirstCta, Plan.LastCta, SliceIn, Own, Walked, SliceOk, PartOf;
    ColumnCtasInGrid(p, c);
    if d > 1 { ChainIsWalkTree(p, e, isEP, walks, c, d - 1); }
  }

  /** Every run of a launch, for any tile counts, grid size and group rounding: once no CTA can
      step any more, all locks are 0 and each output column is the sum of the slices its CTAs
      walked, in the order of their ranks. */
  lemma {:induction false} LaunchReduces(p: Plan, e: seq<int>, isEP: bool, walks: seq<seq<Slice>>, run: seq<State>,
                                         final: State)
    requires Walks(p, e, isEP, walks) && IsRun(Tables(p), run)
    requires final == run[|run| - 1] && Stuck(Tables(p), final)
    ensures |final.locks| == p.blocks && forall l :: 0 <= l < p.blocks ==> final.locks[l] == 0
    ensures forall c: nat :: c < p.Cols() ==>
              && 0 < p.Sharers(c)
              && c in final.out && final.out[c] == WalkTree(p, e, isEP, walks, c, p.Sharers(c))
  {
    EveryRunReduces(Tables(p), run);
    forall c: nat | c < p.Cols()
      ensures 0 < p.Sharers(c) && c in final.out && final.out[c] == WalkTree(p, e, isEP, walks, c, p.Sharers(c))
    {
      assert Tables(p).Sharers(c) == p.Sharers(c);
      ColumnCtasInGrid(p, c);
      ChainIsWalkTree(p, e, isEP, walks, c, p.Sharers(c));
    }
  }

  /** When no column is split, every column is its K tiles 0..k_tiles-1 summed in order by one
      CTA: the tree does not mention the grid size or the number of MoE blocks. */
  lemma {:induction false} WholeColumnTree(p: Plan, c: nat)
    requires p.Valid() && c < p.Cols() && p.iters > 0 && p.Sharers(c) == 1
    ensures Chain(Tables(p), c, 1) == Part(c, 0, p.kTiles)
  {
    ColumnCtasInGrid(p, c);
    ColumnEdges(p, c);
    var b := p.FirstCta(c);
    QuotientGalois(p.kTiles * c, p.iters, b);
    QuotientGalois(p.kTiles * (c + 1) - 1, p.iters, b + 1);
  }

  function WholeKPlan(k: nat, n: nat, parallel: nat, blocks: nat, group: nat): (p: Plan)
    requires k > 0 && n > 0 && blocks > 0
    ensures p.Valid() && (parallel > 0 ==> p.iters > 0)
  {
    PlanItersValid(k, n, parallel, blocks, true, group);
    Plan(k, n, parallel, blocks, PlanIters(k, n, parallel, blocks, true, group))
  }

  /** Batch invariance of whole-K mode: every complete run of every launch leaves the same tree
      in column c, so grid size, number of blocks and interleaving do not show. */
  lemma {:induction false} WholeKBatchInvariant(k: nat, n: nat, parallel: nat, blocks: nat, group: nat,
                                                c: nat, run: seq<State>, final: State)
    requires k > 0 && n > 0 && blocks > 0 && (group != 0 ==> k % group == 0) && parallel > 0
    requires c < n * parallel
    requires var tables := Tables(WholeKPlan(k, n, parallel, blocks, group));
             IsRun(tables, run) && final == run[|run| - 1] && Stuck(tables, final)
    ensures c in final.out && final.out[c] == Part(c, 0, k)
  {
    var p := WholeKPlan(k, n, parallel, blocks, group);
    WholeKKeepsColumnsWhole(k, n, parallel, blocks, group, c);
    EveryRunReduces(Tables(p), run);
    assert Tables(p).Sharers(c) == 1;
    WholeColumnTree(p, c);
  }
}
