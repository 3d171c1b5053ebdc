// The line of k_tiles * n_tiles * parallel tiles and its cut into equal stripes.
//
// A tile is numbered along the line: tile k * c + r is K-step r of output column c,
// where columns are numbered over all MoE blocks (c = par_id * n_tiles + slice_col).
// CTA b owns the tiles [iters * b, iters * (b + 1)) that exist.
module StripePlan {
  import opened Division

  datatype Plan = Plan(kTiles: nat, nTiles: nat, parallel: nat, blocks: nat, iters: nat) {
    function Cols(): nat { nTiles * parallel }

    function Total(): nat { kTiles * Cols() }

    // What the launch establishes about `iters` (proved of PlanIters below).
    ghost predicate Valid() {
      && kTiles > 0 && nTiles > 0 && blocks > 0
      && Total() <= iters * blocks
      && (Cols() >= blocks ==> iters >= kTiles)
    }

    function StripeEnd(b: nat): (e: nat) { Min(iters * (b + 1), Total()) }

    // CTA b computes some tile of column c.
    ghost predicate Works(b: nat, c: nat) {
      exists t: nat :: Owns(b, t) && InColumn(t, c)
    }

    ghost predicate Owns(b: nat, t: nat) { iters * b <= t < StripeEnd(b) }

    ghost predicate InColumn(t: nat, c: nat) { kTiles * c <= t < kTiles * (c + 1) }

    function FirstCta(c: nat): int requires iters > 0 { (kTiles * c) / iters }

    function LastCta(c: nat): int requires iters > 0 { (kTiles * (c + 1) - 1) / iters }

    function Sharers(c: nat): int requires iters > 0 { LastCta(c) - FirstCta(c) + 1 }

    function SharedLock(c: nat): int requires iters > 0 {
      if Cols() >= blocks then LastCta(c) else c
    }
  }

  /** `iters` as the kernel computes it: whole-K or split-K, then rounded to whole
      quantization groups when `group` (group_blocks / thread_k_blocks) is not 0. */
  function PlanIters(kTiles: nat, nTiles: nat, parallel: nat, blocks: nat, wholeK: bool, group: nat): (iters: int)
    requires blocks > 0
  {
    var base := if wholeK then WholeKStripeIters(kTiles, nTiles, parallel, blocks)
                else DivCeil(kTiles * nTiles * parallel, blocks);
    if group == 0 then base else group * DivCeil(base, group)
  }

  function WholeKStripeIters(kTiles: nat, nTiles: nat, parallel: nat, blocks: nat): int
    requires blocks > 0
  {
    kTiles * ((nTiles * parallel + blocks - 1) / blocks)
  }

  // ---- the launch establishes Valid -------------------------------------------------

  lemma SplitKCover(total: nat, k: nat, cols: nat, blocks: nat)
    requires blocks > 0 && total == k * cols
    ensures total <= DivCeil(total, blocks) * blocks
    ensures cols >= blocks ==> DivCeil(total, blocks) >= k
  {
    DivCeilBounds(total, blocks);
    if cols >= blocks {
      MulMono(k, blocks, cols);
      CeilAtLeast(total, blocks, k);
    }
  }

  lemma WholeKCover(k: nat, cols: nat, blocks: nat)
    requires blocks > 0
    ensures DivCeil(cols, blocks) >= 0 && k * DivCeil(cols, blocks) >= 0
    ensures k * cols <= k * DivCeil(cols, blocks) * blocks
    ensures cols >= blocks ==> k * DivCeil(cols, blocks) >= k
  {
    var q := DivCeil(cols, blocks);
    DivCeilBounds(cols, blocks);
    CeilAtLeast(cols, blocks, 0);
    MulMono(k, 0, q);
    MulMono(k, cols, q * blocks);
    MulAssoc(k, q, blocks);
    if cols >= blocks {
      CeilAtLeast(cols, blocks, 1);
      MulMono(k, 1, q);
    }
  }

  lemma CeilAtLeast(a: int, b: int, m: int)
    requires b > 0 && a >= m * b
    ensures DivCeil(a, b) >= m
  {
    DivCeilBounds(a, b);
    var q := DivCeil(a, b);
    if q < m { MulMono(b, q + 1, m); }
  }

  // Rounding up to whole groups only lengthens a stripe, and keeps zero at zero.
  lemma RoundingGrows(base: nat, group: nat)
    requires group > 0
    ensures base <= group * DivCeil(base, group)
    ensures base == 0 ==> DivCeil(base, group) == 0
  {
    DivCeilBounds(base, group);
    if base == 0 { CeilOfZero(group); }
  }

  lemma BaseItersValid(k: nat, n: nat, parallel: nat, blocks: nat, wholeK: bool)
    requires k > 0 && n > 0 && blocks > 0
    ensures var base := PlanIters(k, n, parallel, blocks, wholeK, 0);
            base >= 0 && Plan(k, n, parallel, blocks, base).Valid()
  {
    TripleProduct(k, n, parallel);
    if wholeK {
      WholeKCover(k, n * parallel, blocks);
    } else {
      SplitKCover(k * n * parallel, k, n * parallel, blocks);
    }
  }

  lemma BaseItersZero(k: nat, n: nat, parallel: nat, blocks: nat, wholeK: bool)
    requires k > 0 && n > 0 && blocks > 0
    ensures parallel == 0 <==> PlanIters(k, n, parallel, blocks, wholeK, 0) == 0
  {
    TripleProduct(k, n, parallel);
    if parallel == 0 {
      CeilOfZero(blocks);
    } else {
      BaseItersValid(k, n, parallel, blocks, wholeK);
      NonzeroCover(k * (n * parallel), PlanIters(k, n, parallel, blocks, wholeK, 0), blocks);
    }
  }

  lemma TripleProduct(k: nat, n: nat, m: nat)
    ensures k * n * m == k * (n * m)
    ensures m == 0 ==> k * (n * m) == 0
    ensures k > 0 && n > 0 && m > 0 ==> k * (n * m) > 0
  {
    if k > 0 && n > 0 && m > 0 {
      ProductPositive(n, m);
      ProductPositive(k, n * m);
    }
  }

  lemma CeilOfZero(b: nat)
    requires b > 0
    ensures DivCeil(0, b) == 0
  {
    QuotientUnique(b - 1, b, 0);
  }

  lemma ProductPositive(x: int, y: int)
    requires x > 0 && y > 0
    ensures x * y > 0
  {
  }

  lemma NonzeroCover(total: int, iters: int, blocks: int)
    requires 0 < total <= iters * blocks && blocks > 0
    ensures iters > 0
  {
    if iters <= 0 { MulMono(blocks, iters, 0); }
  }

  lemma LongerIsValid(p: Plan, iters: nat)
    requires p.Valid() && p.iters <= iters
    ensures p.(iters := iters).Valid()
  {
    MulMono(p.blocks, p.iters, iters);
  }

  lemma PlanItersValid(k: nat, n: nat, parallel: nat, blocks: nat, wholeK: bool, group: nat)
    requires k > 0 && n > 0 && blocks > 0
    ensures PlanIters(k, n, parallel, blocks, wholeK, group) >= 0
    ensures Plan(k, n, parallel, blocks, PlanIters(k, n, parallel, blocks, wholeK, group)).Valid()
    ensures parallel == 0 <==> PlanIters(k, n, parallel, blocks, wholeK, group) == 0
  {
    BaseItersValid(k, n, parallel, blocks, wholeK);
    BaseItersZero(k, n, parallel, blocks, wholeK);
    var base := PlanIters(k, n, parallel, blocks, wholeK, 0);
    if group != 0 {
      RoundingGrows(base, group);
      LongerIsValid(Plan(k, n, parallel, blocks, base), group * DivCeil(base, group));
    }
  }

  // Stripes of i tiles are long enough: they cover the line, in whole-K mode by whole columns.
  ghost predicate LongEnough(k: nat, n: nat, parallel: nat, blocks: nat, wholeK: bool, i: int) {
    if wholeK then exists m: nat :: ColumnsFit(k, n * parallel, blocks, m, i) else k * (n * parallel) <= blocks * i
  }

  // m columns per CTA are enough, and a stripe of i tiles holds them.
  ghost predicate ColumnsFit(k: nat, cols: nat, blocks: nat, m: nat, i: int) {
    cols <= blocks * m && k * m <= i
  }

  /** The stripe length is the least that is long enough and, if stripes are rounded, a whole number
      of groups; so no stripe of any CTA starts inside a group. */
  lemma {:induction false} StripeIsLeast(k: nat, n: nat, parallel: nat, blocks: nat, wholeK: bool, group: nat, b: nat)
    requires k > 0 && n > 0 && blocks > 0
    ensures var iters := PlanIters(k, n, parallel, blocks, wholeK, group);
      && LongEnough(k, n, parallel, blocks, wholeK, iters)
      && (group > 0 ==> iters % group == 0 && (iters * b) % group == 0)
      && forall i: nat :: LongEnough(k, n, parallel, blocks, wholeK, i) && (group > 0 ==> i % group == 0) ==> iters <= i
  {
    var base, iters := PlanIters(k, n, parallel, blocks, wholeK, 0), PlanIters(k, n, parallel, blocks, wholeK, group);
    BaseItersValid(k, n, parallel, blocks, wholeK);
    BaseLongEnough(k, n, parallel, blocks, wholeK);
    if group > 0 {
      RoundingGrows(base, group);
      WholeGroups(group, DivCeil(base, group), b);
      LongerIsEnough(k, n, parallel, blocks, wholeK, base, iters);
    }
    forall i: nat | LongEnough(k, n, parallel, blocks, wholeK, i) && (group > 0 ==> i % group == 0) ensures iters <= i {
      BaseIsLeast(k, n, parallel, blocks, wholeK, i);
      if group > 0 { RoundedIsLeast(base, group, i); }
    }
  }

  lemma BaseLongEnough(k: nat, n: nat, parallel: nat, blocks: nat, wholeK: bool)
    requires k > 0 && n > 0 && blocks > 0
    ensures LongEnough(k, n, parallel, blocks, wholeK, PlanIters(k, n, parallel, blocks, wholeK, 0))
  {
    TripleProduct(k, n, parallel);
    if wholeK {
      DivCeilBounds(n * parallel, blocks);
      CeilAtLeast(n * parallel, blocks, 0);
      assert ColumnsFit(k, n * parallel, blocks, DivCeil(n * parallel, blocks),
                        PlanIters(k, n, parallel, blocks, true, 0));
    } else {
      DivCeilBounds(k * (n * parallel), blocks);
    }
  }

  lemma LongerIsEnough(k: nat, n: nat, parallel: nat, blocks: nat, wholeK: bool, i: int, longer: int)
    requires LongEnough(k, n, parallel, blocks, wholeK, i) && i <= longer
    ensures LongEnough(k, n, parallel, blocks, wholeK, longer)
  {
    if wholeK {
      var m: nat :| ColumnsFit(k, n * parallel, blocks, m, i);
      assert ColumnsFit(k, n * parallel, blocks, m, longer);
    } else {
      MulMono(blocks, i, longer);
    }
  }

  lemma BaseIsLeast(k: nat, n: nat, parallel: nat, blocks: nat, wholeK: bool, i: nat)
    requires k > 0 && n > 0 && blocks > 0 && LongEnough(k, n, parallel, blocks, wholeK, i)
    ensures PlanIters(k, n, parallel, blocks, wholeK, 0) <= i
  {
    TripleProduct(k, n, parallel);
    if wholeK {
      var m: nat :| ColumnsFit(k, n * parallel, blocks, m, i);
      CeilAtMost(n * parallel, blocks, m);
      MulMono(k, DivCeil(n * parallel, blocks), m);
    } else {
      CeilAtMost(k * (n * parallel), blocks, i);
    }
  }

  lemma CeilAtMost(a: int, b: int, q: int)
    requires b > 0 && a <= b * q
    ensures DivCeil(a, b) <= q
  {
    DivCeilBounds(a, b);
    var c := DivCeil(a, b);
    if q < c { MulMono(b, q, c - 1); }
  }

  lemma RoundedIsLeast(base: int, group: nat, i: nat)
    requires group > 0 && base <= i && i % group == 0
    ensures group * DivCeil(base, group) <= i
  {
    assert i == group * (i / group);
    CeilAtMost(base, group, i / group);
    MulMono(group, DivCeil(base, group), i / group);
  }

  lemma WholeGroups(group: nat, q: int, b: nat)
    requires group > 0
    ensures (group * q) % group == 0 && (group * q * b) % group == 0
  {
    MultipleHasNoRemainder(group, q);
    MulAssoc(group, q, b);
    MultipleHasNoRemainder(group, q * b);
  }

  // ---- who works where ----------------------------------------------------------------

  // Every tile of the line is owned by exactly one CTA of the launch.
  lemma {:induction false} TileHasOneOwner(p: Plan, t: nat)
    requires p.Valid() && t < p.Total()
    ensures p.iters > 0
    ensures exists b: nat :: b < p.blocks && p.Owns(b, t)
    ensures forall b: nat, b': nat :: p.Owns(b, t) && p.Owns(b', t) ==> b == b'
  {
    var o := t / p.iters;
    assert p.iters * o <= t < p.iters * (o + 1);
    if p.blocks <= o { MulMono(p.iters, p.blocks, o); }
    assert p.Owns(o, t);
    forall b: nat | p.Owns(b, t) ensures b == o {
      QuotientUnique(t, p.iters, b);
    }
  }

  // A stripe of length i meets the range [f, e) exactly when its number is a quotient
  // of some element of the range.
  lemma StripeMeetsRange(i: nat, b: nat, f: nat, e: nat)
    requires i > 0 && f < e
    ensures i * (b + 1) == i * b + i
    ensures i * b < e && f < i * (b + 1) <==> f / i <= b <= (e - 1) / i
  {
    QuotientGalois(f, i, b + 1);
    QuotientGalois(e - 1, i, b);
  }

  lemma ColumnEdges(p: Plan, c: nat)
    requires p.Valid() && c < p.Cols()
    ensures p.kTiles * (c + 1) == p.kTiles * c + p.kTiles
    ensures 0 <= p.kTiles * c < p.kTiles * (c + 1) <= p.Total()
    ensures p.iters > 0
  {
    MulMono(p.kTiles, c + 1, p.Cols());
    MulMono(p.kTiles, 0, c);
    assert p.kTiles * (c + 1) == p.kTiles * c + p.kTiles;
    TileHasOneOwner(p, p.kTiles * c);
  }

  // The CTAs of a column are the consecutive ones FirstCta..LastCta.
  lemma {:induction false} WorksIsInterval(p: Plan, b: nat, c: nat)
    requires p.Valid() && c < p.Cols()
    ensures p.iters > 0
    ensures 0 <= p.FirstCta(c) <= p.LastCta(c) < p.blocks
    ensures p.Works(b, c) <==> p.FirstCta(c) <= b <= p.LastCta(c)
  {
    ColumnCtasInGrid(p, c);
    if p.Works(b, c) { WorkerInInterval(p, b, c); }
    if p.FirstCta(c) <= b <= p.LastCta(c) { IntervalWorks(p, b, c); }
  }

  lemma ColumnCtasInGrid(p: Plan, c: nat)
    requires p.Valid() && c < p.Cols()
    ensures p.iters > 0
    ensures 0 <= p.FirstCta(c) <= p.LastCta(c) < p.blocks
  {
    ColumnEdges(p, c);
    QuotientMono(p.kTiles * c, p.kTiles * (c + 1) - 1, p.iters);
    LastCtaInGrid(p, c);
  }

  lemma WorkerInInterval(p: Plan, b: nat, c: nat)
    requires p.Valid() && c < p.Cols() && p.iters > 0 && p.Works(b, c)
    ensures p.FirstCta(c) <= b <= p.LastCta(c)
  {
    var t: nat :| p.Owns(b, t) && p.InColumn(t, c);
    QuotientUnique(t, p.iters, b);
    QuotientMono(p.kTiles * c, t, p.iters);
    QuotientMono(t, p.kTiles * (c + 1) - 1, p.iters);
  }

  lemma IntervalWorks(p: Plan, b: nat, c: nat)
    requires p.Valid() && c < p.Cols() && p.iters > 0
    requires p.FirstCta(c) <= b <= p.LastCta(c)
    ensures p.Works(b, c)
  {
    ColumnEdges(p, c);
    StripeMeetsRange(p.iters, b, p.kTiles * c, p.kTiles * (c + 1));
    WorksIffOverlap(p, b, c);
  }

  lemma WorksIffOverlap(p: Plan, b: nat, c: nat)
    requires p.Valid() && p.iters > 0 && p.kTiles * c < p.kTiles * (c + 1) <= p.Total()
    ensures p.Works(b, c)
       <==> p.iters * b < p.kTiles * (c + 1) && p.kTiles * c < p.iters * (b + 1)
  {
    var f, e, lo, hi := p.kTiles * c, p.kTiles * (c + 1), p.iters * b, p.iters * (b + 1);
    assert hi == lo + p.iters;
    MulMono(p.kTiles, 0, c);
    if lo < e && f < hi {
      var t: nat := if lo >= f then lo else f;
      assert p.Owns(b, t) && p.InColumn(t, c);
    }
  }

  lemma LastCtaInGrid(p: Plan, c: nat)
    requires p.Valid() && c < p.Cols() && p.iters > 0
    ensures p.LastCta(c) < p.blocks
  {
    ColumnEdges(p, c);
    var l := p.LastCta(c);
    assert p.iters * l <= p.kTiles * (c + 1) - 1;
    if p.blocks <= l { MulMono(p.iters, p.blocks, l); }
  }

  // ---- the arithmetic of init_slice ------------------------------------------------------

  // slice_count and slice_idx by the closed formulas of init_slice, for a column that
  // begins at tile f and ends before tile e.
  function SliceCountAt(f: nat, e: nat, k: nat, iters: nat): int
    requires iters > 0
  {
    var colFirst := iters * DivCeil(f, iters);
    if colFirst <= e then
      var colOff := colFirst - f;
      DivCeil(k - colOff, iters) + (if colOff > 0 then 1 else 0)
    else 1
  }

  function SliceIdxAt(f: nat, e: nat, k: nat, iters: nat, b: nat): int
    requires iters > 0
  {
    var colFirst := iters * DivCeil(f, iters);
    if colFirst <= e then
      var colOff := colFirst - f;
      var count := SliceCountAt(f, e, k, iters);
      var deltaFirst := iters * b - colFirst;
      if deltaFirst < 0 || (colOff == 0 && deltaFirst == 0) then count - 1
      else count - 1 - deltaFirst / iters - (if colOff > 0 then 1 else 0)
    else 0
  }

  function CodeSliceCount(p: Plan, c: nat): int
    requires p.iters > 0
  {
    SliceCountAt(p.kTiles * c, p.kTiles * (c + 1), p.kTiles, p.iters)
  }

  function CodeSliceIdx(p: Plan, c: nat, b: nat): int
    requires p.iters > 0
  {
    SliceIdxAt(p.kTiles * c, p.kTiles * (c + 1), p.kTiles, p.iters, b)
  }

  lemma SliceCountFormula(f: nat, k: nat, i: nat)
    requires i > 0 && k > 0
    ensures SliceCountAt(f, f + k, k, i) == (f + k - 1) / i - f / i + 1
  {
    ColumnStart(f, i);
    if f == i * (f / i) {
      ShiftQuotient(f + k - 1, i, f / i - 1);
    } else if i * DivCeil(f, i) <= f + k {
      ShiftQuotient(f + k - 1, i, f / i);
    } else {
      QuotientUnique(f + k - 1, i, f / i);
    }
  }

  lemma SliceIdxFormula(f: nat, k: nat, i: nat, b: nat)
    requires i > 0 && k > 0
    requires f / i <= b <= (f + k - 1) / i
    ensures SliceIdxAt(f, f + k, k, i, b) == (f + k - 1) / i - b
  {
    SliceCountFormula(f, k, i);
    ColumnStart(f, i);
    if i * DivCeil(f, i) <= f + k {
      DeltaFirst(i, DivCeil(f, i), b);
    } else {
      QuotientUnique(f + k - 1, i, f / i);
    }
  }

  lemma SliceCountIsSharers(p: Plan, c: nat)
    requires p.Valid() && p.iters > 0
    ensures CodeSliceCount(p, c) == p.Sharers(c)
  {
    assert p.kTiles * (c + 1) == p.kTiles * c + p.kTiles;
    MulMono(p.kTiles, 0, c);
    SliceCountFormula(p.kTiles * c, p.kTiles, p.iters);
  }

  lemma SliceIdxIsRankFromBottom(p: Plan, c: nat, b: nat)
    requires p.Valid() && p.iters > 0
    requires p.FirstCta(c) <= b <= p.LastCta(c)
    ensures CodeSliceIdx(p, c, b) == p.LastCta(c) - b
  {
    assert p.kTiles * (c + 1) == p.kTiles * c + p.kTiles;
    MulMono(p.kTiles, 0, c);
    SliceIdxFormula(p.kTiles * c, p.kTiles, p.iters, b);
  }

  // The first stripe boundary at or after `f` is the one of CTA f / i, or the next one.
  lemma ColumnStart(f: nat, i: nat)
    requires i > 0
    ensures var q := DivCeil(f, i); q == (if f == i * (f / i) then f / i else f / i + 1)
    ensures i * DivCeil(f, i) >= f && (i * DivCeil(f, i) == f <==> f == i * (f / i))
    ensures i * (f / i + 1) == i * (f / i) + i
  {
    var q := f / i;
    assert i * q <= f < i * (q + 1);
    assert i * (q + 1) == i * q + i && i * (q + 2) == i * q + 2 * i;
    if f == i * q {
      QuotientUnique(f + i - 1, i, q);
    } else {
      QuotientUnique(f + i - 1, i, q + 1);
    }
  }

  lemma DeltaFirst(i: nat, q: int, b: int)
    requires i > 0
    ensures i * b - i * q == i * (b - q)
    ensures i * b - i * q < 0 <==> b < q
    ensures i * b - i * q == 0 <==> b == q
    ensures b >= q ==> (i * b - i * q) / i == b - q
  {
    var d := b - q;
    assert i * b - i * q == i * d;
    if d < 0 { MulMono(i, d, -1); } else if d > 0 { MulMono(i, 1, d); }
    assert i * (d + 1) == i * d + i;
    QuotientUnique(i * d, i, d);
  }

  // Some CTA of the launch has slice_idx i in column c.
  ghost predicate HasRank(p: Plan, c: nat, i: nat)
    requires p.iters > 0
  {
    exists b: nat :: b < p.blocks && p.Works(b, c) && CodeSliceIdx(p, c, b) == i
  }

  // Over the CTAs that work in a column, slice_idx is a bijection onto 0..slice_count-1
  // that decreases with blockIdx.
  lemma {:induction false} SliceIdxBijection(p: Plan, c: nat)
    requires p.Valid() && c < p.Cols()
    ensures p.iters > 0
    ensures forall b: nat :: p.Works(b, c) ==> 0 <= CodeSliceIdx(p, c, b) < CodeSliceCount(p, c)
    ensures forall b: nat, b': nat :: p.Works(b, c) && p.Works(b', c) && b < b'
              ==> CodeSliceIdx(p, c, b') < CodeSliceIdx(p, c, b)
    ensures forall i: nat {:trigger HasRank(p, c, i)} :: i < CodeSliceCount(p, c) ==> HasRank(p, c, i)
  {
    WorksIsInterval(p, 0, c);
    SliceCountIsSharers(p, c);
    forall b: nat | p.Works(b, c)
      ensures p.FirstCta(c) <= b <= p.LastCta(c) && CodeSliceIdx(p, c, b) == p.LastCta(c) - b
    {
      WorksIsInterval(p, b, c);
      SliceIdxIsRankFromBottom(p, c, b);
    }
    forall i: nat | i < CodeSliceCount(p, c) ensures HasRank(p, c, i) {
      var b: nat := p.LastCta(c) - i;
      WorksIsInterval(p, b, c);
      assert p.Works(b, c) && CodeSliceIdx(p, c, b) == i;
    }
  }

  // slice_count is the number of CTAs that work in the column.
  lemma {:induction false} SliceCountCountsWorkers(p: Plan, c: nat, workers: set<nat>)
    requires p.Valid() && c < p.Cols()
    requires forall b: nat :: b in workers <==> p.Works(b, c)
    ensures p.iters > 0 && CodeSliceCount(p, c) == |workers|
  {
    WorksIsInterval(p, 0, c);
    SliceCountIsSharers(p, c);
    forall b: nat ensures b in workers <==> p.FirstCta(c) <= b <= p.LastCta(c) { WorksIsInterval(p, b, c); }
    IntervalSize(workers, p.FirstCta(c), p.LastCta(c) + 1);
  }

  lemma {:induction false} IntervalSize(s: set<nat>, lo: nat, hi: nat)
    requires lo <= hi
    requires forall b: nat :: b in s <==> lo <= b < hi
    ensures |s| == hi - lo
    decreases hi
  {
    if lo == hi {
      assert s == {};
    } else {
      IntervalSize(s - {hi - 1}, lo, hi - 1);
    }
  }

  // ---- locks -------------------------------------------------------------------------------

  // Every shared column has its own lock inside the lock array of one entry per CTA.
  lemma {:induction false} SharedLocksDistinct(p: Plan, c: nat, c': nat)
    requires p.Valid() && c < p.Cols() && c' < p.Cols()
    ensures p.iters > 0
    ensures p.Sharers(c) > 1 ==> 0 <= p.SharedLock(c) < p.blocks
    ensures c != c' && p.Sharers(c) > 1 && p.Sharers(c') > 1 ==> p.SharedLock(c) != p.SharedLock(c')
  {
    WorksIsInterval(p, 0, c);
    WorksIsInterval(p, 0, c');
    if p.Cols() >= p.blocks && p.SharedLock(c) == p.SharedLock(c') && p.Sharers(c) > 1 && p.Sharers(c') > 1 {
      LastCtaStartsInside(p, c);
      LastCtaStartsInside(p, c');
      QuotientUnique(p.iters * p.LastCta(c), p.kTiles, c);
      QuotientUnique(p.iters * p.LastCta(c), p.kTiles, c');
    }
  }

  // The last CTA of a shared column starts strictly inside the column; with stripes at
  // least one column long only two CTAs can share it.
  lemma LastCtaStartsInside(p: Plan, c: nat)
    requires p.Valid() && p.iters > 0 && p.Sharers(c) > 1
    ensures p.kTiles * c < p.iters * p.LastCta(c) < p.kTiles * (c + 1)
    ensures p.Cols() >= p.blocks ==> p.Sharers(c) == 2
  {
    QuotientBrackets(p.kTiles * c, p.iters);
    QuotientBrackets(p.kTiles * (c + 1) - 1, p.iters);
    StripesFrom(p.iters, p.FirstCta(c), p.LastCta(c), p.kTiles, c, p.Cols() >= p.blocks);
  }

  lemma StripesFrom(I: nat, F: int, L: int, k: nat, c: nat, wide: bool)
    requires k * c < I * (F + 1) && I * L <= k * (c + 1) - 1 && F < L && (wide ==> k <= I)
    ensures k * c < I * L < k * (c + 1) && (wide ==> L == F + 1)
  {
    MulMono(I, F + 1, L);
    assert I * (F + 2) == I * (F + 1) + I && k * (c + 1) == k * c + k;
    if L > F + 1 { MulMono(I, F + 2, L); }
  }

  // ---- whole-K mode ---------------------------------------------------------------------------

  /** No column is split over CTAs exactly when one stripe holds the whole line or the
      stripe length is a multiple of the column length. */
  lemma {:induction false} UnsplitIff(p: Plan)
    requires p.Valid() && p.iters > 0
    ensures (forall c: nat :: c < p.Cols() ==> p.Sharers(c) == 1)
       <==> (p.Total() <= p.iters || p.iters % p.kTiles == 0)
  {
    forall c: nat | c < p.Cols() && (p.Total() <= p.iters || p.iters % p.kTiles == 0)
      ensures p.Sharers(c) == 1
    {
      if p.iters % p.kTiles == 0 { MultipleIsUnsplit(p, c); } else { ShortLineIsUnsplit(p, c); }
    }
    if p.Total() > p.iters && p.iters % p.kTiles != 0 { BoundarySplits(p); }
  }

  lemma MultipleIsUnsplit(p: Plan, c: nat)
    requires p.kTiles > 0 && p.iters > 0 && p.iters % p.kTiles == 0
    ensures p.Sharers(c) == 1
  {
    var k, m := p.kTiles, p.iters / p.kTiles;
    assert p.iters == k * m;
    if m <= 0 { MulMono(k, m, 0); }
    ScaleQuotient(k, m, c, 0);
    ScaleQuotient(k, m, c, k - 1);
    assert k * (c + 1) - 1 == k * c + (k - 1);
  }

  lemma ShortLineIsUnsplit(p: Plan, c: nat)
    requires p.Valid() && p.iters > 0 && p.Total() <= p.iters && c < p.Cols()
    ensures p.Sharers(c) == 1
  {
    ColumnEdges(p, c);
    QuotientUnique(p.kTiles * c, p.iters, 0);
    QuotientUnique(p.kTiles * (c + 1) - 1, p.iters, 0);
  }

  // The first stripe boundary falls strictly inside a column.
  lemma BoundarySplits(p: Plan)
    requires p.Valid() && p.iters > 0 && p.Total() > p.iters && p.iters % p.kTiles != 0
    ensures exists c: nat :: c < p.Cols() && p.Sharers(c) != 1
  {
    var c := p.iters / p.kTiles;
    InsideQuotient(p.iters, p.kTiles);
    QuotientGalois(p.iters, p.kTiles, p.Cols());
    assert c < p.Cols() by { if p.Cols() <= c { MulMono(p.kTiles, p.Cols(), c); } }
    StraddleQuotients(p.kTiles * c, p.kTiles * (c + 1) - 1, p.iters);
    assert p.Sharers(c) != 1;
  }

  lemma InsideQuotient(a: nat, d: nat)
    requires d > 0 && a % d != 0
    ensures 0 <= d * (a / d) < a < d * (a / d + 1)
  {
  }

  lemma StraddleQuotients(a: nat, b: nat, d: nat)
    requires a < d <= b
    ensures a / d == 0 && b / d >= 1
  {
    QuotientUnique(a, d, 0);
    QuotientGalois(b, d, 1);
  }

  // In whole-K mode the group rounding of `iters` keeps every column whole when the group
  // divides k_tiles; without rounding it always holds.
  lemma {:induction false} WholeKKeepsColumnsWhole(k: nat, n: nat, parallel: nat, blocks: nat, group: nat, c: nat)
    requires k > 0 && n > 0 && blocks > 0 && (group != 0 ==> k % group == 0)
    requires c < n * parallel
    ensures var iters := PlanIters(k, n, parallel, blocks, true, group);
            iters > 0 && Plan(k, n, parallel, blocks, iters).Sharers(c) == 1
  {
    PlanItersValid(k, n, parallel, blocks, true, group);
    assert parallel != 0;
    var iters := PlanIters(k, n, parallel, blocks, true, group);
    var m := DivCeil(n * parallel, blocks);
    var base := k * m;
    if group != 0 { RoundsToItself(k, group, m); }
    assert iters == base;
    MultipleHasNoRemainder(k, m);
    UnsplitIff(Plan(k, n, parallel, blocks, iters));
  }

  // A multiple of whole groups is not rounded.
  lemma RoundsToItself(k: nat, group: nat, m: nat)
    requires group > 0 && k % group == 0
    ensures group * DivCeil(k * m, group) == k * m
  {
    var r := k / group;
    assert k == group * r;
    assert k * m == group * (r * m);
    assert group * (r * m + 1) == group * (r * m) + group;
    QuotientUnique(k * m + group - 1, group, r * m);
  }

  lemma MultipleHasNoRemainder(k: int, m: int)
    requires k > 0
    ensures (k * m) % k == 0
  {
    assert k * (m + 1) == k * m + k;
    QuotientUnique(k * m, k, m);
  }
}
