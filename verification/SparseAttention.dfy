// One query row and head of the sparse prefill kernels against the two-pass reference.
module SparseAttention {
  import opened Division
  import opened Counting
  import opened OnlineSoftmax

  // The query, the keys and one value coordinate of the row's sequence, and the scales.
  datatype Row = Row(q: seq<real>, keys: seq<seq<real>>, values: seq<real>,
                     scale: real, kScale: real, vScale: real, isFp8: bool)
  {
    // Descales other than 1 come with FP8 caches only.
    ghost predicate Valid() {
      && |keys| == |values|
      && (forall t :: 0 <= t < |keys| ==> |keys[t]| == |q|)
      && (isFp8 || (kScale == 1.0 && vScale == 1.0))
    }

    function KDescale(): real { if isFp8 then kScale else 1.0 }

    function VDescale(): real { if isFp8 then vScale else 1.0 }
  }

  // ---- scores -------------------------------------------------------------------------------

  function Dot(a: seq<real>, b: seq<real>): real
    requires |a| == |b|
  {
    if a == [] then 0.0 else a[0] * b[0] + Dot(a[1..], b[1..])
  }

  function Scaled(a: seq<real>, c: real): (r: seq<real>)
    ensures |r| == |a| && forall i :: 0 <= i < |a| ==> r[i] == Product(a[i], c)
  {
    seq(|a|, i requires 0 <= i < |a| => Product(a[i], c))
  }

  function Product(x: real, y: real): real { x * y }

  // Base-2 score of token t in the kernels: the scaled query, times the K descale.
  function KernelScore(row: Row, t: nat): real
    requires row.Valid() && t < |row.keys|
  {
    Dot(Scaled(row.q, Base2(row.scale)), row.keys[t]) * row.KDescale()
  }

  function ReferenceScore(row: Row, t: nat): real
    requires row.Valid() && t < |row.keys|
  {
    Dot(row.q, Scaled(row.keys[t], row.kScale)) * row.scale
  }

  lemma {:induction false} DotScaleLeft(a: seq<real>, b: seq<real>, c: real)
    requires |a| == |b|
    ensures Dot(Scaled(a, c), b) == Dot(a, b) * c
  {
    if a != [] {
      assert Scaled(a, c)[1..] == Scaled(a[1..], c);
      DotScaleLeft(a[1..], b[1..], c);
      DotStep(a[0], b[0], c, Dot(a[1..], b[1..]), Dot(a, b));
    }
  }

  lemma {:induction false} DotScaleRight(a: seq<real>, b: seq<real>, c: real)
    requires |a| == |b|
    ensures Dot(a, Scaled(b, c)) == Dot(a, b) * c
  {
    if a != [] {
      assert Scaled(b, c)[1..] == Scaled(b[1..], c);
      DotScaleRight(a[1..], b[1..], c);
      DotStep(a[0], b[0], c, Dot(a[1..], b[1..]), Dot(a, b));
    }
  }

  lemma DotStep(x: real, y: real, c: real, rest: real, sum: real)
    requires sum == x * y + rest
    ensures (x * c) * y + rest * c == sum * c && x * (y * c) + rest * c == sum * c
  {
    assert (x * c) * y == (x * y) * c;
  }

  /** The kernels' base-2 score is the reference's natural score times log2(e). */
  lemma {:induction false} ScoresAgree(row: Row, t: nat)
    requires row.Valid() && t < |row.keys|
    ensures KernelScore(row, t) == Base2(ReferenceScore(row, t))
  {
    DotScaleLeft(row.q, row.keys[t], Base2(row.scale));
    DotScaleRight(row.q, row.keys[t], row.kScale);
    ScalesCommute(Dot(row.q, row.keys[t]), row.scale, row.kScale);
  }

  lemma ScalesCommute(d: real, s: real, k: real)
    ensures d * Base2(s) * k == Base2(d * k * s)
  {
    assert d * Base2(s) == Base2(d * s);
    assert Base2(d * s) * k == Base2(d * s * k);
  }

  // ---- selected tokens ------------------------------------------------------------------------

  // Index entries: a token position, or a negative pad.
  ghost predicate InRange(row: Row, idx: seq<int>) {
    forall j :: 0 <= j < |idx| ==> idx[j] < |row.keys|
  }

  // What the reference averages: natural scores, values times the V descale.
  function Selected(row: Row, idx: seq<int>): seq<Entry>
    requires row.Valid() && InRange(row, idx)
  {
    if idx == [] then []
    else
      var t := idx[|idx| - 1];
      Selected(row, idx[..|idx| - 1]) + (if t >= 0 then [ReferenceEntry(row, t)] else [])
  }

  function ReferenceEntry(row: Row, t: nat): Entry
    requires row.Valid() && t < |row.keys|
  {
    Entry(ReferenceScore(row, t), row.values[t] * row.vScale)
  }

  lemma {:induction false} SelectedConcat(row: Row, a: seq<int>, b: seq<int>)
    requires row.Valid() && InRange(row, a) && InRange(row, b)
    ensures Selected(row, a + b) == Selected(row, a) + Selected(row, b)
  {
    if b == [] {
      assert a + b == a;
    } else {
      assert (a + b)[..|a + b| - 1] == a + b[..|b| - 1];
      SelectedConcat(row, a, b[..|b| - 1]);
    }
  }

  // Padding selects nothing.
  lemma {:induction false} PadSelectsNothing(row: Row, pad: seq<int>)
    requires row.Valid() && forall j :: 0 <= j < |pad| ==> pad[j] < 0
    ensures InRange(row, pad) && Selected(row, pad) == []
  {
    if pad != [] { PadSelectsNothing(row, pad[..|pad| - 1]); }
  }

  /** The reference for a row of index entries; a row that selects nothing is 0. */
  ghost function Reference(exp2: real -> real, row: Row, idx: seq<int>): real
    requires IsExp2(exp2) && row.Valid() && InRange(row, idx)
  {
    TwoPass(exp2, Selected(row, idx))
  }

  // ---- blocks ----------------------------------------------------------------------------------

  // row_limit: the entries the loop visits, rounded up to whole blocks.
  function RowLimit(topk: nat, visible: int, blockN: nat): (limit: int)
    requires blockN > 0
    ensures limit <= topk
  {
    Min(topk, DivCeil(Min(topk, visible), blockN) * blockN)
  }

  // What a block sees: entries start..start+blockN, read as -1 past topk.
  function Block(idx: seq<int>, start: nat, blockN: nat): (b: seq<int>)
    ensures |b| == blockN
    ensures forall j :: 0 <= j < blockN ==> b[j] == (if start + j < |idx| then idx[start + j] else -1)
  {
    seq(blockN, j requires 0 <= j => if start + j < |idx| then idx[start + j] else -1)
  }

  // The loaded lanes of a block: raw values, base-2 scores.
  function Lanes(row: Row, block: seq<int>): (l: seq<Lane>)
    requires row.Valid() && InRange(row, block)
    ensures |l| == |block|
  {
    if block == [] then []
    else
      var t := block[|block| - 1];
      Lanes(row, block[..|block| - 1])
      + [if t >= 0 then Key(Entry(KernelScore(row, t), row.values[t])) else Masked]
  }

  // A block's lanes, descaled, are the reference's entries in base 2.
  lemma {:induction false} LanesAreSelected(row: Row, block: seq<int>)
    requires row.Valid() && InRange(row, block)
    ensures ScaleValues(Live(Lanes(row, block)), row.VDescale()) == ToBase2(Selected(row, block))
    ensures Live(Lanes(row, block)) == [] <==> Selected(row, block) == []
  {
    if block != [] {
      hide Lanes, Live, ToBase2, Selected, ScaleValues, ScaleEntry, KernelScore, ReferenceEntry;
      var t, init := block[|block| - 1], block[..|block| - 1];
      LanesAreSelected(row, init);
      LanesStep(row, block);
      if t >= 0 {
        var e, r := Entry(KernelScore(row, t), row.values[t]), ReferenceEntry(row, t);
        EntriesAgree(row, t);
        ScaleValuesStep(Live(Lanes(row, init)), e, row.VDescale());
        Base2Concat(Selected(row, init), [r]);
      }
    }
  }

  lemma EntriesAgree(row: Row, t: nat)
    requires row.Valid() && t < |row.keys|
    ensures [ScaleEntry(Entry(KernelScore(row, t), row.values[t]), row.VDescale())] == ToBase2([ReferenceEntry(row, t)])
  {
    ScoresAgree(row, t);
    var e, r := Entry(KernelScore(row, t), row.values[t]), ReferenceEntry(row, t);
    assert ScaleEntry(e, row.VDescale()) == Entry(Base2(r.x), r.v);
    assert ToBase2([r])[0] == Entry(Base2(r.x), r.v);
  }

  // The last lane of a block, and the last entry.
  lemma LanesStep(row: Row, block: seq<int>)
    requires row.Valid() && InRange(row, block) && block != []
    ensures var t, init := block[|block| - 1], block[..|block| - 1];
      if t >= 0 then
        && Live(Lanes(row, block)) == Live(Lanes(row, init)) + [Entry(KernelScore(row, t), row.values[t])]
        && Selected(row, block) == Selected(row, init) + [ReferenceEntry(row, t)]
      else Live(Lanes(row, block)) == Live(Lanes(row, init)) && Selected(row, block) == Selected(row, init)
  {
    hide KernelScore, ReferenceEntry;
    var l := Lanes(row, block);
    assert l[..|l| - 1] == Lanes(row, block[..|block| - 1]);
  }

  lemma ScaleValuesStep(es: seq<Entry>, e: Entry, s: real)
    ensures ScaleValues(es + [e], s) == ScaleValues(es, s) + [ScaleEntry(e, s)]
    ensures es + [e] != []
  {
    assert (es + [e])[..|es + [e]| - 1] == es;
  }

  lemma BlockExtends(row: Row, idx: seq<int>, start: nat, blockN: nat)
    requires row.Valid() && InRange(row, idx) && start <= |idx|
    ensures InRange(row, Block(idx, start, blockN))
    ensures Selected(row, idx[..start]) + Selected(row, Block(idx, start, blockN))
         == Selected(row, idx[..Min(start + blockN, |idx|)])
  {
    var stop := Min(start + blockN, |idx|);
    var live := idx[start..stop];
    var pad := Block(idx, start, blockN)[|live|..];
    assert Block(idx, start, blockN) == live + pad;
    PadSelectsNothing(row, pad);
    SelectedConcat(row, live, pad);
    SelectedConcat(row, idx[..start], live);
    assert idx[..start] + live == idx[..stop];
  }

  // ---- the cut -----------------------------------------------------------------------------------

  // Valid entries first, each once, all visible to the query; then padding.
  ghost predicate FrontRow(idx: seq<int>, visible: int) {
    exists n: nat :: n <= |idx| && FrontOf(idx, visible, n)
  }

  ghost predicate FrontOf(idx: seq<int>, visible: int, n: nat)
    requires n <= |idx|
  {
    && (forall j :: 0 <= j < n ==> 0 <= idx[j] < visible)
    && (forall j :: n <= j < |idx| ==> idx[j] < 0)
    && Distinct(idx[..n])
  }

  /** The cut loses nothing: a query cannot select more distinct tokens than it can see. */
  lemma {:induction false} CutKeepsSelection(row: Row, idx: seq<int>, visible: int, blockN: nat)
    requires row.Valid() && InRange(row, idx)
    requires blockN > 0 && FrontRow(idx, visible) && idx != [] && idx[0] >= 0
    ensures 0 < RowLimit(|idx|, visible, blockN) <= |idx|
    ensures Selected(row, idx[..RowLimit(|idx|, visible, blockN)]) == Selected(row, idx)
  {
    var n: nat :| n <= |idx| && FrontOf(idx, visible, n);
    Pigeonhole(idx[..n], visible);
    var want := Min(|idx|, visible);
    DivCeilBounds(want, blockN);
    var limit := RowLimit(|idx|, visible, blockN);
    assert n <= want <= limit;
    PadSelectsNothing(row, idx[limit..]);
    SelectedConcat(row, idx[..limit], idx[limit..]);
    assert idx == idx[..limit] + idx[limit..];
  }

  // The first block selects something as soon as the first entry does.
  lemma FirstEntrySelects(row: Row, idx: seq<int>, blockN: nat)
    requires row.Valid() && InRange(row, idx) && idx != [] && idx[0] >= 0 && blockN > 0
    ensures InRange(row, Block(idx, 0, blockN)) && Selected(row, Block(idx, 0, blockN)) != []
  {
    var b := Block(idx, 0, blockN);
    SelectedConcat(row, b[..1], b[1..]);
    assert b == b[..1] + b[1..];
    assert b[..1][..0] == [];
  }

  // ---- the kernel -----------------------------------------------------------------------------------

  /** A query row of either prefill kernel; `visible` is the number of tokens the query may
      attend to. The result is a number exactly when the loop runs and its first block selects
      a token, and is then the reference value of the entries before the cut. */
  method PrefillRow(exp2: real -> real, row: Row, idx: seq<int>, visible: int, blockN: nat)
    returns (out: Num)
    requires IsExp2(exp2) && row.Valid() && InRange(row, idx) && blockN > 0
    ensures InRange(row, Block(idx, 0, blockN))
    ensures out.Fin? <==> RowLimit(|idx|, visible, blockN) > 0 && Selected(row, Block(idx, 0, blockN)) != []
    ensures out.Fin? ==> out.r == Reference(exp2, row, idx[..RowLimit(|idx|, visible, blockN)])
  {
    BlockExtends(row, idx, 0, blockN);
    var max, norm, acc := SweepBlocks(exp2, row, idx, visible, blockN);
    if RowLimit(|idx|, visible, blockN) > 0 && Selected(row, Block(idx, 0, blockN)) != [] {
      QuotientIsTwoPass(exp2, Selected(row, idx[..RowLimit(|idx|, visible, blockN)]), max, norm, acc);
    }
    out := if norm.Fin? && norm.r != 0.0 && acc.Fin? then Fin(acc.r / norm.r) else NaN;
  }

  // The registers after every entry given has been visited.
  ghost predicate Swept(exp2: real -> real, row: Row, visited: seq<int>, spoiled: bool, max: Num, norm: Num, acc: Num) {
    && IsExp2(exp2) && row.Valid() && InRange(row, visited) && (!spoiled ==> Selected(row, visited) != [])
    && Registers(exp2, ToBase2(Selected(row, visited)), spoiled, max, norm, acc)
  }

  lemma NothingSwept(exp2: real -> real, row: Row, idx: seq<int>)
    requires row.Valid() && InRange(row, idx)
    ensures Selected(row, idx[..0]) == [] && ToBase2([]) == []
    ensures Registers(exp2, [], false, NegInf, Fin(0.0), Fin(0.0))
  {
  }

  // The loop over blocks up to the cut; a first block that selects nothing spoils the registers.
  method SweepBlocks(exp2: real -> real, row: Row, idx: seq<int>, visible: int, blockN: nat)
    returns (max: Num, norm: Num, acc: Num)
    requires IsExp2(exp2) && row.Valid() && InRange(row, idx) && blockN > 0 && InRange(row, Block(idx, 0, blockN))
    ensures RowLimit(|idx|, visible, blockN) <= 0 ==> Registers(exp2, [], false, max, norm, acc)
    ensures RowLimit(|idx|, visible, blockN) > 0 ==>
      Swept(exp2, row, idx[..RowLimit(|idx|, visible, blockN)], Selected(row, Block(idx, 0, blockN)) == [],
            max, norm, acc)
  {
    hide Selected, ToBase2, RowLimit, OnlineSoftmax.Registers, OnlineSoftmax.IsExp2;
    var limit := RowLimit(|idx|, visible, blockN);
    ghost var firstEmpty := Selected(row, Block(idx, 0, blockN)) == [];
    ghost var k := 0;
    ghost var ys: seq<Entry> := [];
    max, norm, acc := NegInf, Fin(0.0), Fin(0.0);
    var start := 0;
    NothingSwept(exp2, row, idx);
    while start < limit
      invariant start == k * blockN && 0 <= start
      invariant limit > 0 ==> Min(start, |idx|) <= limit
      invariant start > 0 ==> limit > 0
      invariant start > 0 && !firstEmpty ==> ys != []
      invariant ys == Selected(row, idx[..Min(start, |idx|)])
      invariant Registers(exp2, ToBase2(ys), start > 0 && firstEmpty, max, norm, acc)
    {
      BlockExtends(row, idx, start, blockN);
      max, norm, acc := VisitBlock(exp2, row, Block(idx, start, blockN), max, norm, acc, ys, start > 0 && firstEmpty);
      ys := ys + Selected(row, Block(idx, start, blockN));
      BlockStaysInside(|idx|, visible, blockN, k);
      start := start + blockN;
      k := k + 1;
    }
  }

  /** On a row whose valid entries stand in front, distinct and visible, the kernel computes
      the reference value of the whole row, for every block size. */
  method PrefillFrontRow(exp2: real -> real, row: Row, idx: seq<int>, visible: int, blockN: nat)
    returns (out: Num)
    requires IsExp2(exp2) && row.Valid() && InRange(row, idx) && blockN > 0
    requires FrontRow(idx, visible) && idx != [] && idx[0] >= 0
    ensures out == Fin(Reference(exp2, row, idx))
  {
    CutKeepsSelection(row, idx, visible, blockN);
    FirstEntrySelects(row, idx, blockN);
    out := PrefillRow(exp2, row, idx, visible, blockN);
  }

  // The loop body; `ys` and `spoiled` say what the registers hold.
  method VisitBlock(exp2: real -> real, row: Row, block: seq<int>, max: Num, norm: Num, acc: Num,
                    ghost ys: seq<Entry>, ghost spoiled: bool)
    returns (max': Num, norm': Num, acc': Num)
    requires IsExp2(exp2) && row.Valid() && InRange(row, block) && block != []
    requires Registers(exp2, ToBase2(ys), spoiled, max, norm, acc)
    ensures Registers(exp2, ToBase2(ys + Selected(row, block)), spoiled || (ys == [] && Selected(row, block) == []),
                      max', norm', acc')
  {
    var lanes := Lanes(row, block);
    LanesAreSelected(row, block);
    Base2Concat(ys, Selected(row, block));
    OneBlock(exp2, ToBase2(ys), spoiled, lanes, row.VDescale(), max, norm, acc);
    max' := NMax(max, LaneMax(lanes));
    var alpha := Exp2Diff(exp2, max, max');
    acc' := Fma(acc, alpha, Scale(LaneMass(exp2, lanes, max'), if row.isFp8 then row.vScale else 1.0));
    norm' := Fma(norm, alpha, LaneWeight(exp2, lanes, max'));
  }

  lemma Base2Concat(a: seq<Entry>, b: seq<Entry>)
    ensures ToBase2(a + b) == ToBase2(a) + ToBase2(b)
  {
  }

  // Whole blocks never read past the cut.
  lemma BlockStaysInside(topk: nat, visible: int, blockN: nat, k: nat)
    requires blockN > 0 && k * blockN < RowLimit(topk, visible, blockN)
    ensures k * blockN + blockN == (k + 1) * blockN
    ensures Min((k + 1) * blockN, topk) <= RowLimit(topk, visible, blockN)
  {
    var whole := DivCeil(Min(topk, visible), blockN);
    if whole <= k { MulMono(blockN, whole, k); }
    MulMono(blockN, k + 1, whole);
  }

  /** A row of padding only is not a number in the kernel, where the reference gives 0. */
  method PaddingRow(exp2: real -> real, row: Row, idx: seq<int>, visible: int, blockN: nat) returns (out: Num)
    requires IsExp2(exp2) && row.Valid() && blockN > 0 && forall j :: 0 <= j < |idx| ==> idx[j] < 0
    ensures !out.Fin? && Reference(exp2, row, idx) == 0.0
  {
    PadSelectsNothing(row, idx);
    PadSelectsNothing(row, Block(idx, 0, blockN));
    out := PrefillRow(exp2, row, idx, visible, blockN);
  }

  /** A row whose first block is padding is not a number either, though a later block selects a
      token: one key, blocks of one entry, the token in the second. The reference gives its value. */
  method HoleRow(exp2: real -> real) returns (out: Num)
    requires IsExp2(exp2)
    ensures !out.Fin? && ONE_KEY.Valid() && InRange(ONE_KEY, [-1, 0]) && Selected(ONE_KEY, [-1, 0]) != []
    ensures RowLimit(2, 2, 1) == 2 && Reference(exp2, ONE_KEY, [-1, 0]) == 1.0
  {
    PadSelectsNothing(ONE_KEY, [-1]);
    assert Selected(ONE_KEY, [-1, 0]) == [ReferenceEntry(ONE_KEY, 0)];
    SingleEntry(exp2, ReferenceEntry(ONE_KEY, 0));
    assert Block([-1, 0], 0, 1) == [-1] && [-1, 0][..1] == [-1];
    out := PrefillRow(exp2, ONE_KEY, [-1, 0], 2, 1);
  }

  // A single entry is averaged to its own value.
  lemma SingleEntry(exp2: real -> real, e: Entry)
    requires IsExp2(exp2)
    ensures TwoPass(exp2, [e]) == e.v
  {
    TwoPassAtAnyMax(exp2, [e], 0.0);
    var b := ToBase2([e]);
    assert b[..0] == [];
    Cancel(exp2(b[0].x - 0.0), e.v);
  }

  lemma Cancel(w: real, v: real)
    requires w > 0.0
    ensures (w * v) / w == v
  {
  }

  const ONE_KEY: Row := Row([1.0], [[1.0]], [1.0], 1.0, 1.0, 1.0, false)
}
