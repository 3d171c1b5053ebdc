// Exact top-k over the valid interval of each score row, in static row tiles.
module StableTopK {
  import Counting
  import Division

  // A score that may be minus infinity; no NaN.
  datatype Score = NegInf | Fin(value: real)

  predicate Less(a: Score, b: Score) {
    match (a, b)
    case (NegInf, Fin(_)) => true
    case (Fin(x), Fin(y)) => x < y
    case (_, NegInf) => false
  }

  // Higher score first, then lower index: a strict total order on indices.
  predicate Better(scores: seq<Score>, i: int, j: int)
    requires 0 <= i < |scores| && 0 <= j < |scores|
  {
    Less(scores[j], scores[i]) || (scores[i] == scores[j] && i < j)
  }

  // torch.argsort, descending and stable.
  ghost predicate IsStableArgsort(scores: seq<Score>, ranked: seq<nat>) {
    && |ranked| == |scores| && (forall a {:trigger ranked[a]} :: 0 <= a < |ranked| ==> ranked[a] < |scores|)
    && (forall a, b :: 0 <= a < b < |ranked| ==> Better(scores, ranked[a], ranked[b]))
    && (forall i: nat :: i < |scores| ==> i in ranked)
  }

  // torch.sort of integers.
  ghost predicate IsSorted(s: seq<int>, sorted: seq<int>) {
    multiset(s) == multiset(sorted) && forall a, b :: 0 <= a <= b < |sorted| ==> sorted[a] <= sorted[b]
  }

  // ---- The specification ----

  // The better ones among the first n.
  ghost function BetterSet(scores: seq<Score>, n: nat, i: nat): set<nat>
    requires i < n <= |scores|
  {
    set j: nat | j < n && Better(scores, j, i)
  }

  // The best k of the first n indices.
  ghost function Best(scores: seq<Score>, n: nat, k: nat): set<nat>
    requires n <= |scores|
  {
    set i: nat | i < n && |BetterSet(scores, n, i)| < k
  }

  // An ascending list of a set, filled up with -1.
  ghost predicate Lists(out: seq<int>, s: set<nat>, k: nat) {
    && |out| == k && |s| <= k
    && (forall a :: 0 <= a < |s| ==> out[a] >= 0 && out[a] in s)
    && (forall a, b :: 0 <= a < b < |s| ==> out[a] < out[b])
    && (forall a :: |s| <= a < k ==> out[a] == -1)
  }

  // The valid interval first, clamped into the row; minus infinity beyond it.
  function Gathered(row: seq<Score>, start: nat): (r: seq<Score>)
    ensures |r| == |row|
  {
    seq(|row|, c requires 0 <= c < |row| => if start + c < |row| then row[start + c] else row[|row| - 1])
  }

  function Masked(scores: seq<Score>, length: int): (r: seq<Score>)
    ensures |r| == |scores|
  {
    seq(|scores|, c requires 0 <= c < |scores| => if c >= length then NegInf else scores[c])
  }

  function Valid(width: nat, length: int): (n: nat)
    ensures n <= width
  {
    if length <= 0 then 0 else if length < width then length else width
  }

  // ---- Stable sorting ranks the valid interval first ----

  lemma ValidBeatsPadding(scores: seq<Score>, length: int, i: nat, j: nat)
    requires i < |scores| && j < |scores| && i < length <= j
    ensures Better(Masked(scores, length), i, j)
  {
  }

  lemma BetterIsStrict(scores: seq<Score>, i: nat, j: nat)
    requires i < |scores| && j < |scores|
    ensures !(Better(scores, i, j) && Better(scores, j, i)) && !Better(scores, i, i)
  {
  }

  // Masking keeps the order of the valid indices.
  lemma MaskedBetter(scores: seq<Score>, length: int, i: nat, j: nat)
    requires i < |scores| && j < |scores| && i < length && j < length
    ensures Better(Masked(scores, length), i, j) <==> Better(scores, i, j)
  {
  }

  // The entry ranked at position a is valid exactly if a is below the count of valid indices, and
  // then exactly a valid indices are better.
  lemma RankedIs(scores: seq<Score>, length: int, ranked: seq<nat>, a: nat)
    requires IsStableArgsort(Masked(scores, length), ranked) && a < |ranked|
    ensures ranked[a] < |scores|
    ensures ranked[a] < length ==> BetterSet(scores, Valid(|scores|, length), ranked[a]) == Firsts(ranked, a)
  {
    var masked, n, i := Masked(scores, length), Valid(|scores|, length), ranked[a];
    if i < length {
      forall j: nat | j in BetterSet(scores, n, i) ensures j in Firsts(ranked, a) {
        MaskedBetter(scores, length, j, i);
        assert j in ranked;
        var b :| 0 <= b < |ranked| && ranked[b] == j;
        BetterIsStrict(masked, i, j);
        assert b < a;
      }
      forall j: nat | j in Firsts(ranked, a) ensures j in BetterSet(scores, n, i) {
        var b: nat :| b < a && ranked[b] == j;
        assert Better(masked, j, i);
        if j >= length {
          ValidBeatsPadding(scores, length, i, j);
          BetterIsStrict(masked, i, j);
        }
        MaskedBetter(scores, length, j, i);
      }
    }
  }

  ghost function Firsts(ranked: seq<nat>, a: nat): set<nat>
    requires a <= |ranked|
  {
    set b: nat | b < a :: ranked[b]
  }

  lemma {:induction false} FirstsSize(scores: seq<Score>, ranked: seq<nat>, a: nat)
    requires IsStableArgsort(scores, ranked) && a <= |ranked|
    ensures |Firsts(ranked, a)| == a
  {
    if a > 0 {
      FirstsSize(scores, ranked, a - 1);
      assert Firsts(ranked, a) == Firsts(ranked, a - 1) + {ranked[a - 1]};
      forall b: nat | b < a - 1 ensures ranked[b] != ranked[a - 1] {
        assert Better(scores, ranked[b], ranked[a - 1]);
      }
    }
  }

  ghost function Below(n: nat): (r: set<nat>)
    ensures |r| == n && forall i: nat :: i in r <==> i < n
  {
    if n == 0 then {} else Below(n - 1) + {n - 1}
  }

  // The first entries ranked are the valid ones.
  lemma ValidFirst(scores: seq<Score>, length: int, ranked: seq<nat>, a: nat)
    requires IsStableArgsort(Masked(scores, length), ranked) && a < Valid(|scores|, length)
    ensures ranked[a] < length
  {
    var n := Valid(|scores|, length);
    if ranked[a] >= length {
      forall i: nat | i < n ensures i in Firsts(ranked, a) {
        assert i in ranked;
        var b: nat :| b < |ranked| && ranked[b] == i;
        ValidBeatsPadding(scores, length, i, ranked[a]);
        BetterIsStrict(Masked(scores, length), i, ranked[a]);
      }
      FirstsSize(Masked(scores, length), ranked, a);
      Counting.SubsetSize(Below(n), Firsts(ranked, a));
    }
  }

  /** There are as many best ones as asked for, or as are valid. */
  lemma BestSize(scores: seq<Score>, length: int, ranked: seq<nat>, topk: nat)
    requires IsStableArgsort(Masked(scores, length), ranked)
    ensures var n := Valid(|scores|, length);
      |Best(scores, n, topk)| == if topk < n then topk else n
  {
    var n := Valid(|scores|, length);
    var m := if topk < n then topk else n;
    forall i: nat ensures i in Best(scores, n, topk) <==> i in Firsts(ranked, m) {
      if i < n {
        assert i in ranked;
        var a: nat :| a < |ranked| && ranked[a] == i;
        RankedIs(scores, length, ranked, a);
        FirstsSize(Masked(scores, length), ranked, a);
        BetterBelow(scores, n, i);
        if i in Firsts(ranked, m) {
          var b: nat :| b < m && ranked[b] == i;
          if a != b { BetterIsStrict(Masked(scores, length), i, i); }
        }
      } else if i in Firsts(ranked, m) {
        var b: nat :| b < m && ranked[b] == i;
        ValidFirst(scores, length, ranked, b);
      }
    }
    FirstsSize(Masked(scores, length), ranked, m);
    assert Best(scores, n, topk) == Firsts(ranked, m);
  }

  lemma BetterBelow(scores: seq<Score>, n: nat, i: nat)
    requires i < n <= |scores|
    ensures |BetterSet(scores, n, i)| < n
  {
    BetterIsStrict(scores, i, i);
    assert BetterSet(scores, n, i) <= Below(n) - {i};
    assert Below(n) - {i} == BetterSet(scores, n, i) + (Below(n) - {i} - BetterSet(scores, n, i));
  }

  // ---- Selecting, ordering and padding one row ----

  const SENTINEL: int := 0x7fff_ffff_ffff_ffff

  function Selected(ranked: seq<nat>, width: nat, length: int): (r: seq<int>)
    requires width <= |ranked|
    ensures |r| == width
  {
    seq(width, a requires 0 <= a < width => if ranked[a] < length then ranked[a] else SENTINEL)
  }

  // The indices selected are the best ones.
  lemma SelectedAreBest(scores: seq<Score>, length: int, ranked: seq<nat>, topk: nat, i: nat)
    requires IsStableArgsort(Masked(scores, length), ranked) && |scores| < SENTINEL && i < SENTINEL
    ensures var width := if topk < |scores| then topk else |scores|;
      i in Best(scores, Valid(|scores|, length), topk) <==> (i as int) in Selected(ranked, width, length)
  {
    var width, n := if topk < |scores| then topk else |scores|, Valid(|scores|, length);
    var selected := Selected(ranked, width, length);
    if i in Best(scores, n, topk) {
      assert i in ranked;
      var a: nat :| a < |ranked| && ranked[a] == i;
      RankedIs(scores, length, ranked, a);
      FirstsSize(Masked(scores, length), ranked, a);
      assert selected[a] == i;
    }
    if (i as int) in selected {
      var a: nat :| a < width && selected[a] == i;
      RankedIs(scores, length, ranked, a);
      FirstsSize(Masked(scores, length), ranked, a);
    }
  }

  lemma {:induction false} AtMostOnce(s: seq<int>, x: int)
    requires forall a, b :: 0 <= a < b < |s| ==> !(s[a] == x && s[b] == x)
    ensures multiset(s)[x] <= 1
  {
    if s != [] {
      var front, last := s[..|s| - 1], s[|s| - 1];
      AtMostOnce(front, x);
      assert s == front + [last];
      if last == x {
        assert x !in front;
      }
    }
  }

  lemma AtLeastTwice(s: seq<int>, x: int, a: nat, b: nat)
    requires a < b < |s| && s[a] == x && s[b] == x
    ensures multiset(s)[x] >= 2
  {
    assert s == s[..b] + [s[b]] + s[b + 1..];
    assert s[..b][a] == x;
  }

  // The distinct entries below the sentinel come first when sorted, each once.
  lemma SortedSelection(selected: seq<int>, sorted: seq<int>, s: set<nat>)
    requires IsSorted(selected, sorted) && forall x :: x in selected ==> 0 <= x <= SENTINEL
    requires forall a, b :: 0 <= a < b < |selected| && selected[a] == selected[b] ==> selected[a] == SENTINEL
    requires forall i: nat :: i in s <==> i in selected && i < SENTINEL
    ensures |s| <= |sorted| == |selected|
    ensures forall a {:trigger sorted[a]} :: 0 <= a < |s| ==> 0 <= sorted[a] < SENTINEL && sorted[a] in s
    ensures forall a, b :: 0 <= a < b < |s| ==> sorted[a] < sorted[b]
    ensures forall a {:trigger sorted[a]} :: |s| <= a < |sorted| ==> sorted[a] == SENTINEL
  {
    assert |multiset(selected)| == |multiset(sorted)|;
    assert forall x :: x in sorted <==> x in multiset(sorted);
    assert forall x :: x in selected <==> x in multiset(selected);
    var m := FirstSentinel(sorted);
    forall a, b | 0 <= a < b < m ensures sorted[a] < sorted[b] {
      if sorted[a] == sorted[b] {
        AtLeastTwice(sorted, sorted[a], a, b);
        AtMostOnce(selected, sorted[a]);
      }
    }
    forall a | 0 <= a < |sorted| ensures 0 <= sorted[a] <= SENTINEL { assert sorted[a] in sorted; }
    assert forall i: nat :: i in s <==> i in sorted[..m] by {
      forall i: nat ensures i in s <==> i in sorted[..m] {
        if i in s {
          assert i in sorted;
          var a :| 0 <= a < |sorted| && sorted[a] == i;
          assert sorted[..m][a] == i;
        }
        if i in sorted[..m] {
          var a :| 0 <= a < m && sorted[..m][a] == i;
          assert sorted[a] in sorted;
        }
      }
    }
    SizeOf(sorted[..m], s);
  }

  // The position of the first sentinel of a sorted sequence.
  lemma {:induction false} FirstSentinel(sorted: seq<int>) returns (m: nat)
    requires forall a, b :: 0 <= a <= b < |sorted| ==> sorted[a] <= sorted[b]
    ensures m <= |sorted|
    ensures forall a {:trigger sorted[a]} :: 0 <= a < |sorted| ==> (sorted[a] < SENTINEL <==> a < m)
  {
    if sorted == [] || sorted[|sorted| - 1] < SENTINEL {
      m := |sorted|;
      assert forall a :: 0 <= a < |sorted| ==> sorted[a] <= sorted[|sorted| - 1];
    } else {
      m := FirstSentinel(sorted[..|sorted| - 1]);
      assert forall a :: 0 <= a < |sorted| - 1 ==> sorted[..|sorted| - 1][a] == sorted[a];
    }
  }

  lemma {:induction false} SizeOf(list: seq<int>, s: set<nat>)
    requires forall a, b :: 0 <= a < b < |list| ==> list[a] < list[b]
    requires forall x :: x in list ==> x >= 0
    requires forall i: nat :: i in s <==> i in list
    ensures |s| == |list|
  {
    if list == [] {
      assert s == {};
    } else {
      var last, front := list[|list| - 1], list[..|list| - 1];
      assert list == front + [last];
      assert last in list;
      var i: nat := last;
      assert forall x :: x in front ==> x in list;
      forall j: nat ensures j in s - {i} <==> j in front {
        if j in front {
          var a :| 0 <= a < |front| && front[a] == j;
          assert list[a] == j;
        }
      }
      SizeOf(front, s - {i});
    }
  }

  // What the two sorts of the tensor library promise.
  ghost predicate SortContracts(argsort: seq<Score> -> seq<nat>, sort: seq<int> -> seq<int>) {
    && (forall s {:trigger argsort(s)} :: IsStableArgsort(s, argsort(s)))
    && (forall s {:trigger sort(s)} :: IsSorted(s, sort(s)))
  }

  /** One row: the best of its valid interval, ascending, then -1. */
  method TopKRow(row: seq<Score>, start: nat, length: int, topk: nat, argsort: seq<Score> -> seq<nat>,
                 sort: seq<int> -> seq<int>)
    returns (out: seq<int>)
    requires SortContracts(argsort, sort) && 0 < |row| < SENTINEL
    ensures Lists(out, Best(Gathered(row, start), Valid(|row|, length), topk), topk)
  {
    var scores := Gathered(row, start);
    var width := if topk < |row| then topk else |row|;
    var ranked := argsort(Masked(scores, length));
    var selected := Selected(ranked, width, length);
    var ordered := sort(selected);
    assert IsSorted(selected, ordered);
    ghost var best := Best(scores, Valid(|row|, length), topk);
    SelectionShape(scores, length, ranked, width);
    forall i: nat ensures i in best <==> (i as int) in selected && i < SENTINEL {
      if i < SENTINEL { SelectedAreBest(scores, length, ranked, topk, i); }
    }
    SortedSelection(selected, ordered, best);
    out := Padded(ordered, topk);
  }

  function Padded(ordered: seq<int>, topk: nat): (r: seq<int>)
    requires |ordered| <= topk
    ensures |r| == topk
  {
    seq(topk, k requires 0 <= k < topk => if k < |ordered| && ordered[k] != SENTINEL then ordered[k] else -1)
  }

  lemma SelectionShape(scores: seq<Score>, length: int, ranked: seq<nat>, width: nat)
    requires IsStableArgsort(Masked(scores, length), ranked) && width <= |scores| < SENTINEL
    ensures forall x :: x in Selected(ranked, width, length) ==> 0 <= x <= SENTINEL
    ensures forall a, b :: 0 <= a < b < width ==>
      Selected(ranked, width, length)[a] == Selected(ranked, width, length)[b] ==>
      Selected(ranked, width, length)[a] == SENTINEL
  {
    forall a, b | 0 <= a < b < width ensures ranked[a] != ranked[b] {
      BetterIsStrict(Masked(scores, length), ranked[a], ranked[b]);
    }
  }

  const TILE_BYTES: nat := 16777216
  const BYTES_PER_SCORE: nat := 64

  // _qsa_deterministic_topk_tile_rows: as many rows as there are and fit the tile's bytes, but one
  // at least.
  function TileRows(rows: nat, width: int): (r: nat)
    ensures 1 <= r && (r <= rows || r == 1)
    ensures width > 0 && r > 1 ==> r * (width * BYTES_PER_SCORE) <= TILE_BYTES
    ensures r < rows ==> width > 0 && TILE_BYTES < (r + 1) * (width * BYTES_PER_SCORE)
  {
    if width <= 0 then (if rows > 1 then rows else 1)
    else
      var fit := TILE_BYTES / (width * BYTES_PER_SCORE);
      var least := if rows < fit then rows else fit;
      var r := if least > 1 then least else 1;
      FitRows(width * BYTES_PER_SCORE, r, fit);
      r
  }

  lemma FitRows(bytes: nat, r: nat, fit: nat)
    requires bytes > 0 && fit == TILE_BYTES / bytes
    ensures r <= fit ==> r * bytes <= TILE_BYTES
    ensures r >= fit ==> TILE_BYTES < (r + 1) * bytes
  {
    Division.QuotientGalois(TILE_BYTES, bytes, r);
    Division.QuotientGalois(TILE_BYTES, bytes, r + 1);
  }

  // Boundaries from 0 to `stop`, no two further apart than one tile.
  ghost predicate Tiled(ends: seq<nat>, stop: nat, tile: nat) {
    && |ends| > 0 && ends[0] == 0 && ends[|ends| - 1] == stop
    && forall i :: 0 < i < |ends| ==> ends[i - 1] < ends[i] <= ends[i - 1] + tile
  }

  /** All rows, a tile at a time, none larger than fits the byte bound: each row's result is that of the row alone. */
  method StableTopK(logits: seq<seq<Score>>, width: nat, starts: seq<nat>, lengths: seq<int>, topk: nat,
                    argsort: seq<Score> -> seq<nat>, sort: seq<int> -> seq<int>)
    returns (output: seq<seq<int>>, ghost ends: seq<nat>)
    requires SortContracts(argsort, sort) && width < SENTINEL
    requires |starts| == |lengths| == |logits|
    requires forall i {:trigger logits[i]} :: 0 <= i < |logits| ==> |logits[i]| == width
    ensures |output| == |logits|
    ensures forall i {:trigger output[i]} :: 0 <= i < |logits| ==>
      Lists(output[i], Best(Gathered(logits[i], starts[i]), Valid(width, lengths[i]), topk), topk)
    ensures |logits| > 0 && width > 0 ==> Tiled(ends, |logits|, TileRows(|logits|, width))
  {
    var rows := |logits|;
    output, ends := seq(rows, _ => seq(topk, _ => -1)), [0];
    if rows == 0 || width == 0 {
      forall i | 0 <= i < rows ensures Best(Gathered(logits[i], starts[i]), Valid(width, lengths[i]), topk) == {} { }
      return;
    }
    var tileRows, begin := TileRows(rows, width), 0;
    while begin < rows
      invariant 0 <= begin <= rows && |output| == rows && Tiled(ends, begin, tileRows)
      invariant forall i {:trigger output[i]} :: 0 <= i < begin ==>
        Lists(output[i], Best(Gathered(logits[i], starts[i]), Valid(width, lengths[i]), topk), topk)
    {
      var end := if begin + tileRows < rows then begin + tileRows else rows;
      for i := begin to end
        invariant |output| == rows
        invariant forall k {:trigger output[k]} :: 0 <= k < i ==>
          Lists(output[k], Best(Gathered(logits[k], starts[k]), Valid(width, lengths[k]), topk), topk)
      {
        var out := TopKRow(logits[i], starts[i], lengths[i], topk, argsort, sort);
        output := output[i := out];
      }
      begin, ends := end, ends + [end];
    }
  }

  // ---- What the result does not depend on ----

  ghost function ToSet(list: seq<int>): set<nat> { set x | x in list && x >= 0 :: x as nat }

  // A list of a set leaves nothing of it out.
  lemma ListCovers(out: seq<int>, s: set<nat>, k: nat)
    requires Lists(out, s, k)
    ensures forall i: nat :: i in s ==> i in out[..|s|]
  {
    var e := ToSet(out[..|s|]);
    forall i: nat | i in e ensures i in s {
      assert (i as int) in out[..|s|];
    }
    assert forall x :: x in out[..|s|] ==> x >= 0;
    assert forall i: nat :: i in e <==> (i as int) in out[..|s|];
    SizeOf(out[..|s|], e);
    assert s == e + (s - e);
  }

  // Where two lists agree so far, the next entry of one is not below the other's.
  lemma NotBelow(a: seq<int>, b: seq<int>, s: set<nat>, k: nat, i: nat)
    requires Lists(a, s, k) && Lists(b, s, k) && i < |s| && forall h :: 0 <= h < i ==> a[h] == b[h]
    ensures a[i] >= b[i]
  {
    ListCovers(b, s, k);
    assert a[i] in b[..|s|];
    var c :| 0 <= c < |s| && b[..|s|][c] == a[i];
    assert b[c] == a[i];
  }

  lemma {:induction false} SamePrefix(a: seq<int>, b: seq<int>, s: set<nat>, k: nat, n: nat)
    requires Lists(a, s, k) && Lists(b, s, k) && n <= |s|
    ensures forall h :: 0 <= h < n ==> a[h] == b[h]
  {
    if n > 0 {
      SamePrefix(a, b, s, k, n - 1);
      NotBelow(a, b, s, k, n - 1);
      NotBelow(b, a, s, k, n - 1);
    }
  }

  /** A set has one such list. */
  lemma OneList(a: seq<int>, b: seq<int>, s: set<nat>, k: nat)
    requires Lists(a, s, k) && Lists(b, s, k)
    ensures a == b
  {
    SamePrefix(a, b, s, k, |s|);
  }

  /** Rows of any widths whose valid intervals are equal have equal results: neither the tile nor
      extra padding matters, and valid minus infinity stays ahead of padding. */
  lemma PaddingIrrelevant(row: seq<Score>, start: nat, other: seq<Score>, otherStart: nat, length: nat, topk: nat,
                          out: seq<int>, otherOut: seq<int>)
    requires start + length <= |row| && otherStart + length <= |other|
    requires row[start..start + length] == other[otherStart..otherStart + length]
    requires Lists(out, Best(Gathered(row, start), Valid(|row|, length), topk), topk)
    requires Lists(otherOut, Best(Gathered(other, otherStart), Valid(|other|, length), topk), topk)
    ensures out == otherOut
  {
    var a, b := Gathered(row, start), Gathered(other, otherStart);
    forall i: nat | i < length ensures a[i] == b[i] {
      assert row[start..start + length][i] == row[start + i]
        && other[otherStart..otherStart + length][i] == other[otherStart + i];
    }
    SameBest(a, b, length, topk);
    OneList(out, otherOut, Best(a, length, topk), topk);
  }

  lemma SameBest(a: seq<Score>, b: seq<Score>, n: nat, k: nat)
    requires n <= |a| && n <= |b| && forall i :: 0 <= i < n ==> a[i] == b[i]
    ensures Best(a, n, k) == Best(b, n, k)
  {
    forall i: nat | i < n ensures BetterSet(a, n, i) == BetterSet(b, n, i) { }
  }
}
