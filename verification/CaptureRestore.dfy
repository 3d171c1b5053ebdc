// Capturing a request's prefix into host chunks and restoring them into another row of the
// request table.
module CaptureRestore {
  import opened C4Offload
  import opened Pages

  const PADDING: nat := 64     // raw rows before the staging area

  // One layer's device buffers: raw K and V rows, and the index row of each group of four
  // tokens, addressed through the request table.
  datatype LayerBuffers<T> = LayerBuffers(k: seq<T>, v: seq<T>, index: seq<T>)
  // One layer of one captured segment.
  datatype LayerPart<T> = LayerPart(k: seq<T>, v: seq<T>, index: seq<T>)
  datatype Chunk<T> = Chunk(start: nat, stop: nat, layers: seq<LayerPart<T>>)

  // ---- What a chunk says about a layer ----

  // The index row of group b of four tokens.
  function GroupRow(table: seq<nat>, b: nat): nat
    requires 4 * b < |table|
  {
    table[4 * b] / 4
  }

  // The staging area and the request table reach the length, and the table points into the index.
  ghost predicate Reaches<T(!new)>(buffers: LayerBuffers<T>, table: seq<nat>, length: nat) {
    && PADDING + length <= |buffers.k| && PADDING + length <= |buffers.v| && length <= |table|
    && forall b: nat {:trigger GroupRow(table, b)} :: 4 * b < length ==> GroupRow(table, b) < |buffers.index|
  }

  ghost predicate PartOf<T(!new)>(buffers: LayerBuffers<T>, table: seq<nat>, start: nat, stop: nat,
                                  part: LayerPart<T>) {
    && start <= stop && start % 4 == 0 && stop % 4 == 0 && Reaches(buffers, table, stop)
    && part.k == buffers.k[PADDING + start..PADDING + stop] && part.v == buffers.v[PADDING + start..PADDING + stop]
    && |part.index| == (stop - start) / 4
    && forall b: nat {:trigger GroupRow(table, b)} :: start / 4 <= b < stop / 4 ==>
         part.index[b - start / 4] == buffers.index[GroupRow(table, b)]
  }

  // Whole pages from 0 to the length, without a gap.
  ghost predicate Gapless<T(!new)>(chunks: seq<Chunk<T>>, length: nat) {
    && (forall i {:trigger Follows(chunks, i)} :: 0 <= i < |chunks| ==> Follows(chunks, i))
    && ChunkStop(chunks, |chunks|) == length
  }

  predicate Follows<T>(chunks: seq<Chunk<T>>, i: nat)
    requires i < |chunks|
  {
    chunks[i].start == ChunkStop(chunks, i) && chunks[i].start < chunks[i].stop && chunks[i].stop % 64 == 0
  }

  function ChunkStop<T>(chunks: seq<Chunk<T>>, i: nat): nat
    requires i <= |chunks|
  {
    if i == 0 then 0 else chunks[i - 1].stop
  }

  ghost predicate ChunkHolds<T(!new)>(layers: seq<LayerBuffers<T>>, table: seq<nat>, chunk: Chunk<T>) {
    |chunk.layers| == |layers| && forall li {:trigger chunk.layers[li]} :: 0 <= li < |layers| ==>
      PartOf(layers[li], table, chunk.start, chunk.stop, chunk.layers[li])
  }

  /** The chunks are the layers' contents up to the length. */
  ghost predicate Represents<T(!new)>(layers: seq<LayerBuffers<T>>, table: seq<nat>, chunks: seq<Chunk<T>>,
                                      length: nat) {
    && Gapless(chunks, length)
    && forall i {:trigger ChunkHolds(layers, table, chunks[i])} :: 0 <= i < |chunks| ==>
         ChunkHolds(layers, table, chunks[i])
  }

  // ---- Capture ----

  method CaptureLayer<T(!new)>(buffers: LayerBuffers<T>, table: seq<nat>, start: nat, stop: nat)
    returns (part: LayerPart<T>)
    requires start <= stop && start % 4 == 0 && stop % 4 == 0 && Reaches(buffers, table, stop)
    ensures PartOf(buffers, table, start, stop, part)
  {
    var index := seq((stop - start) / 4, j requires 0 <= j < (stop - start) / 4 =>
      buffers.index[GroupRow(table, start / 4 + j)]);
    part := LayerPart(buffers.k[PADDING + start..PADDING + stop], buffers.v[PADDING + start..PADDING + stop], index);
  }

  lemma {:induction false} StopsGrow<T(!new)>(chunks: seq<Chunk<T>>, length: nat, i: nat, j: nat)
    requires Gapless(chunks, length) && i <= j <= |chunks|
    ensures ChunkStop(chunks, i) <= ChunkStop(chunks, j) && ChunkStop(chunks, j) % 64 == 0
    ensures i < j ==> ChunkStop(chunks, i) < ChunkStop(chunks, j)
  {
    if i < j {
      StopsGrow(chunks, length, i, j - 1);
      assert Follows(chunks, j - 1);
    } else if j > 0 {
      assert Follows(chunks, j - 1);
    }
  }

  lemma ChunkAppended<T(!new)>(layers: seq<LayerBuffers<T>>, table: seq<nat>, chunks: seq<Chunk<T>>, chunk: Chunk<T>,
                               length: nat)
    requires Represents(layers, table, chunks, length) && chunk.start == length < chunk.stop && chunk.stop % 64 == 0
    requires ChunkHolds(layers, table, chunk)
    ensures Represents(layers, table, chunks + [chunk], chunk.stop)
  {
    var more := chunks + [chunk];
    forall i | 0 <= i < |more| ensures Follows(more, i) {
      assert i < |chunks| ==> more[i] == chunks[i] && Follows(chunks, i);
      assert i > 0 ==> more[i - 1] == chunks[i - 1];
    }
    forall i | 0 <= i < |more| ensures ChunkHolds(layers, table, more[i]) {
      assert i < |chunks| ==> more[i] == chunks[i] && ChunkHolds(layers, table, chunks[i]);
    }
  }

  function Spans<T>(chunks: seq<Chunk<T>>): (r: seq<(nat, nat)>)
    ensures |r| == |chunks|
  {
    seq(|chunks|, i requires 0 <= i < |chunks| => (chunks[i].start, chunks[i].stop))
  }

  lemma SpanAdded<T>(chunks: seq<Chunk<T>>, chunk: Chunk<T>, spans: seq<(nat, nat)>, start: nat, offset: nat,
                     length: nat)
    requires offset < length && Spans(chunks) + Cut(offset, length) == spans + Cut(start, length)
    requires chunk.start == offset && chunk.stop == ChunkEnd(offset, length)
    ensures Spans(chunks + [chunk]) + Cut(chunk.stop, length) == spans + Cut(start, length)
  {
    hide Spans, Cut;
    OneMoreSpan(chunks, chunk);
    CutStep(offset, length);
    assert Spans(chunks) + ([(offset, chunk.stop)] + Cut(chunk.stop, length))
        == Spans(chunks) + [(offset, chunk.stop)] + Cut(chunk.stop, length);
  }

  lemma OneMoreSpan<T>(chunks: seq<Chunk<T>>, chunk: Chunk<T>)
    ensures Spans(chunks + [chunk]) == Spans(chunks) + [(chunk.start, chunk.stop)]
  {
  }

  /** capture_prefix: the chunks of a basis this request holds, then at most 4096 tokens at a
      time; together they are the request's contents without a gap. */
  method Capture<T(!new)>(layers: seq<LayerBuffers<T>>, table: seq<nat>, basis: seq<Chunk<T>>, start: nat, length: nat)
    returns (chunks: seq<Chunk<T>>)
    requires Represents(layers, table, basis, start) && start <= length && length % 64 == 0
    requires forall li :: 0 <= li < |layers| ==> Reaches(layers[li], table, length)
    ensures Represents(layers, table, chunks, length) && basis <= chunks
    ensures Spans(chunks) == Spans(basis) + Cut(start, length)
  {
    hide ChunkHolds, PartOf;
    StopsGrow(basis, start, 0, |basis|);
    chunks := basis;
    var offset := start;
    while offset < length
      invariant start <= offset <= length && offset % 64 == 0 && basis <= chunks
      invariant Represents(layers, table, chunks, offset)
      invariant Spans(chunks) + Cut(offset, length) == Spans(basis) + Cut(start, length)
    {
      var stop := ChunkEnd(offset, length);
      PagesAreGroups(offset);
      PagesAreGroups(stop);
      var chunk := CaptureChunk(layers, table, offset, stop);
      ChunkAppended(layers, table, chunks, chunk, offset);
      SpanAdded(chunks, chunk, Spans(basis), start, offset, length);
      chunks := chunks + [chunk];
      offset := stop;
    }
  }

  method CaptureChunk<T(!new)>(layers: seq<LayerBuffers<T>>, table: seq<nat>, start: nat, stop: nat)
    returns (chunk: Chunk<T>)
    requires start <= stop && start % 4 == 0 && stop % 4 == 0
    requires forall li :: 0 <= li < |layers| ==> Reaches(layers[li], table, stop)
    ensures chunk.start == start && chunk.stop == stop && ChunkHolds(layers, table, chunk)
  {
    var parts := [];
    for li := 0 to |layers|
      invariant |parts| == li
      invariant forall k {:trigger parts[k]} :: 0 <= k < li ==> PartOf(layers[k], table, start, stop, parts[k])
    {
      var part := CaptureLayer(layers[li], table, start, stop);
      parts := parts + [part];
    }
    chunk := Chunk(start, stop, parts);
  }

  // ---- Restore ----

  // Distinct groups of the table have distinct index rows.
  ghost predicate DistinctGroups(table: seq<nat>, length: nat) {
    length <= |table| && forall a: nat, b: nat {:trigger GroupRow(table, a), GroupRow(table, b)} ::
      a < b && 4 * b < length ==> GroupRow(table, a) != GroupRow(table, b)
  }

  /** Whatever distinct pages a row is given, its groups have distinct index rows. */
  lemma PagedGroups(table: seq<nat>, pages: seq<nat>, length: nat)
    requires Paged(table, pages, length) && forall a, b :: 0 <= a < b < |pages| ==> pages[a] != pages[b]
    ensures DistinctGroups(table, length)
  {
    forall a: nat, b: nat | a < b && 4 * b < length ensures GroupRow(table, a) != GroupRow(table, b) {
      assert table[4 * a] == 64 * pages[4 * a / 64] + 4 * a % 64 && table[4 * b] == 64 * pages[4 * b / 64] + 4 * b % 64;
      assert GroupRow(table, a) == 16 * pages[4 * a / 64] + (4 * a % 64) / 4;
      assert GroupRow(table, b) == 16 * pages[4 * b / 64] + (4 * b % 64) / 4;
    }
  }

  // index[logical] = rows, one group after another.
  method StoreGroups<T>(index: seq<T>, table: seq<nat>, first: nat, values: seq<T>) returns (r: seq<T>)
    requires 4 * (first + |values|) <= |table| && DistinctGroups(table, 4 * (first + |values|))
    requires forall b :: first <= b < first + |values| ==> GroupRow(table, b) < |index|
    ensures |r| == |index|
    ensures forall b: nat {:trigger GroupRow(table, b)} :: first <= b < first + |values| ==>
      r[GroupRow(table, b)] == values[b - first]
    ensures forall x {:trigger r[x]} :: 0 <= x < |index| ==>
      (forall b :: first <= b < first + |values| ==> GroupRow(table, b) != x) ==> r[x] == index[x]
  {
    r := index;
    for j := 0 to |values|
      invariant |r| == |index|
      invariant forall b: nat {:trigger GroupRow(table, b)} :: first <= b < first + j ==>
        r[GroupRow(table, b)] == values[b - first]
      invariant forall x {:trigger r[x]} :: 0 <= x < |index| ==>
        (forall b :: first <= b < first + j ==> GroupRow(table, b) != x) ==> r[x] == index[x]
    {
      r := r[GroupRow(table, first + j) := values[j]];
    }
  }

  method RestoreLayer<T(!new)>(buffers: LayerBuffers<T>, table: seq<nat>, start: nat, stop: nat, part: LayerPart<T>)
    returns (r: LayerBuffers<T>)
    requires start <= stop && start % 4 == 0 && stop % 4 == 0 && Reaches(buffers, table, stop)
    requires DistinctGroups(table, stop)
    requires |part.k| == |part.v| == stop - start && |part.index| == (stop - start) / 4
    ensures PartOf(r, table, start, stop, part) && OthersUntouched(buffers, r, table, start, stop)
  {
    var index := StoreGroups(buffers.index, table, start / 4, part.index);
    r := LayerBuffers(Overlay(buffers.k, PADDING + start, part.k), Overlay(buffers.v, PADDING + start, part.v), index);
    assert r.k[PADDING + start..PADDING + stop] == part.k && r.v[PADDING + start..PADDING + stop] == part.v;
  }

  // Raw rows outside the stretch and index rows of no group of it are as before.
  ghost predicate OthersUntouched<T(!new)>(was: LayerBuffers<T>, now: LayerBuffers<T>, table: seq<nat>, start: nat,
                                           stop: nat)
    requires stop <= |table|
  {
    && |now.k| == |was.k| && |now.v| == |was.v| && |now.index| == |was.index|
    && (forall p {:trigger now.k[p]} :: 0 <= p < |was.k| && !(PADDING + start <= p < PADDING + stop) ==>
          now.k[p] == was.k[p])
    && (forall p {:trigger now.v[p]} :: 0 <= p < |was.v| && !(PADDING + start <= p < PADDING + stop) ==>
          now.v[p] == was.v[p])
    && (forall x {:trigger now.index[x]} :: 0 <= x < |was.index| ==>
          (forall b: nat :: start / 4 <= b < stop / 4 ==> GroupRow(table, b) != x) ==> now.index[x] == was.index[x])
  }

  // A stretch restored later leaves an earlier one as it was.
  lemma EarlierKept<T(!new)>(was: LayerBuffers<T>, now: LayerBuffers<T>, table: seq<nat>, start: nat, stop: nat,
                             part: LayerPart<T>, later: nat, end: nat)
    requires PartOf(was, table, start, stop, part) && stop <= later <= end <= |table| && DistinctGroups(table, end)
    requires OthersUntouched(was, now, table, later, end)
    ensures PartOf(now, table, start, stop, part)
  {
    assert now.k[PADDING + start..PADDING + stop] == part.k && now.v[PADDING + start..PADDING + stop] == part.v;
    forall b: nat | start / 4 <= b < stop / 4 ensures part.index[b - start / 4] == now.index[GroupRow(table, b)] {
      var x := GroupRow(table, b);
      assert x < |was.index|;
      forall c: nat | later / 4 <= c < end / 4 ensures GroupRow(table, c) != x { assert b < c && 4 * c < end; }
      assert now.index[x] == was.index[x];
    }
  }

  method RestoreChunk<T(!new)>(layers: seq<LayerBuffers<T>>, table: seq<nat>, chunk: Chunk<T>)
    returns (r: seq<LayerBuffers<T>>)
    requires chunk.start <= chunk.stop && chunk.start % 4 == 0 && chunk.stop % 4 == 0 && |chunk.layers| == |layers|
    requires DistinctGroups(table, chunk.stop)
    requires forall li {:trigger layers[li]} :: 0 <= li < |layers| ==> Reaches(layers[li], table, chunk.stop)
    requires forall li {:trigger chunk.layers[li]} :: 0 <= li < |layers| ==>
      Fits(chunk.layers[li], chunk.stop - chunk.start)
    ensures ChunkHolds(r, table, chunk) && |r| == |layers|
    ensures forall li {:trigger r[li]} :: 0 <= li < |layers| ==>
      OthersUntouched(layers[li], r[li], table, chunk.start, chunk.stop)
  {
    r := [];
    for li := 0 to |layers|
      invariant |r| == li
      invariant forall k {:trigger r[k]} :: 0 <= k < li ==>
        && PartOf(r[k], table, chunk.start, chunk.stop, chunk.layers[k])
        && OthersUntouched(layers[k], r[k], table, chunk.start, chunk.stop)
    {
      var restored := RestoreLayer(layers[li], table, chunk.start, chunk.stop, chunk.layers[li]);
      r := r + [restored];
    }
  }

  // validate_prefix_checkpoint on a part's geometry.
  predicate Fits<T>(part: LayerPart<T>, tokens: nat) {
    |part.k| == |part.v| == tokens && |part.index| == tokens / 4
  }

  ghost predicate ChunksFit<T(!new)>(chunks: seq<Chunk<T>>, layers: nat) {
    forall i {:trigger chunks[i]} :: 0 <= i < |chunks| ==>
      |chunks[i].layers| == layers && chunks[i].start <= chunks[i].stop
      && forall li {:trigger chunks[i].layers[li]} :: 0 <= li < layers ==>
           Fits(chunks[i].layers[li], chunks[i].stop - chunks[i].start)
  }

  /** restore_prefix: whatever the row's pages, its layers end up represented by the chunks. */
  method Restore<T(!new)>(layers: seq<LayerBuffers<T>>, table: seq<nat>, chunks: seq<Chunk<T>>, length: nat)
    returns (r: seq<LayerBuffers<T>>)
    requires Gapless(chunks, length) && ChunksFit(chunks, |layers|) && DistinctGroups(table, length)
    requires forall li {:trigger layers[li]} :: 0 <= li < |layers| ==> Reaches(layers[li], table, length)
    ensures |r| == |layers| && Represents(r, table, chunks, length)
    ensures forall li {:trigger r[li]} :: 0 <= li < |layers| ==> OthersUntouched(layers[li], r[li], table, 0, length)
  {
    r := layers;
    StopsGrow(chunks, length, 0, |chunks|);
    for i := 0 to |chunks|
      invariant Restored(layers, r, table, chunks, length, i)
    {
      assert Follows(chunks, i);
      StopsGrow(chunks, length, 0, i);
      StopsGrow(chunks, length, i + 1, |chunks|);
      PagesAreGroups(chunks[i].start);
      PagesAreGroups(chunks[i].stop);
      var next := RestoreChunk(r, table, chunks[i]);
      RestoredStep(layers, r, next, table, chunks, length, i);
      r := next;
    }
  }

  // The first i chunks have been restored, and nothing else was written.
  ghost predicate Restored<T(!new)>(was: seq<LayerBuffers<T>>, now: seq<LayerBuffers<T>>, table: seq<nat>,
                                    chunks: seq<Chunk<T>>, length: nat, i: nat) {
    && |now| == |was| && i <= |chunks| && ChunkStop(chunks, i) <= length <= |table|
    && (forall k {:trigger ChunkHolds(now, table, chunks[k])} :: 0 <= k < i ==> ChunkHolds(now, table, chunks[k]))
    && (forall li {:trigger now[li]} :: 0 <= li < |was| ==>
          Reaches(now[li], table, length) && OthersUntouched(was[li], now[li], table, 0, ChunkStop(chunks, i)))
  }

  lemma RestoredStep<T(!new)>(was: seq<LayerBuffers<T>>, now: seq<LayerBuffers<T>>, next: seq<LayerBuffers<T>>,
                              table: seq<nat>, chunks: seq<Chunk<T>>, length: nat, i: nat)
    requires Gapless(chunks, length) && DistinctGroups(table, length) && i < |chunks|
    requires Restored(was, now, table, chunks, length, i)
    requires |next| == |was| && ChunkHolds(next, table, chunks[i]) && chunks[i].stop <= length
    requires forall li {:trigger next[li]} :: 0 <= li < |was| ==>
      OthersUntouched(now[li], next[li], table, chunks[i].start, chunks[i].stop)
    ensures Restored(was, next, table, chunks, length, i + 1)
  {
    assert Follows(chunks, i);
    StopsGrow(chunks, length, 0, i);
    PagesAreGroups(chunks[i].start);
    PagesAreGroups(chunks[i].stop);
    forall k | 0 <= k < i ensures ChunkHolds(next, table, chunks[k]) {
      StopsGrow(chunks, length, k + 1, i);
      ChunkKept(now, next, table, chunks[k], chunks[i].start, chunks[i].stop);
    }
    forall li | 0 <= li < |was|
      ensures Reaches(next[li], table, length) && OthersUntouched(was[li], next[li], table, 0, chunks[i].stop)
    {
      LayerStep(was[li], now[li], next[li], table, chunks[i].start, chunks[i].stop, length);
    }
  }

  lemma ChunkKept<T(!new)>(was: seq<LayerBuffers<T>>, now: seq<LayerBuffers<T>>, table: seq<nat>, chunk: Chunk<T>,
                           later: nat, end: nat)
    requires ChunkHolds(was, table, chunk) && |now| == |was| && chunk.stop <= later <= end <= |table|
    requires DistinctGroups(table, end)
    requires forall li {:trigger now[li]} :: 0 <= li < |was| ==> OthersUntouched(was[li], now[li], table, later, end)
    ensures ChunkHolds(now, table, chunk)
  {
    forall li | 0 <= li < |now| ensures PartOf(now[li], table, chunk.start, chunk.stop, chunk.layers[li]) {
      EarlierKept(was[li], now[li], table, chunk.start, chunk.stop, chunk.layers[li], later, end);
    }
  }

  lemma LayerStep<T(!new)>(was: LayerBuffers<T>, now: LayerBuffers<T>, next: LayerBuffers<T>, table: seq<nat>,
                           start: nat, stop: nat, length: nat)
    requires start <= stop <= length && start % 4 == 0 && Reaches(now, table, length)
    requires OthersUntouched(was, now, table, 0, start) && OthersUntouched(now, next, table, start, stop)
    ensures Reaches(next, table, length) && OthersUntouched(was, next, table, 0, stop)
  {
    UntouchedBoth(was, now, next, table, start, stop);
  }

  lemma UntouchedBoth<T(!new)>(a: LayerBuffers<T>, b: LayerBuffers<T>, c: LayerBuffers<T>, table: seq<nat>, start: nat,
                               stop: nat)
    requires start <= stop <= |table| && start % 4 == 0
    requires OthersUntouched(a, b, table, 0, start) && OthersUntouched(b, c, table, start, stop)
    ensures OthersUntouched(a, c, table, 0, stop)
  {
    forall x | 0 <= x < |a.index| && forall g: nat :: g < stop / 4 ==> GroupRow(table, g) != x
      ensures c.index[x] == a.index[x]
    {
      assert c.index[x] == b.index[x];
    }
  }

  // ---- Capture then restore ----

  // Every position below the length lies in a chunk.
  lemma {:induction false} InChunk<T(!new)>(chunks: seq<Chunk<T>>, length: nat, n: nat, p: nat) returns (i: nat)
    requires Gapless(chunks, length) && n <= |chunks| && p < ChunkStop(chunks, n)
    ensures i < n && chunks[i].start <= p < chunks[i].stop
  {
    assert Follows(chunks, n - 1);
    if chunks[n - 1].start <= p {
      i := n - 1;
    } else {
      i := InChunk(chunks, length, n - 1, p);
    }
  }

  /** Two rows represented by the same chunks agree on every raw K and V row and on every index
      row, whatever pages each of them has: restoring what was captured is the identity. */
  lemma SameContents<T(!new)>(a: seq<LayerBuffers<T>>, atable: seq<nat>, b: seq<LayerBuffers<T>>, btable: seq<nat>,
                              chunks: seq<Chunk<T>>, length: nat, li: nat, p: nat)
    requires Represents(a, atable, chunks, length) && Represents(b, btable, chunks, length)
    requires |a| == |b| && li < |a| && p < length
    ensures PADDING + p < |a[li].k| && PADDING + p < |b[li].k| && a[li].k[PADDING + p] == b[li].k[PADDING + p]
    ensures PADDING + p < |a[li].v| && PADDING + p < |b[li].v| && a[li].v[PADDING + p] == b[li].v[PADDING + p]
    ensures 4 * (p / 4) < |atable| && 4 * (p / 4) < |btable|
    ensures GroupRow(atable, p / 4) < |a[li].index| && GroupRow(btable, p / 4) < |b[li].index|
    ensures a[li].index[GroupRow(atable, p / 4)] == b[li].index[GroupRow(btable, p / 4)]
  {
    hide PartOf;
    var i := InChunk(chunks, length, |chunks|, p);
    assert ChunkHolds(a, atable, chunks[i]) && ChunkHolds(b, btable, chunks[i]);
    var start, stop, part := chunks[i].start, chunks[i].stop, chunks[i].layers[li];
    PartGives(a[li], atable, start, stop, part, p);
    PartGives(b[li], btable, start, stop, part, p);
  }

  lemma PartGives<T(!new)>(buffers: LayerBuffers<T>, table: seq<nat>, start: nat, stop: nat, part: LayerPart<T>, p: nat)
    requires PartOf(buffers, table, start, stop, part) && start <= p < stop
    ensures PADDING + p < |buffers.k| && buffers.k[PADDING + p] == part.k[p - start]
    ensures PADDING + p < |buffers.v| && buffers.v[PADDING + p] == part.v[p - start]
    ensures 4 * (p / 4) < |table| && GroupRow(table, p / 4) < |buffers.index|
    ensures start / 4 <= p / 4 && p / 4 - start / 4 < |part.index|
    ensures buffers.index[GroupRow(table, p / 4)] == part.index[p / 4 - start / 4]
  {
    assert part.k[p - start] == buffers.k[PADDING + start..PADDING + stop][p - start];
    assert part.v[p - start] == buffers.v[PADDING + start..PADDING + stop][p - start];
    assert start / 4 <= p / 4 < stop / 4;
  }

  // What the chunks say of a row, they say of any row whose groups and contents are the same
  // up to their length.
  ghost predicate SameBelow<T(!new)>(was: seq<LayerBuffers<T>>, wasTable: seq<nat>, now: seq<LayerBuffers<T>>,
                                     table: seq<nat>, length: nat) {
    && |now| == |was| && length <= |wasTable| && length <= |table|
    && (forall b: nat {:trigger GroupRow(table, b)} :: 4 * b < length ==> GroupRow(table, b) == GroupRow(wasTable, b))
    && forall li {:trigger now[li]} :: 0 <= li < |was| ==> SameLayerBelow(was[li], now[li], table, length)
  }

  ghost predicate SameLayerBelow<T(!new)>(was: LayerBuffers<T>, now: LayerBuffers<T>, table: seq<nat>, length: nat)
    requires length <= |table|
  {
    && |now.k| == |was.k| && |now.v| == |was.v| && |now.index| == |was.index|
    && (forall p {:trigger now.k[p]} :: PADDING <= p < PADDING + length && p < |was.k| ==> now.k[p] == was.k[p])
    && (forall p {:trigger now.v[p]} :: PADDING <= p < PADDING + length && p < |was.v| ==> now.v[p] == was.v[p])
    && (forall b: nat {:trigger GroupRow(table, b)} :: b < length / 4 && GroupRow(table, b) < |was.index| ==>
          now.index[GroupRow(table, b)] == was.index[GroupRow(table, b)])
  }

  lemma RepresentsSame<T(!new)>(was: seq<LayerBuffers<T>>, wasTable: seq<nat>, now: seq<LayerBuffers<T>>,
                                table: seq<nat>, chunks: seq<Chunk<T>>, length: nat, upto: nat)
    requires Represents(was, wasTable, chunks, length) && length <= upto && SameBelow(was, wasTable, now, table, upto)
    ensures Represents(now, table, chunks, length)
  {
    hide ChunkHolds, SameBelow;
    forall i | 0 <= i < |chunks| ensures ChunkHolds(now, table, chunks[i]) {
      StopsGrow(chunks, length, i + 1, |chunks|);
      ChunkSame(was, wasTable, now, table, chunks, i, upto, length);
    }
  }

  lemma ChunkSame<T(!new)>(was: seq<LayerBuffers<T>>, wasTable: seq<nat>, now: seq<LayerBuffers<T>>, table: seq<nat>,
                           chunks: seq<Chunk<T>>, i: nat, upto: nat, length: nat)
    requires i < |chunks| && Represents(was, wasTable, chunks, length) && chunks[i].stop <= upto
    requires SameBelow(was, wasTable, now, table, upto)
    ensures ChunkHolds(now, table, chunks[i])
  {
    assert ChunkHolds(was, wasTable, chunks[i]);
    forall li | 0 <= li < |now| ensures PartOf(now[li], table, chunks[i].start, chunks[i].stop, chunks[i].layers[li]) {
      PartSame(was[li], wasTable, now[li], table, chunks[i].start, chunks[i].stop, chunks[i].layers[li], upto);
    }
  }

  lemma PartSame<T(!new)>(was: LayerBuffers<T>, wasTable: seq<nat>, now: LayerBuffers<T>, table: seq<nat>, start: nat,
                          stop: nat, part: LayerPart<T>, upto: nat)
    requires PartOf(was, wasTable, start, stop, part) && stop <= upto <= |table| && upto <= |wasTable|
    requires SameLayerBelow(was, now, table, upto)
    requires forall b: nat {:trigger GroupRow(table, b)} :: 4 * b < upto ==> GroupRow(table, b) == GroupRow(wasTable, b)
    ensures PartOf(now, table, start, stop, part)
  {
    assert now.k[PADDING + start..PADDING + stop] == part.k && now.v[PADDING + start..PADDING + stop] == part.v;
    forall b: nat | start / 4 <= b < stop / 4 ensures part.index[b - start / 4] == now.index[GroupRow(table, b)] {
      assert GroupRow(table, b) == GroupRow(wasTable, b) < |was.index|;
    }
  }

  /** A prefill that only writes behind a length leaves everything below it: the raw rows, and the
      index rows of the groups closed there, whatever the row's pages. */
  lemma BehindKeepsBelow<T(!new)>(was: seq<LayerBuffers<T>>, wasTable: seq<nat>, now: seq<LayerBuffers<T>>,
                                  table: seq<nat>, length: nat, end: nat)
    requires |now| == |was| && length <= end && length <= |wasTable| && DistinctGroups(table, end)
    requires forall b: nat {:trigger GroupRow(table, b)} :: 4 * b < length ==>
      GroupRow(table, b) == GroupRow(wasTable, b)
    requires forall li {:trigger now[li]} :: 0 <= li < |was| ==> OthersUntouched(was[li], now[li], table, length, end)
    ensures SameBelow(was, wasTable, now, table, length)
  {
    forall li | 0 <= li < |was| ensures SameLayerBelow(was[li], now[li], table, length) {
      assert OthersUntouched(was[li], now[li], table, length, end);
      forall b: nat | b < length / 4 && GroupRow(table, b) < |was[li].index|
        ensures now[li].index[GroupRow(table, b)] == was[li].index[GroupRow(table, b)]
      {
        forall c: nat | length / 4 <= c < end / 4 ensures GroupRow(table, c) != GroupRow(table, b) {
          assert b < c && 4 * c < end;
        }
      }
    }
  }

  /** A prefill that only writes behind the length of a basis, or further on, leaves what the basis
      says. */
  lemma BasisKept<T(!new)>(was: seq<LayerBuffers<T>>, wasTable: seq<nat>, now: seq<LayerBuffers<T>>, table: seq<nat>,
                           basis: seq<Chunk<T>>, length: nat, from: nat, end: nat)
    requires Represents(was, wasTable, basis, length) && |now| == |was| && length <= from <= end && from <= |wasTable|
    requires forall b: nat {:trigger GroupRow(table, b)} :: 4 * b < from && 4 * b < |table| ==>
      GroupRow(table, b) == GroupRow(wasTable, b)
    requires DistinctGroups(table, end)
    requires forall li {:trigger now[li]} :: 0 <= li < |was| ==> OthersUntouched(was[li], now[li], table, from, end)
    ensures Represents(now, table, basis, length)
  {
    BehindKeepsBelow(was, wasTable, now, table, from, end);
    RepresentsSame(was, wasTable, now, table, basis, length, from);
  }

  // Contents of a row fit the layers they were taken from.
  lemma RepresentedFits<T(!new)>(layers: seq<LayerBuffers<T>>, table: seq<nat>, chunks: seq<Chunk<T>>, length: nat)
    requires Represents(layers, table, chunks, length)
    ensures ChunksFit(chunks, |layers|)
  {
    forall i | 0 <= i < |chunks|
      ensures |chunks[i].layers| == |layers| && chunks[i].start <= chunks[i].stop
      ensures forall li {:trigger chunks[i].layers[li]} :: 0 <= li < |layers| ==>
        Fits(chunks[i].layers[li], chunks[i].stop - chunks[i].start)
    {
      assert Follows(chunks, i) && ChunkHolds(layers, table, chunks[i]);
    }
  }
}
