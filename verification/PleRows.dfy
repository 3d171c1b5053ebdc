// Loading sharded embedding rows and row scales into one tensor-parallel rank's part of the table.
module PleRows {
  import opened C4Layout
  import opened Division

  // A checkpoint shard: its index and its rows.
  datatype Shard<T> = Shard(index: nat, rows: seq<T>)

  // Rows of a full shard of a vocabulary cut into so many.
  function ShardSize(vocab: nat, shards: nat): nat
    requires shards >= 1
  {
    (vocab + shards - 1) / shards
  }

  function ShardStart<T>(shard: Shard<T>, size: nat): nat { shard.index * size }

  predicate InShard<T>(shard: Shard<T>, size: nat, row: nat) {
    ShardStart(shard, size) <= row < ShardStart(shard, size) + |shard.rows|
  }

  ghost predicate Covered<T>(shards: seq<Shard<T>>, size: nat, row: nat) {
    exists i :: 0 <= i < |shards| && InShard(shards[i], size, row)
  }

  // The shards are stretches of one global table, in any order and however often.
  ghost predicate Consistent<T(!new)>(shards: seq<Shard<T>>, size: nat, table: seq<T>) {
    forall i {:trigger shards[i]} :: 0 <= i < |shards| ==>
      ShardStart(shards[i], size) + |shards[i].rows| <= |table|
      && shards[i].rows == table[ShardStart(shards[i], size)..ShardStart(shards[i], size) + |shards[i].rows|]
  }

  /** copy_ple_rows_to_tp_embedding: the overlap of a shard's rows with the rank's. */
  method CopyRows<T>(weight: array<T>, tpStart: nat, loaded: seq<T>, rowStart: nat)
    modifies weight
    ensures forall r {:trigger weight[r]} :: 0 <= r < weight.Length ==>
      weight[r] == if rowStart <= tpStart + r < rowStart + |loaded| then loaded[tpStart + r - rowStart]
        else old(weight[r])
  {
    var tpEnd, rowEnd := tpStart + weight.Length, rowStart + |loaded|;
    var ovStart := if rowStart > tpStart then rowStart else tpStart;
    var ovEnd := if rowEnd < tpEnd then rowEnd else tpEnd;
    if ovStart < ovEnd {
      var localStart, srcStart, n := ovStart - tpStart, ovStart - rowStart, ovEnd - ovStart;
      forall k | 0 <= k < n { weight[localStart + k] := loaded[srcStart + k]; }
    }
  }

  /** One rank's rows after loading any shards in any order: those covered are the table's, the
      others are as before. */
  method LoadShards<T(!new)>(weight: array<T>, tpStart: nat, shards: seq<Shard<T>>, size: nat, ghost table: seq<T>)
    requires Consistent(shards, size, table) && tpStart + weight.Length <= |table|
    modifies weight
    ensures forall r {:trigger weight[r]} :: 0 <= r < weight.Length ==>
      weight[r] == if Covered(shards, size, tpStart + r) then table[tpStart + r] else old(weight[r])
  {
    for i := 0 to |shards|
      invariant forall r {:trigger weight[r]} :: 0 <= r < weight.Length ==>
        weight[r] == if Covered(shards[..i], size, tpStart + r) then table[tpStart + r] else old(weight[r])
    {
      ghost var before := weight[..];
      CopyRows(weight, tpStart, shards[i].rows, ShardStart(shards[i], size));
      forall r | 0 <= r < weight.Length
        ensures weight[r] == if Covered(shards[..i + 1], size, tpStart + r) then table[tpStart + r] else old(weight[r])
      {
        OneMoreShard(shards, size, i, tpStart + r);
        assert before[r] == if Covered(shards[..i], size, tpStart + r) then table[tpStart + r] else old(weight[r]);
      }
    }
    assert shards[..|shards|] == shards;
  }

  lemma OneMoreShard<T>(shards: seq<Shard<T>>, size: nat, i: nat, row: nat)
    requires i < |shards|
    ensures Covered(shards[..i + 1], size, row) <==> Covered(shards[..i], size, row) || InShard(shards[i], size, row)
  {
    var more, fewer := shards[..i + 1], shards[..i];
    if Covered(fewer, size, row) {
      var k :| 0 <= k < |fewer| && InShard(fewer[k], size, row);
      assert more[k] == fewer[k];
    }
    if InShard(shards[i], size, row) { assert more[i] == shards[i]; }
    if Covered(more, size, row) {
      var k :| 0 <= k < |more| && InShard(more[k], size, row);
      if k < i { assert fewer[k] == more[k]; }
    }
  }

  // The rows whose scale is not set.
  ghost function Unset<S>(scale: seq<Option<S>>): set<nat> {
    set r: nat | r < |scale| && scale[r].None?
  }

  lemma UnsetOneMore<S>(scale: seq<Option<S>>, last: Option<S>)
    ensures |Unset(scale + [last])| == |Unset(scale)| + if last.None? then 1 else 0
  {
    assert Unset(scale + [last]) == if last.None? then Unset(scale) + {|scale|} else Unset(scale);
  }

  /** The coverage check on row scales, which start as not-a-number: the rows still missing. */
  method CountMissing<S>(scale: array<Option<S>>) returns (missing: nat)
    ensures missing == |Unset(scale[..])|
    ensures missing == 0 <==> forall r :: 0 <= r < scale.Length ==> scale[r].Some?
  {
    missing := 0;
    for r := 0 to scale.Length
      invariant missing == |Unset(scale[..r])|
    {
      UnsetOneMore(scale[..r], scale[r]);
      assert scale[..r] + [scale[r]] == scale[..r + 1];
      if scale[r].None? { missing := missing + 1; }
    }
    assert scale[..scale.Length] == scale[..];
    assert missing == 0 <==> Unset(scale[..]) == {};
    assert forall r :: 0 <= r < scale.Length && scale[r].None? ==> r in Unset(scale[..]);
  }

  /** Loading scales into a fresh table passes the check exactly when every row of the rank is
      covered by some shard, and then every scale is the global one. */
  method LoadScales<S(!new)>(scale: array<Option<S>>, tpStart: nat, shards: seq<Shard<Option<S>>>, size: nat,
                             ghost table: seq<Option<S>>)
    returns (ok: bool)
    requires Consistent(shards, size, table) && tpStart + scale.Length <= |table|
    requires (forall r :: 0 <= r < scale.Length ==> scale[r].None?) && (forall r :: 0 <= r < |table| ==> table[r].Some?)
    modifies scale
    ensures ok <==> CoversRank(shards, size, tpStart, scale.Length)
    ensures ok ==> forall r :: 0 <= r < scale.Length ==> scale[r] == table[tpStart + r]
  {
    LoadShards(scale, tpStart, shards, size, table);
    var missing := CountMissing(scale);
    forall row: nat | tpStart <= row < tpStart + scale.Length
      ensures Covered(shards, size, row) <==> scale[row - tpStart].Some?
    {
      var r := row - tpStart;
      assert scale[r] == if Covered(shards, size, tpStart + r) then table[tpStart + r] else old(scale[r]);
    }
    ok := missing == 0;
    assert !ok ==> exists r :: 0 <= r < scale.Length && scale[r].None?;
    forall r | 0 <= r < scale.Length ensures scale[r].Some? <==> Covered(shards, size, tpStart + r) { }
  }

  // Every row of a rank is in some shard.
  ghost predicate CoversRank<T>(shards: seq<Shard<T>>, size: nat, tpStart: nat, n: nat) {
    forall row: nat {:trigger Covered(shards, size, row)} :: tpStart <= row < tpStart + n ==> Covered(shards, size, row)
  }

  /** A full checkpoint covers the whole vocabulary, whatever order its shards come in. */
  lemma FullCheckpointCovers<T>(shards: seq<Shard<T>>, vocab: nat, count: nat, row: nat)
    requires count >= 1 && row < vocab
    requires forall x: nat {:trigger HasFull(shards, x, vocab, count)} :: x < count ==> HasFull(shards, x, vocab, count)
    ensures Covered(shards, ShardSize(vocab, count), row)
  {
    var size := ShardSize(vocab, count);
    SizeCovers(vocab, count, size);
    var x := row / size;
    Located(row, size, x, vocab, count);
    assert HasFull(shards, x, vocab, count);
    var i :| 0 <= i < |shards| && FullShard(shards[i], x, vocab, count);
    assert InShard(shards[i], size, row);
  }

  // Shard x holds a full stretch, or what is left of the vocabulary.
  ghost predicate FullShard<T>(shard: Shard<T>, x: nat, vocab: nat, count: nat)
    requires count >= 1
  {
    var size := ShardSize(vocab, count);
    shard.index == x && (|shard.rows| == size || x * size + |shard.rows| >= vocab)
  }

  ghost predicate HasFull<T>(shards: seq<Shard<T>>, x: nat, vocab: nat, count: nat)
    requires count >= 1
  {
    exists i :: 0 <= i < |shards| && FullShard(shards[i], x, vocab, count)
  }

  lemma SizeCovers(vocab: nat, count: nat, size: nat)
    requires count >= 1 && size == (vocab + count - 1) / count
    ensures vocab <= count * size && (vocab > 0 ==> size >= 1)
  {
    QuotientGalois(vocab + count - 1, count, size + 1);
    QuotientGalois(vocab + count - 1, count, 1);
  }

  lemma Located(row: nat, size: nat, x: nat, vocab: nat, count: nat)
    requires size >= 1 && x == row / size && row < vocab <= count * size
    ensures x * size <= row < x * size + size && x < count
  {
    if x >= count { MulMono(size, count, x); }
  }
}
