// The C4 record: four K rows followed by four V rows of one block of four tokens.
module C4Layout {

  datatype Option<+X> = None | Some(value: X)

  // K and V of one token; a row is the unit every copy moves.
  datatype KV<+T> = KV(k: T, v: T)

  const HOT: nat := 2048        // resident blocks of a request, and the row of the newest one
  const PHYSICAL: nat := 2112   // rows of a request's hot buffer: HOT plus one page

  // The ring row of the token that makes a request n tokens long; row 0 is padding.
  function RingRow(n: nat): nat
    requires n > 0
  {
    1 + (n - 1) % 4
  }

  /** The four tokens of a block take the four member rows in order, whatever the block; tokens
      share a row exactly if they stand at the same place of their blocks. */
  lemma RingRowsOfBlock(b: nat, m: nat, other: nat)
    requires m < 4 && other > 0
    ensures RingRow(4 * b + m + 1) == 1 + m
    ensures RingRow(4 * b + m + 1) == RingRow(other) <==> (4 * b + m + 1) % 4 == other % 4
  {
    SamePlace(4 * b + m, other - 1);
  }

  lemma SamePlace(x: nat, y: nat)
    ensures x % 4 == y % 4 <==> (x + 1) % 4 == (y + 1) % 4
  {
  }

  /** pack_c4: one record per four tokens. Unequal or partial input is an error. */
  function PackC4<T>(k: seq<T>, v: seq<T>): (r: Option<seq<seq<T>>>)
    ensures r.Some? <==> |k| == |v| && |k| % 4 == 0
    ensures r.Some? ==> |r.value| == |k| / 4
  {
    if |k| != |v| || |k| % 4 != 0 then None
    else Some(seq(|k| / 4, b requires 0 <= b < |k| / 4 => k[4 * b..4 * b + 4] + v[4 * b..4 * b + 4]))
  }

  // unpack_index: where row i of the K plane, then of the V plane, lies in the records.
  function UnpackIndex(): (r: seq<nat>)
    ensures |r| == 4096
  {
    seq(4096, i requires 0 <= i => if i < 2048 then (i / 4) * 8 + i % 4 else ((i - 2048) / 4) * 8 + (i - 2048) % 4 + 4)
  }

  // Row i of the records laid end to end.
  function FlatRow<T>(records: seq<seq<T>>, i: nat): T
    requires i / 8 < |records| && |records[i / 8]| == 8
  {
    records[i / 8][i % 8]
  }

  ghost predicate Records<T>(records: seq<seq<T>>) { forall r :: 0 <= r < |records| ==> |records[r]| == 8 }

  // index_select of the gathered records into the two planes.
  function Unpack<T>(records: seq<seq<T>>): (planes: seq<T>)
    requires |records| == 512 && Records(records)
    ensures |planes| == 4096
  {
    seq(4096, i requires 0 <= i < 4096 => FlatRow(records, UnpackIndex()[i]))
  }

  /** Unpacking records restores the rows they were packed from: K plane, then V plane. */
  lemma {:induction false} UnpackPack<T>(k: seq<T>, v: seq<T>)
    requires |k| == |v| == 2048
    ensures PackC4(k, v).Some? && Records(PackC4(k, v).value)
    ensures Unpack(PackC4(k, v).value) == k + v
  {
    var records, planes := PackC4(k, v).value, Unpack(PackC4(k, v).value);
    forall i | 0 <= i < 4096 ensures planes[i] == (k + v)[i] {
      UnpackRow(records, i);
    }
  }

  // Row 4 * b + m of a plane is member m of record b.
  lemma UnpackRow<T>(records: seq<seq<T>>, i: nat)
    requires |records| == 512 && Records(records) && i < 4096
    ensures i < 2048 ==> Unpack(records)[i] == records[i / 4][i % 4]
    ensures i >= 2048 ==> Unpack(records)[i] == records[(i - 2048) / 4][(i - 2048) % 4 + 4]
  {
    var j := if i < 2048 then i else i - 2048;
    var u := UnpackIndex()[i];
    assert u == (j / 4) * 8 + j % 4 + (if i < 2048 then 0 else 4);
    assert u / 8 == j / 4 && u % 8 == j % 4 + (if i < 2048 then 0 else 4);
  }

  // Block b of a token sequence as a record.
  function BlockRecord<T>(kv: seq<KV<T>>, b: nat): (r: seq<T>)
    requires 4 * b + 4 <= |kv|
    ensures |r| == 8
  {
    seq(8, i requires 0 <= i < 8 => if i < 4 then kv[4 * b + i].k else kv[4 * b + i - 4].v)
  }

  function Ks<T>(kv: seq<KV<T>>): (r: seq<T>)
    ensures |r| == |kv| && forall i :: 0 <= i < |kv| ==> r[i] == kv[i].k
  {
    seq(|kv|, i requires 0 <= i < |kv| => kv[i].k)
  }

  function Vs<T>(kv: seq<KV<T>>): (r: seq<T>)
    ensures |r| == |kv| && forall i :: 0 <= i < |kv| ==> r[i] == kv[i].v
  {
    seq(|kv|, i requires 0 <= i < |kv| => kv[i].v)
  }

  // Packing a block-aligned stretch gives the records of its blocks.
  lemma PackedBlocks<T>(kv: seq<KV<T>>, offset: nat, stop: nat)
    requires offset <= stop <= |kv| && offset % 4 == 0 && stop % 4 == 0
    ensures var r := PackC4(Ks(kv)[offset..stop], Vs(kv)[offset..stop]);
      && r.Some? && |r.value| == stop / 4 - offset / 4
      && forall b :: 0 <= b < |r.value| ==> r.value[b] == BlockRecord(kv, offset / 4 + b)
  {
    var r := PackC4(Ks(kv)[offset..stop], Vs(kv)[offset..stop]);
    forall b | 0 <= b < |r.value| ensures r.value[b] == BlockRecord(kv, offset / 4 + b) {
      assert 4 * (offset / 4 + b) == offset + 4 * b;
    }
  }
}
