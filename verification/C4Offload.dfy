// One attention layer of one offloaded request. Its K/V live in a host slab of four-token
// records, a ring holding the open block, and a device buffer of recent records; the host
// copy of a closed block runs on another stream and may finish at any time.
module C4Offload {
  import opened C4Layout
  import opened Division
  import opened Pages

  // Every closed block is in host memory or its copy is in flight and the row it will read
  // still holds it; at most one copy is in flight.
  ghost predicate HostOk<T(!new)>(host: seq<seq<T>>, newest: seq<T>, inFlight: seq<nat>, kv: seq<KV<T>>, closed: nat) {
    && 4 * closed <= |kv| && closed <= |host| && |inFlight| <= 1
    && (forall b: nat {:trigger host[b]} :: b < closed && b !in inFlight ==> host[b] == BlockRecord(kv, b))
    && (|inFlight| == 1 ==> inFlight[0] == closed - 1 && newest == BlockRecord(kv, inFlight[0]))
  }

  // Ring rows 1..n hold the n tokens from `first` on.
  ghost predicate RingOk<T(!new)>(ringK: seq<T>, ringV: seq<T>, kv: seq<KV<T>>, first: nat, n: nat) {
    && |ringK| == |ringV| == 5 && n <= 4 && first + n <= |kv|
    && forall j :: 1 <= j <= n ==> ringK[j] == kv[first + j - 1].k && ringV[j] == kv[first + j - 1].v
  }

  // Row HOT is the newest closed block; up to HOT closed blocks are all resident; a row
  // with a token holds the block that token names.
  ghost predicate HotOk<T(!new)>(hot: seq<seq<T>>, tokens: seq<int>, kv: seq<KV<T>>, closed: nat) {
    && |hot| == |tokens| == PHYSICAL && 4 * closed <= |kv|
    && (forall r {:trigger hot[r]} :: 0 <= r < PHYSICAL ==> |hot[r]| == 8)
    && (closed > 0 ==> hot[HOT] == BlockRecord(kv, closed - 1) && tokens[HOT] == closed - 1)
    && (closed <= HOT ==> forall b: nat {:trigger tokens[b]} :: b < closed ==> tokens[b] == b)
    && (forall r {:trigger tokens[r]} :: 0 <= r < HOT ==> TokenOk(hot[r], tokens[r], kv, closed))
  }

  ghost predicate TokenOk<T(!new)>(row: seq<T>, token: int, kv: seq<KV<T>>, closed: nat)
    requires 4 * closed <= |kv|
  {
    -1 <= token < closed && (token >= 0 ==> row == BlockRecord(kv, token))
  }

  // The resolver kernel's view: block list, tokens, host records, hot rows, closed count.
  datatype Resolved<T> = Resolved(hot: seq<seq<T>>, tokens: seq<int>, out: seq<int>)
  type Resolver<!T> = (seq<int>, seq<int>, seq<seq<T>>, seq<seq<T>>, nat) -> Resolved<T>

  // The contract of the external resolver: for closed blocks of a coherent buffer it names
  // resident rows holding them, keeping the buffer coherent, the newest row, and a fully
  // resident prefix.
  ghost predicate ResolverContract<T(!new)>(resolve: Resolver<T>) {
    forall blocks: seq<int>, tokens: seq<int>, host: seq<seq<T>>, hot: seq<seq<T>>, kv: seq<KV<T>>, closed: nat
      {:trigger HotOk(hot, tokens, kv, closed), resolve(blocks, tokens, host, hot, closed)} ::
      HotOk(hot, tokens, kv, closed) && HostOk(host, hot[HOT], [], kv, closed) && BlocksOk(blocks, closed)
      ==> var r := resolve(blocks, tokens, host, hot, closed);
          && HotOk(r.hot, r.tokens, kv, closed) && |r.out| == 512
          && forall i {:trigger r.out[i]} :: 0 <= i < 512 && i < closed ==>
               0 <= r.out[i] < PHYSICAL && r.hot[r.out[i]] == BlockRecord(kv, blocks[i])
  }

  ghost predicate BlocksOk(blocks: seq<int>, closed: nat) {
    |blocks| == 512 && forall i {:trigger blocks[i]} :: 0 <= i < 512 && i < closed ==> 0 <= blocks[i] < closed
  }

  // A raw selection: whole blocks of closed tokens, four members each, then the open block.
  ghost predicate RawOk(raw: seq<int>, seqLen: nat) {
    && |raw| == 2051
    && (forall i {:trigger raw[4 * i]} :: 0 <= i < Min(seqLen / 4, 512) ==>
          && raw[4 * i] % 4 == 0 && 0 <= raw[4 * i] < seqLen / 4 * 4
          && raw[4 * i + 1] == raw[4 * i] + 1 && raw[4 * i + 2] == raw[4 * i] + 2 && raw[4 * i + 3] == raw[4 * i] + 3)
    && (forall j {:trigger raw[j]} :: 0 <= j - Min(seqLen / 4, 512) * 4 < seqLen % 4 ==>
          raw[j] == seqLen / 4 * 4 + (j - Min(seqLen / 4, 512) * 4))
  }

  // row[at : at + |part|].copy_(part)
  function Overlay<T>(row: seq<T>, at: nat, part: seq<T>): (r: seq<T>)
    requires at + |part| <= |row|
    ensures |r| == |row|
    ensures forall i :: 0 <= i < |row| ==> r[i] == if at <= i < at + |part| then part[i - at] else row[i]
  {
    row[..at] + part + row[at + |part|..]
  }

  // One compact plane: the selected rows after a padding row, then the open block if any.
  function LayPlane<T>(compact: seq<T>, plane: seq<T>, ring: seq<T>, selected: nat, tail: nat): (r: seq<T>)
    requires |compact| == 2052 && |plane| == 2048 && |ring| == 5 && selected <= 2048 && tail < 4
    ensures |r| == 2052
    ensures forall j :: 0 <= j < selected ==> r[1 + j] == plane[j]
    ensures forall i :: 1 <= i <= tail ==> r[selected + i] == ring[i]
    ensures r[0] == compact[0] && forall i :: selected + tail < i < 2052 ==> r[i] == compact[i]
  {
    var closed := Overlay(compact, 1, plane[..selected]);
    if tail == 0 then closed else Overlay(closed, 1 + selected, ring[1..1 + tail])
  }

  function Zip<T>(k: seq<T>, v: seq<T>): (r: seq<KV<T>>)
    requires |k| == |v|
    ensures |r| == |k| && Ks(r) == k && Vs(r) == v
  {
    seq(|k|, i requires 0 <= i < |k| => KV(k[i], v[i]))
  }

  // Appending a token leaves the closed blocks as they were.
  lemma RecordsKept<T(!new)>(kv: seq<KV<T>>, x: KV<T>, b: nat)
    requires 4 * b + 4 <= |kv|
    ensures BlockRecord(kv + [x], b) == BlockRecord(kv, b)
  {
  }

  lemma HostKept<T(!new)>(host: seq<seq<T>>, newest: seq<T>, inFlight: seq<nat>, kv: seq<KV<T>>, closed: nat, x: KV<T>)
    requires HostOk(host, newest, inFlight, kv, closed)
    ensures HostOk(host, newest, inFlight, kv + [x], closed)
  {
    forall b: nat | b < closed ensures BlockRecord(kv + [x], b) == BlockRecord(kv, b) { RecordsKept(kv, x, b); }
  }

  lemma HotKept<T(!new)>(hot: seq<seq<T>>, tokens: seq<int>, kv: seq<KV<T>>, closed: nat, x: KV<T>)
    requires HotOk(hot, tokens, kv, closed)
    ensures HotOk(hot, tokens, kv + [x], closed)
  {
    forall b: nat | b < closed ensures BlockRecord(kv + [x], b) == BlockRecord(kv, b) { RecordsKept(kv, x, b); }
    forall r | 0 <= r < HOT ensures TokenOk(hot[r], tokens[r], kv + [x], closed) {
      assert TokenOk(hot[r], tokens[r], kv, closed);
    }
  }

  // The new member lies at ring row 1 + n, n members being open.
  lemma RingStored<T(!new)>(ringK: seq<T>, ringV: seq<T>, kv: seq<KV<T>>, first: nat, n: nat, x: KV<T>)
    requires RingOk(ringK, ringV, kv, first, n) && n < 4 && first + n == |kv|
    ensures RingOk(ringK[1 + n := x.k], ringV[1 + n := x.v], kv + [x], first, n + 1)
  {
  }

  // A full ring is the record of its block.
  lemma RingRecord<T(!new)>(ringK: seq<T>, ringV: seq<T>, kv: seq<KV<T>>, b: nat)
    requires RingOk(ringK, ringV, kv, 4 * b, 4)
    ensures ringK[1..5] + ringV[1..5] == BlockRecord(kv, b)
  {
    var record := ringK[1..5] + ringV[1..5];
    forall i | 0 <= i < 8 ensures record[i] == BlockRecord(kv, b)[i] {
      var j := if i < 4 then 1 + i else i - 3;
      assert ringK[j] == kv[4 * b + j - 1].k && ringV[j] == kv[4 * b + j - 1].v;
    }
  }

  // The row a closed block b leaves in the hot buffer, and its own copy while b < HOT.
  function ClosedHot<T>(hot: seq<seq<T>>, b: nat, record: seq<T>): seq<seq<T>>
    requires |hot| == PHYSICAL
  {
    if b < HOT then hot[HOT := record][b := record] else hot[HOT := record]
  }

  function ClosedTokens(tokens: seq<int>, b: nat): seq<int>
    requires |tokens| == PHYSICAL
  {
    if b < HOT then tokens[b := b][HOT := b] else tokens[HOT := b]
  }

  lemma HotClosed<T(!new)>(hot: seq<seq<T>>, tokens: seq<int>, kv: seq<KV<T>>, b: nat)
    requires HotOk(hot, tokens, kv, b) && 4 * b + 4 <= |kv|
    ensures HotOk(ClosedHot(hot, b, BlockRecord(kv, b)), ClosedTokens(tokens, b), kv, b + 1)
  {
    var hot', tokens' := ClosedHot(hot, b, BlockRecord(kv, b)), ClosedTokens(tokens, b);
    forall r | 0 <= r < HOT ensures TokenOk(hot'[r], tokens'[r], kv, b + 1) {
      assert TokenOk(hot[r], tokens[r], kv, b);
    }
  }

  // stage_short_prefix: up to HOT records become resident in order.
  function StageShortPrefix<T>(hot: seq<seq<T>>, tokens: seq<int>, records: seq<seq<T>>): (r: (seq<seq<T>>, seq<int>))
    requires |hot| == |tokens| == PHYSICAL
    ensures |r.0| == |r.1| == PHYSICAL
  {
    if |records| <= HOT then (Overlay(hot, 0, records), Overlay(tokens, 0, seq(|records|, b => b))) else (hot, tokens)
  }

  // Staging an empty buffer from host records.
  lemma HotStaged<T(!new)>(hot: seq<seq<T>>, tokens: seq<int>, host: seq<seq<T>>, kv: seq<KV<T>>, blocks: nat)
    requires |hot| == |tokens| == PHYSICAL && HostOk(host, hot[HOT], [], kv, blocks)
    requires forall r {:trigger hot[r]} :: 0 <= r < PHYSICAL ==> |hot[r]| == 8
    requires forall r {:trigger tokens[r]} :: 0 <= r < PHYSICAL ==> tokens[r] == -1
    ensures var (h, t) := StageShortPrefix(hot, tokens, host[..blocks]);
      && (blocks == 0 ==> HotOk(h, t, kv, 0))
      && (blocks > 0 ==> HotOk(h[HOT := host[blocks - 1]], t[HOT := blocks - 1], kv, blocks))
  {
    var (h, t) := StageShortPrefix(hot, tokens, host[..blocks]);
    var h', t' := if blocks > 0 then h[HOT := host[blocks - 1]] else h, if blocks > 0 then t[HOT := blocks - 1] else t;
    forall r | 0 <= r < PHYSICAL ensures |h'[r]| == 8 {
      assert r < |hot| ==> |hot[r]| == 8;
    }
    forall r | 0 <= r < HOT ensures TokenOk(h'[r], t'[r], kv, blocks) {
      assert tokens[r] == -1;
    }
  }

  lemma HostClosed<T(!new)>(host: seq<seq<T>>, newest: seq<T>, kv: seq<KV<T>>, b: nat)
    requires HostOk(host, newest, [], kv, b) && 4 * b + 4 <= |kv| && b < |host|
    ensures HostOk(host, BlockRecord(kv, b), [b], kv, b + 1)
  {
  }

  // Entry j of a raw selection is member j % 4 of its block.
  lemma RawMember(raw: seq<int>, seqLen: nat, j: nat)
    requires RawOk(raw, seqLen) && j < Min(seqLen / 4, 512) * 4
    ensures raw[4 * (j / 4)] % 4 == 0 && 0 <= raw[4 * (j / 4)] < seqLen / 4 * 4
    ensures raw[j] == raw[4 * (j / 4)] + j % 4
  {
    var i := j / 4;
    assert j == 4 * i + j % 4;
    assert raw[4 * i] % 4 == 0;
  }

  // Unpacked row j is the K, and row 2048 + j the V, of the token raw[j].
  lemma UnpackedMember<T(!new)>(gathered: seq<seq<T>>, blocks: seq<int>, raw: seq<int>, kv: seq<KV<T>>, j: nat)
    requires RawOk(raw, |kv|) && j < Min(|kv| / 4, 512) * 4 && Gathers(gathered, blocks, raw, kv)
    ensures 0 <= raw[j] < |kv|
    ensures Unpack(gathered)[j] == kv[raw[j]].k && Unpack(gathered)[2048 + j] == kv[raw[j]].v
  {
    var b := blocks[j / 4];
    RawMember(raw, |kv|, j);
    UnpackRow(gathered, j);
    UnpackRow(gathered, 2048 + j);
    assert gathered[j / 4] == BlockRecord(kv, b);
    assert raw[j] == 4 * b + j % 4;
    assert (2048 + j - 2048) % 4 + 4 == j % 4 + 4;
  }

  // Record i of the gathered rows is the block the raw row names at 4 * i.
  ghost predicate Gathers<T(!new)>(gathered: seq<seq<T>>, blocks: seq<int>, raw: seq<int>, kv: seq<KV<T>>) {
    && |blocks| == |gathered| == 512 && Records(gathered) && |raw| == 2051
    && forall i {:trigger blocks[i]} :: 0 <= i < Min(|kv| / 4, 512) ==>
         0 <= blocks[i] < |kv| / 4 && raw[4 * i] == 4 * blocks[i] && gathered[i] == BlockRecord(kv, blocks[i])
  }

  // The table sends token t to one of the first n rows laid, one at which t was laid.
  ghost predicate PointsAt(table: seq<int>, raw: seq<int>, base: nat, n: nat, t: int) {
    n <= |raw| && 0 <= t < |table| && 0 <= table[t] - base - 1 < n && raw[table[t] - base - 1] == t
  }

  ghost predicate Mapped(table: seq<int>, raw: seq<int>, base: nat, n: nat) {
    n <= |raw| && forall i {:trigger PointsAt(table, raw, base, n, raw[i])} :: 0 <= i < n ==>
      PointsAt(table, raw, base, n, raw[i])
  }

  ghost predicate OthersKept(before: seq<int>, after: seq<int>, named: seq<int>) {
    |before| == |after| && forall t {:trigger after[t]} :: 0 <= t < |after| && t !in named ==> after[t] == before[t]
  }

  lemma OthersKeptOneMore(before: seq<int>, after: seq<int>, named: seq<int>, t: int, row: int)
    requires OthersKept(before, after, named) && 0 <= t < |after| && t in named
    ensures OthersKept(before, after[t := row], named)
  {
  }

  lemma MappedOneMore(table: seq<int>, raw: seq<int>, base: nat, n: nat)
    requires Mapped(table, raw, base, n) && n < |raw| && 0 <= raw[n] < |table|
    ensures Mapped(table[raw[n] := 1 + base + n], raw, base, n + 1)
  {
    forall i | 0 <= i < n + 1 ensures PointsAt(table[raw[n] := 1 + base + n], raw, base, n + 1, raw[i]) {
      assert i < n ==> PointsAt(table, raw, base, n, raw[i]);
    }
  }

  // Compact row 1 + j is token raw[j], for the first n entries of the raw row.
  ghost predicate RowsOk<T(!new)>(compactK: seq<T>, compactV: seq<T>, raw: seq<int>, kv: seq<KV<T>>, n: nat) {
    && |compactK| == |compactV| == 2052 && n <= |raw| == 2051
    && forall j {:trigger raw[j]} :: 0 <= j < n ==>
         0 <= raw[j] < |kv| && compactK[1 + j] == kv[raw[j]].k && compactV[1 + j] == kv[raw[j]].v
  }

  // Attention reads the K and V of token t where the table sends it, behind the padding row.
  ghost predicate Found<T(!new)>(compactK: seq<T>, compactV: seq<T>, table: seq<int>, base: nat, kv: seq<KV<T>>,
                                 t: int) {
    && |compactK| == |compactV| == 2052 && 0 <= t < |kv| <= |table| && 0 < table[t] - base < 2052
    && compactK[table[t] - base] == kv[t].k && compactV[table[t] - base] == kv[t].v
  }

  // A raw row names the tokens of the open block after the closed ones it selects.
  lemma AllFound<T(!new)>(compactK: seq<T>, compactV: seq<T>, table: seq<int>, base: nat, raw: seq<int>, kv: seq<KV<T>>)
    requires RawOk(raw, |kv|)
    requires Located(compactK, compactV, table, base, raw, kv, Min(|kv| / 4, 512) * 4 + |kv| % 4)
    ensures forall t :: |kv| / 4 * 4 <= t < |kv| ==> Found(compactK, compactV, table, base, kv, t)
    ensures forall i {:trigger raw[i]} :: 0 <= i < Min(|kv| / 4, 512) * 4 ==>
      Found(compactK, compactV, table, base, kv, raw[i])
  {
    var selected := Min(|kv| / 4, 512) * 4;
    forall t | |kv| / 4 * 4 <= t < |kv| ensures Found(compactK, compactV, table, base, kv, t) {
      var j := selected + (t - |kv| / 4 * 4);
      assert raw[j] == t;
    }
  }

  // Attention reads the right K and V for every token the raw row names.
  ghost predicate Located<T(!new)>(compactK: seq<T>, compactV: seq<T>, table: seq<int>, base: nat,
                                   raw: seq<int>, kv: seq<KV<T>>, n: nat) {
    && |compactK| == |compactV| == 2052 && |kv| <= |table| && n <= |raw|
    && forall j {:trigger raw[j]} :: 0 <= j < n ==>
         && 0 <= raw[j] < |kv| && 0 < table[raw[j]] - base < 2052
         && compactK[table[raw[j]] - base] == kv[raw[j]].k && compactV[table[raw[j]] - base] == kv[raw[j]].v
  }

  lemma MappedRowsLocated<T(!new)>(compactK: seq<T>, compactV: seq<T>, table: seq<int>, base: nat,
                                   raw: seq<int>, kv: seq<KV<T>>, n: nat)
    requires RowsOk(compactK, compactV, raw, kv, n) && Mapped(table, raw, base, n) && |kv| <= |table|
    ensures Located(compactK, compactV, table, base, raw, kv, n)
  {
    forall j | 0 <= j < n
      ensures PointsAt(table, raw, base, n, raw[j])
      ensures compactK[table[raw[j]] - base] == kv[raw[j]].k && compactV[table[raw[j]] - base] == kv[raw[j]].v
    {
      assert PointsAt(table, raw, base, n, raw[j]);
    }
  }

  // The rows laid: the unpacked planes, then the ring.
  lemma RowsLaid<T(!new)>(compactK: seq<T>, compactV: seq<T>, gathered: seq<seq<T>>, blocks: seq<int>,
                          ringK: seq<T>, ringV: seq<T>, raw: seq<int>, kv: seq<KV<T>>)
    requires RawOk(raw, |kv|) && Gathers(gathered, blocks, raw, kv)
    requires RingOk(ringK, ringV, kv, 4 * (|kv| / 4), |kv| % 4) && |compactK| == |compactV| == 2052
    ensures RowsOk(LayPlane(compactK, Unpack(gathered)[..2048], ringK, Min(|kv| / 4, 512) * 4, |kv| % 4),
                   LayPlane(compactV, Unpack(gathered)[2048..], ringV, Min(|kv| / 4, 512) * 4, |kv| % 4),
                   raw, kv, Min(|kv| / 4, 512) * 4 + |kv| % 4)
  {
    hide LayPlane, RawOk, Unpack;
    var selected, tail := Min(|kv| / 4, 512) * 4, |kv| % 4;
    var planeK, planeV := Unpack(gathered)[..2048], Unpack(gathered)[2048..];
    var laidK, laidV := LayPlane(compactK, planeK, ringK, selected, tail),
      LayPlane(compactV, planeV, ringV, selected, tail);
    forall j | 0 <= j < selected + tail
      ensures 0 <= raw[j] < |kv| && laidK[1 + j] == kv[raw[j]].k && laidV[1 + j] == kv[raw[j]].v
    {
      if j < selected {
        ClosedLaid(compactK, compactV, gathered, blocks, ringK, ringV, raw, kv, j);
      } else {
        OpenLaid(compactK, compactV, planeK, planeV, ringK, ringV, raw, kv, j);
      }
    }
  }

  lemma ClosedLaid<T(!new)>(compactK: seq<T>, compactV: seq<T>, gathered: seq<seq<T>>, blocks: seq<int>,
                            ringK: seq<T>, ringV: seq<T>, raw: seq<int>, kv: seq<KV<T>>, j: nat)
    requires RawOk(raw, |kv|) && Gathers(gathered, blocks, raw, kv) && j < Min(|kv| / 4, 512) * 4
    requires |ringK| == |ringV| == 5 && |compactK| == |compactV| == 2052
    ensures 0 <= raw[j] < |kv|
    ensures LayPlane(compactK, Unpack(gathered)[..2048], ringK, Min(|kv| / 4, 512) * 4, |kv| % 4)[1 + j] == kv[raw[j]].k
    ensures LayPlane(compactV, Unpack(gathered)[2048..], ringV, Min(|kv| / 4, 512) * 4, |kv| % 4)[1 + j] == kv[raw[j]].v
  {
    hide RawOk, LayPlane, Unpack;
    UnpackedMember(gathered, blocks, raw, kv, j);
    assert Unpack(gathered)[..2048][j] == Unpack(gathered)[j]
      && Unpack(gathered)[2048..][j] == Unpack(gathered)[2048 + j];
  }

  lemma OpenLaid<T(!new)>(compactK: seq<T>, compactV: seq<T>, planeK: seq<T>, planeV: seq<T>,
                          ringK: seq<T>, ringV: seq<T>, raw: seq<int>, kv: seq<KV<T>>, j: nat)
    requires RawOk(raw, |kv|) && RingOk(ringK, ringV, kv, 4 * (|kv| / 4), |kv| % 4)
    requires |compactK| == |compactV| == 2052 && |planeK| == |planeV| == 2048
    requires Min(|kv| / 4, 512) * 4 <= j < Min(|kv| / 4, 512) * 4 + |kv| % 4
    ensures 0 <= raw[j] < |kv|
    ensures LayPlane(compactK, planeK, ringK, Min(|kv| / 4, 512) * 4, |kv| % 4)[1 + j] == kv[raw[j]].k
    ensures LayPlane(compactV, planeV, ringV, Min(|kv| / 4, 512) * 4, |kv| % 4)[1 + j] == kv[raw[j]].v
  {
    hide LayPlane;
    var selected, tail := Min(|kv| / 4, 512) * 4, |kv| % 4;
    var t := j - selected;
    assert raw[j] == 4 * (|kv| / 4) + t;
    assert LayPlane(compactK, planeK, ringK, selected, tail)[selected + (1 + t)] == ringK[1 + t];
    assert LayPlane(compactV, planeV, ringV, selected, tail)[selected + (1 + t)] == ringV[1 + t];
  }

  // table[raw[j]] := 1 + base + j for each of the first n entries; a later equal entry wins.
  method ScatterRows(table: seq<int>, raw: seq<int>, base: nat, n: nat) returns (r: seq<int>)
    requires n <= |raw| && forall j :: 0 <= j < n ==> 0 <= raw[j] < |table|
    ensures Mapped(r, raw, base, n) && OthersKept(table, r, raw[..n])
  {
    r := table;
    var j := 0;
    while j < n
      invariant 0 <= j <= n
      invariant Mapped(r, raw, base, j) && OthersKept(table, r, raw[..n])
    {
      MappedOneMore(r, raw, base, j);
      assert raw[j] == raw[..n][j];
      OthersKeptOneMore(table, r, raw[..n], raw[j], 1 + base + j);
      r := r[raw[j] := 1 + base + j];
      j := j + 1;
    }
  }

  class LayerCache<T(0,!new)> {
    const capacity: nat          // tokens of a context, a multiple of 4
    const compactBase: nat       // first row of this request in the shared compact buffer

    var host: seq<seq<T>>        // record per block
    var hot: seq<seq<T>>         // PHYSICAL records; row HOT is the newest closed block
    var tokens: seq<int>         // block held by each hot row, -1 if none
    var ringK: seq<T>            // padding row, then the members of the open block
    var ringV: seq<T>
    var inFlight: seq<nat>       // blocks b whose copy host[b] := hot[HOT] has not ended, in order
    var seqLen: nat
    var offloaded: bool
    var compactK: seq<T>         // the rows handed to attention, and where each token lies
    var compactV: seq<T>
    var table: seq<int>

    ghost var kv: seq<KV<T>>     // what the cache stands for: K and V of every token

    ghost predicate Shape() reads this {
      && capacity % 4 == 0 && |host| == capacity / 4 && |kv| <= capacity
      && |hot| == |tokens| == PHYSICAL && |ringK| == |ringV| == 5
      && |compactK| == |compactV| == 2052 && |table| == capacity
    }

    // So many closed blocks, and members of the open one in the ring.
    ghost predicate At(closed: nat, n: nat) reads this {
      && Shape() && offloaded && seqLen == |kv| == 4 * closed + n
      && HostOk(host, hot[HOT], inFlight, kv, closed)
      && RingOk(ringK, ringV, kv, 4 * closed, n)
      && HotOk(hot, tokens, kv, closed)
    }

    // Between two steps of the model.
    ghost predicate Valid() reads this { At(seqLen / 4, seqLen % 4) }

    constructor (capacity: nat, compactBase: nat, zero: T)
      requires capacity % 4 == 0
      ensures this.capacity == capacity && this.compactBase == compactBase
      ensures Shape() && kv == [] && seqLen == 0 && !offloaded && inFlight == [] && HotOk(hot, tokens, kv, 0)
      ensures (forall r :: 0 <= r < PHYSICAL ==> tokens[r] == -1) && forall t :: 0 <= t < capacity ==> table[t] == 0
    {
      this.capacity, this.compactBase := capacity, compactBase;
      host := seq(capacity / 4, _ => []);
      hot, tokens := seq(PHYSICAL, _ => seq(8, _ => zero)), seq(PHYSICAL, _ => -1);
      ringK, ringV := seq(5, _ => zero), seq(5, _ => zero);
      inFlight, seqLen, offloaded := [], 0, false;
      compactK, compactV, table := seq(2052, _ => zero), seq(2052, _ => zero), seq(capacity, _ => 0);
      kv := [];
    }

    /** The copy stream ends its oldest copy, or gets no time. A copy reads its source here,
        not where it was submitted. */
    method CopyStream(runs: bool, ghost closed: nat)
      requires Shape() && HostOk(host, hot[HOT], inFlight, kv, closed)
      modifies this`host, this`inFlight
      ensures Shape() && HostOk(host, hot[HOT], inFlight, kv, closed)
      ensures inFlight == if runs && |old(inFlight)| > 0 then old(inFlight)[1..] else old(inFlight)
    {
      if runs && |inFlight| > 0 {
        host := host[inFlight[0] := hot[HOT]];
        inFlight := inFlight[1..];
      }
    }

    // The stream that writes hot rows waits for every copy submitted so far.
    method WaitForCopies(ghost closed: nat)
      requires Shape() && HostOk(host, hot[HOT], inFlight, kv, closed)
      modifies this`host, this`inFlight
      ensures Shape() && HostOk(host, hot[HOT], [], kv, closed) && inFlight == []
    {
      while |inFlight| > 0
        invariant Shape() && HostOk(host, hot[HOT], inFlight, kv, closed)
      {
        CopyStream(true, closed);
      }
    }

    // The closed part of the staged prompt, at most 4096 tokens at a time.
    method CopyPrompt(stagingK: seq<T>, stagingV: seq<T>) returns (ghost chunks: seq<(nat, nat)>)
      requires Shape() && Ks(kv) == stagingK && Vs(kv) == stagingV
      modifies this`host
      ensures Shape() && HostOk(host, hot[HOT], [], kv, |kv| / 4)
      ensures chunks == Cut(0, |kv| / 4 * 4)
    {
      hide C4Layout.PackC4, C4Layout.Ks, C4Layout.Vs, C4Layout.BlockRecord;
      var last := |stagingK| / 4 * 4;
      var offset := 0;
      chunks := [];
      while offset < last
        invariant 0 <= offset <= last && offset % 4 == 0 && chunks + Cut(offset, last) == Cut(0, last)
        invariant |host| == capacity / 4
        invariant forall b: nat {:trigger host[b]} :: b < offset / 4 ==> host[b] == BlockRecord(kv, b)
      {
        var stop := ChunkEnd(offset, last);
        CutMore(chunks, offset, last);
        chunks := chunks + [(offset, stop)];
        PackedBlocks(kv, offset, stop);
        var packed := PackC4(stagingK[offset..stop], stagingV[offset..stop]);
        host := host[..offset / 4] + packed.value + host[stop / 4..];
        offset := stop;
      }
    }

    // The open block of the staged prompt.
    method StageRing(stagingK: seq<T>, stagingV: seq<T>)
      requires Shape() && Ks(kv) == stagingK && Vs(kv) == stagingV
      modifies this`ringK, this`ringV
      ensures Shape() && RingOk(ringK, ringV, kv, 4 * (|kv| / 4), |kv| % 4)
    {
      var promptLen, tail := |stagingK|, |stagingK| % 4;
      if tail > 0 {
        ringK := Overlay(ringK, 1, stagingK[promptLen - tail..]);
        ringV := Overlay(ringV, 1, stagingV[promptLen - tail..]);
      }
    }

    // make_state, stage_short_prefix and the newest row.
    method StageHot(zero: T)
      requires Shape() && seqLen == |kv| && HostOk(host, hot[HOT], [], kv, |kv| / 4)
      modifies this`hot, this`tokens
      ensures Shape() && HotOk(hot, tokens, kv, |kv| / 4)
      ensures HostOk(host, hot[HOT], [], kv, |kv| / 4)
    {
      var blocks := seqLen / 4;
      hot, tokens := seq(PHYSICAL, _ => seq(8, _ => zero)), seq(PHYSICAL, _ => -1);
      HotStaged(hot, tokens, host, kv, blocks);
      var staged := StageShortPrefix(hot, tokens, host[..blocks]);
      hot, tokens := staged.0, staged.1;
      if blocks > 0 {
        hot, tokens := hot[HOT := host[blocks - 1]], tokens[HOT := blocks - 1];
      }
    }

    method StageParts(stagingK: seq<T>, stagingV: seq<T>, zero: T)
      requires Shape() && seqLen == |kv| && Ks(kv) == stagingK && Vs(kv) == stagingV
      modifies this`host, this`ringK, this`ringV, this`hot, this`tokens
      ensures Shape() && HostOk(host, hot[HOT], [], kv, |kv| / 4)
      ensures RingOk(ringK, ringV, kv, 4 * (|kv| / 4), |kv| % 4) && HotOk(hot, tokens, kv, |kv| / 4)
    {
      hide HostOk, RingOk, HotOk, Shape;
      ghost var chunks := CopyPrompt(stagingK, stagingV);
      StageRing(stagingK, stagingV);
      StageHot(zero);
    }

    /** Prefill to decode: the staged prompt moves to host records, the ring and hot rows. */
    method Handoff(stagingK: seq<T>, stagingV: seq<T>, zero: T)
      requires Shape() && !offloaded && inFlight == []
      requires |stagingK| == |stagingV| <= capacity
      modifies this
      ensures Valid() && inFlight == []
      ensures Ks(kv) == stagingK && Vs(kv) == stagingV
      ensures compactK == old(compactK) && compactV == old(compactV) && table == old(table)
    {
      hide HostOk, RingOk, HotOk;
      kv := Zip(stagingK, stagingV);
      seqLen := |stagingK|;
      StageParts(stagingK, stagingV, zero);
      offloaded := true;
    }

    /** One eager decode step: the model appends a token, then after_store closes the block
        if it is full. The copy stream may run at every point in between. A full context is
        refused without a change. */
    method DecodeStep(k: T, v: T, runs: seq<bool>) returns (ok: bool)
      requires Valid() && |runs| == 3
      modifies this`host, this`hot, this`tokens, this`ringK, this`ringV, this`inFlight, this`seqLen, this`kv
      ensures Valid()
      ensures ok <==> old(|kv|) < capacity
      ensures kv == if ok then old(kv) + [KV(k, v)] else old(kv)
    {
      ok := seqLen + 1 <= capacity;
      if !ok { return; }
      ghost var closed, n := seqLen / 4, seqLen % 4;
      CopyStream(runs[0], closed);
      Store(k, v, closed, n);
      CopyStream(runs[1], closed);
      AfterStore(runs[2], closed, n + 1);
    }

    // begin_batch and the raw write of one token at ring_write_location.
    method Store(k: T, v: T, ghost closed: nat, ghost n: nat)
      requires At(closed, n) && n < 4 && seqLen < capacity
      modifies this`ringK, this`ringV, this`seqLen, this`kv
      ensures At(closed, n + 1) && kv == old(kv) + [KV(k, v)]
    {
      ghost var longer := kv + [KV(k, v)];
      HostKept(host, hot[HOT], inFlight, kv, closed, KV(k, v));
      HotKept(hot, tokens, kv, closed, KV(k, v));
      RingStored(ringK, ringV, kv, 4 * closed, n, KV(k, v));
      assert |longer| == seqLen + 1;
      seqLen := seqLen + 1;
      var location := RingRow(seqLen);
      RingRowsOfBlock(closed, n, seqLen);
      ringK := ringK[location := k];
      ringV := ringV[location := v];
      kv := longer;
    }

    // Closing a block waits for the copy in flight before it reuses row HOT.
    method AfterStore(runs: bool, ghost closed: nat, ghost n: nat)
      requires At(closed, n) && 1 <= n <= 4
      modifies this`host, this`hot, this`tokens, this`inFlight
      ensures Valid()
    {
      hide HostOk, RingOk, HotOk, Shape;
      if seqLen % 4 != 0 { return; }
      WaitForCopies(closed);
      CloseBlock(closed);
      CopyStream(runs, closed + 1);
    }

    method CloseBlock(ghost closed: nat)
      requires At(closed, 4) && inFlight == []
      modifies this`hot, this`tokens, this`inFlight
      ensures At(closed + 1, 0)
    {
      var block := seqLen / 4 - 1;
      assert block == closed;
      RingRecord(ringK, ringV, kv, block);
      HotClosed(hot, tokens, kv, block);
      HostClosed(host, hot[HOT], kv, block);
      ghost var hot0, tokens0 := hot, tokens;
      hot := hot[HOT := ringK[1..5] + ringV[1..5]];
      if block < HOT {
        hot, tokens := hot[block := hot[HOT]], tokens[block := block];
      }
      tokens := tokens[HOT := block];
      assert hot == ClosedHot(hot0, block, BlockRecord(kv, block)) && tokens == ClosedTokens(tokens0, block);
      inFlight := inFlight + [block];
      assert inFlight == [block];
    }

    // Where attention finds token t in the compact buffer.
    ghost predicate FoundAt(t: int) reads this {
      Found(compactK, compactV, table, compactBase, kv, t)
    }

    /** One selection: every token of the open block, and every closed one the raw row names, is in
        the compact buffer at the row the table gives, on both planes; no other token's entry
        changes. */
    method Selected(raw: seq<int>, resolve: Resolver<T>)
      requires Valid() && RawOk(raw, seqLen) && ResolverContract(resolve)
      modifies this`host, this`inFlight, this`hot, this`tokens, this`compactK, this`compactV, this`table
      ensures Valid() && inFlight == [] && kv == old(kv)
      ensures forall t :: |kv| / 4 * 4 <= t < |kv| ==> FoundAt(t)
      ensures forall i {:trigger raw[i]} :: 0 <= i < Min(|kv| / 4, 512) * 4 ==> FoundAt(raw[i])
      ensures OthersKept(old(table), table, raw[..Min(|kv| / 4, 512) * 4 + |kv| % 4])
    {
      hide HostOk, RingOk, HotOk, ResolverContract, Gathers, RowsOk, Located, OthersKept, RawOk, Found;
      WaitForCopies(seqLen / 4);
      ghost var blocks;
      var gathered;
      gathered, blocks := ResolveAndGather(raw, resolve);
      LayRows(raw, blocks, gathered);
      MapTokens(raw);
      AllFound(compactK, compactV, table, compactBase, raw, kv);
    }

    // Whole blocks of the raw row go to the resolver; columns past the closed count read row 0.
    method ResolveAndGather(raw: seq<int>, resolve: Resolver<T>) returns (gathered: seq<seq<T>>, ghost blocks: seq<int>)
      requires Valid() && inFlight == [] && RawOk(raw, seqLen) && ResolverContract(resolve)
      modifies this`hot, this`tokens
      ensures Valid() && Gathers(gathered, blocks, raw, kv)
      ensures |blocks| == 512 && forall i {:trigger blocks[i]} :: 0 <= i < 512 ==> blocks[i] == raw[4 * i] / 4
      ensures var r := resolve(blocks, old(tokens), host, old(hot), seqLen / 4); hot == r.hot && tokens == r.tokens
    {
      var closed := seqLen / 4;
      var list := seq(512, i requires 0 <= i < 512 => raw[4 * i] / 4);
      var r := resolve(list, tokens, host, hot, closed);
      assert HotOk(hot, tokens, kv, closed) && HostOk(host, hot[HOT], [], kv, closed) && BlocksOk(list, closed);
      hot, tokens := r.hot, r.tokens;
      gathered := seq(512, i requires 0 <= i < 512 => if i < closed then r.hot[r.out[i]] else r.hot[0]);
      blocks := list;
    }

    // Unpack the gathered records and lay them, then the open block, after a padding row.
    method LayRows(raw: seq<int>, ghost blocks: seq<int>, gathered: seq<seq<T>>)
      requires Valid() && RawOk(raw, seqLen) && Gathers(gathered, blocks, raw, kv)
      modifies this`compactK, this`compactV
      ensures Valid() && RowsOk(compactK, compactV, raw, kv, Min(|kv| / 4, 512) * 4 + |kv| % 4)
    {
      var unpacked := Unpack(gathered);
      var selected, tail := Min(seqLen / 4, 512) * 4, seqLen % 4;
      RowsLaid(compactK, compactV, gathered, blocks, ringK, ringV, raw, kv);
      compactK := LayPlane(compactK, unpacked[..2048], ringK, selected, tail);
      compactV := LayPlane(compactV, unpacked[2048..], ringV, selected, tail);
    }

    method MapTokens(raw: seq<int>)
      requires Valid() && RowsOk(compactK, compactV, raw, kv, Min(|kv| / 4, 512) * 4 + |kv| % 4)
      modifies this`table
      ensures Valid()
      ensures Located(compactK, compactV, table, compactBase, raw, kv, Min(|kv| / 4, 512) * 4 + |kv| % 4)
      ensures OthersKept(old(table), table, raw[..Min(|kv| / 4, 512) * 4 + |kv| % 4])
    {
      var n := Min(seqLen / 4, 512) * 4 + seqLen % 4;
      var mapped := ScatterRows(table, raw, compactBase, n);
      MappedRowsLocated(compactK, compactV, mapped, compactBase, raw, kv, n);
      table := mapped;
    }
  }
}
