// The decode-graph kernels: the same block close and the same compact mapping as the eager
// path, as stores at flat byte offsets into buffers shared by every lease slot.
module GraphKernels {
  import opened C4Layout
  import opened C4Offload

  newtype Byte = x: int | 0 <= x < 256

  // ---- Flat buffers seen as rows of 256 bytes ----

  function RowAt<T>(bytes: seq<T>, r: nat): (row: seq<T>)
    requires 256 * r + 256 <= |bytes|
    ensures |row| == 256
  {
    bytes[256 * r..256 * r + 256]
  }

  // The records of one slot, the tokens of one slot, the ring of one slot.
  function SlotHot<T>(hot: seq<T>, slot: nat): (r: seq<seq<seq<T>>>)
    requires (slot + 1) * 2112 * 2048 <= |hot|
    ensures |r| == PHYSICAL
  {
    seq(PHYSICAL, r requires 0 <= r < PHYSICAL => HotRecord(hot, slot, r))
  }

  function HotRecord<T>(hot: seq<T>, slot: nat, r: nat): (record: seq<seq<T>>)
    requires (slot + 1) * 2112 * 2048 <= |hot| && r < PHYSICAL
    ensures |record| == 8
  {
    RecordAt(hot, slot * 2112 + r)
  }

  // Record number n of a flat buffer, eight rows.
  function RecordAt<T>(hot: seq<T>, n: nat): (record: seq<seq<T>>)
    requires 2048 * n + 2048 <= |hot|
    ensures |record| == 8
  {
    seq(8, i requires 0 <= i < 8 => RowAt(hot, 8 * n + i))
  }

  function SlotTokens(tokens: seq<int>, slot: nat): (r: seq<int>)
    requires (slot + 1) * 2112 <= |tokens|
    ensures |r| == PHYSICAL
  {
    tokens[slot * 2112..slot * 2112 + 2112]
  }

  function SlotRing<T>(raw: seq<T>, ringStart: nat, slot: nat): (r: seq<seq<T>>)
    requires 256 * (ringStart + 5 * slot + 5) <= |raw|
    ensures |r| == 5
  {
    seq(5, m requires 0 <= m < 5 => RowAt(raw, ringStart + slot * 5 + m))
  }

  // ---- close_c4 ----

  // 2048 bytes from `at`: 1024 of K, then 1024 of V, from ring byte `ring`.
  function StoredRecord<T>(hot: seq<T>, at: nat, k: seq<T>, v: seq<T>, ring: nat): (r: seq<T>)
    requires at + 2048 <= |hot| && ring + 1024 <= |k| == |v|
    ensures |r| == |hot|
  {
    seq(|hot|, x requires 0 <= x < |hot| =>
      if at <= x < at + 1024 then k[ring + x - at]
      else if at + 1024 <= x < at + 2048 then v[ring + x - at - 1024]
      else hot[x])
  }

  // The hot buffer after one closing row.
  function ClosedBytes<T>(hot: seq<T>, k: seq<T>, v: seq<T>, ringStart: nat, slot: nat, block: nat): (r: seq<T>)
    requires (slot + 1) * 2112 * 2048 <= |hot| && 256 * (ringStart + 5 * slot + 5) <= |k| == |v|
    ensures |r| == |hot|
  {
    var ring := (ringStart + slot * 5 + 1) * 256;
    var newest := StoredRecord(hot, (slot * 2112 + 2048) * 2048, k, v, ring);
    if block < 2048 then StoredRecord(newest, (slot * 2112 + block) * 2048, k, v, ring) else newest
  }

  function ClosedTokenCells(tokens: seq<int>, slot: nat, block: nat): (r: seq<int>)
    requires (slot + 1) * 2112 <= |tokens|
    ensures |r| == |tokens|
  {
    if block < 2048 then tokens[slot * 2112 + 2048 := block][slot * 2112 + block := block]
    else tokens[slot * 2112 + 2048 := block]
  }

  // What one program of the grid needs: its lease slot is inside every buffer.
  predicate RowFits(slots: seq<nat>, lengths: seq<nat>, live: nat, row: nat, maxRequests: nat) {
    row < |slots| == |lengths| && (row < live ==> slots[row] < maxRequests && 1 <= lengths[row])
  }

  method StoreRecord(hot: array<Byte>, at: nat, K: array<Byte>, V: array<Byte>, ring: nat)
    requires hot != K && hot != V && at + 2048 <= hot.Length && ring + 1024 <= K.Length == V.Length
    modifies hot
    ensures hot[..] == StoredRecord(old(hot[..]), at, K[..], V[..], ring)
  {
    forall i | 0 <= i < 1024 { hot[at + i] := K[ring + i]; }
    forall i | 0 <= i < 1024 { hot[at + 1024 + i] := V[ring + i]; }
  }

  /** One program of close_c4. */
  method CloseRow(K: array<Byte>, V: array<Byte>, hot: array<Byte>, tokens: array<int>,
                     slots: seq<nat>, lengths: seq<nat>, live: nat, ringStart: nat, row: nat, ghost maxRequests: nat)
    requires hot != K && hot != V
    requires RowFits(slots, lengths, live, row, maxRequests)
    requires hot.Length == maxRequests * 2112 * 2048 && tokens.Length == maxRequests * 2112
    requires K.Length == V.Length == 256 * (ringStart + 5 * maxRequests)
    modifies hot, tokens
    ensures row < live && lengths[row] % 4 == 0 ==>
      && hot[..] == ClosedBytes(old(hot[..]), K[..], V[..], ringStart, slots[row], lengths[row] / 4 - 1)
      && tokens[..] == ClosedTokenCells(old(tokens[..]), slots[row], lengths[row] / 4 - 1)
    ensures !(row < live && lengths[row] % 4 == 0) ==> hot[..] == old(hot[..]) && tokens[..] == old(tokens[..])
  {
    hide StoredRecord;
    if row < live {
      var length := lengths[row];
      if length % 4 == 0 {
        var slot := slots[row];
        var ring := (ringStart + slot * 5 + 1) * 256;
        var newest := (slot * 2112 + 2048) * 2048;
        StoreRecord(hot, newest, K, V, ring);
        assert K[..] == old(K[..]) && V[..] == old(V[..]);
        var block := length / 4 - 1;
        tokens[slot * 2112 + 2048] := block;
        if block < 2048 {
          var dst := (slot * 2112 + block) * 2048;
          StoreRecord(hot, dst, K, V, ring);
          tokens[slot * 2112 + block] := block;
        }
      }
    }
  }

  // Storing record number `rec` replaces its eight rows, four of K and four of V, and no other.
  lemma StoredRow<T>(hot: seq<T>, rec: nat, k: seq<T>, v: seq<T>, ringRow: nat, x: nat)
    requires 2048 * rec + 2048 <= |hot| && 256 * x + 256 <= |hot| && 256 * ringRow + 1024 <= |k| == |v|
    ensures RowAt(StoredRecord(hot, rec * 2048, k, v, ringRow * 256), x) ==
      if 8 * rec <= x < 8 * rec + 4 then RowAt(k, ringRow + (x - 8 * rec))
      else if 8 * rec + 4 <= x < 8 * rec + 8 then RowAt(v, ringRow + (x - 8 * rec - 4))
      else RowAt(hot, x)
  {
    var after := StoredRecord(hot, rec * 2048, k, v, ringRow * 256);
    if 8 * rec <= x < 8 * rec + 4 {
      SameRow(after, x, k, ringRow + (x - 8 * rec));
    } else if 8 * rec + 4 <= x < 8 * rec + 8 {
      SameRow(after, x, v, ringRow + (x - 8 * rec - 4));
    } else {
      SameRow(after, x, hot, x);
    }
  }

  lemma SameRow<T>(a: seq<T>, x: nat, b: seq<T>, y: nat)
    requires 256 * x + 256 <= |a| && 256 * y + 256 <= |b|
    requires forall d :: 256 * x <= d < 256 * x + 256 ==> a[d] == b[256 * y + (d - 256 * x)]
    ensures RowAt(a, x) == RowAt(b, y)
  {
    forall d | 0 <= d < 256 ensures RowAt(a, x)[d] == RowAt(b, y)[d] {
      assert RowAt(a, x)[d] == a[256 * x + d];
    }
  }

  lemma RecordNumber(s: nat, r: nat, slot: nat, row: nat)
    requires r < 2112 && row < 2112
    ensures s * 2112 + r == slot * 2112 + row <==> s == slot && r == row
  {
  }

  // Row i of record n lies in record m only if they are the same.
  lemma RowOfRecord(n: nat, m: nat, i: nat)
    requires i < 8
    ensures 8 * m <= 8 * n + i < 8 * m + 8 <==> n == m
  {
  }

  // The eight rows of a closed block: four of the K ring, then four of the V ring.
  function RingRecord<T>(k: seq<T>, v: seq<T>, first: nat): (r: seq<seq<T>>)
    requires 256 * first + 1024 <= |k| == |v|
    ensures |r| == 8
  {
    seq(8, i requires 0 <= i < 8 => if i < 4 then RowAt(k, first + i) else RowAt(v, first + i - 4))
  }

  lemma RecordStored<T>(hot: seq<T>, rec: nat, k: seq<T>, v: seq<T>, first: nat, n: nat)
    requires 2048 * rec + 2048 <= |hot| && 2048 * n + 2048 <= |hot| && 256 * first + 1024 <= |k| == |v|
    ensures RecordAt(StoredRecord(hot, rec * 2048, k, v, first * 256), n) ==
      if n == rec then RingRecord(k, v, first) else RecordAt(hot, n)
  {
    hide StoredRecord, RowAt;
    var after := StoredRecord(hot, rec * 2048, k, v, first * 256);
    if n == rec {
      forall i | 0 <= i < 8 ensures RecordAt(after, n)[i] == RingRecord(k, v, first)[i] {
        StoredRow(hot, rec, k, v, first, 8 * n + i);
      }
    } else {
      forall i | 0 <= i < 8 ensures RecordAt(after, n)[i] == RecordAt(hot, n)[i] {
        RowOfRecord(n, rec, i);
        StoredRow(hot, rec, k, v, first, 8 * n + i);
      }
    }
  }

  lemma RingRecordIs<T>(k: seq<T>, v: seq<T>, ringStart: nat, slot: nat)
    requires 256 * (ringStart + 5 * slot + 5) <= |k| == |v|
    ensures RingRecord(k, v, ringStart + slot * 5 + 1)
      == SlotRing(k, ringStart, slot)[1..5] + SlotRing(v, ringStart, slot)[1..5]
  {
    var record := SlotRing(k, ringStart, slot)[1..5] + SlotRing(v, ringStart, slot)[1..5];
    forall i | 0 <= i < 8 ensures RingRecord(k, v, ringStart + slot * 5 + 1)[i] == record[i] {
      assert i < 4 ==> record[i] == SlotRing(k, ringStart, slot)[1 + i];
      assert i >= 4 ==> record[i] == SlotRing(v, ringStart, slot)[i - 3];
    }
  }

  // A record stored for a slot is the ring's, and no other record changes.
  lemma StoredRecordView<T>(hot: seq<T>, k: seq<T>, v: seq<T>, ringStart: nat, slot: nat, row: nat, s: nat, r: nat)
    requires row < PHYSICAL && r < PHYSICAL
    requires (slot + 1) * 2112 * 2048 <= |hot| && (s + 1) * 2112 * 2048 <= |hot|
    requires 256 * (ringStart + 5 * slot + 5) <= |k| == |v|
    ensures var after := StoredRecord(hot, (slot * 2112 + row) * 2048, k, v, (ringStart + slot * 5 + 1) * 256);
      HotRecord(after, s, r) ==
        if s == slot && r == row then SlotRing(k, ringStart, slot)[1..5] + SlotRing(v, ringStart, slot)[1..5]
        else HotRecord(hot, s, r)
  {
    RecordNumber(s, r, slot, row);
    RecordStored(hot, slot * 2112 + row, k, v, ringStart + slot * 5 + 1, s * 2112 + r);
    RingRecordIs(k, v, ringStart, slot);
  }

  /** close_c4 on one row is after_store on that row's slot: the record it closes is the
      eager one, at the eager rows, and no other slot is touched. */
  lemma CloseIsEager<T>(hot: seq<T>, tokens: seq<int>, k: seq<T>, v: seq<T>, ringStart: nat, slot: nat, block: nat,
                        s: nat)
    requires (slot + 1) * 2112 * 2048 <= |hot| && (s + 1) * 2112 * 2048 <= |hot|
    requires (slot + 1) * 2112 <= |tokens| && (s + 1) * 2112 <= |tokens|
    requires 256 * (ringStart + 5 * slot + 5) <= |k| == |v|
    ensures SlotHot(ClosedBytes(hot, k, v, ringStart, slot, block), s) ==
      if s == slot then ClosedHot(SlotHot(hot, s), block,
                                  SlotRing(k, ringStart, s)[1..5] + SlotRing(v, ringStart, s)[1..5])
      else SlotHot(hot, s)
    ensures SlotTokens(ClosedTokenCells(tokens, slot, block), s) ==
      if s == slot then ClosedTokens(SlotTokens(tokens, s), block) else SlotTokens(tokens, s)
  {
    var ring := (ringStart + slot * 5 + 1) * 256;
    var newest := StoredRecord(hot, (slot * 2112 + 2048) * 2048, k, v, ring);
    var record := SlotRing(k, ringStart, slot)[1..5] + SlotRing(v, ringStart, slot)[1..5];
    var after := SlotHot(ClosedBytes(hot, k, v, ringStart, slot, block), s);
    var eager := if s == slot then ClosedHot(SlotHot(hot, s), block, record) else SlotHot(hot, s);
    forall r | 0 <= r < PHYSICAL ensures after[r] == eager[r] {
      StoredRecordView(hot, k, v, ringStart, slot, 2048, s, r);
      if block < 2048 { StoredRecordView(newest, k, v, ringStart, slot, block, s, r); }
    }
  }

  // A grid: every program once, in any order.
  ghost predicate IsGrid(order: seq<nat>, count: nat) {
    && (forall i, j :: 0 <= i < j < |order| ==> order[i] != order[j])
    && (forall row: nat :: row < count <==> row in order)
  }

  // A decode batch: live rows own distinct slots and are not empty.
  ghost predicate IsBatch(slots: seq<nat>, lengths: seq<nat>, live: nat, maxRequests: nat) {
    && |slots| == |lengths| && live <= |slots|
    && (forall row {:trigger slots[row]} :: 0 <= row < live ==> slots[row] < maxRequests && 1 <= lengths[row])
    && (forall a, b :: 0 <= a < b < live ==> slots[a] != slots[b])
  }

  // The buffers of the close kernel.
  datatype CloseState = CloseState(hot: seq<Byte>, tokens: seq<int>)

  ghost predicate CloseShape(b: CloseState, k: seq<Byte>, v: seq<Byte>, ringStart: nat, maxRequests: nat) {
    && |b.hot| == maxRequests * 2112 * 2048 && |b.tokens| == maxRequests * 2112
    && |k| == |v| == 256 * (ringStart + 5 * maxRequests)
  }

  predicate Closes(lengths: seq<nat>, live: nat, row: nat) { row < live <= |lengths| && lengths[row] % 4 == 0 }

  // What after_store leaves in the slot of each of these rows; every other slot is untouched.
  ghost predicate EagerlyClosed(was: CloseState, now: CloseState, k: seq<Byte>, v: seq<Byte>, ringStart: nat,
                                slots: seq<nat>, lengths: seq<nat>, live: nat, rows: seq<nat>, maxRequests: nat)
    requires CloseShape(was, k, v, ringStart, maxRequests) && CloseShape(now, k, v, ringStart, maxRequests)
    requires IsBatch(slots, lengths, live, maxRequests)
  {
    && (forall row {:trigger slots[row]} :: row in rows && row < live && lengths[row] % 4 == 0 ==>
          ClosedSlot(was, now, k, v, ringStart, slots[row], lengths[row] / 4 - 1, maxRequests))
    && (forall s: nat {:trigger SameSlot(was, now, k, v, ringStart, s, maxRequests)} ::
          s < maxRequests && (forall row :: row in rows && row < live && lengths[row] % 4 == 0 ==> slots[row] != s) ==>
          SameSlot(was, now, k, v, ringStart, s, maxRequests))
  }

  ghost predicate ClosedSlot(was: CloseState, now: CloseState, k: seq<Byte>, v: seq<Byte>, ringStart: nat,
                             slot: nat, block: int, maxRequests: nat)
    requires CloseShape(was, k, v, ringStart, maxRequests) && CloseShape(now, k, v, ringStart, maxRequests)
    requires slot < maxRequests
  {
    && block >= 0
    && SlotHot(now.hot, slot) ==
         ClosedHot(SlotHot(was.hot, slot), block,
                   SlotRing(k, ringStart, slot)[1..5] + SlotRing(v, ringStart, slot)[1..5])
    && SlotTokens(now.tokens, slot) == ClosedTokens(SlotTokens(was.tokens, slot), block)
  }

  ghost predicate SameSlot(was: CloseState, now: CloseState, k: seq<Byte>, v: seq<Byte>, ringStart: nat,
                           slot: nat, maxRequests: nat)
    requires CloseShape(was, k, v, ringStart, maxRequests) && CloseShape(now, k, v, ringStart, maxRequests)
    requires slot < maxRequests
  {
    SlotHot(now.hot, slot) == SlotHot(was.hot, slot) && SlotTokens(now.tokens, slot) == SlotTokens(was.tokens, slot)
  }

  // One more program of the grid.
  lemma CloseOneMore(was: CloseState, now: CloseState, next: CloseState, k: seq<Byte>, v: seq<Byte>, ringStart: nat,
                     slots: seq<nat>, lengths: seq<nat>, live: nat, rows: seq<nat>, row: nat, maxRequests: nat)
    requires CloseShape(was, k, v, ringStart, maxRequests) && CloseShape(now, k, v, ringStart, maxRequests)
    requires CloseShape(next, k, v, ringStart, maxRequests) && IsBatch(slots, lengths, live, maxRequests)
    requires EagerlyClosed(was, now, k, v, ringStart, slots, lengths, live, rows, maxRequests)
    requires row !in rows && row < |slots|
    requires next == if Closes(lengths, live, row)
      then CloseState(ClosedBytes(now.hot, k, v, ringStart, slots[row], lengths[row] / 4 - 1),
                      ClosedTokenCells(now.tokens, slots[row], lengths[row] / 4 - 1))
      else now
    ensures EagerlyClosed(was, next, k, v, ringStart, slots, lengths, live, rows + [row], maxRequests)
  {
    if Closes(lengths, live, row) {
      var block := lengths[row] / 4 - 1;
      assert SameSlot(was, now, k, v, ringStart, slots[row], maxRequests);
      CloseStep(now, next, k, v, ringStart, slots[row], block, slots[row], maxRequests);
      assert ClosedSlot(was, next, k, v, ringStart, slots[row], block, maxRequests);
      forall s: nat | s < maxRequests && s != slots[row] ensures SameSlot(now, next, k, v, ringStart, s, maxRequests) {
        CloseStep(now, next, k, v, ringStart, slots[row], block, s, maxRequests);
      }
      forall r | r in rows + [row] && Closes(lengths, live, r)
        ensures ClosedSlot(was, next, k, v, ringStart, slots[r], lengths[r] / 4 - 1, maxRequests)
      {
        if r != row {
          assert ClosedSlot(was, now, k, v, ringStart, slots[r], lengths[r] / 4 - 1, maxRequests);
          assert SameSlot(now, next, k, v, ringStart, slots[r], maxRequests);
        }
      }
      forall s: nat | s < maxRequests && forall r :: r in rows + [row] && Closes(lengths, live, r) ==> slots[r] != s
        ensures SameSlot(was, next, k, v, ringStart, s, maxRequests)
      {
        assert row in rows + [row] && forall r :: r in rows ==> r in rows + [row];
        assert SameSlot(was, now, k, v, ringStart, s, maxRequests);
        assert SameSlot(now, next, k, v, ringStart, s, maxRequests);
      }
    }
  }

  lemma CloseStep(now: CloseState, next: CloseState, k: seq<Byte>, v: seq<Byte>, ringStart: nat,
                  slot: nat, block: nat, s: nat, maxRequests: nat)
    requires CloseShape(now, k, v, ringStart, maxRequests) && slot < maxRequests && s < maxRequests
    requires next == CloseState(ClosedBytes(now.hot, k, v, ringStart, slot, block),
                                ClosedTokenCells(now.tokens, slot, block))
    ensures CloseShape(next, k, v, ringStart, maxRequests)
    ensures s == slot ==> ClosedSlot(now, next, k, v, ringStart, s, block, maxRequests)
    ensures s != slot ==> SameSlot(now, next, k, v, ringStart, s, maxRequests)
  {
    CloseIsEager(now.hot, now.tokens, k, v, ringStart, slot, block, s);
  }

  /** close_c4 over its grid: whatever order the programs run in, each closing row's slot
      ends as the eager after_store leaves it and every other slot is unchanged. */
  method CloseC4(K: array<Byte>, V: array<Byte>, hot: array<Byte>, tokens: array<int>, slots: seq<nat>,
                 lengths: seq<nat>, live: nat, ringStart: nat, order: seq<nat>, ghost maxRequests: nat)
    requires hot != K && hot != V && IsGrid(order, |slots|) && IsBatch(slots, lengths, live, maxRequests)
    requires CloseShape(CloseState(hot[..], tokens[..]), K[..], V[..], ringStart, maxRequests)
    modifies hot, tokens
    ensures CloseShape(CloseState(hot[..], tokens[..]), K[..], V[..], ringStart, maxRequests)
    ensures EagerlyClosed(old(CloseState(hot[..], tokens[..])), CloseState(hot[..], tokens[..]), K[..], V[..],
                          ringStart, slots, lengths, live, order, maxRequests)
  {
    ghost var was, k, v := CloseState(hot[..], tokens[..]), K[..], V[..];
    var n := 0;
    while n < |order|
      invariant 0 <= n <= |order| && K[..] == k && V[..] == v
      invariant CloseShape(CloseState(hot[..], tokens[..]), k, v, ringStart, maxRequests)
      invariant EagerlyClosed(was, CloseState(hot[..], tokens[..]), k, v, ringStart, slots, lengths, live, order[..n],
                              maxRequests)
    {
      ghost var now := CloseState(hot[..], tokens[..]);
      assert order[n] in order && order[n] < |slots|;
      assert order[n] < live ==> slots[order[n]] < maxRequests;
      CloseRow(K, V, hot, tokens, slots, lengths, live, ringStart, order[n], maxRequests);
      assert K[..] == k && V[..] == v;
      ghost var next := CloseState(hot[..], tokens[..]);
      CloseOneMore(was, now, next, k, v, ringStart, slots, lengths, live, order[..n], order[n], maxRequests);
      assert order[..n + 1] == order[..n] + [order[n]];
      n := n + 1;
    }
    assert order[..n] == order;
  }
}
