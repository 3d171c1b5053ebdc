// The decode-graph kernel that lays selected and open rows into the compact buffers and maps
// their tokens: one program per batch row and per chunk of four members.
module GraphCompact {
  import opened C4Layout
  import opened C4Offload
  import opened Division
  import opened GraphKernels

  // ---- Shared buffers seen slot by slot ----

  // Row m of a slot's compact rows on a plane; the second plane starts maxRequests slots later.
  function PlaneRow(plane: nat, slot: nat, m: nat, maxRequests: nat): nat {
    (if plane == 0 then 0 else maxRequests * 2052) + slot * 2052 + m
  }

  function SlotPlane<T>(compact: seq<T>, plane: nat, slot: nat, maxRequests: nat): (r: seq<seq<T>>)
    requires plane < 2 && slot < maxRequests && |compact| == 2 * maxRequests * 2052 * 256
    ensures |r| == 2052
  {
    seq(2052, m requires 0 <= m < 2052 => RowAt(compact, PlaneRow(plane, slot, m, maxRequests)))
  }

  function TableBase(slot: nat, capacity: nat): nat { slot * capacity }

  lemma TableSlots(a: nat, b: nat, capacity: nat)
    requires a < b
    ensures TableBase(a, capacity) + capacity <= TableBase(b, capacity)
  {
    MulMono(capacity, a + 1, b);
  }

  function SlotTable(table: seq<int>, slot: nat, capacity: nat, maxRequests: nat): (r: seq<int>)
    requires slot < maxRequests && |table| == TableBase(maxRequests, capacity)
    ensures |r| == capacity
  {
    TableSlots(slot, maxRequests, capacity);
    table[TableBase(slot, capacity)..TableBase(slot, capacity) + capacity]
  }

  lemma TableStore(table: seq<int>, slot: nat, s: nat, capacity: nat, maxRequests: nat, t: nat, x: int)
    requires slot < maxRequests && s < maxRequests && |table| == TableBase(maxRequests, capacity) && t < capacity
    ensures TableBase(slot, capacity) + t < |table|
    ensures SlotTable(table[TableBase(slot, capacity) + t := x], s, capacity, maxRequests) ==
      if s == slot then SlotTable(table, s, capacity, maxRequests)[t := x]
      else SlotTable(table, s, capacity, maxRequests)
  {
    TableSlots(slot, maxRequests, capacity);
    TableSlots(s, maxRequests, capacity);
    if s < slot { TableSlots(s, slot, capacity); }
    if slot < s { TableSlots(slot, s, capacity); }
  }

  // A row stored into a flat buffer.
  lemma RowStored<T>(bytes: seq<T>, q: nat, row: seq<T>, p: nat)
    requires |row| == 256 && 256 * q + 256 <= |bytes| && 256 * p + 256 <= |bytes|
    ensures RowAt(Overlay(bytes, 256 * q, row), p) == if p == q then row else RowAt(bytes, p)
  {
    var after := Overlay(bytes, 256 * q, row);
    assert p != q ==> 256 * p + 256 <= 256 * q || 256 * q + 256 <= 256 * p;
    assert RowAt(after, p) == if p == q then row else RowAt(bytes, p);
  }

  // ---- The inputs of a launch ----

  datatype Inputs = Inputs(unpacked: seq<Byte>, k: seq<Byte>, v: seq<Byte>, raw: seq<int>, slots: seq<nat>,
                           lengths: seq<nat>, live: nat, capacity: nat, ringStart: nat, maxRequests: nat)
  {
    ghost predicate Valid() {
      && IsBatch(slots, lengths, live, maxRequests)
      && |unpacked| == |slots| * 2 * 2048 * 256 && |raw| == |slots| * 2051
      && |k| == |v| == 256 * (ringStart + 5 * maxRequests)
      && (forall row {:trigger slots[row]} :: 0 <= row < live ==>
            forall j {:trigger RawRow(row)[j]} :: 0 <= j < Named(row) ==> 0 <= RawRow(row)[j] < capacity)
    }

    function Closed(row: nat): (r: nat)
      requires row < |lengths|
      ensures r <= 2048
    {
      Min(lengths[row] / 4 * 4, 2048)
    }

    // The members a row lays: its selected closed ones, then its open ones.
    function Named(row: nat): (r: nat)
      requires row < |lengths|
      ensures r <= 2051
    {
      Closed(row) + lengths[row] % 4
    }

    function RawRow(row: nat): (r: seq<int>)
      requires row < |slots| && |raw| == |slots| * 2051
      ensures |r| == 2051
    {
      raw[row * 2051..row * 2051 + 2051]
    }

    // The K or V row of member m: unpacked if selected, from the ring if open.
    function Source(plane: nat, row: nat, m: nat): (r: seq<Byte>)
      requires Valid() && plane < 2 && row < live && m < Named(row)
      ensures |r| == 256
    {
      if m < Closed(row) then RowAt(unpacked, (row * 2 + plane) * 2048 + m)
      else RowAt(if plane == 0 then k else v, ringStart + slots[row] * 5 + 1 + m - Closed(row))
    }
  }

  datatype Buffers = Buffers(compact: seq<Byte>, table: seq<int>)

  ghost predicate Shape(b: Buffers, inp: Inputs) {
    && |b.compact| == 2 * inp.maxRequests * 2052 * 256
    && |b.table| == TableBase(inp.maxRequests, inp.capacity)
  }

  // ---- One program ----

  lemma PlaneRowInjective(plane: nat, s: nat, m: nat, plane': nat, s': nat, m': nat, maxRequests: nat)
    requires plane < 2 && plane' < 2 && s < maxRequests && s' < maxRequests && m < 2052 && m' < 2052
    requires PlaneRow(plane, s, m, maxRequests) == PlaneRow(plane', s', m', maxRequests)
    ensures plane == plane' && s == s' && m == m'
  {
  }

  // Which compact rows a partly run program has written: those of its own slot and chunk, on
  // the planes done, and up to row `upto` on the current one.
  predicate Written(inp: Inputs, row: nat, chunk: nat, done: nat, upto: nat, plane: nat, s: nat, m: nat)
    requires row < |inp.slots| == |inp.lengths|
  {
    && s == inp.slots[row] && 4 * chunk < m <= 4 * chunk + 4 && m - 1 < inp.Named(row)
    && (plane < done || (plane == done && m <= upto))
  }

  ghost predicate RowsStored(now: Buffers, next: Buffers, inp: Inputs, row: nat, chunk: nat, done: nat, upto: nat)
    requires inp.Valid() && Shape(now, inp) && row < inp.live
  {
    Shape(next, inp) && forall plane: nat, s: nat, m: nat {:trigger PlaneRow(plane, s, m, inp.maxRequests)} ::
      plane < 2 && s < inp.maxRequests && m < 2052 ==>
        RowAt(next.compact, PlaneRow(plane, s, m, inp.maxRequests)) ==
          if Written(inp, row, chunk, done, upto, plane, s, m) then inp.Source(plane, row, m - 1)
          else RowAt(now.compact, PlaneRow(plane, s, m, inp.maxRequests))
  }

  lemma RowsStoredStep(now: Buffers, cur: Buffers, next: Buffers, inp: Inputs, row: nat, chunk: nat, done: nat,
                       upto: nat)
    requires inp.Valid() && Shape(now, inp) && row < inp.live && done < 2
    requires RowsStored(now, cur, inp, row, chunk, done, upto) && 4 * chunk <= upto < 4 * chunk + 4
    requires next.table == cur.table
    requires next.compact == if upto < inp.Named(row)
      then Overlay(cur.compact, 256 * PlaneRow(done, inp.slots[row], 1 + upto, inp.maxRequests),
                   inp.Source(done, row, upto))
      else cur.compact
    ensures RowsStored(now, next, inp, row, chunk, done, upto + 1)
  {
    hide Overlay, RowAt;
    forall plane: nat, s: nat, m: nat | plane < 2 && s < inp.maxRequests && m < 2052
      ensures RowAt(next.compact, PlaneRow(plane, s, m, inp.maxRequests)) ==
        if Written(inp, row, chunk, done, upto + 1, plane, s, m) then inp.Source(plane, row, m - 1)
        else RowAt(now.compact, PlaneRow(plane, s, m, inp.maxRequests))
    {
      if upto < inp.Named(row) {
        MemberStored(cur.compact, inp, row, done, upto, plane, s, m);
      }
      assert Written(inp, row, chunk, done, upto + 1, plane, s, m) <==>
        Written(inp, row, chunk, done, upto, plane, s, m)
        || (plane == done && s == inp.slots[row] && m == upto + 1 && upto < inp.Named(row));
    }
  }

  // Storing one member changes one row of one slot.
  lemma MemberStored(compact: seq<Byte>, inp: Inputs, row: nat, done: nat, member: nat, plane: nat, s: nat, m: nat)
    requires inp.Valid() && row < inp.live && done < 2 && member < inp.Named(row)
    requires |compact| == 2 * inp.maxRequests * 2052 * 256 && plane < 2 && s < inp.maxRequests && m < 2052
    ensures RowAt(Overlay(compact, 256 * PlaneRow(done, inp.slots[row], 1 + member, inp.maxRequests),
                          inp.Source(done, row, member)),
                  PlaneRow(plane, s, m, inp.maxRequests)) ==
      if plane == done && s == inp.slots[row] && m == member + 1 then inp.Source(done, row, member)
      else RowAt(compact, PlaneRow(plane, s, m, inp.maxRequests))
  {
    var p, q := PlaneRow(plane, s, m, inp.maxRequests), PlaneRow(done, inp.slots[row], 1 + member, inp.maxRequests);
    RowStored(compact, q, inp.Source(done, row, member), p);
    if p == q { PlaneRowInjective(plane, s, m, done, inp.slots[row], 1 + member, inp.maxRequests); }
  }

  // What a partly run program has done to its slot's table: its members are mapped, and the
  // only entries that changed name a row holding their own token.
  ghost predicate Remapped(before: seq<int>, after: seq<int>, raw: seq<int>, base: nat, n: nat, from: nat, upto: nat) {
    && n <= |raw| && (forall i {:trigger raw[i]} :: from <= i < upto && i < n ==> PointsAt(after, raw, base, n, raw[i]))
    && OthersKept(before, after, raw[..n])
    && (forall t {:trigger after[t]} :: 0 <= t < |after| ==>
          || after[t] == before[t]
          || (PointsAt(after, raw, base, n, t) && from <= after[t] - base - 1 < upto))
  }

  lemma RemappedStep(before: seq<int>, cur: seq<int>, next: seq<int>, raw: seq<int>, base: nat, n: nat, from: nat,
                     upto: nat)
    requires Remapped(before, cur, raw, base, n, from, upto) && from <= upto
    requires upto < n ==> 0 <= raw[upto] < |cur| && next == cur[raw[upto] := base + 1 + upto]
    requires upto >= n ==> next == cur
    ensures Remapped(before, next, raw, base, n, from, upto + 1)
  {
    if upto < n {
      assert raw[upto] == raw[..n][upto];
      OthersKeptOneMore(before, cur, raw[..n], raw[upto], base + 1 + upto);
      assert PointsAt(next, raw, base, n, raw[upto]);
      forall i | from <= i < upto ensures PointsAt(next, raw, base, n, raw[i]) {
        assert PointsAt(cur, raw, base, n, raw[i]);
      }
    }
  }

  ghost predicate TableStored(now: Buffers, next: Buffers, inp: Inputs, row: nat, chunk: nat, upto: nat)
    requires inp.Valid() && Shape(now, inp) && row < inp.live
  {
    && Shape(next, inp)
    && Remapped(SlotTable(now.table, inp.slots[row], inp.capacity, inp.maxRequests),
                SlotTable(next.table, inp.slots[row], inp.capacity, inp.maxRequests),
                inp.RawRow(row), inp.slots[row] * 2052, inp.Named(row), 4 * chunk, upto)
    && (forall s: nat {:trigger SlotTable(next.table, s, inp.capacity, inp.maxRequests)} ::
          s < inp.maxRequests && s != inp.slots[row] ==>
          SlotTable(next.table, s, inp.capacity, inp.maxRequests)
            == SlotTable(now.table, s, inp.capacity, inp.maxRequests))
  }

  lemma TableStoredStep(now: Buffers, cur: Buffers, next: Buffers, inp: Inputs, row: nat, chunk: nat, upto: nat)
    requires inp.Valid() && Shape(now, inp) && row < inp.live && 4 * chunk <= upto
    requires TableStored(now, cur, inp, row, chunk, upto) && next.compact == cur.compact
    requires upto < inp.Named(row) ==>
      var cell := TableBase(inp.slots[row], inp.capacity) + inp.RawRow(row)[upto];
      0 <= cell < |cur.table| && next.table == cur.table[cell := inp.slots[row] * 2052 + 1 + upto]
    requires upto >= inp.Named(row) ==> next.table == cur.table
    ensures TableStored(now, next, inp, row, chunk, upto + 1)
  {
    hide SlotTable;
    var slot, n, raw := inp.slots[row], inp.Named(row), inp.RawRow(row);
    assert upto < n ==> 0 <= raw[upto] < inp.capacity;
    forall s: nat | s < inp.maxRequests
      ensures SlotTable(next.table, s, inp.capacity, inp.maxRequests) ==
        if s == slot && upto < n
        then SlotTable(cur.table, s, inp.capacity, inp.maxRequests)[raw[upto] := slot * 2052 + 1 + upto]
        else SlotTable(cur.table, s, inp.capacity, inp.maxRequests)
    {
      if upto < n { TableStore(cur.table, slot, s, inp.capacity, inp.maxRequests, raw[upto], slot * 2052 + 1 + upto); }
    }
    RemappedStep(SlotTable(now.table, slot, inp.capacity, inp.maxRequests),
                 SlotTable(cur.table, slot, inp.capacity, inp.maxRequests),
                 SlotTable(next.table, slot, inp.capacity, inp.maxRequests), raw, slot * 2052, n, 4 * chunk, upto);
  }

  method StoreLanes(compact: array<Byte>, dst: nat, source: array<Byte>, from: nat)
    requires compact != source && dst + 256 <= compact.Length && from + 256 <= source.Length
    modifies compact
    ensures compact[..] == Overlay(old(compact[..]), dst, source[from..from + 256])
  {
    forall dim | 0 <= dim < 256 { compact[dst + dim] := source[from + dim]; }
  }

  // One member's row on one plane, as bytes of a lane.
  method StoreMember(compact: array<Byte>, inp: Inputs, unpacked: array<Byte>, K: array<Byte>, V: array<Byte>,
                     plane: nat, row: nat, member: nat)
    requires inp.Valid() && plane < 2 && row < inp.live && member < inp.Named(row)
    requires compact.Length == 2 * inp.maxRequests * 2052 * 256
    requires compact !in {unpacked, K, V} && unpacked[..] == inp.unpacked && K[..] == inp.k && V[..] == inp.v
    modifies compact
    ensures compact[..] ==
      Overlay(old(compact[..]), 256 * PlaneRow(plane, inp.slots[row], 1 + member, inp.maxRequests),
              inp.Source(plane, row, member))
  {
    var slot, selectedCount := inp.slots[row], inp.Closed(row);
    var dst := ((if plane == 0 then 0 else inp.maxRequests * 2052) + slot * 2052 + 1 + member) * 256;
    assert dst == 256 * PlaneRow(plane, slot, 1 + member, inp.maxRequests);
    if member < selectedCount {
      var from := (row * 2 + plane) * 2048 * 256 + member * 256;
      assert from == 256 * ((row * 2 + plane) * 2048 + member);
      assert unpacked[from..from + 256] == inp.unpacked[from..from + 256] == inp.Source(plane, row, member);
      StoreLanes(compact, dst, unpacked, from);
    } else {
      var ring := (inp.ringStart + slot * 5 + 1 + member - selectedCount) * 256;
      assert ring == 256 * (inp.ringStart + slot * 5 + 1 + member - selectedCount);
      if plane == 0 {
        assert K[ring..ring + 256] == inp.k[ring..ring + 256] == inp.Source(plane, row, member);
        StoreLanes(compact, dst, K, ring);
      } else {
        assert V[ring..ring + 256] == inp.v[ring..ring + 256] == inp.Source(plane, row, member);
        StoreLanes(compact, dst, V, ring);
      }
    }
  }

  // The device buffers of a launch hold its inputs and are not written by it.
  ghost predicate Holds(inp: Inputs, unpacked: array<Byte>, K: array<Byte>, V: array<Byte>, raw: array<int>)
    reads unpacked, K, V, raw
  {
    inp.unpacked == unpacked[..] && inp.k == K[..] && inp.v == V[..] && inp.raw == raw[..]
  }

  // What one program leaves: its chunk's rows on both planes and its chunk's map entries.
  ghost predicate ProgramRan(now: Buffers, next: Buffers, inp: Inputs, row: nat, chunk: nat)
    requires inp.Valid() && Shape(now, inp)
  {
    if row < inp.live
    then RowsStored(now, next, inp, row, chunk, 2, 4 * chunk) && TableStored(now, next, inp, row, chunk, 4 * chunk + 4)
    else next == now
  }

  /** One program of finish_compact: both planes, then the map entries of its chunk. */
  method CompactProgram(inp: Inputs, unpacked: array<Byte>, K: array<Byte>, V: array<Byte>, raw: array<int>,
                        compact: array<Byte>, table: array<int>, row: nat, chunk: nat)
    requires inp.Valid() && Holds(inp, unpacked, K, V, raw) && Shape(Buffers(compact[..], table[..]), inp)
    requires compact !in {unpacked, K, V} && table != raw
    modifies compact, table
    ensures Holds(inp, unpacked, K, V, raw)
    ensures ProgramRan(old(Buffers(compact[..], table[..])), Buffers(compact[..], table[..]), inp, row, chunk)
  {
    if row >= inp.live { return; }
    StoreRows(inp, unpacked, K, V, raw, compact, table, row, chunk);
    StoreEntries(inp, unpacked, K, V, raw, compact, table, row, chunk);
  }

  method StoreRows(inp: Inputs, unpacked: array<Byte>, K: array<Byte>, V: array<Byte>, raw: array<int>,
                   compact: array<Byte>, table: array<int>, row: nat, chunk: nat)
    requires inp.Valid() && Holds(inp, unpacked, K, V, raw) && Shape(Buffers(compact[..], table[..]), inp)
    requires compact !in {unpacked, K, V} && row < inp.live
    modifies compact
    ensures Holds(inp, unpacked, K, V, raw)
    ensures RowsStored(old(Buffers(compact[..], table[..])), Buffers(compact[..], table[..]), inp, row, chunk, 2,
                       4 * chunk)
  {
    ghost var now := Buffers(compact[..], table[..]);
    for plane: nat := 0 to 2
      invariant Holds(inp, unpacked, K, V, raw)
      invariant RowsStored(now, Buffers(compact[..], table[..]), inp, row, chunk, plane, 4 * chunk)
    {
      for member: nat := 4 * chunk to 4 * chunk + 4
        invariant Holds(inp, unpacked, K, V, raw)
        invariant RowsStored(now, Buffers(compact[..], table[..]), inp, row, chunk, plane, member)
      {
        ghost var cur := Buffers(compact[..], table[..]);
        if member < inp.Named(row) {
          StoreMember(compact, inp, unpacked, K, V, plane, row, member);
        }
        RowsStoredStep(now, cur, Buffers(compact[..], table[..]), inp, row, chunk, plane, member);
      }
    }
  }

  method StoreEntries(inp: Inputs, unpacked: array<Byte>, K: array<Byte>, V: array<Byte>, raw: array<int>,
                      compact: array<Byte>, table: array<int>, row: nat, chunk: nat)
    requires inp.Valid() && Holds(inp, unpacked, K, V, raw) && Shape(Buffers(compact[..], table[..]), inp)
    requires table != raw && row < inp.live
    modifies table
    ensures Holds(inp, unpacked, K, V, raw)
    ensures TableStored(old(Buffers(compact[..], table[..])), Buffers(compact[..], table[..]), inp, row, chunk,
                        4 * chunk + 4)
  {
    ghost var now := Buffers(compact[..], table[..]);
    var slot := inp.slots[row];
    for member: nat := 4 * chunk to 4 * chunk + 4
      invariant Holds(inp, unpacked, K, V, raw)
      invariant TableStored(now, Buffers(compact[..], table[..]), inp, row, chunk, member)
    {
      ghost var cur := Buffers(compact[..], table[..]);
      if member < inp.Named(row) {
        var logical := raw[row * 2051 + member];
        assert logical == inp.RawRow(row)[member];
        TableSlots(slot, inp.maxRequests, inp.capacity);
        table[TableBase(slot, inp.capacity) + logical] := slot * 2052 + 1 + member;
      }
      TableStoredStep(now, cur, Buffers(compact[..], table[..]), inp, row, chunk, member);
    }
  }

  // ---- The whole grid ----

  ghost predicate IsGrid2(order: seq<(nat, nat)>, count: nat) {
    && (forall i, j :: 0 <= i < j < |order| ==> order[i] != order[j])
    && (forall row: nat, chunk: nat :: (row, chunk) in order <==> row < count && chunk < 513)
  }

  // A live row's slot when the programs in `done` have run.
  ghost predicate RowState(was: Buffers, now: Buffers, inp: Inputs, row: nat, done: seq<(nat, nat)>)
    requires inp.Valid() && Shape(was, inp) && Shape(now, inp) && row < inp.live
  {
    && (forall plane: nat, m: nat {:trigger PlaneRow(plane, inp.slots[row], m, inp.maxRequests)} ::
          plane < 2 && m < 2052 ==>
          RowAt(now.compact, PlaneRow(plane, inp.slots[row], m, inp.maxRequests)) ==
            if 1 <= m && m - 1 < inp.Named(row) && (row, (m - 1) / 4) in done then inp.Source(plane, row, m - 1)
            else RowAt(was.compact, PlaneRow(plane, inp.slots[row], m, inp.maxRequests)))
    && EntriesState(SlotTable(was.table, inp.slots[row], inp.capacity, inp.maxRequests),
                    SlotTable(now.table, inp.slots[row], inp.capacity, inp.maxRequests),
                    inp.RawRow(row), inp.slots[row] * 2052, inp.Named(row), row, done)
  }

  ghost predicate EntriesState(was: seq<int>, now: seq<int>, raw: seq<int>, base: nat, n: nat, row: nat,
                               done: seq<(nat, nat)>) {
    && n <= |raw| && OthersKept(was, now, raw[..n])
    && forall i: nat {:trigger raw[i]} :: i < n && (row, i / 4) in done ==> PointsAt(now, raw, base, n, raw[i])
  }

  // Nothing of slot s changed.
  ghost predicate SlotSame(was: Buffers, now: Buffers, inp: Inputs, s: nat)
    requires inp.Valid() && Shape(was, inp) && Shape(now, inp) && s < inp.maxRequests
  {
    && (forall plane: nat, m: nat {:trigger PlaneRow(plane, s, m, inp.maxRequests)} :: plane < 2 && m < 2052 ==>
          RowAt(now.compact, PlaneRow(plane, s, m, inp.maxRequests))
            == RowAt(was.compact, PlaneRow(plane, s, m, inp.maxRequests)))
    && SlotTable(now.table, s, inp.capacity, inp.maxRequests) == SlotTable(was.table, s, inp.capacity, inp.maxRequests)
  }

  ghost predicate GridState(was: Buffers, now: Buffers, inp: Inputs, done: seq<(nat, nat)>)
    requires inp.Valid() && Shape(was, inp)
  {
    && Shape(now, inp)
    && (forall row: nat :: row < inp.live ==> RowState(was, now, inp, row, done))
    && (forall s: nat :: s < inp.maxRequests && s !in inp.slots[..inp.live] ==> SlotSame(was, now, inp, s))
  }

  // A program leaves every slot but its own row's alone.
  lemma ProgramKeepsSlot(now: Buffers, next: Buffers, inp: Inputs, row: nat, chunk: nat, s: nat)
    requires inp.Valid() && Shape(now, inp) && Shape(next, inp) && s < inp.maxRequests
    requires ProgramRan(now, next, inp, row, chunk) && (row < inp.live ==> inp.slots[row] != s)
    ensures SlotSame(now, next, inp, s)
  {
    if row < inp.live {
      forall plane: nat, m: nat | plane < 2 && m < 2052
        ensures RowAt(next.compact, PlaneRow(plane, s, m, inp.maxRequests))
          == RowAt(now.compact, PlaneRow(plane, s, m, inp.maxRequests))
      {
        assert !Written(inp, row, chunk, 2, 4 * chunk, plane, s, m);
      }
    }
  }

  lemma EntriesStep(was: seq<int>, now: seq<int>, next: seq<int>, raw: seq<int>, base: nat, n: nat, row: nat,
                    chunk: nat, done: seq<(nat, nat)>)
    requires EntriesState(was, now, raw, base, n, row, done)
    requires Remapped(now, next, raw, base, n, 4 * chunk, 4 * chunk + 4)
    ensures EntriesState(was, next, raw, base, n, row, done + [(row, chunk)])
  {
    forall i: nat | i < n && (row, i / 4) in done + [(row, chunk)] ensures PointsAt(next, raw, base, n, raw[i]) {
      if (row, i / 4) in done {
        assert PointsAt(now, raw, base, n, raw[i]);
        assert next[raw[i]] == now[raw[i]] || PointsAt(next, raw, base, n, raw[i]);
      }
    }
  }

  lemma ProgramExtendsRow(was: Buffers, now: Buffers, next: Buffers, inp: Inputs, row: nat, chunk: nat,
                          done: seq<(nat, nat)>)
    requires inp.Valid() && Shape(was, inp) && Shape(now, inp) && Shape(next, inp) && row < inp.live
    requires RowState(was, now, inp, row, done) && ProgramRan(now, next, inp, row, chunk)
    ensures RowState(was, next, inp, row, done + [(row, chunk)])
  {
    var slot := inp.slots[row];
    forall plane: nat, m: nat | plane < 2 && m < 2052
      ensures RowAt(next.compact, PlaneRow(plane, slot, m, inp.maxRequests)) ==
        if 1 <= m && m - 1 < inp.Named(row)
          && (row, (m - 1) / 4) in done + [(row, chunk)] then inp.Source(plane, row, m - 1)
        else RowAt(was.compact, PlaneRow(plane, slot, m, inp.maxRequests))
    {
      assert Written(inp, row, chunk, 2, 4 * chunk, plane, slot, m) <==>
        m >= 1 && m - 1 < inp.Named(row) && (m - 1) / 4 == chunk;
    }
    EntriesStep(SlotTable(was.table, slot, inp.capacity, inp.maxRequests),
                SlotTable(now.table, slot, inp.capacity, inp.maxRequests),
                SlotTable(next.table, slot, inp.capacity, inp.maxRequests), inp.RawRow(row), slot * 2052,
                inp.Named(row), row, chunk, done);
  }

  lemma SameKeepsRow(was: Buffers, now: Buffers, next: Buffers, inp: Inputs, row: nat, program: (nat, nat),
                     done: seq<(nat, nat)>)
    requires inp.Valid() && Shape(was, inp) && Shape(now, inp) && Shape(next, inp) && row < inp.live
    requires RowState(was, now, inp, row, done) && SlotSame(now, next, inp, inp.slots[row]) && program.0 != row
    ensures RowState(was, next, inp, row, done + [program])
  {
  }

  lemma SameTwice(was: Buffers, now: Buffers, next: Buffers, inp: Inputs, s: nat)
    requires inp.Valid() && Shape(was, inp) && Shape(now, inp) && Shape(next, inp) && s < inp.maxRequests
    requires SlotSame(was, now, inp, s) && SlotSame(now, next, inp, s)
    ensures SlotSame(was, next, inp, s)
  {
  }

  lemma GridStep(was: Buffers, now: Buffers, next: Buffers, inp: Inputs, row: nat, chunk: nat, done: seq<(nat, nat)>)
    requires inp.Valid() && Shape(was, inp) && GridState(was, now, inp, done) && Shape(next, inp)
    requires ProgramRan(now, next, inp, row, chunk)
    ensures GridState(was, next, inp, done + [(row, chunk)])
  {
    forall r: nat | r < inp.live ensures RowState(was, next, inp, r, done + [(row, chunk)]) {
      if r == row {
        ProgramExtendsRow(was, now, next, inp, row, chunk, done);
      } else {
        assert row < inp.live ==> inp.slots[row] != inp.slots[r];
        ProgramKeepsSlot(now, next, inp, row, chunk, inp.slots[r]);
        SameKeepsRow(was, now, next, inp, r, (row, chunk), done);
      }
    }
    forall s: nat | s < inp.maxRequests && s !in inp.slots[..inp.live] ensures SlotSame(was, next, inp, s) {
      assert row < inp.live ==> inp.slots[row] == inp.slots[..inp.live][row];
      ProgramKeepsSlot(now, next, inp, row, chunk, s);
      SameTwice(was, now, next, inp, s);
    }
  }

  // What the eager finish_selected leaves in a live row's slot.
  ghost predicate EagerlyLaid(was: Buffers, now: Buffers, inp: Inputs, row: nat)
    requires inp.Valid() && Shape(was, inp) && Shape(now, inp) && row < inp.live
  {
    var slot, n := inp.slots[row], inp.Named(row);
    && (forall plane: nat :: plane < 2 ==>
          SlotPlane(now.compact, plane, slot, inp.maxRequests) == EagerPlane(was, inp, row, plane))
    && Mapped(SlotTable(now.table, slot, inp.capacity, inp.maxRequests), inp.RawRow(row), slot * 2052, n)
    && OthersKept(SlotTable(was.table, slot, inp.capacity, inp.maxRequests),
                  SlotTable(now.table, slot, inp.capacity, inp.maxRequests), inp.RawRow(row)[..n])
  }

  function UnpackedPlane(inp: Inputs, row: nat, plane: nat): (r: seq<seq<Byte>>)
    requires row < |inp.slots| && plane < 2 && |inp.unpacked| == |inp.slots| * 2 * 2048 * 256
    ensures |r| == 2048
  {
    seq(2048, j requires 0 <= j < 2048 => RowAt(inp.unpacked, (row * 2 + plane) * 2048 + j))
  }

  lemma GridIsEager(was: Buffers, now: Buffers, inp: Inputs, row: nat, order: seq<(nat, nat)>)
    requires inp.Valid() && Shape(was, inp) && GridState(was, now, inp, order) && IsGrid2(order, |inp.slots|)
    requires row < inp.live
    ensures EagerlyLaid(was, now, inp, row)
  {
    var slot, n := inp.slots[row], inp.Named(row);
    assert RowState(was, now, inp, row, order);
    forall plane: nat | plane < 2
      ensures SlotPlane(now.compact, plane, slot, inp.maxRequests) == EagerPlane(was, inp, row, plane)
    {
      PlaneIsEager(was, now, inp, row, plane, order);
    }
    forall i | 0 <= i < n
      ensures PointsAt(SlotTable(now.table, slot, inp.capacity, inp.maxRequests), inp.RawRow(row), slot * 2052, n,
                       inp.RawRow(row)[i])
    {
      assert (row, i / 4) in order;
    }
  }

  // The plane finish_selected lays.
  function EagerPlane(was: Buffers, inp: Inputs, row: nat, plane: nat): (r: seq<seq<Byte>>)
    requires inp.Valid() && Shape(was, inp) && row < inp.live && plane < 2
    ensures |r| == 2052
  {
    LayPlane(SlotPlane(was.compact, plane, inp.slots[row], inp.maxRequests), UnpackedPlane(inp, row, plane),
             SlotRing(if plane == 0 then inp.k else inp.v, inp.ringStart, inp.slots[row]),
             inp.Closed(row), inp.lengths[row] % 4)
  }

  lemma EagerPlaneRow(was: Buffers, inp: Inputs, row: nat, plane: nat, m: nat)
    requires inp.Valid() && Shape(was, inp) && row < inp.live && plane < 2 && m < 2052
    ensures EagerPlane(was, inp, row, plane)[m] ==
      if 1 <= m && m - 1 < inp.Named(row) then inp.Source(plane, row, m - 1)
      else RowAt(was.compact, PlaneRow(plane, inp.slots[row], m, inp.maxRequests))
  {
    var slot, selected, tail := inp.slots[row], inp.Closed(row), inp.lengths[row] % 4;
    var before := SlotPlane(was.compact, plane, slot, inp.maxRequests);
    var ring := SlotRing(if plane == 0 then inp.k else inp.v, inp.ringStart, slot);
    var laid := LayPlane(before, UnpackedPlane(inp, row, plane), ring, selected, tail);
    if 1 <= m <= selected {
      assert laid[1 + (m - 1)] == UnpackedPlane(inp, row, plane)[m - 1];
    } else if selected < m <= selected + tail {
      assert laid[selected + (m - selected)] == ring[m - selected];
    } else {
      assert laid[m] == before[m];
    }
  }

  lemma PlaneIsEager(was: Buffers, now: Buffers, inp: Inputs, row: nat, plane: nat, order: seq<(nat, nat)>)
    requires inp.Valid() && Shape(was, inp) && Shape(now, inp) && row < inp.live && plane < 2
    requires RowState(was, now, inp, row, order) && IsGrid2(order, |inp.slots|)
    ensures SlotPlane(now.compact, plane, inp.slots[row], inp.maxRequests) == EagerPlane(was, inp, row, plane)
  {
    var slot := inp.slots[row];
    forall m | 0 <= m < 2052
      ensures SlotPlane(now.compact, plane, slot, inp.maxRequests)[m] == EagerPlane(was, inp, row, plane)[m]
    {
      EagerPlaneRow(was, inp, row, plane, m);
      assert SlotPlane(now.compact, plane, slot, inp.maxRequests)[m]
        == RowAt(now.compact, PlaneRow(plane, slot, m, inp.maxRequests));
      if 1 <= m && m - 1 < inp.Named(row) { assert (row, (m - 1) / 4) in order; }
    }
  }

  // The slot's table names a row of the slot that holds the token's K, and its V one plane further on.
  ghost predicate FoundInSlot(now: Buffers, inp: Inputs, slot: nat, kv: seq<KV<seq<Byte>>>, t: int)
    requires Shape(now, inp) && slot < inp.maxRequests
  {
    && 0 <= t < |kv| <= inp.capacity
    && var r := SlotTable(now.table, slot, inp.capacity, inp.maxRequests)[t];
       && slot * 2052 < r < slot * 2052 + 2052
       && RowAt(now.compact, r) == kv[t].k && RowAt(now.compact, inp.maxRequests * 2052 + r) == kv[t].v
  }

  lemma FoundAtItsRow(now: Buffers, inp: Inputs, slot: nat, kv: seq<KV<seq<Byte>>>, t: int)
    requires Shape(now, inp) && slot < inp.maxRequests
    requires Found(SlotPlane(now.compact, 0, slot, inp.maxRequests), SlotPlane(now.compact, 1, slot, inp.maxRequests),
                   SlotTable(now.table, slot, inp.capacity, inp.maxRequests), slot * 2052, kv, t)
    ensures FoundInSlot(now, inp, slot, kv, t)
  {
    var r := SlotTable(now.table, slot, inp.capacity, inp.maxRequests)[t];
    var m: nat := r - slot * 2052;
    assert SlotPlane(now.compact, 0, slot, inp.maxRequests)[m]
        == RowAt(now.compact, PlaneRow(0, slot, m, inp.maxRequests));
    assert SlotPlane(now.compact, 1, slot, inp.maxRequests)[m]
        == RowAt(now.compact, PlaneRow(1, slot, m, inp.maxRequests));
  }

  /** So a graph selection serves attention as an eager one does: every token of the open block, and
      every closed one a live row names, is found through its slot's table on both planes. */
  lemma GraphSelectionLocated(was: Buffers, now: Buffers, inp: Inputs, row: nat, gathered: seq<seq<seq<Byte>>>,
                              blocks: seq<int>, kv: seq<KV<seq<Byte>>>)
    requires inp.Valid() && Shape(was, inp) && Shape(now, inp) && row < inp.live && EagerlyLaid(was, now, inp, row)
    requires inp.lengths[row] == |kv| <= inp.capacity && RawOk(inp.RawRow(row), |kv|)
    requires Gathers(gathered, blocks, inp.RawRow(row), kv)
    requires UnpackedPlane(inp, row, 0) == Unpack(gathered)[..2048]
    requires UnpackedPlane(inp, row, 1) == Unpack(gathered)[2048..]
    requires RingOk(SlotRing(inp.k, inp.ringStart, inp.slots[row]), SlotRing(inp.v, inp.ringStart, inp.slots[row]), kv,
                    4 * (|kv| / 4), |kv| % 4)
    ensures forall t :: |kv| / 4 * 4 <= t < |kv| ==> FoundInSlot(now, inp, inp.slots[row], kv, t)
    ensures forall i {:trigger inp.RawRow(row)[i]} :: 0 <= i < Min(|kv| / 4, 512) * 4 ==>
      FoundInSlot(now, inp, inp.slots[row], kv, inp.RawRow(row)[i])
  {
    var slot, raw := inp.slots[row], inp.RawRow(row);
    var planeK, planeV := SlotPlane(now.compact, 0, slot, inp.maxRequests),
      SlotPlane(now.compact, 1, slot, inp.maxRequests);
    assert inp.Closed(row) == Min(|kv| / 4, 512) * 4;
    assert planeK == EagerPlane(was, inp, row, 0) && planeV == EagerPlane(was, inp, row, 1);
    RowsLaid(SlotPlane(was.compact, 0, slot, inp.maxRequests), SlotPlane(was.compact, 1, slot, inp.maxRequests),
             gathered, blocks, SlotRing(inp.k, inp.ringStart, slot), SlotRing(inp.v, inp.ringStart, slot), raw, kv);
    var table := SlotTable(now.table, slot, inp.capacity, inp.maxRequests);
    MappedRowsLocated(planeK, planeV, table, slot * 2052, raw, kv, inp.Named(row));
    AllFound(planeK, planeV, table, slot * 2052, raw, kv);
    forall t | Found(planeK, planeV, table, slot * 2052, kv, t) ensures FoundInSlot(now, inp, slot, kv, t) {
      FoundAtItsRow(now, inp, slot, kv, t);
    }
  }

  /** finish_compact over its grid: whatever order the programs run in, each live row's slot
      ends with the compact planes and a table of the eager finish_selected, and a slot of no
      live row is unchanged. */
  method FinishCompact(inp: Inputs, unpacked: array<Byte>, K: array<Byte>, V: array<Byte>, raw: array<int>,
                       compact: array<Byte>, table: array<int>, order: seq<(nat, nat)>)
    requires inp.Valid() && Holds(inp, unpacked, K, V, raw) && Shape(Buffers(compact[..], table[..]), inp)
    requires compact !in {unpacked, K, V} && table != raw && IsGrid2(order, |inp.slots|)
    modifies compact, table
    ensures Shape(Buffers(compact[..], table[..]), inp)
    ensures forall row: nat :: row < inp.live ==>
      EagerlyLaid(old(Buffers(compact[..], table[..])), Buffers(compact[..], table[..]), inp, row)
    ensures forall s: nat :: s < inp.maxRequests && s !in inp.slots[..inp.live] ==>
      SlotSame(old(Buffers(compact[..], table[..])), Buffers(compact[..], table[..]), inp, s)
  {
    ghost var was := Buffers(compact[..], table[..]);
    var n := 0;
    while n < |order|
      invariant 0 <= n <= |order| && Holds(inp, unpacked, K, V, raw)
      invariant GridState(was, Buffers(compact[..], table[..]), inp, order[..n])
    {
      ghost var now := Buffers(compact[..], table[..]);
      CompactProgram(inp, unpacked, K, V, raw, compact, table, order[n].0, order[n].1);
      GridStep(was, now, Buffers(compact[..], table[..]), inp, order[n].0, order[n].1, order[..n]);
      assert order[..n + 1] == order[..n] + [(order[n].0, order[n].1)];
      n := n + 1;
    }
    assert order[..n] == order;
    forall row: nat | row < inp.live ensures EagerlyLaid(was, Buffers(compact[..], table[..]), inp, row) {
      GridIsEager(was, Buffers(compact[..], table[..]), inp, row, order);
    }
  }
}
