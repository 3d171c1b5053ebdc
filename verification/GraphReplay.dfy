// Host copies of closed blocks across decode-graph replays: every replay submits its copies
// behind one event and the next replay waits on that one event before it writes.
module GraphReplay {
  // A request's buffers on one attention layer.
  datatype Lane = Lane(slot: nat, layer: nat)
  // host[block] := newest row, on one lane.
  datatype Copy = Copy(lane: Lane, block: nat)
  // A row of a replay: its lease slot and sequence length, and what its newest records become.
  datatype Row<T> = Row(slot: nat, length: nat, records: seq<T>)

  datatype Store<T> = Store(host: map<Lane, seq<T>>, newest: map<Lane, T>)

  // `closed` is what the closed blocks of each lane are.
  ghost predicate Shape<T(!new)>(st: Store<T>, closed: map<Lane, seq<T>>, stream: seq<Copy>, capacity: nat) {
    && st.host.Keys == st.newest.Keys == closed.Keys
    && (forall lane {:trigger st.host[lane]} :: lane in st.host ==> |st.host[lane]| == capacity)
    && (forall lane {:trigger closed[lane]} :: lane in closed ==> |closed[lane]| <= capacity)
    && (forall i {:trigger stream[i]} :: 0 <= i < |stream| ==> stream[i].lane in st.host && stream[i].block < capacity)
  }

  // Closed block b of a lane is in host memory, or is in flight and still in the newest row.
  ghost predicate Kept<T(!new)>(st: Store<T>, closed: map<Lane, seq<T>>, stream: seq<Copy>, capacity: nat, lane: Lane,
                                b: nat)
    requires Shape(st, closed, stream, capacity) && lane in closed && b < |closed[lane]|
  {
    if Copy(lane, b) in stream then st.newest[lane] == closed[lane][b] else st.host[lane][b] == closed[lane][b]
  }

  ghost predicate AllKept<T(!new)>(st: Store<T>, closed: map<Lane, seq<T>>, stream: seq<Copy>, capacity: nat,
                                   failed: set<nat>) {
    match st
    case Store(_, _) =>
      && Shape(st, closed, stream, capacity)
      && forall lane, b: nat {:trigger Kept(st, closed, stream, capacity, lane, b)} ::
           lane in closed && lane.slot !in failed && b < |closed[lane]| ==> Kept(st, closed, stream, capacity, lane, b)
  }

  // Every copy behind the event is a failed, undrained lease's; a free slot has none.
  ghost predicate Covered(stream: seq<Copy>, covered: nat, undrained: set<nat>, free: set<nat>) {
    && covered <= |stream|
    && (forall i {:trigger stream[i]} :: covered <= i < |stream| ==> stream[i].lane.slot in undrained)
    && (forall i {:trigger stream[i]} :: 0 <= i < |stream| ==> stream[i].lane.slot !in free)
  }

  // One copy ends: the row is read now.
  function Ended<T>(st: Store<T>, c: Copy): Store<T>
    requires c.lane in st.host && c.lane in st.newest && c.block < |st.host[c.lane]|
  {
    st.(host := st.host[c.lane := st.host[c.lane][c.block := st.newest[c.lane]]])
  }

  lemma EndKeeps<T(!new)>(st: Store<T>, closed: map<Lane, seq<T>>, stream: seq<Copy>, capacity: nat, failed: set<nat>)
    requires AllKept(st, closed, stream, capacity, failed) && |stream| > 0
    ensures AllKept(Ended(st, stream[0]), closed, stream[1..], capacity, failed)
  {
    var next := Ended(st, stream[0]);
    assert Shape(next, closed, stream[1..], capacity) by {
      forall i | 0 <= i < |stream| - 1 ensures stream[1..][i].lane in next.host && stream[1..][i].block < capacity {
        assert stream[1..][i] == stream[i + 1];
      }
    }
    forall lane, b: nat | lane in closed && lane.slot !in failed && b < |closed[lane]|
      ensures Kept(next, closed, stream[1..], capacity, lane, b)
    {
      assert Kept(st, closed, stream, capacity, lane, b);
      assert Copy(lane, b) in stream <==> stream[0] == Copy(lane, b) || Copy(lane, b) in stream[1..];
    }
  }

  // A replay writes the newest row of lanes with no copy in flight and closes a block on each.
  function Written<T>(st: Store<T>, lane: Lane, record: T): Store<T> {
    st.(newest := st.newest[lane := record])
  }

  // The write, and the close it is for, keep every other block; the new block is in flight
  // from the moment its copy is submitted.
  lemma CloseKeeps<T(!new)>(st: Store<T>, closed: map<Lane, seq<T>>, stream: seq<Copy>, capacity: nat, failed: set<nat>,
                            lane: Lane, record: T, closed': map<Lane, seq<T>>, stream': seq<Copy>)
    requires AllKept(st, closed, stream, capacity, failed) && lane in closed && |closed[lane]| < capacity
    requires lane.slot !in failed && forall c :: c in stream ==> c.lane != lane
    requires closed' == closed[lane := closed[lane] + [record]] && stream' == stream + [Copy(lane, |closed[lane]|)]
    ensures AllKept(Written(st, lane, record), closed', stream', capacity, failed)
  {
    var next := Written(st, lane, record);
    forall l, b: nat | l in closed' && l.slot !in failed && b < |closed'[l]|
      ensures Kept(next, closed', stream', capacity, l, b)
    {
      if l != lane || b < |closed[lane]| {
        assert Kept(st, closed, stream, capacity, l, b);
        assert Copy(l, b) in stream' <==> Copy(l, b) in stream;
      } else {
        assert stream'[|stream|] == Copy(l, b);
      }
    }
  }

  // Copies of failed leases only, so their absence is no loss.
  lemma TailDropped<T(!new)>(st: Store<T>, closed: map<Lane, seq<T>>, stream: seq<Copy>, tail: seq<Copy>, capacity: nat,
                             failed: set<nat>, more: set<nat>)
    requires AllKept(st, closed, stream + tail, capacity, failed)
    requires failed <= more && forall c :: c in tail ==> c.lane.slot in more
    ensures AllKept(st, closed, stream, capacity, more)
  {
    assert Shape(st, closed, stream, capacity) by {
      forall i | 0 <= i < |stream| ensures stream[i].lane in st.host && stream[i].block < capacity {
        assert (stream + tail)[i] == stream[i];
      }
    }
    forall lane, b: nat | lane in closed && lane.slot !in more && b < |closed[lane]|
      ensures Kept(st, closed, stream, capacity, lane, b)
    {
      assert Kept(st, closed, stream + tail, capacity, lane, b);
      assert Copy(lane, b) in stream + tail <==> Copy(lane, b) in stream;
    }
  }

  // ---- The closing blocks of a batch, in the order their copies are submitted ----

  datatype Close<T> = Close(lane: Lane, block: nat, record: T)

  function Closes<T>(rows: seq<Row<T>>, layers: nat): (r: seq<Close<T>>)
    requires forall i :: 0 <= i < |rows| ==> |rows[i].records| == layers && rows[i].length >= 1
  {
    if rows == [] then []
    else
      var row := rows[|rows| - 1];
      Closes(rows[..|rows| - 1], layers) +
      if row.length % 4 == 0
      then seq(layers, li requires 0 <= li < layers => Close(Lane(row.slot, li), row.length / 4 - 1, row.records[li]))
      else []
  }

  // Exactly the lanes of rows whose length is a multiple of four, each once.
  lemma {:induction false} ClosesAre<T>(rows: seq<Row<T>>, layers: nat)
    requires forall i :: 0 <= i < |rows| ==> |rows[i].records| == layers && rows[i].length >= 1
    requires forall i, j :: 0 <= i < j < |rows| ==> rows[i].slot != rows[j].slot
    ensures forall i, j :: 0 <= i < j < |Closes(rows, layers)| ==>
      Closes(rows, layers)[i].lane != Closes(rows, layers)[j].lane
    ensures forall c :: c in Closes(rows, layers) <==> IsCloseOf(c, rows, layers)
  {
    if rows != [] {
      var before, row := rows[..|rows| - 1], rows[|rows| - 1];
      ClosesAre(before, layers);
      var own := if row.length % 4 == 0
        then seq(layers, li requires 0 <= li < layers =>
          Close(Lane(row.slot, li), row.length / 4 - 1, row.records[li]))
        else [];
      assert Closes(rows, layers) == Closes(before, layers) + own;
      forall c | c in Closes(before, layers) ensures c.lane.slot != row.slot {
        assert IsCloseOf(c, before, layers);
      }
      forall c ensures c in own <==> IsClose(c, row, layers) {
        if IsClose(c, row, layers) { assert own[c.lane.layer] == c; }
      }
      forall c ensures IsCloseOf(c, rows, layers) <==> IsCloseOf(c, before, layers) || IsClose(c, row, layers) {
        if IsCloseOf(c, before, layers) {
          var i :| 0 <= i < |before| && IsClose(c, before[i], layers);
          assert before[i] == rows[i];
        }
        if IsCloseOf(c, rows, layers) {
          var i :| 0 <= i < |rows| && IsClose(c, rows[i], layers);
          assert i < |before| ==> before[i] == rows[i];
        }
        assert row == rows[|rows| - 1];
      }
    }
  }

  ghost predicate IsCloseOf<T>(c: Close<T>, rows: seq<Row<T>>, layers: nat)
    requires forall i :: 0 <= i < |rows| ==> |rows[i].records| == layers && rows[i].length >= 1
  {
    exists i :: 0 <= i < |rows| && IsClose(c, rows[i], layers)
  }

  ghost predicate IsClose<T>(c: Close<T>, row: Row<T>, layers: nat)
    requires |row.records| == layers && row.length >= 1
  {
    row.length % 4 == 0 && c.lane.slot == row.slot && c.lane.layer < layers
    && c.block == row.length / 4 - 1 && c.record == row.records[c.lane.layer]
  }

  function Copies<T>(closes: seq<Close<T>>): (r: seq<Copy>)
    ensures |r| == |closes|
    ensures forall i {:trigger r[i]} :: 0 <= i < |closes| ==> r[i] == Copy(closes[i].lane, closes[i].block)
  {
    seq(|closes|, i requires 0 <= i < |closes| => Copy(closes[i].lane, closes[i].block))
  }

  // What a batch may close: distinct lanes of live leases, each at its next block and with
  // no copy due to read its newest row.
  ghost predicate Closable<T(!new)>(closed: map<Lane, seq<T>>, due: seq<Copy>, closes: seq<Close<T>>, from: nat,
                                    failed: set<nat>, capacity: nat) {
    && (forall i, j :: from <= i < j < |closes| ==> closes[i].lane != closes[j].lane)
    && (forall i {:trigger closes[i]} :: from <= i < |closes| ==>
          && closes[i].lane in closed && closes[i].lane.slot !in failed
          && closes[i].block == |closed[closes[i].lane]| < capacity)
    && (forall i, k {:trigger closes[i], due[k]} :: from <= i < |closes| && 0 <= k < |due| ==>
          due[k].lane != closes[i].lane)
  }

  // The store, closed blocks and due copies after some of a batch's closes.
  datatype Writing<T> = Writing(st: Store<T>, closed: map<Lane, seq<T>>, due: seq<Copy>)

  function WriteOne<T>(x: Writing<T>, c: Close<T>): Writing<T>
    requires c.lane in x.closed
  {
    Writing(Written(x.st, c.lane, c.record), x.closed[c.lane := x.closed[c.lane] + [c.record]],
            x.due + [Copy(c.lane, c.block)])
  }

  lemma WriteStep<T(!new)>(x: Writing<T>, closes: seq<Close<T>>, w: nat, capacity: nat, failed: set<nat>)
    requires w < |closes| && Closable(x.closed, x.due, closes, w, failed, capacity)
    requires AllKept(x.st, x.closed, x.due, capacity, failed)
    ensures var y := WriteOne(x, closes[w]);
      Closable(y.closed, y.due, closes, w + 1, failed, capacity) && AllKept(y.st, y.closed, y.due, capacity, failed)
  {
    var y := WriteOne(x, closes[w]);
    CloseKeeps(x.st, x.closed, x.due, capacity, failed, closes[w].lane, closes[w].record, y.closed, y.due);
  }

  // Each closing lane has its record as newest row and next block, no other lane changed, and
  // the copies are due in order.
  ghost predicate Wrote<T(!new)>(closed: map<Lane, seq<T>>, stream: seq<Copy>, x: Writing<T>, closes: seq<Close<T>>,
                                 n: nat) {
    && n <= |closes| && x.due == stream + Copies(closes)[..n] && x.closed.Keys == closed.Keys
    && (forall i {:trigger closes[i]} :: 0 <= i < n ==>
          closes[i].lane in closed && x.closed[closes[i].lane] == closed[closes[i].lane] + [closes[i].record])
    && (forall lane {:trigger x.closed[lane]} :: lane in closed ==>
          (forall i :: 0 <= i < n ==> closes[i].lane != lane) ==> x.closed[lane] == closed[lane])
  }

  lemma WroteStep<T(!new)>(closed: map<Lane, seq<T>>, stream: seq<Copy>, x: Writing<T>, closes: seq<Close<T>>, w: nat)
    requires Wrote(closed, stream, x, closes, w) && w < |closes| && closes[w].lane in closed
    requires forall i, j :: 0 <= i < j < |closes| ==> closes[i].lane != closes[j].lane
    ensures Wrote(closed, stream, WriteOne(x, closes[w]), closes, w + 1)
  {
    var y := WriteOne(x, closes[w]);
    assert Copies(closes)[..w + 1] == Copies(closes)[..w] + [Copies(closes)[w]];
    assert y.due == stream + Copies(closes)[..w + 1];
    assert x.closed[closes[w].lane] == closed[closes[w].lane];
  }

  ghost predicate LanesDiffer<T>(closes: seq<Close<T>>) {
    forall i, j :: 0 <= i < j < |closes| ==> closes[i].lane != closes[j].lane
  }

  // Fewer copies due leave as much to close.
  lemma ClosableLess<T(!new)>(closed: map<Lane, seq<T>>, due: seq<Copy>, less: seq<Copy>, closes: seq<Close<T>>,
                              from: nat, failed: set<nat>, capacity: nat)
    requires Closable(closed, due, closes, from, failed, capacity) && forall c :: c in less ==> c in due
    ensures Closable(closed, less, closes, from, failed, capacity)
  {
    forall i, k | from <= i < |closes| && 0 <= k < |less| ensures less[k].lane != closes[i].lane {
      assert less[k] in due;
    }
  }

  // What has been written does not depend on copies that have ended meanwhile.
  lemma WroteOn<T(!new)>(closed: map<Lane, seq<T>>, stream: seq<Copy>, x: Writing<T>, closes: seq<Close<T>>, n: nat,
                         later: seq<Copy>, y: Writing<T>)
    requires Wrote(closed, stream, x, closes, n) && y.closed == x.closed && y.due == later + Copies(closes)[..n]
    ensures Wrote(closed, later, y, closes, n)
  {
  }

  // A replay closed one more block of each closing lane, with the row's record.
  ghost predicate ClosedBy<T(!new)>(was: map<Lane, seq<T>>, now: map<Lane, seq<T>>, rows: seq<Row<T>>, layers: nat)
    requires forall i {:trigger rows[i]} :: 0 <= i < |rows| ==> |rows[i].records| == layers && rows[i].length >= 1
  {
    && now.Keys == was.Keys
    && (forall c {:trigger IsCloseOf(c, rows, layers)} :: IsCloseOf(c, rows, layers) ==>
          c.lane in was && now[c.lane] == was[c.lane] + [c.record])
    && (forall lane {:trigger now[lane]} :: lane in was ==>
          (forall c :: IsCloseOf(c, rows, layers) ==> c.lane != lane) ==> now[lane] == was[lane])
  }

  // The closed blocks of every other lease are what they were.
  ghost predicate OthersSame<T(!new)>(was: map<Lane, seq<T>>, now: map<Lane, seq<T>>, slots: set<nat>) {
    now.Keys == was.Keys && forall lane {:trigger now[lane]} :: lane in was && lane.slot !in slots ==>
      now[lane] == was[lane]
  }

  lemma WroteClosed<T(!new)>(closed: map<Lane, seq<T>>, stream: seq<Copy>, x: Writing<T>, rows: seq<Row<T>>,
                             layers: nat, n: nat)
    requires forall i {:trigger rows[i]} :: 0 <= i < |rows| ==> |rows[i].records| == layers && rows[i].length >= 1
    requires forall i, j :: 0 <= i < j < |rows| ==> rows[i].slot != rows[j].slot
    requires Wrote(closed, stream, x, Closes(rows, layers), n)
    requires forall i :: 0 <= i < |Closes(rows, layers)| ==> Closes(rows, layers)[i].lane.slot in Slots(rows)
    ensures n == |Closes(rows, layers)| ==> ClosedBy(closed, x.closed, rows, layers)
    ensures OthersSame(closed, x.closed, Slots(rows))
  {
    var closes := Closes(rows, layers);
    ClosesAre(rows, layers);
    if n == |closes| {
      forall c | IsCloseOf(c, rows, layers)
        ensures c.lane in closed && x.closed[c.lane] == closed[c.lane] + [c.record]
      {
        assert c in closes;
        var i :| 0 <= i < |closes| && closes[i] == c;
      }
      forall lane | lane in closed && (forall c :: IsCloseOf(c, rows, layers) ==> c.lane != lane)
        ensures x.closed[lane] == closed[lane]
      {
        forall i | 0 <= i < n ensures closes[i].lane != lane {
          assert closes[i] in closes && IsCloseOf(closes[i], rows, layers);
        }
      }
    }
  }

  lemma FailedMore<T(!new)>(st: Store<T>, closed: map<Lane, seq<T>>, stream: seq<Copy>, capacity: nat, failed: set<nat>,
                            more: set<nat>)
    requires AllKept(st, closed, stream + [], capacity, failed) && failed <= more
    ensures AllKept(st, closed, stream, capacity, more)
  {
    TailDropped(st, closed, stream, [], capacity, failed, more);
  }

  // A lease that ends keeps nothing.
  lemma Emptied<T(!new)>(st: Store<T>, closed: map<Lane, seq<T>>, stream: seq<Copy>, capacity: nat, failed: set<nat>,
                         slot: nat)
    requires AllKept(st, closed, stream + [], capacity, failed)
    ensures AllKept(st, map lane | lane in closed :: if lane.slot == slot then [] else closed[lane],
                    stream, capacity, failed - {slot})
  {
    assert stream + [] == stream;
    var closed' := map lane | lane in closed :: if lane.slot == slot then [] else closed[lane];
    forall lane, b: nat | lane in closed' && lane.slot !in failed - {slot} && b < |closed'[lane]|
      ensures Kept(st, closed', stream, capacity, lane, b)
    {
      assert Kept(st, closed, stream, capacity, lane, b);
    }
  }

  // A slot with no copy in flight may be given new blocks.
  lemma Handed<T(!new)>(was: Store<T>, wasClosed: map<Lane, seq<T>>, st: Store<T>, closed: map<Lane, seq<T>>,
                        stream: seq<Copy>, capacity: nat, failed: set<nat>, slot: nat)
    requires AllKept(was, wasClosed, stream + [], capacity, failed)
    requires st.host.Keys == st.newest.Keys == closed.Keys == wasClosed.Keys
    requires forall i {:trigger stream[i]} :: 0 <= i < |stream| ==> stream[i].lane.slot != slot
    requires forall lane {:trigger closed[lane]} :: lane in closed && lane.slot != slot ==>
      closed[lane] == wasClosed[lane] && st.host[lane] == was.host[lane] && st.newest[lane] == was.newest[lane]
    requires forall lane {:trigger closed[lane]} :: lane in closed && lane.slot == slot ==>
      |closed[lane]| <= capacity == |st.host[lane]| && closed[lane] == st.host[lane][..|closed[lane]|]
    ensures AllKept(st, closed, stream, capacity, failed)
  {
    assert stream + [] == stream;
    assert forall lane :: lane in closed ==> |st.host[lane]| == capacity by {
      forall lane | lane in closed ensures |st.host[lane]| == capacity {
        var _ := closed[lane];
        assert lane in was.host && |was.host[lane]| == capacity;
      }
    }
    forall lane, b: nat | lane in closed && lane.slot !in failed && b < |closed[lane]|
      ensures Kept(st, closed, stream, capacity, lane, b)
    {
      if lane.slot != slot { assert Kept(was, wasClosed, stream, capacity, lane, b); }
    }
  }

  // _handoff: records in host memory, the last one in the newest row.
  function HandedStore<T>(st: Store<T>, slot: nat, prompt: seq<seq<T>>): (r: Store<T>)
    requires forall lane :: (lane in st.host || lane in st.newest) && lane.slot == slot ==> lane.layer < |prompt|
    requires forall lane :: lane in st.host && lane.slot == slot ==> |prompt[lane.layer]| <= |st.host[lane]|
  {
    Store(map lane | lane in st.host ::
            if lane.slot == slot then prompt[lane.layer] + st.host[lane][|prompt[lane.layer]|..] else st.host[lane],
          map lane | lane in st.newest ::
            if lane.slot == slot && |prompt[lane.layer]| > 0 then prompt[lane.layer][|prompt[lane.layer]| - 1]
            else st.newest[lane])
  }

  function HandedBlocks<T>(closed: map<Lane, seq<T>>, slot: nat, prompt: seq<seq<T>>): map<Lane, seq<T>>
    requires forall lane :: lane in closed && lane.slot == slot ==> lane.layer < |prompt|
  {
    map lane | lane in closed :: if lane.slot == slot then prompt[lane.layer] else closed[lane]
  }

  // A slot with no copy in flight may be handed a prompt.
  lemma HandedKeeps<T(!new)>(st: Store<T>, closed: map<Lane, seq<T>>, stream: seq<Copy>, capacity: nat,
                             failed: set<nat>, slot: nat, prompt: seq<seq<T>>)
    requires AllKept(st, closed, stream + [], capacity, failed)
    requires forall i {:trigger stream[i]} :: 0 <= i < |stream| ==> stream[i].lane.slot != slot
    requires forall lane :: lane in closed && lane.slot == slot ==> lane.layer < |prompt|
    requires forall l :: 0 <= l < |prompt| ==> |prompt[l]| <= capacity
    ensures AllKept(HandedStore(st, slot, prompt), HandedBlocks(closed, slot, prompt), stream + [], capacity, failed)
    ensures OthersSame(closed, HandedBlocks(closed, slot, prompt), {slot})
  {
    assert stream + [] == stream;
    Handed(st, closed, HandedStore(st, slot, prompt), HandedBlocks(closed, slot, prompt), stream, capacity, failed,
           slot);
  }

  // What a lane of a handed-over slot starts with.
  lemma HandedAt<T>(st: Store<T>, closed: map<Lane, seq<T>>, slot: nat, prompt: seq<seq<T>>, lane: Lane)
    requires st.host.Keys == st.newest.Keys == closed.Keys && lane in closed && lane.slot == slot
    requires forall lane :: lane in closed && lane.slot == slot ==> lane.layer < |prompt|
    requires forall lane :: lane in st.host && lane.slot == slot ==> |prompt[lane.layer]| <= |st.host[lane]|
    ensures lane in HandedBlocks(closed, slot, prompt) && lane in HandedStore(st, slot, prompt).newest
    ensures HandedBlocks(closed, slot, prompt)[lane] == prompt[lane.layer]
    ensures prompt[lane.layer] != [] ==>
      HandedStore(st, slot, prompt).newest[lane] == prompt[lane.layer][|prompt[lane.layer]| - 1]
  {
  }

  lemma ShapeOf<T(!new)>(st: Store<T>, closed: map<Lane, seq<T>>, stream: seq<Copy>, capacity: nat, failed: set<nat>)
    requires AllKept(st, closed, stream, capacity, failed)
    ensures Shape(st, closed, stream, capacity)
  {
  }

  function Slots<T>(rows: seq<Row<T>>): set<nat> { set i | 0 <= i < |rows| :: rows[i].slot }

  // The closes of a batch of live leases are closable once the event has been waited for.
  lemma ClosesFit<T(!new)>(closed: map<Lane, seq<T>>, stream: seq<Copy>, rows: seq<Row<T>>, layers: nat,
                           failed: set<nat>, undrained: set<nat>, capacity: nat)
    requires forall i {:trigger rows[i]} :: 0 <= i < |rows| ==>
      |rows[i].records| == layers && rows[i].length >= 1 && rows[i].slot !in failed
    requires forall i, j :: 0 <= i < j < |rows| ==> rows[i].slot != rows[j].slot
    requires forall c {:trigger IsCloseOf(c, rows, layers)} :: IsCloseOf(c, rows, layers) ==>
      c.lane in closed && c.block == |closed[c.lane]| < capacity
    requires undrained <= failed && forall c :: c in stream ==> c.lane.slot in undrained
    ensures Closable(closed, stream, Closes(rows, layers), 0, failed, capacity)
    ensures forall i :: 0 <= i < |Closes(rows, layers)| ==> Closes(rows, layers)[i].lane.slot in Slots(rows)
  {
    ClosesAre(rows, layers);
    var closes := Closes(rows, layers);
    forall i | 0 <= i < |closes|
      ensures IsCloseOf(closes[i], rows, layers) && closes[i].lane.slot !in failed && closes[i].lane.slot in Slots(rows)
    {
      assert closes[i] in closes && IsCloseOf(closes[i], rows, layers);
      var r :| 0 <= r < |rows| && IsClose(closes[i], rows[r], layers);
      assert rows[r].slot in Slots(rows);
    }
    forall i, k | 0 <= i < |closes| && 0 <= k < |stream| ensures stream[k].lane != closes[i].lane {
      assert stream[k] in stream;
    }
  }

  /** The copies of every lease across any run of replays, failures and releases. */
  class GraphCopies<T(!new)> {
    const layers: nat
    const maxRequests: nat
    const capacity: nat          // blocks of a context
    var st: Store<T>
    var stream: seq<Copy>        // copies submitted and not ended, in order
    var covered: nat             // how many of them the latest event follows
    var copyPending: bool
    var failed: set<nat>         // slots whose lease failed
    var undrained: set<nat>      // slots whose lease failed and whose streams have not been drained since
    var free: set<nat>           // slots without a lease
    ghost var closed: map<Lane, seq<T>>

    // Copies `rest` are still to be submitted, and those of leases `batch` have no event yet.
    ghost predicate Ahead(rest: seq<Copy>, batch: set<nat>) reads this {
      && AllKept(st, closed, stream + rest, capacity, failed) && Covered(stream, covered, undrained + batch, free)
      && undrained <= failed && failed !! free && (covered > 0 ==> copyPending)
      && forall lane :: lane in closed <==> lane.slot < maxRequests && lane.layer < layers
    }

    ghost predicate Valid() reads this { Ahead([], {}) }

    /** The copy stream ends its oldest copy. */
    method CopyRuns(ghost rest: seq<Copy>, ghost batch: set<nat>)
      requires Ahead(rest, batch)
      modifies this`st, this`stream, this`covered
      ensures Ahead(rest, batch) && st.newest == old(st.newest)
      ensures stream == if |old(stream)| > 0 then old(stream)[1..] else []
      ensures covered == if old(covered) > 0 then old(covered) - 1 else 0
    {
      if |stream| > 0 {
        assert (stream + rest)[0] == stream[0] && (stream + rest)[1..] == stream[1..] + rest;
        EndKeeps(st, closed, stream + rest, capacity, failed);
        st := Ended(st, stream[0]);
        assert forall i :: 0 <= i < |stream| - 1 ==> stream[1..][i] == stream[i + 1];
        stream := stream[1..];
      }
      covered := if covered > 0 then covered - 1 else 0;
    }

    // The copy stream ends as many copies as it gets time for.
    method CopiesRun(ghost rest: seq<Copy>, ghost batch: set<nat>)
      requires Ahead(rest, batch)
      modifies this`st, this`stream, this`covered
      ensures Ahead(rest, batch) && forall c :: c in stream ==> c in old(stream)
    {
      hide AllKept, Covered;
      while |stream| > 0
        invariant Ahead(rest, batch) && forall c :: c in stream ==> c in old(stream)
        decreases |stream|
      {
        if * { break; }
        CopyRuns(rest, batch);
      }
    }

    // One stream wait: everything the latest event follows has ended.
    method WaitForEvent()
      requires Valid()
      modifies this`st, this`stream, this`covered
      ensures Valid() && st.newest == old(st.newest) && covered == 0
      ensures forall c :: c in stream ==> c.lane.slot in undrained
    {
      if copyPending {
        while covered > 0
          invariant Valid() && st.newest == old(st.newest)
        {
          CopyRuns([], {});
        }
      }
    }

    // _drain_graph_streams, if the device answers: everything submitted has ended.
    method Drain(answers: bool) returns (ok: bool)
      requires Valid()
      modifies this`st, this`stream, this`covered
      ensures Valid() && st.newest == old(st.newest) && ok == answers
      ensures ok ==> stream == []
      ensures !ok ==> st == old(st) && stream == old(stream) && covered == old(covered)
    {
      ok := answers;
      if ok {
        while |stream| > 0
          invariant Valid() && st.newest == old(st.newest)
        {
          CopyRuns([], {});
        }
      }
    }

    // fail_graph_replay: every lease of the batch is failed, and blocked until a drain answers.
    method Fail(ghost rest: seq<Copy>, slots: set<nat>, answers: bool)
      requires Ahead(rest, slots) && slots !! free && forall c :: c in rest ==> c.lane.slot in slots
      modifies this`st, this`stream, this`covered, this`failed, this`undrained
      ensures Valid() && failed == old(failed) + slots
      ensures answers ==> stream == [] && undrained == old(undrained) - slots
      ensures !answers ==> undrained == old(undrained) + slots
    {
      TailDropped(st, closed, stream, rest, capacity, failed, failed + slots);
      failed, undrained := failed + slots, undrained + slots;
      assert stream + [] == stream;
      var ok := Drain(answers);
      if ok { undrained := undrained - slots; }
    }

    // Between writes: what is due, what is left to close, and what has been written.
    ghost predicate WrittenTo(closes: seq<Close<T>>, w: nat, was: map<Lane, seq<T>>)
      requires w <= |closes|
      reads this
    {
      var due := Copies(closes)[..w];
      && Ahead(due, {}) && Closable(closed, stream + due, closes, w, failed, capacity)
      && Wrote(was, stream, Writing(st, closed, stream + due), closes, w) && LanesDiffer(closes)
    }

    /** The replay's kernels, the copy stream running between any two of their writes: no copy in
        flight reads a row they overwrite, every one being of another, failed lease after the wait. */
    method WriteNewest(closes: seq<Close<T>>, limit: nat)
      requires Valid() && limit <= |closes| && Closable(closed, stream, closes, 0, failed, capacity)
      modifies this`st, this`closed, this`stream, this`covered
      ensures Ahead(Copies(closes)[..limit], {})
      ensures Wrote(old(closed), stream, Writing(st, closed, stream + Copies(closes)[..limit]), closes, limit)
    {
      hide AllKept, Closable, Wrote, Covered;
      ghost var was := closed;
      FirstWrite(closes);
      for w := 0 to limit
        invariant WrittenTo(closes, w, was)
      {
        CopyBetween(closes, w, was);
        WriteRow(closes, w, was);
      }
      CopyBetween(closes, limit, was);
    }

    lemma FirstWrite(closes: seq<Close<T>>)
      requires Valid() && Closable(closed, stream, closes, 0, failed, capacity)
      ensures WrittenTo(closes, 0, closed)
    {
      assert Copies(closes)[..0] == [] && stream + [] == stream;
    }

    // One newest row.
    method WriteRow(closes: seq<Close<T>>, w: nat, ghost was: map<Lane, seq<T>>)
      requires w < |closes| && WrittenTo(closes, w, was)
      modifies this`st, this`closed
      ensures WrittenTo(closes, w + 1, was)
    {
      hide AllKept, Covered, Shape;
      ghost var x := Writing(st, closed, stream + Copies(closes)[..w]);
      DueNext(closes, w);
      WriteStep(x, closes, w, capacity, failed);
      WroteStep(was, stream, x, closes, w);
      st := Written(st, closes[w].lane, closes[w].record);
      closed := closed[closes[w].lane := closed[closes[w].lane] + [closes[w].record]];
    }

    lemma DueNext(closes: seq<Close<T>>, w: nat)
      requires w < |closes|
      ensures stream + Copies(closes)[..w + 1] == stream + Copies(closes)[..w] + [Copy(closes[w].lane, closes[w].block)]
    {
    }

    method CopyBetween(closes: seq<Close<T>>, w: nat, ghost was: map<Lane, seq<T>>)
      requires w <= |closes| && WrittenTo(closes, w, was)
      modifies this`st, this`stream, this`covered
      ensures WrittenTo(closes, w, was)
    {
      hide AllKept, Covered, Closable, Wrote;
      ghost var due, x := stream + Copies(closes)[..w], Writing(st, closed, stream + Copies(closes)[..w]);
      ghost var s := stream;
      CopiesRun(Copies(closes)[..w], {});
      ClosableLess(closed, due, stream + Copies(closes)[..w], closes, w, failed, capacity);
      WroteOn(was, s, x, closes, w, stream, Writing(st, closed, stream + Copies(closes)[..w]));
    }

    // finish_graph_replay's submissions, up to a limit; the copy stream may run between them.
    method Submit(closes: seq<Close<T>>, limit: nat, ghost slots: set<nat>)
      requires Ahead(Copies(closes), slots) && limit <= |closes| && slots !! free
      requires forall i :: 0 <= i < |closes| ==> closes[i].lane.slot in slots
      modifies this`st, this`stream, this`covered
      ensures Ahead(Copies(closes)[limit..], slots)
    {
      hide AllKept;
      var j := 0;
      assert Copies(closes)[0..] == Copies(closes);
      while j < limit
        invariant 0 <= j <= limit && Ahead(Copies(closes)[j..], slots)
      {
        ghost var rest := Copies(closes)[j..];
        var copy := Copy(closes[j].lane, closes[j].block);
        assert rest == [copy] + Copies(closes)[j + 1..];
        assert stream + rest == stream + [copy] + Copies(closes)[j + 1..];
        stream := stream + [copy];
        j := j + 1;
        CopiesRun(Copies(closes)[j..], slots);
      }
    }

    // Recording the event behind the last copy of the batch.
    method RecordEvent(ghost slots: set<nat>)
      requires Ahead([], slots)
      modifies this`covered, this`copyPending
      ensures Valid() && covered == |stream| && copyPending
    {
      covered, copyPending := |stream|, true;
    }

    // The decode rows of a replay: distinct live leases, each closing lane at its next block.
    ghost predicate Rows(rows: seq<Row<T>>) reads this {
      && (forall i {:trigger rows[i]} :: 0 <= i < |rows| ==>
            && |rows[i].records| == layers && rows[i].length >= 1
            && rows[i].slot < maxRequests && rows[i].slot !in failed && rows[i].slot !in free)
      && (forall i, j :: 0 <= i < j < |rows| ==> rows[i].slot != rows[j].slot)
      && (forall c {:trigger IsCloseOf(c, rows, layers)} :: IsCloseOf(c, rows, layers) ==>
            c.lane in closed && c.block == |closed[c.lane]| < capacity)
    }

    /** One graph replay: wait for the event, run the kernels, submit the closing copies, record
        the event; a failure anywhere fails the batch's leases. Whatever happens, every closed
        block of every lease that has not failed is kept. */
    method Replay(rows: seq<Row<T>>, fault: Fault, answers: bool) returns (ok: bool)
      requires Valid() && Rows(rows)
      modifies this
      ensures Valid() && ok == fault.NoFault? && free == old(free)
      ensures failed == if ok then old(failed) else old(failed) + Slots(rows)
      ensures OthersSame(old(closed), closed, Slots(rows)) && (ok ==> ClosedBy(old(closed), closed, rows, layers))
    {
      hide Closes, Copies, ClosedBy, AllKept;
      WaitForEvent();
      var closes, slots := Closes(rows, layers), Slots(rows);
      var kernels := if fault.InKernels? && fault.written < |closes| then fault.written else |closes|;
      RunKernels(rows, kernels);
      if fault.InKernels? {
        Fail(Copies(closes)[..kernels], slots, answers);
        return false;
      }
      assert Copies(closes)[..kernels] == Copies(closes);
      ok := Finish(closes, slots, fault, answers);
    }

    // The graph itself, or as much of it as ran.
    method RunKernels(rows: seq<Row<T>>, limit: nat)
      requires Valid() && Rows(rows) && limit <= |Closes(rows, layers)|
      requires forall c :: c in stream ==> c.lane.slot in undrained
      modifies this`st, this`closed, this`stream, this`covered
      ensures Ahead(Copies(Closes(rows, layers))[..limit], {})
      ensures OthersSame(old(closed), closed, Slots(rows))
      ensures limit == |Closes(rows, layers)| ==> ClosedBy(old(closed), closed, rows, layers)
      ensures forall i :: 0 <= i < |Closes(rows, layers)| ==> Closes(rows, layers)[i].lane.slot in Slots(rows)
    {
      var closes := Closes(rows, layers);
      ClosesFit(closed, stream, rows, layers, failed, undrained, capacity);
      WriteNewest(closes, limit);
      WroteClosed(old(closed), stream, Writing(st, closed, stream + Copies(closes)[..limit]), rows, layers, limit);
    }

    // finish_graph_replay: nothing to copy unless some row closes.
    method Finish(closes: seq<Close<T>>, slots: set<nat>, fault: Fault, answers: bool) returns (ok: bool)
      requires Ahead(Copies(closes), {}) && slots !! free && !fault.InKernels?
      requires forall i :: 0 <= i < |closes| ==> closes[i].lane.slot in slots
      modifies this`st, this`stream, this`covered, this`copyPending, this`failed, this`undrained
      ensures Valid() && ok == fault.NoFault?
      ensures failed == if ok then old(failed) else old(failed) + slots
    {
      if |closes| > 0 {
        var submissions := if fault.InSubmission? && fault.submitted < |closes| then fault.submitted else |closes|;
        Submit(closes, submissions, slots);
        if fault.InSubmission? {
          Fail(Copies(closes)[submissions..], slots, answers);
          return false;
        }
        assert Copies(closes)[submissions..] == [];
        RecordEvent(slots);
      }
      assert Copies(closes) == [] || |closes| > 0;
      if !fault.NoFault? {
        Fail([], slots, answers);
      }
      return fault.NoFault?;
    }

    /** release: a lease whose copies may be behind no event drains both streams, any other waits
        for the event. Only then is its slot free, and no copy of it is in flight. */
    method Release(slot: nat, drains: bool, waits: bool) returns (ok: bool)
      requires Valid() && slot < maxRequests && slot !in free
      modifies this
      ensures Valid() && (ok <==> (old(slot in undrained) ==> drains) && waits)
      ensures ok ==> free == old(free) + {slot} && failed == old(failed) - {slot}
      ensures ok ==> forall c :: c in stream ==> c.lane.slot != slot
      ensures !ok ==>
        free == old(free) && failed == old(failed) + if old(slot in undrained) && !drains then {} else {slot}
      ensures OthersSame(old(closed), closed, {slot}) && (!ok ==> closed == old(closed))
    {
      ok := DrainBlocked(slot, drains);
      if !ok { return; }
      if !waits {
        FailedMore(st, closed, stream, capacity, failed, failed + {slot});
        failed := failed + {slot};
        assert stream + [] == stream;
        return false;
      }
      WaitForEvent();
      EndLease(slot);
    }

    method DrainBlocked(slot: nat, drains: bool) returns (ok: bool)
      requires Valid()
      modifies this`st, this`stream, this`covered, this`undrained
      ensures Valid() && (ok <==> (old(slot in undrained) ==> drains))
      ensures ok ==> slot !in undrained
    {
      ok := true;
      if slot in undrained {
        ok := Drain(drains);
        if ok { undrained := undrained - {slot}; }
      }
    }

    method EndLease(slot: nat)
      requires Valid() && slot !in undrained && forall c :: c in stream ==> c.lane.slot in undrained
      modifies this`closed, this`failed, this`free
      ensures Valid() && free == old(free) + {slot} && failed == old(failed) - {slot}
      ensures OthersSame(old(closed), closed, {slot})
    {
      Emptied(st, closed, stream, capacity, failed, slot);
      closed := map lane | lane in closed :: if lane.slot == slot then [] else closed[lane];
      failed, free := failed - {slot}, free + {slot};
      assert stream + [] == stream;
      forall i | 0 <= i < |stream| ensures stream[i].lane.slot !in free { assert stream[i] in stream; }
    }

    /** A new lease of a free slot, after its handoff put the prompt's blocks in host memory and
        the last of them in the newest row. */
    method Lease(slot: nat, prompt: seq<seq<T>>)
      requires Valid() && slot in free && slot < maxRequests
      requires |prompt| == layers && forall l :: 0 <= l < layers ==> |prompt[l]| <= capacity
      modifies this`st, this`free, this`closed
      ensures Valid() && free == old(free) - {slot}
      ensures OthersSame(old(closed), closed, {slot})
      ensures forall l: nat :: l < layers ==> Lane(slot, l) in closed && closed[Lane(slot, l)] == prompt[l]
      ensures forall l: nat :: l < layers && prompt[l] != [] ==>
        Lane(slot, l) in st.newest && st.newest[Lane(slot, l)] == prompt[l][|prompt[l]| - 1]
    {
      hide AllKept, HandedStore, HandedBlocks;
      ShapeOf(st, closed, stream + [], capacity, failed);
      HandedKeeps(st, closed, stream, capacity, failed, slot, prompt);
      forall l: nat | l < layers
        ensures Lane(slot, l) in HandedBlocks(closed, slot, prompt)
        ensures HandedBlocks(closed, slot, prompt)[Lane(slot, l)] == prompt[l]
        ensures prompt[l] != [] ==>
          && Lane(slot, l) in HandedStore(st, slot, prompt).newest
          && HandedStore(st, slot, prompt).newest[Lane(slot, l)] == prompt[l][|prompt[l]| - 1]
      {
        HandedAt(st, closed, slot, prompt, Lane(slot, l));
      }
      closed, st := HandedBlocks(closed, slot, prompt), HandedStore(st, slot, prompt);
      free := free - {slot};
    }
  }

  // Where a replay raises: never, in its kernels, in its submissions, or after its event.
  datatype Fault = NoFault | InKernels(written: nat) | InSubmission(submitted: nat) | AfterEvent
}
