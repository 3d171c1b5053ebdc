// A request over the host prefixes: it is restored or begins afresh, its prefill writes behind
// what it holds, and a checkpoint of it shares only chunks that it holds itself.
module PrefixRequest {
  import opened C4Layout
  import CaptureBytes
  import opened CaptureRestore
  import opened HostPrefix
  import ImageIdentity
  import Pages
  import opened PrefixCapture
  import opened StateCapture

  // Layers are addressed through request tables, pools through rings and slots.
  datatype Device<T> = Device(layers: seq<LayerBuffers<T>>, pools: Pools<T>)
  // The tensors of a snapshot.
  datatype Contents<T> = Contents(chunks: seq<Chunk<T>>, state: StateCopy<T>)
  // Where a request's data lies.
  datatype Row = Row(table: seq<nat>, ring: nat, slot: nat)
  // The request in prefill, with the snapshot it restored or published last.
  datatype Request = Request(row: Row, seqLen: nat, epoch: nat, basisId: Option<nat>, basisLength: nat)

  // ---- What is kept ----

  /** The device holds the contents in a row. */
  ghost predicate RowHolds<T(!new)>(d: Device<T>, row: Row, c: Contents<T>, length: nat) {
    Represents(d.layers, row.table, c.chunks, length) && IsStateOf(d.pools, row.ring, row.slot, c.state)
  }

  // The cache's view of a snapshot and its tensors are cut alike.
  ghost predicate Carries<T(!new)>(snapshot: Snapshot, c: Contents<T>) {
    PrefixCapture.Spans(snapshot.segments) == CaptureRestore.Spans(c.chunks) && Gapless(c.chunks, snapshot.Length())
  }

  // validate_prefix_checkpoint
  ghost predicate ContentsFit<T(!new)>(d: Device<T>, c: Contents<T>) {
    ChunksFit(c.chunks, |d.layers|) && StateFits(d.pools, c.state)
  }

  // Every snapshot in the cache has its tensors, and no id is used twice.
  ghost predicate Stored<T(!new)>(s: State, stored: map<nat, Contents<T>>, d: Device<T>) {
    && (forall id {:trigger s.entries[id]} :: id in s.entries ==>
          id in stored && Carries(s.entries[id].snapshot, stored[id]))
    && (forall id {:trigger s.retired[id]} :: id in s.retired ==>
          id in stored && Carries(s.retired[id].snapshot, stored[id]))
    && (forall id {:trigger stored[id]} :: id in stored ==> id <= s.nextId && ContentsFit(d, stored[id]))
  }

  // A request's row lies in the device; what its basis says, the row still holds.
  ghost predicate RequestOk<T(!new)>(d: Device<T>, r: Request, stored: map<nat, Contents<T>>) {
    && Inside(d.pools, r.row.ring, r.row.slot) && r.basisLength <= r.seqLen <= |r.row.table|
    && (forall li {:trigger d.layers[li]} :: 0 <= li < |d.layers| ==> Reaches(d.layers[li], r.row.table, r.seqLen))
    && (r.basisId.Some? ==>
          r.basisId.value in stored && Represents(d.layers, r.row.table, stored[r.basisId.value].chunks, r.basisLength))
  }

  // One snapshot more, whose tensors are added.
  lemma StoredGrown<T(!new)>(was: State, s: State, stored: map<nat, Contents<T>>, d: Device<T>, id: nat, c: Contents<T>)
    requires Stored(was, stored, d) && Grown(was, s, Some(id))
    requires Carries(s.entries[id].snapshot, c) && ContentsFit(d, c)
    ensures id !in stored && Stored(s, stored[id := c], d)
  {
    hide Carries, ContentsFit;
  }

  lemma GrownByNone(was: State, s: State)
    requires Grown(was, s, None)
    ensures FromBefore(was, s) && s.nextId == was.nextId
  {
  }

  lemma StoredLess<T(!new)>(was: State, s: State, stored: map<nat, Contents<T>>, d: Device<T>)
    requires Stored(was, stored, d) && s.nextId == was.nextId && FromBefore(was, s)
    ensures Stored(s, stored, d)
  {
    hide Carries, ContentsFit;
  }

  // Every snapshot in the cache was there before, live or retired.
  ghost predicate FromBefore(was: State, s: State) {
    && (forall id {:trigger s.entries[id]} :: id in s.entries ==>
          id in was.entries && s.entries[id].snapshot == was.entries[id].snapshot)
    && (forall id {:trigger s.retired[id]} :: id in s.retired ==>
          || (id in was.retired && s.retired[id].snapshot == was.retired[id].snapshot)
          || (id in was.entries && s.retired[id].snapshot == was.entries[id].snapshot))
  }

  lemma StoredOnSame<T(!new)>(s: State, stored: map<nat, Contents<T>>, was: Device<T>, now: Device<T>)
    requires Stored(s, stored, was) && |now.layers| == |was.layers| && SamePools(was.pools, now.pools)
    ensures Stored(s, stored, now)
  {
    hide Carries;
    forall id | id in stored ensures ContentsFit(now, stored[id]) {
      assert ContentsFit(was, stored[id]);
      FitsSame(was.pools, now.pools, stored[id].state);
    }
  }

  // The snapshot of an open reader has its tensors.
  lemma ReaderStored<T(!new)>(s: State, stored: map<nat, Contents<T>>, d: Device<T>, r: Reader)
    requires Stored(s, stored, d) && Tables(s.entries, s.retired, s.open, s.nextId) && r in s.open
    ensures r.entryId in stored && Carries(r.snapshot, stored[r.entryId]) && ContentsFit(d, stored[r.entryId])
  {
    hide Carries, ContentsFit;
  }

  // A basis a capture may share is the one the request holds, at its length.
  lemma BasisHeld<T(!new)>(s: State, stored: map<nat, Contents<T>>, d: Device<T>, r: Request, basis: Reader)
    requires Stored(s, stored, d) && RequestOk(d, r, stored) && OfEntry(s, basis) && r.basisId == Some(basis.entryId)
    ensures basis.entryId in stored && Carries(basis.snapshot, stored[basis.entryId])
    ensures basis.snapshot.Length() == r.basisLength
    ensures Represents(d.layers, r.row.table, stored[basis.entryId].chunks, r.basisLength)
  {
  }

  // ---- Equal contents ----

  ghost predicate SameState<T>(p: Pools<T>, r: nat, s: nat, q: Pools<T>, r': nat, s': nat) {
    && |p.pending| == |q.pending| && |p.conv| == |q.conv| && |p.siblings| == |q.siblings|
    && (forall i {:trigger p.pending[i]} :: 0 <= i < |p.pending| ==>
          HasRing(p.pending[i], r) && HasRing(q.pending[i], r') && Ring(p.pending[i], r) == Ring(q.pending[i], r'))
    && HasRing(p.rope, r) && HasRing(q.rope, r') && Ring(p.rope, r) == Ring(q.rope, r')
    && (forall i {:trigger p.conv[i]} :: 0 <= i < |p.conv| ==> SameSlot(p.conv[i], s, q.conv[i], s'))
    && SameSlot(p.temporal, s, q.temporal, s')
    && (forall i {:trigger p.siblings[i]} :: 0 <= i < |p.siblings| ==> SameSlot(p.siblings[i], s, q.siblings[i], s'))
  }

  ghost predicate SameSlot<T>(t: SlotTensor<T>, s: nat, u: SlotTensor<T>, s': nat) {
    HasSlot(t, s) && HasSlot(u, s') && SlotOf(t, s) == SlotOf(u, s')
  }

  // One position of one layer: raw K and V, and the index row of its group.
  ghost predicate SameAt<T>(a: LayerBuffers<T>, atable: seq<nat>, b: LayerBuffers<T>, btable: seq<nat>, p: nat) {
    && PADDING + p < |a.k| && PADDING + p < |b.k| && a.k[PADDING + p] == b.k[PADDING + p]
    && PADDING + p < |a.v| && PADDING + p < |b.v| && a.v[PADDING + p] == b.v[PADDING + p]
    && 4 * (p / 4) < |atable| && 4 * (p / 4) < |btable|
    && GroupRow(atable, p / 4) < |a.index| && GroupRow(btable, p / 4) < |b.index|
    && a.index[GroupRow(atable, p / 4)] == b.index[GroupRow(btable, p / 4)]
  }

  ghost predicate SamePrefix<T(!new)>(a: Device<T>, arow: Row, b: Device<T>, brow: Row, length: nat) {
    && |a.layers| == |b.layers| && SameState(a.pools, arow.ring, arow.slot, b.pools, brow.ring, brow.slot)
    && forall li: nat, p: nat {:trigger SameAt(a.layers[li], arow.table, b.layers[li], brow.table, p)} ::
         li < |a.layers| && p < length ==> SameAt(a.layers[li], arow.table, b.layers[li], brow.table, p)
  }

  /** Rows that hold the same contents agree on every position, whatever their pages, rings and
      slots: restoring what was captured is the identity. */
  lemma HeldAlike<T(!new)>(a: Device<T>, arow: Row, b: Device<T>, brow: Row, c: Contents<T>, length: nat)
    requires RowHolds(a, arow, c, length) && RowHolds(b, brow, c, length) && |a.layers| == |b.layers|
    ensures SamePrefix(a, arow, b, brow, length)
  {
    StateAlike(a.pools, arow.ring, arow.slot, b.pools, brow.ring, brow.slot, c.state);
    forall li: nat, p: nat | li < |a.layers| && p < length
      ensures SameAt(a.layers[li], arow.table, b.layers[li], brow.table, p)
    {
      SameContents(a.layers, arow.table, b.layers, brow.table, c.chunks, length, li, p);
    }
  }

  lemma StateAlike<T>(p: Pools<T>, r: nat, s: nat, q: Pools<T>, r': nat, s': nat, c: StateCopy<T>)
    requires IsStateOf(p, r, s, c) && IsStateOf(q, r', s', c)
    ensures SameState(p, r, s, q, r', s')
  {
    forall i | 0 <= i < |p.pending|
      ensures HasRing(q.pending[i], r') && Ring(p.pending[i], r) == Ring(q.pending[i], r')
    {
      assert c.pending[i] == Ring(p.pending[i], r) && c.pending[i] == Ring(q.pending[i], r');
    }
    forall i | 0 <= i < |p.conv| ensures SameSlot(p.conv[i], s, q.conv[i], s') {
      assert c.conv[i] == SlotOf(p.conv[i], s) && c.conv[i] == SlotOf(q.conv[i], s');
    }
    forall i | 0 <= i < |p.siblings| ensures SameSlot(p.siblings[i], s, q.siblings[i], s') {
      assert c.siblings[i] == SlotOf(p.siblings[i], s) && c.siblings[i] == SlotOf(q.siblings[i], s');
    }
  }

  // ---- Steps on values ----

  // What the model's forward of a request may write: rows and groups behind its length.
  ghost predicate WritesBehind<T(!new)>(d: Device<T>, now: Device<T>, was: seq<nat>, table: seq<nat>, length: nat,
                                        stop: nat) {
    && |now.layers| == |d.layers| && SamePools(d.pools, now.pools) && length <= stop && length <= |was|
    && DistinctGroups(table, stop)
    && (forall b: nat {:trigger GroupRow(table, b)} :: 4 * b < length ==> GroupRow(table, b) == GroupRow(was, b))
    && (forall li {:trigger now.layers[li]} :: 0 <= li < |d.layers| ==>
          Reaches(now.layers[li], table, stop) && OthersUntouched(d.layers[li], now.layers[li], table, length, stop))
  }

  lemma RequestExtended<T(!new)>(d: Device<T>, now: Device<T>, r: Request, table: seq<nat>, stop: nat,
                                 stored: map<nat, Contents<T>>)
    requires RequestOk(d, r, stored) && WritesBehind(d, now, r.row.table, table, r.seqLen, stop)
    ensures RequestOk(now, r.(row := r.row.(table := table), seqLen := stop), stored)
  {
    hide Represents, OthersUntouched, Reaches;
    if r.basisId.Some? {
      BasisKept(d.layers, r.row.table, now.layers, table, stored[r.basisId.value].chunks, r.basisLength, r.seqLen,
                stop);
    }
    InsideSame(d.pools, now.pools, r.row.ring, r.row.slot);
  }

  // What other requests may write while this one is in prefill: nothing of its row.
  ghost predicate WritesElsewhere<T(!new)>(d: Device<T>, now: Device<T>, request: Option<Request>) {
    && |now.layers| == |d.layers| && SamePools(d.pools, now.pools)
    && (request.Some? ==> var r := request.value;
          SameBelow(d.layers, r.row.table, now.layers, r.row.table, r.seqLen))
  }

  lemma RequestBeside<T(!new)>(d: Device<T>, now: Device<T>, r: Request, stored: map<nat, Contents<T>>)
    requires RequestOk(d, r, stored) && WritesElsewhere(d, now, Some(r))
    ensures RequestOk(now, r, stored)
  {
    hide Represents;
    if r.basisId.Some? {
      RepresentsSame(d.layers, r.row.table, now.layers, r.row.table, stored[r.basisId.value].chunks, r.basisLength,
                     r.seqLen);
    }
    InsideSame(d.pools, now.pools, r.row.ring, r.row.slot);
    forall li | 0 <= li < |now.layers| ensures Reaches(now.layers[li], r.row.table, r.seqLen) {
      assert Reaches(d.layers[li], r.row.table, r.seqLen);
    }
  }

  // More snapshots stored under new ids change nothing for a request.
  lemma RequestMoreStored<T(!new)>(d: Device<T>, r: Request, stored: map<nat, Contents<T>>, id: nat, c: Contents<T>)
    requires RequestOk(d, r, stored) && id !in stored
    ensures RequestOk(d, r, stored[id := c])
  {
    hide Represents, Reaches, Inside;
  }

  // Cut alike, a snapshot and its tensors carry alike.
  lemma CapturedCarries<T(!new)>(was: State, snapshot: Snapshot, basis: Option<Reader>, basisChunks: seq<Chunk<T>>,
                                 c: Contents<T>, layers: seq<LayerBuffers<T>>, table: seq<nat>)
    requires BuiltOn(was, snapshot, basis, snapshot.Length()) && Represents(layers, table, c.chunks, snapshot.Length())
    requires PrefixCapture.Spans(BasisSegments(basis)) == CaptureRestore.Spans(basisChunks)
    requires CaptureRestore.Spans(c.chunks)
      == CaptureRestore.Spans(basisChunks) + Pages.Cut(BasisLength(basis), snapshot.Length())
    ensures Carries(snapshot, c)
  {
    hide ChunkHolds;
  }

  // Only the row was written: its rows and groups below the length, its ring and its slot.
  ghost predicate RestoredOnly<T(!new)>(was: Device<T>, now: Device<T>, row: Row, length: nat) {
    && |now.layers| == |was.layers| && length <= |row.table| && OthersKept(was.pools, now.pools, row.ring, row.slot)
    && forall li {:trigger now.layers[li]} :: 0 <= li < |was.layers| ==>
         OthersUntouched(was.layers[li], now.layers[li], row.table, 0, length)
  }

  lemma RequestRestored<T(!new)>(was: Device<T>, now: Device<T>, r: Request, stored: map<nat, Contents<T>>)
    requires RestoredOnly(was, now, r.row, r.seqLen) && r.basisId.None? && r.basisLength == 0
    requires Inside(was.pools, r.row.ring, r.row.slot)
    requires forall li {:trigger was.layers[li]} :: 0 <= li < |was.layers| ==>
      Reaches(was.layers[li], r.row.table, r.seqLen)
    ensures RequestOk(now, r, stored) && SamePools(was.pools, now.pools)
  {
    hide OthersKept, Inside;
    OthersKeptSame(was.pools, now.pools, r.row.ring, r.row.slot);
    InsideSame(was.pools, now.pools, r.row.ring, r.row.slot);
    forall li | 0 <= li < |now.layers| ensures Reaches(now.layers[li], r.row.table, r.seqLen) {
      assert Reaches(was.layers[li], r.row.table, r.seqLen);
      assert OthersUntouched(was.layers[li], now.layers[li], r.row.table, 0, r.seqLen);
    }
  }

  lemma AcquiredFrom(s: State, namespace: Namespace, tokens: seq<int>, cap: nat,
                     identity: Option<ImageIdentity.Identity>, count: bool, r: Option<Reader>, t: State)
    requires Acquired(s, namespace, tokens, cap, identity, count, r, t)
    ensures FromBefore(s, t) && t.nextId == s.nextId
  {
    if r.Some? {
      var i :| 0 <= i < |s.order| && s.order[i] == r.value.entryId && t == Opened(s, r.value, count, i);
    }
  }

  lemma ClosedFrom(s: State, r: Reader)
    requires Closable(s, r) && (r in s.open && r.entryId in s.entries ==> s.entries[r.entryId].snapshot == r.snapshot)
    ensures FromBefore(s, Closed(s, r)) && Closed(s, r).nextId == s.nextId
  {
  }

  lemma HeldLength(s: State, id: nat, namespace: Namespace, tokens: seq<int>,
                   identity: Option<ImageIdentity.Identity>)
    requires Holds(s, id, namespace, tokens, identity)
    ensures s.entries[id].snapshot.Length() == |tokens|
  {
  }

  ghost predicate OnlyHolds(s: State, id: nat, namespace: Namespace, tokens: seq<int>,
                            identity: Option<ImageIdentity.Identity>) {
    forall k {:trigger s.entries[k]} :: k in s.entries && Holds(s, k, namespace, tokens, identity) ==> k == id
  }

  lemma OnlyPublished(was: State, s: State, id: nat, namespace: Namespace, tokens: seq<int>,
                      identity: Option<ImageIdentity.Identity>)
    requires Grown(was, s, Some(id)) && NoneHolds(was, namespace, tokens, identity)
    ensures OnlyHolds(s, id, namespace, tokens, identity)
  {
  }

  // Looking up a prompt that one entry holds gives a new reader of it.
  lemma HitIs(s: State, id: nat, namespace: Namespace, tokens: seq<int>, identity: Option<ImageIdentity.Identity>,
              r: Option<Reader>, t: State, budget: nat, maxEntries: nat)
    requires Inv(s, budget, maxEntries, 0, 0) && Holds(s, id, namespace, tokens, identity)
    requires OnlyHolds(s, id, namespace, tokens, identity)
    requires Acquired(s, namespace, tokens, Cap(tokens, Some(|tokens|), identity), identity, true, r, t)
    ensures r.Some? && r.value.entryId == id && r.value.snapshot.Length() == |tokens|
    ensures r.value in t.open && forall k :: k in t.basis ==> t.basis[k] != r.value
    ensures OneOpened(s, r.value, t)
  {
    hide Holds, OnlyHolds, Acquired;
    assert Ordered(s.order, s.entries) && Handles(s.open, s.held, s.basis, s.serial);
    HitFound(s, id, namespace, tokens, identity, r, t);
    HitOpen(s, namespace, tokens, identity, r.value, t);
  }

  lemma HitFound(s: State, id: nat, namespace: Namespace, tokens: seq<int>, identity: Option<ImageIdentity.Identity>,
                 r: Option<Reader>, t: State)
    requires Ordered(s.order, s.entries) && Holds(s, id, namespace, tokens, identity)
    requires OnlyHolds(s, id, namespace, tokens, identity)
    requires Acquired(s, namespace, tokens, Cap(tokens, Some(|tokens|), identity), identity, true, r, t)
    ensures r.Some? && r.value.entryId == id && r.value.snapshot.Length() == |tokens|
  {
    var best := if r.Some? then Some(r.value.entryId) else None;
    PublishedIsFound(s, id, namespace, tokens, identity, tokens, Cap(tokens, Some(|tokens|), identity), identity, best);
    assert Holds(s, best.value, namespace, tokens, identity);
  }

  ghost predicate OneOpened(s: State, r: Reader, t: State) {
    r !in s.open && t.open == s.open + {r} && t.held == s.held && t.basis == s.basis
  }

  lemma HitOpen(s: State, namespace: Namespace, tokens: seq<int>, identity: Option<ImageIdentity.Identity>, r: Reader,
                t: State)
    requires Handles(s.open, s.held, s.basis, s.serial)
    requires Acquired(s, namespace, tokens, Cap(tokens, Some(|tokens|), identity), identity, true, Some(r), t)
    ensures r in t.open && (forall k :: k in t.basis ==> t.basis[k] != r) && OneOpened(s, r, t)
  {
    var i :| 0 <= i < |s.order| && s.order[i] == r.entryId && t == Opened(s, r, true, i);
  }

  // ---- The runtime's side of a request ----

  class PrefixRuntime<T(!new)> {
    const host: Cache
    var device: Device<T>
    var stored: map<nat, Contents<T>>
    var request: Option<Request>      // the owner of the staging area

    ghost predicate Valid()
      reads this, host
    {
      host.Valid() && Stored(host.state, stored, device) && (request.Some? ==> RequestOk(device, request.value, stored))
    }

    constructor (host: Cache, device: Device<T>)
      requires host.Valid() && host.state.entries == map[] && host.state.retired == map[]
      ensures Valid() && this.host == host && this.device == device && stored == map[] && request == None
    {
      this.host, this.device, stored, request := host, device, map[], None;
    }

    // A row a request may be given: inside the pools, and reaching a length with groups of its own.
    ghost predicate RowFits(row: Row, length: nat)
      reads this
    {
      && Inside(device.pools, row.ring, row.slot) && DistinctGroups(row.table, length)
      && forall li {:trigger device.layers[li]} :: 0 <= li < |device.layers| ==>
           Reaches(device.layers[li], row.table, length)
    }

    /** _acquire_request: a request without a basis. */
    method Begin(row: Row)
      requires Valid() && request.None? && RowFits(row, 0)
      modifies this`request
      ensures Valid() && request == Some(Request(row, 0, host.state.epoch, None, 0))
    {
      hide HostPrefix.Inv, Inside, Stored;
      request := Some(Request(row, 0, host.state.epoch, None, 0));
    }

    /** restore_prefix: whatever row the request is given, it ends up holding what is stored of the
        snapshot, and nothing else is written. What is stored always passes the validation. */
    method Restore(reader: Reader, row: Row)
      requires Valid() && request.None? && reader in host.state.open && RowFits(row, reader.snapshot.Length())
      modifies this`device, this`request
      ensures Valid() && reader.entryId in stored
      ensures request == Some(Request(row, reader.snapshot.Length(), host.state.epoch, None, 0))
      ensures RowHolds(device, row, stored[reader.entryId], reader.snapshot.Length())
      ensures RestoredOnly(old(device), device, row, reader.snapshot.Length())
    {
      hide HostPrefix.Inv, Represents, Inside, StateFits, ChunksFit, OthersUntouched, OthersKept, Stored;
      ReaderIsStored(reader);
      ghost var was := device;
      var c := stored[reader.entryId];
      var layers := CaptureRestore.Restore(device.layers, row.table, c.chunks, reader.snapshot.Length());
      var pools := RestoreState(device.pools, c.state, row.ring, row.slot);
      device := Device(layers, pools);
      request := Some(Request(row, reader.snapshot.Length(), host.state.epoch, None, 0));
      RequestRestored(was, device, request.value, stored);
      StoredOnSame(host.state, stored, was, device);
    }

    lemma ReaderIsStored(r: Reader)
      requires Valid() && r in host.state.open
      ensures r.entryId in stored && Carries(r.snapshot, stored[r.entryId]) && ContentsFit(device, stored[r.entryId])
    {
      ReaderStored(host.state, stored, device, r);
    }

    /** note_prefix_basis: the request holds this snapshot itself. */
    method NoteBasis(id: nat, length: nat)
      requires Valid() && request.Some? && id in stored && length <= request.value.seqLen
      requires Represents(device.layers, request.value.row.table, stored[id].chunks, length)
      modifies this`request
      ensures Valid() && request == Some(old(request).value.(basisId := Some(id), basisLength := length))
    {
      hide HostPrefix.Inv, Represents, Inside, Stored, Reaches;
      request := Some(request.value.(basisId := Some(id), basisLength := length));
    }

    /** A hit handed over: the snapshot of an open reader restored, and noted as the basis. */
    method Hand(reader: Reader, row: Row)
      requires Valid() && request.None? && reader in host.state.open && RowFits(row, reader.snapshot.Length())
      modifies this`device, this`request
      ensures Valid() && reader.entryId in stored
      ensures request == Some(Request(row, reader.snapshot.Length(), host.state.epoch, Some(reader.entryId),
                                      reader.snapshot.Length()))
      ensures RowHolds(device, row, stored[reader.entryId], reader.snapshot.Length())
      ensures RestoredOnly(old(device), device, row, reader.snapshot.Length())
    {
      hide HostPrefix.Inv, Represents, Inside, Stored, Reaches, RestoredOnly;
      Restore(reader, row);
      NoteBasis(reader.entryId, reader.snapshot.Length());
    }

    /** A forward of the request: it writes behind what the request holds. */
    method Extend(now: Device<T>, table: seq<nat>, stop: nat)
      requires Valid() && request.Some?
      requires WritesBehind(device, now, request.value.row.table, table, request.value.seqLen, stop)
      modifies this`device, this`request
      ensures Valid() && device == now
      ensures request == Some(old(request).value.(row := old(request).value.row.(table := table), seqLen := stop))
    {
      hide HostPrefix.Inv, Stored, RequestOk;
      RequestExtended(device, now, request.value, table, stop, stored);
      StoredOnSame(host.state, stored, device, now);
      device := now;
      request := Some(request.value.(row := request.value.row.(table := table), seqLen := stop));
    }

    /** Other requests write to their own pages, rings and slots. */
    method OthersWrite(now: Device<T>)
      requires Valid() && WritesElsewhere(device, now, request)
      modifies this`device
      ensures Valid() && device == now
    {
      hide HostPrefix.Inv, Stored, RequestOk;
      if request.Some? { RequestBeside(device, now, request.value, stored); }
      StoredOnSame(host.state, stored, device, now);
      device := now;
    }

    /** The request leaves the staging area: a handoff, or a release. */
    method Leave()
      requires Valid()
      modifies this`request
      ensures Valid() && request == None
    {
      hide HostPrefix.Inv, Stored, RequestOk;
      request := None;
    }

    // There is already a checkpoint of the whole prompt, or no room for one.
    ghost predicate MayBeSkipped(s: State, namespace: Namespace, tokens: seq<int>,
                                 identity: Option<ImageIdentity.Identity>, g: CaptureBytes.Geometry)
    {
      !NoneHolds(s, namespace, tokens, identity) || Crowded(s, g, |tokens|, host.budget, host.maxEntries)
    }

    /** checkpoint of a prefill that ends on a page: the chunks of the basis, if the request holds
        it, and the rest copied. What is published is what the row holds, and becomes its basis;
        if nothing is published, nothing has changed. */
    method Checkpoint(namespace: Namespace, tokens: seq<int>, identity: Option<ImageIdentity.Identity>,
                      g: CaptureBytes.Geometry, m: Memory, copies: bool, agrees: bool) returns (end: Outcome)
      requires Valid() && request.Some? && |tokens| == request.value.seqLen && New(m, g, |tokens|, InUse(host.state))
      modifies host`state, this`stored, this`request
      ensures Valid() && LeftAsBefore(old(host.state), host.state)
      ensures |tokens| == 0 || |tokens| % 64 != 0 ==> end.Skipped? && host.state == old(host.state)
      ensures old(request).value.epoch != old(host.state).epoch ==>
        !end.Published? && host.state == old(host.state)
      ensures end.Skipped? && |tokens| > 0 && |tokens| % 64 == 0 ==>
        || old(request).value.epoch != old(host.state).epoch
        || MayBeSkipped(old(host.state), namespace, tokens, identity, g)
      ensures |tokens| > 0 && |tokens| % 64 == 0 && copies ==> (end.Raised? <==> !agrees || !Keyed(identity, |tokens|))
      ensures !end.Published? ==> stored == old(stored) && request == old(request)
      ensures end.Published? ==>
        && end.id !in old(stored) && end.id in stored && stored == old(stored)[end.id := stored[end.id]]
        && Holds(host.state, end.id, namespace, tokens, identity)
        && OnlyHolds(host.state, end.id, namespace, tokens, identity)
        && RowHolds(device, old(request).value.row, stored[end.id], |tokens|)
        && request == Some(old(request).value.(basisId := Some(end.id), basisLength := |tokens|))
    {
      hide HostPrefix.Inv, Stored, RequestOk, New, Grown, BuiltOn, Holds, RowHolds, Represents;
      hide NoRoom;
      if |tokens| == 0 || |tokens| % 64 != 0 { return Skipped; }
      ghost var was := host.state;
      var r := request.value;
      var basis;
      end, basis := PrefixCapture.Checkpoint(host, namespace, tokens, identity, r.basisId, r.basisLength, g, m,
                                             r.epoch == host.state.epoch, copies, agrees);
      if !end.Published? {
        GrownByNone(was, host.state);
        StoredLess(was, host.state, stored, device);
        return;
      }
      OnlyPublished(was, host.state, end.id, namespace, tokens, identity);
      HeldLength(host.state, end.id, namespace, tokens, identity);
      Keep(was, r, end.id, basis, |tokens|);
    }

    // The tensors of what was published, and the basis it now is.
    method Keep(ghost was: State, r: Request, id: nat, basis: Option<Reader>, length: nat)
      requires host.Valid() && Stored(was, stored, device) && request == Some(r) && RequestOk(device, r, stored)
      requires length == r.seqLen && length % 64 == 0 && Grown(was, host.state, Some(id))
      requires BuiltOn(was, host.state.entries[id].snapshot, basis, length)
      requires host.state.entries[id].snapshot.Length() == length
      requires basis.Some? ==> r.basisId == Some(basis.value.entryId)
      modifies this`stored, this`request
      ensures Valid() && id !in old(stored) && id in stored && stored == old(stored)[id := stored[id]]
      ensures RowHolds(device, r.row, stored[id], length)
      ensures request == Some(r.(basisId := Some(id), basisLength := length))
    {
      hide HostPrefix.Inv, Stored, RequestOk, BuiltOn, Represents, IsStateOf, ContentsFit, Carries;
      var c := CopyContents(was, host.state.entries[id].snapshot, r, basis, length);
      StoredGrown(was, host.state, stored, device, id, c);
      RequestMoreStored(device, r, stored, id, c);
      stored := stored[id := c];
      NoteBasis(id, length);
    }

    method CopyContents(ghost was: State, ghost snapshot: Snapshot, r: Request, basis: Option<Reader>, length: nat)
      returns (c: Contents<T>)
      requires Stored(was, stored, device) && RequestOk(device, r, stored) && length == r.seqLen && length % 64 == 0
      requires BuiltOn(was, snapshot, basis, length) && snapshot.Length() == length
      requires basis.Some? ==> r.basisId == Some(basis.value.entryId)
      ensures RowHolds(device, r.row, c, length) && ContentsFit(device, c) && Carries(snapshot, c)
    {
      hide Stored, Inside, Reaches, PartOf, ChunkHolds;
      var chunks := [];
      if basis.Some? {
        BasisHeld(was, stored, device, r, basis.value);
        chunks := stored[basis.value.entryId].chunks;
      }
      ghost var basisChunks := chunks;
      chunks := Capture(device.layers, r.row.table, chunks, BasisLength(basis), length);
      var state := CaptureState(device.pools, r.row.ring, r.row.slot);
      c := Contents(chunks, state);
      RepresentedFits(device.layers, r.row.table, chunks, length);
      CapturedCarries(was, snapshot, basis, basisChunks, c, device.layers, r.row.table);
    }

    // ---- The cache, used by any request ----

    method Lookup(namespace: Namespace, tokens: seq<int>, limit: Option<nat>, count: bool,
                  identity: Option<ImageIdentity.Identity>)
      returns (r: Option<Reader>)
      requires Valid()
      modifies host`state
      ensures Valid()
      ensures Acquired(old(host.state), namespace, tokens, Cap(tokens, limit, identity), identity, count, r, host.state)
    {
      hide HostPrefix.Inv, Stored, RequestOk;
      ghost var s := host.state;
      r := host.Acquire(namespace, tokens, limit, count, identity);
      AcquiredFrom(s, namespace, tokens, Cap(tokens, limit, identity), identity, count, r, host.state);
      StoredLess(s, host.state, stored, device);
    }

    method CloseReader(r: Reader)
      requires Valid() && forall k :: k in host.state.basis ==> host.state.basis[k] != r
      modifies host`state
      ensures Valid() && Closable(old(host.state), r) && host.state == Closed(old(host.state), r)
    {
      hide HostPrefix.Inv, Stored, RequestOk, Closed;
      ghost var s := host.state;
      if r in s.open { ReaderSnapshot(s, r, host.budget, host.maxEntries); }
      host.CloseReader(r);
      ClosedFrom(s, r);
      StoredLess(s, host.state, stored, device);
    }

    method Flush()
      requires Valid()
      modifies host`state
      ensures Valid() && host.state == Flushed(old(host.state))
    {
      hide HostPrefix.Inv, Stored, RequestOk;
      ghost var s := host.state;
      host.Reset();
      StoredLess(s, host.state, stored, device);
    }

    /** Capture, then restore: a checkpoint just published is found again, and a request it is handed
        to holds exactly what the first one held, at every position of every layer and in all its
        state, whatever its own pages, ring and slot; nothing else is written. */
    method RoundTrip(namespace: Namespace, tokens: seq<int>, identity: Option<ImageIdentity.Identity>,
                     g: CaptureBytes.Geometry, m: Memory, row: Row) returns (end: Outcome)
      requires Valid() && request.Some? && |tokens| == request.value.seqLen && New(m, g, |tokens|, InUse(host.state))
      requires RowFits(row, |tokens|)
      modifies this, host`state
      ensures Valid() && LeftAsBefore(old(host.state), host.state)
      ensures |tokens| == 0 || |tokens| % 64 != 0 ==> end.Skipped?
      ensures |tokens| > 0 && |tokens| % 64 == 0 ==> (end.Raised? <==> !Keyed(identity, |tokens|))
      ensures end.Skipped? && |tokens| > 0 && |tokens| % 64 == 0 ==>
        || old(request).value.epoch != old(host.state).epoch
        || MayBeSkipped(old(host.state), namespace, tokens, identity, g)
      ensures end.Published? ==> SamePrefix(old(device), old(request).value.row, device, row, |tokens|)
      ensures end.Published? ==> RestoredOnly(old(device), device, row, |tokens|)
    {
      hide HostPrefix.Inv, Stored, RequestOk, New, RowHolds, SamePrefix, Inside, OnlyHolds, Holds;
      hide MayBeSkipped;
      ghost var was, from := device, request.value.row;
      end := Checkpoint(namespace, tokens, identity, g, m, true, true);
      if !end.Published? { return; }
      ghost var c := stored[end.id];
      Leave();
      HandAgain(namespace, tokens, identity, end.id, row);
      HeldAlike(was, from, device, row, c, |tokens|);
    }

    // Look the checkpoint up, and restore it.
    method HandAgain(namespace: Namespace, tokens: seq<int>, identity: Option<ImageIdentity.Identity>, id: nat,
                     row: Row)
      requires Valid() && request.None? && RowFits(row, |tokens|)
      requires Holds(host.state, id, namespace, tokens, identity)
      requires OnlyHolds(host.state, id, namespace, tokens, identity)
      modifies this`device, this`request, host`state
      ensures Valid() && id in stored && RowHolds(device, row, stored[id], |tokens|)
      ensures RestoredOnly(old(device), device, row, |tokens|) && LeftAsBefore(old(host.state), host.state)
    {
      hide HostPrefix.Inv, Stored, RequestOk, RowHolds, RestoredOnly, Inside, Holds, OnlyHolds;
      ghost var s := host.state;
      var reader := Lookup(namespace, tokens, Some(|tokens|), true, identity);
      HitIs(s, id, namespace, tokens, identity, reader, host.state, host.budget, host.maxEntries);
      Hand(reader.value, row);
      CloseReader(reader.value);
    }
  }
}
