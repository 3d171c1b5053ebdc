// A prompt's checkpoint in the host cache: choose a basis, reserve, copy, publish. However it
// ends, no reader and no reservation of it is left open.
module PrefixCapture {
  import opened C4Layout
  import opened CaptureBytes
  import opened HostPrefix
  import ImageIdentity
  import opened Pages
  import opened Totals

  // The memory a capture is given: the tensors of the chunk that starts at an offset, the token
  // key, and the state besides them.
  datatype Memory = Memory(raw: nat -> Block, index: nat -> Block, tokenKey: Block, state: set<Block>)

  ghost predicate ChunkNew(m: Memory, g: Geometry, offset: nat, length: nat, used: set<Block>) {
    var size: nat := if offset < length then ChunkEnd(offset, length) - offset else 0;
    && m.raw(offset) !in used + {m.tokenKey} + m.state && m.index(offset) !in used + {m.tokenKey} + m.state
    && m.raw(offset).size == size * g.perToken && m.index(offset).size == size / 4 * g.perGroup
  }

  // Each tensor is memory of its own, of the bytes its shape needs.
  ghost predicate New(m: Memory, g: Geometry, length: nat, used: set<Block>) {
    && (forall offset: nat {:trigger m.raw(offset)} {:trigger m.index(offset)} :: ChunkNew(m, g, offset, length, used))
    && (forall a: nat, b: nat :: m.raw(a) != m.index(b))
    && (forall a: nat, b: nat :: a != b ==> m.raw(a) != m.raw(b) && m.index(a) != m.index(b))
    && m.tokenKey !in used + m.state && m.state !! used
    && m.tokenKey.size == length * 8 && Total(m.state, BlockSize) == g.fixed
  }

  lemma NewForFewer(m: Memory, g: Geometry, length: nat, used: set<Block>, fewer: set<Block>)
    requires New(m, g, length, used) && fewer <= used
    ensures New(m, g, length, fewer)
  {
    forall offset: nat ensures ChunkNew(m, g, offset, length, fewer) {
      assert ChunkNew(m, g, offset, length, used);
    }
  }

  ghost function InUse(s: State): set<Block> { AllBlocks(s.entries) + AllBlocks(s.retired) }

  // ---- The segments ----

  ghost predicate Made(m: Memory, upto: nat, b: Block) {
    exists offset: nat :: offset < upto && (b == m.raw(offset) || b == m.index(offset))
  }

  // The new segments so far.
  ghost predicate Building(m: Memory, g: Geometry, basis: seq<Segment>, added: seq<Segment>, start: nat, offset: nat,
                           taken: set<Block>) {
    && Allocated(g, added, start, offset, taken) && Chained(basis + added, offset)
    && forall b :: b in SegmentBlocks(added) ==> Made(m, offset, b)
  }

  lemma SegmentBuilt(m: Memory, g: Geometry, basis: seq<Segment>, added: seq<Segment>, start: nat, offset: nat,
                     length: nat, used: set<Block>, taken: set<Block>, segment: Segment)
    requires New(m, g, length, used) && taken == used + {m.tokenKey} + m.state && start <= offset < length
    requires length % 64 == 0
    requires offset % 64 == 0 && Building(m, g, basis, added, start, offset, taken)
    requires var stop := ChunkEnd(offset, length);
      segment == Segment(offset, stop, m.raw(offset), stop - offset, m.index(offset), (stop - offset) / 4)
    ensures ChunkEnd(offset, length) % 64 == 0
    ensures Building(m, g, basis, added + [segment], start, ChunkEnd(offset, length), taken)
  {
    hide Chained;
    var stop, more := ChunkEnd(offset, length), added + [segment];
    assert stop % 64 == 0;
    assert more[..|more| - 1] == added;
    assert ChunkNew(m, g, offset, length, used);
    PagesAreGroups(offset);
    PagesAreGroups(stop);
    MoreMade(m, added, offset, stop, segment);
    ChainAppended(basis + added, offset, segment);
    assert basis + more == basis + added + [segment];
  }

  lemma MoreMade(m: Memory, added: seq<Segment>, offset: nat, stop: nat, segment: Segment)
    requires offset < stop && segment.raw == m.raw(offset) && segment.index == m.index(offset)
    requires forall b :: b in SegmentBlocks(added) ==> Made(m, offset, b)
    ensures forall b :: b in SegmentBlocks(added + [segment]) ==> Made(m, stop, b)
  {
    var more := added + [segment];
    assert more[..|more| - 1] == added;
    forall b | b in SegmentBlocks(more) ensures Made(m, stop, b) {
      if b in SegmentBlocks(added) {
        assert Made(m, offset, b);
      } else {
        assert b == m.raw(offset) || b == m.index(offset);
      }
    }
  }

  lemma ChainAppended(segments: seq<Segment>, length: nat, segment: Segment)
    requires Chained(segments, length) && segment.start == length < segment.stop && segment.stop % 64 == 0
    requires segment.rawTokens == segment.stop - segment.start
    requires segment.indexGroups == (segment.stop - segment.start) / 4
    ensures Chained(segments + [segment], segment.stop)
  {
    var more := segments + [segment];
    forall i | 0 <= i < |more| ensures ChainedAt(more, i) {
      if i < |segments| { assert ChainedAt(segments, i); }
    }
  }

  lemma NothingBuilt(m: Memory, g: Geometry, basis: seq<Segment>, start: nat, taken: set<Block>)
    requires Chained(basis, start)
    ensures Building(m, g, basis, [], start, start, taken)
  {
    assert basis + [] == basis;
  }

  function Spans(segments: seq<Segment>): (r: seq<(nat, nat)>)
    ensures |r| == |segments|
  {
    seq(|segments|, i requires 0 <= i < |segments| => (segments[i].start, segments[i].stop))
  }

  lemma SpansBoth(a: seq<Segment>, b: seq<Segment>)
    ensures Spans(a + b) == Spans(a) + Spans(b)
  {
  }

  lemma SpanAdded(added: seq<Segment>, segment: Segment, start: nat, offset: nat, length: nat)
    requires offset < length && Spans(added) + Cut(offset, length) == Cut(start, length)
    requires segment.start == offset && segment.stop == ChunkEnd(offset, length)
    ensures Spans(added + [segment]) + Cut(segment.stop, length) == Cut(start, length)
  {
    hide Spans, Cut;
    SpansBoth(added, [segment]);
    OneSpan(segment);
    CutStep(offset, length);
    assert Spans(added) + ([(offset, segment.stop)] + Cut(segment.stop, length))
        == Spans(added) + [(offset, segment.stop)] + Cut(segment.stop, length);
  }

  lemma OneSpan(segment: Segment)
    ensures Spans([segment]) == [(segment.start, segment.stop)]
  {
  }

  /** The segments of the basis, then the rest in chunks: a chain publish accepts. */
  method CopySegments(m: Memory, ghost g: Geometry, basis: seq<Segment>, start: nat, length: nat,
                      ghost used: set<Block>)
    returns (segments: seq<Segment>, ghost added: seq<Segment>)
    requires New(m, g, length, used) && Chained(basis, start) && start <= length && start % 64 == 0 && length % 64 == 0
    ensures segments == basis + added && Chained(segments, length) && Spans(added) == Cut(start, length)
    ensures Allocated(g, added, start, length, used + {m.tokenKey} + m.state)
  {
    hide Allocated, New;
    ghost var taken := used + {m.tokenKey} + m.state;
    segments, added := basis, [];
    var offset := start;
    NothingBuilt(m, g, basis, start, taken);
    while offset < length
      invariant start <= offset <= length && offset % 64 == 0
      invariant segments == basis + added && Building(m, g, basis, added, start, offset, taken)
      invariant Spans(added) + Cut(offset, length) == Cut(start, length)
    {
      var stop := ChunkEnd(offset, length);
      var segment := Segment(offset, stop, m.raw(offset), stop - offset, m.index(offset), (stop - offset) / 4);
      SegmentBuilt(m, g, basis, added, start, offset, length, used, taken, segment);
      SpanAdded(added, segment, start, offset, length);
      segments, added := segments + [segment], added + [segment];
      offset := stop;
    }
  }

  // ---- What the cache holds open in between ----

  ghost predicate LeftAsBefore(was: State, t: State) {
    t.open == was.open && t.held == was.held && t.basis == was.basis
  }

  lemma NothingBetween(was: State, t: State)
    requires Between(was, t, None)
    ensures LeftAsBefore(was, t)
  {
  }

  // No snapshot but those of `was` is there, and no id was given out.
  ghost predicate SnapshotsOf(was: State, s: State) {
    && s.nextId == was.nextId
    && (forall id {:trigger s.entries[id]} :: id in s.entries ==>
          id in was.entries && s.entries[id].snapshot == was.entries[id].snapshot)
    && (forall id {:trigger s.retired[id]} :: id in s.retired ==>
          id in was.retired && s.retired[id].snapshot == was.retired[id].snapshot)
  }

  lemma LessInUse(was: State, s: State)
    requires SnapshotsOf(was, s)
    ensures InUse(s) <= InUse(was)
  {
    BlocksOfLess(was.entries, s.entries);
    BlocksOfLess(was.retired, s.retired);
  }

  lemma BlocksOfLess(was: map<nat, Entry>, now: map<nat, Entry>)
    requires forall id {:trigger now[id]} :: id in now ==> id in was && now[id].snapshot == was[id].snapshot
    ensures AllBlocks(now) <= AllBlocks(was)
  {
    forall b | b in AllBlocks(now) ensures b in AllBlocks(was) {
      var id :| id in now && b in now[id].snapshot.Blocks();
      assert b in was[id].snapshot.Blocks();
    }
  }

  // The state since `was`, with at most one reader more.
  ghost predicate Between(was: State, s: State, previous: Option<Reader>) {
    && s.open == was.open + (if previous.Some? then {previous.value} else {})
    && (previous.Some? ==> previous.value !in was.open)
    && s.held == was.held && s.basis == was.basis && s.epoch == was.epoch && s.serial >= was.serial
    && SnapshotsOf(was, s)
  }

  lemma AcquiredBetween(was: State, s: State, namespace: Namespace, tokens: seq<int>, cap: nat,
                        identity: Option<ImageIdentity.Identity>, r: Option<Reader>, t: State)
    requires Handles(s.open, s.held, s.basis, s.serial) && Between(was, s, None)
    requires Acquired(s, namespace, tokens, cap, identity, false, r, t)
    ensures Between(was, t, r) && t.entries.Keys == s.entries.Keys
    ensures r.Some? ==>
      && Publishable(r.value.snapshot) && r.value.snapshot.tokens <= tokens && OfEntry(was, r.value)
      && (forall k :: k in t.basis ==> t.basis[k] != r.value)
  {
    hide HostPrefix.Chained, HostPrefix.ImageKey, HostPrefix.Cap, HostPrefix.LongerThanBefore, HostPrefix.Opened;
    if r.Some? { AcquiredIsNewest(s, namespace, tokens, cap, identity, false, r.value, t); }
  }

  ghost predicate OfEntry(s: State, r: Reader) { r.entryId in s.entries && s.entries[r.entryId].snapshot == r.snapshot }

  lemma ClosedBetween(was: State, s: State, r: Reader)
    requires Between(was, s, Some(r)) && Closable(s, r)
    requires r.entryId in s.entries ==> s.entries[r.entryId].snapshot == r.snapshot
    ensures Between(was, Closed(s, r), None) && Closed(s, r).entries.Keys == s.entries.Keys
  {
    assert s.open - {r} == was.open;
  }

  // An open reader's snapshot is its entry's.
  lemma ReaderSnapshot(s: State, r: Reader, budget: nat, maxEntries: nat)
    requires Inv(s, budget, maxEntries, 0, 0) && r in s.open
    ensures r.entryId in s.entries ==> s.entries[r.entryId].snapshot == r.snapshot
  {
  }

  // ---- What a reservation holds open ----

  // The state since `was`, with one reservation more, which owns the reader of its basis if any.
  ghost predicate Reserving(was: State, s: State, r: Reservation, previous: Option<Reader>) {
    && s.held == was.held + [r] && s.serial >= r.serial >= was.serial && r.epoch == s.epoch == was.epoch
    && SnapshotsOf(was, s)
    && s.open == was.open + (if previous.Some? then {previous.value} else {})
    && (previous.Some? ==> previous.value !in was.open)
    && s.basis == if previous.Some? then was.basis[r.serial := previous.value] else was.basis
  }

  lemma ReservedBetween(was: State, s: State, size: nat, previous: Option<Reader>, r: Option<Reservation>, t: State,
                        budget: nat, maxEntries: nat)
    requires Between(was, s, previous) && Reserved(s, size, budget, maxEntries, r, t)
    ensures r.None? ==> Between(was, t, previous)
    ensures r.Some? ==>
      && r.value.epoch == t.epoch == was.epoch && t.serial >= r.value.serial >= was.serial
      && t.held == was.held + [r.value]
      && t.open == s.open && t.basis == was.basis && SnapshotsOf(was, t)
  {
    if r.Some? {
      var u, n: nat :| Enough(s, u, n, size, budget, maxEntries) && t == Counted(u, size);
    }
  }

  lemma LastHeld(held: seq<Reservation>, r: Reservation, i: nat, serial: nat)
    requires (forall j :: 0 <= j < |held| ==> held[j].serial < serial) && r.serial >= serial
    requires i <= |held| && (held + [r])[i] == r
    ensures i == |held| && Dropped(held + [r], i) == held
  {
    assert forall j :: 0 <= j < |held| ==> (held + [r])[j] == held[j];
  }

  // Closing a reader changes no snapshot of a live entry.
  lemma ClosedSnapshots(u: State, r: Reader, t: State)
    requires Closable(u, r) && t == Closed(u, r)
    requires r.entryId in u.entries ==> u.entries[r.entryId].snapshot == r.snapshot
    ensures SameLive(u, t)
  {
  }

  ghost predicate SameLive(u: State, t: State) {
    t.epoch == u.epoch && t.serial == u.serial && t.entries.Keys == u.entries.Keys && SnapshotsOf(u, t)
  }

  lemma BasisTaken(basis: map<nat, Reader>, k: nat, r: Reader)
    requires k !in basis
    ensures basis[k := r] - {k} == basis
  {
  }

  // Closing the reservation leaves what was open before.
  lemma ReservationEnds(was: State, s: State, r: Reservation, previous: Option<Reader>, u: State, i: nat, t: State)
    requires Handles(was.open, was.held, was.basis, was.serial) && Reserving(was, s, r, previous)
    requires u.open == s.open && u.held == s.held && u.basis == s.basis
    requires previous.Some? && previous.value.entryId in u.entries ==>
      u.entries[previous.value.entryId].snapshot == previous.value.snapshot
    requires i < |u.held| && u.held[i] == r && Released(u, i, t)
    ensures t.open == was.open && t.held == was.held && t.basis == was.basis && SameLive(u, t)
  {
    LastHeld(was.held, r, i, was.serial);
    var v := Uncounted(u, i);
    assert r.serial !in was.basis;
    if previous.Some? {
      BasisTaken(was.basis, r.serial, previous.value);
      assert t == Closed(v, previous.value);
      ClosedSnapshots(v, previous.value, t);
      assert v.open - {previous.value} == was.open;
    } else {
      assert was.basis - {r.serial} == was.basis;
    }
  }

  // ---- The capture ----

  datatype Captured = Captured(reservation: Reservation, snapshot: Snapshot)

  // An image prompt has a key at this length.
  predicate Keyed(identity: Option<ImageIdentity.Identity>, length: nat) {
    identity.None? || ImageIdentity.KeyAt(identity.value, length).Some?
  }

  // What a finished capture hands to publish: a snapshot of the whole prompt, which takes no more
  // new memory than was reserved.
  ghost predicate Ready(was: State, s: State, c: Captured, previous: Option<Reader>, namespace: Namespace,
                        tokens: seq<int>, identity: Option<ImageIdentity.Identity>) {
    && Reserving(was, s, c.reservation, previous) && Publishable(c.snapshot)
    && c.snapshot.namespace == namespace && c.snapshot.tokens == tokens
    && Keyed(identity, |tokens|) && c.snapshot.imageKey == ImageKey(identity, |tokens|)
    && NewSize(s, c.snapshot) == c.reservation.size && BuiltOn(was, c.snapshot, previous, |tokens|)
  }

  // The segments of the basis, if any, then chunks of the rest.
  ghost predicate BuiltOn(was: State, snapshot: Snapshot, previous: Option<Reader>, length: nat) {
    && BasisLength(previous) <= length
    && (previous.Some? ==>
          OfEntry(was, previous.value) && previous.value.snapshot.segments <= snapshot.segments)
    && Spans(snapshot.segments) == Spans(BasisSegments(previous)) + Cut(BasisLength(previous), length)
  }

  // The longest checkpoint that may share its segments: one this request restored or published.
  method ChooseBasis(host: Cache, namespace: Namespace, tokens: seq<int>, identity: Option<ImageIdentity.Identity>,
                     basisId: Option<nat>, basisLength: nat) returns (complete: bool, previous: Option<Reader>)
    requires host.Valid()
    modifies host`state
    ensures host.Valid() && Between(old(host.state), host.state, previous)
    ensures complete ==> previous.None?
    ensures complete <==> !NoneHolds(old(host.state), namespace, tokens, identity)
    ensures !complete && previous.None? && basisId.Some? && DistinctKeys(old(host.state).entries) ==>
      !BasisLives(old(host.state), basisId.value, basisLength, namespace, tokens, identity)
    ensures host.state.entries.Keys == old(host.state).entries.Keys
    ensures previous.Some? ==>
      && basisId == Some(previous.value.entryId) && OfEntry(old(host.state), previous.value)
      && Publishable(previous.value.snapshot) && previous.value.snapshot.tokens <= tokens
      && forall k :: k in host.state.basis ==> host.state.basis[k] != previous.value
  {
    hide HostPrefix.Inv, NoneHolds, LongestOf, OfEntry, HostPrefix.Publishable, HostPrefix.Cap, BasisLives, SnapshotsOf;
    hide HostPrefix.DistinctKeys;
    ghost var was := host.state;
    previous := AcquireBetween(host, was, namespace, tokens, None, identity);
    NotWhole(was, namespace, tokens, identity, previous);
    if previous.None? && basisId.Some? { NoBasis(was, basisId.value, basisLength, namespace, tokens, identity); }
    if previous.Some? && previous.value.snapshot.Length() == |tokens| {
      CloseBetween(host, was, previous.value);
      return true, None;
    }
    if previous.Some? && Some(previous.value.entryId) != basisId {
      CloseBetween(host, was, previous.value);
      previous := None;
      if basisLength > 0 {
        ghost var s := host.state;
        previous := AcquireBetween(host, was, namespace, tokens, Some(basisLength), identity);
        if basisId.Some? && DistinctKeys(was.entries) {
          BasisFound(was, s, basisId.value, basisLength, namespace, tokens, identity, previous);
        }
        if previous.Some? && Some(previous.value.entryId) != basisId {
          CloseBetween(host, was, previous.value);
          previous := None;
        }
      }
    }
    complete := false;
    if basisLength == 0 && basisId.Some? {
      NoneThatShort(was, basisId.value, namespace, tokens, identity, host.budget, host.maxEntries);
    }
  }

  // The entry the request noted is still there, as long as noted, and it may be reused for the prompt.
  ghost predicate BasisLives(s: State, id: nat, length: nat, namespace: Namespace, tokens: seq<int>,
                             identity: Option<ImageIdentity.Identity>) {
    && id in s.entries && s.entries[id].snapshot.Length() == length && s.entries[id].snapshot.namespace == namespace
    && s.entries[id].snapshot.tokens <= tokens
    && Keyed(identity, length) && s.entries[id].snapshot.imageKey == ImageKey(identity, length)
  }

  lemma NoneThatShort(s: State, id: nat, namespace: Namespace, tokens: seq<int>,
                      identity: Option<ImageIdentity.Identity>, budget: nat, maxEntries: nat)
    requires Inv(s, budget, maxEntries, 0, 0)
    ensures !BasisLives(s, id, 0, namespace, tokens, identity)
  {
  }

  lemma NoBasis(s: State, id: nat, length: nat, namespace: Namespace, tokens: seq<int>,
                identity: Option<ImageIdentity.Identity>)
    requires LongestOf(s, namespace, tokens, Cap(tokens, None, identity), identity, None)
    ensures !BasisLives(s, id, length, namespace, tokens, identity)
  {
    OrderedIds(s.order, s.entries);
    if BasisLives(s, id, length, namespace, tokens, identity) {
      assert Reusable(s.entries[id].snapshot, namespace, tokens, Cap(tokens, None, identity), identity);
    }
  }

  // Looked up by its length, the entry the request noted is the one found.
  lemma BasisFound(was: State, s: State, id: nat, length: nat, namespace: Namespace, tokens: seq<int>,
                   identity: Option<ImageIdentity.Identity>, r: Option<Reader>)
    requires SnapshotsOf(was, s) && s.entries.Keys == was.entries.Keys && DistinctKeys(was.entries)
    requires LongestOf(s, namespace, tokens, Cap(tokens, Some(length), identity), identity, r)
    ensures BasisLives(was, id, length, namespace, tokens, identity) ==> r.Some? && r.value.entryId == id
  {
    hide HostPrefix.LongerThanBefore, HostPrefix.Chained;
    OrderedIds(s.order, s.entries);
    if BasisLives(was, id, length, namespace, tokens, identity) {
      assert Reusable(s.entries[id].snapshot, namespace, tokens, Cap(tokens, Some(length), identity), identity);
      var found := was.entries[r.value.entryId].snapshot;
      assert found.tokens == tokens[..length] == was.entries[id].snapshot.tokens;
    }
  }

  ghost predicate LongestOf(s: State, namespace: Namespace, tokens: seq<int>, cap: nat,
                            identity: Option<ImageIdentity.Identity>, r: Option<Reader>) {
    && Longest(s.entries, s.order, namespace, tokens, cap, identity, if r.Some? then Some(r.value.entryId) else None)
    && Ordered(s.order, s.entries) && (r.Some? ==> OfEntry(s, r.value))
  }

  // The longest checkpoint is the whole prompt's exactly if there is one of the whole prompt.
  lemma NotWhole(s: State, namespace: Namespace, tokens: seq<int>, identity: Option<ImageIdentity.Identity>,
                 r: Option<Reader>)
    requires LongestOf(s, namespace, tokens, Cap(tokens, None, identity), identity, r)
    ensures r.None? || r.value.snapshot.Length() != |tokens| <==> NoneHolds(s, namespace, tokens, identity)
  {
    OrderedIds(s.order, s.entries);
    if r.Some? && r.value.snapshot.Length() == |tokens| {
      assert Holds(s, r.value.entryId, namespace, tokens, identity);
    }
    forall id | Holds(s, id, namespace, tokens, identity) ensures r.Some? && r.value.snapshot.Length() == |tokens| {
      assert Reusable(s.entries[id].snapshot, namespace, tokens, Cap(tokens, None, identity), identity);
    }
  }

  method AcquireBetween(host: Cache, ghost was: State, namespace: Namespace, tokens: seq<int>, limit: Option<nat>,
                        identity: Option<ImageIdentity.Identity>) returns (r: Option<Reader>)
    requires host.Valid() && Between(was, host.state, None)
    modifies host`state
    ensures host.Valid() && Between(was, host.state, r) && host.state.entries.Keys == old(host.state).entries.Keys
    ensures r.Some? ==> Publishable(r.value.snapshot) && r.value.snapshot.tokens <= tokens && OfEntry(was, r.value)
    ensures r.Some? ==> forall k :: k in host.state.basis ==> host.state.basis[k] != r.value
    ensures LongestOf(old(host.state), namespace, tokens, Cap(tokens, limit, identity), identity, r)
  {
    ghost var s := host.state;
    r := host.Acquire(namespace, tokens, limit, false, identity);
    AcquiredBetween(was, s, namespace, tokens, Cap(tokens, limit, identity), identity, r, host.state);
  }

  method CloseBetween(host: Cache, ghost was: State, r: Reader)
    requires host.Valid() && Between(was, host.state, Some(r))
    requires forall k :: k in host.state.basis ==> host.state.basis[k] != r
    modifies host`state
    ensures host.Valid() && Between(was, host.state, None) && host.state.entries.Keys == old(host.state).entries.Keys
  {
    ghost var s := host.state;
    ReaderSnapshot(s, r, host.budget, host.maxEntries);
    host.CloseReader(r);
    ClosedBetween(was, s, r);
  }

  // The rest of the prompt, reserved; the reservation then owns the basis.
  method ReserveRest(host: Cache, ghost was: State, size: nat, previous: Option<Reader>)
    returns (r: Option<Reservation>)
    requires host.Valid() && Between(was, host.state, previous) && Handles(was.open, was.held, was.basis, was.serial)
    requires previous.Some? ==> forall k :: k in host.state.basis ==> host.state.basis[k] != previous.value
    modifies host`state
    ensures host.Valid()
    ensures r.None? ==>
      Between(was, host.state, None) && !HasRoom(old(host.state), size, host.budget, host.maxEntries)
    ensures r.Some? ==> Reserving(was, host.state, r.value, previous) && r.value.size == size
  {
    ghost var s := host.state;
    r := host.Reserve(size);
    ReservedBetween(was, s, size, previous, r, host.state, host.budget, host.maxEntries);
    ReservedIffRoom(s, size, host.budget, host.maxEntries, r, host.state);
    if r.None? {
      if previous.Some? { CloseBetween(host, was, previous.value); }
    } else if previous.Some? {
      HandBasis(host, was, r.value, previous.value);
    }
  }

  // Some state with these entries and with the readers of `was` and the basis has no room for the size.
  ghost predicate NoRoom(was: State, size: nat, previous: Option<Reader>, budget: nat, maxEntries: nat) {
    exists s :: Inv(s, budget, maxEntries, 0, 0) && Between(was, s, previous) && s.entries.Keys == was.entries.Keys
      && !HasRoom(s, size, budget, maxEntries)
  }

  // There is some basis on which a capture of this length has no room.
  ghost predicate Crowded(was: State, g: Geometry, length: nat, budget: nat, maxEntries: nat) {
    exists basis: Option<Reader> ::
      BasisLength(basis) <= length
      && NoRoom(was, CheckpointBytes(g, length - BasisLength(basis), length), basis, budget, maxEntries)
  }

  method HandBasis(host: Cache, ghost was: State, r: Reservation, basis: Reader)
    requires host.Valid() && forall k :: k in host.state.basis ==> host.state.basis[k] != basis
    requires var s := host.state;
      && s.held == was.held + [r] && s.serial >= r.serial >= was.serial && r.epoch == s.epoch == was.epoch
      && SnapshotsOf(was, s)
      && s.open == was.open + {basis} && basis !in was.open && s.basis == was.basis
    requires Handles(was.open, was.held, was.basis, was.serial)
    modifies host`state
    ensures host.Valid() && Reserving(was, host.state, r, Some(basis))
  {
    assert r in host.state.held by { assert host.state.held[|was.held|] == r; }
    host.OwnBasis(r, basis);
  }

  function BasisLength(previous: Option<Reader>): nat { if previous.None? then 0 else previous.value.snapshot.Length() }

  function BasisSegments(previous: Option<Reader>): seq<Segment> {
    if previous.None? then [] else previous.value.snapshot.segments
  }

  // The segments of the basis stay in use while its reader is open.
  lemma BasisShared(s: State, previous: Option<Reader>, budget: nat, maxEntries: nat)
    requires Inv(s, budget, maxEntries, 0, 0) && (previous.Some? ==> previous.value in s.open)
    ensures SegmentBlocks(BasisSegments(previous)) <= InUse(s)
  {
    if previous.Some? { BasisInUse(s, previous.value, budget, maxEntries, 0, 0); }
  }

  // A snapshot of the basis' segments and new memory weighs what was reserved for it.
  lemma CapturedIsReady(was: State, s: State, g: Geometry, m: Memory, added: seq<Segment>, c: Captured,
                        previous: Option<Reader>, namespace: Namespace, tokens: seq<int>,
                        identity: Option<ImageIdentity.Identity>)
    requires SegmentBlocks(BasisSegments(previous)) <= InUse(s)
    requires Reserving(was, s, c.reservation, previous) && New(m, g, |tokens|, InUse(s))
    requires BuiltOn(was, c.snapshot, previous, |tokens|)
    requires |tokens| > 0 && |tokens| % 64 == 0 && Keyed(identity, |tokens|) && BasisLength(previous) % 64 == 0
    requires Chained(BasisSegments(previous) + added, |tokens|)
    requires Allocated(g, added, BasisLength(previous), |tokens|, InUse(s) + {m.tokenKey} + m.state)
    requires c.snapshot == Snapshot(namespace, tokens, m.tokenKey, BasisSegments(previous) + added, m.state,
                                    ImageKey(identity, |tokens|))
    requires BasisLength(previous) <= |tokens|
    requires c.reservation.size == CheckpointBytes(g, |tokens| - BasisLength(previous), |tokens|)
    ensures Ready(was, s, c, previous, namespace, tokens, identity)
  {
    hide Reserving, BuiltOn, HostPrefix.Chained, HostPrefix.NewSize, CaptureBytes.Allocated;
    hide CaptureBytes.SegmentBlocks, HostPrefix.AllBlocks, CaptureBytes.CheckpointBytes;
    PagesAreGroups(BasisLength(previous));
    CaptureAddsItsReservation(s, g, BasisSegments(previous), added, BasisLength(previous), c.snapshot);
  }

  lemma HandlesOf(s: State, budget: nat, maxEntries: nat)
    requires Inv(s, budget, maxEntries, 0, 0)
    ensures Handles(s.open, s.held, s.basis, s.serial)
  {
  }

  /** capture_prefix: nothing, or a reservation and a snapshot of the whole prompt that is ready
      to be published; a copy that fails, or a key that does not exist, leaves nothing open. */
  method CapturePrefix(host: Cache, namespace: Namespace, tokens: seq<int>, identity: Option<ImageIdentity.Identity>,
                       basisId: Option<nat>, basisLength: nat, g: Geometry, m: Memory, copies: bool)
    returns (raised: bool, captured: Option<Captured>, previous: Option<Reader>)
    requires host.Valid() && |tokens| > 0 && |tokens| % 64 == 0 && New(m, g, |tokens|, InUse(host.state))
    modifies host`state
    ensures host.Valid() && (raised ==> captured.None?)
    ensures captured.None? ==> LeftAsBefore(old(host.state), host.state) && SnapshotsOf(old(host.state), host.state)
    ensures captured.Some? || raised ==> NoneHolds(old(host.state), namespace, tokens, identity)
    ensures captured.Some? ==> copies && Keyed(identity, |tokens|)
    ensures raised ==> !(copies && Keyed(identity, |tokens|))
    ensures captured.None? && !raised && NoneHolds(old(host.state), namespace, tokens, identity) ==>
      BasisLength(previous) <= |tokens|
      && NoRoom(old(host.state), CheckpointBytes(g, |tokens| - BasisLength(previous), |tokens|), previous, host.budget,
                host.maxEntries)
    ensures captured.Some? && previous.Some? ==> basisId == Some(previous.value.entryId)
    ensures captured.Some? ==> Ready(old(host.state), host.state, captured.value, previous, namespace, tokens, identity)
  {
    hide HostPrefix.Inv, NoneHolds, Ready, New, InUse, CheckpointBytes, HostPrefix.HasRoom;
    ghost var was := host.state;
    HandlesOf(was, host.budget, host.maxEntries);
    var complete, basis := ChooseBasis(host, namespace, tokens, identity, basisId, basisLength);
    previous := basis;
    if complete {
      NothingBetween(was, host.state);
      return false, None, previous;
    }
    var size := CheckpointBytes(g, |tokens| - BasisLength(basis), |tokens|);
    var reservation := ReserveRest(host, was, size, basis);
    if reservation.None? {
      NothingBetween(was, host.state);
      return false, None, previous;
    }
    if !copies || !Keyed(identity, |tokens|) {
      CloseReserving(host, was, reservation.value, previous);
      return true, None, previous;
    }
    var snapshot := CopySnapshot(host, was, namespace, tokens, identity, g, m, basis, reservation.value);
    return false, Some(Captured(reservation.value, snapshot)), previous;
  }

  method CopySnapshot(host: Cache, ghost was: State, namespace: Namespace, tokens: seq<int>,
                      identity: Option<ImageIdentity.Identity>, ghost g: Geometry, m: Memory, previous: Option<Reader>,
                      ghost r: Reservation) returns (snapshot: Snapshot)
    requires host.Valid() && Reserving(was, host.state, r, previous) && New(m, g, |tokens|, InUse(was))
    requires |tokens| > 0 && |tokens| % 64 == 0 && Keyed(identity, |tokens|) && BasisLength(previous) % 64 == 0
    requires BasisLength(previous) <= |tokens| && Chained(BasisSegments(previous), BasisLength(previous))
    requires previous.Some? ==> OfEntry(was, previous.value)
    requires r.size == CheckpointBytes(g, |tokens| - BasisLength(previous), |tokens|)
    ensures Ready(was, host.state, Captured(r, snapshot), previous, namespace, tokens, identity)
  {
    LessInUse(was, host.state);
    NewForFewer(m, g, |tokens|, InUse(was), InUse(host.state));
    var segments, added := CopySegments(m, g, BasisSegments(previous), BasisLength(previous), |tokens|,
                                        InUse(host.state));
    SpansBoth(BasisSegments(previous), added);
    snapshot := Snapshot(namespace, tokens, m.tokenKey, segments, m.state, ImageKey(identity, |tokens|));
    BasisShared(host.state, previous, host.budget, host.maxEntries);
    CapturedIsReady(was, host.state, g, m, added, Captured(r, snapshot), previous, namespace, tokens, identity);
  }

  method CloseReserving(host: Cache, ghost was: State, r: Reservation, ghost previous: Option<Reader>)
    requires host.Valid() && Handles(was.open, was.held, was.basis, was.serial)
    requires Reserving(was, host.state, r, previous)
    modifies host`state
    ensures host.Valid() && LeftAsBefore(was, host.state) && SnapshotsOf(was, host.state)
  {
    ghost var s := host.state;
    assert r in s.held by { assert s.held[|was.held|] == r; }
    if previous.Some? { ReaderSnapshot(s, previous.value, host.budget, host.maxEntries); }
    host.CloseReservation(r);
    ReservingEnds(was, s, r, previous, host.state);
  }

  lemma ReservingEnds(was: State, s: State, r: Reservation, previous: Option<Reader>, t: State)
    requires Handles(was.open, was.held, was.basis, was.serial) && Reserving(was, s, r, previous)
    requires previous.Some? && previous.value.entryId in s.entries ==>
      s.entries[previous.value.entryId].snapshot == previous.value.snapshot
    requires exists i :: 0 <= i < |s.held| && s.held[i] == r && Released(s, i, t)
    ensures LeftAsBefore(was, t) && SnapshotsOf(was, t)
  {
    var i :| 0 <= i < |s.held| && s.held[i] == r && Released(s, i, t);
    ReservationEnds(was, s, r, previous, s, i, t);
  }

  // ---- Publishing it ----

  datatype Outcome = Raised | Skipped | Published(id: nat)

  ghost predicate Holds(s: State, id: nat, namespace: Namespace, tokens: seq<int>,
                        identity: Option<ImageIdentity.Identity>) {
    && id in s.entries && s.entries[id].snapshot.namespace == namespace && s.entries[id].snapshot.tokens == tokens
    && Keyed(identity, |tokens|) && s.entries[id].snapshot.imageKey == ImageKey(identity, |tokens|)
  }

  // No entry is a checkpoint of the whole prompt.
  ghost predicate NoneHolds(s: State, namespace: Namespace, tokens: seq<int>,
                            identity: Option<ImageIdentity.Identity>) {
    forall id {:trigger s.entries[id]} :: id in s.entries ==> !Holds(s, id, namespace, tokens, identity)
  }

  lemma PublishEnds(was: State, s: State, c: Captured, previous: Option<Reader>, namespace: Namespace, tokens: seq<int>,
                    identity: Option<ImageIdentity.Identity>, id: Option<nat>, t: State)
    requires Handles(was.open, was.held, was.basis, was.serial) && BelowNext(s, previous)
    requires Ready(was, s, c, previous, namespace, tokens, identity)
    requires PublishedBy(s, c.reservation, c.snapshot, true, id, t)
    ensures id.Some? && LeftAsBefore(was, t) && Holds(t, id.value, namespace, tokens, identity)
    ensures Grown(was, t, id) && t.entries[id.value].snapshot == c.snapshot
  {
    assert c.reservation in s.held by { assert s.held[|was.held|] == c.reservation; }
    AddedEnds(was, s, c, previous, t);
  }

  // At most one snapshot more than in `was`, under the next id.
  ghost predicate Grown(was: State, t: State, id: Option<nat>) {
    && t.nextId == was.nextId + (if id.Some? then 1 else 0)
    && (id.Some? ==> id.value == was.nextId + 1 && id.value in t.entries)
    && (forall k {:trigger t.entries[k]} :: k in t.entries ==>
          Some(k) == id || (k in was.entries && t.entries[k].snapshot == was.entries[k].snapshot))
    && (forall k {:trigger t.retired[k]} :: k in t.retired ==>
          k in was.retired && t.retired[k].snapshot == was.retired[k].snapshot)
  }

  // The next id is no entry's, and no reader's.
  ghost predicate BelowNext(s: State, previous: Option<Reader>) {
    && s.nextId + 1 !in s.entries
    && (previous.Some? ==>
          && previous.value.entryId != s.nextId + 1
          && (previous.value.entryId in s.entries ==>
              s.entries[previous.value.entryId].snapshot == previous.value.snapshot))
  }

  lemma ReaderBelowNext(s: State, previous: Option<Reader>, budget: nat, maxEntries: nat)
    requires Inv(s, budget, maxEntries, 0, 0) && (previous.Some? ==> previous.value in s.open)
    ensures BelowNext(s, previous)
  {
    FreshId(s.entries, s.retired, s.open, s.nextId);
    if previous.Some? { ReaderSnapshot(s, previous.value, budget, maxEntries); }
  }

  lemma AddedEnds(was: State, s: State, c: Captured, previous: Option<Reader>, t: State)
    requires Handles(was.open, was.held, was.basis, was.serial) && Reserving(was, s, c.reservation, previous)
    requires BelowNext(s, previous)
    requires exists i :: 0 <= i < |s.held| && s.held[i] == c.reservation && Released(Added(s, c.snapshot), i, t)
    ensures LeftAsBefore(was, t) && s.nextId + 1 in t.entries && t.entries[s.nextId + 1].snapshot == c.snapshot
    ensures Grown(was, t, Some(s.nextId + 1))
  {
    hide Grown, SameLive, HostPrefix.Handles, HostPrefix.Released, BelowNext, HostPrefix.Added;
    AddedBelow(s, c.snapshot, previous);
    assert SnapshotsOf(was, s);
    hide Reserving, SnapshotsOf;
    var i :| 0 <= i < |s.held| && s.held[i] == c.reservation && Released(Added(s, c.snapshot), i, t);
    ReservationEnds(was, s, c.reservation, previous, Added(s, c.snapshot), i, t);
    GrownBy(was, s, c.snapshot, t);
  }

  lemma AddedBelow(s: State, snapshot: Snapshot, previous: Option<Reader>)
    requires BelowNext(s, previous)
    ensures s.nextId + 1 !in s.entries
    ensures var u := Added(s, snapshot);
      && u.open == s.open && u.held == s.held && u.basis == s.basis
      && (previous.Some? && previous.value.entryId in u.entries ==>
            u.entries[previous.value.entryId].snapshot == previous.value.snapshot)
  {
  }

  lemma GrownBy(was: State, s: State, snapshot: Snapshot, t: State)
    requires SnapshotsOf(was, s) && s.nextId + 1 !in s.entries && SameLive(Added(s, snapshot), t)
    ensures s.nextId + 1 in t.entries && t.entries[s.nextId + 1].snapshot == snapshot
    ensures Grown(was, t, Some(s.nextId + 1))
  {
  }

  lemma NoneGrown(was: State, t: State)
    requires t == was || SnapshotsOf(was, t)
    ensures Grown(was, t, None)
  {
  }

  lemma IsReserving(was: State, s: State, c: Captured, previous: Option<Reader>, namespace: Namespace,
                    tokens: seq<int>, identity: Option<ImageIdentity.Identity>)
    requires Ready(was, s, c, previous, namespace, tokens, identity)
    ensures Reserving(was, s, c.reservation, previous)
  {
  }

  /** The checkpoint of a finished prefill: whatever raises, and whatever is skipped, no reader and
      no reservation stays behind; if nothing outside raises, publish does not raise either. */
  method Checkpoint(host: Cache, namespace: Namespace, tokens: seq<int>, identity: Option<ImageIdentity.Identity>,
                    basisId: Option<nat>, basisLength: nat, g: Geometry, m: Memory, current: bool, copies: bool,
                    agrees: bool)
    returns (end: Outcome, basis: Option<Reader>)
    requires host.Valid() && |tokens| > 0 && |tokens| % 64 == 0 && New(m, g, |tokens|, InUse(host.state))
    modifies host`state
    ensures host.Valid() && LeftAsBefore(old(host.state), host.state)
    ensures !agrees || !Keyed(identity, |tokens|) ==> end.Raised?
    ensures copies && end.Raised? ==> !agrees || !Keyed(identity, |tokens|)
    ensures !current ==> !end.Published? && host.state == old(host.state)
    ensures end.Published? ==> Holds(host.state, end.id, namespace, tokens, identity)
    ensures Grown(old(host.state), host.state, if end.Published? then Some(end.id) else None)
    ensures end.Published? ==> BuiltOn(old(host.state), host.state.entries[end.id].snapshot, basis, |tokens|)
    ensures end.Published? && basis.Some? ==> basisId == Some(basis.value.entryId)
    ensures end.Published? ==> NoneHolds(old(host.state), namespace, tokens, identity)
    ensures end.Published? ==> current && copies
    ensures end.Skipped? && current && NoneHolds(old(host.state), namespace, tokens, identity) ==>
      BasisLength(basis) <= |tokens|
      && NoRoom(old(host.state), CheckpointBytes(g, |tokens| - BasisLength(basis), |tokens|), basis, host.budget,
                host.maxEntries)
  {
    hide NoRoom, CheckpointBytes, NoneHolds, Grown, SnapshotsOf, Ready, BuiltOn, Reserving, New, InUse;
    hide HostPrefix.Inv;
    ghost var was := host.state;
    HandlesOf(was, host.budget, host.maxEntries);
    NoneGrown(was, was);
    if !current { return if agrees && Keyed(identity, |tokens|) then Skipped else Raised, None; }
    var raised, captured, previous := CapturePrefix(host, namespace, tokens, identity, basisId, basisLength, g, m,
                                                    copies);
    if captured.None? { NoneGrown(was, host.state); }
    if raised { return Raised, None; }
    if captured.None? { return if agrees && Keyed(identity, |tokens|) then Skipped else Raised, previous; }
    if !agrees {
      IsReserving(was, host.state, captured.value, previous, namespace, tokens, identity);
      CloseReserving(host, was, captured.value.reservation, previous);
      NoneGrown(was, host.state);
      return Raised, None;
    }
    var id := PublishCaptured(host, was, captured.value, previous, namespace, tokens, identity);
    return Published(id), previous;
  }

  method PublishCaptured(host: Cache, ghost was: State, c: Captured, ghost previous: Option<Reader>,
                         ghost namespace: Namespace, ghost tokens: seq<int>,
                         ghost identity: Option<ImageIdentity.Identity>) returns (id: nat)
    requires host.Valid() && Handles(was.open, was.held, was.basis, was.serial)
    requires Ready(was, host.state, c, previous, namespace, tokens, identity)
    modifies host`state
    ensures host.Valid() && LeftAsBefore(was, host.state) && Holds(host.state, id, namespace, tokens, identity)
    ensures Grown(was, host.state, Some(id)) && BuiltOn(was, host.state.entries[id].snapshot, previous, |tokens|)
  {
    ghost var s := host.state;
    ReaderBelowNext(s, previous, host.budget, host.maxEntries);
    var published := host.Publish(c.reservation, c.snapshot, true);
    PublishEnds(was, s, c, previous, namespace, tokens, identity, published, host.state);
    return published.value;
  }

  /** What was published is found: a prompt that begins with its tokens, of its namespace and image
      key, is given a checkpoint at least as long. */
  lemma PublishedIsFound(s: State, id: nat, namespace: Namespace, tokens: seq<int>,
                         identity: Option<ImageIdentity.Identity>, prompt: seq<int>, cap: nat,
                         promptIdentity: Option<ImageIdentity.Identity>, best: Option<nat>)
    requires Ordered(s.order, s.entries) && Holds(s, id, namespace, tokens, identity)
    requires tokens <= prompt && |tokens| <= cap && Keyed(promptIdentity, |tokens|)
    requires ImageKey(promptIdentity, |tokens|) == ImageKey(identity, |tokens|)
    requires Longest(s.entries, s.order, namespace, prompt, cap, promptIdentity, best)
    ensures best.Some? && best.value in s.entries
    ensures |tokens| <= s.entries[best.value].snapshot.Length() <= cap
    ensures s.entries[best.value].snapshot.tokens <= prompt
  {
    OrderedIds(s.order, s.entries);
    assert Reusable(s.entries[id].snapshot, namespace, prompt, cap, promptIdentity);
  }
}
