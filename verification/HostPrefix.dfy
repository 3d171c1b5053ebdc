// The bounded host cache of prefix snapshots: reservations, pinned readers, epochs, and
// segments shared by several snapshots counted once.
module HostPrefix {
  import opened C4Layout
  import Counting
  import ImageIdentity
  import opened Totals

  // A piece of host memory: a tensor storage or a token key, by identity.
  datatype Block = Storage(ptr: nat, size: nat) | TokenKey(id: nat, size: nat)

  datatype Namespace = Namespace(model: string, epoch: nat, extra: string)

  // raw and index carry their token and group counts beside their memory.
  datatype Segment = Segment(start: nat, stop: nat, raw: Block, rawTokens: nat, index: Block, indexGroups: nat)

  datatype Snapshot = Snapshot(namespace: Namespace, tokens: seq<int>, tokenKey: Block, segments: seq<Segment>,
                               state: set<Block>, imageKey: Option<ImageIdentity.Key>)
  {
    function Length(): nat { |tokens| }

    function Blocks(): set<Block> {
      {tokenKey} + (set i | 0 <= i < |segments| :: segments[i].raw)
        + (set i | 0 <= i < |segments| :: segments[i].index) + state
    }
  }

  datatype Entry = Entry(snapshot: Snapshot, readers: nat)

  function BlockSize(b: Block): nat { b.size }

  function AllBlocks(entries: map<nat, Entry>): set<Block> {
    set id, b | id in entries && b in entries[id].snapshot.Blocks() :: b
  }

  // Memory of the live and retired snapshots, shared pieces once.
  ghost function Used(entries: map<nat, Entry>, retired: map<nat, Entry>): nat {
    Total(AllBlocks(entries) + AllBlocks(retired), BlockSize)
  }

  lemma UsedLess(entries: map<nat, Entry>, retired: map<nat, Entry>, fewer: map<nat, Entry>,
                 fewerRetired: map<nat, Entry>)
    requires AllBlocks(fewer) + AllBlocks(fewerRetired) <= AllBlocks(entries) + AllBlocks(retired)
    ensures Used(fewer, fewerRetired) <= Used(entries, retired)
  {
    TotalSubset(AllBlocks(fewer) + AllBlocks(fewerRetired), AllBlocks(entries) + AllBlocks(retired), BlockSize);
  }

  // What a segment list must be to be published: whole pages without a gap up to the length.
  predicate Chained(segments: seq<Segment>, length: nat) {
    && (forall i {:trigger ChainedAt(segments, i)} :: 0 <= i < |segments| ==> ChainedAt(segments, i))
    && Stop(segments, |segments|) == length
  }

  predicate ChainedAt(segments: seq<Segment>, i: nat)
    requires i < |segments|
  {
    && segments[i].start == Stop(segments, i) && segments[i].start < segments[i].stop && segments[i].stop % 64 == 0
    && segments[i].rawTokens == segments[i].stop - segments[i].start
    && segments[i].indexGroups == (segments[i].stop - segments[i].start) / 4
  }

  function Stop(segments: seq<Segment>, i: nat): nat
    requires i <= |segments|
  {
    if i == 0 then 0 else segments[i - 1].stop
  }

  // A whole number of pages, with as many raw tokens and a quarter as many index groups.
  ghost predicate Whole(s: Segment) {
    && s.start < s.stop && s.start % 64 == 0 && s.stop % 64 == 0
    && s.rawTokens == s.stop - s.start && s.indexGroups == (s.stop - s.start) / 4
  }

  ghost predicate CoveredBy(segments: seq<Segment>, p: nat) {
    exists i {:trigger segments[i]} :: 0 <= i < |segments| && segments[i].start <= p < segments[i].stop
  }

  // Whole segments, in order, that hold every position below the length once, and none behind it.
  ghost predicate Covers(segments: seq<Segment>, length: nat) {
    && (forall i {:trigger segments[i]} :: 0 <= i < |segments| ==> Whole(segments[i]) && segments[i].stop <= length)
    && (forall i, j :: 0 <= i < j < |segments| ==> segments[i].stop <= segments[j].start)
    && (forall p: nat :: p < length ==> CoveredBy(segments, p))
  }

  /** A segment list passes publish's checks exactly if it covers the length. */
  lemma ChainedIffCovers(segments: seq<Segment>, length: nat)
    ensures Chained(segments, length) <==> Covers(segments, length)
  {
    hide Whole, CoveredBy, ChainedAt, Stop;
    if Chained(segments, length) {
      ChainOrdered(segments, |segments|);
      forall p: nat | p < length ensures CoveredBy(segments, p) { ChainHolds(segments, |segments|, p); }
    }
    if Covers(segments, length) {
      forall i | 0 <= i < |segments| ensures ChainedAt(segments, i) { CoverAdjoins(segments, length, i); }
      CoverAdjoins(segments, length, |segments|);
    }
  }

  // Whatever is covered behind a segment, the next one covers.
  lemma CoverAdjoins(segments: seq<Segment>, length: nat, i: nat)
    requires Covers(segments, length) && i <= |segments|
    ensures if i < |segments| then ChainedAt(segments, i) else Stop(segments, i) == length
  {
    if Stop(segments, i) < length { assert CoveredBy(segments, Stop(segments, i)); }
  }

  // The first n segments of a chain: in order, and whole.
  lemma {:induction false} ChainOrdered(segments: seq<Segment>, n: nat)
    requires n <= |segments| && forall i {:trigger ChainedAt(segments, i)} :: 0 <= i < n ==> ChainedAt(segments, i)
    ensures Stop(segments, n) % 64 == 0
    ensures forall i {:trigger segments[i]} :: 0 <= i < n ==>
      Whole(segments[i]) && segments[i].stop <= Stop(segments, n)
    ensures forall i, j :: 0 <= i < j < n ==> segments[i].stop <= segments[j].start
  {
    if n > 0 {
      hide Whole;
      ChainOrdered(segments, n - 1);
      WholeAt(segments, n - 1);
    }
  }

  lemma WholeAt(segments: seq<Segment>, i: nat)
    requires i < |segments| && ChainedAt(segments, i) && Stop(segments, i) % 64 == 0
    ensures Whole(segments[i]) && Stop(segments, i) <= segments[i].start
    ensures Stop(segments, i) < Stop(segments, i + 1) == segments[i].stop && Stop(segments, i + 1) % 64 == 0
  {
  }

  lemma {:induction false} ChainHolds(segments: seq<Segment>, n: nat, p: nat)
    requires n <= |segments| && forall i {:trigger ChainedAt(segments, i)} :: 0 <= i < n ==> ChainedAt(segments, i)
    requires p < Stop(segments, n)
    ensures CoveredBy(segments, p)
  {
    if n > 0 {
      assert ChainedAt(segments, n - 1);
      if p < Stop(segments, n - 1) { ChainHolds(segments, n - 1, p); }
    }
  }

  // A reader or a reservation is a handle; it is open while the cache lists it.
  datatype Reader = Reader(serial: nat, entryId: nat, snapshot: Snapshot)
  datatype Reservation = Reservation(serial: nat, size: nat, epoch: nat)

  // Open readers of one entry.
  ghost function ReadersOf(open: set<Reader>, id: nat): set<Reader> { set r | r in open && r.entryId == id }
  ghost function Pins(open: set<Reader>, id: nat): nat { |ReadersOf(open, id)| }

  // Every entry has as many readers as are open on it, every open reader's snapshot is there,
  // and a retired entry is there for its readers only.
  ghost predicate Tables(entries: map<nat, Entry>, retired: map<nat, Entry>, open: set<Reader>, nextId: nat) {
    && entries.Keys !! retired.Keys
    && (forall id {:trigger entries[id]} :: id in entries ==> Kept(id, entries[id], open, nextId))
    && (forall id {:trigger retired[id]} :: id in retired ==>
          Kept(id, retired[id], open, nextId) && retired[id].readers > 0)
    && (forall r {:trigger r in open} :: r in open ==>
          || (r.entryId in entries && entries[r.entryId].snapshot == r.snapshot)
          || (r.entryId in retired && retired[r.entryId].snapshot == r.snapshot))
  }

  ghost predicate Kept(id: nat, e: Entry, open: set<Reader>, nextId: nat) {
    id <= nextId && e.readers == Pins(open, id)
  }

  ghost predicate Published(entries: map<nat, Entry>) {
    forall id {:trigger entries[id]} :: id in entries ==> Publishable(entries[id].snapshot)
  }

  predicate Publishable(s: Snapshot) { s.Length() > 0 && s.Length() % 64 == 0 && Chained(s.segments, s.Length()) }

  lemma PinsAdd(open: set<Reader>, r: Reader, id: nat)
    requires r !in open
    ensures Pins(open + {r}, id) == Pins(open, id) + if r.entryId == id then 1 else 0
  {
    assert ReadersOf(open + {r}, id) == if r.entryId == id then ReadersOf(open, id) + {r} else ReadersOf(open, id);
  }

  lemma PinsRemove(open: set<Reader>, r: Reader, id: nat)
    requires r in open
    ensures Pins(open, id) == Pins(open - {r}, id) + if r.entryId == id then 1 else 0
  {
    PinsAdd(open - {r}, r, id);
    assert open - {r} + {r} == open;
  }

  // ---- What each operation keeps ----

  lemma UnreadDropped(entries: map<nat, Entry>, retired: map<nat, Entry>, open: set<Reader>, nextId: nat, id: nat)
    requires Tables(entries, retired, open, nextId) && id in entries && entries[id].readers == 0
    ensures Tables(entries - {id}, retired, open, nextId) && Used(entries - {id}, retired) <= Used(entries, retired)
  {
    forall r | r in open ensures r.entryId != id {
      assert Kept(id, entries[id], open, nextId);
      assert r.entryId == id ==> r in ReadersOf(open, id);
    }
    UsedLess(entries, retired, entries - {id}, retired);
  }

  lemma SameSnapshots(a: map<nat, Entry>, b: map<nat, Entry>)
    requires a.Keys == b.Keys
    requires forall id {:trigger a[id]} {:trigger b[id]} :: id in a ==> a[id].snapshot == b[id].snapshot
    ensures AllBlocks(a) == AllBlocks(b)
  {
    forall x ensures x in AllBlocks(a) <==> x in AllBlocks(b) {
      if x in AllBlocks(a) {
        var id :| id in a && x in a[id].snapshot.Blocks();
        assert x in b[id].snapshot.Blocks();
      }
      if x in AllBlocks(b) {
        var id :| id in b && x in b[id].snapshot.Blocks();
        assert x in a[id].snapshot.Blocks();
      }
    }
  }

  lemma BlocksAdded(m: map<nat, Entry>, id: nat, e: Entry)
    requires id !in m
    ensures AllBlocks(m[id := e]) == AllBlocks(m) + e.snapshot.Blocks()
  {
    var more := m[id := e];
    forall x ensures x in AllBlocks(more) <==> x in AllBlocks(m) + e.snapshot.Blocks() {
      if x in AllBlocks(m) {
        var k :| k in m && x in m[k].snapshot.Blocks();
        assert x in more[k].snapshot.Blocks();
      }
      if x in e.snapshot.Blocks() { assert x in more[id].snapshot.Blocks(); }
    }
  }

  // One more reader, which is new.
  lemma ReaderOpened(entries: map<nat, Entry>, retired: map<nat, Entry>, open: set<Reader>, nextId: nat, r: Reader)
    requires Tables(entries, retired, open, nextId) && r !in open
    requires r.entryId in entries && entries[r.entryId].snapshot == r.snapshot
    ensures Tables(entries[r.entryId := Entry(r.snapshot, entries[r.entryId].readers + 1)], retired, open + {r}, nextId)
    ensures AllBlocks(entries[r.entryId := Entry(r.snapshot, entries[r.entryId].readers + 1)]) == AllBlocks(entries)
  {
    var more := entries[r.entryId := Entry(r.snapshot, entries[r.entryId].readers + 1)];
    SameSnapshots(entries, more);
    forall id: nat ensures Pins(open + {r}, id) == Pins(open, id) + if r.entryId == id then 1 else 0 {
      PinsAdd(open, r, id);
    }
    forall id | id in more ensures Kept(id, more[id], open + {r}, nextId) {
      assert Kept(id, entries[id], open, nextId);
    }
    forall id | id in retired ensures Kept(id, retired[id], open + {r}, nextId) {
      assert Kept(id, retired[id], open, nextId);
    }
  }

  // One reader less of a live entry.
  lemma ReaderClosed(entries: map<nat, Entry>, retired: map<nat, Entry>, open: set<Reader>, nextId: nat, r: Reader)
    requires Tables(entries, retired, open, nextId) && r in open && r.entryId in entries
    ensures entries[r.entryId].readers > 0
    ensures Tables(LessLive(entries, r), retired, open - {r}, nextId)
    ensures AllBlocks(LessLive(entries, r)) == AllBlocks(entries)
    ensures Published(entries) ==> Published(LessLive(entries, r))
  {
    PinsRemove(open, r, r.entryId);
    assert Kept(r.entryId, entries[r.entryId], open, nextId);
    var less := LessLive(entries, r);
    SameSnapshots(entries, less);
    forall id: nat ensures Pins(open, id) == Pins(open - {r}, id) + if r.entryId == id then 1 else 0 {
      PinsRemove(open, r, id);
    }
    forall id | id in less ensures Kept(id, less[id], open - {r}, nextId) {
      assert Kept(id, entries[id], open, nextId);
    }
    forall id | id in retired ensures Kept(id, retired[id], open - {r}, nextId) {
      assert Kept(id, retired[id], open, nextId);
    }
  }

  // The live entries after one of their readers closed.
  function LessLive(entries: map<nat, Entry>, r: Reader): map<nat, Entry>
    requires r.entryId in entries
  {
    var readers := entries[r.entryId].readers;
    entries[r.entryId := Entry(r.snapshot, if readers > 0 then readers - 1 else 0)]
  }

  // The retired entries after one of their readers closed: the last one takes its entry along.
  function LessRetired(retired: map<nat, Entry>, id: nat): map<nat, Entry>
    requires id in retired && retired[id].readers > 0
  {
    if retired[id].readers == 1 then retired - {id}
    else retired[id := Entry(retired[id].snapshot, retired[id].readers - 1)]
  }

  lemma RetiredReaderClosed(entries: map<nat, Entry>, retired: map<nat, Entry>, open: set<Reader>, nextId: nat,
                            r: Reader)
    requires Tables(entries, retired, open, nextId) && r in open && r.entryId !in entries
    ensures r.entryId in retired && retired[r.entryId].readers > 0
    ensures Tables(entries, LessRetired(retired, r.entryId), open - {r}, nextId)
    ensures Used(entries, LessRetired(retired, r.entryId)) <= Used(entries, retired)
  {
    var less := LessRetired(retired, r.entryId);
    PinsRemove(open, r, r.entryId);
    assert Kept(r.entryId, retired[r.entryId], open, nextId);
    forall id: nat ensures Pins(open, id) == Pins(open - {r}, id) + if r.entryId == id then 1 else 0 {
      PinsRemove(open, r, id);
    }
    forall id | id in entries ensures Kept(id, entries[id], open - {r}, nextId) {
      assert Kept(id, entries[id], open, nextId);
    }
    forall id | id in less ensures Kept(id, less[id], open - {r}, nextId) && less[id].readers > 0 {
      assert Kept(id, retired[id], open, nextId);
    }
    forall x | x in open - {r} && x.entryId !in entries
      ensures x.entryId in less && less[x.entryId].snapshot == x.snapshot
    {
      if x.entryId == r.entryId { assert x in ReadersOf(open - {r}, r.entryId); }
    }
    if retired[r.entryId].readers != 1 { SameSnapshots(retired, less); }
    UsedLess(entries, retired, entries, less);
  }

  lemma FreshId(entries: map<nat, Entry>, retired: map<nat, Entry>, open: set<Reader>, nextId: nat)
    requires Tables(entries, retired, open, nextId)
    ensures nextId + 1 !in entries && nextId + 1 !in retired && Pins(open, nextId + 1) == 0
  {
    forall id | id in entries ensures id <= nextId { assert Kept(id, entries[id], open, nextId); }
    forall id | id in retired ensures id <= nextId { assert Kept(id, retired[id], open, nextId); }
    assert ReadersOf(open, nextId + 1) == {};
  }

  lemma EntryAdded(entries: map<nat, Entry>, retired: map<nat, Entry>, open: set<Reader>, nextId: nat,
                   snapshot: Snapshot)
    requires Tables(entries, retired, open, nextId)
    ensures Tables(entries[nextId + 1 := Entry(snapshot, 0)], retired, open, nextId + 1)
    ensures AllBlocks(entries[nextId + 1 := Entry(snapshot, 0)]) == AllBlocks(entries) + snapshot.Blocks()
  {
    FreshId(entries, retired, open, nextId);
    BlocksAdded(entries, nextId + 1, Entry(snapshot, 0));
    var more := entries[nextId + 1 := Entry(snapshot, 0)];
    forall id | id in more ensures Kept(id, more[id], open, nextId + 1) {
      if id != nextId + 1 { assert Kept(id, entries[id], open, nextId); }
    }
    forall id | id in retired ensures Kept(id, retired[id], open, nextId + 1) {
      assert Kept(id, retired[id], open, nextId);
    }
  }

  // ---- The longest entry a request may reuse ----

  // Only a defined key is ever asked for.
  function ImageKey(identity: Option<ImageIdentity.Identity>, length: nat): Option<ImageIdentity.Key>
    requires identity.Some? ==> ImageIdentity.KeyAt(identity.value, length).Some?
  {
    if identity.None? then None else ImageIdentity.KeyAt(identity.value, length)
  }

  function Cap(tokens: seq<int>, limit: Option<nat>, identity: Option<ImageIdentity.Identity>): nat {
    var cap := if limit.None? then |tokens| else limit.value;
    if identity.Some? && 64 * |identity.value.pageDigests| < cap then 64 * |identity.value.pageDigests| else cap
  }

  /** The cap shuts out nothing but what the limit excludes and, for an image prompt, what has no key:
      so an image prompt that ends inside a page is looked up to its last whole page. */
  lemma CapIs(tokens: seq<int>, limit: Option<nat>, identity: Option<ImageIdentity.Identity>, n: nat)
    requires n > 0 && n % 64 == 0
    ensures n <= Cap(tokens, limit, identity) <==>
      && (if limit.Some? then n <= limit.value else n <= |tokens|)
      && (identity.Some? ==> ImageIdentity.KeyAt(identity.value, n).Some?)
  {
  }

  predicate Reusable(s: Snapshot, namespace: Namespace, tokens: seq<int>, cap: nat,
                     identity: Option<ImageIdentity.Identity>)
    requires Publishable(s) && (identity.Some? ==> cap <= 64 * |identity.value.pageDigests|)
  {
    && s.namespace == namespace && s.Length() <= cap && s.tokens <= tokens
    && s.imageKey == ImageKey(identity, s.Length())
  }

  // Neither prompt has images; or both do, with equal positions of every token before the length, and
  // the same images start before it.
  ghost predicate SameImages(a: Option<ImageIdentity.Identity>, p: seq<ImageIdentity.Position>,
                             b: Option<ImageIdentity.Identity>, q: seq<ImageIdentity.Position>, length: nat) {
    if a.None? || b.None? then a.None? && b.None?
    else
      && length <= |p| && length <= |q| && p[..length] == q[..length]
      && ImageIdentity.RecordsAt(a.value.records, length) == ImageIdentity.RecordsAt(b.value.records, length)
  }

  ghost predicate IsIdentity(identity: Option<ImageIdentity.Identity>, positions: seq<ImageIdentity.Position>) {
    identity.Some? ==> ImageIdentity.IsOf(identity.value, positions)
  }

  /** What was captured of prompt `a` is reused for prompt `b` exactly if it is of its namespace, begins
      it, lies within the cap, and the images are the same. */
  lemma ReusedIffSameImages(s: Snapshot, a: Option<ImageIdentity.Identity>, p: seq<ImageIdentity.Position>,
                            namespace: Namespace, tokens: seq<int>, cap: nat, b: Option<ImageIdentity.Identity>,
                            q: seq<ImageIdentity.Position>)
    requires Publishable(s) && (b.Some? ==> cap <= 64 * |b.value.pageDigests|) && IsIdentity(a, p) && IsIdentity(b, q)
    requires (a.Some? ==> ImageIdentity.KeyAt(a.value, s.Length()).Some?) && s.imageKey == ImageKey(a, s.Length())
    ensures Reusable(s, namespace, tokens, cap, b) <==>
      && s.namespace == namespace && s.Length() <= cap && s.tokens <= tokens
      && SameImages(a, p, b, q, s.Length())
  {
    if a.Some? && b.Some? && s.Length() <= cap {
      ImageIdentity.KeyMeaning(a.value, p, b.value, q, s.Length());
    }
  }

  // Everything the cache's lock protects.
  datatype State = State(
    entries: map<nat, Entry>,
    order: seq<nat>,             // ids of the entries, least recently used first
    retired: map<nat, Entry>,
    pendingBytes: nat,
    pendingEntries: nat,
    epoch: nat,
    nextId: nat,
    hits: nat,
    misses: nat,
    evictions: nat,
    open: set<Reader>,           // readers not closed yet
    held: seq<Reservation>,      // reservations not closed yet
    basis: map<nat, Reader>,     // the reader a reservation owns, by its serial
    serial: nat)

  // The bounds may be exceeded by what a reservation that is about to close still counts.
  ghost predicate Inv(s: State, budget: nat, maxEntries: nat, bytes: nat, count: nat) {
    && Books(s.entries, s.order, s.retired, s.open, s.nextId) && Handles(s.open, s.held, s.basis, s.serial)
    && Used(s.entries, s.retired) + s.pendingBytes <= budget + bytes
    && |s.entries.Keys| + |s.retired.Keys| + s.pendingEntries <= maxEntries + count
    && s.pendingBytes == Sizes(s.held) && s.pendingEntries == |s.held|
  }

  ghost predicate Fits(s: State, size: nat, budget: nat, maxEntries: nat) {
    Used(s.entries, s.retired) + s.pendingBytes + size <= budget
      && |s.entries.Keys| + |s.retired.Keys| + s.pendingEntries < maxEntries
  }

  function Sizes(held: seq<Reservation>): nat {
    if held == [] then 0 else Sizes(held[..|held| - 1]) + held[|held| - 1].size
  }

  // Handles are told apart by their serials, and each reservation's basis is its own open reader.
  ghost predicate Handles(open: set<Reader>, held: seq<Reservation>, basis: map<nat, Reader>, serial: nat) {
    && (forall r :: r in open ==> r.serial < serial)
    && (forall i :: 0 <= i < |held| ==> held[i].serial < serial)
    && (forall i, j :: 0 <= i < j < |held| ==> held[i].serial != held[j].serial)
    && (forall k :: k in basis ==> k < serial && basis[k] in open)
    && (forall k, l :: k in basis && l in basis && basis[k] == basis[l] ==> k == l)
  }

  lemma BasisOwned(s: State, r: Reservation, basis: Reader, budget: nat, maxEntries: nat)
    requires Inv(s, budget, maxEntries, 0, 0) && r in s.held && r.serial !in s.basis
    requires basis in s.open && forall k :: k in s.basis ==> s.basis[k] != basis
    ensures Inv(s.(basis := s.basis[r.serial := basis]), budget, maxEntries, 0, 0)
  {
    hide Books, Handles;
    BasisHandled(s.open, s.held, s.basis, s.serial, r, basis);
  }

  lemma BasisHandled(open: set<Reader>, held: seq<Reservation>, owned: map<nat, Reader>, serial: nat, r: Reservation,
                     basis: Reader)
    requires Handles(open, held, owned, serial) && r in held && r.serial !in owned
    requires basis in open && forall k :: k in owned ==> owned[k] != basis
    ensures Handles(open, held, owned[r.serial := basis], serial)
  {
  }

  // _evict_one
  method EvictOne(s: State, ghost budget: nat, ghost maxEntries: nat) returns (ok: bool, t: State)
    requires Inv(s, budget, maxEntries, 0, 0)
    ensures Inv(t, budget, maxEntries, 0, 0) && ShrunkBy(s, t, if ok then 1 else 0)
    ensures ok ==> |t.entries.Keys| == |s.entries.Keys| - 1
    ensures !ok ==> t == s && AllRead(s.entries)
  {
    var fewer, rest;
    ok, fewer, rest := DropUnread(s.entries, s.order, s.retired, s.open, s.nextId);
    t := s.(entries := fewer, order := rest, evictions := if ok then s.evictions + 1 else s.evictions);
    OrderedIds(s.order, s.entries);
    OrderedIds(rest, fewer);
  }

  // used_bytes: each storage and token key once, however many snapshots hold it.
  method UsedBytes(s: State) returns (n: nat)
    ensures n == Used(s.entries, s.retired)
  {
    var seen;
    n, seen := CountEntries(0, {}, s.entries);
    n, seen := CountEntries(n, seen, s.retired);
    assert seen == AllBlocks(s.entries) + AllBlocks(s.retired);
  }

  class Cache {
    const budget: nat
    const maxEntries: nat
    var state: State

    ghost predicate Valid() reads this { Inv(state, budget, maxEntries, 0, 0) }

    constructor (budget: nat, maxEntries: nat)
      requires budget > 0 && maxEntries > 0
      ensures Valid() && this.budget == budget && this.maxEntries == maxEntries
      ensures state == State(map[], [], map[], 0, 0, 0, 0, 0, 0, 0, {}, [], map[], 0)
    {
      this.budget, this.maxEntries := budget, maxEntries;
      state := State(map[], [], map[], 0, 0, 0, 0, 0, 0, 0, {}, [], map[], 0);
      assert AllBlocks(map[]) + AllBlocks(map[]) == {};
    }

    method Reserve(size: nat) returns (r: Option<Reservation>)
      requires Valid()
      modifies this`state
      ensures Valid() && Reserved(old(state), size, budget, maxEntries, r, state)
    {
      r, state := ReserveIn(state, size, budget, maxEntries);
    }

    method Acquire(namespace: Namespace, tokens: seq<int>, limit: Option<nat>, count: bool,
                   identity: Option<ImageIdentity.Identity>)
      returns (r: Option<Reader>)
      requires Valid()
      modifies this`state
      ensures Valid()
      ensures Acquired(old(state), namespace, tokens, Cap(tokens, limit, identity), identity, count, r, state)
    {
      r, state := AcquireIn(state, namespace, tokens, limit, count, identity, budget, maxEntries);
    }

    /** PrefixReader.close, which may be called again. A reservation's basis is closed with it. */
    method CloseReader(r: Reader)
      requires Valid() && forall k :: k in state.basis ==> state.basis[k] != r
      modifies this`state
      ensures Valid() && Closable(old(state), r) && state == Closed(old(state), r)
    {
      ClosedKeeps(state, r, budget, maxEntries);
      state := Closed(state, r);
    }

    /** A capture hands the reader of its basis to the reservation. */
    method OwnBasis(r: Reservation, basis: Reader)
      requires Valid() && r in state.held && r.serial !in state.basis
      requires basis in state.open && forall k :: k in state.basis ==> state.basis[k] != basis
      modifies this`state
      ensures Valid() && state == old(state).(basis := old(state).basis[r.serial := basis])
    {
      BasisOwned(state, r, basis, budget, maxEntries);
      hide Inv;
      state := state.(basis := state.basis[r.serial := basis]);
    }

    /** PrefixReservation.close, which may be called again. */
    method CloseReservation(r: Reservation)
      requires Valid()
      modifies this`state
      ensures Valid()
      ensures r !in old(state).held ==> state == old(state)
      ensures r in old(state).held ==>
        exists i :: 0 <= i < |old(state).held| && old(state).held[i] == r && Released(old(state), i, state)
    {
      if r in state.held {
        var i :| 0 <= i < |state.held| && state.held[i] == r;
        state := CloseReservationAt(state, i, budget, maxEntries, 0, 0);
      }
    }

    method Publish(r: Reservation, snapshot: Snapshot, completed: bool) returns (id: Option<nat>)
      requires Valid()
      modifies this`state
      ensures Valid() && PublishedBy(old(state), r, snapshot, completed, id, state)
    {
      id, state := PublishIn(state, r, snapshot, completed, budget, maxEntries);
    }

    method Reset()
      requires Valid()
      modifies this`state
      ensures Valid() && state == Flushed(old(state))
    {
      FlushedKeeps(state, budget, maxEntries);
      state := Flushed(state);
    }
  }

  // The state with one more reservation counted.
  function Counted(s: State, size: nat): State {
    s.(pendingBytes := s.pendingBytes + size, pendingEntries := s.pendingEntries + 1,
       held := s.held + [Reservation(s.serial, size, s.epoch)], serial := s.serial + 1)
  }

  lemma CountedKeeps(s: State, size: nat, budget: nat, maxEntries: nat)
    requires Inv(s, budget, maxEntries, 0, 0) && Fits(s, size, budget, maxEntries)
    ensures Inv(Counted(s, size), budget, maxEntries, 0, 0)
  {
    var held := s.held + [Reservation(s.serial, size, s.epoch)];
    assert held[..|held| - 1] == s.held;
  }

  // What is left of an order after its first n unread entries are gone.
  function Remaining(entries: map<nat, Entry>, order: seq<nat>, n: nat): seq<nat> {
    if order == [] || n == 0 then order
    else if order[0] in entries && entries[order[0]].readers == 0 then Remaining(entries, order[1..], n - 1)
    else [order[0]] + Remaining(entries, order[1..], n)
  }

  // The n least recently used entries without readers are gone, and the others are in their order;
  // nothing else has changed.
  ghost predicate ShrunkBy(s: State, t: State, n: nat) {
    && KeepsRead(s.entries, t.entries) && t.order == Remaining(s.entries, s.order, n)
    && (forall id :: id in t.order <==> id in t.entries)
    && t == s.(entries := t.entries, order := t.order, evictions := s.evictions + n)
  }

  ghost predicate Shrunk(s: State, t: State) { exists n: nat :: ShrunkBy(s, t, n) }

  // The first unread entry of an order is the one at i.
  lemma {:induction false} RemainingOne(entries: map<nat, Entry>, order: seq<nat>, i: nat)
    requires i < |order| && order[i] in entries && entries[order[i]].readers == 0
    requires forall k :: 0 <= k < i ==> order[k] in entries && entries[order[k]].readers > 0
    ensures Remaining(entries, order, 1) == order[..i] + order[i + 1..]
  {
    if i > 0 {
      RemainingOne(entries, order[1..], i - 1);
      assert [order[0]] + order[1..][..i - 1] == order[..i];
    }
  }

  lemma {:induction false} RemainingAgrees(entries: map<nat, Entry>, now: map<nat, Entry>, order: seq<nat>, n: nat)
    requires forall id :: id in order ==> id in entries && id in now && now[id] == entries[id]
    ensures Remaining(now, order, n) == Remaining(entries, order, n)
  {
    if order != [] && n > 0 {
      assert order[0] in order;
      RemainingAgrees(entries, now, order[1..], n);
      RemainingAgrees(entries, now, order[1..], n - 1);
    }
  }

  // Evicting once more evicts the next unread one.
  lemma {:induction false} RemainingNext(entries: map<nat, Entry>, now: map<nat, Entry>, order: seq<nat>, n: nat)
    requires forall id :: id in order ==> id in entries
    requires forall id :: id in Remaining(entries, order, n) ==> id in entries && id in now && now[id] == entries[id]
    ensures Remaining(now, Remaining(entries, order, n), 1) == Remaining(entries, order, n + 1)
  {
    if order != [] {
      assert order[0] in order;
      if n == 0 {
        RemainingAgrees(entries, now, order, 1);
      } else if entries[order[0]].readers == 0 {
        RemainingNext(entries, now, order[1..], n - 1);
      } else {
        var left := Remaining(entries, order[1..], n);
        assert Remaining(entries, order, n) == [order[0]] + left && ([order[0]] + left)[1..] == left;
        RemainingNext(entries, now, order[1..], n);
      }
    }
  }

  // What reserve may do: evict entries without readers, then count the reservation or give up.
  ghost predicate Reserved(s: State, size: nat, budget: nat, maxEntries: nat, r: Option<Reservation>, t: State) {
    match r
    case None =>
      if size == 0 || size > budget then t == s
      else Shrunk(s, t) && AllRead(t.entries) && !Fits(t, size, budget, maxEntries)
    case Some(reservation) =>
      && reservation == Reservation(s.serial, size, s.epoch) && 0 < size <= budget
      && exists u, n: nat :: Enough(s, u, n, size, budget, maxEntries) && t == Counted(u, size)
  }

  // After n evictions the reservation fits, and after fewer it did not.
  ghost predicate Enough(s: State, u: State, n: nat, size: nat, budget: nat, maxEntries: nat) {
    && ShrunkBy(s, u, n) && Fits(u, size, budget, maxEntries)
    && (if n == 0 then u == s else exists v :: ShrunkBy(s, v, n - 1) && !Fits(v, size, budget, maxEntries))
  }

  // What is left when every entry without readers is gone leaves room for one more of this size.
  ghost predicate HasRoom(s: State, size: nat, budget: nat, maxEntries: nat) {
    && 0 < size <= budget && Used(Pinned(s.entries), s.retired) + s.pendingBytes + size <= budget
    && |Pinned(s.entries).Keys| + |s.retired.Keys| + s.pendingEntries < maxEntries
  }

  /** A reservation is refused exactly if what readers and other reservations hold leaves no room. */
  lemma ReservedIffRoom(s: State, size: nat, budget: nat, maxEntries: nat, r: Option<Reservation>, t: State)
    requires Reserved(s, size, budget, maxEntries, r, t)
    ensures r.Some? <==> HasRoom(s, size, budget, maxEntries)
  {
    hide Counted, Remaining, Used;
    if r.Some? {
      var u, n: nat :| Enough(s, u, n, size, budget, maxEntries) && t == Counted(u, size);
      PinnedLeft(s.entries, u.entries, s.retired);
    } else if 0 < size <= budget {
      assert t.entries == Pinned(s.entries);
    }
  }

  lemma PinnedLeft(entries: map<nat, Entry>, left: map<nat, Entry>, retired: map<nat, Entry>)
    requires KeepsRead(entries, left)
    ensures Used(Pinned(entries), retired) <= Used(left, retired) && |Pinned(entries).Keys| <= |left.Keys|
  {
    UsedLess(left, retired, Pinned(entries), retired);
    Counting.SubsetSize(Pinned(entries).Keys, left.Keys);
  }

  lemma NoneEvicted(s: State, budget: nat, maxEntries: nat)
    requires Inv(s, budget, maxEntries, 0, 0)
    ensures ShrunkBy(s, s, 0) && forall id :: id in s.order ==> id in s.entries
  {
    OrderedIds(s.order, s.entries);
  }

  lemma ShrunkOnce(s: State, t: State, u: State, n: nat)
    requires ShrunkBy(s, t, n) && ShrunkBy(t, u, 1) && forall id :: id in s.order ==> id in s.entries
    ensures ShrunkBy(s, u, n + 1)
  {
    RemainingNext(s.entries, t.entries, s.order, n);
  }

  /** reserve: evict until it fits, or until nothing more can be evicted. */
  method ReserveIn(s: State, size: nat, budget: nat, maxEntries: nat) returns (r: Option<Reservation>, t: State)
    requires Inv(s, budget, maxEntries, 0, 0)
    ensures Inv(t, budget, maxEntries, 0, 0) && Reserved(s, size, budget, maxEntries, r, t)
  {
    hide Inv, AllRead, KeepsRead, Remaining, Used, Counted;
    NoneEvicted(s, budget, maxEntries);
    if size == 0 || size > budget { return None, s; }
    var u := s;
    ghost var n, last := 0, s;
    var used := UsedBytes(u);
    while used + u.pendingBytes + size > budget || |u.entries.Keys| + |u.retired.Keys| + u.pendingEntries >= maxEntries
      invariant Inv(u, budget, maxEntries, 0, 0) && ShrunkBy(s, u, n) && used == Used(u.entries, u.retired)
      invariant if n == 0 then u == s else ShrunkBy(s, last, n - 1) && !Fits(last, size, budget, maxEntries)
      decreases |u.entries.Keys|
    {
      var evicted, fewer := EvictOne(u, budget, maxEntries);
      if !evicted { return None, u; }
      ShrunkOnce(s, u, fewer, n);
      last := u;
      u, n := fewer, n + 1;
      used := UsedBytes(u);
    }
    CountedKeeps(u, size, budget, maxEntries);
    assert Enough(s, u, n, size, budget, maxEntries);
    return Some(Reservation(u.serial, size, u.epoch)), Counted(u, size);
  }

  // ---- Readers ----

  // A reader is open on a live entry, or on a retired one; closing it again does nothing.
  ghost predicate Closable(s: State, r: Reader) {
    r !in s.open || (if r.entryId in s.entries then s.entries[r.entryId].readers > 0
                     else r.entryId in s.retired && s.retired[r.entryId].readers > 0)
  }

  // The state with one reader less; a retired entry goes with its last reader.
  function Closed(s: State, r: Reader): State
    requires Closable(s, r)
  {
    if r !in s.open then s
    else if r.entryId in s.entries then
      s.(entries := LessLive(s.entries, r), open := s.open - {r})
    else s.(retired := LessRetired(s.retired, r.entryId), open := s.open - {r})
  }

  lemma ClosedKeeps(s: State, r: Reader, budget: nat, maxEntries: nat)
    requires Inv(s, budget, maxEntries, 0, 0) && forall k :: k in s.basis ==> s.basis[k] != r
    ensures Closable(s, r) && Inv(Closed(s, r), budget, maxEntries, 0, 0)
  {
    if r in s.open {
      TablesClosed(s.entries, s.order, s.retired, s.open, s.nextId, r);
      HandlesClosed(s.open, s.held, s.basis, s.serial, r);
    }
  }

  lemma HandlesClosed(open: set<Reader>, held: seq<Reservation>, basis: map<nat, Reader>, serial: nat, r: Reader)
    requires Handles(open, held, basis, serial) && forall k :: k in basis ==> basis[k] != r
    ensures Handles(open - {r}, held, basis, serial)
  {
  }

  // The tables after a reader closed.
  lemma TablesClosed(entries: map<nat, Entry>, order: seq<nat>, retired: map<nat, Entry>, open: set<Reader>,
                     nextId: nat, r: Reader)
    requires Books(entries, order, retired, open, nextId) && r in open
    ensures if r.entryId in entries then
        var less := LessLive(entries, r);
        && entries[r.entryId].readers > 0 && Books(less, order, retired, open - {r}, nextId)
        && Used(less, retired) == Used(entries, retired) && |less.Keys| == |entries.Keys|
      else
        && r.entryId in retired && retired[r.entryId].readers > 0
        && var less := LessRetired(retired, r.entryId);
        && Books(entries, order, less, open - {r}, nextId)
        && Used(entries, less) <= Used(entries, retired) && |less.Keys| <= |retired.Keys|
  {
    if r.entryId in entries {
      ReaderClosed(entries, retired, open, nextId, r);
      assert LessLive(entries, r).Keys == entries.Keys;
    } else {
      RetiredReaderClosed(entries, retired, open, nextId, r);
      LessRetiredKeys(retired, r.entryId);
    }
  }

  lemma LessRetiredKeys(retired: map<nat, Entry>, id: nat)
    requires id in retired && retired[id].readers > 0
    ensures |LessRetired(retired, id).Keys| <= |retired.Keys|
  {
    assert LessRetired(retired, id).Keys == if retired[id].readers == 1 then retired.Keys - {id} else retired.Keys;
  }

  // ---- Closing a reservation ----

  function Dropped(held: seq<Reservation>, i: nat): seq<Reservation>
    requires i < |held|
  {
    held[..i] + held[i + 1..]
  }

  lemma {:induction false} SizesDropped(held: seq<Reservation>, i: nat)
    requires i < |held|
    ensures Sizes(held) == Sizes(Dropped(held, i)) + held[i].size
  {
    var last := |held| - 1;
    if i == last {
      assert Dropped(held, i) == held[..last];
    } else {
      SizesDropped(held[..last], i);
      assert Dropped(held, i)[..last - 1] == Dropped(held[..last], i);
      assert Dropped(held, i)[last - 1] == held[last];
    }
  }

  // The state with reservation i no longer counted, and owning no reader.
  function Uncounted(s: State, i: nat): State
    requires i < |s.held| && s.pendingBytes >= s.held[i].size && s.pendingEntries >= 1
  {
    s.(pendingBytes := s.pendingBytes - s.held[i].size, pendingEntries := s.pendingEntries - 1,
       held := Dropped(s.held, i), basis := s.basis - {s.held[i].serial})
  }

  // A reservation that closes gives its size back, which the state may have used already.
  lemma UncountedKeeps(s: State, i: nat, budget: nat, maxEntries: nat, bytes: nat, count: nat)
    requires i < |s.held| && Inv(s, budget, maxEntries, bytes, count) && bytes <= s.held[i].size && count <= 1
    ensures s.pendingBytes >= s.held[i].size && s.pendingEntries >= 1
    ensures Inv(Uncounted(s, i), budget, maxEntries, 0, 0)
  {
    SizesDropped(s.held, i);
    HandlesDropped(s.open, s.held, s.basis, s.serial, i);
  }

  lemma HandlesDropped(open: set<Reader>, held: seq<Reservation>, basis: map<nat, Reader>, serial: nat, i: nat)
    requires Handles(open, held, basis, serial) && i < |held|
    ensures Handles(open, Dropped(held, i), basis - {held[i].serial}, serial)
  {
    var fewer := Dropped(held, i);
    assert forall k :: 0 <= k < |fewer| ==> fewer[k] == held[if k < i then k else k + 1];
  }

  // reservation.close: the pending counts, then the basis reader it owns.
  method CloseReservationAt(s: State, i: nat, ghost budget: nat, ghost maxEntries: nat, ghost bytes: nat,
                            ghost count: nat)
    returns (t: State)
    requires i < |s.held| && Inv(s, budget, maxEntries, bytes, count) && bytes <= s.held[i].size && count <= 1
    ensures Inv(t, budget, maxEntries, 0, 0)
    ensures Released(s, i, t)
  {
    UncountedKeeps(s, i, budget, maxEntries, bytes, count);
    var u := Uncounted(s, i);
    if s.held[i].serial in s.basis {
      var reader := s.basis[s.held[i].serial];
      ClosedKeeps(u, reader, budget, maxEntries);
      return Closed(u, reader);
    }
    return u;
  }

  // What closing reservation i leaves: its counts returned, and its basis reader closed.
  ghost predicate Released(s: State, i: nat, t: State) {
    && i < |s.held| && s.pendingBytes >= s.held[i].size && s.pendingEntries >= 1
    && var u := Uncounted(s, i);
       if s.held[i].serial in s.basis then
         Closable(u, s.basis[s.held[i].serial]) && t == Closed(u, s.basis[s.held[i].serial])
       else t == u
  }

  // ---- Publishing ----

  // What more blocks add to the memory in use.
  ghost function NewOver(all: set<Block>, blocks: set<Block>): nat {
    TotalSubset(all, all + blocks, BlockSize);
    Total(all + blocks, BlockSize) - Total(all, BlockSize)
  }

  ghost function NewSize(s: State, snapshot: Snapshot): nat {
    NewOver(AllBlocks(s.entries) + AllBlocks(s.retired), snapshot.Blocks())
  }

  /** publish's checks on a snapshot's length and segments. */
  method CheckSegments(snapshot: Snapshot) returns (ok: bool)
    ensures ok <==> Publishable(snapshot)
  {
    if snapshot.Length() == 0 || snapshot.Length() % 64 != 0 { return false; }
    var stop, segments := 0, snapshot.segments;
    for i := 0 to |segments|
      invariant stop == Stop(segments, i)
      invariant forall k {:trigger ChainedAt(segments, k)} :: 0 <= k < i ==> ChainedAt(segments, k)
    {
      var segment := segments[i];
      var good := segment.start == stop && segment.stop > stop && segment.stop % 64 == 0
        && segment.rawTokens == segment.stop - stop && segment.indexGroups == (segment.stop - stop) / 4;
      assert good <==> ChainedAt(segments, i);
      if !good { return false; }
      stop := segment.stop;
    }
    return stop == snapshot.Length();
  }

  function More(s: State, snapshot: Snapshot): map<nat, Entry> { s.entries[s.nextId + 1 := Entry(snapshot, 0)] }

  // One more entry, the newest.
  function Added(s: State, snapshot: Snapshot): State {
    s.(nextId := s.nextId + 1, entries := More(s, snapshot), order := s.order + [s.nextId + 1])
  }

  lemma AddedKeeps(s: State, snapshot: Snapshot, budget: nat, maxEntries: nat)
    requires Inv(s, budget, maxEntries, 0, 0) && Publishable(snapshot)
    ensures Inv(Added(s, snapshot), budget, maxEntries, NewSize(s, snapshot), 1)
  {
    UsedAdded(s, snapshot);
    GrownKeeps(s, snapshot, budget, maxEntries, NewSize(s, snapshot));
  }

  lemma GrownKeeps(s: State, snapshot: Snapshot, budget: nat, maxEntries: nat, bytes: nat)
    requires Inv(s, budget, maxEntries, 0, 0) && Publishable(snapshot)
    requires Used(More(s, snapshot), s.retired) == Used(s.entries, s.retired) + bytes
    ensures Inv(Added(s, snapshot), budget, maxEntries, bytes, 1)
  {
    var t := Added(s, snapshot);
    TablesAdded(s.entries, s.order, s.retired, s.open, s.nextId, snapshot, t.entries, t.order, t.nextId);
  }

  lemma UsedAdded(s: State, snapshot: Snapshot)
    requires Tables(s.entries, s.retired, s.open, s.nextId)
    ensures Used(More(s, snapshot), s.retired) == Used(s.entries, s.retired) + NewSize(s, snapshot)
  {
    hide AllBlocks, Tables, Totals.Total;
    EntryAdded(s.entries, s.retired, s.open, s.nextId, snapshot);
    UnionGrown(AllBlocks(s.entries), AllBlocks(s.retired), snapshot.Blocks(), AllBlocks(More(s, snapshot)));
  }

  lemma UnionGrown(live: set<Block>, retired: set<Block>, blocks: set<Block>, more: set<Block>)
    requires more == live + blocks
    ensures Total(more + retired, BlockSize) == Total(live + retired, BlockSize) + NewOver(live + retired, blocks)
  {
    assert more + retired == live + retired + blocks;
  }

  // The tables after one more entry.
  lemma TablesAdded(entries: map<nat, Entry>, order: seq<nat>, retired: map<nat, Entry>, open: set<Reader>, nextId: nat,
                    snapshot: Snapshot, more: map<nat, Entry>, longer: seq<nat>, id: nat)
    requires Books(entries, order, retired, open, nextId) && Publishable(snapshot)
    requires id == nextId + 1 && more == entries[id := Entry(snapshot, 0)] && longer == order + [id]
    ensures Books(more, longer, retired, open, id) && |more.Keys| == |entries.Keys| + 1
  {
    hide Tables, Ordered, Published, AllBlocks, Publishable;
    FreshId(entries, retired, open, nextId);
    EntryAdded(entries, retired, open, nextId, snapshot);
    OrderAdded(order, entries, id, Entry(snapshot, 0));
    OneMorePublished(entries, id, snapshot);
  }

  lemma OneMorePublished(entries: map<nat, Entry>, id: nat, snapshot: Snapshot)
    requires Published(entries) && Publishable(snapshot)
    ensures Published(entries[id := Entry(snapshot, 0)])
  {
  }

  lemma OrderAdded(order: seq<nat>, entries: map<nat, Entry>, id: nat, e: Entry)
    requires Ordered(order, entries) && id !in entries
    ensures Ordered(order + [id], entries[id := e]) && |entries[id := e].Keys| == |entries.Keys| + 1
  {
    assert entries[id := e].Keys == entries.Keys + {id};
    assert multiset(entries.Keys + {id}) == multiset(entries.Keys) + multiset{id};
  }

  // What publish did: nothing without an open reservation; otherwise the reservation closes, and
  // the snapshot is the newest entry exactly if it passed every check.
  ghost predicate PublishedBy(s: State, r: Reservation, snapshot: Snapshot, completed: bool, id: Option<nat>,
                              t: State) {
    if r !in s.held then id.None? && t == s
    else
      && (id.Some? <==> completed && r.epoch == s.epoch && Publishable(snapshot) && NewSize(s, snapshot) <= r.size)
      && (id.Some? ==> id.value == s.nextId + 1)
      && exists i :: 0 <= i < |s.held| && s.held[i] == r && Released(if id.Some? then Added(s, snapshot) else s, i, t)
  }

  method PublishIn(s: State, r: Reservation, snapshot: Snapshot, completed: bool, ghost budget: nat,
                   ghost maxEntries: nat)
    returns (id: Option<nat>, t: State)
    requires Inv(s, budget, maxEntries, 0, 0)
    ensures Inv(t, budget, maxEntries, 0, 0) && PublishedBy(s, r, snapshot, completed, id, t)
  {
    if r !in s.held { return None, s; }
    var i :| 0 <= i < |s.held| && s.held[i] == r;
    var chained := CheckSegments(snapshot);
    var size := MeasureNew(s, snapshot);
    if completed && r.epoch == s.epoch && chained && size <= r.size {
      AddedKeeps(s, snapshot, budget, maxEntries);
      t := CloseReservationAt(Added(s, snapshot), i, budget, maxEntries, size, 1);
      return Some(s.nextId + 1), t;
    }
    t := CloseReservationAt(s, i, budget, maxEntries, 0, 0);
    return None, t;
  }

  method MeasureNew(s: State, snapshot: Snapshot) returns (n: nat)
    ensures n == NewSize(s, snapshot)
  {
    var used, seen := CountEntries(0, {}, s.entries);
    used, seen := CountEntries(used, seen, s.retired);
    assert seen == AllBlocks(s.entries) + AllBlocks(s.retired);
    var total, all := CountNew(used, seen, snapshot.Blocks());
    TotalSubset(seen, all, BlockSize);
    return total - used;
  }

  // ---- Acquiring ----

  // The state with one more reader, on the entry it reads, now the most recently used.
  function Opened(s: State, r: Reader, count: bool, i: nat): State
    requires r.entryId in s.entries && i < |s.order|
  {
    s.(entries := MoreRead(s.entries, r), order := s.order[..i] + s.order[i + 1..] + [s.order[i]],
       open := s.open + {r}, serial := s.serial + 1, hits := if count then s.hits + 1 else s.hits)
  }

  function MoreRead(entries: map<nat, Entry>, r: Reader): map<nat, Entry>
    requires r.entryId in entries
  {
    entries[r.entryId := Entry(r.snapshot, entries[r.entryId].readers + 1)]
  }

  lemma TablesOpened(entries: map<nat, Entry>, order: seq<nat>, retired: map<nat, Entry>, open: set<Reader>,
                     nextId: nat, r: Reader, i: nat, more: map<nat, Entry>, moved: seq<nat>, nowOpen: set<Reader>)
    requires Books(entries, order, retired, open, nextId) && r !in open && i < |order|
    requires r.entryId in entries && entries[r.entryId].snapshot == r.snapshot
    requires more == MoreRead(entries, r) && moved == order[..i] + order[i + 1..] + [order[i]] && nowOpen == open + {r}
    ensures Books(more, moved, retired, nowOpen, nextId)
    ensures Used(more, retired) == Used(entries, retired) && more.Keys == entries.Keys
  {
    ReaderOpened(entries, retired, open, nextId, r);
    OneTaken(order, i);
    assert multiset(moved) == multiset(order[..i] + order[i + 1..]) + multiset{order[i]};
    assert more.Keys == entries.Keys;
  }

  lemma HandlesOpened(open: set<Reader>, held: seq<Reservation>, basis: map<nat, Reader>, serial: nat, r: Reader,
                      nowOpen: set<Reader>)
    requires Handles(open, held, basis, serial) && r.serial == serial && nowOpen == open + {r}
    ensures r !in open && Handles(nowOpen, held, basis, serial + 1)
  {
  }

  lemma OpenedKeeps(s: State, r: Reader, count: bool, i: nat, budget: nat, maxEntries: nat)
    requires Inv(s, budget, maxEntries, 0, 0) && i < |s.order| && r.serial == s.serial
    requires r.entryId in s.entries && s.entries[r.entryId].snapshot == r.snapshot
    ensures Inv(Opened(s, r, count, i), budget, maxEntries, 0, 0)
  {
    var t := Opened(s, r, count, i);
    HandlesOpened(s.open, s.held, s.basis, s.serial, r, t.open);
    TablesOpened(s.entries, s.order, s.retired, s.open, s.nextId, r, i, t.entries, t.order, t.open);
  }

  lemma NoneListed(entries: map<nat, Entry>, namespace: Namespace, tokens: seq<int>, cap: nat,
                   identity: Option<ImageIdentity.Identity>)
    requires Published(entries) && (identity.Some? ==> cap <= 64 * |identity.value.pageDigests|)
    ensures Longest(entries, [], namespace, tokens, cap, identity, None)
  {
  }

  lemma OneMoreListed(entries: map<nat, Entry>, ids: seq<nat>, id: nat, namespace: Namespace, tokens: seq<int>,
                      cap: nat, identity: Option<ImageIdentity.Identity>, best: Option<nat>)
    requires Longest(entries, ids, namespace, tokens, cap, identity, best) && id in entries
    ensures best.Some? ==> best.value in entries
    ensures var snapshot := entries[id].snapshot;
      Longest(entries, ids + [id], namespace, tokens, cap, identity,
              if Reusable(snapshot, namespace, tokens, cap, identity)
                && (best.None? || snapshot.Length() > entries[best.value].snapshot.Length()) then Some(id) else best)
  {
    var more, snapshot := ids + [id], entries[id].snapshot;
    if Reusable(snapshot, namespace, tokens, cap, identity)
      && (best.None? || snapshot.Length() > entries[best.value].snapshot.Length())
    {
      assert more[|ids|] == id && LongerThanBefore(entries, more, namespace, tokens, cap, identity, |ids|);
    } else if best.Some? {
      var k :| 0 <= k < |ids| && ids[k] == best.value
        && LongerThanBefore(entries, ids, namespace, tokens, cap, identity, k);
      assert more[k] == best.value && LongerThanBefore(entries, more, namespace, tokens, cap, identity, k);
    }
  }

  // The position of the longest reusable entry, the least recently used one of that length. The
  // image key is asked for only where the identity defines one.
  method FindLongest(entries: map<nat, Entry>, order: seq<nat>, namespace: Namespace, tokens: seq<int>, cap: nat,
                     identity: Option<ImageIdentity.Identity>) returns (best: Option<nat>)
    requires Published(entries) && (forall k :: 0 <= k < |order| ==> order[k] in entries)
    requires identity.Some? ==> cap <= 64 * |identity.value.pageDigests|
    ensures best.Some? ==> best.value < |order|
    ensures Longest(entries, order, namespace, tokens, cap, identity,
                    if best.Some? then Some(order[best.value]) else None)
  {
    hide Longest, Reusable, LongerThanBefore;
    best := None;
    var i := 0;
    NoneListed(entries, namespace, tokens, cap, identity);
    while i < |order|
      invariant i <= |order| && (best.Some? ==> best.value < i)
      invariant Longest(entries, order[..i], namespace, tokens, cap, identity,
                        if best.Some? then Some(order[best.value]) else None)
    {
      var snapshot := entries[order[i]].snapshot;
      assert order[..i + 1] == order[..i] + [order[i]];
      OneMoreListed(entries, order[..i], order[i], namespace, tokens, cap, identity,
                    if best.Some? then Some(order[best.value]) else None);
      if Reusable(snapshot, namespace, tokens, cap, identity)
        && (best.None? || snapshot.Length() > entries[order[best.value]].snapshot.Length()) {
        best := Some(i);
      }
      i := i + 1;
    }
    assert order[..i] == order;
  }

  /** acquire: a reader of the longest reusable entry, which becomes the most recently used. */
  method AcquireIn(s: State, namespace: Namespace, tokens: seq<int>, limit: Option<nat>, count: bool,
                   identity: Option<ImageIdentity.Identity>, ghost budget: nat, ghost maxEntries: nat)
    returns (r: Option<Reader>, t: State)
    requires Inv(s, budget, maxEntries, 0, 0)
    ensures Inv(t, budget, maxEntries, 0, 0)
    ensures Acquired(s, namespace, tokens, Cap(tokens, limit, identity), identity, count, r, t)
  {
    OrderedIds(s.order, s.entries);
    var best := FindLongest(s.entries, s.order, namespace, tokens, Cap(tokens, limit, identity), identity);
    if best.None? { return None, s.(misses := if count then s.misses + 1 else s.misses); }
    var id := s.order[best.value];
    r := Some(Reader(s.serial, id, s.entries[id].snapshot));
    OpenedKeeps(s, r.value, count, best.value, budget, maxEntries);
    t := Opened(s, r.value, count, best.value);
  }

  // Among the listed entries the best is reusable and no reusable one is longer; of equally long
  // ones it is the first.
  ghost predicate Longest(entries: map<nat, Entry>, ids: seq<nat>, namespace: Namespace, tokens: seq<int>, cap: nat,
                          identity: Option<ImageIdentity.Identity>, best: Option<nat>) {
    && Published(entries) && (identity.Some? ==> cap <= 64 * |identity.value.pageDigests|)
    && (best.Some? ==>
        && best.value in ids && best.value in entries
        && Reusable(entries[best.value].snapshot, namespace, tokens, cap, identity))
    && (forall id :: id in ids && id in entries && Reusable(entries[id].snapshot, namespace, tokens, cap, identity) ==>
          best.Some? && entries[id].snapshot.Length() <= entries[best.value].snapshot.Length())
    && (best.Some? ==>
        exists k {:trigger ids[k]} :: 0 <= k < |ids| && ids[k] == best.value
          && LongerThanBefore(entries, ids, namespace, tokens, cap, identity, k))
  }

  ghost predicate LongerThanBefore(entries: map<nat, Entry>, ids: seq<nat>, namespace: Namespace, tokens: seq<int>,
                                   cap: nat, identity: Option<ImageIdentity.Identity>, k: nat)
    requires Published(entries) && (identity.Some? ==> cap <= 64 * |identity.value.pageDigests|)
    requires k < |ids| && ids[k] in entries
  {
    forall j {:trigger ids[j]} :: 0 <= j < k && ids[j] in entries ==>
      Reusable(entries[ids[j]].snapshot, namespace, tokens, cap, identity) ==>
      entries[ids[j]].snapshot.Length() < entries[ids[k]].snapshot.Length()
  }

  // Live entries distinct by namespace, tokens and image key.
  ghost predicate DistinctKeys(entries: map<nat, Entry>) {
    forall a, b {:trigger entries[a], entries[b]} :: a in entries && b in entries && a != b ==>
      (entries[a].snapshot.namespace, entries[a].snapshot.tokens, entries[a].snapshot.imageKey) !=
      (entries[b].snapshot.namespace, entries[b].snapshot.tokens, entries[b].snapshot.imageKey)
  }

  /** Among distinct entries the one chosen does not depend on the order they are tried in. */
  lemma ChoiceIgnoresOrder(entries: map<nat, Entry>, order: seq<nat>, other: seq<nat>, namespace: Namespace,
                           tokens: seq<int>, cap: nat, identity: Option<ImageIdentity.Identity>, a: Option<nat>,
                           b: Option<nat>)
    requires Ordered(order, entries) && Ordered(other, entries) && DistinctKeys(entries)
    requires Longest(entries, order, namespace, tokens, cap, identity, a)
    requires Longest(entries, other, namespace, tokens, cap, identity, b)
    ensures a == b
  {
    OrderedIds(order, entries);
    OrderedIds(other, entries);
    if a.Some? && b.Some? {
      var x, y := entries[a.value].snapshot, entries[b.value].snapshot;
      assert x.Length() == y.Length();
      assert x.tokens == tokens[..x.Length()] && y.tokens == tokens[..y.Length()];
    }
  }

  ghost predicate Acquired(s: State, namespace: Namespace, tokens: seq<int>, cap: nat,
                           identity: Option<ImageIdentity.Identity>, count: bool, r: Option<Reader>, t: State) {
    match r
    case None =>
      Longest(s.entries, s.order, namespace, tokens, cap, identity, None)
        && t == s.(misses := if count then s.misses + 1 else s.misses)
    case Some(reader) =>
      && Longest(s.entries, s.order, namespace, tokens, cap, identity, Some(reader.entryId))
      && reader == Reader(s.serial, reader.entryId, s.entries[reader.entryId].snapshot)
      && exists i :: 0 <= i < |s.order| && s.order[i] == reader.entryId && t == Opened(s, reader, count, i)
  }

  // An order without one entry.
  ghost function Others(order: seq<nat>, id: nat): seq<nat> {
    if order == [] then []
    else
      var last := order[|order| - 1];
      Others(order[..|order| - 1], id) + (if last == id then [] else [last])
  }

  lemma {:induction false} OthersBoth(a: seq<nat>, b: seq<nat>, id: nat)
    ensures Others(a + b, id) == Others(a, id) + Others(b, id)
  {
    if b == [] {
      assert a + b == a;
    } else {
      OthersBoth(a, b[..|b| - 1], id);
      assert (a + b)[..|a + b| - 1] == a + b[..|b| - 1];
    }
  }

  /** An acquired entry has one reader more and is the last to be evicted; the others are as they
      were, in their order. */
  lemma AcquiredIsNewest(s: State, namespace: Namespace, tokens: seq<int>, cap: nat,
                         identity: Option<ImageIdentity.Identity>, count: bool, r: Reader, t: State)
    requires Acquired(s, namespace, tokens, cap, identity, count, Some(r), t)
    ensures r.entryId in s.entries && t.entries.Keys == s.entries.Keys
    ensures t.open == s.open + {r} && t.serial == s.serial + 1
    ensures t.entries[r.entryId] == Entry(s.entries[r.entryId].snapshot, s.entries[r.entryId].readers + 1)
    ensures forall id :: id in s.entries && id != r.entryId ==> t.entries[id] == s.entries[id]
    ensures |t.order| == |s.order| > 0 && t.order[|t.order| - 1] == r.entryId
    ensures Others(t.order, r.entryId) == Others(s.order, r.entryId)
    ensures t.hits == s.hits + (if count then 1 else 0) && t.misses == s.misses && t.evictions == s.evictions
    ensures t.retired == s.retired && t.held == s.held && t.basis == s.basis && t.epoch == s.epoch
    ensures t.nextId == s.nextId && t.pendingBytes == s.pendingBytes && t.pendingEntries == s.pendingEntries
  {
    hide Others, Reusable;
    var i :| 0 <= i < |s.order| && s.order[i] == r.entryId && t == Opened(s, r, count, i);
    MovedLast(s.order, i);
  }

  lemma MovedLast(order: seq<nat>, i: nat)
    requires i < |order|
    ensures Others(order[..i] + order[i + 1..] + [order[i]], order[i]) == Others(order, order[i])
  {
    hide Others;
    OthersMoved(order[..i], order[i], order[i + 1..]);
    assert order == order[..i] + [order[i]] + order[i + 1..];
  }

  lemma OthersMoved(a: seq<nat>, id: nat, b: seq<nat>)
    ensures Others(a + b + [id], id) == Others(a + [id] + b, id)
  {
    hide Others;
    NoOther(id);
    OthersBoth(a + [id], b, id);
    OthersBoth(a, [id], id);
    OthersBoth(a + b, [id], id);
    OthersBoth(a, b, id);
  }

  lemma NoOther(id: nat)
    ensures Others([id], id) == []
  {
    assert [id][..0] == [];
  }

  // ---- Flushing ----

  function Pinned(entries: map<nat, Entry>): map<nat, Entry> {
    map id | id in entries && entries[id].readers > 0 :: entries[id]
  }

  /** reset: pinned entries retire, the others go, and no reservation of the old epoch may publish. */
  function Flushed(s: State): State {
    s.(epoch := s.epoch + 1, retired := s.retired + Pinned(s.entries), entries := map[], order := [])
  }

  /** What was reserved before a flush is not published after it. */
  lemma FlushedOut(s: State, size: nat, budget: nat, maxEntries: nat, r: Reservation, t: State, later: State,
                   snapshot: Snapshot, completed: bool, id: Option<nat>, end: State)
    requires Reserved(s, size, budget, maxEntries, Some(r), t) && t.epoch <= later.epoch
    requires PublishedBy(Flushed(later), r, snapshot, completed, id, end)
    ensures id.None?
  {
    hide Remaining, Used, Publishable, Pinned;
    var u, n: nat :| Enough(s, u, n, size, budget, maxEntries) && t == Counted(u, size);
  }

  lemma FlushedKeeps(s: State, budget: nat, maxEntries: nat)
    requires Inv(s, budget, maxEntries, 0, 0)
    ensures Inv(Flushed(s), budget, maxEntries, 0, 0)
  {
    var t := Flushed(s);
    TablesFlushed(s.entries, s.retired, s.open, s.nextId, t.retired);
  }

  lemma TablesFlushed(entries: map<nat, Entry>, retired: map<nat, Entry>, open: set<Reader>, nextId: nat,
                      kept: map<nat, Entry>)
    requires Tables(entries, retired, open, nextId) && kept == retired + Pinned(entries)
    ensures Tables(map[], kept, open, nextId)
    ensures Used(map[], kept) <= Used(entries, retired) && |kept.Keys| <= |entries.Keys| + |retired.Keys|
  {
    FlushedTables(entries, retired, open, nextId, kept);
    assert kept.Keys <= entries.Keys + retired.Keys;
    FlushedBlocks(entries, retired, kept);
    UsedLess(entries, retired, map[], kept);
    Counting.SubsetSize(kept.Keys, entries.Keys + retired.Keys);
  }

  lemma FlushedTables(entries: map<nat, Entry>, retired: map<nat, Entry>, open: set<Reader>, nextId: nat,
                      kept: map<nat, Entry>)
    requires Tables(entries, retired, open, nextId) && kept == retired + Pinned(entries)
    ensures Tables(map[], kept, open, nextId)
  {
    forall r | r in open && r.entryId in entries ensures entries[r.entryId].readers > 0 {
      assert r in ReadersOf(open, r.entryId);
      assert Kept(r.entryId, entries[r.entryId], open, nextId);
    }
    forall id | id in kept ensures Kept(id, kept[id], open, nextId) && kept[id].readers > 0 {
      if id in entries {
        assert Kept(id, entries[id], open, nextId);
      } else {
        assert Kept(id, retired[id], open, nextId);
      }
    }
  }

  lemma FlushedBlocks(entries: map<nat, Entry>, retired: map<nat, Entry>, kept: map<nat, Entry>)
    requires entries.Keys !! retired.Keys && kept == retired + Pinned(entries)
    ensures AllBlocks(map[]) + AllBlocks(kept) <= AllBlocks(entries) + AllBlocks(retired)
  {
    forall b | b in AllBlocks(kept) ensures b in AllBlocks(entries) + AllBlocks(retired) {
      var id :| id in kept && b in kept[id].snapshot.Blocks();
      if id in entries {
        assert b in entries[id].snapshot.Blocks();
      } else {
        assert b in retired[id].snapshot.Blocks();
      }
    }
  }

  // The entries in their order, each once.
  ghost predicate Ordered(order: seq<nat>, entries: map<nat, Entry>) { multiset(order) == multiset(entries.Keys) }

  lemma OrderedIds(order: seq<nat>, entries: map<nat, Entry>)
    requires Ordered(order, entries)
    ensures forall id :: id in order <==> id in entries
  {
    assert forall id :: id in order <==> id in multiset(order);
    assert forall id :: id in multiset(entries.Keys) <==> id in entries.Keys;
  }

  lemma OneTaken(order: seq<nat>, i: nat)
    requires i < |order|
    ensures multiset(order) == multiset(order[..i] + order[i + 1..]) + multiset{order[i]}
  {
    assert order == order[..i] + [order[i]] + order[i + 1..];
  }

  lemma OrderRemoved(order: seq<nat>, entries: map<nat, Entry>, i: nat)
    requires Ordered(order, entries) && i < |order|
    ensures Ordered(order[..i] + order[i + 1..], entries - {order[i]})
  {
    var id, rest := order[i], order[..i] + order[i + 1..];
    OneTaken(order, i);
    KeyTaken(entries.Keys, id, multiset(rest));
    assert (entries - {id}).Keys == entries.Keys - {id};
  }

  lemma KeyTaken(keys: set<nat>, id: nat, rest: multiset<nat>)
    requires multiset(keys) == rest + multiset{id}
    ensures rest == multiset(keys - {id}) && id in keys
  {
    assert multiset(keys)[id] >= 1;
    forall k: nat ensures rest[k] == multiset(keys - {id})[k] {
      assert multiset(keys)[k] == rest[k] + if k == id then 1 else 0;
    }
  }

  // Entries with readers are still there, and nothing else was put there.
  ghost predicate KeepsRead(was: map<nat, Entry>, now: map<nat, Entry>) {
    && (forall id {:trigger was[id]} :: id in was && was[id].readers > 0 ==> id in now)
    && (forall id {:trigger now[id]} :: id in now ==> id in was && now[id] == was[id])
  }

  ghost predicate AllRead(entries: map<nat, Entry>) {
    forall id {:trigger entries[id]} :: id in entries ==> entries[id].readers > 0
  }

  ghost predicate Books(entries: map<nat, Entry>, order: seq<nat>, retired: map<nat, Entry>, open: set<Reader>,
                        nextId: nat) {
    Tables(entries, retired, open, nextId) && Ordered(order, entries) && Published(entries)
  }

  lemma FirstUnreadDropped(entries: map<nat, Entry>, order: seq<nat>, retired: map<nat, Entry>, open: set<Reader>,
                           nextId: nat, i: nat)
    requires Books(entries, order, retired, open, nextId) && i < |order| && forall id :: id in order <==> id in entries
    requires entries[order[i]].readers == 0 && forall k :: 0 <= k < i ==> entries[order[k]].readers > 0
    ensures Books(entries - {order[i]}, order[..i] + order[i + 1..], retired, open, nextId)
    ensures Used(entries - {order[i]}, retired) <= Used(entries, retired) && KeepsRead(entries, entries - {order[i]})
    ensures |(entries - {order[i]}).Keys| == |entries.Keys| - 1
    ensures order[..i] + order[i + 1..] == Remaining(entries, order, 1)
  {
    hide Tables, AllBlocks, Publishable, Ordered;
    assert (entries - {order[i]}).Keys == entries.Keys - {order[i]};
    UnreadDropped(entries, retired, open, nextId, order[i]);
    RemainingOne(entries, order, i);
    OrderRemoved(order, entries, i);
  }

  // Drop the first entry in order that has no readers, if any.
  method DropUnread(entries: map<nat, Entry>, order: seq<nat>, ghost retired: map<nat, Entry>, ghost open: set<Reader>,
                    ghost nextId: nat)
    returns (ok: bool, fewer: map<nat, Entry>, rest: seq<nat>)
    requires Books(entries, order, retired, open, nextId)
    ensures Books(fewer, rest, retired, open, nextId) && Used(fewer, retired) <= Used(entries, retired)
    ensures KeepsRead(entries, fewer)
    ensures ok ==> |fewer.Keys| == |entries.Keys| - 1 && rest == Remaining(entries, order, 1)
    ensures !ok ==> fewer == entries && rest == order && AllRead(entries)
  {
    OrderedIds(order, entries);
    hide Books, KeepsRead, Remaining, AllBlocks;
    var i := 0;
    while i < |order|
      invariant i <= |order| && forall k :: 0 <= k < i ==> entries[order[k]].readers > 0
    {
      if entries[order[i]].readers == 0 {
        FirstUnreadDropped(entries, order, retired, open, nextId, i);
        return true, entries - {order[i]}, order[..i] + order[i + 1..];
      }
      i := i + 1;
    }
    return false, entries, order;
  }

  lemma NoneCounted(seen: set<Block>, entries: map<nat, Entry>)
    ensures seen == seen + AllBlocks(entries - entries.Keys)
  {
  }

  lemma OneMoreCounted(seen: set<Block>, entries: map<nat, Entry>, todo: set<nat>, id: nat, all: set<Block>)
    requires id in todo && id in entries && all == seen + AllBlocks(entries - todo)
    ensures all + entries[id].snapshot.Blocks() == seen + AllBlocks(entries - (todo - {id}))
  {
    hide AllBlocks;
    BlocksAdded(entries - todo, id, entries[id]);
    assert entries - (todo - {id}) == (entries - todo)[id := entries[id]];
  }

  lemma AllCounted(entries: map<nat, Entry>)
    ensures entries - {} == entries
  {
  }

  method CountEntries(n: nat, seen: set<Block>, entries: map<nat, Entry>) returns (m: nat, all: set<Block>)
    requires n == Total(seen, BlockSize)
    ensures all == seen + AllBlocks(entries) && m == Total(all, BlockSize)
  {
    hide AllBlocks, Total;
    var todo := entries.Keys;
    m, all := n, seen;
    NoneCounted(seen, entries);
    while todo != {}
      invariant todo <= entries.Keys && m == Total(all, BlockSize)
      invariant all == seen + AllBlocks(entries - todo)
      decreases todo
    {
      var id :| id in todo;
      OneMoreCounted(seen, entries, todo, id, all);
      todo := todo - {id};
      m, all := CountNew(m, all, entries[id].snapshot.Blocks());
    }
    AllCounted(entries);
  }

  // Add the sizes of the blocks not counted yet.
  method CountNew(n: nat, seen: set<Block>, blocks: set<Block>) returns (m: nat, all: set<Block>)
    requires n == Total(seen, BlockSize)
    ensures all == seen + blocks && m == Total(all, BlockSize)
  {
    var todo := blocks;
    m, all := n, seen;
    while todo != {}
      invariant all + todo == seen + blocks && m == Total(all, BlockSize)
      decreases |todo|
    {
      var b :| b in todo;
      todo := todo - {b};
      if b !in all {
        TotalAdd(all, b, BlockSize);
        all := all + {b};
        m := m + BlockSize(b);
      }
    }
  }
}
