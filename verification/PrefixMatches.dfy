// The readers of the host cache that requests own: accepted by a match, kept under the request
// handle, and closed by exactly one of hand-over, rollback, abort and flush.
module PrefixMatches {
  import opened C4Layout
  import CaptureBytes
  import opened HostPrefix
  import ImageIdentity
  import PrefixCapture

  type Handle = nat

  ghost predicate MatchOf(matches: map<Handle, Reader>, r: Reader) {
    exists h {:trigger matches[h]} :: h in matches && matches[h] == r
  }

  ghost predicate BasisOf(basis: map<nat, Reader>, r: Reader) {
    exists k {:trigger basis[k]} :: k in basis && basis[k] == r
  }

  // Every open reader is one request's or one reservation's, and each owns a reader of its own.
  ghost predicate Conserved(open: set<Reader>, basis: map<nat, Reader>, matches: map<Handle, Reader>) {
    && (forall h {:trigger matches[h]} :: h in matches ==> matches[h] in open)
    && (forall h, g {:trigger matches[h], matches[g]} :: h in matches && g in matches && h != g ==>
          matches[h] != matches[g])
    && (forall h, k {:trigger matches[h], basis[k]} :: h in matches && k in basis ==> matches[h] != basis[k])
    && (forall r {:trigger r in open} :: r in open ==> MatchOf(matches, r) || BasisOf(basis, r))
  }

  lemma MatchAdded(open: set<Reader>, basis: map<nat, Reader>, matches: map<Handle, Reader>, h: Handle, r: Reader)
    requires Conserved(open, basis, matches) && r !in open && h !in matches
    requires forall k :: k in basis ==> basis[k] in open
    ensures Conserved(open + {r}, basis, matches[h := r])
  {
    var more := matches[h := r];
    forall x | x in open + {r} ensures MatchOf(more, x) || BasisOf(basis, x) {
      if x == r {
        assert more[h] == x;
      } else if MatchOf(matches, x) {
        var g :| g in matches && matches[g] == x;
        assert more[g] == x;
      }
    }
  }

  lemma MatchRemoved(open: set<Reader>, basis: map<nat, Reader>, matches: map<Handle, Reader>, h: Handle, r: Reader,
                     less: map<Handle, Reader>)
    requires Conserved(open, basis, matches) && h in matches && r == matches[h] && less == Dropping(matches, h)
    ensures r in open && Conserved(open - {r}, basis, less) && forall k :: k in basis ==> basis[k] != r
  {
    forall x | x in open - {r} ensures MatchOf(less, x) || BasisOf(basis, x) {
      if MatchOf(matches, x) {
        var g :| g in matches && matches[g] == x;
        assert less[g] == x;
      }
    }
  }

  // Owners of readers of one entry.
  ghost function Requests(matches: map<Handle, Reader>, id: nat): set<Handle> {
    set h | h in matches && matches[h].entryId == id
  }

  ghost function Captures(basis: map<nat, Reader>, id: nat): set<nat> { set k | k in basis && basis[k].entryId == id }

  /** The reader count of an entry is the number of requests that matched it and of captures that
      build on it. */
  lemma ReadersAreOwners(s: State, matches: map<Handle, Reader>, id: nat)
    requires Tables(s.entries, s.retired, s.open, s.nextId) && Handles(s.open, s.held, s.basis, s.serial)
    requires Conserved(s.open, s.basis, matches)
    ensures id in s.entries ==> s.entries[id].readers == |Requests(matches, id)| + |Captures(s.basis, id)|
    ensures id in s.retired ==> s.retired[id].readers == |Requests(matches, id)| + |Captures(s.basis, id)| > 0
  {
    MatchReadersCount(matches, Requests(matches, id));
    BasisReadersCount(s.basis, Captures(s.basis, id));
    OwnersRead(s.open, s.basis, matches, id);
    assert id in s.entries ==> Kept(id, s.entries[id], s.open, s.nextId);
    assert id in s.retired ==> Kept(id, s.retired[id], s.open, s.nextId);
  }

  lemma OwnersRead(open: set<Reader>, basis: map<nat, Reader>, matches: map<Handle, Reader>, id: nat)
    requires Conserved(open, basis, matches) && forall k :: k in basis ==> basis[k] in open
    ensures Pins(open, id) == |MatchReaders(matches, Requests(matches, id))|
      + |BasisReaders(basis, Captures(basis, id))|
  {
    var a, b := MatchReaders(matches, Requests(matches, id)), BasisReaders(basis, Captures(basis, id));
    assert a + b <= ReadersOf(open, id);
    OwnersDiffer(open, basis, matches, Requests(matches, id), Captures(basis, id));
    hide Conserved, MatchReaders, BasisReaders;
    forall r | r in ReadersOf(open, id) ensures r in a + b {
      OwnerReads(open, basis, matches, id, r);
    }
    assert ReadersOf(open, id) == a + b;
  }

  lemma OwnersDiffer(open: set<Reader>, basis: map<nat, Reader>, matches: map<Handle, Reader>, a: set<Handle>,
                     b: set<nat>)
    requires Conserved(open, basis, matches) && a <= matches.Keys && b <= basis.Keys
    ensures MatchReaders(matches, a) !! BasisReaders(basis, b)
  {
  }

  lemma OwnerReads(open: set<Reader>, basis: map<nat, Reader>, matches: map<Handle, Reader>, id: nat, r: Reader)
    requires Conserved(open, basis, matches) && r in ReadersOf(open, id)
    ensures r in MatchReaders(matches, Requests(matches, id)) || r in BasisReaders(basis, Captures(basis, id))
  {
    if MatchOf(matches, r) {
      var h :| h in matches && matches[h] == r;
      assert h in Requests(matches, id);
    } else {
      var k :| k in basis && basis[k] == r;
      assert k in Captures(basis, id);
    }
  }

  ghost function MatchReaders(matches: map<Handle, Reader>, owners: set<Handle>): set<Reader>
    requires owners <= matches.Keys
  {
    set h | h in owners :: matches[h]
  }

  lemma {:induction false} MatchReadersCount(matches: map<Handle, Reader>, owners: set<Handle>)
    requires owners <= matches.Keys
    requires forall h, g {:trigger matches[h], matches[g]} :: h in matches && g in matches && h != g ==>
      matches[h] != matches[g]
    ensures |MatchReaders(matches, owners)| == |owners|
    decreases |owners|
  {
    if owners == {} {
      assert MatchReaders(matches, owners) == {};
    } else {
      var h :| h in owners;
      MatchReadersCount(matches, owners - {h});
      assert MatchReaders(matches, owners) == MatchReaders(matches, owners - {h}) + {matches[h]};
    }
  }

  ghost function BasisReaders(basis: map<nat, Reader>, owners: set<nat>): set<Reader>
    requires owners <= basis.Keys
  {
    set k | k in owners :: basis[k]
  }

  lemma {:induction false} BasisReadersCount(basis: map<nat, Reader>, owners: set<nat>)
    requires owners <= basis.Keys && forall k, l :: k in basis && l in basis && basis[k] == basis[l] ==> k == l
    ensures |BasisReaders(basis, owners)| == |owners|
    decreases |owners|
  {
    if owners == {} {
      assert BasisReaders(basis, owners) == {};
    } else {
      var k :| k in owners;
      BasisReadersCount(basis, owners - {k});
      assert BasisReaders(basis, owners) == BasisReaders(basis, owners - {k}) + {basis[k]};
    }
  }

  // An undecided extension has the reader that was matched for it.
  ghost predicate Recorded(restoring: map<Handle, Option<Reader>>, matches: map<Handle, Reader>) {
    forall h {:trigger restoring[h]} :: h in restoring ==> restoring[h] == MatchedTo(matches, h)
  }

  function MatchedTo(matches: map<Handle, Reader>, h: Handle): Option<Reader> {
    if h in matches then Some(matches[h]) else None
  }

  function Dropping(matches: map<Handle, Reader>, h: Handle): map<Handle, Reader> {
    if h in matches then matches - {h} else matches
  }

  // Closing the reader of a request, if it has one.
  ghost predicate Aborted(s: State, matches: map<Handle, Reader>, h: Handle, t: State) {
    if h in matches then Closable(s, matches[h]) && t == Closed(s, matches[h]) else t == s
  }

  // What a lookup did: first the earlier reader closed, then the longest checkpoint acquired.
  ghost predicate Looked(s: State, matches: map<Handle, Reader>, h: Handle, model: string, extra: string,
                         tokens: seq<int>, identity: Option<ImageIdentity.Identity>, r: Option<Reader>, t: State) {
    exists u :: Aborted(s, matches, h, u) &&
      Acquired(u, Namespace(model, u.epoch, extra), tokens, Cap(tokens, Some(|tokens|), identity), identity, true, r, t)
  }

  class QSAHostPrefixCache {
    const host: Cache
    var matches: map<Handle, Reader>
    var restoring: map<Handle, Option<Reader>>   // the reader of each undecided extension

    ghost predicate Valid()
      reads this, host
    {
      && host.Valid() && Conserved(host.state.open, host.state.basis, matches)
      && Recorded(restoring, matches)
    }

    constructor (host: Cache)
      requires host.Valid() && host.state.open == {}
      ensures Valid() && this.host == host && matches == map[] && restoring == map[]
    {
      this.host, matches, restoring := host, map[], map[];
    }

    // Close the reader kept under a handle and forget it.
    method CloseMatch(h: Handle)
      requires Valid() && h in matches && h !in restoring
      modifies this`matches, host`state
      ensures Valid() && matches == Dropping(old(matches), h) && Aborted(old(host.state), old(matches), h, host.state)
    {
      hide HostPrefix.Inv, Conserved, Recorded;
      var r, less := matches[h], Dropping(matches, h);
      MatchRemoved(host.state.open, host.state.basis, matches, h, r, less);
      RecordedLess(restoring, matches, h, less);
      host.CloseReader(r);
      matches := less;
    }

    /** release_aborted_request: a reader without an undecided extension is closed, and only then. */
    method ReleaseAborted(h: Handle)
      requires Valid()
      modifies this`matches, host`state
      ensures Valid()
      ensures h in restoring ==> matches == old(matches) && host.state == old(host.state)
      ensures h !in restoring ==>
        matches == Dropping(old(matches), h) && Aborted(old(host.state), old(matches), h, host.state)
    {
      hide HostPrefix.Inv, Conserved, Recorded;
      if h !in restoring && h in matches { CloseMatch(h); }
    }

    /** match_prefix: the reader of an earlier match is given up; a new one is kept only if every
        rank found the same. */
    method MatchPrefix(h: Handle, reusable: bool, model: string, extra: string, tokens: seq<int>,
                       identity: Option<ImageIdentity.Identity>, agrees: bool)
      returns (raised: bool, reader: Option<Reader>)
      requires Valid()
      modifies this`matches, host`state
      ensures Valid()
      ensures h in restoring ==> raised && reader.None? && matches == old(matches) && host.state == old(host.state)
      ensures h !in restoring ==> (raised <==> !agrees)
      ensures h !in restoring ==>
        matches == if reader.Some? then old(matches)[h := reader.value] else Dropping(old(matches), h)
      ensures reader.Some? ==> !raised && Reads(host.state, reader.value, tokens)
      ensures h !in restoring && !reusable ==>
        reader.None? && Aborted(old(host.state), old(matches), h, host.state)
      ensures h !in restoring && agrees && reusable ==>
        Looked(old(host.state), old(matches), h, model, extra, tokens, identity, reader, host.state)
    {
      hide HostPrefix.Inv, Conserved, Recorded, Acquired, Reads;
      if h in restoring { return true, None; }
      ReleaseAborted(h);
      if !reusable { return !agrees, None; }
      reader := AcquireMatch(h, model, extra, tokens, identity, agrees);
      return !agrees, reader;
    }

    // Close a reader that was just opened.
    method CloseAgain(ghost s: State, r: Reader)
      requires host.Valid() && r !in s.open && host.state.open == s.open + {r} && host.state.basis == s.basis
      requires forall k :: k in s.basis ==> s.basis[k] != r
      modifies host`state
      ensures host.Valid() && host.state.open == s.open && host.state.basis == s.basis
    {
      hide HostPrefix.Inv;
      Reopened(s.open, r);
      host.CloseReader(r);
    }

    // The lookup itself; without agreement nothing of it stays.
    method AcquireMatch(h: Handle, model: string, extra: string, tokens: seq<int>,
                        identity: Option<ImageIdentity.Identity>, agrees: bool)
      returns (reader: Option<Reader>)
      requires Valid() && h !in matches && h !in restoring
      modifies this`matches, host`state
      ensures Valid() && matches == Keeping(old(matches), h, reader)
      ensures reader.Some? ==> agrees && Reads(host.state, reader.value, tokens)
      ensures agrees ==>
        Acquired(old(host.state), Namespace(model, old(host.state).epoch, extra), tokens,
                 Cap(tokens, Some(|tokens|), identity), identity, true, reader, host.state)
    {
      hide HostPrefix.Inv, Conserved, Recorded, Acquired, Reads, HostPrefix.Cap;
      ghost var s := host.state;
      reader := host.Acquire(Namespace(model, host.state.epoch, extra), tokens, Some(|tokens|), true, identity);
      if reader.None? { return; }
      AcquiredReads(s, Namespace(model, s.epoch, extra), tokens, Cap(tokens, Some(|tokens|), identity), identity,
                    reader.value, host.state, host.budget, host.maxEntries);
      if !agrees {
        CloseAgain(s, reader.value);
        return None;
      }
      Keep(s, h, reader.value);
    }

    method Keep(ghost s: State, h: Handle, r: Reader)
      requires host.Valid() && h !in matches && h !in restoring && Conserved(s.open, s.basis, matches)
      requires Recorded(restoring, matches)
      requires r !in s.open && host.state.open == s.open + {r} && host.state.basis == s.basis
      requires forall k :: k in s.basis ==> s.basis[k] in s.open
      modifies this`matches
      ensures Valid() && matches == old(matches)[h := r]
    {
      hide HostPrefix.Inv, Conserved, Recorded;
      MatchAdded(s.open, s.basis, matches, h, r);
      RecordedMore(restoring, matches, h, r);
      matches := matches[h := r];
    }

    /** prepare_prefix_for_extend: a second record is refused; otherwise the record owns what was
        matched, before any check raises: that the ranks agree, and that a hit was admitted at its
        length into a fresh row. */
    method Prepare(h: Handle, agrees: bool, holdsKv: bool, prefixLen: nat, isFresh: bool) returns (raised: bool)
      requires Valid()
      modifies this`restoring
      ensures Valid()
      ensures h in old(restoring) ==> raised && restoring == old(restoring)
      ensures h !in old(restoring) ==>
        restoring == old(restoring)[h := if h in matches then Some(matches[h]) else None]
      ensures h !in old(restoring) && h in matches ==>
        (raised <==> !(agrees && prefixLen == matches[h].snapshot.Length() && isFresh))
      ensures h !in old(restoring) && h !in matches ==> (raised <==> !(agrees && (holdsKv || prefixLen == 0)))
    {
      hide HostPrefix.Inv, Conserved;
      if h in restoring { return true; }
      restoring := restoring[h := MatchedTo(matches, h)];
      if !agrees { return true; }
      if h !in matches { return !holdsKv && prefixLen > 0; }
      return prefixLen != matches[h].snapshot.Length() || !isFresh;
    }

    /** maybe_hand_to_session: a restored snapshot's reader is closed, and the record forgotten; an
        identity that changed, or a restore that fails, leaves both for the rollback. */
    method Hand(h: Handle, model: string, extra: string, restores: bool) returns (raised: bool)
      requires Valid()
      modifies this`matches, this`restoring, host`state
      ensures Valid()
      ensures raised <==>
        && h in old(restoring) && old(restoring)[h].Some?
        && !(old(restoring)[h].value.snapshot.namespace == Namespace(model, old(host.state).epoch, extra) && restores)
      ensures raised || h !in old(restoring) ==>
        matches == old(matches) && restoring == old(restoring) && host.state == old(host.state)
      ensures !raised && h in old(restoring) ==>
        && restoring == old(restoring) - {h} && matches == Dropping(old(matches), h)
        && Aborted(old(host.state), old(matches), h, host.state)
    {
      hide HostPrefix.Inv, Conserved, Recorded, Aborted;
      if h !in restoring { return false; }
      if restoring[h].Some? {
        var current := restoring[h].value.snapshot.namespace == Namespace(model, host.state.epoch, extra);
        if !(current && restores) { return true; }
      }
      EndRecord(h);
      return false;
    }

    /** The end of a rollback: the reader is closed and the record forgotten. */
    method EndRecord(h: Handle)
      requires Valid() && h in restoring
      modifies this`matches, this`restoring, host`state
      ensures Valid() && h !in restoring && h !in matches
      ensures restoring == old(restoring) - {h} && matches == Dropping(old(matches), h)
      ensures Aborted(old(host.state), old(matches), h, host.state)
    {
      hide HostPrefix.Inv, Conserved, Aborted;
      restoring := restoring - {h};
      ReleaseAborted(h);
    }

    /** _drop_host_prefixes: not during an extension; otherwise every request's reader is closed and
        only what captures still read is kept. */
    method DropHostPrefixes(handles: seq<Handle>) returns (raised: bool)
      requires Valid() && OnlyFrom(matches, handles, 0)
      modifies this`matches, host`state
      ensures Valid() && (raised <==> restoring != map[])
      ensures raised ==> matches == old(matches) && host.state == old(host.state)
      ensures !raised ==>
        matches == map[] && host.state.entries == map[] && host.state.epoch == old(host.state).epoch + 1
      ensures !raised ==> host.state.basis == old(host.state).basis
      ensures !raised ==> forall r :: r in host.state.open <==> BasisOf(host.state.basis, r)
      ensures !raised && host.state.basis == map[] ==> host.state.retired == map[]
    {
      hide HostPrefix.Inv, Conserved, Recorded;
      if restoring != map[] { return true; }
      CloseMatches(handles);
      Flush();
      return false;
    }

    method CloseMatches(handles: seq<Handle>)
      requires Valid() && restoring == map[] && OnlyFrom(matches, handles, 0)
      modifies this`matches, host`state
      ensures Valid() && OnlyFrom(matches, handles, |handles|) && SameBasis(old(host.state), host.state)
    {
      hide HostPrefix.Inv, Conserved, Recorded;
      ghost var s := host.state;
      for i := 0 to |handles|
        invariant Valid() && OnlyFrom(matches, handles, i) && SameBasis(s, host.state)
      {
        CloseOne(handles, i);
      }
    }

    method CloseOne(handles: seq<Handle>, i: nat)
      requires Valid() && i < |handles| && handles[i] !in restoring && OnlyFrom(matches, handles, i)
      modifies this`matches, host`state
      ensures Valid() && OnlyFrom(matches, handles, i + 1) && SameBasis(old(host.state), host.state)
    {
      hide HostPrefix.Inv, Conserved, Recorded, OnlyFrom;
      ghost var s, all := host.state, matches;
      ReleaseAborted(handles[i]);
      AbortedKeeps(s, all, host.state, handles, i);
    }

    method Flush()
      requires Valid() && (forall h :: h !in matches.Keys)
      modifies host`state
      ensures Valid() && matches == map[] && host.state.entries == map[]
      ensures host.state.epoch == old(host.state).epoch + 1
      ensures host.state.basis == old(host.state).basis
      ensures forall r :: r in host.state.open <==> BasisOf(host.state.basis, r)
      ensures host.state.basis == map[] ==> host.state.retired == map[]
    {
      host.Reset();
      OnlyCaptures(host.state, matches);
    }

    /** checkpoint: whatever becomes of the capture, every reader's owner stays its owner. */
    method Checkpoint(model: string, extra: string, tokens: seq<int>, identity: Option<ImageIdentity.Identity>,
                      basisId: Option<nat>, basisLength: nat, g: CaptureBytes.Geometry, m: PrefixCapture.Memory,
                      current: bool, copies: bool, agrees: bool)
      returns (end: PrefixCapture.Outcome)
      requires Valid() && |tokens| > 0 && |tokens| % 64 == 0
      requires PrefixCapture.New(m, g, |tokens|, PrefixCapture.InUse(host.state))
      modifies host`state
      ensures Valid() && PrefixCapture.LeftAsBefore(old(host.state), host.state)
      ensures end.Published? ==>
        PrefixCapture.Holds(host.state, end.id, Namespace(model, old(host.state).epoch, extra), tokens, identity)
    {
      hide HostPrefix.Inv, Conserved, Recorded, PrefixCapture.New, PrefixCapture.Holds, PrefixCapture.Grown;
      var basis;
      end, basis := PrefixCapture.Checkpoint(host, Namespace(model, host.state.epoch, extra), tokens, identity, basisId,
                                             basisLength, g, m, current, copies, agrees);
    }
  }

  ghost predicate SameBasis(s: State, t: State) { t.basis == s.basis && t.epoch == s.epoch }

  // Every request left is listed at `from` or later.
  ghost predicate OnlyFrom(matches: map<Handle, Reader>, handles: seq<Handle>, from: nat) {
    forall h {:trigger h in matches.Keys} :: h in matches.Keys ==> exists j :: from <= j < |handles| && handles[j] == h
  }

  lemma AbortedKeeps(s: State, matches: map<Handle, Reader>, t: State, handles: seq<Handle>, i: nat)
    requires i < |handles| && Aborted(s, matches, handles[i], t) && OnlyFrom(matches, handles, i)
    ensures SameBasis(s, t) && OnlyFrom(Dropping(matches, handles[i]), handles, i + 1)
  {
  }

  lemma NoMatches(matches: map<Handle, Reader>)
    requires forall h :: h !in matches.Keys
    ensures matches == map[]
  {
    assert matches.Keys == {};
  }

  // With no request left, every open reader is a capture's; without captures nothing is retired.
  lemma OnlyCaptures(s: State, matches: map<Handle, Reader>)
    requires Conserved(s.open, s.basis, matches) && (forall h :: h !in matches.Keys)
    requires forall k :: k in s.basis ==> s.basis[k] in s.open
    requires Tables(s.entries, s.retired, s.open, s.nextId)
    ensures matches == map[] && forall r :: r in s.open <==> BasisOf(s.basis, r)
    ensures s.basis == map[] ==> s.retired == map[]
  {
    forall r | r in s.open ensures BasisOf(s.basis, r) {
      assert MatchOf(matches, r) || BasisOf(s.basis, r);
    }
    NoMatches(matches);
    if s.basis == map[] {
      assert s.open == {};
      NoneRetired(s.retired, s.open, s.nextId);
    }
  }

  lemma NoneRetired(retired: map<nat, Entry>, open: set<Reader>, nextId: nat)
    requires open == {}
    requires forall id {:trigger retired[id]} :: id in retired ==>
      Kept(id, retired[id], open, nextId) && retired[id].readers > 0
    ensures retired == map[]
  {
    forall id: nat ensures Pins(open, id) == 0 {
      assert ReadersOf(open, id) == {};
    }
    assert retired.Keys == {};
  }

  function Keeping(matches: map<Handle, Reader>, h: Handle, reader: Option<Reader>): map<Handle, Reader> {
    if reader.Some? then matches[h := reader.value] else matches
  }

  lemma Reopened(open: set<Reader>, r: Reader)
    requires r !in open
    ensures open + {r} - {r} == open
  {
  }

  // A reader pins a live entry whose tokens begin the prompt.
  ghost predicate Reads(s: State, r: Reader, tokens: seq<int>) {
    && r in s.open && r.entryId in s.entries && s.entries[r.entryId].snapshot == r.snapshot
    && s.entries[r.entryId].readers > 0
    && r.snapshot.namespace.epoch == s.epoch && r.snapshot.tokens <= tokens
  }

  lemma AcquiredReads(s: State, namespace: Namespace, tokens: seq<int>, cap: nat,
                      identity: Option<ImageIdentity.Identity>, r: Reader, t: State, budget: nat, maxEntries: nat)
    requires Inv(s, budget, maxEntries, 0, 0) && namespace.epoch == s.epoch
    requires Acquired(s, namespace, tokens, cap, identity, true, Some(r), t)
    ensures r !in s.open && t.open == s.open + {r} && t.basis == s.basis
    ensures forall k :: k in s.basis ==> s.basis[k] in s.open && s.basis[k] != r
    ensures Reads(t, r, tokens)
  {
    var i :| 0 <= i < |s.order| && s.order[i] == r.entryId && t == Opened(s, r, true, i);
  }

  lemma RecordedMore(restoring: map<Handle, Option<Reader>>, matches: map<Handle, Reader>, h: Handle, r: Reader)
    requires Recorded(restoring, matches) && h !in restoring
    ensures Recorded(restoring, matches[h := r])
  {
  }

  lemma RecordedLess(restoring: map<Handle, Option<Reader>>, matches: map<Handle, Reader>, h: Handle,
                     less: map<Handle, Reader>)
    requires Recorded(restoring, matches) && h !in restoring && less == Dropping(matches, h)
    ensures Recorded(restoring, less)
  {
  }
}
