// Leases of the single prefill lane, the decode rings and the host slabs, from acquisition to
// the return of their slot.
module Slots {
  import opened C4Layout

  datatype Lease = Lease(reqPoolIdx: int, generation: int, rid: string, slot: nat)
  datatype Phase = Prefill | Copying | HostReady | Decode | Failed | Drained | LogicalFlushed

  ghost predicate Ascending(s: seq<nat>) { forall i, j :: 0 <= i < j < |s| ==> s[i] < s[j] }

  ghost function SlotsOf(active: map<int, Lease>): set<nat> { set k | k in active :: active[k].slot }

  // Active leases and free slots share out the slots; a lease is listed under its request row
  // with the row's last generation; whoever is in prefill or copying owns the staging area.
  ghost predicate Tables(active: map<int, Lease>, phases: map<int, Phase>, last: map<int, int>, free: seq<nat>,
                         owner: Option<Lease>, maxRequests: nat) {
    phases.Keys == active.Keys && Shared(active, last, free, maxRequests) && Staged(active, phases, owner)
  }

  ghost predicate Shared(active: map<int, Lease>, last: map<int, int>, free: seq<nat>, maxRequests: nat) {
    && (forall k {:trigger active[k]} :: k in active ==>
          active[k].reqPoolIdx == k && k in last && active[k].generation == last[k] && active[k].slot < maxRequests
          && active[k].slot !in free)
    && (forall k, l {:trigger active[k], active[l]} ::
          k in active && l in active && active[k].slot == active[l].slot ==> k == l)
    && Ascending(free) && (forall s: nat :: s < maxRequests <==> s in free || s in SlotsOf(active))
  }

  lemma RowsListed(active: map<int, Lease>, last: map<int, int>, free: seq<nat>, maxRequests: nat)
    requires Shared(active, last, free, maxRequests)
    ensures forall k {:trigger active[k]} :: k in active ==>
      active[k].reqPoolIdx == k && k in last && active[k].generation == last[k]
  {
  }

  ghost predicate Staged(active: map<int, Lease>, phases: map<int, Phase>, owner: Option<Lease>)
    requires phases.Keys == active.Keys
  {
    && (forall k {:trigger phases[k]} :: k in phases && phases[k] in {Prefill, Copying} ==> owner == Some(active[k]))
    && (owner.Some? ==>
          && owner.value.reqPoolIdx in active && active[owner.value.reqPoolIdx] == owner.value
          && phases[owner.value.reqPoolIdx] in {Prefill, Copying, Failed})
  }

  // What has been seen of each lease: its events waited for, its pages flushed, its slot given back.
  ghost predicate History(active: map<int, Lease>, phases: map<int, Phase>, last: map<int, int>,
                          waited: set<Lease>, flushed: set<Lease>, committed: set<Lease>) {
    && phases.Keys == active.Keys && committed <= waited && committed <= flushed
    && (forall k {:trigger phases[k]} :: k in phases && phases[k] in {Drained, LogicalFlushed} ==> active[k] in waited)
    && (forall k {:trigger phases[k]} :: k in phases && phases[k] == LogicalFlushed ==> active[k] in flushed)
    && (forall l {:trigger l in committed} :: l in committed ==>
          l.reqPoolIdx in last && l.generation <= last[l.reqPoolIdx])
    && (forall k {:trigger active[k]} :: k in active ==> active[k] !in committed)
  }

  // Insertion keeps the free slots sorted.
  function Inserted(free: seq<nat>, slot: nat): (r: seq<nat>)
    ensures |r| == |free| + 1
  {
    if free == [] then [slot]
    else if slot <= free[0] then [slot] + free
    else [free[0]] + Inserted(free[1..], slot)
  }

  lemma {:induction false} InsertedHas(free: seq<nat>, slot: nat)
    ensures forall s: nat :: s in Inserted(free, slot) <==> s == slot || s in free
  {
    if free != [] && slot > free[0] {
      InsertedHas(free[1..], slot);
      assert free == [free[0]] + free[1..];
    }
  }

  lemma {:induction false} InsertedAscends(free: seq<nat>, slot: nat)
    requires Ascending(free) && slot !in free
    ensures Ascending(Inserted(free, slot))
  {
    if free != [] {
      assert slot != free[0];
      if slot > free[0] {
        var rest := Inserted(free[1..], slot);
        assert free == [free[0]] + free[1..];
        InsertedAscends(free[1..], slot);
        InsertedHas(free[1..], slot);
        forall j | 0 <= j < |rest| ensures free[0] < rest[j] {
          assert rest[j] in rest;
          AboveFirst(free, rest[j], slot);
        }
      }
    }
  }

  lemma AboveFirst(free: seq<nat>, s: nat, slot: nat)
    requires Ascending(free) && |free| > 0 && slot > free[0] && (s == slot || s in free[1..])
    ensures s > free[0]
  {
    if s != slot {
      var i :| 0 <= i < |free[1..]| && free[1..][i] == s;
      assert free[1 + i] == s;
    }
  }

  lemma {:induction false} TakenFirst(free: seq<nat>)
    requires Ascending(free) && |free| > 0
    ensures Ascending(free[1..]) && free[0] !in free[1..]
    ensures forall s: nat :: s in free <==> s == free[0] || s in free[1..]
  {
    assert free == [free[0]] + free[1..];
    forall j | 0 <= j < |free| - 1 ensures free[1..][j] > free[0] { assert free[1..][j] == free[1 + j]; }
  }

  // The slots of the active leases with one more, or one less.
  lemma SlotsMore(active: map<int, Lease>, more: map<int, Lease>, k: int)
    requires k !in active && k in more && active == more - {k}
    ensures forall s: nat :: s in SlotsOf(more) <==> s in SlotsOf(active) || s == more[k].slot
  {
    forall s: nat ensures s in SlotsOf(more) <==> s in SlotsOf(active) || s == more[k].slot {
      if s in SlotsOf(more) {
        var l :| l in more && more[l].slot == s;
        if l != k { assert active[l].slot == s; }
      }
      if s in SlotsOf(active) {
        var l :| l in active && active[l].slot == s;
        assert more[l].slot == s;
      }
    }
  }

  lemma Acquired(active: map<int, Lease>, phases: map<int, Phase>, last: map<int, int>, free: seq<nat>,
                 maxRequests: nat, lease: Lease, active': map<int, Lease>, phases': map<int, Phase>,
                 last': map<int, int>, free': seq<nat>)
    requires Tables(active, phases, last, free, None, maxRequests) && |free| > 0 && lease.slot == free[0]
    requires free' == free[1..]
    requires lease.reqPoolIdx !in active
    requires active' == active[lease.reqPoolIdx := lease] && phases' == phases[lease.reqPoolIdx := Prefill]
    requires last' == last[lease.reqPoolIdx := lease.generation]
    ensures Tables(active', phases', last', free', Some(lease), maxRequests)
  {
    hide Shared;
    SlotTaken(active, last, free, maxRequests, lease, active', last', free');
  }

  lemma SlotTaken(active: map<int, Lease>, last: map<int, int>, free: seq<nat>, maxRequests: nat, lease: Lease,
                  active': map<int, Lease>, last': map<int, int>, free': seq<nat>)
    requires Shared(active, last, free, maxRequests) && |free| > 0 && lease.slot == free[0] && free' == free[1..]
    requires lease.reqPoolIdx !in active
    requires active' == active[lease.reqPoolIdx := lease] && last' == last[lease.reqPoolIdx := lease.generation]
    ensures Shared(active', last', free', maxRequests)
  {
    TakenFirst(free);
    assert active == active' - {lease.reqPoolIdx};
    SlotsMore(active, active', lease.reqPoolIdx);
  }

  lemma Committed(active: map<int, Lease>, phases: map<int, Phase>, last: map<int, int>, free: seq<nat>,
                  owner: Option<Lease>, maxRequests: nat, k: int, active': map<int, Lease>, phases': map<int, Phase>,
                  free': seq<nat>)
    requires Tables(active, phases, last, free, owner, maxRequests) && k in active && phases[k] == LogicalFlushed
    requires active' == active - {k} && phases' == phases - {k} && free' == Inserted(free, active[k].slot)
    ensures Tables(active', phases', last, free', owner, maxRequests)
  {
    hide Shared;
    SlotReturned(active, last, free, maxRequests, k, active', free');
  }

  lemma SlotReturned(active: map<int, Lease>, last: map<int, int>, free: seq<nat>, maxRequests: nat, k: int,
                     active': map<int, Lease>, free': seq<nat>)
    requires Shared(active, last, free, maxRequests) && k in active
    requires active' == active - {k} && free' == Inserted(free, active[k].slot)
    ensures Shared(active', last, free', maxRequests)
  {
    InsertedHas(free, active[k].slot);
    InsertedAscends(free, active[k].slot);
    SlotsMore(active', active, k);
    forall l | l in active' ensures active'[l].slot !in free' { assert active[l].slot != active[k].slot; }
  }

  lemma Drains(active: map<int, Lease>, phases: map<int, Phase>, last: map<int, int>, free: seq<nat>,
               owner: Option<Lease>, maxRequests: nat, waited: set<Lease>, flushed: set<Lease>, committed: set<Lease>,
               lease: Lease, ok: bool, phases': map<int, Phase>, owner': Option<Lease>)
    requires Tables(active, phases, last, free, owner, maxRequests)
    requires History(active, phases, last, waited, flushed, committed)
    requires lease.reqPoolIdx in active && active[lease.reqPoolIdx] == lease
    requires phases' == phases[lease.reqPoolIdx := if ok then Drained else Failed]
    requires owner' == if ok && owner == Some(lease) then None else owner
    ensures Tables(active, phases', last, free, owner', maxRequests)
    ensures History(active, phases', last, if ok then waited + {lease} else waited, flushed, committed)
  {
    hide Shared;
    RowsListed(active, last, free, maxRequests);
  }

  // The events handed to a release: all there, and all of them end well.
  predicate Given(terminal: Option<bool>, copies: seq<Option<bool>>) {
    terminal.Some? && forall i :: 0 <= i < |copies| ==> copies[i].Some?
  }

  predicate Complete(terminal: Option<bool>, copies: seq<Option<bool>>) {
    terminal == Some(true) && forall i :: 0 <= i < |copies| ==> copies[i] == Some(true)
  }

  // The terminal event, then each copy event; the first that fails ends it.
  method Synchronize(terminal: bool, copies: seq<Option<bool>>) returns (done: bool)
    requires Given(Some(terminal), copies)
    ensures done <==> Complete(Some(terminal), copies)
  {
    done := terminal;
    var i := 0;
    while done && i < |copies|
      invariant i <= |copies| && (done <==> terminal && forall k :: 0 <= k < i ==> copies[k] == Some(true))
    {
      done := copies[i].value;
      i := i + 1;
    }
  }

  class QSAHiSparseSlots {
    const stagingTokens: nat
    const pageSize: nat
    const maxRequests: nat
    var active: map<int, Lease>
    var phases: map<int, Phase>
    var lastGeneration: map<int, int>
    var freeSlots: seq<nat>
    var prefillOwner: Option<Lease>
    ghost var waited: set<Lease>
    ghost var flushed: set<Lease>
    ghost var committed: set<Lease>

    ghost predicate Valid() reads this {
      && pageSize >= 4 && pageSize % 4 == 0 && stagingTokens > 0 && stagingTokens % pageSize == 0
      && Tables(active, phases, lastGeneration, freeSlots, prefillOwner, maxRequests)
      && History(active, phases, lastGeneration, waited, flushed, committed)
    }

    constructor (stagingTokens: nat, pageSize: nat, maxRequests: nat)
      requires pageSize >= 4 && pageSize % 4 == 0 && stagingTokens > 0 && stagingTokens % pageSize == 0
      requires 1 <= maxRequests <= 8
      ensures Valid() && active == map[] && lastGeneration == map[] && prefillOwner == None
      ensures |freeSlots| == maxRequests && waited == flushed == committed == {}
      ensures this.stagingTokens == stagingTokens && this.pageSize == pageSize && this.maxRequests == maxRequests
    {
      this.stagingTokens, this.pageSize, this.maxRequests := stagingTokens, pageSize, maxRequests;
      active, phases, lastGeneration, prefillOwner := map[], map[], map[], None;
      freeSlots := seq(maxRequests, i => i);
      waited, flushed, committed := {}, {}, {};
      new;
      forall s: nat | s < maxRequests ensures s in freeSlots { assert freeSlots[s] == s; }
    }

    /** A lease passes only if it is the active one of its row, in one of the phases named. */
    predicate Requires(lease: Lease, allowed: set<Phase>) reads this
      requires phases.Keys == active.Keys
    {
      lease.reqPoolIdx in active && active[lease.reqPoolIdx] == lease && phases[lease.reqPoolIdx] in allowed
    }

    // A lease is active, in one of the phases named.
    ghost predicate Passes(lease: Lease, allowed: set<Phase>) reads this
      requires phases.Keys == active.Keys
    {
      exists k {:trigger active[k]} :: k in active && active[k] == lease && phases[k] in allowed
    }

    /** require: looking at the lease's own row is enough. */
    lemma RequiresIff(lease: Lease, allowed: set<Phase>)
      requires Valid()
      ensures Requires(lease, allowed) <==> Passes(lease, allowed)
    {
      if Requires(lease, allowed) { assert active[lease.reqPoolIdx] == lease; }
    }

    /** acquire: a newer generation of a row that holds nothing takes the staging area and the
        lowest free slot. */
    method Acquire(reqPoolIdx: int, generation: int, rid: string) returns (r: Option<Lease>)
      requires Valid()
      modifies this`active, this`phases, this`lastGeneration, this`freeSlots, this`prefillOwner
      ensures Valid()
      ensures r.Some? <==> old(
        && reqPoolIdx > 0 && generation > 0 && rid != "" && reqPoolIdx !in active
        && generation > (if reqPoolIdx in lastGeneration then lastGeneration[reqPoolIdx] else 0)
        && prefillOwner.None? && |freeSlots| > 0)
      ensures r.None? ==> unchanged(this)
      ensures r.Some? ==>
        r.value == Lease(reqPoolIdx, generation, rid, old(freeSlots)[0]) && freeSlots == old(freeSlots)[1..]
      ensures r.Some? ==> active == old(active)[reqPoolIdx := r.value] && phases == old(phases)[reqPoolIdx := Prefill]
      ensures r.Some? ==> lastGeneration == old(lastGeneration)[reqPoolIdx := generation] && prefillOwner == r
      ensures r.Some? ==> r.value !in committed && forall s :: s in old(freeSlots) ==> r.value.slot <= s
    {
      if reqPoolIdx <= 0 || generation <= 0 || rid == "" { return None; }
      if reqPoolIdx in active { return None; }
      if generation <= (if reqPoolIdx in lastGeneration then lastGeneration[reqPoolIdx] else 0) { return None; }
      if prefillOwner.Some? { return None; }
      if |freeSlots| == 0 { return None; }
      var lease := Lease(reqPoolIdx, generation, rid, freeSlots[0]);
      assert freeSlots[0] in freeSlots;
      Acquired(active, phases, lastGeneration, freeSlots, maxRequests, lease, active[reqPoolIdx := lease],
               phases[reqPoolIdx := Prefill], lastGeneration[reqPoolIdx := generation], freeSlots[1..]);
      freeSlots := freeSlots[1..];
      active := active[reqPoolIdx := lease];
      lastGeneration := lastGeneration[reqPoolIdx := generation];
      phases := phases[reqPoolIdx := Prefill];
      prefillOwner := Some(lease);
      return Some(lease);
    }

    /** staging_slice: the owner of the staging area, while it prefills or copies. */
    function StagingSlice(lease: Lease, start: int, stop: int): (r: Option<(nat, nat)>) reads this
      requires Valid()
      ensures r.Some? <==>
        && Passes(lease, {Prefill, Copying}) && prefillOwner == Some(lease)
        && 0 <= start <= stop <= stagingTokens
      ensures r.Some? ==>
        pageSize <= r.value.0 <= r.value.1 <= pageSize + stagingTokens && r.value.1 - r.value.0 == stop - start
    {
      RequiresIff(lease, {Prefill, Copying});
      if !Requires(lease, {Prefill, Copying}) || prefillOwner != Some(lease) then None
      else if !(0 <= start <= stop <= stagingTokens) then None
      else Some((pageSize + start, pageSize + stop))
    }

    /** Stretches that adjoin in the context adjoin in the staging area, and the context begins right
        behind the padding page. */
    lemma StagingAdjoins(lease: Lease, a: nat, b: nat, c: nat)
      requires Valid() && StagingSlice(lease, a, b).Some? && StagingSlice(lease, b, c).Some?
      ensures StagingSlice(lease, a, b).value.1 == StagingSlice(lease, b, c).value.0
      ensures StagingSlice(lease, 0, a).Some? && StagingSlice(lease, 0, a).value.0 == pageSize
    {
      RequiresIff(lease, {Prefill, Copying});
    }

    function RingStart(slot: nat): nat { pageSize + stagingTokens + 5 * slot }

    // MHA adds a page of padding to the pool's size.
    function RawPoolSize(): nat { stagingTokens + 5 * maxRequests }

    /** ring_write_location: for a lease in decode, at every length of a context, a member row of its
        ring and never the padding row. */
    function RingWriteLocation(lease: Lease, seqLen: int): (r: Option<nat>) reads this
      requires Valid()
      ensures r.Some? <==> Passes(lease, {Decode}) && 1 <= seqLen <= stagingTokens
      ensures r.Some? ==> RingStart(lease.slot) < r.value < RingStart(lease.slot) + 5
    {
      RequiresIff(lease, {Decode});
      if !Requires(lease, {Decode}) || !(1 <= seqLen <= stagingTokens) then None
      else Some(RingStart(lease.slot) + RingRow(seqLen))
    }

    /** The tokens of a block take the member rows of the ring in order from the first, so that the
        ring holds the open block; two lengths share a row exactly if they are equal mod 4. */
    lemma RingHoldsBlock(lease: Lease, b: nat, m: nat, other: nat)
      requires Valid() && m < 4 && RingWriteLocation(lease, 4 * b + m + 1).Some?
      requires RingWriteLocation(lease, other).Some?
      ensures RingWriteLocation(lease, 4 * b + m + 1).value == pageSize + stagingTokens + 5 * lease.slot + 1 + m
      ensures RingWriteLocation(lease, 4 * b + m + 1) == RingWriteLocation(lease, other)
         <==> (4 * b + m + 1) % 4 == other % 4
    {
      RingRowsOfBlock(b, m, other);
    }

    /** Rings of different active leases do not meet, nor the staging area, nor the pool's end. */
    lemma RingsDisjoint(a: Lease, b: Lease)
      requires Valid() && a.reqPoolIdx in active && active[a.reqPoolIdx] == a
      requires b.reqPoolIdx in active && active[b.reqPoolIdx] == b && a != b
      ensures RingStart(a.slot) + 5 <= RingStart(b.slot) || RingStart(b.slot) + 5 <= RingStart(a.slot)
      ensures pageSize + stagingTokens <= RingStart(a.slot) && RingStart(a.slot) + 5 <= pageSize + RawPoolSize()
      ensures a.slot == maxRequests - 1 ==> RingStart(a.slot) + 5 == pageSize + RawPoolSize()
    {
      assert active[a.reqPoolIdx].slot != active[b.reqPoolIdx].slot;
    }

    /** A committed lease never passes a check again, whatever its row holds since. */
    lemma CommittedIsStale(lease: Lease, allowed: set<Phase>)
      requires Valid() && lease in committed
      ensures !Requires(lease, allowed)
    {
    }

    /** At most one lease is in prefill or copying. */
    lemma OnePrefill(a: int, b: int)
      requires Valid() && a in phases && b in phases && phases[a] in {Prefill, Copying}
      requires phases[b] in {Prefill, Copying}
      ensures a == b
    {
      assert active[a].reqPoolIdx == a && active[b].reqPoolIdx == b;
    }

    method BeginHandoff(lease: Lease) returns (ok: bool)
      requires Valid()
      modifies this`phases
      ensures Valid() && ok == old(Requires(lease, {Prefill}) && prefillOwner == Some(lease))
      ensures phases == if ok then old(phases)[lease.reqPoolIdx := Copying] else old(phases)
    {
      if !Requires(lease, {Prefill}) || prefillOwner != Some(lease) { return false; }
      phases := phases[lease.reqPoolIdx := Copying];
      return true;
    }

    /** finish_handoff: the staging area is given up only once its copies have completed. */
    method FinishHandoff(lease: Lease, completion: Option<bool>) returns (ok: bool)
      requires Valid()
      modifies this`phases, this`prefillOwner
      ensures Valid()
      ensures ok == old(Requires(lease, {Copying}) && completion == Some(true) && prefillOwner == Some(lease))
      ensures phases == if ok then old(phases)[lease.reqPoolIdx := HostReady] else old(phases)
      ensures prefillOwner == if ok then None else old(prefillOwner)
    {
      if !Requires(lease, {Copying}) { return false; }
      if completion != Some(true) || prefillOwner != Some(lease) { return false; }
      phases := phases[lease.reqPoolIdx := HostReady];
      prefillOwner := None;
      return true;
    }

    method AdmitDecode(lease: Lease) returns (ok: bool)
      requires Valid()
      modifies this`phases
      ensures Valid() && ok == old(Requires(lease, {HostReady}))
      ensures phases == if ok then old(phases)[lease.reqPoolIdx := Decode] else old(phases)
    {
      if !Requires(lease, {HostReady}) { return false; }
      phases := phases[lease.reqPoolIdx := Decode];
      return true;
    }

    /** A failed handoff or replay marks the lease; nothing is given back by that. */
    method MarkFailed(lease: Lease)
      requires Valid() && lease.reqPoolIdx in active && active[lease.reqPoolIdx] == lease
      modifies this`phases
      ensures Valid() && phases == old(phases)[lease.reqPoolIdx := Failed]
    {
      hide Shared;
      phases := phases[lease.reqPoolIdx := Failed];
    }

    /** drain: every event is given and waited for, in order; a wait that fails keeps the lease. */
    method Drain(lease: Lease, terminal: Option<bool>, copies: seq<Option<bool>>) returns (ok: bool)
      requires Valid()
      modifies this`phases, this`prefillOwner, this`waited
      ensures Valid()
      ensures ok == (old(Requires(lease, {Prefill, Copying, HostReady, Decode, Failed})) && Complete(terminal, copies))
      ensures ok ==> terminal == Some(true) && forall i :: 0 <= i < |copies| ==> copies[i] == Some(true)
      ensures !ok && old(Requires(lease, {Prefill, Copying, HostReady, Decode, Failed})) ==>
        terminal != Some(true) || exists i :: 0 <= i < |copies| && copies[i] != Some(true)
      ensures ok ==> phases == old(phases)[lease.reqPoolIdx := Drained] && waited == old(waited) + {lease}
      ensures ok ==> prefillOwner == if old(prefillOwner) == Some(lease) then None else old(prefillOwner)
      ensures !ok ==> waited == old(waited) && prefillOwner == old(prefillOwner)
      ensures !ok ==> phases == old(phases) || phases == old(phases)[lease.reqPoolIdx := Failed]
    {
      hide Shared, Staged;
      if !Requires(lease, {Prefill, Copying, HostReady, Decode, Failed}) { return false; }
      if !Given(terminal, copies) { return false; }
      ok := Synchronize(terminal.value, copies);
      var owner := if ok && prefillOwner == Some(lease) then None else prefillOwner;
      var moved := phases[lease.reqPoolIdx := if ok then Drained else Failed];
      Drains(active, phases, lastGeneration, freeSlots, prefillOwner, maxRequests, waited, flushed, committed, lease,
             ok, moved, owner);
      prefillOwner, phases := owner, moved;
      if ok { waited := waited + {lease}; }
    }

    method LogicalFlush(lease: Lease, groupOpen: bool) returns (ok: bool)
      requires Valid()
      modifies this`phases, this`flushed
      ensures Valid() && ok == (old(Requires(lease, {Drained})) && !groupOpen)
      ensures phases == if ok then old(phases)[lease.reqPoolIdx := Phase.LogicalFlushed] else old(phases)
      ensures flushed == if ok then old(flushed) + {lease} else old(flushed)
    {
      hide Shared;
      if !Requires(lease, {Drained}) || groupOpen { return false; }
      phases := phases[lease.reqPoolIdx := Phase.LogicalFlushed];
      flushed := flushed + {lease};
      return true;
    }

    /** commit_release: the slot goes back among the free ones, for good of this lease. */
    method CommitRelease(lease: Lease) returns (ok: bool)
      requires Valid()
      modifies this`active, this`phases, this`freeSlots, this`committed
      ensures Valid() && ok == old(Requires(lease, {Phase.LogicalFlushed}))
      ensures !ok ==> unchanged(this)
      ensures ok ==> active == old(active) - {lease.reqPoolIdx} && phases == old(phases) - {lease.reqPoolIdx}
      ensures ok ==> freeSlots == Inserted(old(freeSlots), lease.slot) && committed == old(committed) + {lease}
      ensures ok ==> lease in waited && lease in flushed
    {
      hide Shared, Staged;
      if !Requires(lease, {Phase.LogicalFlushed}) { return false; }
      RowsListed(active, lastGeneration, freeSlots, maxRequests);
      ghost var k := lease.reqPoolIdx;
      Committed(active, phases, lastGeneration, freeSlots, prefillOwner, maxRequests, k, active - {k}, phases - {k},
                Inserted(freeSlots, lease.slot));
      active := active - {lease.reqPoolIdx};
      phases := phases - {lease.reqPoolIdx};
      freeSlots := Inserted(freeSlots, lease.slot);
      committed := committed + {lease};
      return true;
    }
  }
}
