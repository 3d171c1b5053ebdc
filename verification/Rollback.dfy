// One request's extension over the host prefix cache: allocation, restore, and a rollback that
// may fail at any of its calls and is then called again.
module Rollback {
  import opened C4Layout
  import opened Counting
  import opened Pages

  // The physical lease of the request row. Partial: taken by the slots, unknown to the runtime.
  datatype Lease = NoLease | Partial | Live | Failed | Drained | LogicalFlushed | Committed

  // The record kept under the request handle while an extension is undecided.
  datatype Record = Record(
    hit: bool,                          // a pinned snapshot is to be restored
    prefix: Option<seq<nat>>,           // tokens of the pages taken for it
    first: bool,                        // no token was allocated before
    previousAllocated: nat,
    previousCommitted: nat,
    restoring: bool,                    // a restore was submitted and its stream not drained since
    suffix: Option<Option<seq<nat>>>,   // computed once, by the first rollback
    drained: bool)

  datatype RestoreEnd = Restored | RaisedEarly | RaisedPartial | RaisedLive
  datatype ReleaseEnd = Released | RaisedBefore | RaisedFailed | RaisedDrained
  datatype AfterEnd = Finished | RaisedFlushed | RaisedLate

  // Which of a rollback's calls succeed.
  datatype Calls = Calls(synchronize: bool, freeSuffix: bool, release: ReleaseEnd, freePages: bool,
                         freeState: bool, freeRow: bool, after: AfterEnd)

  const ALL_SUCCEED := Calls(true, true, Released, true, true, true, Finished)

  // The tokens a record still has to give back.
  function Start(r: Record): nat { if r.prefix.Some? then |r.prefix.value| else r.previousAllocated }

  // What the record and the row say about the pages taken so far, none of them given back.
  ghost predicate Holding(r: Record, row: seq<nat>, length: nat, pages: seq<nat>) {
    && Paged(row, pages, length) && r.previousAllocated <= length
    && (r.prefix.Some? ==>
          && r.first && |r.prefix.value| % 64 == 0 && |r.prefix.value| / 64 <= |pages|
          && PagesOf(r.prefix.value) == PageSet(pages, 0, |r.prefix.value| / 64))
    && (if length == r.previousAllocated then
          |pages| == if r.prefix.Some? then |r.prefix.value| / 64 else PageCount(r.previousAllocated)
        else Start(r) <= length && |pages| == PageCount(length))
    && (r.suffix.Some? ==>
          r.suffix.value == if length > r.previousAllocated then Some(row[Start(r)..length]) else None)
  }

  // The pages an extension took.
  ghost function Taken(had: nat, pages: seq<nat>): set<nat> {
    if PageCount(had) <= |pages| then PageSet(pages, PageCount(had), |pages|) else {}
  }

  /** What a rollback may give back never includes a page held before the extension, the
      partly filled last one among them. */
  lemma OwnedPagesKept(had: nat, pages: seq<nat>, freed: multiset<nat>, b: nat)
    requires Distinct(pages) && freed <= multiset(Taken(had, pages)) && b < PageCount(had) && b < |pages|
    ensures pages[b] !in freed
  {
  }

  lemma PagesOfBoth(a: seq<nat>, b: seq<nat>)
    ensures PagesOf(a + b) == PagesOf(a) + PagesOf(b)
  {
    forall page | page in PagesOf(a) + PagesOf(b) ensures page in PagesOf(a + b) {
      if page in PagesOf(a) {
        var i :| 0 <= i < |a| && a[i] / 64 == page;
        assert (a + b)[i] / 64 == page;
      } else {
        var i :| 0 <= i < |b| && b[i] / 64 == page;
        assert (a + b)[|a| + i] / 64 == page;
      }
    }
  }

  // What a first extension gives back is what it took, or it has been given back already.
  lemma FirstPages(r: Record, row: seq<nat>, length: nat, pages: seq<nat>, freed: multiset<nat>)
    requires r.first && r.previousAllocated == 0 && r.suffix.Some?
    requires (freed == multiset{} && Holding(r, row, length, pages))
      || (freed == multiset(Taken(r.previousAllocated, pages)) && r.prefix.None? && r.suffix == Some(None))
    ensures var locs := (if r.prefix.Some? then r.prefix.value else [])
      + if r.suffix.value.Some? then r.suffix.value.value else [];
      freed + multiset(PagesOf(locs)) == multiset(Taken(r.previousAllocated, pages))
  {
    var prefix := if r.prefix.Some? then r.prefix.value else [];
    var suffix := if r.suffix.value.Some? then r.suffix.value.value else [];
    PagesOfBoth(prefix, suffix);
    if r.prefix.Some? || r.suffix.value.Some? {
      if r.suffix.value.Some? { AlignedPages(row, pages, |prefix|, length); }
      assert PagesOf(prefix + suffix) == Taken(r.previousAllocated, pages);
    }
  }

  // What a rollback is about.
  ghost predicate RolledBack(was: View, now: View) {
    && now.pages == was.pages
    // No page is given back twice, or before the extension took it.
    && (was.record.Some? ==> was.freed <= now.freed <= multiset(Taken(was.record.value.previousAllocated, was.pages)))
    // Without a record nothing is undone; at most a reader is closed.
    && (was.record.None? ==> now == was.(pinned := false))
    // A record that is left still pins its snapshot, and says of the request what it said before.
    && (now.record.Some? ==> was.record.Some? && now.pinned == was.pinned && Undecided(was, now))
    // When the record is gone every page taken has been given back once, and the request is what
    // it was before the extension.
    && (now.record.None? && was.record.Some? ==>
          && now.freed == multiset(Taken(was.record.value.previousAllocated, was.pages))
          && !now.pinned && Undone(was, now))
  }

  // A request whose extension is undone: a first one has given back its state slot and its row, and
  // its lease is gone or queued; a later one keeps them, at the lengths it had.
  ghost predicate Undone(was: View, now: View)
    requires was.record.Some?
  {
    var r := was.record.value;
    if r.first then
      && now.length == now.committed == 0 && !now.hasRow && !now.hasState
      && (now.lease in {NoLease, Committed} || now.pendingRelease)
    else
      && now.length == r.previousAllocated && now.committed == r.previousCommitted
      && now.hasRow == was.hasRow && now.hasState == was.hasState
      && now.lease == was.lease && now.pendingRelease == was.pendingRelease
  }

  // A rollback that raised: the record stands for the same extension, and the lengths are as they
  // were unless the row and the state slot are given back already.
  ghost predicate Undecided(was: View, now: View)
    requires was.record.Some? && now.record.Some?
  {
    && SameExtension(was.record.value, now.record.value)
    && ((now.length == was.length && now.committed == was.committed)
        || (was.record.value.first && now.length == now.committed == 0 && !now.hasRow && !now.hasState))
    && (!was.record.value.first ==>
          && now.hasRow == was.hasRow && now.hasState == was.hasState
          && now.lease == was.lease && now.pendingRelease == was.pendingRelease)
  }

  ghost predicate SameExtension(a: Record, b: Record) {
    b == a.(prefix := b.prefix, restoring := b.restoring, suffix := b.suffix, drained := b.drained)
  }

  // What has changed of a record or of a first extension's lease does not show in the end.
  lemma UndoneOn(was: View, mid: View, now: View)
    requires was.record.Some? && mid.record.Some? && SameExtension(was.record.value, mid.record.value)
    requires mid.length == was.length && mid.committed == was.committed
    requires was.record.value.first || mid == was.(record := mid.record)
    ensures Undecided(was, mid)
    ensures now.record.None? && Undone(mid, now) ==> Undone(was, now)
    ensures now.record.Some? && Undecided(mid, now) ==> Undecided(was, now)
  {
  }

  lemma SettledThen(was: View, settled: View, now: View)
    requires was.record.Some? && settled.record.Some? && settled == was.(record := settled.record)
    requires SameExtension(was.record.value, settled.record.value) && RolledBack(settled, now)
    ensures RolledBack(was, now)
  {
    UndoneOn(was, settled, now);
  }

  lemma Unmoved(v: View)
    requires v.record.Some? && v.freed <= multiset(Taken(v.record.value.previousAllocated, v.pages))
    ensures Undecided(v, v) && RolledBack(v, v)
  {
  }

  lemma NothingRolledBack(was: View, now: View)
    requires was.record.None? && now == was.(pinned := false)
    ensures RolledBack(was, now)
  {
  }

  lemma FirstUndone(was: View, now: View)
    requires was.record.Some? && was.record.value.first && now.length == now.committed == 0
    requires !now.hasRow && !now.hasState && (now.lease in {NoLease, Committed} || now.pendingRelease)
    ensures Undone(was, now)
  {
  }

  lemma FirstUndecided(was: View, now: View)
    requires was.record.Some? && was.record.value.first && now.record == was.record
    requires (now.length == was.length && now.committed == was.committed)
      || (now.length == now.committed == 0 && !now.hasRow && !now.hasState)
    ensures Undecided(was, now)
  {
  }

  // The request with what the cache and the runtime know of it.
  datatype View = View(record: Option<Record>, pages: seq<nat>, freed: multiset<nat>, length: nat, committed: nat,
                       hasRow: bool, hasState: bool, lease: Lease, pendingRelease: bool, pinned: bool)

  class Extension {
    // the request
    var row: seq<nat>                // its row of the request table
    var hasRow: bool
    var hasState: bool               // a recurrent-state slot
    var length: nat               // kv_allocated_len
    var committed: nat               // kv_committed_len
    // the cache
    var record: Option<Record>
    var matched: bool                // a reader is kept under the handle
    var pinned: bool                 // and its snapshot is pinned
    // the runtime
    var lease: Lease
    var pendingRelease: bool
    var groupOpen: bool              // the allocator collects frees until a logical flush
    // the allocator
    ghost var pages: seq<nat>        // the row's page table
    ghost var freed: multiset<nat>   // pages given back since the extension began

    ghost predicate Valid() reads this {
      && Distinct(pages) && (matched <==> pinned)
      && (pendingRelease ==> lease in {Drained, LogicalFlushed} && record.None?)
      && (record.Some? ==> RecordOk(record.value))
    }

    ghost predicate RecordOk(r: Record) reads this {
      && (r.hit ==> matched) && (r.first <==> r.previousAllocated == 0)
      && (r.drained ==> r.first && lease in {NoLease, Drained, LogicalFlushed})
      && lease != Committed && (!r.first ==> !r.drained && r.prefix.None?)
      && ((freed == multiset{} && (length > r.previousAllocated ==> hasRow) && Holding(r, row, length, pages))
          || (r.first && r.drained && freed == multiset(Taken(r.previousAllocated, pages)) && r.prefix.None?
              && r.suffix == Some(None)))
    }

    ghost function Seen(): View reads this {
      View(record, pages, freed, length, committed, hasRow, hasState, lease, pendingRelease, pinned)
    }

    constructor (row: seq<nat>, pages: seq<nat>, length: nat, hit: bool)
      requires Paged(row, pages, length) && |pages| == PageCount(length) && Distinct(pages)
      ensures Valid() && record.None? && this.row == row && this.pages == pages && this.length == length
      ensures matched == hit && freed == multiset{} && committed == length && !pendingRelease && !groupOpen
      ensures hasRow == hasState == (length > 0) && lease == if length > 0 then Live else NoLease
    {
      this.row, this.pages, this.length, this.committed := row, pages, length, length;
      hasRow, hasState := length > 0, length > 0;
      record, matched, pinned := None, hit, hit;
      lease, pendingRelease, groupOpen := if length > 0 then Live else NoLease, false, false;
      freed := multiset{};
    }

    /** prepare_prefix_for_extend: the record comes first, the checks may raise after it. */
    method Prepare(agrees: bool, prefixLen: nat, snapshotLength: nat) returns (ok: bool)
      requires Valid() && Paged(row, pages, length) && |pages| == PageCount(length)
      requires !pendingRelease && (if length == 0 then lease == NoLease else lease == Live && hasRow)
      modifies this`record, this`freed
      ensures Valid()
      ensures old(record.Some?) ==> !ok && record == old(record) && freed == old(freed)
      ensures old(record.None?) ==> freed == multiset{}
      ensures old(record.None?) ==>
        record == Some(Record(matched, None, length == 0, length, committed, false, None, false))
      ensures ok <==>
        && old(record.None?) && agrees
        && (if matched then prefixLen == snapshotLength && length == 0 else hasRow || prefixLen == 0)
    {
      if record.Some? { return false; }
      record := Some(Record(matched, None, length == 0, length, committed, false, None, false));
      freed := multiset{};
      if !agrees { return false; }
      if !matched { return !(!hasRow && prefixLen > 0); }
      return prefixLen == snapshotLength && length == 0;
    }

    /** prefix_device_indices on a hit: fresh pages once, whatever they are, or a refusal. */
    method TakePrefix(available: Option<seq<nat>>) returns (ok: bool)
      requires Valid() && record.Some? && record.value.hit && record.value.first && length == 0
      requires record.value.suffix.None? && !record.value.drained
      requires available.Some? ==> Distinct(available.value)
      modifies this`record, this`pages
      ensures Valid() && record.Some? && (ok <==> record.value.prefix.Some?)
      ensures record == Some(old(record).value.(prefix := record.value.prefix))
      ensures old(record).value.prefix.Some? ==> record == old(record) && pages == old(pages)
      ensures old(record).value.prefix.None? && ok ==>
        available == Some(pages) && |record.value.prefix.value| == 64 * |pages|
    {
      if record.value.prefix.None? {
        if available.None? { return false; }
        var taken := available.value;
        var locs := seq(64 * |taken|, p requires 0 <= p < 64 * |taken| => 64 * taken[p / 64] + p % 64);
        AlignedPages(locs, taken, 0, 64 * |taken|);
        assert locs[0..64 * |taken|] == locs;
        pages := taken;
        record := Some(record.value.(prefix := Some(locs)));
      }
      return true;
    }

    /** The allocation succeeds: whole pages for the new tokens, the row written, the length set. */
    method Extend(newRow: seq<nat>, end: nat, more: seq<nat>)
      requires Valid() && record.Some? && length == record.value.previousAllocated && freed == multiset{}
      requires record.value.suffix.None? && !record.value.drained && Start(record.value) < end
      requires Paged(newRow, pages + more, end) && PageCount(end) == |pages + more| && Distinct(pages + more)
      modifies this`row, this`hasRow, this`hasState, this`length, this`committed, this`pages
      ensures Valid() && pages == old(pages) + more && row == newRow && hasRow && hasState && length == committed == end
    {
      ghost var r, had := record.value, pages;
      row, hasRow, hasState, length, committed, pages := newRow, true, true, end, end, pages + more;
      if r.prefix.Some? {
        assert PageSet(pages, 0, |r.prefix.value| / 64) == PageSet(had, 0, |r.prefix.value| / 64) by {
          assert forall b :: 0 <= b < |had| ==> pages[b] == had[b];
        }
      }
    }

    /** maybe_hand_to_session: restore a hit, then forget the record and close the reader. */
    method Hand(sameNamespace: bool, end: RestoreEnd) returns (raised: bool)
      requires Valid()
      requires record.Some? && record.value.hit ==> record.value.first && lease == NoLease && !record.value.drained
      modifies this`record, this`lease, this`matched, this`pinned
      ensures Valid() && freed == old(freed)
      ensures raised <==> old(record).Some? && old(record).value.hit && (!sameNamespace || end != Restored)
      ensures !raised ==> record.None?
      ensures raised ==> matched == old(matched) && pinned == old(pinned)
      ensures raised ==> record == if sameNamespace then Some(old(record).value.(restoring := true)) else old(record)
      ensures raised ==>
        lease == if !sameNamespace || end == RaisedEarly then old(lease)
                 else if end == RaisedPartial then Partial
                 else Live
      ensures !raised && old(record).Some? && old(record).value.hit ==> !pinned && !matched && lease == Live
    {
      if record.None? { return false; }
      if record.value.hit {
        if !sameNamespace { return true; }
        record := Some(record.value.(restoring := true));
        match end {
          case RaisedEarly => return true;
          case RaisedPartial => lease := Partial; return true;
          case RaisedLive => lease := Live; return true;
          case Restored => lease := Live;
        }
        pinned, matched := false, false;
      }
      record := None;
      return false;
    }

    /** release_aborted_request: a reader without a record is closed, and only then. */
    method ReleaseAborted()
      requires Valid()
      modifies this`matched, this`pinned
      ensures Valid()
      ensures if record.None? then !matched && !pinned else matched == old(matched) && pinned == old(pinned)
    {
      if record.None? && matched { pinned, matched := false, false; }
    }

    // runtime.release of the row's lease, if the runtime knows one.
    method Release(end: ReleaseEnd) returns (raised: bool)
      requires lease in {NoLease, Partial, Live, Failed}
      modifies this`lease
      ensures raised <==> old(lease) == Partial || (old(lease) != NoLease && end != Released)
      ensures lease == if old(lease) in {NoLease, Partial} || end == RaisedBefore then old(lease)
                       else if end == RaisedFailed then Failed else Drained
    {
      if lease == NoLease { return false; }
      if lease == Partial { return true; }
      match end {
        case RaisedBefore => return true;
        case RaisedFailed => lease := Failed; return true;
        case RaisedDrained => lease := Drained; return true;
        case Released => lease := Drained; return false;
      }
    }

    // runtime.after_release: queued for the logical flush, or flushed and committed.
    method AfterRelease(end: AfterEnd) returns (raised: bool)
      requires lease in {NoLease, Drained, LogicalFlushed} && !pendingRelease
      modifies this`lease, this`pendingRelease
      ensures old(lease) == NoLease ==> !raised && lease == NoLease && !pendingRelease
      ensures old(lease) != NoLease && groupOpen ==>
        && lease == old(lease) && pendingRelease == (lease == Drained)
        && (raised <==> !pendingRelease || end == RaisedLate)
      ensures old(lease) != NoLease && !groupOpen ==>
        && lease == (if end == RaisedFlushed then LogicalFlushed else Committed) && !pendingRelease
        && (raised <==> end != Finished)
    {
      if lease == NoLease { return false; }
      if groupOpen {
        if lease != Drained { return true; }
        pendingRelease := true;
        return end == RaisedLate;
      }
      lease := LogicalFlushed;
      if end == RaisedFlushed { return true; }
      lease := Committed;
      return end == RaisedLate;
    }

    // One allocator.free of tokens.
    ghost method Free(locs: seq<nat>)
      modifies this`freed
      ensures freed == old(freed) + multiset(PagesOf(locs))
    {
      freed := freed + multiset(PagesOf(locs));
    }

    /** rollback_prefix_for_extend, called until it no longer raises. */
    method Rollback(calls: Calls) returns (raised: bool)
      requires Valid()
      modifies this
      ensures Valid() && row == old(row) && pages == old(pages) && groupOpen == old(groupOpen)
      ensures RolledBack(old(Seen()), Seen()) && (record.Some? ==> raised && matched == old(matched))
      ensures calls == ALL_SUCCEED && old(lease) != Partial && !(groupOpen && old(lease) == LogicalFlushed) ==>
        !raised && record.None?
    {
      hide Distinct, Holding, Taken, Undone, Undecided, RolledBack, SameExtension;
      if record.None? {
        ReleaseAborted();
        NothingRolledBack(old(Seen()), Seen());
        return false;
      }
      ghost var was := Seen();
      raised := Settle(calls.synchronize);
      ghost var settled := Seen();
      if !raised { raised := RollbackSettled(calls); } else { Unmoved(settled); }
      SettledThen(was, settled, Seen());
    }

    method RollbackSettled(calls: Calls) returns (raised: bool)
      requires Valid() && record.Some? && record.value.suffix.Some?
      modifies this`hasState, this`hasRow, this`length, this`committed, this`lease, this`pendingRelease, this`record,
               this`matched, this`pinned, this`freed
      ensures Valid() && RolledBack(old(Seen()), Seen()) && (record.Some? ==> raised && matched == old(matched))
      ensures calls == ALL_SUCCEED && old(lease) != Partial && !(groupOpen && old(lease) == LogicalFlushed) ==>
        !raised && record.None?
    {
      hide Distinct, Holding, Taken, Undone, Undecided;
      Unmoved(Seen());
      if record.value.first { raised := RollbackFirst(calls); } else { raised := RollbackExtension(calls); }
    }

    // A first extension: the lease is drained before any page or row is given back.
    method RollbackFirst(calls: Calls) returns (raised: bool)
      requires Valid() && record.Some? && record.value.first && record.value.suffix.Some?
      modifies this`hasState, this`hasRow, this`length, this`committed, this`lease, this`pendingRelease, this`record,
               this`matched, this`pinned, this`freed
      ensures Valid()
      ensures old(freed) <= freed <= multiset(Taken(0, pages))
      ensures record.Some? ==> raised && matched == old(matched) && pinned == old(pinned)
      ensures record.None? ==> freed == multiset(Taken(0, pages)) && !pinned && Undone(old(Seen()), Seen())
      ensures record.Some? ==> Undecided(old(Seen()), Seen())
      ensures calls == ALL_SUCCEED && old(lease) != Partial && !(groupOpen && old(lease) == LogicalFlushed) ==>
        !raised && record.None?
    {
      hide Distinct, Holding, Taken, Undone, Undecided;
      ghost var was := Seen();
      raised := ReleaseLease(calls.release);
      UndoneOn(was, Seen(), Seen());
      if raised { return; }
      raised := FreePages(calls.freePages);
      ghost var freed := Seen();
      UndoneOn(was, freed, freed);
      if raised { return; }
      raised := Finish(calls);
      UndoneOn(was, freed, Seen());
    }

    // Drain a submitted restore; remember what lies behind the previous length, once.
    method Settle(succeeds: bool) returns (raised: bool)
      requires Valid() && record.Some?
      modifies this`record
      ensures Valid() && record.Some? && SameExtension(old(record).value, record.value)
      ensures raised <==> old(record).value.restoring && !succeeds
      ensures raised ==> record == old(record)
      ensures !raised ==> record.value.suffix.Some? && !record.value.restoring
    {
      hide Distinct, Taken;
      if record.value.restoring {
        if !succeeds { return true; }
        record := Some(record.value.(restoring := false));
      }
      if record.value.suffix.None? {
        var start, end := Start(record.value), length;
        record := Some(record.value.(suffix :=
          Some(if hasRow && end > record.value.previousAllocated then Some(row[start..end]) else None)));
      }
      return false;
    }

    // Not a first extension: give back what lies beyond the page already owned in part.
    method RollbackExtension(calls: Calls) returns (raised: bool)
      requires Valid() && record.Some? && !record.value.first && record.value.suffix.Some?
      modifies this`record, this`length, this`committed, this`freed, this`matched, this`pinned
      ensures Valid()
      ensures raised ==> !calls.freeSuffix && Seen() == old(Seen()) && matched == old(matched)
      ensures !raised ==>
        record.None? && !pinned && freed == multiset(Taken(old(record).value.previousAllocated, pages))
      ensures !raised ==> Undone(old(Seen()), Seen())
    {
      hide Distinct, Holding, Taken;
      raised := FreeSuffix(calls.freeSuffix);
      if !raised { EndExtension(); }
    }

    // Both lengths are what they were, and the record goes.
    method EndExtension()
      requires Distinct(pages) && (matched <==> pinned) && !pendingRelease
      requires record.Some? && !record.value.first
      modifies this`record, this`length, this`committed, this`matched, this`pinned
      ensures Valid() && record.None? && !pinned && Undone(old(Seen()), Seen())
    {
      length, committed := record.value.previousAllocated, record.value.previousCommitted;
      record := None;
      ReleaseAborted();
    }

    // An extension inside a page already owned in part keeps that page.
    method FreeSuffix(succeeds: bool) returns (raised: bool)
      requires Valid() && record.Some? && !record.value.first && record.value.suffix.Some?
      modifies this`record, this`freed
      ensures raised <==>
        && !succeeds && old(record).value.suffix.value.Some?
        && |old(record).value.suffix.value.value| > Skip(old(record).value.previousAllocated)
      ensures raised ==> record == old(record) && freed == old(freed)
      ensures !raised ==> freed == multiset(Taken(old(record).value.previousAllocated, pages))
      ensures !raised ==> record == Some(old(record).value.(suffix := Some(None)))
    {
      ghost var r := record.value;
      NewPages(row, pages, r.previousAllocated, length);
      var suffix := record.value.suffix.value;
      if suffix.Some? {
        var skip := Skip(record.value.previousAllocated);
        if |suffix.value| > skip {
          if !succeeds { return true; }
          Free(suffix.value[skip..]);
        }
        record := Some(record.value.(suffix := Some(None)));
      }
      return false;
    }

    // A drain that raised after it drained is not repeated.
    method ReleaseLease(end: ReleaseEnd) returns (raised: bool)
      requires Valid() && record.Some? && record.value.first && record.value.suffix.Some?
      modifies this`record, this`lease
      ensures Valid() && record.Some? && record.value == old(record).value.(drained := record.value.drained)
      ensures !raised ==> record.value.drained
      ensures old(lease) != Partial && end == Released ==> !raised
      ensures old(lease) == LogicalFlushed <==> lease == LogicalFlushed
    {
      hide Distinct, Taken;
      if !record.value.drained {
        if lease !in {Drained, LogicalFlushed} {
          raised := Release(end);
          if raised { return; }
        }
        record := Some(record.value.(drained := true));
      }
      return false;
    }

    method FreePages(succeeds: bool) returns (raised: bool)
      requires Valid() && record.Some? && record.value.first && record.value.suffix.Some? && record.value.drained
      modifies this`record, this`freed
      ensures Valid() && record.Some?
      ensures raised <==> !succeeds && (old(record).value.prefix.Some? || old(record).value.suffix.value.Some?)
      ensures raised ==> record == old(record) && freed == old(freed)
      ensures !raised ==> freed == multiset(Taken(old(record).value.previousAllocated, pages))
      ensures !raised ==> record.value == old(record).value.(prefix := None, suffix := Some(None))
    {
      var prefix, suffix := record.value.prefix, record.value.suffix.value;
      FirstPages(record.value, row, length, pages, freed);
      if prefix.Some? || suffix.Some? {
        if !succeeds { return true; }
        Free((if prefix.Some? then prefix.value else []) + if suffix.Some? then suffix.value else []);
        record := Some(record.value.(prefix := None, suffix := Some(None)));
      }
      return false;
    }

    // State slot, row, lengths, lease; the record goes once the lease is committed or queued.
    method Finish(calls: Calls) returns (raised: bool)
      requires Valid() && record.Some? && record.value.first && record.value.drained
      requires record.value.prefix.None? && record.value.suffix == Some(None)
      requires freed == multiset(Taken(record.value.previousAllocated, pages))
      modifies this`hasState, this`hasRow, this`length, this`committed, this`lease, this`pendingRelease, this`record,
               this`matched, this`pinned
      ensures Valid()
      ensures record.Some? ==> raised && matched == old(matched) && pinned == old(pinned)
      ensures record.None? ==> !pinned && Undone(old(Seen()), Seen())
      ensures record.Some? ==> record == old(record) && Undecided(old(Seen()), Seen())
      ensures calls == ALL_SUCCEED && !(groupOpen && old(lease) == LogicalFlushed) ==> !raised && record.None?
    {
      hide Distinct, Holding, Taken, Undone, Undecided;
      ghost var was := Seen();
      raised := ReturnSlots(calls);
      if raised {
        FirstUndecided(was, Seen());
        return;
      }
      length, committed := 0, 0;
      raised := EndFirst(calls.after);
      if record.None? { FirstUndone(was, Seen()); } else { FirstUndecided(was, Seen()); }
    }

    // The record goes once the lease is committed or queued, whether or not the call raises.
    method EndFirst(after: AfterEnd) returns (raised: bool)
      requires Valid() && record.Some? && record.value.first && record.value.drained
      requires record.value.prefix.None? && record.value.suffix == Some(None)
      requires freed == multiset(Taken(record.value.previousAllocated, pages))
      modifies this`lease, this`pendingRelease, this`record, this`matched, this`pinned
      ensures Valid()
      ensures record.Some? ==> raised && record == old(record) && matched == old(matched) && pinned == old(pinned)
      ensures record.None? ==> !pinned && (lease in {NoLease, Committed} || pendingRelease)
      ensures after == Finished && !(groupOpen && old(lease) == LogicalFlushed) ==> !raised && record.None?
    {
      hide Distinct, Holding, Taken;
      raised := AfterRelease(after);
      if !raised || lease == NoLease || lease == Committed || pendingRelease {
        pinned, matched := false, false;
        record := None;
      }
    }

    // The recurrent-state slot, then the row.
    method ReturnSlots(calls: Calls) returns (raised: bool)
      modifies this`hasState, this`hasRow
      ensures hasState == (old(hasState) && !calls.freeState) && hasRow == (old(hasRow) && (hasState || !calls.freeRow))
      ensures raised == (hasState || hasRow)
    {
      if hasState {
        if !calls.freeState { return true; }
        hasState := false;
      }
      if hasRow {
        if !calls.freeRow { return true; }
        hasRow := false;
      }
      return false;
    }

    /** after_logical_flush: the queued lease is committed once the group has flushed. */
    method LogicalFlush(end: AfterEnd) returns (raised: bool)
      requires Valid()
      modifies this`lease, this`pendingRelease
      ensures Valid()
      ensures !old(pendingRelease) ==> !raised && lease == old(lease) && !pendingRelease
      ensures old(pendingRelease) && groupOpen ==> raised && lease == old(lease) && pendingRelease
      ensures old(pendingRelease) && !groupOpen ==>
        && lease == (if end == RaisedFlushed then LogicalFlushed else Committed)
        && pendingRelease == (end == RaisedFlushed) && (raised <==> end != Finished)
    {
      if !pendingRelease { return false; }
      if groupOpen { return true; }
      lease := LogicalFlushed;
      if end == RaisedFlushed { return true; }
      lease, pendingRelease := Committed, false;
      return end == RaisedLate;
    }
  }

  /** rollback_prefix_for_extend over its requests, in order, up to the first that raises: those
      before it are rolled back, those after it are as they were, and a later call goes on there. */
  method RollbackAll(requests: seq<Extension>, calls: seq<Calls>) returns (n: nat, raised: bool)
    requires |calls| == |requests| && forall i :: 0 <= i < |requests| ==> requests[i].Valid()
    requires forall i, j :: 0 <= i < j < |requests| ==> requests[i] != requests[j]
    modifies set i | 0 <= i < |requests| :: requests[i]
    ensures n <= |requests| && (raised <==> n < |requests|) && forall i :: 0 <= i < |requests| ==> requests[i].Valid()
    ensures forall i :: 0 <= i < |requests| && i <= n ==> RolledBack(old(requests[i].Seen()), requests[i].Seen())
    ensures forall i :: 0 <= i < n ==> requests[i].record.None?
    ensures forall i :: n < i < |requests| ==> requests[i].Seen() == old(requests[i].Seen())
  {
    hide RolledBack, Extension.Valid;
    n, raised := 0, false;
    while n < |requests| && !raised
      invariant n <= |requests| && (raised ==> n < |requests|)
      invariant forall i :: 0 <= i < |requests| ==> requests[i].Valid()
      invariant forall i :: 0 <= i < n ==>
        requests[i].record.None? && RolledBack(old(requests[i].Seen()), requests[i].Seen())
      invariant raised ==> RolledBack(old(requests[n].Seen()), requests[n].Seen())
      invariant forall i :: (if raised then n < i else n <= i) && i < |requests| ==>
        requests[i].Seen() == old(requests[i].Seen())
      decreases |requests| - n, !raised
    {
      raised := requests[n].Rollback(calls[n]);
      if !raised { n := n + 1; }
    }
  }
}
