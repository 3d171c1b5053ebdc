// Tensor-parallel ranks agree on which staged requests enter decode.
module Coordinator {
  import opened C4Layout
  import opened Slots

  // One rank: its staging queue, the leases that are host-ready, and the initial batch it waits for.
  datatype Rank = Rank(queue: seq<Lease>, hostReady: set<Lease>, wait: bool, target: nat)
  // What a rank tells the others: the identities it holds, how many are ready, its target.
  datatype Vote = Vote(leases: seq<Lease>, ready: nat, target: nat)
  // What a rank makes of the votes.
  datatype Verdict = Raise | Keep | Take(leases: seq<Lease>)

  ghost predicate WellFormed(r: Rank) {
    && (r.wait <==> r.target != 0)
    && (forall i {:trigger r.queue[i]} :: 0 <= i < |r.queue| ==> r.queue[i] in r.hostReady)
    && (forall i, j :: 0 <= i < j < |r.queue| ==> r.queue[i] != r.queue[j])
  }

  // The events of the first n items have completed, and the next one has not.
  ghost predicate ReadyPrefix(done: seq<bool>, n: nat) {
    n <= |done| && (forall i :: 0 <= i < n ==> done[i]) && (n < |done| ==> !done[n])
  }

  function Fewest(votes: seq<Vote>): (n: nat)
    requires |votes| > 0
    ensures forall i :: 0 <= i < |votes| ==> n <= votes[i].ready
  {
    if |votes| == 1 then votes[0].ready
    else
      var rest := Fewest(votes[1..]);
      assert forall i :: 1 <= i < |votes| ==> votes[i] == votes[1..][i - 1];
      if votes[0].ready < rest then votes[0].ready else rest
  }

  lemma {:induction false} FewestIsCast(votes: seq<Vote>) returns (i: nat)
    requires |votes| > 0
    ensures i < |votes| && votes[i].ready == Fewest(votes)
  {
    if |votes| == 1 || votes[0].ready < Fewest(votes[1..]) {
      i := 0;
    } else {
      var j := FewestIsCast(votes[1..]);
      i := 1 + j;
    }
  }

  // A round gets to item i of a queue: all before it are host-ready and their events completed.
  ghost predicate AskedFor(queue: seq<Lease>, hostReady: set<Lease>, done: seq<bool>, i: nat)
    requires |done| == |queue| && i < |queue|
  {
    forall k :: 0 <= k < i ==> done[k] && queue[k] in hostReady
  }

  // Every rank has the first n of its queue ready.
  ghost predicate AllReady(votes: seq<Vote>, n: nat) {
    forall i {:trigger votes[i]} :: 0 <= i < |votes| ==> n <= votes[i].ready
  }

  lemma ReadyIsFewest(votes: seq<Vote>)
    requires |votes| > 0
    ensures forall n: nat :: AllReady(votes, n) <==> n <= Fewest(votes)
  {
    var i := FewestIsCast(votes);
  }

  // No rank has anything in its queue; then nothing is compared.
  predicate NoneQueued(votes: seq<Vote>) { forall i :: 0 <= i < |votes| ==> votes[i].leases == [] }

  predicate Disagrees(r: Rank, votes: seq<Vote>) {
    !NoneQueued(votes) && exists i :: 0 <= i < |votes| && (votes[i].leases != r.queue || votes[i].target != r.target)
  }

  // What collect_ready_reqs makes of gathered votes.
  function Judge(r: Rank, votes: seq<Vote>): Verdict
    requires |votes| > 0 && Fewest(votes) <= |r.queue|
  {
    if NoneQueued(votes) then Keep
    else if Disagrees(r, votes) then Raise
    else if r.wait && Fewest(votes) < r.target then Keep
    else Take(r.queue[..Fewest(votes)])
  }

  // The rank after that.
  function Next(r: Rank, verdict: Verdict): Rank {
    match verdict
    case Raise => r
    case Keep => r
    case Take(leases) =>
      Rank(if |leases| <= |r.queue| then r.queue[|leases|..] else [], r.hostReady - (set l | l in leases), false, 0)
  }

  class QSAHiSparseCoordinator {
    var queue: seq<Lease>
    var hostReady: set<Lease>
    var wait: bool
    var target: nat

    function View(): Rank reads this { Rank(queue, hostReady, wait, target) }

    /** The accepted spellings of the initial batch; 1 means two. */
    constructor (initialBatch: nat)
      requires initialBatch in {0, 1, 2, 4, 8}
      ensures WellFormed(View()) && queue == [] && hostReady == {}
      ensures target == if initialBatch == 1 then 2 else initialBatch
    {
      target := if initialBatch == 1 then 2 else initialBatch;
      wait := (if initialBatch == 1 then 2 else initialBatch) != 0;
      queue, hostReady := [], {};
    }

    /** A handoff parks its lease, which is host-ready, at the end of the queue. */
    method Park(lease: Lease)
      requires WellFormed(View()) && lease !in queue
      modifies this`queue, this`hostReady
      ensures WellFormed(View()) && queue == old(queue) + [lease] && hostReady == old(hostReady) + {lease}
      ensures View() == Parking(old(View()), [lease])
    {
      hostReady := hostReady + {lease};
      queue := queue + [lease];
    }

    /** The local part of a round: how many queued leases, from the first, have a completed event. */
    method CastVote(done: seq<bool>) returns (vote: Option<Vote>)
      requires |done| == |queue|
      ensures vote.Some? ==>
        vote.value.leases == queue && vote.value.target == target && ReadyPrefix(done, vote.value.ready)
      ensures vote.None? <==>
        exists i :: 0 <= i < |queue| && AskedFor(queue, hostReady, done, i) && queue[i] !in hostReady
      ensures WellFormed(View()) ==> vote.Some?
    {
      var count := 0;
      while count < |queue|
        invariant count <= |queue| && forall i :: 0 <= i < count ==> done[i] && queue[i] in hostReady
        decreases |queue| - count
      {
        if queue[count] !in hostReady { return None; }
        if !done[count] { break; }
        count := count + 1;
      }
      return Some(Vote(queue, count, target));
    }

    /** The rest of a round, once every rank's vote is known. It raises exactly if something is queued
        and some vote is for other leases or another target. Otherwise it takes as many leases from
        the front of the queue as every rank has ready, none included, unless it waits and those are
        fewer than the target; having taken a list it waits no more. */
    method Collect(votes: seq<Vote>) returns (verdict: Verdict)
      requires WellFormed(View()) && |votes| > 0 && Fewest(votes) <= |queue|
      modifies this
      ensures verdict == Judge(old(View()), votes) && View() == Next(old(View()), verdict) && WellFormed(View())
      ensures verdict.Raise? <==>
        && (exists i :: 0 <= i < |votes| && votes[i].leases != [])
        && (exists i :: 0 <= i < |votes| && (votes[i].leases != old(queue) || votes[i].target != old(target)))
      ensures verdict.Keep? ==>
        || (forall i :: 0 <= i < |votes| ==> votes[i].leases == [])
        || (old(wait) && !AllReady(votes, old(target)))
      ensures verdict.Take? ==> verdict.leases <= old(queue) && (old(wait) ==> AllReady(votes, old(target)))
      ensures verdict.Take? ==> forall n: nat :: AllReady(votes, n) <==> n <= |verdict.leases|
      ensures verdict.Take? ==>
        && old(queue) == verdict.leases + queue && !wait && target == 0
        && hostReady == old(hostReady) - (set l | l in verdict.leases)
      ensures !verdict.Take? ==> View() == old(View())
    {
      ReadyIsFewest(votes);
      if NoneQueued(votes) { return Keep; }
      if Disagrees(View(), votes) { return Raise; }
      var count := Fewest(votes);
      if wait {
        if count < target { return Keep; }
        wait, target := false, 0;
      }
      var ready := queue[..count];
      queue := queue[count..];
      var i := 0;
      ghost var before := hostReady;
      while i < |ready|
        invariant i <= |ready| && hostReady == before - (set l | l in ready[..i])
        modifies this`hostReady
      {
        hostReady := hostReady - {ready[i]};
        assert ready[..i + 1] == ready[..i] + [ready[i]];
        i := i + 1;
      }
      assert ready[..i] == ready;
      return Take(ready);
    }
  }

  // ---- One round over all ranks ----

  ghost predicate IsRound(ranks: seq<Rank>, dones: seq<seq<bool>>, votes: seq<Vote>) {
    && |ranks| == |dones| == |votes| > 0
    && forall k {:trigger ranks[k]} {:trigger votes[k]} :: 0 <= k < |ranks| ==>
         && WellFormed(ranks[k]) && |dones[k]| == |ranks[k].queue|
         && votes[k].leases == ranks[k].queue && votes[k].target == ranks[k].target
         && ReadyPrefix(dones[k], votes[k].ready)
  }

  /** Whatever the number of ranks and the timing of their events: all raise or none does. */
  lemma RaisesEverywhere(ranks: seq<Rank>, dones: seq<seq<bool>>, votes: seq<Vote>, a: nat, b: nat)
    requires IsRound(ranks, dones, votes) && a < |ranks| && b < |ranks|
    ensures Disagrees(ranks[a], votes) <==> Disagrees(ranks[b], votes)
  {
    assert votes[a].leases == ranks[a].queue && votes[b].leases == ranks[b].queue;
  }

  /** If none raises, all ranks judge alike: they keep waiting, or they take one list of leases
      whose events have completed on every rank; and nothing is taken before as many leases as
      the initial target are ready everywhere. */
  lemma RoundAgrees(ranks: seq<Rank>, dones: seq<seq<bool>>, votes: seq<Vote>, a: nat, b: nat)
    requires IsRound(ranks, dones, votes) && a < |ranks| && b < |ranks| && !Disagrees(ranks[a], votes)
    ensures Fewest(votes) <= |ranks[a].queue| && Fewest(votes) <= |ranks[b].queue|
    ensures Judge(ranks[a], votes) == Judge(ranks[b], votes) != Raise
    ensures Judge(ranks[a], votes).Take? ==>
      forall i :: 0 <= i < |Judge(ranks[a], votes).leases| ==>
        dones[b][i] && ranks[b].queue[i] == Judge(ranks[a], votes).leases[i]
    ensures Judge(ranks[a], votes).Take? ==> |Judge(ranks[a], votes).leases| >= ranks[b].target
    ensures Judge(ranks[a], votes).Take? ==>
      Next(ranks[a], Judge(ranks[a], votes)).queue == Next(ranks[b], Judge(ranks[b], votes)).queue
  {
    assert votes[a].leases == ranks[a].queue && votes[b].leases == ranks[b].queue;
    RaisesEverywhere(ranks, dones, votes, a, b);
    assert ranks[a].queue == ranks[b].queue && (!NoneQueued(votes) ==> ranks[a].target == ranks[b].target);
    assert WellFormed(ranks[a]) && WellFormed(ranks[b]);
  }

  /** No lease that is ready on every rank is left out of a list that is taken. */
  lemma TakesAllReady(ranks: seq<Rank>, dones: seq<seq<bool>>, votes: seq<Vote>, a: nat) returns (k: nat)
    requires IsRound(ranks, dones, votes) && a < |ranks| && !Disagrees(ranks[a], votes)
    ensures k < |ranks| && Fewest(votes) <= |ranks[a].queue|
    ensures Judge(ranks[a], votes).Take? ==>
      var n := |Judge(ranks[a], votes).leases|; n == |dones[k]| || (n < |dones[k]| && !dones[k][n])
  {
    k := FewestIsCast(votes);
    assert ReadyPrefix(dones[k], votes[k].ready);
    RoundAgrees(ranks, dones, votes, a, k);
  }

  // The events of the first n queued leases have completed on every rank.
  ghost predicate DoneEverywhere(dones: seq<seq<bool>>, n: nat) {
    forall k {:trigger dones[k]} :: 0 <= k < |dones| ==> n <= |dones[k]| && forall i :: 0 <= i < n ==> dones[k][i]
  }

  /** A round raises exactly if something is queued and two ranks differ in queue or target. Otherwise
      every rank admits the longest prefix of the queue whose events are done on every rank, even if
      it is empty; it leaves its queue alone only where all are empty, or while it waits for its
      initial target. */
  lemma AdmitsLongestReady(ranks: seq<Rank>, dones: seq<seq<bool>>, votes: seq<Vote>, a: nat)
    requires IsRound(ranks, dones, votes) && a < |ranks| && Fewest(votes) <= |ranks[a].queue|
    ensures var verdict := Judge(ranks[a], votes);
      && (verdict.Raise? <==>
            && (exists b :: 0 <= b < |ranks| && ranks[b].queue != [])
            && exists b :: 0 <= b < |ranks| && (ranks[b].queue != ranks[a].queue || ranks[b].target != ranks[a].target))
      && (verdict.Keep? ==>
            || (forall b :: 0 <= b < |ranks| ==> ranks[b].queue == [])
            || (ranks[a].wait && !DoneEverywhere(dones, ranks[a].target)))
      && (verdict.Take? ==>
            && verdict.leases <= ranks[a].queue && (ranks[a].wait ==> DoneEverywhere(dones, ranks[a].target))
            && forall n: nat :: DoneEverywhere(dones, n) <==> n <= |verdict.leases|)
  {
    forall b | 0 <= b < |ranks| ensures votes[b].leases == [] <==> ranks[b].queue == [] {
      assert votes[b].leases == ranks[b].queue;
    }
    if NoneQueued(votes) {
    } else if Disagrees(ranks[a], votes) {
      var i :| 0 <= i < |votes| && (votes[i].leases != ranks[a].queue || votes[i].target != ranks[a].target);
      assert votes[i].leases == ranks[i].queue && votes[i].target == ranks[i].target;
    } else {
      forall b | 0 <= b < |ranks| ensures ranks[b].queue == ranks[a].queue && ranks[b].target == ranks[a].target {
        assert votes[b].leases == ranks[b].queue && votes[b].target == ranks[b].target;
      }
    }
    ReadyIsFewest(votes);
    forall n: nat ensures DoneEverywhere(dones, n) <==> AllReady(votes, n) { DoneIsReady(ranks, dones, votes, n); }
  }

  lemma DoneIsReady(ranks: seq<Rank>, dones: seq<seq<bool>>, votes: seq<Vote>, n: nat)
    requires IsRound(ranks, dones, votes)
    ensures DoneEverywhere(dones, n) <==> AllReady(votes, n)
  {
    forall k | 0 <= k < |dones|
      ensures n <= votes[k].ready <==> n <= |dones[k]| && forall i :: 0 <= i < n ==> dones[k][i]
    {
      assert ReadyPrefix(dones[k], votes[k].ready);
    }
  }

  // ---- Runs of rounds ----

  // Between rounds each rank parks what its handoffs finish; then all meet for a round.
  datatype Meeting = Meeting(parks: seq<seq<Lease>>, dones: seq<seq<bool>>, votes: seq<Vote>)

  // All ranks, with what each has admitted so far, in order, and what it has ever parked.
  datatype Group = Group(ranks: seq<Rank>, admitted: seq<seq<Lease>>, parked: seq<set<Lease>>)

  function Parking(r: Rank, leases: seq<Lease>): Rank {
    r.(queue := r.queue + leases, hostReady := r.hostReady + (set l | l in leases))
  }

  ghost predicate Once(leases: seq<Lease>) { forall i, j :: 0 <= i < j < |leases| ==> leases[i] != leases[j] }

  // As many of everything as ranks, and leases parked that were never parked before: a lease holds
  // a generation of its own.
  ghost predicate Meets(g: Group, m: Meeting) {
    && |g.ranks| == |g.admitted| == |g.parked| == |m.parks| == |m.dones| == |m.votes| > 0
    && forall k {:trigger m.parks[k]} :: 0 <= k < |g.ranks| ==>
         Once(m.parks[k]) && forall l :: l in m.parks[k] ==> l !in g.parked[k]
  }

  function Met(g: Group, m: Meeting): (ranks: seq<Rank>)
    requires |m.parks| == |g.ranks|
    ensures |ranks| == |g.ranks|
    ensures forall k {:trigger ranks[k]} :: 0 <= k < |g.ranks| ==> ranks[k] == Parking(g.ranks[k], m.parks[k])
  {
    seq(|g.ranks|, k requires 0 <= k < |g.ranks| => Parking(g.ranks[k], m.parks[k]))
  }

  // A round in which no rank raises.
  ghost predicate Agreed(g: Group, m: Meeting) {
    Meets(g, m) && IsRound(Met(g, m), m.dones, m.votes) && !Disagrees(Met(g, m)[0], m.votes)
  }

  // What a rank takes, and where that leaves it.
  function Took(verdict: Verdict): seq<Lease> { if verdict.Take? then verdict.leases else [] }

  ghost predicate Follows(g: Group, m: Meeting, h: Group) {
    && Agreed(g, m) && |h.ranks| == |h.admitted| == |h.parked| == |g.ranks|
    && forall k {:trigger h.ranks[k]} {:trigger h.admitted[k]} {:trigger h.parked[k]} :: 0 <= k < |g.ranks| ==>
         && Fewest(m.votes) <= |Met(g, m)[k].queue|
         && var verdict := Judge(Met(g, m)[k], m.votes);
            && h.ranks[k] == Next(Met(g, m)[k], verdict) && h.admitted[k] == g.admitted[k] + Took(verdict)
            && h.parked[k] == g.parked[k] + (set l | l in m.parks[k])
  }

  ghost predicate Starts(g: Group, target: nat) {
    && |g.ranks| == |g.admitted| == |g.parked| > 0
    && forall k {:trigger g.ranks[k]} :: 0 <= k < |g.ranks| ==>
         g.ranks[k] == Rank([], {}, target != 0, target) && g.admitted[k] == [] && g.parked[k] == {}
  }

  ghost predicate IsRunOfRounds(groups: seq<Group>, meetings: seq<Meeting>, target: nat) {
    && |groups| == |meetings| + 1 && Starts(groups[0], target)
    && forall i {:trigger meetings[i]} :: 0 <= i < |meetings| ==> Follows(groups[i], meetings[i], groups[i + 1])
  }

  // One rank's part: what it admitted and still queues are different leases it parked itself, and
  // it has admitted nothing while it waits, or else the initial target at least.
  ghost predicate RankKept(r: Rank, admitted: seq<Lease>, parked: set<Lease>, target: nat) {
    && WellFormed(r) && Once(admitted + r.queue) && (forall l :: l in admitted + r.queue ==> l in parked)
    && (if r.wait then r.target == target && admitted == [] else target <= |admitted|)
  }

  // And all ranks are alike.
  ghost predicate Alike(g: Group, target: nat) {
    && |g.ranks| == |g.admitted| == |g.parked| > 0
    && (forall k {:trigger g.ranks[k]} :: 0 <= k < |g.ranks| ==>
          RankKept(g.ranks[k], g.admitted[k], g.parked[k], target))
    && (forall a, b {:trigger g.ranks[a], g.ranks[b]} :: 0 <= a < |g.ranks| && 0 <= b < |g.ranks| ==>
          && g.ranks[a].queue == g.ranks[b].queue && g.ranks[a].wait == g.ranks[b].wait
          && g.ranks[a].target == g.ranks[b].target
          && g.admitted[a] == g.admitted[b])
  }

  lemma RankKeeps(r: Rank, admitted: seq<Lease>, parked: set<Lease>, target: nat, park: seq<Lease>, votes: seq<Vote>)
    requires RankKept(r, admitted, parked, target) && Once(park) && forall l :: l in park ==> l !in parked
    requires |votes| > 0 && Fewest(votes) <= |r.queue + park|
    requires WellFormed(Parking(r, park)) && !Disagrees(Parking(r, park), votes)
    ensures var at := Parking(r, park);
            RankKept(Next(at, Judge(at, votes)), admitted + Took(Judge(at, votes)), parked + (set l | l in park),
                     target)
  {
    var at := Parking(r, park);
    RankParks(r, admitted, parked, target, park);
    hide Once, Fewest, Parking, Disagrees;
    if Judge(at, votes).Take? {
      RankTakes(at, admitted, parked + (set l | l in park), target, Fewest(votes));
    } else {
      assert admitted + Took(Judge(at, votes)) == admitted;
    }
  }

  // Parking leases never parked before.
  lemma RankParks(r: Rank, admitted: seq<Lease>, parked: set<Lease>, target: nat, park: seq<Lease>)
    requires RankKept(r, admitted, parked, target) && Once(park) && forall l :: l in park ==> l !in parked
    requires WellFormed(Parking(r, park))
    ensures RankKept(Parking(r, park), admitted, parked + (set l | l in park), target)
  {
    ParkedOnce(admitted + r.queue, park);
    assert admitted + r.queue + park == admitted + Parking(r, park).queue;
  }

  // Taking the first n leases once as many as the target are ready.
  lemma RankTakes(at: Rank, admitted: seq<Lease>, parked: set<Lease>, target: nat, n: nat)
    requires RankKept(at, admitted, parked, target) && n <= |at.queue| && (at.wait ==> n >= at.target)
    ensures RankKept(Next(at, Take(at.queue[..n])), admitted + at.queue[..n], parked, target)
  {
    StillReady(at, n);
    assert admitted + at.queue == (admitted + at.queue[..n]) + at.queue[n..];
  }

  lemma ParkedOnce(leases: seq<Lease>, park: seq<Lease>)
    requires Once(leases) && Once(park) && forall l :: l in park ==> l !in leases
    ensures Once(leases + park)
  {
    forall i, j | 0 <= i < j < |leases + park| ensures (leases + park)[i] != (leases + park)[j] {
      if i < |leases| <= j {
        assert (leases + park)[j] in park && (leases + park)[i] in leases;
      }
    }
  }

  // What a rank keeps queued after taking n leases stays host-ready.
  lemma StillReady(at: Rank, n: nat)
    requires WellFormed(at) && n <= |at.queue|
    ensures WellFormed(Next(at, Take(at.queue[..n])))
  {
    var next := Next(at, Take(at.queue[..n]));
    forall i | 0 <= i < |next.queue| ensures next.queue[i] in next.hostReady {
      assert next.queue[i] == at.queue[n + i] && at.queue[n + i] in at.hostReady;
      assert next.queue[i] !in at.queue[..n] by {
        assert forall j :: 0 <= j < n ==> at.queue[..n][j] == at.queue[j] != at.queue[n + i];
      }
    }
  }

  /** A round without a raise keeps the ranks alike: so they parked alike before it, too. */
  lemma MeetingKeeps(g: Group, m: Meeting, h: Group, target: nat)
    requires Alike(g, target) && Follows(g, m, h)
    ensures Alike(h, target)
    ensures forall a, b {:trigger m.parks[a], m.parks[b]} :: 0 <= a < |g.ranks| && 0 <= b < |g.ranks| ==>
      m.parks[a] == m.parks[b]
  {
    var met := Met(g, m);
    forall k | 0 <= k < |g.ranks| ensures RankKept(h.ranks[k], h.admitted[k], h.parked[k], target) {
      RaisesEverywhere(met, m.dones, m.votes, 0, k);
      assert met[k] == Parking(g.ranks[k], m.parks[k]);
      assert RankKept(g.ranks[k], g.admitted[k], g.parked[k], target);
      RankKeeps(g.ranks[k], g.admitted[k], g.parked[k], target, m.parks[k], m.votes);
    }
    forall a, b | 0 <= a < |g.ranks| && 0 <= b < |g.ranks|
      ensures h.ranks[a].queue == h.ranks[b].queue && h.ranks[a].wait == h.ranks[b].wait
      ensures h.ranks[a].target == h.ranks[b].target
      ensures h.admitted[a] == h.admitted[b] && m.parks[a] == m.parks[b]
    {
      PairKeeps(g, m, h, target, a, b);
    }
  }

  lemma PairKeeps(g: Group, m: Meeting, h: Group, target: nat, a: nat, b: nat)
    requires Alike(g, target) && Follows(g, m, h) && a < |g.ranks| && b < |g.ranks|
    ensures h.ranks[a].queue == h.ranks[b].queue && h.ranks[a].wait == h.ranks[b].wait
    ensures h.ranks[a].target == h.ranks[b].target
    ensures h.admitted[a] == h.admitted[b] && m.parks[a] == m.parks[b]
  {
    var met := Met(g, m);
    RaisesEverywhere(met, m.dones, m.votes, 0, a);
    RoundAgrees(met, m.dones, m.votes, a, b);
    assert met[a].queue == g.ranks[a].queue + m.parks[a] && met[b].queue == g.ranks[b].queue + m.parks[b];
    assert met[a].queue == met[b].queue by { SameVotes(met, m.dones, m.votes, a, b); }
    assert m.parks[a] == met[a].queue[|g.ranks[a].queue|..] && m.parks[b] == met[b].queue[|g.ranks[b].queue|..];
    assert h.ranks[a] == Next(met[a], Judge(met[a], m.votes)) && h.ranks[b] == Next(met[b], Judge(met[b], m.votes));
    assert h.admitted[a] == g.admitted[a] + Took(Judge(met[a], m.votes));
    assert h.admitted[b] == g.admitted[b] + Took(Judge(met[b], m.votes));
  }

  // Ranks that agree with all votes hold the same queue.
  lemma SameVotes(ranks: seq<Rank>, dones: seq<seq<bool>>, votes: seq<Vote>, a: nat, b: nat)
    requires IsRound(ranks, dones, votes) && a < |ranks| && b < |ranks| && !Disagrees(ranks[a], votes)
    ensures ranks[a].queue == ranks[b].queue
  {
    assert votes[a].leases == ranks[a].queue && votes[b].leases == ranks[b].queue;
  }

  /** Over every run of rounds in which none raised: all ranks hold the same queue, waiting flag and
      target throughout, have admitted the same leases in the same order, none twice, and none before
      the initial target was reached. */
  lemma {:induction false} RanksStayAlike(groups: seq<Group>, meetings: seq<Meeting>, target: nat, i: nat)
    requires IsRunOfRounds(groups, meetings, target) && i < |groups|
    ensures Alike(groups[i], target)
    ensures forall k {:trigger groups[i].admitted[k]} :: 0 <= k < |groups[i].ranks| ==>
      && Once(groups[i].admitted[k]) && groups[i].admitted[k] == groups[i].admitted[0]
      && (groups[i].admitted[k] != [] ==> target <= |groups[i].admitted[k]|)
  {
    hide Follows, RankKept, Once;
    if i == 0 {
      AlikeAtFirst(groups[0], target);
    } else {
      RanksStayAlike(groups, meetings, target, i - 1);
      assert Follows(groups[i - 1], meetings[i - 1], groups[i - 1 + 1]);
      MeetingKeeps(groups[i - 1], meetings[i - 1], groups[i], target);
    }
    AlikeAdmits(groups[i], target);
  }

  lemma AlikeAtFirst(g: Group, target: nat)
    requires Starts(g, target)
    ensures Alike(g, target)
  {
    forall k | 0 <= k < |g.ranks| ensures RankKept(g.ranks[k], g.admitted[k], g.parked[k], target) {
      assert g.ranks[k] == Rank([], {}, target != 0, target);
    }
    assert g.ranks[0] == Rank([], {}, target != 0, target);
  }

  lemma AlikeAdmits(g: Group, target: nat)
    requires Alike(g, target)
    ensures forall k {:trigger g.admitted[k]} :: 0 <= k < |g.ranks| ==>
      && Once(g.admitted[k]) && g.admitted[k] == g.admitted[0] && (g.admitted[k] != [] ==> target <= |g.admitted[k]|)
  {
    forall k | 0 <= k < |g.ranks|
      ensures Once(g.admitted[k]) && g.admitted[k] == g.admitted[0]
      ensures g.admitted[k] != [] ==> target <= |g.admitted[k]|
    {
      assert g.ranks[k].queue == g.ranks[0].queue && RankKept(g.ranks[k], g.admitted[k], g.parked[k], target);
      assert g.admitted[k] == (g.admitted[k] + g.ranks[k].queue)[..|g.admitted[k]|];
    }
  }
}
