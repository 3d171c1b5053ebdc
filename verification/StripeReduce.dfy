// The serial reduction of shared columns through spin locks, as a state machine over
// all CTAs of a launch. Any CTA may take the next step.
module StripeReduce {
  // An uninterpreted summation tree: Part accumulates the K tiles [from, upto) of a column
  // in order; Plus adds the value read from the global buffer to a CTA's own accumulators.
  datatype Sum = Part(col: nat, from: int, upto: int) | Plus(own: Sum, tmp: Sum)

  datatype Phase = Ready | Holding | Reduced(acc: Sum) | Writing(acc: Sum)

  datatype State = State(
    cur: seq<nat>,        // per CTA: the column its slice is in
    phase: seq<Phase>,    // per CTA: where it is in the reduction of that column
    locks: seq<int>,
    tmp: seq<Sum>,        // C_tmp, one region per lock
    out: map<nat, Sum>,   // C, per column
    log: seq<seq<int>>)   // per column: slice_idx of each reduction done, in order

  // ---- who shares what ----------------------------------------------------------------------

  // The tables the protocol depends on, one entry per column or per CTA.
  datatype Layout = Layout(
    first: seq<int>,          // per column: lowest CTA working in it
    last: seq<int>,           // per column: highest CTA working in it
    lock: seq<int>,           // per column: its lock when it is shared
    begin: seq<int>,          // per CTA: its columns are begin..end-1
    end: seq<int>,
    own: (int, int) -> Sum)   // what CTA b accumulates in column c
  {
    function Cols(): nat { |first| }

    function Blocks(): nat { |begin| }

    function Sharers(c: nat): int requires c < |first| && c < |last| { last[c] - first[c] + 1 }

    ghost predicate Valid() {
      && |first| == |last| == |lock| && |begin| == |end|
      && (forall c :: 0 <= c < Cols() ==> 0 <= first[c] <= last[c] < Blocks())
      && (forall b :: 0 <= b < Blocks() ==> 0 <= begin[b] <= end[b] && (begin[b] < end[b] ==> end[b] <= Cols()))
      && (forall b, c :: 0 <= b < Blocks() && 0 <= c < Cols() ==>
            (begin[b] <= c < end[b] <==> first[c] <= b <= last[c]))
      && (forall c :: 0 <= c < Cols() && Sharers(c) > 1 ==> 0 <= lock[c] < Blocks())
      && (forall c, c' :: 0 <= c < c' < Cols() && Sharers(c) > 1 && Sharers(c') > 1 ==> lock[c] != lock[c'])
    }
  }

  function Idx(p: Layout, b: nat, c: nat): int
    requires c < |p.last|
  {
    p.last[c] - b
  }

  // The tree left by slice_idx 0..d-1: bottom CTA first, each later one added on top.
  function Chain(p: Layout, c: nat, d: nat): Sum
    requires c < |p.first| && c < |p.last| && 0 < d <= p.Sharers(c)
  {
    if d == 1 then p.own(p.last[c], c)
    else Plus(p.own(p.last[c] - (d - 1), c), Chain(p, c, d - 1))
  }

  // ---- steps ------------------------------------------------------------------------------

  ghost predicate Shaped(p: Layout, s: State) {
    && |s.cur| == |s.phase| == |s.locks| == |s.tmp| == p.Blocks()
    && |s.log| == p.Cols()
  }

  ghost predicate Finished(p: Layout, s: State, b: nat)
    requires p.Valid() && Shaped(p, s) && b < p.Blocks()
  {
    s.cur[b] >= p.end[b]
  }

  // What every unfinished CTA can rely on before it steps.
  ghost predicate Inside(p: Layout, s: State, b: nat)
    requires p.Valid() && Shaped(p, s) && b < p.Blocks()
  {
    var c := s.cur[b];
    && p.begin[b] <= c <= p.end[b]
    && (c == p.end[b] ==> s.phase[b] == Ready)
    && (c < p.end[b] ==>
          && c < p.Cols()
          && 0 <= p.first[c] <= b <= p.last[c] < p.Blocks()
          && (p.Sharers(c) == 1 ==> s.phase[b] == Ready)
          && (p.Sharers(c) > 1 ==> 0 <= p.lock[c] < p.Blocks()))
  }

  // barrier_acquire spins until the lock reads slice_idx; everything else never waits.
  ghost predicate CanStep(p: Layout, s: State, b: nat)
    requires p.Valid() && Shaped(p, s) && b < p.Blocks() && Inside(p, s, b)
  {
    && !Finished(p, s, b)
    && (p.Sharers(s.cur[b]) > 1 && s.phase[b].Ready? ==> s.locks[p.lock[s.cur[b]]] == Idx(p, b, s.cur[b]))
  }

  ghost function Step(p: Layout, s: State, b: nat): State
    requires p.Valid() && Shaped(p, s) && b < p.Blocks() && Inside(p, s, b) && CanStep(p, s, b)
  {
    var c := s.cur[b];
    var next := s.(cur := s.cur[b := c + 1], phase := s.phase[b := Ready]);
    if p.Sharers(c) == 1 then
      // no other CTA in the column: write the result directly
      next.(out := s.out[c := p.own(b, c)])
    else
      var l, idx := p.lock[c], Idx(p, b, c);
      var last := idx == p.Sharers(c) - 1;
      match s.phase[b]
      case Ready => s.(phase := s.phase[b := Holding])
      case Holding =>
        // global_reduce: read unless first, write back unless last
        var acc := if idx == 0 then p.own(b, c) else Plus(p.own(b, c), s.tmp[l]);
        s.(phase := s.phase[b := Reduced(acc)],
           tmp := if last then s.tmp else s.tmp[l := acc],
           log := s.log[c := s.log[c] + [idx]])
      case Reduced(acc) =>
        // barrier_release: reset by the last CTA, otherwise count one more visit
        if last then s.(locks := s.locks[l := 0], phase := s.phase[b := Writing(acc)])
        else next.(locks := s.locks[l := s.locks[l] + 1])
      case Writing(acc) => next.(out := s.out[c := acc])
  }

  ghost predicate IsInit(p: Layout, s: State)
    requires p.Valid()
  {
    && Shaped(p, s)
    && (forall b :: 0 <= b < p.Blocks() ==> s.cur[b] == p.begin[b] && s.phase[b] == Ready && s.locks[b] == 0)
    && (forall c :: 0 <= c < p.Cols() ==> s.log[c] == [])
  }

  // ---- the invariant -----------------------------------------------------------------------

  // CTA b has done its reduction of column c.
  ghost predicate HasReduced(s: State, b: nat, c: nat)
    requires b < |s.cur| && |s.phase| == |s.cur|
  {
    s.cur[b] > c || (s.cur[b] == c && (s.phase[b].Reduced? || s.phase[b].Writing?))
  }

  // ... but still holds the lock.
  ghost predicate StillLocked(s: State, b: nat, c: nat)
    requires b < |s.cur| && |s.phase| == |s.cur|
  {
    s.cur[b] == c && s.phase[b].Reduced?
  }

  ghost predicate InColumnOrder(log: seq<int>) { forall i :: 0 <= i < |log| ==> log[i] == i }

  ghost predicate SharedInv(p: Layout, s: State, c: nat)
    requires p.Valid() && Shaped(p, s) && c < p.Cols()
    requires 0 <= p.first[c] <= p.last[c] < p.Blocks() && 0 <= p.lock[c] < p.Blocks()
  {
    var n, count, l := |s.log[c]|, p.Sharers(c), p.lock[c];
    && InColumnOrder(s.log[c]) && n <= count
    && (forall b: nat :: p.first[c] <= b <= p.last[c] ==> CtaInv(p, s, c, b))
    && s.locks[l] == (if n > 0 && StillLocked(s, p.last[c] - (n - 1), c) then n - 1
                      else if n == count then 0 else n)
    && (0 < n < count ==> s.tmp[l] == Chain(p, c, n))
  }

  ghost predicate CtaInv(p: Layout, s: State, c: nat, b: nat)
    requires p.Valid() && Shaped(p, s) && c < p.Cols() && 0 <= p.first[c] <= b <= p.last[c] < p.Blocks()
  {
    var n := |s.log[c]|;
    && n <= p.Sharers(c)
    && (HasReduced(s, b, c) <==> Idx(p, b, c) < n)
    && (s.cur[b] == c && s.phase[b].Holding? ==>
        Idx(p, b, c) == n && (n > 0 ==> !StillLocked(s, p.last[c] - (n - 1), c)))
    && (StillLocked(s, b, c) ==> Idx(p, b, c) == n - 1 && s.phase[b].acc == Chain(p, c, n))
    && (s.cur[b] == c && s.phase[b].Writing? ==>
        Idx(p, b, c) == n - 1 && n == p.Sharers(c) && s.phase[b].acc == Chain(p, c, n))
  }

  ghost predicate OutInv(p: Layout, s: State, c: nat)
    requires p.Valid() && Shaped(p, s) && c < p.Cols() && 0 <= p.first[c] <= p.last[c] < p.Blocks()
  {
    s.cur[p.first[c]] > c ==> c in s.out && s.out[c] == Chain(p, c, p.Sharers(c))
  }

  // Lock l guards some shared column.
  ghost predicate LockUsed(p: Layout, l: int)
    requires p.Valid()
  {
    exists c: nat :: c < p.Cols() && p.Sharers(c) > 1 && p.lock[c] == l
  }

  ghost predicate Inv(p: Layout, s: State) {
    && p.Valid() && Shaped(p, s)
    && (forall b :: 0 <= b < p.Blocks() ==> Inside(p, s, b))
    && (forall c: nat :: c < p.Cols() ==> ColumnInv(p, s, c))
    && (forall l :: 0 <= l < p.Blocks() && !LockUsed(p, l) ==> s.locks[l] == 0)
  }

  ghost predicate ColumnInv(p: Layout, s: State, c: nat)
    requires p.Valid() && Shaped(p, s) && c < p.Cols()
  {
    && 0 <= p.first[c] <= p.last[c] < p.Blocks()
    && OutInv(p, s, c)
    && (p.Sharers(c) > 1 ==> 0 <= p.lock[c] < p.Blocks() && SharedInv(p, s, c))
  }

  // No CTA can take another step.
  ghost predicate Stuck(p: Layout, s: State) {
    Inv(p, s) && forall b: nat :: b < p.Blocks() ==> !CanStep(p, s, b)
  }

  // ---- initial states -------------------------------------------------------------------------

  lemma InitInv(p: Layout, s: State)
    requires p.Valid() && IsInit(p, s)
    ensures Inv(p, s)
  {
    forall b: nat | b < p.Blocks() ensures Inside(p, s, b) {
    }
    forall c: nat | c < p.Cols() ensures ColumnInv(p, s, c) {
      forall b: nat | p.first[c] <= b <= p.last[c] ensures s.cur[b] <= c {
      }
    }
  }

  // ---- every step keeps the invariant ---------------------------------------------------------

  lemma {:induction false} StepInv(p: Layout, s: State, b: nat)
    requires Inv(p, s) && b < p.Blocks() && CanStep(p, s, b)
    ensures Inv(p, Step(p, s, b))
  {
    hide Step, ColumnInv, Inside;
    StepKeepsPlaces(p, s, b);
    forall c: nat | c < p.Cols() ensures ColumnInv(p, Step(p, s, b), c) {
      StepColumn(p, s, b, c);
    }
  }

  // Every CTA stays in its stripe, and an unused lock stays free.
  lemma StepKeepsPlaces(p: Layout, s: State, b: nat)
    requires Inv(p, s) && b < p.Blocks() && CanStep(p, s, b)
    ensures Shaped(p, Step(p, s, b))
    ensures forall a :: 0 <= a < p.Blocks() ==> Inside(p, Step(p, s, b), a)
    ensures forall l :: 0 <= l < p.Blocks() && !LockUsed(p, l) ==> Step(p, s, b).locks[l] == 0
  {
    hide SharedInv, OutInv;
    var s' := Step(p, s, b);
    forall a | 0 <= a < p.Blocks() ensures Inside(p, s', a) {
      assert Inside(p, s, a);
    }
    assert ColumnInv(p, s, s.cur[b]);
    forall l | 0 <= l < p.Blocks() && !LockUsed(p, l) ensures s'.locks[l] == 0 {}
  }

  lemma StepColumn(p: Layout, s: State, b: nat, c: nat)
    requires Inv(p, s) && b < p.Blocks() && CanStep(p, s, b) && c < p.Cols()
    ensures ColumnInv(p, Step(p, s, b), c)
  {
    if c != s.cur[b] {
      OtherColumn(p, s, b, c);
    } else if p.Sharers(c) == 1 {
      assert Inside(p, s, b) && ColumnInv(p, s, c);
      assert p.first[c] == b;
    } else {
      match s.phase[b]
      case Ready => AcquireStep(p, s, b);
      case Holding => ReduceStep(p, s, b);
      case Reduced(_) => ReleaseStep(p, s, b);
      case Writing(_) => WriteStep(p, s, b);
    }
  }

  lemma OtherColumn(p: Layout, s: State, b: nat, c: nat)
    requires Inv(p, s) && b < p.Blocks() && CanStep(p, s, b)
    requires c < p.Cols() && c != s.cur[b]
    ensures ColumnInv(p, Step(p, s, b), c)
  {
    hide Step, CtaInv, StillLocked, HasReduced, OutInv;
    var s' := Step(p, s, b);
    assert ColumnInv(p, s, c) && Inside(p, s, b);
    OtherOut(p, s, b, c);
    if p.Sharers(c) > 1 {
      forall a: nat | p.first[c] <= a <= p.last[c]
        ensures StillLocked(s', a, c) == StillLocked(s, a, c) && CtaInv(p, s', c, a)
      {
        OtherCta(p, s, b, c, a);
      }
      OtherRegions(p, s, b, c);
    }
  }

  lemma OtherOut(p: Layout, s: State, b: nat, c: nat)
    requires p.Valid() && Shaped(p, s) && b < p.Blocks() && Inside(p, s, b) && CanStep(p, s, b)
    requires c < p.Cols() && c != s.cur[b] && 0 <= p.first[c] <= p.last[c] < p.Blocks() && OutInv(p, s, c)
    ensures Shaped(p, Step(p, s, b)) && OutInv(p, Step(p, s, b), c)
  {
  }

  lemma OtherRegions(p: Layout, s: State, b: nat, c: nat)
    requires p.Valid() && Shaped(p, s) && b < p.Blocks() && Inside(p, s, b) && CanStep(p, s, b)
    requires c < p.Cols() && c != s.cur[b] && p.Sharers(c) > 1
    ensures var s' := Step(p, s, b);
            && Shaped(p, s')
            && s'.locks[p.lock[c]] == s.locks[p.lock[c]] && s'.tmp[p.lock[c]] == s.tmp[p.lock[c]]
            && s'.log[c] == s.log[c]
  {
  }

  // A step moves its own CTA by at most one column, which it then enters afresh, and no other.
  lemma StepMoves(p: Layout, s: State, b: nat, c: nat, a: nat)
    requires p.Valid() && Shaped(p, s) && b < p.Blocks() && Inside(p, s, b) && CanStep(p, s, b)
    requires c < p.Cols() && c != s.cur[b] && a < p.Blocks()
    ensures var s' := Step(p, s, b);
            && Shaped(p, s') && s'.log[c] == s.log[c]
            && (a != b ==> s'.cur[a] == s.cur[a] && s'.phase[a] == s.phase[a])
            && (a == b ==> s'.cur[a] == s.cur[a] || (s'.cur[a] == s.cur[a] + 1 && s'.phase[a] == Ready))
  {
  }

  // Taking a step in one column changes nothing a CTA has promised in another.
  lemma OtherCta(p: Layout, s: State, b: nat, c: nat, a: nat)
    requires p.Valid() && Shaped(p, s) && b < p.Blocks() && Inside(p, s, b) && CanStep(p, s, b)
    requires c < p.Cols() && c != s.cur[b] && 0 <= p.first[c] <= a <= p.last[c] < p.Blocks()
    requires CtaInv(p, s, c, a)
    ensures Shaped(p, Step(p, s, b))
    ensures StillLocked(Step(p, s, b), a, c) == StillLocked(s, a, c)
    ensures CtaInv(p, Step(p, s, b), c, a)
  {
    hide Step;
    StepMoves(p, s, b, c, a);
    var n := |s.log[c]|;
    if n > 0 { StepMoves(p, s, b, c, p.last[c] - (n - 1)); }
  }

  lemma AcquireStep(p: Layout, s: State, b: nat)
    requires Inv(p, s) && b < p.Blocks() && CanStep(p, s, b)
    requires p.Sharers(s.cur[b]) > 1 && s.phase[b].Ready?
    ensures ColumnInv(p, Step(p, s, b), s.cur[b])
  {
    var s', c := Step(p, s, b), s.cur[b];
    var n := |s.log[c]|;
    assert ColumnInv(p, s, c) && CtaInv(p, s, c, b);
    if n > 0 { assert CtaInv(p, s, c, p.last[c] - (n - 1)); }
    forall a: nat | p.first[c] <= a <= p.last[c] ensures CtaInv(p, s', c, a) {
      assert CtaInv(p, s, c, a);
    }
  }

  lemma ReduceStep(p: Layout, s: State, b: nat)
    requires Inv(p, s) && b < p.Blocks() && CanStep(p, s, b)
    requires p.Sharers(s.cur[b]) > 1 && s.phase[b].Holding?
    ensures ColumnInv(p, Step(p, s, b), s.cur[b])
  {
    var s', c := Step(p, s, b), s.cur[b];
    var n := |s.log[c]|;
    assert ColumnInv(p, s, c) && CtaInv(p, s, c, b);
    assert s'.log[c] == s.log[c] + [n];
    assert s'.phase[b].acc == Chain(p, c, n + 1);
    forall a: nat | p.first[c] <= a <= p.last[c] ensures CtaInv(p, s', c, a) {
      assert CtaInv(p, s, c, a);
    }
  }

  lemma ReleaseStep(p: Layout, s: State, b: nat)
    requires Inv(p, s) && b < p.Blocks() && CanStep(p, s, b)
    requires p.Sharers(s.cur[b]) > 1 && s.phase[b].Reduced?
    ensures ColumnInv(p, Step(p, s, b), s.cur[b])
  {
    var s', c := Step(p, s, b), s.cur[b];
    assert ColumnInv(p, s, c) && CtaInv(p, s, c, b);
    forall a: nat | p.first[c] <= a <= p.last[c] ensures CtaInv(p, s', c, a) {
      assert CtaInv(p, s, c, a);
    }
  }

  lemma WriteStep(p: Layout, s: State, b: nat)
    requires Inv(p, s) && b < p.Blocks() && CanStep(p, s, b)
    requires p.Sharers(s.cur[b]) > 1 && s.phase[b].Writing?
    ensures ColumnInv(p, Step(p, s, b), s.cur[b])
  {
    var s', c := Step(p, s, b), s.cur[b];
    assert ColumnInv(p, s, c) && CtaInv(p, s, c, b);
    assert b == p.first[c];
    forall a: nat | p.first[c] <= a <= p.last[c] ensures CtaInv(p, s', c, a) {
      assert CtaInv(p, s, c, a);
    }
  }

  // ---- progress -----------------------------------------------------------------------------------

  /** The highest-numbered unfinished CTA can always step, so no reachable state deadlocks. */
  lemma {:induction false} HighestUnfinishedSteps(p: Layout, s: State, b: nat)
    requires Inv(p, s) && b < p.Blocks() && !Finished(p, s, b)
    requires forall a: nat :: b < a < p.Blocks() ==> Finished(p, s, a)
    ensures CanStep(p, s, b)
  {
    var c := s.cur[b];
    assert Inside(p, s, b);
    assert ColumnInv(p, s, c);
    if p.Sharers(c) > 1 && s.phase[b].Ready? {
      var n := |s.log[c]|;
      assert CtaInv(p, s, c, b);
      if b < p.last[c] {
        assert CtaInv(p, s, c, b + 1);
        assert Finished(p, s, b + 1);
      }
      assert n == Idx(p, b, c);
      if n > 0 { assert CtaInv(p, s, c, p.last[c] - (n - 1)) && Finished(p, s, p.last[c] - (n - 1)); }
    }
  }

  lemma {:induction false} HighestUnfinished(p: Layout, s: State, b: nat) returns (h: nat)
    requires p.Valid() && Shaped(p, s) && b < p.Blocks() && !Finished(p, s, b)
    ensures b <= h < p.Blocks() && !Finished(p, s, h)
    ensures forall a: nat :: h < a < p.Blocks() ==> Finished(p, s, a)
    decreases p.Blocks() - b
  {
    if a: nat :| b < a < p.Blocks() && !Finished(p, s, a) {
      h := HighestUnfinished(p, s, a);
    } else {
      h := b;
    }
  }

  function Rank(ph: Phase): nat {
    match ph case Ready => 0 case Holding => 1 case Reduced(_) => 2 case Writing(_) => 3
  }

  // Steps CTA b has left, at most.
  ghost function Left(p: Layout, s: State, b: nat): int
    requires p.Valid() && Shaped(p, s) && b < p.Blocks()
  {
    4 * (p.end[b] - s.cur[b]) - Rank(s.phase[b])
  }

  ghost function LeftUpTo(p: Layout, s: State, n: nat): int
    requires p.Valid() && Shaped(p, s) && n <= p.Blocks()
  {
    if n == 0 then 0 else LeftUpTo(p, s, n - 1) + Left(p, s, n - 1)
  }

  lemma {:induction false} LeftNonNegative(p: Layout, s: State, n: nat)
    requires Inv(p, s) && n <= p.Blocks()
    ensures LeftUpTo(p, s, n) >= 0
  {
    if n > 0 { LeftNonNegative(p, s, n - 1); assert Inside(p, s, n - 1); }
  }

  lemma StepLeavesOneLess(p: Layout, s: State, b: nat, a: nat)
    requires Inv(p, s) && b < p.Blocks() && CanStep(p, s, b) && a < p.Blocks()
    ensures Shaped(p, Step(p, s, b))
    ensures Left(p, Step(p, s, b), a) <= Left(p, s, a) - (if a == b then 1 else 0)
  {
    assert Inside(p, s, b);
  }

  lemma {:induction false} StepLeavesLess(p: Layout, s: State, b: nat, n: nat)
    requires Inv(p, s) && b < p.Blocks() && CanStep(p, s, b) && n <= p.Blocks()
    ensures Shaped(p, Step(p, s, b))
    ensures LeftUpTo(p, Step(p, s, b), n) <= LeftUpTo(p, s, n) - (if b < n then 1 else 0)
  {
    StepLeavesOneLess(p, s, b, if n > 0 then n - 1 else b);
    if n > 0 { StepLeavesLess(p, s, b, n - 1); }
  }

  // ---- whole runs ------------------------------------------------------------------------------------

  ghost predicate IsRun(p: Layout, run: seq<State>)
    requires p.Valid()
  {
    && |run| > 0 && IsInit(p, run[0])
    && forall i :: 0 < i < |run| ==> IsStep(p, run[i - 1], run[i])
  }

  ghost predicate IsStep(p: Layout, s: State, s': State)
    requires p.Valid()
  {
    Shaped(p, s) && exists b: nat :: b < p.Blocks() && Inside(p, s, b) && CanStep(p, s, b) && s' == Step(p, s, b)
  }

  lemma {:induction false} RunInv(p: Layout, run: seq<State>)
    requires p.Valid() && IsRun(p, run)
    ensures Inv(p, run[|run| - 1])
    ensures LeftUpTo(p, run[|run| - 1], p.Blocks()) <= LeftUpTo(p, run[0], p.Blocks()) - (|run| - 1)
  {
    InitInv(p, run[0]);
    if |run| > 1 {
      var m := |run| - 1;
      RunPrefix(p, run);
      RunInv(p, run[..m]);
      assert IsStep(p, run[m - 1], run[m]);
      var b: nat :| b < p.Blocks() && Inside(p, run[m - 1], b) && CanStep(p, run[m - 1], b)
        && run[m] == Step(p, run[m - 1], b);
      StepKeeps(p, run[m - 1], b);
    }
  }

  lemma StepKeeps(p: Layout, s: State, b: nat)
    requires Inv(p, s) && b < p.Blocks() && CanStep(p, s, b)
    ensures Inv(p, Step(p, s, b))
    ensures LeftUpTo(p, Step(p, s, b), p.Blocks()) <= LeftUpTo(p, s, p.Blocks()) - 1
  {
    StepInv(p, s, b);
    StepLeavesLess(p, s, b, p.Blocks());
  }

  lemma RunPrefix(p: Layout, run: seq<State>)
    requires p.Valid() && IsRun(p, run) && |run| > 1
    ensures IsRun(p, run[..|run| - 1])
  {
    var before := run[..|run| - 1];
    forall i | 0 < i < |before| ensures IsStep(p, before[i - 1], before[i]) {
      assert before[i] == run[i] && before[i - 1] == run[i - 1];
    }
  }

  /** Every run, whatever the interleaving: shared columns are reduced in slice_idx order,
      runs have bounded length, and a state with no step left has every CTA finished, every
      lock back at 0 and in each column the one fixed summation tree. */
  lemma {:induction false} EveryRunReduces(p: Layout, run: seq<State>)
    requires p.Valid() && IsRun(p, run)
    ensures var s := run[|run| - 1];
      && Inv(p, s)
      && |run| - 1 <= LeftUpTo(p, run[0], p.Blocks())
      && (forall c: nat :: c < p.Cols() && p.Sharers(c) > 1 ==> InColumnOrder(s.log[c]) && |s.log[c]| <= p.Sharers(c))
      && (Stuck(p, s) ==>
            && (forall b: nat :: b < p.Blocks() ==> Finished(p, s, b))
            && (forall l :: 0 <= l < p.Blocks() ==> s.locks[l] == 0)
            && (forall c: nat :: c < p.Cols() ==>
                  && 0 <= p.first[c] && 0 < p.Sharers(c)
                  && c in s.out && s.out[c] == Chain(p, c, p.Sharers(c))
                  && (p.Sharers(c) > 1 ==> |s.log[c]| == p.Sharers(c))))
  {
    var s := run[|run| - 1];
    RunInv(p, run);
    LeftNonNegative(p, s, p.Blocks());
    forall c: nat | c < p.Cols() && p.Sharers(c) > 1
      ensures InColumnOrder(s.log[c]) && |s.log[c]| <= p.Sharers(c)
    {
      assert ColumnInv(p, s, c);
    }
    if Stuck(p, s) {
      if b: nat :| b < p.Blocks() && !Finished(p, s, b) {
        var h := HighestUnfinished(p, s, b);
        HighestUnfinishedSteps(p, s, h);
      }
      AllFinished(p, s);
    }
  }

  lemma AllFinished(p: Layout, s: State)
    requires Inv(p, s) && forall b: nat :: b < p.Blocks() ==> Finished(p, s, b)
    ensures forall l :: 0 <= l < p.Blocks() ==> s.locks[l] == 0
    ensures forall c: nat :: c < p.Cols() ==>
              && 0 <= p.first[c] && 0 < p.Sharers(c)
              && c in s.out && s.out[c] == Chain(p, c, p.Sharers(c))
              && (p.Sharers(c) > 1 ==> |s.log[c]| == p.Sharers(c))
  {
    forall c: nat | c < p.Cols()
      ensures ColumnInv(p, s, c) && s.cur[p.first[c]] > c
      ensures p.Sharers(c) > 1 ==> |s.log[c]| == p.Sharers(c) && s.locks[p.lock[c]] == 0
    {
      assert ColumnInv(p, s, c);
      assert p.begin[p.first[c]] <= c < p.end[p.first[c]];
      assert Finished(p, s, p.first[c]);
      if p.Sharers(c) > 1 {
        assert CtaInv(p, s, c, p.first[c]);
      }
    }
    forall l | 0 <= l < p.Blocks() ensures s.locks[l] == 0 {
      if LockUsed(p, l) {
        var c: nat :| c < p.Cols() && p.Sharers(c) > 1 && p.lock[c] == l;
      }
    }
  }
}
