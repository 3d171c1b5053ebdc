// The bytes a captured checkpoint adds to the host cache are the bytes reserved for it.
module CaptureBytes {
  import opened Totals
  import opened HostPrefix

  // The device geometry: bytes of a token's raw K and V rows over all layers, of a group's
  // index rows over all layers, and of the recurrent, pending and position state.
  datatype Geometry = Geometry(perToken: nat, perGroup: nat, fixed: nat)

  // prefix_checkpoint_bytes
  function CheckpointBytes(g: Geometry, delta: nat, tokenCount: nat): nat {
    g.fixed + delta * g.perToken + delta / 4 * g.perGroup + tokenCount * 8
  }

  function SegmentBlocks(segments: seq<Segment>): set<Block> {
    if segments == [] then {}
    else SegmentBlocks(segments[..|segments| - 1]) + {segments[|segments| - 1].raw, segments[|segments| - 1].index}
  }

  // Freshly allocated tensors of consecutive stretches from `start`: each its own memory, of the
  // bytes its shape needs.
  ghost predicate Allocated(g: Geometry, segments: seq<Segment>, start: nat, stop: nat, taken: set<Block>) {
    if segments == [] then start == stop
    else
      var last, front := segments[|segments| - 1], segments[..|segments| - 1];
      && Allocated(g, front, start, last.start, taken)
      && last.stop == stop && start <= last.start <= stop && last.start % 4 == 0 && stop % 4 == 0
      && last.raw != last.index && last.raw !in taken + SegmentBlocks(front)
      && last.index !in taken + SegmentBlocks(front)
      && last.raw.size == (last.stop - last.start) * g.perToken
      && last.index.size == (last.stop - last.start) / 4 * g.perGroup
  }

  lemma TwoMore(before: set<Block>, raw: Block, index: Block)
    requires raw !in before && index !in before && raw != index
    ensures Total(before + {raw, index}, BlockSize) == Total(before, BlockSize) + raw.size + index.size
  {
    TotalAdd(before, raw, BlockSize);
    TotalAdd(before + {raw}, index, BlockSize);
    assert before + {raw} + {index} == before + {raw, index};
  }

  // Adjacent stretches of whole groups.
  lemma Stretches(start: nat, mid: nat, stop: nat, perToken: nat, perGroup: nat)
    requires start <= mid <= stop && start % 4 == 0 && mid % 4 == 0 && stop % 4 == 0
    ensures (stop - start) * perToken == (mid - start) * perToken + (stop - mid) * perToken
    ensures (stop - start) / 4 * perGroup == (mid - start) / 4 * perGroup + (stop - mid) / 4 * perGroup
  {
    Spread(mid - start, stop - mid, stop - start, perToken);
    Spread((mid - start) / 4, (stop - mid) / 4, (stop - start) / 4, perGroup);
  }

  lemma Spread(a: nat, b: nat, c: nat, per: nat)
    requires c == a + b
    ensures c * per == a * per + b * per
  {
  }

  /** The new segments weigh what their token count says, however they were cut into chunks. */
  lemma {:induction false} SegmentsWeigh(g: Geometry, segments: seq<Segment>, start: nat, stop: nat, taken: set<Block>)
    requires Allocated(g, segments, start, stop, taken) && start % 4 == 0
    ensures start <= stop && taken !! SegmentBlocks(segments)
    ensures Total(SegmentBlocks(segments), BlockSize) == (stop - start) * g.perToken + (stop - start) / 4 * g.perGroup
  {
    if segments != [] {
      var last, front := segments[|segments| - 1], segments[..|segments| - 1];
      SegmentsWeigh(g, front, start, last.start, taken);
      TwoMore(SegmentBlocks(front), last.raw, last.index);
      Stretches(start, last.start, stop, g.perToken, g.perGroup);
    }
  }

  lemma {:induction false} SegmentBlocksAre(segments: seq<Segment>)
    ensures forall b :: b in SegmentBlocks(segments) <==>
      exists i :: 0 <= i < |segments| && (b == segments[i].raw || b == segments[i].index)
  {
    if segments != [] {
      var front := segments[..|segments| - 1];
      SegmentBlocksAre(front);
      assert forall i :: 0 <= i < |front| ==> front[i] == segments[i];
    }
  }

  lemma {:induction false} SegmentBlocksBoth(a: seq<Segment>, b: seq<Segment>)
    ensures SegmentBlocks(a + b) == SegmentBlocks(a) + SegmentBlocks(b)
  {
    if b == [] {
      assert a + b == a;
    } else {
      SegmentBlocksBoth(a, b[..|b| - 1]);
      assert (a + b)[..|a + b| - 1] == a + b[..|b| - 1];
    }
  }

  lemma BlocksOfSnapshot(s: Snapshot)
    ensures s.Blocks() == {s.tokenKey} + SegmentBlocks(s.segments) + s.state
  {
    SegmentBlocksAre(s.segments);
  }

  /** A checkpoint that shares the segments of a basis still in the cache, and is otherwise new
      memory, adds exactly prefix_checkpoint_bytes: publish never finds its reservation exceeded. */
  lemma CaptureAddsItsReservation(s: State, g: Geometry, basis: seq<Segment>, added: seq<Segment>, start: nat,
                                  snapshot: Snapshot)
    requires SegmentBlocks(basis) <= AllBlocks(s.entries) + AllBlocks(s.retired)
    requires snapshot.segments == basis + added && start % 4 == 0
    requires var taken := AllBlocks(s.entries) + AllBlocks(s.retired) + {snapshot.tokenKey} + snapshot.state;
      Allocated(g, added, start, snapshot.Length(), taken)
    requires snapshot.tokenKey !in AllBlocks(s.entries) + AllBlocks(s.retired) + snapshot.state
    requires snapshot.state !! AllBlocks(s.entries) + AllBlocks(s.retired)
    requires snapshot.tokenKey.size == snapshot.Length() * 8 && Total(snapshot.state, BlockSize) == g.fixed
    ensures start <= snapshot.Length()
    ensures NewSize(s, snapshot) == CheckpointBytes(g, snapshot.Length() - start, snapshot.Length())
  {
    var all := AllBlocks(s.entries) + AllBlocks(s.retired);
    var taken := all + {snapshot.tokenKey} + snapshot.state;
    SegmentsWeigh(g, added, start, snapshot.Length(), taken);
    BlocksOfSnapshot(snapshot);
    SegmentBlocksBoth(basis, added);
    FreshPartWeighs(all, SegmentBlocks(basis), SegmentBlocks(added), snapshot.state, snapshot.tokenKey,
                    snapshot.Blocks());
  }

  lemma FreshPartWeighs(all: set<Block>, shared: set<Block>, added: set<Block>, state: set<Block>, key: Block,
                        blocks: set<Block>)
    requires shared <= all && blocks == {key} + (shared + added) + state
    requires key !in all + state && state !! all && added !! all + {key} + state
    ensures NewOver(all, blocks) == Total(added, BlockSize) + Total(state, BlockSize) + key.size
  {
    assert all + blocks == all + (state + {key} + added);
    TotalUnion(all, state + {key} + added, BlockSize);
    TotalUnion(state + {key}, added, BlockSize);
    TotalAdd(state, key, BlockSize);
  }

  /** The basis a capture holds open stays in use: its segments are shared, not added. */
  lemma BasisInUse(s: State, basis: Reader, budget: nat, maxEntries: nat, bytes: nat, count: nat)
    requires Inv(s, budget, maxEntries, bytes, count) && basis in s.open
    ensures SegmentBlocks(basis.snapshot.segments) <= AllBlocks(s.entries) + AllBlocks(s.retired)
  {
    BlocksOfSnapshot(basis.snapshot);
    forall b | b in SegmentBlocks(basis.snapshot.segments) ensures b in AllBlocks(s.entries) + AllBlocks(s.retired) {
      assert b in basis.snapshot.Blocks();
      if basis.entryId in s.entries && s.entries[basis.entryId].snapshot == basis.snapshot {
        assert b in s.entries[basis.entryId].snapshot.Blocks();
      } else {
        assert b in s.retired[basis.entryId].snapshot.Blocks();
      }
    }
  }
}
