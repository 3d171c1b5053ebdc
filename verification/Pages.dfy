// Token rows over 64-token pages, and what a paged allocator frees for a stretch of them.
module Pages {
  // Position p of a row lies at token p % 64 of page pages[p / 64].
  ghost predicate Paged(row: seq<nat>, pages: seq<nat>, upto: nat) {
    && upto <= |row| && upto <= 64 * |pages|
    && forall p {:trigger row[p]} :: 0 <= p < upto ==> row[p] == 64 * pages[p / 64] + p % 64
  }

  // Whole pages holding a length.
  function PageCount(length: nat): nat { (length + 63) / 64 }

  // The allocator frees the pages that hold the given tokens, each once.
  function PagesOf(locs: seq<nat>): set<nat> { set i | 0 <= i < |locs| :: locs[i] / 64 }

  function PageSet(pages: seq<nat>, from: nat, to: nat): set<nat>
    requires to <= |pages|
  {
    set b | from <= b < to :: pages[b]
  }

  // A whole number of pages is a whole number of groups of four.
  lemma PagesAreGroups(x: nat)
    requires x % 64 == 0
    ensures x % 4 == 0
  {
    assert x == 4 * (16 * (x / 64));
    MultipleOfFour(x, 16 * (x / 64));
  }

  lemma MultipleOfFour(x: nat, q: nat)
    requires x == 4 * q
    ensures x % 4 == 0
  {
  }

  // Chunks are at most 4096 tokens long.
  function ChunkEnd(offset: nat, length: nat): nat { if offset + 4096 < length then offset + 4096 else length }

  // Where a stretch from `start` to `length` is cut.
  function Cut(start: nat, length: nat): seq<(nat, nat)>
    decreases length - start
  {
    if start >= length then [] else [(start, ChunkEnd(start, length))] + Cut(ChunkEnd(start, length), length)
  }

  /** Stretches that adjoin, none longer than 4096 and only the last one shorter. */
  lemma {:induction false} CutIsEven(start: nat, length: nat)
    requires start < length
    ensures var cut := Cut(start, length);
      && |cut| > 0 && cut[0].0 == start && cut[|cut| - 1].1 == length
      && (forall i :: 0 < i < |cut| ==> cut[i].0 == cut[i - 1].1)
      && (forall i :: 0 <= i < |cut| - 1 ==> cut[i].1 == cut[i].0 + 4096)
      && cut[|cut| - 1].0 < cut[|cut| - 1].1 <= cut[|cut| - 1].0 + 4096
    decreases length - start
  {
    var stop := ChunkEnd(start, length);
    CutStep(start, length);
    if stop < length {
      CutIsEven(stop, length);
      hide Cut, ChunkEnd;
      var cut, rest := Cut(start, length), Cut(stop, length);
      assert cut[0] == (start, stop) && forall i :: 0 < i < |cut| ==> cut[i] == rest[i - 1];
    } else {
      assert Cut(stop, length) == [];
    }
  }

  lemma CutStep(start: nat, length: nat)
    requires start < length
    ensures Cut(start, length) == [(start, ChunkEnd(start, length))] + Cut(ChunkEnd(start, length), length)
  {
  }

  lemma CutMore(before: seq<(nat, nat)>, start: nat, length: nat)
    requires start < length
    ensures before + [(start, ChunkEnd(start, length))] + Cut(ChunkEnd(start, length), length)
         == before + Cut(start, length)
  {
    hide Cut;
    CutStep(start, length);
    assert before + ([(start, ChunkEnd(start, length))] + Cut(ChunkEnd(start, length), length))
        == before + [(start, ChunkEnd(start, length))] + Cut(ChunkEnd(start, length), length);
  }

  // A stretch from a page boundary covers exactly the pages from there on.
  lemma {:induction false} AlignedPages(row: seq<nat>, pages: seq<nat>, start: nat, end: nat)
    requires Paged(row, pages, end) && start <= end && start % 64 == 0
    ensures PageCount(end) <= |pages| && PagesOf(row[start..end]) == PageSet(pages, start / 64, PageCount(end))
  {
    var freed, expected := PagesOf(row[start..end]), PageSet(pages, start / 64, PageCount(end));
    forall page | page in freed ensures page in expected {
      var i :| 0 <= i < end - start && row[start..end][i] / 64 == page;
      assert row[start + i] == 64 * pages[(start + i) / 64] + (start + i) % 64;
      assert page == pages[(start + i) / 64];
    }
    forall page | page in expected ensures page in freed {
      var b :| start / 64 <= b < PageCount(end) && pages[b] == page;
      assert start <= 64 * b < end;
      assert row[64 * b] == 64 * pages[64 * b / 64] + 64 * b % 64;
      assert row[start..end][64 * b - start] / 64 == page;
    }
  }

  // (-had) % 64, the tokens left in the page that holds the end of a length.
  function Skip(had: nat): (r: nat)
    ensures r < 64 && (had + r) % 64 == 0 && (had + r) / 64 == PageCount(had)
  {
    var negative: int := -(had as int);
    negative % 64
  }

  /** What an extension of `had` tokens to `end` newly owns: freeing the row from `had` on, less
      the tokens of the page already partly owned, frees exactly the new pages. */
  lemma NewPages(row: seq<nat>, pages: seq<nat>, had: nat, end: nat)
    requires Paged(row, pages, end) && had <= end
    ensures PageCount(end) <= |pages|
    ensures end - had > Skip(had) ==>
      PagesOf(row[had..end][Skip(had)..]) == PageSet(pages, PageCount(had), PageCount(end))
    ensures end - had <= Skip(had) ==> PageSet(pages, PageCount(had), PageCount(end)) == {}
  {
    if end - had > Skip(had) {
      assert row[had..end][Skip(had)..] == row[had + Skip(had)..end];
      AlignedPages(row, pages, had + Skip(had), end);
    }
  }
}
