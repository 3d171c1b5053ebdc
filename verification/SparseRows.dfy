// The rows the repository's own producers hand to sparse attention.
module SparseRows {
  import opened Counting
  import opened SparseAttention
  import StableTopK

  /** A row of the stable top-k has its valid entries in front, each once and below the row's
      length; its first entry is valid unless the row has none. */
  lemma TopKRowInFront(scores: seq<StableTopK.Score>, length: nat, topk: nat, out: seq<int>)
    requires length <= |scores| && StableTopK.Lists(out, StableTopK.Best(scores, length, topk), topk)
    ensures FrontRow(out, length)
    ensures topk > 0 ==> (out[0] >= 0 <==> StableTopK.Best(scores, length, topk) != {})
  {
    var best := StableTopK.Best(scores, length, topk);
    assert FrontOf(out, length, |best|);
  }

  // A row of packed decode: the first `count` packed tokens, then padding.
  function PackedRow(topk: nat, count: nat): (row: seq<int>)
    ensures |row| == topk
  {
    seq(topk, j requires 0 <= j < topk => if j < count then j else -1)
  }

  /** A packed decode row has its valid entries in front, all visible, and starts with one unless
      the request has no token. */
  lemma PackedRowInFront(topk: nat, count: nat)
    ensures FrontRow(PackedRow(topk, count), count)
    ensures forall j {:trigger PackedRow(topk, count)[j]} :: 0 <= j < topk ==>
      PackedRow(topk, count)[j] == -1 || PackedRow(topk, count)[j] == j
    ensures topk > 0 ==> (PackedRow(topk, count)[0] >= 0 <==> count > 0)
  {
    var n := if count < topk then count else topk;
    assert FrontOf(PackedRow(topk, count), count, n);
  }
}
