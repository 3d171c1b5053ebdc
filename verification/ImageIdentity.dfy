// What an image prompt must share with a host prefix, besides its tokens, to reuse it.
module ImageIdentity {
  import opened C4Layout

  const PAGE: nat := 64

  type Position = (int, int, int)   // the M-RoPE position of one token

  datatype Record = Record(artifact: string, order: nat, start: nat, stop: nat, grid: (nat, nat, nat))

  // A digest of a digest and a page. Hashing is taken as injective; the empty start and a page
  // of fixed size leave nothing else to confuse.
  datatype Digest = Start | Hash(previous: Digest, page: seq<Position>)

  datatype Identity = Identity(records: seq<Record>, pageDigests: seq<Digest>)
  datatype Key = Key(records: seq<Record>, digest: Digest)

  function RecordsAt(records: seq<Record>, length: int): seq<Record> {
    if records == [] then []
    else (if records[0].start < length then [records[0]] else []) + RecordsAt(records[1..], length)
  }

  // No digest exists for a partial page, an empty prefix, or beyond the positions covered.
  function DigestAt(identity: Identity, length: int): Option<Digest> {
    if length % PAGE != 0 || length <= 0 || length / PAGE > |identity.pageDigests| then None
    else Some(identity.pageDigests[length / PAGE - 1])
  }

  function KeyAt(identity: Identity, length: int): Option<Key> {
    match DigestAt(identity, length)
    case None => None
    case Some(digest) => Some(Key(RecordsAt(identity.records, length), digest))
  }

  // The digest of the first k pages of positions.
  function Chain(positions: seq<Position>, k: nat): Digest
    requires k * PAGE <= |positions|
  {
    if k == 0 then Start else Hash(Chain(positions, k - 1), positions[(k - 1) * PAGE..k * PAGE])
  }

  /** page_digests: one cumulative digest per complete page of the positions given. */
  method PageDigests(positions: seq<Position>, length: nat) returns (digests: seq<Digest>)
    ensures |digests| == (if |positions| < length then |positions| else length) / PAGE
    ensures forall k :: 0 <= k < |digests| ==> digests[k] == Chain(positions, k + 1)
  {
    var upto := length - length % PAGE;
    var covered := if |positions| < upto then positions else positions[..upto];
    digests := [];
    var previous := Start;
    for page := 0 to |covered| / PAGE
      invariant |digests| == page && previous == Chain(positions, page)
      invariant forall k :: 0 <= k < page ==> digests[k] == Chain(positions, k + 1)
    {
      var block := covered[page * PAGE..(page + 1) * PAGE];
      assert block == positions[page * PAGE..(page + 1) * PAGE];
      previous := Hash(previous, block);
      digests := digests + [previous];
    }
  }

  /** Equal digests mean as many pages, of equal positions. */
  lemma {:induction false} ChainInjective(p: seq<Position>, j: nat, q: seq<Position>, k: nat)
    requires j * PAGE <= |p| && k * PAGE <= |q|
    ensures Chain(p, j) == Chain(q, k) <==> j == k && p[..j * PAGE] == q[..k * PAGE]
  {
    if j > 0 && k > 0 {
      ChainInjective(p, j - 1, q, k - 1);
      assert p[..j * PAGE] == p[..(j - 1) * PAGE] + p[(j - 1) * PAGE..j * PAGE];
      assert q[..k * PAGE] == q[..(k - 1) * PAGE] + q[(k - 1) * PAGE..k * PAGE];
      if j == k && p[..j * PAGE] == q[..k * PAGE] {
        assert p[..(j - 1) * PAGE] == p[..j * PAGE][..(j - 1) * PAGE];
        assert q[..(k - 1) * PAGE] == q[..k * PAGE][..(k - 1) * PAGE];
        assert p[(j - 1) * PAGE..j * PAGE] == p[..j * PAGE][(j - 1) * PAGE..];
        assert q[(k - 1) * PAGE..k * PAGE] == q[..k * PAGE][(k - 1) * PAGE..];
      }
    }
  }

  // An identity whose digests are those of its prompt's positions.
  ghost predicate IsOf(identity: Identity, positions: seq<Position>) {
    && |identity.pageDigests| * PAGE <= |positions|
    && forall k :: 0 <= k < |identity.pageDigests| ==> identity.pageDigests[k] == Chain(positions, k + 1)
  }

  /** Where a key exists, two prompts have the same one exactly when their positions agree on
      every token before the length and the same images start before it. */
  lemma KeyMeaning(a: Identity, p: seq<Position>, b: Identity, q: seq<Position>, length: nat)
    requires IsOf(a, p) && IsOf(b, q) && KeyAt(a, length).Some? && KeyAt(b, length).Some?
    ensures length <= |p| && length <= |q|
    ensures KeyAt(a, length) == KeyAt(b, length) <==>
      p[..length] == q[..length] && RecordsAt(a.records, length) == RecordsAt(b.records, length)
  {
    var k := length / PAGE;
    assert length == k * PAGE;
    ChainInjective(p, k, q, k);
  }

  // A key lists exactly the images that start before its length, one that straddles it included.
  lemma {:induction false} RecordsAtAre(records: seq<Record>, length: int)
    ensures forall r :: r in RecordsAt(records, length) <==> r in records && r.start < length
  {
    if records != [] {
      RecordsAtAre(records[1..], length);
      assert records == [records[0]] + records[1..];
    }
  }

  lemma {:induction false} RecordsAtTwice(records: seq<Record>, length: nat, shorter: nat)
    requires shorter <= length
    ensures RecordsAt(RecordsAt(records, length), shorter) == RecordsAt(records, shorter)
  {
    if records != [] {
      RecordsAtTwice(records[1..], length, shorter);
      var rest := RecordsAt(records[1..], length);
      if records[0].start < length {
        assert ([records[0]] + rest)[1..] == rest;
      } else {
        assert [] + rest == rest;
      }
    }
  }

  /** Equal keys at a length imply equal keys at every page boundary before it. */
  lemma KeyAtShorter(a: Identity, p: seq<Position>, b: Identity, q: seq<Position>, length: nat, shorter: nat)
    requires IsOf(a, p) && IsOf(b, q) && KeyAt(a, length).Some? && KeyAt(a, length) == KeyAt(b, length)
    requires 0 < shorter <= length && shorter % PAGE == 0
    ensures KeyAt(a, shorter).Some? && KeyAt(a, shorter) == KeyAt(b, shorter)
  {
    KeyMeaning(a, p, b, q, length);
    assert p[..shorter] == p[..length][..shorter] && q[..shorter] == q[..length][..shorter];
    RecordsAtTwice(a.records, length, shorter);
    RecordsAtTwice(b.records, length, shorter);
    KeyMeaning(a, p, b, q, shorter);
  }
}
