// The state of a request besides its raw and index rows: pending key rows and positions in rings
// of four, recurrent state in slots.
module StateCapture {
  // A recurrent-state tensor, by layer and slot, or by slot alone.
  datatype SlotTensor<T> = Layered(layers: seq<seq<T>>) | Flat(slots: seq<T>)
  datatype SlotCopy<T> = LayeredCopy(layers: seq<T>) | FlatCopy(value: T)

  // The pools all requests share.
  datatype Pools<T> = Pools(pending: seq<seq<T>>, rope: seq<T>, conv: seq<SlotTensor<T>>, temporal: SlotTensor<T>,
                            siblings: seq<SlotTensor<T>>)
  datatype StateCopy<T> = StateCopy(pending: seq<seq<T>>, rope: seq<T>, conv: seq<SlotCopy<T>>, temporal: SlotCopy<T>,
                                    siblings: seq<SlotCopy<T>>)

  // ---- Rings ----

  predicate HasRing<T>(pool: seq<T>, r: nat) { 4 * r + 4 <= |pool| }

  function Ring<T>(pool: seq<T>, r: nat): (ring: seq<T>)
    requires HasRing(pool, r)
    ensures |ring| == 4
  {
    pool[4 * r..4 * r + 4]
  }

  // pool[ring].copy_(data)
  function WithRing<T>(pool: seq<T>, r: nat, data: seq<T>): (q: seq<T>)
    requires HasRing(pool, r) && |data| == 4
    ensures |q| == |pool|
  {
    pool[..4 * r] + data + pool[4 * r + 4..]
  }

  // A ring written holds the data, and no other ring changes.
  lemma RingWritten<T>(pool: seq<T>, r: nat, data: seq<T>, other: nat)
    requires HasRing(pool, r) && HasRing(pool, other) && |data| == 4
    ensures Ring(WithRing(pool, r, data), other) == if other == r then data else Ring(pool, other)
  {
    var q := WithRing(pool, r, data);
    assert other < r ==> 4 * other + 4 <= 4 * r;
    assert other > r ==> 4 * r + 4 <= 4 * other;
    assert Ring(q, other) == if other == r then data else Ring(pool, other);
  }

  ghost predicate RingsAre<T>(pools: seq<seq<T>>, r: nat, copies: seq<seq<T>>) {
    |copies| == |pools| && forall i {:trigger copies[i]} {:trigger pools[i]} :: 0 <= i < |pools| ==>
      HasRing(pools[i], r) && copies[i] == Ring(pools[i], r)
  }

  // Every ring but one is as it was.
  ghost predicate OtherRings<T>(was: seq<T>, now: seq<T>, r: nat) {
    |now| == |was| && forall other: nat {:trigger Ring(now, other)} :: HasRing(was, other) && other != r ==>
      Ring(now, other) == Ring(was, other)
  }

  method CaptureRings<T>(pools: seq<seq<T>>, r: nat) returns (copies: seq<seq<T>>)
    requires forall i {:trigger pools[i]} :: 0 <= i < |pools| ==> HasRing(pools[i], r)
    ensures RingsAre(pools, r, copies)
  {
    copies := [];
    for i := 0 to |pools|
      invariant |copies| == i && forall k {:trigger copies[k]} :: 0 <= k < i ==> copies[k] == Ring(pools[k], r)
    {
      copies := copies + [Ring(pools[i], r)];
    }
  }

  method RestoreRings<T>(pools: seq<seq<T>>, r: nat, copies: seq<seq<T>>) returns (q: seq<seq<T>>)
    requires |copies| == |pools|
    requires forall i {:trigger pools[i]} {:trigger copies[i]} :: 0 <= i < |pools| ==>
      HasRing(pools[i], r) && |copies[i]| == 4
    ensures RingsAre(q, r, copies)
    ensures |q| == |pools| && forall i {:trigger q[i]} :: 0 <= i < |pools| ==> OtherRings(pools[i], q[i], r)
  {
    q := [];
    for i := 0 to |pools|
      invariant |q| == i
      invariant forall k {:trigger q[k]} :: 0 <= k < i ==>
        OtherRings(pools[k], q[k], r) && HasRing(q[k], r) && Ring(q[k], r) == copies[k]
    {
      RingReplaced(pools[i], r, copies[i]);
      q := q + [WithRing(pools[i], r, copies[i])];
    }
  }

  lemma RingReplaced<T>(pool: seq<T>, r: nat, data: seq<T>)
    requires HasRing(pool, r) && |data| == 4
    ensures OtherRings(pool, WithRing(pool, r, data), r) && Ring(WithRing(pool, r, data), r) == data
  {
    forall other: nat | HasRing(pool, other)
      ensures Ring(WithRing(pool, r, data), other) == if other == r then data else Ring(pool, other)
    {
      RingWritten(pool, r, data, other);
    }
  }

  // ---- Slots ----

  predicate HasSlot<T>(t: SlotTensor<T>, s: nat) {
    match t
    case Layered(layers) => forall l :: 0 <= l < |layers| ==> s < |layers[l]|
    case Flat(slots) => s < |slots|
  }

  // What a tensor holds for one slot.
  function SlotOf<T>(t: SlotTensor<T>, s: nat): SlotCopy<T>
    requires HasSlot(t, s)
  {
    match t
    case Layered(layers) => LayeredCopy(Column(layers, s))
    case Flat(slots) => FlatCopy(slots[s])
  }

  function Column<T>(layers: seq<seq<T>>, s: nat): (values: seq<T>)
    requires forall l :: 0 <= l < |layers| ==> s < |layers[l]|
    ensures |values| == |layers| && forall l {:trigger values[l]} :: 0 <= l < |layers| ==> values[l] == layers[l][s]
  {
    seq(|layers|, l requires 0 <= l < |layers| => layers[l][s])
  }

  // validate_prefix_checkpoint on one tensor: a copy of its kind, one value a layer.
  predicate CopyFits<T>(t: SlotTensor<T>, c: SlotCopy<T>) {
    match t
    case Layered(layers) => c.LayeredCopy? && |c.layers| == |layers|
    case Flat(_) => c.FlatCopy?
  }

  ghost predicate SameSlots<T>(was: SlotTensor<T>, now: SlotTensor<T>) {
    match was
    case Layered(layers) => now.Layered? && |now.layers| == |layers| && forall l :: 0 <= l < |layers| ==>
      |now.layers[l]| == |layers[l]|
    case Flat(slots) => now.Flat? && |now.slots| == |slots|
  }

  // Every slot but one is as it was.
  ghost predicate OtherSlots<T(!new)>(was: SlotTensor<T>, now: SlotTensor<T>, s: nat) {
    SameSlots(was, now) && forall other: nat {:trigger SlotOf(now, other)} :: HasSlot(was, other) && other != s ==>
      HasSlot(now, other) && SlotOf(now, other) == SlotOf(was, other)
  }

  /** _capture_slot_tensor: layer by layer where there are layers. */
  method CaptureSlot<T>(t: SlotTensor<T>, s: nat) returns (c: SlotCopy<T>)
    requires HasSlot(t, s)
    ensures c == SlotOf(t, s) && CopyFits(t, c)
  {
    match t {
      case Flat(slots) => c := FlatCopy(slots[s]);
      case Layered(layers) =>
        var target := [];
        for l := 0 to |layers|
          invariant |target| == l && forall k :: 0 <= k < l ==> target[k] == layers[k][s]
        {
          target := target + [layers[l][s]];
        }
        LayersRead(layers, target, s);
        c := LayeredCopy(target);
    }
  }

  lemma LayersRead<T>(layers: seq<seq<T>>, target: seq<T>, s: nat)
    requires HasSlot(Layered(layers), s) && |target| == |layers|
    requires forall k :: 0 <= k < |layers| ==> target[k] == layers[k][s]
    ensures SlotOf(Layered(layers), s) == LayeredCopy(target)
  {
    assert Column(layers, s) == target;
  }

  /** _restore_slot_tensor: the slot holds the copy, and no other slot changes. */
  method RestoreSlot<T(!new)>(t: SlotTensor<T>, c: SlotCopy<T>, s: nat) returns (q: SlotTensor<T>)
    requires HasSlot(t, s) && CopyFits(t, c)
    ensures OtherSlots(t, q, s) && HasSlot(q, s) && SlotOf(q, s) == c
  {
    match t {
      case Flat(slots) =>
        q := Flat(slots[s := c.value]);
        FlatWritten(slots, c.value, s);
      case Layered(layers) =>
        var target := layers;
        for l := 0 to |layers|
          invariant |target| == |layers|
          invariant forall k :: 0 <= k < |layers| ==>
            target[k] == if k < l then layers[k][s := c.layers[k]] else layers[k]
        {
          target := target[l := target[l][s := c.layers[l]]];
        }
        q := Layered(target);
        LayersWritten(layers, target, c.layers, s);
    }
  }

  lemma FlatWritten<T(!new)>(slots: seq<T>, value: T, s: nat)
    requires s < |slots|
    ensures OtherSlots(Flat(slots), Flat(slots[s := value]), s) && SlotOf(Flat(slots[s := value]), s) == FlatCopy(value)
  {
    var q := slots[s := value];
    assert q[s] == value;
    forall other: nat | HasSlot(Flat(slots), other) && other != s
      ensures HasSlot(Flat(q), other) && SlotOf(Flat(q), other) == SlotOf(Flat(slots), other)
    {
      assert q[other] == slots[other];
    }
  }

  lemma LayersWritten<T(!new)>(layers: seq<seq<T>>, target: seq<seq<T>>, values: seq<T>, s: nat)
    requires |target| == |values| == |layers| && HasSlot(Layered(layers), s)
    requires forall k :: 0 <= k < |layers| ==> target[k] == layers[k][s := values[k]]
    ensures OtherSlots(Layered(layers), Layered(target), s) && HasSlot(Layered(target), s)
    ensures SlotOf(Layered(target), s) == LayeredCopy(values)
  {
    assert Column(target, s) == values;
    forall other: nat | HasSlot(Layered(layers), other) && other != s
      ensures HasSlot(Layered(target), other) && SlotOf(Layered(target), other) == SlotOf(Layered(layers), other)
    {
      assert Column(target, other) == Column(layers, other);
    }
  }

  ghost predicate SlotsAre<T>(ts: seq<SlotTensor<T>>, s: nat, copies: seq<SlotCopy<T>>) {
    |copies| == |ts| && forall i {:trigger copies[i]} {:trigger ts[i]} :: 0 <= i < |ts| ==>
      HasSlot(ts[i], s) && copies[i] == SlotOf(ts[i], s)
  }

  method CaptureSlots<T>(ts: seq<SlotTensor<T>>, s: nat) returns (copies: seq<SlotCopy<T>>)
    requires forall i {:trigger ts[i]} :: 0 <= i < |ts| ==> HasSlot(ts[i], s)
    ensures SlotsAre(ts, s, copies)
  {
    copies := [];
    for i := 0 to |ts|
      invariant |copies| == i && forall k {:trigger copies[k]} :: 0 <= k < i ==> copies[k] == SlotOf(ts[k], s)
    {
      var c := CaptureSlot(ts[i], s);
      copies := copies + [c];
    }
  }

  method RestoreSlots<T(!new)>(ts: seq<SlotTensor<T>>, copies: seq<SlotCopy<T>>, s: nat) returns (q: seq<SlotTensor<T>>)
    requires |copies| == |ts|
    requires forall i {:trigger ts[i]} {:trigger copies[i]} :: 0 <= i < |ts| ==>
      HasSlot(ts[i], s) && CopyFits(ts[i], copies[i])
    ensures SlotsAre(q, s, copies)
    ensures |q| == |ts| && forall i {:trigger q[i]} :: 0 <= i < |ts| ==> OtherSlots(ts[i], q[i], s)
  {
    q := [];
    for i := 0 to |ts|
      invariant |q| == i
      invariant forall k {:trigger q[k]} :: 0 <= k < i ==>
        OtherSlots(ts[k], q[k], s) && HasSlot(q[k], s) && SlotOf(q[k], s) == copies[k]
    {
      var t := RestoreSlot(ts[i], copies[i], s);
      q := q + [t];
    }
  }

  // ---- All of it ----

  // Ring r and slot s lie inside every pool.
  ghost predicate Inside<T>(p: Pools<T>, r: nat, s: nat) {
    && (forall i {:trigger p.pending[i]} :: 0 <= i < |p.pending| ==> HasRing(p.pending[i], r)) && HasRing(p.rope, r)
    && (forall i {:trigger p.conv[i]} :: 0 <= i < |p.conv| ==> HasSlot(p.conv[i], s)) && HasSlot(p.temporal, s)
    && (forall i {:trigger p.siblings[i]} :: 0 <= i < |p.siblings| ==> HasSlot(p.siblings[i], s))
  }

  // A copy is what the pools hold for a request.
  ghost predicate IsStateOf<T>(p: Pools<T>, r: nat, s: nat, c: StateCopy<T>) {
    && RingsAre(p.pending, r, c.pending) && HasRing(p.rope, r) && c.rope == Ring(p.rope, r)
    && SlotsAre(p.conv, s, c.conv) && HasSlot(p.temporal, s) && c.temporal == SlotOf(p.temporal, s)
    && SlotsAre(p.siblings, s, c.siblings)
  }

  // validate_prefix_checkpoint: as many tensors, each of its geometry.
  predicate StateFits<T>(p: Pools<T>, c: StateCopy<T>) {
    && |c.pending| == |p.pending| && (forall i :: 0 <= i < |c.pending| ==> |c.pending[i]| == 4) && |c.rope| == 4
    && |c.conv| == |p.conv| && (forall i :: 0 <= i < |c.conv| ==> CopyFits(p.conv[i], c.conv[i]))
    && CopyFits(p.temporal, c.temporal)
    && |c.siblings| == |p.siblings| && forall i :: 0 <= i < |c.siblings| ==> CopyFits(p.siblings[i], c.siblings[i])
  }

  // Nothing but ring r and slot s has changed.
  ghost predicate OthersKept<T(!new)>(was: Pools<T>, now: Pools<T>, r: nat, s: nat) {
    && |now.pending| == |was.pending| && |now.conv| == |was.conv| && |now.siblings| == |was.siblings|
    && (forall i {:trigger now.pending[i]} :: 0 <= i < |was.pending| ==> OtherRings(was.pending[i], now.pending[i], r))
    && OtherRings(was.rope, now.rope, r)
    && (forall i {:trigger now.conv[i]} :: 0 <= i < |was.conv| ==> OtherSlots(was.conv[i], now.conv[i], s))
    && OtherSlots(was.temporal, now.temporal, s)
    && (forall i {:trigger now.siblings[i]} :: 0 <= i < |was.siblings| ==>
          OtherSlots(was.siblings[i], now.siblings[i], s))
  }

  /** The state part of capture_prefix. */
  method CaptureState<T>(p: Pools<T>, r: nat, s: nat) returns (c: StateCopy<T>)
    requires Inside(p, r, s)
    ensures IsStateOf(p, r, s, c) && StateFits(p, c)
  {
    var pending := CaptureRings(p.pending, r);
    var conv := CaptureSlots(p.conv, s);
    var temporal := CaptureSlot(p.temporal, s);
    var siblings := CaptureSlots(p.siblings, s);
    c := StateCopy(pending, Ring(p.rope, r), conv, temporal, siblings);
  }

  /** The state part of restore_prefix: ring r and slot s hold the copy, every other ring and slot
      is as it was. */
  method RestoreState<T(!new)>(p: Pools<T>, c: StateCopy<T>, r: nat, s: nat) returns (q: Pools<T>)
    requires Inside(p, r, s) && StateFits(p, c)
    ensures IsStateOf(q, r, s, c) && OthersKept(p, q, r, s)
  {
    var pending := RestoreRings(p.pending, r, c.pending);
    RingReplaced(p.rope, r, c.rope);
    var conv := RestoreSlots(p.conv, c.conv, s);
    var temporal := RestoreSlot(p.temporal, c.temporal, s);
    var siblings := RestoreSlots(p.siblings, c.siblings, s);
    q := Pools(pending, WithRing(p.rope, r, c.rope), conv, temporal, siblings);
  }

  // ---- What keeps a shape keeps what fits it ----

  ghost predicate SamePools<T>(was: Pools<T>, now: Pools<T>) {
    && |now.pending| == |was.pending| && |now.conv| == |was.conv| && |now.siblings| == |was.siblings|
    && (forall i {:trigger now.pending[i]} :: 0 <= i < |was.pending| ==> |now.pending[i]| == |was.pending[i]|)
    && |now.rope| == |was.rope|
    && (forall i {:trigger now.conv[i]} :: 0 <= i < |was.conv| ==> SameSlots(was.conv[i], now.conv[i]))
    && SameSlots(was.temporal, now.temporal)
    && (forall i {:trigger now.siblings[i]} :: 0 <= i < |was.siblings| ==> SameSlots(was.siblings[i], now.siblings[i]))
  }

  lemma FitsSame<T>(was: Pools<T>, now: Pools<T>, c: StateCopy<T>)
    requires SamePools(was, now) && StateFits(was, c)
    ensures StateFits(now, c)
  {
    assert forall i :: 0 <= i < |was.conv| ==> SameSlots(was.conv[i], now.conv[i]);
    assert forall i :: 0 <= i < |was.siblings| ==> SameSlots(was.siblings[i], now.siblings[i]);
  }

  lemma InsideSame<T>(was: Pools<T>, now: Pools<T>, r: nat, s: nat)
    requires SamePools(was, now) && Inside(was, r, s)
    ensures Inside(now, r, s)
  {
    assert forall i :: 0 <= i < |was.conv| ==> SameSlots(was.conv[i], now.conv[i]);
    assert forall i :: 0 <= i < |was.siblings| ==> SameSlots(was.siblings[i], now.siblings[i]);
  }

  lemma OthersKeptSame<T(!new)>(was: Pools<T>, now: Pools<T>, r: nat, s: nat)
    requires OthersKept(was, now, r, s)
    ensures SamePools(was, now)
  {
  }
}
