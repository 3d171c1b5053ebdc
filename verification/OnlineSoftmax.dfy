// Blocked online softmax over the reals, against the two-pass form. One output coordinate
// is followed; the others are computed alike.
module OnlineSoftmax {

  // A selected key: its score and one coordinate of its value.
  datatype Entry = Entry(x: real, v: real)

  // A register value. NaN also stands for whatever is computed from it.
  datatype Num = NaN | NegInf | Fin(r: real)

  // A lane of a block: a masked one scores -inf and loads the value 0.
  datatype Lane = Masked | Key(e: Entry)

  // Scores in base 2: times log2(e), as the kernels write it.
  function Base2(x: real): real { x * 1.4426950408 }

  // ---- the exponential --------------------------------------------------------------------

  ghost predicate AddLaw(exp2: real -> real, a: real, b: real) { exp2(a + b) == exp2(a) * exp2(b) }

  ghost predicate IsExp2(exp2: real -> real) {
    && (forall a: real :: exp2(a) > 0.0)
    && (forall a: real, b: real {:trigger AddLaw(exp2, a, b)} :: AddLaw(exp2, a, b))
  }

  // The natural exponential, in terms of the kernels' base 2.
  function Exp(exp2: real -> real, x: real): real { exp2(Base2(x)) }

  // ---- weighted sums ----------------------------------------------------------------------------

  // Sum of exp2(score - m), and of the same times the value.
  function Weight(exp2: real -> real, es: seq<Entry>, m: real): real {
    if es == [] then 0.0
    else Weight(exp2, es[..|es| - 1], m) + exp2(es[|es| - 1].x - m)
  }

  function Mass(exp2: real -> real, es: seq<Entry>, m: real): real {
    if es == [] then 0.0
    else Mass(exp2, es[..|es| - 1], m) + exp2(es[|es| - 1].x - m) * es[|es| - 1].v
  }

  lemma {:induction false} WeightConcat(exp2: real -> real, a: seq<Entry>, b: seq<Entry>, m: real)
    ensures Weight(exp2, a + b, m) == Weight(exp2, a, m) + Weight(exp2, b, m)
  {
    if b == [] {
      assert a + b == a;
    } else {
      assert (a + b)[..|a + b| - 1] == a + b[..|b| - 1];
      WeightConcat(exp2, a, b[..|b| - 1], m);
    }
  }

  lemma {:induction false} MassConcat(exp2: real -> real, a: seq<Entry>, b: seq<Entry>, m: real)
    ensures Mass(exp2, a + b, m) == Mass(exp2, a, m) + Mass(exp2, b, m)
  {
    if b == [] {
      assert a + b == a;
    } else {
      assert (a + b)[..|a + b| - 1] == a + b[..|b| - 1];
      MassConcat(exp2, a, b[..|b| - 1], m);
    }
  }

  // Moving the subtracted maximum from m to m' rescales both sums by exp2(m - m').
  lemma {:induction false} WeightRescale(exp2: real -> real, es: seq<Entry>, m: real, m': real)
    requires IsExp2(exp2)
    ensures Weight(exp2, es, m) * exp2(m - m') == Weight(exp2, es, m')
  {
    if es != [] {
      WeightRescale(exp2, es[..|es| - 1], m, m');
      ExpShift(exp2, es[|es| - 1].x, m, m');
    }
  }

  lemma {:induction false} MassRescale(exp2: real -> real, es: seq<Entry>, m: real, m': real)
    requires IsExp2(exp2)
    ensures Mass(exp2, es, m) * exp2(m - m') == Mass(exp2, es, m')
  {
    if es != [] {
      var e, init := es[|es| - 1], es[..|es| - 1];
      MassRescale(exp2, init, m, m');
      ExpShift(exp2, e.x, m, m');
      RescaleStep(Mass(exp2, init, m), exp2(e.x - m), e.v, exp2(m - m'), exp2(e.x - m'), Mass(exp2, es, m));
    }
  }

  lemma ExpShift(exp2: real -> real, x: real, m: real, m': real)
    requires IsExp2(exp2)
    ensures exp2(x - m) * exp2(m - m') == exp2(x - m')
  {
    assert AddLaw(exp2, x - m, m - m');
    assert x - m + (m - m') == x - m';
  }

  lemma RescaleStep(a: real, w: real, v: real, c: real, w': real, sum: real)
    requires w * c == w' && sum == a + w * v
    ensures sum * c == a * c + w' * v
  {
    assert (w * c) * v == w * v * c;
  }

  lemma {:induction false} WeightPositive(exp2: real -> real, es: seq<Entry>, m: real)
    requires IsExp2(exp2)
    ensures Weight(exp2, es, m) >= 0.0
    ensures es != [] ==> Weight(exp2, es, m) > 0.0
  {
    if es != [] { WeightPositive(exp2, es[..|es| - 1], m); }
  }

  // ---- the two-pass form -------------------------------------------------------------------------

  function RMax(a: real, b: real): real { if a >= b then a else b }

  function MaxScore(ys: seq<Entry>): real
    requires ys != []
  {
    if |ys| == 1 then ys[0].x else RMax(MaxScore(ys[..|ys| - 1]), ys[|ys| - 1].x)
  }

  // The largest score of the entries.
  ghost predicate Largest(ys: seq<Entry>, m: real) {
    (forall i :: 0 <= i < |ys| ==> ys[i].x <= m) && exists i :: 0 <= i < |ys| && ys[i].x == m
  }

  lemma {:induction false} MaxScoreIsLargest(ys: seq<Entry>)
    requires ys != []
    ensures Largest(ys, MaxScore(ys))
  {
    var last := |ys| - 1;
    if last == 0 {
      assert ys[0].x == MaxScore(ys);
    } else {
      MaxScoreIsLargest(ys[..last]);
      forall i | 0 <= i < |ys| ensures ys[i].x <= MaxScore(ys) {
        assert i < last ==> ys[i] == ys[..last][i];
      }
      var i :| 0 <= i < last && ys[..last][i].x == MaxScore(ys[..last]);
      assert ys[i].x == MaxScore(ys[..last]) && ys[last].x == ys[|ys| - 1].x;
    }
  }

  // torch.softmax: exponentials of the scores less their maximum, over their sum.
  function Denominator(exp2: real -> real, ys: seq<Entry>, m: real): real {
    if ys == [] then 0.0
    else Denominator(exp2, ys[..|ys| - 1], m) + Exp(exp2, ys[|ys| - 1].x - m)
  }

  function WeightedValues(exp2: real -> real, ys: seq<Entry>, m: real, z: real): real
    requires z != 0.0
  {
    if ys == [] then 0.0
    else WeightedValues(exp2, ys[..|ys| - 1], m, z) + (Exp(exp2, ys[|ys| - 1].x - m) / z) * ys[|ys| - 1].v
  }

  /** Two-pass softmax average of the values; 0 when nothing is selected. Scores are
      natural-base here. */
  ghost function TwoPass(exp2: real -> real, ys: seq<Entry>): real
    requires IsExp2(exp2)
  {
    if ys == [] then 0.0
    else
      var m := MaxScore(ys);
      DenominatorIsWeight(exp2, ys, m);
      WeightPositive(exp2, ToBase2(ys), Base2(m));
      WeightedValues(exp2, ys, m, Denominator(exp2, ys, m))
  }

  function ToBase2(ys: seq<Entry>): (es: seq<Entry>)
    ensures |es| == |ys|
    ensures forall i :: 0 <= i < |ys| ==> es[i] == Entry(Base2(ys[i].x), ys[i].v)
  {
    seq(|ys|, i requires 0 <= i < |ys| => Entry(Base2(ys[i].x), ys[i].v))
  }

  lemma {:induction false} DenominatorIsWeight(exp2: real -> real, ys: seq<Entry>, m: real)
    ensures Denominator(exp2, ys, m) == Weight(exp2, ToBase2(ys), Base2(m))
  {
    if ys != [] {
      DenominatorIsWeight(exp2, ys[..|ys| - 1], m);
      assert ToBase2(ys)[..|ys| - 1] == ToBase2(ys[..|ys| - 1]);
      assert Base2(ys[|ys| - 1].x - m) == Base2(ys[|ys| - 1].x) - Base2(m);
    }
  }

  lemma {:induction false} WeightedValuesIsMass(exp2: real -> real, ys: seq<Entry>, m: real, z: real)
    requires z != 0.0
    ensures WeightedValues(exp2, ys, m, z) * z == Mass(exp2, ToBase2(ys), Base2(m))
  {
    if ys != [] {
      var y, init := ys[|ys| - 1], ys[..|ys| - 1];
      WeightedValuesIsMass(exp2, init, m, z);
      Base2Step(exp2, ys, m, Exp(exp2, y.x - m));
      WeightedStep(exp2, ys, m, z, Exp(exp2, y.x - m));
      QuotientStep(WeightedValues(exp2, init, m, z), Mass(exp2, ToBase2(init), Base2(m)),
                   Exp(exp2, y.x - m), y.v, z,
                   WeightedValues(exp2, ys, m, z), Mass(exp2, ToBase2(ys), Base2(m)));
    }
  }

  lemma WeightedStep(exp2: real -> real, ys: seq<Entry>, m: real, z: real, w: real)
    requires z != 0.0 && ys != [] && w == Exp(exp2, ys[|ys| - 1].x - m)
    ensures WeightedValues(exp2, ys, m, z)
         == WeightedValues(exp2, ys[..|ys| - 1], m, z) + (w / z) * ys[|ys| - 1].v
  {
  }

  lemma QuotientStep(a: real, b: real, w: real, v: real, z: real, a': real, b': real)
    requires z != 0.0 && a * z == b
    requires a' == a + (w / z) * v && b' == b + w * v
    ensures a' * z == b'
  {
    var p := w / z;
    assert p * z == w;
    assert p * v * z == (p * z) * v;
  }

  lemma Base2Step(exp2: real -> real, ys: seq<Entry>, m: real, w: real)
    requires ys != [] && w == Exp(exp2, ys[|ys| - 1].x - m)
    ensures Mass(exp2, ToBase2(ys), Base2(m))
         == Mass(exp2, ToBase2(ys[..|ys| - 1]), Base2(m)) + w * ys[|ys| - 1].v
  {
    var es := ToBase2(ys);
    assert es[..|es| - 1] == ToBase2(ys[..|ys| - 1]);
    assert Base2(ys[|ys| - 1].x - m) == es[|es| - 1].x - Base2(m);
  }

  /** Softmax does not depend on the number subtracted from the scores: any m gives the
      two-pass value. */
  lemma {:induction false} TwoPassAtAnyMax(exp2: real -> real, ys: seq<Entry>, m: real)
    requires IsExp2(exp2) && ys != []
    ensures Weight(exp2, ToBase2(ys), m) > 0.0
    ensures TwoPass(exp2, ys) == Mass(exp2, ToBase2(ys), m) / Weight(exp2, ToBase2(ys), m)
  {
    WeightPositive(exp2, ToBase2(ys), m);
    TwoPassTimesWeight(exp2, ys);
    RatioAtAnyMax(exp2, ToBase2(ys), m, Base2(MaxScore(ys)), TwoPass(exp2, ys));
  }

  lemma RatioAtAnyMax(exp2: real -> real, es: seq<Entry>, m: real, m': real, x: real)
    requires IsExp2(exp2) && es != [] && x * Weight(exp2, es, m') == Mass(exp2, es, m')
    ensures Weight(exp2, es, m) > 0.0 && x == Mass(exp2, es, m) / Weight(exp2, es, m)
  {
    hide Weight, Mass;
    WeightPositive(exp2, es, m);
    WeightRescale(exp2, es, m, m');
    MassRescale(exp2, es, m, m');
    CancelFactor(x, Mass(exp2, es, m), Weight(exp2, es, m), exp2(m - m'),
                 Mass(exp2, es, m'), Weight(exp2, es, m'));
  }

  lemma TwoPassTimesWeight(exp2: real -> real, ys: seq<Entry>)
    requires IsExp2(exp2) && ys != []
    ensures var es, m := ToBase2(ys), Base2(MaxScore(ys));
            TwoPass(exp2, ys) * Weight(exp2, es, m) == Mass(exp2, es, m)
  {
    hide MaxScore, Denominator, WeightedValues, Weight, Mass, ToBase2, Base2, IsExp2;
    var r := MaxScore(ys);
    DenominatorIsWeight(exp2, ys, r);
    WeightPositive(exp2, ToBase2(ys), Base2(r));
    WeightedValuesIsMass(exp2, ys, r, Denominator(exp2, ys, r));
  }

  lemma CancelFactor(x: real, a: real, w: real, c: real, a': real, w': real)
    requires w > 0.0 && c > 0.0 && a * c == a' && w * c == w' && x * w' == a'
    ensures x == a / w
  {
    assert x * w' == (x * w) * c;
    assert (x * w - a) * c == 0.0;
    assert x * w == a;
  }

  // ---- one block of the kernel loop -----------------------------------------------------------------

  function NMax(a: Num, b: Num): Num {
    if a.Fin? && b.Fin? then Fin(RMax(a.r, b.r)) else if a.Fin? then a else b
  }

  // exp2(a - b); b is the running maximum, so only (-inf) - (-inf) is not a number.
  function Exp2Diff(exp2: real -> real, a: Num, b: Num): Num {
    if a.Fin? && b.Fin? then Fin(exp2(a.r - b.r))
    else if a.NegInf? && b.Fin? then Fin(0.0)
    else NaN
  }

  // a * c + b
  function Fma(a: Num, c: Num, b: Num): Num {
    if a.Fin? && b.Fin? && c.Fin? then Fin(a.r * c.r + b.r) else NaN
  }

  function Scale(a: Num, c: real): Num { if a.Fin? then Fin(a.r * c) else NaN }

  // tl.max, tl.sum and tl.dot over the lanes of a block. A masked lane has probability
  // exp2(-inf) = 0 below a finite maximum.
  function LaneMax(lanes: seq<Lane>): Num {
    if lanes == [] then NegInf
    else
      var l := lanes[|lanes| - 1];
      NMax(LaneMax(lanes[..|lanes| - 1]), if l.Key? then Fin(l.e.x) else NegInf)
  }

  function LaneWeight(exp2: real -> real, lanes: seq<Lane>, m: Num): Num {
    if lanes == [] then Fin(0.0)
    else
      var rest, l := LaneWeight(exp2, lanes[..|lanes| - 1], m), lanes[|lanes| - 1];
      if !m.Fin? || !rest.Fin? then NaN
      else Fin(rest.r + if l.Key? then exp2(l.e.x - m.r) else 0.0)
  }

  function LaneMass(exp2: real -> real, lanes: seq<Lane>, m: Num): Num {
    if lanes == [] then Fin(0.0)
    else
      var rest, l := LaneMass(exp2, lanes[..|lanes| - 1], m), lanes[|lanes| - 1];
      if !m.Fin? || !rest.Fin? then NaN
      else Fin(rest.r + if l.Key? then exp2(l.e.x - m.r) * l.e.v else 0.0)
  }

  // The entries a block contributes.
  function Live(lanes: seq<Lane>): seq<Entry> {
    if lanes == [] then []
    else Live(lanes[..|lanes| - 1]) + (if lanes[|lanes| - 1].Key? then [lanes[|lanes| - 1].e] else [])
  }

  lemma LiveStep(lanes: seq<Lane>)
    requires lanes != []
    ensures lanes[|lanes| - 1].Masked? ==> Live(lanes) == Live(lanes[..|lanes| - 1])
    ensures lanes[|lanes| - 1].Key? ==>
              && |Live(lanes)| > 0 && Live(lanes)[|Live(lanes)| - 1] == lanes[|lanes| - 1].e
              && Live(lanes)[..|Live(lanes)| - 1] == Live(lanes[..|lanes| - 1])
  {
  }

  lemma {:induction false} LaneWeightSum(exp2: real -> real, lanes: seq<Lane>, m: real)
    ensures LaneWeight(exp2, lanes, Fin(m)) == Fin(Weight(exp2, Live(lanes), m))
  {
    if lanes != [] {
      LaneWeightSum(exp2, lanes[..|lanes| - 1], m);
      LiveStep(lanes);
    }
  }

  lemma {:induction false} LaneMassSum(exp2: real -> real, lanes: seq<Lane>, m: real)
    ensures LaneMass(exp2, lanes, Fin(m)) == Fin(Mass(exp2, Live(lanes), m))
  {
    if lanes != [] {
      LaneMassSum(exp2, lanes[..|lanes| - 1], m);
      LiveStep(lanes);
    }
  }

  // The running maximum: no exponent of the kernel is ever above 0.
  ghost predicate MaxIs(es: seq<Entry>, max: Num) {
    if es == [] then max == NegInf else max.Fin? && Largest(es, max.r)
  }

  lemma MaxBoth(a: seq<Entry>, b: seq<Entry>, max: Num, more: Num)
    requires MaxIs(a, max) && MaxIs(b, more)
    ensures MaxIs(a + b, NMax(max, more))
  {
    if a == [] {
      assert a + b == b;
    } else if b == [] {
      assert a + b == a;
    } else {
      var i :| 0 <= i < |a| && a[i].x == max.r;
      var j :| 0 <= j < |b| && b[j].x == more.r;
      assert (a + b)[i].x == max.r && (a + b)[|a| + j].x == more.r;
    }
  }

  lemma MaxOfOne(e: Entry)
    ensures MaxIs([e], Fin(e.x))
  {
    assert [e][0].x == e.x;
  }

  lemma {:induction false} LaneMaxIs(lanes: seq<Lane>)
    ensures MaxIs(Live(lanes), LaneMax(lanes))
  {
    if lanes != [] {
      var init, l := lanes[..|lanes| - 1], lanes[|lanes| - 1];
      LaneMaxIs(init);
      if l.Key? {
        MaxOfOne(l.e);
        MaxBoth(Live(init), [l.e], LaneMax(init), Fin(l.e.x));
      } else {
        MaxBoth(Live(init), [], LaneMax(init), NegInf);
        assert Live(init) + [] == Live(init);
      }
    }
  }

  lemma {:induction false} ScaleKeepsScores(es: seq<Entry>, scale: real)
    ensures |ScaleValues(es, scale)| == |es|
    ensures forall i :: 0 <= i < |es| ==> ScaleValues(es, scale)[i].x == es[i].x
  {
    if es != [] { ScaleKeepsScores(es[..|es| - 1], scale); }
  }

  lemma ScaleKeepsMax(es: seq<Entry>, scale: real, max: Num)
    requires MaxIs(es, max)
    ensures MaxIs(ScaleValues(es, scale), max)
  {
    ScaleKeepsScores(es, scale);
    if es != [] {
      var i :| 0 <= i < |es| && es[i].x == max.r;
      assert ScaleValues(es, scale)[i].x == max.r;
    }
  }

  // ... with each value times `scale`.
  function ScaleValues(es: seq<Entry>, scale: real): seq<Entry> {
    if es == [] then []
    else ScaleValues(es[..|es| - 1], scale) + [ScaleEntry(es[|es| - 1], scale)]
  }

  function ScaleEntry(e: Entry, scale: real): Entry { Entry(e.x, e.v * scale) }

  // Scaling the dot product of a block scales its values.
  lemma {:induction false} ScaleMass(exp2: real -> real, es: seq<Entry>, scale: real, m: real)
    ensures Mass(exp2, ScaleValues(es, scale), m) == Mass(exp2, es, m) * scale
  {
    if es != [] {
      var e, init := es[|es| - 1], es[..|es| - 1];
      ScaleMass(exp2, init, scale, m);
      MassStep(exp2, es, m);
      ScaledMassStep(exp2, es, scale, m);
      ScaleStep(Mass(exp2, init, m), exp2(e.x - m), e.v, scale, Mass(exp2, es, m),
                Mass(exp2, ScaleValues(init, scale), m), Mass(exp2, ScaleValues(es, scale), m));
    }
  }

  lemma MassStep(exp2: real -> real, es: seq<Entry>, m: real)
    requires es != []
    ensures Mass(exp2, es, m) == Mass(exp2, es[..|es| - 1], m) + exp2(es[|es| - 1].x - m) * es[|es| - 1].v
  {
  }

  lemma ScaledMassStep(exp2: real -> real, es: seq<Entry>, scale: real, m: real)
    requires es != []
    ensures Mass(exp2, ScaleValues(es, scale), m)
         == Mass(exp2, ScaleValues(es[..|es| - 1], scale), m) + exp2(es[|es| - 1].x - m) * (es[|es| - 1].v * scale)
  {
    var ss := ScaleValues(es, scale);
    assert ss[..|ss| - 1] == ScaleValues(es[..|es| - 1], scale);
    MassStep(exp2, ss, m);
  }

  lemma ScaleStep(a: real, w: real, v: real, s: real, sum: real, a': real, sum': real)
    requires sum == a + w * v && a' == a * s && sum' == a' + w * (v * s)
    ensures sum' == sum * s
  {
    assert w * (v * s) == (w * v) * s;
  }

  lemma {:induction false} ScaleKeepsWeight(exp2: real -> real, es: seq<Entry>, scale: real, m: real)
    ensures Weight(exp2, ScaleValues(es, scale), m) == Weight(exp2, es, m)
    ensures |ScaleValues(es, scale)| == |es|
  {
    if es != [] {
      ScaleKeepsWeight(exp2, es[..|es| - 1], scale, m);
      var ss := ScaleValues(es, scale);
      assert ss[..|ss| - 1] == ScaleValues(es[..|es| - 1], scale);
    }
  }

  // Registers after the entries es, with the largest score as running maximum. They are spoiled once
  // that was read while still -inf, which happens if the first block is empty.
  ghost predicate Registers(exp2: real -> real, es: seq<Entry>, spoiled: bool, max: Num, norm: Num, acc: Num) {
    && MaxIs(es, max)
    && if spoiled then norm == NaN && acc == NaN
       else if es == [] then norm == Fin(0.0) && acc == Fin(0.0)
       else norm == Fin(Weight(exp2, es, max.r)) && acc == Fin(Mass(exp2, es, max.r))
  }

  /** One block keeps the registers right, with the block's entries added. */
  lemma {:induction false} OneBlock(exp2: real -> real, es: seq<Entry>, spoiled: bool,
                                    lanes: seq<Lane>, scale: real, max: Num, norm: Num, acc: Num)
    requires IsExp2(exp2) && lanes != []
    requires Registers(exp2, es, spoiled, max, norm, acc)
    ensures var nextMax := NMax(max, LaneMax(lanes));
      var alpha := Exp2Diff(exp2, max, nextMax);
      Registers(exp2, es + ScaleValues(Live(lanes), scale), spoiled || (es == [] && Live(lanes) == []), nextMax,
                Fma(norm, alpha, LaneWeight(exp2, lanes, nextMax)),
                Fma(acc, alpha, Scale(LaneMass(exp2, lanes, nextMax), scale)))
  {
    hide Largest, LaneMax, Live;
    LaneMaxIs(lanes);
    ScaleKeepsMax(Live(lanes), scale, LaneMax(lanes));
    MaxBoth(es, ScaleValues(Live(lanes), scale), max, LaneMax(lanes));
    if !spoiled && (es != [] || Live(lanes) != []) {
      var nextMax, b := NMax(max, LaneMax(lanes)), ScaleValues(Live(lanes), scale);
      BlockSums(exp2, lanes, scale, nextMax.r);
      OneNorm(exp2, es, b, max, nextMax.r, norm);
      OneAcc(exp2, es, b, max, nextMax.r, acc);
    }
  }

  lemma BlockSums(exp2: real -> real, lanes: seq<Lane>, scale: real, m: real)
    ensures var b := ScaleValues(Live(lanes), scale);
      && (b == [] <==> Live(lanes) == [])
      && LaneWeight(exp2, lanes, Fin(m)) == Fin(Weight(exp2, b, m))
      && Scale(LaneMass(exp2, lanes, Fin(m)), scale) == Fin(Mass(exp2, b, m))
  {
    hide LaneWeight, LaneMass, Weight, Mass, Live;
    LaneWeightSum(exp2, lanes, m);
    LaneMassSum(exp2, lanes, m);
    ScaleKeepsWeight(exp2, Live(lanes), scale, m);
    ScaleMass(exp2, Live(lanes), scale, m);
  }

  lemma FmaIs(a: Num, c: Num, b: Num, x: real, y: real, z: real, sum: real)
    requires a == Fin(x) && c == Fin(y) && b == Fin(z) && sum == x * y + z
    ensures Fma(a, c, b) == Fin(sum)
  {
  }

  lemma OneNorm(exp2: real -> real, es: seq<Entry>, b: seq<Entry>, max: Num, m': real, norm: Num)
    requires IsExp2(exp2)
    requires if es == [] then max == NegInf && norm == Fin(0.0) else max.Fin? && norm == Fin(Weight(exp2, es, max.r))
    ensures Fma(norm, Exp2Diff(exp2, max, Fin(m')), Fin(Weight(exp2, b, m'))) == Fin(Weight(exp2, es + b, m'))
  {
    hide Weight, Fma;
    var w := Weight(exp2, b, m');
    WeightConcat(exp2, es, b, m');
    if es != [] {
      WeightRescale(exp2, es, max.r, m');
      FmaIs(norm, Exp2Diff(exp2, max, Fin(m')), Fin(w), Weight(exp2, es, max.r), exp2(max.r - m'), w,
            Weight(exp2, es + b, m'));
    } else {
      assert es + b == b;
      FmaIs(norm, Exp2Diff(exp2, max, Fin(m')), Fin(w), 0.0, 0.0, w, Weight(exp2, es + b, m'));
    }
  }

  lemma OneAcc(exp2: real -> real, es: seq<Entry>, b: seq<Entry>, max: Num, m': real, acc: Num)
    requires IsExp2(exp2)
    requires if es == [] then max == NegInf && acc == Fin(0.0) else max.Fin? && acc == Fin(Mass(exp2, es, max.r))
    ensures Fma(acc, Exp2Diff(exp2, max, Fin(m')), Fin(Mass(exp2, b, m'))) == Fin(Mass(exp2, es + b, m'))
  {
    hide Mass, Fma;
    var w := Mass(exp2, b, m');
    MassConcat(exp2, es, b, m');
    if es != [] {
      MassRescale(exp2, es, max.r, m');
      FmaIs(acc, Exp2Diff(exp2, max, Fin(m')), Fin(w), Mass(exp2, es, max.r), exp2(max.r - m'), w,
            Mass(exp2, es + b, m'));
    } else {
      assert es + b == b;
      FmaIs(acc, Exp2Diff(exp2, max, Fin(m')), Fin(w), 0.0, 0.0, w, Mass(exp2, es + b, m'));
    }
  }

  /** The quotient the kernel stores is the two-pass value. */
  lemma {:induction false} QuotientIsTwoPass(exp2: real -> real, ys: seq<Entry>, max: Num, norm: Num, acc: Num)
    requires IsExp2(exp2) && ys != []
    requires Registers(exp2, ToBase2(ys), false, max, norm, acc)
    ensures norm.Fin? && norm.r > 0.0 && acc.Fin? && acc.r / norm.r == TwoPass(exp2, ys)
  {
    TwoPassAtAnyMax(exp2, ys, max.r);
  }
}
