/** The heights of the pooled layers and what recycling does to them, as
    values: a layer list is seen as the sequence of its layers' y, None for
    a destroyed (null) entry. */
module Ladder {
  import opened Wrappers
  import opened Engine

  /** The running minimum GetMinLayerY folds over the layers, None standing
      for the +∞ it starts from. */
  function Lowest(ys: seq<Option<real>>): (m: Option<real>)
    ensures m.None? <==> forall i :: 0 <= i < |ys| ==> ys[i].None?
    ensures m.Some? ==> forall i :: 0 <= i < |ys| && ys[i].Some? ==> m.value <= ys[i].value
    ensures m.Some? ==> exists i :: 0 <= i < |ys| && ys[i] == m
  {
    if |ys| == 0 then None
    else
      var m := Lowest(ys[..|ys| - 1]);
      var y := ys[|ys| - 1];
      if y.None? then m
      else if m.None? then y
      else Some(Min(m.value, y.value))
  }

  /** The lowest height, or the fallback when no layer is present. */
  function MinLayerY(ys: seq<Option<real>>, fallback: real): real
  {
    match Lowest(ys)
    case None => fallback
    case Some(m) => m
  }

  /** The lowest height is the fallback when no layer is present; otherwise
      it is the height of some present layer and no present layer is lower. */
  lemma MinLayerYBounds(ys: seq<Option<real>>, fallback: real)
    ensures (forall i :: 0 <= i < |ys| ==> ys[i].None?) ==> MinLayerY(ys, fallback) == fallback
    ensures forall i :: 0 <= i < |ys| && ys[i].Some? ==> MinLayerY(ys, fallback) <= ys[i].value
    ensures (exists i :: 0 <= i < |ys| && ys[i].Some?) ==>
      exists i :: 0 <= i < |ys| && ys[i] == Some(MinLayerY(ys, fallback))
  {
  }

  /** Layer i moved one gap below the current lowest layer. */
  function Recycle(ys: seq<Option<real>>, i: nat, gap: real, fallback: real): (ys': seq<Option<real>>)
    requires i < |ys|
    ensures |ys'| == |ys|
  {
    ys[i := Some(MinLayerY(ys, fallback) - gap)]
  }

  /** Layer i is present and higher than the threshold. */
  predicate Eligible(ys: seq<Option<real>>, i: nat, threshold: real)
    requires i < |ys|
  {
    ys[i].Some? && ys[i].value > threshold
  }

  /** One visit of UpdateRecycle's loop. */
  function Step(ys: seq<Option<real>>, i: nat, threshold: real, gap: real, fallback: real): (ys': seq<Option<real>>)
    requires i < |ys|
    ensures |ys'| == |ys|
  {
    if Eligible(ys, i, threshold) then Recycle(ys, i, gap, fallback) else ys
  }

  /** The visits of UpdateRecycle's loop from index i on, in list order. */
  function Pass(ys: seq<Option<real>>, i: nat, threshold: real, gap: real, fallback: real): (ys': seq<Option<real>>)
    ensures |ys'| == |ys|
    decreases |ys| - i
  {
    if i >= |ys| then ys
    else Pass(Step(ys, i, threshold, gap, fallback), i + 1, threshold, gap, fallback)
  }

  /** A visit keeps the pass on course: if the layers from i on are still
      as the pass found them, visiting layer i judges it as the pass would
      have, and leaves the layers from i + 1 on untouched. */
  lemma VisitStep(ys: seq<Option<real>>, ys0: seq<Option<real>>, i: nat, threshold: real, gap: real, fallback: real)
    requires i < |ys| == |ys0| && ys[i..] == ys0[i..]
    requires Pass(ys, i, threshold, gap, fallback) == Pass(ys0, 0, threshold, gap, fallback)
    ensures Eligible(ys, i, threshold) == Eligible(ys0, i, threshold)
    ensures Step(ys, i, threshold, gap, fallback)[i + 1..] == ys0[i + 1..]
    ensures Pass(Step(ys, i, threshold, gap, fallback), i + 1, threshold, gap, fallback)
         == Pass(ys0, 0, threshold, gap, fallback)
  {
    assert ys[i] == ys[i..][0] == ys0[i];
    var next := Step(ys, i, threshold, gap, fallback);
    assert next[i + 1..] == ys[i + 1..];
    assert ys[i + 1..] == ys[i..][1..];
  }

  /** How many of the layers before index i are eligible. */
  function CountEligible(ys: seq<Option<real>>, i: nat, threshold: real): nat
    requires i <= |ys|
  {
    if i == 0 then 0
    else CountEligible(ys, i - 1, threshold) + (if Eligible(ys, i - 1, threshold) then 1 else 0)
  }

  /** The height n gaps below m (m - n * gap, by BelowIsMultiple). */
  function Below(m: real, gap: real, n: nat): real
  {
    if n == 0 then m else Below(m, gap, n - 1) - gap
  }

  lemma {:induction false} BelowIsMultiple(m: real, gap: real, n: nat)
    ensures Below(m, gap, n) == m - gap * n as real
  {
    if n > 0 {
      BelowIsMultiple(m, gap, n - 1);
      assert gap * n as real == gap * (n - 1) as real + gap;
    }
  }

  lemma {:induction false} BelowAdds(m: real, gap: real, a: nat, b: nat)
    ensures Below(m, gap, a + b) == Below(Below(m, gap, a), gap, b)
    decreases b
  {
    if b > 0 {
      BelowAdds(m, gap, a, b - 1);
    }
  }

  lemma {:induction false} BelowDescends(m: real, gap: real, n: nat)
    requires gap > 0.0 && n > 0
    ensures Below(m, gap, n) < m
  {
    if n > 1 {
      BelowDescends(m, gap, n - 1);
    }
  }

  /** Where a pass leaves layer i, in closed form: an eligible layer that is
      the c-th eligible one in list order lands c gaps below the lowest
      layer the pass started from; every other layer stays. */
  function Landing(ys: seq<Option<real>>, i: nat, threshold: real, gap: real, fallback: real): Option<real>
    requires i < |ys|
  {
    if Eligible(ys, i, threshold)
    then Some(Below(MinLayerY(ys, fallback), gap, CountEligible(ys, i, threshold) + 1))
    else ys[i]
  }

  /** A recycled layer becomes the lowest one, one gap below the old lowest. */
  lemma LowestAfterRecycle(ys: seq<Option<real>>, i: nat, gap: real, fallback: real)
    requires i < |ys| && ys[i].Some? && gap > 0.0
    ensures MinLayerY(Recycle(ys, i, gap, fallback), fallback) == MinLayerY(ys, fallback) - gap
    ensures forall j :: 0 <= j < |ys| && j != i && ys[j].Some? ==>
      Recycle(ys, i, gap, fallback)[i].value < ys[j].value
  {
    var v := MinLayerY(ys, fallback) - gap;
    var ys' := Recycle(ys, i, gap, fallback);
    var m' := Lowest(ys');
    assert ys'[i] == Some(v);
    assert m'.Some? && m'.value <= v;
  }

  /** One visit of the pass keeps the layers before the visited one in
      their landing place, the layers after it untouched, and the lowest
      layer as many gaps below the original one as layers were recycled. */
  lemma PassAdvance(ys: seq<Option<real>>, cur: seq<Option<real>>, k: nat, threshold: real, gap: real, fallback: real)
    requires gap > 0.0 && k < |ys| == |cur|
    requires forall j :: 0 <= j < k ==> cur[j] == Landing(ys, j, threshold, gap, fallback)
    requires forall j :: k <= j < |ys| ==> cur[j] == ys[j]
    requires MinLayerY(cur, fallback) == Below(MinLayerY(ys, fallback), gap, CountEligible(ys, k, threshold))
    ensures forall j :: 0 <= j < k + 1 ==>
      Step(cur, k, threshold, gap, fallback)[j] == Landing(ys, j, threshold, gap, fallback)
    ensures forall j :: k + 1 <= j < |ys| ==> Step(cur, k, threshold, gap, fallback)[j] == ys[j]
    ensures MinLayerY(Step(cur, k, threshold, gap, fallback), fallback)
      == Below(MinLayerY(ys, fallback), gap, CountEligible(ys, k + 1, threshold))
  {
    var next := Step(cur, k, threshold, gap, fallback);
    var c := CountEligible(ys, k, threshold);
    var m0 := MinLayerY(ys, fallback);
    assert cur[k] == ys[k];
    if Eligible(ys, k, threshold) {
      assert Eligible(cur, k, threshold);
      LowestAfterRecycle(cur, k, gap, fallback);
      assert next == cur[k := Some(Below(m0, gap, c + 1))];
      assert CountEligible(ys, k + 1, threshold) == c + 1;
    } else {
      assert next == cur;
      assert CountEligible(ys, k + 1, threshold) == c;
    }
  }

  /** The inductive step behind PassLanding: visiting the layers from k on,
      with those before k already in place and the current lowest layer as
      many gaps below the original one as layers have been recycled. */
  lemma {:induction false} PassFrom(ys: seq<Option<real>>, cur: seq<Option<real>>, k: nat, threshold: real, gap: real, fallback: real, i: nat)
    requires gap > 0.0 && k <= |ys| == |cur| && i < |ys|
    requires forall j :: 0 <= j < k ==> cur[j] == Landing(ys, j, threshold, gap, fallback)
    requires forall j :: k <= j < |ys| ==> cur[j] == ys[j]
    requires MinLayerY(cur, fallback) == Below(MinLayerY(ys, fallback), gap, CountEligible(ys, k, threshold))
    ensures Pass(cur, k, threshold, gap, fallback)[i] == Landing(ys, i, threshold, gap, fallback)
    decreases |ys| - k
  {
    if k < |ys| {
      PassAdvance(ys, cur, k, threshold, gap, fallback);
      PassFrom(ys, Step(cur, k, threshold, gap, fallback), k + 1, threshold, gap, fallback, i);
    } else {
      assert Pass(cur, k, threshold, gap, fallback) == cur;
    }
  }

  /** UpdateRecycle's pass, in closed form: the c-th eligible layer in list
      order lands c gaps below the lowest layer, every other one stays. */
  lemma PassLanding(ys: seq<Option<real>>, threshold: real, gap: real, fallback: real)
    requires gap > 0.0
    ensures forall i :: 0 <= i < |ys| ==> Pass(ys, 0, threshold, gap, fallback)[i] == Landing(ys, i, threshold, gap, fallback)
  {
    forall i | 0 <= i < |ys|
      ensures Pass(ys, 0, threshold, gap, fallback)[i] == Landing(ys, i, threshold, gap, fallback)
    {
      PassFrom(ys, ys, 0, threshold, gap, fallback, i);
    }
  }

  lemma {:induction false} CountGrows(ys: seq<Option<real>>, i: nat, j: nat, threshold: real)
    requires i < j <= |ys| && Eligible(ys, i, threshold)
    ensures CountEligible(ys, i, threshold) < CountEligible(ys, j, threshold)
    decreases j - i
  {
    if j > i + 1 {
      CountGrows(ys, i, j - 1, threshold);
    }
  }

  /** Two eligible layers land as many gaps apart as there are eligible
      layers from the first up to the second. */
  lemma LandingsApart(ys: seq<Option<real>>, i: nat, j: nat, threshold: real, gap: real, fallback: real)
    requires i < j < |ys| && Eligible(ys, i, threshold) && Eligible(ys, j, threshold)
    ensures CountEligible(ys, i, threshold) < CountEligible(ys, j, threshold)
    ensures Landing(ys, j, threshold, gap, fallback).value
      == Below(Landing(ys, i, threshold, gap, fallback).value, gap, CountEligible(ys, j, threshold) - CountEligible(ys, i, threshold))
  {
    CountGrows(ys, i, j, threshold);
    var ci, cj := CountEligible(ys, i, threshold), CountEligible(ys, j, threshold);
    var m := MinLayerY(ys, fallback);
    BelowAdds(m, gap, ci + 1, cj - ci);
    assert ci + 1 + (cj - ci) == cj + 1;
  }

  /** One layer of PassLanding. */
  lemma PassAt(ys: seq<Option<real>>, i: nat, threshold: real, gap: real, fallback: real)
    requires gap > 0.0 && i < |ys|
    ensures Pass(ys, 0, threshold, gap, fallback)[i] == Landing(ys, i, threshold, gap, fallback)
  {
    PassFrom(ys, ys, 0, threshold, gap, fallback, i);
  }

  /** A pass leaves every layer it does not recycle as it was, and moves
      only present layers: no layer appears or disappears. */
  lemma PassKeeps(ys: seq<Option<real>>, threshold: real, gap: real, fallback: real)
    requires gap > 0.0
    ensures var out := Pass(ys, 0, threshold, gap, fallback);
      && (forall i :: 0 <= i < |ys| ==> (out[i].Some? <==> ys[i].Some?))
      && (forall i :: 0 <= i < |ys| && !Eligible(ys, i, threshold) ==> out[i] == ys[i])
  {
    var out := Pass(ys, 0, threshold, gap, fallback);
    forall i | 0 <= i < |ys|
      ensures out[i].Some? <==> ys[i].Some?
      ensures !Eligible(ys, i, threshold) ==> out[i] == ys[i]
    {
      PassAt(ys, i, threshold, gap, fallback);
    }
  }

  /** After a pass every recycled layer sits below every layer left in
      place. */
  lemma PassRecycledBelow(ys: seq<Option<real>>, threshold: real, gap: real, fallback: real)
    requires gap > 0.0
    ensures var out := Pass(ys, 0, threshold, gap, fallback);
      forall i, j ::
        0 <= i < |ys| && 0 <= j < |ys| && Eligible(ys, i, threshold) && ys[j].Some? && !Eligible(ys, j, threshold)
        ==> out[i].Some? && out[j].Some? && out[i].value < out[j].value
  {
    var out := Pass(ys, 0, threshold, gap, fallback);
    var m := MinLayerY(ys, fallback);
    forall i, j | 0 <= i < |ys| && 0 <= j < |ys| && Eligible(ys, i, threshold)
        && ys[j].Some? && !Eligible(ys, j, threshold)
      ensures out[i].Some? && out[j].Some? && out[i].value < out[j].value
    {
      PassAt(ys, i, threshold, gap, fallback);
      PassAt(ys, j, threshold, gap, fallback);
      MinLayerYBounds(ys, fallback);
      assert m <= ys[j].value;
      BelowDescends(m, gap, CountEligible(ys, i, threshold) + 1);
    }
  }

  /** After a pass two recycled layers are stacked a whole number of gaps
      apart, the later one in list order lower. */
  lemma PassRecycledStacked(ys: seq<Option<real>>, threshold: real, gap: real, fallback: real)
    requires gap > 0.0
    ensures var out := Pass(ys, 0, threshold, gap, fallback);
      forall i, j :: 0 <= i < j < |ys| && Eligible(ys, i, threshold) && Eligible(ys, j, threshold) ==>
        && CountEligible(ys, i, threshold) < CountEligible(ys, j, threshold)
        && out[i].Some? && out[j].Some?
        && out[j].value == Below(out[i].value, gap, CountEligible(ys, j, threshold) - CountEligible(ys, i, threshold))
  {
    var out := Pass(ys, 0, threshold, gap, fallback);
    forall i, j | 0 <= i < j < |ys| && Eligible(ys, i, threshold) && Eligible(ys, j, threshold)
      ensures CountEligible(ys, i, threshold) < CountEligible(ys, j, threshold)
      ensures out[i].Some? && out[j].Some?
      ensures out[j].value == Below(out[i].value, gap, CountEligible(ys, j, threshold) - CountEligible(ys, i, threshold))
    {
      PassAt(ys, i, threshold, gap, fallback);
      PassAt(ys, j, threshold, gap, fallback);
      LandingsApart(ys, i, j, threshold, gap, fallback);
    }
  }

  /** Where a pass leaves the layers' x and z: each of the first n layers
      that is eligible is moved to (ox, oz). */
  function Regrid(ss: seq<Option<(real, real)>>, ys: seq<Option<real>>, n: nat, threshold: real, ox: real, oz: real)
    : (ss': seq<Option<(real, real)>>)
    requires |ss| == |ys| && n <= |ys|
    ensures |ss'| == |ss|
  {
    if n == 0 then ss
    else
      var prev := Regrid(ss, ys, n - 1, threshold, ox, oz);
      if Eligible(ys, n - 1, threshold) then prev[n - 1 := Some((ox, oz))] else prev
  }

  /** Where a pass stands before visiting layer i, starting from heights
      ys0 and placements ss0, with the layers now at heights ys and
      placements ss: the rest of the pass leads where the whole pass would,
      the layers from i on are as they were, and the eligible layers before
      i have been moved to (ox, oz). */
  ghost predicate OnCourse(ys: seq<Option<real>>, ss: seq<Option<(real, real)>>, i: nat, threshold: real,
                           gap: real, fallback: real, ox: real, oz: real,
                           ys0: seq<Option<real>>, ss0: seq<Option<(real, real)>>)
    requires |ys| == |ss| == |ys0| == |ss0|
  {
    && i <= |ys|
    && Pass(ys, i, threshold, gap, fallback) == Pass(ys0, 0, threshold, gap, fallback)
    && ss == Regrid(ss0, ys0, i, threshold, ox, oz)
    && ys[i..] == ys0[i..]
  }

  /** Visiting layer i, recycling it exactly when it is eligible, keeps a
      pass on course. */
  lemma OnCourseStep(ys: seq<Option<real>>, ss: seq<Option<(real, real)>>, i: nat, threshold: real,
                     gap: real, fallback: real, ox: real, oz: real,
                     ys0: seq<Option<real>>, ss0: seq<Option<(real, real)>>)
    requires |ys| == |ss| == |ys0| == |ss0| && i < |ys|
    requires OnCourse(ys, ss, i, threshold, gap, fallback, ox, oz, ys0, ss0)
    ensures Eligible(ys, i, threshold) == Eligible(ys0, i, threshold)
    ensures OnCourse(Step(ys, i, threshold, gap, fallback),
                     if Eligible(ys, i, threshold) then ss[i := Some((ox, oz))] else ss,
                     i + 1, threshold, gap, fallback, ox, oz, ys0, ss0)
  {
    VisitStep(ys, ys0, i, threshold, gap, fallback);
  }

  /** Regrid in closed form: an eligible layer among the first n sits at
      (ox, oz), every other layer keeps its x and z. */
  lemma {:induction false} RegridAt(ss: seq<Option<(real, real)>>, ys: seq<Option<real>>, n: nat, threshold: real, ox: real, oz: real, j: nat)
    requires |ss| == |ys| && n <= |ys| && j < |ys|
    ensures Regrid(ss, ys, n, threshold, ox, oz)[j]
         == if j < n && Eligible(ys, j, threshold) then Some((ox, oz)) else ss[j]
  {
    if n > 0 {
      RegridAt(ss, ys, n - 1, threshold, ox, oz, j);
    }
  }

  /** The heights InitializePool lays out: n layers, the i-th i gaps below top. */
  function Stack(top: real, gap: real, n: nat): (ys: seq<Option<real>>)
    ensures |ys| == n
  {
    seq(n, i requires 0 <= i => Some(Below(top, gap, i)))
  }

  /** The lowest layer of a freshly laid stack is its last one, so the first
      layer recycled out of it continues the stack one gap further down. */
  lemma {:induction false} StackLowest(top: real, gap: real, n: nat, fallback: real)
    requires gap > 0.0 && n > 0
    ensures Lowest(Stack(top, gap, n)) == Some(Below(top, gap, n - 1))
    ensures MinLayerY(Stack(top, gap, n), fallback) - gap == Below(top, gap, n)
  {
    var ys := Stack(top, gap, n);
    var low := Below(top, gap, n - 1);
    assert ys[n - 1] == Some(low);
    if n == 1 {
      assert ys[..0] == [];
    } else {
      StackLowest(top, gap, n - 1, fallback);
      assert ys[..n - 1] == Stack(top, gap, n - 1);
      var prev := Below(top, gap, n - 2);
      assert Lowest(ys[..n - 1]) == Some(prev);
      assert low == prev - gap;
    }
    assert Lowest(ys) == Some(low);
    assert Below(top, gap, n) == low - gap;
  }

  /** A height a pass recycles: a present layer above the threshold. */
  predicate Above(v: Option<real>, threshold: real)
  {
    v.Some? && v.value > threshold
  }

  /** The heights of the layers before index k that a pass leaves in place. */
  function Staying(ys: seq<Option<real>>, k: nat, threshold: real): multiset<Option<real>>
    requires k <= |ys|
  {
    if k == 0 then multiset{}
    else Staying(ys, k - 1, threshold) + (if Eligible(ys, k - 1, threshold) then multiset{} else multiset{ys[k - 1]})
  }

  /** The heights of the layers before index k that a pass recycles. */
  function Rising(ys: seq<Option<real>>, k: nat, threshold: real): multiset<Option<real>>
    requires k <= |ys|
  {
    if k == 0 then multiset{}
    else Rising(ys, k - 1, threshold) + (if Eligible(ys, k - 1, threshold) then multiset{ys[k - 1]} else multiset{})
  }

  /** How often v occurs among the first k heights. */
  function Occurrences(ys: seq<Option<real>>, k: nat, v: Option<real>): nat
    requires k <= |ys|
  {
    if k == 0 then 0 else Occurrences(ys, k - 1, v) + (if ys[k - 1] == v then 1 else 0)
  }

  /** Occurrences counts what the multiset of the prefix holds. */
  lemma {:induction false} OccurrencesCount(ys: seq<Option<real>>, k: nat, v: Option<real>)
    requires k <= |ys|
    ensures Occurrences(ys, k, v) == multiset(ys[..k])[v]
  {
    if k == 0 {
      assert ys[..k] == [];
    } else {
      OccurrencesCount(ys, k - 1, v);
      assert ys[..k] == ys[..k - 1] + [ys[k - 1]];
    }
  }

  /** A height v of the first k layers rises exactly when it is above the threshold. */
  lemma {:induction false} RisingCount(ys: seq<Option<real>>, k: nat, threshold: real, v: Option<real>)
    requires k <= |ys|
    ensures Rising(ys, k, threshold)[v] == if Above(v, threshold) then Occurrences(ys, k, v) else 0
  {
    if k > 0 {
      RisingCount(ys, k - 1, threshold, v);
      SplitStep(ys, k, threshold, v);
    }
  }

  /** A height v of the first k layers stays exactly when it is not above the threshold. */
  lemma {:induction false} StayingCount(ys: seq<Option<real>>, k: nat, threshold: real, v: Option<real>)
    requires k <= |ys|
    ensures Staying(ys, k, threshold)[v] == if Above(v, threshold) then 0 else Occurrences(ys, k, v)
  {
    if k > 0 {
      StayingCount(ys, k - 1, threshold, v);
      SplitStep(ys, k, threshold, v);
    }
  }

  /** Layer k - 1 adds one to the count of its own height, among the
      heights that rise when it is above the threshold, among those that
      stay otherwise. */
  lemma SplitStep(ys: seq<Option<real>>, k: nat, threshold: real, v: Option<real>)
    requires 0 < k <= |ys|
    ensures Rising(ys, k, threshold)[v]
      == Rising(ys, k - 1, threshold)[v] + (if ys[k - 1] == v && Above(v, threshold) then 1 else 0)
    ensures Staying(ys, k, threshold)[v]
      == Staying(ys, k - 1, threshold)[v] + (if ys[k - 1] == v && !Above(v, threshold) then 1 else 0)
  {
    if Eligible(ys, k - 1, threshold) {
      assert Rising(ys, k, threshold) == Rising(ys, k - 1, threshold) + multiset{ys[k - 1]};
      assert Staying(ys, k, threshold) == Staying(ys, k - 1, threshold);
    } else {
      assert Rising(ys, k, threshold) == Rising(ys, k - 1, threshold);
      assert Staying(ys, k, threshold) == Staying(ys, k - 1, threshold) + multiset{ys[k - 1]};
    }
  }

  /** A pass recycles as many layers as there are heights that rise. */
  lemma {:induction false} RisingSize(ys: seq<Option<real>>, k: nat, threshold: real)
    requires k <= |ys|
    ensures |Rising(ys, k, threshold)| == CountEligible(ys, k, threshold)
  {
    if k > 0 {
      RisingSize(ys, k - 1, threshold);
    }
  }

  /** Two lists holding the same heights, in any order, split alike. */
  lemma SameSplit(ys: seq<Option<real>>, zs: seq<Option<real>>, threshold: real)
    requires multiset(ys) == multiset(zs)
    ensures Rising(ys, |ys|, threshold) == Rising(zs, |zs|, threshold)
    ensures Staying(ys, |ys|, threshold) == Staying(zs, |zs|, threshold)
    ensures CountEligible(ys, |ys|, threshold) == CountEligible(zs, |zs|, threshold)
  {
    var r, r' := Rising(ys, |ys|, threshold), Rising(zs, |zs|, threshold);
    var t, t' := Staying(ys, |ys|, threshold), Staying(zs, |zs|, threshold);
    assert ys[..|ys|] == ys && zs[..|zs|] == zs;
    forall v
      ensures r[v] == r'[v] && t[v] == t'[v]
    {
      RisingCount(ys, |ys|, threshold, v);
      RisingCount(zs, |zs|, threshold, v);
      StayingCount(ys, |ys|, threshold, v);
      StayingCount(zs, |zs|, threshold, v);
      OccurrencesCount(ys, |ys|, v);
      OccurrencesCount(zs, |zs|, v);
    }
    assert r == r' && t == t';
    RisingSize(ys, |ys|, threshold);
    RisingSize(zs, |zs|, threshold);
  }

  /** Stacking a + b layers from top is stacking a, then b more below them. */
  lemma StackSplit(top: real, gap: real, a: nat, b: nat)
    ensures Stack(top, gap, a + b) == Stack(top, gap, a) + Stack(Below(top, gap, a), gap, b)
  {
    forall i | a <= i < a + b
      ensures Below(top, gap, i) == Below(Below(top, gap, a), gap, i - a)
    {
      BelowAdds(top, gap, a, i - a);
    }
  }

  /** Below descends weakly: more gaps down is never higher. */
  lemma BelowMonotone(m: real, gap: real, k: nat, j: nat)
    requires gap > 0.0 && k <= j
    ensures Below(m, gap, j) <= Below(m, gap, k)
  {
    BelowAdds(m, gap, k, j - k);
    if j > k {
      BelowDescends(Below(m, gap, k), gap, j - k);
    }
  }

  /** A stack of one layer. */
  lemma StackOne(top: real, gap: real)
    ensures Stack(top, gap, 1) == [Some(top)]
  {
  }

  /** One layer more of LandedSplit: the layer k - 1 lands at x. */
  lemma LandedStep(ys: seq<Option<real>>, k: nat, threshold: real, gap: real, m: real,
                   prev: multiset<Option<real>>, x: Option<real>)
    requires 0 < k <= |ys|
    requires prev == Staying(ys, k - 1, threshold)
      + multiset(Stack(Below(m, gap, 1), gap, CountEligible(ys, k - 1, threshold)))
    requires x == if Eligible(ys, k - 1, threshold)
      then Some(Below(m, gap, CountEligible(ys, k - 1, threshold) + 1)) else ys[k - 1]
    ensures prev + multiset{x} == Staying(ys, k, threshold)
      + multiset(Stack(Below(m, gap, 1), gap, CountEligible(ys, k, threshold)))
  {
    var t1 := Below(m, gap, 1);
    var c := CountEligible(ys, k - 1, threshold);
    var st := multiset(Stack(t1, gap, c));
    if Eligible(ys, k - 1, threshold) {
      BelowAdds(m, gap, 1, c);
      assert x == Some(Below(t1, gap, c));
      StackSplit(t1, gap, c, 1);
      StackOne(Below(t1, gap, c), gap);
      assert multiset(Stack(t1, gap, c + 1)) == st + multiset{x};
    } else {
      assert Staying(ys, k, threshold) == Staying(ys, k - 1, threshold) + multiset{x};
    }
  }

  /** After a pass, the layers before index k hold the heights that stayed
      and, for the c recycled among them, the c heights one, two, ... gaps
      below the lowest layer m the pass started from. */
  lemma {:induction false} LandedSplit(ys: seq<Option<real>>, out: seq<Option<real>>, k: nat, threshold: real, gap: real, m: real)
    requires |out| == |ys| && k <= |ys|
    requires forall i :: 0 <= i < |ys| ==>
      out[i] == (if Eligible(ys, i, threshold) then Some(Below(m, gap, CountEligible(ys, i, threshold) + 1)) else ys[i])
    ensures multiset(out[..k]) == Staying(ys, k, threshold)
      + multiset(Stack(Below(m, gap, 1), gap, CountEligible(ys, k, threshold)))
  {
    if k == 0 {
      assert out[..0] == [] && Stack(Below(m, gap, 1), gap, 0) == [];
    } else {
      LandedSplit(ys, out, k - 1, threshold, gap, m);
      assert multiset(out[..k]) == multiset(out[..k - 1]) + multiset{out[k - 1]} by {
        assert out[..k] == out[..k - 1] + [out[k - 1]];
      }
      LandedStep(ys, k, threshold, gap, m, multiset(out[..k - 1]), out[k - 1]);
    }
  }

  /** In a stack the layers above a threshold are the top ones: eligibility
      ends at the first layer that is not eligible. */
  lemma StackEligiblePrefix(top: real, gap: real, n: nat, threshold: real, i: nat, j: nat)
    requires gap > 0.0 && i <= j < n && Eligible(Stack(top, gap, n), j, threshold)
    ensures Eligible(Stack(top, gap, n), i, threshold)
  {
    BelowMonotone(top, gap, i, j);
  }

  /** Where eligibility ends in a stack: among the first k layers, the
      first c are eligible and the others are not, c the count. */
  lemma {:induction false} StackCut(top: real, gap: real, n: nat, threshold: real, k: nat)
    requires gap > 0.0 && k <= n
    ensures CountEligible(Stack(top, gap, n), k, threshold) <= k
    ensures forall i :: 0 <= i < CountEligible(Stack(top, gap, n), k, threshold) ==>
      Eligible(Stack(top, gap, n), i, threshold)
    ensures forall i :: CountEligible(Stack(top, gap, n), k, threshold) <= i < k ==>
      !Eligible(Stack(top, gap, n), i, threshold)
  {
    if k > 0 {
      StackCut(top, gap, n, threshold, k - 1);
      var c := CountEligible(Stack(top, gap, n), k - 1, threshold);
      if Eligible(Stack(top, gap, n), k - 1, threshold) && c < k - 1 {
        StackEligiblePrefix(top, gap, n, threshold, c, k - 1);
        assert false;
      }
    }
  }

  /** One layer more of StackSplitsAt's recycled part, for any list whose
      eligible layers among the first k - 1 are the first c. */
  lemma CutRise(ys: seq<Option<real>>, k: nat, threshold: real, c: nat)
    requires 0 < k <= |ys| && c == CountEligible(ys, k - 1, threshold) && c <= k - 1
    requires Rising(ys, k - 1, threshold) == multiset(ys[..c])
    requires Eligible(ys, k - 1, threshold) ==> c == k - 1
    ensures Rising(ys, k, threshold) == multiset(ys[..CountEligible(ys, k, threshold)])
  {
    if Eligible(ys, k - 1, threshold) {
      assert CountEligible(ys, k, threshold) == k;
      assert Rising(ys, k, threshold) == Rising(ys, k - 1, threshold) + multiset{ys[k - 1]};
      PrefixGrows(ys, k);
    } else {
      assert CountEligible(ys, k, threshold) == c;
      assert Rising(ys, k, threshold) == Rising(ys, k - 1, threshold);
    }
  }

  /** A prefix one element longer holds that element more. */
  lemma PrefixGrows(ys: seq<Option<real>>, k: nat)
    requires 0 < k <= |ys|
    ensures multiset(ys[..k]) == multiset(ys[..k - 1]) + multiset{ys[k - 1]}
  {
    assert ys[..k] == ys[..k - 1] + [ys[k - 1]];
  }

  /** One layer more of StackSplitsAt's remaining part, under CutRise's
      conditions. */
  lemma CutStay(ys: seq<Option<real>>, k: nat, threshold: real, c: nat)
    requires 0 < k <= |ys| && c == CountEligible(ys, k - 1, threshold) && c <= k - 1
    requires Staying(ys, k - 1, threshold) == multiset(ys[c..k - 1])
    requires Eligible(ys, k - 1, threshold) ==> c == k - 1
    ensures Staying(ys, k, threshold) == multiset(ys[CountEligible(ys, k, threshold)..k])
  {
    if Eligible(ys, k - 1, threshold) {
      assert CountEligible(ys, k, threshold) == k;
      EmptySlices(ys, k);
    } else {
      assert CountEligible(ys, k, threshold) == c;
      SliceGrows(ys, c, k);
    }
  }

  /** A slice of length 0 holds nothing. */
  lemma EmptySlices(ys: seq<Option<real>>, k: nat)
    requires 0 < k <= |ys|
    ensures multiset(ys[k - 1..k - 1]) == multiset(ys[k..k]) == multiset{}
  {
    assert ys[k - 1..k - 1] == ys[k..k] == [];
  }

  /** A slice one element longer holds that element more. */
  lemma SliceGrows(ys: seq<Option<real>>, c: nat, k: nat)
    requires c < k <= |ys|
    ensures multiset(ys[c..k]) == multiset(ys[c..k - 1]) + multiset{ys[k - 1]}
  {
    assert ys[c..k] == ys[c..k - 1] + [ys[k - 1]];
  }

  /** How a pass splits a stack: the c layers it recycles are the top c,
      the ones it leaves are the rest. */
  lemma {:induction false} StackSplitsAt(top: real, gap: real, n: nat, threshold: real, k: nat)
    requires gap > 0.0 && k <= n
    ensures CountEligible(Stack(top, gap, n), k, threshold) <= k
    ensures Rising(Stack(top, gap, n), k, threshold)
      == multiset(Stack(top, gap, n)[..CountEligible(Stack(top, gap, n), k, threshold)])
    ensures Staying(Stack(top, gap, n), k, threshold)
      == multiset(Stack(top, gap, n)[CountEligible(Stack(top, gap, n), k, threshold)..k])
  {
    var ys := Stack(top, gap, n);
    StackCut(top, gap, n, threshold, k);
    if k > 0 {
      StackSplitsAt(top, gap, n, threshold, k - 1);
      StackCut(top, gap, n, threshold, k - 1);
      var c := CountEligible(ys, k - 1, threshold);
      CutRise(ys, k, threshold, c);
      CutStay(ys, k, threshold, c);
    } else {
      assert ys[..0] == ys[0..0] == [];
    }
  }

  /** The lowest layer of a shuffled stack of n is the stack's n-th. */
  lemma LadderLowest(ys: seq<Option<real>>, top: real, gap: real, fallback: real)
    requires gap > 0.0 && |ys| > 0 && multiset(ys) == multiset(Stack(top, gap, |ys|))
    ensures MinLayerY(ys, fallback) == Below(top, gap, |ys| - 1)
  {
    var n := |ys|;
    var st := Stack(top, gap, n);
    var b := Below(top, gap, n - 1);
    MinLayerYBounds(ys, fallback);
    assert st[n - 1] == Some(b);
    assert Some(b) in multiset(ys);
    var i :| 0 <= i < n && ys[i] == Some(b);
    var m := MinLayerY(ys, fallback);
    var j :| 0 <= j < n && ys[j] == Some(m);
    assert Some(m) in multiset(st);
    var k :| 0 <= k < n && st[k] == Some(m);
    BelowMonotone(top, gap, k, n - 1);
  }

  /** The pool's heights a shuffled stack, one gap apart from some top. */
  ghost predicate IsLadder(ys: seq<Option<real>>, gap: real)
  {
    exists top :: multiset(ys) == multiset(Stack(top, gap, |ys|))
  }

  /** The heights a pass leaves in a shuffled stack are the stack's lower
      n - c, c the number it recycles. */
  lemma StayingRest(ys: seq<Option<real>>, top: real, gap: real, threshold: real)
    requires gap > 0.0 && multiset(ys) == multiset(Stack(top, gap, |ys|))
    ensures CountEligible(ys, |ys|, threshold) <= |ys|
    ensures Staying(ys, |ys|, threshold) == multiset(Stack(Below(top, gap, CountEligible(ys, |ys|, threshold)), gap,
      |ys| - CountEligible(ys, |ys|, threshold)))
  {
    var n := |ys|;
    SameSplit(ys, Stack(top, gap, n), threshold);
    StackSplitsAt(top, gap, n, threshold, n);
    StackDrop(top, gap, CountEligible(ys, n, threshold), n);
  }

  /** A stack of n without its top c is the stack of n - c, c gaps lower. */
  lemma StackDrop(top: real, gap: real, c: nat, n: nat)
    requires c <= n
    ensures Stack(top, gap, n)[c..n] == Stack(Below(top, gap, c), gap, n - c)
  {
    StackSplit(top, gap, c, n - c);
    assert c + (n - c) == n;
  }

  /** Moving the top c layers of a stack of n to its bottom gives the stack
      of n c gaps further down. */
  lemma StackRotate(top: real, gap: real, c: nat, n: nat)
    requires c <= n
    ensures multiset(Stack(Below(top, gap, c), gap, n - c)) + multiset(Stack(Below(top, gap, n), gap, c))
      == multiset(Stack(Below(top, gap, c), gap, n))
  {
    StackSplit(Below(top, gap, c), gap, n - c, c);
    BelowAdds(top, gap, c, n - c);
    assert c + (n - c) == n;
  }

  /** A pass keeps a stack a stack: the c layers it recycles are the top c,
      and it lays them, in list order, one gap apart under the lowest, so
      the heights become the stack c gaps further down. */
  lemma PassKeepsStack(ys: seq<Option<real>>, top: real, gap: real, threshold: real, fallback: real)
    requires gap > 0.0 && multiset(ys) == multiset(Stack(top, gap, |ys|))
    ensures multiset(Pass(ys, 0, threshold, gap, fallback))
      == multiset(Stack(Below(top, gap, CountEligible(ys, |ys|, threshold)), gap, |ys|))
  {
    var n := |ys|;
    var out := Pass(ys, 0, threshold, gap, fallback);
    if n == 0 {
      assert out == [];
    } else {
      var c := CountEligible(ys, n, threshold);
      var m := MinLayerY(ys, fallback);
      PassLanding(ys, threshold, gap, fallback);
      LandedSplit(ys, out, n, threshold, gap, m);
      assert out[..n] == out;
      LadderLowest(ys, top, gap, fallback);
      BelowAdds(top, gap, n - 1, 1);
      assert Below(m, gap, 1) == Below(top, gap, n);
      StayingRest(ys, top, gap, threshold);
      StackRotate(top, gap, c, n);
    }
  }

  /** If the heights ys are a shuffled stack one gap apart, from whatever
      top, then ys' is the same stack c gaps lower. */
  ghost predicate StackLowered(ys: seq<Option<real>>, ys': seq<Option<real>>, gap: real, c: nat)
  {
    forall top :: gap > 0.0 && multiset(ys) == multiset(Stack(top, gap, |ys|)) ==>
      multiset(ys') == multiset(Stack(Below(top, gap, c), gap, |ys|))
  }

  /** PassKeepsStack for every top at once. */
  lemma PassShiftsStacks(ys: seq<Option<real>>, gap: real, threshold: real, fallback: real)
    ensures StackLowered(ys, Pass(ys, 0, threshold, gap, fallback), gap, CountEligible(ys, |ys|, threshold))
  {
    forall top | gap > 0.0 && multiset(ys) == multiset(Stack(top, gap, |ys|))
      ensures multiset(Pass(ys, 0, threshold, gap, fallback))
        == multiset(Stack(Below(top, gap, CountEligible(ys, |ys|, threshold)), gap, |ys|))
    {
      PassKeepsStack(ys, top, gap, threshold, fallback);
    }
  }

  /** A pass keeps the pool's heights a ladder. */
  lemma PassKeepsLadder(ys: seq<Option<real>>, gap: real, threshold: real, fallback: real)
    requires gap > 0.0 && IsLadder(ys, gap)
    ensures IsLadder(Pass(ys, 0, threshold, gap, fallback), gap)
  {
    var top :| multiset(ys) == multiset(Stack(top, gap, |ys|));
    PassKeepsStack(ys, top, gap, threshold, fallback);
  }
}
