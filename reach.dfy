/** The reachability-bounded choice of the next hole: the search radius the
    player can cover while falling one layer gap, and the candidate cells
    within that radius of the previous hole. */
module Reach {
  import opened Engine

  /** The tuning parameters of the placement: vertical spacing, the player's
      nominal speeds, the safety slack, the cell edge and the radius floor. */
  datatype Kinematics = Kinematics(
    layerGap: real, fallSpeed: real, moveSpeed: real,
    reachableSlack: real, cellSize: real, minRadiusCells: real)

  /** Horizontal distance, in cells, the player can cover between two layers:
      move speed times fall time, deflated by the slack, and never below the
      radius floor. Each divisor and speed is first clamped away from zero or
      below zero. */
  function SearchRadius(k: Kinematics): (rCells: real)
    ensures rCells >= k.minRadiusCells
    ensures k.reachableSlack >= 0.0 ==> rCells >= 0.0
  {
    Max(ReachCells(k), k.minRadiusCells)
  }

  /** Seconds the player needs to fall one layer gap. */
  function FallTime(k: Kinematics): (t: real)
    ensures t > 0.0
  {
    Max(0.01, k.layerGap) / Max(0.01, k.fallSpeed)
  }

  /** Cells the player covers sideways during that fall, after the slack. */
  function ReachCells(k: Kinematics): (cells: real)
    ensures k.reachableSlack >= 0.0 ==> cells >= 0.0
    ensures k.moveSpeed <= 0.0 ==> cells == 0.0
  {
    Max(0.0, k.moveSpeed) * FallTime(k) * k.reachableSlack / Max(0.001, k.cellSize)
  }

  /** The radius never shrinks when the player moves faster, falls slower, the
      layers are further apart or the slack is larger. */
  lemma RadiusMonotone(k: Kinematics, k': Kinematics)
    requires 0.0 <= k.reachableSlack <= k'.reachableSlack
    requires k.moveSpeed <= k'.moveSpeed && k'.fallSpeed <= k.fallSpeed && k.layerGap <= k'.layerGap
    requires k.cellSize == k'.cellSize && k.minRadiusCells == k'.minRadiusCells
    ensures SearchRadius(k) <= SearchRadius(k')
  {
    var h, h' := Max(0.01, k.layerGap), Max(0.01, k'.layerGap);
    var fs, fs' := Max(0.01, k.fallSpeed), Max(0.01, k'.fallSpeed);
    var ms, ms' := Max(0.0, k.moveSpeed), Max(0.0, k'.moveSpeed);
    var c := Max(0.001, k.cellSize);
    var t, t' := FallTime(k), FallTime(k');
    assert t == h / fs && t' == h' / fs';
    FallTimeMonotone(h, h', fs, fs');
    var reach, reach' := ms * t * k.reachableSlack, ms' * t' * k'.reachableSlack;
    ReachMonotone(ms, ms', t, t', k.reachableSlack, k'.reachableSlack);
    DivideMonotone(reach, reach', c);
    assert ReachCells(k) == reach / c;
    assert ReachCells(k') == reach' / c;
  }

  lemma FallTimeMonotone(h: real, h': real, fs: real, fs': real)
    requires 0.0 < h <= h' && 0.0 < fs' <= fs
    ensures 0.0 <= h / fs <= h' / fs'
  {
  }

  lemma ReachMonotone(ms: real, ms': real, t: real, t': real, sl: real, sl': real)
    requires 0.0 <= ms <= ms' && 0.0 <= t <= t' && 0.0 <= sl <= sl'
    ensures ms * t * sl <= ms' * t' * sl'
  {
  }

  lemma DivideMonotone(a: real, b: real, c: real)
    requires a <= b && c > 0.0
    ensures a / c <= b / c
  {
  }

  /** Squared distance, in cells, between (x, z) and (cx, cz). */
  function Dist2(x: int, z: int, cx: int, cz: int): real
  {
    var dx := (x - cx) as real;
    var dz := (z - cz) as real;
    dx * dx + dz * dz
  }

  /** (x, z) lies within radius r of (cx, cz). */
  predicate Within(x: int, z: int, cx: int, cz: int, r: real)
  {
    Dist2(x, z, cx, cz) <= r * r
  }

  /** Lower edge, on one axis, of the box searched around coordinate c. */
  function BoxLo(c: int, r: real, max: int): (lo: int)
    ensures 0 <= max ==> 0 <= lo <= max
    ensures 0.0 <= c as real - r < max as real ==> lo as real <= c as real - r < lo as real + 1.0
  {
    Clamp(FloorToInt(c as real - r), 0, max)
  }

  /** Upper edge, on one axis, of the box searched around coordinate c. */
  function BoxHi(c: int, r: real, max: int): (hi: int)
    ensures 0 <= max ==> 0 <= hi <= max
    ensures 0.0 < c as real + r <= max as real ==> hi as real - 1.0 < c as real + r <= hi as real
  {
    Clamp(CeilToInt(c as real + r), 0, max)
  }

  /** The cells (x', z) with loX <= x' < x inside the radius, by increasing x'. */
  function RowCandidates(z: int, loX: int, x: int, cx: int, cz: int, r: real): seq<(int, int)>
    decreases x - loX
  {
    if x <= loX then []
    else
      RowCandidates(z, loX, x - 1, cx, cz, r)
        + (if Within(x - 1, z, cx, cz, r) then [(x - 1, z)] else [])
  }

  /** The rows loZ <= z' < z of the search, each row by increasing x. */
  function GridCandidates(loZ: int, z: int, loX: int, hiX: int, cx: int, cz: int, r: real): seq<(int, int)>
    decreases z - loZ
  {
    if z <= loZ then []
    else GridCandidates(loZ, z - 1, loX, hiX, cx, cz, r) + RowCandidates(z - 1, loX, hiX + 1, cx, cz, r)
  }

  /** The candidate list of PickNextHole, in the order its loops build it:
      the cells of the clamped box around (cx, cz), z-major, that lie within
      radius r. */
  function Candidates(cx: int, cz: int, r: real, max: int): seq<(int, int)>
  {
    GridCandidates(BoxLo(cz, r, max), BoxHi(cz, r, max) + 1, BoxLo(cx, r, max), BoxHi(cx, r, max), cx, cz, r)
  }

  lemma {:induction false} RowMembers(z: int, loX: int, x: int, cx: int, cz: int, r: real, c: (int, int))
    ensures c in RowCandidates(z, loX, x, cx, cz, r) <==> c.1 == z && loX <= c.0 < x && Within(c.0, c.1, cx, cz, r)
    decreases x - loX
  {
    if x > loX {
      RowMembers(z, loX, x - 1, cx, cz, r, c);
    }
  }

  lemma {:induction false} GridMembers(loZ: int, z: int, loX: int, hiX: int, cx: int, cz: int, r: real, c: (int, int))
    ensures c in GridCandidates(loZ, z, loX, hiX, cx, cz, r)
      <==> loZ <= c.1 < z && loX <= c.0 <= hiX && Within(c.0, c.1, cx, cz, r)
    decreases z - loZ
  {
    if z > loZ {
      GridMembers(loZ, z - 1, loX, hiX, cx, cz, r, c);
      RowMembers(z - 1, loX, hiX + 1, cx, cz, r, c);
    }
  }

  /** A cell is a candidate exactly when it lies in the clamped search box and
      within the radius of the previous hole. */
  lemma CandidateMembers(cx: int, cz: int, r: real, max: int, c: (int, int))
    ensures c in Candidates(cx, cz, r, max) <==>
      && BoxLo(cx, r, max) <= c.0 <= BoxHi(cx, r, max)
      && BoxLo(cz, r, max) <= c.1 <= BoxHi(cz, r, max)
      && Within(c.0, c.1, cx, cz, r)
  {
    GridMembers(BoxLo(cz, r, max), BoxHi(cz, r, max) + 1, BoxLo(cx, r, max), BoxHi(cx, r, max), cx, cz, r, c);
  }

  /** Every candidate is a valid hole corner in [0, max]² and lies within the
      radius of the previous hole. */
  lemma CandidatesValid(cx: int, cz: int, r: real, max: int)
    requires max >= 0
    ensures forall c :: c in Candidates(cx, cz, r, max) ==>
      0 <= c.0 <= max && 0 <= c.1 <= max && Within(c.0, c.1, cx, cz, r)
  {
    forall c | c in Candidates(cx, cz, r, max)
      ensures 0 <= c.0 <= max && 0 <= c.1 <= max && Within(c.0, c.1, cx, cz, r)
    {
      CandidateMembers(cx, cz, r, max, c);
    }
  }

  lemma SquareBound(d: real, r: real)
    requires r >= 0.0 && d * d <= r * r
    ensures -r <= d <= r
  {
    if d > r {
      StrictSquare(r, d);
    } else if d < -r {
      StrictSquare(r, -d);
    }
  }

  lemma StrictSquare(a: real, b: real)
    requires 0.0 <= a < b
    ensures a * a < b * b
  {
    var e := b - a;
    assert b * b == (a + e) * (a + e) == a * a + 2.0 * (a * e) + e * e;
    assert e * e > 0.0;
    assert a * e >= 0.0;
  }

  /** The box loses nothing: every valid corner within the radius of the
      previous hole is a candidate. */
  lemma CandidatesComplete(cx: int, cz: int, r: real, max: int, x: int, z: int)
    requires r >= 0.0 && 0 <= x <= max && 0 <= z <= max && Within(x, z, cx, cz, r)
    ensures (x, z) in Candidates(cx, cz, r, max)
  {
    var dx, dz := (x - cx) as real, (z - cz) as real;
    assert Dist2(x, z, cx, cz) == dx * dx + dz * dz;
    SquareNonNegative(dx);
    SquareNonNegative(dz);
    SquareBound(dx, r);
    SquareBound(dz, r);
    AxisInBox(cx, r, max, x);
    AxisInBox(cz, r, max, z);
    CandidateMembers(cx, cz, r, max, (x, z));
  }

  lemma SquareNonNegative(d: real)
    ensures d * d >= 0.0
  {
  }

  /** A valid coordinate within r of c on one axis lies in the searched box. */
  lemma AxisInBox(c: int, r: real, max: int, v: int)
    requires 0 <= v <= max && -r <= (v - c) as real <= r
    ensures BoxLo(c, r, max) <= v <= BoxHi(c, r, max)
  {
  }

  /** With a non-negative radius the previous hole, when it is itself a valid
      corner, is a candidate, so the whole-grid fallback is never taken. */
  lemma PreviousHoleIsCandidate(cx: int, cz: int, r: real, max: int)
    requires r >= 0.0 && 0 <= cx <= max && 0 <= cz <= max
    ensures (cx, cz) in Candidates(cx, cz, r, max)
    ensures |Candidates(cx, cz, r, max)| > 0
  {
    CandidatesComplete(cx, cz, r, max, cx, cz);
  }

  /** The two nested loops of PickNextHole that gather the candidates. */
  method CollectCandidates(lastX: int, lastZ: int, rCells: real, max: int) returns (candidates: seq<(int, int)>)
    ensures candidates == Candidates(lastX, lastZ, rCells, max)
  {
    var minX := Clamp(FloorToInt(lastX as real - rCells), 0, max);
    var maxX := Clamp(CeilToInt(lastX as real + rCells), 0, max);
    var minZ := Clamp(FloorToInt(lastZ as real - rCells), 0, max);
    var maxZ := Clamp(CeilToInt(lastZ as real + rCells), 0, max);
    var r2 := rCells * rCells;
    candidates := [];
    var z := minZ;
    while z <= maxZ
      invariant minZ <= z && (z <= maxZ + 1 || z == minZ)
      invariant candidates == GridCandidates(minZ, z, minX, maxX, lastX, lastZ, rCells)
    {
      var x := minX;
      while x <= maxX
        invariant minX <= x && (x <= maxX + 1 || x == minX)
        invariant candidates == GridCandidates(minZ, z, minX, maxX, lastX, lastZ, rCells)
                                + RowCandidates(z, minX, x, lastX, lastZ, rCells)
      {
        assert RowCandidates(z, minX, x + 1, lastX, lastZ, rCells)
            == RowCandidates(z, minX, x, lastX, lastZ, rCells)
               + (if Within(x, z, lastX, lastZ, rCells) then [(x, z)] else []);
        if Dist2(x, z, lastX, lastZ) <= r2 {
          candidates := candidates + [(x, z)];
        }
        x := x + 1;
      }
      assert RowCandidates(z, minX, x, lastX, lastZ, rCells) == RowCandidates(z, minX, maxX + 1, lastX, lastZ, rCells);
      assert candidates == GridCandidates(minZ, z + 1, minX, maxX, lastX, lastZ, rCells);
      z := z + 1;
    }
    assert candidates == Candidates(lastX, lastZ, rCells, max);
  }
}
