/** The pool of floor tiles the player falls through: it lays the tiles out
    one gap apart below an origin, sends every tile the player has left far
    enough behind to the bottom of the stack, and cuts each placed tile's 2×2
    hole within horizontal reach of the previous hole. */
module Pooler {
  import opened Wrappers
  import opened Engine
  import opened Floor
  import opened Reach
  import opened Ladder

  /** The tile prefab the pool instantiates: its grid, and the children and
      transform every copy starts from. */
  datatype Prefab = Prefab(size: nat, cellSize: real, children: seq<Child>, position: Vector3)

  /** The pool's inspector settings. */
  datatype Settings = Settings(
    poolCount: int, layerGap: real, origin: Vector3, recycleAbovePlayer: real,
    fallSpeed: real, moveSpeed: real, cellSize: real, gridSize: int,
    reachableSlack: real, minRadiusCells: real)

  /** The objects of a tile that placing it may change. */
  function Parts(layer: FloorLayer?): set<object>
  {
    if layer == null then {} else {layer, layer.blocks}
  }

  /** No tile is pooled twice. */
  ghost predicate Distinct(ls: seq<FloorLayer?>)
  {
    forall a, b :: 0 <= a < b < |ls| && ls[a] != null && ls[b] != null ==> ls[a] != ls[b]
  }

  /** Moving tile i of a list without repeats, and no other tile, changes
      the list's heights and placements at i alone. */
  twostate lemma MovedAlone(new layers: seq<FloorLayer?>, i: nat)
    requires old(allocated(layers))
    requires i < |layers| && layers[i] != null && Distinct(layers)
    requires forall j :: 0 <= j < |layers| && layers[j] != null && layers[j] != layers[i] ==>
      layers[j].position == old(layers[j].position)
    ensures Heights(layers) == old(Heights(layers))[i := Some(layers[i].position.y)]
    ensures Spots(layers) == old(Spots(layers))[i := Some((layers[i].position.x, layers[i].position.z))]
  {
    var p := layers[i].position;
    var h0, h1 := old(Heights(layers)), Heights(layers);
    var s0, s1 := old(Spots(layers)), Spots(layers);
    forall j | 0 <= j < |layers|
      ensures h1[j] == h0[i := Some(p.y)][j] && s1[j] == s0[i := Some((p.x, p.z))][j]
    {
      if j < i && layers[j] != null {
        assert layers[j] != layers[i];
      } else if i < j && layers[j] != null {
        assert layers[i] != layers[j];
      }
    }
  }

  /** Changing tile i of a list without repeats, and no other tile, changes
      the list's looks at i alone. */
  twostate lemma LooksAlone(new layers: seq<FloorLayer?>, i: nat)
    requires old(allocated(layers))
    requires i < |layers| && layers[i] != null && Distinct(layers)
    requires forall j :: 0 <= j < |layers| && layers[j] != null && layers[j] != layers[i] ==>
      LookOf(layers[j]) == old(LookOf(layers[j]))
    ensures Looks(layers) == old(Looks(layers))[i := Some(LookOf(layers[i]))]
  {
    forall j | 0 <= j < |layers| && j != i && layers[j] != null
      ensures layers[j] != layers[i]
    {
      if j < i {
        assert layers[j] != layers[i];
      } else {
        assert layers[i] != layers[j];
      }
    }
  }

  /** The latest of a run of picked holes, or the hole (x0, z0) the run
      started from when it is empty. */
  function Last(x0: int, z0: int, picks: seq<(int, int)>): (p: (int, int))
    ensures |picks| == 0 ==> p == (x0, z0)
    ensures |picks| > 0 ==> p in picks
  {
    if |picks| == 0 then (x0, z0) else picks[|picks| - 1]
  }

  /** Where UpdateRecycle's loop stands before visiting tile i, as far as
      the tiles' looks ls go, starting from looks l0 and heights h0: every
      tile not yet recycled looks as it did, and each recycled tile shows
      (when the holes fit, fits) the hole picked for it, the c-th of the
      picks for the c-th recycled tile. */
  ghost predicate Kept(ls: seq<Option<Look>>, l0: seq<Option<Look>>, h0: seq<Option<real>>, i: nat,
                       threshold: real, picks: seq<(int, int)>, fits: bool)
    requires |ls| == |l0| == |h0| && i <= |h0|
  {
    && (forall j :: 0 <= j < |h0| ==> (ls[j].Some? <==> h0[j].Some?))
    && (forall j :: 0 <= j < |h0| && !(j < i && Eligible(h0, j, threshold)) ==> ls[j] == l0[j])
    && |picks| == CountEligible(h0, i, threshold)
    && (forall j :: 0 <= j < i && Eligible(h0, j, threshold) && fits ==>
          && ls[j].Some? && CountEligible(h0, j, threshold) < |picks|
          && (ls[j].value.holeX, ls[j].value.holeZ) == picks[CountEligible(h0, j, threshold)])
  }

  /** One visit of the loop keeps Kept: a tile that is not recycled keeps
      its look, and a recycled one takes a look q showing the hole p picked
      for it. */
  lemma KeptAdvance(ls: seq<Option<Look>>, ls': seq<Option<Look>>, l0: seq<Option<Look>>, h0: seq<Option<real>>,
                    i: nat, threshold: real, picks: seq<(int, int)>, p: (int, int), fits: bool, q: Look)
    requires |ls| == |ls'| == |l0| == |h0| && i < |h0|
    requires Kept(ls, l0, h0, i, threshold, picks, fits)
    requires ls' == if Eligible(h0, i, threshold) then ls[i := Some(q)] else ls
    requires Eligible(h0, i, threshold) && fits ==> (q.holeX, q.holeZ) == p
    ensures Kept(ls', l0, h0, i + 1, threshold, if Eligible(h0, i, threshold) then picks + [p] else picks, fits)
  {
    var e := Eligible(h0, i, threshold);
    var picks' := if e then picks + [p] else picks;
    assert CountEligible(h0, i + 1, threshold) == |picks'|;
    forall j | 0 <= j < i + 1 && Eligible(h0, j, threshold) && fits
      ensures ls'[j].Some? && CountEligible(h0, j, threshold) < |picks'|
      ensures (ls'[j].value.holeX, ls'[j].value.holeZ) == picks'[CountEligible(h0, j, threshold)]
    {
      if j < i {
        assert picks'[CountEligible(h0, j, threshold)] == picks[CountEligible(h0, j, threshold)];
      }
    }
  }

  /** Tile t is the k-th of a run laid out from o one gap apart:
      initialised, over o's x and z, k gaps below o's height. */
  ghost predicate LaidAt(t: FloorLayer?, k: nat, o: Vector3, gap: real)
    reads t
  {
    t != null && t.initialized && t.position == Vector3(o.x, Below(o.y, gap, k), o.z)
  }

  /** Tiles laid out k gaps below o, k = 0, 1, ..., sit at o's x and z,
      k·gap below o's height, and so have the heights of a stack from o's
      height down: a ladder one gap apart. */
  lemma StackOf(layers: seq<FloorLayer?>, o: Vector3, gap: real)
    requires forall k :: 0 <= k < |layers| ==> LaidAt(layers[k], k, o, gap)
    ensures forall k :: 0 <= k < |layers| ==>
      layers[k] != null && layers[k].initialized &&
      layers[k].position == Vector3(o.x, o.y - k as real * gap, o.z)
    ensures Heights(layers) == Stack(o.y, gap, |layers|)
    ensures IsLadder(Heights(layers), gap)
  {
    forall k | 0 <= k < |layers|
      ensures layers[k] != null && layers[k].initialized
      ensures layers[k].position == Vector3(o.x, o.y - k as real * gap, o.z)
      ensures Heights(layers)[k] == Stack(o.y, gap, |layers|)[k]
    {
      assert LaidAt(layers[k], k, o, gap);
      BelowIsMultiple(o.y, gap, k);
      assert gap * k as real == k as real * gap;
    }
    assert Heights(layers) == Stack(o.y, gap, |layers|);
    assert multiset(Heights(layers)) == multiset(Stack(o.y, gap, |layers|));
  }

  class LayerPooler {
    const layerPrefab: Option<Prefab>
    /** The player's transform.position, None when no player is assigned. */
    var player: Option<Vector3>
    const poolCount: int
    const layerGap: real
    const origin: Vector3
    const recycleAbovePlayer: real
    const fallSpeed: real
    const moveSpeed: real
    const cellSize: real
    const gridSize: int
    const reachableSlack: real
    const minRadiusCells: real
    /** The search radius, in cells, of every hole pick. PickNextHole works
        it out from the settings above on each call; they never change, so
        it is the same every time and is worked out once here. */
    const radius: real
    /** UnityEngine.Random's global state. */
    const rng: Random
    /** The pooled tiles in creation order; null for one destroyed elsewhere. */
    var layers: seq<FloorLayer?>
    var lastHoleX: int
    var lastHoleZ: int
    ghost var Repr: set<object>

    /** Every hole corner the pool picks, in [0, gridSize-2], is accepted by
        its tiles. */
    predicate HolesFit()
    {
      layerPrefab.Some? && 2 <= gridSize <= layerPrefab.value.size
    }

    /** A pooled tile as the pool keeps it: initialised, a copy of the
        prefab's grid, and, when the pool's holes fit it, showing exactly its
        recorded hole, a corner the pool can pick. */
    ghost predicate Placed(layer: FloorLayer)
      reads layer, layer.blocks
    {
      && layer.Valid() && layer.initialized
      && layerPrefab.Some? && layer.size == layerPrefab.value.size
      && (HolesFit() ==>
            layer.HoleCut() && layer.holeX <= gridSize - 2 && layer.holeZ <= gridSize - 2)
    }

    ghost predicate Valid()
      reads this, Repr
    {
      && this in Repr && rng in Repr
      && (layerPrefab.Some? ==> layerPrefab.value.size <= MaxInt32)
      && (forall i :: 0 <= i < |layers| && layers[i] != null ==>
            layers[i] in Repr && layers[i].blocks in Repr && Placed(layers[i]))
      && Distinct(layers)
      && (forall i, j :: 0 <= i < j < |layers| && layers[i] != null && layers[j] != null ==>
            layers[i].blocks != layers[j].blocks)
    }

    constructor (layerPrefab: Option<Prefab>, player: Option<Vector3>, s: Settings, seed: nat)
      requires layerPrefab.Some? ==> layerPrefab.value.size <= MaxInt32
      ensures Valid() && fresh(Repr)
      ensures this.layerPrefab == layerPrefab && this.player == player
      ensures poolCount == s.poolCount && layerGap == s.layerGap && origin == s.origin
      ensures recycleAbovePlayer == s.recycleAbovePlayer && fallSpeed == s.fallSpeed
      ensures moveSpeed == s.moveSpeed && cellSize == s.cellSize && gridSize == s.gridSize
      ensures reachableSlack == s.reachableSlack && minRadiusCells == s.minRadiusCells
      ensures radius == SearchRadius(Kinematics(layerGap, fallSpeed, moveSpeed, reachableSlack, cellSize, minRadiusCells))
      ensures layers == [] && lastHoleX == 4 && lastHoleZ == 4
    {
      this.layerPrefab := layerPrefab;
      this.player := player;
      poolCount := s.poolCount;
      layerGap := s.layerGap;
      origin := s.origin;
      recycleAbovePlayer := s.recycleAbovePlayer;
      fallSpeed := s.fallSpeed;
      moveSpeed := s.moveSpeed;
      cellSize := s.cellSize;
      gridSize := s.gridSize;
      reachableSlack := s.reachableSlack;
      minRadiusCells := s.minRadiusCells;
      radius := SearchRadius(Kinematics(s.layerGap, s.fallSpeed, s.moveSpeed, s.reachableSlack, s.cellSize, s.minRadiusCells));
      var r := new Random(seed);
      rng := r;
      layers := [];
      lastHoleX, lastHoleZ := 4, 4;
      Repr := {this, r};
    }

    /** A hole picked after the last of a run of picks extends the run. */
    lemma ChainGrow(x0: int, z0: int, picks: seq<(int, int)>, p: (int, int))
      requires Chain(x0, z0, picks) && Picked(Last(x0, z0, picks).0, Last(x0, z0, picks).1, p.0, p.1)
      ensures Chain(x0, z0, picks + [p]) && Last(x0, z0, picks + [p]) == p
    {
      assert (picks + [p])[..|picks|] == picks;
    }

    /** What PickNextHole promises about a hole (hx, hz) picked after the
        hole (fromX, fromZ): it is one of the candidates when there are any,
        a valid corner, and within reach of a valid previous hole. */
    ghost predicate Picked(fromX: int, fromZ: int, hx: int, hz: int)
    {
      var max := gridSize - 2;
      var cs := Candidates(fromX, fromZ, radius, max);
      && (|cs| > 0 ==> (hx, hz) in cs)
      && (0 <= max ==> 0 <= hx <= max && 0 <= hz <= max)
      && (0 <= fromX <= max && 0 <= fromZ <= max && 0.0 <= radius ==>
            Within(hx, hz, fromX, fromZ, radius))
    }

    /** A run of picked holes, each one picked, as PickNextHole promises,
        after the one before it, the first after (x0, z0). */
    ghost predicate Chain(x0: int, z0: int, picks: seq<(int, int)>)
      decreases |picks|
    {
      |picks| == 0 ||
        var n := |picks| - 1;
        && Chain(x0, z0, picks[..n])
        && Picked(Last(x0, z0, picks[..n]).0, Last(x0, z0, picks[..n]).1, picks[n].0, picks[n].1)
    }

    /** Picks the next hole corner near the previous one: uniformly among
        the candidates, or anywhere on the grid when there are none. */
    method PickNextHole() returns (hx: int, hz: int)
      modifies this`lastHoleX, this`lastHoleZ, rng
      ensures hx == lastHoleX && hz == lastHoleZ
      ensures Picked(old(lastHoleX), old(lastHoleZ), hx, hz)
    {
      var max := gridSize - 2;
      var fromX, fromZ := lastHoleX, lastHoleZ;
      var rCells := radius;
      var candidates := CollectCandidates(fromX, fromZ, rCells, max);
      if |candidates| == 0 {
        hx := rng.Range(0, max + 1);
        hz := rng.Range(0, max + 1);
      } else {
        var k := rng.Range(0, |candidates|);
        hx, hz := candidates[k].0, candidates[k].1;
      }
      lastHoleX, lastHoleZ := hx, hz;
      if 0 <= max {
        CandidatesValid(fromX, fromZ, rCells, max);
        if 0 <= fromX <= max && 0 <= fromZ <= max && 0.0 <= rCells {
          PreviousHoleIsCandidate(fromX, fromZ, rCells, max);
        }
      }
    }

    /** The height of the lowest present tile, or origin.y when there is none. */
    method GetMinLayerY() returns (minY: real)
      ensures minY == MinLayerY(Heights(layers), origin.y)
    {
      var lowest: Option<real> := None;
      for i := 0 to |layers|
        invariant lowest == Lowest(Heights(layers[..i]))
      {
        assert Heights(layers[..i + 1])[..i] == Heights(layers[..i]);
        if layers[i] == null {
          continue;
        }
        var y := layers[i].position.y;
        lowest := if lowest.None? then Some(y) else Some(Min(lowest.value, y));
      }
      assert layers[..|layers|] == layers;
      minY := if lowest.None? then origin.y else lowest.value;
    }

    /** A tile RecycleLayer may be handed: none, one of the pool's, or a
        valid tile sharing nothing with the pool. */
    ghost predicate Recyclable(layer: FloorLayer?)
      reads this, Repr, Parts(layer)
    {
      layer == null || (layer.Valid() && (layer in layers || (layer !in Repr && layer.blocks !in Repr)))
    }

    /** Moving and re-holing one recyclable tile keeps the pool valid and
        leaves every other pooled tile where it was. */
    twostate lemma Moved(layer: FloorLayer)
      requires old(Valid()) && old(Recyclable(layer))
      requires layers == old(layers) && Repr == old(Repr)
      requires unchanged(Repr - Parts(layer) - {this, rng})
      requires layer.Valid() && layer.initialized
      requires layer in layers && HolesFit() ==>
        layer.HoleCut() && layer.holeX <= gridSize - 2 && layer.holeZ <= gridSize - 2
      ensures Valid()
      ensures forall j :: 0 <= j < |layers| && layers[j] != null && layers[j] != layer ==>
        layers[j].position == old(layers[j].position) && LookOf(layers[j]) == old(LookOf(layers[j]))
    {
      var rest := Repr - Parts(layer) - {this, rng};
      forall j | 0 <= j < |layers| && layers[j] != null && layers[j] != layer
        ensures layers[j].position == old(layers[j].position) && Placed(layers[j])
        ensures LookOf(layers[j]) == old(LookOf(layers[j]))
      {
        var other := layers[j];
        if layer in layers {
          var k :| 0 <= k < |layers| && layers[k] == layer;
          assert k != j;
          assert other.blocks != layer.blocks;
        }
        assert other in rest;
        assert other.blocks as object != this as object && other.blocks as object != rng as object;
        assert other.blocks in rest;
        assert old(Placed(other));
      }
    }

    /** Puts a tile at height y over the origin's x and z, picks the next
        hole and cuts it in the tile: the steps RecycleLayer and
        InitializePool share once they have chosen the height. */
    method Place(layer: FloorLayer, y: real)
      requires Valid() && Recyclable(layer)
      modifies this`lastHoleX, this`lastHoleZ, rng, layer, layer.blocks
      ensures Valid()
      ensures Picked(old(lastHoleX), old(lastHoleZ), lastHoleX, lastHoleZ)
      ensures layer.position == Vector3(origin.x, y, origin.z)
      ensures layer.Valid() && layer.initialized
      ensures 0 <= lastHoleX <= layer.size - 2 && 0 <= lastHoleZ <= layer.size - 2 ==>
        layer.holeX == lastHoleX && layer.holeZ == lastHoleZ && layer.HoleCut()
      ensures forall j :: 0 <= j < |layers| && layers[j] != null && layers[j] != layer ==>
        layers[j].position == old(layers[j].position) && LookOf(layers[j]) == old(LookOf(layers[j]))
    {
      if layer in layers {
        var k :| 0 <= k < |layers| && layers[k] == layer;
        assert Placed(layers[k]);
      }
      layer.position := Vector3(origin.x, y, origin.z);
      assert unchanged(Repr - Parts(layer) - {this, rng});
      var hx, hz := PickNextHole();
      assert unchanged(Repr - Parts(layer) - {this, rng});
      var applied := layer.ApplyHole2x2(hx, hz);
      assert unchanged(Repr - Parts(layer) - {this, rng});
      if layer in layers && HolesFit() {
        assert hx <= layer.size - 2 && hz <= layer.size - 2;
      }
      Moved(layer);
    }

    /** Sends a tile one gap below the lowest tile of the pool, at the
        origin's x and z, and cuts a freshly picked hole in it; every other
        tile stays where it was. */
    method RecycleLayer(layer: FloorLayer?)
      requires Valid() && Recyclable(layer)
      modifies this`lastHoleX, this`lastHoleZ, rng, Parts(layer)
      ensures Valid()
      ensures layer == null || |layers| == 0 ==>
        lastHoleX == old(lastHoleX) && lastHoleZ == old(lastHoleZ) && unchanged(rng) && unchanged(Parts(layer))
      ensures layer != null && |layers| > 0 ==>
        && Picked(old(lastHoleX), old(lastHoleZ), lastHoleX, lastHoleZ)
        && layer.position == Vector3(origin.x, MinLayerY(old(Heights(layers)), origin.y) - layerGap, origin.z)
        && layer.Valid() && layer.initialized
      ensures forall j :: 0 <= j < |layers| && layers[j] != null && layers[j] != layer ==>
        layers[j].position == old(layers[j].position) && LookOf(layers[j]) == old(LookOf(layers[j]))
      ensures layer != null && |layers| > 0 && 0 <= lastHoleX <= layer.size - 2 && 0 <= lastHoleZ <= layer.size - 2 ==>
        layer.holeX == lastHoleX && layer.holeZ == lastHoleZ && layer.HoleCut()
    {
      if layer != null && |layers| > 0 {
        ghost var h := Heights(layers);
        var minY := GetMinLayerY();
        assert minY == MinLayerY(h, origin.y);
        var newY := minY - layerGap;
        Place(layer, newY);
      }
    }

    /** One visit of UpdateRecycle's loop: tile i is recycled when it is
        present and higher than the threshold, with a freshly picked hole;
        otherwise nothing changes. No other tile changes either way. */
    method Visit(i: nat, threshold: real)
      requires Valid() && i < |layers|
      modifies this`lastHoleX, this`lastHoleZ, Repr - {this}
      ensures Valid()
      ensures Heights(layers) == Step(old(Heights(layers)), i, threshold, layerGap, origin.y)
      ensures Spots(layers) == if Eligible(old(Heights(layers)), i, threshold)
        then old(Spots(layers))[i := Some((origin.x, origin.z))] else old(Spots(layers))
      ensures Looks(layers) == if Eligible(old(Heights(layers)), i, threshold)
        then old(Looks(layers))[i := Some(LookOf(layers[i]))] else old(Looks(layers))
      ensures Eligible(old(Heights(layers)), i, threshold) ==>
        && layers[i] != null && Picked(old(lastHoleX), old(lastHoleZ), lastHoleX, lastHoleZ)
        && (HolesFit() ==> layers[i].holeX == lastHoleX && layers[i].holeZ == lastHoleZ)
      ensures !Eligible(old(Heights(layers)), i, threshold) ==>
        lastHoleX == old(lastHoleX) && lastHoleZ == old(lastHoleZ) && unchanged(Repr - {this})
    {
      var layer := layers[i];
      if layer != null && layer.position.y > threshold {
        RecycleAt(i);
      }
    }

    /** Recycling the tile at index i of the pool: its height becomes one gap
        below the lowest, its x and z the origin's, it shows a freshly picked
        hole, and no other tile changes. */
    method RecycleAt(i: nat)
      requires Valid() && i < |layers| && layers[i] != null
      modifies this`lastHoleX, this`lastHoleZ, Repr - {this}
      ensures Valid()
      ensures Heights(layers) == Recycle(old(Heights(layers)), i, layerGap, origin.y)
      ensures Spots(layers) == old(Spots(layers))[i := Some((origin.x, origin.z))]
      ensures Looks(layers) == old(Looks(layers))[i := Some(LookOf(layers[i]))]
      ensures Picked(old(lastHoleX), old(lastHoleZ), lastHoleX, lastHoleZ)
      ensures HolesFit() ==> layers[i].holeX == lastHoleX && layers[i].holeZ == lastHoleZ
    {
      var layer := layers[i];
      assert layer as object != this as object && layer.blocks as object != this as object;
      assert Distinct(layers);
      ghost var h0 := Heights(layers);
      ghost var y := MinLayerY(h0, origin.y) - layerGap;
      assert Recycle(h0, i, layerGap, origin.y) == h0[i := Some(y)];
      RecycleLayer(layer);
      assert layer.position.y == y;
      if HolesFit() {
        assert layer.size == layerPrefab.value.size;
        assert 0 <= lastHoleX <= layer.size - 2 && 0 <= lastHoleZ <= layer.size - 2;
      }
      MovedAlone(layers, i);
      LooksAlone(layers, i);
    }

    /** Where UpdateRecycle's loop stands before visiting tile i, starting
        from heights h0 and placements s0: the rest of the pass leads where
        the whole pass would, the tiles from i on are as they were, and the
        tiles before i that were recycled sit at the origin's x and z. */
    ghost predicate Passing(i: nat, threshold: real, h0: seq<Option<real>>, s0: seq<Option<(real, real)>>)
      requires |h0| == |s0| == |layers|
      reads this, layers
    {
      OnCourse(Heights(layers), Spots(layers), i, threshold, layerGap, origin.y, origin.x, origin.z, h0, s0)
    }

    /** The holes picked during the loop so far, from the hole (x0, z0) the
        loop started from, and their place in the tiles, as Kept says. */
    ghost predicate Picking(i: nat, threshold: real, h0: seq<Option<real>>, l0: seq<Option<Look>>,
                            x0: int, z0: int, picks: seq<(int, int)>)
      requires |h0| == |l0| == |layers| && i <= |layers|
      reads this, layers, Grids(layers)
    {
      && Kept(Looks(layers), l0, h0, i, threshold, picks, HolesFit())
      && Chain(x0, z0, picks) && (lastHoleX, lastHoleZ) == Last(x0, z0, picks)
    }

    /** One turn of UpdateRecycle's loop keeps it on course, adding the
        hole it picks, if it recycles, to the run of picks. */
    method Advance(i: nat, threshold: real, ghost h0: seq<Option<real>>, ghost s0: seq<Option<(real, real)>>,
                   ghost l0: seq<Option<Look>>, ghost x0: int, ghost z0: int, ghost picks: seq<(int, int)>)
      returns (ghost picks': seq<(int, int)>)
      requires Valid() && |h0| == |s0| == |l0| == |layers| && i < |layers|
      requires Passing(i, threshold, h0, s0) && Picking(i, threshold, h0, l0, x0, z0, picks)
      modifies this`lastHoleX, this`lastHoleZ, Repr - {this}
      ensures Valid() && |h0| == |s0| == |l0| == |layers|
      ensures Passing(i + 1, threshold, h0, s0) && Picking(i + 1, threshold, h0, l0, x0, z0, picks')
    {
      ghost var hs, ls := Heights(layers), Looks(layers);
      OnCourseStep(hs, Spots(layers), i, threshold, layerGap, origin.y, origin.x, origin.z, h0, s0);
      ghost var e := Eligible(h0, i, threshold);
      ghost var from := (lastHoleX, lastHoleZ);
      Visit(i, threshold);
      ghost var p, ls' := (lastHoleX, lastHoleZ), Looks(layers);
      ghost var q := if layers[i] != null then LookOf(layers[i]) else Look(false, 0, 0, []);
      picks' := if e then picks + [p] else picks;
      if e {
        ChainGrow(x0, z0, picks, p);
      }
      KeptAdvance(ls, ls', l0, h0, i, threshold, picks, p, HolesFit(), q);
    }

    /** UpdateRecycle's loop: visits the tiles in list order and recycles
        each one present and higher than the threshold when it is visited.
        The tiles it leaves in place do not change; the c-th tile it
        recycles shows the c-th of the holes it picks, each picked after
        the one before. */
    method RecycleAbove(threshold: real) returns (ghost picks: seq<(int, int)>)
      requires Valid()
      modifies this`lastHoleX, this`lastHoleZ, Repr - {this}
      ensures Valid()
      ensures Heights(layers) == Pass(old(Heights(layers)), 0, threshold, layerGap, origin.y)
      ensures Spots(layers) == Regrid(old(Spots(layers)), old(Heights(layers)), |layers|, threshold, origin.x, origin.z)
      ensures forall j :: 0 <= j < |layers| && !Eligible(old(Heights(layers)), j, threshold) ==>
        Looks(layers)[j] == old(Looks(layers))[j]
      ensures |picks| == CountEligible(old(Heights(layers)), |layers|, threshold)
      ensures Chain(old(lastHoleX), old(lastHoleZ), picks)
      ensures (lastHoleX, lastHoleZ) == Last(old(lastHoleX), old(lastHoleZ), picks)
      ensures forall j :: 0 <= j < |layers| && Eligible(old(Heights(layers)), j, threshold) && HolesFit() ==>
        && layers[j] != null && CountEligible(old(Heights(layers)), j, threshold) < |picks|
        && (layers[j].holeX, layers[j].holeZ) == picks[CountEligible(old(Heights(layers)), j, threshold)]
      ensures StackLowered(old(Heights(layers)), Heights(layers), layerGap, CountEligible(old(Heights(layers)), |layers|, threshold))
    {
      ghost var h0, s0, l0 := Heights(layers), Spots(layers), Looks(layers);
      picks := VisitAll(threshold, h0, s0, l0, lastHoleX, lastHoleZ);
      assert Pass(Heights(layers), |layers|, threshold, layerGap, origin.y) == Heights(layers);
      HolesShown(threshold, h0, l0, picks);
      PassShiftsStacks(h0, layerGap, threshold, origin.y);
    }

    /** The loop of RecycleAbove, from where it starts to where it ends. */
    method VisitAll(threshold: real, ghost h0: seq<Option<real>>, ghost s0: seq<Option<(real, real)>>,
                    ghost l0: seq<Option<Look>>, ghost x0: int, ghost z0: int)
      returns (ghost picks: seq<(int, int)>)
      requires Valid() && |h0| == |s0| == |l0| == |layers|
      requires Passing(0, threshold, h0, s0) && Picking(0, threshold, h0, l0, x0, z0, [])
      modifies this`lastHoleX, this`lastHoleZ, Repr - {this}
      ensures Valid() && |h0| == |s0| == |l0| == |layers|
      ensures Passing(|layers|, threshold, h0, s0) && Picking(|layers|, threshold, h0, l0, x0, z0, picks)
    {
      picks := [];
      for i := 0 to |layers|
        invariant Valid() && |h0| == |s0| == |l0| == |layers|
        invariant Passing(i, threshold, h0, s0) && Picking(i, threshold, h0, l0, x0, z0, picks)
      {
        picks := Advance(i, threshold, h0, s0, l0, x0, z0, picks);
      }
    }

    /** At the end of the loop, the c-th tile recycled shows the c-th pick. */
    lemma HolesShown(threshold: real, h0: seq<Option<real>>, l0: seq<Option<Look>>, picks: seq<(int, int)>)
      requires |h0| == |l0| == |layers| && Kept(Looks(layers), l0, h0, |layers|, threshold, picks, HolesFit())
      ensures forall j :: 0 <= j < |layers| && Eligible(h0, j, threshold) && HolesFit() ==>
        && layers[j] != null && CountEligible(h0, j, threshold) < |picks|
        && (layers[j].holeX, layers[j].holeZ) == picks[CountEligible(h0, j, threshold)]
    {
      forall j | 0 <= j < |layers| && Eligible(h0, j, threshold) && HolesFit()
        ensures layers[j] != null && (layers[j].holeX, layers[j].holeZ) == picks[CountEligible(h0, j, threshold)]
      {
        assert Looks(layers)[j].Some?;
      }
    }

    /** The pool refuses to lay out tiles: no prefab, no tiles asked for,
        no gap between them, or tiles laid out already. */
    predicate Refused()
      reads this
    {
      layerPrefab.None? || poolCount <= 0 || layerGap <= 0.0 || |layers| > 0
    }

    /** Lays out poolCount copies of the prefab one gap apart from the
        origin down, each over the origin's x and z with its own hole; a
        refused call changes nothing. The holes are a run of picks from the
        last hole, the k-th tile showing the k-th when the holes fit, so the
        bottom tile shows the hole the next recycled tile is picked after. */
    method InitializePool() returns (ghost picks: seq<(int, int)>)
      requires Valid()
      modifies this`layers, this`Repr, this`lastHoleX, this`lastHoleZ, rng
      ensures Valid()
      ensures old(Refused()) ==>
        layers == old(layers) && lastHoleX == old(lastHoleX) && lastHoleZ == old(lastHoleZ) && unchanged(rng)
        && picks == []
      ensures !old(Refused()) ==> |layers| == poolCount && fresh(Repr - old(Repr))
      ensures !old(Refused()) ==> forall k :: 0 <= k < |layers| ==>
        layers[k] != null && fresh(layers[k]) && layers[k].initialized &&
        layers[k].position == Vector3(origin.x, origin.y - k as real * layerGap, origin.z)
      ensures !old(Refused()) ==> Heights(layers) == Stack(origin.y, layerGap, poolCount)
      ensures !old(Refused()) ==> IsLadder(Heights(layers), layerGap)
      ensures !old(Refused()) ==>
        && |picks| == poolCount
        && Chain(old(lastHoleX), old(lastHoleZ), picks)
        && (lastHoleX, lastHoleZ) == Last(old(lastHoleX), old(lastHoleZ), picks)
        && (HolesFit() ==> forall k :: 0 <= k < |layers| ==>
              layers[k] != null && (layers[k].holeX, layers[k].holeZ) == picks[k])
    {
      picks := [];
      if layerPrefab.None? || poolCount <= 0 || layerGap <= 0.0 || |layers| > 0 {
        return;
      }
      picks := LayAll();
      StackOf(layers, origin, layerGap);
    }

    /** Where InitializePool's loop stands before laying tile i, from the
        hole (x0, z0) it started after: i tiles laid one gap apart from the
        origin down, the holes picked so far a run from (x0, z0) ending at
        the last hole, and tile k showing the k-th when the holes fit. */
    ghost predicate Laying(i: nat, x0: int, z0: int, picks: seq<(int, int)>)
      reads this, layers
    {
      && |layers| == i && |picks| == i
      && (forall k :: 0 <= k < i ==> LaidAt(layers[k], k, origin, layerGap))
      && Chain(x0, z0, picks) && (lastHoleX, lastHoleZ) == Last(x0, z0, picks)
      && (HolesFit() ==> forall k :: 0 <= k < i ==>
            layers[k] != null && (layers[k].holeX, layers[k].holeZ) == picks[k])
    }

    /** InitializePool's loop, from where it starts to where it ends. */
    method LayAll() returns (ghost picks: seq<(int, int)>)
      requires Valid() && layerPrefab.Some? && poolCount > 0 && |layers| == 0
      modifies this`layers, this`Repr, this`lastHoleX, this`lastHoleZ, rng
      ensures Valid() && fresh(Repr - old(Repr))
      ensures Laying(poolCount, old(lastHoleX), old(lastHoleZ), picks)
      ensures forall k :: 0 <= k < |layers| ==> fresh(layers[k])
    {
      picks := [];
      ghost var x0, z0 := lastHoleX, lastHoleZ;
      for i := 0 to poolCount
        invariant Valid() && fresh(Repr - old(Repr))
        invariant Laying(i, x0, z0, picks)
        invariant forall k :: 0 <= k < |layers| ==> fresh(layers[k])
      {
        picks := LayNext(i, x0, z0, picks);
      }
    }

    /** One turn of InitializePool's loop keeps it laying, adding the hole
        it picks to the run of picks. */
    method LayNext(i: nat, ghost x0: int, ghost z0: int, ghost picks: seq<(int, int)>)
      returns (ghost picks': seq<(int, int)>)
      requires Valid() && layerPrefab.Some? && Laying(i, x0, z0, picks)
      modifies this`layers, this`Repr, this`lastHoleX, this`lastHoleZ, rng
      ensures Valid() && fresh(Repr - old(Repr))
      ensures Laying(i + 1, x0, z0, picks')
      ensures layers[..i] == old(layers) && fresh(layers[i])
    {
      LayTile(i);
      ghost var p := (lastHoleX, lastHoleZ);
      ChainGrow(x0, z0, picks, p);
      picks' := picks + [p];
      if HolesFit() {
        forall k | 0 <= k < i + 1
          ensures layers[k] != null && (layers[k].holeX, layers[k].holeZ) == picks'[k]
        {
          if k < i {
            assert layers[k] == old(layers)[k];
            assert old(LookOf(layers[k])).holeX == old(layers[k].holeX);
            assert old(LookOf(layers[k])).holeZ == old(layers[k].holeZ);
          }
        }
      }
    }

    /** One turn of InitializePool's loop: a new copy of the prefab, placed
        i gaps below the origin with its own hole, joins the pool's list. */
    method LayTile(i: nat)
      requires Valid() && layerPrefab.Some? && |layers| == i
      modifies this`layers, this`Repr, this`lastHoleX, this`lastHoleZ, rng
      ensures Valid() && fresh(Repr - old(Repr))
      ensures |layers| == i + 1 && layers[..i] == old(layers)
      ensures layers[i] != null && fresh(layers[i]) && layers[i].initialized
      ensures LaidAt(layers[i], i, origin, layerGap)
      ensures forall k :: 0 <= k < i && layers[k] != null ==>
        layers[k].position == old(layers[k].position) && LookOf(layers[k]) == old(LookOf(layers[k]))
      ensures Picked(old(lastHoleX), old(lastHoleZ), lastHoleX, lastHoleZ)
      ensures HolesFit() ==> layers[i].holeX == lastHoleX && layers[i].holeZ == lastHoleZ
    {
      var prefab := layerPrefab.value;
      var layer := new FloorLayer(prefab.size, prefab.cellSize, prefab.children, prefab.position);
      // Awake; the explicit Initialize call that follows the placement in
      // the script finds the tile initialised and changes nothing.
      layer.Initialize();
      var y := origin.y - i as real * layerGap;
      BelowIsMultiple(origin.y, layerGap, i);
      assert y == Below(origin.y, layerGap, i) by {
        assert layerGap * i as real == i as real * layerGap;
      }
      Place(layer, y);
      AddLayer(layer);
    }

    /** The pool's list takes in a placed tile that shares nothing with it. */
    method AddLayer(layer: FloorLayer)
      requires Valid() && layer !in Repr && layer.blocks !in Repr
      requires layer.Valid() && layer.initialized
      requires layerPrefab.Some? && layer.size == layerPrefab.value.size
      requires HolesFit() ==> layer.HoleCut() && layer.holeX <= gridSize - 2 && layer.holeZ <= gridSize - 2
      modifies this`layers, this`Repr
      ensures Valid()
      ensures layers == old(layers) + [layer] && Repr == old(Repr) + {layer, layer.blocks}
    {
      layers := layers + [layer];
      Repr := Repr + {layer, layer.blocks};
      assert Placed(layer);
    }

    /** Recycles, in list order, every pooled tile that has risen more than
        recycleAbovePlayer above the player; nothing happens without a
        player or with an empty pool. The tiles left in place do not change,
        and each recycled tile shows its own hole from the run of picks. */
    method UpdateRecycle() returns (ghost picks: seq<(int, int)>)
      requires Valid()
      modifies this`lastHoleX, this`lastHoleZ, Repr - {this}
      ensures Valid()
      ensures player.None? || |layers| == 0 ==>
        lastHoleX == old(lastHoleX) && lastHoleZ == old(lastHoleZ) && unchanged(Repr - {this}) && picks == []
      ensures player.Some? ==>
        var threshold := player.value.y + recycleAbovePlayer;
        var h0 := old(Heights(layers));
        && Heights(layers) == Pass(h0, 0, threshold, layerGap, origin.y)
        && Spots(layers) == Regrid(old(Spots(layers)), h0, |layers|, threshold, origin.x, origin.z)
        && (forall j :: 0 <= j < |layers| && !Eligible(h0, j, threshold) ==>
              Looks(layers)[j] == old(Looks(layers))[j])
        && |picks| == CountEligible(h0, |layers|, threshold)
        && Chain(old(lastHoleX), old(lastHoleZ), picks)
        && (lastHoleX, lastHoleZ) == Last(old(lastHoleX), old(lastHoleZ), picks)
        && (forall j :: 0 <= j < |layers| && Eligible(h0, j, threshold) && HolesFit() ==>
              && layers[j] != null && CountEligible(h0, j, threshold) < |picks|
              && (layers[j].holeX, layers[j].holeZ) == picks[CountEligible(h0, j, threshold)])
        && StackLowered(h0, Heights(layers), layerGap, CountEligible(h0, |layers|, threshold))
    {
      if player.None? || |layers| == 0 {
        return [];
      }
      var threshold := player.value.y + recycleAbovePlayer;
      picks := RecycleAbove(threshold);
    }
  }
}
