/** The earlier version of the pool: the same layout and recycling, but a
    hole corner drawn uniformly from [0, 8]² with no regard to the previous
    hole, and a pool that refuses to lay out tiles without a player. */
module LegacyPooler {
  import opened Wrappers
  import opened Engine
  import opened Floor
  import opened Ladder
  import Pooler

  /** The largest hole corner the uniform pick draws: Random.Range(0, 9)
      excludes 9, which suits the 10×10 tile the pool is written for. */
  const MaxCorner := 8

  /** The pool's inspector settings. */
  datatype Settings = Settings(poolCount: int, layerGap: real, origin: Vector3, recycleAbovePlayer: real)

  class LayerPooler {
    const layerPrefab: Option<Pooler.Prefab>
    /** The player's transform.position, None when no player is assigned. */
    var player: Option<Vector3>
    const poolCount: int
    const layerGap: real
    const origin: Vector3
    const recycleAbovePlayer: real
    /** UnityEngine.Random's global state. */
    const rng: Random
    /** The pooled tiles in creation order; null for one destroyed elsewhere. */
    var layers: seq<FloorLayer?>
    var lastHoleX: int
    var lastHoleZ: int
    ghost var Repr: set<object>

    /** Every corner the uniform pick draws is accepted by the pool's tiles. */
    predicate HolesFit()
    {
      layerPrefab.Some? && MaxCorner + 2 <= layerPrefab.value.size
    }

    /** A pooled tile as the pool keeps it: initialised, a copy of the
        prefab's grid, and, when the pool's holes fit it, showing exactly its
        recorded hole, a corner the pool can pick. */
    ghost predicate Placed(layer: FloorLayer)
      reads layer, layer.blocks
    {
      && layer.Valid() && layer.initialized
      && layerPrefab.Some? && layer.size == layerPrefab.value.size
      && (HolesFit() ==> layer.HoleCut() && layer.holeX <= MaxCorner && layer.holeZ <= MaxCorner)
    }

    ghost predicate Valid()
      reads this, Repr
    {
      && this in Repr && rng in Repr
      && (layerPrefab.Some? ==> layerPrefab.value.size <= MaxInt32)
      && (forall i :: 0 <= i < |layers| && layers[i] != null ==>
            layers[i] in Repr && layers[i].blocks in Repr && Placed(layers[i]))
      && Pooler.Distinct(layers)
      && (forall i, j :: 0 <= i < j < |layers| && layers[i] != null && layers[j] != null ==>
            layers[i].blocks != layers[j].blocks)
    }

    constructor (layerPrefab: Option<Pooler.Prefab>, player: Option<Vector3>, s: Settings, seed: nat)
      requires layerPrefab.Some? ==> layerPrefab.value.size <= MaxInt32
      ensures Valid() && fresh(Repr)
      ensures this.layerPrefab == layerPrefab && this.player == player
      ensures poolCount == s.poolCount && layerGap == s.layerGap && origin == s.origin
      ensures recycleAbovePlayer == s.recycleAbovePlayer
      ensures layers == [] && lastHoleX == 4 && lastHoleZ == 4
    {
      this.layerPrefab := layerPrefab;
      this.player := player;
      poolCount := s.poolCount;
      layerGap := s.layerGap;
      origin := s.origin;
      recycleAbovePlayer := s.recycleAbovePlayer;
      var r := new Random(seed);
      rng := r;
      layers := [];
      lastHoleX, lastHoleZ := 4, 4;
      Repr := {this, r};
    }

    /** Draws the next hole corner uniformly from [0, 8]² and records it. */
    method PickNextHole() returns (hx: int, hz: int)
      modifies this`lastHoleX, this`lastHoleZ, rng
      ensures 0 <= hx <= MaxCorner && 0 <= hz <= MaxCorner
      ensures hx == lastHoleX && hz == lastHoleZ
    {
      hx := rng.Range(0, MaxCorner + 1);
      hz := rng.Range(0, MaxCorner + 1);
      lastHoleX, lastHoleZ := hx, hz;
    }

    /** The height of the lowest present tile, or origin.y when there is none. */
    method GetMinLayerY() returns (minY: real)
      ensures minY == MinLayerY(Heights(layers), origin.y)
    {
      var lowest: Option<real> := None;
      for i := 0 to |layers|
        invariant lowest == Lowest(Heights(layers[..i]))
      {
        assert Heights(layers[..i + 1])[..i] == Heights(layers[..i]);
        if layers[i] == null {
          continue;
        }
        var y := layers[i].position.y;
        lowest := if lowest.None? then Some(y) else Some(Min(lowest.value, y));
      }
      assert layers[..|layers|] == layers;
      minY := if lowest.None? then origin.y else lowest.value;
    }

    /** A tile RecycleLayer may be handed: none, one of the pool's, or a
        valid tile sharing nothing with the pool. */
    ghost predicate Recyclable(layer: FloorLayer?)
      reads this, Repr, Pooler.Parts(layer)
    {
      layer == null || (layer.Valid() && (layer in layers || (layer !in Repr && layer.blocks !in Repr)))
    }

    /** Moving and re-holing one recyclable tile keeps the pool valid and
        leaves every other pooled tile where it was. */
    twostate lemma Moved(layer: FloorLayer)
      requires old(Valid()) && old(Recyclable(layer))
      requires layers == old(layers) && Repr == old(Repr)
      requires unchanged(Repr - Pooler.Parts(layer) - {this, rng})
      requires layer.Valid() && layer.initialized
      requires layer in layers && HolesFit() ==>
        layer.HoleCut() && layer.holeX <= MaxCorner && layer.holeZ <= MaxCorner
      ensures Valid()
      ensures forall j :: 0 <= j < |layers| && layers[j] != null && layers[j] != layer ==>
        layers[j].position == old(layers[j].position) && LookOf(layers[j]) == old(LookOf(layers[j]))
    {
      var rest := Repr - Pooler.Parts(layer) - {this, rng};
      forall j | 0 <= j < |layers| && layers[j] != null && layers[j] != layer
        ensures layers[j].position == old(layers[j].position) && Placed(layers[j])
        ensures LookOf(layers[j]) == old(LookOf(layers[j]))
      {
        var other := layers[j];
        if layer in layers {
          var k :| 0 <= k < |layers| && layers[k] == layer;
          assert k != j;
          assert other.blocks != layer.blocks;
        }
        assert other in rest;
        assert other.blocks as object != this as object && other.blocks as object != rng as object;
        assert other.blocks in rest;
        assert old(Placed(other));
      }
    }

    /** Puts a tile at height y over the origin's x and z, draws the next
        hole and cuts it in the tile: the steps RecycleLayer and
        InitializePool share once they have chosen the height. */
    method Place(layer: FloorLayer, y: real)
      requires Valid() && Recyclable(layer)
      modifies this`lastHoleX, this`lastHoleZ, rng, layer, layer.blocks
      ensures Valid()
      ensures 0 <= lastHoleX <= MaxCorner && 0 <= lastHoleZ <= MaxCorner
      ensures layer.position == Vector3(origin.x, y, origin.z)
      ensures layer.Valid() && layer.initialized
      ensures MaxCorner + 2 <= layer.size ==>
        layer.holeX == lastHoleX && layer.holeZ == lastHoleZ && layer.HoleCut()
      ensures forall j :: 0 <= j < |layers| && layers[j] != null && layers[j] != layer ==>
        layers[j].position == old(layers[j].position) && LookOf(layers[j]) == old(LookOf(layers[j]))
    {
      if layer in layers {
        var k :| 0 <= k < |layers| && layers[k] == layer;
        assert Placed(layers[k]);
      }
      layer.position := Vector3(origin.x, y, origin.z);
      assert unchanged(Repr - Pooler.Parts(layer) - {this, rng});
      var hx, hz := PickNextHole();
      assert unchanged(Repr - Pooler.Parts(layer) - {this, rng});
      var applied := layer.ApplyHole2x2(hx, hz);
      assert unchanged(Repr - Pooler.Parts(layer) - {this, rng});
      Moved(layer);
    }

    /** Sends a tile one gap below the lowest tile of the pool, at the
        origin's x and z, and cuts a freshly drawn hole in it; every other
        tile stays where it was. */
    method RecycleLayer(layer: FloorLayer?)
      requires Valid() && Recyclable(layer)
      modifies this`lastHoleX, this`lastHoleZ, rng, Pooler.Parts(layer)
      ensures Valid()
      ensures layer == null || |layers| == 0 ==>
        lastHoleX == old(lastHoleX) && lastHoleZ == old(lastHoleZ) && unchanged(rng) && unchanged(Pooler.Parts(layer))
      ensures layer != null && |layers| > 0 ==>
        && 0 <= lastHoleX <= MaxCorner && 0 <= lastHoleZ <= MaxCorner
        && layer.position == Vector3(origin.x, MinLayerY(old(Heights(layers)), origin.y) - layerGap, origin.z)
        && layer.Valid() && layer.initialized
      ensures forall j :: 0 <= j < |layers| && layers[j] != null && layers[j] != layer ==>
        layers[j].position == old(layers[j].position) && LookOf(layers[j]) == old(LookOf(layers[j]))
      ensures layer != null && |layers| > 0 && MaxCorner + 2 <= layer.size ==>
        layer.holeX == lastHoleX && layer.holeZ == lastHoleZ && layer.HoleCut()
    {
      if layer != null && |layers| > 0 {
        ghost var h := Heights(layers);
        var minY := GetMinLayerY();
        assert minY == MinLayerY(h, origin.y);
        var newY := minY - layerGap;
        Place(layer, newY);
      }
    }

    /** A run of drawn holes: every one a corner in [0, MaxCorner]². */
    ghost predicate Drawn(picks: seq<(int, int)>)
    {
      forall k :: 0 <= k < |picks| ==> 0 <= picks[k].0 <= MaxCorner && 0 <= picks[k].1 <= MaxCorner
    }

    /** A corner drawn after a run of drawn holes extends the run. */
    lemma DrawnGrow(x0: int, z0: int, picks: seq<(int, int)>, p: (int, int))
      requires Drawn(picks) && 0 <= p.0 <= MaxCorner && 0 <= p.1 <= MaxCorner
      ensures Drawn(picks + [p]) && Pooler.Last(x0, z0, picks + [p]) == p
    {
    }

    /** One visit of UpdateRecycle's loop: tile i is recycled when it is
        present and higher than the threshold, with a freshly drawn hole;
        otherwise nothing changes. No other tile changes either way. */
    method Visit(i: nat, threshold: real)
      requires Valid() && i < |layers|
      modifies this`lastHoleX, this`lastHoleZ, Repr - {this}
      ensures Valid()
      ensures Heights(layers) == Step(old(Heights(layers)), i, threshold, layerGap, origin.y)
      ensures Spots(layers) == if Eligible(old(Heights(layers)), i, threshold)
        then old(Spots(layers))[i := Some((origin.x, origin.z))] else old(Spots(layers))
      ensures Looks(layers) == if Eligible(old(Heights(layers)), i, threshold)
        then old(Looks(layers))[i := Some(LookOf(layers[i]))] else old(Looks(layers))
      ensures Eligible(old(Heights(layers)), i, threshold) ==>
        && layers[i] != null && 0 <= lastHoleX <= MaxCorner && 0 <= lastHoleZ <= MaxCorner
        && (HolesFit() ==> layers[i].holeX == lastHoleX && layers[i].holeZ == lastHoleZ)
      ensures !Eligible(old(Heights(layers)), i, threshold) ==>
        lastHoleX == old(lastHoleX) && lastHoleZ == old(lastHoleZ) && unchanged(Repr - {this})
    {
      var layer := layers[i];
      if layer != null && layer.position.y > threshold {
        RecycleAt(i);
      }
    }

    /** Recycling the tile at index i of the pool: its height becomes one gap
        below the lowest, its x and z the origin's, it shows a freshly drawn
        hole, and no other tile changes. */
    method RecycleAt(i: nat)
      requires Valid() && i < |layers| && layers[i] != null
      modifies this`lastHoleX, this`lastHoleZ, Repr - {this}
      ensures Valid()
      ensures Heights(layers) == Recycle(old(Heights(layers)), i, layerGap, origin.y)
      ensures Spots(layers) == old(Spots(layers))[i := Some((origin.x, origin.z))]
      ensures Looks(layers) == old(Looks(layers))[i := Some(LookOf(layers[i]))]
      ensures 0 <= lastHoleX <= MaxCorner && 0 <= lastHoleZ <= MaxCorner
      ensures HolesFit() ==> layers[i].holeX == lastHoleX && layers[i].holeZ == lastHoleZ
    {
      var layer := layers[i];
      assert layer as object != this as object && layer.blocks as object != this as object;
      assert Pooler.Distinct(layers);
      ghost var h0 := Heights(layers);
      ghost var y := MinLayerY(h0, origin.y) - layerGap;
      assert Recycle(h0, i, layerGap, origin.y) == h0[i := Some(y)];
      RecycleLayer(layer);
      assert layer.position.y == y;
      if HolesFit() {
        assert layer.size == layerPrefab.value.size;
      }
      Pooler.MovedAlone(layers, i);
      Pooler.LooksAlone(layers, i);
    }

    /** Where UpdateRecycle's loop stands before visiting tile i, starting
        from heights h0 and placements s0: the rest of the pass leads where
        the whole pass would, the tiles from i on are as they were, and the
        tiles before i that were recycled sit at the origin's x and z. */
    ghost predicate Passing(i: nat, threshold: real, h0: seq<Option<real>>, s0: seq<Option<(real, real)>>)
      requires |h0| == |s0| == |layers|
      reads this, layers
    {
      OnCourse(Heights(layers), Spots(layers), i, threshold, layerGap, origin.y, origin.x, origin.z, h0, s0)
    }

    /** The holes drawn during the loop so far, the last of them (or the hole
        (x0, z0) the loop started from) the pool's latest, and their place
        in the tiles, as Kept says. */
    ghost predicate Picking(i: nat, threshold: real, h0: seq<Option<real>>, l0: seq<Option<Look>>,
                            x0: int, z0: int, picks: seq<(int, int)>)
      requires |h0| == |l0| == |layers| && i <= |layers|
      reads this, layers, Grids(layers)
    {
      && Pooler.Kept(Looks(layers), l0, h0, i, threshold, picks, HolesFit())
      && Drawn(picks) && (lastHoleX, lastHoleZ) == Pooler.Last(x0, z0, picks)
    }

    /** One turn of UpdateRecycle's loop keeps it on course, adding the
        hole it draws, if it recycles, to the run of picks. */
    method Advance(i: nat, threshold: real, ghost h0: seq<Option<real>>, ghost s0: seq<Option<(real, real)>>,
                   ghost l0: seq<Option<Look>>, ghost x0: int, ghost z0: int, ghost picks: seq<(int, int)>)
      returns (ghost picks': seq<(int, int)>)
      requires Valid() && |h0| == |s0| == |l0| == |layers| && i < |layers|
      requires Passing(i, threshold, h0, s0) && Picking(i, threshold, h0, l0, x0, z0, picks)
      modifies this`lastHoleX, this`lastHoleZ, Repr - {this}
      ensures Valid() && |h0| == |s0| == |l0| == |layers|
      ensures Passing(i + 1, threshold, h0, s0) && Picking(i + 1, threshold, h0, l0, x0, z0, picks')
    {
      ghost var hs, ls := Heights(layers), Looks(layers);
      OnCourseStep(hs, Spots(layers), i, threshold, layerGap, origin.y, origin.x, origin.z, h0, s0);
      ghost var e := Eligible(h0, i, threshold);
      Visit(i, threshold);
      ghost var p, ls' := (lastHoleX, lastHoleZ), Looks(layers);
      ghost var q := if layers[i] != null then LookOf(layers[i]) else Look(false, 0, 0, []);
      picks' := if e then picks + [p] else picks;
      if e {
        DrawnGrow(x0, z0, picks, p);
      }
      Pooler.KeptAdvance(ls, ls', l0, h0, i, threshold, picks, p, HolesFit(), q);
    }

    /** UpdateRecycle's loop: visits the tiles in list order and recycles
        each one present and higher than the threshold when it is visited.
        The tiles it leaves in place do not change; the c-th tile it
        recycles shows the c-th of the holes it draws. */
    method RecycleAbove(threshold: real) returns (ghost picks: seq<(int, int)>)
      requires Valid()
      modifies this`lastHoleX, this`lastHoleZ, Repr - {this}
      ensures Valid()
      ensures Heights(layers) == Pass(old(Heights(layers)), 0, threshold, layerGap, origin.y)
      ensures Spots(layers) == Regrid(old(Spots(layers)), old(Heights(layers)), |layers|, threshold, origin.x, origin.z)
      ensures forall j :: 0 <= j < |layers| && !Eligible(old(Heights(layers)), j, threshold) ==>
        Looks(layers)[j] == old(Looks(layers))[j]
      ensures |picks| == CountEligible(old(Heights(layers)), |layers|, threshold) && Drawn(picks)
      ensures (lastHoleX, lastHoleZ) == Pooler.Last(old(lastHoleX), old(lastHoleZ), picks)
      ensures forall j :: 0 <= j < |layers| && Eligible(old(Heights(layers)), j, threshold) && HolesFit() ==>
        && layers[j] != null && CountEligible(old(Heights(layers)), j, threshold) < |picks|
        && (layers[j].holeX, layers[j].holeZ) == picks[CountEligible(old(Heights(layers)), j, threshold)]
      ensures StackLowered(old(Heights(layers)), Heights(layers), layerGap, CountEligible(old(Heights(layers)), |layers|, threshold))
    {
      ghost var h0, s0, l0 := Heights(layers), Spots(layers), Looks(layers);
      picks := VisitAll(threshold, h0, s0, l0, lastHoleX, lastHoleZ);
      assert Pass(Heights(layers), |layers|, threshold, layerGap, origin.y) == Heights(layers);
      HolesShown(threshold, h0, l0, picks);
      PassShiftsStacks(h0, layerGap, threshold, origin.y);
    }

    /** The loop of RecycleAbove, from where it starts to where it ends. */
    method VisitAll(threshold: real, ghost h0: seq<Option<real>>, ghost s0: seq<Option<(real, real)>>,
                    ghost l0: seq<Option<Look>>, ghost x0: int, ghost z0: int)
      returns (ghost picks: seq<(int, int)>)
      requires Valid() && |h0| == |s0| == |l0| == |layers|
      requires Passing(0, threshold, h0, s0) && Picking(0, threshold, h0, l0, x0, z0, [])
      modifies this`lastHoleX, this`lastHoleZ, Repr - {this}
      ensures Valid() && |h0| == |s0| == |l0| == |layers|
      ensures Passing(|layers|, threshold, h0, s0) && Picking(|layers|, threshold, h0, l0, x0, z0, picks)
    {
      picks := [];
      for i := 0 to |layers|
        invariant Valid() && |h0| == |s0| == |l0| == |layers|
        invariant Passing(i, threshold, h0, s0) && Picking(i, threshold, h0, l0, x0, z0, picks)
      {
        picks := Advance(i, threshold, h0, s0, l0, x0, z0, picks);
      }
    }

    /** At the end of the loop, the c-th tile recycled shows the c-th hole
        drawn. */
    lemma HolesShown(threshold: real, h0: seq<Option<real>>, l0: seq<Option<Look>>, picks: seq<(int, int)>)
      requires |h0| == |l0| == |layers| && Pooler.Kept(Looks(layers), l0, h0, |layers|, threshold, picks, HolesFit())
      ensures forall j :: 0 <= j < |layers| && Eligible(h0, j, threshold) && HolesFit() ==>
        && layers[j] != null && CountEligible(h0, j, threshold) < |picks|
        && (layers[j].holeX, layers[j].holeZ) == picks[CountEligible(h0, j, threshold)]
    {
      forall j | 0 <= j < |layers| && Eligible(h0, j, threshold) && HolesFit()
        ensures layers[j] != null && (layers[j].holeX, layers[j].holeZ) == picks[CountEligible(h0, j, threshold)]
      {
        assert Looks(layers)[j].Some?;
      }
    }

    /** The pool refuses to lay out tiles: no prefab, no player, no tiles
        asked for, no gap between them, or tiles laid out already. */
    predicate Refused()
      reads this
    {
      layerPrefab.None? || player.None? || poolCount <= 0 || layerGap <= 0.0 || |layers| > 0
    }

    /** Lays out poolCount copies of the prefab one gap apart from the
        origin down, each over the origin's x and z with its own hole; a
        refused call changes nothing. The holes are a run of draws, the
        k-th tile showing the k-th when the holes fit, and the last draw is
        left as the previous hole. */
    method InitializePool() returns (ghost picks: seq<(int, int)>)
      requires Valid()
      modifies this`layers, this`Repr, this`lastHoleX, this`lastHoleZ, rng
      ensures Valid()
      ensures old(Refused()) ==>
        layers == old(layers) && lastHoleX == old(lastHoleX) && lastHoleZ == old(lastHoleZ) && unchanged(rng)
        && picks == []
      ensures !old(Refused()) ==> |layers| == poolCount && fresh(Repr - old(Repr))
      ensures !old(Refused()) ==> forall k :: 0 <= k < |layers| ==>
        layers[k] != null && fresh(layers[k]) && layers[k].initialized &&
        layers[k].position == Vector3(origin.x, origin.y - k as real * layerGap, origin.z)
      ensures !old(Refused()) ==> Heights(layers) == Stack(origin.y, layerGap, poolCount)
      ensures !old(Refused()) ==> IsLadder(Heights(layers), layerGap)
      ensures !old(Refused()) ==>
        && |picks| == poolCount && Drawn(picks)
        && (lastHoleX, lastHoleZ) == Pooler.Last(old(lastHoleX), old(lastHoleZ), picks)
        && (HolesFit() ==> forall k :: 0 <= k < |layers| ==>
              layers[k] != null && (layers[k].holeX, layers[k].holeZ) == picks[k])
    {
      picks := [];
      if layerPrefab.None? || player.None? || poolCount <= 0 || layerGap <= 0.0 || |layers| > 0 {
        return;
      }
      picks := LayAll();
      Pooler.StackOf(layers, origin, layerGap);
    }

    /** InitializePool's loop has laid out i tiles, tile k the k-th of a
        run one gap apart from the origin, with a run of i draws ending in
        the previous hole, and tile k showing the k-th when the holes fit. */
    ghost predicate Laying(i: nat, x0: int, z0: int, picks: seq<(int, int)>)
      reads this, layers
    {
      && |layers| == i && |picks| == i
      && (forall k :: 0 <= k < i ==> Pooler.LaidAt(layers[k], k, origin, layerGap))
      && Drawn(picks) && (lastHoleX, lastHoleZ) == Pooler.Last(x0, z0, picks)
      && (HolesFit() ==> forall k :: 0 <= k < i ==>
            layers[k] != null && (layers[k].holeX, layers[k].holeZ) == picks[k])
    }

    /** InitializePool's loop, from where it starts to where it ends. */
    method LayAll() returns (ghost picks: seq<(int, int)>)
      requires Valid() && layerPrefab.Some? && poolCount > 0 && |layers| == 0
      modifies this`layers, this`Repr, this`lastHoleX, this`lastHoleZ, rng
      ensures Valid() && fresh(Repr - old(Repr))
      ensures Laying(poolCount, old(lastHoleX), old(lastHoleZ), picks)
      ensures forall k :: 0 <= k < |layers| ==> fresh(layers[k])
    {
      picks := [];
      ghost var x0, z0 := lastHoleX, lastHoleZ;
      for i := 0 to poolCount
        invariant Valid() && fresh(Repr - old(Repr))
        invariant Laying(i, x0, z0, picks)
        invariant forall k :: 0 <= k < |layers| ==> fresh(layers[k])
      {
        picks := LayNext(i, x0, z0, picks);
      }
    }

    /** One turn of InitializePool's loop keeps it laying, adding the hole
        it draws to the run of draws. */
    method LayNext(i: nat, ghost x0: int, ghost z0: int, ghost picks: seq<(int, int)>)
      returns (ghost picks': seq<(int, int)>)
      requires Valid() && layerPrefab.Some? && Laying(i, x0, z0, picks)
      modifies this`layers, this`Repr, this`lastHoleX, this`lastHoleZ, rng
      ensures Valid() && fresh(Repr - old(Repr))
      ensures Laying(i + 1, x0, z0, picks')
      ensures layers[..i] == old(layers) && fresh(layers[i])
    {
      LayTile(i);
      ghost var p := (lastHoleX, lastHoleZ);
      DrawnGrow(x0, z0, picks, p);
      picks' := picks + [p];
      if HolesFit() {
        forall k | 0 <= k < i + 1
          ensures layers[k] != null && (layers[k].holeX, layers[k].holeZ) == picks'[k]
        {
          if k < i {
            assert layers[k] == old(layers)[k];
            assert old(LookOf(layers[k])).holeX == old(layers[k].holeX);
            assert old(LookOf(layers[k])).holeZ == old(layers[k].holeZ);
          }
        }
      }
    }

    /** One turn of InitializePool's loop: a new copy of the prefab, placed
        i gaps below the origin with its own hole, joins the pool's list. */
    method LayTile(i: nat)
      requires Valid() && layerPrefab.Some? && |layers| == i
      modifies this`layers, this`Repr, this`lastHoleX, this`lastHoleZ, rng
      ensures Valid() && fresh(Repr - old(Repr))
      ensures |layers| == i + 1 && layers[..i] == old(layers)
      ensures layers[i] != null && fresh(layers[i]) && layers[i].initialized
      ensures Pooler.LaidAt(layers[i], i, origin, layerGap)
      ensures forall k :: 0 <= k < i && layers[k] != null ==>
        layers[k].position == old(layers[k].position) && LookOf(layers[k]) == old(LookOf(layers[k]))
      ensures 0 <= lastHoleX <= MaxCorner && 0 <= lastHoleZ <= MaxCorner
      ensures HolesFit() ==> layers[i].holeX == lastHoleX && layers[i].holeZ == lastHoleZ
    {
      var prefab := layerPrefab.value;
      var layer := new FloorLayer(prefab.size, prefab.cellSize, prefab.children, prefab.position);
      // Awake; the explicit Initialize call that follows the placement in
      // the script finds the tile initialised and changes nothing.
      layer.Initialize();
      var y := origin.y - i as real * layerGap;
      BelowIsMultiple(origin.y, layerGap, i);
      assert y == Below(origin.y, layerGap, i) by {
        assert layerGap * i as real == i as real * layerGap;
      }
      Place(layer, y);
      AddLayer(layer);
    }

    /** The pool's list takes in a placed tile that shares nothing with it. */
    method AddLayer(layer: FloorLayer)
      requires Valid() && layer !in Repr && layer.blocks !in Repr
      requires layer.Valid() && layer.initialized
      requires layerPrefab.Some? && layer.size == layerPrefab.value.size
      requires HolesFit() ==> layer.HoleCut() && layer.holeX <= MaxCorner && layer.holeZ <= MaxCorner
      modifies this`layers, this`Repr
      ensures Valid()
      ensures layers == old(layers) + [layer] && Repr == old(Repr) + {layer, layer.blocks}
    {
      layers := layers + [layer];
      Repr := Repr + {layer, layer.blocks};
      assert Placed(layer);
    }

    /** Recycles, in list order, every pooled tile that has risen more than
        recycleAbovePlayer above the player; nothing happens without a
        player or with an empty pool. The tiles left in place do not change,
        and each recycled tile shows its own hole from the run drawn. */
    method UpdateRecycle() returns (ghost picks: seq<(int, int)>)
      requires Valid()
      modifies this`lastHoleX, this`lastHoleZ, Repr - {this}
      ensures Valid()
      ensures player.None? || |layers| == 0 ==>
        lastHoleX == old(lastHoleX) && lastHoleZ == old(lastHoleZ) && unchanged(Repr - {this}) && picks == []
      ensures player.Some? ==>
        var threshold := player.value.y + recycleAbovePlayer;
        var h0 := old(Heights(layers));
        && Heights(layers) == Pass(h0, 0, threshold, layerGap, origin.y)
        && Spots(layers) == Regrid(old(Spots(layers)), h0, |layers|, threshold, origin.x, origin.z)
        && (forall j :: 0 <= j < |layers| && !Eligible(h0, j, threshold) ==>
              Looks(layers)[j] == old(Looks(layers))[j])
        && |picks| == CountEligible(h0, |layers|, threshold) && Drawn(picks)
        && (lastHoleX, lastHoleZ) == Pooler.Last(old(lastHoleX), old(lastHoleZ), picks)
        && (forall j :: 0 <= j < |layers| && Eligible(h0, j, threshold) && HolesFit() ==>
              && layers[j] != null && CountEligible(h0, j, threshold) < |picks|
              && (layers[j].holeX, layers[j].holeZ) == picks[CountEligible(h0, j, threshold)])
        && StackLowered(h0, Heights(layers), layerGap, CountEligible(h0, |layers|, threshold))
    {
      if player.None? || |layers| == 0 {
        return [];
      }
      var threshold := player.value.y + recycleAbovePlayer;
      picks := RecycleAbove(threshold);
    }
  }
}
