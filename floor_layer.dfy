/** One floor tile: a size × size grid of blocks, at most one 2×2 hole cut in
    it, mapped from child objects named "Block_x_z". */
module Floor {
  import opened Wrappers
  import opened Engine
  import opened Text

  /** What a grid cell holds: no block (no child was named for it), or a
      block whose GameObject is active (solid) or inactive (open). */
  datatype Cell = Missing | Block(active: bool)
  {
    /** GameObject.SetActive on the cell's block; a missing block stays missing. */
    function SetActive(on: bool): (c: Cell)
      ensures c.Block? == Block?
      ensures c.Block? ==> c.active == on
    {
      if Block? then Block(on) else Missing
    }
  }

  /** A child object of the tile: its name and whether it is active. */
  datatype Child = Child(name: string, active: bool)

  /** The grid cell a child's name designates: the name must split on '_'
      into exactly three pieces whose second and third parse as ints inside
      [0, size). */
  function ParseCell(name: string, size: int): (cell: Option<(int, int)>)
    ensures cell.Some? ==> 0 <= cell.value.0 < size && 0 <= cell.value.1 < size
    ensures |Split(name, '_')| != 3 ==> cell.None?
  {
    var parts := Split(name, '_');
    if |parts| != 3 then None
    else
      match (TryParseInt(parts[1]), TryParseInt(parts[2]))
      case (Some(x), Some(z)) =>
        if 0 <= x < size && 0 <= z < size then Some((x, z)) else None
      case _ => None
  }

  /** The name a block of the authored prefab carries. */
  function BlockName(x: nat, z: nat): string
  {
    "Block_" + NatToString(x) + "_" + NatToString(z)
  }

  /** Naming and parsing agree: "Block_x_z" designates (x, z) exactly when
      that cell lies in the grid. */
  lemma ParseBlockName(x: nat, z: nat, size: int)
    requires x <= MaxInt32 && z <= MaxInt32
    ensures ParseCell(BlockName(x, z), size) == (if x < size && z < size then Some((x, z)) else None)
  {
    assert BlockName(x, z) == "Block" + "_" + NatToString(x) + "_" + NatToString(z);
    SplitCellName("Block", x, z);
    ParseFormatted(x);
    ParseFormatted(z);
    assert IntToString(x) == NatToString(x) && IntToString(z) == NatToString(z);
  }

  /** A child as the tile sees it: the cell its name designates, if any,
      and whether its GameObject is active. */
  datatype Mapped = Mapped(cell: Option<(int, int)>, active: bool)

  /** Each child paired with the cell its name designates. */
  function MapChildren(children: seq<Child>, size: int): (ms: seq<Mapped>)
    ensures |ms| == |children|
    ensures forall i :: 0 <= i < |children| ==>
      ms[i] == Mapped(ParseCell(children[i].name, size), children[i].active)
  {
    if |children| == 0 then []
    else
      var last := children[|children| - 1];
      MapChildren(children[..|children| - 1], size) + [Mapped(ParseCell(last.name, size), last.active)]
  }

  /** The cell (x, z) after the mapped children have been stored in order:
      the block of the last child naming it, later ones overwriting earlier. */
  function CellAfter(ms: seq<Mapped>, x: int, z: int): Cell
  {
    if |ms| == 0 then Missing
    else
      var last := ms[|ms| - 1];
      if last.cell == Some((x, z)) then Block(last.active)
      else CellAfter(ms[..|ms| - 1], x, z)
  }

  /** Storing one more child changes only the cell it names. */
  lemma CellAfterStep(ms: seq<Mapped>, i: nat, x: int, z: int)
    requires i < |ms|
    ensures CellAfter(ms[..i + 1], x, z)
         == if ms[i].cell == Some((x, z)) then Block(ms[i].active) else CellAfter(ms[..i], x, z)
  {
    assert ms[..i + 1][..i] == ms[..i];
  }

  /** A cell holds a block only when some child names it, and then it is the
      block of the last such child. */
  lemma {:induction false} CellAfterSource(ms: seq<Mapped>, x: int, z: int)
    requires CellAfter(ms, x, z).Block?
    ensures exists i ::
              && 0 <= i < |ms| && ms[i].cell == Some((x, z))
              && CellAfter(ms, x, z) == Block(ms[i].active)
              && (forall j :: i < j < |ms| ==> ms[j].cell != Some((x, z)))
  {
    var n := |ms| - 1;
    if ms[n].cell != Some((x, z)) {
      var init := ms[..n];
      assert CellAfter(ms, x, z) == CellAfter(init, x, z);
      CellAfterSource(init, x, z);
      var i :| 0 <= i < n && init[i].cell == Some((x, z))
        && CellAfter(init, x, z) == Block(init[i].active)
        && (forall j :: i < j < n ==> init[j].cell != Some((x, z)));
      assert init[i] == ms[i];
      forall j | i < j < |ms|
        ensures ms[j].cell != Some((x, z))
      {
        if j < n {
          assert init[j] == ms[j];
        }
      }
    } else {
      assert CellAfter(ms, x, z) == Block(ms[n].active);
    }
  }

  /** A cell that some child names always holds a block. */
  lemma {:induction false} CellAfterNamed(ms: seq<Mapped>, x: int, z: int, i: int)
    requires 0 <= i < |ms| && ms[i].cell == Some((x, z))
    ensures CellAfter(ms, x, z).Block?
  {
    var n := |ms| - 1;
    if i < n && ms[n].cell != Some((x, z)) {
      assert ms[..n][i] == ms[i];
      CellAfterNamed(ms[..n], x, z, i);
    }
  }

  /** Whether cell (cx, cz) lies in the 2×2 hole whose corner is (x, z). */
  predicate InHole(cx: int, cz: int, x: int, z: int)
  {
    x <= cx <= x + 1 && z <= cz <= z + 1
  }

  class FloorLayer {
    const size: nat
    const cellSize: real
    /** The child objects as authored, in transform order. */
    const children: seq<Child>
    /** blocks[x, z]; allocated with the tile and filled by Initialize. */
    const blocks: array2<Cell>
    var initialized: bool
    /** Corner of the current hole, -1 when there is none. */
    var holeX: int
    var holeZ: int
    /** transform.position */
    var position: Vector3

    ghost predicate Valid()
      reads this, blocks
    {
      && blocks.Length0 == size && blocks.Length1 == size
      && size <= MaxInt32
      && ((holeX == -1 && holeZ == -1) || (0 <= holeX <= size - 2 && 0 <= holeZ <= size - 2))
      && (!initialized ==>
            && holeX == -1 && holeZ == -1
            && forall x, z :: 0 <= x < size && 0 <= z < size ==> blocks[x, z] == Missing)
    }

    constructor (size: nat, cellSize: real, children: seq<Child>, position: Vector3)
      requires size <= MaxInt32
      ensures Valid() && !initialized && fresh(blocks)
      ensures this.size == size && this.cellSize == cellSize && this.children == children
      ensures this.position == position
    {
      this.size := size;
      this.cellSize := cellSize;
      this.children := children;
      this.blocks := new Cell[size, size]((x, z) => Missing);
      this.initialized := false;
      this.holeX, this.holeZ := -1, -1;
      this.position := position;
    }

    /** The block state of (x, z) once the tile is initialised: the current
        one, or the one Initialize would map from the children. */
    ghost function Ready(x: int, z: int): Cell
      reads this, blocks
      requires Valid() && 0 <= x < size && 0 <= z < size
    {
      if initialized then blocks[x, z] else CellAfter(MapChildren(children, size), x, z)
    }

    /** The tile shows exactly its recorded hole: every present block is
        inactive inside the 2×2 square at (holeX, holeZ) and active outside. */
    ghost predicate HoleCut()
      reads this, blocks
      requires Valid()
    {
      && initialized && 0 <= holeX && 0 <= holeZ
      && forall x, z :: 0 <= x < size && 0 <= z < size && blocks[x, z].Block? ==>
           blocks[x, z].active == !InHole(x, z, holeX, holeZ)
    }

    /** Maps every child named "Block_x_z" to its cell, once: a second call
        changes nothing. The warnings for missing blocks are not modelled. */
    method Initialize()
      requires Valid()
      modifies this, blocks
      ensures Valid() && initialized
      ensures old(initialized) ==> unchanged(this, blocks)
      ensures forall x, z :: 0 <= x < size && 0 <= z < size ==> blocks[x, z] == old(Ready(x, z))
      ensures holeX == old(holeX) && holeZ == old(holeZ) && position == old(position)
    {
      if initialized {
        return;
      }
      ghost var ms := MapChildren(children, size);
      for i := 0 to |children|
        modifies blocks
        invariant forall x, z :: 0 <= x < size && 0 <= z < size ==>
          blocks[x, z] == CellAfter(ms[..i], x, z)
      {
        var cell := ParseCell(children[i].name, size);
        assert ms[i] == Mapped(cell, children[i].active);
        if cell.Some? {
          blocks[cell.value.0, cell.value.1] := Block(children[i].active);
        }
        forall x, z | 0 <= x < size && 0 <= z < size
          ensures blocks[x, z] == CellAfter(ms[..i + 1], x, z)
        {
          CellAfterStep(ms, i, x, z);
        }
      }
      assert ms[..|children|] == ms;
      initialized := true;
    }

    /** Makes every present block active and forgets the hole. */
    method ResetAllBlocksActive()
      requires Valid()
      modifies this, blocks
      ensures Valid() && initialized
      ensures holeX == -1 && holeZ == -1 && position == old(position)
      ensures forall x, z :: 0 <= x < size && 0 <= z < size ==>
        blocks[x, z] == old(Ready(x, z)).SetActive(true)
    {
      if !initialized {
        Initialize();
      }
      for z := 0 to size
        modifies blocks
        invariant forall x', z' :: 0 <= x' < size && 0 <= z' < size ==>
          blocks[x', z'] == if z' < z then old(Ready(x', z')).SetActive(true) else old(Ready(x', z'))
      {
        for x := 0 to size
          modifies blocks
          invariant forall x', z' :: 0 <= x' < size && 0 <= z' < size ==>
            blocks[x', z'] == if z' < z || (z' == z && x' < x) then old(Ready(x', z')).SetActive(true)
                              else old(Ready(x', z'))
        {
          blocks[x, z] := blocks[x, z].SetActive(true);
        }
      }
      holeX, holeZ := -1, -1;
    }

    /** Cuts the 2×2 hole with corner (x, z). A corner outside [0, size-2]
        is refused and leaves blocks and hole as they were. */
    method ApplyHole2x2(x: int, z: int) returns (ok: bool)
      requires Valid()
      modifies this, blocks
      ensures Valid() && initialized && position == old(position)
      ensures ok <==> 0 <= x <= size - 2 && 0 <= z <= size - 2
      ensures !ok ==> holeX == old(holeX) && holeZ == old(holeZ)
      ensures !ok ==> forall cx, cz :: 0 <= cx < size && 0 <= cz < size ==>
        blocks[cx, cz] == old(Ready(cx, cz))
      ensures ok ==> holeX == x && holeZ == z && HoleCut()
      ensures ok ==> forall cx, cz :: 0 <= cx < size && 0 <= cz < size ==>
        blocks[cx, cz] == old(Ready(cx, cz)).SetActive(!InHole(cx, cz, x, z))
    {
      if !initialized {
        Initialize();
      }
      if x < 0 || z < 0 || x > size - 2 || z > size - 2 {
        return false;
      }
      ResetAllBlocksActive();
      SetCellActiveSafe(x, z, false);
      SetCellActiveSafe(x + 1, z, false);
      SetCellActiveSafe(x, z + 1, false);
      SetCellActiveSafe(x + 1, z + 1, false);
      holeX, holeZ := x, z;
      return true;
    }

    /** Sets one block's active state; coordinates outside the grid and
        missing blocks are left alone. */
    method SetCellActiveSafe(x: int, z: int, active: bool)
      requires Valid()
      modifies blocks
      ensures Valid()
      ensures forall cx, cz :: 0 <= cx < size && 0 <= cz < size ==>
        blocks[cx, cz] == if cx == x && cz == z then old(blocks[cx, cz]).SetActive(active)
                          else old(blocks[cx, cz])
    {
      if x < 0 || x >= size || z < 0 || z >= size {
        return;
      }
      blocks[x, z] := blocks[x, z].SetActive(active);
    }

    /** CellToWorldCenter before the tile's transform is applied: the centre
        of cell (x, z) in tile-local coordinates, with x and z clamped into
        [0, size-1]. */
    function CellToLocalCenter(x: int, z: int): (p: Vector3)
      ensures p.y == 0.0
    {
      var cx := Clamp(x, 0, size - 1);
      var cz := Clamp(z, 0, size - 1);
      Vector3((cx as real + 0.5) * cellSize, 0.0, (cz as real + 0.5) * cellSize)
    }
  }

  /** The centre of an on-grid cell is half a cell past its corner; an
      off-grid coordinate is clamped to the first or the last cell. */
  lemma CenterClamps(layer: FloorLayer, x: int, z: int)
    ensures var p := layer.CellToLocalCenter(x, z);
      && (0 <= x < layer.size ==> p.x == (x as real + 0.5) * layer.cellSize)
      && (0 <= z < layer.size ==> p.z == (z as real + 0.5) * layer.cellSize)
      && (x < 0 ==> p.x == 0.5 * layer.cellSize)
      && (z < 0 ==> p.z == 0.5 * layer.cellSize)
      && (0 < layer.size <= x ==> p.x == (layer.size as real - 0.5) * layer.cellSize)
      && (0 < layer.size <= z ==> p.z == (layer.size as real - 0.5) * layer.cellSize)
  {
    var p := layer.CellToLocalCenter(x, z);
    var cx := Clamp(x, 0, layer.size - 1);
    var cz := Clamp(z, 0, layer.size - 1);
    assert p.x == (cx as real + 0.5) * layer.cellSize;
    assert p.z == (cz as real + 0.5) * layer.cellSize;
    assert 0 < layer.size <= x ==> cx as real + 0.5 == layer.size as real - 0.5;
    assert 0 < layer.size <= z ==> cz as real + 0.5 == layer.size as real - 0.5;
  }

  /** The centre returned for any (x, z) lies inside a cell of the grid,
      and for a cell of the grid inside that very cell. */
  lemma CenterLiesInCell(layer: FloorLayer, x: int, z: int)
    requires layer.size > 0 && layer.cellSize > 0.0
    ensures var p := layer.CellToLocalCenter(x, z);
      && 0 <= FloorToInt(p.x / layer.cellSize) < layer.size
      && 0 <= FloorToInt(p.z / layer.cellSize) < layer.size
      && (0 <= x < layer.size ==> FloorToInt(p.x / layer.cellSize) == x)
      && (0 <= z < layer.size ==> FloorToInt(p.z / layer.cellSize) == z)
  {
    var p := layer.CellToLocalCenter(x, z);
    AxisCenter(x, layer.size, layer.cellSize, p.x);
    AxisCenter(z, layer.size, layer.cellSize, p.z);
  }

  /** One axis of CenterLiesInCell: the centre of the clamped cell, scaled
      back, lies in the grid, and in cell v itself when v is on the grid. */
  lemma AxisCenter(v: int, n: int, s: real, pv: real)
    requires n > 0 && s > 0.0 && pv == (Clamp(v, 0, n - 1) as real + 0.5) * s
    ensures 0 <= FloorToInt(pv / s) < n
    ensures 0 <= v < n ==> FloorToInt(pv / s) == v
  {
    var c := Clamp(v, 0, n - 1);
    CenterFloor(c, s);
    assert pv / s == ((c as real + 0.5) * s) / s;
  }

  /** Scaling the centre of cell c by the cell size and back lands in c. */
  lemma CenterFloor(c: int, s: real)
    requires s > 0.0
    ensures FloorToInt(((c as real + 0.5) * s) / s) == c
  {
    var a := c as real + 0.5;
    CancelScale(a, s);
    assert FloorToInt(a) == c;
    assert ((c as real + 0.5) * s) / s == a;
  }

  lemma CancelScale(a: real, c: real)
    requires c != 0.0
    ensures (a * c) / c == a
  {
  }

  /** The heights of a list of layers, None for a destroyed (null) entry. */
  function Heights(layers: seq<FloorLayer?>): (ys: seq<Option<real>>)
    reads layers
    ensures |ys| == |layers|
    ensures forall i {:trigger ys[i]} :: 0 <= i < |layers| ==>
      ys[i] == if layers[i] == null then None else Some(layers[i].position.y)
  {
    seq(|layers|, i requires 0 <= i < |layers| reads layers =>
      if layers[i] == null then None else Some(layers[i].position.y))
  }

  /** The horizontal placement (x, z) of a list of layers, None for a
      destroyed (null) entry. */
  function Spots(layers: seq<FloorLayer?>): (ss: seq<Option<(real, real)>>)
    reads layers
    ensures |ss| == |layers|
    ensures forall i {:trigger ss[i]} :: 0 <= i < |layers| ==>
      ss[i] == if layers[i] == null then None else Some((layers[i].position.x, layers[i].position.z))
  {
    seq(|layers|, i requires 0 <= i < |layers| reads layers =>
      if layers[i] == null then None else Some((layers[i].position.x, layers[i].position.z)))
  }

  /** Everything about a tile but its position: whether it is initialised,
      its hole corner and the state of every cell, column by column. */
  datatype Look = Look(initialized: bool, holeX: int, holeZ: int, cells: seq<seq<Cell>>)

  ghost function LookOf(t: FloorLayer): (l: Look)
    reads t, t.blocks
    ensures l.initialized == t.initialized && l.holeX == t.holeX && l.holeZ == t.holeZ
    ensures |l.cells| == t.blocks.Length0
    ensures forall x :: 0 <= x < t.blocks.Length0 ==> |l.cells[x]| == t.blocks.Length1
    ensures forall x, z :: 0 <= x < t.blocks.Length0 && 0 <= z < t.blocks.Length1 ==> l.cells[x][z] == t.blocks[x, z]
  {
    var b := t.blocks;
    Look(t.initialized, t.holeX, t.holeZ,
         seq(b.Length0, x requires 0 <= x < b.Length0 reads b =>
           seq(b.Length1, z requires 0 <= z < b.Length1 reads b => b[x, z])))
  }

  /** The grids of a list of tiles. */
  ghost function Grids(layers: seq<FloorLayer?>): set<object>
  {
    set t: FloorLayer | t in layers :: t.blocks
  }

  /** The look of every tile of a list, None for a destroyed (null) entry. */
  ghost function Looks(layers: seq<FloorLayer?>): (ls: seq<Option<Look>>)
    reads layers, Grids(layers)
    ensures |ls| == |layers|
    ensures forall i {:trigger ls[i]} :: 0 <= i < |layers| ==>
      ls[i] == if layers[i] == null then None else Some(LookOf(layers[i]))
  {
    seq(|layers|, i requires 0 <= i < |layers| reads layers, Grids(layers) =>
      if layers[i] == null then None else Some(LookOf(layers[i])))
  }
}
