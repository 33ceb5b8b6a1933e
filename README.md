# falling — the floor-tile pool, modelled in Dafny

"falling" is a Unity game in which the player drops through an endless shaft
of floor tiles. Each tile is a square grid of blocks with one 2×2 hole cut in
it. A pool keeps a fixed number of tiles stacked one gap apart. Any tile the
player has left far enough behind is sent to the bottom of the stack and gets
a fresh hole.

This project models the three scripts that do this.

- `FloorLayer` (`floor_layer.dfy`, module `Floor`) is a class.
  - Its grid is an `array2<Cell>`. A cell holds no block, or a block that is active (solid) or inactive (open).
  - Its `initialized` flag and hole corner are fields that its methods update.
  - The child objects named `Block_x_z` are mapped to cells. The name parsing uses a model of .NET's `String.Split` and `int.TryParse` (`text.dfy`, module `Text`).
- The current `LayerPooler` (`layer_pooler.dfy`, module `Pooler`) is a class.
  - Its list of tiles is a `seq<FloorLayer?>` field. Tile positions are updated in place.
  - Its hole corner and its `UnityEngine.Random` source are state that its methods change.
  - The placement of a new hole is reachability-bounded:
    - a search radius (`reach.dfy`, module `Reach`);
    - the candidate cells within that radius of the previous hole, inside a clamped box;
    - a pick among the candidates, with a whole-grid fallback.
- The earlier `LayerPooler` (`legacy_layer_pooler.dfy`, module `LegacyPooler`) keeps the same pool and recycling. It draws each hole corner uniformly from [0, 8]² and refuses to lay out tiles without a player.
- What recycling does to the heights of the tiles is stated on values (`ladder.dfy`, module `Ladder`).
  - The pool's methods are proved to move the tiles exactly as these functions say.
  - The lemmas about them state:
    - where a recycled tile lands;
    - that one pass of `UpdateRecycle` sends the c-th eligible tile c gaps below the old bottom;
    - that recycled tiles end below all others, stacked a whole number of gaps apart;
    - that heights laid one gap apart, in any list order, stay one gap apart after a pass, only lower by as many gaps as tiles were recycled.
- `engine.dfy` (module `Engine`) holds the few engine pieces the scripts use: `Vector3`, `Mathf.Clamp`/`Max`/`Min`/`FloorToInt`/`CeilToInt`, and `Random.Range` (specified by the interval it draws from).

Floats are modelled as reals. `float.PositiveInfinity`, the starting value of the running minimum in `GetMinLayerY`, is modelled as `None`.

When gridSize ≥ 2, the hole corners the current pool picks lie in [0, gridSize-2]. A smaller gridSize makes the upper clamp bound gridSize - 2 negative. The box can then hold a cell at that negative bound. The whole-grid fallback `Random.Range(0, gridSize - 1)` gives 0 when gridSize is 0 or 1, and a value in (gridSize - 1, 0] below that. The model promises no range for such corners. The tile accepts a corner only in [0, size-2]. The script itself assumes that `gridSize` equals the tile's `size`, but nothing checks it. The model therefore does not require it. Every promise that depends on it is stated under that condition (`HolesFit`): a placed tile shows exactly its recorded hole. Without the condition, a refused corner leaves the tile as it was, and that is modelled too. The earlier pool always draws from [0, 8]² and likewise assumes a 10×10 tile.

## Model

| member | source | states |
|---|---|---|
| Engine.Clamp | falling/Assets/Scripts/FloorLayer.cs:119-120 | Mathf.Clamp: on a non-empty range the result lies in [lo, hi]; a value inside is kept, one below gives lo, one above gives hi |
| Engine.Max | falling/Assets/Scripts/LayerPooler.cs:135-137 | Mathf.Max is one of its two arguments and at least both |
| Engine.Min | falling/Assets/Scripts/LayerPooler.cs:189 | Mathf.Min is one of its two arguments and at most both |
| Engine.FloorToInt | falling/Assets/Scripts/LayerPooler.cs:150-153 | Mathf.FloorToInt gives the greatest integer not above its argument |
| Engine.CeilToInt | falling/Assets/Scripts/LayerPooler.cs:150-153 | Mathf.CeilToInt gives the least integer not below its argument |
| Engine.Random.Range | falling/Assets/Scripts/LayerPooler.cs:170-172 | Random.Range(min, max) draws from [min, max), gives min when the bounds coincide, and draws from (max, min] when they are swapped |
| Text.Split | falling/Assets/Scripts/FloorLayer.cs:30 | String.Split yields at least one piece, and no piece contains the separator |
| Text.JoinSplit | falling/Assets/Scripts/FloorLayer.cs:30 | The pieces joined by the separator give back the name, so splitting loses nothing |
| Text.SplitWithoutSeparator | falling/Assets/Scripts/FloorLayer.cs:30 | A name without the separator splits into itself alone |
| Text.SplitAfterPiece | falling/Assets/Scripts/FloorLayer.cs:30 | A separator-free piece followed by the separator splits off as the first piece |
| Text.TryParseInt | falling/Assets/Scripts/FloorLayer.cs:33-34 | int.TryParse succeeds only with a value in the range of a 32-bit int |
| Text.TrailingNul | falling/Assets/Scripts/FloorLayer.cs:33-34 | A NUL character appended to a piece does not change what int.TryParse reads from it |
| Text.ParseFormatted | falling/Assets/Scripts/FloorLayer.cs:33-34 | int.TryParse reads back every 32-bit int written in decimal, negative ones included |
| Text.SplitCellName | falling/Assets/Scripts/FloorLayer.cs:30-32 | A name "prefix_x_z" with no '_' in the prefix splits into exactly the three pieces prefix, x and z |
| Floor.ParseCell | falling/Assets/Scripts/FloorLayer.cs:30-36 | A child name designates a cell only when it splits into exactly three pieces, and the cell then lies in [0, size)² |
| Floor.ParseBlockName | falling/Assets/Scripts/FloorLayer.cs:30-38 | "Block_x_z" designates exactly cell (x, z) when it lies in the grid, and no cell otherwise |
| Floor.MapChildren | falling/Assets/Scripts/FloorLayer.cs:27-36 | Every child, in transform order, is paired with the cell its name designates and with its active state |
| Floor.CellAfterStep | falling/Assets/Scripts/FloorLayer.cs:27-39 | Storing one more child changes only the cell that child names |
| Floor.CellAfterSource | falling/Assets/Scripts/FloorLayer.cs:32-39 | A cell holds a block only if some child names it, and then it holds the last such child's block; no later child names it |
| Floor.CellAfterNamed | falling/Assets/Scripts/FloorLayer.cs:32-39 | Every cell some child names holds a block after the mapping |
| Floor.Cell.SetActive | falling/Assets/Scripts/FloorLayer.cs:106-111 | GameObject.SetActive on a cell's block gives it the requested state; a missing block stays missing |
| Floor.FloorLayer.constructor | falling/Assets/Scripts/FloorLayer.cs:6-15 | A new tile is not initialised, has no hole (-1, -1) and no blocks mapped yet |
| Floor.FloorLayer.Initialize | falling/Assets/Scripts/FloorLayer.cs:19-56 | The first call stores in every cell the block of the last child naming it and sets initialized. A later call changes nothing. The hole and the position are kept |
| Floor.FloorLayer.ResetAllBlocksActive | falling/Assets/Scripts/FloorLayer.cs:65-78 | Initialises the tile if needed, makes every present block active, leaves missing blocks missing, and forgets the hole (-1, -1) |
| Floor.FloorLayer.ApplyHole2x2 | falling/Assets/Scripts/FloorLayer.cs:83-104 | Returns true exactly when the corner is in [0, size-2]². On false, blocks and hole are unchanged. On true, the four present blocks of the 2×2 square are inactive, every other present block is active, and the hole is the corner |
| Floor.FloorLayer.SetCellActiveSafe | falling/Assets/Scripts/FloorLayer.cs:106-111 | Sets the active state of the block at (x, z) alone; an off-grid coordinate or a missing block changes nothing |
| Floor.FloorLayer.CellToLocalCenter | falling/Assets/Scripts/FloorLayer.cs:116-123 | The local centre lies in the tile's plane (y = 0); CenterClamps and CenterLiesInCell state its x and z |
| Floor.CenterClamps | falling/Assets/Scripts/FloorLayer.cs:119-123 | The centre of an on-grid cell is half a cell past its corner; a coordinate below the grid gives the first cell's centre, one above gives the last cell's |
| Floor.CenterLiesInCell | falling/Assets/Scripts/FloorLayer.cs:119-123 | For any input the centre lies inside a grid cell, and for an on-grid cell inside that very cell |
| Reach.ReachCells | falling/Assets/Scripts/LayerPooler.cs:135-146 | The cells covered sideways during one gap's fall are never negative with a non-negative slack, and are zero for a player that cannot move |
| Reach.SearchRadius | falling/Assets/Scripts/LayerPooler.cs:135-147 | The search radius is never below minRadiusCells, and it is non-negative when the slack is |
| Reach.FallTime | falling/Assets/Scripts/LayerPooler.cs:135-140 | The time to fall one gap is positive whatever the settings, because both operands are clamped away from zero |
| Reach.RadiusMonotone | falling/Assets/Scripts/LayerPooler.cs:135-147 | The radius never shrinks when the player moves faster, falls slower, the gap widens or the slack grows |
| Reach.RowMembers | falling/Assets/Scripts/LayerPooler.cs:159-164 | One row of the inner loop collects exactly the cells of that row, in its x range, within the radius |
| Reach.GridMembers | falling/Assets/Scripts/LayerPooler.cs:158-165 | The two loops collect exactly the cells in the z and x ranges that lie within the radius |
| Reach.CandidateMembers | falling/Assets/Scripts/LayerPooler.cs:150-165 | A cell is a candidate exactly when it lies in the clamped box around the previous hole and within the radius of it |
| Reach.CandidatesValid | falling/Assets/Scripts/LayerPooler.cs:150-165 | Every candidate is a corner in [0, gridSize-2]² with squared distance to the previous hole at most rCells² |
| Reach.CandidatesComplete | falling/Assets/Scripts/LayerPooler.cs:150-165 | With a non-negative radius, every corner in [0, gridSize-2]² within the radius is a candidate: the clamped box loses none |
| Reach.BoxLo | falling/Assets/Scripts/LayerPooler.cs:150-153 | The lower edge of the searched box lies in [0, max]; inside the grid it is the floor of c - rCells |
| Reach.BoxHi | falling/Assets/Scripts/LayerPooler.cs:150-153 | The upper edge of the searched box lies in [0, max]; inside the grid it is the ceiling of c + rCells |
| Reach.AxisInBox | falling/Assets/Scripts/LayerPooler.cs:150-153 | A coordinate in [0, max] within r of c on one axis lies between the clamped floor and ceiling bounds |
| Reach.PreviousHoleIsCandidate | falling/Assets/Scripts/LayerPooler.cs:150-170 | With a non-negative radius and a previous hole in [0, gridSize-2]², that hole is a candidate, so the whole-grid fallback is never taken |
| Reach.CollectCandidates | falling/Assets/Scripts/LayerPooler.cs:150-165 | The nested loops build the candidate list, in z-major, x-minor order |
| Ladder.Lowest | falling/Assets/Scripts/LayerPooler.cs:184-190 | The running minimum is None exactly when no tile is present; otherwise it is the height of some present tile and no present tile is lower |
| Ladder.MinLayerYBounds | falling/Assets/Scripts/LayerPooler.cs:182-197 | GetMinLayerY's value is origin.y when no tile is present; otherwise it is a present tile's height, at most every present tile's height |
| Ladder.Recycle | falling/Assets/Scripts/LayerPooler.cs:119-122 | Recycling keeps the number of tiles; LowestAfterRecycle states where the tile lands |
| Ladder.LowestAfterRecycle | falling/Assets/Scripts/LayerPooler.cs:114-126 | A recycled tile lands strictly below every other present tile, and the new minimum is the old one minus the gap |
| Ladder.Step | falling/Assets/Scripts/LayerPooler.cs:100-107 | One visit keeps the number of tiles |
| Ladder.Pass | falling/Assets/Scripts/LayerPooler.cs:98-108 | The loop's visits from one index on keep the number of tiles; PassLanding gives its result in closed form |
| Ladder.VisitStep | falling/Assets/Scripts/LayerPooler.cs:98-108 | While the tiles from index i on are as they were, the visit of tile i decides as it would on the original heights, and the rest of the loop still leads to the whole loop's result |
| Ladder.BelowIsMultiple | falling/Assets/Scripts/LayerPooler.cs:76 | n gaps below m is m - n·gap |
| Ladder.PassAdvance | falling/Assets/Scripts/LayerPooler.cs:98-108 | One visit keeps the tiles already visited at their closed-form landing, the rest as they were, and the minimum c gaps below the original one, c counting the tiles recycled so far |
| Ladder.PassFrom | falling/Assets/Scripts/LayerPooler.cs:98-108 | Finishing the loop from any such intermediate state gives each tile its closed-form landing |
| Ladder.PassLanding | falling/Assets/Scripts/LayerPooler.cs:92-109 | One UpdateRecycle pass sends the c-th tile in list order that is present and above the threshold (c counted from 1) c gaps below the original lowest tile, and keeps every other tile |
| Ladder.LandingsApart | falling/Assets/Scripts/LayerPooler.cs:92-109 | Two recycled tiles land as many gaps apart as there are recycled tiles from the first up to the second |
| Ladder.PassKeeps | falling/Assets/Scripts/LayerPooler.cs:98-108 | A pass keeps every tile it does not recycle and neither adds nor removes tiles |
| Ladder.PassRecycledBelow | falling/Assets/Scripts/LayerPooler.cs:92-126 | After a pass every recycled tile sits strictly below every tile left in place |
| Ladder.PassRecycledStacked | falling/Assets/Scripts/LayerPooler.cs:92-126 | After a pass, of two recycled tiles the later in list order is lower, by a whole positive number of gaps, so no two share a height |
| Ladder.Regrid | falling/Assets/Scripts/LayerPooler.cs:122 | Moving recycled tiles to the origin's x and z keeps the number of tiles |
| Ladder.RegridAt | falling/Assets/Scripts/LayerPooler.cs:98-122 | After the visits of the first n tiles, a recycled tile among them sits at the origin's x and z and every other tile keeps its own |
| Ladder.Stack | falling/Assets/Scripts/LayerPooler.cs:73-77 | The initial layout has poolCount tiles |
| Ladder.StackLowest | falling/Assets/Scripts/LayerPooler.cs:73-77 | The lowest tile of the initial stack is its last, so the first recycled tile continues the stack one gap lower |
| Ladder.OnCourseStep | falling/Assets/Scripts/LayerPooler.cs:98-108 | One visit of the loop, on heights that agree with the original ones from the visited index on, decides as the original heights would and keeps the loop on course to the whole pass's heights and x, z |
| Ladder.RisingCount | falling/Assets/Scripts/LayerPooler.cs:104 | A height among the first k tiles is recycled by a pass exactly when it lies above the threshold, as often as it occurs |
| Ladder.StayingCount | falling/Assets/Scripts/LayerPooler.cs:104 | A height among the first k tiles is left by a pass exactly when it does not lie above the threshold, as often as it occurs |
| Ladder.SameSplit | falling/Assets/Scripts/LayerPooler.cs:98-108 | Two lists of the same heights in any order have the same heights recycled, the same heights left and the same number recycled |
| Ladder.StackSplitsAt | falling/Assets/Scripts/LayerPooler.cs:98-108 | On a freshly laid stack a pass recycles exactly the top c tiles and leaves the others |
| Ladder.LandedSplit | falling/Assets/Scripts/LayerPooler.cs:98-126 | After a pass the heights are those left in place plus c heights stacked one gap apart below the old lowest, c the number recycled |
| Ladder.LadderLowest | falling/Assets/Scripts/LayerPooler.cs:182-197 | The lowest height of a shuffled stack of n is the stack's n-th |
| Ladder.PassKeepsStack | falling/Assets/Scripts/LayerPooler.cs:92-126 | If the heights are a stack from top, in any order, then after a pass they are the stack from c gaps below top, c the number recycled: no gap opens and no two tiles share a height |
| Ladder.PassShiftsStacks | falling/Assets/Scripts/LayerPooler.cs:92-126 | PassKeepsStack for every top at once |
| Ladder.PassKeepsLadder | falling/Assets/Scripts/LayerPooler.cs:92-126 | A pass keeps the heights a shuffled stack one gap apart |
| Pooler.MovedAlone | falling/Assets/Scripts/LayerPooler.cs:122 | Moving one tile of a list with no repeats changes the list's heights and x, z at that tile's index alone |
| Pooler.LooksAlone | falling/Assets/Scripts/LayerPooler.cs:122-125 | When no tile but the one at index i changes what it shows, the list's looks change at index i alone |
| Pooler.KeptAdvance | falling/Assets/Scripts/LayerPooler.cs:98-108 | One visit keeps every tile not yet recycled as it was and gives every recycled tile, when holes fit, the hole picked for it, the picks in visiting order |
| Pooler.StackOf | falling/Assets/Scripts/LayerPooler.cs:73-77 | Tiles laid out k gaps below the origin (LaidAt) are initialised at (origin.x, origin.y - k·layerGap, origin.z), and their heights are Stack from origin.y, a ladder one gap apart |
| Pooler.LayerPooler.constructor | falling/Assets/Scripts/LayerPooler.cs:7-35 | A new pool has the given settings, an empty list and previous hole (4, 4) |
| Pooler.LayerPooler.PickNextHole | falling/Assets/Scripts/LayerPooler.cs:131-177 | The pick is stored as the previous hole. It is a candidate when there are any. It is a corner in [0, gridSize-2]² when gridSize ≥ 2. It lies within the radius of a valid previous hole |
| Pooler.LayerPooler.GetMinLayerY | falling/Assets/Scripts/LayerPooler.cs:182-197 | The loop returns the lowest height of a present tile, or origin.y when none is present |
| Pooler.LayerPooler.Moved | falling/Assets/Scripts/LayerPooler.cs:114-126 | Moving and re-holing one recyclable tile keeps the pool valid; every other pooled tile keeps its position, initialised flag, hole and blocks |
| Pooler.LayerPooler.Place | falling/Assets/Scripts/LayerPooler.cs:122-125 | The tile is put at (origin.x, y, origin.z) with a hole picked as PickNextHole promises. That hole is cut in the tile when it fits. Every other pooled tile keeps its position, hole and blocks |
| Pooler.LayerPooler.RecycleLayer | falling/Assets/Scripts/LayerPooler.cs:114-126 | A null tile or an empty pool changes nothing. Otherwise the tile goes to (origin.x, minY - layerGap, origin.z) with minY the old lowest height, and gets a freshly picked hole, cut in it when it fits. Every other pooled tile keeps its position, hole and blocks |
| Pooler.LayerPooler.Visit | falling/Assets/Scripts/LayerPooler.cs:100-107 | Tile i is recycled exactly when it is present and above the threshold; heights and x, z change as Step and Regrid say. A recycled tile shows the picked hole when holes fit, and no other tile changes what it shows. A tile left in place changes nothing and keeps the previous hole |
| Pooler.LayerPooler.RecycleAt | falling/Assets/Scripts/LayerPooler.cs:104-106 | Recycling the tile at index i changes the list's heights as Recycle says and its x, z at i alone. The hole picked is one PickNextHole may give and is the tile's hole when holes fit. No other tile changes what it shows |
| Pooler.LayerPooler.Advance | falling/Assets/Scripts/LayerPooler.cs:98-108 | One turn of the loop keeps it on course to the whole pass's heights and x, z. It extends the chain of picks by one for a recycled tile, and keeps every tile not recycled as it was |
| Pooler.LayerPooler.VisitAll | falling/Assets/Scripts/LayerPooler.cs:98-108 | The whole loop, from a state on course to the pass, ends at the pass's heights and x, z with the chain of picks of all recycled tiles |
| Pooler.LayerPooler.HolesShown | falling/Assets/Scripts/LayerPooler.cs:98-108 | At the end of the loop, when holes fit, the c-th recycled tile shows the c-th pick |
| Pooler.LayerPooler.RecycleAbove | falling/Assets/Scripts/LayerPooler.cs:96-108 | The loop leaves the heights as Pass gives them and the x, z as Regrid gives them. A tile not recycled shows what it showed. The picks form a chain, each reachable from the one before, one per recycled tile, and the last is the previous hole. When holes fit, the c-th recycled tile shows the c-th pick. Heights that were a shuffled stack one gap apart stay one, c gaps lower, c the number recycled (StackLowered) |
| Pooler.LayerPooler.InitializePool | falling/Assets/Scripts/LayerPooler.cs:50-87 | A missing prefab, poolCount ≤ 0, layerGap ≤ 0 or a non-empty list changes nothing. Otherwise there are poolCount new initialised tiles, tile i at (origin.x, origin.y - i·layerGap, origin.z), together forming Stack, a ladder one gap apart. Their holes are a run of poolCount picks, each Picked from the one before (Chain) starting at the previous hole. When the holes fit, tile k shows the k-th pick, and the last pick (the bottom tile's hole) becomes the previous hole |
| Pooler.LayerPooler.LayTile | falling/Assets/Scripts/LayerPooler.cs:75-85 | One turn adds a new initialised tile at index i, i gaps below the origin. Its hole is Picked from the previous hole, becomes the previous hole, and is the tile's hole when the holes fit. No earlier tile moves or changes what it shows |
| Pooler.LayerPooler.LayAll | falling/Assets/Scripts/LayerPooler.cs:73-86 | The whole loop lays out poolCount tiles, tile k k gaps below the origin, with a Chain of picks from the previous hole ending in the new previous hole, tile k showing the k-th when the holes fit |
| Pooler.LayerPooler.LayNext | falling/Assets/Scripts/LayerPooler.cs:73-86 | One turn of the loop extends the tiles laid out by one and the Chain of picks by the new tile's hole, keeping every earlier tile |
| Pooler.LayerPooler.AddLayer | falling/Assets/Scripts/LayerPooler.cs:85 | The list grows by the placed tile alone and the pool stays valid |
| Pooler.LayerPooler.UpdateRecycle | falling/Assets/Scripts/LayerPooler.cs:92-109 | Without a player or with an empty pool nothing changes. Otherwise every tile above player.y + recycleAbovePlayer when visited is recycled, as RecycleAbove states. With layerGap > 0, heights that were a shuffled stack from some top stay one, c gaps lower, c the number recycled (StackLowered) |
| LegacyPooler.LayerPooler.constructor | falling/Assets/LayerPooler.cs:7-22 | A new pool has the given settings, an empty list and previous hole (4, 4) |
| LegacyPooler.LayerPooler.PickNextHole | falling/Assets/LayerPooler.cs:122-137 | Both coordinates are drawn from [0, 8] and recorded as the previous hole |
| LegacyPooler.LayerPooler.GetMinLayerY | falling/Assets/LayerPooler.cs:142-157 | The loop returns the lowest height of a present tile, or origin.y when none is present |
| LegacyPooler.LayerPooler.Moved | falling/Assets/LayerPooler.cs:105-117 | Moving and re-holing one recyclable tile keeps the pool valid; every other pooled tile keeps its position, initialised flag, hole and blocks |
| LegacyPooler.LayerPooler.Place | falling/Assets/LayerPooler.cs:113-116 | The tile is put at (origin.x, y, origin.z) with a hole corner in [0, 8]², cut in the tile when it is at least 10 wide. Every other pooled tile keeps its position, hole and blocks |
| LegacyPooler.LayerPooler.RecycleLayer | falling/Assets/LayerPooler.cs:105-117 | A null tile or an empty pool changes nothing. Otherwise the tile goes to (origin.x, minY - layerGap, origin.z) with a new hole in [0, 8]², cut in it when it is at least 10 wide. Every other pooled tile keeps its position, hole and blocks |
| LegacyPooler.LayerPooler.Visit | falling/Assets/LayerPooler.cs:91-98 | Tile i is recycled exactly when it is present and above the threshold; heights and x, z change as Step and Regrid say. A recycled tile gets a hole in [0, 8]², shown when holes fit, and no other tile changes what it shows. A tile left in place changes nothing and keeps the previous hole |
| LegacyPooler.LayerPooler.RecycleAt | falling/Assets/LayerPooler.cs:95-97 | Recycling the tile at index i changes the list's heights as Recycle says and its x, z at i alone. The hole drawn lies in [0, 8]² and is the tile's hole when holes fit. No other tile changes what it shows |
| LegacyPooler.LayerPooler.Advance | falling/Assets/LayerPooler.cs:89-99 | One turn of the loop keeps it on course to the whole pass's heights and x, z. It adds one pick in [0, 8]² for a recycled tile, and keeps every tile not recycled as it was |
| LegacyPooler.LayerPooler.VisitAll | falling/Assets/LayerPooler.cs:89-99 | The whole loop, from a state on course to the pass, ends at the pass's heights and x, z with one pick in [0, 8]² per recycled tile |
| LegacyPooler.LayerPooler.HolesShown | falling/Assets/LayerPooler.cs:89-99 | At the end of the loop, when holes fit, the c-th recycled tile shows the c-th pick |
| LegacyPooler.LayerPooler.RecycleAbove | falling/Assets/LayerPooler.cs:87-99 | The loop leaves the heights as Pass gives them and the x, z as Regrid gives them. A tile not recycled shows what it showed. There is one pick in [0, 8]² per recycled tile, and the last is the previous hole. When holes fit, the c-th recycled tile shows the c-th pick. Heights that were a shuffled stack one gap apart stay one, c gaps lower, c the number recycled (StackLowered) |
| LegacyPooler.LayerPooler.InitializePool | falling/Assets/LayerPooler.cs:37-78 | A missing prefab or player, poolCount ≤ 0, layerGap ≤ 0 or a non-empty list changes nothing. Otherwise there are poolCount new initialised tiles, tile i at (origin.x, origin.y - i·layerGap, origin.z), together forming Stack, a ladder one gap apart. Their holes are a run of poolCount draws in [0, 8]²; tile k shows the k-th when the holes fit, and the last draw becomes the previous hole |
| LegacyPooler.LayerPooler.LayTile | falling/Assets/LayerPooler.cs:66-76 | One turn adds a new initialised tile at index i, i gaps below the origin. Its hole is drawn from [0, 8]², becomes the previous hole, and is the tile's hole when the holes fit. No earlier tile moves or changes what it shows |
| LegacyPooler.LayerPooler.LayAll | falling/Assets/LayerPooler.cs:64-77 | The whole loop lays out poolCount tiles, tile k k gaps below the origin, with a run of draws in [0, 8]² ending in the new previous hole, tile k showing the k-th when the holes fit |
| LegacyPooler.LayerPooler.LayNext | falling/Assets/LayerPooler.cs:64-77 | One turn of the loop extends the tiles laid out by one and the run of draws by the new tile's hole, keeping every earlier tile |
| LegacyPooler.LayerPooler.AddLayer | falling/Assets/LayerPooler.cs:76 | The list grows by the placed tile alone and the pool stays valid |
| LegacyPooler.LayerPooler.UpdateRecycle | falling/Assets/LayerPooler.cs:83-100 | Without a player or with an empty pool nothing changes. Otherwise every tile above player.y + recycleAbovePlayer when visited is recycled, as RecycleAbove states. With layerGap > 0, heights that were a shuffled stack from some top stay one, c gaps lower, c the number recycled (StackLowered) |

## Left out

- Debug.Log, Debug.LogWarning and Debug.LogError calls, including the scan for missing blocks in `Initialize`: logging only.
- The tile's blocks are its child GameObjects. The model keeps the children's names and initial active states as authored, and the active states in the grid. What `SetActive` does to rendering and colliders is not modelled.
- `Instantiate` and parenting: a new tile is a fresh copy of the prefab's size, cell size, children and position. Unity calls `Awake` on the copy, which is modelled as the tile's first `Initialize` call.
- Floor.FloorLayer.CellToLocalCenter: `transform.TransformPoint` is left out; only the clamped local centre is modelled.
- IEEE single-precision rounding: all float arithmetic is on reals, so the heights `origin.y - i * layerGap` are exact.
- Engine.Random.Range: the contract states only the interval drawn from. Unity's generator and the uniformity of its draws are not modelled. Any seeded source meets the contract; the body is a linear congruential step.
- Text.TryParseInt: models `NumberStyles.Integer` with the invariant culture: leading and trailing white space, then trailing NUL characters, as .NET's parser allows. Culture-specific signs and digits are not modelled.
- Engine.FloorToInt: gives the exact floor as an unbounded integer. The C# conversion of a float beyond the range of int, which yields an unspecified value, is not modelled; the search box of PickNextHole only reaches it for a radius near 2^31 cells.
- Engine.CeilToInt: gives the exact ceiling as an unbounded integer, with the same out-of-range conversion left out as for FloorToInt.
- Floor.FloorLayer.constructor: the tile's size is a `nat`. A negative serialized size, for which `new GameObject[size, size]` in `Initialize` throws an `OverflowException`, is not modelled.
- The player's motion, and the `Start`/`Update` callbacks that call `InitializePool` and `UpdateRecycle`. The player's position is a field the caller sets.
- Pooler.LayerPooler.InitializePool: promises each new tile shows its own hole only when the pool's corners fit the tile (2 ≤ gridSize ≤ size). Otherwise a refused corner leaves the tile with all its authored blocks.
- LegacyPooler.LayerPooler.InitializePool: promises each tile shows its own hole only for tiles at least 10 wide, the size the uniform draw in [0, 8]² is written for.
- The other scripts of the game: movement, camera, scoring, UI, audio, signals and editor tooling.
