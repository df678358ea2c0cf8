# Tower defense board and enemy walk, modelled in Dafny

This project models the discrete core of a Unity tower-defense game:

- the game board (`GameBoard`): a `width` by `height` grid of tiles
  addressed row-major, each wired to its north, south, east and west
  neighbours, with a checkerboard parity flag and a content tag (empty,
  wall, destination, or spawn point);
- the path search (`FindPaths`): a multi-source breadth-first search from
  every destination over a persistent frontier queue. It gives every
  reachable tile a distance and a next tile, and it reports whether every
  tile ended with a path;
- the editing operations (`ToggleWall`, `ToggleDestination`). Each changes
  one tile, re-runs the search and undoes the change when it would leave a
  tile without a path;
- the mapping of a hit point on the ground plane to a tile (`GetTile`);
- an enemy (`Enemy`), which is spawned on a tile and then, frame by frame,
  walks from tile to tile along the search's next links. Once the tile it
  enters has no next tile, it is reclaimed by its factory.

Files:

- `grid.dfy` (module `Grid`): row-major addressing, the neighbour wiring,
  and `GetTile`'s point-to-tile mapping.
- `paths.dfy` (module `Paths`): content tags and routes to a destination.
  It defines what a consistent path state is and proves it sound and
  complete for connectivity. It also defines walks along the next links.
- `board.dfy` (module `Board`): the class `GameBoard`, holding its tiles'
  state in arrays and the search queue in a field. It contains
  `Initialize`, the search and the toggles.
- `enemy.dfy` (module `Enemies`): the class `Enemy` with `SpawnOn` and the
  `GameUpdate` advance loop.

Representation choices:

- Tiles are indices `0 .. width*height-1`, and -1 stands for `null` (a
  missing neighbour, no next tile, or a `null` queue entry).
- A tile with no path has distance -1.
- Only walls block the search. A blocking neighbour still receives a
  distance and a next tile, but the growth step returns `null` for it, so
  the search never expands from it.
- `Debug.Assert` checks (`Redefined origin factory!`, `Nowhere to go!`) are
  stated as preconditions.
- The board's dimensions are at least 2. `Game.OnValidate`
  (Game.cs:36-41) clamps them to that, so `Initialize` requires it.
- `GameTile.cs` is not part of this model. Its members used here follow
  the behaviour their names and call sites give them:
  - `BecomeDestination` and `clearPath`;
  - `GrowPathTo`, behind `GrowPathNorth` and its siblings;
  - `HasPath` and `NextTileOnPath`;
  - `MakeEastWestNeighbors` and `MakeNorthSouthNeighbors`.

`GetTile` casts the shifted hit coordinate with `(int)`, which truncates
toward zero. So a hit up to one unit west or south of the board still
passes the bounds check and selects a tile of the first column or row;
rounding down would reject it. The model follows the code
(`Grid.GetTileAtPoint`) and records the difference under Findings.

## Model

All source paths are under `TowerDefenseLearning/Assets/Scripts/`; the cells repeat it in full.

| member | source | states |
|---|---|---|
| Grid.Coordinates | TowerDefenseLearning/Assets/Scripts/GameBoard.cs:71-74 | The index `x + y*width` of every cell lies in `0 .. width*height-1`, and `%` and `/` recover the column and the row from it. |
| Grid.Decompose | TowerDefenseLearning/Assets/Scripts/GameBoard.cs:71-74 | Conversely, every index on the board is the index of the column and row read off it. Together with `Coordinates`, row-major addressing is a bijection. |
| Grid.GridLinksByIndex | TowerDefenseLearning/Assets/Scripts/GameBoard.cs:80-85 | The grid wiring in index form: `i` links to `i±1` only within a row, and to `i±width` only when that index is on the board. Nothing wraps around. |
| Grid.GetTile | TowerDefenseLearning/Assets/Scripts/GameBoard.cs:132-136 | A tile is returned exactly when `0 <= x < width` and `0 <= y < height`. That tile's column and row are `x` and `y`. Otherwise the result is `null`. |
| Grid.TruncateTowardZero | TowerDefenseLearning/Assets/Scripts/GameBoard.cs:130-131 | The `(int)` conversion drops the fraction toward zero, for both signs. |
| Grid.TruncatedOnBoard | TowerDefenseLearning/Assets/Scripts/GameBoard.cs:130-132 | After truncation, a shifted coordinate passes the bounds check exactly when it lies strictly between -1 and the board size. |
| Grid.GetTileAtPoint | TowerDefenseLearning/Assets/Scripts/GameBoard.cs:128-137 | As written, a tile is selected exactly for hit points with `-size/2 - 1 < p < size/2` on each axis, and it is on the board. For a hit on the board it is the same tile as with flooring, the one whose cell holds the point. A hit west of the board selects a tile of the first column, and a hit south of it a tile of the first row. |
| Grid.HitWestOfBoardSelectsCorner | TowerDefenseLearning/Assets/Scripts/GameBoard.cs:130-133 | A hit half a unit west of the board's west edge still selects tile 0, the south-west corner. |
| Grid.GetTileAtPointFloored | TowerDefenseLearning/Assets/Scripts/GameBoard.cs:128-137 | With flooring, a tile is selected exactly for hit points on the board, and the point lies inside the selected tile's cell. |
| Board.MakeEastWestNeighbors | TowerDefenseLearning/Assets/Scripts/GameBoard.cs:80-82 | Joins two tiles east and west of each other and changes no other link. |
| Board.MakeNorthSouthNeighbors | TowerDefenseLearning/Assets/Scripts/GameBoard.cs:83-85 | Joins two tiles north and south of each other and changes no other link. |
| Board.LinkTile | TowerDefenseLearning/Assets/Scripts/GameBoard.cs:80-85 | Placing tile `i` (joining it west when `x > 0` and south when `y > 0`) turns the links of the first `i` tiles into those of the first `i+1`. |
| Board.PlaceTile | TowerDefenseLearning/Assets/Scripts/GameBoard.cs:74-92 | One inner-loop pass gives tile `i` its links, its parity flag `(x even) != (y even)` and empty content. It joins tile `i`'s west and south neighbours back to it (the east link of `i-1`, the north link of `i-width`), and keeps every other tile's content and parity flag. |
| Board.PlaceRow | TowerDefenseLearning/Assets/Scripts/GameBoard.cs:73-93 | The inner loop places the `width` tiles of row `y`, west to east. Afterwards the first `(y+1)*width` tiles have their links, parity flags and empty content. |
| Board.LayOutTiles | TowerDefenseLearning/Assets/Scripts/GameBoard.cs:71-94 | The nested loops give all `width*height` tiles their links, their parity flags and empty content. |
| Board.LinksBuiltComplete | TowerDefenseLearning/Assets/Scripts/GameBoard.cs:72-94 | Once every tile is placed, tile `(x, y)` has exactly the grid links: north, south, east and west where that neighbour is on the board. |
| Board.GameBoard.Initialize | TowerDefenseLearning/Assets/Scripts/GameBoard.cs:61-97 | The board's arrays are new, so the caller may edit it. The board has `w*h` tiles, each with its grid links and its parity flag. The centre tile `w*h/2` is the only destination. The search queue is empty, and the path state matches connectivity. Every tile is connected to the destination and has a path (distance at least 0). |
| Board.CentredBoardConnected | TowerDefenseLearning/Assets/Scripts/GameBoard.cs:71-96 | A board wired as a grid, empty but for a destination at its centre tile, has every tile connected. |
| Board.GameBoard.BecomeDestination | TowerDefenseLearning/Assets/Scripts/GameBoard.cs:141-143 | A destination gets distance 0 and no next tile. |
| Board.GameBoard.ClearPath | TowerDefenseLearning/Assets/Scripts/GameBoard.cs:145-147 | Any other tile gets no path. |
| Board.GameBoard.ResetPaths | TowerDefenseLearning/Assets/Scripts/GameBoard.cs:140-148 | The reset loop makes every destination a root and queues exactly those roots. Every other tile loses its path, and the path state is consistent. |
| Board.GameBoard.GrowPathTo | TowerDefenseLearning/Assets/Scripts/GameBoard.cs:158-167 | Growing into a missing or already reached neighbour changes nothing and returns `null`. Otherwise the neighbour gets distance one more and this tile as its next tile. It is returned for expansion only if it does not block. |
| Board.GameBoard.EnqueueGrowth | TowerDefenseLearning/Assets/Scripts/GameBoard.cs:158-167 | Queuing one growth result keeps the search invariants: a consistent path state, valid queue entries, and closure except at the tile being expanded. It also lowers the termination measure. |
| Board.GameBoard.Expand | TowerDefenseLearning/Assets/Scripts/GameBoard.cs:156-169 | Expanding a dequeued tile in either parity order reaches all its neighbours and restores closure of the search. |
| Board.GameBoard.GrowFour | TowerDefenseLearning/Assets/Scripts/GameBoard.cs:158-167 | Growing into four given neighbours in the given order, and queuing the results, reaches each of them and keeps the search invariants. |
| Board.DequeueKeepsSearch | TowerDefenseLearning/Assets/Scripts/GameBoard.cs:154-156 | Taking the head off the queue keeps the rest of the queue valid. The search is closed except at the head, and a tile head leaves one tile fewer queued. |
| Board.GameBoard.DrainFrontier | TowerDefenseLearning/Assets/Scripts/GameBoard.cs:154-170 | The loop terminates, because each round reaches a new tile or shrinks the queue, and the queue ends empty. The search is then closed: every passable tile with a path has all its neighbours reached. |
| Board.GameBoard.SearchFromRoots | TowerDefenseLearning/Assets/Scripts/GameBoard.cs:154-176 | Once the roots are queued, draining the queue and scanning the board answers true exactly when every tile is connected to a destination. Every tile with a path is connected to one. |
| Board.GrowKeepsPathGraph | TowerDefenseLearning/Assets/Scripts/GameBoard.cs:158-167 | A growth step keeps the path state consistent: the new tile points one step nearer a destination. |
| Board.GrowKeepsSearch | TowerDefenseLearning/Assets/Scripts/GameBoard.cs:158-167 | A growth step keeps the search closed except at the tile being expanded, and keeps the queue valid. It either reaches a new tile or queues `null`. |
| Board.GameBoard.EveryTileHasPath | TowerDefenseLearning/Assets/Scripts/GameBoard.cs:172-176 | The final scan answers true exactly when every tile has a path. |
| Board.GameBoard.FindPaths | TowerDefenseLearning/Assets/Scripts/GameBoard.cs:139-184 | The search terminates with the queue empty. A tile has a path exactly when a route joins it to a destination. The result is true exactly when a destination exists and every tile has a path, which is exactly when every tile is connected. |
| Board.GameBoard.ToggleWall | TowerDefenseLearning/Assets/Scripts/GameBoard.cs:114-126 | Wall to empty always happens. Empty to wall is kept exactly when every tile stays connected with the wall. Other content is untouched, and so is every other tile. The path state is current afterwards. |
| Board.GameBoard.ToggleDestination | TowerDefenseLearning/Assets/Scripts/GameBoard.cs:99-112 | Empty to destination always happens. Destination to empty is kept exactly when every tile stays connected without it, so removing the last destination is always undone. Other content is untouched. |
| Paths.PathedIsConnected | TowerDefenseLearning/Assets/Scripts/GameBoard.cs:154-170 | Soundness: in a consistent path state, a tile with distance `d` has a route of `d+1` tiles from a destination through non-blocking tiles. |
| Paths.RouteIsPathed | TowerDefenseLearning/Assets/Scripts/GameBoard.cs:154-170 | Completeness: once the search is closed, every tile on a route from a destination has a path. |
| Paths.NoDestinationNoRoute | TowerDefenseLearning/Assets/Scripts/GameBoard.cs:150-152 | Without a destination no tile is connected, so a non-empty board is not all connected. The early `false` return is therefore right. |
| Paths.PathedIffConnected | TowerDefenseLearning/Assets/Scripts/GameBoard.cs:154-176 | When the search ends, a tile has a path if and only if it is connected to a destination. |
| Paths.RoutesSurviveRelaxing | TowerDefenseLearning/Assets/Scripts/GameBoard.cs:108-117 | Clearing a wall or adding a destination never disconnects a tile. |
| Paths.RouteExtends | TowerDefenseLearning/Assets/Scripts/GameBoard.cs:154-168 | A route to a passable tile goes on to each of its four neighbours, as the search grows a dequeued tile into them. |
| Paths.RowConnected | TowerDefenseLearning/Assets/Scripts/GameBoard.cs:72-85 | On a grid-wired board without walls, every tile in the destination's row is connected, walking along the row. |
| Paths.ColumnConnected | TowerDefenseLearning/Assets/Scripts/GameBoard.cs:72-85 | On a grid-wired board without walls, every tile is connected: along the destination's row to its column, then along the column. |
| Paths.OpenGridAllConnected | TowerDefenseLearning/Assets/Scripts/GameBoard.cs:72-85 | A grid-wired board with no walls and a destination has every tile connected. |
| Paths.Follow | TowerDefenseLearning/Assets/Scripts/Enemy.cs:35-36 | Following `k` next links from a tile stays on the board or yields `null`, and `null` stays `null`. |
| Paths.FollowStep | TowerDefenseLearning/Assets/Scripts/Enemy.cs:35-36 | `k+1` steps are one more next link after `k` steps. |
| Paths.FollowReachesDestination | TowerDefenseLearning/Assets/Scripts/Enemy.cs:34-41 | From a tile with distance `d`, the next links stay on the board for `d` steps, one distance unit nearer each time. They end on a destination after exactly `d` steps and give `null` after that. |
| Paths.PathGraphSuccessors | TowerDefenseLearning/Assets/Scripts/GameBoard.cs:158-167 | In a consistent path state every tile's next tile is on the board or `null`. |
| Enemies.Steps | TowerDefenseLearning/Assets/Scripts/Enemy.cs:33-45 | The number of advances for accumulated progress `total` is `total` rounded down, or 0 when `total < 1`. |
| Enemies.WalkStaysEnded | TowerDefenseLearning/Assets/Scripts/Enemy.cs:36-41 | A walk that has reached `null` stays `null`, so a later stopping point cannot revive it. |
| Enemies.ReclaimedOnlyAtDestination | TowerDefenseLearning/Assets/Scripts/Enemy.cs:36-41 | On a consistent path state, a walk from a tile with distance `d` is on the board after `m` steps exactly while `m <= d`. The tile reached has no next tile exactly when it is a destination, which is exactly when `m == d`. The next links of a consistent path state stay on the board, so they can drive `Enemy.GameUpdate`. |
| Enemies.Enemy.constructor | TowerDefenseLearning/Assets/Scripts/Enemy.cs:7-11 | A new enemy has no factory, no tiles and no progress. |
| Enemies.Enemy.SetOriginFactory | TowerDefenseLearning/Assets/Scripts/Enemy.cs:15-18 | The origin factory is set only while unset, and nothing else changes. |
| Enemies.Enemy.SpawnOn | TowerDefenseLearning/Assets/Scripts/Enemy.cs:22-30 | The spawn tile needs a next tile. The enemy then walks from the tile to that next tile with progress 0. |
| Enemies.Enemy.GameUpdate | TowerDefenseLearning/Assets/Scripts/Enemy.cs:32-48 | The enemy stays alive exactly when the walk from its target tile over `Steps(progress + delta)` next links does not reach `null`. Alive: it made exactly that many advances, its tiles are the last two on the walk, `progress` is the remainder below 1, and it is non-negative for a non-negative total. Dead: it made fewer advances than that, `tileFrom` is the tile reached after them, which is on the board and has no next tile, and it is reclaimed with `tileTo` `null` and progress left unreduced. |

## Left out

- Rendering and scene objects are not modelled: `ShowGrid`, `ShowPaths` and `ShowPath`/`HidePath`, the ground's scale, `Instantiate`, tile transforms and `localPosition`. They draw the state modelled here and do not change it.
- Enemy positions are not modelled: `positionFrom`, `positionTo`, `ExitPoint` and the `Vector3.Lerp` placement. They interpolate the walk and do not affect which tiles it visits.
- `Physics.Raycast` is not modelled. `GetTile` starts from the hit point (`Grid.GetTileAtPoint`) or from the truncated column and row (`Grid.GetTile`).
- Content factories and object pooling are not modelled: content is a tag, and `OriginFactory.Reclaim` sets the flag `reclaimed`. A `null` origin factory at reclaim time (a null dereference) is not modelled.
- `Time.deltaTime` is the parameter `delta`. Floating-point arithmetic is modelled with exact reals, so accumulated rounding of `progress` is not captured.
- `GameTile.cs` is not part of this model. Its members used here follow the behaviour their names and call sites give them: a tile with no path has distance -1, and only walls block. The spawn point content is the tag `SpawnPoint`, which no modelled operation creates.
- `Game.cs` and `Tower.cs` are not modelled: input handling, spawn cadence, random spawn points, towers. `ToggleSpawnPoint`, `GetSpawnPoint` and `SpawnPointCount` do not appear in `GameBoard.cs`.
- Board.GameBoard.FindPaths: the distances are proved to be lengths of real routes (`Paths.PathedIsConnected`), but not to be the shortest ones. The order of equal-length paths chosen by the parity flag is not stated either.
- Enemies.Enemy.SetOriginFactory and Enemies.Enemy.SpawnOn: Unity's `Debug.Assert` only logs and continues. The model states those checks as preconditions instead of modelling the continuation.
- Enemies.Enemy.SpawnOn also requires an enemy that has not been reclaimed. `EnemyFactory` is not part of this model, and a reclaimed enemy is not spawned again in the modelled code.
- Enemies.Enemy.GameUpdate takes the whole board's `next` links as a sequence, read at the start of the frame. The object graph of tiles is not modelled.

## Findings

| source | as written | input that shows it | evidently intended | confidence | as-written member | corrected member |
|---|---|---|---|---|---|---|
| TowerDefenseLearning/Assets/Scripts/GameBoard.cs:130-131 | `(int)` truncates the shifted hit coordinate toward zero, so a coordinate in `(-1, 0)` becomes column or row 0 | on any board, a hit at `x = -width/2 - 0.5`, `z = -height/2 + 0.5` (half a unit west of the board) returns the corner tile 0 | the bounds check `x >= 0 && x < size.x && y >= 0 && y < size.y` (GameBoard.cs:132) is there to accept only hits on the board; rounding down (`Mathf.FloorToInt`) makes it do that, since truncation maps a coordinate in `(-1, 0)` to 0 and lets it through | low, not executed; the ray usually hits only the ground plane, which may not extend past the board | Grid.HitWestOfBoardSelectsCorner | Grid.GetTileAtPointFloored |
