# LevelGenerator — a Dafny model

This project models the level generator of a small Unity game. The generator works on
a `levelWidth` × `levelHeight` grid of tiles: empty, floor, wall and bottom wall. It
builds a level in these stages:

1. **Setup** makes an empty grid and places one walker on the centre cell, facing a
   random cardinal direction.
2. **CreateFloors** runs a random walk. Each pass does the following in order:
   - marks the cell under every walker as floor;
   - may cull one walker;
   - may turn walkers in a new random direction;
   - may spawn walkers on the cells of existing ones, up to `maxWalkers`;
   - moves every walker one step;
   - clamps every walker into `[1, w-2] × [1, h-2]`.

   The walk stops when the share of floor tiles exceeds `percentToFill`, or after
   `iterationSteps` passes, with at least one pass (a do-while).
3. **CreateWalls** turns every empty neighbour of a floor tile into a wall. It looks at
   all eight neighbours of the floor tiles it visits, which are those with x in
   `[0, w-2]` and y in `[0, h-2]`.
4. **CreateBottomWalls** turns every wall that has a floor tile directly below it
   (y - 1) into a bottom wall.
5. The player is placed on the centre cell.
6. **SpawnExit** places the exit on the visited floor tile farthest from the centre.
   On a tie it keeps the first such tile in scan order. If no floor tile is farther
   than 0, the exit stays on the centre cell.

Files:
- `grid.dfy` (module `Grids`) holds the pieces that are pure values:
  - the tiles and grids;
  - the floor count;
  - the wall pass and the bottom-wall pass, each as a function on grids;
  - their lemmas: saturation, every wall touching a floor tile, the bottom-wall
    characterisation, idempotence, and floors kept.
- `walkers.dfy` (module `Walkers`) holds walkers as values:
  - the direction choice and the clamp;
  - the three random sub-steps (cull, change of direction, spawn) as functions of the
    walkers and the stream of random values, with their lemmas.
- `random_source.dfy` (module `Randomness`) models `Random.value` as an injected
  stream of reals in [0, 1] with a read cursor.
- `level_generator.dfy` (module `LevelGeneration`) holds the class `LevelGenerator`:
  - its fields are an `array2<Tile>` grid and a `seq<Walker>` walker list;
  - every stage is a method that changes them in place. Each method is proved to leave
    the state that a function on values describes: `Marked`, `Cull`, `Redirect`,
    `Spawn`, `Step`, `Walk`, `WallPass` or `BottomPass`;
  - `Generate` runs the stages in the order `Awake` calls them; `LayFloors` groups
    its first two calls, Setup and CreateFloors.

The grid is read as a value by the ghost function `Snapshot`.
`Walk` gives the grid, the walkers and the stream cursor after n passes of the walk.
It takes the walker step as a function argument. The generator's walker step is
`Stepper(values)`, which applies `Step`. The lemmas about `Walk` hold for any walker
step. Those about the walkers and the floor tiles need a step that keeps the walkers
allowed (`KeepsWalkers`), and `StepperKeeps` shows that the generator's step does.

## Model

| member | source | states |
|---|---|---|
| Walkers.DirectionChoice | Assets/Scripts/LevelGenerator.cs:189 | a random value in [0, 1] gives a choice between 0 and 3 |
| Walkers.Direction | Assets/Scripts/LevelGenerator.cs:190-199 | every choice, including the default branch, gives one of the four cardinal vectors |
| Walkers.DirectionBijective | Assets/Scripts/LevelGenerator.cs:190-199 | choices 0 to 3 give four different directions, and every cardinal direction is one of them |
| Walkers.Clamp | Assets/Scripts/LevelGenerator.cs:108-109 | the result lies in [min, max] when min <= max; a value already inside is unchanged; otherwise the result is min or max |
| Walkers.CullFrom | Assets/Scripts/LevelGenerator.cs:69-76 | the cull loop from walker i on: one value is read per walker in order; at the first value below the chance, if two or more walkers exist, that walker is removed and the loop stops; the list keeps its length or loses one walker, and only when it had two or more; it reads at most one value per remaining walker, and exactly one per remaining walker when nobody is removed |
| Walkers.Cull | Assets/Scripts/LevelGenerator.cs:69-76 | the cull loop over all walkers: a non-empty list stays non-empty, keeps its length or loses one walker, and at most one value per walker is read, exactly one each when nobody is removed |
| Walkers.CullFromRemovesOne | Assets/Scripts/LevelGenerator.cs:69-76 | the cull leaves the walkers unchanged, or removes exactly one of them (only when two or more exist); it reads at most one value per remaining walker |
| Walkers.CullKeeps | Assets/Scripts/LevelGenerator.cs:69-76 | after the cull at least one walker remains, no more than before, each one of the original walkers (a sub-multiset) |
| Walkers.Redirect | Assets/Scripts/LevelGenerator.cs:78-85 | the change of direction keeps the number of walkers |
| Walkers.RedirectReads | Assets/Scripts/LevelGenerator.cs:78-85 | the change of direction over n walkers reads between n and 2n values: one chance value per walker, and one direction value for each walker it turns |
| Walkers.RedirectKeepsPositions | Assets/Scripts/LevelGenerator.cs:78-85 | the change of direction moves no walker; each direction is unchanged or a new cardinal one; walkers after the prefix are untouched |
| Walkers.Spawn | Assets/Scripts/LevelGenerator.cs:87-96 | the spawn never shrinks the population, never takes it above max(population, maxWalkers), and adds at most one walker per check |
| Walkers.SpawnReads | Assets/Scripts/LevelGenerator.cs:87-96 | the spawn over n walkers reads between n and 2n values: one chance value per walker checked, and one direction value for each walker it adds |
| Walkers.SpawnKeepsPrefix | Assets/Scripts/LevelGenerator.cs:87-96 | the walkers present before the spawn keep their places and order |
| Walkers.SpawnKeepsWalkers | Assets/Scripts/LevelGenerator.cs:87-96 | every added walker has a cardinal direction and stands on the cell of one of the walkers checked |
| Randomness.RandomSource.Value | Assets/Scripts/LevelGenerator.cs:72 | `Random.value`: the next value of the stream, in [0, 1]; the cursor advances by one |
| Grids.CountColumn | Assets/Scripts/LevelGenerator.cs:202-210 | the number of floor tiles in one column, which is at most its height |
| Grids.CountFloors | Assets/Scripts/LevelGenerator.cs:202-210 | the number of floor tiles in the grid, column by column; the lemmas below show it grows with the floor cells, is the same for grids with the same floor cells, is positive when a floor tile exists and is at most w·h |
| Grids.CountColumnMono | Assets/Scripts/LevelGenerator.cs:202-210 | a column with more floor tiles, cell by cell, counts at least as many |
| Grids.CountFloorsMono | Assets/Scripts/LevelGenerator.cs:202-210 | a grid that keeps every floor tile of another has a floor count at least as large |
| Grids.CountFloorsSame | Assets/Scripts/LevelGenerator.cs:202-210 | grids with the same floor cells have the same floor count |
| Grids.CountColumnPositive | Assets/Scripts/LevelGenerator.cs:202-210 | a column holding a floor tile counts at least one |
| Grids.CountFloorsPositive | Assets/Scripts/LevelGenerator.cs:202-210 | a grid holding a floor tile counts at least one |
| Grids.CountFloorsBound | Assets/Scripts/LevelGenerator.cs:202-210 | the floor count is at most w·h, so the fill share is at most 1 |
| Grids.NearVisitedMeans | Assets/Scripts/LevelGenerator.cs:121-154 | the eight-case neighbour test of the wall pass holds exactly when some visited floor tile is a neighbour |
| Grids.WallPass | Assets/Scripts/LevelGenerator.cs:121-154 | the wall pass only turns empty cells into walls; a cell is a wall afterwards exactly when it was one, or was empty next to a visited floor tile |
| Grids.WallPassKeepsFloors | Assets/Scripts/LevelGenerator.cs:121-154 | the wall pass keeps exactly the floor tiles, and so the floor count |
| Grids.WallPassSaturates | Assets/Scripts/LevelGenerator.cs:121-154 | after the wall pass every neighbour of a visited floor tile exists and is not empty |
| Grids.WallPassWallsTouchFloor | Assets/Scripts/LevelGenerator.cs:121-154 | on a grid of floor and empty tiles, every wall the pass makes is a neighbour of a visited floor tile |
| Grids.BottomPass | Assets/Scripts/LevelGenerator.cs:158-166 | the bottom-wall pass only turns walls into bottom walls; a cell is a bottom wall afterwards exactly when it was one, or was a wall above a floor tile |
| Grids.NoWallAboveFloor | Assets/Scripts/LevelGenerator.cs:158-166 | after the bottom-wall pass no wall sits directly above a floor tile |
| Grids.BottomPassIdempotent | Assets/Scripts/LevelGenerator.cs:158-166 | a second bottom-wall pass changes nothing |
| Grids.DerivedKeepsFloors | Assets/Scripts/LevelGenerator.cs:121-166 | both passes together keep exactly the floor tiles of the plan and its floor count |
| Grids.DerivedWalls | Assets/Scripts/LevelGenerator.cs:121-166 | in the finished layout no visited floor tile has an empty neighbour, and every wall and bottom wall touches a visited floor tile |
| Grids.DerivedBottomWalls | Assets/Scripts/LevelGenerator.cs:121-166 | in the finished layout a bottom wall has a floor tile below it and a wall never does |
| LevelGeneration.Centre | Assets/Scripts/LevelGenerator.cs:56 | `Mathf.RoundToInt(n / 2.0f)` is within one half of n / 2 and even when n is odd (round half to even); it lies in [1, n-1] for n >= 3 and in [1, n-2] for n >= 4 |
| LevelGeneration.SqDist | Assets/Scripts/LevelGenerator.cs:231 | the squared Euclidean distance, which is zero exactly from a point to itself |
| LevelGeneration.LevelGenerator.Marked | Assets/Scripts/LevelGenerator.cs:64-67 | after marking, a cell is floor if a walker stands on it, and is unchanged otherwise |
| LevelGeneration.LevelGenerator.CentreCell | Assets/Scripts/LevelGenerator.cs:56 | the centre cell (round(w/2), round(h/2)), where Setup puts the first walker and where SpawnPlayer (lines 213-214) and SpawnExit (lines 222-223) put the player; it lies in the markable box [1, w-1] × [1, h-1], and inside the clamp box when both sides are at least 4 |
| LevelGeneration.LevelGenerator.Filled | Assets/Scripts/LevelGenerator.cs:114 | the do-while's exit test with the division multiplied out; a target below 0 is met by every count, a target of 0 exactly by a positive count, and a target of 1 or more by no count up to w·h, so the walk then runs to the cap |
| LevelGeneration.LevelGenerator.FilledIsShare | Assets/Scripts/LevelGenerator.cs:114 | the exit test holds exactly when floors / (w·h) > percentToFill |
| LevelGeneration.LevelGenerator.constructor | Assets/Scripts/LevelGenerator.cs:24-31 | the inspector settings are stored as given |
| LevelGeneration.LevelGenerator.RandomDirection | Assets/Scripts/LevelGenerator.cs:188-200 | reads one random value and returns the cardinal direction it selects |
| LevelGeneration.LevelGenerator.Setup | Assets/Scripts/LevelGenerator.cs:43-59 | a fresh grid of empty tiles, one walker on the centre cell in a random direction, and one value read |
| LevelGeneration.LevelGenerator.MarkFloors | Assets/Scripts/LevelGenerator.cs:64-67 | the cell under every walker becomes floor and nothing else changes: the grid becomes `Marked` of the old grid |
| LevelGeneration.LevelGenerator.DestroyWalker | Assets/Scripts/LevelGenerator.cs:69-76 | the walkers and the stream cursor become those of `Cull` |
| LevelGeneration.LevelGenerator.TurnWalker | Assets/Scripts/LevelGenerator.cs:80-84 | one turn of the direction loop: walker i gets a new random direction exactly when the value read is below the chance |
| LevelGeneration.LevelGenerator.ChangeDirections | Assets/Scripts/LevelGenerator.cs:78-85 | the walkers and the stream cursor become those of `Redirect` |
| LevelGeneration.LevelGenerator.SpawnFrom | Assets/Scripts/LevelGenerator.cs:89-95 | one turn of the spawn loop: a walker is added on walker i's cell exactly when the value read is below the chance and fewer than maxWalkers exist |
| LevelGeneration.LevelGenerator.SpawnWalkers | Assets/Scripts/LevelGenerator.cs:87-96 | the walkers and the stream cursor become those of `Spawn` |
| LevelGeneration.LevelGenerator.MoveWalkers | Assets/Scripts/LevelGenerator.cs:98-103 | every walker moves by its direction; nothing else changes |
| LevelGeneration.LevelGenerator.Clamped | Assets/Scripts/LevelGenerator.cs:105-111 | a clamped position lies in [1, w-2] × [1, h-2], and a position already there is unchanged |
| LevelGeneration.LevelGenerator.ClampWalkers | Assets/Scripts/LevelGenerator.cs:105-111 | every walker's position is clamped; nothing else changes |
| LevelGeneration.LevelGenerator.NumberOfFloors | Assets/Scripts/LevelGenerator.cs:202-210 | the count is the number of floor cells of the grid, and at most w·h |
| LevelGeneration.LevelGenerator.CullAllowed | Assets/Scripts/LevelGenerator.cs:69-76 | the cull keeps the population in [1, max(1, maxWalkers)], with cardinal directions and positions in the markable box [1, w-1] × [1, h-1] |
| LevelGeneration.LevelGenerator.RedirectAllowed | Assets/Scripts/LevelGenerator.cs:78-85 | the change of direction keeps every direction cardinal and every position in the markable box [1, w-1] × [1, h-1] |
| LevelGeneration.LevelGenerator.SpawnAllowed | Assets/Scripts/LevelGenerator.cs:87-96 | the spawn keeps the population in [1, max(1, maxWalkers)], with cardinal directions and positions in the markable box [1, w-1] × [1, h-1] |
| LevelGeneration.LevelGenerator.StepAllowed | Assets/Scripts/LevelGenerator.cs:69-111 | from 1 to max(1, maxWalkers) allowed walkers, the walker steps of a pass (cull, turn, spawn, move, clamp) leave 1 to max(1, maxWalkers) allowed walkers, all inside the clamp box |
| LevelGeneration.LevelGenerator.Advanced | Assets/Scripts/LevelGenerator.cs:98-111 | every walker moves one cell along its direction and is then clamped; the order and the directions are kept |
| LevelGeneration.LevelGenerator.Step | Assets/Scripts/LevelGenerator.cs:69-111 | the walker steps of one pass: cull, change of direction and spawn, each reading the stream where the one before stopped, then move and clamp; a non-empty population stays non-empty and never grows past max(population, maxWalkers); every walker ends inside the clamp box; between 2(n-1) and 5n values are read for n walkers |
| LevelGeneration.LevelGenerator.UpdateWalkers | Assets/Scripts/LevelGenerator.cs:69-111 | the walkers and the stream cursor become those of `Step` (cull, turn, spawn, move and clamp, in that order); the population stays in [1, max(1, maxWalkers)] and every walker ends inside the clamp box |
| LevelGeneration.LevelGenerator.MarkCounts | Assets/Scripts/LevelGenerator.cs:64-67 | marking one or more walkers' cells gives a positive floor count that is no lower than before |
| LevelGeneration.LevelGenerator.MarkKeeps | Assets/Scripts/LevelGenerator.cs:64-67 | marking keeps the walk's invariant: floors only added, all in the markable box [1, w-1] × [1, h-1], new ones under a first walker or inside the clamp box |
| LevelGeneration.LevelGenerator.WalkPass | Assets/Scripts/LevelGenerator.cs:63-114 | one do-while pass: the grid becomes `Marked` of the old grid by the old walkers, the walkers and the cursor become those of `Step`, and the returned count is the new floor count, positive and no lower than before |
| LevelGeneration.LevelGenerator.StepperKeeps | Assets/Scripts/LevelGenerator.cs:69-111 | the generator's walker step keeps walkers allowed, whatever values the stream holds |
| LevelGeneration.LevelGenerator.Walk | Assets/Scripts/LevelGenerator.cs:61-118 | the grid, walkers and stream cursor after n passes of the do-while body: each pass marks the walkers' cells as floor, then applies the walker step; the grid keeps its w × h shape |
| LevelGeneration.LevelGenerator.WalkGrows | Assets/Scripts/LevelGenerator.cs:63-118 | every floor tile of the walk's grid after i passes is still floor after any later pass j |
| LevelGeneration.LevelGenerator.WalkCountsRise | Assets/Scripts/LevelGenerator.cs:63-118 | the floor count after pass i is at most the floor count after any later pass j |
| LevelGeneration.LevelGenerator.WalkWalkers | Assets/Scripts/LevelGenerator.cs:63-118 | with a walker step that keeps walkers allowed (the generator's does, by StepperKeeps), after any number of passes the population is in [1, max(1, maxWalkers)] with cardinal directions, and after one or more passes every walker is inside the clamp box |
| LevelGeneration.LevelGenerator.WalkFloors | Assets/Scripts/LevelGenerator.cs:63-118 | with a walker step that keeps walkers allowed, after one or more passes the walk has only added floor tiles, all in the markable box [1, w-1] × [1, h-1], each under a first walker or inside the clamp box, and every first walker's cell is floor |
| LevelGeneration.LevelGenerator.WalkHasFloor | Assets/Scripts/LevelGenerator.cs:63-118 | with a walker step that keeps walkers allowed, after one or more passes the floor count is positive |
| LevelGeneration.LevelGenerator.WalkOn | Assets/Scripts/LevelGenerator.cs:63-114 | from the state `Walk` reaches after n passes, one pass reaches the state after n + 1 passes; the count is that state's floor count, and the first n + 1 passes are all unfilled exactly when the first n are and this one is not |
| LevelGeneration.LevelGenerator.CreateFloors | Assets/Scripts/LevelGenerator.cs:61-119 | the number of passes r is in [1, max(1, iterationSteps)]; the grid, walkers and cursor are those `Walk` reaches after r passes; no pass before the r-th fills the grid, and the r-th does unless r = max(1, iterationSteps); floor tiles are only added, each under a first walker or inside the clamp box; the walkers end inside the clamp box |
| LevelGeneration.LevelGenerator.WallIfEmpty | Assets/Scripts/LevelGenerator.cs:125-127 | an empty cell becomes a wall; every other cell is unchanged |
| LevelGeneration.LevelGenerator.WallAround | Assets/Scripts/LevelGenerator.cs:124-151 | exactly the empty cells among the eight neighbours of (x, y) become walls |
| LevelGeneration.LevelGenerator.WallVisit | Assets/Scripts/LevelGenerator.cs:123-151 | visiting (x, y) extends the wall pass done so far by that cell |
| LevelGeneration.LevelGenerator.WallColumn | Assets/Scripts/LevelGenerator.cs:123-152 | the inner loop extends the wall pass done so far by column x |
| LevelGeneration.LevelGenerator.WallColumns | Assets/Scripts/LevelGenerator.cs:122-153 | the loop nest leaves every cell as the wall pass over columns [0, w-2] makes it |
| LevelGeneration.LevelGenerator.CreateWalls | Assets/Scripts/LevelGenerator.cs:121-154 | the grid becomes `WallPass` of the old grid |
| LevelGeneration.LevelGenerator.CreateBottomWalls | Assets/Scripts/LevelGenerator.cs:158-166 | the grid becomes `BottomPass` of the old grid |
| LevelGeneration.LevelGenerator.SpawnExit | Assets/Scripts/LevelGenerator.cs:220-241 | the exit is the centre cell or a visited floor tile at positive distance; no visited floor tile is farther; and every visited floor tile before the exit in scan order is strictly nearer |
| LevelGeneration.LevelGenerator.WalkLayout | Assets/Scripts/LevelGenerator.cs:43-119 | from the empty grid and the single centre walker, the walk leaves only floor and empty tiles, the centre cell a floor tile, and every other floor tile inside the clamp box |
| Grids.EmptyGrid | Assets/Scripts/LevelGenerator.cs:45 | the w × h grid with every tile empty, as a new array of the tile enum is |
| LevelGeneration.LevelGenerator.SeedOnly | Assets/Scripts/LevelGenerator.cs:56-118 | with iterationSteps at most 1 the walk from Setup's start makes exactly one pass, and a cell of its grid is floor exactly when it is the centre cell |
| LevelGeneration.LevelGenerator.LayFloors | Assets/Scripts/LevelGenerator.cs:33-35 | Setup then CreateFloors leave exactly the grid, walkers and cursor of `runs` passes of the walk from the empty grid and Setup's centre walker (cursor one past Setup's read), with no earlier pass filling the grid and the last filling it unless it was pass iterationSteps; that grid is a floor plan with the centre cell floor and every other floor tile inside the clamp box |
| LevelGeneration.LevelGenerator.Generate | Assets/Scripts/LevelGenerator.cs:33-41 | the level is exactly BottomPass(WallPass(plan)), where plan is the grid of `runs` passes of the walk from Setup's start, stopped as CreateFloors stops it (WalkedFromStart), and the walkers and cursor are that walk's; the finished level has floor under the player on the centre cell; every other floor tile lies inside the clamp box; walls are saturated and each touches a floor tile; the bottom walls are characterised; the exit is the farthest visited floor tile or the centre, and every visited floor tile before it in scan order is strictly nearer |

## Left out

- SpawnLevel, SpawnPlayer's `Instantiate` and the Cinemachine camera, and the `Spawn` helper: rendering and scene objects, with no effect on the grid. Generate returns the player and exit cells instead.
- The random choice of a tile prefab in SpawnLevel is not part of this model. Its `Random.Range` calls advance the same random state, so the stream cursor Generate ends with is the one after the walk, not the one after `Awake`.
- `Random.value` is a parameter, a stream of reals in [0, 1] read through a cursor, rather than Unity's generator.
- Floats are modelled as reals. The fill test, `value * 3.99f` and the distance are exact, so float rounding is not modelled.
- SpawnExit: Vector2.Distance is modelled by its square. The two order points the same way on exact values, but float rounding of the square root could tie two distances that differ.
- The constructor requires width and height of at least 3, and the stages rely on it. With a side of 2, the clamp to [1, 0] can put a floor tile in column or row 0, and CreateWalls would then read outside the grid. This failure is not modelled.
- Setup clears only the cells with x in [0, w-2] and y in [0, h-2], as the source does. A new C# array is already all empty, so the model states the whole grid empty.
- CreateFloors: the number of random values each pass reads is bounded by `Step`'s contract, but no bound over the whole walk is stated.
- The body of the do-while in CreateFloors is split into WalkPass and the sub-step methods, and the two wall-pass loops into WallColumns, WallColumn, WallVisit and WallAround. Their order and effects are those of the inline code.
- Each floor tile lies in `[1, w-1] × [1, h-1]`. Every floor tile other than the centre one lies inside `[1, w-2] × [1, h-2]`, but the centre cell itself is in column w-1 when w = 3, and in row h-1 when h = 3.
