/**
 * The level generator: a grid of tiles and a list of walkers, changed in place by
 * Setup, CreateFloors, CreateWalls and CreateBottomWalls, then read by the exit
 * search. Generate runs the stages in the order the engine's Awake calls them.
 */
module LevelGeneration {
  import opened Grids
  import opened Walkers
  import opened Randomness

  /**
   * Mathf.RoundToInt(n / 2.0f): n / 2 rounded to the nearest integer, a half to the
   * even neighbour.
   */
  function Centre(n: nat): (c: int)
    ensures -1 <= 2 * c - n <= 1
    ensures n % 2 == 1 ==> c % 2 == 0
    ensures n >= 3 ==> 1 <= c <= n - 1
    ensures n >= 4 ==> c <= n - 2
  {
    if n % 2 == 0 then n / 2 else if (n / 2) % 2 == 0 then n / 2 else n / 2 + 1
  }

  /**
   * The squared Euclidean distance. Vector2.Distance is its square root, which orders
   * points the same way. It is zero exactly from a point to itself.
   */
  function SqDist(a: Vec, b: Vec): (d: nat)
    ensures d == 0 <==> a == b
  {
    var dx, dy := a.x - b.x, a.y - b.y;
    assert dx * dx >= 0 && dy * dy >= 0;
    assert dx != 0 ==> dx * dx > 0;
    assert dy != 0 ==> dy * dy > 0;
    dx * dx + dy * dy
  }

  /** The state of the random walk between passes: the grid, the walkers and the stream cursor. */
  datatype WalkState = WalkState(grid: Grid, walkers: seq<Walker>, drawn: nat)

  /** The tiles of an array as a grid value. */
  ghost function Snapshot(a: array2<Tile>): (g: Grid)
    reads a
    ensures IsGrid(g, a.Length0, a.Length1)
    ensures forall x, y {:trigger g[x][y]} :: InGrid(a.Length0, a.Length1, x, y) ==> g[x][y] == a[x, y]
  {
    seq(a.Length0, x requires 0 <= x < a.Length0 reads a =>
      seq(a.Length1, y requires 0 <= y < a.Length1 reads a => a[x, y]))
  }

  class LevelGenerator
  {
    var grid: array2<Tile>
    var walkers: seq<Walker>

    const levelWidth: int
    const levelHeight: int
    const percentToFill: real
    const chanceWalkerChangeDir: real
    const chanceWalkerSpawn: real
    const chanceWalkerDestroy: real
    const maxWalkers: int
    const iterationSteps: int
    /** The engine's Random, read through Random.value. */
    const random: RandomSource

    /**
     * Both sides at least 3: the wall pass then reads only cells inside the grid. With a
     * side of 2 the clamp to [1, 0] can put a floor tile in column or row 0, whose
     * left or lower neighbour the wall pass would read outside the grid.
     */
    predicate Configured()
    {
      levelWidth >= 3 && levelHeight >= 3
    }

    ghost predicate Shaped()
      reads this
    {
      Configured() && grid.Length0 == levelWidth && grid.Length1 == levelHeight
    }

    /** The cell of the first walker, which is also where the player is placed. */
    function CentreCell(): (c: Vec)
      ensures Configured() ==> Markable(c)
      ensures levelWidth >= 4 && levelHeight >= 4 ==> Interior(c)
    {
      Vec(Centre(if levelWidth < 0 then 0 else levelWidth), Centre(if levelHeight < 0 then 0 else levelHeight))
    }

    /**
     * The box [1, w-1] x [1, h-1]: every cell a walker stands on when floor is marked lies
     * in it. The clamp box [1, w-2] x [1, h-2] is inside it, and so is the start cell
     * (which is in column w-1 when w = 3, and in row h-1 when h = 3).
     */
    predicate Markable(p: Vec)
    {
      1 <= p.x <= levelWidth - 1 && 1 <= p.y <= levelHeight - 1
    }

    /** The box [1, w-2] x [1, h-2] that the clamp keeps every walker in. */
    predicate Interior(p: Vec)
    {
      1 <= p.x <= levelWidth - 2 && 1 <= p.y <= levelHeight - 2
    }

    function MaxPopulation(): int
    {
      Max(1, maxWalkers)
    }

    ghost predicate WalkersAllowed(ws: seq<Walker>)
    {
      forall k :: 0 <= k < |ws| ==> IsCardinal(ws[k].dir) && Markable(ws[k].pos)
    }

    /** Between 1 and max(1, maxWalkers) walkers, each heading in a cardinal direction from a cell that may be marked. */
    ghost predicate WalkersOk()
      reads this
    {
      1 <= |walkers| <= MaxPopulation() && WalkersAllowed(walkers)
    }

    /** Every floor tile of g lies in the markable box. */
    ghost predicate FloorsMarkable(g: Grid)
      requires IsGrid(g, levelWidth, levelHeight)
    {
      forall x, y {:trigger g[x][y]} :: InGrid(levelWidth, levelHeight, x, y) && g[x][y] == Floor ==> Markable(Vec(x, y))
    }

    /** g with a floor tile under every walker of ws: what the marking loop makes of it. */
    ghost function Marked(g: Grid, ws: seq<Walker>): (r: Grid)
      requires IsGrid(g, levelWidth, levelHeight)
      ensures IsGrid(r, levelWidth, levelHeight)
      ensures forall x, y {:trigger r[x][y]} :: InGrid(levelWidth, levelHeight, x, y) ==>
        r[x][y] == (if Occupied(ws, Vec(x, y)) then Floor else g[x][y])
    {
      seq(levelWidth, x requires 0 <= x < levelWidth =>
        seq(levelHeight, y requires 0 <= y < levelHeight => if Occupied(ws, Vec(x, y)) then Floor else g[x][y]))
    }

    /** g differs from g0 only by added floor tiles, so no floor tile of g0 is lost. */
    ghost predicate Grown(g0: Grid, g: Grid)
      requires IsGrid(g0, levelWidth, levelHeight) && IsGrid(g, levelWidth, levelHeight)
    {
      forall x, y {:trigger g[x][y]} :: InGrid(levelWidth, levelHeight, x, y) ==> g[x][y] == g0[x][y] || g[x][y] == Floor
    }

    /** Every cell of g under a walker of ws is floor. */
    ghost predicate Covers(g: Grid, ws: seq<Walker>)
      requires IsGrid(g, levelWidth, levelHeight)
    {
      forall x, y {:trigger g[x][y]} :: InGrid(levelWidth, levelHeight, x, y) && Occupied(ws, Vec(x, y)) ==> g[x][y] == Floor
    }

    /** Every floor tile of g that g0 lacks lies under a walker of ws0 or inside the clamp box. */
    ghost predicate NewFloorsFrom(g0: Grid, g: Grid, ws0: seq<Walker>)
      requires IsGrid(g0, levelWidth, levelHeight) && IsGrid(g, levelWidth, levelHeight)
    {
      forall x, y {:trigger g[x][y]} :: InGrid(levelWidth, levelHeight, x, y) && g[x][y] == Floor && g0[x][y] != Floor ==>
        Occupied(ws0, Vec(x, y)) || Interior(Vec(x, y))
    }

    /**
     * What the walk makes of g0 when it starts from the walkers ws0: the grid g only gains
     * floor tiles, every one of them markable, under a walker of ws0 or inside the clamp
     * box, and every cell under a walker of ws0 is floor.
     */
    ghost predicate Walked(g0: Grid, ws0: seq<Walker>, g: Grid)
      requires IsGrid(g0, levelWidth, levelHeight) && IsGrid(g, levelWidth, levelHeight)
    {
      FloorsMarkable(g) && Grown(g0, g) && NewFloorsFrom(g0, g, ws0) && Covers(g, ws0)
    }

    /**
     * The do-while's exit test, floors / (w·h) > percentToFill, with the division by the
     * cell count multiplied out.
     */
    predicate Filled(floors: int)
      // a target below zero is met by every count, even by no floor tile at all
      ensures Configured() && percentToFill < 0.0 && 0 <= floors ==> Filled(floors)
      // a target of zero is met by the first floor tile
      ensures percentToFill == 0.0 ==> (Filled(floors) <==> 0 < floors)
      // a target of 1 or more is never met, since there are at most w·h floor tiles
      ensures Configured() && 1.0 <= percentToFill && floors <= levelWidth * levelHeight ==> !Filled(floors)
    {
      (floors as real) > percentToFill * ((levelWidth * levelHeight) as real)
    }

    /** Filled holds exactly when the share of floor tiles among all cells exceeds percentToFill. */
    lemma FilledIsShare(floors: int)
      requires Configured()
      ensures Filled(floors) <==> (floors as real) / ((levelWidth * levelHeight) as real) > percentToFill
    {
      var area := (levelWidth * levelHeight) as real;
      assert area > 0.0;
      assert (floors as real) / area * area == floors as real;
      if Filled(floors) {
        if (floors as real) / area <= percentToFill {
          assert (floors as real) / area * area <= percentToFill * area;
        }
      } else if (floors as real) / area > percentToFill {
        assert (floors as real) / area * area > percentToFill * area;
      }
    }

    constructor (levelWidth: int, levelHeight: int, percentToFill: real, chanceWalkerChangeDir: real,
                 chanceWalkerSpawn: real, chanceWalkerDestroy: real, maxWalkers: int, iterationSteps: int,
                 random: RandomSource)
      requires levelWidth >= 3 && levelHeight >= 3
      ensures Configured()
      ensures this.levelWidth == levelWidth && this.levelHeight == levelHeight
      ensures this.percentToFill == percentToFill && this.chanceWalkerChangeDir == chanceWalkerChangeDir
      ensures this.chanceWalkerSpawn == chanceWalkerSpawn && this.chanceWalkerDestroy == chanceWalkerDestroy
      ensures this.maxWalkers == maxWalkers && this.iterationSteps == iterationSteps && this.random == random
      ensures walkers == []
    {
      this.levelWidth := levelWidth;
      this.levelHeight := levelHeight;
      this.percentToFill := percentToFill;
      this.chanceWalkerChangeDir := chanceWalkerChangeDir;
      this.chanceWalkerSpawn := chanceWalkerSpawn;
      this.chanceWalkerDestroy := chanceWalkerDestroy;
      this.maxWalkers := maxWalkers;
      this.iterationSteps := iterationSteps;
      this.random := random;
      grid := new Tile[0, 0];
      walkers := [];
    }

    /** RandomDirection: one random value read, one of the four cardinal directions returned. */
    method RandomDirection() returns (d: Vec)
      requires random.Valid()
      modifies random`drawn
      ensures d == Direction(DirectionChoice(random.values(old(random.drawn))))
      ensures random.drawn == old(random.drawn) + 1
      ensures IsCardinal(d)
    {
      var value := random.Value();
      var choice := DirectionChoice(value);
      d := Direction(choice);
    }

    /** A fresh all-empty grid and a single walker on the centre cell, with a random direction. */
    method Setup()
      requires Configured() && random.Valid()
      modifies this, random`drawn
      ensures Shaped() && fresh(grid)
      ensures forall x, y :: InGrid(levelWidth, levelHeight, x, y) ==> grid[x, y] == Empty
      ensures walkers == [Walker(Direction(DirectionChoice(random.values(old(random.drawn)))), CentreCell())]
      ensures random.drawn == old(random.drawn) + 1
      ensures WalkersOk()
    {
      // every element of a new C# array holds the enum's default, empty
      grid := new Tile[levelWidth, levelHeight]((x, y) => Empty);
      for x := 0 to levelWidth - 1
        modifies grid
        invariant forall i, j :: InGrid(levelWidth, levelHeight, i, j) ==> grid[i, j] == Empty
      {
        for y := 0 to levelHeight - 1
          modifies grid
          invariant forall i, j :: InGrid(levelWidth, levelHeight, i, j) ==> grid[i, j] == Empty
        {
          grid[x, y] := Empty;
        }
      }
      walkers := [];
      var dir := RandomDirection();
      var pos := CentreCell();
      walkers := walkers + [Walker(dir, pos)];
    }

    /** Marks the cell of every walker as floor. */
    method MarkFloors()
      requires Shaped() && WalkersOk()
      modifies grid
      ensures forall x, y :: InGrid(levelWidth, levelHeight, x, y) ==>
        grid[x, y] == (if Occupied(walkers, Vec(x, y)) then Floor else old(grid[x, y]))
      ensures Snapshot(grid) == Marked(old(Snapshot(grid)), walkers)
    {
      ghost var g := Snapshot(grid);
      for k := 0 to |walkers|
        invariant forall x, y :: InGrid(levelWidth, levelHeight, x, y) ==>
          grid[x, y] == (if Occupied(walkers[..k], Vec(x, y)) then Floor else old(grid[x, y]))
      {
        var pos := walkers[k].pos;
        grid[pos.x, pos.y] := Floor;
        assert forall v :: Occupied(walkers[..k + 1], v) <==> Occupied(walkers[..k], v) || walkers[k].pos == v by {
          forall v ensures Occupied(walkers[..k + 1], v) ==> Occupied(walkers[..k], v) || walkers[k].pos == v {
            if Occupied(walkers[..k + 1], v) {
              var i :| 0 <= i < k + 1 && walkers[..k + 1][i].pos == v;
              if i < k {
                assert walkers[..k][i].pos == v;
              }
            }
          }
          forall v ensures Occupied(walkers[..k], v) ==> Occupied(walkers[..k + 1], v) {
            if Occupied(walkers[..k], v) {
              var i :| 0 <= i < k && walkers[..k][i].pos == v;
              assert walkers[..k + 1][i].pos == v;
            }
          }
          assert walkers[..k + 1][k].pos == walkers[k].pos;
        }
      }
      assert walkers[..|walkers|] == walkers;
      SameGrid(Snapshot(grid), Marked(g, walkers), levelWidth, levelHeight);
    }

    /** The cull: at most one walker removed, never the last one. */
    method DestroyWalker()
      requires random.Valid()
      modifies this`walkers, random`drawn
      ensures StepResult(walkers, random.drawn) == Cull(old(walkers), random.values, old(random.drawn), chanceWalkerDestroy)
    {
      ghost var ws0, d0 := walkers, random.drawn;
      var numberChecks := |walkers|;
      for i := 0 to numberChecks
        invariant walkers == ws0 && random.drawn == d0 + i
        invariant Cull(ws0, random.values, d0, chanceWalkerDestroy) ==
          CullFrom(ws0, i, random.values, random.drawn, chanceWalkerDestroy)
      {
        var value := random.Value();
        if value < chanceWalkerDestroy && |walkers| > 1 {
          walkers := walkers[..i] + walkers[i + 1..];
          return;
        }
      }
    }

    /** One turn of the change-of-direction loop: walker i takes a new random direction with chanceWalkerChangeDir. */
    method TurnWalker(i: nat)
      requires random.Valid() && i < |walkers|
      modifies this`walkers, random`drawn
      ensures var d := old(random.drawn);
        StepResult(walkers, random.drawn) ==
          if random.values(d) < chanceWalkerChangeDir then
            StepResult(old(walkers)[i := old(walkers)[i].(dir := Direction(DirectionChoice(random.values(d + 1))))], d + 2)
          else
            StepResult(old(walkers), d + 1)
    {
      var value := random.Value();
      if value < chanceWalkerChangeDir {
        var thisWalker := walkers[i];
        var dir := RandomDirection();
        thisWalker := thisWalker.(dir := dir);
        walkers := walkers[i := thisWalker];
      }
    }

    /** Each walker in turn may take a new random direction. */
    method ChangeDirections()
      requires random.Valid()
      modifies this`walkers, random`drawn
      ensures StepResult(walkers, random.drawn) ==
        Redirect(old(walkers), |old(walkers)|, random.values, old(random.drawn), chanceWalkerChangeDir)
    {
      ghost var ws0, d0 := walkers, random.drawn;
      for i := 0 to |walkers|
        invariant |walkers| == |ws0|
        invariant walkers == Redirect(ws0, i, random.values, d0, chanceWalkerChangeDir).walkers
        invariant random.drawn == Redirect(ws0, i, random.values, d0, chanceWalkerChangeDir).drawn
      {
        TurnWalker(i);
      }
    }

    /**
     * One turn of the spawn loop: with chanceWalkerSpawn, and while fewer than maxWalkers
     * walkers exist, a walker with a random direction is added on the cell of walker i.
     */
    method SpawnFrom(i: nat)
      requires random.Valid() && i < |walkers|
      modifies this`walkers, random`drawn
      ensures var d := old(random.drawn);
        StepResult(walkers, random.drawn) ==
          if random.values(d) < chanceWalkerSpawn && |old(walkers)| < maxWalkers then
            StepResult(old(walkers) + [Walker(Direction(DirectionChoice(random.values(d + 1))), old(walkers)[i].pos)], d + 2)
          else
            StepResult(old(walkers), d + 1)
    {
      var value := random.Value();
      if value < chanceWalkerSpawn && |walkers| < maxWalkers {
        var dir := RandomDirection();
        var walker := Walker(dir, walkers[i].pos);
        walkers := walkers + [walker];
      }
    }

    /** Each walker present at the start may add a walker on its cell, while fewer than maxWalkers exist. */
    method SpawnWalkers()
      requires random.Valid()
      modifies this`walkers, random`drawn
      ensures StepResult(walkers, random.drawn) ==
        Spawn(old(walkers), |old(walkers)|, random.values, old(random.drawn), chanceWalkerSpawn, maxWalkers)
    {
      ghost var ws0, d0 := walkers, random.drawn;
      var numberChecks := |walkers|;
      for i := 0 to numberChecks
        invariant |ws0| <= |walkers|
        invariant StepResult(walkers, random.drawn) == Spawn(ws0, i, random.values, d0, chanceWalkerSpawn, maxWalkers)
      {
        SpawnFrom(i);
      }
    }

    /** Every walker steps one cell along its direction. */
    method MoveWalkers()
      modifies this`walkers
      ensures |walkers| == |old(walkers)|
      ensures forall k :: 0 <= k < |walkers| ==>
        walkers[k] == old(walkers)[k].(pos := old(walkers)[k].pos.Plus(old(walkers)[k].dir))
    {
      for i := 0 to |walkers|
        invariant |walkers| == |old(walkers)|
        invariant forall k :: 0 <= k < i ==> walkers[k] == old(walkers)[k].(pos := old(walkers)[k].pos.Plus(old(walkers)[k].dir))
        invariant forall k :: i <= k < |walkers| ==> walkers[k] == old(walkers)[k]
      {
        var walker := walkers[i];
        walker := walker.(pos := walker.pos.Plus(walker.dir));
        walkers := walkers[i := walker];
      }
    }

    function Clamped(p: Vec): (r: Vec)
      ensures Configured() ==> Interior(r)
      ensures Interior(p) ==> r == p
    {
      Vec(Clamp(p.x, 1, levelWidth - 2), Clamp(p.y, 1, levelHeight - 2))
    }

    /** Every walker is pulled back into [1, w-2] x [1, h-2], off the border of the grid. */
    method ClampWalkers()
      modifies this`walkers
      ensures |walkers| == |old(walkers)|
      ensures forall k :: 0 <= k < |walkers| ==> walkers[k] == old(walkers)[k].(pos := Clamped(old(walkers)[k].pos))
    {
      for i := 0 to |walkers|
        invariant |walkers| == |old(walkers)|
        invariant forall k :: 0 <= k < i ==> walkers[k] == old(walkers)[k].(pos := Clamped(old(walkers)[k].pos))
        invariant forall k :: i <= k < |walkers| ==> walkers[k] == old(walkers)[k]
      {
        var walker := walkers[i];
        walker := walker.(pos := Clamped(walker.pos));
        walkers := walkers[i := walker];
      }
    }

    /** The number of floor tiles, counted over the whole grid. */
    method NumberOfFloors() returns (count: nat)
      ensures count == CountFloors(Snapshot(grid))
      ensures count <= grid.Length0 * grid.Length1
    {
      ghost var g := Snapshot(grid);
      count := 0;
      for x := 0 to grid.Length0
        invariant count == CountFloors(g[..x])
      {
        for y := 0 to grid.Length1
          invariant count == CountFloors(g[..x]) + CountColumn(g[x][..y])
        {
          if grid[x, y] == Floor {
            count := count + 1;
          }
          assert g[x][..y + 1][..y] == g[x][..y];
        }
        assert g[x][..grid.Length1] == g[x];
        assert g[..x + 1][..x] == g[..x];
      }
      assert g[..grid.Length0] == g;
      CountFloorsBound(g, grid.Length0, grid.Length1);
    }

    /** The cull keeps between 1 and max(1, maxWalkers) walkers, all of them walkers it started with. */
    lemma CullAllowed(ws: seq<Walker>, values: nat -> real, drawn: nat)
      requires 1 <= |ws| <= MaxPopulation() && WalkersAllowed(ws)
      ensures var r := Cull(ws, values, drawn, chanceWalkerDestroy).walkers;
        1 <= |r| <= MaxPopulation() && WalkersAllowed(r)
    {
      var r := Cull(ws, values, drawn, chanceWalkerDestroy).walkers;
      CullKeeps(ws, values, drawn, chanceWalkerDestroy);
      forall k | 0 <= k < |r|
        ensures IsCardinal(r[k].dir) && Markable(r[k].pos)
      {
        var j :| 0 <= j < |ws| && ws[j] == r[k];
      }
    }

    /** The change of direction moves nobody and gives only cardinal directions. */
    lemma RedirectAllowed(ws: seq<Walker>, values: nat -> real, drawn: nat)
      requires WalkersAllowed(ws)
      ensures WalkersAllowed(Redirect(ws, |ws|, values, drawn, chanceWalkerChangeDir).walkers)
    {
      RedirectKeepsPositions(ws, |ws|, values, drawn, chanceWalkerChangeDir);
    }

    /** The spawn step stays within max(1, maxWalkers) walkers, each added one on the cell of an existing one. */
    lemma SpawnAllowed(ws: seq<Walker>, values: nat -> real, drawn: nat)
      requires 1 <= |ws| <= MaxPopulation() && WalkersAllowed(ws)
      ensures var r := Spawn(ws, |ws|, values, drawn, chanceWalkerSpawn, maxWalkers).walkers;
        1 <= |r| <= MaxPopulation() && WalkersAllowed(r)
    {
      var r := Spawn(ws, |ws|, values, drawn, chanceWalkerSpawn, maxWalkers).walkers;
      SpawnKeepsWalkers(ws, |ws|, values, drawn, chanceWalkerSpawn, maxWalkers);
      forall k | 0 <= k < |r|
        ensures IsCardinal(r[k].dir) && Markable(r[k].pos)
      {
        if k < |ws| {
          assert r[k] == r[..|ws|][k];
        } else {
          var j :| 0 <= j < |ws| && r[k].pos == ws[j].pos;
        }
      }
    }

    /** Every walker one cell further along its direction, then clamped: MoveWalkers followed by ClampWalkers. */
    function Advanced(ws: seq<Walker>): (r: seq<Walker>)
      ensures |r| == |ws|
      ensures forall k :: 0 <= k < |ws| ==> r[k] == ws[k].(pos := Clamped(ws[k].pos.Plus(ws[k].dir)))
    {
      seq(|ws|, k requires 0 <= k < |ws| => ws[k].(pos := Clamped(ws[k].pos.Plus(ws[k].dir))))
    }

    /**
     * The walker steps of one pass of the walk, as values: cull, change of direction and
     * spawn, each reading the stream where the one before stopped, then move and clamp.
     */
    function Step(ws: seq<Walker>, values: nat -> real, drawn: nat): (r: StepResult)
      ensures 1 <= |ws| ==> 1 <= |r.walkers|
      ensures |r.walkers| <= Max(|ws|, maxWalkers)
      ensures Configured() ==> forall k :: 0 <= k < |r.walkers| ==> Interior(r.walkers[k].pos)
      ensures drawn + 2 * (|ws| - 1) <= r.drawn <= drawn + 5 * |ws|
    {
      var c := Cull(ws, values, drawn, chanceWalkerDestroy);
      var r := Redirect(c.walkers, |c.walkers|, values, c.drawn, chanceWalkerChangeDir);
      var s := Spawn(r.walkers, |r.walkers|, values, r.drawn, chanceWalkerSpawn, maxWalkers);
      RedirectReads(c.walkers, |c.walkers|, values, c.drawn, chanceWalkerChangeDir);
      SpawnReads(r.walkers, |r.walkers|, values, r.drawn, chanceWalkerSpawn, maxWalkers);
      StepResult(Advanced(s.walkers), s.drawn)
    }

    /**
     * The walker steps keep the population in [1, max(1, maxWalkers)] and the directions
     * cardinal, and leave every walker inside the clamp box.
     */
    lemma StepAllowed(ws: seq<Walker>, values: nat -> real, drawn: nat)
      requires Configured() && 1 <= |ws| <= MaxPopulation() && WalkersAllowed(ws)
      ensures var r := Step(ws, values, drawn).walkers;
        1 <= |r| <= MaxPopulation() && WalkersAllowed(r) && forall k :: 0 <= k < |r| ==> Interior(r[k].pos)
    {
      var c := Cull(ws, values, drawn, chanceWalkerDestroy);
      CullAllowed(ws, values, drawn);
      var r := Redirect(c.walkers, |c.walkers|, values, c.drawn, chanceWalkerChangeDir);
      RedirectAllowed(c.walkers, values, c.drawn);
      var s := Spawn(r.walkers, |r.walkers|, values, r.drawn, chanceWalkerSpawn, maxWalkers);
      SpawnAllowed(r.walkers, values, r.drawn);
      var a := Advanced(s.walkers);
      forall k | 0 <= k < |a|
        ensures IsCardinal(a[k].dir) && Markable(a[k].pos) && Interior(a[k].pos)
      {
        assert a[k].dir == s.walkers[k].dir;
      }
    }

    /**
     * The walker steps of one pass of the walk: cull, change of direction, spawn, move and
     * clamp. The walkers and the stream cursor become those of Step, so the population
     * stays in [1, max(1, maxWalkers)] and every walker ends inside the clamp box.
     */
    method UpdateWalkers()
      requires Configured() && random.Valid() && WalkersOk()
      modifies this`walkers, random`drawn
      ensures StepResult(walkers, random.drawn) == Step(old(walkers), random.values, old(random.drawn))
      ensures WalkersOk()
      ensures forall k :: 0 <= k < |walkers| ==> Interior(walkers[k].pos)
    {
      ghost var ws0, d0 := walkers, random.drawn;
      DestroyWalker();
      ChangeDirections();
      SpawnWalkers();
      ghost var s := walkers;
      MoveWalkers();
      ClampWalkers();
      assert walkers == Advanced(s);
      StepAllowed(ws0, random.values, d0);
    }

    /**
     * One pass of the do-while body of CreateFloors: floor under every walker, the walker
     * steps, and the floor count for the exit test, which is positive and no lower than
     * before the pass.
     */
    method WalkPass() returns (floors: nat)
      requires Shaped() && random.Valid() && WalkersOk()
      modifies grid, this`walkers, random`drawn
      ensures WalkersOk()
      ensures Snapshot(grid) == Marked(old(Snapshot(grid)), old(walkers))
      ensures StepResult(walkers, random.drawn) == Step(old(walkers), random.values, old(random.drawn))
      ensures floors == CountFloors(Snapshot(grid))
      ensures 1 <= floors && CountFloors(old(Snapshot(grid))) <= floors
    {
      ghost var g, ws := Snapshot(grid), walkers;
      MarkCounts(g, ws);
      MarkFloors();
      ghost var marked := Snapshot(grid);
      UpdateWalkers();
      assert Snapshot(grid) == marked;
      floors := NumberOfFloors();
    }

    /** Marking the cells of one or more walkers leaves a positive floor count, and never lowers it. */
    lemma MarkCounts(g: Grid, ws: seq<Walker>)
      requires IsGrid(g, levelWidth, levelHeight)
      requires 1 <= |ws| && WalkersAllowed(ws)
      ensures 1 <= CountFloors(Marked(g, ws)) && CountFloors(g) <= CountFloors(Marked(g, ws))
    {
      var m := Marked(g, ws);
      CountFloorsMono(g, m, levelWidth, levelHeight);
      assert Occupied(ws, ws[0].pos);
      CountFloorsPositive(m, levelWidth, levelHeight, ws[0].pos.x, ws[0].pos.y);
    }

    /**
     * Marking the walkers' cells, on the first pass (the walkers are the first ones and
     * the grid is the initial one) or on a later pass (every walker inside the clamp box),
     * keeps what the walk guarantees.
     */
    lemma MarkKeeps(first: bool, g0: Grid, ws0: seq<Walker>, g: Grid, ws: seq<Walker>)
      requires IsGrid(g0, levelWidth, levelHeight) && IsGrid(g, levelWidth, levelHeight)
      requires 1 <= |ws| && WalkersAllowed(ws)
      requires first ==> ws == ws0 && g == g0 && FloorsMarkable(g0)
      requires !first ==> (forall k :: 0 <= k < |ws| ==> Interior(ws[k].pos)) && Walked(g0, ws0, g)
      ensures Walked(g0, ws0, Marked(g, ws))
    {
      var m := Marked(g, ws);
      var w, h := levelWidth, levelHeight;
      forall x, y | InGrid(w, h, x, y) && m[x][y] == Floor && g[x][y] != Floor
        ensures Markable(Vec(x, y)) && (Occupied(ws0, Vec(x, y)) || Interior(Vec(x, y)))
      {
        var k :| 0 <= k < |ws| && ws[k].pos == Vec(x, y);
      }
    }

    /** The walker steps of one pass reading the stream `values`, as a function of the walkers and the cursor. */
    function Stepper(values: nat -> real): (seq<Walker>, nat) -> StepResult
    {
      (ws: seq<Walker>, d: nat) => Step(ws, values, d)
    }

    /**
     * A walker step that, from between 1 and max(1, maxWalkers) walkers heading in cardinal
     * directions from cells a walker may mark, leaves such walkers again, all of them
     * inside the clamp box.
     */
    ghost predicate KeepsWalkers(step: (seq<Walker>, nat) -> StepResult)
    {
      forall ws, d :: 1 <= |ws| <= MaxPopulation() && WalkersAllowed(ws) ==>
        var r := step(ws, d).walkers;
        1 <= |r| <= MaxPopulation() && WalkersAllowed(r) && forall k :: 0 <= k < |r| ==> Interior(r[k].pos)
    }

    /** The generator's walker steps are such a step, whatever the stream reads. */
    lemma StepperKeeps(values: nat -> real)
      requires Configured()
      ensures KeepsWalkers(Stepper(values))
    {
      forall ws, d | 1 <= |ws| <= MaxPopulation() && WalkersAllowed(ws)
        ensures var r := Stepper(values)(ws, d).walkers;
          1 <= |r| <= MaxPopulation() && WalkersAllowed(r) && forall k :: 0 <= k < |r| ==> Interior(r[k].pos)
      {
        StepAllowed(ws, values, d);
      }
    }

    /**
     * The state after n passes of the walk that starts on the grid g0 with the walkers ws0
     * and the stream cursor at d0: each pass marks the cells of its walkers on the grid,
     * then takes the walker step `step` (the generator's is Stepper(values)).
     */
    ghost function Walk(g0: Grid, ws0: seq<Walker>, d0: nat, step: (seq<Walker>, nat) -> StepResult, n: nat): (s: WalkState)
      requires IsGrid(g0, levelWidth, levelHeight)
      ensures IsGrid(s.grid, levelWidth, levelHeight)
      decreases n
    {
      if n == 0 then WalkState(g0, ws0, d0)
      else
        var s := Walk(g0, ws0, d0, step, n - 1);
        var p := step(s.walkers, s.drawn);
        WalkState(Marked(s.grid, s.walkers), p.walkers, p.drawn)
    }

    /** A floor tile of the walk's grid after i passes is still floor after any later pass. */
    lemma {:induction false} WalkGrows(g0: Grid, ws0: seq<Walker>, d0: nat, step: (seq<Walker>, nat) -> StepResult, i: nat, j: nat)
      requires IsGrid(g0, levelWidth, levelHeight) && i <= j
      ensures Grown(Walk(g0, ws0, d0, step, i).grid, Walk(g0, ws0, d0, step, j).grid)
      decreases j
    {
      if i < j {
        WalkGrows(g0, ws0, d0, step, i, j - 1);
        var s := Walk(g0, ws0, d0, step, j - 1);
        MarkedGrown(s.grid, s.walkers);
        GrownTrans(Walk(g0, ws0, d0, step, i).grid, s.grid, Walk(g0, ws0, d0, step, j).grid);
      }
    }

    /**
     * With a walker step that keeps walkers allowed, from allowed walkers every later pass
     * starts with between 1 and max(1, maxWalkers) walkers, all heading in cardinal
     * directions, and after the first pass all inside the clamp box.
     */
    lemma {:induction false} WalkWalkers(g0: Grid, ws0: seq<Walker>, d0: nat, step: (seq<Walker>, nat) -> StepResult, n: nat)
      requires Configured() && IsGrid(g0, levelWidth, levelHeight) && KeepsWalkers(step)
      requires 1 <= |ws0| <= MaxPopulation() && WalkersAllowed(ws0)
      ensures var ws := Walk(g0, ws0, d0, step, n).walkers;
        1 <= |ws| <= MaxPopulation() && WalkersAllowed(ws) && (0 < n ==> forall k :: 0 <= k < |ws| ==> Interior(ws[k].pos))
      decreases n
    {
      if 0 < n {
        WalkWalkers(g0, ws0, d0, step, n - 1);
        var s := Walk(g0, ws0, d0, step, n - 1);
        assert step(s.walkers, s.drawn).walkers == Walk(g0, ws0, d0, step, n).walkers;
      }
    }

    /**
     * With a walker step that keeps walkers allowed, after one or more passes from a grid
     * whose floor tiles are all markable, the walk has only added floor tiles, all
     * markable, each under a first walker or inside the clamp box.
     */
    lemma {:induction false} WalkFloors(g0: Grid, ws0: seq<Walker>, d0: nat, step: (seq<Walker>, nat) -> StepResult, n: nat)
      requires Configured() && IsGrid(g0, levelWidth, levelHeight) && FloorsMarkable(g0) && KeepsWalkers(step)
      requires 1 <= |ws0| <= MaxPopulation() && WalkersAllowed(ws0) && 1 <= n
      ensures var g := Walk(g0, ws0, d0, step, n).grid;
        Walked(g0, ws0, g)
      decreases n
    {
      var s := Walk(g0, ws0, d0, step, n - 1);
      WalkWalkers(g0, ws0, d0, step, n - 1);
      if 1 < n {
        WalkFloors(g0, ws0, d0, step, n - 1);
      }
      MarkKeeps(n == 1, g0, ws0, s.grid, s.walkers);
    }

    /** With a walker step that keeps walkers allowed, after one or more passes the grid holds a floor tile. */
    lemma WalkHasFloor(g0: Grid, ws0: seq<Walker>, d0: nat, step: (seq<Walker>, nat) -> StepResult, n: nat)
      requires Configured() && IsGrid(g0, levelWidth, levelHeight) && KeepsWalkers(step)
      requires 1 <= |ws0| <= MaxPopulation() && WalkersAllowed(ws0) && 1 <= n
      ensures 1 <= CountFloors(Walk(g0, ws0, d0, step, n).grid)
    {
      var s := Walk(g0, ws0, d0, step, n - 1);
      WalkWalkers(g0, ws0, d0, step, n - 1);
      MarkCounts(s.grid, s.walkers);
    }

    /** Only adding floor tiles, twice over, only adds floor tiles. */
    lemma GrownTrans(a: Grid, b: Grid, c: Grid)
      requires IsGrid(a, levelWidth, levelHeight) && IsGrid(b, levelWidth, levelHeight) && IsGrid(c, levelWidth, levelHeight)
      requires Grown(a, b) && Grown(b, c)
      ensures Grown(a, c)
    {
    }

    /** The floor count of the walk's grid never falls from one pass to a later one. */
    lemma WalkCountsRise(g0: Grid, ws0: seq<Walker>, d0: nat, step: (seq<Walker>, nat) -> StepResult, i: nat, j: nat)
      requires IsGrid(g0, levelWidth, levelHeight) && i <= j
      ensures CountFloors(Walk(g0, ws0, d0, step, i).grid) <= CountFloors(Walk(g0, ws0, d0, step, j).grid)
    {
      WalkGrows(g0, ws0, d0, step, i, j);
      CountFloorsMono(Walk(g0, ws0, d0, step, i).grid, Walk(g0, ws0, d0, step, j).grid, levelWidth, levelHeight);
    }

    /** Marking only adds floor tiles. */
    lemma MarkedGrown(g: Grid, ws: seq<Walker>)
      requires IsGrid(g, levelWidth, levelHeight)
      ensures Grown(g, Marked(g, ws))
    {
    }

    /** The grid, the walkers and the stream cursor are those the walk reaches after n passes. */
    ghost predicate Reached(g0: Grid, ws0: seq<Walker>, d0: nat, n: nat)
      requires IsGrid(g0, levelWidth, levelHeight)
      reads this, grid, random
    {
      var s := Walk(g0, ws0, d0, Stepper(random.values), n);
      Snapshot(grid) == s.grid && walkers == s.walkers && random.drawn == s.drawn
    }

    /** None of the walk's first n passes ends with the grid filled. */
    ghost predicate Unfilled(g0: Grid, ws0: seq<Walker>, d0: nat, step: (seq<Walker>, nat) -> StepResult, n: nat)
      requires IsGrid(g0, levelWidth, levelHeight)
    {
      forall i :: 1 <= i <= n ==> !Filled(CountFloors(Walk(g0, ws0, d0, step, i).grid))
    }

    /**
     * One pass of the walk taken from the state after n passes: the state becomes the one
     * after n + 1 passes, and floors is its floor count.
     */
    method WalkOn(ghost g0: Grid, ghost ws0: seq<Walker>, ghost d0: nat, n: nat) returns (floors: nat, next: nat)
      requires Shaped() && random.Valid() && WalkersOk() && IsGrid(g0, levelWidth, levelHeight)
      requires Reached(g0, ws0, d0, n)
      modifies grid, this`walkers, random`drawn
      ensures Shaped() && WalkersOk()
      ensures next == n + 1 && Reached(g0, ws0, d0, next)
      ensures floors == CountFloors(Walk(g0, ws0, d0, Stepper(random.values), next).grid)
      ensures Unfilled(g0, ws0, d0, Stepper(random.values), next) <==> Unfilled(g0, ws0, d0, Stepper(random.values), n) && !Filled(floors)
    {
      floors := WalkPass();
      next := n + 1;
    }

    /**
     * CreateFloors: the random walk, run until the share of floor tiles exceeds
     * percentToFill or iterationSteps passes are done (at least one, as in a do-while).
     * `runs` is the number of passes; the grid, the walkers and the stream cursor end as
     * Walk leaves them after that many passes.
     */
    method CreateFloors() returns (runs: nat)
      requires Shaped() && random.Valid() && WalkersOk() && FloorsMarkable(Snapshot(grid))
      modifies grid, this`walkers, random`drawn
      ensures Shaped() && WalkersOk()
      ensures forall k :: 0 <= k < |walkers| ==> Interior(walkers[k].pos)
      ensures 1 <= runs <= Max(1, iterationSteps)
      ensures var s := Walk(old(Snapshot(grid)), old(walkers), old(random.drawn), Stepper(random.values), runs);
        Snapshot(grid) == s.grid && walkers == s.walkers && random.drawn == s.drawn
      // floor tiles are only ever added: under the first walkers, or inside the clamp box
      ensures Walked(old(Snapshot(grid)), old(walkers), Snapshot(grid))
      ensures 1 <= CountFloors(Snapshot(grid))
      // the walk stops at the first pass that fills the grid, or after iterationSteps passes
      ensures forall i :: 1 <= i < runs ==>
        !Filled(CountFloors(Walk(old(Snapshot(grid)), old(walkers), old(random.drawn), Stepper(random.values), i).grid))
      ensures runs < Max(1, iterationSteps) ==> Filled(CountFloors(Snapshot(grid)))
    {
      ghost var g0, ws0, d0 := Snapshot(grid), walkers, random.drawn;
      var iterations := 0;
      runs := 0;
      var done := false;
      ghost var before := 0;
      while !done
        invariant Shaped() && WalkersOk() && random.Valid()
        invariant runs <= Max(1, iterationSteps)
        invariant !done ==> iterations == runs < Max(1, iterationSteps) && Unfilled(g0, ws0, d0, Stepper(random.values), runs)
        invariant done ==> runs == before + 1 && Unfilled(g0, ws0, d0, Stepper(random.values), before)
        invariant done ==> Filled(CountFloors(Snapshot(grid))) || runs == Max(1, iterationSteps)
        invariant Reached(g0, ws0, d0, runs)
        decreases Max(1, iterationSteps) - runs
      {
        var floors;
        before := runs;
        floors, runs := WalkOn(g0, ws0, d0, runs);
        if Filled(floors) {
          done := true;
        } else {
          iterations := iterations + 1;
          done := !(iterations < iterationSteps);
        }
      }
      StepperKeeps(random.values);
      WalkWalkers(g0, ws0, d0, Stepper(random.values), runs);
      WalkFloors(g0, ws0, d0, Stepper(random.values), runs);
      WalkHasFloor(g0, ws0, d0, Stepper(random.values), runs);
    }

    /** A cell that is empty becomes a wall; every other cell stays as it is. */
    method WallIfEmpty(i: int, j: int)
      requires Shaped() && InGrid(levelWidth, levelHeight, i, j)
      modifies grid
      ensures forall p, q :: InGrid(levelWidth, levelHeight, p, q) ==>
        grid[p, q] == (if p == i && q == j && old(grid[p, q]) == Empty then Wall else old(grid[p, q]))
    {
      if grid[i, j] == Empty {
        grid[i, j] := Wall;
      }
    }

    /** The eight neighbours of the floor tile (x, y): each one that is empty becomes a wall. */
    method WallAround(x: int, y: int)
      requires Shaped() && 1 <= x < levelWidth - 1 && 1 <= y < levelHeight - 1
      modifies grid
      ensures forall i, j :: InGrid(levelWidth, levelHeight, i, j) ==>
        grid[i, j] == (if Adjacent(i, j, x, y) && old(grid[i, j]) == Empty then Wall else old(grid[i, j]))
    {
      WallIfEmpty(x, y + 1);
      WallIfEmpty(x, y - 1);
      WallIfEmpty(x + 1, y);
      WallIfEmpty(x - 1, y);
      WallIfEmpty(x - 1, y - 1);
      WallIfEmpty(x - 1, y + 1);
      WallIfEmpty(x + 1, y + 1);
      WallIfEmpty(x + 1, y - 1);
    }

    /**
     * The body of the wall scan at (x, y): the grid holds the wall pass of g over the
     * cells before (x, y), and afterwards over the cells up to (x, y).
     */
    method WallVisit(ghost g: Grid, x: int, y: int)
      requires Shaped() && IsGrid(g, levelWidth, levelHeight) && LowEdgesClear(g, levelWidth, levelHeight)
      requires Scanned(levelWidth, levelHeight, x, y)
      requires forall i, j :: InGrid(levelWidth, levelHeight, i, j) ==>
        grid[i, j] == WallCellBefore(g, levelWidth, levelHeight, i, j, x, y)
      modifies grid
      ensures forall i, j :: InGrid(levelWidth, levelHeight, i, j) ==>
        grid[i, j] == WallCellBefore(g, levelWidth, levelHeight, i, j, x, y + 1)
    {
      var w, h := levelWidth, levelHeight;
      forall i, j | InGrid(w, h, i, j)
        ensures NearVisitedBefore(g, w, h, i, j, x, y + 1) <==>
          NearVisitedBefore(g, w, h, i, j, x, y) || (Visited(g, w, h, x, y) && Adjacent(i, j, x, y))
      {
        NearVisitedStep(g, w, h, i, j, x, y);
      }
      if grid[x, y] == Floor {
        WallAround(x, y);
      }
    }

    /** The scan of column x of the wall pass: the cells of columns before x are done before, those of column x after. */
    method WallColumn(ghost g: Grid, x: int)
      requires Shaped() && IsGrid(g, levelWidth, levelHeight) && LowEdgesClear(g, levelWidth, levelHeight)
      requires 0 <= x < levelWidth - 1
      requires forall i, j :: InGrid(levelWidth, levelHeight, i, j) ==>
        grid[i, j] == WallCellBefore(g, levelWidth, levelHeight, i, j, x, 0)
      modifies grid
      ensures forall i, j :: InGrid(levelWidth, levelHeight, i, j) ==>
        grid[i, j] == WallCellBefore(g, levelWidth, levelHeight, i, j, x + 1, 0)
    {
      var w, h := levelWidth, levelHeight;
      for y := 0 to levelHeight - 1
        invariant forall i, j :: InGrid(w, h, i, j) ==> grid[i, j] == WallCellBefore(g, w, h, i, j, x, y)
      {
        WallVisit(g, x, y);
      }
      WallColumnEnd(g, w, h, x);
    }

    /** The two loops of the wall pass: afterwards every column x in [0, w-2] is done. */
    method WallColumns(ghost g: Grid)
      requires Shaped() && IsGrid(g, levelWidth, levelHeight) && LowEdgesClear(g, levelWidth, levelHeight)
      requires forall i, j :: InGrid(levelWidth, levelHeight, i, j) ==> grid[i, j] == g[i][j]
      modifies grid
      ensures forall i, j :: InGrid(levelWidth, levelHeight, i, j) ==>
        grid[i, j] == WallCellBefore(g, levelWidth, levelHeight, i, j, levelWidth - 1, 0)
    {
      var w, h := levelWidth, levelHeight;
      for x := 0 to levelWidth - 1
        invariant forall i, j :: InGrid(w, h, i, j) ==> grid[i, j] == WallCellBefore(g, w, h, i, j, x, 0)
      {
        WallColumn(g, x);
      }
    }

    /**
     * CreateWalls: scans x in [0, w-2], y in [0, h-2] and walls in every visited floor
     * tile. No such floor tile may lie in column 0 or row 0, whose left or lower
     * neighbours do not exist.
     */
    method CreateWalls()
      requires Shaped() && LowEdgesClear(Snapshot(grid), levelWidth, levelHeight)
      modifies grid
      ensures Snapshot(grid) == WallPass(old(Snapshot(grid)), levelWidth, levelHeight)
    {
      ghost var g := Snapshot(grid);
      var w, h := levelWidth, levelHeight;
      WallColumns(g);
      WallScanEnd(g, w, h);
      ghost var r, walled := Snapshot(grid), WallPass(g, w, h);
      forall i, j | InGrid(w, h, i, j)
        ensures r[i][j] == walled[i][j]
      {
        assert r[i][j] == grid[i, j];
      }
      SameGrid(r, walled, w, h);
    }

    /** CreateBottomWalls: every wall directly above a floor tile becomes a bottom wall. */
    method CreateBottomWalls()
      requires Shaped()
      modifies grid
      ensures Snapshot(grid) == BottomPass(old(Snapshot(grid)), levelWidth, levelHeight)
    {
      ghost var g := Snapshot(grid);
      var w, h := levelWidth, levelHeight;
      for x := 0 to levelWidth
        invariant forall i, j :: InGrid(w, h, i, j) ==> grid[i, j] == if i < x then BottomCell(g, w, h, i, j) else g[i][j]
      {
        for y := 1 to levelHeight
          invariant forall i, j :: InGrid(w, h, i, j) ==>
            grid[i, j] == if Before(i, j, x, y) then BottomCell(g, w, h, i, j) else g[i][j]
        {
          if grid[x, y] == Wall && grid[x, y - 1] == Floor {
            grid[x, y] := BottomWall;
          }
        }
      }
      SameGrid(Snapshot(grid), BottomPass(g, w, h), w, h);
    }

    /**
     * SpawnExit's search: over the cells x in [0, w-2], y in [0, h-2] in scan order, the
     * floor tile farthest from the centre cell, the first one on a tie; the centre cell
     * when no such floor tile is farther from it than 0.
     */
    method SpawnExit() returns (exit: Vec)
      requires Shaped()
      ensures var g, c := Snapshot(grid), CentreCell();
        exit == c || (Visited(g, levelWidth, levelHeight, exit.x, exit.y) && SqDist(c, exit) > 0)
      ensures var g, c := Snapshot(grid), CentreCell();
        forall x, y :: Visited(g, levelWidth, levelHeight, x, y) ==> SqDist(c, Vec(x, y)) <= SqDist(c, exit)
      ensures var g, c := Snapshot(grid), CentreCell();
        SqDist(c, exit) > 0 ==> forall x, y :: VisitedBefore(g, levelWidth, levelHeight, x, y, exit.x, exit.y) ==>
          SqDist(c, Vec(x, y)) < SqDist(c, exit)
    {
      ghost var g := Snapshot(grid);
      var w, h := levelWidth, levelHeight;
      var playerPos := CentreCell();
      exit := playerPos;
      var exitDistance := 0;
      for x := 0 to levelWidth - 1
        invariant exitDistance == SqDist(playerPos, exit)
        invariant exit == playerPos || (VisitedBefore(g, w, h, exit.x, exit.y, x, 0) && exitDistance > 0)
        invariant forall p, q :: VisitedBefore(g, w, h, p, q, x, 0) ==> SqDist(playerPos, Vec(p, q)) <= exitDistance
        invariant exitDistance > 0 ==> forall p, q :: VisitedBefore(g, w, h, p, q, exit.x, exit.y) ==>
          SqDist(playerPos, Vec(p, q)) < exitDistance
      {
        for y := 0 to levelHeight - 1
          invariant exitDistance == SqDist(playerPos, exit)
          invariant exit == playerPos || (VisitedBefore(g, w, h, exit.x, exit.y, x, y) && exitDistance > 0)
          invariant forall p, q :: VisitedBefore(g, w, h, p, q, x, y) ==> SqDist(playerPos, Vec(p, q)) <= exitDistance
          invariant exitDistance > 0 ==> forall p, q :: VisitedBefore(g, w, h, p, q, exit.x, exit.y) ==>
            SqDist(playerPos, Vec(p, q)) < exitDistance
        {
          assert forall p, q :: VisitedBefore(g, w, h, p, q, x, y + 1) ==>
            VisitedBefore(g, w, h, p, q, x, y) || (p == x && q == y && Visited(g, w, h, x, y));
          if grid[x, y] == Floor {
            var nextPos := Vec(x, y);
            var distance := SqDist(playerPos, nextPos);
            if distance > exitDistance {
              exitDistance := distance;
              exit := nextPos;
            }
          }
        }
      }
    }

    /**
     * What the walk leaves on the empty grid of Setup, started from the single walker on
     * the centre cell: nothing but floor and empty tiles, the centre cell a floor tile,
     * every other floor tile inside the clamp box, and so none in column 0 or row 0.
     */
    lemma WalkLayout(g0: Grid, ws0: seq<Walker>, g: Grid)
      requires Configured() && IsGrid(g0, levelWidth, levelHeight) && IsGrid(g, levelWidth, levelHeight)
      requires forall x, y :: InGrid(levelWidth, levelHeight, x, y) ==> g0[x][y] == Empty
      requires |ws0| == 1 && ws0[0].pos == CentreCell()
      requires Walked(g0, ws0, g)
      ensures FloorPlan(g, levelWidth, levelHeight) && LowEdgesClear(g, levelWidth, levelHeight)
      ensures InGrid(levelWidth, levelHeight, CentreCell().x, CentreCell().y)
      ensures g[CentreCell().x][CentreCell().y] == Floor
      ensures forall x, y :: InGrid(levelWidth, levelHeight, x, y) && g[x][y] == Floor ==>
        Vec(x, y) == CentreCell() || Interior(Vec(x, y))
    {
      var c := CentreCell();
      assert Positions(ws0)[0] == c;
      forall x, y | InGrid(levelWidth, levelHeight, x, y) && g[x][y] == Floor
        ensures Vec(x, y) == c || Interior(Vec(x, y))
      {
        if Occupied(ws0, Vec(x, y)) {
          assert Positions(ws0) == [c];
        }
      }
    }

    /**
     * The walk Awake runs: it starts on the empty grid with Setup's single walker on the
     * centre cell, turned by the stream value at d, and the stream cursor at d + 1. After
     * `runs` passes its grid is g and its walkers and cursor are the generator's; none of
     * the passes before the last filled the grid, and the last one did unless it was pass
     * iterationSteps (or the first, when iterationSteps < 1).
     */
    ghost predicate WalkedFromStart(d: nat, runs: nat, g: Grid)
      reads this, random
    {
      Configured() &&
      var g0, w0 := EmptyGrid(levelWidth, levelHeight), [Walker(Direction(DirectionChoice(random.values(d))), CentreCell())];
      var s := Walk(g0, w0, d + 1, Stepper(random.values), runs);
      1 <= runs <= Max(1, iterationSteps) &&
      g == s.grid && walkers == s.walkers && random.drawn == s.drawn &&
      Unfilled(g0, w0, d + 1, Stepper(random.values), runs - 1) &&
      (runs < Max(1, iterationSteps) ==> Filled(CountFloors(g)))
    }

    /**
     * With iterationSteps at most 1 the do-while makes a single pass, so the centre cell,
     * where Setup put the walker, is the only floor tile of the walk's grid.
     */
    lemma SeedOnly(d: nat, runs: nat, g: Grid)
      requires WalkedFromStart(d, runs, g) && iterationSteps <= 1
      ensures runs == 1 && IsGrid(g, levelWidth, levelHeight)
      ensures forall x, y :: InGrid(levelWidth, levelHeight, x, y) ==> (g[x][y] == Floor <==> Vec(x, y) == CentreCell())
    {
      var g0, w0 := EmptyGrid(levelWidth, levelHeight), [Walker(Direction(DirectionChoice(random.values(d))), CentreCell())];
      assert Positions(w0) == [CentreCell()];
      assert g == Marked(g0, w0);
    }

    /**
     * Awake's first two calls, Setup then CreateFloors: the walk from Setup's walker on the
     * centre cell of the empty grid, with the stream cursor one past Setup's read, for
     * `runs` passes, stopping as CreateFloors does. It leaves a floor plan whose centre
     * cell is floor and whose other floor tiles lie inside the clamp box.
     */
    method LayFloors() returns (ghost runs: nat)
      requires Configured() && random.Valid()
      modifies this, random`drawn
      ensures Shaped() && fresh(grid)
      ensures WalkedFromStart(old(random.drawn), runs, Snapshot(grid))
      ensures var g := Snapshot(grid);
        FloorPlan(g, levelWidth, levelHeight) && LowEdgesClear(g, levelWidth, levelHeight)
      ensures var g, c := Snapshot(grid), CentreCell();
        InGrid(levelWidth, levelHeight, c.x, c.y) && g[c.x][c.y] == Floor
      ensures var g := Snapshot(grid);
        forall x, y :: InGrid(levelWidth, levelHeight, x, y) && g[x][y] == Floor ==>
          Vec(x, y) == CentreCell() || Interior(Vec(x, y))
    {
      Setup();
      ghost var g0, ws0 := Snapshot(grid), walkers;
      SameGrid(g0, EmptyGrid(levelWidth, levelHeight), levelWidth, levelHeight);
      assert FloorsMarkable(g0);
      runs := CreateFloors();
      WalkLayout(g0, ws0, Snapshot(grid));
    }

    /**
     * Awake: Setup, CreateFloors, CreateWalls and CreateBottomWalls, then the player on
     * the centre cell and the exit from SpawnExit. The level has a floor tile under the
     * player; every floor tile other than the centre one lies inside the clamp box; no
     * visited floor tile has an empty neighbour; every wall and bottom wall touches a
     * visited floor tile; a bottom wall has floor below it and a wall never does; the
     * exit is the first farthest visited floor tile, or the centre cell.
     *
     * The level itself is the bottom-wall pass of the wall pass of `plan`, the grid that
     * `runs` passes of the walk from Setup's start leave.
     */
    method Generate() returns (player: Vec, exit: Vec, ghost runs: nat, ghost plan: Grid)
      requires Configured() && random.Valid()
      modifies this, random`drawn
      ensures Shaped()
      ensures var c := CentreCell();
        player == c && InGrid(levelWidth, levelHeight, c.x, c.y) && Snapshot(grid)[c.x][c.y] == Floor
      ensures var g := Snapshot(grid);
        forall x, y :: InGrid(levelWidth, levelHeight, x, y) && g[x][y] == Floor ==>
          Vec(x, y) == CentreCell() || Interior(Vec(x, y))
      ensures Saturated(Snapshot(grid), levelWidth, levelHeight) && WallsTouchFloor(Snapshot(grid), levelWidth, levelHeight)
      ensures var g, w, h := Snapshot(grid), levelWidth, levelHeight;
        forall i, j :: InGrid(w, h, i, j) && g[i][j] == BottomWall ==> 1 <= j && g[i][j - 1] == Floor
      ensures var g, w, h := Snapshot(grid), levelWidth, levelHeight;
        forall i, j :: InGrid(w, h, i, j) && 1 <= j && g[i][j] == Wall ==> g[i][j - 1] != Floor
      ensures var g, c := Snapshot(grid), CentreCell();
        exit == c || (Visited(g, levelWidth, levelHeight, exit.x, exit.y) && SqDist(c, exit) > 0)
      ensures var g, c := Snapshot(grid), CentreCell();
        forall x, y :: Visited(g, levelWidth, levelHeight, x, y) ==> SqDist(c, Vec(x, y)) <= SqDist(c, exit)
      ensures var g, c := Snapshot(grid), CentreCell();
        SqDist(c, exit) > 0 ==> forall x, y :: VisitedBefore(g, levelWidth, levelHeight, x, y, exit.x, exit.y) ==>
          SqDist(c, Vec(x, y)) < SqDist(c, exit)
      ensures WalkedFromStart(old(random.drawn), runs, plan) && IsGrid(plan, levelWidth, levelHeight)
      ensures Snapshot(grid) == BottomPass(WallPass(plan, levelWidth, levelHeight), levelWidth, levelHeight)
    {
      runs := LayFloors();
      plan := Snapshot(grid);
      CreateWalls();
      CreateBottomWalls();
      var w, h := levelWidth, levelHeight;
      DerivedKeepsFloors(plan, w, h);
      DerivedWalls(plan, w, h);
      DerivedBottomWalls(plan, w, h);
      player := CentreCell();
      exit := SpawnExit();
    }
  }
}
