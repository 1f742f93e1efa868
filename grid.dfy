/**
 * The level grid as a value: the four tile kinds, the floor count, and the two
 * post-processing passes of the generator (walls from the 8-neighbourhood of the
 * floor tiles, bottom walls from the tile directly below) as pure functions.
 * The in-place loops of the generator are proved against these functions.
 */
module Grids {

  datatype Tile = Empty | Floor | Wall | BottomWall

  /** A grid indexed g[x][y] like the generator's grid[x, y]: x runs over the width, y over the height. */
  type Grid = seq<seq<Tile>>

  predicate IsGrid(g: Grid, w: int, h: int)
  {
    |g| == w && 0 <= h && forall x :: 0 <= x < w ==> |g[x]| == h
  }

  predicate InGrid(w: int, h: int, x: int, y: int)
  {
    0 <= x < w && 0 <= y < h
  }

  /** The cells that the wall pass and the exit search visit: x in [0, w-2], y in [0, h-2]. */
  predicate Scanned(w: int, h: int, x: int, y: int)
  {
    0 <= x < w - 1 && 0 <= y < h - 1
  }

  /** (i, j) is one of the eight neighbours of (x, y). */
  predicate Adjacent(i: int, j: int, x: int, y: int)
  {
    -1 <= i - x <= 1 && -1 <= j - y <= 1 && (i != x || j != y)
  }

  /** (x, y) comes strictly before (xe, ye) in the x-major, y-minor order of a nested scan. */
  predicate Before(x: int, y: int, xe: int, ye: int)
  {
    x < xe || (x == xe && y < ye)
  }

  /** The w × h grid of empty tiles, as a new C# array of the tile enum holds. */
  function EmptyGrid(w: nat, h: nat): (g: Grid)
    ensures IsGrid(g, w, h)
    ensures forall x, y {:trigger g[x][y]} :: InGrid(w, h, x, y) ==> g[x][y] == Empty
  {
    seq(w, x => seq(h, y => Empty))
  }

  /** A grid that holds nothing but empty and floor tiles, as the walk leaves it. */
  ghost predicate FloorPlan(g: Grid, w: int, h: int)
    requires IsGrid(g, w, h)
  {
    forall x, y :: InGrid(w, h, x, y) ==> g[x][y] == Empty || g[x][y] == Floor
  }

  /** No floor tile that the wall pass visits lies in column 0 or row 0, so all eight of its neighbours exist. */
  ghost predicate LowEdgesClear(g: Grid, w: int, h: int)
    requires IsGrid(g, w, h)
  {
    forall x, y :: Scanned(w, h, x, y) && g[x][y] == Floor ==> 1 <= x && 1 <= y
  }

  /** Two grids of the same shape whose cells agree are equal. */
  lemma SameGrid(a: Grid, b: Grid, w: int, h: int)
    requires IsGrid(a, w, h) && IsGrid(b, w, h)
    requires forall x, y :: InGrid(w, h, x, y) ==> a[x][y] == b[x][y]
    ensures a == b
  {
    forall x | 0 <= x < w
      ensures a[x] == b[x]
    {
      assert forall y :: 0 <= y < h ==> a[x][y] == b[x][y];
    }
  }

  // ---------------------------------------------------------------------------
  // Floor count

  /** Number of floor tiles in one column. */
  function CountColumn(col: seq<Tile>): (n: nat)
    ensures n <= |col|
  {
    if col == [] then 0
    else CountColumn(col[..|col| - 1]) + (if col[|col| - 1] == Floor then 1 else 0)
  }

  /** Number of floor tiles in a grid, column by column. */
  function CountFloors(g: Grid): (n: nat)
  {
    if g == [] then 0 else CountFloors(g[..|g| - 1]) + CountColumn(g[|g| - 1])
  }

  lemma {:induction false} CountColumnMono(a: seq<Tile>, b: seq<Tile>)
    requires |a| == |b|
    requires forall y :: 0 <= y < |a| && a[y] == Floor ==> b[y] == Floor
    ensures CountColumn(a) <= CountColumn(b)
  {
    if a != [] {
      var n := |a| - 1;
      CountColumnMono(a[..n], b[..n]);
    }
  }

  /** A grid whose floor tiles all stay floor tiles in another grid of the same shape has no more floor tiles. */
  lemma {:induction false} CountFloorsMono(a: Grid, b: Grid, w: int, h: int)
    requires IsGrid(a, w, h) && IsGrid(b, w, h)
    requires forall x, y :: InGrid(w, h, x, y) && a[x][y] == Floor ==> b[x][y] == Floor
    ensures CountFloors(a) <= CountFloors(b)
  {
    if w > 0 {
      CountFloorsMono(a[..w - 1], b[..w - 1], w - 1, h);
      CountColumnMono(a[w - 1], b[w - 1]);
    }
  }

  /** Grids of the same shape with floor tiles in the same cells have the same floor count. */
  lemma CountFloorsSame(a: Grid, b: Grid, w: int, h: int)
    requires IsGrid(a, w, h) && IsGrid(b, w, h)
    requires forall x, y :: InGrid(w, h, x, y) ==> (a[x][y] == Floor <==> b[x][y] == Floor)
    ensures CountFloors(a) == CountFloors(b)
  {
    CountFloorsMono(a, b, w, h);
    CountFloorsMono(b, a, w, h);
  }

  lemma {:induction false} CountColumnPositive(col: seq<Tile>, y: int)
    requires 0 <= y < |col| && col[y] == Floor
    ensures CountColumn(col) >= 1
  {
    var n := |col| - 1;
    if y < n {
      CountColumnPositive(col[..n], y);
    }
  }

  /** A grid with a floor tile has a positive floor count. */
  lemma {:induction false} CountFloorsPositive(g: Grid, w: int, h: int, x: int, y: int)
    requires IsGrid(g, w, h) && InGrid(w, h, x, y) && g[x][y] == Floor
    ensures CountFloors(g) >= 1
  {
    if x < w - 1 {
      CountFloorsPositive(g[..w - 1], w - 1, h, x, y);
    } else {
      CountColumnPositive(g[w - 1], y);
    }
  }

  /** The floor count never exceeds the number of cells, so the fill ratio is at most 1. */
  lemma {:induction false} CountFloorsBound(g: Grid, w: int, h: int)
    requires IsGrid(g, w, h) && h >= 0
    ensures CountFloors(g) <= w * h
  {
    if w > 0 {
      CountFloorsBound(g[..w - 1], w - 1, h);
      assert (w - 1) * h + h == w * h;
    }
  }

  // ---------------------------------------------------------------------------
  // Wall pass

  /** (p, q) is a floor tile that the wall pass visits. */
  predicate Visited(g: Grid, w: int, h: int, p: int, q: int)
    requires IsGrid(g, w, h)
  {
    Scanned(w, h, p, q) && g[p][q] == Floor
  }

  predicate VisitedBefore(g: Grid, w: int, h: int, p: int, q: int, xe: int, ye: int)
    requires IsGrid(g, w, h)
  {
    Visited(g, w, h, p, q) && Before(p, q, xe, ye)
  }

  /** One of the eight neighbours of (i, j) is a floor tile that the wall pass visits before (xe, ye). */
  predicate NearVisitedBefore(g: Grid, w: int, h: int, i: int, j: int, xe: int, ye: int)
    requires IsGrid(g, w, h)
  {
    VisitedBefore(g, w, h, i - 1, j - 1, xe, ye) || VisitedBefore(g, w, h, i - 1, j, xe, ye) ||
    VisitedBefore(g, w, h, i - 1, j + 1, xe, ye) || VisitedBefore(g, w, h, i, j - 1, xe, ye) ||
    VisitedBefore(g, w, h, i, j + 1, xe, ye) || VisitedBefore(g, w, h, i + 1, j - 1, xe, ye) ||
    VisitedBefore(g, w, h, i + 1, j, xe, ye) || VisitedBefore(g, w, h, i + 1, j + 1, xe, ye)
  }

  /** One of the eight neighbours of (i, j) is a floor tile that the wall pass visits. */
  predicate NearVisited(g: Grid, w: int, h: int, i: int, j: int)
    requires IsGrid(g, w, h)
  {
    NearVisitedBefore(g, w, h, i, j, w, 0)
  }

  /** No visited floor tile has a neighbour that is outside the grid or empty. */
  ghost predicate Saturated(g: Grid, w: int, h: int)
    requires IsGrid(g, w, h)
  {
    forall p, q, i, j :: Visited(g, w, h, p, q) && Adjacent(i, j, p, q) ==> InGrid(w, h, i, j) && g[i][j] != Empty
  }

  /** Every wall and bottom wall is a neighbour of a visited floor tile. */
  ghost predicate WallsTouchFloor(g: Grid, w: int, h: int)
    requires IsGrid(g, w, h)
  {
    forall i, j :: InGrid(w, h, i, j) && (g[i][j] == Wall || g[i][j] == BottomWall) ==>
      exists p, q :: Visited(g, w, h, p, q) && Adjacent(i, j, p, q)
  }

  /** NearVisited says exactly that some visited floor tile is one of the eight neighbours. */
  lemma NearVisitedMeans(g: Grid, w: int, h: int, i: int, j: int)
    requires IsGrid(g, w, h)
    ensures NearVisited(g, w, h, i, j) <==> exists p, q :: Visited(g, w, h, p, q) && Adjacent(i, j, p, q)
  {
    if exists p, q :: Visited(g, w, h, p, q) && Adjacent(i, j, p, q) {
      var p, q :| Visited(g, w, h, p, q) && Adjacent(i, j, p, q);
      assert VisitedBefore(g, w, h, p, q, w, 0);
    }
    if NearVisited(g, w, h, i, j) {
      var (p, q) :=
        if VisitedBefore(g, w, h, i - 1, j - 1, w, 0) then (i - 1, j - 1)
        else if VisitedBefore(g, w, h, i - 1, j, w, 0) then (i - 1, j)
        else if VisitedBefore(g, w, h, i - 1, j + 1, w, 0) then (i - 1, j + 1)
        else if VisitedBefore(g, w, h, i, j - 1, w, 0) then (i, j - 1)
        else if VisitedBefore(g, w, h, i, j + 1, w, 0) then (i, j + 1)
        else if VisitedBefore(g, w, h, i + 1, j - 1, w, 0) then (i + 1, j - 1)
        else if VisitedBefore(g, w, h, i + 1, j, w, 0) then (i + 1, j)
        else (i + 1, j + 1);
      assert Visited(g, w, h, p, q) && Adjacent(i, j, p, q);
    }
  }

  /** Cell (i, j) once the wall pass has visited every cell before (xe, ye). */
  function WallCellBefore(g: Grid, w: int, h: int, i: int, j: int, xe: int, ye: int): Tile
    requires IsGrid(g, w, h) && InGrid(w, h, i, j)
  {
    if g[i][j] == Empty && NearVisitedBefore(g, w, h, i, j, xe, ye) then Wall else g[i][j]
  }

  function WallCell(g: Grid, w: int, h: int, i: int, j: int): Tile
    requires IsGrid(g, w, h) && InGrid(w, h, i, j)
  {
    WallCellBefore(g, w, h, i, j, w, 0)
  }

  /** Visiting (x, y) adds it, if it is a floor tile, to the visited neighbours. */
  lemma NearVisitedStep(g: Grid, w: int, h: int, i: int, j: int, x: int, y: int)
    requires IsGrid(g, w, h)
    ensures NearVisitedBefore(g, w, h, i, j, x, y + 1) <==>
      NearVisitedBefore(g, w, h, i, j, x, y) || (Visited(g, w, h, x, y) && Adjacent(i, j, x, y))
  {
  }

  /** The end of column x of the scan (y = h - 1) is the start of column x + 1. */
  lemma NearVisitedColumnEnd(g: Grid, w: int, h: int, i: int, j: int, x: int)
    requires IsGrid(g, w, h)
    ensures NearVisitedBefore(g, w, h, i, j, x, h - 1) <==> NearVisitedBefore(g, w, h, i, j, x + 1, 0)
  {
  }

  /** The cells after the scan of column x are those before column x + 1. */
  lemma WallColumnEnd(g: Grid, w: int, h: int, x: int)
    requires IsGrid(g, w, h)
    ensures forall i, j :: InGrid(w, h, i, j) ==>
      WallCellBefore(g, w, h, i, j, x, h - 1) == WallCellBefore(g, w, h, i, j, x + 1, 0)
  {
    forall i, j | InGrid(w, h, i, j)
      ensures WallCellBefore(g, w, h, i, j, x, h - 1) == WallCellBefore(g, w, h, i, j, x + 1, 0)
    {
      NearVisitedColumnEnd(g, w, h, i, j, x);
    }
  }

  /**
   * The grid after the wall pass: every empty cell among the eight neighbours of a
   * visited floor tile becomes a wall. The pass only ever turns empty cells into
   * walls, so the cells it has already changed never affect a later test and the
   * result does not depend on the scan order.
   */
  function WallPass(g: Grid, w: int, h: int): (r: Grid)
    requires IsGrid(g, w, h)
    ensures IsGrid(r, w, h)
    ensures forall i, j :: InGrid(w, h, i, j) ==>
      (r[i][j] == g[i][j] || (g[i][j] == Empty && r[i][j] == Wall))
    ensures forall i, j :: InGrid(w, h, i, j) ==>
      (r[i][j] == Wall <==> g[i][j] == Wall || (g[i][j] == Empty && NearVisited(g, w, h, i, j)))
  {
    seq(w, i requires 0 <= i < w => seq(h, j requires 0 <= j < h => WallCell(g, w, h, i, j)))
  }

  /** Column w - 1 holds no visited cell, so the scan of columns 0 .. w - 2 is the whole wall pass. */
  lemma WallScanEnd(g: Grid, w: int, h: int)
    requires IsGrid(g, w, h)
    ensures forall i, j :: InGrid(w, h, i, j) ==> WallPass(g, w, h)[i][j] == WallCellBefore(g, w, h, i, j, w - 1, 0)
  {
    forall i, j | InGrid(w, h, i, j)
      ensures WallPass(g, w, h)[i][j] == WallCellBefore(g, w, h, i, j, w - 1, 0)
    {
      NearVisitedColumnEnd(g, w, h, i, j, w - 1);
    }
  }

  /** The wall pass leaves every floor tile in place, and with it the floor count. */
  lemma WallPassKeepsFloors(g: Grid, w: int, h: int)
    requires IsGrid(g, w, h)
    ensures forall i, j :: InGrid(w, h, i, j) ==> (WallPass(g, w, h)[i][j] == Floor <==> g[i][j] == Floor)
    ensures CountFloors(WallPass(g, w, h)) == CountFloors(g)
  {
    CountFloorsSame(WallPass(g, w, h), g, w, h);
  }

  /**
   * Wall saturation: after the wall pass, none of the eight neighbours of a visited
   * floor tile is empty (and all of them exist, as no visited floor tile lies in
   * column 0 or row 0).
   */
  lemma WallPassSaturates(g: Grid, w: int, h: int)
    requires IsGrid(g, w, h) && LowEdgesClear(g, w, h)
    ensures Saturated(WallPass(g, w, h), w, h)
  {
    var r := WallPass(g, w, h);
    forall p, q, i, j | Visited(r, w, h, p, q) && Adjacent(i, j, p, q)
      ensures InGrid(w, h, i, j) && r[i][j] != Empty
    {
      assert Visited(g, w, h, p, q);
      NearVisitedMeans(g, w, h, i, j);
    }
  }

  /** Every wall the pass leaves on a plan of floor and empty tiles is a neighbour of a visited floor tile. */
  lemma WallPassWallsTouchFloor(g: Grid, w: int, h: int)
    requires IsGrid(g, w, h) && FloorPlan(g, w, h)
    ensures forall i, j :: InGrid(w, h, i, j) && WallPass(g, w, h)[i][j] == Wall ==>
      exists p, q :: Visited(WallPass(g, w, h), w, h, p, q) && Adjacent(i, j, p, q)
  {
    var r := WallPass(g, w, h);
    forall i, j | InGrid(w, h, i, j) && r[i][j] == Wall
      ensures exists p, q :: Visited(r, w, h, p, q) && Adjacent(i, j, p, q)
    {
      NearVisitedMeans(g, w, h, i, j);
      var p, q :| Visited(g, w, h, p, q) && Adjacent(i, j, p, q);
      assert Visited(r, w, h, p, q);
    }
  }

  // ---------------------------------------------------------------------------
  // Bottom-wall pass

  function BottomCell(g: Grid, w: int, h: int, i: int, j: int): Tile
    requires IsGrid(g, w, h) && InGrid(w, h, i, j)
  {
    if j >= 1 && g[i][j] == Wall && g[i][j - 1] == Floor then BottomWall else g[i][j]
  }

  /**
   * The grid after the bottom-wall pass: a wall whose lower neighbour (y - 1) is a
   * floor tile becomes a bottom wall. The pass reads only floor tiles, which it
   * never changes, so the in-place scan computes this cell by cell.
   */
  function BottomPass(g: Grid, w: int, h: int): (r: Grid)
    requires IsGrid(g, w, h)
    ensures IsGrid(r, w, h)
    ensures forall i, j :: InGrid(w, h, i, j) ==>
      (r[i][j] == g[i][j] || (g[i][j] == Wall && r[i][j] == BottomWall))
    ensures forall i, j :: InGrid(w, h, i, j) ==>
      (r[i][j] == BottomWall <==> g[i][j] == BottomWall || (1 <= j && g[i][j] == Wall && g[i][j - 1] == Floor))
  {
    seq(w, i requires 0 <= i < w => seq(h, j requires 0 <= j < h => BottomCell(g, w, h, i, j)))
  }

  lemma BottomPassAt(g: Grid, w: int, h: int, i: int, j: int)
    requires IsGrid(g, w, h) && InGrid(w, h, i, j)
    ensures BottomPass(g, w, h)[i][j] == BottomCell(g, w, h, i, j)
  {
  }

  /** After the bottom-wall pass no wall sits directly above a floor tile. */
  lemma NoWallAboveFloor(g: Grid, w: int, h: int)
    requires IsGrid(g, w, h)
    ensures forall i, j :: InGrid(w, h, i, j) && 1 <= j ==>
      !(BottomPass(g, w, h)[i][j] == Wall && BottomPass(g, w, h)[i][j - 1] == Floor)
  {
    var r := BottomPass(g, w, h);
    forall i, j | InGrid(w, h, i, j) && 1 <= j
      ensures !(r[i][j] == Wall && r[i][j - 1] == Floor)
    {
      BottomPassAt(g, w, h, i, j);
      BottomPassAt(g, w, h, i, j - 1);
    }
  }

  /** Running the bottom-wall pass a second time changes nothing. */
  lemma BottomPassIdempotent(g: Grid, w: int, h: int)
    requires IsGrid(g, w, h)
    ensures BottomPass(BottomPass(g, w, h), w, h) == BottomPass(g, w, h)
  {
    var r := BottomPass(g, w, h);
    forall i, j | InGrid(w, h, i, j)
      ensures BottomPass(r, w, h)[i][j] == r[i][j]
    {
      BottomPassAt(r, w, h, i, j);
      if 1 <= j {
        BottomPassAt(g, w, h, i, j);
        BottomPassAt(g, w, h, i, j - 1);
      }
    }
    SameGrid(BottomPass(r, w, h), r, w, h);
  }

  // ---------------------------------------------------------------------------
  // Both passes together

  /**
   * The two passes applied to the plan of floor tiles that the walk leaves (nothing
   * but floor and empty tiles, no visited floor tile in column 0 or row 0) keep
   * exactly the floor tiles of the plan, and so its floor count.
   */
  lemma DerivedKeepsFloors(g: Grid, w: int, h: int)
    requires IsGrid(g, w, h) && FloorPlan(g, w, h) && LowEdgesClear(g, w, h)
    ensures var r := BottomPass(WallPass(g, w, h), w, h);
      IsGrid(r, w, h) &&
      (forall i, j :: InGrid(w, h, i, j) ==> (r[i][j] == Floor <==> g[i][j] == Floor)) &&
      CountFloors(r) == CountFloors(g)
  {
    var m := WallPass(g, w, h);
    var r := BottomPass(m, w, h);
    WallPassKeepsFloors(g, w, h);
    CountFloorsSame(r, m, w, h);
  }

  /**
   * In the layout the two passes make of such a plan, every visited floor tile has no
   * empty neighbour, and every wall and bottom wall has a visited floor neighbour.
   */
  lemma DerivedWalls(g: Grid, w: int, h: int)
    requires IsGrid(g, w, h) && FloorPlan(g, w, h) && LowEdgesClear(g, w, h)
    ensures var r := BottomPass(WallPass(g, w, h), w, h);
      IsGrid(r, w, h) && Saturated(r, w, h) && WallsTouchFloor(r, w, h)
  {
    var m := WallPass(g, w, h);
    var r := BottomPass(m, w, h);
    WallPassKeepsFloors(g, w, h);
    WallPassSaturates(g, w, h);
    WallPassWallsTouchFloor(g, w, h);
    forall p, q | Visited(r, w, h, p, q) ensures Visited(m, w, h, p, q) { }
    forall i, j | InGrid(w, h, i, j) && (r[i][j] == Wall || r[i][j] == BottomWall)
      ensures exists p, q :: Visited(r, w, h, p, q) && Adjacent(i, j, p, q)
    {
      assert m[i][j] == Wall;
      var p, q :| Visited(m, w, h, p, q) && Adjacent(i, j, p, q);
      assert Visited(r, w, h, p, q);
    }
  }

  /**
   * In that layout a bottom wall has a floor tile directly below it and a wall never does.
   */
  lemma DerivedBottomWalls(g: Grid, w: int, h: int)
    requires IsGrid(g, w, h) && FloorPlan(g, w, h) && LowEdgesClear(g, w, h)
    ensures var r := BottomPass(WallPass(g, w, h), w, h);
      IsGrid(r, w, h) &&
      (forall i, j :: InGrid(w, h, i, j) && r[i][j] == BottomWall ==> 1 <= j && r[i][j - 1] == Floor) &&
      (forall i, j :: InGrid(w, h, i, j) && 1 <= j && r[i][j] == Wall ==> r[i][j - 1] != Floor)
  {
    var m := WallPass(g, w, h);
    WallPassKeepsFloors(g, w, h);
    NoWallAboveFloor(m, w, h);
  }
}
