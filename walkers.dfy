/**
 * The walkers of the random walk as values: positions and directions, the choice of
 * a random direction, the clamp, and the three random sub-steps of one iteration
 * (cull, change of direction, spawn) as functions of the walkers before the step and
 * of the stream of random values. The generator's loops are proved against these.
 */
module Walkers {

  /** A Vector2 that only ever holds whole numbers: a walker's position or direction. */
  datatype Vec = Vec(x: int, y: int)
  {
    function Plus(d: Vec): Vec
    {
      Vec(x + d.x, y + d.y)
    }
  }

  datatype Walker = Walker(dir: Vec, pos: Vec)

  /** The cells the walkers of ws stand on, in order. */
  function Positions(ws: seq<Walker>): (ps: seq<Vec>)
    ensures |ps| == |ws| && forall k :: 0 <= k < |ws| ==> ps[k] == ws[k].pos
  {
    seq(|ws|, k requires 0 <= k < |ws| => ws[k].pos)
  }

  /** Some walker of ws stands on p. */
  predicate Occupied(ws: seq<Walker>, p: Vec)
  {
    p in Positions(ws)
  }

  /** One of Vector2.down, Vector2.left, Vector2.up, Vector2.right. */
  predicate IsCardinal(d: Vec)
  {
    d == Vec(0, -1) || d == Vec(-1, 0) || d == Vec(0, 1) || d == Vec(1, 0)
  }

  function Max(a: int, b: int): int
  {
    if a < b then b else a
  }

  /** Mathf.FloorToInt(value * 3.99f): the choice RandomDirection makes from one random value. */
  function DirectionChoice(value: real): (choice: int)
    ensures 0.0 <= value <= 1.0 ==> 0 <= choice <= 3
  {
    (value * 3.99).Floor
  }

  /** The switch of RandomDirection: 0 is down, 1 left, 2 up, and anything else right. */
  function Direction(choice: int): (d: Vec)
    ensures IsCardinal(d)
  {
    if choice == 0 then Vec(0, -1)
    else if choice == 1 then Vec(-1, 0)
    else if choice == 2 then Vec(0, 1)
    else Vec(1, 0)
  }

  /** The four choices 0 to 3 give the four cardinal directions, each of them exactly once. */
  lemma DirectionBijective()
    ensures forall d :: IsCardinal(d) ==> exists c :: 0 <= c <= 3 && Direction(c) == d
    ensures forall c, c' :: 0 <= c < c' <= 3 ==> Direction(c) != Direction(c')
  {
    forall d | IsCardinal(d)
      ensures exists c :: 0 <= c <= 3 && Direction(c) == d
    {
      var c := if d == Vec(0, -1) then 0 else if d == Vec(-1, 0) then 1 else if d == Vec(0, 1) then 2 else 3;
      assert Direction(c) == d;
    }
  }

  /** Mathf.Clamp(value, min, max). */
  function Clamp(value: int, min: int, max: int): (r: int)
    ensures min <= max ==> min <= r <= max
    ensures min <= value <= max ==> r == value
    ensures r == value || r == min || r == max
  {
    if value < min then min else if value > max then max else value
  }

  /** The walkers after a random sub-step, and how many random values have been read in all. */
  datatype StepResult = StepResult(walkers: seq<Walker>, drawn: nat)

  /**
   * The cull loop from walker i on, with `drawn` values read so far. One random value is
   * read for each walker in order; at the first one below `chance`, if more than one
   * walker exists, that walker is removed and the loop stops.
   */
  function CullFrom(ws: seq<Walker>, i: nat, values: nat -> real, drawn: nat, chance: real): (r: StepResult)
    requires i <= |ws|
    ensures |r.walkers| == |ws| || (1 < |ws| && |r.walkers| == |ws| - 1)
    ensures drawn <= r.drawn <= drawn + |ws| - i
    ensures |r.walkers| == |ws| ==> r.drawn == drawn + |ws| - i
    decreases |ws| - i
  {
    if i == |ws| then StepResult(ws, drawn)
    else if values(drawn) < chance && |ws| > 1 then StepResult(ws[..i] + ws[i + 1..], drawn + 1)
    else CullFrom(ws, i + 1, values, drawn + 1, chance)
  }

  /** The cull step: the cull loop over all walkers. */
  function Cull(ws: seq<Walker>, values: nat -> real, drawn: nat, chance: real): (r: StepResult)
    ensures 1 <= |ws| ==> 1 <= |r.walkers|
    ensures |r.walkers| == |ws| || |r.walkers| == |ws| - 1
    ensures drawn <= r.drawn <= drawn + |ws|
    ensures |r.walkers| == |ws| ==> r.drawn == drawn + |ws|
  {
    CullFrom(ws, 0, values, drawn, chance)
  }

  /**
   * The cull removes at most one walker, and never the last: the result is the walkers
   * it started with, or those with exactly one taken out (and that one only when there
   * were two or more). It reads one value per walker up to the one removed.
   */
  lemma {:induction false} CullFromRemovesOne(ws: seq<Walker>, i: nat, values: nat -> real, drawn: nat, chance: real)
    requires i <= |ws|
    ensures var r := CullFrom(ws, i, values, drawn, chance);
      (r.walkers == ws || (|ws| > 1 && exists j :: i <= j < |ws| && r.walkers == ws[..j] + ws[j + 1..])) &&
      drawn <= r.drawn <= drawn + |ws| - i
    decreases |ws| - i
  {
    if i < |ws| && !(values(drawn) < chance && |ws| > 1) {
      CullFromRemovesOne(ws, i + 1, values, drawn + 1, chance);
    }
  }

  /** The cull keeps at least one walker, and only walkers it started with. */
  lemma CullKeeps(ws: seq<Walker>, values: nat -> real, drawn: nat, chance: real)
    ensures var r := Cull(ws, values, drawn, chance).walkers;
      (|ws| >= 1 ==> |r| >= 1) && |r| <= |ws| && multiset(r) <= multiset(ws) &&
      forall k :: 0 <= k < |r| ==> r[k] in ws
  {
    CullFromRemovesOne(ws, 0, values, drawn, chance);
    var r := Cull(ws, values, drawn, chance).walkers;
    if r != ws {
      var j :| 0 <= j < |ws| && r == ws[..j] + ws[j + 1..];
      assert ws == ws[..j] + [ws[j]] + ws[j + 1..];
      assert multiset(ws) == multiset(r) + multiset{ws[j]};
      forall k | 0 <= k < |r|
        ensures r[k] in ws
      {
        if k < j {
          assert r[k] == ws[k];
        } else {
          assert r[k] == ws[k + 1];
        }
      }
    }
  }

  /**
   * The change-of-direction step over the first n walkers, done in place. For each
   * walker in order one random value is read; when it is below `chance`, one more value
   * is read and the walker takes the direction RandomDirection chooses from it.
   */
  function Redirect(ws: seq<Walker>, n: nat, values: nat -> real, drawn: nat, chance: real): (r: StepResult)
    requires n <= |ws|
    ensures |r.walkers| == |ws|
    decreases n
  {
    if n == 0 then StepResult(ws, drawn)
    else
      var p := Redirect(ws, n - 1, values, drawn, chance);
      if values(p.drawn) < chance then
        StepResult(p.walkers[n - 1 := p.walkers[n - 1].(dir := Direction(DirectionChoice(values(p.drawn + 1))))], p.drawn + 2)
      else
        StepResult(p.walkers, p.drawn + 1)
  }

  /**
   * The change of direction moves no walker, leaves the walkers after the first n as they
   * were, and every direction it gives is cardinal.
   */
  lemma {:induction false} RedirectKeepsPositions(ws: seq<Walker>, n: nat, values: nat -> real, drawn: nat, chance: real)
    requires n <= |ws|
    ensures var r := Redirect(ws, n, values, drawn, chance).walkers;
      forall k :: 0 <= k < |ws| ==>
        r[k].pos == ws[k].pos && (r[k].dir == ws[k].dir || IsCardinal(r[k].dir)) && (n <= k ==> r[k] == ws[k])
    decreases n
  {
    if n > 0 {
      RedirectKeepsPositions(ws, n - 1, values, drawn, chance);
    }
  }

  /** The change of direction reads one value per walker, and a second one for each walker it turns. */
  lemma {:induction false} RedirectReads(ws: seq<Walker>, n: nat, values: nat -> real, drawn: nat, chance: real)
    requires n <= |ws|
    ensures var r := Redirect(ws, n, values, drawn, chance); drawn + n <= r.drawn <= drawn + 2 * n
    decreases n
  {
    if n > 0 {
      RedirectReads(ws, n - 1, values, drawn, chance);
    }
  }

  /**
   * The spawn step over the first n walkers of ws, the ones present at its start. For
   * each one random value is read; when it is below `chance` and fewer than maxWalkers
   * walkers exist, one more value is read and a walker with the direction chosen from it
   * is added at the end of the list, on the cell of the walker at that place in the list.
   */
  function Spawn(ws: seq<Walker>, n: nat, values: nat -> real, drawn: nat, chance: real, maxWalkers: int): (r: StepResult)
    requires n <= |ws|
    ensures |ws| <= |r.walkers| <= Max(|ws|, maxWalkers)
    ensures |r.walkers| <= |ws| + n
    decreases n
  {
    if n == 0 then StepResult(ws, drawn)
    else
      var p := Spawn(ws, n - 1, values, drawn, chance, maxWalkers);
      if values(p.drawn) < chance && |p.walkers| < maxWalkers then
        StepResult(p.walkers + [Walker(Direction(DirectionChoice(values(p.drawn + 1))), p.walkers[n - 1].pos)], p.drawn + 2)
      else
        StepResult(p.walkers, p.drawn + 1)
  }

  /** The spawn step keeps the walkers it starts with, in place and in order. */
  lemma {:induction false} SpawnKeepsPrefix(ws: seq<Walker>, n: nat, values: nat -> real, drawn: nat, chance: real, maxWalkers: int)
    requires n <= |ws|
    ensures Spawn(ws, n, values, drawn, chance, maxWalkers).walkers[..|ws|] == ws
    decreases n
  {
    if n > 0 {
      SpawnKeepsPrefix(ws, n - 1, values, drawn, chance, maxWalkers);
      var p := Spawn(ws, n - 1, values, drawn, chance, maxWalkers).walkers;
      var r := Spawn(ws, n, values, drawn, chance, maxWalkers).walkers;
      assert r[..|ws|] == p[..|ws|];
    }
  }

  /** The spawn reads one value per walker checked, and a second one for each walker it adds. */
  lemma {:induction false} SpawnReads(ws: seq<Walker>, n: nat, values: nat -> real, drawn: nat, chance: real, maxWalkers: int)
    requires n <= |ws|
    ensures var r := Spawn(ws, n, values, drawn, chance, maxWalkers); drawn + n <= r.drawn <= drawn + 2 * n
    decreases n
  {
    if n > 0 {
      SpawnReads(ws, n - 1, values, drawn, chance, maxWalkers);
    }
  }

  /**
   * The spawn step keeps the walkers it starts with, in place and in order, and every
   * walker it adds heads in a cardinal direction from the cell of one of them.
   */
  lemma {:induction false} SpawnKeepsWalkers(ws: seq<Walker>, n: nat, values: nat -> real, drawn: nat, chance: real, maxWalkers: int)
    requires n <= |ws|
    ensures var r := Spawn(ws, n, values, drawn, chance, maxWalkers).walkers;
      r[..|ws|] == ws &&
      forall k :: |ws| <= k < |r| ==> IsCardinal(r[k].dir) && exists j :: 0 <= j < n && r[k].pos == ws[j].pos
    decreases n
  {
    SpawnKeepsPrefix(ws, n, values, drawn, chance, maxWalkers);
    if n > 0 {
      SpawnKeepsWalkers(ws, n - 1, values, drawn, chance, maxWalkers);
      var p := Spawn(ws, n - 1, values, drawn, chance, maxWalkers).walkers;
      var r := Spawn(ws, n, values, drawn, chance, maxWalkers).walkers;
      if |r| > |p| {
        assert r == p + [r[|p|]];
        assert p[n - 1] == p[..|ws|][n - 1];
      }
    }
  }
}
