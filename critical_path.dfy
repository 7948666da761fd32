/** What a critical path is: the random walk GenerateCriticalPath performs,
    described on values, and what can be proved about every such walk.

    The random source is a stream `rng`: draw 0 picks the start column
    (`Random.Range(0, width)` is `rng(0) % width`), and draw k picks the
    direction of step k among the valid ones (`rng(k) % |valid|`). */
module CriticalPath {
  import opened Grid

  /** The three moves of the walk; Down is never one of them. */
  predicate IsStep(d: Coord) {
    d == Right || d == Left || d == Up
  }

  /** `b` is one move away from `a`. */
  predicate StepBetween(a: Coord, b: Coord) {
    b == a.Plus(Right) || b == a.Plus(Left) || b == a.Plus(Up)
  }

  /** The generator's own test of one candidate direction: Right needs
      room to the right, Left room to the left, Up a row above, and the
      target cell must not be on the path yet. */
  predicate Allowed(from: Coord, d: Coord, path: seq<Coord>, width: int, height: int) {
    && (if d == Right then from.x < width - 1
        else if d == Left then from.x > 0
        else if d == Up then from.y < height - 1
        else false)
    && from.Plus(d) !in path
  }

  /** Validity read geometrically: a move that stays in the grid and lands
      on an unvisited cell. */
  predicate CanMove(from: Coord, d: Coord, path: seq<Coord>, width: int, height: int) {
    IsStep(d) && InGrid(from.Plus(d), width, height) && from.Plus(d) !in path
  }

  /** The candidates of `ds`, in order, that pass the generator's test. */
  function KeepAllowed(from: Coord, ds: seq<Coord>, path: seq<Coord>, width: int, height: int): (kept: seq<Coord>)
    ensures forall d :: d in kept <==> d in ds && Allowed(from, d, path, width, height)
    ensures |kept| <= |ds|
  {
    if ds == [] then []
    else
      var rest := KeepAllowed(from, ds[1..], path, width, height);
      if Allowed(from, ds[0], path, width, height) then [ds[0]] + rest else rest
  }

  /** The list of valid directions from `from`, Right before Left before Up. */
  function ValidDirections(from: Coord, path: seq<Coord>, width: int, height: int): seq<Coord> {
    KeepAllowed(from, [Right, Left, Up], path, width, height)
  }

  /** The valid directions, spelled out candidate by candidate. */
  lemma ValidDirectionsInOrder(from: Coord, path: seq<Coord>, width: int, height: int)
    ensures ValidDirections(from, path, width, height) ==
      (if from.x < width - 1 && from.Plus(Right) !in path then [Right] else [])
      + (if from.x > 0 && from.Plus(Left) !in path then [Left] else [])
      + (if from.y < height - 1 && from.Plus(Up) !in path then [Up] else [])
  {
    assert [Right, Left, Up][1..] == [Left, Up];
    assert [Left, Up][1..] == [Up];
    assert [Up][1..] == [];
    var up := KeepAllowed(from, [Up], path, width, height);
    assert up == (if Allowed(from, Up, path, width, height) then [Up] else []);
    var leftUp := KeepAllowed(from, [Left, Up], path, width, height);
    assert leftUp == (if Allowed(from, Left, path, width, height) then [Left] else []) + up;
    assert ValidDirections(from, path, width, height)
      == (if Allowed(from, Right, path, width, height) then [Right] else []) + leftUp;
  }

  /** The direction chosen from a candidate list with one draw, or Zero if
      there is none. */
  function Pick(valid: seq<Coord>, draw: nat): Coord {
    if valid == [] then Zero else valid[draw % |valid|]
  }

  /** A valid direction is a move, and, from a cell inside the grid, the
      valid directions are exactly the moves into unvisited grid cells. */
  lemma ValidDirectionsAreMoves(from: Coord, path: seq<Coord>, width: int, height: int)
    ensures forall d :: d in ValidDirections(from, path, width, height) ==> IsStep(d) && from.Plus(d) !in path
    ensures InGrid(from, width, height) ==>
      forall d :: d in ValidDirections(from, path, width, height) <==> CanMove(from, d, path, width, height)
    ensures |ValidDirections(from, path, width, height)| <= 3
  {
  }

  /** Step k of `path` is the move the walk takes from `path[k]`: there was
      a valid direction, and draw k + 1 chose it. */
  predicate StepTaken(path: seq<Coord>, k: nat, width: int, height: int, rng: nat -> nat)
    requires k + 1 < |path|
  {
    var valid := ValidDirections(path[k], path[..k + 1], width, height);
    |valid| > 0 && path[k + 1] == path[k].Plus(valid[rng(k + 1) % |valid|])
  }

  /** `path` is what the walk has produced so far: the start cell, then
      every step taken as the generator takes it. */
  predicate WalkPrefix(path: seq<Coord>, width: int, height: int, rng: nat -> nat) {
    && width >= 1
    && height >= 1
    && |path| > 0
    && path[0] == Coord(rng(0) % width, 0)
    && forall k :: 0 <= k < |path| - 1 ==> StepTaken(path, k, width, height, rng)
  }

  /** The last cell has no valid direction left. */
  predicate Stuck(path: seq<Coord>, width: int, height: int)
    requires |path| > 0
  {
    ValidDirections(path[|path| - 1], path, width, height) == []
  }

  /** `path` is the complete critical path the generator produces from `rng`. */
  predicate Generated(path: seq<Coord>, width: int, height: int, rng: nat -> nat) {
    WalkPrefix(path, width, height, rng) && Stuck(path, width, height)
  }

  /** The shape every critical path has: starts in row 0, stays inside
      the grid, never revisits a cell, and moves one cell right, left or
      up at a time. */
  predicate IsWalk(path: seq<Coord>, width: int, height: int) {
    && |path| > 0
    && path[0].y == 0
    && (forall i :: 0 <= i < |path| ==> InGrid(path[i], width, height))
    && Distinct(path)
    && (forall i :: 0 <= i < |path| - 1 ==> StepBetween(path[i], path[i + 1]))
  }

  /** Every cell of a walk prefix lies inside the grid. */
  lemma {:induction false} PrefixCellInGrid(path: seq<Coord>, width: int, height: int, rng: nat -> nat, k: nat)
    requires WalkPrefix(path, width, height, rng)
    requires k < |path|
    ensures InGrid(path[k], width, height)
  {
    if k > 0 {
      PrefixCellInGrid(path, width, height, rng, k - 1);
      StepIsMove(path, width, height, rng, k - 1);
    }
  }

  /** Step k moves to a cell next to path[k] that the walk had not visited,
      and the generator's bound checks let it through. */
  lemma StepIsMove(path: seq<Coord>, width: int, height: int, rng: nat -> nat, k: nat)
    requires WalkPrefix(path, width, height, rng)
    requires k + 1 < |path|
    ensures StepBetween(path[k], path[k + 1])
    ensures path[k + 1] !in path[..k + 1]
    ensures InGrid(path[k], width, height) ==> InGrid(path[k + 1], width, height)
  {
    assert StepTaken(path, k, width, height, rng);
    var valid := ValidDirections(path[k], path[..k + 1], width, height);
    var d := valid[rng(k + 1) % |valid|];
    assert d in valid;
    assert d in [Right, Left, Up] && Allowed(path[k], d, path[..k + 1], width, height);
  }

  /** Any walk the generator produces so far has the shape of a critical path. */
  lemma WalkPrefixIsWalk(path: seq<Coord>, width: int, height: int, rng: nat -> nat)
    requires WalkPrefix(path, width, height, rng)
    ensures IsWalk(path, width, height)
  {
    forall i | 0 <= i < |path|
      ensures InGrid(path[i], width, height)
    {
      PrefixCellInGrid(path, width, height, rng, i);
    }
    forall i | 0 <= i < |path| - 1
      ensures StepBetween(path[i], path[i + 1])
    {
      StepIsMove(path, width, height, rng, i);
    }
    forall i, j | 0 <= i < j < |path|
      ensures path[i] != path[j]
    {
      StepIsMove(path, width, height, rng, j - 1);
      assert path[i] == path[..j][i];
    }
  }

  /** A self-avoiding walk inside the grid has at most width * height cells. */
  lemma WalkFitsGrid(path: seq<Coord>, width: int, height: int)
    requires width >= 1 && height >= 1
    requires Distinct(path)
    requires forall i :: 0 <= i < |path| ==> InGrid(path[i], width, height)
    ensures |path| <= width * height
  {
    DistinctElements(path);
    var cells := GridCells(width, height);
    var visited := Elements(path);
    assert visited <= cells;
    assert cells == visited + (cells - visited);
    assert visited * (cells - visited) == {};
    assert |cells| == |visited| + |cells - visited|;
  }

  /** Rows never decrease along a walk, since no move goes down. */
  lemma {:induction false} RowsNeverDecrease(path: seq<Coord>, width: int, height: int, i: nat, j: nat)
    requires IsWalk(path, width, height)
    requires i <= j < |path|
    ensures path[i].y <= path[j].y
  {
    if i < j {
      RowsNeverDecrease(path, width, height, i, j - 1);
      assert StepBetween(path[j - 1], path[j]);
    }
  }

  /** Every critical path ends in the top row, height - 1: the walk only
      stops once moving up is impossible, and moving up is always possible
      below the top row because no visited cell lies above the current one. */
  lemma EndsOnTopRow(path: seq<Coord>, width: int, height: int, rng: nat -> nat)
    requires Generated(path, width, height, rng)
    ensures path[|path| - 1].y == height - 1
  {
    WalkPrefixIsWalk(path, width, height, rng);
    var last := path[|path| - 1];
    if last.y < height - 1 {
      forall i | 0 <= i < |path|
        ensures path[i] != last.Plus(Up)
      {
        RowsNeverDecrease(path, width, height, i, |path| - 1);
      }
      assert Allowed(last, Up, path, width, height);
      assert false;
    }
  }

  /** A one-column level always gets the full vertical corridor
      (0, 0), (0, 1), ..., (0, height - 1): Right and Left never pass. */
  lemma SingleColumnIsCorridor(path: seq<Coord>, height: int, rng: nat -> nat)
    requires height >= 1
    requires Generated(path, 1, height, rng)
    ensures |path| == height
    ensures forall i :: 0 <= i < |path| ==> path[i] == Coord(0, i)
  {
    WalkPrefixIsWalk(path, 1, height, rng);
    EndsOnTopRow(path, 1, height, rng);
    ColumnClimbs(path, height, |path| - 1);
    forall i | 0 <= i < |path|
      ensures path[i] == Coord(0, i)
    {
      ColumnClimbs(path, height, i);
    }
  }

  /** In a one-column level the i-th cell of a walk is (0, i). */
  lemma {:induction false} ColumnClimbs(path: seq<Coord>, height: int, i: nat)
    requires IsWalk(path, 1, height)
    requires i < |path|
    ensures path[i] == Coord(0, i)
  {
    assert InGrid(path[i], 1, height);
    if i > 0 {
      ColumnClimbs(path, height, i - 1);
      assert StepBetween(path[i - 1], path[i]);
      assert InGrid(path[i], 1, height);
    }
  }

  /** The walk is determined by the random stream: two critical paths
      generated from the same stream for the same grid are equal. */
  lemma Deterministic(p: seq<Coord>, q: seq<Coord>, width: int, height: int, rng: nat -> nat)
    requires Generated(p, width, height, rng) && Generated(q, width, height, rng)
    ensures p == q
  {
    var n := if |p| <= |q| then |p| else |q|;
    SamePrefix(p, q, width, height, rng, n);
    if |p| < |q| {
      LongerWalkWasNotStuck(p, q, width, height, rng);
      assert false;
    } else if |q| < |p| {
      LongerWalkWasNotStuck(q, p, width, height, rng);
      assert false;
    }
    assert p == p[..n] && q == q[..n];
  }

  /** A walk that continues past the last cell of `p` found a valid
      direction there. */
  lemma LongerWalkWasNotStuck(p: seq<Coord>, q: seq<Coord>, width: int, height: int, rng: nat -> nat)
    requires WalkPrefix(q, width, height, rng)
    requires 0 < |p| < |q| && q[..|p|] == p
    ensures !Stuck(p, width, height)
  {
    assert StepTaken(q, |p| - 1, width, height, rng);
    assert q[|p| - 1] == p[|p| - 1];
  }

  /** Taking the chosen valid direction from the last cell extends what
      the walk has produced so far, and the longer walk still fits the grid. */
  lemma ExtendWalkPrefix(path: seq<Coord>, width: int, height: int, rng: nat -> nat, dir: Coord)
    requires WalkPrefix(path, width, height, rng)
    requires dir == Pick(ValidDirections(path[|path| - 1], path, width, height), rng(|path|))
    requires dir != Zero
    ensures WalkPrefix(path + [path[|path| - 1].Plus(dir)], width, height, rng)
    ensures |path + [path[|path| - 1].Plus(dir)]| <= width * height
  {
    var next := path + [path[|path| - 1].Plus(dir)];
    forall k | 0 <= k < |next| - 1
      ensures StepTaken(next, k, width, height, rng)
    {
      assert next[..k + 1] == path[..k + 1];
      if k < |path| - 1 {
        assert StepTaken(path, k, width, height, rng);
      } else {
        assert path[..k + 1] == path;
      }
    }
    assert WalkPrefix(next, width, height, rng);
    WalkPrefixIsWalk(next, width, height, rng);
    WalkFitsGrid(next, width, height);
  }

  /** Two walk prefixes for the same stream agree on their common length. */
  lemma {:induction false} SamePrefix(p: seq<Coord>, q: seq<Coord>, width: int, height: int, rng: nat -> nat, n: nat)
    requires WalkPrefix(p, width, height, rng) && WalkPrefix(q, width, height, rng)
    requires 1 <= n <= |p| && n <= |q|
    ensures p[..n] == q[..n]
  {
    if n > 1 {
      SamePrefix(p, q, width, height, rng, n - 1);
      assert StepTaken(p, n - 2, width, height, rng);
      assert StepTaken(q, n - 2, width, height, rng);
      assert p[..n - 1] == q[..n - 1];
      assert p[n - 1] == q[n - 1];
      assert p[..n] == p[..n - 1] + [p[n - 1]];
      assert q[..n] == q[..n - 1] + [q[n - 1]];
    }
  }

  /** On a 3 x 2 grid a walk that starts at (1, 0) and moves up cannot stop
      at (1, 1): both Right and Left are still valid there. */
  lemma NoStopAfterOneUpOnThreeByTwo()
    ensures ValidDirections(Coord(1, 1), [Coord(1, 0), Coord(1, 1)], 3, 2) == [Right, Left]
  {
    var path := [Coord(1, 0), Coord(1, 1)];
    assert !Allowed(Coord(1, 1), Up, path, 3, 2);
    assert KeepAllowed(Coord(1, 1), [Up], path, 3, 2) == [];
    assert Allowed(Coord(1, 1), Left, path, 3, 2);
    assert [Left, Up][1..] == [Up];
    assert KeepAllowed(Coord(1, 1), [Left, Up], path, 3, 2) == [Left];
    assert Allowed(Coord(1, 1), Right, path, 3, 2);
    assert [Right, Left, Up][1..] == [Left, Up];
  }
}
