/** The older package's BaseSearchAlgorithm: 4-connected successor generation
    on a World. (Its backtrace is Preds.Backtrace.) */
module LegacyBase {
  import opened Common
  import opened Worlds

  /** The four orthogonal neighbours in the order the source builds them:
      up, down, left, right. */
  function Candidates4(p: Coord): (cs: seq<Coord>)
    ensures |cs| == 4 && Distinct(cs) && p !in cs
  {
    [Coord(p.x, p.y - 1), Coord(p.x, p.y + 1), Coord(p.x - 1, p.y), Coord(p.x + 1, p.y)]
  }

  /** The candidates are exactly the cells at Manhattan distance 1. */
  lemma CandidatesAreUnitSteps(p: Coord, q: Coord)
    ensures q in Candidates4(p) <==> Manhattan(p, q) == 1
  {
  }

  /** [c] when c is a valid position, else []: one `if (isValidPosition)
      add` of getSuccessors. */
  function Keep(grid: Grid, c: Coord): seq<Coord>
    requires grid.Ok()
  {
    if grid.Open(c) then [c] else []
  }

  /** The candidates that are valid positions, in candidate order. */
  function Successors4(grid: Grid, p: Coord): (r: seq<Coord>)
    requires grid.Ok()
    ensures |r| <= 4
  {
    var cs := Candidates4(p);
    Keep(grid, cs[0]) + Keep(grid, cs[1]) + Keep(grid, cs[2]) + Keep(grid, cs[3])
  }

  /** b is among a's successors: an orthogonal neighbour that is a valid
      position (by CandidatesAreUnitSteps, one at Manhattan distance 1). */
  ghost predicate Step(grid: Grid, a: Coord, b: Coord)
    requires grid.Ok()
  {
    b in Candidates4(a) && grid.Open(b)
  }

  /** A sequence of cells each of which is a successor of the one before. */
  ghost predicate IsWalk(grid: Grid, walk: seq<Coord>)
    requires grid.Ok()
  {
    forall i :: 0 <= i < |walk| - 1 ==> Step(grid, walk[i], walk[i + 1])
  }

  /** A walk extended by one step is a walk. */
  lemma WalkSnoc(grid: Grid, walk: seq<Coord>, c: Coord)
    requires grid.Ok() && IsWalk(grid, walk)
    requires walk != [] && Step(grid, walk[|walk| - 1], c)
    ensures IsWalk(grid, walk + [c])
  {
    var w := walk + [c];
    forall i | 0 <= i < |w| - 1
      ensures Step(grid, w[i], w[i + 1])
    {
      if i < |walk| - 1 {
        assert w[i] == walk[i] && w[i + 1] == walk[i + 1];
      }
    }
  }

  /** getSuccessors(p): the valid orthogonal neighbours of p, in the fixed
      order up, down, left, right. */
  method GetSuccessors(world: World, p: Coord) returns (s: seq<Coord>)
    requires world.Valid() && world.Fits()
    ensures s == Successors4(world.View(), p)
  {
    var p1 := Coord(p.x, p.y - 1);
    var p2 := Coord(p.x, p.y + 1);
    var p3 := Coord(p.x - 1, p.y);
    var p4 := Coord(p.x + 1, p.y);
    s := [];
    if world.Open(p1) {
      s := s + [p1];
    }
    if world.Open(p2) {
      s := s + [p2];
    }
    if world.Open(p3) {
      s := s + [p3];
    }
    if world.Open(p4) {
      s := s + [p4];
    }
  }

  /** The successors are at most four distinct cells, exactly the valid
      orthogonal neighbours; the others are omitted. */
  lemma SuccessorsAreSteps(grid: Grid, p: Coord)
    requires grid.Ok()
    ensures Distinct(Successors4(grid, p))
    ensures forall q :: q in Successors4(grid, p) <==> Step(grid, p, q)
  {
    var cs := Candidates4(p);
    var a, b, c, d := Keep(grid, cs[0]), Keep(grid, cs[1]), Keep(grid, cs[2]), Keep(grid, cs[3]);
    assert forall q :: q in a + b + c + d <==> q in a || q in b || q in c || q in d;
    var r := a + b + c + d;
    forall i, j | 0 <= i < j < |r|
      ensures r[i] != r[j]
    {
      assert r[i] in cs && r[j] in cs;
    }
  }

  /** Every successor lies inside the world, so its coordinates are ints. */
  lemma SuccessorsAreCells(grid: Grid, p: Coord)
    requires grid.Ok()
    ensures forall q :: q in Successors4(grid, p) ==> 0 <= q.x < grid.w && 0 <= q.y < grid.h && IsInt32(q)
  {
    SuccessorsAreSteps(grid, p);
  }

  /** Every successor is a valid cell one orthogonal step from p. */
  lemma SuccessorsAreUnitSteps(grid: Grid, p: Coord, q: Coord)
    requires grid.Ok()
    requires q in Successors4(grid, p)
    ensures Manhattan(p, q) == 1 && q != p && grid.Open(q)
  {
    SuccessorsAreSteps(grid, p);
  }

  /** Every cell a walk from a closed set reaches is in that set. */
  lemma {:induction false} ClosedHoldsWalk(grid: Grid, closed: set<Coord>, walk: seq<Coord>)
    requires grid.Ok()
    requires IsWalk(grid, walk) && |walk| >= 1 && walk[0] in closed
    requires forall a, b :: a in closed && Step(grid, a, b) ==> b in closed
    ensures forall i :: 0 <= i < |walk| ==> walk[i] in closed
    decreases |walk|
  {
    if |walk| > 1 {
      var prefix := walk[..|walk| - 1];
      assert IsWalk(grid, prefix);
      ClosedHoldsWalk(grid, closed, prefix);
      assert Step(grid, walk[|walk| - 2], walk[|walk| - 1]);
    }
  }
}
