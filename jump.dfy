/** The successor generation of the newer package's JumpPointSearch: the
    recursive jump probe, the direction-pruned candidates of doGetSuccessors
    with pruneInvalid, and getSuccessors, which turns each candidate into
    the jump point its probe finds. */
module JumpProbe {
  import opened Common
  import opened Worlds
  import opened Nodes
  import opened Terrains
  import opened Base8

  /** The point k steps of d away from o. */
  function Step(o: Coord, d: Coord, k: nat): Coord
    decreases k
  {
    if k == 0 then o else Step(Plus(o, d), d, k - 1)
  }

  /** Step in closed form: k times d added to o. */
  lemma {:induction false} StepIs(o: Coord, d: Coord, k: nat)
    ensures Step(o, d, k) == Coord(o.x + k * d.x, o.y + k * d.y)
    decreases k
  {
    if k > 0 {
      StepIs(Plus(o, d), d, k - 1);
      assert (k - 1) * d.x + d.x == k * d.x && (k - 1) * d.y + d.y == k * d.y;
    }
  }

  /** The step after the k-th is one more d away. */
  lemma StepNext(o: Coord, d: Coord, k: nat)
    ensures Step(o, d, k + 1) == Plus(Step(o, d, k), d)
  {
    StepIs(o, d, k);
    StepIs(o, d, k + 1);
    assert (k + 1) * d.x == k * d.x + d.x && (k + 1) * d.y == k * d.y + d.y;
  }

  /** d is one of the eight unit directions. */
  predicate Unit(d: Coord)
  {
    -1 <= d.x <= 1 && -1 <= d.y <= 1 && d != Coord(0, 0)
  }

  /** The points o, o + d, ..., o + n d are all valid positions. */
  ghost predicate Clear(t: Terrain, o: Coord, d: Coord, n: nat)
    requires t.Ok()
  {
    forall j: nat :: j <= n ==> t.Valid(Step(o, d, j))
  }

  /** c lies on the ray from o in direction d, and every point of the ray up
      to c is a valid position. */
  ghost predicate OnClearRay(t: Terrain, o: Coord, d: Coord, c: Coord)
    requires t.Ok()
  {
    exists k: nat :: c == Step(o, d, k) && Clear(t, o, d, k)
  }

  function Clamp(n: int): nat
  {
    if n < 0 then 0 else n
  }

  /** How many more steps in direction d stay inside the grid's bounds, per
      moving coordinate: the measure that the probe's recursion reduces. */
  function Room(t: Terrain, c: Coord, d: Coord): nat
  {
    (if d.x > 0 then Clamp(t.grid.w - c.x) else if d.x < 0 then Clamp(c.x + 1) else 0)
    + (if d.y > 0 then Clamp(t.grid.h - c.y) else if d.y < 0 then Clamp(c.y + 1) else 0)
  }

  /** From a point inside the grid, a step in a direction that moves, or a
      step in just one of its moving coordinates, leaves less room. */
  lemma RoomShrinks(t: Terrain, x: int, y: int, dx: int, dy: int)
    requires 0 <= x < t.grid.w && 0 <= y < t.grid.h && (dx != 0 || dy != 0)
    ensures Room(t, Coord(x + dx, y + dy), Coord(x + dx - x, y + dy - y)) < Room(t, Coord(x, y), Coord(dx, dy))
    ensures dx != 0 ==> Room(t, Coord(x + dx, y), Coord(x + dx - x, y - y)) < Room(t, Coord(x, y), Coord(dx, dy))
    ensures dy != 0 ==> Room(t, Coord(x, y + dy), Coord(x - x, y + dy - y)) < Room(t, Coord(x, y), Coord(dx, dy))
  {
  }

  /** The forced-neighbour test at (x, y) for a probe moving by (dx, dy): an
      open cell beside the line of travel whose neighbour towards the line
      is blocked. */
  predicate Forced(t: Terrain, x: int, y: int, dx: int, dy: int)
    requires t.Ok()
  {
    if dx != 0 && dy != 0 then
      (t.Valid(Coord(x - dx, y + dy)) && !t.Valid(Coord(x - dx, y)))
      || (t.Valid(Coord(x + dx, y - dy)) && !t.Valid(Coord(x, y - dy)))
    else if dx != 0 then
      (t.Valid(Coord(x + dx, y + 1)) && !t.Valid(Coord(x, y + 1)))
      || (t.Valid(Coord(x + dx, y - 1)) && !t.Valid(Coord(x, y - 1)))
    else
      (t.Valid(Coord(x + 1, y + dy)) && !t.Valid(Coord(x + 1, y)))
      || (t.Valid(Coord(x - 1, y + dy)) && !t.Valid(Coord(x - 1, y)))
  }

  /** jump(x, y, px, py, goal): the probe from (x, y) in the direction of
      travel from (px, py). None is Java's null. It stops at an invalid
      position (null) and where Stops holds; where neither orthogonal
      neighbour ahead is valid it gives up (null); otherwise it moves on by
      one step. The recursion ends because every call moves towards the
      grid's edge in each coordinate it moves in, once the direction is not
      (0, 0). */
  function Jump(t: Terrain, x: int, y: int, px: int, py: int, goal: Coord): (r: Option<Coord>)
    requires t.Ok() && (x != px || y != py)
    ensures r.Some? ==> t.Valid(r.value)
    ensures !t.Valid(Coord(x, y)) ==> r == None
    decreases Room(t, Coord(x, y), Coord(x - px, y - py)), 1
  {
    var dx, dy := x - px, y - py;
    if !t.Valid(Coord(x, y)) then None
    else if Stops(t, x, y, dx, dy, goal) then Some(Coord(x, y))
    else if t.Valid(Coord(x + dx, y)) || t.Valid(Coord(x, y + dy)) then
      ValidInBounds(t, Coord(x, y));
      RoomShrinks(t, x, y, dx, dy);
      Jump(t, x + dx, y + dy, x, y, goal)
    else None
  }

  /** Where a probe at a valid (x, y) moving by (dx, dy) stops: at the goal,
      at a point with a forced neighbour, and, moving diagonally, at a point
      from which a straight sub-probe along either moving coordinate finds
      a point. */
  predicate Stops(t: Terrain, x: int, y: int, dx: int, dy: int, goal: Coord)
    requires t.Ok() && t.Valid(Coord(x, y)) && (dx != 0 || dy != 0)
    decreases Room(t, Coord(x, y), Coord(dx, dy)), 0
  {
    ValidInBounds(t, Coord(x, y));
    RoomShrinks(t, x, y, dx, dy);
    (goal.x == x && goal.y == y)
    || Forced(t, x, y, dx, dy)
    || (dx != 0 && dy != 0 && (Jump(t, x + dx, y, x, y, goal).Some? || Jump(t, x, y + dy, x, y, goal).Some?))
  }

  /** A probe that reaches the goal stops there. */
  lemma GoalStops(t: Terrain, x: int, y: int, px: int, py: int, goal: Coord)
    requires t.Ok() && (x != px || y != py) && t.Valid(Coord(x, y)) && goal == Coord(x, y)
    ensures Jump(t, x, y, px, py, goal) == Some(goal)
  {
  }

  /** A diagonal probe stops where either straight sub-probe finds a point. */
  lemma DiagonalStops(t: Terrain, x: int, y: int, px: int, py: int, goal: Coord)
    requires t.Ok() && x != px && y != py && t.Valid(Coord(x, y))
    requires Jump(t, x + (x - px), y, x, y, goal).Some? || Jump(t, x, y + (y - py), x, y, goal).Some?
    ensures Jump(t, x, y, px, py, goal) == Some(Coord(x, y))
  {
  }

  /** A probe that finds a point other than where it stands has moved on by
      one step from a valid position. */
  lemma JumpMovesOn(t: Terrain, x: int, y: int, px: int, py: int, goal: Coord)
    requires t.Ok() && (x != px || y != py)
    requires Jump(t, x, y, px, py, goal).Some? && Jump(t, x, y, px, py, goal).value != Coord(x, y)
    ensures t.Valid(Coord(x, y))
    ensures Jump(t, x, y, px, py, goal) == Jump(t, x + (x - px), y + (y - py), x, y, goal)
  {
  }

  /** What a probe finds lies on the ray from (x, y) in the direction of
      travel, and every point of the ray up to it is valid. */
  lemma JumpOnRay(t: Terrain, x: int, y: int, px: int, py: int, goal: Coord)
    requires t.Ok() && (x != px || y != py)
    ensures Jump(t, x, y, px, py, goal).Some? ==>
      OnClearRay(t, Coord(x, y), Coord(x - px, y - py), Jump(t, x, y, px, py, goal).value)
  {
    var k := JumpDistance(t, x, y, px, py, goal);
  }

  /** The number of steps a successful probe takes along its ray. */
  lemma {:induction false} JumpDistance(t: Terrain, x: int, y: int, px: int, py: int, goal: Coord) returns (k: nat)
    requires t.Ok() && (x != px || y != py)
    ensures Jump(t, x, y, px, py, goal).Some? ==>
      var d := Coord(x - px, y - py);
      Jump(t, x, y, px, py, goal).value == Step(Coord(x, y), d, k) && Clear(t, Coord(x, y), d, k)
    decreases Room(t, Coord(x, y), Coord(x - px, y - py))
  {
    var r := Jump(t, x, y, px, py, goal);
    k := 0;
    if r.Some? {
      if r.value == Coord(x, y) {
        assert Coord(x, y) == Step(Coord(x, y), Coord(x - px, y - py), 0);
      } else {
        JumpMovesOn(t, x, y, px, py, goal);
        ValidInBounds(t, Coord(x, y));
        RoomShrinks(t, x, y, x - px, y - py);
        var k' := JumpDistance(t, x + (x - px), y + (y - py), x, y, goal);
        var next := Jump(t, x + (x - px), y + (y - py), x, y, goal);
        assert next == r && next.Some?;
        k := DistanceGrows(t, x, y, px, py, next.value, k');
      }
    }
  }

  /** The inductive step of JumpDistance: a point k' steps along the clear
      ray from the next position is k' + 1 steps along the clear ray from a
      valid position (x, y). */
  lemma DistanceGrows(t: Terrain, x: int, y: int, px: int, py: int, v: Coord, k': nat) returns (k: nat)
    requires t.Ok() && t.Valid(Coord(x, y))
    requires var x', y' := x + (x - px), y + (y - py);
      v == Step(Coord(x', y'), Coord(x' - x, y' - y), k') && Clear(t, Coord(x', y'), Coord(x' - x, y' - y), k')
    ensures v == Step(Coord(x, y), Coord(x - px, y - py), k) && Clear(t, Coord(x, y), Coord(x - px, y - py), k)
  {
    var o, d := Coord(x, y), Coord(x - px, y - py);
    var x', y' := x + (x - px), y + (y - py);
    assert Coord(x' - x, y' - y) == d && Coord(x', y') == Plus(o, d);
    ClearShift(t, o, d, k');
    k := k' + 1;
  }

  /** A valid point followed by a clear ray of k more steps is a clear ray
      of k + 1 steps. */
  lemma ClearShift(t: Terrain, o: Coord, d: Coord, k: nat)
    requires t.Ok() && t.Valid(o) && Clear(t, Plus(o, d), d, k)
    ensures Clear(t, o, d, k + 1)
  {
    forall j: nat | j <= k + 1
      ensures t.Valid(Step(o, d, j))
    {
      if j > 0 {
        assert Step(o, d, j) == Step(Plus(o, d), d, j - 1);
      }
    }
  }

  /** The test pruneInvalid applies to a candidate node n of p: a valid
      position and, off both of p's lines, accessible through p. */
  predicate Keep(t: Terrain, p: Coord, n: NodeVal)
    requires t.Ok()
  {
    t.Valid(n.at) && (n.at.x != p.x && n.at.y != p.y ==> (n.at, p) in t.through)
  }

  function KeepMask(t: Terrain, p: Coord, ns: seq<NodeVal>): (m: seq<bool>)
    requires t.Ok()
    ensures |m| == |ns| && forall i :: 0 <= i < |ns| ==> m[i] == Keep(t, p, ns[i])
  {
    seq(|ns|, i requires 0 <= i < |ns| => Keep(t, p, ns[i]))
  }

  /** The nodes that pass the test, in their original order. */
  function Pruned(t: Terrain, p: Coord, ns: seq<NodeVal>): seq<NodeVal>
    requires t.Ok()
  {
    Kept(ns, KeepMask(t, p, ns), |ns|)
  }

  /** pruneInvalid(nodes, p): the iterator walks the list and removes each
      node that fails the test. */
  method PruneInvalid(t: Terrain, nodes: seq<NodeVal>, p: Coord) returns (kept: seq<NodeVal>)
    requires t.Ok()
    ensures kept == Pruned(t, p, nodes)
  {
    kept := [];
    ghost var m := KeepMask(t, p, nodes);
    for i := 0 to |nodes|
      invariant kept == Kept(nodes, m, i)
    {
      var n := nodes[i];
      if !t.Valid(n.at) {
      } else if n.at.x != p.x && n.at.y != p.y {
        if (n.at, p) in t.through {
          kept := kept + [n];
        }
      } else {
        kept := kept + [n];
      }
    }
  }

  /** pruneInvalid removes exactly the nodes that fail the test and keeps
      the rest in their order: the kept nodes are those at a strictly
      increasing list of positions, which are all the positions whose node
      passes. */
  lemma PrunedExactly(t: Terrain, p: Coord, ns: seq<NodeVal>)
    requires t.Ok()
    ensures forall n :: n in Pruned(t, p, ns) <==> n in ns && Keep(t, p, n)
    ensures var ix := KeptIdx(KeepMask(t, p, ns), |ns|);
      && |Pruned(t, p, ns)| == |ix|
      && (forall i :: 0 <= i < |ix| ==> ix[i] < |ns| && Pruned(t, p, ns)[i] == ns[ix[i]])
      && (forall i, i' :: 0 <= i < i' < |ix| ==> ix[i] < ix[i'])
      && (forall j :: 0 <= j < |ns| && Keep(t, p, ns[j]) ==> j in ix)
  {
    var m := KeepMask(t, p, ns);
    var ix, r := KeptIdx(m, |ns|), Pruned(t, p, ns);
    KeptByIdx(ns, m, |ns|);
    KeptIdxSorted(m, |ns|);
    KeptIdxComplete(m, |ns|);
    forall n | n in r
      ensures n in ns && Keep(t, p, n)
    {
      var i :| 0 <= i < |r| && r[i] == n;
      assert m[ix[i]];
    }
    forall n | n in ns && Keep(t, p, n)
      ensures n in r
    {
      var j :| 0 <= j < |ns| && ns[j] == n;
      assert j in ix;
      var i :| 0 <= i < |ix| && ix[i] == j;
      assert r[i] == n;
    }
  }

  /** [n] when b holds, [] otherwise: one conditional add. */
  function Opt(b: bool, n: NodeVal): (r: seq<NodeVal>)
    ensures |r| <= 1 && forall m :: m in r ==> m == n
  {
    if b then [n] else []
  }

  /** The candidates doGetSuccessors builds for a point p entered in
      direction d (components in {-1, 0, 1}): for a diagonal d the two
      orthogonal parts, the diagonal ahead when either part is valid, and
      the two forced diagonals; for a straight d the cell ahead and the
      forced diagonals beside it, all only when the cell ahead is valid. */
  function Directed(t: Terrain, p: Coord, d: Coord): seq<NodeVal>
    requires t.Ok()
  {
    if d.x != 0 && d.y != 0 then
      DiagonalProbes(p, d, t.Valid(Coord(p.x, p.y + d.y)), t.Valid(Coord(p.x + d.x, p.y)),
                     t.Valid(Coord(p.x - d.x, p.y)), t.Valid(Coord(p.x, p.y - d.y)))
    else if d.x == 0 then
      VerticalProbes(p, d.y, t.Valid(Coord(p.x, p.y + d.y)), t.Valid(Coord(p.x + 1, p.y)), t.Valid(Coord(p.x - 1, p.y)))
    else
      HorizontalProbes(p, d.x, t.Valid(Coord(p.x + d.x, p.y)), t.Valid(Coord(p.x, p.y + 1)), t.Valid(Coord(p.x, p.y - 1)))
  }

  /** The diagonal case, given the validity of the orthogonal cells ahead
      (p + (0, dy)), beside (p + (dx, 0)), behind (p - (dx, 0)) and below
      (p - (0, dy)). */
  function DiagonalProbes(p: Coord, d: Coord, ahead: bool, side: bool, behind: bool, below: bool): seq<NodeVal>
  {
    Opt(ahead, NodeVal(Coord(p.x, p.y + d.y), 0.0, 1.0))
    + Opt(side, NodeVal(Coord(p.x + d.x, p.y), 0.0, 1.0))
    + Opt(ahead || side, NodeVal(Coord(p.x + d.x, p.y + d.y), 0.0, DiagCost))
    + Opt(!behind && ahead, NodeVal(Coord(p.x - d.x, p.y + d.y), 0.0, DiagCost))
    + Opt(!below && side, NodeVal(Coord(p.x + d.x, p.y - d.y), 0.0, DiagCost))
  }

  /** The vertical case, given the validity of the cell ahead and of the
      cells to the right and left of p. */
  function VerticalProbes(p: Coord, dy: int, ahead: bool, right: bool, left: bool): seq<NodeVal>
  {
    if ahead then
      [NodeVal(Coord(p.x, p.y + dy), 0.0, 1.0)]
      + Opt(!right, NodeVal(Coord(p.x + 1, p.y + dy), 0.0, DiagCost))
      + Opt(!left, NodeVal(Coord(p.x - 1, p.y + dy), 0.0, DiagCost))
    else []
  }

  /** The horizontal case, given the validity of the cell ahead and of the
      cells above and below p. */
  function HorizontalProbes(p: Coord, dx: int, ahead: bool, up: bool, down: bool): seq<NodeVal>
  {
    if ahead then
      [NodeVal(Coord(p.x + dx, p.y), 0.0, 1.0)]
      + Opt(!up, NodeVal(Coord(p.x + dx, p.y + 1), 0.0, DiagCost))
      + Opt(!down, NodeVal(Coord(p.x + dx, p.y - 1), 0.0, DiagCost))
    else []
  }

  /** The direction of travel into p from its predecessor q, each component
      normalised to its sign. */
  function Heading(p: Coord, q: Coord): Coord
  {
    Coord(Sign(p.x - q.x), Sign(p.y - q.y))
  }

  /** The candidates before pruning: for the start (no predecessor) the
      eight neighbours that getSuccessors admits, otherwise the directed
      candidates. */
  function Probes(t: Terrain, p: Coord, px: Option<Coord>): seq<NodeVal>
    requires t.Ok()
  {
    match px
    case None => Successors8(t, p)
    case Some(q) => Directed(t, p, Heading(p, q))
  }

  /** doGetSuccessors(p, px): the candidates, then pruneInvalid. The
      direction is normalised with d / max(|d|, 1). For the start it runs
      the same eight tests as getSuccessors. */
  method DoGetSuccessors(t: Terrain, p: Coord, px: Option<Coord>) returns (s: seq<NodeVal>)
    requires t.Ok()
    ensures s == Pruned(t, p, Probes(t, p, px))
  {
    var c: seq<NodeVal> := [];
    if px.Some? {
      var q := px.value;
      var dx := JavaDiv(p.x - q.x, Max(Abs(p.x - q.x), 1));
      var dy := JavaDiv(p.y - q.y, Max(Abs(p.y - q.y), 1));
      NormaliseIsSign(p.x - q.x);
      NormaliseIsSign(p.y - q.y);
      assert Heading(p, q) == Coord(dx, dy);
      if dx != 0 && dy != 0 {
        c := DiagonalCandidates(t, p, dx, dy);
      } else if dx == 0 {
        c := VerticalCandidates(t, p, dy);
      } else {
        c := HorizontalCandidates(t, p, dx);
      }
      assert c == Directed(t, p, Coord(dx, dy));
    } else {
      c := GetSuccessors(t, p);
    }
    s := PruneInvalid(t, c, p);
  }

  /** The diagonal branch of doGetSuccessors. */
  method DiagonalCandidates(t: Terrain, p: Coord, dx: int, dy: int) returns (c: seq<NodeVal>)
    requires t.Ok()
    ensures c == DiagonalProbes(p, Coord(dx, dy), t.Valid(Coord(p.x, p.y + dy)), t.Valid(Coord(p.x + dx, p.y)),
                                t.Valid(Coord(p.x - dx, p.y)), t.Valid(Coord(p.x, p.y - dy)))
  {
    var ahead, side := t.Valid(Coord(p.x, p.y + dy)), t.Valid(Coord(p.x + dx, p.y));
    var behind, below := t.Valid(Coord(p.x - dx, p.y)), t.Valid(Coord(p.x, p.y - dy));
    c := [];
    if ahead {
      c := c + [NodeVal(Coord(p.x, p.y + dy), 0.0, 1.0)];
    }
    if side {
      c := c + [NodeVal(Coord(p.x + dx, p.y), 0.0, 1.0)];
    }
    if ahead || side {
      c := c + [NodeVal(Coord(p.x + dx, p.y + dy), 0.0, DiagCost)];
    }
    if !behind && ahead {
      c := c + [NodeVal(Coord(p.x - dx, p.y + dy), 0.0, DiagCost)];
    }
    if !below && side {
      c := c + [NodeVal(Coord(p.x + dx, p.y - dy), 0.0, DiagCost)];
    }
  }

  /** The vertical branch of doGetSuccessors (its inner repeat of the test
      on the cell ahead always holds). */
  method VerticalCandidates(t: Terrain, p: Coord, dy: int) returns (c: seq<NodeVal>)
    requires t.Ok()
    ensures c == VerticalProbes(p, dy, t.Valid(Coord(p.x, p.y + dy)), t.Valid(Coord(p.x + 1, p.y)),
                                t.Valid(Coord(p.x - 1, p.y)))
  {
    var ahead, right, left := t.Valid(Coord(p.x, p.y + dy)), t.Valid(Coord(p.x + 1, p.y)), t.Valid(Coord(p.x - 1, p.y));
    c := [];
    if ahead {
      if ahead {
        c := c + [NodeVal(Coord(p.x, p.y + dy), 0.0, 1.0)];
      }
      if !right {
        c := c + [NodeVal(Coord(p.x + 1, p.y + dy), 0.0, DiagCost)];
      }
      if !left {
        c := c + [NodeVal(Coord(p.x - 1, p.y + dy), 0.0, DiagCost)];
      }
    }
  }

  /** The horizontal branch of doGetSuccessors. */
  method HorizontalCandidates(t: Terrain, p: Coord, dx: int) returns (c: seq<NodeVal>)
    requires t.Ok()
    ensures c == HorizontalProbes(p, dx, t.Valid(Coord(p.x + dx, p.y)), t.Valid(Coord(p.x, p.y + 1)),
                                  t.Valid(Coord(p.x, p.y - 1)))
  {
    var ahead, up, down := t.Valid(Coord(p.x + dx, p.y)), t.Valid(Coord(p.x, p.y + 1)), t.Valid(Coord(p.x, p.y - 1));
    c := [];
    if ahead {
      if ahead {
        c := c + [NodeVal(Coord(p.x + dx, p.y), 0.0, 1.0)];
      }
      if !up {
        c := c + [NodeVal(Coord(p.x + dx, p.y + 1), 0.0, DiagCost)];
      }
      if !down {
        c := c + [NodeVal(Coord(p.x + dx, p.y - 1), 0.0, DiagCost)];
      }
    }
  }

  /** Every candidate is one of the eight cells around p, once p was entered
      from a point other than itself. */
  lemma ProbesAreNeighbours(t: Terrain, p: Coord, px: Option<Coord>)
    requires t.Ok() && px != Some(p)
    ensures forall n :: n in Probes(t, p, px) ==> Adjacent8(p, n.at)
  {
    match px
    case None =>
      SuccessorsAreNeighbours(t, p);
    case Some(q) =>
      assert Unit(Heading(p, q));
      DirectedNeighbours(t, p, Heading(p, q));
  }

  lemma DirectedNeighbours(t: Terrain, p: Coord, d: Coord)
    requires t.Ok() && Unit(d)
    ensures forall n :: n in Directed(t, p, d) ==> Adjacent8(p, n.at)
  {
    if d.x != 0 && d.y != 0 {
      DiagonalNeighbours(p, d, t.Valid(Coord(p.x, p.y + d.y)), t.Valid(Coord(p.x + d.x, p.y)),
                         t.Valid(Coord(p.x - d.x, p.y)), t.Valid(Coord(p.x, p.y - d.y)));
    } else if d.x == 0 {
      VerticalNeighbours(p, d.y, t.Valid(Coord(p.x, p.y + d.y)), t.Valid(Coord(p.x + 1, p.y)), t.Valid(Coord(p.x - 1, p.y)));
    } else {
      HorizontalNeighbours(p, d.x, t.Valid(Coord(p.x + d.x, p.y)), t.Valid(Coord(p.x, p.y + 1)), t.Valid(Coord(p.x, p.y - 1)));
    }
  }

  lemma DiagonalNeighbours(p: Coord, d: Coord, ahead: bool, side: bool, behind: bool, below: bool)
    requires Unit(d) && d.x != 0 && d.y != 0
    ensures forall n :: n in DiagonalProbes(p, d, ahead, side, behind, below) ==> Adjacent8(p, n.at)
  {
  }

  lemma VerticalNeighbours(p: Coord, dy: int, ahead: bool, right: bool, left: bool)
    requires dy == 1 || dy == -1
    ensures forall n :: n in VerticalProbes(p, dy, ahead, right, left) ==> Adjacent8(p, n.at)
  {
  }

  lemma HorizontalNeighbours(p: Coord, dx: int, ahead: bool, up: bool, down: bool)
    requires dx == 1 || dx == -1
    ensures forall n :: n in HorizontalProbes(p, dx, ahead, up, down) ==> Adjacent8(p, n.at)
  {
  }

  /** Every candidate that survives pruning is a move of the 8-connected
      grid from p. */
  lemma CandidatesAreMoves(t: Terrain, p: Coord, px: Option<Coord>)
    requires t.Ok() && px != Some(p)
    ensures forall n :: n in Pruned(t, p, Probes(t, p, px)) ==> Adjacent8(p, n.at) && (p, n.at) in Moves(t)
  {
    ProbesAreNeighbours(t, p, px);
    PrunedExactly(t, p, Probes(t, p, px));
  }

  /** A cell around p is one unit step from p. */
  lemma AdjacentIsUnit(p: Coord, q: Coord)
    requires Adjacent8(p, q)
    ensures Unit(Delta(p, q)) && q == Plus(p, Delta(p, q)) && (q.x != p.x || q.y != p.y)
  {
  }

  /** The path cost getSuccessors gives the node for jump point j of p:
      |dx| * sqrt 2 for a diagonal jump, |dx| + |dy| for a straight one. */
  function JumpCost(p: Coord, j: Coord): real
  {
    var dx, dy := Abs(j.x - p.x), Abs(j.y - p.y);
    if dx != 0 && dy != 0 then dx as real * DiagCost else (dx + dy) as real
  }

  /** The nodes getSuccessors returns for the pruned candidates ns of p: for
      each candidate in turn, a node at the point its probe finds, if any. */
  function JumpNodes(t: Terrain, p: Coord, ns: seq<NodeVal>, goal: Coord): seq<NodeVal>
    requires t.Ok() && forall n :: n in ns ==> Adjacent8(p, n.at)
  {
    if ns == [] then []
    else
      var n := ns[|ns| - 1];
      assert n in ns;
      AdjacentIsUnit(p, n.at);
      var j := Jump(t, n.at.x, n.at.y, p.x, p.y, goal);
      JumpNodes(t, p, ns[..|ns| - 1], goal) + (if j.Some? then [NodeVal(j.value, 0.0, JumpCost(p, j.value))] else [])
  }

  /** getSuccessors(p, px, pred, goal): a probe from each pruned candidate,
      in the direction from p to it. */
  method GetJumpSuccessors(t: Terrain, p: Coord, px: Option<Coord>, goal: Coord) returns (nodes: seq<NodeVal>)
    requires t.Ok() && px != Some(p)
    ensures forall n :: n in Pruned(t, p, Probes(t, p, px)) ==> Adjacent8(p, n.at) && (p, n.at) in Moves(t)
    ensures nodes == JumpNodes(t, p, Pruned(t, p, Probes(t, p, px)), goal)
  {
    var cands := DoGetSuccessors(t, p, px);
    CandidatesAreMoves(t, p, px);
    nodes := [];
    for i := 0 to |cands|
      invariant nodes == JumpNodes(t, p, cands[..i], goal)
    {
      var found := ProbeFrom(t, p, cands[i], goal);
      nodes := nodes + found;
      JumpNodesSnoc(t, p, cands, i, goal);
    }
    assert cands[..|cands|] == cands;
  }

  /** One turn of getSuccessors' loop: the probe from candidate n, and the
      node for the point it finds. */
  method ProbeFrom(t: Terrain, p: Coord, n: NodeVal, goal: Coord) returns (nodes: seq<NodeVal>)
    requires t.Ok() && Adjacent8(p, n.at)
    ensures nodes == JumpNodes(t, p, [n], goal)
  {
    AdjacentIsUnit(p, n.at);
    nodes := [];
    var jump := Jump(t, n.at.x, n.at.y, p.x, p.y, goal);
    if jump.Some? {
      var dx := Abs(jump.value.x - p.x);
      var dy := Abs(jump.value.y - p.y);
      if dx != 0 && dy != 0 {
        nodes := nodes + [NodeVal(jump.value, 0.0, dx as real * DiagCost)];
      } else {
        nodes := nodes + [NodeVal(jump.value, 0.0, (dx + dy) as real)];
      }
    }
    assert [n][..0] == [];
  }

  /** Extending the candidates by one extends the nodes by that candidate's
      node, if its probe finds a point. */
  lemma JumpNodesSnoc(t: Terrain, p: Coord, ns: seq<NodeVal>, i: nat, goal: Coord)
    requires t.Ok() && i < |ns| && forall n :: n in ns ==> Adjacent8(p, n.at)
    ensures JumpNodes(t, p, ns[..i + 1], goal) == JumpNodes(t, p, ns[..i], goal) + JumpNodes(t, p, [ns[i]], goal)
  {
    assert ns[..i + 1][..i] == ns[..i];
    assert ns[..i + 1][i] == ns[i];
    assert [ns[i]][..0] == [];
  }

  /** q is a jump point of p: the first step from p in a unit direction d
      is a move of the 8-connected grid, and from there q lies on a clear ray
      in direction d. */
  ghost predicate Leap(t: Terrain, p: Coord, q: Coord)
    requires t.Ok()
  {
    exists d: Coord, k: nat :: Unit(d) && (p, Plus(p, d)) in Moves(t) && q == Step(Plus(p, d), d, k)
                               && Clear(t, Plus(p, d), d, k)
  }

  /** The path cost of a jump is the number of unit steps it spans, times
      sqrt 2 for a diagonal direction. */
  lemma LeapCost(p: Coord, d: Coord, k: nat)
    requires Unit(d)
    ensures JumpCost(p, Step(Plus(p, d), d, k)) == (k + 1) as real * (if IsDiagonal(d) then DiagCost else 1.0)
  {
    var q := Step(Plus(p, d), d, k);
    StepIs(Plus(p, d), d, k);
    assert q.x - p.x == (k + 1) * d.x && q.y - p.y == (k + 1) * d.y;
    assert Abs(q.x - p.x) == if d.x == 0 then 0 else k + 1;
    assert Abs(q.y - p.y) == if d.y == 0 then 0 else k + 1;
  }

  /** Every node getSuccessors returns is at a jump point of p, with the
      jump's cost as its path cost and cost 0. */
  lemma {:induction false} JumpNodesAreLeaps(t: Terrain, p: Coord, ns: seq<NodeVal>, goal: Coord)
    requires t.Ok() && forall n :: n in ns ==> Adjacent8(p, n.at) && (p, n.at) in Moves(t)
    ensures forall n :: n in JumpNodes(t, p, ns, goal) ==>
      Leap(t, p, n.at) && n.path == JumpCost(p, n.at) && n.cost == 0.0
  {
    if ns != [] {
      JumpNodesAreLeaps(t, p, ns[..|ns| - 1], goal);
      var n := ns[|ns| - 1];
      assert n in ns;
      var d := Delta(p, n.at);
      assert Unit(d) && n.at == Plus(p, d);
      var k := JumpDistance(t, n.at.x, n.at.y, p.x, p.y, goal);
      var j := Jump(t, n.at.x, n.at.y, p.x, p.y, goal);
      if j.Some? {
        assert Coord(n.at.x - p.x, n.at.y - p.y) == d;
        assert j.value == Step(Plus(p, d), d, k) && Clear(t, Plus(p, d), d, k);
        assert Leap(t, p, j.value);
      }
    }
  }
}
