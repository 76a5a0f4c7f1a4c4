/** The newer package's BreadthFirstSearch: a FIFO search over the world's
    own getSuccessors that tests for the goal when a point is generated.
    It runs the same round 99 times (the depth limit is never read). */
module BreadthFirst {
  import opened Common
  import opened Worlds
  import opened Preds
  import opened Terrains
  import opened Trees

  /** The steps World.getSuccessors allows: b is among a's successors. */
  ghost function Steps(t: Terrain): Rel
  {
    iset e: (Coord, Coord) | e.1 in t.succ(e.0)
  }

  /** What the search relies on of World.getSuccessors, whose code is not
      part of this model: every successor is a valid position. */
  ghost predicate SuccessorsValid(t: Terrain)
    requires t.Ok()
  {
    forall c, i :: 0 <= i < |t.succ(c)| ==> t.Valid(t.succ(c)[i])
  }

  /** The points a round can ever record: the grid's cells and the start. */
  ghost function Universe(t: Terrain, initial: Coord): set<Coord>
  {
    Cells(t.grid) + {initial}
  }

  /** The number of points a round expands when the goal is out of reach. */
  ghost function Reachable(t: Terrain, initial: Coord): set<Coord>
  {
    ReachSet(Steps(t), Universe(t, initial), initial)
  }

  /** search(initial, goal): the empty result for initial == goal; otherwise
      the first round decides, and a failed search repeats it 99 times. */
  method Search(t: Terrain, initial: Coord, goal: Coord) returns (r: SearchResult)
    requires t.Ok() && SuccessorsValid(t)
    ensures initial == goal ==> r == SearchResult([], 0)
    ensures initial != goal ==> (r.path != [] <==> Reaches(Steps(t), initial, goal))
    ensures r.path != [] ==> r.path[0] == initial && r.path[|r.path| - 1] == goal
                             && IsWalk(Steps(t), r.path) && Distinct(r.path)
    ensures r.path != [] ==> forall k: nat :: k < |r.path| - 1 ==> !ReachesIn(Steps(t), initial, goal, k)
    ensures r.path != [] ==> 1 <= r.cost <= |Universe(t, initial)|
    ensures initial != goal && r.path == [] ==> r.cost == 99 * |Reachable(t, initial)|
  {
    if initial == goal {
      return SearchResult([], 0);
    }
    var cost := 0;
    for depthLimit := 1 to 100
      invariant depthLimit > 1 ==> !Reaches(Steps(t), initial, goal)
      invariant cost == (depthLimit - 1) * |Reachable(t, initial)|
    {
      var path, dequeues := Round(t, initial, goal);
      cost := cost + dequeues;
      if path != [] {
        return SearchResult(path, cost);
      }
    }
    r := SearchResult([], cost);
  }

  /** One round of the depth loop: pred and the queue start from initial
      alone, and the round ends when the goal is generated or the queue is
      empty. It finds a path exactly when the goal is reachable, and when it
      does not it has expanded every reachable point once. */
  method Round(t: Terrain, initial: Coord, goal: Coord) returns (path: seq<Coord>, dequeues: nat)
    requires t.Ok() && SuccessorsValid(t) && initial != goal
    ensures path != [] <==> Reaches(Steps(t), initial, goal)
    ensures path != [] ==> path[0] == initial && path[|path| - 1] == goal
                           && IsWalk(Steps(t), path) && Distinct(path)
    ensures path != [] ==> forall k: nat :: k < |path| - 1 ==> !ReachesIn(Steps(t), initial, goal, k)
    ensures 1 <= dequeues <= |Universe(t, initial)|
    ensures path == [] ==> dequeues == |Reachable(t, initial)|
  {
    ghost var r, u := Steps(t), Universe(t, initial);
    var pred: PredMap := map[initial := None];
    ghost var depth: map<Coord, nat> := map[initial := 0];
    var frontier := [initial];
    ghost var polled: set<Coord> := {};
    dequeues := 0;
    Start(r, u, initial);
    StartLayered(r, initial);
    while frontier != []
      invariant Explored(r, u, initial, pred, depth, frontier, polled)
      invariant Layered(r, initial, pred, depth, frontier, polled)
      invariant goal !in pred
      invariant dequeues == |polled| && polled <= u
      invariant dequeues == 0 <==> frontier == [initial] && polled == {}
      decreases |u| - dequeues
    {
      dequeues := dequeues + 1;
      var current := frontier[0];
      Poll(r, u, initial, pred, depth, frontier, polled, 0);
      PollLayered(r, u, initial, pred, depth, frontier, polled);
      assert frontier[..0] + frontier[1..] == frontier[1..];
      frontier := frontier[1..];
      polled := polled + {current};
      SubsetCard(polled, u);
      var found;
      pred, depth, frontier, found := Expand(t, initial, goal, pred, depth, frontier, polled, current);
      if found {
        path := ShortestBacktrace(r, u, initial, pred, depth, goal);
        return;
      }
    }
    Exhausted(r, u, initial, pred, depth, polled);
    SubsetCard(polled, u);
    path := [];
  }

  /** The loop over w.getSuccessors(current): a successor that hasKey does
      not find gets current as predecessor and joins the back of the queue;
      the loop stops as soon as a successor equals the goal. */
  method Expand(t: Terrain, initial: Coord, goal: Coord, pred0: PredMap, ghost depth0: map<Coord, nat>,
                frontier0: seq<Coord>, ghost polled: set<Coord>, current: Coord)
    returns (pred: PredMap, ghost depth: map<Coord, nat>, frontier: seq<Coord>, found: bool)
    requires t.Ok() && SuccessorsValid(t)
    requires Expanding(Steps(t), Universe(t, initial), initial, pred0, depth0, frontier0, polled, current)
    requires LayeredExpanding(Steps(t), initial, pred0, depth0, frontier0, polled, current)
    requires goal !in pred0
    ensures Tree(Steps(t), Universe(t, initial), initial, pred, depth) && Shortest(Steps(t), initial, pred, depth)
    ensures found <==> goal in pred
    ensures !found ==> Explored(Steps(t), Universe(t, initial), initial, pred, depth, frontier, polled)
                       && Layered(Steps(t), initial, pred, depth, frontier, polled)
  {
    ghost var r, u := Steps(t), Universe(t, initial);
    pred, depth, frontier := pred0, depth0, frontier0;
    var succ := t.succ(current);
    for k := 0 to |succ|
      invariant Expanding(r, u, initial, pred, depth, frontier, polled, current)
      invariant LayeredExpanding(r, initial, pred, depth, frontier, polled, current)
      invariant goal !in pred
      invariant forall i :: 0 <= i < k ==> succ[i] in pred
    {
      var s := succ[k];
      ghost var before := pred;
      var known := HasKey(pred, s);
      if !known {
        assert (current, s) in r;
        ValidIsCell(t, s);
        Admit(r, u, initial, pred, depth, frontier, polled, current, s);
        AdmitLayered(r, u, initial, pred, depth, frontier, polled, current, s);
        pred := pred[s := Some(current)];
        depth := depth[s := depth[current] + 1];
        frontier := frontier + [s];
      }
      if s == goal {
        return pred, depth, frontier, true;
      }
      KnownGrows(succ, k, before, pred);
    }
    CloseCurrent(r, polled, current, succ, pred);
    CloseLayered(r, u, initial, pred, depth, frontier, polled, current);
    found := false;
  }
}
