/** The older package's A* (AStarSearch.java): a best-first search whose key
    is the Manhattan distance to the goal plus the length of the backtrace
    from the point, over 4-connected successors. */
module LegacyAStar {
  import opened Common
  import opened Worlds
  import opened Preds
  import opened LegacyBase

  /** heuristic(p, goal): the Manhattan distance. */
  function Heuristic(p: Coord, goal: Coord): (h: nat)
    ensures h == 0 <==> p == goal
    ensures h == Abs(p.x - goal.x) + Abs(p.y - goal.y)
  {
    Manhattan(p, goal)
  }

  /** The heuristic is symmetric and consistent: one step changes it by at
      most one. */
  lemma HeuristicIsConsistent(a: Coord, b: Coord, goal: Coord)
    ensures Heuristic(a, goal) == Heuristic(goal, a)
    ensures Manhattan(a, b) == 1 ==> Heuristic(a, goal) <= Heuristic(b, goal) + 1
  {
    ManhattanIsMetric(a, b, goal);
  }

  /** The frontier key of q: heuristic plus the size of backtrace(pred, q),
      which is depth(q) + 1 under exact depths (Preds.ChainDepth). */
  ghost function Key(depth: map<Coord, nat>, goal: Coord, q: Coord): nat
    requires q in depth
  {
    Heuristic(q, goal) + depth[q] + 1
  }

  /** The element the queue's poll returns: one of minimal key, computed as
      the comparator does, from the backtrace length. Of several with
      minimal key this takes the earliest queued, a fixed choice among
      the ones the heap may return. */
  method PollMin(pred: PredMap, ghost depth: map<Coord, nat>, frontier: seq<Coord>, goal: Coord)
    returns (m: nat)
    requires Depths(pred, depth) && frontier != []
    requires forall i :: 0 <= i < |frontier| ==> frontier[i] in pred
    ensures m < |frontier|
    ensures forall j :: 0 <= j < |frontier| ==> Key(depth, goal, frontier[m]) <= Key(depth, goal, frontier[j])
    ensures forall j :: 0 <= j < m ==> Key(depth, goal, frontier[m]) < Key(depth, goal, frontier[j])
  {
    DepthsAreRanked(pred, depth);
    var path := Backtrace(pred, depth, frontier[0]);
    ChainDepth(pred, depth, path);
    m := 0;
    var best := Heuristic(frontier[0], goal) + |path|;
    var j := 1;
    while j < |frontier|
      invariant 1 <= j <= |frontier| && m < j
      invariant best == Key(depth, goal, frontier[m])
      invariant forall k :: 0 <= k < j ==> best <= Key(depth, goal, frontier[k])
      invariant forall k :: 0 <= k < m ==> best < Key(depth, goal, frontier[k])
    {
      path := Backtrace(pred, depth, frontier[j]);
      ChainDepth(pred, depth, path);
      var key := Heuristic(frontier[j], goal) + |path|;
      if key < best {
        m, best := j, key;
      }
      j := j + 1;
    }
  }

  /** pred is a tree rooted at initial, with exact depths, whose links are
      successor steps and whose points are cells (or initial). */
  ghost predicate Tree(grid: Grid, initial: Coord, pred: PredMap, depth: map<Coord, nat>)
    requires grid.Ok()
  {
    && Depths(pred, depth)
    && initial in pred && pred[initial] == None
    && (forall q :: q in pred && q != initial ==> pred[q].Some? && Step(grid, pred[q].value, q))
    && pred.Keys <= Cells(grid) + {initial}
  }

  /** Every point in pred was either polled or is queued, never both, and
      nothing is queued twice. */
  ghost predicate Partition(pred: PredMap, frontier: seq<Coord>, polled: set<Coord>)
  {
    && Distinct(frontier)
    && (forall q :: q in pred <==> q in polled || q in frontier)
    && (forall q :: q in frontier ==> q !in polled)
  }

  /** Every successor of a polled point (other than `except`) is in pred. */
  ghost predicate Closed(grid: Grid, polled: set<Coord>, except: Option<Coord>, pred: PredMap)
    requires grid.Ok()
  {
    forall a, b :: a in polled && Some(a) != except && Step(grid, a, b) ==> b in pred
  }

  /** The state of the search loop: the tree, the partition and the closure
      of what was polled, which never includes the goal. */
  ghost predicate Explored(grid: Grid, initial: Coord, goal: Coord, pred: PredMap, depth: map<Coord, nat>,
                           frontier: seq<Coord>, polled: set<Coord>)
    requires grid.Ok()
  {
    && Tree(grid, initial, pred, depth) && Partition(pred, frontier, polled)
    && Closed(grid, polled, None, pred) && goal !in polled
    && polled <= Cells(grid) + {initial}
  }

  /** search(initial, goal). The result's cost is the number of polls. */
  method Search(world: World, initial: Coord, goal: Coord) returns (r: SearchResult)
    requires world.Valid() && world.Fits()
    ensures r.path != [] ==> r.path[0] == initial && r.path[|r.path| - 1] == goal
    ensures IsWalk(world.View(), r.path) && Distinct(r.path)
    ensures initial == goal ==> r == SearchResult([initial], 1)
    ensures r.path == [] ==> forall walk :: |walk| >= 1 && walk[0] == initial && IsWalk(world.View(), walk) ==> goal !in walk
    ensures 1 <= r.cost <= |Cells(world.View()) + {initial}|
    ensures r.path == [] ==> r.cost == |ReachSet(world.View(), initial)|
  {
    ghost var grid := world.View();
    var pred: PredMap := map[initial := None];
    ghost var depth: map<Coord, nat> := map[initial := 0];
    var frontier := [initial];
    ghost var polled: set<Coord> := {};
    var cost := 0;
    Start(grid, initial, goal);
    while frontier != []
      invariant Explored(grid, initial, goal, pred, depth, frontier, polled)
      invariant cost == |polled|
      invariant cost == 0 ==> frontier == [initial] && polled == {}
      invariant cost > 0 ==> initial in polled
      decreases |Cells(grid) + {initial}| - cost
    {
      cost := cost + 1;
      var m := PollMin(pred, depth, frontier, goal);
      var current := frontier[m];
      if current == goal {
        r := Found(grid, initial, goal, pred, depth, polled, current, cost);
        return;
      }
      pred, depth, frontier, polled := Advance(world, grid, initial, goal, pred, depth, frontier, polled, m);
      SubsetCard(polled, Cells(grid) + {initial});
    }
    Exhausted(grid, initial, goal, pred, depth, polled);
    SubsetCard(polled, Cells(grid) + {initial});
    r := SearchResult([], cost);
  }

  /** The state before the first poll: only initial is known and queued. */
  lemma Start(grid: Grid, initial: Coord, goal: Coord)
    requires grid.Ok()
    ensures Explored(grid, initial, goal, map[initial := None], map[initial := 0], [initial], {})
  {
  }

  /** A poll that is not the goal: the m-th queued point leaves the queue
      and is expanded. */
  method Advance(world: World, ghost grid: Grid, initial: Coord, goal: Coord, pred0: PredMap, ghost depth0: map<Coord, nat>,
                 frontier0: seq<Coord>, ghost polled0: set<Coord>, m: nat)
    returns (pred: PredMap, ghost depth: map<Coord, nat>, frontier: seq<Coord>, ghost polled: set<Coord>)
    requires world.Valid() && world.Fits() && grid == world.View() && m < |frontier0| && frontier0[m] != goal
    requires Explored(grid, initial, goal, pred0, depth0, frontier0, polled0)
    ensures Explored(grid, initial, goal, pred, depth, frontier, polled)
    ensures polled == polled0 + {frontier0[m]} && frontier0[m] !in polled0
  {
    var current := frontier0[m];
    PollKeepsPartition(grid, pred0, frontier0, polled0, m);
    polled := polled0 + {current};
    pred, depth, frontier := Expand(world, grid, initial, pred0, depth0, frontier0[..m] + frontier0[m + 1..], polled, current);
  }

  /** Moving the m-th queued point to the polled set keeps the partition,
      and the closure of the points polled before. */
  lemma PollKeepsPartition(grid: Grid, pred: PredMap, frontier: seq<Coord>, polled: set<Coord>, m: nat)
    requires grid.Ok()
    requires m < |frontier| && Partition(pred, frontier, polled) && Closed(grid, polled, None, pred)
    ensures Partition(pred, frontier[..m] + frontier[m + 1..], polled + {frontier[m]})
    ensures Closed(grid, polled + {frontier[m]}, Some(frontier[m]), pred)
    ensures frontier[m] in pred && frontier[m] !in polled
  {
    RemoveAt(frontier, m);
  }

  /** With nothing left to poll, pred holds exactly the polled points, which
      are closed under successor steps and lack the goal: no walk from
      initial reaches the goal. */
  lemma Exhausted(grid: Grid, initial: Coord, goal: Coord, pred: PredMap, depth: map<Coord, nat>, polled: set<Coord>)
    requires grid.Ok()
    requires Tree(grid, initial, pred, depth)
    requires Partition(pred, [], polled) && Closed(grid, polled, None, pred)
    requires goal !in polled
    ensures forall walk :: |walk| >= 1 && walk[0] == initial && IsWalk(grid, walk) ==> goal !in walk
    ensures polled == ReachSet(grid, initial)
  {
    forall walk | |walk| >= 1 && walk[0] == initial && IsWalk(grid, walk)
      ensures forall i :: 0 <= i < |walk| ==> walk[i] in polled
    {
      ClosedHoldsWalk(grid, polled, walk);
    }
    forall q | q in polled
      ensures q in ReachSet(grid, initial)
    {
      TreeReaches(grid, initial, pred, depth, q);
    }
    forall q | q in ReachSet(grid, initial)
      ensures q in polled
    {
      var walk :| |walk| >= 1 && walk[0] == initial && IsWalk(grid, walk) && walk[|walk| - 1] == q;
      assert walk[|walk| - 1] in polled;
    }
  }

  /** c is reached from initial by a walk of successor steps. */
  ghost predicate ReachesFrom(grid: Grid, initial: Coord, c: Coord)
    requires grid.Ok()
  {
    exists walk :: |walk| >= 1 && walk[0] == initial && IsWalk(grid, walk) && walk[|walk| - 1] == c
  }

  /** The points reachable from initial: the set an exhausted search polls. */
  ghost function ReachSet(grid: Grid, initial: Coord): set<Coord>
    requires grid.Ok()
  {
    set c | c in Cells(grid) + {initial} && ReachesFrom(grid, initial, c)
  }

  /** Every point recorded in the tree is reachable from initial. */
  lemma {:induction false} TreeReaches(grid: Grid, initial: Coord, pred: PredMap, depth: map<Coord, nat>, q: Coord)
    requires grid.Ok() && Tree(grid, initial, pred, depth) && q in pred
    ensures ReachesFrom(grid, initial, q)
    decreases depth[q]
  {
    if q == initial {
      assert IsWalk(grid, [initial]);
    } else {
      var p := pred[q].value;
      TreeReaches(grid, initial, pred, depth, p);
      var walk :| |walk| >= 1 && walk[0] == initial && IsWalk(grid, walk) && walk[|walk| - 1] == p;
      WalkSnoc(grid, walk, q);
      assert (walk + [q])[0] == initial && (walk + [q])[|walk + [q]| - 1] == q;
    }
  }

  /** The goal test succeeded: the backtrace from the goal is the result. */
  method Found(ghost grid: Grid, initial: Coord, goal: Coord, pred: PredMap, ghost depth: map<Coord, nat>,
               ghost polled: set<Coord>, current: Coord, cost: int) returns (r: SearchResult)
    requires grid.Ok()
    requires Tree(grid, initial, pred, depth) && current == goal && current in pred
    requires polled <= Cells(grid) + {initial} && current !in polled && cost == |polled| + 1
    requires cost > 1 ==> initial in polled
    ensures r.path != [] && r.path[0] == initial && r.path[|r.path| - 1] == goal
    ensures IsWalk(grid, r.path) && Distinct(r.path)
    ensures initial == goal ==> r == SearchResult([initial], 1)
    ensures r.cost == cost && 1 <= r.cost <= |Cells(grid) + {initial}|
  {
    DepthsAreRanked(pred, depth);
    var path := Backtrace(pred, depth, current);
    ChainDepth(pred, depth, path);
    ChainIsWalk(grid, initial, pred, depth, path);
    SubsetCard(polled + {current}, Cells(grid) + {initial});
    r := SearchResult(path, cost);
  }

  /** The state while current's successors are considered: the tree, the
      partition, and the closure of every polled point but current. */
  ghost predicate Expanding(grid: Grid, initial: Coord, pred: PredMap, depth: map<Coord, nat>,
                            frontier: seq<Coord>, polled: set<Coord>, current: Coord)
    requires grid.Ok()
  {
    && Tree(grid, initial, pred, depth) && Partition(pred, frontier, polled)
    && current in polled && Closed(grid, polled, Some(current), pred)
  }

  /** The loop over getSuccessors(current): each successor not yet in pred
      gets current as predecessor and joins the back of the queue. */
  method Expand(world: World, ghost grid: Grid, initial: Coord, pred0: PredMap, ghost depth0: map<Coord, nat>,
                frontier0: seq<Coord>, ghost polled: set<Coord>, current: Coord)
    returns (pred: PredMap, ghost depth: map<Coord, nat>, frontier: seq<Coord>)
    requires world.Valid() && world.Fits() && grid == world.View()
    requires Expanding(grid, initial, pred0, depth0, frontier0, polled, current)
    ensures Tree(grid, initial, pred, depth) && Partition(pred, frontier, polled)
    ensures Closed(grid, polled, None, pred)
  {
    pred, depth, frontier := pred0, depth0, frontier0;
    var succ := GetSuccessors(world, current);
    SuccessorsAreSteps(grid, current);
    for k := 0 to |succ|
      invariant Expanding(grid, initial, pred, depth, frontier, polled, current)
      invariant forall i :: 0 <= i < k ==> succ[i] in pred
    {
      ghost var before := pred;
      pred, depth, frontier := Consider(grid, initial, pred, depth, frontier, polled, current, succ, k);
      KnownGrows(succ, k, before, pred);
    }
    CloseCurrent(grid, polled, current, succ, pred);
  }

  /** The first k successors known before, and the k-th now, in a map that
      only gained keys: the first k + 1 are known. */
  lemma KnownGrows(succ: seq<Coord>, k: nat, pred0: PredMap, pred: PredMap)
    requires k < |succ| && (forall i :: 0 <= i < k ==> succ[i] in pred0)
    requires succ[k] in pred && pred0.Keys <= pred.Keys
    ensures forall i :: 0 <= i < k + 1 ==> succ[i] in pred
  {
  }

  lemma CloseCurrent(grid: Grid, polled: set<Coord>, current: Coord, succ: seq<Coord>, pred: PredMap)
    requires grid.Ok()
    requires Closed(grid, polled, Some(current), pred)
    requires forall q :: q in succ <==> Step(grid, current, q)
    requires forall i :: 0 <= i < |succ| ==> succ[i] in pred
    ensures Closed(grid, polled, None, pred)
  {
    forall a, b | a in polled && Step(grid, a, b)
      ensures b in pred
    {
      if a == current {
        var i :| 0 <= i < |succ| && succ[i] == b;
      }
    }
  }

  /** The k-th successor s of current: admitted unless hasKey finds it in pred. */
  method Consider(ghost grid: Grid, initial: Coord, pred0: PredMap, ghost depth0: map<Coord, nat>,
                  frontier0: seq<Coord>, ghost polled: set<Coord>, current: Coord, succ: seq<Coord>, k: nat)
    returns (pred: PredMap, ghost depth: map<Coord, nat>, frontier: seq<Coord>)
    requires grid.Ok()
    requires Expanding(grid, initial, pred0, depth0, frontier0, polled, current)
    requires k < |succ| && forall q :: q in succ <==> Step(grid, current, q)
    ensures Expanding(grid, initial, pred, depth, frontier, polled, current)
    ensures succ[k] in pred && pred0.Keys <= pred.Keys
    ensures succ[k] in pred0 ==> pred == pred0 && frontier == frontier0
    ensures succ[k] !in pred0 ==> pred == pred0[succ[k] := Some(current)] && frontier == frontier0 + [succ[k]]
  {
    var s := succ[k];
    var known := HasKey(pred0, s);
    if known {
      pred, depth, frontier := pred0, depth0, frontier0;
    } else {
      assert Step(grid, current, s) by {
        assert s in succ;
      }
      Admit(grid, initial, pred0, depth0, frontier0, polled, current, s);
      pred := pred0[s := Some(current)];
      depth := depth0[s := depth0[current] + 1];
      frontier := frontier0 + [s];
    }
  }

  /** Admitting a new successor s of a polled point keeps the tree, the
      partition and the closure of the other polled points. */
  lemma Admit(grid: Grid, initial: Coord, pred: PredMap, depth: map<Coord, nat>, frontier: seq<Coord>,
              polled: set<Coord>, current: Coord, s: Coord)
    requires grid.Ok()
    requires Tree(grid, initial, pred, depth) && Partition(pred, frontier, polled)
    requires Closed(grid, polled, Some(current), pred)
    requires current in polled && s !in pred && Step(grid, current, s)
    ensures Tree(grid, initial, pred[s := Some(current)], depth[s := depth[current] + 1])
    ensures Partition(pred[s := Some(current)], frontier + [s], polled)
    ensures Closed(grid, polled, Some(current), pred[s := Some(current)])
  {
    var pred', depth' := pred[s := Some(current)], depth[s := depth[current] + 1];
    assert s in Cells(grid) by {
      assert s == Coord(s.x, s.y) && 0 <= s.x < grid.w && 0 <= s.y < grid.h;
    }
    forall q | q in pred'
      ensures q in depth'
      ensures pred'[q].None? ==> depth'[q] == 0
      ensures pred'[q].Some? ==> pred'[q].value in pred' && pred'[q].value in depth'
                                 && depth'[q] == depth'[pred'[q].value] + 1
    {
      if q != s {
        assert pred'[q] == pred[q] && depth'[q] == depth[q];
        if pred[q].Some? {
          assert pred[q].value in pred && pred[q].value != s;
        }
      }
    }
    var f := frontier + [s];
    forall i, j | 0 <= i < j < |f|
      ensures f[i] != f[j]
    {
      if j == |frontier| {
        assert f[i] in frontier;
      }
    }
  }

  /** Removing the m-th element of a sequence without repeats. */
  lemma RemoveAt(s: seq<Coord>, m: nat)
    requires m < |s| && Distinct(s)
    ensures Distinct(s[..m] + s[m + 1..])
    ensures forall q :: q in s[..m] + s[m + 1..] <==> q in s && q != s[m]
  {
    var t := s[..m] + s[m + 1..];
    assert forall i :: 0 <= i < |t| ==> t[i] == if i < m then s[i] else s[i + 1];
    forall q | q in s && q != s[m]
      ensures q in t
    {
      var i :| 0 <= i < |s| && s[i] == q;
      assert t[if i < m then i else i - 1] == q;
    }
  }

  /** A chain read out of the search's tree starts at initial and walks
      along successor steps. */
  lemma ChainIsWalk(grid: Grid, initial: Coord, pred: PredMap, depth: map<Coord, nat>, path: seq<Coord>)
    requires grid.Ok()
    requires Depths(pred, depth) && IsChain(pred, path)
    requires forall i :: 0 <= i < |path| ==> path[i] in pred
    requires initial in pred && pred[initial] == None
    requires forall q :: q in pred && q != initial ==> pred[q].Some? && Step(grid, pred[q].value, q)
    ensures path[0] == initial && IsWalk(grid, path)
  {
    forall i | 0 <= i < |path| - 1
      ensures Step(grid, path[i], path[i + 1])
    {
      assert Get(pred, path[i + 1]) == Some(path[i]);
    }
  }
}
