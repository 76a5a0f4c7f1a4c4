/** The newer package's IterativeDeepening: a FIFO search over the
    8-connected getSuccessors whose queue entries carry their depth,
    restarted for depth limits 1 to 99. A round ends when it dequeues an
    entry deeper than the limit, when the queue empties, or when the goal
    is generated. */
module Deepening {
  import opened Common
  import opened Worlds
  import opened Preds
  import opened Nodes
  import opened Terrains
  import opened Base8
  import opened Trees

  /** WrappedPoint: a queued point with the depth it was queued at. */
  datatype Wrapped = Wrapped(p: Coord, depth: int)

  /** The points a round can ever record: the grid's cells and the start. */
  ghost function Universe(t: Terrain, initial: Coord): set<Coord>
  {
    Cells(t.grid) + {initial}
  }

  /** The points within n moves of initial. */
  ghost function Near(t: Terrain, initial: Coord, n: nat): set<Coord>
    requires t.Ok()
  {
    Within(Moves(t), Universe(t, initial), initial, n)
  }

  /** The dequeues of a failed round with limit L: one per point within L
      moves, and one more for the entry that ends the round when some point
      lies L + 1 moves away. */
  ghost function RoundCost(t: Terrain, initial: Coord, L: nat): nat
    requires t.Ok()
  {
    |Near(t, initial, L)| + if Near(t, initial, L + 1) == Near(t, initial, L) then 0 else 1
  }

  /** The dequeues of the failed rounds with limits 1 to n. */
  ghost function FailedCost(t: Terrain, initial: Coord, n: nat): nat
    requires t.Ok()
  {
    if n == 0 then 0 else FailedCost(t, initial, n - 1) + RoundCost(t, initial, n)
  }

  /** The queue holds the points of frontier, each tagged with its depth. */
  ghost predicate Tagged(queue: seq<Wrapped>, frontier: seq<Coord>, depth: map<Coord, nat>)
  {
    |queue| == |frontier| &&
    forall i :: 0 <= i < |queue| ==>
      queue[i].p == frontier[i] && frontier[i] in depth && queue[i].depth == depth[frontier[i]]
  }

  /** The queued depths never decrease and span at most one. */
  lemma QueueBanded(queue: seq<Wrapped>, frontier: seq<Coord>, depth: map<Coord, nat>)
    requires Tagged(queue, frontier, depth)
    requires frontier != [] ==> frontier[0] in depth && Banded(depth, frontier, depth[frontier[0]])
    ensures forall i, j :: 0 <= i <= j < |queue| ==>
      queue[0].depth <= queue[i].depth <= queue[j].depth <= queue[0].depth + 1
  {
  }

  /** search(initial, goal): the empty result for initial == goal;
      otherwise the first round whose limit L lets a walk of at most L + 1
      moves reach the goal returns a shortest one. */
  method Search(t: Terrain, initial: Coord, goal: Coord) returns (r: SearchResult)
    requires t.Ok()
    ensures initial == goal ==> r == SearchResult([], 0)
    ensures initial != goal ==> (r.path != [] <==> ReachesWithin(Moves(t), initial, goal, 100))
    ensures r.path != [] ==> r.path[0] == initial && r.path[|r.path| - 1] == goal
                             && IsWalk(Moves(t), r.path) && Distinct(r.path)
    ensures r.path != [] ==> forall k: nat :: k < |r.path| - 1 ==> !ReachesIn(Moves(t), initial, goal, k)
    ensures initial != goal && r.path == [] ==> r.cost == FailedCost(t, initial, 99)
    ensures r.path != [] ==> var L := Max(1, |r.path| - 2);
      1 <= L <= 99 && FailedCost(t, initial, L - 1) < r.cost <= FailedCost(t, initial, L)
  {
    if initial == goal {
      return SearchResult([], 0);
    }
    var cost := 0;
    for depthLimit := 1 to 100
      invariant depthLimit > 1 ==> !ReachesWithin(Moves(t), initial, goal, depthLimit)
      invariant cost == FailedCost(t, initial, depthLimit - 1)
    {
      var path, dequeues := Round(t, initial, goal, depthLimit);
      cost := cost + dequeues;
      if path != [] {
        ghost var k :| 0 <= k <= depthLimit + 1 && ReachesIn(Moves(t), initial, goal, k);
        assert ReachesWithin(Moves(t), initial, goal, 100);
        FirstLimit(t, initial, goal, path, depthLimit);
        return SearchResult(path, cost);
      }
    }
    r := SearchResult([], cost);
  }

  /** Every recorded point is at most L + 1 deep, every expanded one at
      most L. */
  ghost predicate Capped(pred: PredMap, depth: map<Coord, nat>, polled: set<Coord>, L: nat)
  {
    && (forall q :: q in pred ==> q in depth && depth[q] <= L + 1)
    && (forall q :: q in polled ==> q in depth && depth[q] <= L)
  }

  /** The state of a round between dequeues. */
  ghost predicate RoundState(r: Rel, u: set<Coord>, initial: Coord, goal: Coord, L: nat, pred: PredMap,
                             depth: map<Coord, nat>, queue: seq<Wrapped>, frontier: seq<Coord>, polled: set<Coord>)
  {
    && Explored(r, u, initial, pred, depth, frontier, polled) && Layered(r, initial, pred, depth, frontier, polled)
    && Tagged(queue, frontier, depth) && goal !in pred && polled <= u && Capped(pred, depth, polled, L)
  }

  /** The state of a round while current's successors are scanned. */
  ghost predicate ScanState(r: Rel, u: set<Coord>, initial: Coord, L: nat, pred: PredMap,
                            depth: map<Coord, nat>, queue: seq<Wrapped>, frontier: seq<Coord>, polled: set<Coord>,
                            current: Wrapped)
  {
    && Expanding(r, u, initial, pred, depth, frontier, polled, current.p)
    && LayeredExpanding(r, initial, pred, depth, frontier, polled, current.p)
    && Tagged(queue, frontier, depth) && depth[current.p] == current.depth <= L
    && polled <= u && Capped(pred, depth, polled, L)
  }

  /** One round with depth limit L. It finds a path exactly when a walk of
      at most L + 1 moves reaches the goal, and the path is a shortest walk;
      a failed round dequeues RoundCost entries. */
  method Round(t: Terrain, initial: Coord, goal: Coord, L: nat) returns (path: seq<Coord>, dequeues: nat)
    requires t.Ok() && initial != goal
    ensures path != [] <==> ReachesWithin(Moves(t), initial, goal, L + 1)
    ensures path != [] ==> path[0] == initial && path[|path| - 1] == goal
                           && IsWalk(Moves(t), path) && Distinct(path)
    ensures path != [] ==> forall k: nat :: k < |path| - 1 ==> !ReachesIn(Moves(t), initial, goal, k)
    ensures path == [] ==> dequeues == RoundCost(t, initial, L)
    ensures path != [] ==> 1 <= dequeues <= RoundCost(t, initial, L)
  {
    ghost var r, u := Moves(t), Universe(t, initial);
    var pred: PredMap := map[initial := None];
    ghost var depth: map<Coord, nat> := map[initial := 0];
    var queue := [Wrapped(initial, 0)];
    ghost var frontier := [initial];
    ghost var polled: set<Coord> := {};
    dequeues := 0;
    Start(r, u, initial);
    StartLayered(r, initial);
    while queue != []
      invariant RoundState(r, u, initial, goal, L, pred, depth, queue, frontier, polled)
      invariant dequeues == |polled|
      decreases |u| - dequeues
    {
      QueueBanded(queue, frontier, depth);
      dequeues := dequeues + 1;
      var current := queue[0];
      if current.depth > L {
        PollTagged(queue, frontier, depth);
        Broke(t, initial, goal, L, pred, depth, frontier, polled);
        return [], dequeues;
      }
      PollState(r, u, initial, goal, L, pred, depth, queue, frontier, polled);
      queue := queue[1..];
      frontier := frontier[1..];
      polled := polled + {current.p};
      ExpandedNear(t, initial, pred, depth, polled, L);
      var found;
      pred, depth, queue, frontier, found := Expand(t, initial, goal, L, pred, depth, queue, frontier, polled, current);
      if found {
        path := ShortestBacktrace(r, u, initial, pred, depth, goal);
        return;
      }
    }
    ExhaustedWithin(r, u, initial, pred, depth, polled, L);
    WithinIsNear(t, initial, goal, L + 1);
    path := [];
  }

  /** The round whose limit L first finds the goal: the path's length
      fixes L, since round L - 1 failed and the path is a shortest walk. */
  lemma FirstLimit(t: Terrain, initial: Coord, goal: Coord, path: seq<Coord>, L: nat)
    requires t.Ok() && L >= 1 && path != [] && path[0] == initial && path[|path| - 1] == goal && IsWalk(Moves(t), path)
    requires forall k: nat :: k < |path| - 1 ==> !ReachesIn(Moves(t), initial, goal, k)
    requires ReachesWithin(Moves(t), initial, goal, L + 1)
    requires L > 1 ==> !ReachesWithin(Moves(t), initial, goal, L)
    ensures L == Max(1, |path| - 2)
  {
    var r, n: nat := Moves(t), |path| - 1;
    var k :| 0 <= k <= L + 1 && ReachesIn(r, initial, goal, k);
    assert n <= L + 1;
    assert ReachesIn(r, initial, goal, n) by {
      assert |path| == n + 1 && path[0] == initial && path[n] == goal && IsWalk(r, path);
    }
    if L > 1 {
      assert !(n <= L && ReachesIn(r, initial, goal, n));
    }
  }

  /** The points expanded so far all lie within L moves, so a round that
      finds the goal dequeues at most RoundCost entries. */
  lemma ExpandedNear(t: Terrain, initial: Coord, pred: PredMap, depth: map<Coord, nat>, polled: set<Coord>, L: nat)
    requires t.Ok() && Tree(Moves(t), Universe(t, initial), initial, pred, depth)
    requires polled <= pred.Keys && polled <= Universe(t, initial) && Capped(pred, depth, polled, L)
    ensures |polled| <= RoundCost(t, initial, L)
  {
    forall q | q in polled
      ensures q in Near(t, initial, L)
    {
      TreeReachesIn(Moves(t), Universe(t, initial), initial, pred, depth, q);
    }
    SubsetCard(polled, Near(t, initial, L));
  }

  /** A point some walk of at most n moves reaches is a cell or the start,
      so it is one of Near(n). */
  lemma WithinIsNear(t: Terrain, initial: Coord, q: Coord, n: nat)
    requires t.Ok()
    ensures ReachesWithin(Moves(t), initial, q, n) ==> q in Near(t, initial, n)
  {
    if ReachesWithin(Moves(t), initial, q, n) {
      var k :| 0 <= k <= n && ReachesIn(Moves(t), initial, q, k);
      if k == 0 {
        StayPut(Moves(t), initial, q);
      } else {
        var w := StepBack(Moves(t), initial, q, k - 1);
        ValidIsCell(t, q);
      }
    }
  }

  /** Dequeuing the front entry when it is within the limit. */
  lemma PollState(r: Rel, u: set<Coord>, initial: Coord, goal: Coord, L: nat, pred: PredMap,
                  depth: map<Coord, nat>, queue: seq<Wrapped>, frontier: seq<Coord>, polled: set<Coord>)
    requires queue != [] && RoundState(r, u, initial, goal, L, pred, depth, queue, frontier, polled)
    requires queue[0].depth <= L
    ensures ScanState(r, u, initial, L, pred, depth, queue[1..], frontier[1..], polled + {queue[0].p}, queue[0])
    ensures |polled + {queue[0].p}| == |polled| + 1 <= |u|
  {
    Poll(r, u, initial, pred, depth, frontier, polled, 0);
    PollLayered(r, u, initial, pred, depth, frontier, polled);
    assert frontier[..0] + frontier[1..] == frontier[1..];
    PollTagged(queue, frontier, depth);
    SubsetCard(polled + {queue[0].p}, u);
  }

  /** Dropping the front of a tagged queue. */
  lemma PollTagged(queue: seq<Wrapped>, frontier: seq<Coord>, depth: map<Coord, nat>)
    requires queue != [] && Tagged(queue, frontier, depth)
    ensures Tagged(queue[1..], frontier[1..], depth)
    ensures queue[0].p == frontier[0] && frontier[0] in depth && queue[0].depth == depth[frontier[0]]
  {
    forall i | 0 <= i < |queue| - 1
      ensures queue[1..][i].p == frontier[1..][i] && frontier[1..][i] in depth
              && queue[1..][i].depth == depth[frontier[1..][i]]
    {
      assert queue[1..][i] == queue[i + 1] && frontier[1..][i] == frontier[i + 1];
    }
  }

  /** The front entry is deeper than the limit: the round fails, having
      expanded exactly the points within L moves, and the entry itself
      lies L + 1 moves away. */
  lemma Broke(t: Terrain, initial: Coord, goal: Coord, L: nat, pred: PredMap, depth: map<Coord, nat>,
              frontier: seq<Coord>, polled: set<Coord>)
    requires t.Ok() && frontier != [] && frontier[0] in depth && depth[frontier[0]] > L
    requires Explored(Moves(t), Universe(t, initial), initial, pred, depth, frontier, polled)
    requires Layered(Moves(t), initial, pred, depth, frontier, polled)
    requires goal !in pred && Capped(pred, depth, polled, L)
    ensures !ReachesWithin(Moves(t), initial, goal, L + 1)
    ensures |polled| + 1 == RoundCost(t, initial, L)
  {
    var r, u := Moves(t), Universe(t, initial);
    Cutoff(r, u, initial, pred, depth, frontier, polled, goal, L);
    SettledWithin(r, u, initial, pred, depth, frontier, polled, depth[frontier[0]], L);
    TreeReachesIn(r, u, initial, pred, depth, frontier[0]);
    assert frontier[0] in Near(t, initial, L + 1) - Near(t, initial, L);
  }

  /** getSuccessors(current.p) followed by the loop over it. */
  method Expand(t: Terrain, initial: Coord, goal: Coord, L: nat, pred0: PredMap, ghost depth0: map<Coord, nat>,
                queue0: seq<Wrapped>, ghost frontier0: seq<Coord>, ghost polled: set<Coord>, current: Wrapped)
    returns (pred: PredMap, ghost depth: map<Coord, nat>, queue: seq<Wrapped>, ghost frontier: seq<Coord>, found: bool)
    requires t.Ok()
    requires ScanState(Moves(t), Universe(t, initial), initial, L, pred0, depth0, queue0, frontier0, polled, current)
    requires goal !in pred0
    ensures Tree(Moves(t), Universe(t, initial), initial, pred, depth) && Shortest(Moves(t), initial, pred, depth)
    ensures found <==> goal in pred
    ensures forall q :: q in pred ==> q in depth && depth[q] <= L + 1
    ensures !found ==> RoundState(Moves(t), Universe(t, initial), initial, goal, L, pred, depth, queue, frontier, polled)
  {
    var succ := GetSuccessors(t, current.p);
    SuccessorsAreMoves(t, current.p);
    forall q | (current.p, q) in Moves(t)
      ensures q in Universe(t, initial)
    {
      ValidIsCell(t, q);
    }
    pred, depth, queue, frontier, found := Scan(Moves(t), Universe(t, initial), initial, goal, L, pred0, depth0,
                                                queue0, frontier0, polled, current, succ);
  }

  /** The loop over the successors of current.p: a successor that hasKey
      does not find gets current.p as predecessor and joins the back of the
      queue one deeper than current; the loop stops as soon as a successor
      equals the goal. */
  method Scan(ghost r: Rel, ghost u: set<Coord>, initial: Coord, goal: Coord, L: nat, pred0: PredMap,
              ghost depth0: map<Coord, nat>, queue0: seq<Wrapped>, ghost frontier0: seq<Coord>,
              ghost polled: set<Coord>, current: Wrapped, succ: seq<NodeVal>)
    returns (pred: PredMap, ghost depth: map<Coord, nat>, queue: seq<Wrapped>, ghost frontier: seq<Coord>, found: bool)
    requires forall q :: (current.p, q) in r <==> q in Ats(succ)
    requires forall q :: (current.p, q) in r ==> q in u
    requires ScanState(r, u, initial, L, pred0, depth0, queue0, frontier0, polled, current)
    requires goal !in pred0
    ensures Tree(r, u, initial, pred, depth) && Shortest(r, initial, pred, depth)
    ensures found <==> goal in pred
    ensures forall q :: q in pred ==> q in depth && depth[q] <= L + 1
    ensures !found ==> RoundState(r, u, initial, goal, L, pred, depth, queue, frontier, polled)
  {
    pred, depth, queue, frontier := pred0, depth0, queue0, frontier0;
    ghost var ats := Ats(succ);
    for k := 0 to |succ|
      invariant ScanState(r, u, initial, L, pred, depth, queue, frontier, polled, current)
      invariant goal !in pred
      invariant forall i :: 0 <= i < k ==> ats[i] in pred
    {
      var s := succ[k].at;
      ghost var before := pred;
      var known := HasKey(pred, s);
      if !known {
        assert s == ats[k] && (current.p, s) in r;
        AdmitState(r, u, initial, L, pred, depth, queue, frontier, polled, current, s);
        pred := pred[s := Some(current.p)];
        depth := depth[s := depth[current.p] + 1];
        queue := queue + [Wrapped(s, current.depth + 1)];
        frontier := frontier + [s];
      }
      if s == goal {
        return pred, depth, queue, frontier, true;
      }
      KnownGrows(ats, k, before, pred);
    }
    CloseCurrent(r, polled, current.p, ats, pred);
    CloseLayered(r, u, initial, pred, depth, frontier, polled, current.p);
    found := false;
  }

  /** Admitting a new successor s of current: it is recorded one deeper
      than current and queued with that depth. */
  lemma AdmitState(r: Rel, u: set<Coord>, initial: Coord, L: nat, pred: PredMap,
                   depth: map<Coord, nat>, queue: seq<Wrapped>, frontier: seq<Coord>, polled: set<Coord>,
                   current: Wrapped, s: Coord)
    requires ScanState(r, u, initial, L, pred, depth, queue, frontier, polled, current)
    requires s !in pred && (current.p, s) in r && s in u
    ensures ScanState(r, u, initial, L, pred[s := Some(current.p)],
                      depth[s := depth[current.p] + 1], queue + [Wrapped(s, current.depth + 1)],
                      frontier + [s], polled, current)
  {
    Admit(r, u, initial, pred, depth, frontier, polled, current.p, s);
    AdmitLayered(r, u, initial, pred, depth, frontier, polled, current.p, s);
  }
}
