/** The bookkeeping the newer package's searches share: a predecessor map
    that is a tree rooted at the start, a queue of generated points that
    have not been expanded yet, and the set of points already expanded.
    The step relation is a parameter, the set of pairs (a, b) with b among
    a's successors, so breadth-first search (World.getSuccessors) and the
    others (BaseSearchAlgorithm.getSuccessors) use the same facts. */
module Trees {
  import opened Common
  import opened Preds

  /** A successor relation: (a, b) is in it when b is a successor of a. */
  type Rel = iset<(Coord, Coord)>

  /** A sequence of points each of which is a successor of the one before. */
  ghost predicate IsWalk(r: Rel, walk: seq<Coord>)
  {
    forall i :: 0 <= i < |walk| - 1 ==> (walk[i], walk[i + 1]) in r
  }

  /** Some walk leads from a to b. */
  ghost predicate Reaches(r: Rel, a: Coord, b: Coord)
  {
    exists walk :: |walk| >= 1 && walk[0] == a && walk[|walk| - 1] == b && IsWalk(r, walk)
  }

  /** A walk of exactly k steps leads from a to b. */
  ghost predicate ReachesIn(r: Rel, a: Coord, b: Coord, k: nat)
  {
    exists walk :: |walk| == k + 1 && walk[0] == a && walk[k] == b && IsWalk(r, walk)
  }

  /** A walk of at most n steps leads from a to b. */
  ghost predicate ReachesWithin(r: Rel, a: Coord, b: Coord, n: nat)
  {
    exists k :: 0 <= k <= n && ReachesIn(r, a, b, k)
  }

  /** The points of u that walks of at most n steps from a reach. */
  ghost function Within(r: Rel, u: set<Coord>, a: Coord, n: nat): set<Coord>
  {
    set q | q in u && ReachesWithin(r, a, q, n)
  }

  /** The points of u some walk from a reaches. */
  ghost function ReachSet(r: Rel, u: set<Coord>, a: Coord): set<Coord>
  {
    set q | q in u && Reaches(r, a, q)
  }

  /** A walk extended by one step is a walk. */
  lemma WalkSnoc(r: Rel, walk: seq<Coord>, c: Coord)
    requires IsWalk(r, walk) && walk != [] && (walk[|walk| - 1], c) in r
    ensures IsWalk(r, walk + [c])
  {
    var w := walk + [c];
    forall i | 0 <= i < |w| - 1
      ensures (w[i], w[i + 1]) in r
    {
      if i < |walk| - 1 {
        assert w[i] == walk[i] && w[i + 1] == walk[i + 1];
      }
    }
  }

  /** Every point a walk from a closed set reaches is in that set. */
  lemma {:induction false} ClosedHoldsWalk(r: Rel, closed: set<Coord>, walk: seq<Coord>)
    requires IsWalk(r, walk) && |walk| >= 1 && walk[0] in closed
    requires forall a, b :: a in closed && (a, b) in r ==> b in closed
    ensures forall i :: 0 <= i < |walk| ==> walk[i] in closed
    decreases |walk|
  {
    if |walk| > 1 {
      var prefix := walk[..|walk| - 1];
      assert IsWalk(r, prefix);
      ClosedHoldsWalk(r, closed, prefix);
      assert (walk[|walk| - 2], walk[|walk| - 1]) in r;
    }
  }

  /** pred is a tree rooted at initial, with exact depths, whose links are
      steps and whose points lie in u. */
  ghost predicate Tree(r: Rel, u: set<Coord>, initial: Coord, pred: PredMap, depth: map<Coord, nat>)
  {
    && Depths(pred, depth)
    && initial in pred && pred[initial] == None
    && (forall q :: q in pred && q != initial ==> pred[q].Some? && (pred[q].value, q) in r)
    && pred.Keys <= u
  }

  /** Every point in pred was either expanded or is queued, never both, and
      nothing is queued twice. */
  ghost predicate Partition(pred: PredMap, frontier: seq<Coord>, polled: set<Coord>)
  {
    && Distinct(frontier)
    && (forall q :: q in pred <==> q in polled || q in frontier)
    && (forall q :: q in frontier ==> q !in polled)
  }

  /** Every successor of an expanded point (other than `except`) is in pred. */
  ghost predicate Closed(r: Rel, polled: set<Coord>, except: Option<Coord>, pred: PredMap)
  {
    forall a, b :: a in polled && Some(a) != except && (a, b) in r ==> b in pred
  }

  /** The state of a search loop between polls. */
  ghost predicate Explored(r: Rel, u: set<Coord>, initial: Coord, pred: PredMap, depth: map<Coord, nat>,
                           frontier: seq<Coord>, polled: set<Coord>)
  {
    Tree(r, u, initial, pred, depth) && Partition(pred, frontier, polled) && Closed(r, polled, None, pred)
  }

  /** The state while current's successors are considered. */
  ghost predicate Expanding(r: Rel, u: set<Coord>, initial: Coord, pred: PredMap, depth: map<Coord, nat>,
                            frontier: seq<Coord>, polled: set<Coord>, current: Coord)
  {
    && Tree(r, u, initial, pred, depth) && Partition(pred, frontier, polled)
    && current in polled && Closed(r, polled, Some(current), pred)
  }

  /** The state after pred and the queue are reset to initial alone. */
  lemma Start(r: Rel, u: set<Coord>, initial: Coord)
    requires initial in u
    ensures Explored(r, u, initial, map[initial := None], map[initial := 0], [initial], {})
  {
  }

  /** Removing the m-th element of a sequence without repeats. */
  lemma RemoveAt(s: seq<Coord>, m: nat)
    requires m < |s| && Distinct(s)
    ensures Distinct(s[..m] + s[m + 1..])
    ensures forall q :: q in s[..m] + s[m + 1..] <==> q in s && q != s[m]
  {
    var t := s[..m] + s[m + 1..];
    assert forall i :: 0 <= i < |t| ==> t[i] == if i < m then s[i] else s[i + 1];
    forall q | q in s && q != s[m]
      ensures q in t
    {
      var i :| 0 <= i < |s| && s[i] == q;
      assert t[if i < m then i else i - 1] == q;
    }
  }

  /** Polling the m-th queued point moves it to the expanded set; the
      other expanded points stay closed. */
  lemma Poll(r: Rel, u: set<Coord>, initial: Coord, pred: PredMap, depth: map<Coord, nat>,
             frontier: seq<Coord>, polled: set<Coord>, m: nat)
    requires m < |frontier| && Explored(r, u, initial, pred, depth, frontier, polled)
    ensures Expanding(r, u, initial, pred, depth, frontier[..m] + frontier[m + 1..], polled + {frontier[m]}, frontier[m])
    ensures frontier[m] in pred && frontier[m] !in polled
  {
    PollPartition(pred, frontier, polled, m);
  }

  /** Moving the m-th queued point to the expanded set keeps the partition. */
  lemma PollPartition(pred: PredMap, frontier: seq<Coord>, polled: set<Coord>, m: nat)
    requires m < |frontier| && Partition(pred, frontier, polled)
    ensures Partition(pred, frontier[..m] + frontier[m + 1..], polled + {frontier[m]})
    ensures frontier[m] in pred && frontier[m] !in polled
  {
    RemoveAt(frontier, m);
  }

  /** Admitting a new successor s of the point being expanded keeps the
      tree, the partition and the closure of the other expanded points. */
  lemma Admit(r: Rel, u: set<Coord>, initial: Coord, pred: PredMap, depth: map<Coord, nat>,
              frontier: seq<Coord>, polled: set<Coord>, current: Coord, s: Coord)
    requires Expanding(r, u, initial, pred, depth, frontier, polled, current)
    requires s !in pred && (current, s) in r && s in u
    ensures Expanding(r, u, initial, pred[s := Some(current)], depth[s := depth[current] + 1],
                      frontier + [s], polled, current)
  {
    Grow(r, u, initial, pred, depth, frontier, polled, current, s);
  }

  /** Recording a new point s with predecessor current and queueing it
      keeps the tree and the partition. */
  lemma Grow(r: Rel, u: set<Coord>, initial: Coord, pred: PredMap, depth: map<Coord, nat>,
             frontier: seq<Coord>, polled: set<Coord>, current: Coord, s: Coord)
    requires Tree(r, u, initial, pred, depth) && Partition(pred, frontier, polled)
    requires current in pred && s !in pred && (current, s) in r && s in u
    ensures Tree(r, u, initial, pred[s := Some(current)], depth[s := depth[current] + 1])
    ensures Partition(pred[s := Some(current)], frontier + [s], polled)
  {
    var pred', depth' := pred[s := Some(current)], depth[s := depth[current] + 1];
    forall q | q in pred'
      ensures q in depth'
      ensures pred'[q].None? ==> depth'[q] == 0
      ensures pred'[q].Some? ==> pred'[q].value in pred' && pred'[q].value in depth'
                                 && depth'[q] == depth'[pred'[q].value] + 1
    {
      if q != s {
        assert pred'[q] == pred[q] && depth'[q] == depth[q];
        if pred[q].Some? {
          assert pred[q].value in pred && pred[q].value != s;
        }
      }
    }
    var f := frontier + [s];
    forall i, j | 0 <= i < j < |f|
      ensures f[i] != f[j]
    {
      if j == |frontier| {
        assert f[i] in frontier;
      }
    }
  }

  /** Once every successor of current is in pred, all expanded points are
      closed again. */
  lemma CloseCurrent(r: Rel, polled: set<Coord>, current: Coord, succ: seq<Coord>, pred: PredMap)
    requires Closed(r, polled, Some(current), pred)
    requires forall b :: (current, b) in r ==> b in succ
    requires forall i :: 0 <= i < |succ| ==> succ[i] in pred
    ensures Closed(r, polled, None, pred)
  {
    forall a, b | a in polled && (a, b) in r
      ensures b in pred
    {
      if a == current {
        var i :| 0 <= i < |succ| && succ[i] == b;
      }
    }
  }

  /** The first k successors known before, and the k-th now, in a map that
      only gained keys: the first k + 1 are known. */
  lemma KnownGrows(succ: seq<Coord>, k: nat, pred0: PredMap, pred: PredMap)
    requires k < |succ| && (forall i :: 0 <= i < k ==> succ[i] in pred0)
    requires succ[k] in pred && pred0.Keys <= pred.Keys
    ensures forall i :: 0 <= i < k + 1 ==> succ[i] in pred
  {
  }

  /** A chain read out of the tree starts at initial, walks along steps,
      and repeats no point. */
  lemma ChainIsWalk(r: Rel, u: set<Coord>, initial: Coord, pred: PredMap, depth: map<Coord, nat>, path: seq<Coord>)
    requires Tree(r, u, initial, pred, depth) && IsChain(pred, path) && path[|path| - 1] in pred
    ensures path[0] == initial && IsWalk(r, path) && Distinct(path)
    ensures forall i :: 0 <= i < |path| ==> path[i] in pred
  {
    ChainDepth(pred, depth, path);
    forall i | 0 <= i < |path| - 1
      ensures (path[i], path[i + 1]) in r
    {
      assert Get(pred, path[i + 1]) == Some(path[i]);
    }
  }

  /** Every point of the tree is reached from initial by a walk as long as
      its depth. */
  lemma {:induction false} TreeReachesIn(r: Rel, u: set<Coord>, initial: Coord, pred: PredMap, depth: map<Coord, nat>, q: Coord)
    requires Tree(r, u, initial, pred, depth) && q in pred
    ensures q in depth && ReachesIn(r, initial, q, depth[q]) && Reaches(r, initial, q)
    decreases depth[q]
  {
    if pred[q].None? {
      assert IsWalk(r, [q]);
    } else {
      var p := pred[q].value;
      TreeReachesIn(r, u, initial, pred, depth, p);
      var walk :| |walk| == depth[p] + 1 && walk[0] == initial && walk[depth[p]] == p && IsWalk(r, walk);
      WalkSnoc(r, walk, q);
      assert (walk + [q])[0] == initial && (walk + [q])[depth[q]] == q;
    }
  }

  /** The last step of a walk of k + 1 steps. */
  lemma StepBack(r: Rel, a: Coord, q: Coord, k: nat) returns (w: Coord)
    requires ReachesIn(r, a, q, k + 1)
    ensures ReachesIn(r, a, w, k) && (w, q) in r
  {
    var walk :| |walk| == k + 2 && walk[0] == a && walk[k + 1] == q && IsWalk(r, walk);
    w := walk[k];
    var prefix := walk[..k + 1];
    assert IsWalk(r, prefix) && prefix[0] == a && prefix[k] == w;
    assert (walk[k], walk[k + 1]) in r;
  }

  /** A walk of no steps stays at its start. */
  lemma StayPut(r: Rel, a: Coord, q: Coord)
    requires ReachesIn(r, a, q, 0)
    ensures q == a
  {
    var walk :| |walk| == 1 && walk[0] == a && walk[0] == q && IsWalk(r, walk);
  }

  /** With nothing left in the queue, the expanded points are exactly the
      points of u reached from initial, provided u holds every step target
      of its own points. */
  lemma Exhausted(r: Rel, u: set<Coord>, initial: Coord, pred: PredMap, depth: map<Coord, nat>, polled: set<Coord>)
    requires Explored(r, u, initial, pred, depth, [], polled)
    ensures polled == pred.Keys
    ensures forall walk :: |walk| >= 1 && walk[0] == initial && IsWalk(r, walk) ==>
      forall i :: 0 <= i < |walk| ==> walk[i] in polled
    ensures polled == ReachSet(r, u, initial)
  {
    forall walk | |walk| >= 1 && walk[0] == initial && IsWalk(r, walk)
      ensures forall i :: 0 <= i < |walk| ==> walk[i] in polled
    {
      ClosedHoldsWalk(r, polled, walk);
    }
    forall q | q in polled
      ensures q in ReachSet(r, u, initial)
    {
      TreeReachesIn(r, u, initial, pred, depth, q);
    }
    forall q | q in ReachSet(r, u, initial)
      ensures q in polled
    {
      var walk :| |walk| >= 1 && walk[0] == initial && walk[|walk| - 1] == q && IsWalk(r, walk);
      ClosedHoldsWalk(r, polled, walk);
    }
  }

  /** No point of pred is reached from initial in fewer steps than its depth. */
  ghost predicate Shortest(r: Rel, initial: Coord, pred: PredMap, depth: map<Coord, nat>)
  {
    forall q, k: nat :: q in pred && q in depth && k < depth[q] ==> !ReachesIn(r, initial, q, k)
  }

  /** Every point reached from initial in fewer than d steps was expanded. */
  ghost predicate Settled(r: Rel, initial: Coord, polled: set<Coord>, d: nat)
  {
    forall q, k: nat :: k < d && ReachesIn(r, initial, q, k) ==> q in polled
  }

  /** The queued depths never decrease along the queue and lie between lo
      and lo + 1. */
  ghost predicate Banded(depth: map<Coord, nat>, frontier: seq<Coord>, lo: nat)
  {
    forall i, j :: 0 <= i <= j < |frontier| ==>
      frontier[i] in depth && frontier[j] in depth && lo <= depth[frontier[i]] <= depth[frontier[j]] <= lo + 1
  }

  /** The breadth-first layering of a FIFO queue, between polls: depths are
      shortest walk lengths, the queue is banded from its front's depth,
      and everything nearer than the front was expanded. */
  ghost predicate Layered(r: Rel, initial: Coord, pred: PredMap, depth: map<Coord, nat>,
                          frontier: seq<Coord>, polled: set<Coord>)
  {
    && Shortest(r, initial, pred, depth)
    && (frontier != [] ==> frontier[0] in depth && Banded(depth, frontier, depth[frontier[0]])
                           && Settled(r, initial, polled, depth[frontier[0]]))
  }

  /** The layering while the front element current is expanded. */
  ghost predicate LayeredExpanding(r: Rel, initial: Coord, pred: PredMap, depth: map<Coord, nat>,
                                   frontier: seq<Coord>, polled: set<Coord>, current: Coord)
  {
    && current in depth && Shortest(r, initial, pred, depth)
    && Banded(depth, frontier, depth[current]) && Settled(r, initial, polled, depth[current])
  }

  /** The state after the reset is layered. */
  lemma StartLayered(r: Rel, initial: Coord)
    ensures Layered(r, initial, map[initial := None], map[initial := 0], [initial], {})
  {
  }

  /** Polling the front keeps the layering, with the rest of the queue
      banded from the polled point's depth. */
  lemma PollLayered(r: Rel, u: set<Coord>, initial: Coord, pred: PredMap, depth: map<Coord, nat>,
                    frontier: seq<Coord>, polled: set<Coord>)
    requires frontier != [] && Explored(r, u, initial, pred, depth, frontier, polled)
    requires Layered(r, initial, pred, depth, frontier, polled)
    ensures LayeredExpanding(r, initial, pred, depth, frontier[1..], polled + {frontier[0]}, frontier[0])
  {
    var f := frontier[1..];
    forall i, j | 0 <= i <= j < |f|
      ensures f[i] in depth && f[j] in depth && depth[frontier[0]] <= depth[f[i]] <= depth[f[j]] <= depth[frontier[0]] + 1
    {
      assert f[i] == frontier[i + 1] && f[j] == frontier[j + 1];
    }
  }

  /** A new successor s of current gets a shortest depth: a shorter walk to
      s would pass through an expanded point nearer than current, which
      would already have put s into pred. */
  lemma AdmitLayered(r: Rel, u: set<Coord>, initial: Coord, pred: PredMap, depth: map<Coord, nat>,
                     frontier: seq<Coord>, polled: set<Coord>, current: Coord, s: Coord)
    requires Expanding(r, u, initial, pred, depth, frontier, polled, current)
    requires LayeredExpanding(r, initial, pred, depth, frontier, polled, current)
    requires s !in pred && (current, s) in r
    ensures LayeredExpanding(r, initial, pred[s := Some(current)], depth[s := depth[current] + 1],
                             frontier + [s], polled, current)
  {
    var pred', depth' := pred[s := Some(current)], depth[s := depth[current] + 1];
    var d := depth[current];
    forall k: nat | k < d + 1
      ensures !ReachesIn(r, initial, s, k)
    {
      NearKnownExpanding(r, u, initial, pred, depth, frontier, polled, current, s, k);
    }
    forall q, k: nat | q in pred' && q in depth' && k < depth'[q]
      ensures !ReachesIn(r, initial, q, k)
    {
      if q != s {
        assert depth'[q] == depth[q];
      }
    }
    var f := frontier + [s];
    forall i, j | 0 <= i <= j < |f|
      ensures f[i] in depth' && f[j] in depth' && d <= depth'[f[i]] <= depth'[f[j]] <= d + 1
    {
      if j < |frontier| {
        assert f[i] == frontier[i] && f[j] == frontier[j];
        assert f[i] != s && f[j] != s;
      } else if i < |frontier| {
        assert f[i] == frontier[i] && f[i] != s;
      }
    }
  }

  /** Once current is closed, the queue is layered from its new front:
      whatever is reached in exactly depth(current) steps came from a
      nearer, expanded point, so it is in pred, and it cannot be queued
      behind a front one deeper. */
  lemma CloseLayered(r: Rel, u: set<Coord>, initial: Coord, pred: PredMap, depth: map<Coord, nat>,
                     frontier: seq<Coord>, polled: set<Coord>, current: Coord)
    requires Explored(r, u, initial, pred, depth, frontier, polled) && current in polled
    requires LayeredExpanding(r, initial, pred, depth, frontier, polled, current)
    ensures Layered(r, initial, pred, depth, frontier, polled)
  {
    if frontier != [] {
      var d, d' := depth[current], depth[frontier[0]];
      forall q, k: nat | k < d' && ReachesIn(r, initial, q, k)
        ensures q in polled
      {
        if k >= d {
          NearKnown(r, u, initial, pred, depth, frontier, polled, d, q, k);
          assert depth[q] <= k;
          FrontIsShallowest(depth, frontier);
        }
      }
    }
  }

  /** The goal is not in pred, and the front of the queue is deeper than L:
      no walk of at most L + 1 steps reaches the goal. */
  lemma Cutoff(r: Rel, u: set<Coord>, initial: Coord, pred: PredMap, depth: map<Coord, nat>,
               frontier: seq<Coord>, polled: set<Coord>, goal: Coord, L: nat)
    requires Explored(r, u, initial, pred, depth, frontier, polled)
    requires Layered(r, initial, pred, depth, frontier, polled)
    requires frontier != [] && depth[frontier[0]] > L && goal !in pred
    ensures !ReachesWithin(r, initial, goal, L + 1)
  {
    forall k: nat | k <= L + 1
      ensures !ReachesIn(r, initial, goal, k)
    {
      NearKnown(r, u, initial, pred, depth, frontier, polled, depth[frontier[0]], goal, k);
    }
  }

  /** Closed and settled below d: a point reached in at most d steps is in
      pred. */
  lemma NearKnown(r: Rel, u: set<Coord>, initial: Coord, pred: PredMap, depth: map<Coord, nat>,
                  frontier: seq<Coord>, polled: set<Coord>, d: nat, q: Coord, k: nat)
    requires Explored(r, u, initial, pred, depth, frontier, polled) && Settled(r, initial, polled, d)
    requires k <= d
    ensures ReachesIn(r, initial, q, k) ==> q in pred
  {
    if ReachesIn(r, initial, q, k) {
      if k == 0 {
        StayPut(r, initial, q);
      } else {
        var w := StepBack(r, initial, q, k - 1);
        assert w in polled;
      }
    }
  }

  /** The same while current is expanded: the point before the last step
      of a walk no longer than depth(current) is nearer than current. */
  lemma NearKnownExpanding(r: Rel, u: set<Coord>, initial: Coord, pred: PredMap, depth: map<Coord, nat>,
                           frontier: seq<Coord>, polled: set<Coord>, current: Coord, q: Coord, k: nat)
    requires Expanding(r, u, initial, pred, depth, frontier, polled, current)
    requires LayeredExpanding(r, initial, pred, depth, frontier, polled, current)
    requires k <= depth[current]
    ensures ReachesIn(r, initial, q, k) ==> q in pred
  {
    if ReachesIn(r, initial, q, k) {
      if k == 0 {
        StayPut(r, initial, q);
      } else {
        var w := StepBack(r, initial, q, k - 1);
        assert w in polled && w in pred;
        assert depth[w] <= k - 1;
      }
    }
  }

  /** The front of a banded queue is its shallowest element. */
  lemma FrontIsShallowest(depth: map<Coord, nat>, frontier: seq<Coord>)
    requires frontier != [] && frontier[0] in depth && Banded(depth, frontier, depth[frontier[0]])
    ensures forall q :: q in frontier ==> q in depth && depth[q] >= depth[frontier[0]]
  {
  }

  /** The expanded points, all of depth at most L, are exactly the points
      within L steps when everything nearer than d > L was expanded. */
  lemma SettledWithin(r: Rel, u: set<Coord>, initial: Coord, pred: PredMap, depth: map<Coord, nat>,
                      frontier: seq<Coord>, polled: set<Coord>, d: nat, L: nat)
    requires Explored(r, u, initial, pred, depth, frontier, polled)
    requires Settled(r, initial, polled, d) && L < d
    requires forall q :: q in polled ==> q in depth && depth[q] <= L
    ensures polled == Within(r, u, initial, L)
  {
    forall q | q in polled
      ensures q in Within(r, u, initial, L)
    {
      TreeReachesIn(r, u, initial, pred, depth, q);
    }
  }

  /** backtrace(pred, q) in a tree with shortest depths: a walk from
      initial to q without repeats, and no walk to q is shorter. */
  method ShortestBacktrace(ghost r: Rel, ghost u: set<Coord>, initial: Coord, pred: PredMap,
                           ghost depth: map<Coord, nat>, q: Coord) returns (path: seq<Coord>)
    requires Tree(r, u, initial, pred, depth) && Shortest(r, initial, pred, depth) && q in pred
    ensures path != [] && path[0] == initial && path[|path| - 1] == q
    ensures IsWalk(r, path) && Distinct(path) && Reaches(r, initial, q)
    ensures forall k: nat :: k < |path| - 1 ==> !ReachesIn(r, initial, q, k)
    ensures q in depth && |path| == depth[q] + 1 && ReachesIn(r, initial, q, depth[q])
  {
    DepthsAreRanked(pred, depth);
    path := Backtrace(pred, depth, q);
    ChainIsWalk(r, u, initial, pred, depth, path);
    ChainDepth(pred, depth, path);
  }

  /** With nothing left in the queue and every expanded point at most L
      deep, the expanded points are those within L steps, and nothing more
      is within L + 1 steps. */
  lemma ExhaustedWithin(r: Rel, u: set<Coord>, initial: Coord, pred: PredMap, depth: map<Coord, nat>,
                        polled: set<Coord>, L: nat)
    requires Explored(r, u, initial, pred, depth, [], polled)
    requires forall q :: q in polled ==> q in depth && depth[q] <= L
    ensures polled == Within(r, u, initial, L) == Within(r, u, initial, L + 1)
  {
    Exhausted(r, u, initial, pred, depth, polled);
    forall q | q in polled
      ensures q in Within(r, u, initial, L)
    {
      TreeReachesIn(r, u, initial, pred, depth, q);
    }
    forall q | q in Within(r, u, initial, L + 1)
      ensures q in polled
    {
      var k :| 0 <= k <= L + 1 && ReachesIn(r, initial, q, k);
      assert Reaches(r, initial, q);
    }
  }
}
