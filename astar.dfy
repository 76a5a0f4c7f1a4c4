/** The newer package's AStarSearch: a best-first search over the
    8-connected getSuccessors. A node's priority is its cost field (the
    heuristic to the goal) plus the path costs of the nodes on its
    backtrace; the goal is checked when a node is polled. Node objects are
    modelled by their field values, one per coordinate. */
module AStar {
  import opened Common
  import opened Worlds
  import opened Preds
  import opened Nodes
  import opened Terrains
  import opened Base8
  import opened Trees

  /** The path cost getSuccessors gives the node for a step from p to q. */
  function StepCost(p: Coord, q: Coord): (c: real)
    ensures c == 1.0 || c == DiagCost
    ensures c == DiagCost <==> IsDiagonal(Delta(p, q))
  {
    if IsDiagonal(Delta(p, q)) then DiagCost else 1.0
  }

  /** The weighted length of a walk: the sum of its step costs. */
  function WalkCost(walk: seq<Coord>): real
  {
    if |walk| <= 1 then 0.0 else WalkCost(walk[..|walk| - 1]) + StepCost(walk[|walk| - 2], walk[|walk| - 1])
  }

  /** The chain backtrace(pred, q) returns, as a function of pred. */
  ghost function Chain(pred: PredMap, depth: map<Coord, nat>, q: Coord): (c: seq<Coord>)
    requires Depths(pred, depth) && q in pred
    ensures IsChain(pred, c) && c[|c| - 1] == q
    ensures forall i :: 0 <= i < |c| ==> c[i] in pred
    decreases depth[q]
  {
    match pred[q]
    case None => [q]
    case Some(p) => Chain(pred, depth, p) + [q]
  }

  /** The sum of the path fields of the nodes at the points of c. */
  ghost function PathSum(store: map<Coord, NodeVal>, c: seq<Coord>): real
    requires forall i :: 0 <= i < |c| ==> c[i] in store
  {
    if c == [] then 0.0 else PathSum(store, c[..|c| - 1]) + store[c[|c| - 1]].path
  }

  /** The comparator's value for the queued node at q: its cost field plus
      the path fields along backtrace(pred, q). */
  ghost function Key(pred: PredMap, depth: map<Coord, nat>, store: map<Coord, NodeVal>, q: Coord): real
    requires Depths(pred, depth) && q in pred && pred.Keys <= store.Keys
  {
    store[q].cost + PathSum(store, Chain(pred, depth, q))
  }

  /** The node objects: one per recorded coordinate; the start's has the
      heuristic as cost and path cost 0, every other one the heuristic as
      cost and the cost of the step from its predecessor as path cost. */
  ghost predicate Stored(initial: Coord, goal: Coord, h: (Coord, Coord) -> real, pred: PredMap,
                         store: map<Coord, NodeVal>)
  {
    && store.Keys == pred.Keys
    && initial in store && store[initial] == NodeVal(initial, h(initial, goal), 0.0)
    && (forall q :: q in store ==> store[q].at == q && store[q].cost == h(q, goal))
    && (forall q :: q in pred && q != initial && pred[q].Some? ==> store[q].path == StepCost(pred[q].value, q))
  }

  /** The key of a recorded point is the heuristic at it plus the weighted
      length of the tree walk from initial to it. */
  lemma {:induction false} KeyIsEstimate(r: Rel, u: set<Coord>, initial: Coord, goal: Coord, h: (Coord, Coord) -> real,
                                         pred: PredMap, depth: map<Coord, nat>, store: map<Coord, NodeVal>, q: Coord)
    requires Tree(r, u, initial, pred, depth) && Stored(initial, goal, h, pred, store) && q in pred
    ensures Chain(pred, depth, q)[0] == initial
    ensures PathSum(store, Chain(pred, depth, q)) == WalkCost(Chain(pred, depth, q))
    ensures Key(pred, depth, store, q) == h(q, goal) + WalkCost(Chain(pred, depth, q))
    decreases depth[q]
  {
    var c := Chain(pred, depth, q);
    match pred[q]
    case None =>
      assert q == initial;
    case Some(p) =>
      KeyIsEstimate(r, u, initial, goal, h, pred, depth, store, p);
      var c' := Chain(pred, depth, p);
      assert c == c' + [q] && c[..|c| - 1] == c';
      assert c[|c| - 2] == p;
  }

  /** The comparator's computation for q: backtrace(pred, q), then the
      cost field plus each path field in turn. */
  method KeyOf(pred: PredMap, ghost depth: map<Coord, nat>, store: map<Coord, NodeVal>, q: Coord) returns (k: real)
    requires Depths(pred, depth) && q in pred && pred.Keys <= store.Keys
    ensures k == Key(pred, depth, store, q)
  {
    DepthsAreRanked(pred, depth);
    var path := Backtrace(pred, depth, q);
    ChainDepth(pred, depth, path);
    ChainUnique(pred, path, Chain(pred, depth, q));
    k := store[q].cost;
    for i := 0 to |path|
      invariant k == store[q].cost + PathSum(store, path[..i])
    {
      assert path[..i + 1][..i] == path[..i];
      k := k + store[path[i]].path;
    }
    assert path[..|path|] == path;
  }

  /** successors.poll(): the index of a queued node of least key. Ties are
      left open, as the priority queue leaves them. */
  method PollMin(pred: PredMap, ghost depth: map<Coord, nat>, store: map<Coord, NodeVal>, frontier: seq<Coord>)
    returns (m: nat)
    requires Depths(pred, depth) && pred.Keys <= store.Keys && frontier != []
    requires forall i :: 0 <= i < |frontier| ==> frontier[i] in pred
    ensures m < |frontier|
    ensures forall j :: 0 <= j < |frontier| ==>
      Key(pred, depth, store, frontier[m]) <= Key(pred, depth, store, frontier[j])
  {
    m := 0;
    var best := KeyOf(pred, depth, store, frontier[0]);
    for j := 1 to |frontier|
      invariant m < j && best == Key(pred, depth, store, frontier[m])
      invariant forall i :: 0 <= i < j ==> best <= Key(pred, depth, store, frontier[i])
    {
      var key := KeyOf(pred, depth, store, frontier[j]);
      if key < best {
        m, best := j, key;
      }
    }
  }

  /** The points the search can ever record: the grid's cells and the start. */
  ghost function Universe(t: Terrain, initial: Coord): set<Coord>
  {
    Cells(t.grid) + {initial}
  }

  /** The state of the search loop between polls. */
  ghost predicate SearchState(r: Rel, u: set<Coord>, initial: Coord, goal: Coord, h: (Coord, Coord) -> real,
                              pred: PredMap, depth: map<Coord, nat>, store: map<Coord, NodeVal>,
                              frontier: seq<Coord>, polled: set<Coord>)
  {
    && Explored(r, u, initial, pred, depth, frontier, polled) && Stored(initial, goal, h, pred, store)
    && goal !in polled && polled <= u
  }

  /** The state while the successors of current are scanned. */
  ghost predicate ScanState(r: Rel, u: set<Coord>, initial: Coord, goal: Coord, h: (Coord, Coord) -> real,
                            pred: PredMap, depth: map<Coord, nat>, store: map<Coord, NodeVal>,
                            frontier: seq<Coord>, polled: set<Coord>, current: Coord)
  {
    && Expanding(r, u, initial, pred, depth, frontier, polled, current) && Stored(initial, goal, h, pred, store)
    && goal !in polled && polled <= u
  }

  /** search(initial, goal) with heuristic h. It finds a path exactly when
      one exists; the path is a walk of moves from initial to goal without
      repeats, and a search that runs dry has polled every reachable point
      once. */
  method Search(t: Terrain, h: (Coord, Coord) -> real, initial: Coord, goal: Coord) returns (r: SearchResult)
    requires t.Ok()
    ensures r.path != [] <==> Reaches(Moves(t), initial, goal)
    ensures r.path != [] ==> r.path[0] == initial && r.path[|r.path| - 1] == goal
                             && IsWalk(Moves(t), r.path) && Distinct(r.path)
    ensures initial == goal ==> r == SearchResult([initial], 1)
    ensures 1 <= r.cost <= |Universe(t, initial)|
    ensures r.path == [] ==> r.cost == |ReachSet(Moves(t), Universe(t, initial), initial)|
  {
    ghost var rel, u := Moves(t), Universe(t, initial);
    var init := NodeVal(initial, h(initial, goal), 0.0);
    var pred: PredMap := map[initial := None];
    var store := map[initial := init];
    ghost var depth: map<Coord, nat> := map[initial := 0];
    var frontier := [initial];
    ghost var polled: set<Coord> := {};
    var cost := 0;
    Start(rel, u, initial);
    while frontier != []
      invariant SearchState(rel, u, initial, goal, h, pred, depth, store, frontier, polled)
      invariant cost == |polled|
      invariant cost == 0 ==> frontier == [initial]
      invariant cost > 0 ==> initial in polled
      decreases |u| - cost
    {
      cost := cost + 1;
      var m := PollMin(pred, depth, store, frontier);
      var current := frontier[m];
      assert current in frontier && current in pred;
      if current == goal {
        var path := Trace(rel, u, initial, pred, depth, goal);
        assert |polled + {current}| == cost;
        SubsetCard(polled + {current}, u);
        return SearchResult(path, cost);
      }
      Poll(rel, u, initial, pred, depth, frontier, polled, m);
      frontier := frontier[..m] + frontier[m + 1..];
      polled := polled + {current};
      SubsetCard(polled, u);
      pred, depth, store, frontier := Expand(t, h, initial, goal, pred, depth, store, frontier, polled, current);
    }
    Exhausted(rel, u, initial, pred, depth, polled);
    SubsetCard(polled, u);
    r := SearchResult([], cost);
  }

  /** backtrace(pred, q): the tree chain from initial to q, a walk of
      moves without repeats. */
  method Trace(ghost r: Rel, ghost u: set<Coord>, initial: Coord, pred: PredMap, ghost depth: map<Coord, nat>,
               q: Coord) returns (path: seq<Coord>)
    requires Tree(r, u, initial, pred, depth) && q in pred
    ensures path == Chain(pred, depth, q)
    ensures path != [] && path[0] == initial && path[|path| - 1] == q
    ensures IsWalk(r, path) && Distinct(path) && Reaches(r, initial, q)
  {
    DepthsAreRanked(pred, depth);
    path := Backtrace(pred, depth, q);
    ChainIsWalk(r, u, initial, pred, depth, path);
    ChainUnique(pred, path, Chain(pred, depth, q));
  }

  /** getSuccessors(current) followed by the loop over it. */
  method Expand(t: Terrain, h: (Coord, Coord) -> real, initial: Coord, goal: Coord, pred0: PredMap,
                ghost depth0: map<Coord, nat>, store0: map<Coord, NodeVal>, frontier0: seq<Coord>,
                ghost polled: set<Coord>, current: Coord)
    returns (pred: PredMap, ghost depth: map<Coord, nat>, store: map<Coord, NodeVal>, frontier: seq<Coord>)
    requires t.Ok()
    requires ScanState(Moves(t), Universe(t, initial), initial, goal, h, pred0, depth0, store0, frontier0, polled, current)
    ensures SearchState(Moves(t), Universe(t, initial), initial, goal, h, pred, depth, store, frontier, polled)
    ensures forall q :: q in pred0 ==> q in pred && pred[q] == pred0[q] && store[q] == store0[q]
    ensures forall q :: q in pred && q !in pred0 ==> pred[q] == Some(current) && q in frontier
  {
    var succ := GetSuccessors(t, current);
    SuccessorsAreMoves(t, current);
    SuccessorCosts(t, current);
    forall q | (current, q) in Moves(t)
      ensures q in Universe(t, initial)
    {
      ValidIsCell(t, q);
    }
    pred, depth, store, frontier := Scan(Moves(t), Universe(t, initial), h, initial, goal, pred0, depth0, store0,
                                         frontier0, polled, current, succ);
  }

  /** The loop over the successors of current: a successor that hasKey
      does not find gets the heuristic as its cost and current as its
      predecessor, and joins the queue. */
  method Scan(ghost r: Rel, ghost u: set<Coord>, h: (Coord, Coord) -> real, initial: Coord, goal: Coord,
              pred0: PredMap, ghost depth0: map<Coord, nat>, store0: map<Coord, NodeVal>, frontier0: seq<Coord>,
              ghost polled: set<Coord>, current: Coord, succ: seq<NodeVal>)
    returns (pred: PredMap, ghost depth: map<Coord, nat>, store: map<Coord, NodeVal>, frontier: seq<Coord>)
    requires forall q :: (current, q) in r <==> q in Ats(succ)
    requires forall q :: (current, q) in r ==> q in u
    requires forall n :: n in succ ==> n.path == StepCost(current, n.at)
    requires ScanState(r, u, initial, goal, h, pred0, depth0, store0, frontier0, polled, current)
    ensures SearchState(r, u, initial, goal, h, pred, depth, store, frontier, polled)
    ensures forall q :: q in pred0 ==> q in pred && pred[q] == pred0[q] && store[q] == store0[q]
    ensures forall q :: q in pred && q !in pred0 ==> pred[q] == Some(current) && q in frontier
  {
    pred, depth, store, frontier := pred0, depth0, store0, frontier0;
    ghost var ats := Ats(succ);
    for k := 0 to |succ|
      invariant ScanState(r, u, initial, goal, h, pred, depth, store, frontier, polled, current)
      invariant forall i :: 0 <= i < k ==> ats[i] in pred
      invariant forall q :: q in pred0 ==> q in pred && pred[q] == pred0[q] && store[q] == store0[q]
      invariant forall q :: q in pred && q !in pred0 ==> pred[q] == Some(current) && q in frontier
    {
      var successor := succ[k];
      ghost var before := pred;
      var known := HasKey(pred, successor.at);
      if !known {
        assert successor.at == ats[k] && (current, successor.at) in r && successor in succ;
        var node := successor.(cost := h(successor.at, goal));
        AdmitNode(r, u, initial, goal, h, pred, depth, store, frontier, polled, current, node);
        pred := pred[node.at := Some(current)];
        store := store[node.at := node];
        depth := depth[node.at := depth[current] + 1];
        frontier := frontier + [node.at];
      }
      KnownGrows(ats, k, before, pred);
    }
    CloseCurrent(r, polled, current, ats, pred);
  }

  /** Admitting the node for a new successor keeps the tree, the partition,
      the closure of the other polled points and the node store. */
  lemma AdmitNode(r: Rel, u: set<Coord>, initial: Coord, goal: Coord, h: (Coord, Coord) -> real,
                  pred: PredMap, depth: map<Coord, nat>, store: map<Coord, NodeVal>, frontier: seq<Coord>,
                  polled: set<Coord>, current: Coord, node: NodeVal)
    requires ScanState(r, u, initial, goal, h, pred, depth, store, frontier, polled, current)
    requires node.at !in pred && (current, node.at) in r && node.at in u
    requires node.cost == h(node.at, goal) && node.path == StepCost(current, node.at)
    ensures ScanState(r, u, initial, goal, h, pred[node.at := Some(current)], depth[node.at := depth[current] + 1],
                      store[node.at := node], frontier + [node.at], polled, current)
  {
    Admit(r, u, initial, pred, depth, frontier, polled, current, node.at);
  }
}
