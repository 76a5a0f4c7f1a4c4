/** The newer package's JumpPointSearch: a best-first search whose steps are
    jumps, and fill, which expands the chain of jump points it finds into
    the cells in between. */
module JumpPoint {
  import opened Common
  import opened Worlds
  import opened Preds
  import opened Nodes
  import opened Terrains
  import opened Base8
  import opened Trees
  import opened AStar
  import opened JumpProbe

  /** The direction fill walks from a towards b: the sign of each
      coordinate's displacement. */
  function Dir(a: Coord, b: Coord): Coord
  {
    Coord(Sign(b.x - a.x), Sign(b.y - a.y))
  }

  /** The larger of the two coordinate distances from a to b. */
  function Span(a: Coord, b: Coord): nat
  {
    if Abs(b.x - a.x) < Abs(b.y - a.y) then Abs(b.y - a.y) else Abs(b.x - a.x)
  }

  /** b lies on a straight or 45-degree line through a. */
  predicate Aligned(a: Coord, b: Coord)
  {
    a.x == b.x || a.y == b.y || Abs(b.x - a.x) == Abs(b.y - a.y)
  }

  predicate AllAligned(path: seq<Coord>)
  {
    forall i :: 0 <= i < |path| - 1 ==> Aligned(path[i], path[i + 1])
  }

  /** The two points differ by at most one in each coordinate. */
  predicate Near(a: Coord, b: Coord)
  {
    Abs(b.x - a.x) <= 1 && Abs(b.y - a.y) <= 1
  }

  /** Consecutive points of s are near each other. */
  predicate Chained(s: seq<Coord>)
  {
    forall i :: 0 <= i < |s| - 1 ==> Near(s[i], s[i + 1])
  }

  /** The cells fill adds for the pair (a, b): a alone when they coincide,
      otherwise a and the points after it in direction Dir(a, b), up to and
      excluding b. */
  function Segment(a: Coord, b: Coord): (s: seq<Coord>)
    ensures s != [] && s[0] == a
  {
    if a == b then [a]
    else
      var d, n := Dir(a, b), Span(a, b);
      assert n > 0;
      seq(n, j requires 0 <= j < n => Step(a, d, j))
  }

  /** The cells fill has added once it has handled the first n - 1 pairs. */
  function FillPrefix(path: seq<Coord>, n: nat): seq<Coord>
    requires 1 <= n <= |path|
  {
    if n == 1 then [] else FillPrefix(path, n - 1) + Segment(path[n - 2], path[n - 1])
  }

  /** What fill(path) returns: every pair's segment, then the last point. */
  function FillCells(path: seq<Coord>): seq<Coord>
    requires path != []
  {
    FillPrefix(path, |path|) + [path[|path| - 1]]
  }

  /** Walking from a in direction Dir(a, b) reaches b after Span(a, b) steps
      when the two are aligned, and no sooner. */
  lemma AlignedReaches(a: Coord, b: Coord, j: nat)
    requires Aligned(a, b) && a != b
    ensures Step(a, Dir(a, b), Span(a, b)) == b
    ensures Step(a, Dir(a, b), j) == b ==> j == Span(a, b)
  {
    var d, n := Dir(a, b), Span(a, b);
    StepIs(a, d, n);
    StepIs(a, d, j);
    var ax, ay := Abs(b.x - a.x), Abs(b.y - a.y);
    assert n * d.x == b.x - a.x by {
      if b.x != a.x {
        assert ax == n;
      }
    }
    assert n * d.y == b.y - a.y by {
      if b.y != a.y {
        assert ay == n;
      }
    }
    if Step(a, d, j) == b {
      if ax == n {
        assert j * d.x == b.x - a.x;
      } else {
        assert j * d.y == b.y - a.y;
      }
    }
  }

  /** Off a straight or 45-degree line, fill's walk from a never meets b:
      the do-while loop of fill runs forever. */
  lemma NeverMeets(a: Coord, b: Coord, j: nat)
    requires !Aligned(a, b)
    ensures Step(a, Dir(a, b), j) != b
  {
    var d := Dir(a, b);
    StepIs(a, d, j);
    assert a.x + j * d.x == b.x ==> j == Abs(b.x - a.x);
    assert a.y + j * d.y == b.y ==> j == Abs(b.y - a.y);
  }

  /** One pair of fill's for loop: a when the two points coincide, otherwise
      the do-while walk from a in the normalised direction until b. */
  method FillPair(a: Coord, b: Coord) returns (cells: seq<Coord>)
    requires Aligned(a, b)
    ensures cells == Segment(a, b)
  {
    var dx, dy := b.x - a.x, b.y - a.y;
    if Abs(dx) < 1 && Abs(dy) < 1 {
      cells := [a];
    } else {
      dx := JavaDiv(b.x - a.x, Max(Abs(b.x - a.x), 1));
      dy := JavaDiv(b.y - a.y, Max(Abs(b.y - a.y), 1));
      NormaliseIsSign(b.x - a.x);
      NormaliseIsSign(b.y - a.y);
      ghost var d, n := Dir(a, b), Span(a, b);
      assert Coord(dx, dy) == d;
      var p := a;
      cells := [p];
      p := Coord(p.x + dx, p.y + dy);
      ghost var j: nat := 1;
      AlignedReaches(a, b, 0);
      assert n > 0;
      while p != b
        invariant 1 <= j <= n && p == Step(a, d, j)
        invariant cells == Segment(a, b)[..j]
        decreases n - j
      {
        AlignedReaches(a, b, j);
        StepNext(a, d, j);
        assert Segment(a, b)[..j + 1] == Segment(a, b)[..j] + [p];
        cells := cells + [p];
        p := Coord(p.x + dx, p.y + dy);
        j := j + 1;
      }
      AlignedReaches(a, b, j);
    }
  }

  /** fill(path): the segments of the pairs in order, then the last point;
      None is the IndexOutOfBoundsException that path.get(-1) throws on an
      empty path. */
  method Fill(path: seq<Coord>) returns (r: Option<seq<Coord>>)
    requires AllAligned(path)
    ensures r.None? <==> path == []
    ensures r.Some? ==> r.value == FillCells(path)
  {
    var nodes: seq<Coord> := [];
    var i := 1;
    while i < |path|
      invariant 1 <= i
      invariant path != [] ==> i <= |path| && nodes == FillPrefix(path, i)
      invariant path == [] ==> nodes == []
    {
      var cells := FillPair(path[i - 1], path[i]);
      nodes := nodes + cells;
      i := i + 1;
    }
    if path == [] {
      return None;
    }
    nodes := nodes + [path[|path| - 1]];
    r := Some(nodes);
  }

  /** A segment followed by its end point steps by at most one per
      coordinate. */
  lemma SegmentChained(a: Coord, b: Coord)
    requires Aligned(a, b)
    ensures Chained(Segment(a, b) + [b])
  {
    if a != b {
      var d, n := Dir(a, b), Span(a, b);
      var s := Segment(a, b) + [b];
      AlignedReaches(a, b, 0);
      forall i | 0 <= i < |s| - 1
        ensures Near(s[i], s[i + 1])
      {
        StepNext(a, d, i);
        assert s[i] == Step(a, d, i) && s[i + 1] == Step(a, d, i + 1);
      }
    }
  }

  /** Two chained sequences that meet at a point make a chained sequence. */
  lemma ChainJoin(x: seq<Coord>, a: Coord, y: seq<Coord>)
    requires Chained(x + [a]) && Chained([a] + y)
    ensures Chained(x + [a] + y)
  {
    var s := x + [a] + y;
    forall i | 0 <= i < |s| - 1
      ensures Near(s[i], s[i + 1])
    {
      if i < |x| {
        assert s[i] == (x + [a])[i] && s[i + 1] == (x + [a])[i + 1];
      } else {
        assert s[i] == ([a] + y)[i - |x|] && s[i + 1] == ([a] + y)[i - |x| + 1];
      }
    }
  }

  /** The cells of the first n - 1 pairs, followed by the n-th point, start
      at the first point, step by at most one per coordinate, and contain
      every point before the n-th. */
  lemma {:induction false} PrefixChained(path: seq<Coord>, n: nat)
    requires AllAligned(path) && 1 <= n <= |path|
    ensures Chained(FillPrefix(path, n) + [path[n - 1]])
    ensures (FillPrefix(path, n) + [path[n - 1]])[0] == path[0]
    ensures forall i :: 0 <= i < n - 1 ==> path[i] in FillPrefix(path, n)
  {
    if n > 1 {
      PrefixChained(path, n - 1);
      var x, a, b := FillPrefix(path, n - 1), path[n - 2], path[n - 1];
      var seg := Segment(a, b);
      SegmentChained(a, b);
      assert seg + [b] == [a] + (seg[1..] + [b]);
      ChainJoin(x, a, seg[1..] + [b]);
      assert FillPrefix(path, n) + [b] == x + [a] + (seg[1..] + [b]);
      assert a in FillPrefix(path, n);
    }
  }

  /** What fill returns for a chain of aligned points starts at the first
      point, ends at the last, steps by at most one per coordinate, and
      passes through every point of the chain. */
  lemma FillShape(path: seq<Coord>)
    requires path != [] && AllAligned(path)
    ensures FillCells(path)[0] == path[0]
    ensures FillCells(path)[|FillCells(path)| - 1] == path[|path| - 1]
    ensures Chained(FillCells(path))
    ensures forall i :: 0 <= i < |path| ==> path[i] in FillCells(path)
  {
    PrefixChained(path, |path|);
  }

  /** The jumps getSuccessors can make: (p, q) with q a jump point of p. */
  ghost function Leaps(t: Terrain): Rel
    requires t.Ok()
  {
    iset e: (Coord, Coord) | Leap(t, e.0, e.1)
  }

  /** A jump runs along a straight or 45-degree line to a different point,
      and every cell after its start up to and including its end is a
      valid position. */
  lemma LeapSegment(t: Terrain, p: Coord, q: Coord)
    requires t.Ok() && Leap(t, p, q)
    ensures Aligned(p, q) && p != q && t.Valid(q)
    ensures forall j: nat :: 1 <= j <= Span(p, q) ==> t.Valid(Step(p, Dir(p, q), j))
  {
    var d: Coord, k: nat :| Unit(d) && (p, Plus(p, d)) in Moves(t) && q == Step(Plus(p, d), d, k)
                           && Clear(t, Plus(p, d), d, k);
    RayShape(p, d, k);
    forall j: nat | 1 <= j <= Span(p, q)
      ensures t.Valid(Step(p, Dir(p, q), j))
    {
      assert Step(p, d, j) == Step(Plus(p, d), d, j - 1);
    }
  }

  /** The end of a ray of k steps after p's neighbour in unit direction d
      lies k + 1 steps from p in direction d. */
  lemma RayShape(p: Coord, d: Coord, k: nat)
    requires Unit(d)
    ensures var q := Step(Plus(p, d), d, k); Dir(p, q) == d && Span(p, q) == k + 1 && Aligned(p, q) && p != q
  {
    var q := Step(Plus(p, d), d, k);
    StepIs(Plus(p, d), d, k);
    assert q.x - p.x == (k + 1) * d.x && q.y - p.y == (k + 1) * d.y;
    ScaledUnit(k + 1, d.x);
    ScaledUnit(k + 1, d.y);
  }

  /** n > 0 copies of a unit coordinate c have c's sign, and n as size
      unless c is 0. */
  lemma ScaledUnit(n: nat, c: int)
    requires n > 0 && -1 <= c <= 1
    ensures Sign(n * c) == c && Abs(n * c) == (if c == 0 then 0 else n)
  {
    assert c == -1 ==> n * c == 0 - n;
    assert c == 1 ==> n * c == n;
  }

  /** The points of a walk of jumps are pairwise aligned. */
  lemma LeapsAligned(t: Terrain, path: seq<Coord>)
    requires t.Ok() && IsWalk(Leaps(t), path)
    ensures AllAligned(path)
  {
    forall i | 0 <= i < |path| - 1
      ensures Aligned(path[i], path[i + 1])
    {
      assert (path[i], path[i + 1]) in Leaps(t);
      LeapSegment(t, path[i], path[i + 1]);
    }
  }

  /** Every cell fill adds for a walk of jumps, except the first, is a
      valid position; so is the walk's n-th point when n > 1. */
  lemma {:induction false} PrefixValid(t: Terrain, path: seq<Coord>, n: nat)
    requires t.Ok() && IsWalk(Leaps(t), path) && 1 <= n <= |path|
    ensures AllAligned(path)
    ensures forall i :: 1 <= i < |FillPrefix(path, n)| ==> t.Valid(FillPrefix(path, n)[i])
    ensures n > 1 ==> t.Valid(path[n - 1])
  {
    LeapsAligned(t, path);
    if n > 1 {
      PrefixValid(t, path, n - 1);
      var x, a, b := FillPrefix(path, n - 1), path[n - 2], path[n - 1];
      assert (a, b) in Leaps(t);
      LeapSegment(t, a, b);
      var seg := Segment(a, b);
      forall i | 1 <= i < |x + seg|
        ensures t.Valid((x + seg)[i])
      {
        if i >= |x| {
          var j := i - |x|;
          if j == 0 {
            assert n - 1 > 1;
            assert (x + seg)[i] == a;
          } else {
            assert seg[j] == Step(a, Dir(a, b), j);
          }
        } else {
          assert (x + seg)[i] == x[i];
        }
      }
    }
  }

  /** fill over a walk of jumps from initial to goal yields cells from
      initial to goal, each within one step of the next, all valid after
      the first. */
  lemma FillOfLeaps(t: Terrain, path: seq<Coord>)
    requires t.Ok() && IsWalk(Leaps(t), path) && path != []
    ensures AllAligned(path)
    ensures FillCells(path)[0] == path[0]
    ensures FillCells(path)[|FillCells(path)| - 1] == path[|path| - 1]
    ensures Chained(FillCells(path))
    ensures forall i :: 1 <= i < |FillCells(path)| ==> t.Valid(FillCells(path)[i])
  {
    PrefixValid(t, path, |path|);
    FillShape(path);
    var x := FillPrefix(path, |path|);
    assert FillCells(path) == x + [path[|path| - 1]];
    if |path| == 1 {
      assert x == [];
    }
  }

  /** The summed jump costs along a walk of jump points. */
  function JumpWalkCost(walk: seq<Coord>): real
  {
    if |walk| <= 1 then 0.0 else JumpWalkCost(walk[..|walk| - 1]) + JumpCost(walk[|walk| - 2], walk[|walk| - 1])
  }

  /** The node objects: one per recorded point; the start's has the
      heuristic as cost and path cost 0, every other one the heuristic as
      cost and the cost of the jump from its predecessor as path cost. */
  ghost predicate JumpStored(initial: Coord, goal: Coord, h: (Coord, Coord) -> real, pred: PredMap,
                             store: map<Coord, NodeVal>)
  {
    && store.Keys == pred.Keys
    && initial in store && store[initial] == NodeVal(initial, h(initial, goal), 0.0)
    && (forall q :: q in store ==> store[q].at == q && store[q].cost == h(q, goal))
    && (forall q :: q in pred && q != initial && pred[q].Some? ==> store[q].path == JumpCost(pred[q].value, q))
  }

  /** The comparator's value for a queued point is the heuristic at it plus
      the summed jump costs from initial to it along the tree. */
  lemma {:induction false} KeyIsJumpEstimate(r: Rel, u: set<Coord>, initial: Coord, goal: Coord,
                                             h: (Coord, Coord) -> real, pred: PredMap, depth: map<Coord, nat>,
                                             store: map<Coord, NodeVal>, q: Coord)
    requires Tree(r, u, initial, pred, depth) && JumpStored(initial, goal, h, pred, store) && q in pred
    ensures Chain(pred, depth, q)[0] == initial
    ensures PathSum(store, Chain(pred, depth, q)) == JumpWalkCost(Chain(pred, depth, q))
    ensures Key(pred, depth, store, q) == h(q, goal) + JumpWalkCost(Chain(pred, depth, q))
    decreases depth[q]
  {
    var c := Chain(pred, depth, q);
    match pred[q]
    case None =>
      assert q == initial;
    case Some(p) =>
      KeyIsJumpEstimate(r, u, initial, goal, h, pred, depth, store, p);
      var c' := Chain(pred, depth, p);
      assert c == c' + [q] && c[..|c| - 1] == c';
      assert c[|c| - 2] == p;
  }

  /** The state of the search loop between polls: a tree of jumps rooted
      at initial, each recorded point polled or queued, the node store. */
  ghost predicate JumpState(r: Rel, u: set<Coord>, initial: Coord, goal: Coord, h: (Coord, Coord) -> real,
                            pred: PredMap, depth: map<Coord, nat>, store: map<Coord, NodeVal>,
                            frontier: seq<Coord>, polled: set<Coord>)
  {
    && Tree(r, u, initial, pred, depth) && Partition(pred, frontier, polled)
    && JumpStored(initial, goal, h, pred, store) && goal !in polled && polled <= u
  }

  /** search(initial, goal) with heuristic h. A path it returns is fill
      applied to a chain of jumps from initial to goal: it starts at
      initial, ends at goal, moves by at most one cell per coordinate at a
      time, and passes only over valid positions after the start. Every
      poll takes a different point, so the cost never exceeds the number of
      points that can be recorded. */
  method Search(t: Terrain, h: (Coord, Coord) -> real, initial: Coord, goal: Coord) returns (r: SearchResult)
    requires t.Ok()
    ensures r.path != [] ==> Reaches(Leaps(t), initial, goal)
    ensures r.path != [] ==> r.path[0] == initial && r.path[|r.path| - 1] == goal && Chained(r.path)
    ensures forall i :: 1 <= i < |r.path| ==> t.Valid(r.path[i])
    ensures initial == goal ==> r == SearchResult([initial], 1)
    ensures 1 <= r.cost <= |Universe(t, initial)|
  {
    ghost var rel, u := Leaps(t), Universe(t, initial);
    var init := NodeVal(initial, h(initial, goal), 0.0);
    var pred: PredMap := map[initial := None];
    var store := map[initial := init];
    ghost var depth: map<Coord, nat> := map[initial := 0];
    var frontier := [initial];
    ghost var polled: set<Coord> := {};
    var cost := 0;
    while frontier != []
      invariant JumpState(rel, u, initial, goal, h, pred, depth, store, frontier, polled)
      invariant cost == |polled|
      invariant cost == 0 ==> frontier == [initial]
      invariant cost > 0 ==> initial in polled
      decreases |u| - cost
    {
      cost := cost + 1;
      var m := PollMin(pred, depth, store, frontier);
      var current := frontier[m];
      assert current in frontier && current in pred;
      if current == goal {
        var path := Answer(t, u, initial, goal, pred, depth);
        assert |polled + {current}| == cost;
        SubsetCard(polled + {current}, u);
        return SearchResult(path, cost);
      }
      pred, depth, store, frontier, polled := Advance(t, h, initial, goal, pred, depth, store, frontier, polled, m);
      SubsetCard(polled, u);
    }
    SubsetCard(polled, u);
    r := SearchResult([], cost);
  }

  /** fill(backtrace(pred, goal)): the tree's chain of jumps from initial to
      goal, filled in. */
  method Answer(t: Terrain, ghost u: set<Coord>, initial: Coord, goal: Coord, pred: PredMap,
                ghost depth: map<Coord, nat>) returns (path: seq<Coord>)
    requires t.Ok() && Tree(Leaps(t), u, initial, pred, depth) && goal in pred
    ensures Reaches(Leaps(t), initial, goal)
    ensures path != [] && path[0] == initial && path[|path| - 1] == goal && Chained(path)
    ensures forall i :: 1 <= i < |path| ==> t.Valid(path[i])
    ensures goal == initial ==> path == [initial]
  {
    var chain := Trace(Leaps(t), u, initial, pred, depth, goal);
    FillOfLeaps(t, chain);
    var cells := Fill(chain);
    path := cells.value;
    if goal == initial {
      assert chain == [initial];
      assert FillPrefix(chain, 1) == [];
    }
  }

  /** The rest of an iteration that polled the m-th queued point, not the
      goal: it is moved to the polled set and expanded. */
  method Advance(t: Terrain, h: (Coord, Coord) -> real, initial: Coord, goal: Coord, pred0: PredMap,
                 ghost depth0: map<Coord, nat>, store0: map<Coord, NodeVal>, frontier0: seq<Coord>,
                 ghost polled0: set<Coord>, m: nat)
    returns (pred: PredMap, ghost depth: map<Coord, nat>, store: map<Coord, NodeVal>, frontier: seq<Coord>,
             ghost polled: set<Coord>)
    requires t.Ok() && m < |frontier0| && frontier0[m] != goal
    requires JumpState(Leaps(t), Universe(t, initial), initial, goal, h, pred0, depth0, store0, frontier0, polled0)
    ensures JumpState(Leaps(t), Universe(t, initial), initial, goal, h, pred, depth, store, frontier, polled)
    ensures frontier0[m] !in polled0 && polled == polled0 + {frontier0[m]}
  {
    var current := frontier0[m];
    PollPartition(pred0, frontier0, polled0, m);
    var rest := frontier0[..m] + frontier0[m + 1..];
    polled := polled0 + {current};
    pred, depth, store, frontier := JumpExpand(t, h, initial, goal, pred0, depth0, store0, rest, polled, current);
  }

  /** getSuccessors(current, pred.get(current), pred, goal) followed by the
      loop over the nodes it returns. */
  method JumpExpand(t: Terrain, h: (Coord, Coord) -> real, initial: Coord, goal: Coord, pred0: PredMap,
                    ghost depth0: map<Coord, nat>, store0: map<Coord, NodeVal>, frontier0: seq<Coord>,
                    ghost polled: set<Coord>, current: Coord)
    returns (pred: PredMap, ghost depth: map<Coord, nat>, store: map<Coord, NodeVal>, frontier: seq<Coord>)
    requires t.Ok() && current in polled
    requires JumpState(Leaps(t), Universe(t, initial), initial, goal, h, pred0, depth0, store0, frontier0, polled)
    ensures JumpState(Leaps(t), Universe(t, initial), initial, goal, h, pred, depth, store, frontier, polled)
    ensures forall q :: q in pred0 ==> q in pred && pred[q] == pred0[q] && store[q] == store0[q]
    ensures forall q :: q in pred && q !in pred0 ==> pred[q] == Some(current) && q in frontier
  {
    var px := pred0[current];
    assert px != Some(current) by {
      if px.Some? {
        assert depth0[current] == depth0[px.value] + 1;
      }
    }
    var succ := GetJumpSuccessors(t, current, px, goal);
    JumpNodesAreLeaps(t, current, Pruned(t, current, Probes(t, current, px)), goal);
    forall n | n in succ
      ensures (current, n.at) in Leaps(t) && n.at in Universe(t, initial)
    {
      LeapSegment(t, current, n.at);
      ValidIsCell(t, n.at);
    }
    pred, depth, store, frontier := JumpScan(Leaps(t), Universe(t, initial), h, initial, goal, pred0, depth0, store0,
                                             frontier0, polled, current, succ);
  }

  /** The loop over the jump successors of current: one that hasKey does
      not find gets the heuristic as its cost and current as its
      predecessor, and joins the queue. */
  method JumpScan(ghost r: Rel, ghost u: set<Coord>, h: (Coord, Coord) -> real, initial: Coord, goal: Coord,
                  pred0: PredMap, ghost depth0: map<Coord, nat>, store0: map<Coord, NodeVal>, frontier0: seq<Coord>,
                  ghost polled: set<Coord>, current: Coord, succ: seq<NodeVal>)
    returns (pred: PredMap, ghost depth: map<Coord, nat>, store: map<Coord, NodeVal>, frontier: seq<Coord>)
    requires forall n :: n in succ ==> (current, n.at) in r && n.at in u && n.path == JumpCost(current, n.at)
    requires current in polled
    requires JumpState(r, u, initial, goal, h, pred0, depth0, store0, frontier0, polled)
    ensures JumpState(r, u, initial, goal, h, pred, depth, store, frontier, polled)
    ensures forall q :: q in pred0 ==> q in pred && pred[q] == pred0[q] && store[q] == store0[q]
    ensures forall q :: q in pred && q !in pred0 ==> pred[q] == Some(current) && q in frontier
  {
    pred, depth, store, frontier := pred0, depth0, store0, frontier0;
    for k := 0 to |succ|
      invariant JumpState(r, u, initial, goal, h, pred, depth, store, frontier, polled)
      invariant forall q :: q in pred0 ==> q in pred && pred[q] == pred0[q] && store[q] == store0[q]
      invariant forall q :: q in pred && q !in pred0 ==> pred[q] == Some(current) && q in frontier
    {
      var successor := succ[k];
      var known := HasKey(pred, successor.at);
      if !known {
        assert successor in succ;
        var node := successor.(cost := h(successor.at, goal));
        AdmitJump(r, u, initial, goal, h, pred, depth, store, frontier, polled, current, node);
        pred := pred[node.at := Some(current)];
        store := store[node.at := node];
        depth := depth[node.at := depth[current] + 1];
        frontier := frontier + [node.at];
      }
    }
  }

  /** Admitting the node for a new jump successor keeps the tree, the
      partition and the node store. */
  lemma AdmitJump(r: Rel, u: set<Coord>, initial: Coord, goal: Coord, h: (Coord, Coord) -> real,
                  pred: PredMap, depth: map<Coord, nat>, store: map<Coord, NodeVal>, frontier: seq<Coord>,
                  polled: set<Coord>, current: Coord, node: NodeVal)
    requires JumpState(r, u, initial, goal, h, pred, depth, store, frontier, polled) && current in polled
    requires node.at !in pred && (current, node.at) in r && node.at in u
    requires node.cost == h(node.at, goal) && node.path == JumpCost(current, node.at)
    ensures JumpState(r, u, initial, goal, h, pred[node.at := Some(current)], depth[node.at := depth[current] + 1],
                      store[node.at := node], frontier + [node.at], polled)
  {
    Grow(r, u, initial, pred, depth, frontier, polled, current, node.at);
  }
}
