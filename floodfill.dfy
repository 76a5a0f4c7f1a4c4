/** The newer package's FloodFillSearch: a descent of the cost field
    getCostOfSquare. Each iteration polls the only queued node, stops if it
    is the goal, and otherwise queues the successor of least field cost,
    breaking ties by the path costs summed along its backtrace, after
    (re)setting that successor's predecessor to the polled node. The
    predecessor map holds the polled Node objects as values, so its values
    are NodeVals; an overwritten entry can close a cycle, and a backtrace
    that enters one walks it forever. */
module FloodFill {
  import opened Common
  import opened Nodes
  import opened Terrains
  import opened Base8
  import opened Trees

  /** pred: for each recorded point, the node recorded as its predecessor
      (None is Java's null). */
  type FPred = map<Coord, Option<NodeVal>>

  /** pred.get(k) followed to its coordinates: where a backtrace goes next
      from k, if anywhere. */
  function Hop(pred: FPred, k: Coord): Option<Coord>
  {
    if k in pred && pred[k].Some? then Some(pred[k].value.at) else None
  }

  /** The point a backtrace from c reaches after i hops, if it gets that
      far. */
  function Nth(pred: FPred, c: Coord, i: nat): Option<Coord>
  {
    if i == 0 then Some(c)
    else match Nth(pred, c, i - 1)
      case None => None
      case Some(k) => Hop(pred, k)
  }

  /** The backtrace from c goes on after its i-th hop. */
  predicate Live(pred: FPred, c: Coord, i: nat)
  {
    Nth(pred, c, i).Some? && Hop(pred, Nth(pred, c, i).value).Some?
  }

  /** The predecessor nodes a backtrace from c collects, the earliest
      ancestor first; None when it takes more than fuel hops. */
  function Ups(pred: FPred, c: Coord, fuel: nat): Option<seq<NodeVal>>
    decreases fuel
  {
    match Hop(pred, c)
    case None => Some([])
    case Some(c') =>
      if fuel == 0 then None
      else Extend(Ups(pred, c', fuel - 1), [pred[c].value])
  }

  function Extend(r: Option<seq<NodeVal>>, tail: seq<NodeVal>): Option<seq<NodeVal>>
  {
    match r
    case None => None
    case Some(s) => Some(s + tail)
  }

  lemma ExtendTwice(r: Option<seq<NodeVal>>, a: seq<NodeVal>, b: seq<NodeVal>)
    ensures Extend(Extend(r, a), b) == Extend(r, a + b)
  {
    if r.Some? {
      assert r.value + a + b == r.value + (a + b);
    }
  }

  /** backtrace(pred, o): o's ancestors and then o itself, or None when
      the walk enters a cycle of pred (then it never ends: CycleNeverEnds). */
  function Trace(pred: FPred, o: NodeVal): Option<seq<NodeVal>>
  {
    Extend(Ups(pred, o.at, |pred|), [o])
  }

  /** Hopping once from c and then i times is hopping i + 1 times from c. */
  lemma {:induction false} NthShift(pred: FPred, c: Coord, i: nat)
    requires Hop(pred, c).Some?
    ensures Nth(pred, c, i + 1) == Nth(pred, Hop(pred, c).value, i)
  {
    if i > 0 {
      NthShift(pred, c, i - 1);
    }
  }

  /** A backtrace runs out of fuel exactly when it goes on after each of
      its first fuel + 1 points. */
  lemma {:induction false} UpsNoneIffLive(pred: FPred, c: Coord, fuel: nat)
    ensures Ups(pred, c, fuel).None? <==> forall i :: 0 <= i <= fuel ==> Live(pred, c, i)
    decreases fuel
  {
    match Hop(pred, c)
    case None =>
      assert !Live(pred, c, 0);
    case Some(c') =>
      if fuel > 0 {
        UpsNoneIffLive(pred, c', fuel - 1);
        forall i | 1 <= i <= fuel
          ensures Live(pred, c, i) <==> Live(pred, c', i - 1)
        {
          NthShift(pred, c, i - 1);
        }
        if forall i :: 0 <= i <= fuel - 1 ==> Live(pred, c', i) {
          forall i | 0 <= i <= fuel
            ensures Live(pred, c, i)
          {
            if i > 0 {
              assert Live(pred, c', i - 1);
            }
          }
        }
        if forall i :: 0 <= i <= fuel ==> Live(pred, c, i) {
          forall i | 0 <= i <= fuel - 1
            ensures Live(pred, c', i)
          {
            assert Live(pred, c, i + 1);
          }
        }
      }
  }

  /** Points that meet stay together: the walks from equal points agree. */
  lemma {:induction false} NthPeriodic(pred: FPred, c: Coord, i: nat, j: nat, n: nat)
    requires Nth(pred, c, i) == Nth(pred, c, j)
    ensures Nth(pred, c, i + n) == Nth(pred, c, j + n)
  {
    if n > 0 {
      NthPeriodic(pred, c, i, j, n - 1);
    }
  }

  /** A backtrace that meets a point it has met before, and goes on after
      every point up to then, goes on forever. */
  lemma {:induction false} LiveForever(pred: FPred, c: Coord, i: nat, j: nat, m: nat)
    requires i < j && Nth(pred, c, i) == Nth(pred, c, j)
    requires forall k :: 0 <= k <= j ==> Live(pred, c, k)
    ensures Live(pred, c, m)
    decreases m
  {
    if m > j {
      LiveForever(pred, c, i, j, m - (j - i));
      NthPeriodic(pred, c, i, j, m - j);
      assert i + (m - j) == m - (j - i);
    }
  }

  /** A backtrace that takes more than |pred| hops repeats a point, and so
      never reaches null: Java's loop in backtrace runs forever. */
  lemma CycleNeverEnds(pred: FPred, c: Coord, fuel: nat)
    requires Ups(pred, c, |pred|).None?
    ensures Ups(pred, c, fuel).None?
  {
    UpsNoneIffLive(pred, c, |pred|);
    var n := |pred|;
    assert forall i :: 0 <= i <= n ==> Live(pred, c, i);
    var keys := seq(n + 1, i requires 0 <= i <= n => match Nth(pred, c, i) case Some(k) => k case None => c);
    forall i | 0 <= i <= n
      ensures keys[i] in pred.Keys && Nth(pred, c, i) == Some(keys[i])
    {
      assert Live(pred, c, i);
    }
    if Distinct(keys) {
      DistinctCard(keys, pred.Keys);
      assert false;
    }
    var i, j :| 0 <= i < j < |keys| && keys[i] == keys[j];
    assert Nth(pred, c, i) == Some(keys[i]) == Nth(pred, c, j);
    forall k | 0 <= k <= fuel
      ensures Live(pred, c, k)
    {
      LiveForever(pred, c, i, j, k);
    }
    UpsNoneIffLive(pred, c, fuel);
  }

  /** backtrace(pred, o): o, then pred.get of the last node reached, until
      null. The walk is cut off after |pred| hops, by which point it has
      entered a cycle that it would walk forever. */
  method Backtrace(pred: FPred, o: NodeVal) returns (r: Option<seq<NodeVal>>)
    ensures r == Trace(pred, o)
  {
    var cur := o.at;
    var acc: seq<NodeVal> := [o];
    var steps := 0;
    while cur in pred && pred[cur].Some?
      invariant steps <= |pred|
      invariant Trace(pred, o) == Extend(Ups(pred, cur, |pred| - steps), acc)
      decreases |pred| - steps
    {
      if steps == |pred| {
        return None;
      }
      var v := pred[cur].value;
      assert Ups(pred, cur, |pred| - steps) == Extend(Ups(pred, v.at, |pred| - steps - 1), [v]);
      ExtendTwice(Ups(pred, v.at, |pred| - steps - 1), [v], acc);
      cur, acc, steps := v.at, [v] + acc, steps + 1;
    }
    assert Ups(pred, cur, |pred| - steps) == Some([]);
    assert [] + acc == acc;
    r := Some(acc);
  }

  /** The summed path costs of a list of nodes. */
  function PathTotal(ns: seq<NodeVal>): real
  {
    if ns == [] then 0.0 else PathTotal(ns[..|ns| - 1]) + ns[|ns| - 1].path
  }

  /** The tie-break value of the successor comparator for o: its cost plus
      the path costs of its backtrace; None when the backtrace never ends. */
  function Accumulated(pred: FPred, o: NodeVal): Option<real>
  {
    match Trace(pred, o)
    case None => None
    case Some(bt) => Some(o.cost + PathTotal(bt))
  }

  /** h = o.getCost(), then the path cost of each node of backtrace(pred, o)
      added in turn. */
  method Accumulate(pred: FPred, o: NodeVal) returns (h: Option<real>)
    ensures h == Accumulated(pred, o)
  {
    var bt := Backtrace(pred, o);
    if bt.None? {
      return None;
    }
    var path := bt.value;
    var sum := o.cost;
    for i := 0 to |path|
      invariant sum == o.cost + PathTotal(path[..i])
    {
      assert path[..i + 1][..i] == path[..i];
      sum := sum + path[i].path;
    }
    assert path[..|path|] == path;
    h := Some(sum);
  }

  /** The successor comparator: by field cost, and on equal field costs by
      the accumulated value; None when a backtrace it needs never ends. */
  function Order(t: Terrain, pred: FPred, o1: NodeVal, o2: NodeVal): Option<int>
  {
    var c1, c2 := t.field(o1.at), t.field(o2.at);
    if c1 < c2 then Some(-1)
    else if c1 == c2 then
      match (Accumulated(pred, o1), Accumulated(pred, o2))
      case (Some(h1), Some(h2)) => Some(if h1 < h2 then -1 else if h1 == h2 then 0 else 1)
      case _ => None
    else Some(1)
  }

  /** compare(o1, o2) of the comparator given to Collections.min. */
  method Compare(t: Terrain, pred: FPred, o1: NodeVal, o2: NodeVal) returns (r: Option<int>)
    ensures r == Order(t, pred, o1, o2)
  {
    var c1, c2 := t.field(o1.at), t.field(o2.at);
    if c1 < c2 {
      r := Some(-1);
    } else if c1 == c2 {
      var h1 := Accumulate(pred, o1);
      if h1.None? {
        return None;
      }
      var h2 := Accumulate(pred, o2);
      if h2.None? {
        return None;
      }
      r := Some(if h1.value < h2.value then -1 else if h1.value == h2.value then 0 else 1);
    } else {
      r := Some(1);
    }
  }

  /** What Collections.min gives: the node, no node (the list is empty,
      NoSuchElementException), or no answer at all (a comparison walks a
      cycle forever). */
  datatype Pick = Picked(n: NodeVal) | NoSuccessor | Cycles

  /** Collections.min's scan from position i with candidate cand: a later
      element replaces the candidate when it compares below it. */
  function MinFrom(t: Terrain, pred: FPred, succ: seq<NodeVal>, i: nat, cand: NodeVal): Option<NodeVal>
    requires i <= |succ|
    decreases |succ| - i
  {
    if i == |succ| then Some(cand)
    else match Order(t, pred, succ[i], cand)
      case None => None
      case Some(c) => MinFrom(t, pred, succ, i + 1, if c < 0 then succ[i] else cand)
  }

  /** Collections.min(succ, comparator). */
  function MinOf(t: Terrain, pred: FPred, succ: seq<NodeVal>): Pick
  {
    if succ == [] then NoSuccessor
    else match MinFrom(t, pred, succ, 1, succ[0])
      case None => Cycles
      case Some(n) => Picked(n)
  }

  /** Collections.min: the first element is the candidate, and each later
      one that compares below the candidate takes its place. */
  method MinSuccessor(t: Terrain, pred: FPred, succ: seq<NodeVal>) returns (p: Pick)
    ensures p == MinOf(t, pred, succ)
  {
    if succ == [] {
      return NoSuccessor;
    }
    var cand := succ[0];
    for i := 1 to |succ|
      invariant MinOf(t, pred, succ) == match MinFrom(t, pred, succ, i, cand) case None => Cycles case Some(n) => Picked(n)
    {
      var c := Compare(t, pred, succ[i], cand);
      if c.None? {
        return Cycles;
      }
      if c.value < 0 {
        cand := succ[i];
      }
    }
    p := Picked(cand);
  }

  /** cand is the least of the first i elements: no field cost below its
      own, and on its field cost no accumulated value below its own. */
  ghost predicate Least(t: Terrain, pred: FPred, succ: seq<NodeVal>, i: nat, cand: NodeVal)
    requires i <= |succ|
  {
    && cand in succ[..i]
    && (forall j :: 0 <= j < i ==> t.field(cand.at) <= t.field(succ[j].at))
    && (forall j :: 0 <= j < i && succ[j] != cand && t.field(succ[j].at) == t.field(cand.at) ==>
          Accumulated(pred, cand).Some? && Accumulated(pred, succ[j]).Some?
          && Accumulated(pred, cand).value <= Accumulated(pred, succ[j]).value)
  }

  /** The scan keeps its candidate least among the elements seen, and it
      fails only where some element's backtrace never ends. */
  lemma {:induction false} MinFromLeast(t: Terrain, pred: FPred, succ: seq<NodeVal>, i: nat, cand: NodeVal)
    requires 1 <= i <= |succ| && Least(t, pred, succ, i, cand)
    ensures MinFrom(t, pred, succ, i, cand).Some? ==> Least(t, pred, succ, |succ|, MinFrom(t, pred, succ, i, cand).value)
    ensures MinFrom(t, pred, succ, i, cand).None? ==> exists s :: s in succ && Accumulated(pred, s).None?
    decreases |succ| - i
  {
    if i == |succ| {
      assert succ[..i] == succ;
    } else {
      var next := succ[i];
      match Order(t, pred, next, cand)
      case None =>
        assert cand in succ && next in succ;
      case Some(c) =>
        var cand' := if c < 0 then next else cand;
        StepLeast(t, pred, succ, i, cand, c);
        MinFromLeast(t, pred, succ, i + 1, cand');
    }
  }

  /** One step of the scan keeps the candidate least. */
  lemma StepLeast(t: Terrain, pred: FPred, succ: seq<NodeVal>, i: nat, cand: NodeVal, c: int)
    requires 1 <= i < |succ| && Least(t, pred, succ, i, cand)
    requires Order(t, pred, succ[i], cand) == Some(c)
    ensures Least(t, pred, succ, i + 1, if c < 0 then succ[i] else cand)
  {
    var next := succ[i];
    assert succ[..i + 1] == succ[..i] + [next];
    var cand' := if c < 0 then next else cand;
    forall j | 0 <= j < i + 1 && succ[j] != cand' && t.field(succ[j].at) == t.field(cand'.at)
      ensures Accumulated(pred, cand').Some? && Accumulated(pred, succ[j]).Some?
      ensures Accumulated(pred, cand').value <= Accumulated(pred, succ[j]).value
    {
      if j < i && succ[j] != cand {
        assert t.field(succ[j].at) == t.field(cand.at);
      }
    }
  }

  /** Collections.min with the successor comparator picks a successor of
      least field cost and, among those of that cost, of least accumulated
      value; it throws only on an empty list, and it fails to return only
      when some successor's backtrace never ends. */
  lemma MinOfIsLeast(t: Terrain, pred: FPred, succ: seq<NodeVal>)
    ensures MinOf(t, pred, succ) == NoSuccessor <==> succ == []
    ensures MinOf(t, pred, succ).Picked? ==>
      var n := MinOf(t, pred, succ).n;
      && n in succ
      && (forall s :: s in succ ==> t.field(n.at) <= t.field(s.at))
      && (forall s :: s in succ && s != n && t.field(s.at) == t.field(n.at) ==>
            Accumulated(pred, n).Some? && Accumulated(pred, s).Some?
            && Accumulated(pred, n).value <= Accumulated(pred, s).value)
    ensures MinOf(t, pred, succ) == Cycles ==> exists s :: s in succ && Accumulated(pred, s).None?
  {
    if succ != [] {
      assert succ[..1] == [succ[0]];
      MinFromLeast(t, pred, succ, 1, succ[0]);
      assert succ[..|succ|] == succ;
      var r := MinFrom(t, pred, succ, 1, succ[0]);
      if r.Some? {
        var n := r.value;
        forall s | s in succ
          ensures t.field(n.at) <= t.field(s.at)
          ensures s != n && t.field(s.at) == t.field(n.at) ==>
            Accumulated(pred, n).Some? && Accumulated(pred, s).Some?
            && Accumulated(pred, n).value <= Accumulated(pred, s).value
        {
          var j :| 0 <= j < |succ| && succ[j] == s;
        }
      }
    }
  }

  /** The predecessor map of the search: only initial maps to null, and
      every other entry's node is a recorded point one move away. */
  ghost predicate Recorded(r: Rel, initial: Coord, pred: FPred)
  {
    && initial in pred
    && (forall k :: k in pred && pred[k].None? ==> k == initial)
    && (forall k :: k in pred && pred[k].Some? ==> pred[k].value.at in pred && (pred[k].value.at, k) in r)
  }

  lemma AtsSnoc(rest: seq<NodeVal>, v: NodeVal, c: Coord)
    ensures Ats(rest + [v]) + [c] == Ats(rest) + [v.at] + [c]
  {
  }

  /** A backtrace that ends reads, from its first point to c, a walk of
      moves from initial. */
  lemma {:induction false} UpsWalk(r: Rel, initial: Coord, pred: FPred, c: Coord, fuel: nat)
    requires Recorded(r, initial, pred) && c in pred && Ups(pred, c, fuel).Some?
    ensures var w := Ats(Ups(pred, c, fuel).value) + [c]; w[0] == initial && IsWalk(r, w)
    decreases fuel
  {
    var vs := Ups(pred, c, fuel).value;
    if pred[c].Some? {
      var v := pred[c].value;
      assert Hop(pred, c) == Some(v.at) && fuel > 0;
      assert Ups(pred, c, fuel) == Extend(Ups(pred, v.at, fuel - 1), [v]);
      assert v.at in pred && (v.at, c) in r;
      UpsWalk(r, initial, pred, v.at, fuel - 1);
      var rest := Ups(pred, v.at, fuel - 1).value;
      assert vs == rest + [v];
      AtsSnoc(rest, v, c);
      WalkSnoc(r, Ats(rest) + [v.at], c);
    } else {
      assert Hop(pred, c) == None && vs == [];
      assert Ats(vs) + [c] == [c];
    }
  }

  /** The goal branch of search: backtrace(pred, current) and the cost
      field(initial) - field(current). */
  method Finish(t: Terrain, initial: Coord, pred: FPred, current: NodeVal) returns (out: Outcome)
    requires t.Ok() && Recorded(Moves(t), initial, pred) && current.at in pred
    ensures out.Returned? || out == Diverges
    ensures out.Returned? ==>
      var p := out.result.path;
      p != [] && p[0] == initial && p[|p| - 1] == current.at && IsWalk(Moves(t), p)
      && out.result.cost == t.field(initial) - t.field(current.at)
    ensures pred == map[current.at := None] ==> out == Returned(SearchResult([current.at], t.field(initial) - t.field(current.at)))
  {
    var bt := Backtrace(pred, current);
    if bt.None? {
      return Diverges;
    }
    UpsWalk(Moves(t), initial, pred, current.at, |pred|);
    assert Ats(bt.value) == Ats(Ups(pred, current.at, |pred|).value) + [current.at];
    out := Returned(SearchResult(Ats(bt.value), t.field(initial) - t.field(current.at)));
    if pred == map[current.at := None] {
      assert Ups(pred, current.at, |pred|) == Some([]);
    }
  }

  /** The other branch: getSuccessors(current), Collections.min over them,
      and pred.put(min, current). None when the search goes on from next,
      which is the successor Collections.min picks; otherwise how the call
      ends: NoSuchElementException exactly when there is no successor. */
  method Descend(t: Terrain, initial: Coord, pred0: FPred, current: NodeVal)
    returns (out: Option<Outcome>, pred: FPred, next: NodeVal)
    requires t.Ok() && Recorded(Moves(t), initial, pred0) && current.at in pred0
    ensures out.None? ==> Recorded(Moves(t), initial, pred) && next.at in pred
    ensures out.None? ==> (current.at, next.at) in Moves(t) && pred == pred0[next.at := Some(current)]
    ensures out == Some(Threw(NoSuchElement)) || out == Some(Diverges) || out.None?
    ensures out == Some(Threw(NoSuchElement)) <==> Successors8(t, current.at) == []
    ensures out == Some(Diverges) <==> MinOf(t, pred0, Successors8(t, current.at)) == Cycles
    ensures out.None? ==> MinOf(t, pred0, Successors8(t, current.at)) == Picked(next)
  {
    pred, next := pred0, current;
    var succ := GetSuccessors(t, current.at);
    var pick := MinSuccessor(t, pred0, succ);
    MinOfIsLeast(t, pred0, succ);
    if pick.NoSuccessor? {
      return Some(Threw(NoSuchElement)), pred, next;
    }
    if pick.Cycles? {
      return Some(Diverges), pred, next;
    }
    SuccessorsAreMoves(t, current.at);
    assert pick.n.at in Ats(succ);
    next := pick.n;
    pred := pred0[next.at := Some(current)];
    out := None;
  }

  /** search(initial, goal), run for at most fuel iterations. A path it
      returns is a walk of moves from initial to goal, reported with the
      field cost of initial minus that of goal; the only exception that
      escapes is Collections.min's on an empty successor list. */
  method Search(t: Terrain, initial: Coord, goal: Coord, fuel: nat) returns (out: Outcome)
    requires t.Ok()
    ensures out.Returned? ==>
      var p := out.result.path;
      p != [] && p[0] == initial && p[|p| - 1] == goal && IsWalk(Moves(t), p)
      && out.result.cost == t.field(initial) - t.field(goal)
    ensures out.Threw? ==> out.e == NoSuchElement
    ensures initial == goal && fuel > 0 ==> out == Returned(SearchResult([initial], 0))
  {
    var init := NodeVal(initial, t.field(initial) as real, 0.0);
    var queue := [init];
    var pred: FPred := map[initial := None];
    var steps := 0;
    while queue != []
      invariant |queue| == 1 && steps <= fuel
      invariant Recorded(Moves(t), initial, pred) && queue[0].at in pred
      invariant steps == 0 ==> queue == [init] && pred == map[initial := None]
      invariant initial == goal ==> steps == 0
      decreases fuel - steps
    {
      if steps == fuel {
        return OutOfFuel;
      }
      steps := steps + 1;
      var current := queue[0];
      queue := queue[1..];
      if current.at == goal {
        out := Finish(t, initial, pred, current);
        assert initial == goal ==> out == Returned(SearchResult([initial], 0));
        return;
      }
      var stop, next;
      stop, pred, next := Descend(t, initial, pred, current);
      if stop.Some? {
        return stop.value;
      }
      queue := queue + [next];
    }
    assert false;
  }
}
