/** Predecessor maps and the backtrace that reads a path out of one, shared by
    both packages' BaseSearchAlgorithm (their backtrace bodies are the same).
    A Java HashMap<Point, Point> whose values may be null is a map to Option. */
module Preds {
  import opened Common

  type PredMap = map<Coord, Option<Coord>>

  /** `predecessors.get(p)`: null both for an absent key and a null value. */
  function Get(pred: PredMap, p: Coord): (r: Option<Coord>)
    ensures p !in pred ==> r == None
    ensures p in pred ==> r == pred[p]
  {
    if p in pred then pred[p] else None
  }

  /** A rank that strictly decreases along every predecessor link, which
      makes every chain of links finite (no cycles). */
  ghost predicate Ranked(pred: PredMap, depth: map<Coord, nat>)
  {
    forall q :: q in pred && pred[q].Some? ==>
      q in depth && pred[q].value in depth && depth[pred[q].value] < depth[q]
  }

  /** Exact depths: a key mapped to null has depth 0 and every other key is
      one deeper than its predecessor, which is itself a key. */
  ghost predicate Depths(pred: PredMap, depth: map<Coord, nat>)
  {
    forall q {:trigger pred[q]} :: q in pred ==>
      && q in depth
      && (pred[q].None? ==> depth[q] == 0)
      && (pred[q].Some? ==> pred[q].value in pred && pred[q].value in depth
                            && depth[q] == depth[pred[q].value] + 1)
  }

  /** A path read out of pred: it starts at an element without predecessor
      and each later element's predecessor is the element before it. */
  ghost predicate IsChain(pred: PredMap, path: seq<Coord>)
  {
    && |path| >= 1
    && Get(pred, path[0]).None?
    && forall i :: 1 <= i < |path| ==> Get(pred, path[i]) == Some(path[i - 1])
  }

  ghost function Height(depth: map<Coord, nat>, cur: Option<Coord>): nat
  {
    match cur
    case None => 0
    case Some(q) => if q in depth then depth[q] + 2 else 1
  }

  /** backtrace(predecessors, p): follows the links from p back to null,
      prepending each point, so the result is the chain that ends at p.
      The loop needs only that the chain from p is acyclic; the ranking it
      requires of the whole map is stronger, and every search's predecessor
      map has one (the depth at which each point was recorded). */
  method Backtrace(pred: PredMap, ghost depth: map<Coord, nat>, p: Coord) returns (path: seq<Coord>)
    requires Ranked(pred, depth)
    ensures IsChain(pred, path) && path[|path| - 1] == p
    ensures Get(pred, p).None? ==> path == [p]
  {
    path := [];
    var cur := Some(p);
    while cur.Some?
      invariant path == [] <==> cur == Some(p)
      invariant path != [] ==> path[|path| - 1] == p && Get(pred, path[0]) == cur
      invariant forall i :: 1 <= i < |path| ==> Get(pred, path[i]) == Some(path[i - 1])
      invariant Get(pred, p).None? && path != [] ==> path == [p]
      decreases Height(depth, cur)
    {
      var q := cur.value;
      path := [q] + path;
      cur := Get(pred, q);
    }
  }

  /** There is only one chain ending at a given point, so Backtrace's result
      is determined by its contract. */
  lemma {:induction false} ChainUnique(pred: PredMap, a: seq<Coord>, b: seq<Coord>)
    requires IsChain(pred, a) && IsChain(pred, b)
    requires a[|a| - 1] == b[|b| - 1]
    ensures a == b
    decreases |a|
  {
    var p := a[|a| - 1];
    LastLink(pred, a);
    LastLink(pred, b);
    if |a| > 1 {
      assert a[|a| - 2] == b[|b| - 2] by {
        assert Get(pred, p) == Some(a[|a| - 2]) && Get(pred, p) == Some(b[|b| - 2]);
      }
      var a', b' := a[..|a| - 1], b[..|b| - 1];
      assert IsChain(pred, a') && IsChain(pred, b');
      ChainUnique(pred, a', b');
      assert a == a' + [p] && b == b' + [p];
    }
  }

  /** The last element of a chain has a predecessor exactly when the chain
      is longer than that element. */
  lemma LastLink(pred: PredMap, path: seq<Coord>)
    requires IsChain(pred, path)
    ensures |path| > 1 <==> Get(pred, path[|path| - 1]).Some?
    ensures |path| > 1 ==> Get(pred, path[|path| - 1]) == Some(path[|path| - 2])
  {
    if |path| > 1 {
      assert Get(pred, path[|path| - 1]) == Some(path[|path| - 2]);
    }
  }

  /** Under exact depths the chain ending at a key p has depth(p) + 1
      elements, the i-th at depth i; in particular no point repeats. */
  lemma {:induction false} ChainDepth(pred: PredMap, depth: map<Coord, nat>, path: seq<Coord>)
    requires Depths(pred, depth) && IsChain(pred, path)
    requires path[|path| - 1] in pred
    ensures forall i :: 0 <= i < |path| ==> path[i] in pred && path[i] in depth && depth[path[i]] == i
    ensures |path| == depth[path[|path| - 1]] + 1
    ensures forall i, j :: 0 <= i < j < |path| ==> path[i] != path[j]
    decreases |path|
  {
    var n := |path|;
    var p := path[n - 1];
    if n > 1 {
      var prev := path[..n - 1];
      assert pred[p] == Some(path[n - 2]);
      assert IsChain(pred, prev);
      ChainDepth(pred, depth, prev);
      assert depth[p] == depth[prev[n - 2]] + 1;
      forall i | 0 <= i < n - 1
        ensures path[i] in pred && path[i] in depth && depth[path[i]] == i
      {
        assert path[i] == prev[i];
      }
    } else {
      assert pred[p] == None;
    }
    forall i, j | 0 <= i < j < n
      ensures path[i] != path[j]
    {
      assert depth[path[i]] == i != j == depth[path[j]];
    }
  }

  lemma DepthsAreRanked(pred: PredMap, depth: map<Coord, nat>)
    requires Depths(pred, depth)
    ensures Ranked(pred, depth)
  {
  }

  /** hasKey(m, p): scans the key set for a key equal to p. */
  method HasKey<V>(m: map<Coord, V>, p: Coord) returns (found: bool)
    ensures found <==> p in m
  {
    var keys := m.Keys;
    found := false;
    while keys != {} && !found
      invariant keys <= m.Keys
      invariant found ==> p in m
      invariant !found ==> p !in m.Keys - keys
      decreases keys
    {
      var a :| a in keys;
      if a == p {
        found := true;
      }
      keys := keys - {a};
    }
  }
}
