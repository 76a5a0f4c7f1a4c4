/** D* Lite as DStarSearch.java implements it, searching from the goal back
    to the start over the older package's 4-connected World.

    The source's objects become values held in the search object's fields:
    the vertex table (HashMap<Integer, DNode>) is a map from hash to Vertex,
    the open list (PriorityQueue<DNode>) is a sequence of table keys, and
    the predecessor map is a PredMap. A DNode is found in all of them by its
    coordinates; within the table, equal coordinates mean an equal hash and
    so the same key (SameCoordinatesSameKey), which is why the open list's
    contains and remove are tests on keys. */
module DStar {
  import opened Common
  import opened Worlds
  import opened Preds
  import opened LegacyBase
  import opened DStarVertex

  /** Every table entry is filed under the hash of its own coordinates,
      which are Java ints. */
  ghost predicate TableOk(t: map<int32, Vertex>)
  {
    && (forall k :: k in t ==> IsInt32(t[k].at))
    && (forall k {:trigger VertexHashCode(t[k].at)} :: k in t ==> VertexHashCode(t[k].at) == k)
  }

  /** Filing v under k keeps the table well filed when k is v's own hash,
      or when k already holds a vertex at v's coordinates. */
  lemma Refile(t: map<int32, Vertex>, k: int32, v: Vertex)
    requires TableOk(t)
    requires if k in t then v.at == t[k].at else IsInt32(v.at) && VertexHashCode(v.at) == k
    ensures TableOk(t[k := v])
  {
  }

  /** t1 keeps every entry of t0, at the same coordinates. */
  ghost predicate Extends(t0: map<int32, Vertex>, t1: map<int32, Vertex>)
  {
    forall k :: k in t0 ==> k in t1 && t1[k].at == t0[k].at
  }

  /** Within a well-filed table two vertices with equal coordinates are one
      entry, so DNode.equals between table vertices is equality of keys. */
  lemma SameCoordinatesSameKey(t: map<int32, Vertex>, a: int32, b: int32)
    requires TableOk(t) && a in t && b in t
    ensures t[a].at == t[b].at <==> a == b
  {
    assert VertexHashCode(t[a].at) == a && VertexHashCode(t[b].at) == b;
  }

  /** How many times k occurs in the open list s. */
  function Count(s: seq<int32>, k: int32): nat
    decreases |s|
  {
    if s == [] then 0 else Count(s[..|s| - 1], k) + (if s[|s| - 1] == k then 1 else 0)
  }

  lemma {:induction false} CountAppend(a: seq<int32>, b: seq<int32>)
    ensures forall k :: Count(a + b, k) == Count(a, k) + Count(b, k)
    decreases |b|
  {
    if b != [] {
      assert (a + b)[..|a + b| - 1] == a + b[..|b| - 1];
      CountAppend(a, b[..|b| - 1]);
    } else {
      assert a + b == a;
    }
  }

  lemma CountSingleton(k: int32)
    ensures forall x :: Count([k], x) == if x == k then 1 else 0
  {
    assert [k][..0] == [];
  }

  /** k occurs iff it is counted. */
  lemma {:induction false} CountMembership(s: seq<int32>, k: int32)
    ensures Count(s, k) > 0 <==> k in s
    decreases |s|
  {
    if s != [] {
      CountMembership(s[..|s| - 1], k);
      assert s == s[..|s| - 1] + [s[|s| - 1]];
    }
  }

  /** openList.remove(u): drops the first element equal to u. */
  function RemoveFirst(s: seq<int32>, k: int32): (r: seq<int32>)
    ensures k !in s ==> r == s
    ensures forall x :: x in r ==> x in s
    ensures forall x :: Count(r, x) == if x == k && k in s then Count(s, x) - 1 else Count(s, x)
    decreases |s|
  {
    if s == [] then []
    else
      assert s == [s[0]] + s[1..];
      assert forall x :: x in s[1..] ==> x in s;
      CountAppend([s[0]], s[1..]);
      CountSingleton(s[0]);
      if s[0] == k then
        s[1..]
      else
        CountAppend([s[0]], RemoveFirst(s[1..], k));
        [s[0]] + RemoveFirst(s[1..], k)
  }

  /** openList.poll() right after peek() returned the m-th element: that
      element leaves the queue. */
  function Poll(s: seq<int32>, m: nat): (r: seq<int32>)
    requires m < |s|
    ensures forall x :: x in r ==> x in s
    ensures forall x :: Count(r, x) == if x == s[m] then Count(s, x) - 1 else Count(s, x)
  {
    assert s == s[..m] + [s[m]] + s[m + 1..];
    CountAppend(s[..m] + [s[m]], s[m + 1..]);
    CountAppend(s[..m], [s[m]]);
    CountAppend(s[..m], s[m + 1..]);
    CountSingleton(s[m]);
    s[..m] + s[m + 1..]
  }

  /** The open list after updateVertex(k): k's first occurrence is removed
      if there is one, and k is offered again when it is inconsistent. Only
      k's count changes, and a k that occurred at most once now occurs
      exactly when it is inconsistent. */
  function Requeue(s: seq<int32>, k: int32, inconsistent: bool): (r: seq<int32>)
    ensures forall x :: x in r ==> x in s || x == k
    ensures forall x :: x != k ==> Count(r, x) == Count(s, x)
    ensures Count(r, k) == Count(s, k) - (if k in s then 1 else 0) + (if inconsistent then 1 else 0)
    ensures Count(s, k) <= 1 ==> (k in r <==> inconsistent)
  {
    var a := if k in s then RemoveFirst(s, k) else s;
    var r := a + (if inconsistent then [k] else []);
    CountAppend(a, if inconsistent then [k] else []);
    CountSingleton(k);
    assert Count([], k) == 0;
    CountMembership(s, k);
    CountMembership(r, k);
    r
  }

  /** The table keys of a sequence of coordinates. */
  function Hashes(ps: seq<Coord>): (r: seq<int32>)
    ensures |r| == |ps|
    decreases |ps|
  {
    if ps == [] then [] else Hashes(ps[..|ps| - 1]) + [VertexHashCode(ps[|ps| - 1])]
  }

  /** The i-th key is the hash of the i-th point. */
  lemma {:induction false} HashesAt(ps: seq<Coord>, i: nat)
    requires i < |ps|
    ensures Hashes(ps)[i] == VertexHashCode(ps[i])
    decreases |ps|
  {
    if i < |ps| - 1 {
      HashesAt(ps[..|ps| - 1], i);
    }
  }

  /** The table after looking up each of ps in turn, filing a vertex
      DNode(p, MAX_VALUE, MAX_VALUE) for each p whose key is absent. */
  ghost function InternAll(t: map<int32, Vertex>, ps: seq<Coord>): map<int32, Vertex>
    decreases |ps|
  {
    if ps == [] then t
    else
      var t' := InternAll(t, ps[..|ps| - 1]);
      var p := ps[|ps| - 1];
      var h := VertexHashCode(p);
      if h in t' then t' else t'[h := NewVertex(p, INT_MAX, INT_MAX)]
  }

  /** Interning keeps the table well filed, keeps every old entry as it was,
      files only fresh vertices at the given coordinates, and leaves every
      looked-up key present. */
  lemma {:induction false} InternAllFacts(t: map<int32, Vertex>, ps: seq<Coord>)
    requires TableOk(t) && forall p :: p in ps ==> IsInt32(p)
    ensures var t' := InternAll(t, ps);
      && TableOk(t')
      && (forall k :: k in t ==> k in t' && t'[k] == t[k])
      && (forall k :: k in t' && k !in t ==> t'[k] == NewVertex(t'[k].at, INT_MAX, INT_MAX) && t'[k].at in ps)
      && (forall x :: x in Hashes(ps) ==> x in t')
    decreases |ps|
  {
    if ps != [] {
      var pre := ps[..|ps| - 1];
      assert forall p :: p in pre ==> p in ps;
      InternAllFacts(t, pre);
      var t' := InternAll(t, pre);
      var p := ps[|ps| - 1];
      var h := VertexHashCode(p);
      if h !in t' {
        Refile(t', h, NewVertex(p, INT_MAX, INT_MAX));
      }
    }
  }

  /** 1 when the vertex is locally inconsistent (g != rhs), else 0: the
      number of times updateVertex leaves it in the open list. */
  function Bit(v: Vertex): nat
  {
    if v.g != v.rhs then 1 else 0
  }

  /** The least `g + cost` over the vertices filed under keys, and MIN_VALUE
      for no keys: what minimumOfSucc computes. */
  function MinGPlusCost(t: map<int32, Vertex>, keys: seq<int32>): int32
    requires forall s :: s in keys ==> s in t
    decreases |keys|
  {
    if keys == [] then INT_MIN
    else if |keys| == 1 then GPlusCost(t[keys[0]])
    else
      assert forall s :: s in keys[..|keys| - 1] ==> s in keys;
      Min32(MinGPlusCost(t, keys[..|keys| - 1]), GPlusCost(t[keys[|keys| - 1]]))
  }

  /** MinGPlusCost is attained by one of the keys and is at most every
      key's g + cost. */
  lemma {:induction false} MinGPlusCostIsLeast(t: map<int32, Vertex>, keys: seq<int32>)
    requires forall s :: s in keys ==> s in t
    ensures keys != [] ==> exists i :: 0 <= i < |keys| && MinGPlusCost(t, keys) == GPlusCost(t[keys[i]])
    ensures forall i :: 0 <= i < |keys| ==> MinGPlusCost(t, keys) <= GPlusCost(t[keys[i]])
    decreases |keys|
  {
    if |keys| > 1 {
      var pre := keys[..|keys| - 1];
      assert forall s :: s in pre ==> s in keys;
      MinGPlusCostIsLeast(t, pre);
      assert forall i :: 0 <= i < |pre| ==> pre[i] == keys[i];
      var i :| 0 <= i < |pre| && MinGPlusCost(t, pre) == GPlusCost(t[pre[i]]);
      if MinGPlusCost(t, keys) == MinGPlusCost(t, pre) {
        assert MinGPlusCost(t, keys) == GPlusCost(t[keys[i]]);
      } else {
        assert MinGPlusCost(t, keys) == GPlusCost(t[keys[|keys| - 1]]);
      }
    } else if |keys| == 1 {
      assert MinGPlusCost(t, keys) == GPlusCost(t[keys[0]]);
    }
  }

  /** MinGPlusCost reads only the g and cost of the vertices it is given. */
  lemma {:induction false} MinGPlusCostFrame(t: map<int32, Vertex>, t': map<int32, Vertex>, keys: seq<int32>)
    requires forall s :: s in keys ==> s in t && s in t' && t'[s].g == t[s].g && t'[s].cost == t[s].cost
    ensures MinGPlusCost(t', keys) == MinGPlusCost(t, keys)
    decreases |keys|
  {
    if |keys| > 1 {
      var pre := keys[..|keys| - 1];
      assert forall s :: s in pre ==> s in keys;
      MinGPlusCostFrame(t, t', pre);
    }
  }

  /** s has been relaxed through a vertex whose g is gu: unless s is at the
      goal, its rhs is at most its cost plus gu. */
  ghost predicate Relaxed(t: map<int32, Vertex>, s: int32, gu: int32, goalAt: Coord)
  {
    s in t && (t[s].at != goalAt ==> t[s].rhs <= Add32(t[s].cost, gu))
  }

  /** Two states of one vertex that agree on all but rhs and the key. */
  predicate Same(a: Vertex, b: Vertex)
  {
    a.at == b.at && a.g == b.g && a.cost == b.cost
  }

  /** What one Relax does to the table t and open list o, giving t' and o'. */
  ghost predicate RelaxEffect(t: map<int32, Vertex>, o: seq<int32>, t': map<int32, Vertex>, o': seq<int32>,
                              k: int32, gu: int32, goalAt: Coord)
  {
    && k in t && t'.Keys == t.Keys
    && (forall x :: x in t && x != k ==> t'[x] == t[x])
    && Same(t'[k], t[k])
    && t'[k].rhs == (if t[k].at == goalAt then t[k].rhs else Min32(t[k].rhs, Add32(t[k].cost, gu)))
    && o' == Requeue(o, k, t'[k].g != t'[k].rhs)
  }

  /** After relaxing the keys in done, starting from table t0 and open list
      q: only those vertices changed, and only in rhs and key; each is
      relaxed; each that was queued at most once is queued exactly when it
      is inconsistent; nothing else's queue count changed. */
  ghost predicate RelaxInv(t0: map<int32, Vertex>, q: seq<int32>, t: map<int32, Vertex>, o: seq<int32>,
                           done: seq<int32>, gu: int32, goalAt: Coord)
  {
    && t.Keys == t0.Keys
    && (forall x :: x in t0 ==> x in t && Same(t[x], t0[x]))
    && (forall x :: x in t0 && x !in done ==> t[x] == t0[x])
    && (forall s :: s in done ==> Relaxed(t, s, gu, goalAt))
    && (forall s :: s in done ==> (Count(q, s) <= 1 ==> Count(o, s) == Bit(t[s])))
    && (forall x :: x !in done ==> Count(o, x) == Count(q, x))
  }

  lemma RelaxInvStep(t0: map<int32, Vertex>, q: seq<int32>, t: map<int32, Vertex>, o: seq<int32>,
                     t': map<int32, Vertex>, o': seq<int32>, done: seq<int32>, k: int32, gu: int32, goalAt: Coord)
    requires RelaxInv(t0, q, t, o, done, gu, goalAt)
    requires RelaxEffect(t, o, t', o', k, gu, goalAt)
    ensures RelaxInv(t0, q, t', o', done + [k], gu, goalAt)
  {
    assert forall x :: x in done + [k] <==> x in done || x == k;
    CountMembership(o, k);
  }

  /** After the successor loop of the g > rhs branch over succ, from
      table t0 and open list q to t and o: no vertex changed its
      coordinates, g or cost; each successor is relaxed through gu; each
      successor that was queued at most once is queued exactly when it is
      inconsistent. */
  ghost predicate RelaxedAll(t0: map<int32, Vertex>, q: seq<int32>, t: map<int32, Vertex>, o: seq<int32>,
                             succ: seq<int32>, gu: int32, goalAt: Coord)
  {
    && (forall x :: x in t0 ==> x in t && Same(t[x], t0[x]))
    && (forall s :: s in succ ==> Relaxed(t, s, gu, goalAt) && (Count(q, s) <= 1 ==> Count(o, s) == Bit(t[s])))
  }

  /** The whole g > rhs branch for the m-th queued vertex u, from t0 and o0
      to t and o: g(u) is now the old rhs(u); no other g changed; each
      successor is relaxed through it and, if it was queued at most once
      after u left the queue, is queued exactly when inconsistent. */
  ghost predicate Lowered(t0: map<int32, Vertex>, o0: seq<int32>, t: map<int32, Vertex>, o: seq<int32>,
                          m: nat, succ: seq<int32>, goalAt: Coord)
  {
    && m < |o0| && o0[m] in t0 && o0[m] in t
    && t[o0[m]].g == t0[o0[m]].rhs
    && (forall x :: x in t0 && x != o0[m] ==> x in t && t[x].g == t0[x].g)
    && (forall s :: s in succ ==>
          Relaxed(t, s, t0[o0[m]].rhs, goalAt) && (Count(Poll(o0, m), s) <= 1 ==> Count(o, s) == Bit(t[s])))
  }

  lemma LoweredIntro(grid: Grid, t0: map<int32, Vertex>, o0: seq<int32>, t1: map<int32, Vertex>, o1: seq<int32>,
                     t: map<int32, Vertex>, o: seq<int32>, m: nat, succ: seq<int32>, goalAt: Coord)
    requires m < |o0| && o0[m] in t0
    requires t1 == t0[o0[m] := t0[o0[m]].(g := t0[o0[m]].rhs)] && o1 == Poll(o0, m)
    requires RelaxedAll(t1, o1, t, o, succ, t0[o0[m]].rhs, goalAt) && Grew(grid, t1, t)
    ensures Lowered(t0, o0, t, o, m, succ, goalAt) && Grew(grid, t0, t)
  {
  }

  /** What recomputing the vertex filed under k does, given the keys succ
      of its successors: nothing else in the table changes, nor the queue
      count of any other key; the vertex keeps its coordinates, g and cost;
      and if its rhs was gOld, rhs becomes the least g + cost over succ
      (the goal keeps its rhs) and the vertex is queued exactly when it is
      inconsistent. */
  ghost predicate Recomputed(t0: map<int32, Vertex>, o0: seq<int32>, t1: map<int32, Vertex>, o1: seq<int32>,
                             k: int32, gOld: int32, goalAt: Coord, succ: seq<int32>)
  {
    && k in t0 && k in t1 && t0.Keys <= t1.Keys
    && (forall s :: s in succ ==> s in t1)
    && (forall x :: x in t0 && x != k ==> t1[x] == t0[x])
    && Same(t1[k], t0[k])
    && (forall x :: x != k ==> Count(o1, x) == Count(o0, x))
    && (t0[k].rhs != gOld ==> t1[k] == t0[k] && o1 == o0)
    && (t0[k].rhs == gOld ==>
          && t1[k].rhs == (if t0[k].at == goalAt then gOld else MinGPlusCost(t1, succ))
          && (Count(o0, k) <= 1 ==> Count(o1, k) == Bit(t1[k])))
  }

  /** The test and update of a recomputation, given the least g + cost of
      the successors: the table keeps its keys and all other entries. */
  ghost predicate WasReset(t1: map<int32, Vertex>, o1: seq<int32>, t2: map<int32, Vertex>, o2: seq<int32>,
                           k: int32, gOld: int32, goalAt: Coord, least: int32)
  {
    && k in t1 && t2.Keys == t1.Keys
    && (forall x :: x in t1 && x != k ==> t2[x] == t1[x])
    && Same(t2[k], t1[k])
    && (forall x :: x != k ==> Count(o2, x) == Count(o1, x))
    && (t1[k].rhs != gOld ==> t2 == t1 && o2 == o1)
    && (t1[k].rhs == gOld ==>
          && t2[k].rhs == (if t1[k].at == goalAt then gOld else least)
          && (Count(o1, k) <= 1 ==> Count(o2, k) == Bit(t2[k])))
  }

  /** The rhs reset of a vertex whose rhs was gOld (skipped at the goal),
      followed by updateVertex, written out on values. */
  lemma ResetThenUpdate(t1: map<int32, Vertex>, o1: seq<int32>, t2: map<int32, Vertex>, o2: seq<int32>,
                        k: int32, gOld: int32, goalAt: Coord, least: int32)
    requires k in t1 && t1[k].rhs == gOld && t2.Keys == t1.Keys
    requires forall x :: x in t1 && x != k ==> t2[x] == t1[x]
    requires Same(t2[k], t1[k]) && t2[k].rhs == (if t1[k].at == goalAt then gOld else least)
    requires o2 == Requeue(o1, k, t2[k].g != t2[k].rhs)
    ensures WasReset(t1, o1, t2, o2, k, gOld, goalAt, least)
  {
    if Count(o1, k) <= 1 {
      CountMembership(o1, k);
    }
  }

  /** Looking up the successors (which only adds entries) and then
      resetting with their least g + cost is a recomputation. */
  lemma ResetRecomputes(t0: map<int32, Vertex>, o0: seq<int32>, t1: map<int32, Vertex>,
                        t2: map<int32, Vertex>, o2: seq<int32>, k: int32, gOld: int32, goalAt: Coord, succ: seq<int32>)
    requires k in t0 && forall x :: x in t0 ==> x in t1 && t1[x] == t0[x]
    requires forall s :: s in succ ==> s in t1
    requires WasReset(t1, o0, t2, o2, k, gOld, goalAt, MinGPlusCost(t1, succ))
    ensures Recomputed(t0, o0, t2, o2, k, gOld, goalAt, succ)
  {
    if t1[k].rhs == gOld {
      forall s | s in succ
        ensures s in t1 && s in t2 && t2[s].g == t1[s].g && t2[s].cost == t1[s].cost
      {
        if s != k {
          assert t2[s] == t1[s];
        }
      }
      MinGPlusCostFrame(t1, t2, succ);
    }
  }

  /** Recomputing a second time, as the loop over backtrace(pred, u) does
      for u, changes nothing that the first pass did not. */
  lemma RecomputedTwice(t0: map<int32, Vertex>, o0: seq<int32>, t1: map<int32, Vertex>, o1: seq<int32>,
                        t2: map<int32, Vertex>, o2: seq<int32>, k: int32, gOld: int32, goalAt: Coord, succ: seq<int32>)
    requires Recomputed(t0, o0, t1, o1, k, gOld, goalAt, succ)
    requires Recomputed(t1, o1, t2, o2, k, gOld, goalAt, succ)
    ensures Recomputed(t0, o0, t2, o2, k, gOld, goalAt, succ)
  {
    if t0[k].rhs == gOld && t1[k].rhs != gOld {
      forall s | s in succ
        ensures s in t1 && s in t2 && t2[s].g == t1[s].g && t2[s].cost == t1[s].cost
      {
        if s != k {
          assert t2[s] == t1[s];
        }
      }
      MinGPlusCostFrame(t1, t2, succ);
    }
  }

  /** t1 keeps every entry of t0 at its coordinates, and each entry it adds
      stands on a cell of the grid. */
  ghost predicate Grew(grid: Grid, t0: map<int32, Vertex>, t1: map<int32, Vertex>)
  {
    && (forall k :: k in t0 ==> k in t1 && t1[k].at == t0[k].at)
    && (forall k :: k in t1 && k !in t0 ==> InGrid(grid, t1[k].at))
  }

  lemma GrewTrans(grid: Grid, t0: map<int32, Vertex>, t1: map<int32, Vertex>, t2: map<int32, Vertex>)
    requires Grew(grid, t0, t1) && Grew(grid, t1, t2)
    ensures Grew(grid, t0, t2)
  {
  }

  /** Every vertex of the table stands on a cell of the grid. */
  ghost predicate OnCells(grid: Grid, t: map<int32, Vertex>)
  {
    forall k :: k in t ==> InGrid(grid, t[k].at)
  }

  /** A grid narrow and short enough that no two of its cells share a
      vertex-table key: fewer than 8329 columns, and no cell's hash above
      MAX_VALUE. */
  predicate SmallWorld(grid: Grid)
  {
    grid.w <= 8329 && 1039 * grid.w + 8329 * grid.h <= INT_MAX as int
  }

  /** In a small grid whose table holds only cells, looking a cell up by
      its hash finds that very cell. */
  lemma LookupExact(grid: Grid, t: map<int32, Vertex>, c: Coord)
    requires TableOk(t) && OnCells(grid, t) && SmallWorld(grid)
    requires InGrid(grid, c) && VertexHashCode(c) in t
    ensures t[VertexHashCode(c)].at == c
  {
    var a := t[VertexHashCode(c)].at;
    assert 0 <= 1039 * a.x + 8329 * a.y < 0x8000_0000 by {
      assert 1039 * a.x <= 1039 * grid.w && 8329 * a.y <= 8329 * grid.h;
    }
    assert 0 <= 1039 * c.x + 8329 * c.y < 0x8000_0000 by {
      assert 1039 * c.x <= 1039 * grid.w && 8329 * c.y <= 8329 * grid.h;
    }
    HashInjective(a, c);
  }

  /** The table after one lookup of pt: a new vertex DNode(pt, rhs,
      MAX_VALUE) filed under pt's key when that key is absent. */
  function Interned1(t: map<int32, Vertex>, pt: Coord, rhs: int32): (r: map<int32, Vertex>)
    ensures VertexHashCode(pt) in r && t.Keys <= r.Keys
    ensures TableOk(t) && IsInt32(pt) ==> TableOk(r)
  {
    var h := VertexHashCode(pt);
    if h in t then t else t[h := NewVertex(pt, rhs, INT_MAX)]
  }

  /** The table search(initial, goal) leaves before its main loop: start
      and goal looked up or created, the goal keyed (heuristic(start,
      goal), 0) and the start's key recalculated. */
  function Opened(t: map<int32, Vertex>, initial: Coord, goal: Coord): (r: map<int32, Vertex>)
    requires TableOk(t) && IsInt32(initial) && IsInt32(goal)
    ensures VertexHashCode(initial) in r && VertexHashCode(goal) in r && t.Keys <= r.Keys
  {
    var sk, gk := VertexHashCode(initial), VertexHashCode(goal);
    var t2 := Interned1(Interned1(t, initial, INT_MAX), goal, 0);
    var t3 := t2[gk := t2[gk].(k1 := Heuristic(t2[sk].at, t2[gk].at), k2 := 0)];
    t3[sk := CalculateKey(t3[sk], t3[sk].at, 0)]
  }

  /** Opening keeps every entry's coordinates, adds entries only at start
      and goal, and gives the goal rhs 0 when it is new. */
  lemma OpenedFacts(t: map<int32, Vertex>, initial: Coord, goal: Coord)
    requires TableOk(t) && IsInt32(initial) && IsInt32(goal)
    ensures forall k :: k in t ==> Opened(t, initial, goal)[k].at == t[k].at
    ensures forall k :: k in Opened(t, initial, goal) && k !in t ==>
      Opened(t, initial, goal)[k].at in {initial, goal}
    ensures VertexHashCode(goal) !in t && VertexHashCode(goal) != VertexHashCode(initial) ==>
      Opened(t, initial, goal)[VertexHashCode(goal)].rhs == 0 &&
      Opened(t, initial, goal)[VertexHashCode(goal)].at == goal
  {
  }

  /** The vertices filed under keys, in order. */
  function VerticesAt(t: map<int32, Vertex>, keys: seq<int32>): (vs: seq<Vertex>)
    requires forall k :: k in keys ==> k in t
    ensures |vs| == |keys| && forall i :: 0 <= i < |keys| ==> vs[i] == t[keys[i]]
  {
    seq(|keys|, i requires 0 <= i < |keys| => t[keys[i]])
  }

  /** Looking up one more key of a prefix appends its vertex. */
  lemma VerticesAtSnoc(t: map<int32, Vertex>, keys: seq<int32>, i: nat)
    requires (forall s :: s in keys ==> s in t) && i < |keys|
    ensures forall s :: s in keys[..i] ==> s in t
    ensures VerticesAt(t, keys[..i + 1]) == VerticesAt(t, keys[..i]) + [t[keys[i]]]
  {
    assert forall s :: s in keys[..i] ==> s in keys;
    assert forall s :: s in keys[..i + 1] ==> s in keys;
  }

  /** The vertices whose points are not yet on the path, in order: the
      filter of getPath. Its other test, `vertexHash.containsValue(s)`,
      holds of every vertex successors returns, since each is a table
      vertex. */
  function OffPath(vs: seq<Vertex>, path: seq<Coord>): (r: seq<Vertex>)
    ensures forall v {:trigger v in r} {:trigger v in vs} :: v in r <==> v in vs && v.at !in path
    decreases |vs|
  {
    if vs == [] then []
    else
      assert vs == vs[..|vs| - 1] + [vs[|vs| - 1]];
      OffPath(vs[..|vs| - 1], path) + (if vs[|vs| - 1].at in path then [] else [vs[|vs| - 1]])
  }

  /** Every valid neighbour of the path's last point has a table entry. */
  ghost predicate Interned(grid: Grid, t: map<int32, Vertex>, path: seq<Coord>)
    requires grid.Ok() && path != []
  {
    forall k :: k in Hashes(Successors4(grid, path[|path| - 1])) ==> k in t
  }

  /** The step getPath takes from the last point of path: of the table
      vertices of that point's valid neighbours that are not on the path,
      the least by cost + rhs, ties going to the smaller k1 and then to the
      earliest; None where getPath stops short. */
  function Next(grid: Grid, t: map<int32, Vertex>, path: seq<Coord>): Option<Vertex>
    requires grid.Ok() && path != [] && Interned(grid, t, path)
  {
    var c := OffPath(VerticesAt(t, Hashes(Successors4(grid, path[|path| - 1]))), path);
    if c == [] then None else Some(c[MinByCost(c)])
  }

  /** The step leaves the path, and is no worse than any other table vertex
      of a valid neighbour off the path. */
  lemma NextIsLeast(grid: Grid, t: map<int32, Vertex>, path: seq<Coord>, q: Coord)
    requires grid.Ok() && path != [] && Interned(grid, t, path)
    requires q in Successors4(grid, path[|path| - 1])
    ensures Next(grid, t, path).Some? ==> Next(grid, t, path).value.at !in path
    ensures VertexHashCode(q) in t && t[VertexHashCode(q)].at !in path ==>
      Next(grid, t, path).Some? && NoWorse(Next(grid, t, path).value, t[VertexHashCode(q)])
  {
    var ps := Successors4(grid, path[|path| - 1]);
    var vs := VerticesAt(t, Hashes(ps));
    var c := OffPath(vs, path);
    if c != [] {
      assert c[MinByCost(c)] in c;
    }
    var i :| 0 <= i < |ps| && ps[i] == q;
    HashesAt(ps, i);
    if t[VertexHashCode(q)].at !in path {
      assert vs[i] == t[VertexHashCode(q)];
      assert vs[i] in c;
    }
  }

  /** In a small grid whose table holds only cells, the step is a move to
      a valid orthogonal neighbour. */
  lemma NextIsStep(grid: Grid, t: map<int32, Vertex>, path: seq<Coord>)
    requires grid.Ok() && path != [] && Interned(grid, t, path)
    requires TableOk(t) && OnCells(grid, t) && SmallWorld(grid)
    requires Next(grid, t, path).Some?
    ensures Step(grid, path[|path| - 1], Next(grid, t, path).value.at)
  {
    var ps := Successors4(grid, path[|path| - 1]);
    var vs := VerticesAt(t, Hashes(ps));
    var c := OffPath(vs, path);
    var v := c[MinByCost(c)];
    assert v in c;
    var i :| 0 <= i < |vs| && vs[i] == v;
    HashesAt(ps, i);
    SuccessorsAreSteps(grid, path[|path| - 1]);
    assert ps[i] in ps;
    SuccessorsAreCells(grid, path[|path| - 1]);
    LookupExact(grid, t, ps[i]);
  }

  /** Adding entries to the table does not change a step whose neighbours
      were all filed already. */
  lemma NextFrame(grid: Grid, t0: map<int32, Vertex>, t1: map<int32, Vertex>, path: seq<Coord>)
    requires grid.Ok() && path != [] && Interned(grid, t0, path)
    requires forall k :: k in t0 ==> k in t1 && t1[k] == t0[k]
    ensures Interned(grid, t1, path) && Next(grid, t1, path) == Next(grid, t0, path)
  {
    var keys := Hashes(Successors4(grid, path[|path| - 1]));
    assert VerticesAt(t1, keys) == VerticesAt(t0, keys);
  }

  /** The step getPath takes as written: the same candidates, chosen by
      Collections.min with the comparator whose int sums wrap. */
  function NextAsWritten(grid: Grid, t: map<int32, Vertex>, path: seq<Coord>): Option<Vertex>
    requires grid.Ok() && path != [] && Interned(grid, t, path)
  {
    var c := OffPath(VerticesAt(t, Hashes(Successors4(grid, path[|path| - 1]))), path);
    if c == [] then None else Some(c[MinByCostAsWritten(c)])
  }

  /** While no table vertex's cost + rhs overflows an int, the step as
      written is the corrected step Next. */
  lemma NextAsWrittenAgrees(grid: Grid, t: map<int32, Vertex>, path: seq<Coord>)
    requires grid.Ok() && path != [] && Interned(grid, t, path)
    requires forall k :: k in t ==> SumFits(t[k])
    ensures NextAsWritten(grid, t, path) == Next(grid, t, path)
  {
    var keys := Hashes(Successors4(grid, path[|path| - 1]));
    var vs := VerticesAt(t, keys);
    var c := OffPath(vs, path);
    if c != [] {
      forall v | v in c
        ensures SumFits(v)
      {
        var i :| 0 <= i < |vs| && vs[i] == v;
        assert keys[i] in keys;
      }
      MinByCostAgrees(c);
    }
  }

  /** The filter loop of getPath: the vertices filed under keys, in order,
      whose points are not on the path. */
  method Candidates(t: map<int32, Vertex>, keys: seq<int32>, path: seq<Coord>) returns (cands: seq<Vertex>)
    requires forall s :: s in keys ==> s in t
    ensures cands == OffPath(VerticesAt(t, keys), path)
  {
    cands := [];
    for i := 0 to |keys|
      invariant cands == OffPath(VerticesAt(t, keys[..i]), path)
    {
      VerticesAtSnoc(t, keys, i);
      var s := t[keys[i]];
      if s.at !in path {
        cands := cands + [s];
      }
    }
    assert keys[..|keys|] == keys;
  }

  /** Each point of path after the first is getPath's step from the points
      before it: the path without its last point is traced, and the last
      point is the step from it. */
  ghost predicate Traced(grid: Grid, t: map<int32, Vertex>, path: seq<Coord>)
    requires grid.Ok()
    decreases |path|
  {
    |path| <= 1 ||
    var pre := path[..|path| - 1];
    && Traced(grid, t, pre)
    && Interned(grid, t, pre) && Next(grid, t, pre).Some? && Next(grid, t, pre).value.at == path[|path| - 1]
  }

  /** The last step of a traced path r of two or more points, from pre,
      the points before it. */
  lemma {:induction false} TracedStep(grid: Grid, t: map<int32, Vertex>, r: seq<Coord>, pre: seq<Coord>)
    requires grid.Ok() && Traced(grid, t, r) && |r| >= 2 && pre == r[..|r| - 1]
    ensures Interned(grid, t, pre) && Next(grid, t, pre).Some? && Next(grid, t, pre).value.at == r[|r| - 1]
  { }

  /** Adding entries to the table keeps every step of a traced path. */
  lemma {:induction false} TracedFrame(grid: Grid, t0: map<int32, Vertex>, t1: map<int32, Vertex>, path: seq<Coord>)
    requires grid.Ok() && Traced(grid, t0, path)
    requires forall k :: k in t0 ==> k in t1 && t1[k] == t0[k]
    ensures Traced(grid, t1, path)
    decreases |path|
  {
    if |path| > 1 {
      var pre := path[..|path| - 1];
      TracedFrame(grid, t0, t1, pre);
      NextFrame(grid, t0, t1, pre);
    }
  }

  /** A traced path followed by the next step is traced. */
  lemma {:induction false} TracedExtend(grid: Grid, t: map<int32, Vertex>, path: seq<Coord>, v: Vertex)
    requires grid.Ok() && path != [] && Traced(grid, t, path)
    requires Interned(grid, t, path) && Next(grid, t, path) == Some(v)
    ensures Traced(grid, t, path + [v.at])
  {
    assert (path + [v.at])[..|path|] == path;
  }

  /** The step is a table vertex whose point is not yet on the path. */
  lemma NextIsFresh(grid: Grid, t: map<int32, Vertex>, path: seq<Coord>)
    requires grid.Ok() && path != [] && Interned(grid, t, path)
    requires Next(grid, t, path).Some?
    ensures Next(grid, t, path).value.at !in path && Next(grid, t, path).value in t.Values
  {
    var keys := Hashes(Successors4(grid, path[|path| - 1]));
    var vs := VerticesAt(t, keys);
    var c := OffPath(vs, path);
    var v := c[MinByCost(c)];
    assert v in c;
    var i :| 0 <= i < |vs| && vs[i] == v;
    assert t[keys[i]] == v;
  }

  /** In a small grid whose table holds only cells, a traced path is a
      walk. */
  lemma {:induction false} TracedIsWalk(grid: Grid, t: map<int32, Vertex>, path: seq<Coord>)
    requires grid.Ok() && Traced(grid, t, path)
    requires TableOk(t) && OnCells(grid, t) && SmallWorld(grid)
    ensures IsWalk(grid, path)
    decreases |path|
  {
    if |path| > 1 {
      var pre := path[..|path| - 1];
      TracedStep(grid, t, path, pre);
      TracedIsWalk(grid, t, pre);
      NextIsStep(grid, t, pre);
      ButLast(path);
      WalkSnoc(grid, pre, path[|path| - 1]);
    }
  }

  /** path is what getPath returns from start to goal on table t: it
      begins at start, each later point is the step from the points before
      it, no point before the last is the goal, and it ends at the goal or
      where no step remains. */
  ghost predicate GetPathOf(grid: Grid, t: map<int32, Vertex>, start: Coord, goal: Coord, path: seq<Coord>)
    requires grid.Ok()
  {
    && path != [] && path[0] == start && Traced(grid, t, path)
    && goal !in path[..|path| - 1]
    && (path[|path| - 1] != goal ==> Interned(grid, t, path) && Next(grid, t, path) == None)
  }

  /** Every prefix of a traced path is traced. */
  lemma {:induction false} TracedTake(grid: Grid, t: map<int32, Vertex>, p: seq<Coord>, q: seq<Coord>)
    requires grid.Ok() && Traced(grid, t, p)
    requires 1 <= |q| <= |p| && q == p[..|q|]
    ensures Traced(grid, t, q)
    decreases |p|
  {
    if |q| < |p| {
      var pre := p[..|p| - 1];
      TakeTake(p, |q|, |p| - 1);
      TracedTake(grid, t, pre, q);
    } else {
      assert q == p;
    }
  }

  /** Two traced paths of one length from one start are equal. */
  lemma {:induction false} TracedUnique(grid: Grid, t: map<int32, Vertex>, p: seq<Coord>, q: seq<Coord>)
    requires grid.Ok() && Traced(grid, t, p) && Traced(grid, t, q)
    requires 1 <= |p| == |q| && p[0] == q[0]
    ensures p == q
    decreases |p|
  {
    if |p| > 1 {
      var pp, qq := p[..|p| - 1], q[..|q| - 1];
      TracedUnique(grid, t, pp, qq);
      ButLast(p);
      ButLast(q);
    } else {
      assert p == [p[0]] && q == [q[0]];
    }
  }

  /** getPath is a function of the table: only one path fits. */
  lemma GetPathOfUnique(grid: Grid, t: map<int32, Vertex>, start: Coord, goal: Coord, p: seq<Coord>, q: seq<Coord>)
    requires grid.Ok()
    requires GetPathOf(grid, t, start, goal, p) && GetPathOf(grid, t, start, goal, q)
    ensures p == q
  {
    if |p| <= |q| {
      TracedTake(grid, t, q, q[..|p|]);
      TracedUnique(grid, t, p, q[..|p|]);
      Shorter(grid, t, start, goal, p, q);
    } else {
      TracedTake(grid, t, p, p[..|q|]);
      TracedUnique(grid, t, q, p[..|q|]);
      Shorter(grid, t, start, goal, q, p);
    }
  }

  /** A getPath result that is a prefix of another is all of it. */
  lemma Shorter(grid: Grid, t: map<int32, Vertex>, start: Coord, goal: Coord, p: seq<Coord>, q: seq<Coord>)
    requires grid.Ok()
    requires GetPathOf(grid, t, start, goal, p) && GetPathOf(grid, t, start, goal, q)
    requires |p| <= |q| && p == q[..|p|]
    ensures p == q
  {
    if |p| < |q| {
      if p[|p| - 1] == goal {
        // q would meet the goal before its end
        assert false;
      } else {
        // q would take a step from p where getPath finds none
        StepAfterPrefix(grid, t, q, p);
        assert false;
      }
    }
  }

  /** Every proper prefix p of a traced path q has a next step. */
  lemma {:induction false} StepAfterPrefix(grid: Grid, t: map<int32, Vertex>, q: seq<Coord>, p: seq<Coord>)
    requires grid.Ok() && Traced(grid, t, q)
    requires 1 <= |p| < |q| && p == q[..|p|]
    ensures Interned(grid, t, p) && Next(grid, t, p).Some?
  {
    var r := q[..|p| + 1];
    TracedTake(grid, t, q, r);
    PrefixOfTake(q, p);
    TracedStep(grid, t, r, p);
  }

  /** The state of getPath's loop: a traced path without repeats from
      start, on which only the last point may be the goal. */
  ghost predicate Walking(grid: Grid, t: map<int32, Vertex>, start: Coord, goal: Coord, path: seq<Coord>)
    requires grid.Ok()
  {
    path != [] && path[0] == start && Distinct(path) && goal !in path[..|path| - 1] && Traced(grid, t, path)
  }

  /** One more step, taken from a point other than the goal, keeps the loop
      state and stays inside S, which holds the old table's points and the
      cells. */
  lemma PathGrows(grid: Grid, t0: map<int32, Vertex>, t: map<int32, Vertex>, start: Coord, goal: Coord,
                  path: seq<Coord>, S: set<Coord>)
    requires grid.Ok() && Walking(grid, t, start, goal, path) && path[|path| - 1] != goal
    requires Interned(grid, t, path) && Next(grid, t, path).Some?
    requires Grew(grid, t0, t) && (set k | k in t0 :: t0[k].at) + Cells(grid) <= S
    requires forall x :: x in path ==> x in S
    ensures var p := path + [Next(grid, t, path).value.at];
      Walking(grid, t, start, goal, p) && (forall x :: x in p ==> x in S) && |p| <= |S|
  {
    var v := Next(grid, t, path).value;
    var p := path + [v.at];
    NextIsFresh(grid, t, path);
    GrownPoints(grid, t0, t, v);
    TracedExtend(grid, t, path, v);
    DistinctAppend(path, v.at);
    NotInButLast(path, goal);
    assert p[..|p| - 1] == path;
    DistinctCard(p, S);
  }

  /** The points of a grown table lie on the old table's points or on
      cells. */
  lemma GrownPoints(grid: Grid, t0: map<int32, Vertex>, t: map<int32, Vertex>, v: Vertex)
    requires Grew(grid, t0, t) && v in t.Values
    ensures v.at in (set k | k in t0 :: t0[k].at) + Cells(grid)
  {
    var k :| k in t && t[k] == v;
    if k in t0 {
      assert v.at == t0[k].at;
    } else {
      CellsAreInGrid(grid, v.at);
    }
  }

  class DStarSearch {
    const world: World
    /** The world's obstacles as a value, fixed for the life of the search. */
    ghost const grid: Grid
    var vertices: map<int32, Vertex>
    var open: seq<int32>
    var pred: PredMap
    /** k_m is never changed from 0. */
    const km: int32
    /** start_n and goal_n, as the keys of their table entries. */
    var startKey: Option<int32>
    var goalKey: Option<int32>

    ghost predicate Valid()
      reads this, world, world.obstacles
    {
      && world.Valid() && world.Fits() && grid == world.View()
      && TableOk(vertices)
      && (forall x :: x in open ==> x in vertices)
      && (forall c :: c in pred ==> pred[c] == None)
      && km == 0
      && (startKey.Some? ==> startKey.value in vertices)
      && (goalKey.Some? ==> goalKey.value in vertices)
    }

    /** The start vertex's coordinates, whose heuristic calculateKey uses. */
    function StartAt(): Coord
      reads this
      requires startKey.Some? && startKey.value in vertices
    {
      vertices[startKey.value].at
    }

    /** The goal vertex's coordinates, which `s.equals(goal_n)` compares. */
    function GoalAt(): Coord
      reads this
      requires goalKey.Some? && goalKey.value in vertices
    {
      vertices[goalKey.value].at
    }

    constructor (w: World)
      requires w.Valid() && w.Fits()
      ensures world == w && grid == w.View() && Valid()
      ensures vertices == map[] && open == [] && pred == map[] && km == 0
      ensures startKey == None && goalKey == None
    {
      world := w;
      grid := w.View();
      vertices := map[];
      open := [];
      pred := map[];
      km := 0;
      startKey := None;
      goalKey := None;
    }

    /** openList.peek(): the index of a queued vertex of least key, the
        first such in the queue; None (null) when the queue is empty. */
    method Peek() returns (m: Option<nat>)
      requires Valid()
      ensures m.None? <==> open == []
      ensures m.Some? ==> m.value < |open|
      ensures m.Some? ==> forall j :: 0 <= j < |open| ==> Compare(vertices[open[m.value]], vertices[open[j]]) <= 0
      ensures m.Some? ==> forall j :: 0 <= j < m.value ==> Compare(vertices[open[j]], vertices[open[m.value]]) == 1
    {
      if open == [] {
        return None;
      }
      var best := 0;
      for j := 1 to |open|
        invariant best < j
        invariant forall i :: 0 <= i < j ==> Compare(vertices[open[best]], vertices[open[i]]) <= 0
        invariant forall i :: 0 <= i < best ==> Compare(vertices[open[i]], vertices[open[best]]) == 1
      {
        if Compare(vertices[open[j]], vertices[open[best]]) == -1 {
          best := j;
        }
      }
      m := Some(best);
    }

    /** The table lookup that search and successors share: the key of pt,
        with a new vertex DNode(pt, rhs, MAX_VALUE) filed under it when the
        key is absent. */
    method Intern(pt: Coord, rhs: int32) returns (h: int32)
      requires Valid() && IsInt32(pt)
      modifies this
      ensures Valid()
      ensures open == old(open) && pred == old(pred) && startKey == old(startKey) && goalKey == old(goalKey)
      ensures h == VertexHashCode(pt)
      ensures vertices == Interned1(old(vertices), pt, rhs)
    {
      h := VertexHashCode(pt);
      if h !in vertices {
        Refile(vertices, h, NewVertex(pt, rhs, INT_MAX));
        vertices := vertices[h := NewVertex(pt, rhs, INT_MAX)];
      }
    }

    /** The opening of search(initial, goal): reuse or create the start
        vertex (rhs = g = MAX_VALUE) and the goal vertex (rhs 0, g
        MAX_VALUE), give the goal the key (heuristic(start, goal), 0), map
        the goal to null in pred, queue it, and recalculate the start's key. */
    method Prepare(initial: Coord, goal: Coord)
      requires Valid() && IsInt32(initial) && IsInt32(goal)
      modifies this
      ensures Valid()
      ensures startKey == Some(VertexHashCode(initial)) && goalKey == Some(VertexHashCode(goal))
      ensures vertices == Opened(old(vertices), initial, goal)
      ensures pred == old(pred)[Interned1(Interned1(old(vertices), initial, INT_MAX), goal, 0)[VertexHashCode(goal)].at := None]
      ensures open == old(open) + [VertexHashCode(goal)]
    {
      var sk := Intern(initial, INT_MAX);
      var gk := Intern(goal, 0);
      startKey, goalKey := Some(sk), Some(gk);
      var g := vertices[gk];
      var g' := g.(k1 := Heuristic(vertices[sk].at, g.at), k2 := 0);
      Refile(vertices, gk, g');
      vertices := vertices[gk := g'];
      pred := pred[g.at := None];
      open := open + [gk];
      var s := CalculateKey(vertices[sk], vertices[sk].at, km);
      Refile(vertices, sk, s);
      vertices := vertices[sk := s];
    }

    /** updateVertex(u) for the vertex filed under k: a queued vertex leaves
        the queue, and is queued again with a recalculated key when it is
        inconsistent (g != rhs); an unqueued inconsistent vertex is queued
        with the key it has. */
    method UpdateVertex(k: int32)
      requires Valid() && k in vertices && startKey.Some?
      modifies this
      ensures Valid()
      ensures Grew(grid, old(vertices), vertices)
      ensures pred == old(pred) && startKey == old(startKey) && goalKey == old(goalKey)
      ensures var u := old(vertices)[k];
        vertices == if k in old(open) && u.g != u.rhs
                    then old(vertices)[k := CalculateKey(u, old(StartAt()), km)]
                    else old(vertices)
      ensures open == Requeue(old(open), k, old(vertices)[k].g != old(vertices)[k].rhs)
    {
      var u := vertices[k];
      if k in open {
        if u.g == u.rhs {
          open := RemoveFirst(open, k);
        } else {
          open := RemoveFirst(open, k);
          var u' := CalculateKey(u, StartAt(), km);
          Refile(vertices, k, u');
          vertices := vertices[k := u'];
          open := open + [k];
        }
      } else if u.g != u.rhs {
        open := open + [k];
      }
    }

    /** successors(u) for a vertex at `at`: the keys of the valid orthogonal
        neighbours of `at`, in getSuccessors order; a neighbour with no
        table entry gets a new vertex with rhs = g = MAX_VALUE. */
    method Successors(at: Coord) returns (keys: seq<int32>)
      requires Valid()
      modifies this
      ensures Valid()
      ensures Grew(grid, old(vertices), vertices)
      ensures open == old(open) && pred == old(pred) && startKey == old(startKey) && goalKey == old(goalKey)
      ensures keys == Hashes(Successors4(grid, at))
      ensures forall s :: s in keys ==> s in vertices
      ensures forall x :: x in old(vertices) ==> x in vertices && vertices[x] == old(vertices[x])
    {
      var ps := GetSuccessors(world, at);
      SuccessorsAreCells(grid, at);
      keys := InternEach(ps);
      InternAllFacts(old(vertices), ps);
    }

    /** The loop of successors: the table key of each point, filing a new
        vertex for each absent one. */
    method InternEach(ps: seq<Coord>) returns (keys: seq<int32>)
      requires Valid() && forall p :: p in ps ==> IsInt32(p)
      modifies this
      ensures Valid()
      ensures open == old(open) && pred == old(pred) && startKey == old(startKey) && goalKey == old(goalKey)
      ensures keys == Hashes(ps)
      ensures vertices == InternAll(old(vertices), ps)
    {
      ghost var t0 := vertices;
      keys := [];
      for i := 0 to |ps|
        invariant Valid()
        invariant open == old(open) && pred == old(pred) && startKey == old(startKey) && goalKey == old(goalKey)
        invariant keys == Hashes(ps[..i])
        invariant vertices == InternAll(t0, ps[..i])
      {
        assert ps[..i + 1][..i] == ps[..i];
        var h := Intern(ps[i], INT_MAX);
        keys := keys + [h];
      }
      assert ps[..|ps|] == ps;
    }

    /** minimumOfSucc: MIN_VALUE for no successors, otherwise the least
        `g + cost` (in int arithmetic) over them. */
    method MinimumOfSucc(keys: seq<int32>) returns (r: int32)
      requires forall s :: s in keys ==> s in vertices
      ensures keys == [] ==> r == INT_MIN
      ensures keys != [] ==> exists i :: 0 <= i < |keys| && r == GPlusCost(vertices[keys[i]])
      ensures forall i :: 0 <= i < |keys| ==> r <= GPlusCost(vertices[keys[i]])
      ensures r == MinGPlusCost(vertices, keys)
    {
      if keys == [] {
        return INT_MIN;
      }
      var values: seq<int32> := [];
      for i := 0 to |keys|
        invariant |values| == i
        invariant forall j :: 0 <= j < i ==> values[j] == GPlusCost(vertices[keys[j]])
      {
        values := values + [GPlusCost(vertices[keys[i]])];
      }
      // Collections.min over the collected values.
      r := values[0];
      ghost var at := 0;
      for i := 1 to |values|
        invariant at < i && r == values[at]
        invariant forall j :: 0 <= j < i ==> r <= values[j]
      {
        if values[i] < r {
          r, at := values[i], i;
        }
      }
      MinGPlusCostIsLeast(vertices, keys);
    }

    /** The branch of the main loop where u's key is out of date (u's key
        is below its recalculated one): u takes the recalculated key, leaves
        the queue head and is offered again. */
    method Rekey(m: nat)
      requires Valid() && startKey.Some? && m < |open|
      modifies this
      ensures Valid()
      ensures Grew(grid, old(vertices), vertices)
      ensures pred == old(pred) && startKey == old(startKey) && goalKey == old(goalKey)
      ensures var k := old(open[m]);
        && vertices == old(vertices)[k := CalculateKey(old(vertices[k]), old(StartAt()), km)]
        && open == Poll(old(open), m) + [k]
    {
      var k := open[m];
      var u' := CalculateKey(vertices[k], StartAt(), km);
      Refile(vertices, k, u');
      vertices := vertices[k := u'];
      open := Poll(open, m) + [k];
    }

    /** One pass of the successor loop of the g > rhs branch: unless s is
        the goal, rhs(s) := min(rhs(s), cost(s) + g(u)); then updateVertex(s). */
    method Relax(k: int32, gu: int32)
      requires Valid() && k in vertices && startKey.Some? && goalKey.Some?
      modifies this
      ensures Valid()
      ensures Grew(grid, old(vertices), vertices)
      ensures pred == old(pred) && startKey == old(startKey) && goalKey == old(goalKey)
      ensures RelaxEffect(old(vertices), old(open), vertices, open, k, gu, old(GoalAt()))
    {
      var v := vertices[k];
      if v.at != GoalAt() {
        var v' := v.(rhs := Min32(v.rhs, Add32(v.cost, gu)));
        Refile(vertices, k, v');
        vertices := vertices[k := v'];
      }
      UpdateVertex(k);
    }

    /** The g > rhs branch: g(u) := rhs(u), u leaves the queue, and each
        successor s is relaxed through u and updated. */
    method Lower(m: nat) returns (ghost succ: seq<int32>)
      requires Valid() && startKey.Some? && goalKey.Some? && m < |open|
      modifies this
      ensures Valid()
      ensures Grew(grid, old(vertices), vertices)
      ensures pred == old(pred) && startKey == old(startKey) && goalKey == old(goalKey)
      ensures succ == Hashes(Successors4(grid, old(vertices[open[m]].at)))
      ensures Lowered(old(vertices), old(open), vertices, open, m, succ, old(GoalAt()))
    {
      var uk := open[m];
      var u := vertices[uk];
      var u' := u.(g := u.rhs);
      Refile(vertices, uk, u');
      ghost var t0, o0 := vertices, open;
      vertices := vertices[uk := u'];
      open := Poll(open, m);
      ghost var t1, o1 := vertices, open;
      succ := RelaxSuccessors(u.at, u.rhs);
      LoweredIntro(grid, t0, o0, t1, o1, vertices, open, m, succ, old(GoalAt()));
    }

    /** `for (DNode s : successors(u))` of the g > rhs branch, for a u at
        `at` whose g is gu. */
    method RelaxSuccessors(at: Coord, gu: int32) returns (ghost succ: seq<int32>)
      requires Valid() && startKey.Some? && goalKey.Some?
      modifies this
      ensures Valid()
      ensures Grew(grid, old(vertices), vertices)
      ensures pred == old(pred) && startKey == old(startKey) && goalKey == old(goalKey)
      ensures succ == Hashes(Successors4(grid, at))
      ensures RelaxedAll(old(vertices), old(open), vertices, open, succ, gu, old(GoalAt()))
    {
      var keys := Successors(at);
      succ := keys;
      ghost var t0, q, goalAt := vertices, open, GoalAt();
      RelaxEach(keys, gu);
      assert RelaxInv(t0, q, vertices, open, succ, gu, goalAt);
    }

    /** The loop over successors(u) of the g > rhs branch, for u's g = gu. */
    method RelaxEach(succ: seq<int32>, gu: int32)
      requires Valid() && startKey.Some? && goalKey.Some?
      requires forall s :: s in succ ==> s in vertices
      modifies this
      ensures Valid()
      ensures Grew(grid, old(vertices), vertices)
      ensures pred == old(pred) && startKey == old(startKey) && goalKey == old(goalKey)
      ensures RelaxInv(old(vertices), old(open), vertices, open, succ, gu, old(GoalAt()))
    {
      ghost var q := open;
      ghost var t0 := vertices;
      ghost var goalAt := GoalAt();
      for i := 0 to |succ|
        invariant Valid()
        invariant pred == old(pred) && startKey == old(startKey) && goalKey == old(goalKey)
        invariant forall s :: s in succ ==> s in vertices
        invariant GoalAt() == goalAt
        invariant RelaxInv(t0, q, vertices, open, succ[..i], gu, goalAt)
      {
        assert succ[..i + 1] == succ[..i] + [succ[i]];
        ghost var t, o := vertices, open;
        Relax(succ[i], gu);
        RelaxInvStep(t0, q, t, o, vertices, open, succ[..i], succ[i], gu, goalAt);
      }
      assert succ[..|succ|] == succ;
    }

    /** One vertex of pred(u) ∪ {u} in the remaining branch, filed under k:
        its successors are looked up, and if its rhs was derived from u's
        old g (rhs == gOld), rhs becomes their least g + cost (the goal keeps
        its rhs) and the vertex is updated. */
    method Recompute(k: int32, gOld: int32) returns (keys: seq<int32>)
      requires Valid() && k in vertices && startKey.Some? && goalKey.Some?
      modifies this
      ensures Valid()
      ensures Grew(grid, old(vertices), vertices)
      ensures pred == old(pred) && startKey == old(startKey) && goalKey == old(goalKey)
      ensures keys == Hashes(Successors4(grid, old(vertices)[k].at))
      ensures Recomputed(old(vertices), old(open), vertices, open, k, gOld, old(GoalAt()), keys)
    {
      keys := Successors(vertices[k].at);
      var least := MinimumOfSucc(keys);
      ghost var t1 := vertices;
      Reset(k, gOld, least);
      ResetRecomputes(old(vertices), old(open), t1, vertices, open, k, gOld, old(GoalAt()), keys);
      GrewTrans(grid, old(vertices), t1, vertices);
    }

    /** The test and update of Recompute, given the least g + cost of the
        vertex's successors. */
    method Reset(k: int32, gOld: int32, least: int32)
      requires Valid() && k in vertices && startKey.Some? && goalKey.Some?
      modifies this
      ensures Valid()
      ensures Grew(grid, old(vertices), vertices)
      ensures pred == old(pred) && startKey == old(startKey) && goalKey == old(goalKey)
      ensures WasReset(old(vertices), old(open), vertices, open, k, gOld, old(GoalAt()), least)
    {
      var v := vertices[k];
      if v.rhs == gOld {
        ghost var goalAt := GoalAt();
        if v.at != GoalAt() {
          Refile(vertices, k, v.(rhs := least));
          vertices := vertices[k := v.(rhs := least)];
        }
        ghost var tm := vertices;
        UpdateVertex(k);
        assert Same(vertices[k], tm[k]) && vertices[k].rhs == tm[k].rhs;
        ResetThenUpdate(old(vertices), old(open), vertices, open, k, gOld, goalAt, least);
      }
    }

    /** The remaining branch, for the m-th queued vertex u with
        g(u) <= rhs(u): g(u) := MAX_VALUE; then u, and each point of
        backtrace(pred, u), is recomputed. u is not polled. */
    method Raise(m: nat)
      requires Valid() && startKey.Some? && goalKey.Some? && m < |open|
      modifies this
      ensures Valid()
      ensures Grew(grid, old(vertices), vertices)
      ensures pred == old(pred) && startKey == old(startKey) && goalKey == old(goalKey)
      ensures var k := old(open[m]);
        var u := old(vertices[k]);
        && Recomputed(old(vertices)[k := u.(g := INT_MAX)], old(open), vertices, open, k, u.g, old(GoalAt()),
                      Hashes(Successors4(grid, u.at)))
        && vertices[k].g == INT_MAX
    {
      var k := open[m];
      var u := vertices[k];
      var gOld := u.g;
      Refile(vertices, k, u.(g := INT_MAX));
      vertices := vertices[k := u.(g := INT_MAX)];
      RecomputeWithChain(k, gOld);
    }

    /** u's own recomputation, then one for each point of backtrace(pred, u).
        Every value in pred is null, so that chain is [u] and u is
        recomputed twice. */
    method RecomputeWithChain(k: int32, gOld: int32)
      requires Valid() && k in vertices && startKey.Some? && goalKey.Some?
      modifies this
      ensures Valid()
      ensures Grew(grid, old(vertices), vertices)
      ensures pred == old(pred) && startKey == old(startKey) && goalKey == old(goalKey)
      ensures Recomputed(old(vertices), old(open), vertices, open, k, gOld, old(GoalAt()),
                         Hashes(Successors4(grid, old(vertices)[k].at)))
    {
      ghost var at := vertices[k].at;
      ghost var goalAt := GoalAt();
      ghost var succ0 := Hashes(Successors4(grid, at));
      var succ := Recompute(k, gOld);
      ghost var t1, o1 := vertices, open;
      var chain := Backtrace(pred, map[], vertices[k].at);
      assert chain == [at];
      assert succ == succ0;
      assert GoalAt() == goalAt && vertices[k].at == at;
      var again := Recompute(k, gOld);
      assert again == succ0;
      RecomputedTwice(old(vertices), old(open), t1, o1, vertices, open, k, gOld, goalAt, succ0);
      GrewTrans(grid, old(vertices), t1, vertices);
    }

    /** One pass of search's main loop for the m-th queued vertex u: a u
        whose key is below its recalculated key is re-keyed; otherwise an
        over-consistent u (g > rhs) is lowered, and any other u raised. */
    method Iterate(m: nat)
      requires Valid() && startKey.Some? && goalKey.Some? && m < |open|
      modifies this
      ensures Valid()
      ensures Grew(grid, old(vertices), vertices)
      ensures pred == old(pred) && startKey == old(startKey) && goalKey == old(goalKey)
      ensures var k := old(open[m]);
        var u := old(vertices[k]);
        && k in vertices
        && (Compare(u, CalculateKey(CopyVertex(u), old(StartAt()), km)) == -1 ==>
              vertices[k] == CalculateKey(u, old(StartAt()), km) && open == Poll(old(open), m) + [k])
        && (Compare(u, CalculateKey(CopyVertex(u), old(StartAt()), km)) != -1 && u.g > u.rhs ==>
              vertices[k].g == u.rhs)
        && (Compare(u, CalculateKey(CopyVertex(u), old(StartAt()), km)) != -1 && u.g <= u.rhs ==>
              vertices[k].g == INT_MAX)
    {
      var k := open[m];
      var u := vertices[k];
      var kNew := CalculateKey(CopyVertex(u), StartAt(), km);
      if Compare(u, kNew) == -1 {
        Rekey(m);
      } else if u.g > u.rhs {
        ghost var succ := Lower(m);
      } else {
        Raise(m);
      }
    }

    /** One pass of getPath's loop from the last point of path: look up
        the successors (filing absent ones) and pick the step, if any. */
    method NextStep(path: seq<Coord>) returns (next: Option<Vertex>)
      requires Valid() && path != []
      modifies this
      ensures Valid()
      ensures open == old(open) && pred == old(pred) && startKey == old(startKey) && goalKey == old(goalKey)
      ensures Grew(grid, old(vertices), vertices)
      ensures forall k :: k in old(vertices) ==> k in vertices && vertices[k] == old(vertices[k])
      ensures Interned(grid, vertices, path) && next == Next(grid, vertices, path)
    {
      var keys := Successors(path[|path| - 1]);
      var cands := Candidates(vertices, keys, path);
      if cands == [] {
        next := None;
      } else {
        next := Some(cands[MinByCost(cands)]);
      }
    }

    /** NextStep on a traced path, which it leaves traced. */
    method NextStepTraced(path: seq<Coord>) returns (next: Option<Vertex>)
      requires Valid() && path != [] && Traced(grid, vertices, path)
      modifies this
      ensures Valid()
      ensures open == old(open) && pred == old(pred) && startKey == old(startKey) && goalKey == old(goalKey)
      ensures Grew(grid, old(vertices), vertices)
      ensures forall k :: k in old(vertices) ==> k in vertices && vertices[k] == old(vertices[k])
      ensures Interned(grid, vertices, path) && next == Next(grid, vertices, path)
      ensures Traced(grid, vertices, path)
    {
      ghost var t0 := vertices;
      next := NextStep(path);
      TracedFrame(grid, t0, vertices, path);
    }

    /** One pass of search's main loop on the m-th queued vertex, then the
        next peek and the recalculation of the start's key, which leaves that
        key current. */
    method Pass(m: nat) returns (u: Option<nat>)
      requires Valid() && startKey.Some? && goalKey.Some? && m < |open|
      modifies this
      ensures Valid()
      ensures pred == old(pred) && startKey == old(startKey) && goalKey == old(goalKey)
      ensures Grew(grid, old(vertices), vertices)
      ensures u.None? <==> open == []
      ensures u.Some? ==> u.value < |open|
      ensures vertices[startKey.value] == CalculateKey(vertices[startKey.value], StartAt(), km)
    {
      Iterate(m);
      ghost var t := vertices;
      u := Peek();
      var sk := startKey.value;
      var s := CalculateKey(vertices[sk], StartAt(), km);
      Refile(vertices, sk, s);
      vertices := vertices[sk := s];
      GrewTrans(grid, old(vertices), t, vertices);
    }

    /** getPath(start_n, goal_n): from the start, repeatedly step to the
        least table vertex of a valid neighbour not yet on the path, until
        the goal is reached or no such vertex remains. */
    method GetPath() returns (path: seq<Coord>)
      requires Valid() && startKey.Some? && goalKey.Some?
      modifies this
      ensures Valid()
      ensures open == old(open) && pred == old(pred) && startKey == old(startKey) && goalKey == old(goalKey)
      ensures Grew(grid, old(vertices), vertices)
      ensures forall k :: k in old(vertices) ==> k in vertices && vertices[k] == old(vertices[k])
      ensures GetPathOf(grid, vertices, old(StartAt()), old(GoalAt()), path) && Distinct(path)
    {
      ghost var t0 := vertices;
      ghost var goal := GoalAt();
      var cur := StartAt();
      path := [cur];
      ghost var S := (set k | k in t0 :: t0[k].at) + Cells(grid) + {cur};
      while cur != GoalAt()
        invariant Valid()
        invariant open == old(open) && pred == old(pred) && startKey == old(startKey) && goalKey == old(goalKey)
        invariant Grew(grid, t0, vertices)
        invariant forall k :: k in t0 ==> k in vertices && vertices[k] == t0[k]
        invariant GoalAt() == goal && Walking(grid, vertices, old(StartAt()), goal, path) && cur == path[|path| - 1]
        invariant forall x :: x in path ==> x in S
        decreases |S| - |path|
      {
        ghost var t1 := vertices;
        var next := NextStepTraced(path);
        GrewTrans(grid, t0, t1, vertices);
        if next.None? {
          break;
        }
        PathGrows(grid, t0, vertices, old(StartAt()), goal, path, S);
        cur := next.value.at;
        path := path + [cur];
      }
    }

    /** search(initial, goal), its main loop allowed at most fuel passes.
        A path exists when the start's rhs is finite; the path is then
        getPath's, reported with the constant cost 10, and otherwise the
        result is empty with cost 0. A peek at an empty open list is the
        null dereference of `u.compareTo`. */
    method Search(initial: Coord, goal: Coord, fuel: nat) returns (out: Outcome)
      requires Valid() && IsInt32(initial) && IsInt32(goal)
      modifies this
      ensures Valid()
      ensures startKey == Some(VertexHashCode(initial)) && goalKey == Some(VertexHashCode(goal))
      ensures forall k :: k in old(vertices) ==> k in vertices && vertices[k].at == old(vertices[k].at)
      ensures old(OnCells(grid, vertices)) && InGrid(grid, initial) && InGrid(grid, goal) ==>
        OnCells(grid, vertices)
      ensures out.Threw? ==> out.e == NullPointer
      ensures out.Returned? ==> vertices[startKey.value].rhs <= vertices[startKey.value].g
      ensures out.Returned? ==>
        (out.result == SearchResult([], 0) <==> vertices[startKey.value].rhs == INT_MAX)
      ensures out.Returned? && out.result.path != [] ==>
        var path := out.result.path;
        && out.result.cost == 10
        && GetPathOf(grid, vertices, StartAt(), GoalAt(), path) && Distinct(path)
        && (SmallWorld(grid) && OnCells(grid, vertices) ==> IsWalk(grid, path))
    {
      Prepare(initial, goal);
      OpenedFacts(old(vertices), initial, goal);
      ghost var t1 := vertices;
      assert old(OnCells(grid, vertices)) && InGrid(grid, initial) && InGrid(grid, goal) ==>
        OnCells(grid, vertices);
      var sk := startKey.value;
      var u := Peek();
      var n := fuel;
      while true
        invariant Valid()
        invariant startKey == Some(sk) && goalKey == Some(VertexHashCode(goal)) && sk == VertexHashCode(initial)
        invariant Grew(grid, t1, vertices)
        invariant u.Some? ==> u.value < |open|
        decreases n
      {
        if u.None? {
          return Threw(NullPointer);
        }
        if !(Compare(vertices[open[u.value]], vertices[sk]) == -1 || vertices[sk].rhs > vertices[sk].g) {
          break;
        }
        if n == 0 {
          return OutOfFuel;
        }
        n := n - 1;
        ghost var t2 := vertices;
        u := Pass(u.value);
        GrewTrans(grid, t1, t2, vertices);
      }
      ghost var t3 := vertices;
      var r := Report();
      GrewTrans(grid, t1, t3, vertices);
      return Returned(r);
    }

    /** The end of search: getPath's path with the constant cost 10 when the
        start's rhs is finite, and otherwise the empty path with cost 0. */
    method Report() returns (r: SearchResult)
      requires Valid() && startKey.Some? && goalKey.Some?
      modifies this
      ensures Valid()
      ensures startKey == old(startKey) && goalKey == old(goalKey)
      ensures Grew(grid, old(vertices), vertices)
      ensures vertices[startKey.value] == old(vertices[startKey.value])
      ensures r == SearchResult([], 0) <==> vertices[startKey.value].rhs == INT_MAX
      ensures r.path != [] ==>
        && r.cost == 10
        && GetPathOf(grid, vertices, StartAt(), GoalAt(), r.path) && Distinct(r.path)
        && (SmallWorld(grid) && OnCells(grid, vertices) ==> IsWalk(grid, r.path))
    {
      if vertices[startKey.value].rhs != INT_MAX {
        var path := GetPath();
        if SmallWorld(grid) && OnCells(grid, vertices) {
          TracedIsWalk(grid, vertices, path);
        }
        return SearchResult(path, 10);
      }
      return SearchResult([], 0);
    }
  }
}
