/** The newer package's BaseSearchAlgorithm (search/BaseSearchAlgorithm.java):
    8-connected successor generation. Its backtrace has the same body as the
    older package's and is Preds.Backtrace. */
module Base8 {
  import opened Common
  import opened Worlds
  import opened Nodes
  import opened Terrains

  /** The offsets of the candidate nodes n1..n8, in the order getSuccessors
      tests them: the four orthogonal ones, then the four diagonal ones. */
  function Offset(k: nat): Coord
    requires k < 8
  {
    match k
    case 0 => Coord(0, -1) case 1 => Coord(0, 1) case 2 => Coord(-1, 0) case 3 => Coord(1, 0)
    case 4 => Coord(1, 1) case 5 => Coord(1, -1) case 6 => Coord(-1, 1) case _ => Coord(-1, -1)
  }

  function Plus(p: Coord, d: Coord): Coord
  {
    Coord(p.x + d.x, p.y + d.y)
  }

  /** The displacement from p to q. */
  function Delta(p: Coord, q: Coord): Coord
  {
    Coord(q.x - p.x, q.y - p.y)
  }

  predicate IsDiagonal(d: Coord)
  {
    d.x != 0 && d.y != 0
  }

  /** q is one of the eight cells around p. */
  predicate Adjacent8(p: Coord, q: Coord)
  {
    q != p && Abs(q.x - p.x) <= 1 && Abs(q.y - p.y) <= 1
  }

  /** The node built for offset d: cost 0 and path cost 1 for an orthogonal
      step, diagCost for a diagonal one. */
  function Neighbour(p: Coord, d: Coord): NodeVal
  {
    NodeVal(Plus(p, d), 0.0, if IsDiagonal(d) then DiagCost else 1.0)
  }

  /** The test applied to the node for offset d: a valid position and, for
      a diagonal, accessible through p. */
  predicate Admits(t: Terrain, p: Coord, d: Coord)
    requires t.Ok()
  {
    t.Valid(Plus(p, d)) && (IsDiagonal(d) ==> ((Plus(p, d), p) in t.through))
  }

  /** The candidate nodes n1..n8, as getSuccessors builds them. */
  function Candidates(p: Coord): (c: seq<NodeVal>)
    ensures |c| == 8
  {
    [NodeVal(Coord(p.x + 0, p.y - 1), 0.0, 1.0), NodeVal(Coord(p.x + 0, p.y + 1), 0.0, 1.0),
     NodeVal(Coord(p.x - 1, p.y + 0), 0.0, 1.0), NodeVal(Coord(p.x + 1, p.y + 0), 0.0, 1.0),
     NodeVal(Coord(p.x + 1, p.y + 1), 0.0, DiagCost), NodeVal(Coord(p.x + 1, p.y - 1), 0.0, DiagCost),
     NodeVal(Coord(p.x - 1, p.y + 1), 0.0, DiagCost), NodeVal(Coord(p.x - 1, p.y - 1), 0.0, DiagCost)]
  }

  /** The test each candidate must pass to be added. */
  function Mask(t: Terrain, p: Coord): (m: seq<bool>)
    requires t.Ok()
    ensures |m| == 8
  {
    var c := Candidates(p);
    [t.Valid(c[0].at), t.Valid(c[1].at), t.Valid(c[2].at), t.Valid(c[3].at),
     t.Valid(c[4].at) && (c[4].at, p) in t.through, t.Valid(c[5].at) && (c[5].at, p) in t.through,
     t.Valid(c[6].at) && (c[6].at, p) in t.through, t.Valid(c[7].at) && (c[7].at, p) in t.through]
  }

  /** Candidate j is the neighbour for offset j, and its test is Admits. */
  lemma CandidateByOffset(t: Terrain, p: Coord, j: nat)
    requires t.Ok() && j < 8
    ensures Candidates(p)[j] == Neighbour(p, Offset(j))
    ensures Mask(t, p)[j] == Admits(t, p, Offset(j))
  {
  }

  /** The elements of the first k candidates whose mask entry is set, in
      order. */
  function Kept<T>(c: seq<T>, m: seq<bool>, k: nat): seq<T>
    requires k <= |c| == |m|
  {
    if k == 0 then [] else Kept(c, m, k - 1) + (if m[k - 1] then [c[k - 1]] else [])
  }

  /** The admitted candidate nodes, in candidate order. */
  function Successors8(t: Terrain, p: Coord): seq<NodeVal>
    requires t.Ok()
  {
    Kept(Candidates(p), Mask(t, p), 8)
  }

  /** The coordinates of a list of nodes. */
  function Ats(ns: seq<NodeVal>): (r: seq<Coord>)
    ensures |r| == |ns| && forall i :: 0 <= i < |ns| ==> r[i] == ns[i].at
  {
    seq(|ns|, i requires 0 <= i < |ns| => ns[i].at)
  }

  /** getSuccessors(p): the eight candidate nodes n1..n8 are built, and each
      that passes its test is appended. */
  method GetSuccessors(t: Terrain, p: Coord) returns (s: seq<NodeVal>)
    requires t.Ok()
    ensures s == Successors8(t, p)
  {
    s := [];
    var n1 := NodeVal(Coord(p.x + 0, p.y - 1), 0.0, 1.0);
    var n2 := NodeVal(Coord(p.x + 0, p.y + 1), 0.0, 1.0);
    var n3 := NodeVal(Coord(p.x - 1, p.y + 0), 0.0, 1.0);
    var n4 := NodeVal(Coord(p.x + 1, p.y + 0), 0.0, 1.0);
    var n5 := NodeVal(Coord(p.x + 1, p.y + 1), 0.0, DiagCost);
    var n6 := NodeVal(Coord(p.x + 1, p.y - 1), 0.0, DiagCost);
    var n7 := NodeVal(Coord(p.x - 1, p.y + 1), 0.0, DiagCost);
    var n8 := NodeVal(Coord(p.x - 1, p.y - 1), 0.0, DiagCost);
    ghost var c, m := Candidates(p), Mask(t, p);
    if t.Valid(n1.at) {
      s := s + [n1];
    }
    assert s == Kept(c, m, 1);
    if t.Valid(n2.at) {
      s := s + [n2];
    }
    assert s == Kept(c, m, 2);
    if t.Valid(n3.at) {
      s := s + [n3];
    }
    assert s == Kept(c, m, 3);
    if t.Valid(n4.at) {
      s := s + [n4];
    }
    assert s == Kept(c, m, 4);
    if t.Valid(n5.at) && ((n5.at, p) in t.through) {
      s := s + [n5];
    }
    assert s == Kept(c, m, 5);
    if t.Valid(n6.at) && ((n6.at, p) in t.through) {
      s := s + [n6];
    }
    assert s == Kept(c, m, 6);
    if t.Valid(n7.at) && ((n7.at, p) in t.through) {
      s := s + [n7];
    }
    assert s == Kept(c, m, 7);
    if t.Valid(n8.at) && ((n8.at, p) in t.through) {
      s := s + [n8];
    }
    assert s == Kept(c, m, 8);
  }

  /** The positions of the first k candidates whose mask entry is set, in
      order. */
  ghost function KeptIdx(m: seq<bool>, k: nat): seq<nat>
    requires k <= |m|
  {
    if k == 0 then [] else KeptIdx(m, k - 1) + (if m[k - 1] then [k - 1] else [])
  }

  /** The kept elements are the candidates at the kept positions. */
  lemma {:induction false} KeptByIdx<T>(c: seq<T>, m: seq<bool>, k: nat)
    requires k <= |c| == |m|
    ensures |Kept(c, m, k)| == |KeptIdx(m, k)|
    ensures forall i :: 0 <= i < |KeptIdx(m, k)| ==>
      KeptIdx(m, k)[i] < |c| && Kept(c, m, k)[i] == c[KeptIdx(m, k)[i]]
  {
    if k > 0 {
      KeptByIdx(c, m, k - 1);
      KeptIdxSorted(m, k - 1);
      var r0, ix0 := Kept(c, m, k - 1), KeptIdx(m, k - 1);
      var r, ix := Kept(c, m, k), KeptIdx(m, k);
      forall i | 0 <= i < |ix|
        ensures ix[i] < |c| && r[i] == c[ix[i]]
      {
        if i < |ix0| {
          assert ix[i] == ix0[i] && r[i] == r0[i];
        }
      }
    }
  }

  /** The kept positions are positions before k whose mask entry is set,
      in increasing order. */
  lemma {:induction false} KeptIdxSorted(m: seq<bool>, k: nat)
    requires k <= |m|
    ensures forall i :: 0 <= i < |KeptIdx(m, k)| ==> KeptIdx(m, k)[i] < k && m[KeptIdx(m, k)[i]]
    ensures forall i, i' :: 0 <= i < i' < |KeptIdx(m, k)| ==> KeptIdx(m, k)[i] < KeptIdx(m, k)[i']
  {
    if k > 0 {
      KeptIdxSorted(m, k - 1);
      var ix0, ix := KeptIdx(m, k - 1), KeptIdx(m, k);
      var tail: seq<nat> := if m[k - 1] then [k - 1] else [];
      assert ix == ix0 + tail;
      forall i | 0 <= i < |ix|
        ensures ix[i] < k && m[ix[i]]
      {
        if i < |ix0| {
          assert ix[i] == ix0[i];
        } else {
          assert ix[i] == tail[i - |ix0|] == k - 1;
        }
      }
      forall i, i' | 0 <= i < i' < |ix|
        ensures ix[i] < ix[i']
      {
        assert ix[i] == ix0[i];
        if i' >= |ix0| {
          assert ix[i'] == tail[i' - |ix0|] == k - 1;
        } else {
          assert ix[i'] == ix0[i'];
        }
      }
    }
  }

  /** Every position before k whose mask entry is set is kept. */
  lemma {:induction false} KeptIdxComplete(m: seq<bool>, k: nat)
    requires k <= |m|
    ensures forall j :: 0 <= j < k && m[j] ==> j in KeptIdx(m, k)
  {
    if k > 0 {
      KeptIdxComplete(m, k - 1);
    }
  }

  /** Stepping by offset j reaches one of the eight cells around p, and the
      step is diagonal exactly for the last four offsets. */
  lemma OffsetFacts(p: Coord, j: nat)
    requires j < 8
    ensures Delta(p, Plus(p, Offset(j))) == Offset(j) && Adjacent8(p, Plus(p, Offset(j)))
    ensures IsDiagonal(Offset(j)) <==> j >= 4
  {
  }

  /** Distinct offsets reach distinct cells. */
  lemma OffsetsDistinct(p: Coord, a: nat, b: nat)
    requires a < 8 && b < 8 && a != b
    ensures Plus(p, Offset(a)) != Plus(p, Offset(b))
  {
  }

  /** Each of the eight cells around p is reached by some offset. */
  lemma AdjacentOffset(p: Coord, q: Coord) returns (j: nat)
    requires Adjacent8(p, q)
    ensures j < 8 && Plus(p, Offset(j)) == q
  {
    var d := Delta(p, q);
    j := if d == Offset(0) then 0 else if d == Offset(1) then 1 else if d == Offset(2) then 2
      else if d == Offset(3) then 3 else if d == Offset(4) then 4 else if d == Offset(5) then 5
      else if d == Offset(6) then 6 else 7;
  }

  /** A strictly increasing sequence of positions below n has its i-th
      element at least i, and so at most n elements. */
  lemma {:induction false} IncreasingBelow(ix: seq<nat>, n: nat, i: nat)
    requires forall i :: 0 <= i < |ix| ==> ix[i] < n
    requires forall i, i' :: 0 <= i < i' < |ix| ==> ix[i] < ix[i']
    requires i < |ix|
    ensures ix[i] >= i && |ix| <= n
  {
    if i > 0 {
      IncreasingBelow(ix, n, i - 1);
    }
    if |ix| > n {
      AtLeastIndex(ix, n);
    }
  }

  lemma {:induction false} AtLeastIndex(ix: seq<nat>, i: nat)
    requires forall i, i' :: 0 <= i < i' < |ix| ==> ix[i] < ix[i']
    requires i < |ix|
    ensures ix[i] >= i
  {
    if i > 0 {
      AtLeastIndex(ix, i - 1);
    }
  }

  /** The positions of the candidates getSuccessors keeps. */
  ghost function SuccessorIdx(t: Terrain, p: Coord): seq<nat>
    requires t.Ok()
  {
    KeptIdx(Mask(t, p), 8)
  }

  /** getSuccessors keeps the candidates at increasing positions, exactly
      those whose test passes. */
  lemma SuccessorsByIdx(t: Terrain, p: Coord)
    requires t.Ok()
    ensures |Successors8(t, p)| == |SuccessorIdx(t, p)| <= 8
    ensures forall i :: 0 <= i < |SuccessorIdx(t, p)| ==>
      SuccessorIdx(t, p)[i] < 8 && Mask(t, p)[SuccessorIdx(t, p)[i]]
      && Successors8(t, p)[i] == Candidates(p)[SuccessorIdx(t, p)[i]]
    ensures forall i, i' :: 0 <= i < i' < |SuccessorIdx(t, p)| ==> SuccessorIdx(t, p)[i] < SuccessorIdx(t, p)[i']
    ensures forall j :: 0 <= j < 8 && Mask(t, p)[j] ==> j in SuccessorIdx(t, p)
  {
    var c, m := Candidates(p), Mask(t, p);
    KeptByIdx(c, m, 8);
    KeptIdxSorted(m, 8);
    KeptIdxComplete(m, 8);
    var ix := SuccessorIdx(t, p);
    if |ix| > 0 {
      IncreasingBelow(ix, 8, 0);
    }
  }

  /** getSuccessors returns at most eight distinct neighbours of p, never p
      itself. */
  lemma SuccessorsDistinct(t: Terrain, p: Coord)
    requires t.Ok()
    ensures |Successors8(t, p)| <= 8
    ensures Distinct(Ats(Successors8(t, p))) && p !in Ats(Successors8(t, p))
  {
    SuccessorsByIdx(t, p);
    var at, ix := Ats(Successors8(t, p)), SuccessorIdx(t, p);
    forall i | 0 <= i < |at|
      ensures at[i] != p
    {
      CandidateByOffset(t, p, ix[i]);
      OffsetFacts(p, ix[i]);
    }
    forall i, j | 0 <= i < j < |at|
      ensures at[i] != at[j]
    {
      CandidateByOffset(t, p, ix[i]);
      CandidateByOffset(t, p, ix[j]);
      OffsetsDistinct(p, ix[i], ix[j]);
    }
  }

  /** A cell is among getSuccessors(p) exactly when it is one of the eight
      around p, a valid position, and, for a diagonal step, accessible
      through p. */
  lemma SuccessorsAreNeighbours(t: Terrain, p: Coord)
    requires t.Ok()
    ensures forall q :: q in Ats(Successors8(t, p)) <==>
      Adjacent8(p, q) && t.Valid(q) && (IsDiagonal(Delta(p, q)) ==> (q, p) in t.through)
  {
    SuccessorsByIdx(t, p);
    var at, ix := Ats(Successors8(t, p)), SuccessorIdx(t, p);
    forall q | q in at
      ensures Adjacent8(p, q) && t.Valid(q) && (IsDiagonal(Delta(p, q)) ==> (q, p) in t.through)
    {
      var i :| 0 <= i < |at| && at[i] == q;
      CandidateByOffset(t, p, ix[i]);
      OffsetFacts(p, ix[i]);
    }
    forall q | Adjacent8(p, q) && t.Valid(q) && (IsDiagonal(Delta(p, q)) ==> (q, p) in t.through)
      ensures q in at
    {
      var j := AdjacentOffset(p, q);
      CandidateByOffset(t, p, j);
      OffsetFacts(p, j);
      var i :| 0 <= i < |ix| && ix[i] == j;
      assert at[i] == q;
    }
  }

  /** Every successor has cost 0 and path cost 1 for an orthogonal step,
      diagCost for a diagonal one; the orthogonal ones come first. */
  lemma SuccessorCosts(t: Terrain, p: Coord)
    requires t.Ok()
    ensures forall n :: n in Successors8(t, p) ==>
      n.cost == 0.0 && n.path == if IsDiagonal(Delta(p, n.at)) then DiagCost else 1.0
    ensures forall i, j :: 0 <= i < j < |Successors8(t, p)| && IsDiagonal(Delta(p, Successors8(t, p)[i].at)) ==>
      IsDiagonal(Delta(p, Successors8(t, p)[j].at))
  {
    SuccessorsByIdx(t, p);
    var s, ix := Successors8(t, p), SuccessorIdx(t, p);
    forall i | 0 <= i < |s|
      ensures s[i] == Neighbour(p, Offset(ix[i]))
      ensures Delta(p, s[i].at) == Offset(ix[i]) && (IsDiagonal(Offset(ix[i])) <==> ix[i] >= 4)
    {
      CandidateByOffset(t, p, ix[i]);
      OffsetFacts(p, ix[i]);
    }
  }

  /** The moves getSuccessors allows (Base8.SuccessorsAreNeighbours): to
      a valid 8-neighbour, diagonally only where isAccessableThrough holds. */
  ghost function Moves(t: Terrain): iset<(Coord, Coord)>
    requires t.Ok()
  {
    iset e: (Coord, Coord) | Adjacent8(e.0, e.1) && t.Valid(e.1) && (IsDiagonal(Delta(e.0, e.1)) ==> (e.1, e.0) in t.through)
  }

  /** getSuccessors(p) lists exactly the moves from p. */
  lemma SuccessorsAreMoves(t: Terrain, p: Coord)
    requires t.Ok()
    ensures forall q :: (p, q) in Moves(t) <==> q in Ats(Successors8(t, p))
    ensures forall q :: (p, q) in Moves(t) ==> t.Valid(q)
  {
    SuccessorsAreNeighbours(t, p);
  }
}
