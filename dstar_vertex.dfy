/** The values D* works with (DStarSearch.java): the DNode record, its
    two-part key and key order, the vertex-table hash, and the orders that
    minimumOfSucc and getPath use. All arithmetic is Java int arithmetic. */
module DStarVertex {
  import opened Common

  /** A DNode's fields: its coordinates, rhs, g, traversal cost and the two
      parts of its key. */
  datatype Vertex = Vertex(at: Coord, rhs: int32, g: int32, cost: int32, k1: int32, k2: int32)

  /** DNode(p, rhs, g): cost 1, and both key parts keep Java's default 0. */
  function NewVertex(p: Coord, rhs: int32, g: int32): (v: Vertex)
    ensures v.at == p && v.rhs == rhs && v.g == g
    ensures v.cost == 1 && v.k1 == 0 && v.k2 == 0
  {
    Vertex(p, rhs, g, 1, 0, 0)
  }

  /** DNode(DNode d): the copy keeps coordinates, g, rhs and the key, but not
      the cost, which is left at Java's default 0. */
  function CopyVertex(d: Vertex): (v: Vertex)
    ensures v == d.(cost := 0)
  {
    Vertex(d.at, d.rhs, d.g, 0, d.k1, d.k2)
  }

  /** heuristic(p, goal): `|p.x - goal.x| + |p.y - goal.y|` in int arithmetic. */
  function Heuristic(a: Coord, b: Coord): (h: int32)
    requires IsInt32(a) && IsInt32(b)
  {
    Add32(Abs32(Sub32(a.x as int32, b.x as int32)), Abs32(Sub32(a.y as int32, b.y as int32)))
  }

  /** On coordinates below 2^29 in magnitude nothing wraps: the heuristic is
      the Manhattan distance. */
  lemma HeuristicIsManhattan(a: Coord, b: Coord)
    requires Abs(a.x) < 0x2000_0000 && Abs(a.y) < 0x2000_0000
    requires Abs(b.x) < 0x2000_0000 && Abs(b.y) < 0x2000_0000
    ensures Heuristic(a, b) as int == Manhattan(a, b)
  {
  }

  /** calculateKey(): k2 = min(g, rhs) and k1 = k2 + heuristic(start, v) + k_m,
      evaluated left to right in int arithmetic; nothing else changes. */
  function CalculateKey(v: Vertex, start: Coord, km: int32): (r: Vertex)
    requires IsInt32(start) && IsInt32(v.at)
    ensures r == v.(k1 := r.k1, k2 := r.k2)
    ensures r.k2 == Min32(v.g, v.rhs)
  {
    var k2 := Min32(v.g, v.rhs);
    v.(k1 := Add32(Add32(k2, Heuristic(start, v.at)), km), k2 := k2)
  }

  /** The first key part is min(g, rhs) + heuristic(start, v) + k_m reduced
      into int range, and is exactly that sum when the sum is an int. */
  lemma KeyIsWrappedSum(v: Vertex, start: Coord, km: int32)
    requires IsInt32(start) && IsInt32(v.at)
    ensures var exact := Min32(v.g, v.rhs) as int + Heuristic(start, v.at) as int + km as int;
      var k1 := CalculateKey(v, start, km).k1 as int;
      (k1 - exact) % 0x1_0000_0000 == 0
      && (-0x8000_0000 <= exact < 0x8000_0000 ==> k1 == exact)
  {
  }

  /** The key of a vertex that is not reached (g = rhs = MAX_VALUE) and not
      the start wraps to a negative k1, so it orders before every reached
      vertex whose key does not wrap. */
  lemma UnreachedKeyWraps(v: Vertex, start: Coord)
    requires IsInt32(start) && IsInt32(v.at)
    requires v.g == INT_MAX && v.rhs == INT_MAX && Heuristic(start, v.at) > 0
    ensures CalculateKey(v, start, 0).k1 < 0
  {
  }

  /** compareTo: lexicographic on (k1, k2). */
  function Compare(a: Vertex, b: Vertex): (r: int)
    ensures -1 <= r <= 1
    ensures r == -1 <==> a.k1 < b.k1 || (a.k1 == b.k1 && a.k2 < b.k2)
    ensures r == 0 <==> a.k1 == b.k1 && a.k2 == b.k2
  {
    if a.k1 < b.k1 then -1
    else if a.k1 == b.k1 then (if a.k2 < b.k2 then -1 else if a.k2 == b.k2 then 0 else 1)
    else 1
  }

  /** compareTo is antisymmetric and transitive, a total preorder on keys. */
  lemma CompareIsOrder(a: Vertex, b: Vertex, c: Vertex)
    ensures Compare(a, b) == -Compare(b, a)
    ensures Compare(a, b) <= 0 && Compare(b, c) <= 0 ==> Compare(a, c) <= 0
  {
  }

  /** vertexHashCode: `1039 * x + 8329 * y` in int arithmetic. */
  function VertexHashCode(p: Coord): int32
  {
    Wrap32(1039 * p.x + 8329 * p.y)
  }

  /** 1039 has inverse 4409 modulo 8329, so the two multipliers are coprime. */
  lemma MultipliersCoprime()
    ensures 1039 * 4409 == 1 + 8329 * 550
  {
  }

  /** Two points whose x-coordinates differ by less than 8329 (and whose
      hashes do not overflow) never share a vertex-table slot. */
  lemma {:induction false} HashInjective(a: Coord, b: Coord)
    requires Abs(a.x - b.x) < 8329
    requires -0x8000_0000 <= 1039 * a.x + 8329 * a.y < 0x8000_0000
    requires -0x8000_0000 <= 1039 * b.x + 8329 * b.y < 0x8000_0000
    requires VertexHashCode(a) == VertexHashCode(b)
    ensures a == b
  {
    var dx, dy := a.x - b.x, a.y - b.y;
    assert 1039 * dx + 8329 * dy == 0;
    // Multiplying by the inverse of 1039 shows that 8329 divides dx.
    var q := -(4409 * dy) - 550 * dx;
    assert dx == 8329 * q by {
      MultipliersCoprime();
      assert 4409 * (1039 * dx) == -(4409 * (8329 * dy));
      assert 4409 * (1039 * dx) == (1 + 8329 * 550) * dx;
    }
    assert -8329 < 8329 * q < 8329;
    assert dx == 0;
    assert 8329 * dy == 0;
  }

  /** Points 8329 columns apart can collide: (8329, 0) and (0, 1039). */
  lemma HashCollision()
    ensures Coord(8329, 0) != Coord(0, 1039)
    ensures VertexHashCode(Coord(8329, 0)) == VertexHashCode(Coord(0, 1039))
  {
  }

  /** `node.getG() + node.getCost()` in int arithmetic, as minimumOfSucc sums it. */
  function GPlusCost(v: Vertex): int32
  {
    Add32(v.g, v.cost)
  }

  /** A successor that is not reached (g = MAX_VALUE, cost 1) contributes
      MIN_VALUE to minimumOfSucc, the least value there is. */
  lemma UnreachedSuccessorWraps(v: Vertex)
    requires v.g == INT_MAX && v.cost == 1
    ensures GPlusCost(v) == INT_MIN
  {
  }

  /** The comparator of getPath as written: `cost + rhs` in int arithmetic,
      with a guard meant to catch the infinite value MAX_VALUE. */
  function CompareByCostAsWritten(o1: Vertex, o2: Vertex): int
  {
    var c1, c2 := Add32(o1.cost, o1.rhs), Add32(o2.cost, o2.rhs);
    if c1 == INT_MAX || c2 == INT_MAX then (if c1 < c2 then -1 else 1)
    else if c1 < c2 then -1
    else if c1 == c2 then (if o1.k1 < o2.k1 then -1 else if o1.k1 == o2.k1 then 0 else 1)
    else 1
  }

  /** `cost + rhs` taken exactly; MAX_VALUE or more means unreached. */
  function TotalCost(v: Vertex): int
  {
    v.cost as int + v.rhs as int
  }

  /** The comparator getPath evidently intends: the sums do not wrap, so the
      guard sees an unreached vertex. Costs decide; among finite equal costs
      the smaller k1 wins. */
  function CompareByCost(o1: Vertex, o2: Vertex): (r: int)
    ensures r < 0 <==> (TotalCost(o1) < TotalCost(o2)
                        || (TotalCost(o1) == TotalCost(o2) < INT_MAX as int && o1.k1 < o2.k1))
    ensures r == 0 <==> TotalCost(o1) == TotalCost(o2) < INT_MAX as int && o1.k1 == o2.k1
  {
    var c1, c2 := TotalCost(o1), TotalCost(o2);
    if c1 >= INT_MAX as int || c2 >= INT_MAX as int then (if c1 < c2 then -1 else 1)
    else if c1 < c2 then -1
    else if c1 == c2 then (if o1.k1 < o2.k1 then -1 else if o1.k1 == o2.k1 then 0 else 1)
    else 1
  }

  /** o is at least as good as p under CompareByCost. */
  predicate NoWorse(o: Vertex, p: Vertex)
  {
    TotalCost(o) < TotalCost(p)
    || (TotalCost(o) == TotalCost(p) && (TotalCost(o) >= INT_MAX as int || o.k1 <= p.k1))
  }

  /** Collections.min(cands, cmp) with cmp = CompareByCostAsWritten: the
      first element is the candidate, and a later one replaces it when it
      compares below it. The index of the element returned. */
  function MinByCostAsWritten(cands: seq<Vertex>): (i: nat)
    requires cands != []
    ensures i < |cands|
    decreases |cands|
  {
    if |cands| == 1 then 0
    else
      var c := MinByCostAsWritten(cands[..|cands| - 1]);
      if CompareByCostAsWritten(cands[|cands| - 1], cands[c]) < 0 then |cands| - 1 else c
  }

  /** Collections.min(cands, cmp) with the corrected comparator: the element
      returned has the least cost + rhs, and among finite least costs the
      least k1, the first such in the list. */
  function MinByCost(cands: seq<Vertex>): (i: nat)
    requires cands != []
    ensures i < |cands|
    ensures forall j :: 0 <= j < |cands| ==> NoWorse(cands[i], cands[j])
    decreases |cands|
  {
    if |cands| == 1 then 0
    else
      var c := MinByCost(cands[..|cands| - 1]);
      if CompareByCost(cands[|cands| - 1], cands[c]) < 0 then |cands| - 1 else c
  }

  /** When some candidate is reached, the corrected choice is reached too. */
  lemma MinByCostPrefersReached(cands: seq<Vertex>, j: nat)
    requires j < |cands| && TotalCost(cands[j]) < INT_MAX as int
    ensures TotalCost(cands[MinByCost(cands)]) < INT_MAX as int
  {
  }

  /** cost + rhs fits in an int: the sum the source computes does not wrap. */
  predicate SumFits(v: Vertex)
  {
    TotalCost(v) <= INT_MAX as int && TotalCost(v) >= INT_MIN as int
  }

  /** When neither sum wraps, the comparator as written and the corrected
      one agree. */
  lemma CompareAgrees(o1: Vertex, o2: Vertex)
    requires SumFits(o1) && SumFits(o2)
    ensures CompareByCostAsWritten(o1, o2) == CompareByCost(o1, o2)
  {
    assert Add32(o1.cost, o1.rhs) as int == TotalCost(o1);
    assert Add32(o2.cost, o2.rhs) as int == TotalCost(o2);
  }

  /** When no candidate's sum wraps, Collections.min picks the same element
      with either comparator: the corrected step is the source's step. */
  lemma {:induction false} MinByCostAgrees(cands: seq<Vertex>)
    requires cands != [] && forall v :: v in cands ==> SumFits(v)
    ensures MinByCostAsWritten(cands) == MinByCost(cands)
    decreases |cands|
  {
    if |cands| > 1 {
      var init := cands[..|cands| - 1];
      assert forall v :: v in init ==> v in cands;
      MinByCostAgrees(init);
      var c := MinByCost(init);
      assert init[c] in cands && cands[|cands| - 1] in cands;
      CompareAgrees(cands[|cands| - 1], init[c]);
    }
  }

  /** As written, a reached candidate (rhs 5) loses to an unreached one
      (rhs MAX_VALUE), because 1 + MAX_VALUE wraps to MIN_VALUE and slips
      past the guard; the corrected comparator picks the reached one. */
  lemma AsWrittenPrefersUnreached()
    ensures var reached := NewVertex(Coord(0, 0), 5, 5);
            var unreached := NewVertex(Coord(1, 0), INT_MAX, INT_MAX);
            && MinByCostAsWritten([reached, unreached]) == 1
            && MinByCost([reached, unreached]) == 0
  {
    var reached := NewVertex(Coord(0, 0), 5, 5);
    var unreached := NewVertex(Coord(1, 0), INT_MAX, INT_MAX);
    assert [reached, unreached][..1] == [reached];
    assert Add32(1, INT_MAX) == INT_MIN;
  }
}
