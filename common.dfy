/** Shared value types of the pathfinding model: grid coordinates, optional
    values, Java's 32-bit integer arithmetic, and the result of a search. */
module Common {

  datatype Option<T> = None | Some(value: T)

  /** A grid coordinate. Java's Point, Node and DNode compare and hash by
      their coordinates only, so every coordinate-keyed HashMap of the source
      is a map keyed by this value. */
  datatype Coord = Coord(x: int, y: int)

  /** What a search returns: the path (start to goal, empty when none was
      found) and the expansion count the algorithm reports. */
  datatype SearchResult = SearchResult(path: seq<Coord>, cost: int)

  /** Java exceptions that escape a modelled operation. */
  datatype Exception = NullPointer | NoSuchElement | IndexOutOfBounds

  /** How a search call ends: it returns, it throws, it is caught in a loop
      that provably never ends (Diverges), or it runs out of the fuel that
      stands in for a loop whose termination is not evident (OutOfFuel). */
  datatype Outcome = Returned(result: SearchResult) | Threw(e: Exception) | Diverges | OutOfFuel

  /** No element occurs twice. */
  predicate Distinct<T(==)>(s: seq<T>)
  {
    forall i, j :: 0 <= i < j < |s| ==> s[i] != s[j]
  }

  /** Appending a new element keeps a sequence free of repeats. */
  lemma DistinctAppend<T>(s: seq<T>, x: T)
    requires Distinct(s) && x !in s
    ensures Distinct(s + [x])
  {
  }

  /** A non-empty sequence is its front followed by its last element. */
  lemma ButLast<T>(s: seq<T>)
    requires s != []
    ensures s == s[..|s| - 1] + [s[|s| - 1]]
  {
  }

  /** A prefix p of s is the prefix of s's one-longer prefix that drops
      its last element. */
  lemma PrefixOfTake<T>(s: seq<T>, p: seq<T>)
    requires |p| < |s| && p == s[..|p|]
    ensures p == s[..|p| + 1][..|s[..|p| + 1]| - 1]
  {
  }

  lemma TakeTake<T>(s: seq<T>, n: nat, m: nat)
    requires n <= m <= |s|
    ensures s[..m][..n] == s[..n]
  { }

  lemma TakeSnoc<T>(s: seq<T>, n: nat)
    requires n < |s|
    ensures s[..n + 1] == s[..n] + [s[n]]
  {
  }

  /** An element absent from all but the last position, and not the last,
      is absent. */
  lemma NotInButLast<T>(s: seq<T>, x: T)
    requires s != [] && x !in s[..|s| - 1] && s[|s| - 1] != x
    ensures x !in s
  {
    assert s == s[..|s| - 1] + [s[|s| - 1]];
  }

  /** A subset is no larger than its superset. */
  lemma {:induction false} SubsetCard<T>(a: set<T>, b: set<T>)
    requires a <= b
    ensures |a| <= |b|
    decreases |b|
  {
    if a != {} {
      var x :| x in a;
      SubsetCard(a - {x}, b - {x});
    }
  }

  /** A sequence without repeats whose elements all lie in S is no longer
      than S. */
  lemma {:induction false} DistinctCard<T>(s: seq<T>, S: set<T>)
    requires Distinct(s) && forall x :: x in s ==> x in S
    ensures |s| <= |S|
    decreases |s|
  {
    if s != [] {
      var x := s[|s| - 1];
      var pre := s[..|s| - 1];
      assert forall y :: y in pre ==> y in S - {x} by {
        forall y | y in pre ensures y in S - {x} {
          var i :| 0 <= i < |pre| && pre[i] == y;
          assert s[i] == y && i < |s| - 1;
        }
      }
      DistinctCard(pre, S - {x});
    }
  }

  function Abs(n: int): nat
  {
    if n < 0 then -n else n
  }

  function Max(a: int, b: int): int
  {
    if a < b then b else a
  }

  function Min(a: int, b: int): int
  {
    if a < b then a else b
  }

  /** Manhattan distance, the integer heuristic of the older algorithms. */
  function Manhattan(a: Coord, b: Coord): nat
  {
    Abs(a.x - b.x) + Abs(a.y - b.y)
  }

  lemma ManhattanIsMetric(a: Coord, b: Coord, c: Coord)
    ensures Manhattan(a, b) == Manhattan(b, a)
    ensures Manhattan(a, b) == 0 <==> a == b
    ensures Manhattan(a, c) <= Manhattan(a, b) + Manhattan(b, c)
  {
  }

  /** Java's int: nothing here is unbounded when the source is not. */
  newtype int32 = n: int | -0x8000_0000 <= n < 0x8000_0000

  const INT_MAX: int32 := 0x7fff_ffff
  const INT_MIN: int32 := -0x8000_0000

  /** Two's-complement wrap-around of an exact result into 32 bits. */
  function Wrap32(n: int): (r: int32)
    ensures (r as int - n) % 0x1_0000_0000 == 0
    ensures -0x8000_0000 <= n < 0x8000_0000 ==> r as int == n
  {
    ((n + 0x8000_0000) % 0x1_0000_0000 - 0x8000_0000) as int32
  }

  /** Java's `a + b` on int: the exact sum, less or more 2^32 when it
      leaves int range. */
  function Add32(a: int32, b: int32): (r: int32)
    ensures -0x8000_0000 <= a as int + b as int < 0x8000_0000 ==> r as int == a as int + b as int
    ensures a as int + b as int >= 0x8000_0000 ==> r as int == a as int + b as int - 0x1_0000_0000
    ensures a as int + b as int < -0x8000_0000 ==> r as int == a as int + b as int + 0x1_0000_0000
  {
    var s := a as int + b as int;
    if s >= 0x8000_0000 then (s - 0x1_0000_0000) as int32
    else if s < -0x8000_0000 then (s + 0x1_0000_0000) as int32
    else s as int32
  }

  /** Java's `a - b` on int. */
  function Sub32(a: int32, b: int32): (r: int32)
    ensures -0x8000_0000 <= a as int - b as int < 0x8000_0000 ==> r as int == a as int - b as int
    ensures a as int - b as int >= 0x8000_0000 ==> r as int == a as int - b as int - 0x1_0000_0000
    ensures a as int - b as int < -0x8000_0000 ==> r as int == a as int - b as int + 0x1_0000_0000
  {
    var s := a as int - b as int;
    if s >= 0x8000_0000 then (s - 0x1_0000_0000) as int32
    else if s < -0x8000_0000 then (s + 0x1_0000_0000) as int32
    else s as int32
  }

  /** Math.abs on int: the magnitude, except that Integer.MIN_VALUE is its
      own absolute value. */
  function Abs32(a: int32): (r: int32)
    ensures a != INT_MIN ==> r as int == Abs(a as int)
    ensures a == INT_MIN ==> r == INT_MIN
  {
    if a == INT_MIN then INT_MIN else if a < 0 then -a else a
  }

  /** Math.min on int. */
  function Min32(a: int32, b: int32): (r: int32)
    ensures r <= a && r <= b && (r == a || r == b)
  {
    if a <= b then a else b
  }

  /** Both coordinates are Java ints. */
  predicate IsInt32(c: Coord)
  {
    -0x8000_0000 <= c.x < 0x8000_0000 && -0x8000_0000 <= c.y < 0x8000_0000
  }

  /** Integer.MAX_VALUE + 1 is Integer.MIN_VALUE. */
  lemma MaxPlusOneWraps()
    ensures Add32(INT_MAX, 1) == INT_MIN
  {
  }

  /** Java's `/` on int, which truncates toward zero (Dafny's is Euclidean). */
  function JavaDiv(a: int, b: int): (q: int)
    requires b != 0
    ensures b > 0 && a >= 0 ==> q == a / b
  {
    var t := Abs(a) / Abs(b);
    if (a < 0) != (b < 0) then -t else t
  }

  function Sign(n: int): int
  {
    if n > 0 then 1 else if n < 0 then -1 else 0
  }

  /** `d / Math.max(Math.abs(d), 1)`, the normalisation the jump-point code
      applies to a displacement, is its sign. */
  lemma NormaliseIsSign(d: int)
    ensures JavaDiv(d, Max(Abs(d), 1)) == Sign(d)
  {
    if d != 0 {
      assert Abs(d) / Abs(d) == 1;
    }
  }
}
