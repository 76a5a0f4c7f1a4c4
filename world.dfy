/** The older package's grid (World.java): a w-by-h field whose obstacles sit
    in a flat boolean array at slot `j*h + i`. The slot formula multiplies the
    row by the height, not the width, so it stays inside the array only when
    the world is at least as wide as it is tall, and it makes distinct cells
    share a slot when the world is wider than it is tall. */
module Worlds {
  import opened Common

  /** The slot of cell (i, j), the source's getIndex. */
  function Slot(h: int, i: int, j: int): int
  {
    j * h + i
  }

  lemma SlotInRange(w: nat, h: nat, i: int, j: int)
    requires 0 <= i < w && 0 <= j < h
    requires h <= w || h <= 1
    ensures 0 <= Slot(h, i, j) < w * h
  {
    if h > 1 {
      var a, b := h - 1 - j, w - h;
      assert a * h >= 0 && (h - 1) * b >= 0 by {
        NonNegProduct(a, h);
        NonNegProduct(h - 1, b);
      }
      assert j * h == (h - 1) * h - a * h;
      assert w * h == (h - 1) * h + (h - 1) * b + w;
    }
  }

  lemma NonNegProduct(a: int, b: int)
    requires a >= 0 && b >= 0
    ensures a * b >= 0
  {
  }

  /** Every in-bounds cell has its slot inside the array exactly when the
      world is empty, at most one row tall, or no taller than wide. */
  lemma SlotsFitIff(w: nat, h: nat)
    ensures (forall i, j :: 0 <= i < w && 0 <= j < h ==> 0 <= Slot(h, i, j) < w * h)
        <==> (w == 0 || h <= 1 || h <= w)
  {
    if w == 0 || h <= 1 || h <= w {
      forall i, j | 0 <= i < w && 0 <= j < h
        ensures 0 <= Slot(h, i, j) < w * h
      {
        SlotInRange(w, h, i, j);
      }
    } else {
      assert (h - w) * (h - 1) >= 1 by {
        assert h - w >= 1 && h - 1 >= 1;
        assert (h - w) * (h - 1) >= (h - 1);
      }
      assert Slot(h, w - 1, h - 1) >= w * h;
    }
  }

  /** In a world wider than tall, cells (h, 0) and (0, 1) share slot h. */
  lemma WideWorldAliases(w: nat, h: nat)
    requires w > h >= 1
    ensures 0 <= h < w && 1 < h + 1 && Slot(h, h, 0) == Slot(h, 0, 1)
  {
  }

  /** A world's contents as a value: its dimensions and its obstacle slots.
      The searches read a world that does not change while they run, and
      state what they compute over this value. */
  datatype Grid = Grid(w: nat, h: nat, blocked: seq<bool>)
  {
    /** The world invariant (one slot per cell, int dimensions) and the fit
        of the slot formula. */
    predicate Ok()
    {
      |blocked| == w * h && w <= INT_MAX as int && h <= INT_MAX as int && (h <= w || h <= 1)
    }

    /** isValidPosition(c.x, c.y): c is in bounds and its slot holds no
        obstacle. */
    predicate Open(c: Coord)
      requires Ok()
    {
      if 0 <= c.x < w && 0 <= c.y < h then
        SlotInRange(w, h, c.x, c.y);
        !blocked[Slot(h, c.x, c.y)]
      else false
    }
  }

  /** The cells of the world; every valid position is one. */
  ghost function Cells(grid: Grid): set<Coord>
  {
    set x, y | 0 <= x < grid.w && 0 <= y < grid.h :: Coord(x, y)
  }

  /** c lies inside the world's bounds. */
  predicate InGrid(grid: Grid, c: Coord)
  {
    0 <= c.x < grid.w && 0 <= c.y < grid.h
  }

  /** The cells are exactly the in-bounds coordinates. */
  lemma CellsAreInGrid(grid: Grid, c: Coord)
    ensures c in Cells(grid) <==> InGrid(grid, c)
  {
    if InGrid(grid, c) {
      assert c == Coord(c.x, c.y);
    }
  }

  class World {
    const w: nat
    const h: nat
    const obstacles: array<bool>

    /** The array holds w*h slots, and both dimensions are Java ints. */
    ghost predicate Valid()
      reads this
    {
      obstacles.Length == w * h && w <= INT_MAX as int && h <= INT_MAX as int
    }

    /** The slot formula keeps every in-bounds cell inside the array. */
    predicate Fits()
    {
      h <= w || h <= 1
    }

    /** An obstacle-free world; the random obstacle generation is replaced by
        calls to SetObstacle. */
    constructor (w: nat, h: nat)
      requires w <= INT_MAX as int && h <= INT_MAX as int
      ensures this.w == w && this.h == h
      ensures Valid() && fresh(obstacles)
      ensures forall k :: 0 <= k < obstacles.Length ==> !obstacles[k]
    {
      this.w := w;
      this.h := h;
      obstacles := new bool[w * h](_ => false);
    }

    function GetWidth(): (r: nat)
      ensures r == w
    {
      w
    }

    function GetHeight(): (r: nat)
      ensures r == h
    {
      h
    }

    /** hasObstacle(i, j); None is the ArrayIndexOutOfBoundsException the
        array access throws when the slot is outside the array. */
    function HasObstacle(i: int, j: int): (r: Option<bool>)
      reads obstacles
      ensures r.Some? <==> 0 <= Slot(h, i, j) < obstacles.Length
      ensures r.Some? ==> r.value == obstacles[Slot(h, i, j)]
    {
      var k := Slot(h, i, j);
      if 0 <= k < obstacles.Length then Some(obstacles[k]) else None
    }

    /** isValidPosition(i, j): the bounds tests come first and short-circuit,
        so an out-of-bounds cell is answered without touching the array. */
    function IsValidPosition(i: int, j: int): (r: Option<bool>)
      reads obstacles
      ensures !(0 <= i < w && 0 <= j < h) ==> r == Some(false)
      ensures r == Some(true) <==>
        0 <= i < w && 0 <= j < h && 0 <= Slot(h, i, j) < obstacles.Length && !obstacles[Slot(h, i, j)]
      ensures r == None <==>
        0 <= i < w && 0 <= j < h && !(0 <= Slot(h, i, j) < obstacles.Length)
    {
      if i >= 0 && j >= 0 && i < w && j < h then
        match HasObstacle(i, j)
        case None => None
        case Some(b) => Some(!b)
      else Some(false)
    }

    /** The world's current contents as a value. */
    ghost function View(): (g: Grid)
      reads this, obstacles
      ensures g.w == w && g.h == h && g.blocked == obstacles[..]
      ensures Valid() && Fits() ==> g.Ok()
    {
      Grid(w, h, obstacles[..])
    }

    /** IsValidPosition on a world whose slots fit, where it never throws. */
    function Open(c: Coord): (r: bool)
      reads this, obstacles
      requires Valid() && Fits()
      ensures r <==> IsValidPosition(c.x, c.y) == Some(true)
      ensures r ==> 0 <= c.x < w && 0 <= c.y < h
      ensures r == View().Open(c)
    {
      if 0 <= c.x < w && 0 <= c.y < h then
        SlotInRange(w, h, c.x, c.y);
        !obstacles[Slot(h, c.x, c.y)]
      else false
    }

    /** setObstacle(i, j): sets exactly slot `j*h + i`, or throws (and changes
        nothing) when that slot is outside the array. No slot is ever cleared. */
    method SetObstacle(i: int, j: int) returns (thrown: bool)
      modifies obstacles
      ensures thrown <==> !(0 <= Slot(h, i, j) < obstacles.Length)
      ensures thrown ==> obstacles[..] == old(obstacles[..])
      ensures !thrown ==> obstacles[..] == old(obstacles[..])[Slot(h, i, j) := true]
      ensures !thrown ==> HasObstacle(i, j) == Some(true)
      ensures forall k :: 0 <= k < obstacles.Length && old(obstacles[k]) ==> obstacles[k]
    {
      var k := Slot(h, i, j);
      thrown := !(0 <= k < obstacles.Length);
      if !thrown {
        obstacles[k] := true;
      }
    }
  }
}
