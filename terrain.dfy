/** The world as the newer package (edu.uwm.ai.search.search) consults it.
    Its grid and isValidPosition are World.java's. The package also calls
    three World methods that World.java does not define: isAccessableThrough,
    getSuccessors(Point) and getCostOfSquare. Their code is not part of this
    model, so they enter as given functions of the world value. */
module Terrains {
  import opened Common
  import opened Worlds

  datatype Terrain = Terrain(
    grid: Grid,
    /** isAccessableThrough(n, p): whether the diagonal move from p to n is
        allowed, as the set of pairs (n, p) for which it holds. */
    through: iset<(Coord, Coord)>,
    /** World.getSuccessors(p), which breadth-first search expands with. */
    succ: Coord -> seq<Coord>,
    /** getCostOfSquare(p), the cost field that flood fill descends. */
    field: Coord -> int)
  {
    predicate Ok()
    {
      grid.Ok()
    }

    /** isValidPosition: inside the grid and free of obstacles. */
    predicate Valid(c: Coord)
      requires Ok()
    {
      grid.Open(c)
    }
  }

  /** A valid position is a cell of the grid. */
  lemma ValidIsCell(t: Terrain, c: Coord)
    requires t.Ok() && t.Valid(c)
    ensures c in Cells(t.grid)
  {
    CellsAreInGrid(t.grid, c);
  }

  /** A valid position lies inside the grid's bounds. */
  lemma ValidInBounds(t: Terrain, c: Coord)
    requires t.Ok() && t.Valid(c)
    ensures 0 <= c.x < t.grid.w && 0 <= c.y < t.grid.h
  {
  }
}
