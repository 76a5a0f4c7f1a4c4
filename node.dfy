/** The newer package's search node (util/Node.java): a coordinate carrying a
    priority `cost` and the cost `path` of the edge that led to it. */
module Nodes {
  import opened Common

  /** A node as the search loops handle it: the fields of a Node object. */
  datatype NodeVal = NodeVal(at: Coord, cost: real, path: real)

  /** The weight of a diagonal step, Math.sqrt(2) as a Java double. Only its
      value as a positive constant matters to the model. */
  const DiagCost: real := 1.4142135623730951

  class Node {
    const at: Coord
    var cost: real
    const path: real

    /** Node(posX, posY, cost, path). */
    constructor (posX: int, posY: int, cost: real, path: real)
      ensures at == Coord(posX, posY) && this.cost == cost && this.path == path
    {
      at := Coord(posX, posY);
      this.cost := cost;
      this.path := path;
    }

    /** Node(Point p, cost, path): takes p's coordinates, not p itself. */
    constructor FromPoint(p: Coord, cost: real, path: real)
      ensures at == p && this.cost == cost && this.path == path
    {
      at := p;
      this.cost := cost;
      this.path := path;
    }

    function Value(): (v: NodeVal)
      reads this
      ensures v.at == at && v.cost == cost && v.path == path
    {
      NodeVal(at, cost, path)
    }

    /** The only mutator: coordinates and path cost are fixed at construction. */
    method SetCost(c: real)
      modifies this
      ensures cost == c
      ensures Value() == old(Value()).(cost := c)
    {
      cost := c;
    }

    function GetCost(): (r: real)
      reads this
      ensures r == Value().cost
    {
      cost
    }

    function GetPathCost(): (r: real)
      reads this
      ensures r == Value().path
    {
      path
    }
  }
}
