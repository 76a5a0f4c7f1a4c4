/** Things that stand on the older package's World (Entity.java) and the
    keyboard-driven one (PlayerEntity.java). An entity keeps the very Point
    object it was built with and moves by mutating it. */
module Entities {
  import opened Common
  import opened Points
  import opened Worlds

  class Entity {
    const world: World
    const p: Point

    /** The position object is shared with the caller, not copied. */
    constructor (world: World, p: Point)
      ensures this.world == world && this.p == p
    {
      this.world := world;
      this.p := p;
    }

    /** The entity stands on a valid cell. */
    predicate Placed()
      reads this, p, world.obstacles
    {
      world.IsValidPosition(p.x as int, p.y as int) == Some(true)
    }

    /** moveTo(newX, newY): moves exactly there when the cell is valid and
        stays put otherwise; thrown is the out-of-array exception of a world
        whose slots do not fit. */
    method MoveTo(newX: int32, newY: int32) returns (thrown: bool)
      modifies p
      ensures thrown <==> world.IsValidPosition(newX as int, newY as int) == None
      ensures world.IsValidPosition(newX as int, newY as int) == Some(true) ==>
        p.x == newX && p.y == newY
      ensures world.IsValidPosition(newX as int, newY as int) != Some(true) ==>
        p.x == old(p.x) && p.y == old(p.y)
      ensures old(Placed()) ==> Placed()
    {
      var valid := world.IsValidPosition(newX as int, newY as int);
      thrown := valid.None?;
      if valid == Some(true) {
        p.SetX(newX);
        p.SetY(newY);
      }
    }

    /** moveTo(Point): the point's coordinates as a destination. */
    method MoveToPoint(q: Point) returns (thrown: bool)
      modifies p
      ensures thrown <==> world.IsValidPosition(old(q.x) as int, old(q.y) as int) == None
      ensures world.IsValidPosition(old(q.x) as int, old(q.y) as int) == Some(true) ==>
        p.x == old(q.x) && p.y == old(q.y)
      ensures world.IsValidPosition(old(q.x) as int, old(q.y) as int) != Some(true) ==>
        p.x == old(p.x) && p.y == old(p.y)
      ensures old(Placed()) ==> Placed()
    {
      thrown := MoveTo(q.x, q.y);
    }

    /** move(distX, distY): moveTo of the displaced position, in int arithmetic. */
    method Move(distX: int32, distY: int32) returns (thrown: bool)
      modifies p
      ensures var t := Coord(Add32(old(p.x), distX) as int, Add32(old(p.y), distY) as int);
        && (thrown <==> world.IsValidPosition(t.x, t.y) == None)
        && (world.IsValidPosition(t.x, t.y) == Some(true) ==> p.Value() == t)
        && (world.IsValidPosition(t.x, t.y) != Some(true) ==> p.x == old(p.x) && p.y == old(p.y))
      ensures old(Placed()) ==> Placed()
    {
      thrown := MoveTo(Add32(p.x, distX), Add32(p.y, distY));
    }

    /** move(Point): the point's coordinates as a displacement. Passing the
        entity's own position object doubles its coordinates. */
    method MoveBy(q: Point) returns (thrown: bool)
      modifies p
      ensures var t := Coord(Add32(old(p.x), old(q.x)) as int, Add32(old(p.y), old(q.y)) as int);
        && (thrown <==> world.IsValidPosition(t.x, t.y) == None)
        && (world.IsValidPosition(t.x, t.y) == Some(true) ==> p.Value() == t)
        && (world.IsValidPosition(t.x, t.y) != Some(true) ==> p.x == old(p.x) && p.y == old(p.y))
      ensures old(Placed()) ==> Placed()
    {
      thrown := Move(q.x, q.y);
    }
  }

  /** The displacement of an arrow key (left, up, right, down), or None for
      any other key code. */
  function KeyStep(keyCode: int32): (d: Option<(int32, int32)>)
    ensures d.Some? <==> 37 <= keyCode <= 40
    ensures d.Some? ==> Abs(d.value.0 as int) + Abs(d.value.1 as int) == 1
  {
    match keyCode
    case 37 => Some((-1, 0))
    case 38 => Some((0, -1))
    case 39 => Some((1, 0))
    case 40 => Some((0, 1))
    case _ => None
  }

  class PlayerEntity {
    const entity: Entity

    constructor (world: World, p: Point)
      ensures entity.world == world && entity.p == p
    {
      entity := new Entity(world, p);
    }

    /** update(keyCode): an arrow key moves one cell if that cell is valid;
        any other key does nothing. */
    method Update(keyCode: int32) returns (thrown: bool)
      requires entity.world.Valid()
      modifies entity.p
      ensures KeyStep(keyCode).None? ==> !thrown && entity.p.x == old(entity.p.x) && entity.p.y == old(entity.p.y)
      ensures KeyStep(keyCode).Some? ==>
        var d := KeyStep(keyCode).value;
        var t := Coord(Add32(old(entity.p.x), d.0) as int, Add32(old(entity.p.y), d.1) as int);
        && (thrown <==> entity.world.IsValidPosition(t.x, t.y) == None)
        && (entity.world.IsValidPosition(t.x, t.y) == Some(true) ==> entity.p.Value() == t)
        && (entity.world.IsValidPosition(t.x, t.y) != Some(true) ==>
              entity.p.x == old(entity.p.x) && entity.p.y == old(entity.p.y))
      ensures Manhattan(old(entity.p.Value()), entity.p.Value()) <= 1
      ensures old(entity.Placed()) ==> entity.Placed()
    {
      thrown := false;
      match KeyStep(keyCode)
      case None =>
      case Some(d) =>
        thrown := entity.Move(d.0, d.1);
    }
  }
}
