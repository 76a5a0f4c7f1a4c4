/** The older package's mutable coordinate object (Point.java). */
module Points {
  import opened Common
  import opened Decimal

  /** posX and posY are Java ints. */
  class Point {
    var x: int32
    var y: int32

    constructor (x: int32, y: int32)
      ensures this.x == x && this.y == y
    {
      this.x := x;
      this.y := y;
    }

    /** The copy constructor: a new object equal to its argument. */
    constructor Copy(p: Point)
      ensures Equals(p) && p.Equals(this)
    {
      x := p.x;
      y := p.y;
    }

    /** The coordinates this object currently holds. */
    function Value(): Coord
      reads this
    {
      Coord(x as int, y as int)
    }

    function GetX(): (r: int32)
      reads this
      ensures r == x
    {
      x
    }

    function GetY(): (r: int32)
      reads this
      ensures r == y
    {
      y
    }

    method SetX(posX: int32)
      modifies this
      ensures x == posX && y == old(y)
    {
      x := posX;
    }

    method SetY(posY: int32)
      modifies this
      ensures y == posY && x == old(x)
    {
      y := posY;
    }

    /** `31 * posX + posY` in Java int arithmetic. */
    function HashCode(): (r: int32)
      reads this
      ensures (r as int - (31 * (x as int) + (y as int))) % 0x1_0000_0000 == 0
    {
      Wrap32(31 * (x as int) + (y as int))
    }

    /** Identity short-cut, then null test, then coordinates. */
    function Equals(o: Point?): (r: bool)
      reads this, o
      ensures r <==> o != null && o.x == x && o.y == y
    {
      o == this || (o != null && o.x == x && o.y == y)
    }

    /** `"(" + posX + ", " + posY + ")"`; ParsePoint reads it back. */
    function ToString(): (s: string)
      reads this
      ensures |s| >= 6 && s[0] == '(' && s[|s| - 1] == ')'
      ensures ParsePoint(s) == Some(Value())
    {
      ParseRender(Value());
      Render(Value())
    }
  }

  function Render(c: Coord): string
  {
    "(" + IntToString(c.x) + ", " + IntToString(c.y) + ")"
  }

  /** Inverse of Render: splits at the first comma, which no rendered int holds. */
  function ParsePoint(s: string): Option<Coord>
  {
    if |s| < 2 || s[0] != '(' || s[|s| - 1] != ')' then None
    else
      var inner := s[1..|s| - 1];
      var k := IndexOf(inner, ',');
      if k + 1 >= |inner| || inner[k + 1] != ' ' then None
      else
        match (ParseInt(inner[..k]), ParseInt(inner[k + 2..]))
        case (Some(a), Some(b)) => Some(Coord(a, b))
        case _ => None
  }

  lemma ParseRender(c: Coord)
    ensures ParsePoint(Render(c)) == Some(c)
  {
    var a, b := IntToString(c.x), IntToString(c.y);
    var s := Render(c);
    var inner := s[1..|s| - 1];
    assert inner == a + [','] + ([' '] + b);
    IndexOfAfter(a, ',', [' '] + b);
    assert inner[..|a|] == a;
    assert inner[|a| + 2..] == b;
    ParseIntToString(c.x);
    ParseIntToString(c.y);
  }

  lemma EqualsIsEquivalence(p: Point, q: Point, r: Point)
    ensures p.Equals(p)
    ensures p.Equals(q) <==> q.Equals(p)
    ensures p.Equals(q) && q.Equals(r) ==> p.Equals(r)
  {
  }

  /** Equal points hash alike, as HashMap keys require. */
  lemma EqualPointsHashAlike(p: Point, q: Point)
    requires p.Equals(q)
    ensures p.HashCode() == q.HashCode()
  {
  }
}
