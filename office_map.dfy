/** The office floor plan: walls, coloured zones and the entry area where avatars appear, and
    the circle-against-wall test that keeps avatars out of the walls. */
module Office {
  import opened Protocol
  import opened Geometry

  /** A wall or a zone: an axis-aligned rectangle from (x, y), with an optional colour and label. */
  datatype Rect = Rect(x: real, y: real, width: real, height: real, color: Option<string>, labelText: Option<string>)

  /** The rectangle where a newly arrived avatar is placed. */
  datatype SpawnZone = SpawnZone(x: real, y: real, width: real, height: real)

  const WallThickness: real := 20.0
  const OuterWallColor: string := "#334155"
  const DividerColor: string := "#475569"

  // ---------------------------------------------------------------- collision geometry

  /** `Math.max(lo, Math.min(v, hi))`. */
  function Clamp(v: real, lo: real, hi: real): real {
    Max(lo, Min(v, hi))
  }

  /** Whether (px, py) lies in the rectangle, its border included. */
  predicate Inside(rect: Rect, px: real, py: real) {
    rect.x <= px <= rect.x + rect.width && rect.y <= py <= rect.y + rect.height
  }

  /** The point of the rectangle nearest to (cx, cy). */
  function ClosestPoint(cx: real, cy: real, rect: Rect): Position {
    Position(Clamp(cx, rect.x, rect.x + rect.width), Clamp(cy, rect.y, rect.y + rect.height))
  }

  /** `circleRectCollision`: the squared distance from the centre to the nearest point of the
      rectangle is strictly below the squared radius. */
  predicate CircleRectCollision(cx: real, cy: real, radius: real, rect: Rect) {
    var p := ClosestPoint(cx, cy, rect);
    SqDist(cx, cy, p.x, p.y) < radius * radius
  }

  /** The clamped point lies in the rectangle (of non-negative size), and is the centre itself
      when the centre does. */
  lemma ClosestPointInside(cx: real, cy: real, rect: Rect)
    requires rect.width >= 0.0 && rect.height >= 0.0
    ensures var p := ClosestPoint(cx, cy, rect);
            && rect.x <= p.x <= rect.x + rect.width && rect.y <= p.y <= rect.y + rect.height
            && (Inside(rect, cx, cy) ==> p == Position(cx, cy))
  {
  }

  /** Clamping to an interval moves a value no further from it than any point of the interval. */
  lemma {:induction false} ClampIsNearest(v: real, lo: real, hi: real, p: real)
    requires lo <= p <= hi
    ensures (v - Clamp(v, lo, hi)) * (v - Clamp(v, lo, hi)) <= (v - p) * (v - p)
  {
    var c := Clamp(v, lo, hi);
    var a, b := v - c, v - p;
    assert 0.0 <= a <= b || b <= a <= 0.0 by {
      if v < lo { assert c == lo; } else if v > hi { assert c == hi; } else { assert c == v; }
    }
    SquareMonotone(a, b);
  }

  /** A number of smaller magnitude has a smaller square. */
  lemma SquareMonotone(a: real, b: real)
    requires 0.0 <= a <= b || b <= a <= 0.0
    ensures a * a <= b * b
  {
    if 0.0 <= a {
      assert a * a <= a * b <= b * b;
    } else {
      assert a * a <= a * b <= b * b;
    }
  }

  /** The clamped point is the nearest point of the rectangle. */
  lemma ClosestIsNearest(cx: real, cy: real, rect: Rect, px: real, py: real)
    requires Inside(rect, px, py)
    ensures var p := ClosestPoint(cx, cy, rect); SqDist(cx, cy, p.x, p.y) <= SqDist(cx, cy, px, py)
  {
    ClampIsNearest(cx, rect.x, rect.x + rect.width, px);
    ClampIsNearest(cy, rect.y, rect.y + rect.height, py);
  }

  /** The collision test agrees with its geometric meaning: some point of the wall lies strictly
      closer to the centre than the radius. */
  lemma CollisionIffPointWithinRadius(cx: real, cy: real, radius: real, rect: Rect)
    requires rect.width >= 0.0 && rect.height >= 0.0
    ensures CircleRectCollision(cx, cy, radius, rect) <==>
            exists px, py :: Inside(rect, px, py) && SqDist(cx, cy, px, py) < radius * radius
  {
    var p := ClosestPoint(cx, cy, rect);
    ClosestPointInside(cx, cy, rect);
    if CircleRectCollision(cx, cy, radius, rect) {
      assert Inside(rect, p.x, p.y) && SqDist(cx, cy, p.x, p.y) < radius * radius;
    }
    forall px, py | Inside(rect, px, py) && SqDist(cx, cy, px, py) < radius * radius
      ensures CircleRectCollision(cx, cy, radius, rect)
    {
      ClosestIsNearest(cx, cy, rect, px, py);
    }
  }

  /** A circle that only touches the left side of a wall does not collide with it. */
  lemma TouchingDoesNotCollide(rect: Rect, cy: real, radius: real)
    requires radius >= 0.0 && rect.width >= 0.0 && rect.y <= cy <= rect.y + rect.height
    ensures !CircleRectCollision(rect.x - radius, cy, radius, rect)
  {
    var p := ClosestPoint(rect.x - radius, cy, rect);
    assert p == Position(rect.x, cy);
  }

  /** A circle of positive radius whose centre is on the wall collides with it. */
  lemma CentreInsideCollides(cx: real, cy: real, radius: real, rect: Rect)
    requires Inside(rect, cx, cy) && radius > 0.0
    ensures CircleRectCollision(cx, cy, radius, rect)
  {
    var p := ClosestPoint(cx, cy, rect);
    assert p == Position(cx, cy);
    calc {
      SqDist(cx, cy, p.x, p.y);
    ==
      0.0;
    <
      radius * radius;
    }
  }

  /** A circle whose centre is at least its radius away from the rectangle's extent along one
      axis does not collide with it. */
  lemma ApartFrom(cx: real, cy: real, radius: real, rect: Rect)
    requires radius >= 0.0
    requires || cx + radius <= rect.x || cx - radius >= Max(rect.x, rect.x + rect.width)
             || cy + radius <= rect.y || cy - radius >= Max(rect.y, rect.y + rect.height)
    ensures !CircleRectCollision(cx, cy, radius, rect)
  {
    if cx + radius <= rect.x || cx - radius >= Max(rect.x, rect.x + rect.width) {
      ApartAlongX(cx, cy, radius, rect);
    } else {
      ApartAlongY(cx, cy, radius, rect);
    }
  }

  lemma ApartAlongX(cx: real, cy: real, radius: real, rect: Rect)
    requires radius >= 0.0
    requires cx + radius <= rect.x || cx - radius >= Max(rect.x, rect.x + rect.width)
    ensures !CircleRectCollision(cx, cy, radius, rect)
  {
    var p := ClosestPoint(cx, cy, rect);
    var dx, dy := cx - p.x, cy - p.y;
    assert dx == cx - Clamp(cx, rect.x, rect.x + rect.width);
    AxisApart(cx, rect.x, rect.x + rect.width, radius);
    PlusSquare(dx, dy, radius * radius);
    assert SqDist(cx, cy, p.x, p.y) == dx * dx + dy * dy;
  }

  lemma ApartAlongY(cx: real, cy: real, radius: real, rect: Rect)
    requires radius >= 0.0
    requires cy + radius <= rect.y || cy - radius >= Max(rect.y, rect.y + rect.height)
    ensures !CircleRectCollision(cx, cy, radius, rect)
  {
    var p := ClosestPoint(cx, cy, rect);
    var dx, dy := cx - p.x, cy - p.y;
    assert dy == cy - Clamp(cy, rect.y, rect.y + rect.height);
    AxisApart(cy, rect.y, rect.y + rect.height, radius);
    PlusSquare(dy, dx, radius * radius);
    assert SqDist(cx, cy, p.x, p.y) == dx * dx + dy * dy;
  }

  lemma PlusSquare(a: real, b: real, bound: real)
    requires a * a >= bound
    ensures a * a + b * b >= bound && b * b + a * a >= bound
  {
    assert b * b >= 0.0;
  }

  /** Along one axis: a value at least `radius` outside an interval is at least that far from
      its clamped value. */
  lemma AxisApart(v: real, lo: real, hi: real, radius: real)
    requires radius >= 0.0 && (v + radius <= lo || v - radius >= Max(lo, hi))
    ensures (v - Clamp(v, lo, hi)) * (v - Clamp(v, lo, hi)) >= radius * radius
  {
    var d := v - Clamp(v, lo, hi);
    if v + radius <= lo {
      assert Clamp(v, lo, hi) >= lo;
      SquareMonotone(-radius, d);
    } else {
      assert Clamp(v, lo, hi) <= Max(lo, hi);
      SquareMonotone(radius, d);
    }
  }

  /** `checkCollision`'s meaning: some wall collides with the circle. */
  predicate Collides(walls: seq<Rect>, x: real, y: real, radius: real) {
    exists i :: 0 <= i < |walls| && CircleRectCollision(x, y, radius, walls[i])
  }

  // ---------------------------------------------------------------- the layout

  /** Top, bottom, left and right walls of a `w` by `h` floor. */
  function OuterWalls(w: real, h: real): seq<Rect> {
    [ Rect(0.0, 0.0, w, WallThickness, Some(OuterWallColor), None),
      Rect(0.0, h - WallThickness, w, WallThickness, Some(OuterWallColor), None),
      Rect(0.0, 0.0, WallThickness, h, Some(OuterWallColor), None),
      Rect(w - WallThickness, 0.0, WallThickness, h, Some(OuterWallColor), None) ]
  }

  /** The two pieces of the vertical divider, with a doorway between them. */
  function VerticalDivider(w: real, h: real): seq<Rect> {
    var midX, midY := w / 2.0, h / 2.0;
    [ Rect(midX - 10.0, WallThickness, 20.0, midY - 80.0, Some(DividerColor), None),
      Rect(midX - 10.0, midY + 60.0, 20.0, midY - WallThickness - 60.0, Some(DividerColor), None) ]
  }

  /** The divider that separates the meeting room in the left half. */
  function HorizontalDivider(w: real, h: real): Rect {
    var midX, midY := w / 2.0, h / 2.0;
    Rect(WallThickness, midY - 10.0, midX - 100.0 - WallThickness, 20.0, Some(DividerColor), None)
  }

  function LayoutWalls(w: real, h: real): seq<Rect> {
    OuterWalls(w, h) + VerticalDivider(w, h) + [HorizontalDivider(w, h)]
  }

  function LayoutZones(w: real, h: real): seq<Rect> {
    var midX, midY := w / 2.0, h / 2.0;
    [ Rect(WallThickness, WallThickness, midX - WallThickness - 10.0, midY - WallThickness - 10.0,
           Some("#E0F2FE"), Some("Entry")),
      Rect(WallThickness, midY + 10.0, midX - WallThickness - 10.0, midY - WallThickness - 10.0,
           Some("#FEF3C7"), Some("Meeting Room")),
      Rect(midX + 10.0, WallThickness, w - midX - WallThickness - 10.0, h - 2.0 * WallThickness,
           Some("#F0FDF4"), Some("Open Office")) ]
  }

  function LayoutSpawn(w: real, h: real): SpawnZone {
    var midX, midY := w / 2.0, h / 2.0;
    SpawnZone(WallThickness + 50.0, WallThickness + 50.0, midX - WallThickness - 120.0, midY - WallThickness - 120.0)
  }

  /** The layout has seven walls (four outer ones and three dividers) and three labelled zones,
      and the avatars appear in a 70-pixel inset of the entry area. */
  lemma LayoutShape(w: real, h: real)
    ensures |LayoutWalls(w, h)| == 7 && |LayoutZones(w, h)| == 3
    ensures forall i :: 0 <= i < 4 ==> LayoutWalls(w, h)[i].color == Some(OuterWallColor)
    ensures forall i :: 4 <= i < 7 ==> LayoutWalls(w, h)[i].color == Some(DividerColor)
    ensures [LayoutZones(w, h)[0].labelText, LayoutZones(w, h)[1].labelText, LayoutZones(w, h)[2].labelText] ==
            [Some("Entry"), Some("Meeting Room"), Some("Open Office")]
    ensures LayoutSpawn(w, h) == SpawnZone(70.0, 70.0, w / 2.0 - 140.0, h / 2.0 - 140.0)
  {
  }

  /** On a floor of at least 280 by 280, the spawn area lies inside the entry zone. */
  lemma SpawnInEntry(w: real, h: real)
    requires w >= 280.0 && h >= 280.0
    ensures var s, e := LayoutSpawn(w, h), LayoutZones(w, h)[0];
            && Inside(e, s.x, s.y) && Inside(e, s.x + s.width, s.y + s.height)
  {
  }

  /** No wall of the layout comes within `radius` (at most 50) of any point of the spawn area,
      on a floor of at least 280 by 280. */
  lemma SpawnAreaIsClear(w: real, h: real, px: real, py: real, radius: real)
    requires w >= 280.0 && h >= 280.0 && 0.0 <= radius <= 50.0
    requires var s := LayoutSpawn(w, h); s.x <= px <= s.x + s.width && s.y <= py <= s.y + s.height
    ensures !Collides(LayoutWalls(w, h), px, py, radius)
  {
    var walls := LayoutWalls(w, h);
    forall i | 0 <= i < |walls| ensures !CircleRectCollision(px, py, radius, walls[i]) {
      ApartFrom(px, py, radius, walls[i]);
    }
  }

  /** The doorway in the vertical divider leaves the centre of the floor free for a circle of
      radius up to 50, on a floor of at least 280 by 280. */
  lemma CentreIsClear(w: real, h: real, radius: real)
    requires w >= 280.0 && h >= 280.0 && 0.0 <= radius <= 50.0
    ensures !Collides(LayoutWalls(w, h), w / 2.0, h / 2.0, radius)
  {
    var walls := LayoutWalls(w, h);
    forall i | 0 <= i < |walls| ensures !CircleRectCollision(w / 2.0, h / 2.0, radius, walls[i]) {
      ApartFrom(w / 2.0, h / 2.0, radius, walls[i]);
    }
  }

  // ---------------------------------------------------------------- the map object

  class OfficeMap {
    const width: real
    const height: real
    var walls: seq<Rect>
    var zones: seq<Rect>
    var spawnZone: SpawnZone

    /** A fresh map with the layout for its size. */
    constructor (width: real, height: real)
      ensures this.width == width && this.height == height
      ensures walls == LayoutWalls(width, height) && zones == LayoutZones(width, height)
      ensures spawnZone == LayoutSpawn(width, height)
    {
      this.width := width;
      this.height := height;
      walls := [];
      zones := [];
      spawnZone := SpawnZone(0.0, 0.0, 0.0, 0.0);
      new;
      CreateOfficeLayout();
    }

    /** `createOfficeLayout`: appends the walls and the zones and sets the spawn area. */
    method CreateOfficeLayout()
      modifies this`walls, this`zones, this`spawnZone
      ensures walls == old(walls) + LayoutWalls(width, height)
      ensures zones == old(zones) + LayoutZones(width, height)
      ensures spawnZone == LayoutSpawn(width, height)
    {
      var w, h := width, height;
      walls := walls + OuterWalls(w, h);
      walls := walls + VerticalDivider(w, h);
      walls := walls + [HorizontalDivider(w, h)];
      zones := zones + LayoutZones(w, h);
      spawnZone := LayoutSpawn(w, h);
    }

    /** A point of the spawn area, from two random fractions in [0, 1): inside the half-open
        area when it has positive size. */
    function GetRandomSpawnPosition(rx: real, ry: real): (p: Position)
      reads this`spawnZone
      ensures var z := spawnZone;
              0.0 <= rx < 1.0 && z.width > 0.0 ==> z.x <= p.x < z.x + z.width
      ensures var z := spawnZone;
              0.0 <= ry < 1.0 && z.height > 0.0 ==> z.y <= p.y < z.y + z.height
    {
      var z := spawnZone;
      assert 0.0 <= rx < 1.0 && z.width > 0.0 ==> (1.0 - rx) * z.width > 0.0;
      assert 0.0 <= ry < 1.0 && z.height > 0.0 ==> (1.0 - ry) * z.height > 0.0;
      Position(z.x + rx * z.width, z.y + ry * z.height)
    }

    /** `checkCollision`: walks the walls and stops at the first one the circle hits. */
    method CheckCollision(x: real, y: real, radius: real) returns (hit: bool)
      ensures hit <==> Collides(walls, x, y, radius)
    {
      for i := 0 to |walls|
        invariant forall k :: 0 <= k < i ==> !CircleRectCollision(x, y, radius, walls[k])
      {
        if CircleRectCollision(x, y, radius, walls[i]) {
          return true;
        }
      }
      return false;
    }
  }
}
