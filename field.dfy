/** The engine-side view the game-of-matrix rule relies on: a field of units
    stored column by column (field[x][y], as the engine hands out its
    generations), coordinates, and the neighbour lookup that resolves a
    relative offset against the previous generation. */
module Field {

  datatype Option<T> = None | Some(value: T)

  /** An absolute position, or a relative offset when given to AdjacentUnit. */
  datatype Coordinate = Coordinate(x: int, y: int)

  /** field[x][y]: |field| is the width, every column has the same height. */
  type Grid<T> = seq<seq<T>>

  /** A field with positive width and height whose columns all have one height. */
  predicate IsRectangular<T>(field: Grid<T>) {
    |field| > 0 && |field[0]| > 0 &&
    forall x :: 0 <= x < |field| ==> |field[x]| == |field[0]|
  }

  function Width<T>(field: Grid<T>): (w: nat)
    requires IsRectangular(field)
    ensures w > 0
  {
    |field|
  }

  function Height<T>(field: Grid<T>): (h: nat)
    requires IsRectangular(field)
    ensures h > 0 && forall x :: 0 <= x < |field| ==> |field[x]| == h
  {
    |field[0]|
  }

  predicate InBounds<T>(field: Grid<T>, c: Coordinate)
    requires IsRectangular(field)
  {
    0 <= c.x < Width(field) && 0 <= c.y < Height(field)
  }

  /** The unit at origin + offset in `field`, or None when that position lies
      outside the field (no wrap-around). */
  function AdjacentUnit<T>(field: Grid<T>, origin: Coordinate, offset: Coordinate): (r: Option<T>)
    requires IsRectangular(field)
    ensures r.Some? <==> InBounds(field, Coordinate(origin.x + offset.x, origin.y + offset.y))
    ensures r.Some? ==> r.value == field[origin.x + offset.x][origin.y + offset.y]
  {
    var target := Coordinate(origin.x + offset.x, origin.y + offset.y);
    if InBounds(field, target) then Some(field[target.x][target.y]) else None
  }

  /** The units of row y, from x = 0 to the right edge. */
  function Row<T>(field: Grid<T>, y: int): (row: seq<T>)
    requires IsRectangular(field) && 0 <= y < Height(field)
    ensures |row| == Width(field)
    ensures forall x :: 0 <= x < |row| ==> row[x] == field[x][y]
  {
    seq(|field|, x requires 0 <= x < |field| => field[x][y])
  }

  /** A width x height field whose every unit is `initial`. */
  function Filled<T>(width: nat, height: nat, initial: T): (field: Grid<T>)
    requires width > 0 && height > 0
    ensures IsRectangular(field) && Width(field) == width && Height(field) == height
    ensures forall x, y :: 0 <= x < width && 0 <= y < height ==> field[x][y] == initial
  {
    seq(width, _ => seq(height, _ => initial))
  }
}
