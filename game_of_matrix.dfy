/** The "game of matrix" transition rule: row 0 of every column starts, grows
    and ends word streams, bounded by a counter shared by the whole field;
    every lower unit copies the unit above it from the previous generation,
    so streams fall one row per generation. */
module GameOfMatrix {
  import opened Field

  /** One cell of the field. In row 0, countFieldHeight counts the generations
      since that unit last started a stream: row 0 of a column starts a stream
      only once the previous one has ended and at most once every
      FieldHeightGap generations. Older streams may still be falling further
      down the column when a new one starts. */
  datatype Unit = Unit(wordsLength: int, countWords: int, countFieldHeight: int)

  const InitialUnit: Unit := Unit(0, 0, 50)

  /** Most word streams alive in the field at once. */
  const MaxWordStreams: int := 50
  /** A column may start a new stream once countFieldHeight reaches this. */
  const FieldHeightGap: int := 50
  /** A new stream has MinWordsLength + a draw in [0, LengthDrawRange) words. */
  const MinWordsLength: int := 30
  const LengthDrawRange: int := 40
  /** A stream starts when a draw in [0, StartDrawRange) equals StartDrawHit. */
  const StartDrawRange: int := 50
  const StartDrawHit: int := 1

  /** The two random draws one row-0 unit may consume in a generation: `start`
      stands for rand.Intn(50), `extraLength` for rand.Intn(40). */
  datatype Draw = Draw(start: int, extraLength: int)

  predicate ValidDraw(d: Draw) {
    0 <= d.start < StartDrawRange && 0 <= d.extraLength < LengthDrawRange
  }

  predicate ValidDraws(ds: seq<Draw>) {
    forall i :: 0 <= i < |ds| ==> ValidDraw(ds[i])
  }

  /** A unit together with the stream counter after computing it. */
  datatype Step = Step(unit: Unit, counter: int)

  /** Idle units carry no stream; a streaming unit has emitted 1..wordsLength words. */
  predicate UnitInvariant(u: Unit) {
    0 <= u.countWords <= u.wordsLength &&
    (u.countWords == 0 <==> u.wordsLength == 0)
  }

  /** 1 when the unit carries a stream, 0 when it is idle. */
  function Activity(u: Unit): nat {
    if u.countWords != 0 then 1 else 0
  }

  /** The column may start a stream this generation (the draw decides). */
  predicate StartGuard(u: Unit, counter: int) {
    u.countWords == 0 && u.countFieldHeight >= FieldHeightGap && counter < MaxWordStreams
  }

  predicate StartTaken(u: Unit, counter: int, d: Draw) {
    StartGuard(u, counter) && d.start == StartDrawHit
  }

  predicate Streaming(u: Unit, counter: int) {
    !StartGuard(u, counter) && u.countWords < u.wordsLength
  }

  predicate StreamEnds(u: Unit) {
    u.countWords == u.wordsLength && u.countWords != 0
  }

  /** The rule for a unit of row 0, with the stream counter before and after. */
  function Row0Step(u: Unit, counter: int, d: Draw): (r: Step)
    requires ValidDraw(d)
    // a start happens exactly when the guard holds and the draw hits
    ensures r.counter == counter + 1 <==> StartTaken(u, counter, d)
    ensures StartTaken(u, counter, d) ==>
      MinWordsLength <= r.unit.wordsLength < MinWordsLength + LengthDrawRange &&
      r.unit.countWords == 1 && r.unit.countFieldHeight == 1
    ensures !StartTaken(u, counter, d) ==> r.unit.countFieldHeight == u.countFieldHeight + 1
    ensures Streaming(u, counter) ==>
      r.unit.countWords == u.countWords + 1 && r.unit.wordsLength == u.wordsLength &&
      r.counter == counter
    // a stream ends exactly when every word has been emitted
    ensures r.counter == counter - 1 <==> StreamEnds(u)
    ensures StreamEnds(u) ==> r.unit.wordsLength == 0 && r.unit.countWords == 0
    ensures r.counter == counter || r.counter == counter + 1 || r.counter == counter - 1
    ensures counter <= MaxWordStreams ==> r.counter <= MaxWordStreams
    // the unit invariant is kept, and the counter moves with the unit's activity
    ensures UnitInvariant(u) ==>
      UnitInvariant(r.unit) && r.counter - counter == Activity(r.unit) - Activity(u)
  {
    var grown := u.(countFieldHeight := u.countFieldHeight + 1);
    if StartGuard(u, counter) then
      if d.start == StartDrawHit then
        Step(Unit(MinWordsLength + d.extraLength, 1, 0 + 1), counter + 1)
      else
        Step(grown, counter)
    else if u.countWords < u.wordsLength then
      Step(grown.(countWords := u.countWords + 1), counter)
    else if StreamEnds(u) then
      Step(grown.(wordsLength := 0, countWords := 0), counter - 1)
    else
      Step(grown, counter)
  }

  /** An idle unit that does not start a stream only grows its countFieldHeight. */
  lemma IdleUnchanged(u: Unit, counter: int, d: Draw)
    requires ValidDraw(d) && UnitInvariant(u) && u.countWords == 0 && !StartTaken(u, counter, d)
    ensures Row0Step(u, counter, d) == Step(u.(countFieldHeight := u.countFieldHeight + 1), counter)
  {
  }

  /** The offset of the unit directly above. */
  const Above: Coordinate := Coordinate(0, -1)

  /** The rule for any unit: row 0 runs Row0Step, every other row takes the
      previous generation's unit above it, ignoring its own value. */
  function NextUnit(coord: Coordinate, unit: Unit, prev: Grid<Unit>, counter: int, d: Draw): (r: Step)
    requires IsRectangular(prev) && InBounds(prev, coord) && ValidDraw(d)
    ensures coord.y == 0 ==> r == Row0Step(unit, counter, d)
    ensures coord.y != 0 ==> r.unit == prev[coord.x][coord.y - 1] && r.counter == counter
  {
    if coord.y == 0 then Row0Step(unit, counter, d)
    else
      var above := AdjacentUnit(prev, coord, Above);
      Step(above.value, counter)
  }

  /** Row 0 of a generation, visited from x = 0 rightwards, with the counter
      threaded from unit to unit. */
  datatype RowStep = RowStep(units: seq<Unit>, counter: int)

  function Row0Next(row: seq<Unit>, counter: int, ds: seq<Draw>): (r: RowStep)
    requires |ds| == |row| && ValidDraws(ds)
    ensures |r.units| == |row|
    decreases |row|
  {
    if row == [] then RowStep([], counter)
    else
      var n := |row| - 1;
      var before := Row0Next(row[..n], counter, ds[..n]);
      var last := Row0Step(row[n], before.counter, ds[n]);
      RowStep(before.units + [last.unit], last.counter)
  }

  /** Unit i of a row-0 pass is Row0Step applied to the old unit i, with the
      counter left by the units to its left. */
  lemma {:induction false} Row0NextAt(row: seq<Unit>, counter: int, ds: seq<Draw>, i: int)
    requires |ds| == |row| && ValidDraws(ds) && 0 <= i < |row|
    ensures Row0Next(row, counter, ds).units[i] ==
      Row0Step(row[i], Row0Next(row[..i], counter, ds[..i]).counter, ds[i]).unit
    decreases |row|
  {
    var n := |row| - 1;
    if i < n {
      Row0NextAt(row[..n], counter, ds[..n], i);
      assert row[..n][..i] == row[..i] && ds[..n][..i] == ds[..i];
    } else {
      assert row[..i] == row[..n] && ds[..i] == ds[..n];
    }
  }

  datatype Generation = Generation(field: Grid<Unit>, counter: int)

  /** Column x of the next generation: `top` in row 0, then NextUnit for every
      lower unit. */
  function NextColumn(prev: Grid<Unit>, x: int, top: Unit, counter: int, d: Draw): (column: seq<Unit>)
    requires IsRectangular(prev) && 0 <= x < Width(prev) && ValidDraw(d)
    ensures |column| == Height(prev) && column[0] == top
    ensures forall y :: 1 <= y < |column| ==> column[y] == prev[x][y - 1]
  {
    var h := Height(prev);
    seq(h, y requires 0 <= y < h =>
      if y == 0 then top else NextUnit(Coordinate(x, y), prev[x][y], prev, counter, d).unit)
  }

  /** The next generation: every unit computed by NextUnit from the previous
      field only, row 0 visited left to right with the counter threaded. */
  function NextField(prev: Grid<Unit>, counter: int, ds: seq<Draw>): (g: Generation)
    requires IsRectangular(prev) && |ds| == Width(prev) && ValidDraws(ds)
    ensures IsRectangular(g.field)
    ensures Width(g.field) == Width(prev) && Height(g.field) == Height(prev)
    ensures forall x, y :: 0 <= x < Width(prev) && 1 <= y < Height(prev) ==>
      g.field[x][y] == prev[x][y - 1]
    ensures Row(g.field, 0) == Row0Next(Row(prev, 0), counter, ds).units
    ensures g.counter == Row0Next(Row(prev, 0), counter, ds).counter
  {
    var row := Row0Next(Row(prev, 0), counter, ds);
    var field := seq(|prev|, x requires 0 <= x < |prev| =>
      NextColumn(prev, x, row.units[x], row.counter, ds[x]));
    assert forall x :: 0 <= x < |field| ==> |field[x]| == Height(prev) && field[x][0] == row.units[x];
    assert Row(field, 0) == row.units;
    Generation(field, row.counter)
  }

  /** The rule's process-wide state: the number of word streams alive. */
  class MatrixRule {
    var totalWordStreamsCount: int

    ghost predicate Valid()
      reads this
    {
      totalWordStreamsCount <= MaxWordStreams
    }

    constructor ()
      ensures Valid() && totalWordStreamsCount == 0
    {
      totalWordStreamsCount := 0;
    }

    /** One application of the rule to the unit at `coord`, whose current value
        is `unit`, with `prev` the previous generation. `unit` is taken by
        value and never changed; the result is a fresh value. */
    method NextUnitGenerator(coord: Coordinate, unit: Unit, prev: Grid<Unit>, d: Draw)
      returns (next: Unit)
      requires Valid() && IsRectangular(prev) && InBounds(prev, coord) && ValidDraw(d)
      modifies this
      ensures Valid()
      ensures Step(next, totalWordStreamsCount) ==
        NextUnit(coord, unit, prev, old(totalWordStreamsCount), d)
    {
      var newUnit := unit;
      if coord.y == 0 {
        if unit.countWords == 0 && unit.countFieldHeight >= FieldHeightGap &&
           totalWordStreamsCount < MaxWordStreams {
          if d.start == StartDrawHit {
            newUnit := newUnit.(wordsLength := MinWordsLength + d.extraLength,
                                countWords := 1, countFieldHeight := 0);
            totalWordStreamsCount := totalWordStreamsCount + 1;
          }
        } else if unit.countWords < unit.wordsLength {
          newUnit := newUnit.(countWords := newUnit.countWords + 1);
        } else if unit.countWords == unit.wordsLength && unit.countWords != 0 {
          newUnit := newUnit.(wordsLength := 0, countWords := 0);
          totalWordStreamsCount := totalWordStreamsCount - 1;
        }
        newUnit := newUnit.(countFieldHeight := newUnit.countFieldHeight + 1);
        next := newUnit;
      } else {
        var prevUnit := AdjacentUnit(prev, coord, Above);
        next := prevUnit.value;
      }
    }

    /** Column x of a generation, top to bottom, written into `next`: the
        other columns of `next` are left as they were. */
    method GenerateColumn(prev: Grid<Unit>, x: int, d: Draw, next: array2<Unit>)
      requires Valid() && IsRectangular(prev) && 0 <= x < Width(prev) && ValidDraw(d)
      requires next.Length0 == Width(prev) && next.Length1 == Height(prev)
      modifies this, next
      ensures Valid()
      ensures Step(next[x, 0], totalWordStreamsCount) ==
        Row0Step(prev[x][0], old(totalWordStreamsCount), d)
      ensures forall j :: 1 <= j < next.Length1 ==> next[x, j] == prev[x][j - 1]
      ensures forall i, j :: 0 <= i < next.Length0 && i != x && 0 <= j < next.Length1 ==>
        next[i, j] == old(next[i, j])
    {
      var h := Height(prev);
      var top := NextUnitGenerator(Coordinate(x, 0), prev[x][0], prev, d);
      next[x, 0] := top;
      ghost var counter := totalWordStreamsCount;
      var y := 1;
      while y < h
        invariant 1 <= y <= h && Valid() && totalWordStreamsCount == counter
        invariant next[x, 0] == top
        invariant forall j :: 1 <= j < y ==> next[x, j] == prev[x][j - 1]
        invariant forall i, j :: 0 <= i < next.Length0 && i != x && 0 <= j < next.Length1 ==>
          next[i, j] == old(next[i, j])
      {
        var u := NextUnitGenerator(Coordinate(x, y), prev[x][y], prev, d);
        next[x, y] := u;
        y := y + 1;
      }
    }

    /** A whole generation: visits the field column by column, top to bottom,
        applying the rule to every unit while reading only `prev`, and writes
        the results into a fresh field. */
    method GenerateNextField(prev: Grid<Unit>, ds: seq<Draw>) returns (next: array2<Unit>)
      requires Valid() && IsRectangular(prev) && |ds| == Width(prev) && ValidDraws(ds)
      modifies this
      ensures Valid() && fresh(next)
      ensures next.Length0 == Width(prev) && next.Length1 == Height(prev)
      ensures totalWordStreamsCount == NextField(prev, old(totalWordStreamsCount), ds).counter
      ensures forall x, y :: 0 <= x < next.Length0 && 0 <= y < next.Length1 ==>
        next[x, y] == NextField(prev, old(totalWordStreamsCount), ds).field[x][y]
    {
      var w, h := Width(prev), Height(prev);
      ghost var row0 := Row(prev, 0);
      ghost var start := totalWordStreamsCount;
      next := new Unit[w, h];
      var x := 0;
      while x < w
        invariant 0 <= x <= w && Valid()
        invariant totalWordStreamsCount == Row0Next(row0[..x], start, ds[..x]).counter
        invariant forall i :: 0 <= i < x ==> next[i, 0] == Row0Next(row0[..x], start, ds[..x]).units[i]
        invariant forall i, j :: 0 <= i < x && 1 <= j < h ==> next[i, j] == prev[i][j - 1]
      {
        assert row0[..x + 1][..x] == row0[..x] && ds[..x + 1][..x] == ds[..x];
        GenerateColumn(prev, x, ds[x], next);
        x := x + 1;
      }
      assert row0[..w] == row0 && ds[..w] == ds;
      ghost var g := NextField(prev, start, ds);
      forall i, j | 0 <= i < w && 0 <= j < h
        ensures next[i, j] == g.field[i][j]
      {
        if j == 0 {
          assert g.field[i][0] == Row(g.field, 0)[i];
        }
      }
    }
  }
}
