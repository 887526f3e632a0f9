/** What holds of every generation the game of matrix reaches from its initial
    field: every unit keeps the stream invariant, and the shared counter equals
    the number of row-0 units carrying a stream, so it stays within
    [0, min(MaxWordStreams, width)]. */
module MatrixInvariants {
  import opened Field
  import opened GameOfMatrix

  /** The number of units of `row` that carry a stream. */
  function ActiveCount(row: seq<Unit>): (n: nat)
    ensures n <= |row|
    decreases |row|
  {
    if row == [] then 0
    else ActiveCount(row[..|row| - 1]) + Activity(row[|row| - 1])
  }

  predicate AllUnitsValid(row: seq<Unit>) {
    forall i :: 0 <= i < |row| ==> UnitInvariant(row[i])
  }

  lemma {:induction false} ActiveCountIdle(row: seq<Unit>)
    requires forall i :: 0 <= i < |row| ==> row[i].countWords == 0
    ensures ActiveCount(row) == 0
    decreases |row|
  {
    if row != [] {
      ActiveCountIdle(row[..|row| - 1]);
    }
  }

  /** Over one row-0 pass, the counter moves by exactly as much as the number of
      streaming units, and every unit keeps the stream invariant. */
  lemma {:induction false} Row0NextKeepsCount(row: seq<Unit>, counter: int, ds: seq<Draw>)
    requires |ds| == |row| && ValidDraws(ds) && AllUnitsValid(row)
    ensures AllUnitsValid(Row0Next(row, counter, ds).units)
    ensures Row0Next(row, counter, ds).counter - counter ==
      ActiveCount(Row0Next(row, counter, ds).units) - ActiveCount(row)
    decreases |row|
  {
    if row != [] {
      var n := |row| - 1;
      Row0NextKeepsCount(row[..n], counter, ds[..n]);
      var before := Row0Next(row[..n], counter, ds[..n]);
      var units := before.units + [Row0Step(row[n], before.counter, ds[n]).unit];
      assert units[..n] == before.units;
    }
  }

  /** The counter never passes MaxWordStreams in a row-0 pass that starts at or
      below it, whatever the units. */
  lemma {:induction false} Row0NextBounded(row: seq<Unit>, counter: int, ds: seq<Draw>)
    requires |ds| == |row| && ValidDraws(ds) && counter <= MaxWordStreams
    ensures Row0Next(row, counter, ds).counter <= MaxWordStreams
    decreases |row|
  {
    if row != [] {
      Row0NextBounded(row[..|row| - 1], counter, ds[..|row| - 1]);
    }
  }

  /** A generation the rule can be run on, with the counter in step with row 0. */
  predicate GenerationInvariant(g: Generation) {
    IsRectangular(g.field) &&
    (forall x, y :: 0 <= x < Width(g.field) && 0 <= y < Height(g.field) ==>
      UnitInvariant(g.field[x][y])) &&
    g.counter == ActiveCount(Row(g.field, 0)) &&
    g.counter <= MaxWordStreams
  }

  lemma InvariantBoundsCounter(g: Generation)
    requires GenerationInvariant(g)
    ensures 0 <= g.counter <= MaxWordStreams && g.counter <= Width(g.field)
  {
  }

  /** The field the engine starts from: every unit is InitialUnit, no stream is
      alive and the counter is 0. */
  function InitialGeneration(width: nat, height: nat): (g: Generation)
    requires width > 0 && height > 0
    ensures GenerationInvariant(g)
    ensures Width(g.field) == width && Height(g.field) == height
  {
    var field := Filled(width, height, InitialUnit);
    ActiveCountIdle(Row(field, 0));
    Generation(field, 0)
  }

  lemma NextFieldKeepsInvariant(g: Generation, ds: seq<Draw>)
    requires GenerationInvariant(g) && |ds| == Width(g.field) && ValidDraws(ds)
    ensures GenerationInvariant(NextField(g.field, g.counter, ds))
  {
    var row0 := Row(g.field, 0);
    assert AllUnitsValid(row0);
    Row0NextKeepsCount(row0, g.counter, ds);
    Row0NextBounded(row0, g.counter, ds);
    var next := NextField(g.field, g.counter, ds);
    forall x, y | 0 <= x < Width(next.field) && 0 <= y < Height(next.field)
      ensures UnitInvariant(next.field[x][y])
    {
      if y == 0 {
        assert next.field[x][0] == Row(next.field, 0)[x];
      }
    }
  }

  /** One draw sequence per generation, each with one draw per column. */
  predicate ValidSchedule(width: nat, schedule: seq<seq<Draw>>) {
    forall n :: 0 <= n < |schedule| ==> |schedule[n]| == width && ValidDraws(schedule[n])
  }

  /** The generation reached after one NextField per entry of `schedule`. */
  function Run(g: Generation, schedule: seq<seq<Draw>>): (r: Generation)
    requires IsRectangular(g.field) && ValidSchedule(Width(g.field), schedule)
    ensures IsRectangular(r.field)
    ensures Width(r.field) == Width(g.field) && Height(r.field) == Height(g.field)
    decreases |schedule|
  {
    if schedule == [] then g
    else
      var next := NextField(g.field, g.counter, schedule[0]);
      Run(next, schedule[1..])
  }

  lemma {:induction false} RunKeepsInvariant(g: Generation, schedule: seq<seq<Draw>>)
    requires GenerationInvariant(g) && ValidSchedule(Width(g.field), schedule)
    ensures GenerationInvariant(Run(g, schedule))
    decreases |schedule|
  {
    if schedule != [] {
      NextFieldKeepsInvariant(g, schedule[0]);
      var next := NextField(g.field, g.counter, schedule[0]);
      assert ValidSchedule(Width(next.field), schedule[1..]);
      RunKeepsInvariant(next, schedule[1..]);
    }
  }

  /** From the initial field, after any number of generations, the counter
      equals the number of row-0 units carrying a stream and lies in
      [0, min(MaxWordStreams, width)]. */
  lemma CounterAfterRun(width: nat, height: nat, schedule: seq<seq<Draw>>)
    requires width > 0 && height > 0 && ValidSchedule(width, schedule)
    ensures var r := Run(InitialGeneration(width, height), schedule);
      r.counter == ActiveCount(Row(r.field, 0)) &&
      0 <= r.counter <= MaxWordStreams && r.counter <= width
  {
    var g := InitialGeneration(width, height);
    RunKeepsInvariant(g, schedule);
    InvariantBoundsCounter(Run(g, schedule));
  }
}
