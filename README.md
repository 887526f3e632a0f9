# Game of matrix: a model of the ggol sample transition rule

ggol is a generic cellular-automaton engine: a rectangular field of units of a
caller-chosen type, advanced one generation at a time by a caller-supplied rule
that may look up neighbours of the previous generation. This project models the
"game of matrix" sample rule shipped with it (falling word streams, in the
style of a digital-rain animation) and the generation step that applies it to
every unit.

- `field.dfy`, module `Field`: the engine-side view the rule relies on. A field
  is stored column by column (`field[x][y]`, width = number of columns), and
  `AdjacentUnit` resolves a relative offset against the previous generation,
  returning `None` outside the field (no wrap-around).
- `game_of_matrix.dfy`, module `GameOfMatrix`: the unit record, its initial
  value, the constants of the rule, the rule itself as specification functions
  (`Row0Step`, `NextUnit`, `Row0Next`, `NextField`), and class `MatrixRule`,
  which holds the process-wide stream counter `totalWordStreamsCount` and
  implements the rule (`NextUnitGenerator`) and a whole generation
  (`GenerateNextField`) imperatively, each proved equal to its specification
  function.
- `matrix_invariants.dfy`, module `MatrixInvariants`: the invariant every
  reachable generation keeps. Every unit satisfies
  `0 <= countWords <= wordsLength` and `countWords == 0 <==> wordsLength == 0`,
  and the counter equals the number of row-0 units carrying a stream, so it
  stays in `[0, min(50, width)]`.

The rule's two random draws (`rand.Intn(50)` and `rand.Intn(40)`) are inputs:
a `Draw(start, extraLength)` with `0 <= start < 50` and
`0 <= extraLength < 40`, one per column per generation (only row 0 uses it).

Assumptions about the engine, whose source is not part of this model:
- The rule is only invoked for coordinates inside the field.
- The unit it receives is the previous generation's unit at that coordinate.
- Its neighbour getter reads the previous generation.
- A generation visits the field column by column, top to bottom, in the order
  the sample's drawing loop uses (example/game_of_matrix.go:110-111). Only the
  order of the row-0 units matters, because they alone touch the counter.
- The new generation is written into a fresh field, and the counter is updated
  sequentially.

The comment at example/game_of_matrix.go:24 speaks of 20 streams; the code's
bound is 50 (line 34), and the model follows the code.

The comment at example/game_of_matrix.go:14 says one column can only have one
word stream at a time. The code promises less. Row 0 of a column starts a stream
only after its previous stream has ended and at most once every 50 generations
(the countFieldHeight guard at line 34). A finished stream may still be falling
lower in the column when the next one starts. The model states only the
narrower guarantee.

## Model

| member | source | states |
|---|---|---|
| GameOfMatrix.Row0Step | example/game_of_matrix.go:33-49 | The counter rises by one exactly when a stream starts: countWords == 0, countFieldHeight >= 50, counter < 50 and the start draw is 1. A new stream has wordsLength in [30, 69], countWords 1 and countFieldHeight 1. Otherwise countFieldHeight grows by one. While streaming, countWords grows by one and wordsLength and the counter stay. The counter falls by one exactly when countWords == wordsLength != 0, and both then reset to 0. The counter moves by at most one and never passes 50. The unit invariant is kept, and the counter moves by the change in the unit's activity. |
| GameOfMatrix.IdleUnchanged | example/game_of_matrix.go:34-48 | Under the unit invariant, an idle unit that does not start a stream keeps every field except countFieldHeight, which grows by one; the counter is unchanged. |
| GameOfMatrix.NextUnit | example/game_of_matrix.go:27-55 | Row 0 follows Row0Step. Any other row yields the previous generation's unit directly above, whatever the unit's own value, and leaves the counter alone. |
| Field.AdjacentUnit | example/game_of_matrix.go:51 | The lookup succeeds exactly when origin + offset lies inside the field, and then yields the previous generation's unit there. |
| GameOfMatrix.MatrixRule.constructor | example/game_of_matrix.go:25 | The stream counter starts at 0. |
| GameOfMatrix.MatrixRule.NextUnitGenerator | example/game_of_matrix.go:27-55 | The imperative rule, which updates a copy of the unit field by field and the shared counter in place. It returns the unit NextUnit specifies and leaves the counter where NextUnit says. The counter stays at most 50. The input unit is a value and is never changed. |
| GameOfMatrix.Row0Next | example/game_of_matrix.go:33-49 | Row 0 of a generation, left to right with the counter threaded through: one new unit per old unit. |
| GameOfMatrix.Row0NextAt | example/game_of_matrix.go:33-49 | Unit x of the new row 0 is the row-0 rule applied to old unit x, with the counter left by the units to its left (x = 0 first). |
| GameOfMatrix.NextField | example/game_of_matrix.go:50-53 | The next generation has the same width and height. For every y >= 1, row y of the new field equals row y - 1 of the old field, so streams fall one row per generation. Row 0 and the counter come from Row0Next. |
| GameOfMatrix.MatrixRule.GenerateColumn | example/game_of_matrix.go:27-55 | One column, top to bottom: the top unit and the counter follow Row0Step, every lower unit is the old unit above it, and other columns are untouched. |
| GameOfMatrix.MatrixRule.GenerateNextField | example/game_of_matrix.go:86-88 | One generation by nested loops over x and y into a fresh field, reading only the previous one. Every unit and the final counter equal NextField's, and the counter stays at most 50. |
| MatrixInvariants.ActiveCount | example/game_of_matrix.go:24-25 | The number of units carrying a stream is at most the row's length. |
| MatrixInvariants.Row0NextKeepsCount | example/game_of_matrix.go:34-47 | Over one row-0 pass of valid units, every unit stays valid, and the counter changes by exactly the change in the number of units carrying a stream. |
| MatrixInvariants.Row0NextBounded | example/game_of_matrix.go:34-39 | A row-0 pass that starts with the counter at most 50 ends with it at most 50, whatever the units. |
| MatrixInvariants.InitialGeneration | example/game_of_matrix.go:18-25 | The field where every unit is (0, 0, 50) and the counter is 0 satisfies the generation invariant. |
| MatrixInvariants.InvariantBoundsCounter | example/game_of_matrix.go:34-46 | Under the generation invariant the counter lies in [0, 50] and is at most the field's width. |
| MatrixInvariants.NextFieldKeepsInvariant | example/game_of_matrix.go:33-53 | One generation preserves the invariant: all units valid, the counter equal to the number of row-0 units carrying a stream, and the counter at most 50. |
| MatrixInvariants.Run | example/game_of_matrix.go:86-88 | Any number of generations keeps the field's width and height. |
| MatrixInvariants.RunKeepsInvariant | example/game_of_matrix.go:86-88 | Any number of generations preserves the generation invariant. |
| MatrixInvariants.CounterAfterRun | example/game_of_matrix.go:18-46 | From the initial field, after any number of generations, the counter equals the number of row-0 units carrying a stream and lies in [0, min(50, width)]. |

## Left out

- The engine itself (`NewGame`, `SetNextUnitGenerator`, `GenerateNextField`, `GetUnit`, field storage, locking) is not part of this model. Only the lookup the rule uses is modelled, and GenerateNextField stands in for the engine's generation step under the assumptions listed above.
- ggol_test.go is a test harness for that engine (block, blinker, glider and concurrency scenarios). It exercises no code this model covers.
- `drawGameOfMatrixUnit` renders units into an image with floating-point colour arithmetic; it is output only.
- `executeGameOfMatrix` and `initializeGameOfMatrixField` are wiring: palette setup, GIF output, and an empty initialiser.
- `math/rand`: the draws are parameters, with their ranges as preconditions.
- Thread safety of the package-level counter under a concurrent engine is a concurrency hazard. The model updates it sequentially.
- Go's `int` is 32 or 64 bits depending on the platform; `countFieldHeight` grows by one per generation and would wrap after about 2^31 or 2^63 generations; the model's integers are unbounded.
- A neighbour lookup outside the field is handled but never occurs for the rule: every unit with y > 0 has a unit above it. The source ignores the lookup's error and dereferences its result.
