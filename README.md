# Conway's Game of Life game board, modelled in Dafny

`ConwayGame.py` runs Conway's Game of Life on a `size × size` board whose edges
wrap round (a torus). The `gameBoard` object holds two boards:

- `dic`, the current generation;
- `next_dic`, the scratch board the next generation is written into.

Seeding forces listed cells alive. `update_entire_board` sweeps every cell:
it counts the live toroidal neighbours against the frozen `dic` and applies
the four guarded birth/survival/death cases. It writes into `next_dic`, then
replaces `dic` by a deep copy of `next_dic`. `get_status_list` and `num_alive`
read the board out. The file also lists famous seed patterns by name.

The model has four modules:

- `Life` (`life.dfy`) holds the pure definitions and the lemmas about them.
  A board is a `seq<seq<bool>>`. It defines:
  - the single-correction wrap and the wrapped status lookup;
  - the neighbour count, Conway's rule and the four guarded cases;
  - the as-written sweep (`Sweep`) and the Life generation (`NextGeneration`);
  - seeding and the population count.
- `ConwayGame` (`game_board.dfy`) is the `gameBoard` object as a class
  `GameBoard`. Its two boards are `array2<bool>` fields updated in place. Each
  method is proved against the `Life` functions, with its loops' invariants.
- `Patterns` (`patterns.dfy`) holds:
  - the pattern tables and the lookup by name;
  - `random_list`, with its random source passed in as a sequence of draws;
  - what the beehive, blinker and glider do on a board of the sizes the
    source uses.
- `Scenarios` (`scenarios.dfy`) runs those patterns on the `GameBoard` object
  itself.

The key invariant is `GameBoard.Coherent`: every cell alive in `next_dic` is
alive in `dic`. `update_agent` never writes a dead cell whose count is not 3,
and such a cell keeps whatever the scratch board held. The sweep is therefore
the Life generation only when no such stale live value can leak.
`SweepIsNextGenerationIff` states exactly when that happens. The constructor
establishes `Coherent`, every update re-establishes it, and seeding with
live cells preserves it.

## Model

| member | source | states |
|---|---|---|
| Life.Wrap | ConwayGame.py:160-169 | the corrected coordinate is in [0, n) and differs from the input by at most one board width |
| Life.Status | ConwayGame.py:160-172 | the status read through the single wrap correction, always 0 or 1 (its modulo meaning is StatusIsModulo) |
| Life.WrapIsModulo | ConwayGame.py:160-169 | for inputs in [-n, 2n) the single correction equals reduction modulo n |
| Life.StatusIsModulo | ConwayGame.py:148-172 | the status read at (x, y) is 1 exactly when cell (x mod n, y mod n) is alive |
| Life.StatusIsToroidal | ConwayGame.py:160-172 | one board width left, right, up or down reads the same cell; in range the status is the cell's own 0/1 |
| Life.Neighbours | ConwayGame.py:215-229 | the neighbour count lies in [0, 8] |
| Life.BlockIsCentrePlusNeighbours | ConwayGame.py:215-229 | counting the 3 × 3 block row by row gives the centre's status plus its eight toroidal neighbours |
| Life.RuleCasesAreExclusive | ConwayGame.py:233-247 | no two of the four guarded cases of the update hold for the same cell |
| Life.ApplyRule | ConwayGame.py:233-247 | the guarded writes give Conway's rule unless a stale live scratch value sits on a dead cell whose count is not 3, and in that case the result is wrongly alive |
| Life.SweptCell | ConwayGame.py:233-247 | the value update_agent leaves in scratch cell (x, y), as written: ApplyRule on the cell, its count and its old scratch value (compared with the reference in SweptCellAgreesUnlessStale) |
| Life.Sweep | ConwayGame.py:250-256 | the scratch board after the sweep, as written: every cell swept against the frozen board; the semantics that UpdateEntireBoard is proved to compute |
| Life.NextGeneration | ConwayGame.py:233-247 | the reference Life generation, every cell following Conway's rule against the old board alone; it is not a model of a source line but the definition Sweep is compared with |
| Life.SweepIsNextGenerationIff | ConwayGame.py:250-259 | the sweep equals the Life generation if and only if every live scratch cell that is dead on the board has exactly three live neighbours |
| Life.SweptCellAgreesUnlessStale | ConwayGame.py:233-247 | one swept cell agrees with the Life generation exactly when its scratch value is not a stale live value on a dead cell whose count is not 3 |
| Life.SweepIsNextGeneration | ConwayGame.py:137-143 | when every live scratch cell is alive on the board (true of the all-dead start), the sweep is the Life generation |
| Life.NextGenerationAt | ConwayGame.py:233-247 | each cell of the next generation follows the birth/survival rule against the old board alone |
| Life.PartialSweepStep | ConwayGame.py:254-256 | updating cell (x, y) of the part-swept scratch board moves the row-major sweep on by one cell |
| Life.PartialSweepNextRow | ConwayGame.py:254-256 | a finished row hands over to the start of the next row |
| Life.PartialSweepEnds | ConwayGame.py:254-256 | before the sweep the scratch board is untouched, and after the last row it is the full sweep |
| Life.Empty | ConwayGame.py:140-143 | the initial board has n rows of n dead cells |
| Life.Mark | ConwayGame.py:181-182 | forcing one in-range cell alive, with no wrapping; the board keeps its shape |
| Life.MarkSetsOnlyThatCell | ConwayGame.py:181-182 | forcing cell c alive makes c alive and changes no other cell |
| Life.Seed | ConwayGame.py:193-197 | forcing the listed cells alive one after another, first to last (its effect is SeedSetsExactlyListed) |
| Life.Seeded | ConwayGame.py:140-146 | the board a fresh object holds: the all-dead board seeded with the list (its effect is SeededHoldsExactlyListed) |
| Life.SeedSetsExactlyListed | ConwayGame.py:184-197 | after forcing the listed cells alive, a cell is alive exactly when it was alive before or is listed |
| Life.SeededHoldsExactlyListed | ConwayGame.py:134-146 | a freshly seeded board holds exactly the listed cells |
| Life.SeededAt | ConwayGame.py:134-146 | one cell of a freshly seeded board is alive exactly when it is listed |
| Life.SeedDependsOnlyOnCellSet | ConwayGame.py:193-197 | seeding depends only on the set of listed cells, not on order or duplicates |
| Life.SeedIsIdempotent | ConwayGame.py:175-197 | seeding the same list twice has the effect of seeding it once |
| Life.RowPopulation | ConwayGame.py:287-290 | a row's live count is at most its length |
| Life.Population | ConwayGame.py:285-291 | the live cells of a board counted row by row, as num_alive counts them (bounded by PopulationBound, zero exactly as NoPopulationIffAllDead says) |
| Life.RowPopulationIsMultiplicity | ConwayGame.py:287-290 | the row-by-row live count equals the number of live cells in the row |
| Life.PopulationBound | ConwayGame.py:285-291 | a board of rows of at most n cells has at most rows × n live cells |
| Life.NoPopulationIffAllDead | ConwayGame.py:285-291 | the live count is 0 if and only if every cell of the board is dead |
| Life.NoRowPopulationIffAllDead | ConwayGame.py:287-290 | a row's live count is 0 if and only if every cell of the row is dead |
| ConwayGame.CellsAfterWrite | ConwayGame.py:235 | an array changed in at most one cell holds the old board with that one cell replaced |
| ConwayGame.GameBoard.constructor | ConwayGame.py:134-146 | both boards are size × size; the current board holds exactly the seeded cells; the scratch board is all dead; the boards are coherent |
| ConwayGame.GameBoard.GetAgentStatus | ConwayGame.py:148-172 | for coordinates in [-size, 2·size) it returns the 0/1 status of the wrapped cell |
| ConwayGame.GameBoard.ForceUpdateAgent | ConwayGame.py:175-182 | exactly cell (x, y) of the current board changes, to the given state; forcing a cell alive keeps the boards coherent |
| ConwayGame.GameBoard.ForceUpdateManyAgents | ConwayGame.py:184-197 | the current board becomes the old board with the listed cells forced alive in order; coherence is kept |
| ConwayGame.GameBoard.CountNeighbours | ConwayGame.py:215-229 | the counter ends at the number of live toroidal neighbours, excluding the cell itself, and lies in [0, 8] |
| ConwayGame.GameBoard.CountRow | ConwayGame.py:223-229 | the inner counting loop adds the live cells of one wrapped row of the 3 × 3 block |
| ConwayGame.GameBoard.UpdateAgent | ConwayGame.py:199-247 | only scratch cell (x, y) changes, and it becomes what the guarded rule writes against the current board |
| ConwayGame.GameBoard.UpdateRow | ConwayGame.py:255-256 | the inner sweep loop takes the scratch board from "row x not yet swept" to "row x swept" |
| ConwayGame.GameBoard.UpdateEntireBoard | ConwayGame.py:250-259 | the new current board is the sweep of the old board over the old scratch board, a fresh copy equal to the scratch board; the boards end coherent; from coherent boards the result is the Life generation |
| ConwayGame.GameBoard.GetStatusList | ConwayGame.py:261-275 | the snapshot has size rows of size entries, each the cell's status in {0, 1}, 1 exactly for live cells; nothing changes |
| ConwayGame.GameBoard.NumAlive | ConwayGame.py:277-291 | the result is the number of live cells and is at most size × size; nothing changes |
| Patterns.InitConditions | ConwayGame.py:348-352 | the name-to-pattern table, a constant with the seven entries of the source; its content is stated through LookupPattern |
| Patterns.LookupPattern | ConwayGame.py:348-352 | a name is found exactly when it is one of the seven pattern names, and each name gives its own pattern table; every pattern fits a board of size 14 |
| Patterns.AgentCount | ConwayGame.py:318 | the count is density × size² truncated toward zero, and 0 when the product is not positive |
| Patterns.RandomList | ConwayGame.py:311-327 | the list has AgentCount entries, entry k being the k-th pair of draws, all on the board |
| Patterns.InteriorNeighbours | ConwayGame.py:215-229 | for cells listed away from the border, the wrapped neighbour count equals the count in the unbounded plane |
| Patterns.SeededNeighboursOnTorus | ConwayGame.py:215-229 | the neighbour count on a seeded board is the number of listed wrapped neighbours |
| Patterns.SeededCellOnTorus | ConwayGame.py:233-247 | a cell of a seeded board is alive after one generation exactly when the rule, applied to the listed wrapped neighbours, makes it alive |
| Patterns.GenerationOnTorus | ConwayGame.py:250-259 | one generation takes the board seeded with p to the board seeded with q if and only if p steps to q on the torus |
| Patterns.SeededCellStepsInPlane | ConwayGame.py:233-247 | away from the border, a seeded cell's next state is the plane step of the pattern |
| Patterns.GenerationBetweenSeeds | ConwayGame.py:250-259 | a pattern away from the border that steps to q in the plane takes its seeded board to q's seeded board |
| Patterns.BeehiveStepsToItself | ConwayGame.py:332 | the beehive is unchanged by a generation in the plane |
| Patterns.BeehiveStepsToItselfOnSeven | ConwayGame.py:332 | on the 7 × 7 torus, where the beehive touches the border, it is unchanged by a generation |
| Patterns.SmallPatternsFit | ConwayGame.py:332-333 | the beehive and both blinker phases lie on any board of size 7 or more, and away from the border from size 8 |
| Patterns.BeehiveIsStillLife | ConwayGame.py:332 | on any board of size 7 or more the board seeded with the beehive is unchanged by a generation |
| Patterns.BlinkerFlips | ConwayGame.py:333 | in the plane the blinker's row becomes its column and the column becomes the row |
| Patterns.BlinkerFlipsOnSeven | ConwayGame.py:333 | the same on the 7 × 7 torus |
| Patterns.BlinkerRowToColumn | ConwayGame.py:333 | on any board of size 7 or more the seeded blinker becomes its column after one generation |
| Patterns.BlinkerColumnToRow | ConwayGame.py:333 | on any board of size 7 or more the column becomes the seeded blinker again |
| Patterns.BlinkerPhasesDiffer | ConwayGame.py:333 | the blinker's two phases are different boards |
| Patterns.BlinkerHasPeriodTwo | ConwayGame.py:333 | on any board of size 7 or more the seeded blinker is the column after one generation and the original board after two |
| Patterns.GliderPhases | ConwayGame.py:334 | in the plane the glider goes through three phases and then reappears moved one cell diagonally |
| Patterns.GliderFits | ConwayGame.py:334 | the glider's phases lie on any board of size 12 or more, all but the last away from the border |
| Patterns.GliderMovesDiagonally | ConwayGame.py:334 | on any board of size 12 or more, four generations move the seeded glider one cell down and one cell right |
| Scenarios.BeehiveBoard | ConwayGame.py:31-35 | a game board of size 7 or more seeded with the beehive holds the same board after one update |
| Scenarios.BlinkerBoard | ConwayGame.py:31-35 | a game board of size 7 or more seeded with the blinker holds the original board after two updates |
| Scenarios.GliderBoard | ConwayGame.py:31-35 | a game board of size 12 or more seeded with the glider holds the glider moved one cell diagonally after four updates |

## Left out

- The prisoner's-dilemma scaffolding is not modelled. It is unused by the simulation and depends on randomness. This covers `agent.score`, `agent.strategy`, `agent.move_list`, `make_decision` and `agent_battle` (ConwayGame.py:77-129), and `past_agent_battles` (ConwayGame.py:54-58).
- `main` is not modelled: argument parsing, frame-rate arithmetic and the matplotlib animation (ConwayGame.py:361-429).
- `print_board` (ConwayGame.py:293-308) is console output.
- The `agent` objects are reduced to their status, held as a boolean in a 2-D array. The stored coordinates `X` and `Y` always equal the cell's own key, so the model reads `x` and `y` directly. Only statuses 0 and 1 are ever stored, so other values are not modelled.
- The string keys `str([x, y])` are replaced by array indices. A key the dictionary lacks raises an error in the source; it becomes a precondition here: coordinates in [-size, 2·size) for the lookup, and in [0, size) for forcing a cell.
- `copy.deepcopy` is replaced by a fresh array with the same cells.
- The constructor builds both boards all dead with array initialisers instead of its nested loop. The result is the same.
- `get_status_list` also stores its result in the attribute `status_list`. That attribute is not modelled, since nothing reads it.
- CountRow and UpdateRow are the inner loops of `update_agent` and `update_entire_board` written as methods of their own. The loop bodies are unchanged.
- Patterns.RandomList: the random source `np.random.randint` is passed in as a sequence of draws in [0, boardSize). The float product `density * boardSize ** 2` is an exact `real` here, so floating-point rounding is not modelled.
- ConwayGame.GameBoard.ForceUpdateAgent: forcing a cell dead can leave a stale live scratch cell. The contract then only states the new current board, and UpdateEntireBoard computes the as-written Sweep, which SweepIsNextGenerationIff shows can differ from the Life generation. The source only ever forces cells alive.
- Patterns.GliderMovesDiagonally needs a board of size 12 or more, so that the glider's phases stay away from the border. Smaller boards are not covered.
- The dynamics of the heavyweight spaceship, penta-decathlon, figure eight and tee patterns are not proved; only their data and lookup are modelled.
- The two unnamed patterns `init_triangle` and `init_spinner_2` (ConwayGame.py:356-357) are never used and are not modelled.
