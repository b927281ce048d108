/** The named seed patterns, the name lookup, the random seed list, and what
    the famous patterns do: the beehive is a still life, the blinker has
    period 2, the glider moves one cell diagonally every four generations. */
module Patterns {
  import opened Life

  type Cells = seq<(int, int)>

  datatype Option<T> = None | Some(value: T)

  const Beehive: Cells := [(4, 5), (4, 4), (5, 6), (6, 5), (6, 4), (5, 3)]
  const Blinker: Cells := [(5, 6), (5, 5), (5, 4)]
  const Glider: Cells := [(7, 8), (8, 9), (9, 9), (9, 8), (9, 7)]
  const HeavyweightSpaceship: Cells :=
    [(3, 10), (2, 9), (4, 10), (5, 10), (5, 9), (5, 8), (5, 7), (5, 6), (5, 5), (4, 4)]
  const PentaDecathlon: Cells :=
    [(5, 12), (5, 11), (5, 10), (5, 9), (5, 8), (5, 7), (5, 6), (5, 5), (5, 4), (5, 13)]
  const FigureEight: Cells :=
    [(3, 4), (3, 5), (3, 6),
     (4, 4), (4, 5), (4, 6),
     (5, 4), (5, 5), (5, 6),
     (6, 7), (6, 8), (6, 9),
     (7, 7), (7, 8), (7, 9),
     (8, 7), (8, 8), (8, 9)]
  const Tee: Cells := [(5, 5), (4, 5), (6, 5), (5, 6)]

  /** The patterns a board may be seeded with, by name. */
  const InitConditions: map<string, Cells> := map[
    "init_beehive" := Beehive,
    "init_blinker" := Blinker,
    "init_glider" := Glider,
    "init_heavyweight_spaceship" := HeavyweightSpaceship,
    "init_penta_decathlon" := PentaDecathlon,
    "init_figure_eight" := FigureEight,
    "init_tee" := Tee]

  /** The pattern of the given name, None for an unknown name. */
  function LookupPattern(name: string): (r: Option<Cells>)
    ensures r.Some? <==> name in {"init_beehive", "init_blinker", "init_glider",
                                  "init_heavyweight_spaceship", "init_penta_decathlon",
                                  "init_figure_eight", "init_tee"}
    ensures name == "init_beehive" ==> r == Some(Beehive)
    ensures name == "init_blinker" ==> r == Some(Blinker)
    ensures name == "init_glider" ==> r == Some(Glider)
    ensures name == "init_heavyweight_spaceship" ==> r == Some(HeavyweightSpaceship)
    ensures name == "init_penta_decathlon" ==> r == Some(PentaDecathlon)
    ensures name == "init_figure_eight" ==> r == Some(FigureEight)
    ensures name == "init_tee" ==> r == Some(Tee)
    ensures r.Some? ==> forall c :: c in r.value ==> InBoard(c, 14)
  {
    if name in InitConditions then Some(InitConditions[name]) else None
  }

  /** The number of random cells for a board of the given size and density:
      density × size², truncated toward zero; a negative product gives no
      cells, as a loop over a negative range runs no times. */
  function AgentCount(boardSize: nat, density: real): (k: nat)
    ensures density >= 0.0 ==>
              k as real <= density * (boardSize * boardSize) as real < k as real + 1.0
    ensures density <= 0.0 ==> k == 0
  {
    var agents := density * (boardSize * boardSize) as real;
    if agents < 0.0 then 0 else agents.Floor
  }

  /** A random seed list: AgentCount cells, each drawn as a row and then a
      column, uniformly from [0, boardSize). The draws stand for the random
      source, consumed two per cell in order. */
  method RandomList(boardSize: nat, density: real, draws: seq<int>) returns (initList: Cells)
    requires |draws| >= 2 * AgentCount(boardSize, density)
    requires forall i :: 0 <= i < |draws| ==> 0 <= draws[i] < boardSize
    ensures |initList| == AgentCount(boardSize, density)
    ensures forall k :: 0 <= k < |initList| ==> initList[k] == (draws[2 * k], draws[2 * k + 1])
    ensures forall c :: c in initList ==> InBoard(c, boardSize)
  {
    initList := [];
    var numAgents := AgentCount(boardSize, density);
    for k := 0 to numAgents
      invariant |initList| == k
      invariant forall j :: 0 <= j < k ==> initList[j] == (draws[2 * j], draws[2 * j + 1])
    {
      var x := draws[2 * k];
      var y := draws[2 * k + 1];
      initList := initList + [(x, y)];
    }
  }

  // ---------------------------------------------------------------------------
  // Pattern dynamics

  /** 1 when (a, b) is listed in p. */
  function Listed(p: Cells, a: int, b: int): int {
    if (a, b) in p then 1 else 0
  }

  /** Listed cells among the eight neighbours of (x, y) in the unbounded plane. */
  function ListedAround(p: Cells, x: int, y: int): int {
    Listed(p, x - 1, y - 1) + Listed(p, x - 1, y) + Listed(p, x - 1, y + 1) +
    Listed(p, x, y - 1) + Listed(p, x, y + 1) +
    Listed(p, x + 1, y - 1) + Listed(p, x + 1, y) + Listed(p, x + 1, y + 1)
  }

  /** Every listed cell is off the border rows and columns 0 and n - 1. */
  ghost predicate InInterior(p: Cells, n: nat) {
    forall c :: c in p ==> 1 <= c.0 < n - 1 && 1 <= c.1 < n - 1
  }

  /** Cell (x, y) is listed in q exactly when the Life rule, applied to the
      cells listed in p in the unbounded plane, makes it alive. */
  predicate CellSteps(p: Cells, q: Cells, x: int, y: int) {
    LifeRule((x, y) in p, ListedAround(p, x, y)) <==> (x, y) in q
  }

  /** One generation of p in the unbounded plane is q. */
  ghost predicate StepsInPlane(p: Cells, q: Cells) {
    forall x, y :: CellSteps(p, q, x, y)
  }

  /** Away from the border, wrapping finds no listed cell the plane does not. */
  lemma InteriorNeedsNoWrap(p: Cells, n: nat, a: int, b: int)
    requires InInterior(p, n) && 0 < n && -1 <= a <= n && -1 <= b <= n
    ensures ListedOnTorus(p, n, a, b) == Listed(p, a, b)
  {
    var a', b' := Wrap(a, n), Wrap(b, n);
    if (a', b') in p {
      assert 1 <= a' < n - 1 && 1 <= b' < n - 1;
    }
    if (a, b) in p {
      assert 1 <= a < n - 1 && 1 <= b < n - 1;
    }
  }

  /** Away from the border, the listed wrapped neighbours are the listed
      neighbours in the plane. */
  lemma InteriorNeighbours(p: Cells, n: nat, x: int, y: int)
    requires InInterior(p, n) && InBoard((x, y), n)
    ensures ListedAroundOnTorus(p, n, x, y) == ListedAround(p, x, y)
  {
    InteriorNeedsNoWrap(p, n, x - 1, y - 1);
    InteriorNeedsNoWrap(p, n, x - 1, y);
    InteriorNeedsNoWrap(p, n, x - 1, y + 1);
    InteriorNeedsNoWrap(p, n, x, y - 1);
    InteriorNeedsNoWrap(p, n, x, y + 1);
    InteriorNeedsNoWrap(p, n, x + 1, y - 1);
    InteriorNeedsNoWrap(p, n, x + 1, y);
    InteriorNeedsNoWrap(p, n, x + 1, y + 1);
  }

  /** Away from the border, a cell of the board seeded with p is alive after
      one generation exactly when the plane step of p makes it alive. */
  lemma SeededCellStepsInPlane(n: nat, p: Cells, q: Cells, x: int, y: int)
    requires forall c :: c in p ==> InBoard(c, n)
    requires forall c :: c in q ==> InBoard(c, n)
    requires InInterior(p, n) && CellSteps(p, q, x, y) && InBoard((x, y), n)
    ensures NextGeneration(Seeded(n, p), n)[x][y] == Seeded(n, q)[x][y]
  {
    NextGenerationAt(Seeded(n, p), n, x, y);
    SeededNeighboursOnTorus(p, n, x, y);
    InteriorNeighbours(p, n, x, y);
    SeededAt(n, p, x, y);
    SeededAt(n, q, x, y);
  }

  /** One generation takes the board seeded with p to the board seeded with
      q when p lies away from the border and steps to q in the plane. */
  lemma GenerationBetweenSeeds(n: nat, p: Cells, q: Cells)
    requires forall c :: c in p ==> InBoard(c, n)
    requires forall c :: c in q ==> InBoard(c, n)
    requires InInterior(p, n) && StepsInPlane(p, q)
    ensures NextGeneration(Seeded(n, p), n) == Seeded(n, q)
  {
    forall x, y | 0 <= x < n && 0 <= y < n
      ensures NextGeneration(Seeded(n, p), n)[x][y] == Seeded(n, q)[x][y]
    {
      SeededCellStepsInPlane(n, p, q, x, y);
    }
    BoardExtensionality(NextGeneration(Seeded(n, p), n), Seeded(n, q), n);
  }

  /** 1 when the wrapped cell (a, b) is listed in p. */
  function ListedOnTorus(p: Cells, n: nat, a: int, b: int): int
    requires 0 < n && -(n as int) <= a < 2 * n && -(n as int) <= b < 2 * n
  {
    Listed(p, Wrap(a, n), Wrap(b, n))
  }

  /** Listed cells among the eight toroidal neighbours of (x, y). */
  function ListedAroundOnTorus(p: Cells, n: nat, x: int, y: int): int
    requires InBoard((x, y), n)
  {
    ListedOnTorus(p, n, x - 1, y - 1) + ListedOnTorus(p, n, x - 1, y) +
    ListedOnTorus(p, n, x - 1, y + 1) + ListedOnTorus(p, n, x, y - 1) +
    ListedOnTorus(p, n, x, y + 1) + ListedOnTorus(p, n, x + 1, y - 1) +
    ListedOnTorus(p, n, x + 1, y) + ListedOnTorus(p, n, x + 1, y + 1)
  }

  /** Board cell (x, y) is listed in q exactly when the Life rule, applied to
      the cells listed in p on the torus of size n, makes it alive. */
  predicate CellStepsOnTorus(p: Cells, q: Cells, n: nat, x: int, y: int)
    requires InBoard((x, y), n)
  {
    LifeRule((x, y) in p, ListedAroundOnTorus(p, n, x, y)) <==> (x, y) in q
  }

  /** One generation of p on the torus of size n is q. */
  ghost predicate StepsOnTorus(p: Cells, q: Cells, n: nat) {
    forall x, y :: InBoard((x, y), n) ==> CellStepsOnTorus(p, q, n, x, y)
  }

  /** The toroidal neighbour count on the board seeded with p is the count of
      listed wrapped neighbours. */
  lemma SeededNeighboursOnTorus(p: Cells, n: nat, x: int, y: int)
    requires forall c :: c in p ==> InBoard(c, n)
    requires InBoard((x, y), n)
    ensures Neighbours(Seeded(n, p), n, x, y) == ListedAroundOnTorus(p, n, x, y)
  {
    SeededHoldsExactlyListed(n, p);
  }

  /** A cell of the board seeded with p is alive after one generation
      exactly when the Life rule, applied to the listed wrapped neighbours,
      makes it alive. */
  lemma SeededCellOnTorus(n: nat, p: Cells, x: int, y: int)
    requires forall c :: c in p ==> InBoard(c, n)
    requires InBoard((x, y), n)
    ensures NextGeneration(Seeded(n, p), n)[x][y] ==
            LifeRule((x, y) in p, ListedAroundOnTorus(p, n, x, y))
  {
    NextGenerationAt(Seeded(n, p), n, x, y);
    SeededNeighboursOnTorus(p, n, x, y);
    SeededAt(n, p, x, y);
  }

  /** One generation takes the board seeded with p to the board seeded with
      q exactly when p steps to q on the torus. */
  lemma GenerationOnTorus(n: nat, p: Cells, q: Cells)
    requires forall c :: c in p ==> InBoard(c, n)
    requires forall c :: c in q ==> InBoard(c, n)
    ensures NextGeneration(Seeded(n, p), n) == Seeded(n, q) <==> StepsOnTorus(p, q, n)
  {
    var h := NextGeneration(Seeded(n, p), n);
    if StepsOnTorus(p, q, n) {
      forall x, y | 0 <= x < n && 0 <= y < n
        ensures h[x][y] == Seeded(n, q)[x][y]
      {
        SeededCellOnTorus(n, p, x, y);
        SeededAt(n, q, x, y);
        assert CellStepsOnTorus(p, q, n, x, y);
      }
      BoardExtensionality(h, Seeded(n, q), n);
    }
    if h == Seeded(n, q) {
      forall x, y | InBoard((x, y), n)
        ensures CellStepsOnTorus(p, q, n, x, y)
      {
        SeededCellOnTorus(n, p, x, y);
        SeededAt(n, q, x, y);
        assert h[x][y] == Seeded(n, q)[x][y];
      }
    }
  }

  /** The beehive cells, as a test on the coordinates. */
  predicate IsBeehiveCell(a: int, b: int) {
    (a == 4 && (b == 4 || b == 5)) || (a == 5 && (b == 3 || b == 6)) ||
    (a == 6 && (b == 4 || b == 5))
  }

  lemma BeehiveCells(a: int, b: int)
    ensures (a, b) in Beehive <==> IsBeehiveCell(a, b)
  {
  }

  lemma BeehiveCellSteps(x: int, y: int)
    ensures CellSteps(Beehive, Beehive, x, y)
  {
    BeehiveCells(x, y);
    BeehiveCells(x - 1, y - 1); BeehiveCells(x - 1, y); BeehiveCells(x - 1, y + 1);
    BeehiveCells(x, y - 1); BeehiveCells(x, y + 1);
    BeehiveCells(x + 1, y - 1); BeehiveCells(x + 1, y); BeehiveCells(x + 1, y + 1);
  }

  /** The beehive is unchanged by a generation in the plane. */
  lemma BeehiveStepsToItself()
    ensures StepsInPlane(Beehive, Beehive)
  {
    forall x, y
      ensures CellSteps(Beehive, Beehive, x, y)
    {
      BeehiveCellSteps(x, y);
    }
  }

  lemma BeehiveCellStepsOnSeven(n: nat, x: int, y: int)
    requires n == 7 && InBoard((x, y), n)
    ensures CellStepsOnTorus(Beehive, Beehive, n, x, y)
  {
    BeehiveCells(x, y);
    BeehiveCells(Wrap(x - 1, n), Wrap(y - 1, n));
    BeehiveCells(Wrap(x - 1, n), y);
    BeehiveCells(Wrap(x - 1, n), Wrap(y + 1, n));
    BeehiveCells(x, Wrap(y - 1, n));
    BeehiveCells(x, Wrap(y + 1, n));
    BeehiveCells(Wrap(x + 1, n), Wrap(y - 1, n));
    BeehiveCells(Wrap(x + 1, n), y);
    BeehiveCells(Wrap(x + 1, n), Wrap(y + 1, n));
  }

  /** On the board of size 7 the beehive touches the last column, so the
      wrapped neighbours are counted. */
  lemma BeehiveStepsToItselfOnSeven(n: nat)
    requires n == 7
    ensures StepsOnTorus(Beehive, Beehive, n)
  {
    forall x, y | InBoard((x, y), n)
      ensures CellStepsOnTorus(Beehive, Beehive, n, x, y)
    {
      BeehiveCellStepsOnSeven(n, x, y);
    }
  }

  /** The beehive and both blinker phases fit on any board of size 7 or more,
      and away from the border on any board of size 8 or more. */
  lemma SmallPatternsFit(n: nat)
    requires n >= 7
    ensures forall c :: c in Beehive ==> InBoard(c, n)
    ensures forall c :: c in Blinker ==> InBoard(c, n)
    ensures forall c :: c in BlinkerColumn ==> InBoard(c, n)
    ensures n >= 8 ==> InInterior(Beehive, n) && InInterior(Blinker, n)
    ensures n >= 8 ==> InInterior(BlinkerColumn, n)
  {
  }

  /** The beehive is a still life on any board of size 7 or more. */
  lemma BeehiveIsStillLife(n: nat)
    requires n >= 7
    ensures NextGeneration(Seeded(n, Beehive), n) == Seeded(n, Beehive)
  {
    SmallPatternsFit(n);
    if n == 7 {
      BeehiveStepsToItselfOnSeven(n);
      GenerationOnTorus(n, Beehive, Beehive);
    } else {
      BeehiveStepsToItself();
      GenerationBetweenSeeds(n, Beehive, Beehive);
    }
  }

  /** The blinker's other phase: the middle column instead of the middle row. */
  const BlinkerColumn: Cells := [(4, 5), (5, 5), (6, 5)]

  predicate IsBlinkerCell(a: int, b: int) {
    a == 5 && 4 <= b <= 6
  }

  predicate IsBlinkerColumnCell(a: int, b: int) {
    4 <= a <= 6 && b == 5
  }

  lemma BlinkerCells(a: int, b: int)
    ensures (a, b) in Blinker <==> IsBlinkerCell(a, b)
    ensures (a, b) in BlinkerColumn <==> IsBlinkerColumnCell(a, b)
  {
  }

  lemma BlinkerCellSteps(x: int, y: int)
    ensures CellSteps(Blinker, BlinkerColumn, x, y)
    ensures CellSteps(BlinkerColumn, Blinker, x, y)
  {
    BlinkerCells(x, y);
    BlinkerCells(x - 1, y - 1); BlinkerCells(x - 1, y); BlinkerCells(x - 1, y + 1);
    BlinkerCells(x, y - 1); BlinkerCells(x, y + 1);
    BlinkerCells(x + 1, y - 1); BlinkerCells(x + 1, y); BlinkerCells(x + 1, y + 1);
  }

  lemma BlinkerRowCellStepsOnSeven(n: nat, x: int, y: int)
    requires n == 7 && InBoard((x, y), n)
    ensures CellStepsOnTorus(Blinker, BlinkerColumn, n, x, y)
  {
    BlinkerCells(x, y);
    BlinkerCells(Wrap(x - 1, n), Wrap(y - 1, n));
    BlinkerCells(Wrap(x - 1, n), y);
    BlinkerCells(Wrap(x - 1, n), Wrap(y + 1, n));
    BlinkerCells(x, Wrap(y - 1, n));
    BlinkerCells(x, Wrap(y + 1, n));
    BlinkerCells(Wrap(x + 1, n), Wrap(y - 1, n));
    BlinkerCells(Wrap(x + 1, n), y);
    BlinkerCells(Wrap(x + 1, n), Wrap(y + 1, n));
  }

  lemma BlinkerColumnCellStepsOnSeven(n: nat, x: int, y: int)
    requires n == 7 && InBoard((x, y), n)
    ensures CellStepsOnTorus(BlinkerColumn, Blinker, n, x, y)
  {
    BlinkerCells(x, y);
    BlinkerCells(Wrap(x - 1, n), Wrap(y - 1, n));
    BlinkerCells(Wrap(x - 1, n), y);
    BlinkerCells(Wrap(x - 1, n), Wrap(y + 1, n));
    BlinkerCells(x, Wrap(y - 1, n));
    BlinkerCells(x, Wrap(y + 1, n));
    BlinkerCells(Wrap(x + 1, n), Wrap(y - 1, n));
    BlinkerCells(Wrap(x + 1, n), y);
    BlinkerCells(Wrap(x + 1, n), Wrap(y + 1, n));
  }

  /** On the board of size 7 the blinker's column touches the last row. */
  lemma BlinkerFlipsOnSeven(n: nat)
    requires n == 7
    ensures StepsOnTorus(Blinker, BlinkerColumn, n)
    ensures StepsOnTorus(BlinkerColumn, Blinker, n)
  {
    forall x, y | InBoard((x, y), n)
      ensures CellStepsOnTorus(Blinker, BlinkerColumn, n, x, y)
      ensures CellStepsOnTorus(BlinkerColumn, Blinker, n, x, y)
    {
      BlinkerRowCellStepsOnSeven(n, x, y);
      BlinkerColumnCellStepsOnSeven(n, x, y);
    }
  }

  /** The blinker's row turns into a column and the column back into the row. */
  lemma BlinkerFlips()
    ensures StepsInPlane(Blinker, BlinkerColumn)
    ensures StepsInPlane(BlinkerColumn, Blinker)
  {
    forall x, y
      ensures CellSteps(Blinker, BlinkerColumn, x, y) && CellSteps(BlinkerColumn, Blinker, x, y)
    {
      BlinkerCellSteps(x, y);
    }
  }

  /** On any board of size 7 or more the blinker's row becomes its column. */
  lemma BlinkerRowToColumn(n: nat)
    requires n >= 7
    ensures NextGeneration(Seeded(n, Blinker), n) == Seeded(n, BlinkerColumn)
  {
    SmallPatternsFit(n);
    if n == 7 {
      BlinkerFlipsOnSeven(n);
      GenerationOnTorus(n, Blinker, BlinkerColumn);
    } else {
      BlinkerFlips();
      GenerationBetweenSeeds(n, Blinker, BlinkerColumn);
    }
  }

  /** On any board of size 7 or more the blinker's column becomes its row. */
  lemma BlinkerColumnToRow(n: nat)
    requires n >= 7
    ensures NextGeneration(Seeded(n, BlinkerColumn), n) == Seeded(n, Blinker)
  {
    SmallPatternsFit(n);
    if n == 7 {
      BlinkerFlipsOnSeven(n);
      GenerationOnTorus(n, BlinkerColumn, Blinker);
    } else {
      BlinkerFlips();
      GenerationBetweenSeeds(n, BlinkerColumn, Blinker);
    }
  }

  /** The blinker's two phases are different boards. */
  lemma BlinkerPhasesDiffer(n: nat)
    requires n >= 7
    ensures Seeded(n, BlinkerColumn) != Seeded(n, Blinker)
  {
    SeededAt(n, Blinker, 4, 5);
    SeededAt(n, BlinkerColumn, 4, 5);
  }

  /** On any board of size 7 or more the blinker's row becomes its column and
      returns after two generations; with BlinkerPhasesDiffer its period is
      exactly two. */
  lemma BlinkerHasPeriodTwo(n: nat)
    requires n >= 7
    ensures Evolve(Seeded(n, Blinker), n, 1) == Seeded(n, BlinkerColumn)
    ensures Evolve(Seeded(n, Blinker), n, 2) == Seeded(n, Blinker)
  {
    BlinkerRowToColumn(n);
    BlinkerColumnToRow(n);
  }

  /** The cells of p moved by (dx, dy). */
  function Shift(p: Cells, dx: int, dy: int): Cells {
    seq(|p|, i requires 0 <= i < |p| => (p[i].0 + dx, p[i].1 + dy))
  }

  /** The glider's three intermediate phases; the fourth is the glider moved
      one row down and one column right. */
  const GliderPhase1: Cells := [(8, 7), (8, 9), (9, 8), (9, 9), (10, 8)]
  const GliderPhase2: Cells := [(8, 9), (9, 7), (9, 9), (10, 8), (10, 9)]
  const GliderPhase3: Cells := [(8, 8), (9, 9), (9, 10), (10, 8), (10, 9)]

  predicate IsGliderCell(a: int, b: int) {
    (a == 7 && b == 8) || (a == 8 && b == 9) || (a == 9 && 7 <= b <= 9)
  }

  predicate IsGliderPhase1Cell(a: int, b: int) {
    (a == 8 && (b == 7 || b == 9)) || (a == 9 && (b == 8 || b == 9)) || (a == 10 && b == 8)
  }

  predicate IsGliderPhase2Cell(a: int, b: int) {
    (a == 8 && b == 9) || (a == 9 && (b == 7 || b == 9)) || (a == 10 && (b == 8 || b == 9))
  }

  predicate IsGliderPhase3Cell(a: int, b: int) {
    (a == 8 && b == 8) || (a == 9 && (b == 9 || b == 10)) || (a == 10 && (b == 8 || b == 9))
  }

  lemma GliderCells(a: int, b: int)
    ensures (a, b) in Glider <==> IsGliderCell(a, b)
  {
  }

  lemma GliderPhase1Cells(a: int, b: int)
    ensures (a, b) in GliderPhase1 <==> IsGliderPhase1Cell(a, b)
  {
  }

  lemma GliderPhase2Cells(a: int, b: int)
    ensures (a, b) in GliderPhase2 <==> IsGliderPhase2Cell(a, b)
  {
  }

  lemma GliderPhase3Cells(a: int, b: int)
    ensures (a, b) in GliderPhase3 <==> IsGliderPhase3Cell(a, b)
  {
  }

  lemma MovedGliderCells(a: int, b: int)
    ensures (a, b) in Shift(Glider, 1, 1) <==> IsGliderCell(a - 1, b - 1)
  {
    assert Shift(Glider, 1, 1) == [(8, 9), (9, 10), (10, 10), (10, 9), (10, 8)];
  }

  lemma GliderStep1(x: int, y: int)
    ensures CellSteps(Glider, GliderPhase1, x, y)
  {
    GliderPhase1Cells(x, y);
    GliderCells(x, y);
    GliderCells(x - 1, y - 1); GliderCells(x - 1, y); GliderCells(x - 1, y + 1);
    GliderCells(x, y - 1); GliderCells(x, y + 1);
    GliderCells(x + 1, y - 1); GliderCells(x + 1, y); GliderCells(x + 1, y + 1);
  }

  lemma GliderStep2(x: int, y: int)
    ensures CellSteps(GliderPhase1, GliderPhase2, x, y)
  {
    GliderPhase2Cells(x, y);
    GliderPhase1Cells(x, y);
    GliderPhase1Cells(x - 1, y - 1); GliderPhase1Cells(x - 1, y); GliderPhase1Cells(x - 1, y + 1);
    GliderPhase1Cells(x, y - 1); GliderPhase1Cells(x, y + 1);
    GliderPhase1Cells(x + 1, y - 1); GliderPhase1Cells(x + 1, y); GliderPhase1Cells(x + 1, y + 1);
  }

  lemma GliderStep3(x: int, y: int)
    ensures CellSteps(GliderPhase2, GliderPhase3, x, y)
  {
    GliderPhase3Cells(x, y);
    GliderPhase2Cells(x, y);
    GliderPhase2Cells(x - 1, y - 1); GliderPhase2Cells(x - 1, y); GliderPhase2Cells(x - 1, y + 1);
    GliderPhase2Cells(x, y - 1); GliderPhase2Cells(x, y + 1);
    GliderPhase2Cells(x + 1, y - 1); GliderPhase2Cells(x + 1, y); GliderPhase2Cells(x + 1, y + 1);
  }

  lemma GliderStep4(x: int, y: int)
    ensures CellSteps(GliderPhase3, Shift(Glider, 1, 1), x, y)
  {
    MovedGliderCells(x, y);
    GliderPhase3Cells(x, y);
    GliderPhase3Cells(x - 1, y - 1); GliderPhase3Cells(x - 1, y); GliderPhase3Cells(x - 1, y + 1);
    GliderPhase3Cells(x, y - 1); GliderPhase3Cells(x, y + 1);
    GliderPhase3Cells(x + 1, y - 1); GliderPhase3Cells(x + 1, y); GliderPhase3Cells(x + 1, y + 1);
  }

  /** The glider goes through its four phases in the plane. */
  lemma GliderPhases()
    ensures StepsInPlane(Glider, GliderPhase1)
    ensures StepsInPlane(GliderPhase1, GliderPhase2)
    ensures StepsInPlane(GliderPhase2, GliderPhase3)
    ensures StepsInPlane(GliderPhase3, Shift(Glider, 1, 1))
  {
    forall x, y
      ensures CellSteps(Glider, GliderPhase1, x, y)
      ensures CellSteps(GliderPhase1, GliderPhase2, x, y)
      ensures CellSteps(GliderPhase2, GliderPhase3, x, y)
      ensures CellSteps(GliderPhase3, Shift(Glider, 1, 1), x, y)
    {
      GliderStep1(x, y);
      GliderStep2(x, y);
      GliderStep3(x, y);
      GliderStep4(x, y);
    }
  }

  /** The glider's phases fit on any board of size 12 or more, all but the
      last away from the border. */
  lemma GliderFits(n: nat)
    requires n >= 12
    ensures forall c :: c in Glider ==> InBoard(c, n)
    ensures forall c :: c in GliderPhase1 ==> InBoard(c, n)
    ensures forall c :: c in GliderPhase2 ==> InBoard(c, n)
    ensures forall c :: c in GliderPhase3 ==> InBoard(c, n)
    ensures forall c :: c in Shift(Glider, 1, 1) ==> InBoard(c, n)
    ensures InInterior(Glider, n) && InInterior(GliderPhase1, n)
    ensures InInterior(GliderPhase2, n) && InInterior(GliderPhase3, n)
  {
    assert Shift(Glider, 1, 1) == [(8, 9), (9, 10), (10, 10), (10, 9), (10, 8)];
  }

  /** On any board of size 12 or more the glider reappears after four
      generations, moved one cell diagonally. */
  lemma GliderMovesDiagonally(n: nat)
    requires n >= 12
    ensures Evolve(Seeded(n, Glider), n, 4) == Seeded(n, Shift(Glider, 1, 1))
  {
    var g := Seeded(n, Glider);
    GliderPhases();
    GliderFits(n);
    GenerationBetweenSeeds(n, Glider, GliderPhase1);
    assert Evolve(g, n, 1) == Seeded(n, GliderPhase1);
    GenerationBetweenSeeds(n, GliderPhase1, GliderPhase2);
    assert Evolve(g, n, 2) == Seeded(n, GliderPhase2);
    GenerationBetweenSeeds(n, GliderPhase2, GliderPhase3);
    assert Evolve(g, n, 3) == Seeded(n, GliderPhase3);
    GenerationBetweenSeeds(n, GliderPhase3, Shift(Glider, 1, 1));
  }
}
