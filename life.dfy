/** Value-level model of Conway's Game of Life on a size × size toroidal board.

    A board is a sequence of rows; row x, column y holds whether cell (x, y) is
    alive. Everything here is a pure function of its arguments; the object that
    stores boards in arrays and updates them in place is ConwayGame.GameBoard,
    whose methods are specified by these functions. */
module Life {

  type Board = seq<seq<bool>>

  /** g has n rows of n cells each. */
  predicate IsBoard(g: Board, n: nat) {
    |g| == n && forall x :: 0 <= x < n ==> |g[x]| == n
  }

  predicate InBoard(c: (int, int), n: nat) {
    0 <= c.0 < n && 0 <= c.1 < n
  }

  /** Two boards of the same shape that agree on every cell are equal. */
  lemma BoardExtensionality(g: Board, h: Board, n: nat)
    requires IsBoard(g, n) && IsBoard(h, n)
    requires forall x, y :: 0 <= x < n && 0 <= y < n ==> g[x][y] == h[x][y]
    ensures g == h
  {
    forall x | 0 <= x < n
      ensures g[x] == h[x]
    {
      assert forall y :: 0 <= y < n ==> g[x][y] == h[x][y];
    }
  }

  // ---------------------------------------------------------------------------
  // Toroidal lookup

  /** The lookup's correction of one coordinate: add size once if negative,
      then subtract size once if too large. */
  function Wrap(c: int, n: nat): (r: int)
    requires 0 < n && -(n as int) <= c < 2 * n
    ensures 0 <= r < n
    ensures r == c || r == c + n || r == c - n
  {
    var c' := if c < 0 then c + n else c;
    if c' >= n then c' - n else c'
  }

  /** For coordinates at most one board width out of range the correction is
      reduction modulo n. */
  lemma WrapIsModulo(c: int, n: nat)
    requires 0 < n && -(n as int) <= c < 2 * n
    ensures Wrap(c, n) == c % n
  {
    var r := Wrap(c, n);
    var q := c / n;
    assert c == q * n + c % n && 0 <= c % n < n;
    if q == -1 {
      assert c % n == c + n;
    } else if q == 1 {
      assert c % n == c - n;
    }
  }

  /** Status (0 dead, 1 alive) of the cell at (x, y) after wrapping each axis. */
  function Status(g: Board, n: nat, x: int, y: int): (s: int)
    requires 0 < n && IsBoard(g, n)
    requires -(n as int) <= x < 2 * n && -(n as int) <= y < 2 * n
    ensures s == 0 || s == 1
  {
    if g[Wrap(x, n)][Wrap(y, n)] then 1 else 0
  }

  /** The status read at (x, y) is that of cell (x mod n, y mod n). */
  lemma StatusIsModulo(g: Board, n: nat, x: int, y: int)
    requires 0 < n && IsBoard(g, n)
    requires -(n as int) <= x < 2 * n && -(n as int) <= y < 2 * n
    ensures Status(g, n, x, y) == 1 <==> g[x % n][y % n]
  {
    WrapIsModulo(x, n);
    WrapIsModulo(y, n);
  }

  /** The board is a torus: one board width to the left, right, up or down is
      the same cell. In particular column -1 is column n - 1 and column n is
      column 0. */
  lemma StatusIsToroidal(g: Board, n: nat, x: int, y: int)
    requires 0 < n && IsBoard(g, n) && 0 <= x < n && 0 <= y < n
    ensures Status(g, n, x - n, y) == Status(g, n, x, y) == Status(g, n, x + n, y)
    ensures Status(g, n, x, y - n) == Status(g, n, x, y) == Status(g, n, x, y + n)
    ensures Status(g, n, x, y) == (if g[x][y] then 1 else 0)
  {
  }

  // ---------------------------------------------------------------------------
  // Neighbour count and rule

  /** Live cells among the eight toroidal neighbours of (x, y), counted per
      neighbour position (on boards smaller than 3 one cell can be the
      neighbour in several directions and is then counted that many times). */
  function Neighbours(g: Board, n: nat, x: int, y: int): (k: int)
    requires 0 < n && IsBoard(g, n) && 0 <= x < n && 0 <= y < n
    ensures 0 <= k <= 8
  {
    Status(g, n, x - 1, y - 1) + Status(g, n, x - 1, y) + Status(g, n, x - 1, y + 1) +
    Status(g, n, x, y - 1) + Status(g, n, x, y + 1) +
    Status(g, n, x + 1, y - 1) + Status(g, n, x + 1, y) + Status(g, n, x + 1, y + 1)
  }

  /** Live cells in the rows x - 1 .. iEnd - 1 of the 3 × 3 block centred on
      (x, y), the centre included; the order in which the counting loop visits
      them. */
  ghost function BlockCount(g: Board, n: nat, x: int, y: int, iEnd: int): int
    requires 0 < n && IsBoard(g, n) && 0 <= x < n && 0 <= y < n
    requires x - 1 <= iEnd <= x + 2
    decreases iEnd - x
  {
    if iEnd == x - 1 then 0
    else BlockCount(g, n, x, y, iEnd - 1) + RowCount(g, n, iEnd - 1, y, y + 2)
  }

  /** Live cells at columns y - 1 .. jEnd - 1 of row i. */
  ghost function RowCount(g: Board, n: nat, i: int, y: int, jEnd: int): int
    requires 0 < n && IsBoard(g, n) && -1 <= i <= n && 0 <= y < n
    requires y - 1 <= jEnd <= y + 2
    decreases jEnd - y
  {
    if jEnd == y - 1 then 0
    else RowCount(g, n, i, y, jEnd - 1) + Status(g, n, i, jEnd - 1)
  }

  /** The whole 3 × 3 block counts the centre and its eight neighbours. */
  lemma BlockIsCentrePlusNeighbours(g: Board, n: nat, x: int, y: int)
    requires 0 < n && IsBoard(g, n) && 0 <= x < n && 0 <= y < n
    ensures BlockCount(g, n, x, y, x + 2) == Status(g, n, x, y) + Neighbours(g, n, x, y)
  {
    forall i | x - 1 <= i <= x + 1
      ensures RowCount(g, n, i, y, y + 2)
           == Status(g, n, i, y - 1) + Status(g, n, i, y) + Status(g, n, i, y + 1)
    {
      assert RowCount(g, n, i, y, y) == Status(g, n, i, y - 1);
    }
    assert BlockCount(g, n, x, y, x) == RowCount(g, n, x - 1, y, y + 2);
  }

  /** Conway's rule: a live cell survives with two or three live neighbours,
      a dead cell is born with exactly three, every other cell is dead. */
  predicate LifeRule(alive: bool, k: int) {
    if alive then k == 2 || k == 3 else k == 3
  }

  /** The four guarded cases the update tests, in order: survival,
      birth, overpopulation, underpopulation. */
  predicate Guard(i: int, alive: bool, k: int) {
    match i
    case 0 => alive && (k == 2 || k == 3)
    case 1 => k == 3 && !alive
    case 2 => k > 3 && alive
    case 3 => k < 2 && alive
    case _ => false
  }

  /** At most one of the four guarded cases applies to a cell. */
  lemma RuleCasesAreExclusive(alive: bool, k: int, i: int, j: int)
    requires 0 <= i < j < 4
    ensures !(Guard(i, alive, k) && Guard(j, alive, k))
  {
  }

  /** The value the update leaves in the scratch cell, which held `scratch`
      before: each guard that holds writes its state, and a cell no guard
      covers (dead with a count other than 3) keeps the old scratch value.
      The result follows Conway's rule exactly when the stale scratch value
      cannot leak, that is when an alive scratch value goes with an alive
      cell or with a count of 3. */
  function ApplyRule(alive: bool, k: int, scratch: bool): (b: bool)
    ensures (scratch ==> alive || k == 3) ==> (b <==> LifeRule(alive, k))
    ensures scratch && !alive && k != 3 ==> b && !LifeRule(alive, k)
  {
    var s0 := if Guard(0, alive, k) then true else scratch;
    var s1 := if Guard(1, alive, k) then true else s0;
    var s2 := if Guard(2, alive, k) then false else s1;
    if Guard(3, alive, k) then false else s2
  }

  // ---------------------------------------------------------------------------
  // One generation

  /** The next generation: every cell follows Conway's rule against g alone. */
  function NextGeneration(g: Board, n: nat): (h: Board)
    requires IsBoard(g, n)
    ensures IsBoard(h, n)
  {
    seq(n, x requires 0 <= x < n =>
      seq(n, y requires 0 <= y < n => LifeRule(g[x][y], Neighbours(g, n, x, y))))
  }

  /** Cell (x, y) of the next generation follows the rule against g. */
  lemma NextGenerationAt(g: Board, n: nat, x: int, y: int)
    requires IsBoard(g, n) && InBoard((x, y), n)
    ensures NextGeneration(g, n)[x][y] == LifeRule(g[x][y], Neighbours(g, n, x, y))
  {
  }

  /** The board k generations after g. */
  function Evolve(g: Board, n: nat, k: nat): (h: Board)
    requires IsBoard(g, n)
    ensures IsBoard(h, n)
  {
    if k == 0 then g else NextGeneration(Evolve(g, n, k - 1), n)
  }

  /** What the update writes into scratch cell (x, y), against the frozen
      board g. */
  function SweptCell(g: Board, scratch: Board, n: nat, x: int, y: int): bool
    requires IsBoard(g, n) && IsBoard(scratch, n) && InBoard((x, y), n)
  {
    ApplyRule(g[x][y], Neighbours(g, n, x, y), scratch[x][y])
  }

  /** The scratch board after the sweep: every cell gets ApplyRule against the
      frozen board g, starting from the previous scratch contents. */
  function Sweep(g: Board, scratch: Board, n: nat): (h: Board)
    requires IsBoard(g, n) && IsBoard(scratch, n)
    ensures IsBoard(h, n)
  {
    seq(n, x requires 0 <= x < n =>
      seq(n, y requires 0 <= y < n => SweptCell(g, scratch, n, x, y)))
  }

  /** The scratch board part way through the sweep, in row-major order: the
      cells before (x, y) are swept, the rest still hold scratch. */
  ghost function PartialSweep(g: Board, scratch: Board, n: nat, x: int, y: int): (h: Board)
    requires IsBoard(g, n) && IsBoard(scratch, n) && 0 <= x <= n && 0 <= y <= n
    ensures IsBoard(h, n)
  {
    seq(n, i requires 0 <= i < n =>
      seq(n, j requires 0 <= j < n =>
        if i < x || (i == x && j < y) then SweptCell(g, scratch, n, i, j) else scratch[i][j]))
  }

  /** Sweeping cell (x, y) of the part-swept board moves the sweep on by one
      cell. */
  lemma PartialSweepStep(g: Board, scratch: Board, n: nat, x: int, y: int)
    requires IsBoard(g, n) && IsBoard(scratch, n) && 0 <= x < n && 0 <= y < n
    ensures var t := PartialSweep(g, scratch, n, x, y);
            t[x := t[x][y := SweptCell(g, t, n, x, y)]] == PartialSweep(g, scratch, n, x, y + 1)
  {
    var t := PartialSweep(g, scratch, n, x, y);
    var u := t[x := t[x][y := SweptCell(g, t, n, x, y)]];
    BoardExtensionality(u, PartialSweep(g, scratch, n, x, y + 1), n);
  }

  /** A fully swept row hands over to the start of the next. */
  lemma PartialSweepNextRow(g: Board, scratch: Board, n: nat, x: int)
    requires IsBoard(g, n) && IsBoard(scratch, n) && 0 <= x < n
    ensures PartialSweep(g, scratch, n, x, n) == PartialSweep(g, scratch, n, x + 1, 0)
  {
    BoardExtensionality(PartialSweep(g, scratch, n, x, n), PartialSweep(g, scratch, n, x + 1, 0), n);
  }

  /** Nothing is swept at the start, everything at the end. */
  lemma PartialSweepEnds(g: Board, scratch: Board, n: nat)
    requires IsBoard(g, n) && IsBoard(scratch, n)
    ensures PartialSweep(g, scratch, n, 0, 0) == scratch
    ensures PartialSweep(g, scratch, n, n, 0) == Sweep(g, scratch, n)
  {
    BoardExtensionality(PartialSweep(g, scratch, n, 0, 0), scratch, n);
    BoardExtensionality(PartialSweep(g, scratch, n, n, 0), Sweep(g, scratch, n), n);
  }

  /** Every cell alive in the scratch board is alive in the current board. */
  predicate Covers(g: Board, scratch: Board, n: nat)
    requires IsBoard(g, n) && IsBoard(scratch, n)
  {
    forall x, y :: 0 <= x < n && 0 <= y < n ==> scratch[x][y] ==> g[x][y]
  }

  /** The sweep yields the Life generation exactly when no stale scratch cell
      leaks: every cell alive in the scratch board but dead on the board has
      three live neighbours. */
  lemma SweepIsNextGenerationIff(g: Board, scratch: Board, n: nat)
    requires IsBoard(g, n) && IsBoard(scratch, n)
    ensures Sweep(g, scratch, n) == NextGeneration(g, n)
        <==> forall x, y :: 0 <= x < n && 0 <= y < n && scratch[x][y] && !g[x][y] ==>
                Neighbours(g, n, x, y) == 3
  {
    var s, h := Sweep(g, scratch, n), NextGeneration(g, n);
    if s == h {
      forall x, y | 0 <= x < n && 0 <= y < n && scratch[x][y] && !g[x][y]
        ensures Neighbours(g, n, x, y) == 3
      {
        assert s[x][y] == h[x][y];
        SweptCellAgreesUnlessStale(g, scratch, n, x, y);
      }
    } else if forall x, y :: 0 <= x < n && 0 <= y < n && scratch[x][y] && !g[x][y] ==>
                Neighbours(g, n, x, y) == 3
    {
      forall x, y | 0 <= x < n && 0 <= y < n
        ensures s[x][y] == h[x][y]
      {
        SweptCellAgreesUnlessStale(g, scratch, n, x, y);
      }
      BoardExtensionality(s, h, n);
    }
  }

  /** One cell of the sweep agrees with the Life generation unless its
      scratch value is a stale alive on a dead cell whose count is not 3. */
  lemma SweptCellAgreesUnlessStale(g: Board, scratch: Board, n: nat, x: int, y: int)
    requires IsBoard(g, n) && IsBoard(scratch, n) && InBoard((x, y), n)
    ensures Sweep(g, scratch, n)[x][y] == NextGeneration(g, n)[x][y]
        <==> !(scratch[x][y] && !g[x][y] && Neighbours(g, n, x, y) != 3)
  {
    var k := Neighbours(g, n, x, y);
    assert Sweep(g, scratch, n)[x][y] == ApplyRule(g[x][y], k, scratch[x][y]);
    assert NextGeneration(g, n)[x][y] == LifeRule(g[x][y], k);
  }

  /** In particular the sweep is the Life generation when the scratch board is
      covered by the current one. */
  lemma SweepIsNextGeneration(g: Board, scratch: Board, n: nat)
    requires IsBoard(g, n) && IsBoard(scratch, n) && Covers(g, scratch, n)
    ensures Sweep(g, scratch, n) == NextGeneration(g, n)
  {
    SweepIsNextGenerationIff(g, scratch, n);
  }

  // ---------------------------------------------------------------------------
  // Seeding

  /** The all-dead board. */
  function Empty(n: nat): (g: Board)
    ensures IsBoard(g, n)
    ensures forall x, y :: 0 <= x < n && 0 <= y < n ==> !g[x][y]
  {
    seq(n, x => seq(n, y => false))
  }

  /** Forcing one in-range cell alive; no wrapping is applied. */
  function Mark(g: Board, n: nat, c: (int, int)): (h: Board)
    requires IsBoard(g, n) && InBoard(c, n)
    ensures IsBoard(h, n)
  {
    g[c.0 := g[c.0][c.1 := true]]
  }

  /** Forcing cell c alive changes that cell and no other. */
  lemma MarkSetsOnlyThatCell(g: Board, n: nat, c: (int, int))
    requires IsBoard(g, n) && InBoard(c, n)
    ensures forall x, y :: 0 <= x < n && 0 <= y < n ==>
              (Mark(g, n, c)[x][y] <==> g[x][y] || (x, y) == c)
  {
  }

  /** Forcing the listed cells alive one after another, first to last. */
  function Seed(g: Board, n: nat, cells: seq<(int, int)>): (h: Board)
    requires IsBoard(g, n) && forall c :: c in cells ==> InBoard(c, n)
    ensures IsBoard(h, n)
    decreases |cells|
  {
    if cells == [] then g
    else Mark(Seed(g, n, cells[..|cells| - 1]), n, cells[|cells| - 1])
  }

  /** The board a fresh object holds after seeding it with cells. */
  function Seeded(n: nat, cells: seq<(int, int)>): (g: Board)
    requires forall c :: c in cells ==> InBoard(c, n)
    ensures IsBoard(g, n)
  {
    Seed(Empty(n), n, cells)
  }

  /** After seeding, a cell is alive exactly when it was alive before or is
      listed. */
  lemma {:induction false} SeedSetsExactlyListed(g: Board, n: nat, cells: seq<(int, int)>)
    requires IsBoard(g, n) && forall c :: c in cells ==> InBoard(c, n)
    ensures forall x, y :: 0 <= x < n && 0 <= y < n ==>
              (Seed(g, n, cells)[x][y] <==> g[x][y] || (x, y) in cells)
    decreases |cells|
  {
    if cells != [] {
      var front := cells[..|cells| - 1];
      SeedSetsExactlyListed(g, n, front);
      assert forall c :: c in cells <==> c in front || c == cells[|cells| - 1] by {
        assert cells == front + [cells[|cells| - 1]];
      }
    }
  }

  /** A seeded board holds exactly the listed cells. */
  lemma SeededHoldsExactlyListed(n: nat, cells: seq<(int, int)>)
    requires forall c :: c in cells ==> InBoard(c, n)
    ensures forall x, y :: 0 <= x < n && 0 <= y < n ==>
              (Seeded(n, cells)[x][y] <==> (x, y) in cells)
  {
    SeedSetsExactlyListed(Empty(n), n, cells);
  }

  /** SeededHoldsExactlyListed at one cell. */
  lemma SeededAt(n: nat, cells: seq<(int, int)>, x: int, y: int)
    requires forall c :: c in cells ==> InBoard(c, n)
    requires InBoard((x, y), n)
    ensures Seeded(n, cells)[x][y] <==> (x, y) in cells
  {
    SeededHoldsExactlyListed(n, cells);
  }

  /** Only the set of listed cells matters: order and duplicates do not. */
  lemma SeedDependsOnlyOnCellSet(g: Board, n: nat, a: seq<(int, int)>, b: seq<(int, int)>)
    requires IsBoard(g, n) && forall c :: c in a ==> InBoard(c, n)
    requires forall c :: c in a <==> c in b
    ensures Seed(g, n, a) == Seed(g, n, b)
  {
    SeedSetsExactlyListed(g, n, a);
    SeedSetsExactlyListed(g, n, b);
    BoardExtensionality(Seed(g, n, a), Seed(g, n, b), n);
  }

  /** Seeding the same cells twice has the effect of seeding them once. */
  lemma SeedIsIdempotent(g: Board, n: nat, cells: seq<(int, int)>)
    requires IsBoard(g, n) && forall c :: c in cells ==> InBoard(c, n)
    ensures Seed(Seed(g, n, cells), n, cells) == Seed(g, n, cells)
  {
    var once := Seed(g, n, cells);
    SeedSetsExactlyListed(g, n, cells);
    SeedSetsExactlyListed(once, n, cells);
    BoardExtensionality(Seed(once, n, cells), once, n);
  }

  // ---------------------------------------------------------------------------
  // Population

  /** Live cells in a row, counted left to right. */
  function RowPopulation(row: seq<bool>): (k: nat)
    ensures k <= |row|
    decreases |row|
  {
    if row == [] then 0
    else RowPopulation(row[..|row| - 1]) + (if row[|row| - 1] then 1 else 0)
  }

  /** Live cells on a board, counted row by row. */
  function Population(g: Board): nat
    decreases |g|
  {
    if g == [] then 0 else Population(g[..|g| - 1]) + RowPopulation(g[|g| - 1])
  }

  /** A row's population is the number of occurrences of `alive` in it. */
  lemma {:induction false} RowPopulationIsMultiplicity(row: seq<bool>)
    ensures RowPopulation(row) == multiset(row)[true]
    decreases |row|
  {
    if row != [] {
      var front := row[..|row| - 1];
      RowPopulationIsMultiplicity(front);
      assert row == front + [row[|row| - 1]];
    }
  }

  /** A board of rows of at most n cells holds at most |g| * n live cells. */
  lemma {:induction false} PopulationBound(g: Board, n: nat)
    requires forall x :: 0 <= x < |g| ==> |g[x]| <= n
    ensures Population(g) <= |g| * n
    decreases |g|
  {
    if g != [] {
      var front := g[..|g| - 1];
      PopulationBound(front, n);
      calc {
        Population(g);
        Population(front) + RowPopulation(g[|g| - 1]);
      <= (|g| - 1) * n + n;
      == { MultiplicationStep(|g| - 1, n); }
        |g| * n;
      }
    }
  }

  lemma MultiplicationStep(a: int, n: int)
    ensures a * n + n == (a + 1) * n
  {
  }

  /** A board has no live cell exactly when every cell is dead. */
  lemma {:induction false} NoPopulationIffAllDead(g: Board)
    ensures Population(g) == 0 <==> forall x, y :: 0 <= x < |g| && 0 <= y < |g[x]| ==> !g[x][y]
    decreases |g|
  {
    if g != [] {
      var front := g[..|g| - 1];
      NoPopulationIffAllDead(front);
      NoRowPopulationIffAllDead(g[|g| - 1]);
    }
  }

  /** A row has no live cell exactly when every cell in it is dead. */
  lemma {:induction false} NoRowPopulationIffAllDead(row: seq<bool>)
    ensures RowPopulation(row) == 0 <==> forall y :: 0 <= y < |row| ==> !row[y]
    decreases |row|
  {
    if row != [] {
      NoRowPopulationIffAllDead(row[..|row| - 1]);
    }
  }
}
