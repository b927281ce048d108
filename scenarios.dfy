/** The famous life forms run on the game board object: seeding a board with
    a pattern and updating it behaves as the pattern's dynamics say. */
module Scenarios {
  import opened Life
  import opened ConwayGame
  import opened Patterns

  /** A board seeded with the beehive is unchanged by an update. */
  method BeehiveBoard(size: nat) returns (board: GameBoard)
    requires size >= 7
    ensures board.Valid() && board.size == size
    ensures board.Current() == Seeded(size, Beehive)
  {
    SmallPatternsFit(size);
    board := new GameBoard(size, Beehive);
    board.UpdateEntireBoard();
    BeehiveIsStillLife(size);
  }

  /** A board seeded with the blinker shows the column after one update and
      the original row after two. */
  method BlinkerBoard(size: nat) returns (board: GameBoard)
    requires size >= 7
    ensures board.Valid() && board.size == size
    ensures board.Current() == Seeded(size, Blinker)
  {
    SmallPatternsFit(size);
    board := new GameBoard(size, Blinker);
    BlinkerHasPeriodTwo(size);
    board.UpdateEntireBoard();
    assert board.Current() == Seeded(size, BlinkerColumn);
    board.UpdateEntireBoard();
  }

  /** A board seeded with the glider holds the glider moved one cell
      diagonally after four updates. */
  method GliderBoard(size: nat) returns (board: GameBoard)
    requires size >= 12
    ensures board.Valid() && board.size == size
    ensures board.Current() == Seeded(size, Shift(Glider, 1, 1))
  {
    GliderFits(size);
    board := new GameBoard(size, Glider);
    ghost var g, scratch := board.Current(), board.nextDic;
    for k := 0 to 4
      invariant board.Valid() && board.Coherent() && board.size == size
      invariant board.nextDic == scratch
      invariant board.Current() == Evolve(g, size, k)
      modifies board, board.nextDic
    {
      board.UpdateEntireBoard();
    }
    GliderMovesDiagonally(size);
  }
}
