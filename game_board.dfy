/** The game board object: the current generation and the scratch board the
    next generation is written into, both size × size arrays of cells, updated
    in place. */
module ConwayGame {
  import opened Life

  /** The board held by a two-dimensional array, row x, column y. */
  ghost function Cells(a: array2<bool>): (g: Board)
    reads a
    ensures |g| == a.Length0
    ensures forall x :: 0 <= x < a.Length0 ==> |g[x]| == a.Length1
    ensures forall x, y :: 0 <= x < a.Length0 && 0 <= y < a.Length1 ==> g[x][y] == a[x, y]
  {
    seq(a.Length0, x requires 0 <= x < a.Length0 reads a =>
      seq(a.Length1, y requires 0 <= y < a.Length1 reads a => a[x, y]))
  }

  /** A new array with the same cells as a (the deep copy of the scratch board). */
  method CopyCells(a: array2<bool>) returns (b: array2<bool>)
    ensures fresh(b)
    ensures b.Length0 == a.Length0 && b.Length1 == a.Length1
    ensures forall x, y :: 0 <= x < a.Length0 && 0 <= y < a.Length1 ==> b[x, y] == a[x, y]
  {
    b := new bool[a.Length0, a.Length1](
      (x, y) requires 0 <= x < a.Length0 && 0 <= y < a.Length1 reads a => a[x, y]);
  }

  lemma SameCells(a: array2<bool>, b: array2<bool>, n: nat)
    requires a.Length0 == b.Length0 == a.Length1 == b.Length1 == n
    requires forall x, y :: 0 <= x < n && 0 <= y < n ==> a[x, y] == b[x, y]
    ensures Cells(a) == Cells(b)
  {
    BoardExtensionality(Cells(a), Cells(b), n);
  }

  /** An array that differs from the board before in cell (x, y) at most
      holds before with that one cell replaced. */
  lemma CellsAfterWrite(a: array2<bool>, before: Board, n: nat, x: int, y: int)
    requires a.Length0 == n && a.Length1 == n && IsBoard(before, n) && InBoard((x, y), n)
    requires forall i, j :: 0 <= i < n && 0 <= j < n && (i != x || j != y) ==> a[i, j] == before[i][j]
    ensures Cells(a) == before[x := before[x][y := a[x, y]]]
  {
    BoardExtensionality(Cells(a), before[x := before[x][y := a[x, y]]], n);
  }

  class GameBoard {
    const size: nat
    /** The current generation. */
    var dic: array2<bool>
    /** The scratch board the next generation is written into. */
    var nextDic: array2<bool>

    /** Both boards are size × size and are distinct arrays. */
    ghost predicate Valid()
      reads this
    {
      dic.Length0 == size && dic.Length1 == size &&
      nextDic.Length0 == size && nextDic.Length1 == size &&
      dic != nextDic
    }

    /** The current generation as a board value. */
    ghost function Current(): (g: Board)
      reads this, dic
      requires Valid()
      ensures IsBoard(g, size)
    {
      Cells(dic)
    }

    /** The scratch board as a board value. */
    ghost function Scratch(): (g: Board)
      reads this, nextDic
      requires Valid()
      ensures IsBoard(g, size)
    {
      Cells(nextDic)
    }

    /** Every cell alive on the scratch board is alive on the current board.
        This is what makes the sweep, which never writes a dead cell whose
        count is not 3, produce the Life generation. */
    ghost predicate Coherent()
      reads this, dic, nextDic
      requires Valid()
    {
      Covers(Current(), Scratch(), size)
    }

    /** Both boards start all dead, then the listed cells are forced alive. */
    constructor (size: nat, initList: seq<(int, int)>)
      requires forall c :: c in initList ==> InBoard(c, size)
      ensures Valid() && Coherent()
      ensures this.size == size
      ensures Current() == Seeded(size, initList)
      ensures Scratch() == Empty(size)
      ensures fresh(dic) && fresh(nextDic)
    {
      this.size := size;
      dic := new bool[size, size]((x, y) => false);
      nextDic := new bool[size, size]((x, y) => false);
      new;
      BoardExtensionality(Current(), Empty(size), size);
      BoardExtensionality(Scratch(), Empty(size), size);
      ForceUpdateManyAgents(initList);
    }

    /** The status (0 or 1) of cell (x, y), each coordinate corrected by one
        board width at most. */
    function GetAgentStatus(x: int, y: int): (s: int)
      reads this, dic
      requires Valid()
      requires -(size as int) <= x < 2 * size && -(size as int) <= y < 2 * size
      ensures s == Status(Current(), size, x, y)
      ensures s == 0 || s == 1
    {
      if dic[Wrap(x, size), Wrap(y, size)] then 1 else 0
    }

    /** Forces the in-range cell (x, y) to the given state; no wrapping. */
    method ForceUpdateAgent(x: int, y: int, alive: bool)
      requires Valid() && InBoard((x, y), size)
      modifies dic
      ensures Valid()
      ensures Current() == old(Current())[x := old(Current())[x][y := alive]]
      ensures alive && old(Coherent()) ==> Coherent()
    {
      dic[x, y] := alive;
      BoardExtensionality(Current(), old(Current())[x := old(Current())[x][y := alive]], size);
    }

    /** Forces every listed cell alive, in list order. */
    method ForceUpdateManyAgents(cordList: seq<(int, int)>)
      requires Valid() && forall c :: c in cordList ==> InBoard(c, size)
      modifies dic
      ensures Valid()
      ensures Current() == Seed(old(Current()), size, cordList)
      ensures old(Coherent()) ==> Coherent()
    {
      for k := 0 to |cordList|
        invariant Current() == Seed(old(Current()), size, cordList[..k])
        invariant old(Coherent()) ==> Coherent()
      {
        var x := cordList[k].0;
        var y := cordList[k].1;
        ForceUpdateAgent(x, y, true);
        assert cordList[..k + 1][..k] == cordList[..k];
      }
      assert cordList[..|cordList|] == cordList;
    }

    /** The number of live cells among the eight toroidal neighbours of
        (x, y): the 3 × 3 block is counted and the cell itself taken off. */
    method CountNeighbours(x: int, y: int) returns (numberAlive: int)
      requires Valid() && InBoard((x, y), size)
      ensures numberAlive == Neighbours(Current(), size, x, y)
      ensures 0 <= numberAlive <= 8
    {
      ghost var g := Current();
      numberAlive := 0;
      if GetAgentStatus(x, y) == 1 {
        numberAlive := -1;
      }
      ghost var start := numberAlive;
      for i := x - 1 to x + 2
        invariant numberAlive == start + BlockCount(g, size, x, y, i)
      {
        numberAlive := CountRow(i, y, numberAlive);
      }
      BlockIsCentrePlusNeighbours(g, size, x, y);
    }

    /** The inner loop of the neighbour count: adds the live cells at columns
        y - 1 .. y + 1 of row i, wrapped, to the running count. */
    method CountRow(i: int, y: int, before: int) returns (numberAlive: int)
      requires Valid() && -1 <= i <= size && 0 <= y < size
      ensures numberAlive == before + RowCount(Current(), size, i, y, y + 2)
    {
      numberAlive := before;
      for j := y - 1 to y + 2
        invariant numberAlive == before + RowCount(Current(), size, i, y, j)
      {
        var neighbourStatus := GetAgentStatus(i, j);
        if neighbourStatus != 0 {
          numberAlive := numberAlive + 1;
        }
      }
    }

    /** Writes the next state of (x, y) into the scratch board: the four
        guarded cases of the rule, tested against the current board. */
    method UpdateAgent(x: int, y: int)
      requires Valid() && InBoard((x, y), size)
      modifies nextDic
      ensures Valid()
      ensures Scratch() == old(Scratch())[x := old(Scratch())[x][y := SweptCell(Current(), old(Scratch()), size, x, y)]]
    {
      ghost var s := Scratch();
      ghost var v := SweptCell(Current(), s, size, x, y);
      var numberAlive := CountNeighbours(x, y);
      var alive := dic[x, y];
      if alive && (numberAlive == 2 || numberAlive == 3) {
        nextDic[x, y] := true;
      }
      if numberAlive == 3 && !alive {
        nextDic[x, y] := true;
      }
      if numberAlive > 3 && alive {
        nextDic[x, y] := false;
      }
      if numberAlive < 2 && alive {
        nextDic[x, y] := false;
      }
      assert nextDic[x, y] == v;
      CellsAfterWrite(nextDic, s, size, x, y);
    }

    /** The inner loop of the sweep: updates every cell of row x. */
    method UpdateRow(x: int, ghost g: Board, ghost s: Board)
      requires Valid() && 0 <= x < size && Current() == g && IsBoard(s, size)
      requires Scratch() == PartialSweep(g, s, size, x, 0)
      modifies nextDic
      ensures Valid()
      ensures Scratch() == PartialSweep(g, s, size, x, size)
    {
      for y := 0 to size
        invariant Scratch() == PartialSweep(g, s, size, x, y)
      {
        UpdateAgent(x, y);
        PartialSweepStep(g, s, size, x, y);
      }
    }

    /** Advances one generation: every cell is updated into the scratch board
        against the frozen current board, then the current board is replaced
        by a copy of the scratch board. When the boards were coherent, the
        result is the Life generation of the old board. */
    method UpdateEntireBoard()
      requires Valid()
      modifies this, nextDic
      ensures Valid() && Coherent()
      ensures nextDic == old(nextDic) && fresh(dic)
      ensures Current() == Sweep(old(Current()), old(Scratch()), size)
      ensures Scratch() == Current()
      ensures old(Coherent()) ==> Current() == NextGeneration(old(Current()), size)
    {
      ghost var g := Current();
      ghost var s := Scratch();
      PartialSweepEnds(g, s, size);
      for x := 0 to size
        modifies nextDic
        invariant Scratch() == PartialSweep(g, s, size, x, 0)
      {
        UpdateRow(x, g, s);
        PartialSweepNextRow(g, s, size, x);
      }
      dic := CopyCells(nextDic);
      SameCells(dic, nextDic, size);
      if old(Coherent()) {
        SweepIsNextGeneration(g, s, size);
      }
    }

    /** A size × size snapshot of the statuses, row x holding column y at
        position y. Nothing is changed. */
    method GetStatusList() returns (statusList: seq<seq<int>>)
      requires Valid()
      ensures |statusList| == size
      ensures forall x :: 0 <= x < size ==> |statusList[x]| == size
      ensures forall x, y :: 0 <= x < size && 0 <= y < size ==>
                statusList[x][y] == GetAgentStatus(x, y)
      ensures forall x, y :: 0 <= x < size && 0 <= y < size ==>
                (statusList[x][y] == 0 || statusList[x][y] == 1) &&
                (statusList[x][y] == 1 <==> Current()[x][y])
    {
      statusList := [];
      for x := 0 to size
        invariant |statusList| == x
        invariant forall i :: 0 <= i < x ==> |statusList[i]| == size
        invariant forall i, j :: 0 <= i < x && 0 <= j < size ==>
                    statusList[i][j] == GetAgentStatus(i, j)
      {
        var yList := [];
        for y := 0 to size
          invariant |yList| == y
          invariant forall j :: 0 <= j < y ==> yList[j] == GetAgentStatus(x, j)
        {
          var agentStatus := GetAgentStatus(x, y);
          yList := yList + [agentStatus];
        }
        statusList := statusList + [yList];
      }
    }

    /** The number of live cells on the current board; nothing is changed. */
    method NumAlive() returns (numAlive: nat)
      requires Valid()
      ensures numAlive == Population(Current())
      ensures numAlive <= size * size
    {
      ghost var g := Current();
      numAlive := 0;
      for x := 0 to size
        invariant numAlive == Population(g[..x])
      {
        for y := 0 to size
          invariant numAlive == Population(g[..x]) + RowPopulation(g[x][..y])
        {
          var agentStatus := GetAgentStatus(x, y);
          if agentStatus != 0 {
            numAlive := numAlive + 1;
          }
          assert g[x][..y + 1][..y] == g[x][..y];
        }
        assert g[x][..size] == g[x];
        assert g[..x + 1][..x] == g[..x];
      }
      assert g[..size] == g;
      PopulationBound(g, size);
    }
  }
}
