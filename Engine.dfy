/** The simulation state of the game component: the board held in a
    two-dimensional array, its dimensions, the generation counter, the
    running flag, the selected speed and whether a periodic timer is
    installed. Every operation that changes the board builds a fresh array
    and replaces the board with it, as the component does with a copied
    board. */
module Engine {
  import opened LifeRules
  import opened Settings

  /** The cells of a board array, row by row. */
  function Cells(a: array2<bool>): (b: Board)
    reads a
    ensures IsGrid(b, a.Length0, a.Length1)
  {
    seq(a.Length0, i requires 0 <= i < a.Length0 reads a =>
      seq(a.Length1, j requires 0 <= j < a.Length1 reads a => a[i, j]))
  }

  /** A fresh array holding the same cells as `a`. */
  method CloneBoard(a: array2<bool>) returns (c: array2<bool>)
    ensures fresh(c)
    ensures c.Length0 == a.Length0 && c.Length1 == a.Length1
    ensures forall x, y {:trigger c[x, y]} :: 0 <= x < a.Length0 && 0 <= y < a.Length1 ==> c[x, y] == a[x, y]
    ensures Cells(c) == Cells(a)
  {
    c := new bool[a.Length0, a.Length1]((i, j) requires 0 <= i < a.Length0 && 0 <= j < a.Length1 reads a => a[i, j]);
    assert forall x :: 0 <= x < a.Length0 ==> Cells(c)[x] == Cells(a)[x];
  }

  /** A fresh `rows` x `cols` array with every cell dead. */
  method DeadBoard(rows: nat, cols: nat) returns (a: array2<bool>)
    ensures fresh(a)
    ensures a.Length0 == rows && a.Length1 == cols
    ensures Cells(a) == Empty(rows, cols)
  {
    a := new bool[rows, cols]((i, j) => false);
    assert forall x :: 0 <= x < rows ==> Cells(a)[x] == Empty(rows, cols)[x];
  }

  /** Counts the live neighbours of (i, j) the way the step does, guarding
      every access with the position of the cell against the edges. */
  method CountNeighbours(board: array2<bool>, rows: nat, cols: nat, i: nat, j: nat) returns (neighbour: nat)
    requires board.Length0 == rows && board.Length1 == cols
    requires i < rows && j < cols
    ensures neighbour == NeighbourCount(Cells(board), rows, cols, i, j)
  {
    ghost var b := Cells(board);
    neighbour := 0;
    if i > 0 {
      if board[i - 1, j] {
        neighbour := neighbour + 1;
      }
      if j > 0 && board[i - 1, j - 1] {
        neighbour := neighbour + 1;
      }
      if j < cols - 1 && board[i - 1, j + 1] {
        neighbour := neighbour + 1;
      }
    }
    assert neighbour == LiveAt(b, rows, cols, i - 1, j - 1) + LiveAt(b, rows, cols, i - 1, j) + LiveAt(b, rows, cols, i - 1, j + 1);
    ghost var above := neighbour;
    if j > 0 && board[i, j - 1] {
      neighbour := neighbour + 1;
    }
    if j < cols - 1 && board[i, j + 1] {
      neighbour := neighbour + 1;
    }
    assert neighbour == above + LiveAt(b, rows, cols, i, j - 1) + LiveAt(b, rows, cols, i, j + 1);
    ghost var beside := neighbour;
    if i < rows - 1 {
      if board[i + 1, j] {
        neighbour := neighbour + 1;
      }
      if j > 0 && board[i + 1, j - 1] {
        neighbour := neighbour + 1;
      }
      if j < cols - 1 && board[i + 1, j + 1] {
        neighbour := neighbour + 1;
      }
    }
    assert neighbour == beside + LiveAt(b, rows, cols, i + 1, j - 1) + LiveAt(b, rows, cols, i + 1, j) + LiveAt(b, rows, cols, i + 1, j + 1);
  }

  /** The inner loop of the step over row `i`: each cell of the row in
      `copy` receives the rule's verdict for the old `board`, which is only read. */
  method NextRow(board: array2<bool>, copy: array2<bool>, rows: nat, cols: nat, i: nat)
    requires board.Length0 == rows && board.Length1 == cols
    requires copy.Length0 == rows && copy.Length1 == cols
    requires copy != board && i < rows
    requires forall y :: 0 <= y < cols ==> copy[i, y] == board[i, y]
    modifies copy
    ensures forall y :: 0 <= y < cols ==> copy[i, y] == NextAt(Cells(board), rows, cols, i, y)
    ensures forall x, y :: 0 <= x < rows && x != i && 0 <= y < cols ==> copy[x, y] == old(copy[x, y])
  {
    ghost var before := Cells(board);
    var j := 0;
    while j < cols
      invariant 0 <= j <= cols
      invariant forall y {:trigger copy[i, y]} :: 0 <= y < j ==> copy[i, y] == NextAt(before, rows, cols, i, y)
      invariant forall y {:trigger copy[i, y]} :: j <= y < cols ==> copy[i, y] == board[i, y]
      invariant forall x, y {:trigger copy[x, y]} :: 0 <= x < rows && x != i && 0 <= y < cols ==> copy[x, y] == old(copy[x, y])
    {
      var neighbour := CountNeighbours(board, rows, cols, i, j);
      if board[i, j] && (neighbour < 2 || neighbour > 3) {
        copy[i, j] := false;
      }
      if !board[i, j] && neighbour == 3 {
        copy[i, j] := true;
      }
      j := j + 1;
    }
  }

  /** One generation: counts are read from `board`, writes go to a copy, so
      the result is the rule applied to the old board as a whole. */
  method NextGeneration(board: array2<bool>, rows: nat, cols: nat) returns (copy: array2<bool>)
    requires board.Length0 == rows && board.Length1 == cols
    ensures fresh(copy)
    ensures copy.Length0 == rows && copy.Length1 == cols
    ensures Cells(copy) == Next(Cells(board), rows, cols)
  {
    ghost var before := Cells(board);
    copy := CloneBoard(board);
    var i := 0;
    while i < rows
      invariant 0 <= i <= rows
      invariant copy.Length0 == rows && copy.Length1 == cols
      invariant forall x, y {:trigger copy[x, y]} :: 0 <= x < i && 0 <= y < cols ==> copy[x, y] == NextAt(before, rows, cols, x, y)
      invariant forall x, y {:trigger copy[x, y]} :: i <= x < rows && 0 <= y < cols ==> copy[x, y] == board[x, y]
    {
      NextRow(board, copy, rows, cols, i);
      i := i + 1;
    }
    NextByCells(before, rows, cols, Cells(copy));
  }

  /** Seeds a copy of `board`: the cell (i, j) is set alive when its draw is
      1. A draw stands for one value of `floor(random() * 4)`. */
  method SeedBoard(board: array2<bool>, rows: nat, cols: nat, draws: seq<seq<int>>) returns (copy: array2<bool>)
    requires board.Length0 == rows && board.Length1 == cols
    requires IsGrid(draws, rows, cols)
    ensures fresh(copy)
    ensures copy.Length0 == rows && copy.Length1 == cols
    ensures Cells(copy) == Seed(Cells(board), rows, cols, draws)
  {
    ghost var before := Cells(board);
    ghost var after := Seed(before, rows, cols, draws);
    copy := CloneBoard(board);
    var i := 0;
    while i < rows
      invariant 0 <= i <= rows
      invariant forall x, y {:trigger copy[x, y]} :: 0 <= x < i && 0 <= y < cols ==> copy[x, y] == after[x][y]
      invariant forall x, y {:trigger copy[x, y]} :: i <= x < rows && 0 <= y < cols ==> copy[x, y] == board[x, y]
    {
      var j := 0;
      while j < cols
        invariant 0 <= j <= cols
        invariant forall x, y {:trigger copy[x, y]} :: 0 <= x < i && 0 <= y < cols ==> copy[x, y] == after[x][y]
        invariant forall y {:trigger copy[i, y]} :: 0 <= y < j ==> copy[i, y] == after[i][y]
        invariant forall y {:trigger copy[i, y]} :: j <= y < cols ==> copy[i, y] == board[i, y]
        invariant forall x, y {:trigger copy[x, y]} :: i < x < rows && 0 <= y < cols ==> copy[x, y] == board[x, y]
      {
        if draws[i][j] == 1 {
          copy[i, j] := true;
        }
        j := j + 1;
      }
      i := i + 1;
    }
    assert forall x :: 0 <= x < rows ==> Cells(copy)[x] == after[x];
  }

  class GameOfLife {
    var board: array2<bool>
    var rows: nat
    var cols: nat
    var speed: nat
    var generation: nat
    var running: bool
    /** Whether a periodic timer that calls `Play` is installed. */
    var ticking: bool

    /** The board has the dimensions the step loops over. */
    ghost predicate Valid()
      reads this
    {
      board.Length0 == rows && board.Length1 == cols
    }

    /** Start-up state: a dead 30 x 50 board, fast speed, generation 0. */
    constructor ()
      ensures Valid() && fresh(board)
      ensures rows == DefaultRows && cols == DefaultCols && speed == FastMs
      ensures Cells(board) == Empty(rows, cols)
      ensures generation == 0 && !running && !ticking
    {
      var dead := DeadBoard(DefaultRows, DefaultCols);
      board := dead;
      rows, cols, speed := DefaultRows, DefaultCols, FastMs;
      generation, running, ticking := 0, false, false;
    }

    /** Inverts cell (i, j) on a copy of the board. */
    method SelectCell(i: nat, j: nat)
      requires Valid() && i < rows && j < cols
      modifies this
      ensures Valid() && fresh(board)
      ensures rows == old(rows) && cols == old(cols) && speed == old(speed)
      ensures Cells(board) == Toggle(old(Cells(board)), rows, cols, i, j)
      ensures generation == old(generation) && running == old(running) && ticking == old(ticking)
    {
      var copy := CloneBoard(board);
      copy[i, j] := !copy[i, j];
      ghost var toggled := Toggle(Cells(board), rows, cols, i, j);
      assert forall x :: 0 <= x < rows ==> Cells(copy)[x] == toggled[x];
      board := copy;
    }

    /** Stops a running game; otherwise installs the timer. The flag
        `running` is set only by the first `Play` the timer triggers. */
    method StartStop()
      modifies this
      ensures old(running) ==> !running && !ticking
      ensures !old(running) ==> !running && ticking
      ensures board == old(board) && rows == old(rows) && cols == old(cols)
      ensures speed == old(speed) && generation == old(generation)
    {
      if running {
        ticking := false;
        running := false;
      } else {
        PlayGame();
      }
    }

    /** Replaces the board with a dead `rows` x `cols` board, resets the
        counter and stops the timer, whatever the state before. */
    method ClearBoard()
      modifies this
      ensures Valid() && fresh(board)
      ensures Cells(board) == Empty(rows, cols)
      ensures generation == 0 && !running && !ticking
      ensures rows == old(rows) && cols == old(cols) && speed == old(speed)
    {
      ticking := false;
      board := DeadBoard(rows, cols);
      generation, running := 0, false;
    }

    /** Clears the board, makes each cell alive where its draw is 1 and
        installs the timer. */
    method RandomizeSeed(draws: seq<seq<int>>)
      requires IsGrid(draws, rows, cols)
      modifies this
      ensures Valid() && fresh(board) && rows == old(rows) && cols == old(cols) && speed == old(speed)
      ensures forall x, y :: InGrid(rows, cols, x, y) ==> (Cells(board)[x][y] <==> draws[x][y] == 1)
      ensures generation == 0 && !running && ticking
    {
      ClearBoard();
      var copy := SeedBoard(board, rows, cols, draws);
      board := copy;
      PlayGame();
      SeedEmpty(rows, cols, draws);
    }

    /** Sets the interval for the selected speed and (re)installs the timer. */
    method SelectSpeed(level: string)
      modifies this
      ensures speed == SpeedFor(level) && ticking
      ensures board == old(board) && rows == old(rows) && cols == old(cols)
      ensures generation == old(generation) && running == old(running)
    {
      match level {
        case "1" =>
          speed := SlowMs;
        case "2" =>
          speed := MediumMs;
        case "3" =>
          speed := FastMs;
        case _ =>
          speed := FastMs;
      }
      PlayGame();
    }

    /** Sets the dimensions for the selected grid size and clears the board. */
    method SelectGrid(level: string)
      modifies this
      ensures (rows, cols) == GridFor(level)
      ensures Valid() && fresh(board)
      ensures Cells(board) == Empty(rows, cols)
      ensures generation == 0 && !running && !ticking && speed == old(speed)
    {
      match level {
        case "1" =>
          rows, cols := 10, 20;
        case "2" =>
          rows, cols := 30, 50;
        case "3" =>
          rows, cols := 50, 70;
        case _ =>
          rows, cols := DefaultRows, DefaultCols;
      }
      ClearBoard();
    }

    /** Replaces any installed timer by a new one at the current speed. */
    method PlayGame()
      modifies this
      ensures ticking
      ensures board == old(board) && rows == old(rows) && cols == old(cols) && speed == old(speed)
      ensures generation == old(generation) && running == old(running)
    {
      ticking := true;
    }

    /** One tick: the board becomes the next generation of the old board,
        the counter goes up by one and the game is marked running. */
    method Play()
      requires Valid()
      modifies this
      ensures Valid() && fresh(board) && rows == old(rows) && cols == old(cols)
      ensures Cells(board) == Next(old(Cells(board)), rows, cols)
      ensures generation == old(generation) + 1 && running
      ensures speed == old(speed) && ticking == old(ticking)
    {
      var copy := NextGeneration(board, rows, cols);
      board := copy;
      generation := generation + 1;
      running := true;
    }
  }

  /** Mounting the component: the constructor, then the seeding the mount
      hook asks for. The observable start-up state is a seeded 30 x 50
      board with the timer installed but not yet fired. */
  method Mount(draws: seq<seq<int>>) returns (g: GameOfLife)
    requires IsGrid(draws, DefaultRows, DefaultCols)
    ensures fresh(g) && g.Valid()
    ensures g.rows == DefaultRows && g.cols == DefaultCols && g.speed == FastMs
    ensures forall x, y :: InGrid(g.rows, g.cols, x, y) ==> (Cells(g.board)[x][y] <==> draws[x][y] == 1)
    ensures g.generation == 0 && !g.running && g.ticking
  {
    g := new GameOfLife();
    g.RandomizeSeed(draws);
  }

  /** Clearing twice leaves the same state as clearing once: the second
      clear finds the cells `once` of the first and keeps them, and every
      field keeps its value. */
  method ClearTwice(g: GameOfLife) returns (once: Board)
    modifies g
    ensures Cells(g.board) == once == Empty(g.rows, g.cols)
    ensures g.rows == old(g.rows) && g.cols == old(g.cols) && g.speed == old(g.speed)
    ensures g.generation == 0 && !g.running && !g.ticking
  {
    g.ClearBoard();
    once := Cells(g.board);
    var rows, cols, speed, generation, running, ticking := g.rows, g.cols, g.speed, g.generation, g.running, g.ticking;
    g.ClearBoard();
    assert Cells(g.board) == once;
    assert (g.rows, g.cols, g.speed) == (rows, cols, speed);
    assert (g.generation, g.running, g.ticking) == (generation, running, ticking);
  }
}
