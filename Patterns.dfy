/** Known configurations and what one generation does to them on the
    bounded board: the empty board, an isolated cell, a still life, an
    oscillator and a birth in a corner. */
module LifePatterns {
  import opened LifeRules

  const O := false
  const X := true

  /** A board empty but for the live cell (r, c). */
  function Single(rows: nat, cols: nat, r: nat, c: nat): (b: Board)
    ensures IsGrid(b, rows, cols)
    ensures forall x, y :: InGrid(rows, cols, x, y) ==> (b[x][y] <==> x == r && y == c)
  {
    seq(rows, i => seq(cols, j => i == r && j == c))
  }

  /** A board with no live cell stays empty. */
  lemma EmptyStaysEmpty(rows: nat, cols: nat)
    ensures Next(Empty(rows, cols), rows, cols) == Empty(rows, cols)
  {
    var e := Empty(rows, cols);
    forall x, y | InGrid(rows, cols, x, y) ensures NextAt(e, rows, cols, x, y) == e[x][y] {
      assert NeighbourCount(e, rows, cols, x, y) == 0;
    }
    NextByCells(e, rows, cols, e);
  }

  /** A single live cell, wherever it is (a corner or an edge included),
      has no live neighbour and dies, and no dead cell has three live
      neighbours: the board becomes empty. */
  lemma IsolatedCellDies(rows: nat, cols: nat, r: nat, c: nat)
    requires InGrid(rows, cols, r, c)
    ensures Next(Single(rows, cols, r, c), rows, cols) == Empty(rows, cols)
  {
    var b := Single(rows, cols, r, c);
    var e := Empty(rows, cols);
    forall x, y | InGrid(rows, cols, x, y) ensures NextAt(b, rows, cols, x, y) == e[x][y] {
      assert NeighbourCount(b, rows, cols, x, y) <= 1;
    }
    NextByCells(b, rows, cols, e);
  }

  /** A 2 x 2 block in the middle of a 4 x 4 board. */
  function Block(): Board {
    [[O, O, O, O],
     [O, X, X, O],
     [O, X, X, O],
     [O, O, O, O]]
  }

  /** Cell by cell, on a board known only to equal the block (so that the
      verifier reasons about its cells instead of evaluating the display). */
  lemma BlockAt(b: Board, x: int, y: int)
    requires b == Block() && InGrid(4, 4, x, y)
    ensures NextAt(b, 4, 4, x, y) == b[x][y]
  {
  }

  /** The block is a still life: each of its cells has exactly 3 live
      neighbours and no dead cell around it has 3. */
  lemma BlockIsStillLife(b: Board)
    requires b == Block()
    ensures Next(b, 4, 4) == b
  {
    forall x, y | InGrid(4, 4, x, y) ensures NextAt(b, 4, 4, x, y) == b[x][y] {
      BlockAt(b, x, y);
    }
    NextByCells(b, 4, 4, b);
  }

  /** The blinker lying across the middle row of a 5 x 5 board. */
  function BlinkerRow(): Board {
    [[O, O, O, O, O],
     [O, O, O, O, O],
     [O, X, X, X, O],
     [O, O, O, O, O],
     [O, O, O, O, O]]
  }

  /** The blinker standing in the middle column of a 5 x 5 board. */
  function BlinkerColumn(): Board {
    [[O, O, O, O, O],
     [O, O, X, O, O],
     [O, O, X, O, O],
     [O, O, X, O, O],
     [O, O, O, O, O]]
  }

  /** Cell by cell, the row blinker's next generation is the column blinker. */
  lemma RowTurnsAt(h: Board, v: Board, x: int, y: int)
    requires h == BlinkerRow() && v == BlinkerColumn() && InGrid(5, 5, x, y)
    ensures NextAt(h, 5, 5, x, y) == v[x][y]
  {
  }

  /** Cell by cell, the column blinker's next generation is the row blinker. */
  lemma ColumnTurnsAt(h: Board, v: Board, x: int, y: int)
    requires h == BlinkerRow() && v == BlinkerColumn() && InGrid(5, 5, x, y)
    ensures NextAt(v, 5, 5, x, y) == h[x][y]
  {
  }

  /** The row turns into the column: the centre keeps its 2 neighbours,
      the cells above and below it are born with 3, the ends die with 1. */
  lemma RowTurns(h: Board, v: Board)
    requires h == BlinkerRow() && v == BlinkerColumn()
    ensures Next(h, 5, 5) == v
  {
    forall x, y | InGrid(5, 5, x, y) ensures NextAt(h, 5, 5, x, y) == v[x][y] {
      RowTurnsAt(h, v, x, y);
    }
    NextByCells(h, 5, 5, v);
  }

  /** The column turns back into the row. */
  lemma ColumnTurns(h: Board, v: Board)
    requires h == BlinkerRow() && v == BlinkerColumn()
    ensures Next(v, 5, 5) == h
  {
    forall x, y | InGrid(5, 5, x, y) ensures NextAt(v, 5, 5, x, y) == h[x][y] {
      ColumnTurnsAt(h, v, x, y);
    }
    NextByCells(v, 5, 5, h);
  }

  /** The blinker oscillates with period 2 and is not a still life. */
  lemma BlinkerOscillates(h: Board, v: Board)
    requires h == BlinkerRow() && v == BlinkerColumn()
    ensures Next(h, 5, 5) == v && Next(v, 5, 5) == h
    ensures Next(Next(h, 5, 5), 5, 5) == h != v
  {
    RowTurns(h, v);
    ColumnTurns(h, v);
    assert h[2][1] != v[2][1];
  }

  /** Three live cells in an L in the corner of a 3 x 3 board. */
  function CornerL(): Board {
    [[X, X, O],
     [X, O, O],
     [O, O, O]]
  }

  /** The L with its missing cell filled in: a block in the corner. */
  function CornerBlock(): Board {
    [[X, X, O],
     [X, X, O],
     [O, O, O]]
  }

  /** Cell by cell, the corner L's next generation is the corner block. */
  lemma CornerAt(l: Board, k: Board, x: int, y: int)
    requires l == CornerL() && k == CornerBlock() && InGrid(3, 3, x, y)
    ensures NextAt(l, 3, 3, x, y) == k[x][y]
  {
  }

  /** Reproduction next to an edge: the dead cell (1, 1) has exactly three
      live neighbours and is born; the corner cell (0, 0) counts only its
      three on-board neighbours, two of them alive, and survives. */
  lemma CornerBirth(l: Board, k: Board)
    requires l == CornerL() && k == CornerBlock()
    ensures NeighbourCount(l, 3, 3, 1, 1) == 3
    ensures NeighbourCount(l, 3, 3, 0, 0) == 2
    ensures Next(l, 3, 3) == k
  {
    forall x, y | InGrid(3, 3, x, y) ensures NextAt(l, 3, 3, x, y) == k[x][y] {
      CornerAt(l, k, x, y);
    }
    NextByCells(l, 3, 3, k);
  }
}
