/** Pure model of one Game of Life board and of the B3/S23 transition rule
    on a bounded grid: positions off the board are absent (no wraparound). */
module LifeRules {

  /** A board is a list of rows of cells; `true` means alive. */
  type Board = seq<seq<bool>>

  /** `b` has exactly `rows` rows of exactly `cols` entries each. */
  predicate IsGrid<T>(b: seq<seq<T>>, rows: nat, cols: nat) {
    |b| == rows && forall i :: 0 <= i < rows ==> |b[i]| == cols
  }

  /** (x, y) lies on a `rows` x `cols` board. */
  predicate InGrid(rows: nat, cols: nat, x: int, y: int) {
    0 <= x < rows && 0 <= y < cols
  }

  /** 1 when (x, y) is on the board and alive, 0 otherwise: a position off
      the board contributes nothing. */
  function LiveAt(b: Board, rows: nat, cols: nat, x: int, y: int): nat
    requires IsGrid(b, rows, cols)
  {
    if InGrid(rows, cols, x, y) && b[x][y] then 1 else 0
  }

  /** The number of live cells among the eight positions adjacent to (i, j),
      diagonals included, each clipped at the edges of the board. */
  function NeighbourCount(b: Board, rows: nat, cols: nat, i: int, j: int): (n: nat)
    requires IsGrid(b, rows, cols)
    ensures n <= 8
  {
    LiveAt(b, rows, cols, i - 1, j - 1) + LiveAt(b, rows, cols, i - 1, j) + LiveAt(b, rows, cols, i - 1, j + 1)
    + LiveAt(b, rows, cols, i, j - 1) + LiveAt(b, rows, cols, i, j + 1)
    + LiveAt(b, rows, cols, i + 1, j - 1) + LiveAt(b, rows, cols, i + 1, j) + LiveAt(b, rows, cols, i + 1, j + 1)
  }

  /** The fate of one cell, written as the two guarded writes of the step:
      a live cell with fewer than 2 or more than 3 neighbours dies, a dead
      cell with exactly 3 is born, and otherwise the cell keeps its state. */
  function NextCell(alive: bool, n: nat): (r: bool)
    ensures alive && n < 2 ==> !r
    ensures alive && n > 3 ==> !r
    ensures alive && (n == 2 || n == 3) ==> r
    ensures !alive ==> (r <==> n == 3)
    ensures r <==> n == 3 || (alive && n == 2)
  {
    if alive && (n < 2 || n > 3) then false
    else if !alive && n == 3 then true
    else alive
  }

  /** The state of cell (i, j) in the generation after `b`. */
  function NextAt(b: Board, rows: nat, cols: nat, i: nat, j: nat): bool
    requires IsGrid(b, rows, cols) && InGrid(rows, cols, i, j)
  {
    NextCell(b[i][j], NeighbourCount(b, rows, cols, i, j))
  }

  /** The next generation: every cell's new state is computed from the old
      board alone. */
  function Next(b: Board, rows: nat, cols: nat): (r: Board)
    requires IsGrid(b, rows, cols)
    ensures IsGrid(r, rows, cols)
  {
    seq(rows, i requires 0 <= i < rows =>
      seq(cols, j requires 0 <= j < cols => NextAt(b, rows, cols, i, j)))
  }

  /** A board is the next generation of `b` exactly when it has the same
      dimensions and holds the rule's verdict in every cell. */
  lemma NextByCells(b: Board, rows: nat, cols: nat, r: Board)
    requires IsGrid(b, rows, cols)
    ensures r == Next(b, rows, cols) <==>
            IsGrid(r, rows, cols) && forall x, y :: InGrid(rows, cols, x, y) ==> r[x][y] == NextAt(b, rows, cols, x, y)
  {
    if IsGrid(r, rows, cols) && forall x, y :: InGrid(rows, cols, x, y) ==> r[x][y] == NextAt(b, rows, cols, x, y) {
      forall x | 0 <= x < rows ensures r[x] == Next(b, rows, cols)[x] {
        assert forall y :: 0 <= y < cols ==> InGrid(rows, cols, x, y);
      }
    }
  }

  /** A `rows` x `cols` board with every cell dead. */
  function Empty(rows: nat, cols: nat): (r: Board)
    ensures IsGrid(r, rows, cols)
    ensures forall x, y :: InGrid(rows, cols, x, y) ==> !r[x][y]
  {
    seq(rows, _ => seq(cols, _ => false))
  }

  /** The board with cell (i, j) inverted. */
  function Toggle(b: Board, rows: nat, cols: nat, i: nat, j: nat): (r: Board)
    requires IsGrid(b, rows, cols) && i < rows && j < cols
    ensures IsGrid(r, rows, cols)
    ensures r[i][j] == !b[i][j]
    ensures forall x, y :: InGrid(rows, cols, x, y) && (x, y) != (i, j) ==> r[x][y] == b[x][y]
  {
    b[i := b[i][j := !b[i][j]]]
  }

  /** The board after seeding with random draws: a cell becomes alive where
      its draw is 1 and otherwise keeps its state. */
  function Seed(b: Board, rows: nat, cols: nat, draws: seq<seq<int>>): (r: Board)
    requires IsGrid(b, rows, cols) && IsGrid(draws, rows, cols)
    ensures IsGrid(r, rows, cols)
    ensures forall x, y :: InGrid(rows, cols, x, y) ==> (r[x][y] <==> b[x][y] || draws[x][y] == 1)
  {
    seq(rows, i requires 0 <= i < rows =>
      seq(cols, j requires 0 <= j < cols => b[i][j] || draws[i][j] == 1))
  }

  /** Seeding an empty board: a cell is alive exactly where its draw is 1. */
  lemma SeedEmpty(rows: nat, cols: nat, draws: seq<seq<int>>)
    requires IsGrid(draws, rows, cols)
    ensures forall x, y :: InGrid(rows, cols, x, y) ==> (Seed(Empty(rows, cols), rows, cols, draws)[x][y] <==> draws[x][y] == 1)
  {
  }

  /** Toggling the same cell twice restores the board. */
  lemma ToggleTwice(b: Board, rows: nat, cols: nat, i: nat, j: nat)
    requires IsGrid(b, rows, cols) && i < rows && j < cols
    ensures Toggle(Toggle(b, rows, cols, i, j), rows, cols, i, j) == b
  {
    var once := Toggle(b, rows, cols, i, j);
    assert once[i][j := !once[i][j]] == b[i];
  }

  /** The new state of (i, j) depends only on the old states of (i, j) and of
      its in-bounds neighbours: two boards that agree there agree after the step. */
  lemma NextIsLocal(b1: Board, b2: Board, rows: nat, cols: nat, i: nat, j: nat)
    requires IsGrid(b1, rows, cols) && IsGrid(b2, rows, cols) && InGrid(rows, cols, i, j)
    requires forall x, y :: InGrid(rows, cols, x, y) && i - 1 <= x <= i + 1 && j - 1 <= y <= j + 1 ==> b1[x][y] == b2[x][y]
    ensures Next(b1, rows, cols)[i][j] == Next(b2, rows, cols)[i][j]
  {
  }

  // ---------------------------------------------------------------------
  // The neighbour count is the size of the set of live neighbours.

  /** The in-bounds positions adjacent to (i, j) that are alive. */
  ghost function LiveNeighbours(b: Board, rows: nat, cols: nat, i: int, j: int): set<(int, int)>
    requires IsGrid(b, rows, cols)
  {
    set x, y | i - 1 <= x <= i + 1 && j - 1 <= y <= j + 1 && (x, y) != (i, j)
               && InGrid(rows, cols, x, y) && b[x][y] :: (x, y)
  }

  /** The eight positions around (i, j). */
  function Around(i: int, j: int): seq<(int, int)> {
    [(i - 1, j - 1), (i - 1, j), (i - 1, j + 1), (i, j - 1), (i, j + 1), (i + 1, j - 1), (i + 1, j), (i + 1, j + 1)]
  }

  /** The live in-bounds positions listed in `ps`. */
  ghost function LiveAmong(b: Board, rows: nat, cols: nat, ps: seq<(int, int)>): (s: set<(int, int)>)
    requires IsGrid(b, rows, cols)
    ensures forall p :: p in s <==> p in ps && LiveAt(b, rows, cols, p.0, p.1) == 1
  {
    if ps == [] then {}
    else (if LiveAt(b, rows, cols, ps[0].0, ps[0].1) == 1 then {ps[0]} else {}) + LiveAmong(b, rows, cols, ps[1..])
  }

  /** The number of live in-bounds positions listed in `ps`, counted with repetition. */
  function CountAmong(b: Board, rows: nat, cols: nat, ps: seq<(int, int)>): nat
    requires IsGrid(b, rows, cols)
  {
    if ps == [] then 0 else LiveAt(b, rows, cols, ps[0].0, ps[0].1) + CountAmong(b, rows, cols, ps[1..])
  }

  predicate Distinct<T(==)>(ps: seq<T>) {
    forall k, l :: 0 <= k < l < |ps| ==> ps[k] != ps[l]
  }

  /** Over a list without repetitions, counting and collecting agree. */
  lemma {:induction false} CountAmongIsSize(b: Board, rows: nat, cols: nat, ps: seq<(int, int)>)
    requires IsGrid(b, rows, cols) && Distinct(ps)
    ensures |LiveAmong(b, rows, cols, ps)| == CountAmong(b, rows, cols, ps)
  {
    if ps != [] {
      CountAmongIsSize(b, rows, cols, ps[1..]);
    }
  }

  /** Summing over `Around(i, j)` is the neighbour count. */
  lemma CountAroundIsNeighbourCount(b: Board, rows: nat, cols: nat, i: int, j: int)
    requires IsGrid(b, rows, cols)
    ensures CountAmong(b, rows, cols, Around(i, j)) == NeighbourCount(b, rows, cols, i, j)
  {
    var ps := Around(i, j);
    assert CountAmong(b, rows, cols, ps[7..]) == LiveAt(b, rows, cols, i + 1, j + 1);
    assert CountAmong(b, rows, cols, ps[6..]) == LiveAt(b, rows, cols, i + 1, j) + CountAmong(b, rows, cols, ps[7..]);
    assert CountAmong(b, rows, cols, ps[5..]) == LiveAt(b, rows, cols, i + 1, j - 1) + CountAmong(b, rows, cols, ps[6..]);
    assert CountAmong(b, rows, cols, ps[4..]) == LiveAt(b, rows, cols, i, j + 1) + CountAmong(b, rows, cols, ps[5..]);
    assert CountAmong(b, rows, cols, ps[3..]) == LiveAt(b, rows, cols, i, j - 1) + CountAmong(b, rows, cols, ps[4..]);
    assert CountAmong(b, rows, cols, ps[2..]) == LiveAt(b, rows, cols, i - 1, j + 1) + CountAmong(b, rows, cols, ps[3..]);
    assert CountAmong(b, rows, cols, ps[1..]) == LiveAt(b, rows, cols, i - 1, j) + CountAmong(b, rows, cols, ps[2..]);
  }

  /** Collecting over `Around(i, j)` gives the live neighbours. */
  lemma NeighboursAreAround(b: Board, rows: nat, cols: nat, i: int, j: int)
    requires IsGrid(b, rows, cols)
    ensures LiveNeighbours(b, rows, cols, i, j) <= LiveAmong(b, rows, cols, Around(i, j))
  {
    forall p | p in LiveNeighbours(b, rows, cols, i, j) ensures p in LiveAmong(b, rows, cols, Around(i, j)) {
      assert p in Around(i, j);
    }
  }

  /** A live on-board position among the eight around (i, j) is a live neighbour. */
  lemma IsLiveNeighbour(b: Board, rows: nat, cols: nat, i: int, j: int, x: int, y: int)
    requires IsGrid(b, rows, cols)
    requires (x, y) in Around(i, j) && LiveAt(b, rows, cols, x, y) == 1
    ensures (x, y) in LiveNeighbours(b, rows, cols, i, j)
  {
  }

  /** Every live cell collected over `Around(i, j)` is a live neighbour. */
  lemma AroundAreNeighbours(b: Board, rows: nat, cols: nat, i: int, j: int)
    requires IsGrid(b, rows, cols)
    ensures LiveAmong(b, rows, cols, Around(i, j)) <= LiveNeighbours(b, rows, cols, i, j)
  {
    forall p | p in LiveAmong(b, rows, cols, Around(i, j)) ensures p in LiveNeighbours(b, rows, cols, i, j) {
      assert p in Around(i, j) && LiveAt(b, rows, cols, p.0, p.1) == 1;
      IsLiveNeighbour(b, rows, cols, i, j, p.0, p.1);
    }
  }

  /** The neighbour count of (i, j) is exactly the number of live cells at
      in-bounds positions (i + di, j + dj) with di, dj in {-1, 0, 1}, not both 0. */
  lemma NeighbourCountIsSize(b: Board, rows: nat, cols: nat, i: int, j: int)
    requires IsGrid(b, rows, cols)
    ensures NeighbourCount(b, rows, cols, i, j) == |LiveNeighbours(b, rows, cols, i, j)|
  {
    CountAmongIsSize(b, rows, cols, Around(i, j));
    CountAroundIsNeighbourCount(b, rows, cols, i, j);
    NeighboursAreAround(b, rows, cols, i, j);
    AroundAreNeighbours(b, rows, cols, i, j);
    assert LiveAmong(b, rows, cols, Around(i, j)) == LiveNeighbours(b, rows, cols, i, j);
  }
}
