/** The board vocabulary shared by the three Breakthrough engines: cells,
    players, positions, rectangular boards, single-cell updates and weighted
    sums over all cells (piece counts, advancement, distance to goal). */
module Grid {

  /** A board square: '.', 'X' or 'O'. */
  datatype Cell = Empty | X | O

  /** A player is named by the symbol of its pieces. */
  type Player = c: Cell | c != Empty witness X

  /** `get_opponent` / `opponent`: 'O' if the player is 'X', else 'X'. */
  function Opponent(p: Player): (q: Player)
    ensures q != p
  {
    if p == X then O else X
  }

  lemma OpponentInvolutive(p: Player)
    ensures Opponent(Opponent(p)) == p
  {
  }

  /** A (row, column) pair; rows grow downwards. */
  datatype Pos = Pos(row: nat, col: nat)

  /** A board is a list of rows, as the source's list of lists. */
  type Board = seq<seq<Cell>>

  /** The source reads `len(state[0])` as the column count, so a board has at
      least one row and every row is as long as the first. */
  predicate IsBoard(b: Board)
  {
    |b| > 0 && forall r | 0 <= r < |b| :: |b[r]| == |b[0]|
  }

  /** A position of a game: a rectangular board. */
  type State = b: Board | IsBoard(b) witness [[Empty]]

  predicate SameShape(a: Board, b: Board)
  {
    |a| == |b| && forall r | 0 <= r < |a| :: |a[r]| == |b[r]|
  }

  predicate InBounds(b: Board, p: Pos)
    requires IsBoard(b)
  {
    p.row < |b| && p.col < |b[0]|
  }

  function At(b: Board, p: Pos): Cell
    requires IsBoard(b) && InBounds(b, p)
  {
    b[p.row][p.col]
  }

  /** `new_state[r][c] = v` on a copy of the board. */
  function Put(b: Board, p: Pos, v: Cell): (r: Board)
    requires IsBoard(b) && InBounds(b, p)
    ensures IsBoard(r) && SameShape(r, b)
    ensures At(r, p) == v
    ensures forall q | InBounds(b, q) && q != p :: At(r, q) == At(b, q)
  {
    b[p.row := b[p.row][p.col := v]]
  }

  /** `x in row` for some row: the source's `any(x in row for row in state)`. */
  predicate Occurs(b: Board, x: Cell)
  {
    exists r | 0 <= r < |b| :: x in b[r]
  }

  // ---------------------------------------------------------------------
  // Weighted sums over cells, in the row-major order of the source's loops
  // ---------------------------------------------------------------------

  /** Sum of `w(cell, r)` over a row `r`, accumulated left to right. */
  function RowSum(row: seq<Cell>, r: nat, w: (Cell, nat) -> int): int
  {
    if row == [] then 0 else RowSum(row[..|row| - 1], r, w) + w(row[|row| - 1], r)
  }

  /** Sum of `w(cell, row index)` over the whole board, row by row. */
  function BoardSum(b: Board, w: (Cell, nat) -> int): int
  {
    if b == [] then 0 else BoardSum(b[..|b| - 1], w) + RowSum(b[|b| - 1], |b| - 1, w)
  }

  lemma {:induction false} RowSumPut(row: seq<Cell>, r: nat, w: (Cell, nat) -> int, c: nat, v: Cell)
    requires c < |row|
    ensures RowSum(row[c := v], r, w) == RowSum(row, r, w) - w(row[c], r) + w(v, r)
  {
    var n := |row|;
    if c == n - 1 {
      assert row[c := v][..n - 1] == row[..n - 1];
    } else {
      assert row[c := v][..n - 1] == row[..n - 1][c := v];
      RowSumPut(row[..n - 1], r, w, c, v);
    }
  }

  /** Changing one cell changes a weighted sum by exactly that cell's weights. */
  lemma {:induction false} BoardSumPut(b: Board, w: (Cell, nat) -> int, i: nat, j: nat, v: Cell)
    requires i < |b| && j < |b[i]|
    ensures BoardSum(b[i := b[i][j := v]], w) == BoardSum(b, w) - w(b[i][j], i) + w(v, i)
  {
    var n := |b|;
    var b' := b[i := b[i][j := v]];
    if i == n - 1 {
      assert b'[..n - 1] == b[..n - 1];
      RowSumPut(b[i], i, w, j, v);
    } else {
      assert b'[..n - 1] == b[..n - 1][i := b[i][j := v]];
      BoardSumPut(b[..n - 1], w, i, j, v);
    }
  }

  lemma {:induction false} RowSumNonnegative(row: seq<Cell>, r: nat, w: (Cell, nat) -> int)
    requires forall c: Cell :: w(c, r) >= 0
    ensures RowSum(row, r, w) >= 0
  {
    if row != [] {
      RowSumNonnegative(row[..|row| - 1], r, w);
    }
  }

  /** A sum of weights that are non-negative on the board's rows is non-negative. */
  lemma {:induction false} BoardSumNonnegative(b: Board, w: (Cell, nat) -> int)
    requires forall c: Cell, r: nat | r < |b| :: w(c, r) >= 0
    ensures BoardSum(b, w) >= 0
  {
    if b != [] {
      BoardSumNonnegative(b[..|b| - 1], w);
      RowSumNonnegative(b[|b| - 1], |b| - 1, w);
    }
  }

  // ---------------------------------------------------------------------
  // Piece counts: `sum(row.count(x) for row in state)`
  // ---------------------------------------------------------------------

  function Tally(x: Cell): (Cell, nat) -> int
  {
    (c: Cell, r: nat) => if c == x then 1 else 0
  }

  function Count(b: Board, x: Cell): int
  {
    BoardSum(b, Tally(x))
  }

  /** Writing `v` over one cell changes each count by what left and what came. */
  lemma CountPut(b: Board, i: nat, j: nat, v: Cell, x: Cell)
    requires i < |b| && j < |b[i]|
    ensures Count(b[i := b[i][j := v]], x)
         == Count(b, x) - (if b[i][j] == x then 1 else 0) + (if v == x then 1 else 0)
  {
    BoardSumPut(b, Tally(x), i, j, v);
  }

  lemma {:induction false} RowCountZero(row: seq<Cell>, r: nat, x: Cell)
    ensures RowSum(row, r, Tally(x)) >= 0
    ensures RowSum(row, r, Tally(x)) == 0 <==> x !in row
  {
    if row != [] {
      var n := |row|;
      RowCountZero(row[..n - 1], r, x);
      assert row == row[..n - 1] + [row[n - 1]];
    }
  }

  /** A count is zero exactly when the symbol occurs nowhere on the board. */
  lemma {:induction false} CountZero(b: Board, x: Cell)
    ensures Count(b, x) >= 0
    ensures Count(b, x) == 0 <==> !Occurs(b, x)
  {
    if b != [] {
      var n := |b|;
      CountZero(b[..n - 1], x);
      RowCountZero(b[n - 1], n - 1, x);
      assert Occurs(b, x) <==> Occurs(b[..n - 1], x) || x in b[n - 1] by {
        if Occurs(b, x) {
          var r :| 0 <= r < n && x in b[r];
          if r < n - 1 { assert x in b[..n - 1][r]; }
        }
        if Occurs(b[..n - 1], x) {
          var r :| 0 <= r < n - 1 && x in b[..n - 1][r];
          assert x in b[r];
        }
      }
    }
  }
}
