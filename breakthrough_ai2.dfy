/** The Part 2-B Breakthrough engine, `Labs/PartB/Part2/Part2-B/breakthrough_ai2.py`:
    the initial layout, the terminal test, move generation, the transition
    and the four heuristics. White ('O') moves up, black ('X') moves down. */
module BreakthroughAi2 {
  import opened Grid
  import opened Scores
  import opened Ordering

  // ---------------------------------------------------------------------
  // initial_state
  // ---------------------------------------------------------------------

  /** The layout `initial_state` leaves behind: the loops first write 'X' on
      the top `pieceRows` rows and then 'O' on the bottom `pieceRows` rows, so
      'O' wins where the two overlap. */
  function InitialBoard(rows: nat, cols: nat, pieceRows: nat): Board
    requires pieceRows <= rows
  {
    seq(rows, r => seq(cols, c => if r >= rows - pieceRows then O else if r < pieceRows then X else Empty))
  }

  /** `initial_state(rows, cols, piece_rows)`. The source raises IndexError
      when `piece_rows > rows` and `cols > 0`; the requires clause excludes
      `piece_rows > rows` with `cols == 0` as well, where the source returns
      `rows` empty rows. */
  method InitialState(rows: nat, cols: nat, pieceRows: nat) returns (state: Board)
    requires pieceRows <= rows
    ensures state == InitialBoard(rows, cols, pieceRows)
  {
    state := seq(rows, _ => seq(cols, _ => Empty));
    var r := 0;
    while r < pieceRows
      invariant r <= pieceRows
      invariant |state| == rows && forall i | 0 <= i < rows :: |state[i]| == cols
      invariant forall i, j | 0 <= i < rows && 0 <= j < cols :: state[i][j] == if i < r then X else Empty
    {
      var c := 0;
      while c < cols
        invariant c <= cols
        invariant |state| == rows && forall i | 0 <= i < rows :: |state[i]| == cols
        invariant forall i, j | 0 <= i < rows && 0 <= j < cols ::
          state[i][j] == if i < r || (i == r && j < c) then X else Empty
      {
        state := state[r := state[r][c := X]];
        c := c + 1;
      }
      r := r + 1;
    }
    r := rows - pieceRows;
    while r < rows
      invariant rows - pieceRows <= r <= rows
      invariant |state| == rows && forall i | 0 <= i < rows :: |state[i]| == cols
      invariant forall i, j | 0 <= i < rows && 0 <= j < cols ::
        state[i][j] == if rows - pieceRows <= i < r then O else if i < pieceRows then X else Empty
    {
      var c := 0;
      while c < cols
        invariant c <= cols
        invariant |state| == rows && forall i | 0 <= i < rows :: |state[i]| == cols
        invariant forall i, j | 0 <= i < rows && 0 <= j < cols ::
          state[i][j] == if rows - pieceRows <= i < r || (i == r && j < c) then O
                         else if i < pieceRows then X else Empty
      {
        state := state[r := state[r][c := O]];
        c := c + 1;
      }
      r := r + 1;
    }
    assert forall i | 0 <= i < rows :: state[i] == InitialBoard(rows, cols, pieceRows)[i];
  }

  // ---------------------------------------------------------------------
  // terminal_test
  // ---------------------------------------------------------------------

  /** `(False, None)` or `(True, winner)`. */
  datatype Status = Ongoing | Won(winner: Player)

  /** `terminal_test`: 'O' on row 0, then 'X' on the last row, then a side
      with no piece left ('O' gone means 'X' wins), in that order. */
  function TerminalTest(b: Board): Status
    requires IsBoard(b)
  {
    if O in b[0] then Won(O)
    else if X in b[|b| - 1] then Won(X)
    else if !Occurs(b, O) then Won(X)
    else if !Occurs(b, X) then Won(O)
    else Ongoing
  }

  /** The goal row of a player: row 0 for 'O', the last row for 'X'. */
  function GoalRow(b: Board, p: Player): nat
    requires IsBoard(b)
  {
    if p == O then 0 else |b| - 1
  }

  /** A winner has a piece on its goal row or has no opposing piece left; a
      game goes on exactly when neither goal row is reached and both sides
      still have pieces. */
  lemma TerminalTestMeaning(b: Board)
    requires IsBoard(b)
    ensures TerminalTest(b).Won? ==>
      var w := TerminalTest(b).winner;
      w in b[GoalRow(b, w)] || Count(b, Opponent(w)) == 0
    ensures TerminalTest(b) == Ongoing <==>
      O !in b[GoalRow(b, O)] && X !in b[GoalRow(b, X)] && Count(b, O) > 0 && Count(b, X) > 0
  {
    CountZero(b, O);
    CountZero(b, X);
  }

  /** The initial layout is a game in progress exactly when there is a column,
      at least one row of pieces per side, and the bottom rows leave row 0 to
      'X'. */
  lemma InitialStateOngoing(rows: nat, cols: nat, pieceRows: nat)
    requires 1 <= rows && pieceRows <= rows
    ensures IsBoard(InitialBoard(rows, cols, pieceRows))
    ensures TerminalTest(InitialBoard(rows, cols, pieceRows)) == Ongoing
        <==> cols >= 1 && 1 <= pieceRows < rows
  {
    var b := InitialBoard(rows, cols, pieceRows);
    if cols >= 1 && 1 <= pieceRows < rows {
      assert b[0][0] == X && b[rows - 1][0] == O;
      assert O !in b[0];
      assert X !in b[rows - 1];
      assert Occurs(b, O) && Occurs(b, X);
    } else if cols == 0 || pieceRows == 0 {
      assert !Occurs(b, O);
    } else {
      assert b[0][0] == O;
    }
  }

  // ---------------------------------------------------------------------
  // move_generator
  // ---------------------------------------------------------------------

  /** `(player, (src_row, src_col), (dest_row, dest_col))`. */
  datatype Action = Action(player: Player, src: Pos, dst: Pos)

  /** Row step of a player: -1 for 'O' (up), +1 otherwise (down). */
  function Forward(p: Player): int
  {
    if p == O then -1 else 1
  }

  /** The rules of the source: one row forward; straight only into '.';
      diagonally one column aside into '.' or an opponent piece. */
  predicate Legal(p: Player, b: Board, a: Action)
    requires IsBoard(b)
  {
    && a.player == p
    && InBounds(b, a.src) && InBounds(b, a.dst)
    && At(b, a.src) == p
    && a.dst.row == a.src.row + Forward(p)
    && (a.dst.col == a.src.col ==> At(b, a.dst) == Empty)
    && (a.dst.col != a.src.col ==>
          (a.dst.col + 1 == a.src.col || a.dst.col == a.src.col + 1)
          && (At(b, a.dst) == Empty || At(b, a.dst) == Opponent(p)))
  }

  /** The straight move of the piece at (r, c), if any. */
  function Straight(p: Player, b: Board, r: nat, c: nat): seq<Action>
    requires IsBoard(b) && r < |b| && c < |b[0]|
    requires 0 <= r + Forward(p) < |b|
  {
    var nr := r + Forward(p);
    if b[nr][c] == Empty then [Action(p, Pos(r, c), Pos(nr, c))] else []
  }

  /** The diagonal move with column offset `dc` of the piece at (r, c), if any. */
  function Diagonal(p: Player, b: Board, r: nat, c: nat, dc: int): seq<Action>
    requires IsBoard(b) && r < |b| && c < |b[0]|
    requires 0 <= r + Forward(p) < |b|
  {
    var nr, nc := r + Forward(p), c + dc;
    if 0 <= nc < |b[0]| && (b[nr][nc] == Empty || b[nr][nc] == Opponent(p))
    then [Action(p, Pos(r, c), Pos(nr, nc))] else []
  }

  /** The diagonal moves for the first k offsets of `[-1, 1]`. */
  function Diagonals(p: Player, b: Board, r: nat, c: nat, k: nat): seq<Action>
    requires IsBoard(b) && r < |b| && c < |b[0]|
    requires 0 <= r + Forward(p) < |b|
    requires k <= 2
  {
    if k == 0 then [] else if k == 1 then Diagonal(p, b, r, c, -1)
    else Diagonal(p, b, r, c, -1) + Diagonal(p, b, r, c, 1)
  }

  /** The moves of the cell (r, c): straight, then left, then right. */
  function PieceMoves(p: Player, b: Board, r: nat, c: nat): seq<Action>
    requires IsBoard(b) && r < |b| && c < |b[0]|
  {
    if b[r][c] != p || !(0 <= r + Forward(p) < |b|) then []
    else Straight(p, b, r, c) + Diagonals(p, b, r, c, 2)
  }

  /** Row r as blocks: block c holds the moves of the cell (r, c). */
  function CellTable(p: Player, b: Board, r: nat): (row: seq<seq<Action>>)
    requires IsBoard(b) && r < |b|
    ensures |row| == |b[0]|
    ensures forall c | 0 <= c < |row| :: row[c] == PieceMoves(p, b, r, c)
  {
    seq(|b[0]|, c requires 0 <= c < |b[0]| => PieceMoves(p, b, r, c))
  }

  /** The board as blocks: block r holds the moves of row r in column order. */
  function RowTable(p: Player, b: Board): (rows: seq<seq<Action>>)
    requires IsBoard(b)
    ensures |rows| == |b|
    ensures forall r | 0 <= r < |rows| :: rows[r] == Flat(CellTable(p, b, r))
  {
    seq(|b|, r requires 0 <= r < |b| => Flat(CellTable(p, b, r)))
  }

  lemma PieceMovesSource(p: Player, b: Board, r: nat, c: nat)
    requires IsBoard(b) && r < |b| && c < |b[0]|
    ensures forall a | a in PieceMoves(p, b, r, c) :: a.src == Pos(r, c)
  {
    if b[r][c] == p && 0 <= r + Forward(p) < |b| {
      var s, dl, dr := Straight(p, b, r, c), Diagonal(p, b, r, c, -1), Diagonal(p, b, r, c, 1);
      assert PieceMoves(p, b, r, c) == s + (dl + dr);
      assert forall a | a in s + (dl + dr) :: a in s || a in dl || a in dr;
    }
  }

  lemma DiagonalLegal(p: Player, b: Board, r: nat, c: nat, dc: int)
    requires IsBoard(b) && r < |b| && c < |b[0]| && b[r][c] == p
    requires 0 <= r + Forward(p) < |b| && (dc == -1 || dc == 1)
    ensures forall a | a in Diagonal(p, b, r, c, dc) :: Legal(p, b, a)
  {
  }

  lemma PieceMovesLegal(p: Player, b: Board, r: nat, c: nat)
    requires IsBoard(b) && r < |b| && c < |b[0]|
    ensures forall a | a in PieceMoves(p, b, r, c) :: Legal(p, b, a)
  {
    if b[r][c] == p && 0 <= r + Forward(p) < |b| {
      var s, dl, dr := Straight(p, b, r, c), Diagonal(p, b, r, c, -1), Diagonal(p, b, r, c, 1);
      assert PieceMoves(p, b, r, c) == s + (dl + dr);
      DiagonalLegal(p, b, r, c, -1);
      DiagonalLegal(p, b, r, c, 1);
    }
  }

  /** A move of the list comes from some cell (r, c) of the board. */
  lemma MovesOrigin(p: Player, b: Board, a: Action)
    requires IsBoard(b) && a in Flat(RowTable(p, b))
    ensures a.src.row < |b| && a.src.col < |b[0]|
    ensures a in PieceMoves(p, b, a.src.row, a.src.col)
  {
    var rows := RowTable(p, b);
    FlatOrigin(rows, a);
    var r :| 0 <= r < |rows| && a in rows[r];
    var cells := CellTable(p, b, r);
    FlatOrigin(cells, a);
    var c :| 0 <= c < |cells| && a in cells[c];
    PieceMovesSource(p, b, r, c);
  }

  /** The list `move_generator(p, state)` returns; every entry is legal. */
  function Moves(p: Player, b: Board): (ms: seq<Action>)
    requires IsBoard(b)
    ensures forall a | a in ms :: Legal(p, b, a)
  {
    var ms := Flat(RowTable(p, b));
    assert forall a | a in ms :: Legal(p, b, a) by {
      forall a | a in ms ensures Legal(p, b, a) {
        MovesOrigin(p, b, a);
        PieceMovesLegal(p, b, a.src.row, a.src.col);
      }
    }
    ms
  }

  /** `move_generator(player, state)`: the nested loops append each piece's
      straight, left-diagonal and right-diagonal move in row-major order. */
  method MoveGenerator(p: Player, b: Board) returns (moves: seq<Action>)
    requires IsBoard(b)
    ensures moves == Moves(p, b)
  {
    ghost var table := RowTable(p, b);
    moves := [];
    var rows := |b|;
    var r := 0;
    while r < rows
      invariant r <= rows
      invariant moves == Flat(table[..r])
    {
      moves := AppendRowMoves(p, b, r, moves);
      FlatStep(table, r);
      r := r + 1;
    }
    assert table[..r] == table;
  }

  /** The column loop of `move_generator` for row r. */
  method AppendRowMoves(p: Player, b: Board, r: nat, acc: seq<Action>) returns (moves: seq<Action>)
    requires IsBoard(b) && r < |b|
    ensures moves == acc + Flat(CellTable(p, b, r))
  {
    ghost var cells := CellTable(p, b, r);
    moves := acc;
    var cols := |b[0]|;
    var c := 0;
    while c < cols
      invariant c <= cols
      invariant moves == acc + Flat(cells[..c])
    {
      moves := AppendPieceMoves(p, b, r, c, moves);
      Associative(acc, Flat(cells[..c]), cells[c]);
      FlatStep(cells, c);
      c := c + 1;
    }
    assert cells[..c] == cells;
  }

  lemma Associative<T>(x: seq<T>, y: seq<T>, z: seq<T>)
    ensures x + y + z == x + (y + z)
  {
  }

  /** The body of the column loop of `move_generator` for the cell (r, c). */
  method AppendPieceMoves(p: Player, b: Board, r: nat, c: nat, acc: seq<Action>) returns (moves: seq<Action>)
    requires IsBoard(b) && r < |b| && c < |b[0]|
    ensures moves == acc + PieceMoves(p, b, r, c)
  {
    moves := acc;
    var rows, cols := |b|, |b[0]|;
    var dr := if p == O then -1 else 1;
    if b[r][c] == p {
      var newR := r + dr;
      if 0 <= newR < rows {
        if b[newR][c] == Empty {
          moves := moves + [Action(p, Pos(r, c), Pos(newR, c))];
        }
        ghost var straight := moves;
        assert straight == acc + Straight(p, b, r, c);
        var dcs := [-1, 1];
        var k := 0;
        while k < 2
          invariant k <= 2
          invariant moves == straight + Diagonals(p, b, r, c, k)
        {
          ghost var mid := moves;
          var newC := c + dcs[k];
          if 0 <= newC < cols && (b[newR][newC] == Empty || b[newR][newC] == Opponent(p)) {
            moves := moves + [Action(p, Pos(r, c), Pos(newR, newC))];
          }
          assert moves == mid + Diagonal(p, b, r, c, dcs[k]);
          assert Diagonals(p, b, r, c, k + 1) == Diagonals(p, b, r, c, k) + Diagonal(p, b, r, c, dcs[k]);
          Associative(straight, Diagonals(p, b, r, c, k), Diagonal(p, b, r, c, dcs[k]));
          k := k + 1;
        }
        Associative(acc, Straight(p, b, r, c), Diagonals(p, b, r, c, 2));
      }
    }
  }

  lemma PieceMovesComplete(p: Player, b: Board, a: Action)
    requires IsBoard(b) && Legal(p, b, a)
    ensures a in PieceMoves(p, b, a.src.row, a.src.col)
  {
    var r, c := a.src.row, a.src.col;
    var s, dl, dr := Straight(p, b, r, c), Diagonal(p, b, r, c, -1), Diagonal(p, b, r, c, 1);
    assert PieceMoves(p, b, r, c) == s + (dl + dr);
    if a.dst.col == c {
      assert a in s;
    } else if a.dst.col < c {
      assert a in dl;
    } else {
      assert a in dr;
    }
  }

  /** `move_generator` produces exactly the legal moves: every generated move
      is legal (the ensures of Moves) and every legal move is generated. */
  lemma MovesComplete(p: Player, b: Board, a: Action)
    requires IsBoard(b)
    ensures a in Moves(p, b) <==> Legal(p, b, a)
  {
    if Legal(p, b, a) {
      var r, c := a.src.row, a.src.col;
      PieceMovesComplete(p, b, a);
      FlatMember(CellTable(p, b, r), c, a);
      FlatMember(RowTable(p, b), r, a);
    }
  }

  /** 0 for the straight move, 1 for the left diagonal, 2 for the right. */
  function Kind(a: Action): nat
  {
    if a.dst.col == a.src.col then 0 else if a.dst.col < a.src.col then 1 else 2
  }

  /** The enumeration order: source cells row-major, then straight, left, right. */
  predicate Before(a: Action, a': Action)
  {
    || a.src.row < a'.src.row
    || (a.src.row == a'.src.row && a.src.col < a'.src.col)
    || (a.src == a'.src && Kind(a) < Kind(a'))
  }

  lemma PieceMovesOrdered(p: Player, b: Board, r: nat, c: nat)
    requires IsBoard(b) && r < |b| && c < |b[0]|
    ensures Sorted(PieceMoves(p, b, r, c), Before)
  {
    if b[r][c] == p && 0 <= r + Forward(p) < |b| {
      var s, dl, dr := Straight(p, b, r, c), Diagonal(p, b, r, c, -1), Diagonal(p, b, r, c, 1);
      assert PieceMoves(p, b, r, c) == s + (dl + dr);
      SortedAppend(dl, dr, Before);
      SortedAppend(s, dl + dr, Before);
    }
  }

  /** The moves of row r are in enumeration order and all start on row r. */
  lemma RowOrdered(p: Player, b: Board, r: nat)
    requires IsBoard(b) && r < |b|
    ensures Sorted(Flat(CellTable(p, b, r)), Before)
    ensures forall a | a in Flat(CellTable(p, b, r)) :: a.src.row == r
  {
    var cells := CellTable(p, b, r);
    forall c | 0 <= c < |cells|
      ensures Sorted(cells[c], Before) && forall a: Action | a in cells[c] :: a.src == Pos(r, c)
    {
      PieceMovesOrdered(p, b, r, c);
      PieceMovesSource(p, b, r, c);
    }
    FlatSorted(cells, Before);
    forall a | a in Flat(cells) ensures a.src.row == r {
      FlatOrigin(cells, a);
    }
  }

  /** Moves are listed strictly in enumeration order: row-major over the
      pieces, then straight, left, right. With MovesComplete this fixes the
      list completely, and in particular it holds no duplicate. */
  lemma MovesOrdered(p: Player, b: Board)
    requires IsBoard(b)
    ensures Sorted(Moves(p, b), Before)
  {
    var rows := RowTable(p, b);
    forall r | 0 <= r < |rows|
      ensures Sorted(rows[r], Before) && forall a: Action | a in rows[r] :: a.src.row == r
    {
      RowOrdered(p, b, r);
    }
    FlatSorted(rows, Before);
  }

  // ---------------------------------------------------------------------
  // transition
  // ---------------------------------------------------------------------

  /** `transition(state, action)`: on a deep copy, the source becomes '.' and
      then the destination becomes the mover. The input is a value and is
      therefore left unchanged. */
  function Transition(b: Board, a: Action): (r: Board)
    requires IsBoard(b) && InBounds(b, a.src) && InBounds(b, a.dst)
    ensures IsBoard(r) && SameShape(r, b)
    ensures At(r, a.dst) == a.player
    ensures a.src != a.dst ==> At(r, a.src) == Empty
    ensures forall q | InBounds(b, q) && q != a.src && q != a.dst :: At(r, q) == At(b, q)
  {
    Put(Put(b, a.src, Empty), a.dst, a.player)
  }

  /** A capture: the destination holds an opponent piece. */
  predicate IsCapture(p: Player, b: Board, a: Action)
    requires IsBoard(b) && InBounds(b, a.dst)
  {
    At(b, a.dst) == Opponent(p)
  }

  /** A legal move keeps the mover's piece count and removes exactly one
      opponent piece when it is a capture, none otherwise. */
  lemma TransitionCounts(p: Player, b: Board, a: Action)
    requires IsBoard(b) && Legal(p, b, a)
    ensures Count(Transition(b, a), p) == Count(b, p)
    ensures Count(Transition(b, a), Opponent(p))
         == Count(b, Opponent(p)) - (if IsCapture(p, b, a) then 1 else 0)
  {
    var b1 := Put(b, a.src, Empty);
    CountPut(b, a.src.row, a.src.col, Empty, p);
    CountPut(b, a.src.row, a.src.col, Empty, Opponent(p));
    assert b1[a.dst.row][a.dst.col] == b[a.dst.row][a.dst.col];
    CountPut(b1, a.dst.row, a.dst.col, p, p);
    CountPut(b1, a.dst.row, a.dst.col, p, Opponent(p));
  }

  // ---------------------------------------------------------------------
  // The four heuristics; `random.random()` is the tie-break argument t
  // ---------------------------------------------------------------------

  /** Advancement of a piece of `q` on row r: rows - 1 - r for 'O', r for 'X'. */
  function AdvanceWeight(q: Player, rows: nat): (Cell, nat) -> int
  {
    (c: Cell, r: nat) => if c != q then 0 else if q == O then rows - 1 - r else r
  }

  /** Sum of the advancement of every piece of `q`. */
  function Advancement(b: Board, q: Player): int
  {
    BoardSum(b, AdvanceWeight(q, |b|))
  }

  /** `evasive_heuristic`: own piece count plus the tie-break. */
  function Evasive(b: Board, p: Player, t: Unit): (score: real)
    ensures score.Floor == Count(b, p)
  {
    Count(b, p) as real + t
  }

  /** `conqueror_heuristic`: minus the opponent's piece count plus the tie-break. */
  function Conqueror(b: Board, p: Player, t: Unit): (score: real)
    ensures score.Floor == -Count(b, Opponent(p))
  {
    -(Count(b, Opponent(p)) as real) + t
  }

  /** The integer part of `aggressor_heuristic`. */
  function AggressorValue(b: Board, p: Player): int
  {
    10 * (Count(b, p) - Count(b, Opponent(p))) + Advancement(b, p)
  }

  /** The integer part of `defender_heuristic`. */
  function DefenderValue(b: Board, p: Player): int
  {
    15 * Count(b, p) - 15 * Count(b, Opponent(p)) - Advancement(b, Opponent(p))
  }

  lemma BoardSumStep(b: Board, w: (Cell, nat) -> int, r: nat)
    requires r < |b|
    ensures BoardSum(b[..r + 1], w) == BoardSum(b[..r], w) + RowSum(b[r], r, w)
  {
    assert b[..r + 1][..r] == b[..r];
  }

  lemma RowSumStep(row: seq<Cell>, r: nat, w: (Cell, nat) -> int, c: nat)
    requires c < |row|
    ensures RowSum(row[..c + 1], r, w) == RowSum(row[..c], r, w) + w(row[c], r)
  {
    assert row[..c + 1][..c] == row[..c];
  }

  /** `aggressor_heuristic`: the loops count own and opposing pieces and add
      up the own pieces' advancement. */
  method Aggressor(b: Board, p: Player, t: Unit) returns (score: real)
    requires IsBoard(b)
    ensures score == AggressorValue(b, p) as real + t
    ensures score.Floor == AggressorValue(b, p)
  {
    var rows := |b|;
    var opponent := Opponent(p);
    var ownCount, oppCount, advSum := 0, 0, 0;
    var r := 0;
    while r < rows
      invariant r <= rows
      invariant ownCount == BoardSum(b[..r], Tally(p))
      invariant oppCount == BoardSum(b[..r], Tally(opponent))
      invariant advSum == BoardSum(b[..r], AdvanceWeight(p, rows))
    {
      var c := 0;
      while c < |b[0]|
        invariant c <= |b[0]|
        invariant ownCount == BoardSum(b[..r], Tally(p)) + RowSum(b[r][..c], r, Tally(p))
        invariant oppCount == BoardSum(b[..r], Tally(opponent)) + RowSum(b[r][..c], r, Tally(opponent))
        invariant advSum == BoardSum(b[..r], AdvanceWeight(p, rows)) + RowSum(b[r][..c], r, AdvanceWeight(p, rows))
      {
        RowSumStep(b[r], r, Tally(p), c);
        RowSumStep(b[r], r, Tally(opponent), c);
        RowSumStep(b[r], r, AdvanceWeight(p, rows), c);
        if b[r][c] == p {
          ownCount := ownCount + 1;
          if p == O {
            advSum := advSum + (rows - 1 - r);
          } else {
            advSum := advSum + r;
          }
        } else if b[r][c] == opponent {
          oppCount := oppCount + 1;
        }
        c := c + 1;
      }
      assert b[r][..c] == b[r];
      BoardSumStep(b, Tally(p), r);
      BoardSumStep(b, Tally(opponent), r);
      BoardSumStep(b, AdvanceWeight(p, rows), r);
      r := r + 1;
    }
    assert b[..r] == b;
    score := (10 * (ownCount - oppCount) + advSum) as real + t;
  }

  /** `defender_heuristic`: the loops count own and opposing pieces and add up
      the opposing pieces' advancement. */
  method Defender(b: Board, p: Player, t: Unit) returns (score: real)
    requires IsBoard(b)
    ensures score == DefenderValue(b, p) as real + t
    ensures score.Floor == DefenderValue(b, p)
  {
    var rows := |b|;
    var opponent := Opponent(p);
    var ownCount, oppCount, oppAdvSum := 0, 0, 0;
    var r := 0;
    while r < rows
      invariant r <= rows
      invariant ownCount == BoardSum(b[..r], Tally(p))
      invariant oppCount == BoardSum(b[..r], Tally(opponent))
      invariant oppAdvSum == BoardSum(b[..r], AdvanceWeight(opponent, rows))
    {
      var c := 0;
      while c < |b[0]|
        invariant c <= |b[0]|
        invariant ownCount == BoardSum(b[..r], Tally(p)) + RowSum(b[r][..c], r, Tally(p))
        invariant oppCount == BoardSum(b[..r], Tally(opponent)) + RowSum(b[r][..c], r, Tally(opponent))
        invariant oppAdvSum == BoardSum(b[..r], AdvanceWeight(opponent, rows))
                             + RowSum(b[r][..c], r, AdvanceWeight(opponent, rows))
      {
        RowSumStep(b[r], r, Tally(p), c);
        RowSumStep(b[r], r, Tally(opponent), c);
        RowSumStep(b[r], r, AdvanceWeight(opponent, rows), c);
        if b[r][c] == p {
          ownCount := ownCount + 1;
        } else if b[r][c] == opponent {
          oppCount := oppCount + 1;
          if opponent == O {
            oppAdvSum := oppAdvSum + (rows - 1 - r);
          } else {
            oppAdvSum := oppAdvSum + r;
          }
        }
        c := c + 1;
      }
      assert b[r][..c] == b[r];
      BoardSumStep(b, Tally(p), r);
      BoardSumStep(b, Tally(opponent), r);
      BoardSumStep(b, AdvanceWeight(opponent, rows), r);
      r := r + 1;
    }
    assert b[..r] == b;
    score := (15 * ownCount - 15 * oppCount - oppAdvSum) as real + t;
  }

  /** Evasive: a legal move never changes the mover's own score. Conqueror:
      the mover's score rises by exactly one on a capture, else stays. */
  lemma CountHeuristicsAfterMove(p: Player, b: Board, a: Action, t: Unit)
    requires IsBoard(b) && Legal(p, b, a)
    ensures Evasive(Transition(b, a), p, t) == Evasive(b, p, t)
    ensures Conqueror(Transition(b, a), p, t)
         == Conqueror(b, p, t) + (if IsCapture(p, b, a) then 1.0 else 0.0)
  {
    TransitionCounts(p, b, a);
  }

  /** A legal move changes the advancement of the mover by exactly one (its
      piece goes one row forward), and that of the opponent by minus the
      captured piece's advancement. */
  lemma AdvancementAfterMove(p: Player, b: Board, a: Action)
    requires IsBoard(b) && Legal(p, b, a)
    ensures Advancement(Transition(b, a), p) == Advancement(b, p) + 1
    ensures Advancement(Transition(b, a), Opponent(p))
         == Advancement(b, Opponent(p)) - AdvanceWeight(Opponent(p), |b|)(At(b, a.dst), a.dst.row)
  {
    var b1 := Put(b, a.src, Empty);
    var q := Opponent(p);
    BoardSumPut(b, AdvanceWeight(p, |b|), a.src.row, a.src.col, Empty);
    BoardSumPut(b, AdvanceWeight(q, |b|), a.src.row, a.src.col, Empty);
    assert b1[a.dst.row][a.dst.col] == b[a.dst.row][a.dst.col];
    BoardSumPut(b1, AdvanceWeight(p, |b|), a.dst.row, a.dst.col, p);
    BoardSumPut(b1, AdvanceWeight(q, |b|), a.dst.row, a.dst.col, p);
  }

  /** Aggressor: the mover's score rises by 1 for the step forward, and by 10
      more when the move captures. */
  lemma AggressorAfterMove(p: Player, b: Board, a: Action)
    requires IsBoard(b) && Legal(p, b, a)
    ensures AggressorValue(Transition(b, a), p)
         == AggressorValue(b, p) + (if IsCapture(p, b, a) then 11 else 1)
  {
    TransitionCounts(p, b, a);
    AdvancementAfterMove(p, b, a);
  }

  /** Defender: a quiet move leaves the mover's score alone; a capture raises
      it by 15 plus the advancement the captured piece had. */
  lemma DefenderAfterMove(p: Player, b: Board, a: Action)
    requires IsBoard(b) && Legal(p, b, a)
    ensures DefenderValue(Transition(b, a), p)
         == DefenderValue(b, p)
            + (if IsCapture(p, b, a)
               then 15 + AdvanceWeight(Opponent(p), |b|)(Opponent(p), a.dst.row) else 0)
  {
    TransitionCounts(p, b, a);
    AdvancementAfterMove(p, b, a);
  }
}
