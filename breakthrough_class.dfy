/** The class-based first draft of the engine, `Labs/PartB/Part1/main.py`: a
    `Breakthrough` object holds its dimensions and a board; it lays out the
    initial position, tests for a finished game by scanning columns,
    generates moves (diagonal steps are captures only) and builds the board
    after a move. White ('O') moves up, black ('X') moves down. */
module BreakthroughClass {
  import opened Options
  import opened Grid
  import opened Ordering
  import opened BreakthroughAi2
  import Part2A = BreakthroughAi

  /** `((start_row, start_col), (end_row, end_col))`, as in Part 2-A. */
  type Move = Part2A.Move

  /** A board of `rows` rows of `cols` cells each. Unlike the other engines
      the class reads its dimensions from its fields, so a board with no row
      is possible. */
  predicate Shaped(b: Board, rows: nat, cols: nat)
  {
    |b| == rows && forall i | 0 <= i < rows :: |b[i]| == cols
  }

  // ---------------------------------------------------------------------
  // initial_state
  // ---------------------------------------------------------------------

  /** A row of n copies of x: `[x] * n`. */
  function Fill(n: nat, x: Cell): (row: seq<Cell>)
  {
    seq(n, _ => x)
  }

  /** What row i holds after the first k rounds of `initial_state`'s loop.
      Round r writes 'X' over row r and then 'O' over row rows-1-r, so where
      both reach a row the later round wins, and 'O' within one round. */
  function Layout(rows: nat, k: nat, i: nat): Cell
  {
    if rows - 1 - i < k && (k <= i || i <= rows - 1 - i) then O
    else if i < k then X
    else Empty
  }

  /** The board `initial_state(rows, cols, start_rows)` returns. */
  function StartBoard(rows: nat, cols: nat, startRows: nat): Board
  {
    seq(rows, i requires 0 <= i < rows => Fill(cols, Layout(rows, startRows, i)))
  }

  /** Without an overlap of the two sides, rows above `start_rows` are 'X',
      the bottom `start_rows` rows are 'O' and the rest is '.'. */
  lemma StartBoardMeaning(rows: nat, cols: nat, startRows: nat, i: nat, j: nat)
    requires 2 * startRows <= rows && i < rows && j < cols
    ensures Shaped(StartBoard(rows, cols, startRows), rows, cols)
    ensures var cell := StartBoard(rows, cols, startRows)[i][j];
      && (cell == X <==> i < startRows)
      && (cell == O <==> rows - startRows <= i)
      && (cell == Empty <==> startRows <= i < rows - startRows)
  {
  }

  /** Part 2-B writes all 'X' rows before all 'O' rows; the class interleaves
      them. The two layouts agree exactly when the board has no column or the
      sides overlap in at most one (middle) row. */
  lemma StartBoardAgainstPart2B(rows: nat, cols: nat, startRows: nat)
    requires startRows <= rows
    ensures StartBoard(rows, cols, startRows) == InitialBoard(rows, cols, startRows)
        <==> cols == 0 || 2 * startRows <= rows + 1
  {
    var b, b2 := StartBoard(rows, cols, startRows), InitialBoard(rows, cols, startRows);
    if cols == 0 || 2 * startRows <= rows + 1 {
      forall i | 0 <= i < rows ensures b[i] == b2[i] {
        assert forall j | 0 <= j < cols :: b[i][j] == b2[i][j];
      }
    } else {
      var i := startRows - 1;
      assert b[i][0] == X && b2[i][0] == O;
    }
  }

  // ---------------------------------------------------------------------
  // is_terminal
  // ---------------------------------------------------------------------

  /** The check of column c: 'O' on row 0, then 'X' on the last row. */
  function ColumnWinner(b: Board, rows: nat, cols: nat, c: nat): Option<Player>
    requires Shaped(b, rows, cols) && 0 < rows && c < cols
  {
    if b[0][c] == O then Some(O)
    else if b[rows - 1][c] == X then Some(X)
    else None
  }

  /** The first win the column loop finds from column c on. */
  function ScanFrom(b: Board, rows: nat, cols: nat, c: nat): Option<Player>
    requires Shaped(b, rows, cols) && (0 < rows || cols == 0) && c <= cols
    decreases cols - c
  {
    if c == cols then None
    else if ColumnWinner(b, rows, cols, c).Some? then ColumnWinner(b, rows, cols, c)
    else ScanFrom(b, rows, cols, c + 1)
  }

  /** What `is_terminal` returns: the first column win, else a side with no
      piece left loses ('O' gone means 'X' wins), else the game goes on. */
  function Terminal(b: Board, rows: nat, cols: nat): Status
    requires Shaped(b, rows, cols) && (0 < rows || cols == 0)
  {
    match ScanFrom(b, rows, cols, 0)
    case Some(w) => Won(w)
    case None =>
      if !Occurs(b, O) then Won(X)
      else if !Occurs(b, X) then Won(O)
      else Ongoing
  }

  /** The column loop finds 'O' only when 'O' is on row 0, 'X' only when 'X'
      is on the last row, and nothing exactly when neither is the case from
      column c on. */
  lemma {:induction false} ScanFromMeaning(b: Board, rows: nat, cols: nat, c: nat)
    requires Shaped(b, rows, cols) && 0 < rows && c <= cols
    ensures ScanFrom(b, rows, cols, c) == Some(O) ==> O in b[0]
    ensures ScanFrom(b, rows, cols, c) == Some(X) ==> X in b[rows - 1]
    ensures ScanFrom(b, rows, cols, c).None? <==>
      forall j | c <= j < cols :: b[0][j] != O && b[rows - 1][j] != X
    decreases cols - c
  {
    if c < cols {
      ScanFromMeaning(b, rows, cols, c + 1);
    }
  }

  /** The whole scan finds nothing exactly when no 'O' is on row 0 and no
      'X' on the last row. */
  lemma ScanNone(b: Board, rows: nat, cols: nat)
    requires Shaped(b, rows, cols) && 0 < rows
    ensures ScanFrom(b, rows, cols, 0) == Some(O) ==> O in b[0]
    ensures ScanFrom(b, rows, cols, 0) == Some(X) ==> X in b[rows - 1]
    ensures ScanFrom(b, rows, cols, 0).None? <==> O !in b[0] && X !in b[rows - 1]
  {
    ScanFromMeaning(b, rows, cols, 0);
    var top, bottom := b[0], b[rows - 1];
    assert (O !in top && X !in bottom) <==> forall j | 0 <= j < cols :: top[j] != O && bottom[j] != X;
  }

  /** A winner has a piece on its goal row or no opposing piece is left; the
      game goes on exactly when neither goal row is reached and both sides
      have pieces. */
  lemma TerminalMeaning(b: Board, rows: nat, cols: nat)
    requires Shaped(b, rows, cols) && 0 < rows
    ensures IsBoard(b)
    ensures Terminal(b, rows, cols).Won? ==>
      var w := Terminal(b, rows, cols).winner;
      w in b[GoalRow(b, w)] || Count(b, Opponent(w)) == 0
    ensures Terminal(b, rows, cols) == Ongoing <==>
      O !in b[0] && X !in b[rows - 1] && Count(b, O) > 0 && Count(b, X) > 0
  {
    ScanNone(b, rows, cols);
    CountZero(b, O);
    CountZero(b, X);
  }

  /** The class and Part 2-B's `terminal_test` disagree exactly when both
      goal rows are reached and the column loop meets the 'X' first: the
      class then declares 'X' the winner, Part 2-B 'O'. */
  lemma TerminalAgainstPart2B(b: Board, rows: nat, cols: nat)
    requires Shaped(b, rows, cols) && 0 < rows
    ensures IsBoard(b)
    ensures Terminal(b, rows, cols) != TerminalTest(b) <==>
      ScanFrom(b, rows, cols, 0) == Some(X) && O in b[0]
  {
    ScanNone(b, rows, cols);
  }

  /** The class and Part 2-A's `is_terminal` disagree exactly when both goal
      rows are reached and the column loop meets the 'O' first (the class
      declares 'O' the winner, Part 2-A 'X'), or when no piece is left at all
      (the class declares 'X', Part 2-A 'O'). */
  lemma TerminalAgainstPart2A(b: Board, rows: nat, cols: nat)
    requires Shaped(b, rows, cols) && 0 < rows
    ensures IsBoard(b)
    ensures Terminal(b, rows, cols) != Part2A.IsTerminal(b) <==>
      (ScanFrom(b, rows, cols, 0) == Some(O) && X in b[rows - 1]) || (!Occurs(b, O) && !Occurs(b, X))
  {
    ScanNone(b, rows, cols);
    CountZero(b, O);
    CountZero(b, X);
  }

  // ---------------------------------------------------------------------
  // generate_moves
  // ---------------------------------------------------------------------

  /** The forward target of the piece on (r, c): in bounds and '.'. */
  function ForwardTarget(b: Board, rows: nat, cols: nat, p: Player, r: nat, c: nat): seq<Pos>
    requires Shaped(b, rows, cols) && r < rows && c < cols
  {
    var nr := r + Forward(p);
    if 0 <= nr < rows && b[nr][c] == Empty then [Pos(nr, c)] else []
  }

  /** The left capture target: a column to the left, holding neither the
      player's piece nor '.'. */
  function LeftTarget(b: Board, rows: nat, cols: nat, p: Player, r: nat, c: nat): seq<Pos>
    requires Shaped(b, rows, cols) && r < rows && c < cols
  {
    var nr := r + Forward(p);
    if 0 <= nr < rows && 0 <= c - 1 && b[nr][c - 1] != p && b[nr][c - 1] != Empty
    then [Pos(nr, c - 1)] else []
  }

  /** The right capture target: a column to the right, holding neither the
      player's piece nor '.'. */
  function RightTarget(b: Board, rows: nat, cols: nat, p: Player, r: nat, c: nat): seq<Pos>
    requires Shaped(b, rows, cols) && r < rows && c < cols
  {
    var nr := r + Forward(p);
    if 0 <= nr < rows && c + 1 < cols && b[nr][c + 1] != p && b[nr][c + 1] != Empty
    then [Pos(nr, c + 1)] else []
  }

  /** `possible_moves` of the piece on (r, c): forward, left, right. */
  function Targets(b: Board, rows: nat, cols: nat, p: Player, r: nat, c: nat): seq<Pos>
    requires Shaped(b, rows, cols) && r < rows && c < cols
  {
    if b[r][c] != p then []
    else ForwardTarget(b, rows, cols, p, r, c) + LeftTarget(b, rows, cols, p, r, c)
         + RightTarget(b, rows, cols, p, r, c)
  }

  /** Each target paired with the source cell. */
  function Attach(src: Pos, ts: seq<Pos>): (ms: seq<Move>)
    ensures |ms| == |ts|
  {
    seq(|ts|, i requires 0 <= i < |ts| => Part2A.Move(src, ts[i]))
  }

  /** Row r as blocks: block c holds the moves of the cell (r, c). */
  function CellBlocks(b: Board, rows: nat, cols: nat, p: Player, r: nat): (row: seq<seq<Move>>)
    requires Shaped(b, rows, cols) && r < rows
    ensures |row| == cols
    ensures forall c | 0 <= c < cols :: row[c] == Attach(Pos(r, c), Targets(b, rows, cols, p, r, c))
  {
    seq(cols, c requires 0 <= c < cols => Attach(Pos(r, c), Targets(b, rows, cols, p, r, c)))
  }

  /** The board as blocks: block r holds the moves of row r. */
  function RowBlocks(b: Board, rows: nat, cols: nat, p: Player): (t: seq<seq<Move>>)
    requires Shaped(b, rows, cols)
    ensures |t| == rows
    ensures forall r | 0 <= r < rows :: t[r] == Flat(CellBlocks(b, rows, cols, p, r))
  {
    seq(rows, r requires 0 <= r < rows => Flat(CellBlocks(b, rows, cols, p, r)))
  }

  /** The list `generate_moves(player)` returns, row-major over the pieces. */
  function Generated(b: Board, rows: nat, cols: nat, p: Player): seq<Move>
    requires Shaped(b, rows, cols)
  {
    Flat(RowBlocks(b, rows, cols, p))
  }

  /** The moves of the class: one row forward into '.', or one row forward
      and one column aside onto an opponent piece. */
  predicate CaptureLegal(b: Board, rows: nat, cols: nat, p: Player, m: Move)
    requires Shaped(b, rows, cols)
  {
    && m.src.row < rows && m.src.col < cols && m.dst.row < rows && m.dst.col < cols
    && b[m.src.row][m.src.col] == p
    && m.dst.row == m.src.row + Forward(p)
    && ((m.dst.col == m.src.col && b[m.dst.row][m.dst.col] == Empty)
        || ((m.dst.col + 1 == m.src.col || m.dst.col == m.src.col + 1)
            && b[m.dst.row][m.dst.col] == Opponent(p)))
  }

  /** A move of `Attach(src, ts)` leaves `src` for one of `ts`. */
  lemma AttachMember(src: Pos, ts: seq<Pos>, m: Move)
    ensures m in Attach(src, ts) <==> m.src == src && m.dst in ts
  {
    if m.src == src && m.dst in ts {
      var i :| 0 <= i < |ts| && ts[i] == m.dst;
      assert Attach(src, ts)[i] == m;
    }
  }

  /** The three target checks give exactly the destinations of the class's
      moves from (r, c). */
  lemma TargetsMember(b: Board, rows: nat, cols: nat, p: Player, r: nat, c: nat, d: Pos)
    requires Shaped(b, rows, cols) && r < rows && c < cols
    ensures d in Targets(b, rows, cols, p, r, c) <==> CaptureLegal(b, rows, cols, p, Part2A.Move(Pos(r, c), d))
  {
    if b[r][c] == p {
      var f, lt, rt := ForwardTarget(b, rows, cols, p, r, c), LeftTarget(b, rows, cols, p, r, c),
        RightTarget(b, rows, cols, p, r, c);
      assert Targets(b, rows, cols, p, r, c) == f + lt + rt;
      assert d in f + lt + rt <==> d in f || d in lt || d in rt;
    }
  }

  /** The moves listed for the cell (r, c) are exactly the class's moves
      from (r, c). */
  lemma TargetsMeaning(b: Board, rows: nat, cols: nat, p: Player, r: nat, c: nat, m: Move)
    requires Shaped(b, rows, cols) && r < rows && c < cols
    ensures m in Attach(Pos(r, c), Targets(b, rows, cols, p, r, c))
        <==> m.src == Pos(r, c) && CaptureLegal(b, rows, cols, p, m)
  {
    AttachMember(Pos(r, c), Targets(b, rows, cols, p, r, c), m);
    TargetsMember(b, rows, cols, p, r, c, m.dst);
  }

  /** `generate_moves` lists exactly the class's moves: forward steps into
      '.' and diagonal captures, never a diagonal step into '.'. */
  lemma GeneratedMeaning(b: Board, rows: nat, cols: nat, p: Player, m: Move)
    requires Shaped(b, rows, cols)
    ensures m in Generated(b, rows, cols, p) <==> CaptureLegal(b, rows, cols, p, m)
  {
    var t := RowBlocks(b, rows, cols, p);
    if m in Flat(t) {
      FlatOrigin(t, m);
      var r :| 0 <= r < rows && m in t[r];
      var cells := CellBlocks(b, rows, cols, p, r);
      FlatOrigin(cells, m);
      var c :| 0 <= c < cols && m in cells[c];
      TargetsMeaning(b, rows, cols, p, r, c, m);
    }
    if CaptureLegal(b, rows, cols, p, m) {
      var r, c := m.src.row, m.src.col;
      TargetsMeaning(b, rows, cols, p, r, c, m);
      FlatMember(CellBlocks(b, rows, cols, p, r), c, m);
      FlatMember(t, r, m);
    }
  }

  /** The class generates Part 2-A's moves less the diagonal steps into an
      empty cell. */
  lemma GeneratedAgainstPart2A(b: Board, rows: nat, cols: nat, p: Player, m: Move)
    requires Shaped(b, rows, cols) && 0 < rows
    ensures IsBoard(b)
    ensures m in Generated(b, rows, cols, p) <==>
      m in Part2A.PossibleMoves(b, p)
      && !(m.dst.col != m.src.col && InBounds(b, m.dst) && At(b, m.dst) == Empty)
  {
    GeneratedMeaning(b, rows, cols, p, m);
    Part2A.PossibleMovesMeaning(b, p, m);
  }

  // ---------------------------------------------------------------------
  // transition
  // ---------------------------------------------------------------------

  /** `nb` is `b` with the piece on `m.src` carried to `m.dst` and `m.src`
      emptied; every other cell as in `b`. */
  predicate MovedFrom(b: Board, rows: nat, cols: nat, m: Move, nb: Board)
    requires Shaped(b, rows, cols)
    requires m.src.row < rows && m.src.col < cols && m.dst.row < rows && m.dst.col < cols
  {
    && Shaped(nb, rows, cols)
    && nb[m.src.row][m.src.col] == Empty
    && (m.src != m.dst ==> nb[m.dst.row][m.dst.col] == b[m.src.row][m.src.col])
    && forall i, j | 0 <= i < rows && 0 <= j < cols && Pos(i, j) != m.src && Pos(i, j) != m.dst ::
         nb[i][j] == b[i][j]
  }

  /** Every move the class generates is legal by Part 2-B's rules. */
  lemma GeneratedIsLegal(b: Board, rows: nat, cols: nat, p: Player, m: Move)
    requires Shaped(b, rows, cols) && 0 < rows && m in Generated(b, rows, cols, p)
    ensures IsBoard(b) && Legal(p, b, Action(p, m.src, m.dst))
  {
    GeneratedMeaning(b, rows, cols, p, m);
  }

  /** Two boards of the same dimensions with the same cells are equal. */
  lemma SameCells(x: Board, y: Board, rows: nat, cols: nat)
    requires Shaped(x, rows, cols) && Shaped(y, rows, cols)
    requires forall i, j | 0 <= i < rows && 0 <= j < cols :: x[i][j] == y[i][j]
    ensures x == y
  {
    forall i | 0 <= i < rows ensures x[i] == y[i] {
      assert forall j | 0 <= j < cols :: x[i][j] == y[i][j];
    }
  }

  /** For a generated move the class's new board is the board Part 2-B's
      `transition` builds. */
  lemma MovedFromIsTransition(b: Board, rows: nat, cols: nat, p: Player, m: Move, nb: Board)
    requires Shaped(b, rows, cols) && 0 < rows && m in Generated(b, rows, cols, p)
    requires m.src.row < rows && m.src.col < cols && m.dst.row < rows && m.dst.col < cols
    requires MovedFrom(b, rows, cols, m, nb)
    ensures IsBoard(b) && Legal(p, b, Action(p, m.src, m.dst))
    ensures nb == Transition(b, Action(p, m.src, m.dst))
  {
    GeneratedIsLegal(b, rows, cols, p, m);
    var t := Transition(b, Action(p, m.src, m.dst));
    forall i, j | 0 <= i < rows && 0 <= j < cols ensures nb[i][j] == t[i][j] {
      assert At(t, Pos(i, j)) == t[i][j];
    }
    SameCells(nb, t, rows, cols);
  }

  // ---------------------------------------------------------------------
  // The class
  // ---------------------------------------------------------------------

  /** `Breakthrough(rows, cols, start_rows)`: the dimensions and the board,
      which the caller may replace with a board `transition` returns. */
  class Breakthrough {
    const rows: nat
    const cols: nat
    const startRows: nat
    var board: Board

    /** The board has the dimensions the loops of the class read. */
    predicate Valid()
      reads this
    {
      Shaped(board, rows, cols)
    }

    /** `__init__`: store the dimensions and lay out the initial board. */
    constructor (rows: nat, cols: nat, startRows: nat)
      requires startRows <= rows
      ensures this.rows == rows && this.cols == cols && this.startRows == startRows
      ensures board == StartBoard(rows, cols, startRows)
      ensures Valid()
    {
      var b := InitialState(rows, cols, startRows);
      this.rows, this.cols, this.startRows := rows, cols, startRows;
      board := b;
    }

    /** `initial_state(rows, cols, start_rows)`: a board of '.', then for each
        r below `start_rows` row r becomes 'X' and row rows-1-r becomes 'O'.
        The source raises IndexError when `start_rows > rows`, which the
        requires clause excludes. */
    static method InitialState(rows: nat, cols: nat, startRows: nat) returns (board: Board)
      requires startRows <= rows
      ensures board == StartBoard(rows, cols, startRows)
      ensures Shaped(board, rows, cols)
    {
      board := seq(rows, _ => Fill(cols, Empty));
      for r := 0 to startRows
        invariant |board| == rows
        invariant forall i | 0 <= i < rows :: board[i] == Fill(cols, Layout(rows, r, i))
      {
        board := board[r := Fill(cols, X)];
        board := board[rows - 1 - r := Fill(cols, O)];
      }
      assert forall i | 0 <= i < rows :: board[i] == StartBoard(rows, cols, startRows)[i];
    }

    /** `is_terminal()`: scan the columns for 'O' on row 0 or 'X' on the last
        row, then look for a side with no piece left. The source raises
        IndexError on a board without rows unless it has no columns. */
    method IsTerminal() returns (status: Status)
      requires Valid() && (0 < rows || cols == 0)
      ensures status == Terminal(board, rows, cols)
    {
      for c := 0 to cols
        invariant ScanFrom(board, rows, cols, 0) == ScanFrom(board, rows, cols, c)
      {
        if board[0][c] == O {
          return Won(O);
        }
        if board[rows - 1][c] == X {
          return Won(X);
        }
      }
      var whitePieces := Occurs(board, O);
      var blackPieces := Occurs(board, X);
      if !whitePieces {
        return Won(X);
      }
      if !blackPieces {
        return Won(O);
      }
      return Ongoing;
    }

    /** `generate_moves(player)`: nested loops over rows and columns. */
    method GenerateMoves(player: Player) returns (moves: seq<Move>)
      requires Valid()
      ensures moves == Generated(board, rows, cols, player)
    {
      ghost var t := RowBlocks(board, rows, cols, player);
      moves := [];
      for r := 0 to rows
        invariant moves == Flat(t[..r])
      {
        moves := ScanRow(player, r, moves);
        FlatStep(t, r);
      }
      assert t[..rows] == t;
    }

    /** The column loop of `generate_moves` for row r. */
    method ScanRow(player: Player, r: nat, acc: seq<Move>) returns (moves: seq<Move>)
      requires Valid() && r < rows
      ensures moves == acc + Flat(CellBlocks(board, rows, cols, player, r))
    {
      ghost var cells := CellBlocks(board, rows, cols, player, r);
      moves := acc;
      for c := 0 to cols
        invariant moves == acc + Flat(cells[..c])
      {
        moves := ScanPiece(player, r, c, moves);
        Associative(acc, Flat(cells[..c]), cells[c]);
        FlatStep(cells, c);
      }
      assert cells[..cols] == cells;
    }

    /** The loop body for the cell (r, c): collect `possible_moves`, then
        append each of them with the source cell. */
    method ScanPiece(player: Player, r: nat, c: nat, acc: seq<Move>) returns (moves: seq<Move>)
      requires Valid() && r < rows && c < cols
      ensures moves == acc + Attach(Pos(r, c), Targets(board, rows, cols, player, r, c))
    {
      moves := acc;
      if board[r][c] == player {
        var possible := PossibleTargets(player, r, c);
        moves := AppendAll(Pos(r, c), possible, acc);
      }
    }

    /** The three checks of the piece on (r, c): forward into '.', then the
        left and the right capture. */
    method PossibleTargets(player: Player, r: nat, c: nat) returns (possible: seq<Pos>)
      requires Valid() && r < rows && c < cols && board[r][c] == player
      ensures possible == Targets(board, rows, cols, player, r, c)
    {
      var direction := if player == O then -1 else 1;
      var b := board;
      ghost var f, lt, rt := ForwardTarget(b, rows, cols, player, r, c), LeftTarget(b, rows, cols, player, r, c),
        RightTarget(b, rows, cols, player, r, c);
      possible := [];
      if 0 <= r + direction < rows && b[r + direction][c] == Empty {
        possible := possible + [Pos(r + direction, c)];
      }
      assert possible == f;
      if 0 <= r + direction < rows && 0 <= c - 1 && b[r + direction][c - 1] != player
        && b[r + direction][c - 1] != Empty {
        possible := possible + [Pos(r + direction, c - 1)];
      }
      assert possible == f + lt;
      if 0 <= r + direction < rows && c + 1 < cols && b[r + direction][c + 1] != player
        && b[r + direction][c + 1] != Empty {
        possible := possible + [Pos(r + direction, c + 1)];
      }
      assert possible == f + lt + rt;
    }

    /** `for move in possible_moves: moves.append(((r, c), move))`. */
    static method AppendAll(src: Pos, possible: seq<Pos>, acc: seq<Move>) returns (moves: seq<Move>)
      ensures moves == acc + Attach(src, possible)
    {
      moves := acc;
      for k := 0 to |possible|
        invariant moves == acc + Attach(src, possible[..k])
      {
        assert Attach(src, possible[..k + 1]) == Attach(src, possible[..k]) + [Part2A.Move(src, possible[k])];
        moves := moves + [Part2A.Move(src, possible[k])];
      }
      assert possible[..|possible|] == possible;
    }

    /** `transition(move)`: on a row-by-row copy, the destination takes the
        source's content and the source becomes '.'; the object's own board
        is left as it was. */
    method Transition(move: Move) returns (newBoard: Board)
      requires Valid()
      requires move.src.row < rows && move.src.col < cols && move.dst.row < rows && move.dst.col < cols
      ensures MovedFrom(board, rows, cols, move, newBoard)
    {
      var sr, sc, er, ec := move.src.row, move.src.col, move.dst.row, move.dst.col;
      newBoard := board;
      newBoard := newBoard[er := newBoard[er][ec := newBoard[sr][sc]]];
      newBoard := newBoard[sr := newBoard[sr][sc := Empty]];
    }
  }
}
