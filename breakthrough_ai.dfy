/** The Part 2-A Breakthrough engine, `Labs/PartB/Part2/Part2-A/breakthrough_ai.py`:
    moves as `(start_row, start_col, end_row, end_col)` tuples, `apply_move`,
    `is_terminal`, the rules handed to the search of `MoveSearch`, and the
    game loop. 'X' starts and moves down, 'O' moves up. Its `initial_state`
    and `heuristic_evasive` are the same code as Part 2-B's, modelled by
    `BreakthroughAi2.InitialState` and `BreakthroughAi2.Evasive`. */
module BreakthroughAi {
  import opened Options
  import opened Grid
  import opened Scores
  import opened Ordering
  import opened MoveSearch
  import opened BreakthroughAi2
  import Search2B = BreakthroughAi2Search

  // ---------------------------------------------------------------------
  // get_possible_moves
  // ---------------------------------------------------------------------

  /** `(start_row, start_col, end_row, end_col)`: the mover is not part of it. */
  datatype Move = Move(src: Pos, dst: Pos)

  /** The straight step of the piece on (r, c) to row newR, if that cell is '.'. */
  function StraightMove(s: Board, p: Player, r: nat, c: nat, newR: nat): seq<Move>
    requires IsBoard(s) && r < |s| && c < |s[0]| && newR < |s|
  {
    if s[newR][c] == Empty then [Move(Pos(r, c), Pos(newR, c))] else []
  }

  /** The diagonal step of the piece on (r, c) to (newR, newC), if that cell
      is on the board and holds '.' or an opponent piece. */
  function DiagonalMove(s: Board, p: Player, r: nat, c: nat, newR: nat, newC: int): seq<Move>
    requires IsBoard(s) && r < |s| && c < |s[0]| && newR < |s|
  {
    if 0 <= newC < |s[0]| && (s[newR][newC] == Empty || s[newR][newC] == Opponent(p))
    then [Move(Pos(r, c), Pos(newR, newC))] else []
  }

  /** The moves the loop body appends for the cell (r, c): if it holds the
      player's piece and the next row forward is on the board, the straight
      step, then the left and the right diagonal step. */
  function CellMoves(s: Board, p: Player, r: nat, c: nat): seq<Move>
    requires IsBoard(s) && r < |s| && c < |s[0]|
  {
    var newR := r + Forward(p);
    if s[r][c] != p || !(0 <= newR < |s|) then []
    else StraightMove(s, p, r, c, newR) + DiagonalMove(s, p, r, c, newR, c - 1) + DiagonalMove(s, p, r, c, newR, c + 1)
  }

  /** Row r as blocks: block c holds the moves of the cell (r, c). */
  function MoveCells(s: Board, p: Player, r: nat): (row: seq<seq<Move>>)
    requires IsBoard(s) && r < |s|
    ensures |row| == |s[0]|
    ensures forall c | 0 <= c < |row| :: row[c] == CellMoves(s, p, r, c)
  {
    seq(|s[0]|, c requires 0 <= c < |s[0]| => CellMoves(s, p, r, c))
  }

  /** The board as blocks: block r holds the moves of row r in column order. */
  function MoveRows(s: Board, p: Player): (rows: seq<seq<Move>>)
    requires IsBoard(s)
    ensures |rows| == |s|
    ensures forall r | 0 <= r < |rows| :: rows[r] == Flat(MoveCells(s, p, r))
  {
    seq(|s|, r requires 0 <= r < |s| => Flat(MoveCells(s, p, r)))
  }

  /** The list `get_possible_moves(state, player)` returns: row-major over
      the cells. */
  function PossibleMoves(s: Board, p: Player): seq<Move>
    requires IsBoard(s)
  {
    Flat(MoveRows(s, p))
  }

  /** `get_possible_moves(state, player)`: nested loops over rows and columns. */
  method GetPossibleMoves(s: Board, p: Player) returns (moves: seq<Move>)
    requires IsBoard(s)
    ensures moves == PossibleMoves(s, p)
  {
    ghost var table := MoveRows(s, p);
    moves := [];
    var rows := |s|;
    var r := 0;
    while r < rows
      invariant r <= rows
      invariant moves == Flat(table[..r])
    {
      moves := ScanRow(s, p, r, moves);
      FlatStep(table, r);
      r := r + 1;
    }
    assert table[..r] == table;
  }

  /** The column loop of `get_possible_moves` for row r. */
  method ScanRow(s: Board, p: Player, r: nat, acc: seq<Move>) returns (moves: seq<Move>)
    requires IsBoard(s) && r < |s|
    ensures moves == acc + Flat(MoveCells(s, p, r))
  {
    ghost var cells := MoveCells(s, p, r);
    moves := acc;
    var cols := |s[0]|;
    var c := 0;
    while c < cols
      invariant c <= cols
      invariant moves == acc + Flat(cells[..c])
    {
      moves := ScanCell(s, p, r, c, moves);
      Associative(acc, Flat(cells[..c]), cells[c]);
      FlatStep(cells, c);
      c := c + 1;
    }
    assert cells[..c] == cells;
  }

  /** The loop body of `get_possible_moves` for the cell (r, c): the
      straight, left-diagonal and right-diagonal checks, each with its own
      bounds test. */
  method ScanCell(s: Board, p: Player, r: nat, c: nat, acc: seq<Move>) returns (moves: seq<Move>)
    requires IsBoard(s) && r < |s| && c < |s[0]|
    ensures moves == acc + CellMoves(s, p, r, c)
  {
    moves := acc;
    var rows, cols := |s|, |s[0]|;
    var dr := if p == X then 1 else -1;
    if s[r][c] == p {
      var newR := r + dr;
      if 0 <= newR < rows {
        if s[newR][c] == Empty {
          moves := moves + [Move(Pos(r, c), Pos(newR, c))];
        }
      }
      ghost var straight := moves;
      var newC := c - 1;
      if 0 <= newR < rows && 0 <= newC < cols {
        if s[newR][newC] == Empty || s[newR][newC] == Opponent(p) {
          moves := moves + [Move(Pos(r, c), Pos(newR, newC))];
        }
      }
      ghost var left := moves;
      newC := c + 1;
      if 0 <= newR < rows && 0 <= newC < cols {
        if s[newR][newC] == Empty || s[newR][newC] == Opponent(p) {
          moves := moves + [Move(Pos(r, c), Pos(newR, newC))];
        }
      }
      if 0 <= newR < rows {
        var sm, dl, dr := StraightMove(s, p, r, c, newR), DiagonalMove(s, p, r, c, newR, c - 1), DiagonalMove(s, p, r, c, newR, c + 1);
        assert straight == acc + sm;
        assert left == straight + dl;
        assert moves == left + dr;
        AppendThree(acc, sm, dl, dr);
      }
    }
  }

  lemma AppendThree<T>(acc: seq<T>, a: seq<T>, b: seq<T>, d: seq<T>)
    ensures acc + a + b + d == acc + (a + b + d)
  {
  }

  // ---------------------------------------------------------------------
  // The same moves as Part 2-B's move_generator
  // ---------------------------------------------------------------------

  /** A Part 2-B action without its player: the Part 2-A tuple. */
  function Strip(a: Action): Move
  {
    Move(a.src, a.dst)
  }

  function StripAll(ms: seq<Action>): (r: seq<Move>)
    ensures |r| == |ms|
  {
    seq(|ms|, i requires 0 <= i < |ms| => Strip(ms[i]))
  }

  lemma StripAllAppend(x: seq<Action>, y: seq<Action>)
    ensures StripAll(x + y) == StripAll(x) + StripAll(y)
  {
    assert forall i | 0 <= i < |x| + |y| :: StripAll(x + y)[i] == (StripAll(x) + StripAll(y))[i];
  }

  lemma StripStraight(s: Board, p: Player, r: nat, c: nat, newR: nat)
    requires IsBoard(s) && r < |s| && c < |s[0]| && newR == r + Forward(p) < |s|
    ensures StripAll(Straight(p, s, r, c)) == StraightMove(s, p, r, c, newR)
  {
  }

  lemma StripDiagonal(s: Board, p: Player, r: nat, c: nat, dc: int, newR: nat, newC: int)
    requires IsBoard(s) && r < |s| && c < |s[0]| && newR == r + Forward(p) < |s| && newC == c + dc
    ensures StripAll(Diagonal(p, s, r, c, dc)) == DiagonalMove(s, p, r, c, newR, newC)
  {
  }

  lemma StripThree(st: seq<Action>, dl: seq<Action>, dr: seq<Action>)
    ensures StripAll(st + (dl + dr)) == StripAll(st) + StripAll(dl) + StripAll(dr)
  {
    StripAllAppend(dl, dr);
    StripAllAppend(st, dl + dr);
    Associative(StripAll(st), StripAll(dl), StripAll(dr));
  }

  /** The cell's Part 2-B moves in their three parts. */
  lemma PieceMovesParts(s: Board, p: Player, r: nat, c: nat)
    requires IsBoard(s) && r < |s| && c < |s[0]| && s[r][c] == p && 0 <= r + Forward(p) < |s|
    ensures PieceMoves(p, s, r, c) == Straight(p, s, r, c) + (Diagonal(p, s, r, c, -1) + Diagonal(p, s, r, c, 1))
  {
  }

  /** The cell's Part 2-A moves in their three parts. */
  lemma CellMovesParts(s: Board, p: Player, r: nat, c: nat, newR: nat)
    requires IsBoard(s) && r < |s| && c < |s[0]| && s[r][c] == p && newR == r + Forward(p) < |s|
    ensures CellMoves(s, p, r, c)
      == StraightMove(s, p, r, c, newR) + DiagonalMove(s, p, r, c, newR, c - 1) + DiagonalMove(s, p, r, c, newR, c + 1)
  {
  }

  /** Three parts that agree one by one give wholes that agree. */
  lemma StripParts(whole: seq<Move>, sm: seq<Move>, ml: seq<Move>, mr: seq<Move>,
                   all: seq<Action>, st: seq<Action>, dl: seq<Action>, dr: seq<Action>)
    requires whole == sm + ml + mr && all == st + (dl + dr)
    requires StripAll(st) == sm && StripAll(dl) == ml && StripAll(dr) == mr
    ensures whole == StripAll(all)
  {
    StripThree(st, dl, dr);
  }

  /** A cell whose piece can step forward: both variants list the same
      three parts. */
  lemma MovingCellAgrees(s: Board, p: Player, r: nat, c: nat)
    requires IsBoard(s) && r < |s| && c < |s[0]| && s[r][c] == p && 0 <= r + Forward(p) < |s|
    ensures CellMoves(s, p, r, c) == StripAll(PieceMoves(p, s, r, c))
  {
    var newR := r + Forward(p);
    PieceMovesParts(s, p, r, c);
    CellMovesParts(s, p, r, c, newR);
    StripStraight(s, p, r, c, newR);
    StripDiagonal(s, p, r, c, -1, newR, c - 1);
    StripDiagonal(s, p, r, c, 1, newR, c + 1);
    var sm, ml, mr := StraightMove(s, p, r, c, newR), DiagonalMove(s, p, r, c, newR, c - 1), DiagonalMove(s, p, r, c, newR, c + 1);
    var st, dl, dr := Straight(p, s, r, c), Diagonal(p, s, r, c, -1), Diagonal(p, s, r, c, 1);
    StripParts(CellMoves(s, p, r, c), sm, ml, mr, PieceMoves(p, s, r, c), st, dl, dr);
  }

  /** Cell by cell, Part 2-A lists the moves Part 2-B lists, in the same order. */
  lemma CellMovesAgree(s: Board, p: Player, r: nat, c: nat)
    requires IsBoard(s) && r < |s| && c < |s[0]|
    ensures CellMoves(s, p, r, c) == StripAll(PieceMoves(p, s, r, c))
  {
    if s[r][c] == p && 0 <= r + Forward(p) < |s| {
      MovingCellAgrees(s, p, r, c);
    }
  }

  lemma {:induction false} RowAgree(s: Board, p: Player, r: nat, c: nat)
    requires IsBoard(s) && r < |s| && c <= |s[0]|
    ensures Flat(MoveCells(s, p, r)[..c]) == StripAll(Flat(CellTable(p, s, r)[..c]))
  {
    if c > 0 {
      RowAgree(s, p, r, c - 1);
      FlatStep(MoveCells(s, p, r), c - 1);
      FlatStep(CellTable(p, s, r), c - 1);
      CellMovesAgree(s, p, r, c - 1);
      StripAllAppend(Flat(CellTable(p, s, r)[..c - 1]), PieceMoves(p, s, r, c - 1));
    }
  }

  lemma {:induction false} BoardAgree(s: Board, p: Player, k: nat)
    requires IsBoard(s) && k <= |s|
    ensures Flat(MoveRows(s, p)[..k]) == StripAll(Flat(RowTable(p, s)[..k]))
  {
    if k > 0 {
      var r := k - 1;
      BoardAgree(s, p, r);
      FlatStep(MoveRows(s, p), r);
      FlatStep(RowTable(p, s), r);
      RowAgree(s, p, r, |s[0]|);
      assert MoveCells(s, p, r)[..|s[0]|] == MoveCells(s, p, r);
      assert CellTable(p, s, r)[..|s[0]|] == CellTable(p, s, r);
      StripAllAppend(Flat(RowTable(p, s)[..r]), Flat(CellTable(p, s, r)));
    }
  }

  /** `get_possible_moves` of Part 2-A is Part 2-B's `move_generator` with the
      player dropped from each action: same moves, same order. */
  lemma SameMovesAsPart2B(s: Board, p: Player)
    requires IsBoard(s)
    ensures PossibleMoves(s, p) == StripAll(Moves(p, s))
  {
    BoardAgree(s, p, |s|);
    assert MoveRows(s, p)[..|s|] == MoveRows(s, p);
    assert RowTable(p, s)[..|s|] == RowTable(p, s);
  }

  /** A tuple is generated exactly when it is a legal move of the player:
      from one of its pieces, one row forward (down for 'X', up for 'O'),
      straight into '.' or diagonally into '.' or an opponent piece. */
  lemma PossibleMovesMeaning(s: Board, p: Player, m: Move)
    requires IsBoard(s)
    ensures m in PossibleMoves(s, p) <==> Legal(p, s, Action(p, m.src, m.dst))
  {
    SameMovesAsPart2B(s, p);
    var ms := Moves(p, s);
    var a := Action(p, m.src, m.dst);
    MovesComplete(p, s, a);
    if m in StripAll(ms) {
      var i :| 0 <= i < |ms| && StripAll(ms)[i] == m;
      assert ms[i] in ms;
      assert ms[i] == a;
    }
    if a in ms {
      var i :| 0 <= i < |ms| && ms[i] == a;
      assert StripAll(ms)[i] == m;
    }
  }

  // ---------------------------------------------------------------------
  // apply_move
  // ---------------------------------------------------------------------

  /** `apply_move(state, move, player)`: on a deep copy, the destination
      becomes the player, then the source becomes '.'. */
  function ApplyMove(s: Board, m: Move, p: Player): (r: Board)
    requires IsBoard(s) && InBounds(s, m.src) && InBounds(s, m.dst)
    ensures IsBoard(r) && SameShape(r, s)
    ensures At(r, m.src) == Empty
    ensures m.src != m.dst ==> At(r, m.dst) == p
    ensures forall q | InBounds(s, q) && q != m.src && q != m.dst :: At(r, q) == At(s, q)
  {
    Put(Put(s, m.dst, p), m.src, Empty)
  }

  /** For a move between two different cells, `apply_move` builds the board
      Part 2-B's `transition` builds; on a move from a cell to itself the two
      differ (the cell ends up '.' here, the mover there). Generated moves
      always change cells. */
  lemma ApplyMoveIsTransition(s: Board, m: Move, p: Player)
    requires IsBoard(s) && InBounds(s, m.src) && InBounds(s, m.dst)
    ensures m.src != m.dst <==> ApplyMove(s, m, p) == Transition(s, Action(p, m.src, m.dst))
  {
    var r, t := ApplyMove(s, m, p), Transition(s, Action(p, m.src, m.dst));
    if m.src != m.dst {
      forall i | 0 <= i < |s| ensures r[i] == t[i] {
        forall j | 0 <= j < |s[0]| ensures r[i][j] == t[i][j] {
          assert At(r, Pos(i, j)) == At(t, Pos(i, j));
        }
      }
    } else {
      assert At(r, m.src) != At(t, m.src);
    }
  }

  // ---------------------------------------------------------------------
  // is_terminal
  // ---------------------------------------------------------------------

  /** `is_terminal(state)`: 'X' on the last row, then 'O' on row 0, then no
      'X' left ('O' wins), then no 'O' left ('X' wins). It never reports a
      finished game without a winner. */
  function IsTerminal(s: Board): Status
    requires IsBoard(s)
  {
    if X in s[|s| - 1] then Won(X)
    else if O in s[0] then Won(O)
    else if Count(s, X) == 0 then Won(O)
    else if Count(s, O) == 0 then Won(X)
    else Ongoing
  }

  /** `is_terminal` and Part 2-B's `terminal_test` agree except when both
      goal rows are reached ('X' wins here, 'O' there) or the board holds no
      piece at all ('O' wins here, 'X' there). */
  lemma TerminalTestsDiffer(s: Board)
    requires IsBoard(s)
    ensures IsTerminal(s) != TerminalTest(s) <==>
      (O in s[0] && X in s[|s| - 1]) || (Count(s, O) == 0 && Count(s, X) == 0)
  {
    CountZero(s, O);
    CountZero(s, X);
    if Count(s, O) == 0 && Count(s, X) == 0 {
      assert O !in s[0];
      assert X !in s[|s| - 1];
    }
  }

  /** The winner `is_terminal` names, if the game is over. */
  function Winner(s: State): Option<Player>
  {
    if IsTerminal(s).Won? then Some(IsTerminal(s).winner) else None
  }

  // ---------------------------------------------------------------------
  // minimax on Breakthrough
  // ---------------------------------------------------------------------

  /** `apply_move` on moves that name two cells of the board; any other move
      leaves the position as it is (the generator never yields one). */
  function Apply(s: State, m: Move, p: Player): (r: State)
  {
    if InBounds(s, m.src) && InBounds(s, m.dst) then ApplyMove(s, m, p) else s
  }

  /** The rules the Part 2-A `minimax` runs on: `get_possible_moves`,
      `apply_move` and `is_terminal`. */
  const Engine: Game<State, Move> := Game((s: State, p: Player) => PossibleMoves(s, p), Apply, Winner)

  /** On a game in progress, with depth at least 1 and a move to play,
      `minimax` returns a move, and it is legal for the side to move. */
  lemma MinimaxMoveIsLegal(s: State, depth: nat, current: Player, maxPlayer: Player, h: Heuristic<State>)
    requires IsTerminal(s) == Ongoing && depth >= 1 && PossibleMoves(s, current) != []
    ensures var r := Minimax(Engine, s, depth, current, maxPlayer, h);
      r.move.Some? && r.move.value in PossibleMoves(s, current)
      && Legal(current, s, Action(current, r.move.value.src, r.move.value.dst))
  {
    MinimaxChoice(Engine, s, depth, current, maxPlayer, h);
    var m := Minimax(Engine, s, depth, current, maxPlayer, h).move.value;
    PossibleMovesMeaning(s, current, m);
  }

  /** With depth at least 1 on a game in progress, `minimax` returns no move
      exactly when the side to move has none. */
  lemma NoMoveMeansStuck(s: State, depth: nat, current: Player, maxPlayer: Player, h: Heuristic<State>)
    requires IsTerminal(s) == Ongoing && depth >= 1
    ensures Minimax(Engine, s, depth, current, maxPlayer, h).move.None? <==> PossibleMoves(s, current) == []
  {
    if PossibleMoves(s, current) != [] {
      MinimaxMoveIsLegal(s, depth, current, maxPlayer, h);
    }
  }

  // ---------------------------------------------------------------------
  // play_game
  // ---------------------------------------------------------------------

  /** The side to move after n moves: white ('X') starts, then the turn
      alternates. */
  function Mover(n: nat): Player
  {
    if n == 0 then X else Opponent(Mover(n - 1))
  }

  /** What `play_game` prints at the end: the winner (none when a side has no
      move), the number of moves, the capture counts and the final board. */
  datatype Summary = Summary(winner: Option<Player>, moves: nat, captures: map<Player, nat>, final: State)

  /** One turn: count the capture, if the destination holds an opponent
      piece, then apply the move. */
  method PlayTurn(start: Board, state: State, captures: map<Player, nat>, n: nat, p: Player, m: Move)
    returns (captures': map<Player, nat>, state': State)
    requires Search2B.GameInvariant(start, state, captures, n)
    requires Legal(p, state, Action(p, m.src, m.dst))
    ensures captures' == Search2B.Record(captures, p, state, Action(p, m.src, m.dst))
    ensures state' == ApplyMove(state, m, p)
    ensures Search2B.GameInvariant(start, state', captures', n + 1)
    ensures 0 <= Search2B.Distance(state') < Search2B.Distance(state)
  {
    var a := Action(p, m.src, m.dst);
    Search2B.TurnKeepsInvariant(start, state, captures, n, p, a);
    ApplyMoveIsTransition(state, m, p);
    captures' := captures;
    if state[m.dst.row][m.dst.col] != Empty && state[m.dst.row][m.dst.col] == Opponent(p) {
      captures' := captures[p := captures[p] + 1];
    }
    state' := ApplyMove(state, m, p);
  }

  /** `play_game(heuristic_white, heuristic_black, board_state, depth)`: until
      `is_terminal` fires, the side to move plays the move of
      `minimax(state, depth, current, current, heuristic)`, counting
      captures; the game stops without a winner when no move comes back. */
  method PlayGame(white: Heuristic<State>, black: Heuristic<State>, start: State, depth: nat) returns (result: Summary)
    ensures Search2B.GameInvariant(start, result.final, result.captures, result.moves)
    ensures IsTerminal(result.final).Won? ==> result.winner == Some(IsTerminal(result.final).winner)
    ensures IsTerminal(result.final) == Ongoing ==>
      result.winner == None && (depth >= 1 ==> PossibleMoves(result.final, Mover(result.moves)) == [])
  {
    var state: State := start;
    var current: Player := X;
    var moveCount := 0;
    var captures: map<Player, nat> := map[X := 0, O := 0];
    while true
      invariant Search2B.GameInvariant(start, state, captures, moveCount)
      invariant current == Mover(moveCount)
      decreases Search2B.Distance(state)
    {
      var status := IsTerminal(state);
      if status.Won? {
        return Summary(Some(status.winner), moveCount, captures, state);
      }
      var heuristic := if current == X then white else black;
      var _, move := MinimaxSearch(Engine, state, depth, current, current, heuristic);
      if move.None? {
        if depth >= 1 {
          NoMoveMeansStuck(state, depth, current, current, heuristic);
        }
        return Summary(None, moveCount, captures, state);
      }
      if depth == 0 {
        assert false;
      }
      MinimaxMoveIsLegal(state, depth, current, current, heuristic);
      captures, state := PlayTurn(start, state, captures, moveCount, current, move.value);
      moveCount := moveCount + 1;
      current := Opponent(current);
    }
  }
}
