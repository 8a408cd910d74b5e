/** The Part 2-B engine's search on Breakthrough: the rules handed to
    `GameSearch`, and the game loop of
    `Labs/PartB/Part2/Part2-B/breakthrough_ai2.py`. */
module BreakthroughAi2Search {
  import opened Options
  import opened Grid
  import opened Scores
  import opened GameSearch
  import opened BreakthroughAi2

  /** `transition(state, move)` on moves that name two cells of the board;
      any other move leaves the position as it is (the generator never
      yields one, see MovesFollowRules). */
  function Next(b: State, a: Action): (r: State)
  {
    if InBounds(b, a.src) && InBounds(b, a.dst) then Transition(b, a) else b
  }

  /** The game is over when the terminal test names a winner. */
  predicate Over(b: State)
  {
    TerminalTest(b).Won?
  }

  /** The rules the search of `minimax` and `best_move` runs on:
      `move_generator`, `transition` and `terminal_test`. */
  const Breakthrough: Rules<State, Action> := Rules((p: Player, b: State) => Moves(p, b), Next, Over)

  /** Every move the search plays is legal for the side to move, and the
      search's position after it is the one `transition` builds. */
  lemma MovesFollowRules(p: Player, b: State, a: Action)
    requires a in Breakthrough.moves(p, b)
    ensures Legal(p, b, a)
    ensures Breakthrough.next(b, a) == Transition(b, a)
  {
  }

  /** A move `best_move` returns is legal for the player. */
  lemma BestActionLegal(b: State, player: Player, depth: nat, h: Heuristic<State>)
    requires depth >= 1 && BestAction(Breakthrough, b, player, depth, h).Some?
    ensures Legal(player, b, BestAction(Breakthrough, b, player, depth, h).value)
  {
    BestActionMeaning(Breakthrough, b, player, depth, h);
    var vals := RootValues(Breakthrough, b, player, depth, h);
    var k :| 0 <= k < |vals| && BestAction(Breakthrough, b, player, depth, h).value == Breakthrough.moves(player, b)[k];
    MovesFollowRules(player, b, Breakthrough.moves(player, b)[k]);
  }

  // ---------------------------------------------------------------------
  // play_game
  // ---------------------------------------------------------------------

  /** The distance of a piece to its goal row: r for 'O', rows - 1 - r for 'X'. */
  function DistanceWeight(rows: nat): (Cell, nat) -> int
  {
    (c: Cell, r: nat) => if c == O then r else if c == X then rows - 1 - r else 0
  }

  /** The total distance of all pieces to their goal rows. */
  function Distance(b: Board): int
  {
    BoardSum(b, DistanceWeight(|b|))
  }

  lemma DistanceNonnegative(b: Board)
    ensures Distance(b) >= 0
  {
    BoardSumNonnegative(b, DistanceWeight(|b|));
  }

  /** A legal move brings the mover's piece one row closer to its goal and
      removes the captured piece's distance, if any: every game ends. */
  lemma DistanceAfterMove(p: Player, b: Board, a: Action)
    requires IsBoard(b) && Legal(p, b, a)
    ensures Distance(Transition(b, a))
         == Distance(b) - 1 - DistanceWeight(|b|)(At(b, a.dst), a.dst.row)
  {
    var b1 := Put(b, a.src, Empty);
    var w := DistanceWeight(|b|);
    BoardSumPut(b, w, a.src.row, a.src.col, Empty);
    assert b1[a.dst.row][a.dst.col] == b[a.dst.row][a.dst.col];
    BoardSumPut(b1, w, a.dst.row, a.dst.col, p);
  }

  /** The dictionary `play_game` returns. */
  datatype MatchResult = MatchResult(winner: Player, moves: nat, captures: map<Player, nat>, final: State)

  /** The side to move after n moves: white ('O') moves first, then the
      turn alternates. */
  function ToMove(n: nat): Player
  {
    if n == 0 then O else Opponent(ToMove(n - 1))
  }

  /** The capture counts after n moves from `start` to `state`: each side has
      captured exactly the opposing pieces that are gone, and there is at most
      one capture per move. */
  predicate CapturesAgree(start: Board, state: Board, captures: map<Player, nat>, n: nat)
  {
    && captures.Keys == {O, X}
    && captures[O] == Count(start, X) - Count(state, X)
    && captures[X] == Count(start, O) - Count(state, O)
    && captures[O] + captures[X] <= n
  }

  /** The bookkeeping of one move: the mover's count goes up exactly on a capture. */
  function Record(captures: map<Player, nat>, p: Player, b: Board, a: Action): map<Player, nat>
    requires IsBoard(b) && InBounds(b, a.dst) && p in captures
  {
    if At(b, a.dst) == Opponent(p) then captures[p := captures[p] + 1] else captures
  }

  /** What `play_game` keeps true from turn to turn. */
  predicate GameInvariant(start: Board, state: Board, captures: map<Player, nat>, n: nat)
  {
    IsBoard(state) && SameShape(state, start) && CapturesAgree(start, state, captures, n)
  }

  /** A legal move of any side keeps the bookkeeping right and brings
      the game closer to its end. */
  lemma TurnKeepsInvariant(start: Board, b: Board, captures: map<Player, nat>, n: nat, p: Player, a: Action)
    requires GameInvariant(start, b, captures, n) && Legal(p, b, a)
    ensures GameInvariant(start, Transition(b, a), Record(captures, p, b, a), n + 1)
    ensures 0 <= Distance(Transition(b, a)) < Distance(b)
  {
    TransitionCounts(p, b, a);
    DistanceAfterMove(p, b, a);
    DistanceNonnegative(Transition(b, a));
  }

  /** One turn of `play_game`: count the capture, if the destination holds
      an opponent piece, then play the move. */
  method PlayTurn(start: Board, state: State, captures: map<Player, nat>, n: nat, a: Action)
    returns (captures': map<Player, nat>, state': State)
    requires GameInvariant(start, state, captures, n) && Legal(ToMove(n), state, a)
    ensures captures' == Record(captures, ToMove(n), state, a)
    ensures state' == Transition(state, a)
    ensures GameInvariant(start, state', captures', n + 1)
    ensures 0 <= Distance(state') < Distance(state)
  {
    TurnKeepsInvariant(start, state, captures, n, ToMove(n), a);
    var current := ToMove(n);
    captures' := captures;
    if state[a.dst.row][a.dst.col] == Opponent(current) {
      captures' := captures[current := captures[current] + 1];
    }
    state' := Transition(state, a);
  }

  /** How a game ends: the terminal test's winner, or else the opponent of
      the side to move, which has no best move. */
  predicate Outcome(result: MatchResult, depth: nat, white: Heuristic<State>, black: Heuristic<State>)
    requires depth >= 1
  {
    var mover := ToMove(result.moves);
    match TerminalTest(result.final)
    case Won(w) => result.winner == w
    case Ongoing =>
      result.winner == Opponent(mover)
      && BestAction(Breakthrough, result.final, mover, depth, if mover == O then white else black).None?
  }

  /** `play_game(heuristic_white, heuristic_black, board_state, depth)`: until
      the terminal test fires, the side to move plays its best move, counting
      captures; a side without a best move loses. */
  method PlayGame(white: Heuristic<State>, black: Heuristic<State>, start: State, depth: nat) returns (result: MatchResult)
    requires depth >= 1
    ensures GameInvariant(start, result.final, result.captures, result.moves)
    ensures Outcome(result, depth, white, black)
  {
    var state: State := start;
    var moveCount := 0;
    var captures: map<Player, nat> := map[O := 0, X := 0];
    var current: Player := O;
    while true
      invariant GameInvariant(start, state, captures, moveCount)
      invariant current == ToMove(moveCount)
      decreases Distance(state)
    {
      var status := TerminalTest(state);
      if status.Won? {
        return MatchResult(status.winner, moveCount, captures, state);
      }
      var heuristic := if current == O then white else black;
      var move := BestMove(Breakthrough, state, current, depth, heuristic);
      if move.None? {
        return MatchResult(Opponent(current), moveCount, captures, state);
      }
      var a := move.value;
      BestActionLegal(state, current, depth, heuristic);
      captures, state := PlayTurn(start, state, captures, moveCount, a);
      moveCount := moveCount + 1;
      current := Opponent(current);
    }
  }
}
