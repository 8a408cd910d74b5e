# CS365 search and learning labs, modelled in Dafny

This project models the core of the CS365 course repository and proves properties of the model.

- **Breakthrough.** This is the board game on a grid, with 'X' pieces moving down and 'O' pieces moving up. The repository has three variants:
  - the Part 1 `Breakthrough` class;
  - the Part 2-A engine, with tuple moves and a minimax that returns its move;
  - the Part 2-B engine, with four heuristics, `minimax` / `best_move` and a game loop.
- **Maze searches (Part A).**
  - Part 1: the maze world (`State`, `Maze.move_agent`, `goal_test`).
  - Part 2: depth-first search on a class with a stack.
  - Part 3: breadth-first, greedy best-first and A* search for one prize.
  - Part 4: A* chained over several prizes, with the prizes numbered in the order they are reached.
- **ID3 decision tree (Part C).** This covers building the tree, prediction, node counting, accuracy and leave-one-out cross validation.

Modules and files:

| module | file | models |
|---|---|---|
| `Options` | options.dfy | `Option` (Python's `None`) |
| `Sets` | sets.dfy | a subset of a finite set is no larger |
| `Grid` | grid.dfy | cells, players, boards, piece counts and weighted sums |
| `Scores` | scores.dfy | ±∞ scores, the tie-break value in [0, 1), Python's `max` / `min`, and the first-max / first-min folds of the search loops |
| `Ordering` | ordering.dfy | lists built block by block by nested loops |
| `BreakthroughAi2` | breakthrough_ai2.dfy | Part 2-B rules and heuristics |
| `GameSearch` | game_search.dfy | Part 2-B `minimax` and `best_move`, for any rules |
| `BreakthroughAi2Search` | breakthrough_ai2_search.dfy | Part 2-B search instance and `play_game` |
| `MoveSearch` | move_search.dfy | Part 2-A `minimax`, which returns value and move |
| `BreakthroughAi` | breakthrough_ai.dfy | Part 2-A rules and `play_game` |
| `BreakthroughClass` | breakthrough_class.dfy | the Part 1 class |
| `MazeWorld` | maze_world.dfy | Part A 1 |
| `MazeDfs` | maze_dfs.dfy | Part A 2 |
| `GridSearch` | grid_search.dfy | shared maze pieces: Manhattan distance, neighbours, walks, `reconstruct_path`, `mark_path`, `heappop` |
| `SingleSearchers` | single_searchers.dfy | Part A 3 BFS and GBFS |
| `Astar` | astar.dfy | Part A 3 A* |
| `MultiPrize` | multi_prize.dfy | Part A 4 |
| `DecisionTree` | decision_tree.dfy | Part C 2 |

How the model is shaped:

- Code that mutates works step by step, and its model does the same.
  - The classes (`Breakthrough`, both `Maze` classes) are Dafny classes whose methods have `modifies` clauses.
  - The loops (move generators, heuristics, minimax loops, the searches, the game loops, accuracy and cross validation) are methods with loop invariants.
  - Each such method is proved against a specification function or predicate.
- Code that only computes is modelled as functions with lemmas about them: the rules, `predict`, `build_tree` and `count_nodes`.

## Model

| member | source | states |
|---|---|---|
| Grid.Opponent | Labs/PartB/Part2/Part2-B/breakthrough_ai2.py:63-67 | the opponent of a player is the other player |
| Grid.OpponentInvolutive | Labs/PartB/Part2/Part2-A/breakthrough_ai.py:32-34 | the opponent of the opponent is the player again |
| Grid.Put | Labs/PartB/Part2/Part2-B/breakthrough_ai2.py:102-111 | writing a cell on a copy of the board keeps the board's shape, sets that cell and leaves every other cell |
| Grid.BoardSumPut | Labs/PartB/Part2/Part2-B/breakthrough_ai2.py:146-156 | changing one cell changes a weighted sum over the board by exactly that cell's old and new weights |
| Grid.BoardSumNonnegative | Labs/PartB/Part2/Part2-B/breakthrough_ai2.py:173-183 | a sum of advancement weights that are non-negative on the board is non-negative |
| Grid.CountPut | Labs/PartB/Part2/Part2-B/breakthrough_ai2.py:117-130 | writing a symbol over a cell changes each piece count by what left the cell and what came into it |
| Grid.CountZero | Labs/PartB/Part2/Part2-B/breakthrough_ai2.py:35-61 | a piece count is zero exactly when the symbol occurs nowhere on the board |
| Scores.BelowIsStrictTotal | Labs/PartB/Part2/Part2-B/breakthrough_ai2.py:199-213 | the order on scores (integer part, then tie-break) is irreflexive, transitive and total |
| Scores.Max | Labs/PartB/Part2/Part2-B/breakthrough_ai2.py:204 | `max(a, b)` is the larger, and the first argument on a tie |
| Scores.Min | Labs/PartB/Part2/Part2-B/breakthrough_ai2.py:212 | `min(a, b)` is the smaller, and the first argument on a tie |
| Scores.FirstMaxStep | Labs/PartB/Part2/Part2-B/breakthrough_ai2.py:220-227 | one more step of the maximising loop keeps the running best, moving the chosen index only on a strictly greater value |
| Scores.FirstMinStep | Labs/PartB/Part2/Part2-A/breakthrough_ai.py:165-174 | one more step of the minimising loop keeps the running least, moving the index only on a strictly smaller value |
| Scores.FirstMaxSpec | Labs/PartB/Part2/Part2-B/breakthrough_ai2.py:215-228 | the fold finds the first occurrence of the greatest value; no index is reported exactly when every value is -inf |
| Scores.FirstMinSpec | Labs/PartB/Part2/Part2-A/breakthrough_ai.py:165-174 | the fold finds the first occurrence of the least value; no index is reported exactly when every value is +inf |
| Scores.TieBreakKeepsOrder | Labs/PartB/Part2/Part2-B/breakthrough_ai2.py:117-122 | adding a `random()` tie-break in [0, 1) never reorders two different integer scores |
| Ordering.FlatStep | Labs/PartB/Part2/Part2-B/breakthrough_ai2.py:85-99 | the list after block i is the list after block i-1 with block i appended |
| Ordering.FlatMember | Labs/PartB/Part2/Part2-B/breakthrough_ai2.py:85-99 | every element of a block is in the flattened list |
| Ordering.FlatOrigin | Labs/PartB/Part2/Part2-B/breakthrough_ai2.py:85-99 | every element of the flattened list comes from one of the blocks |
| Ordering.SortedAppend | Labs/PartB/Part2/Part2-B/breakthrough_ai2.py:85-99 | two sorted lists, the first wholly before the second, give a sorted concatenation |
| Ordering.FlatSorted | Labs/PartB/Part2/Part2-B/breakthrough_ai2.py:85-99 | sorted blocks, each wholly before every later block, flatten to a sorted list |
| BreakthroughAi2.InitialBoard | Labs/PartB/Part2/Part2-B/breakthrough_ai2.py:9-25 | definition of the board `initial_state` builds; BreakthroughAi2.InitialState states what it holds and BreakthroughAi2.InitialStateOngoing that it is not terminal |
| BreakthroughAi2.InitialState | Labs/PartB/Part2/Part2-B/breakthrough_ai2.py:9-25 | the top `piece_rows` rows hold 'X', the bottom `piece_rows` rows hold 'O' (these win on an overlap), and the rest are '.' |
| BreakthroughAi2.TerminalTest | Labs/PartB/Part2/Part2-B/breakthrough_ai2.py:35-61 | definition of `terminal_test`; its meaning is stated by BreakthroughAi2.TerminalTestMeaning |
| BreakthroughAi2.TerminalTestMeaning | Labs/PartB/Part2/Part2-B/breakthrough_ai2.py:35-61 | the game is won by 'X' on reaching the last row, by 'O' on reaching row 0, by a side whose opponent has no piece left; otherwise it goes on |
| BreakthroughAi2.InitialStateOngoing | Labs/PartB/Part2/Part2-B/breakthrough_ai2.py:9-61 | a start position with separated sides and at least one column is not terminal |
| BreakthroughAi2.PieceMovesLegal | Labs/PartB/Part2/Part2-B/breakthrough_ai2.py:87-99 | every move listed for one piece is legal: forward into '.', or diagonal into '.' or an opponent piece |
| BreakthroughAi2.MovesOrigin | Labs/PartB/Part2/Part2-B/breakthrough_ai2.py:69-100 | every generated move starts on a cell of the board |
| BreakthroughAi2.Moves | Labs/PartB/Part2/Part2-B/breakthrough_ai2.py:69-100 | the list `move_generator` returns holds legal moves only |
| BreakthroughAi2.MoveGenerator | Labs/PartB/Part2/Part2-B/breakthrough_ai2.py:69-100 | the nested loops return exactly the list of moves the rules give |
| BreakthroughAi2.AppendRowMoves | Labs/PartB/Part2/Part2-B/breakthrough_ai2.py:86-99 | the column loop appends the moves of row r, cell by cell |
| BreakthroughAi2.AppendPieceMoves | Labs/PartB/Part2/Part2-B/breakthrough_ai2.py:87-99 | the loop body appends the straight, then left-diagonal, then right-diagonal move of the cell, each one when legal |
| BreakthroughAi2.MovesComplete | Labs/PartB/Part2/Part2-B/breakthrough_ai2.py:69-100 | every legal move of the player is in the generated list |
| BreakthroughAi2.RowOrdered | Labs/PartB/Part2/Part2-B/breakthrough_ai2.py:86-99 | the moves of one row are in enumeration order and all start on that row |
| BreakthroughAi2.MovesOrdered | Labs/PartB/Part2/Part2-B/breakthrough_ai2.py:85-99 | the generated list is strictly increasing in enumeration order, so it holds no duplicate |
| BreakthroughAi2.Transition | Labs/PartB/Part2/Part2-B/breakthrough_ai2.py:102-111 | the source cell becomes '.', the destination becomes the player, and every other cell is unchanged |
| BreakthroughAi2.TransitionCounts | Labs/PartB/Part2/Part2-B/breakthrough_ai2.py:102-111 | a legal move keeps the mover's piece count and removes exactly one opponent piece on a capture, none otherwise |
| BreakthroughAi2.Evasive | Labs/PartB/Part2/Part2-B/breakthrough_ai2.py:117-122 | the score is the number of own pieces plus the tie-break |
| BreakthroughAi2.Conqueror | Labs/PartB/Part2/Part2-B/breakthrough_ai2.py:124-130 | the score is minus the number of opponent pieces plus the tie-break |
| BreakthroughAi2.Aggressor | Labs/PartB/Part2/Part2-B/breakthrough_ai2.py:132-156 | the loops give 10 × (own − opposing pieces) plus the own pieces' advancement plus the tie-break |
| BreakthroughAi2.Defender | Labs/PartB/Part2/Part2-B/breakthrough_ai2.py:158-183 | the loops give 15 × own − 15 × opposing pieces − the opposing pieces' advancement plus the tie-break |
| BreakthroughAi2.CountHeuristicsAfterMove | Labs/PartB/Part2/Part2-B/breakthrough_ai2.py:117-130 | after a legal move the mover's Evasive score is unchanged; its Conqueror score rises by one on a capture and is unchanged otherwise |
| BreakthroughAi2.AdvancementAfterMove | Labs/PartB/Part2/Part2-B/breakthrough_ai2.py:146-156 | a legal move adds one to the mover's advancement sum and removes the captured piece's advancement from the opponent's |
| BreakthroughAi2.AggressorAfterMove | Labs/PartB/Part2/Part2-B/breakthrough_ai2.py:132-156 | the mover's Aggressor score rises by 1 for the step forward, and by 10 more on a capture |
| BreakthroughAi2.DefenderAfterMove | Labs/PartB/Part2/Part2-B/breakthrough_ai2.py:158-183 | a quiet move leaves the mover's Defender score alone; a capture raises it by 15 plus the captured piece's advancement |
| GameSearch.Minimax | Labs/PartB/Part2/Part2-B/breakthrough_ai2.py:189-213 | definition of `minimax`; its meaning is stated by GameSearch.MinimaxMeaning and ChildrenMeaning, and GameSearch.MinimaxSearch is proved to compute it |
| GameSearch.ChildrenMeaning | Labs/PartB/Part2/Part2-B/breakthrough_ai2.py:199-213 | the loop's value over the children is their greatest value for the maximiser and their least for the minimiser, ±inf with no child |
| GameSearch.MinimaxMeaning | Labs/PartB/Part2/Part2-B/breakthrough_ai2.py:189-213 | a leaf (depth 0 or terminal) is worth its heuristic; an inner node is worth the best child for the side to move |
| GameSearch.MinimaxSearch | Labs/PartB/Part2/Part2-B/breakthrough_ai2.py:189-213 | the recursive search with its loops returns the minimax value |
| GameSearch.MaxOfChildren | Labs/PartB/Part2/Part2-B/breakthrough_ai2.py:199-205 | the maximising loop, starting from -inf, returns the greatest child value |
| GameSearch.MinOfChildren | Labs/PartB/Part2/Part2-B/breakthrough_ai2.py:206-213 | the minimising loop, starting from +inf, returns the least child value |
| GameSearch.BestAction | Labs/PartB/Part2/Part2-B/breakthrough_ai2.py:215-228 | definition of `best_move`'s choice; its meaning is stated by GameSearch.BestActionMeaning and BestActionAttainsMinimax, and GameSearch.BestMove is proved to compute it |
| GameSearch.BestActionMeaning | Labs/PartB/Part2/Part2-B/breakthrough_ai2.py:215-228 | the chosen move is a legal one of greatest value, strictly above every earlier move; none is chosen when no move is worth more than -inf |
| GameSearch.BestActionAttainsMinimax | Labs/PartB/Part2/Part2-B/breakthrough_ai2.py:215-228 | the move `best_move` picks is worth exactly the minimax value of the position |
| GameSearch.BestMove | Labs/PartB/Part2/Part2-B/breakthrough_ai2.py:215-228 | the loop over the root moves returns the move the specification chooses |
| BreakthroughAi2Search.Next | Labs/PartB/Part2/Part2-B/breakthrough_ai2.py:102-111 | definition: the position the search reaches by a move; BreakthroughAi2Search.MovesFollowRules states that every generated move is legal and leads to `transition`'s position, and BreakthroughAi2Search.BestActionLegal that the chosen move is legal |
| BreakthroughAi2Search.MovesFollowRules | Labs/PartB/Part2/Part2-B/breakthrough_ai2.py:189-228 | every move the search considers is legal for the side to move and leads to `transition`'s position |
| BreakthroughAi2Search.BestActionLegal | Labs/PartB/Part2/Part2-B/breakthrough_ai2.py:215-228 | a move `best_move` returns is legal for the player |
| BreakthroughAi2Search.DistanceAfterMove | Labs/PartB/Part2/Part2-B/breakthrough_ai2.py:102-111 | a legal move brings the mover one row nearer its goal and removes the captured piece's distance, so every game ends |
| BreakthroughAi2Search.TurnKeepsInvariant | Labs/PartB/Part2/Part2-B/breakthrough_ai2.py:272-277 | a legal move of either side keeps the capture counts equal to the pieces each side has lost |
| BreakthroughAi2Search.PlayTurn | Labs/PartB/Part2/Part2-B/breakthrough_ai2.py:272-277 | one turn counts a capture exactly when the destination holds an opponent piece, then plays the move |
| BreakthroughAi2Search.PlayGame | Labs/PartB/Part2/Part2-B/breakthrough_ai2.py:234-277 | the game loop ends; the winner is the terminal test's, or the opponent of a mover without a best move; the capture counts equal the pieces lost |
| MoveSearch.Minimax | Labs/PartB/Part2/Part2-A/breakthrough_ai.py:122-174 | definition of `minimax` returning value and move; its meaning is stated by MoveSearch.MinimaxFinite and MinimaxChoice, and MoveSearch.MinimaxSearch is proved to compute it |
| MoveSearch.MinimaxFinite | Labs/PartB/Part2/Part2-A/breakthrough_ai.py:122-174 | every value the search returns is finite: ±10000, 0, a heuristic value or a child's value |
| MoveSearch.MinimaxChoice | Labs/PartB/Part2/Part2-A/breakthrough_ai.py:155-174 | a returned move is one of the moves of the side to move, and its child's value is the node's value |
| MoveSearch.MinimaxSearch | Labs/PartB/Part2/Part2-A/breakthrough_ai.py:122-174 | the recursive search returns the value and move the specification gives, including the terminal and no-move cases |
| MoveSearch.MaxLoop | Labs/PartB/Part2/Part2-A/breakthrough_ai.py:155-164 | starting from -inf and no move, a strictly greater child value replaces both, so the first best child wins |
| MoveSearch.MinLoop | Labs/PartB/Part2/Part2-A/breakthrough_ai.py:165-174 | starting from +inf and no move, a strictly smaller child value replaces both, so the first least child wins |
| BreakthroughAi.PossibleMoves | Labs/PartB/Part2/Part2-A/breakthrough_ai.py:36-73 | definition of the list `get_possible_moves` builds; its meaning is stated by BreakthroughAi.PossibleMovesMeaning and SameMovesAsPart2B, and BreakthroughAi.GetPossibleMoves is proved to compute it |
| BreakthroughAi.GetPossibleMoves | Labs/PartB/Part2/Part2-A/breakthrough_ai.py:36-73 | the nested loops return the list of moves the rules give, in board order |
| BreakthroughAi.ScanRow | Labs/PartB/Part2/Part2-A/breakthrough_ai.py:54-72 | the column loop appends the moves of row r, cell by cell |
| BreakthroughAi.ScanCell | Labs/PartB/Part2/Part2-A/breakthrough_ai.py:56-72 | the body appends the straight move into '.', then each diagonal into '.' or an opponent piece that passes the bounds test |
| BreakthroughAi.CellMovesAgree | Labs/PartB/Part2/Part2-A/breakthrough_ai.py:54-72 | cell by cell, Part 2-A lists the moves Part 2-B lists, in the same order |
| BreakthroughAi.SameMovesAsPart2B | Labs/PartB/Part2/Part2-A/breakthrough_ai.py:36-73 | `get_possible_moves` is Part 2-B's `move_generator` with the player dropped from each move: same moves, same order |
| BreakthroughAi.PossibleMovesMeaning | Labs/PartB/Part2/Part2-A/breakthrough_ai.py:36-73 | a move is listed exactly when it moves the player's piece one row forward, straight into '.' or diagonally into '.' or an opponent piece |
| BreakthroughAi.ApplyMove | Labs/PartB/Part2/Part2-A/breakthrough_ai.py:75-85 | on a copy, the destination becomes the player, then the source becomes '.'; every other cell is unchanged |
| BreakthroughAi.ApplyMoveIsTransition | Labs/PartB/Part2/Part2-A/breakthrough_ai.py:75-85 | on a move of two different cells `apply_move` is Part 2-B's `transition`; on a move to its own cell it empties the cell |
| BreakthroughAi.IsTerminal | Labs/PartB/Part2/Part2-A/breakthrough_ai.py:87-116 | definition of `is_terminal`; BreakthroughAi.TerminalTestsDiffer states exactly where it differs from Part 2-B's `terminal_test` |
| BreakthroughAi.TerminalTestsDiffer | Labs/PartB/Part2/Part2-A/breakthrough_ai.py:87-116 | `is_terminal` and Part 2-B's `terminal_test` disagree exactly when 'O' stands on row 0 and 'X' on the last row, or when the board holds no piece at all |
| BreakthroughAi.Apply | Labs/PartB/Part2/Part2-A/breakthrough_ai.py:75-85 | definition: the position `minimax` reaches by a move; BreakthroughAi.ApplyMoveIsTransition relates it to Part 2-B's `transition`, and BreakthroughAi.MinimaxMoveIsLegal states that the move `minimax` returns is legal |
| BreakthroughAi.MinimaxMoveIsLegal | Labs/PartB/Part2/Part2-A/breakthrough_ai.py:122-174 | on a game in progress, with depth at least 1 and a move to play, `minimax` returns a move, and it is legal for the side to move |
| BreakthroughAi.NoMoveMeansStuck | Labs/PartB/Part2/Part2-A/breakthrough_ai.py:147-153 | with depth at least 1 on a game in progress, `minimax` returns no move exactly when the side to move has none |
| BreakthroughAi.PlayTurn | Labs/PartB/Part2/Part2-A/breakthrough_ai.py:235-240 | one turn counts a capture exactly when the destination holds an opponent piece, then applies the move |
| BreakthroughAi.PlayGame | Labs/PartB/Part2/Part2-A/breakthrough_ai.py:193-243 | the game loop ends; the winner is `is_terminal`'s, and there is none when no move comes back; the captures equal the pieces lost |
| BreakthroughClass.Fill | Labs/PartB/Part1/main.py:8-14 | definition of `[x] * n`; what the rows of the start board hold is stated by BreakthroughClass.StartBoardMeaning and BreakthroughClass.StartBoardAgainstPart2B |
| BreakthroughClass.StartBoardMeaning | Labs/PartB/Part1/main.py:8-14 | without an overlap, the rows above `start_rows` are 'X', the bottom `start_rows` rows are 'O' and the rest are '.' |
| BreakthroughClass.StartBoardAgainstPart2B | Labs/PartB/Part1/main.py:8-14 | the class's board equals Part 2-B's start position exactly when the sides overlap in at most one middle row |
| BreakthroughClass.ScanFromMeaning | Labs/PartB/Part1/main.py:22-28 | the scan finds the first column, from c on, with an 'O' on row 0 or an 'X' on the last row |
| BreakthroughClass.ScanNone | Labs/PartB/Part1/main.py:22-28 | the whole scan finds nothing exactly when no 'O' is on row 0 and no 'X' on the last row |
| BreakthroughClass.TerminalMeaning | Labs/PartB/Part1/main.py:22-38 | `is_terminal` declares a side the winner on reaching its goal row, or when the other side has no piece; otherwise the game goes on |
| BreakthroughClass.TerminalAgainstPart2B | Labs/PartB/Part1/main.py:22-38 | the class and Part 2-B disagree only when 'X' reaches the last row and 'O' reaches row 0 at once (the class: 'X', Part 2-B: 'O') |
| BreakthroughClass.TerminalAgainstPart2A | Labs/PartB/Part1/main.py:22-38 | the class and Part 2-A disagree exactly when both goal rows are reached and the class's column scan meets an 'O' first (the class declares 'O', Part 2-A 'X'), or when no piece is left (the class declares 'X', Part 2-A 'O') |
| BreakthroughClass.AttachMember | Labs/PartB/Part1/main.py:62-64 | each move built from a target leaves the source cell for that target |
| BreakthroughClass.TargetsMember | Labs/PartB/Part1/main.py:49-61 | the three target checks give exactly the destinations of the class's moves from the cell |
| BreakthroughClass.TargetsMeaning | Labs/PartB/Part1/main.py:46-64 | the moves listed for a cell are exactly the class's moves from it |
| BreakthroughClass.GeneratedMeaning | Labs/PartB/Part1/main.py:40-66 | `generate_moves` lists exactly the forward steps into '.' and the diagonal captures, never a diagonal step into '.' |
| BreakthroughClass.GeneratedAgainstPart2A | Labs/PartB/Part1/main.py:40-66 | the class generates Part 2-A's moves less the diagonal steps into an empty cell |
| BreakthroughClass.GeneratedIsLegal | Labs/PartB/Part1/main.py:40-66 | every move the class generates is legal by Part 2-B's rules |
| BreakthroughClass.MovedFromIsTransition | Labs/PartB/Part1/main.py:68-74 | for a generated move the class's new board is the board Part 2-B's `transition` builds |
| BreakthroughClass.Breakthrough.constructor | Labs/PartB/Part1/main.py:2-6 | the dimensions are stored and the board is the class's start board |
| BreakthroughClass.Breakthrough.InitialState | Labs/PartB/Part1/main.py:8-14 | returns the start board, `rows` rows of `cols` cells; what its cells hold is stated by BreakthroughClass.StartBoardMeaning and StartBoardAgainstPart2B |
| BreakthroughClass.Breakthrough.IsTerminal | Labs/PartB/Part1/main.py:22-38 | the method returns the terminal verdict of the specification, and changes nothing |
| BreakthroughClass.Breakthrough.GenerateMoves | Labs/PartB/Part1/main.py:40-66 | the nested loops return the class's move list, which is exactly the class's legal moves |
| BreakthroughClass.Breakthrough.ScanRow | Labs/PartB/Part1/main.py:46-64 | the column loop appends the moves of row r |
| BreakthroughClass.Breakthrough.ScanPiece | Labs/PartB/Part1/main.py:47-64 | the loop body appends each target of the cell paired with the cell |
| BreakthroughClass.Breakthrough.PossibleTargets | Labs/PartB/Part1/main.py:49-61 | forward into '.', then the left and the right capture, each one when its cell is on the board |
| BreakthroughClass.Breakthrough.AppendAll | Labs/PartB/Part1/main.py:63-64 | the loop appends, in order, one move from the piece to each target and nothing else |
| BreakthroughClass.Breakthrough.Transition | Labs/PartB/Part1/main.py:68-74 | returns a new board with the piece moved and the source emptied; the object's board is left as it was |
| MazeWorld.NewState | Labs/PartA/Part1/main.py:2-4 | definition of `State(position, collected_prizes)`: the given set, or none collected; MazeWorld.Maze.GoalMeaning states when such a fresh state is a goal |
| MazeWorld.Step | Labs/PartA/Part1/main.py:33-37 | each action moves one cell: N up, S down, E right, W left |
| MazeWorld.RowLastMeaning | Labs/PartA/Part1/main.py:21-27 | the scan of a line keeps the last position holding the character |
| MazeWorld.LinesLastMeaning | Labs/PartA/Part1/main.py:19-28 | the scan keeps the last position holding the character in reading order; there is none exactly when no line holds it |
| MazeWorld.RowDotsStep | Labs/PartA/Part1/main.py:24-27 | one more character of a line adds its position to the prizes exactly when it is '.' |
| MazeWorld.DotsStep | Labs/PartA/Part1/main.py:21-27 | one more line adds that line's '.' positions to the prizes |
| MazeWorld.Maze.constructor | Labs/PartA/Part1/main.py:13-17 | the maze is loaded from the given lines |
| MazeWorld.Maze.LoadMaze | Labs/PartA/Part1/main.py:19-28 | every line is appended to the grid; the last 'P' is the start, and every '.' is a prize |
| MazeWorld.Maze.IsValidMove | Labs/PartA/Part1/main.py:30-31 | definition of `is_valid_move`; MazeWorld.Maze.MoveAgent states that a move goes exactly to the cells it accepts |
| MazeWorld.Maze.MoveAgent | Labs/PartA/Part1/main.py:33-44 | a move into an open cell goes there and collects the prize on it; any other move leaves the state as it was |
| MazeWorld.Maze.Run | Labs/PartA/Part1/main.py:33-44 | definition: the state after a sequence of `move_agent` calls; its meaning is stated by MazeWorld.Maze.RunKeepsPrizes |
| MazeWorld.Maze.RunKeepsPrizes | Labs/PartA/Part1/main.py:33-44 | along any run of moves the collected prizes only grow and stay prizes, the agent ends on a valid cell or where it began, every newly collected prize is a cell of the run's trace, and (when the starting cell is not an uncollected prize) every prize on the trace is collected at the end |
| MazeWorld.Maze.GoalTest | Labs/PartA/Part1/main.py:46-47 | definition of `goal_test`; its meaning is stated by MazeWorld.Maze.GoalMeaning |
| MazeWorld.Maze.GoalMeaning | Labs/PartA/Part1/main.py:46-47 | a state is a goal exactly when its collected prizes are all the maze's prizes |
| MazeDfs.Maze.IsValidMove | Labs/PartA/Part2/single_dfs.py:21-22 | definition of `is_valid_move`; MazeDfs.PushedMeaning and MazeDfs.Maze.SolveDfs state that only cells it accepts are pushed and walked |
| MazeDfs.PushedMeaning | Labs/PartA/Part2/single_dfs.py:41-44 | every pushed entry is a valid unvisited neighbour with its path extended by it, and every such neighbour is pushed |
| MazeDfs.PopKeepsClosed | Labs/PartA/Part2/single_dfs.py:30-33 | popping an entry whose cell was already visited keeps the search's closure invariant |
| MazeDfs.ExpandKeepsClosed | Labs/PartA/Part2/single_dfs.py:34-44 | expanding a cell and pushing its neighbours keeps the closure invariant |
| MazeDfs.PushedReach | Labs/PartA/Part2/single_dfs.py:41-44 | every entry on the stack holds a walk from the start to a valid cell |
| MazeDfs.ClosedHoldsWalks | Labs/PartA/Part2/single_dfs.py:24-46 | a set that holds the start and every valid neighbour of its members holds every walk from the start |
| MazeDfs.MarkedMeaning | Labs/PartA/Part2/single_dfs.py:48-51 | marking writes '#' on the path's cells that hold neither 'P' nor '.', and keeps every other cell |
| MazeDfs.MarkedStep | Labs/PartA/Part2/single_dfs.py:49-51 | marking one more cell of the path marks exactly that cell more |
| MazeDfs.Maze.constructor | Labs/PartA/Part2/single_dfs.py:4-8 | the maze is loaded from the given lines |
| MazeDfs.Maze.LoadMaze | Labs/PartA/Part2/single_dfs.py:10-19 | every line is appended to the grid; the last 'P' is the start and the last '.' the prize |
| MazeDfs.Maze.SolveDfs | Labs/PartA/Part2/single_dfs.py:24-46 | a returned path is a walk from the start to the prize; no path means no walk reaches the prize; each expanded cell counts once |
| MazeDfs.Maze.Search | Labs/PartA/Part2/single_dfs.py:29-46 | the loop keeps the visited cells closed under valid neighbours, except for the cells still on the stack |
| MazeDfs.Maze.PushNeighbours | Labs/PartA/Part2/single_dfs.py:41-44 | the inner loop pushes, in the order N, S, W, E tried, every valid unvisited neighbour with its extended path |
| MazeDfs.Maze.MarkSolutionPath | Labs/PartA/Part2/single_dfs.py:48-51 | the grid becomes the marked grid of the path |
| GridSearch.Manhattan | Labs/PartA/Part3/single_searchers.py:18-19 | definition of `manhattan_distance`; GridSearch.ManhattanMetric states that it is a metric |
| GridSearch.ManhattanMetric | Labs/PartA/Part3/single_searchers.py:18-19 | the distance is symmetric, zero exactly between equal points, and obeys the triangle inequality |
| GridSearch.Neighbour | Labs/PartA/Part3/single_searchers.py:48-49 | definition of the four neighbours in the order tried; GridSearch.NeighbourMeaning states that they are exactly the cells one step away |
| GridSearch.NeighbourMeaning | Labs/PartA/Part3/single_searchers.py:48-52 | the neighbours tried are exactly the cells one step away |
| GridSearch.WalkPrefix | Labs/PartA/Part3/single_searchers.py:41-52 | a prefix of a walk is a walk |
| GridSearch.WalkAppend | Labs/PartA/Part3/single_searchers.py:48-52 | a walk with one more passable step is a walk |
| GridSearch.ClosedHoldsWalks | Labs/PartA/Part3/single_searchers.py:41-53 | a set that holds the start and every passable neighbour of its members holds every walk from the start |
| GridSearch.Chain | Labs/PartA/Part3/single_searchers.py:21-28 | definition of the path `reconstruct_path` returns; its meaning is stated by GridSearch.ChainMeaning and ChainStep, and GridSearch.ReconstructPath is proved to compute it |
| GridSearch.ChainMeaning | Labs/PartA/Part3/single_searchers.py:21-28 | following `came_from` from a cell back to the start gives a walk from the start to that cell |
| GridSearch.ChainStep | Labs/PartA/Part3/single_searchers.py:24-26 | one step back along `came_from` extends the chain by one cell at its front |
| GridSearch.ReconstructPath | Labs/PartA/Part3/single_searchers.py:21-28 | the loop returns the chain from the start to the goal, a walk |
| GridSearch.PaintedMeaning | Labs/PartA/Part3/single_searchers.py:30-33 | painting writes '#' on exactly the path's cells inside the maze and keeps the others |
| GridSearch.PaintedStep | Labs/PartA/Part3/single_searchers.py:31-32 | painting one more cell of the path paints exactly that cell more |
| GridSearch.SplitJoin | Labs/PartA/Part3/single_searchers.py:33 | splitting the rows joined by '\n' gives the rows back, when no row holds a '\n' |
| GridSearch.MarkPath | Labs/PartA/Part3/single_searchers.py:30-33 | the loop paints the path and returns the painted rows joined by '\n' |
| GridSearch.PopMin | Labs/PartA/Part3/single_searchers.py:62 | `heappop` returns an entry no larger than any other, and the rest of the queue |
| SingleSearchers.Finish | Labs/PartA/Part3/single_searchers.py:44-46 | the found chain is a walk ending at the goal, and marking it gives the solution |
| SingleSearchers.ExhaustedMeansUnreachable | Labs/PartA/Part3/single_searchers.py:53 | an empty frontier with every reached cell expanded means no walk reaches the goal |
| SingleSearchers.AddEntry | Labs/PartA/Part3/single_searchers.py:50-52 | giving a new passable neighbour its `came_from` entry keeps the map rooted at the start |
| SingleSearchers.Discover | Labs/PartA/Part3/single_searchers.py:48-52 | the new passable neighbours get `came_from` entries and are put on the frontier in the order tried |
| SingleSearchers.ExpandKeeps | Labs/PartA/Part3/single_searchers.py:47-52 | an expansion keeps every key of `came_from` either expanded or waiting on the frontier |
| SingleSearchers.LevelsStart | Labs/PartA/Part3/single_searchers.py:37-38 | before the first pop the start alone is queued, on level 0, and no walk is shorter than a level |
| SingleSearchers.FarOutside | Labs/PartA/Part3/single_searchers.py:48-52 | while every waiting cell is at level `low` or above and every expanded cell's passable neighbours have entries, a walk to a cell without an entry has more than `low` steps |
| SingleSearchers.LayeredKeep | Labs/PartA/Part3/single_searchers.py:42-51 | popping the front and appending cells one level above it keeps the queue sorted by level and within two adjacent levels |
| SingleSearchers.LevelsKeep | Labs/PartA/Part3/single_searchers.py:42-52 | an expansion of the front keeps each child one level below its parent, the queue layered, and every entry's level no longer than any walk to it |
| SingleSearchers.ChainLevel | Labs/PartA/Part3/single_searchers.py:44-46 | the reconstructed path to a cell has as many steps as the cell's level |
| SingleSearchers.BfsExpand | Labs/PartA/Part3/single_searchers.py:42-52 | one iteration pops the front, and its new neighbours get entries and join the back of the queue; the breadth-first levels are kept |
| SingleSearchers.BfsSearch | Labs/PartA/Part3/single_searchers.py:41-52 | the loop stops when the frontier is empty or the goal is popped, keeping the search invariant and the breadth-first levels |
| SingleSearchers.SingleBfs | Labs/PartA/Part3/single_searchers.py:35-53 | a result is a marked walk from the start to the goal, and no walk from the start to the goal is shorter; `None` means the goal is missing or no walk reaches it |
| SingleSearchers.GreedyPopsNearest | Labs/PartA/Part3/single_searchers.py:62 | on a greedy heap, the popped entry's cell is no farther from the goal than any other entry's cell |
| SingleSearchers.GbfsExpand | Labs/PartA/Part3/single_searchers.py:67-72 | the new neighbours are pushed with their distance to the goal as priority |
| SingleSearchers.GbfsStep | Labs/PartA/Part3/single_searchers.py:62-72 | one iteration pops the nearest entry; at the goal it stops, otherwise it expands it |
| SingleSearchers.GbfsSearch | Labs/PartA/Part3/single_searchers.py:61-72 | the loop keeps the search invariant and stops at the goal or with an empty heap |
| SingleSearchers.SingleGbfs | Labs/PartA/Part3/single_searchers.py:55-73 | a result is a marked walk from the start to the goal; `None` means no walk reaches it |
| Astar.RecordedRelax | Labs/PartA/Part3/single_searchers.py:89-96 | relaxing a neighbour keeps every key recorded in `came_from` |
| Astar.CarriedRelax | Labs/PartA/Part3/single_searchers.py:91-95 | a relaxed cell's cost only goes down, and an entry carrying the new cost is pushed for it |
| Astar.CostedRelax | Labs/PartA/Part3/single_searchers.py:91-93 | a new cost `cost + 1` for a passable cell, lower than its old one if it had one, keeps every cost bounded |
| Astar.RootedRelax | Labs/PartA/Part3/single_searchers.py:91-94 | lowering a cost with the current cell as parent keeps `came_from` rooted at the start, with the costs as ranks |
| Astar.Relax | Labs/PartA/Part3/single_searchers.py:89-96 | a neighbour that is ' ' or '.' and has no cost, or a cost above `cost + 1`, is re-opened: it gets cost `cost + 1`, parent `current` and an entry `(cost + 1 + h, cost + 1, cell)`; every pushed entry is for such a neighbour, and every other cell keeps its cost and its parent; costs only go down and the maps stay rooted at the start |
| Astar.RelaxDirection | Labs/PartA/Part3/single_searchers.py:90-96 | one direction: the neighbour is re-opened (new cost, parent and pushed entry) when it passes the test, and nothing changes otherwise |
| Astar.ReopenGuard | Labs/PartA/Part3/single_searchers.py:89-92 | the four neighbours are distinct, so the test against the costs being updated gives the same answer as against the costs before the loop |
| Astar.PotentialDrops | Labs/PartA/Part3/single_searchers.py:82-96 | lowering costs lowers the search's measure, strictly when one cost drops |
| Astar.UnsettledDrops | Labs/PartA/Part3/single_searchers.py:82-96 | an expansion never raises the measure, and lowers it when it pushes, so the loop ends |
| Astar.ExploreKeeps | Labs/PartA/Part3/single_searchers.py:83-96 | popping a non-goal entry, relaxing its neighbours and pushing their entries keeps the search invariant |
| Astar.AstarStep | Labs/PartA/Part3/single_searchers.py:83-96 | one iteration pops the cheapest entry; at the goal it stops, otherwise it relaxes the neighbours |
| Astar.AstarSearch | Labs/PartA/Part3/single_searchers.py:82-96 | the loop keeps the invariant and stops at the goal or with an empty heap, stale entries included |
| Astar.SingleAstar | Labs/PartA/Part3/single_searchers.py:75-97 | a result is a marked walk from the start to the goal; `None` means no walk reaches it |
| MultiPrize.Distances | Labs/PartA/Part4/main.py:23 | definition: the distances to the remaining goals; MultiPrize.Heuristic states that their least is a goal's distance and no larger than any, and MultiPrize.HeuristicAdmissible that no walk to a goal is shorter |
| MultiPrize.Heuristic | Labs/PartA/Part4/main.py:20-23 | 0 when no goal remains, otherwise the distance to the nearest remaining goal |
| MultiPrize.HeuristicConsistent | Labs/PartA/Part4/main.py:20-23 | one step changes the heuristic by at most one |
| MultiPrize.WalkSpansDistance | Labs/PartA/Part4/main.py:17-18 | a walk has at least as many steps as the distance between its ends |
| MultiPrize.HeuristicAdmissible | Labs/PartA/Part4/main.py:20-23 | no walk from a cell to a remaining goal is shorter than the cell's heuristic |
| MultiPrize.NearestTarget | Labs/PartA/Part4/main.py:55 | the target is a remaining prize at the least distance from the current cell |
| MultiPrize.Round | Labs/PartA/Part4/main.py:52-75 | one round either reaches its target with a walk from the current cell, or reports that no walk reaches it |
| MultiPrize.NumberedMeaning | Labs/PartA/Part4/main.py:66 | the prize numbers run from 0 to the number of reached prizes less one, each used once |
| MultiPrize.NumberedAdd | Labs/PartA/Part4/main.py:66 | numbering a new target gives it the next number |
| MultiPrize.GivenUpReach | Labs/PartA/Part4/main.py:60-66 | numbering a reached prize keeps every given-up prize given up |
| MultiPrize.GivenUpDrop | Labs/PartA/Part4/main.py:51-75 | a target that no walk reaches from the start or a numbered prize counts as given up |
| MultiPrize.PositionAt | Labs/PartA/Part4/main.py:60-66 | the position of a round is the start or a reached prize, inside the maze and not a remaining prize |
| MultiPrize.WalkedExtend | Labs/PartA/Part4/main.py:61-64 | appending a round's walk, without its first cell, to the full path keeps it a walk from the start |
| MultiPrize.ReachedMeaning | Labs/PartA/Part4/main.py:61-66 | the prize numbered k stands at position `ends[k]` of the full path, and these positions strictly grow with k |
| MultiPrize.ReachedGrow | Labs/PartA/Part4/main.py:63 | prizes reached in order stay reached in order when the full path grows |
| MultiPrize.ReachedNext | Labs/PartA/Part4/main.py:63-66 | a prize reached one step after the full path is numbered after every prize reached on it |
| MultiPrize.ReachedExtend | Labs/PartA/Part4/main.py:61-66 | a round ending at its target numbers the target at the last position of the extended full path, after all earlier prizes |
| MultiPrize.ReachedOnPath | Labs/PartA/Part4/main.py:61-66 | every numbered prize lies on the full path |
| MultiPrize.TourReach | Labs/PartA/Part4/main.py:60-67 | a round that reaches its target keeps every invariant of the outer loop once the target is numbered next and its path appended |
| MultiPrize.TourDrop | Labs/PartA/Part4/main.py:51-75 | a round that cannot reach its target keeps every invariant once that target is given up |
| MultiPrize.PartitionedMove | Labs/PartA/Part4/main.py:65-66 | moving the target from the remaining prizes to the numbered ones keeps every prize in exactly one of them |
| MultiPrize.NatText | Labs/PartA/Part4/main.py:37 | `str(n)` is a non-empty string of decimal digits without a leading zero |
| MultiPrize.ParseNatText | Labs/PartA/Part4/main.py:37 | reading the digit string back gives the number |
| MultiPrize.LabelledMeaning | Labs/PartA/Part4/main.py:34-40 | a numbered prize on the path shows its number, every other path cell shows '#', and every cell off the path keeps its character |
| MultiPrize.LabelledStep | Labs/PartA/Part4/main.py:35-39 | labelling one more path cell changes exactly that cell |
| MultiPrize.MarkPrizes | Labs/PartA/Part4/main.py:34-40 | the loop labels the path and returns the rows joined by '\n' |
| MultiPrize.AsWrittenRound | Labs/PartA/Part4/main.py:51-75 | as written, a pass of the outer loop removes at most its target from the remaining prizes, and when no remaining prize is reachable it leaves every variable as it was |
| MultiPrize.WalledPrizeUnreachable | Labs/PartA/Part4/main.py:51-57 | on a maze whose only prize is walled off, every pass of the outer loop as written leaves the prize remaining |
| MultiPrize.TourRound | Labs/PartA/Part4/main.py:52-75 | one pass of the outer loop removes one remaining prize and keeps the loop's invariant: the full path is a walk from the start ending at the position, prizes are numbered in reaching order, and a given-up prize is unreachable from where its round stood |
| MultiPrize.Tour | Labs/PartA/Part4/main.py:51-75 | the outer loop ends; every prize is either numbered in the order the full path reaches it, or given up because no walk reaches it |
| MultiPrize.MultiAstar | Labs/PartA/Part4/main.py:42-77 | the full path is a walk from the start and its cost is its step count; the prize numbered k is reached at position `ends[k]` of the path, the positions strictly grow with k, and the numbers run from 0 once each; every other prize is unreachable from where its round stood |
| DecisionTree.Count | Labs/PartC/Part2/dicision_tree.py:68 | the number of examples with a given label is at most the number of examples |
| DecisionTree.CountBoth | Labs/PartC/Part2/dicision_tree.py:68-72 | no example counts twice: the "yes" and "no" examples together are at most all of them |
| DecisionTree.Majority | Labs/PartC/Part2/dicision_tree.py:63-72 | definition of `majority_class`; its meaning is stated by DecisionTree.MajorityMeaning |
| DecisionTree.MajorityMeaning | Labs/PartC/Part2/dicision_tree.py:63-72 | the majority is "yes" exactly when "yes" outnumbers "no"; it is "no" for no examples, and agrees when all examples agree |
| DecisionTree.CountAll | Labs/PartC/Part2/dicision_tree.py:68 | when every example carries a label, all of them are counted |
| DecisionTree.BestIndex | Labs/PartC/Part2/dicision_tree.py:93-94 | the chosen attribute has the highest gain, and a strictly higher gain than every earlier attribute |
| DecisionTree.Best | Labs/PartC/Part2/dicision_tree.py:93-94 | the best attribute is one of the attributes and no attribute has a higher gain |
| DecisionTree.Remove | Labs/PartC/Part2/dicision_tree.py:108 | the remaining attributes are exactly the attributes other than the best one, and there are fewer of them |
| DecisionTree.Dedup | Labs/PartC/Part2/dicision_tree.py:107 | the values without repeats hold the same values, each once |
| DecisionTree.Values | Labs/PartC/Part2/dicision_tree.py:107 | the values of the attribute are exactly those the examples take, each once |
| DecisionTree.Subset | Labs/PartC/Part2/dicision_tree.py:111 | the subset holds exactly the examples whose attribute has the value |
| DecisionTree.Grow | Labs/PartC/Part2/dicision_tree.py:110-113 | one branch per value, in order, each keyed by its value |
| DecisionTree.GrowSubtree | Labs/PartC/Part2/dicision_tree.py:111-113 | the subtree of each value is the tree built from that value's subset, without the tested attribute, with these examples as parent |
| DecisionTree.BuildTree | Labs/PartC/Part2/dicision_tree.py:74-115 | definition of `build_tree`; its leaves, nodes, branches, tests, depth and labels are stated by DecisionTree.BuildLeaves, BuildNode, BuildBranches, BuildTests, BuildDepth and BuildLabels |
| DecisionTree.BuildLeaves | Labs/PartC/Part2/dicision_tree.py:79-98 | the leaf cases: no examples gives the parent's majority; one shared label gives that label; no attributes or no positive gain gives the majority |
| DecisionTree.BuildNode | Labs/PartC/Part2/dicision_tree.py:93-104 | an internal node tests an attribute of highest and positive gain among the attributes, and keeps the examples' majority |
| DecisionTree.BuildBranches | Labs/PartC/Part2/dicision_tree.py:106-113 | a node's branches are keyed by exactly the values the examples take, each once |
| DecisionTree.BuildTests | Labs/PartC/Part2/dicision_tree.py:74-115 | no attribute is tested twice on a path, and only attributes of the list are tested |
| DecisionTree.TestsDepth | Labs/PartC/Part2/dicision_tree.py:74-115 | a tree that tests each attribute at most once on a path is no deeper than the number of attributes |
| DecisionTree.BuildDepth | Labs/PartC/Part2/dicision_tree.py:74-115 | the built tree is no deeper than the number of attributes |
| DecisionTree.FindBranch | Labs/PartC/Part2/dicision_tree.py:125 | the branch found for a value holds that value; none is found exactly when no branch holds it |
| DecisionTree.Predict | Labs/PartC/Part2/dicision_tree.py:117-129 | definition of `predict`; its meaning is stated by DecisionTree.PredictMeaning, PredictWithin and PredictLabel |
| DecisionTree.PredictMeaning | Labs/PartC/Part2/dicision_tree.py:117-129 | at a node, the prediction is the subtree's for the instance's value when a branch holds it, else the node's majority |
| DecisionTree.PredictWithin | Labs/PartC/Part2/dicision_tree.py:117-129 | a prediction is one of the labels the tree holds |
| DecisionTree.BuildLabels | Labs/PartC/Part2/dicision_tree.py:74-115 | a built tree holds only "yes", "no" and labels of its examples |
| DecisionTree.BranchLabels | Labs/PartC/Part2/dicision_tree.py:110-113 | each subtree of a built node holds only "yes", "no" and labels of the node's examples |
| DecisionTree.LeafLabel | Labs/PartC/Part2/dicision_tree.py:79-98 | a leaf holds "yes", "no" or a label of the examples |
| DecisionTree.PredictLabel | Labs/PartC/Part2/dicision_tree.py:117-129 | a tree built from examples predicts "yes", "no" or a label one of the examples carries, whatever the instance |
| DecisionTree.CountNodes | Labs/PartC/Part2/dicision_tree.py:141-148 | definition of `count_nodes`; DecisionTree.CountCoversDepth states that it is at least one and at least the depth |
| DecisionTree.CountFromCovers | Labs/PartC/Part2/dicision_tree.py:146-147 | every branch from position k on counts in the sum |
| DecisionTree.CountCoversDepth | Labs/PartC/Part2/dicision_tree.py:141-148 | the node count is at least one and at least the depth |
| DecisionTree.CorrectCounts | Labs/PartC/Part2/dicision_tree.py:152-155 | the correct count is the number of examples labelled correctly, at most the number of examples |
| DecisionTree.HitsPrefix | Labs/PartC/Part2/dicision_tree.py:153-155 | the hits among the first n examples do not depend on the rest |
| DecisionTree.HitsStep | Labs/PartC/Part2/dicision_tree.py:154-155 | example n adds its position to the hits exactly when it is labelled correctly |
| DecisionTree.Percent | Labs/PartC/Part2/dicision_tree.py:156 | the accuracy is between 0 and 100, 100 exactly when all are correct, 0 exactly when none is |
| DecisionTree.ComputeAccuracy | Labs/PartC/Part2/dicision_tree.py:150-156 | the loop returns the percentage of examples the tree labels correctly |
| DecisionTree.Without | Labs/PartC/Part2/dicision_tree.py:163 | the training list is the examples with the i-th removed: same order, one fewer, the same multiset less one |
| DecisionTree.FoldCount | Labs/PartC/Part2/dicision_tree.py:160-167 | the number of correctly predicted folds is at most the number of folds |
| DecisionTree.Fold | Labs/PartC/Part2/dicision_tree.py:163-167 | one pass trains on all examples but the i-th and reports whether the i-th is predicted correctly |
| DecisionTree.LeaveOneOut | Labs/PartC/Part2/dicision_tree.py:158-168 | the loop returns the percentage of folds whose left-out example is predicted correctly |

## Left out

- Reading files, printing and displaying are not modelled: `read_maze`, `load_data`, `display_state`, `print_maze`, `print_tree`, the timing and the `main` drivers. Mazes arrive as lists of already stripped lines, and examples as maps from attribute to value.
- `random.random()` in the heuristics is a tie-break parameter in [0, 1), so the heuristic values are exact rationals rather than floats.
- GameSearch.Minimax: the heuristic is a function of the state and the player, so a board scored twice in one search gets the same tie-break. The source draws a fresh `random.random()` on every call (Labs/PartB/Part2/Part2-B/breakthrough_ai2.py:122, 130, 156, 183), so two scorings of the same board may differ in their fractional part. The integer part, and hence every comparison between different integer scores, is unaffected.
- BreakthroughClass.Breakthrough.constructor: takes `rows`, `cols` and `start_rows` explicitly; the defaults 8, 8 and 2 of `__init__` (Labs/PartB/Part1/main.py:2) are the values a caller passes when it gives none.
- Lines 285-566 of `Labs/PartB/Part2/Part2-B/breakthrough_ai2.py` repeat lines 1-282 word for word and are not modelled twice. Lines 567-632 are the example-match driver under `if __name__ == '__main__':`, left out with the other drivers.
- Part 2-A's `initial_state` and `heuristic_evasive` are the same code as Part 2-B's and are modelled once, by `BreakthroughAi2.InitialState` and `BreakthroughAi2.Evasive`.
- BreakthroughAi2.InitialState: requires `piece_rows <= rows`. The source raises IndexError when `piece_rows > rows` and `cols > 0`; the model excludes `cols == 0` as well, where the source returns `rows` empty rows.
- BreakthroughClass.Breakthrough.constructor: requires `startRows <= rows`; `initial_state` (Labs/PartB/Part1/main.py:11-13) raises IndexError otherwise, at `board[r]` with `r == rows`.
- BreakthroughClass.Breakthrough.InitialState: requires `startRows <= rows`, for the same reason (Labs/PartB/Part1/main.py:11-13).
- BreakthroughClass.Breakthrough.IsTerminal: requires `0 < rows || cols == 0`; on a board with no row but some column `is_terminal` reads `board[0]` (Labs/PartB/Part1/main.py:25) and raises IndexError.
- SingleSearchers.SingleBfs: takes the start as a cell. With no 'P' `read_maze` leaves it None (Labs/PartA/Part3/single_searchers.py:4-16), and the search raises TypeError at `current[0]`.
- SingleSearchers.SingleGbfs: takes the start as a cell; with no 'P' the source raises TypeError in `manhattan_distance` (Labs/PartA/Part3/single_searchers.py:4-19).
- Astar.SingleAstar: takes the start as a cell; with no 'P' the source raises TypeError in `manhattan_distance` (Labs/PartA/Part3/single_searchers.py:4-19).
- MultiPrize.MultiAstar: takes the start as a cell; with no 'P' `read_maze` leaves it None (Labs/PartA/Part4/main.py:3-15) and the search raises TypeError.
- GameSearch.BestMove: requires depth at least 1, because with depth 0 the source searches with depth -1, which never reaches the depth test.
- BreakthroughAi2Search.PlayGame: requires depth at least 1, for the same reason: each turn calls `best_move` with the game's depth (Labs/PartB/Part2/Part2-B/breakthrough_ai2.py:234-277), and depth 0 would search with depth -1.
- `entropy` and `info_gain` use floating-point logarithms; the model takes the gain as a parameter function and does not model its formula.
- DecisionTree.Percent: the accuracy is an exact rational; float rounding is not modelled.
- DecisionTree.ComputeAccuracy: requires at least one example; the source divides by zero on none.
- DecisionTree.LeaveOneOut: requires at least two examples. With one, the source builds a tree from no examples and no parent, and crashes.
- A Python `set` and `dict` iterate in an order the language does not fix.
  - The model lists a node's branch values in the order they first occur.
  - `MultiPrize.NearestTarget` takes any nearest prize.
  - This also covers the tie between equal `min` distances.
- `heapq` is modelled by its contract: `GridSearch.PopMin` removes a least entry. The heap layout is not modelled.
- Python's negative indices wrap around. The Part A 3 and Part A 4 models require the maze to be enclosed by walls on its border, as the course mazes are, so no search reaches an index below 0. Parts A 1 and A 2 check 0 <= x and 0 <= y before indexing.
- MazeWorld.Maze.MoveAgent: requires `Covered(grid)`, every line at least as long as the first. `is_valid_move` checks x only against `len(grid[0])` (Labs/PartA/Part1/main.py:30-31), so on a shorter later line it raises IndexError, which the model does not reproduce.
- MazeWorld.Maze.Run: requires `Covered(grid)`, for the same reason.
- MazeDfs.Maze.SolveDfs: requires `Covered(grid)`; `is_valid_move` in Labs/PartA/Part2/single_dfs.py:21-22 raises IndexError on a ragged maze in the same way.
- MazeDfs.Maze.SolveDfs: requires a start (`start.Some?`); with no 'P' the first pop unpacks `None` and raises TypeError (Labs/PartA/Part2/single_dfs.py:26-30).
- SingleSearchers.SingleGbfs: takes the goal as a cell; with no '.' in the maze the source calls `manhattan_distance(start, None)` and raises TypeError (Labs/PartA/Part3/single_searchers.py:57).
- Astar.SingleAstar: takes the goal as a cell, for the same reason (Labs/PartA/Part3/single_searchers.py:77).
- Astar.SingleAstar: the model proves soundness, completeness and termination, not optimality of the path cost.
- MultiPrize.MultiAstar: the same holds for each round; the total is not proved minimal. The prizes are given as passable cells, and the start is not one of them.
- `State.__hash__` in Part A 1 is not modelled; the datatype's equality is the `__eq__` it agrees with.
- The `Projects`, `Activities` and `InclassActivities` scripts (kNN and a second decision tree draft) are outside the modelled core.

## Findings

| source | as written | input that shows it | evidently intended | confidence | as-written member | corrected member |
|---|---|---|---|---|---|---|
| Labs/PartA/Part4/main.py:51-75 | when the heap of a round empties before the target is popped, the target stays in `remaining_goals` and nothing else changes, so `while remaining_goals` repeats the same round forever | the maze `%%%%%` / `%P%.%` / `%%%%%`, where the only prize is walled off from the start | a prize that no walk reaches is given up, and the search goes on with the others | not executed | MultiPrize.AsWrittenRound, MultiPrize.WalledPrizeUnreachable | MultiPrize.Tour, MultiPrize.MultiAstar |
