# Number-pair game: a verified model of the game logic

The number-pair game is played by two players on a row of digits. On each
turn the player to move removes two adjacent numbers. The player scores 3
when the pair sums to more than 7, 2 when it sums to exactly 7, and 1
otherwise. The game ends when fewer than two numbers are left, and the
higher score wins. Player 2 can be a bot that searches three plies ahead,
with plain minimax or with fail-soft alpha-beta pruning. Leaves are
evaluated as `scores[2] - scores[1] + len(numbers) / 10`.

This project models the game logic of `FinalversionAISCRIPT.py` without
its tkinter shell, in three modules:

- `Rules` (`rules.dfy`) holds the pure part of the game:
  - the search node (`GameNode`) and the score board;
  - the pair bonus and the list of legal moves;
  - the successor function `create_child_node`;
  - the evaluator and the outcome rule of `declare_winner`;
  - a replay of a run of turns, used to state what every turn preserves.
- `Game` (`game.dfy`) holds the live game as a class:
  - its fields are the numbers, the scores and the player to move;
  - `ProcessTurn` updates them in place, as `process_turn` does with `del`;
  - `BotPlay` is the bot's turn.
- `Search` (`search.dfy`) holds the two searches:
  - they are recursive methods with a loop over the moves, as in the source;
  - a loop-free reference defines the minimax value and the first best
    move, and both searches are proved against it.

Alpha-beta's contract is the fail-soft guarantee of Knuth and Moore: a
result inside the window `(alpha, beta)` is exact, and one outside bounds
the true value from the correct side. From the root window `(-inf, +inf)`,
`AlphaBeta` returns exactly `Value` and `BestMove`. `Minimax` returns those
same two, so the two algorithms agree on both the value and the move.

Scores are unbounded integers and the heuristic is an exact `real`. The
infinite initial bounds `float('-inf')` and `float('inf')` are the
constructors `NegInf` and `PosInf` of `Search.Ext`. The initial numbers
are a parameter.

## Model

| member | source | states |
|---|---|---|
| Rules.Other | FinalversionAISCRIPT.py:86 | the turn always passes to the other player |
| Rules.Scores.Add | FinalversionAISCRIPT.py:169-170 | adding a bonus for a player raises that player's score by exactly the bonus and leaves the other player's score as it was |
| Rules.PairBonus | FinalversionAISCRIPT.py:75 | the bonus is 3 exactly when the pair sums to more than 7, 2 exactly when it sums to 7, and 1 exactly when it sums to less than 7, so always between 1 and 3 |
| Rules.PossibleMoves | FinalversionAISCRIPT.py:173-174 | there are no moves when at most one number is left, otherwise `len(numbers) - 1` of them, the i-th being `(i, i + 1)` |
| Rules.PossibleMovesAreAdjacentPairs | FinalversionAISCRIPT.py:173-174 | a pair is among the moves if and only if its indices are adjacent and in range |
| Rules.ChildNode | FinalversionAISCRIPT.py:165-171 | the successor node has two numbers fewer; the numbers before, between and after the removed positions keep their order; only the mover's score gains the pair bonus; the turn passes to the other player |
| Rules.ChildNodeRemovesExactlyThePair | FinalversionAISCRIPT.py:168 | the successor's numbers plus the two removed values are, as a multiset, the parent's numbers |
| Rules.Heuristic | FinalversionAISCRIPT.py:176-186 | the count term never lowers the evaluation below the bot's lead over player 1; it stays within one point of that lead exactly when fewer than ten numbers remain, so near the end of the game the score difference decides the evaluation |
| Rules.HeuristicAfterMove | FinalversionAISCRIPT.py:176-186 | one ply moves the evaluation up by the bonus when the bot moves and down by it when player 1 moves, less two tenths for the two numbers removed |
| Rules.HeuristicOrdersByDifference | FinalversionAISCRIPT.py:176-186 | between nodes with equally many numbers, the evaluation orders them by score difference alone |
| Rules.Winner | FinalversionAISCRIPT.py:194-199 | player 1 wins exactly when their score is higher, player 2 wins exactly when theirs is higher, and it is a draw exactly when the scores are equal |
| Rules.WinnerIsSymmetric | FinalversionAISCRIPT.py:194-199 | swapping the two scores swaps the winner and keeps a draw |
| Rules.TurnStep | FinalversionAISCRIPT.py:165-171 | one turn removes two numbers, never lowers a score, raises the total by 1 to 3, and passes the turn |
| Rules.ReplayInvariants | FinalversionAISCRIPT.py:70-86 | over any run of in-range turns, `2n` numbers go in `n` turns, no score decreases, the total grows by between `n` and `3n`, and the player to move alternates with the parity of `n` |
| Game.Distance | FinalversionAISCRIPT.py:71 | two positions are at distance 1 exactly when one immediately follows the other, and at distance 0 exactly when they are the same |
| Game.Delete | FinalversionAISCRIPT.py:79-83 | `del numbers[i]` shortens the list by one, keeps the entries before `i` and shifts the later ones down |
| Game.NumberPairGame.constructor | FinalversionAISCRIPT.py:17-19 | a new game holds the given numbers and zero scores; player 1 moves first when the player starts, the bot otherwise |
| Game.NumberPairGame.ProcessTurn | FinalversionAISCRIPT.py:70-86 | a pair that is not adjacent leaves the game unchanged. An adjacent pair, given in either order, takes the game to the successor node of the lower index for the player to move. That state has two numbers fewer, the mover's score up by the bonus, the other score unchanged, and the turn passed |
| Game.NumberPairGame.BotPlay | FinalversionAISCRIPT.py:92-109 | with fewer than two numbers the game is unchanged and ends with the outcome of the scores. Otherwise, whether the bot uses minimax or alpha-beta, the game moves to the successor that three-ply minimax's first best move, searched as player 2, leads to |
| Search.BotSearch | FinalversionAISCRIPT.py:101-104 | whichever algorithm is chosen, the three-ply search from a root with at least two numbers returns minimax's first best move, an in-range adjacent pair |
| Search.MaxOf | FinalversionAISCRIPT.py:117-124 | the maximum bounds every value from above and is one of them |
| Search.MinOf | FinalversionAISCRIPT.py:126-133 | the minimum bounds every value from below and is one of them |
| Search.Mover | FinalversionAISCRIPT.py:119-155 | the mover tried at a node is the bot exactly at maximising nodes and player 1 exactly at minimising ones, whatever the node's own current player; both searches hard-wire it in the calls that build a child |
| Search.IsLeaf | FinalversionAISCRIPT.py:112 | a node is a leaf exactly when the depth is spent or it has no legal move; alpha-beta repeats the same test |
| Search.FirstIndex | FinalversionAISCRIPT.py:121-123 | the first position holding the value: it holds it and no earlier position does |
| Search.ChildValues | FinalversionAISCRIPT.py:118-120 | an inner node has one child value per legal move |
| Search.ChildValueAt | FinalversionAISCRIPT.py:118-120 | the k-th child value is the minimax value, one ply shallower and from the other side, of the child reached by `(k, k + 1)` with the mover fixed by the side |
| Search.BestMove | FinalversionAISCRIPT.py:112-133 | there is no move exactly at a leaf. Otherwise the move is the adjacent pair `(i, i + 1)` of the first child whose value equals the node's value |
| Search.ValueIsBestChild | FinalversionAISCRIPT.py:116-133 | at an inner node the value is attained by some child; it is the largest child value at a maximising node and the smallest at a minimising one |
| Search.ScanMaxStep | FinalversionAISCRIPT.py:121-123 | keeping a child only when strictly larger preserves "largest so far, at its first position" |
| Search.ScanMinStep | FinalversionAISCRIPT.py:130-132 | keeping a child only when strictly smaller preserves "smallest so far, at its first position" |
| Search.ScanMaxDone | FinalversionAISCRIPT.py:118-124 | a completed scan holds the maximum and the first position of it |
| Search.ScanMinDone | FinalversionAISCRIPT.py:127-133 | a completed scan holds the minimum and the first position of it |
| Search.FailSoftAgreesInWindow | FinalversionAISCRIPT.py:135-163 | the fail-soft guarantee implies the classic one: clamped to the window, the result equals the true value |
| Search.FailSoftFullWindow | FinalversionAISCRIPT.py:104 | from the window `(-inf, +inf)` the fail-soft result is the true value |
| Search.FailSoftMaxStep | FinalversionAISCRIPT.py:142-148 | one child at a maximising node, searched in `(max(alpha, max_eval), beta)`, keeps the node's result within the guarantee against the true maximum so far |
| Search.FailSoftMinStep | FinalversionAISCRIPT.py:154-160 | one child at a minimising node, searched in `(alpha, min(beta, min_eval))`, keeps the node's result within the guarantee against the true minimum so far |
| Search.FullWindowMaxChild | FinalversionAISCRIPT.py:145-148 | in the window `(max_eval, +inf)` a child's result beats `max_eval` exactly when its true value does, and then equals it |
| Search.FullWindowMinChild | FinalversionAISCRIPT.py:157-160 | in the window `(-inf, min_eval)` a child's result beats `min_eval` exactly when its true value does, and then equals it |
| Search.MaxNodeStep | FinalversionAISCRIPT.py:142-150 | one iteration of the maximising loop keeps the node's invariant; from the full window it keeps a child exactly when the scan over true values does |
| Search.MinNodeStep | FinalversionAISCRIPT.py:154-162 | one iteration of the minimising loop keeps the node's invariant; from the full window it keeps a child exactly when the scan over true values does |
| Search.MaxNodeDone | FinalversionAISCRIPT.py:149-151 | a maximising node that ends, by a cut or past its last move, returns within the guarantee against the maximum. From the full window it is never cut and returns the maximum and its first position |
| Search.MinNodeDone | FinalversionAISCRIPT.py:161-163 | a minimising node that ends, by a cut or past its last move, returns within the guarantee against the minimum. From the full window it is never cut and returns the minimum and its first position |
| Search.Minimax | FinalversionAISCRIPT.py:111-133 | minimax returns the reference minimax value and the first best move. At a leaf these are the heuristic and no move |
| Search.MinimaxMaximizing | FinalversionAISCRIPT.py:116-124 | the maximising loop, with the bot as mover and a strict `>`, ends on the largest child value and the first move attaining it |
| Search.MinimaxMinimizing | FinalversionAISCRIPT.py:125-133 | the minimising loop, with player 1 as mover and a strict `<`, ends on the smallest child value and the first move attaining it |
| Search.AlphaBeta | FinalversionAISCRIPT.py:135-163 | a leaf returns the heuristic and no move; an inner node returns an in-range adjacent move. For any window with `alpha < beta` the result meets the fail-soft guarantee against the minimax value. From `(-inf, +inf)` it returns exactly the minimax value and the minimax move |
| Search.SearchChild | FinalversionAISCRIPT.py:143-144 | one child searched in a window meets the fail-soft guarantee against that child's minimax value |
| Search.AlphaBetaMaximizing | FinalversionAISCRIPT.py:140-151 | the maximising loop with `alpha = max(alpha, eval)` and the cut at `beta <= alpha` meets the fail-soft guarantee. From the full window it returns the largest child value and its first move |
| Search.AlphaBetaMinimizing | FinalversionAISCRIPT.py:152-163 | the minimising loop with `beta = min(beta, eval)` and the cut at `beta <= alpha` meets the fail-soft guarantee. From the full window it returns the smallest child value and its first move |

## Left out

- The tkinter interface is not modelled: widgets, labels, dialogs, restarting and mode selection. It is presentation only.
- `on_number_click` and the `selected` list are not modelled. They only collect two clicked indices and pass them to `process_turn`, which is modelled.
- Game.NumberPairGame.constructor: the `bot_enabled` argument is not modelled. Nor is the constructor's direct call of `bot_play` when the bot is enabled and moves first. Both are left to the caller, which calls `BotPlay` on the new game, so a fresh bot-first game is returned before the bot's opening move.
- The `root.after(500, ...)` scheduling of the bot and the `bot_playing` flag are not modelled. These are event-loop concerns.
- `random.randint` is replaced: the initial numbers are a parameter of the constructor.
- The 15–25 count dialog is not modelled, because it is interactive input.
- IEEE floating point is not modelled. `len(numbers) / 10` is exact and the infinite bounds are symbolic.
- Game.NumberPairGame.ProcessTurn: an adjacent pair outside the list is excluded by its precondition, where Python would raise `IndexError`. Indices are natural numbers, so Python's negative indices are not modelled. The clicks that feed `process_turn` only produce in-range non-negative indices.
- Game.NumberPairGame.BotPlay: the algorithm is a boolean parameter rather than the `algorithm` string. A string that names neither algorithm would leave `best_move` unbound in Python and is not modelled.
- `Game Tree.py` is not part of this model. It is a separate sketch with its own scoring rule.

## Notes on the code

- The code has no "invalid move" error. `process_turn` silently ignores a pair that is not adjacent, and the model follows the code.
- Both searches hard-wire the mover: the bot at maximising nodes and player 1 at minimising ones. The search root is always built with player 2 to move, whatever the game's current player is, and the evaluator always scores from player 2's side. The model follows the code.
