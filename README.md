# GameState: a verified model of the Go search-tree node

This project models `GameState` from `go/structure/game_state.py`. It is the
node that a Monte Carlo Tree Search driver for 9x9 Go creates, clones and
advances. The modelled behaviour is:

- the turn and move-count state machine of `do_move`;
- the per-player accumulated reward, including its zero-sum rule;
- the cached influence snapshots `IW`/`IB`;
- the one-step reward, and its depth-bounded minimax refinement;
- the epsilon-greedy move filter of `get_moves`;
- the mapping of a position to a game result of -1, 0 or 1.

The pachi board and the reward board are external code. They are modelled as
an `Engine` value (module `GoBoard`), whose fields are total functions over
opaque `Board`, `Stones` and `Influence` types:

- `rootBoard` is the position of the module-level environment that a new
  state clones;
- `play` is `play_inplace`, returning the new position;
- `legalCoords` is `get_legal_coords` with suicides filtered;
- `whiteStones` and `blackStones` are the stone sets;
- `coordToIdx` is `coord_to_idx`, that is `coord_to_ij` followed by `b.ij_to_idx`;
- `immediateReward` is the reward board's `get_immediate_reward`, returning
  the reward and both influence snapshots;
- `officialScore` is `official_score`.

The project has four parts:

- `wrappers.dfy`: `Option` and `Result`.
- `goboard.dfy`: the engine, the colours, the pass coordinate and the engine's
  reward triple.
- `selection.dfy`: module `Selection`, the sequence operations the loops
  compute. These are the maximum, the order-preserving filter, the running
  best of the reply loop, and the collection of per-move results.
- `game_rules.dfy` and `game_state.dfy`:
  - Module `GameRules` holds the state as a value (`State`) and each
    operation as a function of it, with the lemmas about them.
  - Module `GameStates` holds the class `GameState`, with the source's
    fields. Its methods update them in place, and each is proved to compute
    the `GameRules` function of its old value.

The failures of the source are modelled as values of `GameRules.Error`:

- `EmptyMoves` is the index error of `all_rewards[0]` on an empty move list.
- `BadDepth` is the failing `assert self.minmax_p >= 1`.
- `NoReplies` is a lookahead whose successor has no legal reply, where the
  source subtracts `-np.inf`.

Every error propagates to the caller, as an exception would. The tolerance
`1e-5` is the constant `GameRules.TOLERANCE`.

Rewards are exact `real`s, because the source only adds, subtracts,
multiplies by `1 - epsilon` and compares them.

`get_moves` ranks all moves before the first reward is looked at. This
follows the eager `map` of Python 2, for which the code was written (its
`all_rewards[0]` would not work on a Python 3 iterator). So a move that fails
to evaluate fails the call.

For a negative best reward the bar `(1 - epsilon) * best - 1e-5` rises with
epsilon. Once `epsilon * best < -1e-5` it lies above every reward, and
pruning returns an empty list (`GameRules.PruneEmptiesOnNegativeBest`). So
the widening of the move set by a larger epsilon is proved only for a
non-negative best reward (`GameRules.PruneWidens`, `GameRules.EpsilonWidens`).

Which function models which part of the source:

- `GameRules.Root`: `__init__` (go/structure/game_state.py:18-31).
- `GameRules.Cloned`: `clone` (:33-49).
- `GameRules.OneStep`: `get_immediate_reward_one_step` (:51-62).
- `GameRules.ImmediateReward`: `get_immediate_reward` (:64-69).
- `GameRules.RecReward`: `get_immediate_reward_rec` (:71-84).
- `GameRules.Successor`: the clone that plays the move (:76-77).
- `GameRules.BestReply`: the reply loop (:79-83), and `Selection.BestSoFar` the same fold over a list of results.
- `GameRules.Discount`: the final subtraction (:84).
- `GameRules.AllMoves`: `get_all_moves` (:90-93).
- `GameRules.RewardsOf` with `Selection.Collect`: the `map` of rankings (:103).
- `GameRules.Moves` and `GameRules.Prune`: `get_moves` (:95-115).
- `Selection.Max`: the scan for the best reward (:105-110).
- `Selection.Keep` with `GameRules.Threshold`: the filter loop and its bar (:111-115).
- `GameRules.Credit`: the accumulation (:121-123 and :126-128).
- `GameRules.AfterMove`: `do_move` (:117-131).
- `GameRules.GameResult`: `get_result` (:133-151).

A clone is independent of its original:

- `GameState.Clone` returns a `fresh` object.
- `GameState.GetImmediateRewardRec` has no `modifies` clause, although it
  plays moves on clones. So the verifier proves that the state it is called
  on keeps its board, count and rewards.

## Model

| member | source | states |
|---|---|---|
| GameRules.Root | go/structure/game_state.py:18-31 | a new state has White as the player who just moved (Black moves first), no moves, rewards [0, 0], no influence snapshots, the environment's board and the given flags |
| GameStates.GameState.constructor | go/structure/game_state.py:18-31 | the new object's fields are exactly the root state of the engine with the given flags |
| GameRules.Cloned | go/structure/game_state.py:33-49 | a clone agrees with the original on every field but the accumulated reward, which is [0, 0]; validity carries over |
| GameStates.GameState.Clone | go/structure/game_state.py:33-49 | returns a fresh object on the same engine whose fields are the clone of this state's fields |
| GameRules.OneStep | go/structure/game_state.py:51-62 | a pass earns 0 and returns the cached snapshots unchanged |
| GameRules.OneStepReads | go/structure/game_state.py:51-62 | the one-step reward depends only on the board, the player who just moved and the cached snapshots |
| GameRules.AfterMove | go/structure/game_state.py:117-131 | a move keeps the state valid: the player stays Black or White and there are two reward slots |
| GameRules.AfterMoveBookkeeping | go/structure/game_state.py:117-131 | the count rises by one; the turn passes to the other player; the board gets the move by the mover; the flags stay; in immediate mode the mover's slot gains the one-step reward and, with zero_sum, the other slot loses it, so the total is conserved; without zero_sum the other slot is untouched; without immediate the rewards are unchanged; the snapshots become the move's when prune and update hold, and stay as they were otherwise |
| GameRules.TwoMovesAlternate | go/structure/game_state.py:129-130 | two moves return the turn to the same player and add two to the count |
| GameRules.RootFirstMove | go/structure/game_state.py:129-131 | the first move from a root state takes the count from 0 to 1, makes Black the player who just moved, and plays Black's stone on the root board |
| GameStates.GameState.DoMove | go/structure/game_state.py:117-131 | the object keeps its invariant, and its new fields are the move function applied to its old fields |
| GameStates.GameState.Reward | go/structure/game_state.py:118-128 | the reward half of a move: the slots are credited in immediate mode and stay as they were otherwise; the snapshots become the move's when prune and update hold, and stay as they were otherwise; nothing else changes |
| GameStates.GameState.Book | go/structure/game_state.py:120-128 | the reward slots become the credit of the reward to the mover, with the zero-sum debit of the other player |
| GameRules.RecBase | go/structure/game_state.py:71-75 | at depth 1 the lookahead reward is the one-step reward |
| GameRules.RecStep | go/structure/game_state.py:71-84 | at depth p > 1, when every reply of the successor has a value, the lookahead reward is the one-step reward less the largest depth-(p-1) reply value |
| GameRules.RecNoReplies | go/structure/game_state.py:78-84 | a successor with no legal reply makes the lookahead fail with NoReplies |
| GameRules.BestReplyIsFold | go/structure/game_state.py:79-83 | the reply loop is the running-maximum fold over the replies' rewards, in move order |
| GameRules.Successor | go/structure/game_state.py:76-77 | the state a lookahead explores, a clone with the move played, is valid |
| GameRules.SuccessorFields | go/structure/game_state.py:76-77 | the successor has one more move, the other player to move and the move on its board; its snapshots are the move's fresh ones when pruning is on and the old ones otherwise; outside immediate mode its rewards are [0, 0] |
| GameRules.SuccessorEpsilon | go/structure/game_state.py:76-77 | the successor of a state with another epsilon is the same successor with that epsilon |
| GameRules.RecIgnoresEpsilon | go/structure/game_state.py:71-84 | the lookahead reward does not depend on epsilon |
| GameRules.BestReplyIgnoresEpsilon | go/structure/game_state.py:79-83 | nor does the reply loop |
| GameStates.GameState.GetImmediateRewardRec | go/structure/game_state.py:71-84 | the clone-and-loop evaluation returns exactly the lookahead reward of the current state at depth p |
| GameRules.ImmediateRewardDepthOne | go/structure/game_state.py:64-75 | with depth 1, the ranking reward is the one-step reward whether minimax is on or off |
| GameRules.RewardsIgnoreEpsilon | go/structure/game_state.py:103 | the ranking rewards of the legal moves do not depend on epsilon |
| GameRules.UnprunedMoves | go/structure/game_state.py:99-101 | without pruning the moves are all legal moves, unchanged |
| GameRules.PrunedMoves | go/structure/game_state.py:95-115 | with pruning, when every move evaluates, an empty move list is EmptyMoves; otherwise the moves are the ordered subsequence of the legal moves, containing a move exactly when its reward reaches (1 - epsilon) * best - TOLERANCE |
| GameRules.PruneKeeps | go/structure/game_state.py:102-115 | the same for any move list and its rewards |
| GameRules.PruneFails | go/structure/game_state.py:103 | a move that fails to evaluate makes pruning fail, with the error of the first failing move |
| GameRules.BestSurvives | go/structure/game_state.py:113 | with epsilon = 0, or epsilon >= 0 and best >= 0, the best reward reaches the bar |
| GameRules.PruneKeepsBest | go/structure/game_state.py:104-115 | in that case every move of best reward is kept, so a non-empty list gives a non-empty result |
| GameRules.MovesKeepBest | go/structure/game_state.py:95-115 | the same for the moves a state offers |
| GameRules.NegativeBestBar | go/structure/game_state.py:113 | when epsilon * best < -TOLERANCE the bar lies above the best reward |
| GameRules.PruneEmptiesOnNegativeBest | go/structure/game_state.py:104-115 | in that case pruning keeps no move at all |
| GameRules.ThresholdAntitone | go/structure/game_state.py:113 | for best >= 0 a larger epsilon gives a bar no higher |
| GameRules.PruneWidens | go/structure/game_state.py:102-115 | for best >= 0, raising epsilon keeps every move kept before, in order |
| GameRules.EpsilonWidens | go/structure/game_state.py:95-115 | for a state whose moves evaluate with best >= 0, raising epsilon keeps every move offered before, in order |
| GameStates.GameState.GetMoves | go/structure/game_state.py:95-115 | returns exactly the moves the state offers, and the same error |
| GameStates.EpsilonOptimal | go/structure/game_state.py:104-115 | the two ranking loops return the moves whose reward reaches the bar set by the maximum reward, in order |
| Selection.Max | go/structure/game_state.py:105-110 | the scan's result is an element of the rewards and no reward exceeds it |
| Selection.MaxUnique | go/structure/game_state.py:105-110 | an element that no other exceeds is the scan's result |
| Selection.KeepNone | go/structure/game_state.py:111-115 | a bar above every reward keeps nothing |
| Selection.KeepNoneAboveMax | go/structure/game_state.py:111-115 | a bar above the maximum keeps nothing |
| Selection.KeepMember | go/structure/game_state.py:111-115 | a move is kept exactly when it occurs at a position whose reward reaches the bar |
| Selection.KeepIsSubsequence | go/structure/game_state.py:111-115 | the kept moves are an ordered subsequence of the moves |
| Selection.KeepAntitone | go/structure/game_state.py:111-115 | lowering the bar keeps every move kept before, in order |
| Selection.BestSoFarIsMax | go/structure/game_state.py:79-83 | the running maximum fails exactly when a reply fails; it is empty only with no replies and no start value; otherwise it is a reply value (or the start value), and no reply exceeds it |
| Selection.BestSoFarOfValues | go/structure/game_state.py:79-83 | when every reply has a value, the loop from minus infinity ends at the largest of them |
| Selection.Collect | go/structure/game_state.py:103 | succeeds exactly when every result does, with the values in order; otherwise fails with the first failure |
| GameRules.GameResult | go/structure/game_state.py:133-151 | the result is -1, 0 or 1 |
| GameRules.ResultAntisymmetric | go/structure/game_state.py:133-151 | Black's result is the negation of White's, in both modes |
| GameRules.ImmediateResult | go/structure/game_state.py:136-143 | in immediate mode a player wins exactly when the sign of Black's lead favours them (positive for Black, negative for White), and draws exactly when the lead is 0 |
| GameRules.OfficialResult | go/structure/game_state.py:144-151 | otherwise a player wins exactly when the official score favours them (positive for White, negative for Black), and draws exactly when it is 0 |

## Left out

- The module-level environment (`gym.make`, `env.reset`, and the global reward board with its boundary setting) is I/O and global state. It appears only as the engine's `rootBoard`, `immediateReward` and `coordToIdx` (go/structure/game_state.py:8-12).
- The pachi board internals are uninterpreted engine functions, because they are foreign code. These are `play_inplace`, legality with suicide filtering, the stone sets, `coord_to_ij` and `official_score`.
- The influence and territory computation of the reward board is external code. It is an uninterpreted engine function too.
- `coord_to_idx` (:86-88) composes the pachi board's `coord_to_ij` and the reward board's `b.ij_to_idx`. The model folds both into the single engine function `coordToIdx`.
- The board is a value. `play_inplace` on the object's own board becomes an assignment of the new position, and board aliasing is not modelled. Nor is the sharing of the `IW`/`IB` snapshot objects between a clone and its original (:46-47): `Influence` is a value.
- GameRules.RecNoReplies: with no reply, the source subtracts `-np.inf` and gets `+inf`. The model returns the error `NoReplies` instead, and it does not model IEEE infinities, NaN or rounding.
- GameRules.RecReward: requires `p >= 1`, where the source's `assert` would fail. `GameRules.ImmediateReward` turns a depth below 1 into `BadDepth`.
- GameStates.GameState.Clone: passes the flags to the constructor. The source builds a default state and copies each flag afterwards, with the same final fields.
- GameStates.GameState.GetMoves: the two ranking loops are in the module method `GameStates.EpsilonOptimal`. The unused `best_i` is kept there but not returned.
- GameStates.GameState.Book: the accumulation code shared by the two reward branches of `do_move` is one helper. `GameStates.GameState.Reward` holds those two branches, and `DoMove` calls it before it counts the move, hands the turn over and plays the stone.
- Python 3 semantics of `map`, a lazy iterator, are not modelled.
- GameStates.GameState.constructor: takes every flag explicitly. The default arguments of `__init__` (all flags off, epsilon 0, depth 2) are not modelled (go/structure/game_state.py:18). Likewise, `DoMove` takes `update` explicitly, where `do_move` defaults it to true (:117).
- GameRules.ImmediateReward: with minimax on, a move whose successor has no reply is ranked `+inf` by the source, and with epsilon below 1 it survives pruning. In the model, that ranking fails with `NoReplies`, and so does `get_moves`.
