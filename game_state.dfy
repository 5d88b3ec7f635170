/**
 * The search-tree node itself: an object whose fields the move operation
 * updates in place. Each method is proved to compute the corresponding
 * function of module GameRules on the object's current value.
 */
module GameStates {
  import opened Wrappers
  import opened GoBoard
  import opened GameRules
  import opened Selection

  class GameState {
    /** The board engine and reward board, shared by every state. */
    const engine: Engine
    var board: Board
    var playerJustMoved: int
    var nbMoves: nat
    var prune: bool
    var accumulatedReward: seq<real>
    var zeroSum: bool
    var epsilon: real
    var minmax: bool
    var minmaxP: int
    var iw: Option<Influence>
    var ib: Option<Influence>
    var immediate: bool

    /** The current value of every field. */
    function Snap(): State
      reads this
    {
      State(board, playerJustMoved, nbMoves, prune, accumulatedReward, zeroSum, epsilon,
            minmax, minmaxP, iw, ib, immediate)
    }

    predicate Valid()
      reads this
    {
      GameRules.Valid(Snap())
    }

    /** A root state on a copy of the engine's starting board, White having just moved. */
    constructor (engine: Engine, prune: bool, zeroSum: bool, epsilon: real, minmax: bool, minmaxP: int, immediate: bool)
      ensures this.engine == engine
      ensures Snap() == Root(engine, prune, zeroSum, epsilon, minmax, minmaxP, immediate)
    {
      this.engine := engine;
      this.board := engine.rootBoard;
      this.playerJustMoved := WHITE;
      this.nbMoves := 0;
      this.prune := prune;
      this.accumulatedReward := [0.0, 0.0];
      this.zeroSum := zeroSum;
      this.epsilon := epsilon;
      this.minmax := minmax;
      this.minmaxP := minmaxP;
      this.iw := None;
      this.ib := None;
      this.immediate := immediate;
    }

    /**
     * A new, independent state built as a default root and then given this
     * state's board and fields; the accumulated reward is not copied.
     */
    method Clone() returns (st: GameState)
      ensures fresh(st) && st.engine == engine
      ensures st.Snap() == Cloned(Snap())
    {
      st := new GameState(engine, prune, zeroSum, epsilon, minmax, minmaxP, immediate);
      st.board := board;
      st.playerJustMoved := playerJustMoved;
      st.nbMoves := nbMoves;
      st.iw := iw;
      st.ib := ib;
    }

    /**
     * Plays `c` for the player to move: books its reward when asked to,
     * counts the move, hands the turn over and updates the board.
     */
    method DoMove(c: Coord, update: bool)
      requires Valid()
      modifies this
      ensures Valid()
      ensures Snap() == AfterMove(engine, old(Snap()), c, update)
    {
      ghost var s0 := Snap();
      Reward(c, update);
      nbMoves := nbMoves + 1;
      playerJustMoved := 3 - playerJustMoved;
      board := engine.play(board, c, playerJustMoved);
      AfterMoveFields(engine, s0, c, update, Snap());
    }

    /**
     * The reward half of a move: with pruning and `update` the snapshots are
     * refreshed, and in immediate mode the one-step reward is booked.
     */
    method Reward(c: Coord, update: bool)
      requires Valid()
      modifies this`accumulatedReward, this`iw, this`ib
      ensures Valid()
      ensures var step := OneStep(engine, old(Snap()), c);
        && accumulatedReward == (if immediate then Credit(old(accumulatedReward), playerJustMoved, step.reward, zeroSum) else old(accumulatedReward))
        && iw == (if prune && update then step.iw else old(iw))
        && ib == (if prune && update then step.ib else old(ib))
    {
      if prune && update {
        var step := OneStep(engine, Snap(), c);
        iw, ib := step.iw, step.ib;
        if immediate {
          Book(step.reward);
        }
      } else if immediate {
        var step := OneStep(engine, Snap(), c);
        Book(step.reward);
      }
    }

    /** Credits `r` to the player to move and, in zero-sum mode, debits the player who just moved. */
    method Book(r: real)
      requires Valid()
      modifies this`accumulatedReward
      ensures Valid()
      ensures accumulatedReward == Credit(old(accumulatedReward), playerJustMoved, r, zeroSum)
    {
      accumulatedReward := accumulatedReward[(3 - playerJustMoved) - 1 := accumulatedReward[(3 - playerJustMoved) - 1] + r];
      if zeroSum {
        accumulatedReward := accumulatedReward[playerJustMoved - 1 := accumulatedReward[playerJustMoved - 1] - r];
      }
    }

    /**
     * The depth-p lookahead reward of `c`, evaluated on a clone that plays
     * `c` and a loop over every reply keeping the best one.
     */
    method GetImmediateRewardRec(c: Coord, p: int) returns (r: Result<real, Error>)
      requires Valid() && p >= 1
      ensures r == RecReward(engine, Snap(), c, p)
      decreases p
    {
      var reward := OneStep(engine, Snap(), c).reward;
      if p == 1 {
        return Ok(reward);
      }
      var next := Clone();
      next.DoMove(c, true);
      ghost var succ := next.Snap();
      assert succ == Successor(engine, Snap(), c);
      var nextMoves := AllMoves(engine, next.Snap());
      var nextRewardMax: Option<real> := None;
      for i := 0 to |nextMoves|
        invariant next.engine == engine && next.Snap() == succ
        invariant BestReply(engine, succ, nextMoves[i..], p - 1, nextRewardMax)
               == BestReply(engine, succ, nextMoves, p - 1, None)
      {
        var nextReward := next.GetImmediateRewardRec(nextMoves[i], p - 1);
        if nextReward.Err? {
          return nextReward;
        }
        assert nextMoves[i..][1..] == nextMoves[i + 1..];
        nextRewardMax := Raise(nextRewardMax, nextReward.value);
      }
      return Discount(reward, Ok(nextRewardMax));
    }

    /**
     * The moves offered to the search: all legal moves, or with pruning,
     * the ones whose ranking reward reaches the bar set by the best one.
     * Every move is ranked before the best one is sought, so a move that
     * fails to evaluate fails the call.
     */
    method GetMoves() returns (r: Result<seq<Coord>, Error>)
      requires Valid()
      ensures r == Moves(engine, Snap())
    {
      var allPossibleMoves := AllMoves(engine, Snap());
      if !prune {
        return Ok(allPossibleMoves);
      }
      ghost var rs := RewardsOf(engine, Snap(), allPossibleMoves);
      assert Moves(engine, Snap()) == Prune(allPossibleMoves, rs, epsilon);
      var allRewards := Collect(RewardsOf(engine, Snap(), allPossibleMoves));
      if allRewards.Err? {
        return Err(allRewards.error);
      }
      if |allRewards.value| == 0 {
        return Err(EmptyMoves);
      }
      var result := EpsilonOptimal(allPossibleMoves, allRewards.value, epsilon);
      return Ok(result);
    }
  }

  /**
   * The ranking loops of the move list: a scan for the best reward, then
   * every move whose reward reaches (1 - epsilon) * best - TOLERANCE, in order.
   */
  method EpsilonOptimal(moves: seq<Coord>, rewards: seq<real>, epsilon: real) returns (result: seq<Coord>)
    requires |moves| == |rewards| > 0
    ensures result == Keep(moves, rewards, Threshold(epsilon, Max(rewards)))
  {
    var bestI := 0;
    var bestReward := rewards[0];
    var length := |moves|;
    for i := 0 to length
      invariant 0 <= bestI < length && bestReward == rewards[bestI]
      invariant bestReward == Max(rewards[..if i == 0 then 1 else i])
    {
      assert rewards[..i + 1][..i] == rewards[..i];
      if rewards[i] > bestReward {
        bestI := i;
        bestReward := rewards[i];
      }
    }
    assert rewards[..length] == rewards;
    assert bestReward == Max(rewards);
    var bar := Threshold(epsilon, bestReward);
    result := [];
    for i := 0 to length
      invariant result == Keep(moves[..i], rewards[..i], bar)
    {
      assert moves[..i + 1][..i] == moves[..i];
      assert rewards[..i + 1][..i] == rewards[..i];
      if rewards[i] >= bar {
        result := result + [moves[i]];
      }
    }
    assert moves[..length] == moves;
  }
}
