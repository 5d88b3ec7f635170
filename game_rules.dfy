/**
 * The game state as a value, and the behaviour of each of its operations as a
 * function of that value. The class in module GameStates keeps these fields
 * and its methods are proved to compute exactly these functions.
 */
module GameRules {
  import opened Wrappers
  import opened GoBoard
  import opened Selection

  /** The slack subtracted from the pruning bar to absorb rounding noise. */
  const TOLERANCE: real := 0.00001

  /**
   * Failures of `get_moves` and `get_immediate_reward`: EmptyMoves is the index error of ranking an
   * empty move list, BadDepth a failed `minmax_p >= 1` assertion, NoReplies a
   * lookahead whose successor has no legal reply (a minus-infinity maximum).
   */
  datatype Error = EmptyMoves | BadDepth | NoReplies

  /** Every field of a game state except the engine it is built on. */
  datatype State = State(
    board: Board,
    playerJustMoved: int,
    nbMoves: nat,
    prune: bool,
    accumulatedReward: seq<real>,
    zeroSum: bool,
    epsilon: real,
    minmax: bool,
    minmaxP: int,
    iw: Option<Influence>,
    ib: Option<Influence>,
    immediate: bool)

  /** The invariant every state keeps: one of the two players has just moved, and there is a reward slot per player. */
  predicate Valid(s: State)
  {
    (s.playerJustMoved == BLACK || s.playerJustMoved == WHITE) && |s.accumulatedReward| == 2
  }

  /** The player to move next. */
  function Mover(s: State): int
  {
    3 - s.playerJustMoved
  }

  /** A new root state: White is taken to have just moved, nothing is accumulated, no snapshot is cached. */
  function Root(e: Engine, prune: bool, zeroSum: bool, epsilon: real, minmax: bool, minmaxP: int, immediate: bool): (s: State)
    ensures Valid(s)
    ensures s.playerJustMoved == WHITE && Mover(s) == BLACK
    ensures s.nbMoves == 0 && s.accumulatedReward == [0.0, 0.0] && s.iw == None && s.ib == None
    ensures s.board == e.rootBoard
    ensures s.prune == prune && s.zeroSum == zeroSum && s.epsilon == epsilon
    ensures s.minmax == minmax && s.minmaxP == minmaxP && s.immediate == immediate
  {
    State(e.rootBoard, WHITE, 0, prune, [0.0, 0.0], zeroSum, epsilon, minmax, minmaxP, None, None, immediate)
  }

  /** A clone: every field is copied except the accumulated reward, which starts again from zero. */
  function Cloned(s: State): (r: State)
    ensures r.accumulatedReward == [0.0, 0.0]
    ensures r.(accumulatedReward := s.accumulatedReward) == s
    ensures Valid(s) ==> Valid(r)
  {
    s.(accumulatedReward := [0.0, 0.0])
  }

  /** All legal moves of the player to move, suicides excluded, pass included by the engine. */
  function AllMoves(e: Engine, s: State): seq<Coord>
  {
    e.legalCoords(s.board, Mover(s))
  }

  /**
   * The one-step reward of playing `c`: a pass earns nothing and keeps the
   * cached snapshots; any other move is played on a copy by the player to
   * move and handed to the engine together with the stones before and after.
   */
  function OneStep(e: Engine, s: State, c: Coord): (r: StepReward)
    ensures c == PASS ==> r == StepReward(0.0, s.iw, s.ib)
  {
    if c == PASS then StepReward(0.0, s.iw, s.ib)
    else
      var mover := Mover(s);
      var next := e.play(s.board, c, mover);
      e.immediateReward(mover, e.whiteStones(next), e.blackStones(next),
                        e.whiteStones(s.board), e.blackStones(s.board),
                        e.coordToIdx(s.board, c), s.iw, s.ib)
  }

  /** The one-step reward reads only the board, the player to move and the cached snapshots. */
  lemma OneStepReads(e: Engine, s: State, t: State, c: Coord)
    requires s.board == t.board && s.playerJustMoved == t.playerJustMoved
    requires s.iw == t.iw && s.ib == t.ib
    ensures OneStep(e, s, c) == OneStep(e, t, c)
  {
  }

  /** Adds `r` to the slot of the player to move and, in zero-sum mode, takes it from the other slot. */
  function Credit(acc: seq<real>, playerJustMoved: int, r: real, zeroSum: bool): seq<real>
    requires |acc| == 2 && (playerJustMoved == BLACK || playerJustMoved == WHITE)
  {
    var gained := acc[(3 - playerJustMoved) - 1 := acc[(3 - playerJustMoved) - 1] + r];
    if zeroSum then gained[playerJustMoved - 1 := gained[playerJustMoved - 1] - r] else gained
  }

  /**
   * The state after `c` is played. The reward is computed when pruning with
   * `update`, or when rewards are accumulated; it is credited only when they
   * are accumulated, and the snapshots are kept only in the first case.
   */
  function AfterMove(e: Engine, s: State, c: Coord, update: bool): (r: State)
    requires Valid(s)
    ensures Valid(r)
  {
    var step := OneStep(e, s, c);
    var acc := if s.immediate then Credit(s.accumulatedReward, s.playerJustMoved, step.reward, s.zeroSum)
               else s.accumulatedReward;
    var keep := s.prune && update;
    s.(board := e.play(s.board, c, Mover(s)),
       playerJustMoved := Mover(s),
       nbMoves := s.nbMoves + 1,
       accumulatedReward := acc,
       iw := if keep then step.iw else s.iw,
       ib := if keep then step.ib else s.ib)
  }

  /** A state with the fields a move produces is the state after the move. */
  lemma AfterMoveFields(e: Engine, s: State, c: Coord, update: bool, r: State)
    requires Valid(s)
    requires r.board == e.play(s.board, c, Mover(s)) && r.playerJustMoved == Mover(s) && r.nbMoves == s.nbMoves + 1
    requires r.prune == s.prune && r.zeroSum == s.zeroSum && r.epsilon == s.epsilon
    requires r.minmax == s.minmax && r.minmaxP == s.minmaxP && r.immediate == s.immediate
    requires r.accumulatedReward == if s.immediate then Credit(s.accumulatedReward, s.playerJustMoved, OneStep(e, s, c).reward, s.zeroSum) else s.accumulatedReward
    requires r.iw == (if s.prune && update then OneStep(e, s, c).iw else s.iw)
    requires r.ib == (if s.prune && update then OneStep(e, s, c).ib else s.ib)
    ensures r == AfterMove(e, s, c, update)
  {
  }

  /**
   * What a move changes: the count goes up by one, the turn passes to the
   * other player, the board gets the move, the flags stay; in immediate mode
   * the mover's slot gains the one-step reward and the other slot loses it
   * in zero-sum mode (so the total is unchanged) and keeps its value otherwise;
   * the snapshots are refreshed only when pruning with `update`.
   */
  lemma AfterMoveBookkeeping(e: Engine, s: State, c: Coord, update: bool)
    requires Valid(s)
    ensures var r, step := AfterMove(e, s, c, update), OneStep(e, s, c);
      && r.nbMoves == s.nbMoves + 1
      && r.playerJustMoved == Mover(s) && r.playerJustMoved != s.playerJustMoved
      && r.board == e.play(s.board, c, r.playerJustMoved)
      && r.prune == s.prune && r.zeroSum == s.zeroSum && r.epsilon == s.epsilon
      && r.minmax == s.minmax && r.minmaxP == s.minmaxP && r.immediate == s.immediate
      && (!s.immediate ==> r.accumulatedReward == s.accumulatedReward)
      && (s.immediate ==>
            r.accumulatedReward[Mover(s) - 1] == s.accumulatedReward[Mover(s) - 1] + step.reward)
      && (s.immediate && s.zeroSum ==>
            r.accumulatedReward[s.playerJustMoved - 1] == s.accumulatedReward[s.playerJustMoved - 1] - step.reward)
      && (!s.zeroSum ==> r.accumulatedReward[s.playerJustMoved - 1] == s.accumulatedReward[s.playerJustMoved - 1])
      && (s.zeroSum ==>
            r.accumulatedReward[0] + r.accumulatedReward[1] == s.accumulatedReward[0] + s.accumulatedReward[1])
      && (s.prune && update ==> r.iw == step.iw && r.ib == step.ib)
      && (!(s.prune && update) ==> r.iw == s.iw && r.ib == s.ib)
  {
  }

  /** Two moves give the turn back to the same player and count two moves. */
  lemma TwoMovesAlternate(e: Engine, s: State, c: Coord, d: Coord, u: bool, v: bool)
    requires Valid(s)
    ensures AfterMove(e, AfterMove(e, s, c, u), d, v).playerJustMoved == s.playerJustMoved
    ensures AfterMove(e, AfterMove(e, s, c, u), d, v).nbMoves == s.nbMoves + 2
  {
  }

  /** The first move from a root is Black's: the count goes from zero to one and the turn from White to Black. */
  lemma RootFirstMove(e: Engine, prune: bool, zeroSum: bool, epsilon: real, minmax: bool, minmaxP: int, immediate: bool, c: Coord, update: bool)
    ensures var r := AfterMove(e, Root(e, prune, zeroSum, epsilon, minmax, minmaxP, immediate), c, update);
      r.nbMoves == 1 && r.playerJustMoved == BLACK && r.board == e.play(e.rootBoard, c, BLACK)
  {
  }

  /** The state a lookahead explores after `c`: a clone with `c` played. */
  function Successor(e: Engine, s: State, c: Coord): (r: State)
    requires Valid(s)
    ensures Valid(r)
  {
    AfterMove(e, Cloned(s), c, true)
  }

  /**
   * The successor has one more move, the other player to move, no
   * accumulated history beyond the move itself, and the move's snapshots
   * when pruning is on, the old ones otherwise.
   */
  lemma SuccessorFields(e: Engine, s: State, c: Coord)
    requires Valid(s)
    ensures var r := Successor(e, s, c);
      && r.nbMoves == s.nbMoves + 1 && r.playerJustMoved == Mover(s)
      && r.board == e.play(s.board, c, Mover(s))
      && (s.prune ==> r.iw == OneStep(e, s, c).iw && r.ib == OneStep(e, s, c).ib)
      && (!s.prune ==> r.iw == s.iw && r.ib == s.ib)
      && (!s.immediate ==> r.accumulatedReward == [0.0, 0.0])
  {
    OneStepReads(e, s, Cloned(s), c);
  }

  /**
   * The depth-bounded lookahead reward of `c`: its one-step reward, less, at
   * depth above one, the best depth-(p-1) reward among the replies in the
   * successor state.
   */
  function RecReward(e: Engine, s: State, c: Coord, p: int): Result<real, Error>
    requires Valid(s) && p >= 1
    decreases p, 0
  {
    var reward := OneStep(e, s, c).reward;
    if p == 1 then Ok(reward)
    else
      var next := Successor(e, s, c);
      Discount(reward, BestReply(e, next, AllMoves(e, next), p - 1, None))
  }

  /** The reward less the best reply, when the reply loop found one. */
  function Discount(reward: real, best: Result<Option<real>, Error>): Result<real, Error>
  {
    match best
    case Err(x) => Err(x)
    case Ok(None) => Err(NoReplies)
    case Ok(Some(b)) => Ok(reward - b)
  }

  /**
   * The reply loop over the moves `ms` of `next`, from the running maximum
   * `best`: each reply's depth-q reward raises it, and a failing reply ends it.
   */
  function BestReply(e: Engine, next: State, ms: seq<Coord>, q: int, best: Option<real>): Result<Option<real>, Error>
    requires Valid(next) && q >= 1
    decreases q, 1, |ms|
  {
    if |ms| == 0 then Ok(best)
    else
      match RecReward(e, next, ms[0], q)
      case Err(x) => Err(x)
      case Ok(v) => BestReply(e, next, ms[1..], q, Raise(best, v))
  }

  /** The depth-q lookahead reward of each move of `ms` in `next`, in order. */
  ghost function Replies(e: Engine, next: State, ms: seq<Coord>, q: int): seq<Result<real, Error>>
    requires Valid(next) && q >= 1
  {
    seq(|ms|, i requires 0 <= i < |ms| => RecReward(e, next, ms[i], q))
  }

  /** The reply loop is the running-maximum fold over the replies' rewards. */
  lemma {:induction false} BestReplyIsFold(e: Engine, next: State, ms: seq<Coord>, q: int, best: Option<real>)
    requires Valid(next) && q >= 1
    ensures BestReply(e, next, ms, q, best) == BestSoFar(best, Replies(e, next, ms, q))
    decreases |ms|
  {
    if |ms| > 0 {
      var rs := Replies(e, next, ms, q);
      assert rs[1..] == Replies(e, next, ms[1..], q);
      if rs[0].Ok? {
        BestReplyIsFold(e, next, ms[1..], q, Raise(best, rs[0].value));
      }
    }
  }

  /** At depth one the lookahead is the one-step reward. */
  lemma RecBase(e: Engine, s: State, c: Coord)
    requires Valid(s)
    ensures RecReward(e, s, c, 1) == Ok(OneStep(e, s, c).reward)
  {
  }

  /**
   * Deeper, when every reply evaluates, the lookahead is the one-step reward
   * less the largest reply value.
   */
  lemma RecStep(e: Engine, s: State, c: Coord, p: int, vs: seq<real>)
    requires Valid(s) && p > 1
    requires |vs| == |AllMoves(e, Successor(e, s, c))| > 0
    requires forall i :: 0 <= i < |vs| ==>
      RecReward(e, Successor(e, s, c), AllMoves(e, Successor(e, s, c))[i], p - 1) == Ok(vs[i])
    ensures RecReward(e, s, c, p) == Ok(OneStep(e, s, c).reward - Max(vs))
  {
    var next := Successor(e, s, c);
    var ms := AllMoves(e, next);
    var rs := Replies(e, next, ms, p - 1);
    assert forall k :: 0 <= k < |rs| ==> rs[k] == Ok(vs[k]);
    BestReplyIsFold(e, next, ms, p - 1, None);
    BestSoFarOfValues(rs, vs);
  }

  /** A successor with no legal reply leaves the lookahead without a value. */
  lemma RecNoReplies(e: Engine, s: State, c: Coord, p: int)
    requires Valid(s) && p > 1
    requires |AllMoves(e, Successor(e, s, c))| == 0
    ensures RecReward(e, s, c, p) == Err(NoReplies)
  {
  }

  /** A different tolerance carries over to the successor and changes nothing else. */
  lemma SuccessorEpsilon(e: Engine, s: State, c: Coord, eps: real)
    requires Valid(s)
    ensures Successor(e, s.(epsilon := eps), c) == Successor(e, s, c).(epsilon := eps)
  {
    OneStepReads(e, Cloned(s), Cloned(s.(epsilon := eps)), c);
  }

  /** The lookahead never reads the pruning tolerance. */
  lemma {:induction false} RecIgnoresEpsilon(e: Engine, s: State, c: Coord, p: int, eps: real)
    requires Valid(s) && p >= 1
    ensures RecReward(e, s.(epsilon := eps), c, p) == RecReward(e, s, c, p)
    decreases p, 0
  {
    var s' := s.(epsilon := eps);
    OneStepReads(e, s, s', c);
    if p > 1 {
      var next := Successor(e, s, c);
      SuccessorEpsilon(e, s, c, eps);
      assert AllMoves(e, next.(epsilon := eps)) == AllMoves(e, next);
      BestReplyIgnoresEpsilon(e, next, AllMoves(e, next), p - 1, None, eps);
    }
  }

  /** Nor does the reply loop. */
  lemma {:induction false} BestReplyIgnoresEpsilon(e: Engine, next: State, ms: seq<Coord>, q: int, best: Option<real>, eps: real)
    requires Valid(next) && q >= 1
    ensures BestReply(e, next.(epsilon := eps), ms, q, best) == BestReply(e, next, ms, q, best)
    decreases q, 1, |ms|
  {
    if |ms| > 0 {
      RecIgnoresEpsilon(e, next, ms[0], q, eps);
      var r := RecReward(e, next, ms[0], q);
      if r.Ok? {
        BestReplyIgnoresEpsilon(e, next, ms[1..], q, Raise(best, r.value), eps);
      }
    }
  }

  /** The reward a move is ranked by: one step, or the lookahead when minimax is on. */
  function ImmediateReward(e: Engine, s: State, c: Coord): Result<real, Error>
    requires Valid(s)
  {
    if !s.minmax then Ok(OneStep(e, s, c).reward)
    else if s.minmaxP < 1 then Err(BadDepth)
    else RecReward(e, s, c, s.minmaxP)
  }

  /** Minimax at depth one ranks moves exactly as plain one-step rewards do. */
  lemma ImmediateRewardDepthOne(e: Engine, s: State, c: Coord)
    requires Valid(s) && s.minmaxP == 1
    ensures ImmediateReward(e, s, c) == ImmediateReward(e, s.(minmax := !s.minmax), c)
    ensures ImmediateReward(e, s, c) == Ok(OneStep(e, s, c).reward)
  {
    RecBase(e, s, c);
  }

  /** The ranking reward of every legal move, in move order. */
  function RewardsOf(e: Engine, s: State, ms: seq<Coord>): seq<Result<real, Error>>
    requires Valid(s)
  {
    seq(|ms|, i requires 0 <= i < |ms| => ImmediateReward(e, s, ms[i]))
  }

  /** The bar a move's reward must reach to survive pruning. */
  function Threshold(epsilon: real, best: real): real
  {
    (1.0 - epsilon) * best - TOLERANCE
  }

  /**
   * Pruning of the moves `all` by their ranking results `rs`: the first
   * failure if one fails, an error on an empty list, and otherwise the moves
   * whose reward reaches the bar set by the best one, in order.
   */
  function Prune(all: seq<Coord>, rs: seq<Result<real, Error>>, epsilon: real): Result<seq<Coord>, Error>
    requires |all| == |rs|
  {
    match Collect(rs)
    case Err(x) => Err(x)
    case Ok(ws) =>
      if |ws| == 0 then Err(EmptyMoves)
      else Ok(Keep(all, ws, Threshold(epsilon, Max(ws))))
  }

  /** The moves offered to the search: all legal moves, pruned by their ranking reward when pruning is on. */
  function Moves(e: Engine, s: State): Result<seq<Coord>, Error>
    requires Valid(s)
  {
    var all := AllMoves(e, s);
    if !s.prune then Ok(all) else Prune(all, RewardsOf(e, s, all), s.epsilon)
  }

  /** Without pruning the legal moves come back unchanged. */
  lemma UnprunedMoves(e: Engine, s: State)
    requires Valid(s) && !s.prune
    ensures Moves(e, s) == Ok(AllMoves(e, s))
  {
  }

  /**
   * When every move evaluates, pruning returns the ordered subsequence of
   * exactly those moves whose reward reaches the bar; an empty list is an error.
   */
  lemma PruneKeeps(all: seq<Coord>, rs: seq<Result<real, Error>>, ws: seq<real>, epsilon: real)
    requires |all| == |rs| == |ws|
    requires forall i :: 0 <= i < |rs| ==> rs[i] == Ok(ws[i])
    ensures |ws| == 0 ==> Prune(all, rs, epsilon) == Err(EmptyMoves)
    ensures |ws| > 0 ==>
      var t := Threshold(epsilon, Max(ws));
      && Prune(all, rs, epsilon) == Ok(Keep(all, ws, t))
      && Subsequence(Prune(all, rs, epsilon).value, all)
      && forall c :: c in Prune(all, rs, epsilon).value <==> exists i :: 0 <= i < |all| && all[i] == c && ws[i] >= t
  {
    assert Collect(rs).value == ws;
    if |ws| > 0 {
      var t := Threshold(epsilon, Max(ws));
      KeepIsSubsequence(all, ws, t);
      forall c ensures c in Keep(all, ws, t) <==> exists i :: 0 <= i < |all| && all[i] == c && ws[i] >= t {
        KeepMember(all, ws, t, c);
      }
    }
  }

  /**
   * For a state whose moves all evaluate, the pruned moves are exactly the
   * legal moves whose reward reaches the bar set by the best reward, in order.
   */
  lemma PrunedMoves(e: Engine, s: State, ws: seq<real>)
    requires Valid(s) && s.prune
    requires Collect(RewardsOf(e, s, AllMoves(e, s))) == Ok(ws)
    ensures |ws| == 0 ==> Moves(e, s) == Err(EmptyMoves)
    ensures |ws| > 0 ==>
      var all, t := AllMoves(e, s), Threshold(s.epsilon, Max(ws));
      && Moves(e, s) == Ok(Keep(all, ws, t))
      && Subsequence(Moves(e, s).value, all)
      && forall c :: c in Moves(e, s).value <==> exists i :: 0 <= i < |all| && all[i] == c && ws[i] >= t
  {
    PruneKeeps(AllMoves(e, s), RewardsOf(e, s, AllMoves(e, s)), ws, s.epsilon);
  }

  /** A move that fails to evaluate makes pruning fail, with the error of the first move that fails. */
  lemma PruneFails(all: seq<Coord>, rs: seq<Result<real, Error>>, epsilon: real, i: nat)
    requires |all| == |rs| && i < |rs| && rs[i].Err?
    ensures Prune(all, rs, epsilon).Err?
    ensures exists k :: 0 <= k <= i && rs[k] == Err(Prune(all, rs, epsilon).error) && forall j :: 0 <= j < k ==> rs[j].Ok?
  {
  }

  /**
   * A move of best reward survives the bar when epsilon is zero, or when
   * epsilon and the best reward are both non-negative.
   */
  lemma BestSurvives(epsilon: real, best: real)
    requires epsilon == 0.0 || (epsilon >= 0.0 && best >= 0.0)
    ensures best >= Threshold(epsilon, best)
  {
    assert epsilon * best >= 0.0;
  }

  /** Under those conditions pruning keeps every best move, so a non-empty list stays non-empty. */
  lemma PruneKeepsBest(all: seq<Coord>, rs: seq<Result<real, Error>>, ws: seq<real>, epsilon: real)
    requires |all| == |rs| == |ws| > 0
    requires forall i :: 0 <= i < |rs| ==> rs[i] == Ok(ws[i])
    requires epsilon == 0.0 || (epsilon >= 0.0 && Max(ws) >= 0.0)
    ensures Prune(all, rs, epsilon).Ok? && |Prune(all, rs, epsilon).value| > 0
    ensures forall i :: 0 <= i < |ws| && ws[i] == Max(ws) ==> all[i] in Prune(all, rs, epsilon).value
  {
    PruneKeeps(all, rs, ws, epsilon);
    var t := Threshold(epsilon, Max(ws));
    BestSurvives(epsilon, Max(ws));
    forall i | 0 <= i < |ws| && ws[i] == Max(ws) ensures all[i] in Keep(all, ws, t) {
      KeepMember(all, ws, t, all[i]);
    }
    var i :| 0 <= i < |ws| && ws[i] == Max(ws);
    assert all[i] in Keep(all, ws, t);
  }

  /** The same for a state: with epsilon zero, or both epsilon and the best reward non-negative, every best move is offered. */
  lemma MovesKeepBest(e: Engine, s: State, ws: seq<real>)
    requires Valid(s) && s.prune
    requires Collect(RewardsOf(e, s, AllMoves(e, s))) == Ok(ws)
    requires |ws| > 0 && (s.epsilon == 0.0 || (s.epsilon >= 0.0 && Max(ws) >= 0.0))
    ensures Moves(e, s).Ok? && |Moves(e, s).value| > 0
    ensures forall i :: 0 <= i < |ws| && ws[i] == Max(ws) ==> AllMoves(e, s)[i] in Moves(e, s).value
  {
    PruneKeepsBest(AllMoves(e, s), RewardsOf(e, s, AllMoves(e, s)), ws, s.epsilon);
  }

  /** Once epsilon times a negative best reward exceeds the tolerance, the bar lies above the best reward. */
  lemma NegativeBestBar(epsilon: real, best: real)
    requires epsilon * best < -TOLERANCE
    ensures Threshold(epsilon, best) > best
  {
  }

  /** In that case the bar lies above every reward and pruning keeps no move at all. */
  lemma PruneEmptiesOnNegativeBest(all: seq<Coord>, rs: seq<Result<real, Error>>, ws: seq<real>, epsilon: real, best: real)
    requires |all| == |rs| == |ws| > 0
    requires forall i :: 0 <= i < |rs| ==> rs[i] == Ok(ws[i])
    requires best == Max(ws) && epsilon * best < -TOLERANCE
    ensures Prune(all, rs, epsilon) == Ok([])
  {
    NegativeBestBar(epsilon, best);
    KeepNoneAboveMax(all, ws, Threshold(epsilon, best));
    assert Collect(rs).value == ws;
  }

  /** With a non-negative best reward, a larger epsilon gives a bar no higher. */
  lemma ThresholdAntitone(lo: real, hi: real, best: real)
    requires lo <= hi && best >= 0.0
    ensures Threshold(hi, best) <= Threshold(lo, best)
  {
    assert (hi - lo) * best >= 0.0;
  }

  /** With a non-negative best reward, raising epsilon keeps every move kept before, in order. */
  lemma PruneWidens(all: seq<Coord>, rs: seq<Result<real, Error>>, ws: seq<real>, lo: real, hi: real)
    requires |all| == |rs| == |ws| > 0
    requires forall i :: 0 <= i < |rs| ==> rs[i] == Ok(ws[i])
    requires Max(ws) >= 0.0 && lo <= hi
    ensures Prune(all, rs, lo).Ok? && Prune(all, rs, hi).Ok?
    ensures Subsequence(Prune(all, rs, lo).value, Prune(all, rs, hi).value)
  {
    assert Collect(rs).value == ws;
    ThresholdAntitone(lo, hi, Max(ws));
    KeepAntitone(all, ws, Threshold(hi, Max(ws)), Threshold(lo, Max(ws)));
  }

  /** The ranking rewards do not depend on the tolerance. */
  lemma RewardsIgnoreEpsilon(e: Engine, s: State, eps: real)
    requires Valid(s)
    ensures RewardsOf(e, s.(epsilon := eps), AllMoves(e, s)) == RewardsOf(e, s, AllMoves(e, s))
  {
    var all := AllMoves(e, s);
    forall i | 0 <= i < |all| ensures ImmediateReward(e, s.(epsilon := eps), all[i]) == ImmediateReward(e, s, all[i]) {
      OneStepReads(e, s, s.(epsilon := eps), all[i]);
      if s.minmax && s.minmaxP >= 1 {
        RecIgnoresEpsilon(e, s, all[i], s.minmaxP, eps);
      }
    }
  }

  /**
   * For a state whose moves all evaluate with a non-negative best reward,
   * raising epsilon keeps every move offered before, in order.
   */
  lemma EpsilonWidens(e: Engine, s: State, ws: seq<real>, lo: real, hi: real)
    requires Valid(s) && s.prune
    requires Collect(RewardsOf(e, s, AllMoves(e, s))) == Ok(ws)
    requires |ws| > 0 && Max(ws) >= 0.0 && lo <= hi
    ensures Moves(e, s.(epsilon := lo)).Ok? && Moves(e, s.(epsilon := hi)).Ok?
    ensures Subsequence(Moves(e, s.(epsilon := lo)).value, Moves(e, s.(epsilon := hi)).value)
  {
    var all := AllMoves(e, s);
    var rs := RewardsOf(e, s, all);
    RewardsIgnoreEpsilon(e, s, lo);
    RewardsIgnoreEpsilon(e, s, hi);
    PruneWidens(all, rs, ws, lo, hi);
  }

  /**
   * The outcome for `player`: in immediate mode by the sign of Black's
   * accumulated lead (positive favours Black), otherwise by the official
   * score (positive favours White); 1 a win, 0 a draw, -1 a loss.
   */
  function GameResult(e: Engine, s: State, player: int): (r: int)
    requires Valid(s)
    ensures r == -1 || r == 0 || r == 1
  {
    if s.immediate then
      var diff := s.accumulatedReward[BLACK - 1] - s.accumulatedReward[WHITE - 1];
      if (diff > 0.0 && player == BLACK) || (diff < 0.0 && player == WHITE) then 1
      else if diff == 0.0 then 0
      else -1
    else
      var score := e.officialScore(s.board);
      if (score > 0.0 && player == WHITE) || (score < 0.0 && player == BLACK) then 1
      else if score == 0.0 then 0
      else -1
  }

  /** What one player wins the other loses, in both modes. */
  lemma ResultAntisymmetric(e: Engine, s: State)
    requires Valid(s)
    ensures GameResult(e, s, BLACK) == -GameResult(e, s, WHITE)
  {
  }

  /** In immediate mode a player wins exactly when the accumulated lead is theirs, and draws exactly on a tie. */
  lemma ImmediateResult(e: Engine, s: State, player: int)
    requires Valid(s) && s.immediate && (player == BLACK || player == WHITE)
    ensures var diff := s.accumulatedReward[0] - s.accumulatedReward[1];
      && (GameResult(e, s, player) == 1 <==> (diff > 0.0 && player == BLACK) || (diff < 0.0 && player == WHITE))
      && (GameResult(e, s, player) == 0 <==> diff == 0.0)
  {
  }

  /** Otherwise a positive official score is a win for White and a loss for Black. */
  lemma OfficialResult(e: Engine, s: State, player: int)
    requires Valid(s) && !s.immediate && (player == BLACK || player == WHITE)
    ensures var score := e.officialScore(s.board);
      && (GameResult(e, s, player) == 1 <==> (score > 0.0 && player == WHITE) || (score < 0.0 && player == BLACK))
      && (GameResult(e, s, player) == 0 <==> score == 0.0)
  {
  }
}
