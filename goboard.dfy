/**
 * The board engine the game state is built on: the pachi board object, the
 * module-level reward board `b` and the player constants. None of their code
 * is modelled; each operation is an arbitrary total function, so everything
 * proved about the game state holds for every engine.
 */
module GoBoard {
  import opened Wrappers

  /** A board position (a pachi board handle, copied by value). */
  type Board(==)
  /** The stone set of one colour, as the board property returns it. */
  type Stones(==)
  /** A cached influence/territory snapshot of one colour. */
  type Influence(==)

  /** A board coordinate; PASS stands for not playing a stone. */
  type Coord = int

  const PASS: Coord := -1
  const BLACK: int := 1
  const WHITE: int := 2

  /** What the reward board returns for one move: the reward and the new snapshots. */
  datatype StepReward = StepReward(reward: real, iw: Option<Influence>, ib: Option<Influence>)

  /**
   * The collaborators, injected instead of read from module globals.
   * - rootBoard:        the environment's board after reset, cloned by every new state
   * - play:             play_inplace(coord, player), as a new board value
   * - legalCoords:      get_legal_coords(player, filter_suicides=True)
   * - whiteStones, blackStones: the board's stone properties
   * - coordToIdx:       coord_to_ij followed by ij_to_idx
   * - immediateReward:  the reward board's get_immediate_reward
   * - officialScore:    the board's official_score (positive favours White)
   */
  datatype Engine = Engine(
    rootBoard: Board,
    play: (Board, Coord, int) -> Board,
    legalCoords: (Board, int) -> seq<Coord>,
    whiteStones: Board -> Stones,
    blackStones: Board -> Stones,
    coordToIdx: (Board, Coord) -> int,
    immediateReward: (int, Stones, Stones, Stones, Stones, int, Option<Influence>, Option<Influence>) -> StepReward,
    officialScore: Board -> real)
}
