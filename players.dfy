/**
 * The orchestrator's view of a player: the `player` struct binds a player
 * to its mark, and `playerMove` runs its Play under a deadline, recovering
 * a panic, so that a turn yields either a move or an error.
 */
module Players {
  import opened Ttt

  /** What one bounded call of a player's Play hands back. Failed covers an
      error returned by Play, a recovered panic and an elapsed deadline. */
  datatype Reply = Moved(move: Move) | Failed

  /** A player bound to one mark. `play` is the decision as the orchestrator
      observes it: a function of the board copy the player is handed, so it
      cannot reach the orchestrator's own board. */
  datatype Player = Player(mark: Mark, play: Board -> Reply)
}
