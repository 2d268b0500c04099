# Tic-tac-toe: the perfect player and the turn loop, in Dafny

This project models the core of shurcooL/tictactoe, a tic-tac-toe game
written in Go, and proves properties of it. The core has three parts:

- **The perfect player** (`player/perfect/perfect.go`). It lists the legal
  moves of a board. It scores each one as a guarantee (Loss < Tie < Win) by
  exhaustive minimax. It picks the strongest entry and, in `Play`, chooses a
  move among those that reach the strongest guarantee. On the empty board
  the search is skipped and every first move is listed as a Tie.
- **The turn orchestrator of the game front end** (`cmd/tictactoe/game.go`).
  `playerTurn` asks the player for a move, validates it and applies it to
  the board through a pointer. It maps each failure to its own error class.
  `playGame` alternates the players from the empty board, `players[0]`
  first. It stops when the board's condition is no longer NotEnd or a turn
  fails.
- **The command-line simulation** (`cmd/tictactoe/main.go`). It has the same
  loop. Its `playerTurn` has no separate validation step, so an invalid
  index and an occupied cell surface as one error from `Apply`.

The board primitives live in the root `ttt` package. Module `Ttt` writes
them minimally, from how the core calls them:
- nine cells in row-major order;
- `Move.Validate` accepts indices 0 to 8;
- `Apply` fails on an invalid index or an occupied cell, and otherwise sets
  exactly that cell;
- `Condition` checks the eight lines, then reports Tie on a full board and
  NotEnd otherwise.

The modules, one per part of the program:

- `Wrappers`: `Option` and `Result`.
- `Ttt`: cells, marks, moves, `Board` and its condition, and the class
  `BoardVar`, an addressable board whose `Apply` changes it in place.
- `Players`: the orchestrator's view of a player. A player is a mark plus
  an oracle from the board copy it is handed to a move or a failure.
- `Perfect`: the evaluator. Recursive functions (`LegalMoves`, `Value`,
  `Evaluate`, `Best`, `WithGuarantee`) specify it. The methods follow the
  Go loops and recursion (`ListLegalMoves`, `EvaluateBoard`, `EvaluateMove`,
  `Strongest`, `Play`) and are proved against those functions.
- `Optimality`: a game-theoretic reference, independent of the evaluator.
  `Secures(b, mark, m, g)` says that by playing `m`, `mark` can force an
  outcome at least `g` whatever the opponent answers. The module proves
  that the evaluator's guarantees are exactly these forced outcomes, and so
  that the move `Play` picks is a best move.
- `Game`: `playerTurn` and `playGame` of the game front end. `PlayFrom`
  specifies the rest of a game on values, and `PlayGame` is proved to
  compute it.
- `Simulate`: `playerTurn` and `simulateGame` of the command-line front
  end. They are proved to play the same game as `Game`, with the two
  move errors merged into one.

## Model

| member | source | states |
|---|---|---|
| Ttt.Valid | cmd/tictactoe/game.go:87-89 | `Move.Validate`: a move is valid exactly when it indexes one of the nine cells, 0 to 8 |
| Ttt.Board.Place | cmd/tictactoe/game.go:91 | placing a mark on a legal cell leaves exactly one free cell fewer |
| Ttt.Board.Condition | player/perfect/perfect.go:118-133 | the condition is NotEnd only while some cell is free |
| Ttt.ConditionMeaning | cmd/tictactoe/game.go:55 | each condition holds exactly when its line and free-cell facts hold: XWon iff X has a line; OWon iff O has one and X has none; Tie iff neither has a line and no cell is free; NotEnd iff neither has a line and a cell is free |
| Ttt.PlaceEffect | cmd/tictactoe/main.go:91-96 | a successful Apply sets exactly the move's cell to the mark and leaves every other cell as it was; the count of that mark goes up by one and the other mark's count stays |
| Ttt.LastMoverWins | player/perfect/perfect.go:118-130 | a move on an open board can only produce a win for the mark just placed |
| Ttt.EmptyBoardOpen | cmd/tictactoe/main.go:51-52 | the zero board, where every game starts, is NotEnd |
| Ttt.BoardVar.Apply | player/perfect/perfect.go:114-117 | on an invalid index the result is the invalid-move error; on a valid but occupied cell it is the occupied-cell error; in both cases the board is unchanged; on a legal move there is no error and the board is the old one with that cell set |
| Perfect.Invert | player/perfect/perfect.go:140-151 | the inverse of a guarantee ranks 2 minus its rank: Loss and Win swap, Tie stays |
| Perfect.Opponent | player/perfect/perfect.go:184-193 | the opponent of a mark is the other mark, so X and O swap |
| Perfect.LegalMoves | player/perfect/perfect.go:160-170 | a move is listed exactly when Apply accepts it (a valid index of a free cell); the list is strictly increasing; its length is the number of free cells |
| Perfect.ListLegalMoves | player/perfect/perfect.go:161-169 | the scan of the cells builds the list LegalMoves specifies |
| Perfect.OutcomeFor | player/perfect/perfect.go:118-132 | a finished condition is a Win for mark exactly when it is mark's own win, a Loss exactly when it is the other mark's win, and a Tie exactly when it is a tie |
| Perfect.Value | player/perfect/perfect.go:113-157 | the minimax value of a move: the outcome for its mover when it ends the game, otherwise the inverse of the opponent's strongest reply; ValueOfFinishingMove, ValueOfOpenMove and Optimality.ValueSecures state what it means |
| Perfect.Best | player/perfect/perfect.go:172-182 | the strongest guarantee of a non-empty list is held by one of its entries, and no entry ranks above it |
| Perfect.Evaluate | player/perfect/perfect.go:87-111 | one entry per legal move, the moves in the order of LegalMoves; on the empty board every entry is a Tie |
| Perfect.Scored | player/perfect/perfect.go:103-110 | the general path has one entry for each of the first n legal moves, and entry k is the k-th legal move with its Value |
| Perfect.EvaluateAt | player/perfect/perfect.go:103-110 | off the empty board, the entry of every legal move holds that move's minimax value |
| Perfect.ValueOfFinishingMove | player/perfect/perfect.go:118-132 | a move that ends the game is worth Win exactly when it gives the mover's mark the win, Loss exactly when it gives the other mark the win, and Tie exactly when the board is left full without a winner |
| Perfect.ValueOfOpenMove | player/perfect/perfect.go:133-154 | a move that leaves the game open is worth the inverse of the opponent's strongest reply: no reply is worth more to the opponent, and some reply reaches it |
| Perfect.EmptyBoardTies | player/perfect/perfect.go:90-101 | on the empty board the evaluation has nine entries, entry k being move k with guarantee Tie |
| Perfect.SingleFreeCell | player/perfect/perfect.go:87-111 | with one free cell, that cell is the only legal move, its entry is the only entry, and filling it ends the game |
| Perfect.WinningLastCell | player/perfect/perfect.go:119-130 | with one free cell whose filling wins for the mover, the evaluation is that cell alone, as a Win |
| Perfect.OneFreeCellEvaluation | player/random/random_test.go:14-22 | on the test's one-free-cell board the legal moves are exactly [4], and X's evaluation is the single entry (4, Win) |
| Perfect.Strongest | player/perfect/perfect.go:172-182 | the result is an entry of the list; no entry has a stronger guarantee; every entry before it has a strictly weaker one, so it is the first maximal entry |
| Perfect.EvaluateBoard | player/perfect/perfect.go:87-111 | the entries built by the loops are exactly Evaluate's |
| Perfect.TieMoves | player/perfect/perfect.go:90-101 | the fast-path loop builds the all-Tie list of the legal moves |
| Perfect.ScoreMoves | player/perfect/perfect.go:103-110 | the general loop builds the entries of all legal moves, each with its value |
| Perfect.EvaluateMove | player/perfect/perfect.go:113-157 | the guarantee computed on the private copy of the board is the minimax value of the move; the Apply panic cannot happen for a legal move |
| Perfect.StrongestReply | player/perfect/perfect.go:134-139 | re-evaluating the first strongest reply of the opponent yields the strongest guarantee among the opponent's entries |
| Perfect.Play | player/perfect/perfect.go:42-66 | a finished board gives the finished-game error; otherwise the move is legal and its entry holds the strongest guarantee of the evaluation |
| Perfect.WithGuarantee | player/perfect/perfect.go:59-65 | a move is among the strong moves exactly when some entry pairs it with the given guarantee |
| Perfect.CollectStrong | player/perfect/perfect.go:60-65 | the append loop builds exactly the strong moves, in order |
| Optimality.ValueSecures | player/perfect/perfect.go:113-157 | a move's value is at least g exactly when the move lets its mover force an outcome at least g, whatever the opponent answers |
| Optimality.ReplyHolds | player/perfect/perfect.go:133-154 | an opponent's reply is worth at most the inverse of g to the opponent exactly when the original mover can still force g after it |
| Optimality.BestHolds | player/perfect/perfect.go:55-57 | on an open, non-empty board the strongest guarantee is at least g exactly when the player to move can force g |
| Optimality.PerfectChoice | player/perfect/perfect.go:1-5 | the move Play picks is legal and forces every outcome that any legal move forces: it wins whenever a win can be forced and loses only when every move loses |
| Game.Turn | cmd/tictactoe/game.go:79-97 | a turn succeeds exactly when the player moves and the move is legal, and then the board is the old one with that cell set to the player's mark; every error carries the mark of the player whose turn it was |
| Game.TurnErrors | cmd/tictactoe/game.go:83-94 | the failed-to-move error arises exactly when the player fails; the not-valid error exactly when the index is out of range; the not-legal error exactly when the index is valid but the cell is taken |
| Game.PlayerTurn | cmd/tictactoe/game.go:79-97 | the turn applied in place: on success no error and the board that Turn gives; on failure Turn's error and the board unchanged |
| Game.Mover | cmd/tictactoe/game.go:35 | the player to move n turns after player i is one of the two players |
| Game.MoverParity | cmd/tictactoe/game.go:35 | that player is (i + n) mod 2, the index the loop's update produces |
| Game.PlayFrom | cmd/tictactoe/game.go:35-66 | the rest of a game reports an error exactly when it did not reach an end condition |
| Game.PlayFromStep | cmd/tictactoe/game.go:46-55 | a failed turn ends the game at once on the same board, after no further moves; a finishing move ends it on the new board; otherwise the other player continues one move later |
| Game.GameEnds | cmd/tictactoe/game.go:31-76 | every game ends on a board whose condition is the one reported; each move made fills one cell; a failed turn is blamed on the player whose turn it was; a win belongs to the player who moved last |
| Game.PlayGame | cmd/tictactoe/game.go:15-76 | the loop returns an error exactly when the condition it returns is NotEnd, and returns the condition and error of PlayFrom from the empty board with players[0] first |
| Simulate.Turn | cmd/tictactoe/main.go:84-97 | a turn fails to move exactly when the player fails; it fails with the combined error exactly when the move is invalid or its cell taken; on success the board gains the player's mark in that cell; errors carry the mark of the player whose turn it was |
| Simulate.Merge | cmd/tictactoe/main.go:91-94 | merging keeps the mark, and keeps a failure to move apart from the two move errors |
| Simulate.TurnAgrees | cmd/tictactoe/main.go:84-97 | the simulation's turn and the game's turn give the same board on success, and the same error up to the merge on failure |
| Simulate.PlayerTurn | cmd/tictactoe/main.go:84-97 | the turn applied in place: on success no error and Turn's board; on failure Turn's error and the board unchanged |
| Simulate.SimulateStep | cmd/tictactoe/main.go:59-70 | a failed turn of the simulation ends the game at once on the same board with the merged error; otherwise the game continues as in PlayFromStep |
| Simulate.SimulateGame | cmd/tictactoe/main.go:46-82 | what is displayed at the end is the final board of the game played by the game front end from the empty board with players[0] first, with its condition, and its error merged; an error is shown exactly when the condition is NotEnd |

## Left out

- `playerMove`, in both front ends, is not modelled. It runs the player's `Play` in a goroutine, races it against a deadline and the cell-click channel, and recovers a panic. Each turn is instead a call of the player's oracle, which answers a move or a failure.
- The oracle is a function of the board it is shown. Every board shown within one game is different, since each turn adds a mark, so any single game's replies fit one such function.
- The thinking-time padding and `time.Sleep` in `Play`, and the one-second pacing of each turn in both loops, are left out. They are wall-clock behaviour with no effect on the game.
- `rand.Intn` in `Play` is modelled as an arbitrary choice (`:|`) among the strong moves. Which move the random source draws is not a provable property.
- Optimality.BestHolds: stated for non-empty boards only. On the empty board `evaluateBoard` lists every move as a Tie without searching, and the claim that every first move really only guarantees a tie is not proved; the full game tree is beyond the verifier.
- Optimality.PerfectChoice: stated for non-empty boards only, for the same reason. The source's absolute claim that the player never loses also depends on the first-move claim, so it is proved only in the relative form: the pick is at least as good as any move.
- Perfect.Opponent: the model's mark type excludes the free state, so the Go panic on a free cell cannot arise.
- Perfect.EvaluateMove: the `panic("unreachable")` defaults of the Go switches cannot arise, because the guarantee and condition types have no other values.
- Rendering is left out: the terminal and browser output, the `runtime.GOARCH == "js"` branches and `display*` calls, and the message text of errors. Only the error class and the mark it names are kept.
- The human and the bad players are left out (a channel rendezvous, and a sleep followed by an error), and so are player names and images.
- The root `ttt` package is written from how the core calls it: its `Board`, `Move.Validate`, `Apply` and `Condition`. When both marks hold a line, the X line is taken to be looked at first.
- Game.PlayGame: the board is a local of the loop and is not returned, so its contract says nothing about it; Simulate.SimulateGame returns and states the final board.
- Nothing is proved about games between two perfect players, such as that they always tie.
