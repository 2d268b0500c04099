/**
 * The orchestrator of the web/terminal front end: one turn asks the player
 * for a move, checks it is valid, and applies it; the game loop alternates
 * the two players from the empty board until the game ends or a turn fails.
 */
module Game {
  import opened Wrappers
  import opened Ttt
  import opened Players

  /** Why a turn failed, and whose turn it was. */
  datatype TurnError = FailedToMove(mark: Mark) | NotValid(mark: Mark) | NotLegal(mark: Mark)

  /** playerTurn on values: the board after player p's turn on b, or the
      error that ends the game. */
  function Turn(b: Board, p: Player): (r: Result<Board, TurnError>)
    ensures r.Err? ==> r.error.mark == p.mark
    ensures r.Ok? <==> p.play(b).Moved? && b.Legal(p.play(b).move)
    ensures r.Ok? ==> r.value == b.Place(p.play(b).move, p.mark)
  {
    match p.play(b)
    case Failed => Err(FailedToMove(p.mark))
    case Moved(m) =>
      if !Valid(m) then Err(NotValid(p.mark))
      else if !b.Legal(m) then Err(NotLegal(p.mark))
      else Ok(b.Place(m, p.mark))
  }

  /** The three error classes of a turn, each exactly when it arises. */
  lemma TurnErrors(b: Board, p: Player)
    ensures Turn(b, p) == Err(FailedToMove(p.mark)) <==> p.play(b).Failed?
    ensures Turn(b, p) == Err(NotValid(p.mark)) <==> p.play(b).Moved? && !Valid(p.play(b).move)
    ensures Turn(b, p) == Err(NotLegal(p.mark)) <==> p.play(b).Moved? && Valid(p.play(b).move) && !b.Legal(p.play(b).move)
  {
  }

  /** playerTurn: the player sees a copy of the board; a failed or rejected
      move leaves the board as it was, an accepted one is applied in place. */
  method PlayerTurn(b: BoardVar, p: Player) returns (err: Option<TurnError>)
    modifies b
    ensures Turn(old(b.board), p).Ok? ==> err == None && b.board == Turn(old(b.board), p).value
    ensures Turn(old(b.board), p).Err? ==> err == Some(Turn(old(b.board), p).error) && b.board == old(b.board)
  {
    var reply := p.play(b.board);
    if reply.Failed? {
      return Some(FailedToMove(p.mark));
    }
    var move := reply.move;
    if !Valid(move) {
      return Some(NotValid(p.mark));
    }
    var applyErr := b.Apply(move, p.mark);
    if applyErr.Some? {
      return Some(NotLegal(p.mark));
    }
    return None;
  }

  /** Which of the two players is to move n turns after players[i]. */
  function Mover(i: nat, n: nat): (j: nat)
    requires i < 2
    ensures j < 2
    decreases n
  {
    if n == 0 then i else Mover(1 - i, n - 1)
  }

  /** The loop's `i = (i + 1) % 2` picks the same player. */
  lemma {:induction false} MoverParity(i: nat, n: nat)
    requires i < 2
    ensures Mover(i, n) == (i + n) % 2
    decreases n
  {
    if n > 0 {
      MoverParity(1 - i, n - 1);
    }
  }

  /** How a game ended: the final condition (NotEnd when a turn failed), the
      failed turn's error, the last board and the number of moves made. */
  datatype Outcome = Outcome(condition: Condition, error: Option<TurnError>, board: Board, turns: nat)

  /** The rest of a game from an open board with players[i] to move;
      `turns` counts the moves made from there on. */
  function PlayFrom(board: Board, players: seq<Player>, i: nat): (o: Outcome)
    requires |players| == 2 && i < 2
    requires board.Condition() == NotEnd
    ensures o.error.None? <==> o.condition != NotEnd
    decreases board.Free()
  {
    match Turn(board, players[i])
    case Err(e) => Outcome(NotEnd, Some(e), board, 0)
    case Ok(next) =>
      if next.Condition() != NotEnd then Outcome(next.Condition(), None, next, 1)
      else
        var o := PlayFrom(next, players, 1 - i);
        o.(turns := o.turns + 1)
  }

  /** What every game comes to: it ends on a board whose condition is the
      one reported; each move made fills one cell, so at most nine are
      made; a failed turn is blamed on the player whose turn it was; and a
      game is only ever won by the player who made the last move. */
  lemma {:induction false} GameEnds(board: Board, players: seq<Player>, i: nat)
    requires |players| == 2 && i < 2
    requires board.Condition() == NotEnd
    ensures Ended(board, players, i, PlayFrom(board, players, i))
    decreases board.Free()
  {
    PlayFromStep(board, players, i);
    var t := Turn(board, players[i]);
    if t.Ok? && t.value.Condition() == NotEnd {
      GameEnds(t.value, players, 1 - i);
      EndedStep(board, players, i, t.value, PlayFrom(t.value, players, 1 - i));
    } else {
      TurnWinner(board, players[i]);
      assert Mover(i, 1) == Mover(1 - i, 0) == 1 - i;
    }
  }

  /** What GameEnds states about the outcome o of a game from board with
      players[i] to move. */
  predicate Ended(board: Board, players: seq<Player>, i: nat, o: Outcome)
    requires |players| == 2 && i < 2
  {
    && o.board.Condition() == o.condition
    && o.turns == board.Free() - o.board.Free()
    && (o.error.Some? ==> o.error.value.mark == players[Mover(i, o.turns)].mark)
    && (o.condition == XWon ==> players[1 - Mover(i, o.turns)].mark == X)
    && (o.condition == OWon ==> players[1 - Mover(i, o.turns)].mark == O)
  }

  lemma EndedStep(board: Board, players: seq<Player>, i: nat, next: Board, rest: Outcome)
    requires |players| == 2 && i < 2
    requires next.Free() == board.Free() - 1
    requires Ended(next, players, 1 - i, rest)
    ensures Ended(board, players, i, rest.(turns := rest.turns + 1))
  {
    assert Mover(i, rest.turns + 1) == Mover(1 - i, rest.turns);
  }

  /** A turn on an open board can only win for the player who takes it. */
  lemma TurnWinner(board: Board, p: Player)
    requires board.Condition() == NotEnd
    ensures var t := Turn(board, p);
      && (t.Ok? && t.value.Condition() == XWon ==> p.mark == X)
      && (t.Ok? && t.value.Condition() == OWon ==> p.mark == O)
  {
    if Turn(board, p).Ok? {
      LastMoverWins(board, p.play(board).move, p.mark);
    }
  }

  /** The loop's `i = (i + 1) % 2` hands the turn to the other player. */
  lemma NextPlayer(i: nat)
    requires i < 2
    ensures (i + 1) % 2 == 1 - i
  {
  }

  /** One turn of PlayFrom: a failed turn ends the game where it stands, a
      finishing move ends it on the new board, and otherwise the rest of
      the game is the other player's, one move later. */
  lemma PlayFromStep(board: Board, players: seq<Player>, i: nat)
    requires |players| == 2 && i < 2
    requires board.Condition() == NotEnd
    ensures var t := Turn(board, players[i]);
      && (t.Err? ==> var o := PlayFrom(board, players, i);
            o.condition == NotEnd && o.error == Some(t.error) && o.board == board && o.turns == 0)
      && (t.Ok? && t.value.Condition() != NotEnd ==>
            PlayFrom(board, players, i) == Outcome(t.value.Condition(), None, t.value, 1))
      && (t.Ok? && t.value.Condition() == NotEnd ==>
            var rest := PlayFrom(t.value, players, 1 - i);
            PlayFrom(board, players, i) == rest.(turns := rest.turns + 1))
  {
  }

  /** playGame: from the empty board, players[0] first, alternate turns
      until the condition is no longer NotEnd or a turn fails. */
  method PlayGame(players: seq<Player>) returns (condition: Condition, err: Option<TurnError>)
    requires |players| == 2
    ensures err.Some? <==> condition == NotEnd
    ensures EmptyBoard.Condition() == NotEnd
    ensures var o := PlayFrom(EmptyBoard, players, 0);
      condition == o.condition && err == o.error
  {
    var board := new BoardVar(EmptyBoard);
    condition := NotEnd;
    EmptyBoardOpen();
    ghost var final := PlayFrom(EmptyBoard, players, 0);
    var i: nat := 0;
    ghost var turns: nat := 0;
    while condition == NotEnd
      invariant i < 2
      invariant condition == board.board.Condition()
      invariant condition == NotEnd ==> var rest := PlayFrom(board.board, players, i);
        final == rest.(turns := rest.turns + turns)
      invariant condition != NotEnd ==> final == Outcome(condition, None, board.board, turns)
      decreases board.board.Free()
    {
      PlayFromStep(board.board, players, i);
      err := PlayerTurn(board, players[i]);
      if err.Some? {
        return NotEnd, err;
      }
      condition := board.board.Condition();
      turns := turns + 1;
      NextPlayer(i);
      i := (i + 1) % 2;
    }
    err := None;
  }
}
