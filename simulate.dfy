/**
 * The command-line simulation: the same alternation of turns as the game
 * front end, but a turn checks the move only through Board.Apply, so an
 * invalid index and an occupied cell are reported as one error, and the
 * simulation ends by showing the last board with either the error or the
 * final condition.
 */
module Simulate {
  import opened Wrappers
  import opened Ttt
  import opened Players
  import Game

  /** Why a turn failed, and whose turn it was. */
  datatype TurnError = FailedToMove(mark: Mark) | BadMove(mark: Mark)

  /** playerTurn on values: the board after player p's turn on b, or the
      error that ends the simulation. */
  function Turn(b: Board, p: Player): (r: Result<Board, TurnError>)
    ensures r.Err? ==> r.error.mark == p.mark
    ensures r == Err(FailedToMove(p.mark)) <==> p.play(b).Failed?
    ensures r == Err(BadMove(p.mark)) <==> p.play(b).Moved? && !b.Legal(p.play(b).move)
    ensures r.Ok? ==> p.play(b).Moved? && r.value == b.Place(p.play(b).move, p.mark)
  {
    match p.play(b)
    case Failed => Err(FailedToMove(p.mark))
    case Moved(m) =>
      if !b.Legal(m) then Err(BadMove(p.mark))
      else Ok(b.Place(m, p.mark))
  }

  /** The error this front end reports for a failed turn of the game front
      end: the invalid and the illegal move become one. */
  function Merge(e: Game.TurnError): (r: TurnError)
    ensures r.mark == e.mark
    ensures r.FailedToMove? <==> e.FailedToMove?
  {
    match e
    case FailedToMove(mark) => FailedToMove(mark)
    case NotValid(mark) => BadMove(mark)
    case NotLegal(mark) => BadMove(mark)
  }

  /** The two front ends take the same turn: the same board when the move is
      accepted, the same error up to merging the two move errors. */
  lemma TurnAgrees(b: Board, p: Player)
    ensures Game.Turn(b, p).Ok? ==> Turn(b, p) == Ok(Game.Turn(b, p).value)
    ensures Game.Turn(b, p).Err? ==> Turn(b, p) == Err(Merge(Game.Turn(b, p).error))
  {
  }

  /** playerTurn: the move is applied in place if Apply accepts it; a failed
      or rejected move leaves the board as it was. */
  method PlayerTurn(b: BoardVar, p: Player) returns (err: Option<TurnError>)
    modifies b
    ensures Turn(old(b.board), p).Ok? ==> err == None && b.board == Turn(old(b.board), p).value
    ensures Turn(old(b.board), p).Err? ==> err == Some(Turn(old(b.board), p).error) && b.board == old(b.board)
  {
    var reply := p.play(b.board);
    if reply.Failed? {
      return Some(FailedToMove(p.mark));
    }
    var applyErr := b.Apply(reply.move, p.mark);
    if applyErr.Some? {
      return Some(BadMove(p.mark));
    }
    return None;
  }

  /** The error of a game outcome, as this front end reports it. */
  function MergeError(e: Option<Game.TurnError>): (r: Option<TurnError>)
    ensures r.Some? <==> e.Some?
    ensures r.Some? ==> r.value == Merge(e.value)
  {
    match e
    case None => None
    case Some(t) => Some(Merge(t))
  }

  /** One turn of the game, seen through this front end's turn: a failed
      turn ends the game on the same board with the merged error; otherwise
      the game goes on as Game.PlayFromStep says. */
  lemma SimulateStep(board: Board, players: seq<Player>, i: nat)
    requires |players| == 2 && i < 2
    requires board.Condition() == NotEnd
    ensures var t := Turn(board, players[i]);
      var o := Game.PlayFrom(board, players, i);
      && (t.Err? ==> o.condition == NotEnd && o.board == board && MergeError(o.error) == Some(t.error))
      && (t.Ok? && t.value.Condition() != NotEnd ==> o == Game.Outcome(t.value.Condition(), None, t.value, 1))
      && (t.Ok? && t.value.Condition() == NotEnd ==>
            var rest := Game.PlayFrom(t.value, players, 1 - i);
            o == rest.(turns := rest.turns + 1))
  {
    Game.PlayFromStep(board, players, i);
    TurnAgrees(board, players[i]);
  }

  /** simulateGame: from the empty board, players[0] first, alternate turns
      until the game ends or a turn fails; the result is what is shown at the
      end, the last board with the error or with the final condition. It
      plays the same game as the game front end. */
  method SimulateGame(players: seq<Player>) returns (board: Board, condition: Condition, err: Option<TurnError>)
    requires |players| == 2
    ensures err.Some? <==> condition == NotEnd
    ensures EmptyBoard.Condition() == NotEnd
    ensures var o := Game.PlayFrom(EmptyBoard, players, 0);
      board == o.board && condition == o.condition && err == MergeError(o.error)
  {
    var b := new BoardVar(EmptyBoard);
    condition := NotEnd;
    EmptyBoardOpen();
    ghost var final := Game.PlayFrom(EmptyBoard, players, 0);
    var i: nat := 0;
    ghost var turns: nat := 0;
    while condition == NotEnd
      invariant i < 2
      invariant condition == b.board.Condition()
      invariant condition == NotEnd ==> var rest := Game.PlayFrom(b.board, players, i);
        final == rest.(turns := rest.turns + turns)
      invariant condition != NotEnd ==> final == Game.Outcome(condition, None, b.board, turns)
      decreases b.board.Free()
    {
      SimulateStep(b.board, players, i);
      err := PlayerTurn(b, players[i]);
      if err.Some? {
        return b.board, NotEnd, err;
      }
      condition := b.board.Condition();
      turns := turns + 1;
      Game.NextPlayer(i);
      i := (i + 1) % 2;
    }
    return b.board, condition, None;
  }
}
