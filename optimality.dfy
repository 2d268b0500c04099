/**
 * What "perfect" means, stated without the evaluation: a game-theoretic
 * reference for tic-tac-toe, and the proof that the guarantee computed by
 * the evaluation is exactly the outcome a player can force.
 */
module Optimality {
  import opened Ttt
  import opened Perfect

  /** By playing m on b, mark can force an outcome at least as good as g,
      whatever the opponent answers. */
  ghost predicate Secures(b: Board, mark: Mark, m: Move, g: Guarantee)
    requires b.Legal(m)
    decreases b.Free(), 0
  {
    var after := b.Place(m, mark);
    if after.Condition() != NotEnd then OutcomeFor(after.Condition(), mark).Rank() >= g.Rank()
    else forall r :: after.Legal(r) ==> Holds(after.Place(r, Opponent(mark)), mark, g)
  }

  /** With mark to move on b, mark can force an outcome at least as good as g
      (on a finished board: the outcome already is). */
  ghost predicate Holds(b: Board, mark: Mark, g: Guarantee)
    decreases b.Free(), 1
  {
    if b.Condition() != NotEnd then OutcomeFor(b.Condition(), mark).Rank() >= g.Rank()
    else exists m :: b.Legal(m) && Secures(b, mark, m, g)
  }

  /** A finished game is a win for one side exactly when it is a loss for the other. */
  lemma OutcomeSwap(c: Condition, mark: Mark)
    requires c != NotEnd
    ensures OutcomeFor(c, Opponent(mark)) == Invert(OutcomeFor(c, mark))
  {
  }

  /** The guarantee evaluateMove computes is exact: mark's move m is worth at
      least g exactly when m lets mark force an outcome at least g. */
  lemma {:induction false} ValueSecures(b: Board, mark: Mark, m: Move, g: Guarantee)
    requires b.Legal(m)
    ensures Value(b, mark, m).Rank() >= g.Rank() <==> Secures(b, mark, m, g)
    decreases b.Free()
  {
    var after := b.Place(m, mark);
    if after.Condition() == NotEnd {
      var opponent := Opponent(mark);
      ValueOfOpenMove(b, mark, m);
      forall r | after.Legal(r)
        ensures Value(after, opponent, r).Rank() <= 2 - g.Rank() <==> Holds(after.Place(r, opponent), mark, g)
      {
        ReplyHolds(after, mark, r, g);
      }
      if Secures(b, mark, m, g) {
        var r :| after.Legal(r) && Value(after, opponent, r) == Invert(Value(b, mark, m));
        assert Holds(after.Place(r, opponent), mark, g);
      }
    }
  }

  /** The opponent's reply r on a is worth at most the inverse of g to the
      opponent exactly when mark can still force g afterwards. */
  lemma {:induction false} ReplyHolds(a: Board, mark: Mark, r: Move, g: Guarantee)
    requires a.Legal(r)
    ensures Value(a, Opponent(mark), r).Rank() <= 2 - g.Rank() <==> Holds(a.Place(r, Opponent(mark)), mark, g)
    decreases a.Free()
  {
    var opponent := Opponent(mark);
    var c := a.Place(r, opponent);
    assert Opponent(opponent) == mark;
    if c.Condition() != NotEnd {
      OutcomeSwap(c.Condition(), mark);
    } else {
      ValueOfOpenMove(a, opponent, r);
      forall m2 | c.Legal(m2)
        ensures Value(c, mark, m2).Rank() >= g.Rank() <==> Secures(c, mark, m2, g)
      {
        ValueSecures(c, mark, m2, g);
      }
      if Value(a, opponent, r).Rank() <= 2 - g.Rank() {
        var m2 :| c.Legal(m2) && Value(c, mark, m2) == Invert(Value(a, opponent, r));
        assert Secures(c, mark, m2, g);
      }
    }
  }

  /** On an open board the evaluation ranks the position exactly: its
      strongest guarantee is at least g exactly when mark can force g. The
      empty board is left out, because there evaluateBoard does not search. */
  lemma BestHolds(b: Board, mark: Mark, g: Guarantee)
    requires b.Condition() == NotEnd && b.Free() < 9
    ensures Best(Evaluate(b, mark)).Rank() >= g.Rank() <==> Holds(b, mark, g)
  {
    var moves := Evaluate(b, mark);
    var legal := LegalMoves(b);
    forall m | b.Legal(m)
      ensures Value(b, mark, m).Rank() <= Best(moves).Rank()
      ensures Value(b, mark, m).Rank() >= g.Rank() <==> Secures(b, mark, m, g)
    {
      assert m in legal;
      var k :| 0 <= k < |legal| && legal[k] == m;
      EvaluateAt(b, mark, k);
      ValueSecures(b, mark, m, g);
    }
    if Best(moves).Rank() >= g.Rank() {
      var k :| 0 <= k < |moves| && moves[k].guarantee == Best(moves);
      EvaluateAt(b, mark, k);
      assert b.Legal(legal[k]);
    }
  }

  /** The move Play picks, an entry holding the strongest guarantee, is a
      best move: whatever outcome any legal move lets mark force, this one
      forces it too. In particular it wins whenever a win can be forced and
      never loses when a loss can be avoided. */
  lemma PerfectChoice(b: Board, mark: Mark, k: nat)
    requires b.Free() < 9
    requires k < |Evaluate(b, mark)| && Evaluate(b, mark)[k].guarantee == Best(Evaluate(b, mark))
    ensures b.Legal(Evaluate(b, mark)[k].move)
    ensures forall m, g :: b.Legal(m) && Secures(b, mark, m, g) ==> Secures(b, mark, Evaluate(b, mark)[k].move, g)
  {
    var moves := Evaluate(b, mark);
    var legal := LegalMoves(b);
    var pick := moves[k].move;
    EvaluateAt(b, mark, k);
    forall m, g | b.Legal(m) && Secures(b, mark, m, g)
      ensures Secures(b, mark, pick, g)
    {
      assert m in legal;
      var j :| 0 <= j < |legal| && legal[j] == m;
      EvaluateAt(b, mark, j);
      ValueSecures(b, mark, m, g);
      ValueSecures(b, mark, pick, g);
    }
  }
}
