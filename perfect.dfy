/**
 * The perfect player: an exhaustive minimax evaluation of every legal move.
 * Recursive functions give the value of each move; the methods follow the
 * loops and the recursion of the Go code and are proved against them.
 */
module Perfect {
  import opened Wrappers
  import opened Ttt

  /** What a move guarantees its mover, ordered Loss < Tie < Win. */
  datatype Guarantee = Loss | Tie | Win {
    function Rank(): nat {
      match this
      case Loss => 0
      case Tie => 1
      case Win => 2
    }
  }

  /** The same outcome seen from the other side. */
  function Invert(g: Guarantee): (r: Guarantee)
    ensures r.Rank() == 2 - g.Rank()
  {
    match g
    case Loss => Win
    case Tie => Guarantee.Tie
    case Win => Loss
  }

  datatype EvaluatedMove = EvaluatedMove(move: Move, guarantee: Guarantee)

  datatype PlayError = FinishedGame

  /** opponentOf; the type of marks leaves out the free state, on which the
      Go code panics. The result is the other mark, so X and O swap. */
  function Opponent(mark: Mark): (r: Mark)
    ensures r != mark
  {
    if mark == X then O else X
  }

  /** What a finished condition means for mark. */
  function OutcomeFor(c: Condition, mark: Mark): (g: Guarantee)
    requires c != NotEnd
    ensures g == Win <==> c == (if mark == X then XWon else OWon)
    ensures g == Loss <==> c == (if mark == X then OWon else XWon)
    ensures g == Guarantee.Tie <==> c == Condition.Tie
  {
    match c
    case XWon => if mark == X then Win else Loss
    case OWon => if mark == O then Win else Loss
    case Tie => Guarantee.Tie
  }

  // ---------------------------------------------------------------- legalMoves

  /** The free cells with index at least i, in increasing order. */
  function LegalFrom(b: Board, i: nat): (r: seq<Move>)
    requires i <= 9
    ensures forall m {:trigger m in r} :: m in r <==> i <= m < 9 && b.cells[m] == F
    ensures forall j, k :: 0 <= j < k < |r| ==> r[j] < r[k]
    decreases 9 - i
  {
    if i == 9 then []
    else
      var rest := LegalFrom(b, i + 1);
      if b.cells[i] == F then
        assert forall k :: 0 <= k < |rest| ==> rest[k] in rest;
        [i] + rest
      else rest
  }

  lemma {:induction false} LegalFromCount(b: Board, i: nat)
    requires i <= 9
    ensures |LegalFrom(b, i)| == Count(b.cells[i..], F)
    decreases 9 - i
  {
    if i < 9 {
      LegalFromCount(b, i + 1);
      assert b.cells[i..][1..] == b.cells[i + 1..];
    }
  }

  /** The moves Apply accepts on b. */
  function LegalMoves(b: Board): (r: seq<Move>)
    ensures forall m {:trigger m in r} :: m in r <==> b.Legal(m)
    ensures forall k :: 0 <= k < |r| ==> b.Legal(r[k])
    ensures forall j, k :: 0 <= j < k < |r| ==> r[j] < r[k]
    ensures |r| == b.Free()
  {
    var r := LegalFrom(b, 0);
    LegalFromCount(b, 0);
    assert b.cells[0..] == b.cells;
    assert forall k :: 0 <= k < |r| ==> r[k] in r;
    r
  }

  /** legalMoves: collect the free cells, scanning the board in order. */
  method ListLegalMoves(b: Board) returns (moves: seq<Move>)
    ensures moves == LegalMoves(b)
  {
    moves := [];
    for i := 0 to 9
      invariant moves + LegalFrom(b, i) == LegalMoves(b)
    {
      if b.cells[i] == F {
        moves := moves + [i];
      }
    }
  }

  // ---------------------------------------------------------- the evaluation

  /** The strongest guarantee among the entries. */
  function Best(ms: seq<EvaluatedMove>): (g: Guarantee)
    requires |ms| > 0
    ensures exists k :: 0 <= k < |ms| && ms[k].guarantee == g
    ensures forall k :: 0 <= k < |ms| ==> ms[k].guarantee.Rank() <= g.Rank()
  {
    if |ms| == 1 then ms[0].guarantee
    else
      var rest := Best(ms[1..]);
      assert forall k :: 1 <= k < |ms| ==> ms[k] == ms[1..][k - 1];
      if ms[0].guarantee.Rank() >= rest.Rank() then ms[0].guarantee else rest
  }

  /** evaluateMove: what mark playing m on b guarantees, if both sides then
      play their strongest moves. */
  function Value(b: Board, mark: Mark, m: Move): Guarantee
    requires b.Legal(m)
    decreases b.Free(), 0, 0
  {
    var after := b.Place(m, mark);
    if after.Condition() != NotEnd then OutcomeFor(after.Condition(), mark)
    else Invert(Best(Evaluate(after, Opponent(mark))))
  }

  /** evaluateBoard: one entry per legal move, in the order of LegalMoves; on
      the empty board every entry is a Tie without searching, and otherwise
      each entry holds the Value of its move (EvaluateAt). */
  function Evaluate(b: Board, mark: Mark): (r: seq<EvaluatedMove>)
    ensures |r| == |LegalMoves(b)|
    ensures forall k {:trigger r[k]} :: 0 <= k < |r| ==> r[k].move == LegalMoves(b)[k]
    ensures b.Free() == 9 ==> forall k :: 0 <= k < |r| ==> r[k].guarantee == Guarantee.Tie
    decreases b.Free(), 2, 0
  {
    var legal := LegalMoves(b);
    if |legal| == 9 then Ties(legal) else Scored(b, mark, |legal|)
  }

  function Ties(moves: seq<Move>): (r: seq<EvaluatedMove>)
    ensures |r| == |moves|
    ensures forall k {:trigger r[k]} :: 0 <= k < |r| ==> r[k] == EvaluatedMove(moves[k], Guarantee.Tie)
  {
    seq(|moves|, k requires 0 <= k < |moves| => EvaluatedMove(moves[k], Guarantee.Tie))
  }

  /** The entry of the k-th legal move: the move with its Value. */
  function Entry(b: Board, mark: Mark, k: nat): (e: EvaluatedMove)
    requires k < |LegalMoves(b)|
    ensures e.move == LegalMoves(b)[k]
    decreases b.Free(), 0, 1
  {
    var m := LegalMoves(b)[k];
    EvaluatedMove(m, Value(b, mark, m))
  }

  /** The entries of the first n legal moves, in order. */
  function Scored(b: Board, mark: Mark, n: nat): (r: seq<EvaluatedMove>)
    requires n <= |LegalMoves(b)|
    ensures |r| == n
    ensures forall k {:trigger r[k]} :: 0 <= k < n ==> r[k] == Entry(b, mark, k)
    decreases b.Free(), 1, n
  {
    if n == 0 then []
    else
      var rest := Scored(b, mark, n - 1);
      rest + [Entry(b, mark, n - 1)]
  }

  /** Off the empty board, the entry of each legal move holds its Value. */
  lemma EvaluateAt(b: Board, mark: Mark, k: nat)
    requires b.Free() < 9 && k < |LegalMoves(b)|
    ensures Evaluate(b, mark)[k].guarantee == Value(b, mark, LegalMoves(b)[k])
  {
    assert Evaluate(b, mark)[k] == Entry(b, mark, k);
  }

  // ------------------------------------------------- properties of the value

  /** A move that ends the game is worth what the end means for its mover:
      Win when it completes the mover's line, Loss when the resulting
      condition is a win for the other mark, Tie when it fills the board. */
  lemma ValueOfFinishingMove(b: Board, mark: Mark, m: Move)
    requires b.Legal(m) && b.Place(m, mark).Condition() != NotEnd
    ensures var c := b.Place(m, mark).Condition();
      && (Value(b, mark, m) == Win <==> c == (if mark == X then XWon else OWon))
      && (Value(b, mark, m) == Loss <==> c == (if mark == X then OWon else XWon))
      && (Value(b, mark, m) == Guarantee.Tie <==> c == Condition.Tie)
  {
  }

  /** A move that leaves the game open is worth the inverse of the strongest
      reply the opponent has: no reply does better than that for the
      opponent, and some reply reaches it. */
  lemma ValueOfOpenMove(b: Board, mark: Mark, m: Move)
    requires b.Legal(m) && b.Place(m, mark).Condition() == NotEnd
    ensures var after := b.Place(m, mark);
      && (forall r :: after.Legal(r) ==> Value(after, Opponent(mark), r).Rank() <= Invert(Value(b, mark, m)).Rank())
      && (exists r :: after.Legal(r) && Value(after, Opponent(mark), r) == Invert(Value(b, mark, m)))
  {
    var after := b.Place(m, mark);
    var opponent := Opponent(mark);
    var replies := Evaluate(after, opponent);
    var legal := LegalMoves(after);
    var best := Best(replies);
    assert Value(b, mark, m) == Invert(best);
    assert Invert(Invert(best)) == best;
    forall r | after.Legal(r)
      ensures Value(after, opponent, r).Rank() <= best.Rank()
    {
      assert r in legal;
      var k :| 0 <= k < |legal| && legal[k] == r;
      EvaluateAt(after, opponent, k);
    }
    var k :| 0 <= k < |replies| && replies[k].guarantee == best;
    EvaluateAt(after, opponent, k);
    assert after.Legal(legal[k]) && Value(after, opponent, legal[k]) == best;
  }

  /** On the empty board all nine first moves are listed, each as a Tie. */
  lemma EmptyBoardTies(mark: Mark)
    ensures var r := Evaluate(EmptyBoard, mark);
      && |r| == 9
      && forall k :: 0 <= k < 9 ==> r[k] == EvaluatedMove(k, Guarantee.Tie)
  {
    var legal := LegalMoves(EmptyBoard);
    assert EmptyBoard.Free() == 9;
    forall k | 0 <= k < 9 ensures legal[k] == k {
      StrictlyIncreasingFull(legal, k);
    }
  }

  /** Nine strictly increasing indices in [0, 9) are 0, 1, ..., 8. */
  lemma StrictlyIncreasingFull(s: seq<Move>, k: nat)
    requires |s| == 9 && k < 9
    requires forall j :: 0 <= j < 9 ==> 0 <= s[j] < 9
    requires forall i, j :: 0 <= i < j < 9 ==> s[i] < s[j]
    ensures s[k] == k
  {
    forall j | 0 <= j < 9 ensures j <= s[j] && s[j] <= j {
      BoundsFromOrder(s, j);
    }
  }

  lemma {:induction false} BoundsFromOrder(s: seq<Move>, j: nat)
    requires |s| == 9 && j < 9
    requires forall i :: 0 <= i < 9 ==> 0 <= s[i] < 9
    requires forall i, i' :: 0 <= i < i' < 9 ==> s[i] < s[i']
    ensures j <= s[j] <= j
  {
    LowerBound(s, j);
    UpperBound(s, j);
  }

  lemma {:induction false} LowerBound(s: seq<Move>, j: nat)
    requires |s| == 9 && j < 9
    requires forall i :: 0 <= i < 9 ==> 0 <= s[i] < 9
    requires forall i, i' :: 0 <= i < i' < 9 ==> s[i] < s[i']
    ensures j <= s[j]
  {
    if j > 0 {
      LowerBound(s, j - 1);
    }
  }

  lemma {:induction false} UpperBound(s: seq<Move>, j: nat)
    requires |s| == 9 && j < 9
    requires forall i :: 0 <= i < 9 ==> 0 <= s[i] < 9
    requires forall i, i' :: 0 <= i < i' < 9 ==> s[i] < s[i']
    ensures s[j] <= j
    decreases 9 - j
  {
    if j < 8 {
      UpperBound(s, j + 1);
    }
  }

  /** On a board with a single free cell, that cell is the only legal move,
      and filling it ends the game. */
  lemma SingleFreeCell(b: Board, mark: Mark, c: Move)
    requires b.Legal(c) && b.Free() == 1
    ensures LegalMoves(b) == [c]
    ensures Evaluate(b, mark) == [EvaluatedMove(c, Value(b, mark, c))]
    ensures b.Place(c, mark).Condition() != NotEnd
  {
    var legal := LegalMoves(b);
    assert c in legal;
    assert legal == [c];
    EvaluateAt(b, mark, 0);
  }

  /** The board of the one-free-cell test fixture in the random player's test. */
  const OneFreeCell: Board := Board([X, X, O, O, F, X, O, X, O])

  /** Its only legal move is the centre, and playing X there completes the
      middle column: the one entry is a Win. */
  lemma OneFreeCellEvaluation(b: Board)
    requires b == OneFreeCell
    ensures LegalMoves(b) == [4]
    ensures Evaluate(b, X) == [EvaluatedMove(4, Win)]
  {
    OneFreeCellCount(b);
    OneFreeCellWin(b);
    WinningLastCell(b, X, 4);
  }

  /** On a board with a single free cell whose filling wins for mark, the
      evaluation lists that cell alone, as a Win. */
  lemma WinningLastCell(b: Board, mark: Mark, c: Move)
    requires b.Legal(c) && b.Free() == 1
    requires b.Place(c, mark).Condition() == (if mark == X then XWon else OWon)
    ensures LegalMoves(b) == [c]
    ensures Evaluate(b, mark) == [EvaluatedMove(c, Win)]
  {
    SingleFreeCell(b, mark, c);
  }

  lemma OneFreeCellCount(b: Board)
    requires b == OneFreeCell
    ensures b.Free() == 1
  {
    assert b.cells[1..] == [X, O, O, F, X, O, X, O];
  }

  lemma OneFreeCellWin(b: Board)
    requires b == OneFreeCell
    ensures b.Legal(4) && b.Place(4, X).Condition() == XWon
  {
    CentreCompletesColumn(b);
  }

  /** X on 1 and 7 with the centre free: X in the centre wins by the middle column. */
  lemma CentreCompletesColumn(b: Board)
    requires b.Legal(4) && b.cells[1] == X && b.cells[7] == X
    ensures b.Place(4, X).Condition() == XWon
  {
    PlaceEffect(b, 4, X);
    var after := b.Place(4, X);
    assert after.LineAt(X, 4);
    LineFrom(after, X, 4, 0);
  }

  // ------------------------------------------------------------ the methods

  /** strongest: the first entry whose guarantee no entry exceeds. */
  method Strongest(moves: seq<EvaluatedMove>) returns (s: EvaluatedMove)
    requires |moves| > 0
    ensures forall j :: 0 <= j < |moves| ==> moves[j].guarantee.Rank() <= s.guarantee.Rank()
    ensures exists k :: 0 <= k < |moves| && moves[k] == s &&
                        (forall j :: 0 <= j < k ==> moves[j].guarantee.Rank() < s.guarantee.Rank())
  {
    s := moves[0];
    ghost var at := 0;
    for k := 1 to |moves|
      invariant 0 <= at < k && moves[at] == s
      invariant forall j :: 0 <= j < at ==> moves[j].guarantee.Rank() < s.guarantee.Rank()
      invariant forall j :: 0 <= j < k ==> moves[j].guarantee.Rank() <= s.guarantee.Rank()
    {
      if moves[k].guarantee.Rank() > s.guarantee.Rank() {
        s, at := moves[k], k;
      }
    }
  }

  /** evaluateBoard, building the entries by appending in a loop. */
  method EvaluateBoard(b: Board, mark: Mark) returns (moves: seq<EvaluatedMove>)
    ensures moves == Evaluate(b, mark)
    decreases b.Free(), 2, 0
  {
    var legal := ListLegalMoves(b);
    if |legal| == 9 {
      moves := TieMoves(legal);
    } else {
      moves := ScoreMoves(b, mark, legal);
    }
  }

  /** The fast path of evaluateBoard: all first moves are known to only
      guarantee a tie, so each is listed as one without searching. */
  method TieMoves(legal: seq<Move>) returns (moves: seq<EvaluatedMove>)
    ensures moves == Ties(legal)
  {
    moves := [];
    for k := 0 to |legal|
      invariant moves == Ties(legal[..k])
    {
      assert legal[..k + 1] == legal[..k] + [legal[k]];
      moves := moves + [EvaluatedMove(legal[k], Guarantee.Tie)];
    }
    assert legal[..|legal|] == legal;
  }

  /** The general path of evaluateBoard: evaluate each legal move in turn. */
  method ScoreMoves(b: Board, mark: Mark, legal: seq<Move>) returns (moves: seq<EvaluatedMove>)
    requires legal == LegalMoves(b)
    ensures moves == Scored(b, mark, |legal|)
    decreases b.Free(), 1, 0
  {
    moves := [];
    for k := 0 to |legal|
      invariant moves == Scored(b, mark, k)
    {
      var g := EvaluateMove(legal[k], b, mark);
      moves := moves + [EvaluatedMove(legal[k], g)];
    }
  }

  /** evaluateMove: apply the move to a private copy of the board, score a
      finished game directly, and otherwise re-evaluate the opponent's
      strongest reply and invert it. */
  method EvaluateMove(move: Move, b: Board, mark: Mark) returns (g: Guarantee)
    requires b.Legal(move)
    ensures g == Value(b, mark, move)
    decreases b.Free(), 0, 0
  {
    var copy := new BoardVar(b);
    var err := copy.Apply(move, mark);
    // A move taken from the legal moves always applies: the panic on an
    // Apply error cannot happen.
    assert err == None;
    var after := copy.board;
    match after.Condition()
    case XWon =>
      g := if mark == X then Win else Loss;
    case OWon =>
      g := if mark == O then Win else Loss;
    case Tie =>
      g := Guarantee.Tie;
    case NotEnd =>
      var reply := StrongestReply(after, Opponent(mark));
      match reply
      case Loss => g := Win;
      case Tie => g := Guarantee.Tie;
      case Win => g := Loss;
  }

  /** The NotEnd case of evaluateMove: evaluate the opponent's replies, take
      the strongest, and evaluate it again for the guarantee it carries. */
  method StrongestReply(b: Board, opponent: Mark) returns (g: Guarantee)
    requires b.Condition() == NotEnd && b.Free() < 9
    ensures g == Best(Evaluate(b, opponent))
    decreases b.Free(), 3, 0
  {
    var opponentMoves := EvaluateBoard(b, opponent);
    var strongest := Strongest(opponentMoves);
    ghost var k :| 0 <= k < |opponentMoves| && opponentMoves[k] == strongest;
    EvaluateAt(b, opponent, k);
    g := EvaluateMove(strongest.move, b, opponent);
    assert strongest.guarantee == Best(opponentMoves);
  }

  /** Play without its thinking-time padding: refuse a finished board, else
      evaluate every legal move and pick, arbitrarily, one of those with the
      strongest guarantee. */
  method Play(b: Board, mark: Mark) returns (r: Result<Move, PlayError>)
    ensures b.Condition() != NotEnd ==> r == Err(FinishedGame)
    ensures b.Condition() == NotEnd ==> r.Ok? && b.Legal(r.value)
    ensures b.Condition() == NotEnd ==> var moves := Evaluate(b, mark);
      exists k :: 0 <= k < |moves| && moves[k] == EvaluatedMove(r.value, Best(moves))
  {
    if b.Condition() != NotEnd {
      return Err(FinishedGame);
    }
    var moves := EvaluateBoard(b, mark);
    var best := Strongest(moves);
    var strongest := best.guarantee;
    assert strongest == Best(moves);
    var strongMoves := CollectStrong(moves, strongest);
    assert best.move in strongMoves;
    var pick :| 0 <= pick < |strongMoves|;
    var move := strongMoves[pick];
    assert move in strongMoves;
    return Ok(move);
  }

  /** The moves of the entries whose guarantee is g, in order. */
  function WithGuarantee(moves: seq<EvaluatedMove>, g: Guarantee): (r: seq<Move>)
    ensures forall m {:trigger m in r} :: m in r <==> exists k :: 0 <= k < |moves| && moves[k] == EvaluatedMove(m, g)
    decreases |moves|
  {
    if moves == [] then []
    else
      var last := |moves| - 1;
      var rest := WithGuarantee(moves[..last], g);
      assert forall k :: 0 <= k < last ==> moves[..last][k] == moves[k];
      if moves[last].guarantee == g then rest + [moves[last].move] else rest
  }

  /** The loop of Play collecting the moves with the strongest guarantee. */
  method CollectStrong(moves: seq<EvaluatedMove>, g: Guarantee) returns (strong: seq<Move>)
    ensures strong == WithGuarantee(moves, g)
  {
    strong := [];
    for k := 0 to |moves|
      invariant strong == WithGuarantee(moves[..k], g)
    {
      assert moves[..k + 1][..k] == moves[..k];
      if moves[k].guarantee == g {
        strong := strong + [moves[k].move];
      }
    }
    assert moves[..|moves|] == moves;
  }
}
