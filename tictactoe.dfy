/** Tic-tac-toe: the rules of the game on a 3x3 board and a minimax player. */
module TicTacToe {

  import opened Options
  import opened FiniteSets

  /** The content of one square; `Empty` stands for the source's `EMPTY = None`. */
  datatype Mark = Empty | X | O

  /** A board is three rows of three squares. */
  type Board = b: seq<seq<Mark>> | |b| == 3 && forall i | 0 <= i < 3 :: |b[i]| == 3
    witness [[Empty, Empty, Empty], [Empty, Empty, Empty], [Empty, Empty, Empty]]

  /** A move names a square by (row, column); any pair may be proposed, only free squares are legal. */
  type Action = (int, int)

  /** `result` raises a ValueError for an illegal move; `InvalidAction` is that error. */
  datatype Outcome = Moved(board: Board) | InvalidAction(action: Action)

  /** The empty starting board, on which X moves first. */
  function InitialState(): (b: Board)
    ensures forall i, j | 0 <= i < 3 && 0 <= j < 3 :: b[i][j] == Empty
    ensures Player(b) == X && Alternating(b)
    ensures |EmptyCells(b)| == 9 && !Terminal(b)
  {
    var b := [[Empty, Empty, Empty], [Empty, Empty, Empty], [Empty, Empty, Empty]];
    assert Count(b, X) == 0 && Count(b, O) == 0;
    AllSquaresFree(b);
    EmptyBoardNotTerminal(b);
    b
  }

  /** How many squares of `row` hold `m` (the source's `row.count(m)`). */
  function CountRow(row: seq<Mark>, m: Mark): nat
  {
    if row == [] then 0 else (if row[0] == m then 1 else 0) + CountRow(row[1..], m)
  }

  /** How many squares of the board hold `m`: the sum of the row counts. */
  function Count(b: seq<seq<Mark>>, m: Mark): nat
  {
    if b == [] then 0 else CountRow(b[0], m) + Count(b[1..], m)
  }

  /** Whose turn it is: O once X has more marks on the board, X otherwise. */
  function Player(b: Board): (p: Mark)
    ensures p != Empty
    ensures p == O <==> Count(b, X) > Count(b, O)
  {
    if Count(b, X) > Count(b, O) then O else X
  }

  /** The free squares: the specification of `Actions`. */
  function EmptyCells(b: Board): set<Action>
  {
    set i, j | 0 <= i < 3 && 0 <= j < 3 && b[i][j] == Empty :: (i, j)
  }

  /** The legal moves, collected by scanning the board row by row. */
  method Actions(b: Board) returns (acts: set<Action>)
    ensures acts == EmptyCells(b)
  {
    acts := {};
    for i := 0 to |b|
      invariant forall a :: a in acts <==> 0 <= a.0 < i && 0 <= a.1 < 3 && b[a.0][a.1] == Empty
    {
      for j := 0 to |b[i]|
        invariant forall a :: a in acts <==>
          (0 <= a.0 < i && 0 <= a.1 < 3 && b[a.0][a.1] == Empty) || (a.0 == i && 0 <= a.1 < j && b[i][a.1] == Empty)
      {
        if b[i][j] == Empty {
          acts := acts + {(i, j)};
        }
      }
    }
    assert forall a :: a in EmptyCells(b) <==> 0 <= a.0 < 3 && 0 <= a.1 < 3 && b[a.0][a.1] == Empty;
  }

  /** The board after the player to move takes square `a`; the input board is a value and stays as it was. */
  function Result(b: Board, a: Action): (r: Outcome)
    ensures r.InvalidAction? <==> a !in EmptyCells(b)
    ensures r.Moved? ==> 0 <= a.0 < 3 && 0 <= a.1 < 3 && r.board[a.0][a.1] == Player(b)
    ensures r.Moved? ==> forall i, j | 0 <= i < 3 && 0 <= j < 3 && (i, j) != a :: r.board[i][j] == b[i][j]
    ensures r.Moved? ==> EmptyCells(r.board) == EmptyCells(b) - {a}
  {
    if a !in EmptyCells(b) then InvalidAction(a)
    else
      var c := Child(b, a);
      assert EmptyCells(c) == EmptyCells(b) - {a};
      Moved(c)
  }

  /** The board reached by the legal move `a`: one more square is taken. */
  function Child(b: Board, a: Action): (c: Board)
    requires a in EmptyCells(b)
    ensures Count(c, Empty) == Count(b, Empty) - 1
  {
    CountUpdate(b, a.0, a.1, Player(b), Empty);
    b[a.0 := b[a.0][a.1 := Player(b)]]
  }

  /** Writing `v` into square `j` of a row changes the count of `m` by the mark removed and the mark written. */
  lemma {:induction false} CountRowUpdate(row: seq<Mark>, j: nat, v: Mark, m: Mark)
    requires j < |row|
    ensures CountRow(row[j := v], m) ==
      CountRow(row, m) - (if row[j] == m then 1 else 0) + (if v == m then 1 else 0)
  {
    if j > 0 {
      assert row[j := v][1..] == row[1..][j - 1 := v];
      CountRowUpdate(row[1..], j - 1, v, m);
    } else {
      assert row[j := v][1..] == row[1..];
    }
  }

  /** Writing `v` into square (i, j) changes the board's count of `m` by the mark removed and the mark written. */
  lemma {:induction false} CountUpdate(b: seq<seq<Mark>>, i: nat, j: nat, v: Mark, m: Mark)
    requires i < |b| && j < |b[i]|
    ensures Count(b[i := b[i][j := v]], m) ==
      Count(b, m) - (if b[i][j] == m then 1 else 0) + (if v == m then 1 else 0)
  {
    if i > 0 {
      assert b[i := b[i][j := v]][1..] == b[1..][i - 1 := b[i][j := v]];
      CountUpdate(b[1..], i - 1, j, v, m);
    } else {
      assert b[i := b[i][j := v]][1..] == b[1..];
      CountRowUpdate(b[0], j, v, m);
    }
  }

  /** X has made as many moves as O, or one more: true of every board play can reach. */
  predicate Alternating(b: Board)
  {
    Count(b, O) <= Count(b, X) <= Count(b, O) + 1
  }

  /** On a board play can reach, every legal move hands the turn to the other player and keeps the marks alternating. */
  lemma TurnsAlternate(b: Board, a: Action)
    requires Alternating(b) && a in EmptyCells(b)
    ensures Alternating(Child(b, a))
    ensures Player(Child(b, a)) != Player(b)
  {
    var p := Player(b);
    CountUpdate(b, a.0, a.1, p, X);
    CountUpdate(b, a.0, a.1, p, O);
  }

  /** Every square of row `i` holds `m`. */
  predicate FullRow(b: Board, i: int, m: Mark)
    requires 0 <= i < 3
  {
    forall j | 0 <= j < 3 :: b[i][j] == m
  }

  /** Every square of column `j` holds `m`. */
  predicate FullColumn(b: Board, j: int, m: Mark)
    requires 0 <= j < 3
  {
    forall i | 0 <= i < 3 :: b[i][j] == m
  }

  /** `m` occupies a full row, a full column or a full diagonal. */
  predicate Wins(b: Board, m: Mark)
  {
    m != Empty &&
    ((exists i | 0 <= i < 3 :: FullRow(b, i, m)) ||
     (exists j | 0 <= j < 3 :: FullColumn(b, j, m)) ||
     (forall k | 0 <= k < 3 :: b[k][k] == m) ||
     (forall k | 0 <= k < 3 :: b[k][2 - k] == m))
  }

  /** The first of rows `i`, `i + 1`, ... that holds three equal marks, as its mark; `Empty` if none does. */
  function RowWinner(b: Board, i: nat): (w: Mark)
    requires i <= 3
    ensures w != Empty ==> exists r | i <= r < 3 :: FullRow(b, r, w)
    ensures w == Empty ==> forall r, m | i <= r < 3 && m != Empty :: !FullRow(b, r, m)
    decreases 3 - i
  {
    if i == 3 then Empty
    else if b[i][0] == b[i][1] && b[i][1] == b[i][2] && b[i][0] != Empty then
      assert FullRow(b, i, b[i][0]);
      b[i][0]
    else
      assert forall m | m != Empty :: !FullRow(b, i, m);
      RowWinner(b, i + 1)
  }

  /** The first of columns `j`, `j + 1`, ... that holds three equal marks, as its mark; `Empty` if none does. */
  function ColumnWinner(b: Board, j: nat): (w: Mark)
    requires j <= 3
    ensures w != Empty ==> exists c | j <= c < 3 :: FullColumn(b, c, w)
    ensures w == Empty ==> forall c, m | j <= c < 3 && m != Empty :: !FullColumn(b, c, m)
    decreases 3 - j
  {
    if j == 3 then Empty
    else if b[0][j] == b[1][j] && b[1][j] == b[2][j] && b[0][j] != Empty then
      assert FullColumn(b, j, b[0][j]);
      b[0][j]
    else
      assert forall m | m != Empty :: !FullColumn(b, j, m);
      ColumnWinner(b, j + 1)
  }

  /** The winner, looked for among the rows, then the columns, then the two diagonals; `Empty` for none. */
  function Winner(b: Board): (w: Mark)
    ensures w != Empty ==> Wins(b, w)
    ensures w == Empty <==> !Wins(b, X) && !Wins(b, O)
  {
    var r := RowWinner(b, 0);
    if r != Empty then r
    else
      var c := ColumnWinner(b, 0);
      if c != Empty then c
      else if b[0][0] == b[1][1] && b[1][1] == b[2][2] && b[0][0] != Empty then b[0][0]
      else if b[0][2] == b[1][1] && b[1][1] == b[2][0] && b[0][2] != Empty then b[0][2]
      else Empty
  }

  /** The game is over when someone has won or no square is free. */
  function Terminal(b: Board): (t: bool)
    ensures t <==> Wins(b, X) || Wins(b, O) || EmptyCells(b) == {}
  {
    Winner(b) != Empty || EmptyCells(b) == {}
  }

  /** 1 when X has won, -1 when O has won, 0 otherwise. */
  function Utility(b: Board): (u: int)
    ensures -1 <= u <= 1
    ensures u == 1 ==> Wins(b, X)
    ensures u == -1 ==> Wins(b, O)
    ensures u == 0 <==> !Wins(b, X) && !Wins(b, O)
  {
    var w := Winner(b);
    if w == X then 1 else if w == O then -1 else 0
  }

  /** On a board with no mark every one of the nine squares is a legal move. */
  lemma AllSquaresFree(b: Board)
    requires forall i, j | 0 <= i < 3 && 0 <= j < 3 :: b[i][j] == Empty
    ensures |EmptyCells(b)| == 9
  {
    assert EmptyCells(b) == {(0, 0), (0, 1), (0, 2), (1, 0), (1, 1), (1, 2), (2, 0), (2, 1), (2, 2)};
  }

  /** A board with no mark is not a finished game. */
  lemma EmptyBoardNotTerminal(b: Board)
    requires forall i, j | 0 <= i < 3 && 0 <= j < 3 :: b[i][j] == Empty
    ensures !Terminal(b)
  {
    assert (0, 0) in EmptyCells(b);
    assert !Wins(b, X) by {
      assert forall i | 0 <= i < 3 :: b[i][0] != X && !FullRow(b, i, X);
      assert forall j | 0 <= j < 3 :: b[0][j] != X && !FullColumn(b, j, X);
    }
    assert !Wins(b, O) by {
      assert forall i | 0 <= i < 3 :: b[i][0] != O && !FullRow(b, i, O);
      assert forall j | 0 <= j < 3 :: b[0][j] != O && !FullColumn(b, j, O);
    }
  }

  /** Square number `k` of the board, counted row by row from the top left. */
  function Square(k: nat): (a: Action)
    requires k < 9
    ensures 0 <= a.0 < 3 && 0 <= a.1 < 3 && 3 * a.0 + a.1 == k
  {
    (k / 3, k % 3)
  }

  /** Every square has its number. */
  lemma SquareOf(a: Action)
    requires 0 <= a.0 < 3 && 0 <= a.1 < 3
    ensures 3 * a.0 + a.1 < 9 && Square(3 * a.0 + a.1) == a
  {
  }

  /** What `max_value` computes: the utility of a finished game, otherwise the best `MinScore` over all moves. */
  ghost function MaxScore(b: Board): (v: int)
    ensures -1 <= v <= 1
    decreases Count(b, Empty), 12
  {
    if Terminal(b) then Utility(b)
    else
      BestForXFindsMove(b);
      BestForX(b, 0)
  }

  /** What `min_value` computes: the utility of a finished game, otherwise the least `MaxScore` over all moves. */
  ghost function MinScore(b: Board): (v: int)
    ensures -1 <= v <= 1
    decreases Count(b, Empty), 12
  {
    if Terminal(b) then Utility(b)
    else
      BestForOFindsMove(b);
      BestForO(b, 0)
  }

  /** The largest `MinScore` over the free squares numbered `k` or higher; -2 when there is none. */
  ghost function BestForX(b: Board, k: nat): (v: int)
    requires k <= 9
    ensures -2 <= v <= 1
    decreases Count(b, Empty), 9 - k
  {
    if k == 9 then -2
    else
      var rest := BestForX(b, k + 1);
      var a := Square(k);
      if a in EmptyCells(b) then
        var here := MinScore(Child(b, a));
        if here > rest then here else rest
      else
        rest
  }

  /** The smallest `MaxScore` over the free squares numbered `k` or higher; 2 when there is none. */
  ghost function BestForO(b: Board, k: nat): (v: int)
    requires k <= 9
    ensures -1 <= v <= 2
    decreases Count(b, Empty), 9 - k
  {
    if k == 9 then 2
    else
      var rest := BestForO(b, k + 1);
      var a := Square(k);
      if a in EmptyCells(b) then
        var here := MaxScore(Child(b, a));
        if here < rest then here else rest
      else
        rest
  }

  /** No free square numbered `k` or higher scores above `BestForX(b, k)`. */
  lemma {:induction false} BestForXIsUpperBound(b: Board, k: nat)
    requires k <= 9
    ensures forall j | k <= j < 9 && Square(j) in EmptyCells(b) :: MinScore(Child(b, Square(j))) <= BestForX(b, k)
    decreases Count(b, Empty), 10 - k
  {
    if k < 9 {
      BestForXIsUpperBound(b, k + 1);
    }
  }

  /** No free square numbered `k` or higher scores below `BestForO(b, k)`. */
  lemma {:induction false} BestForOIsLowerBound(b: Board, k: nat)
    requires k <= 9
    ensures forall j | k <= j < 9 && Square(j) in EmptyCells(b) :: BestForO(b, k) <= MaxScore(Child(b, Square(j)))
    decreases Count(b, Empty), 10 - k
  {
    if k < 9 {
      BestForOIsLowerBound(b, k + 1);
    }
  }

  /** `BestForX(b, k)` is the score of some free square numbered `k` or higher, unless there is none. */
  lemma {:induction false} BestForXIsAttained(b: Board, k: nat)
    requires k <= 9
    ensures BestForX(b, k) == -2 || exists j | k <= j < 9 && Square(j) in EmptyCells(b) :: BestForX(b, k) == MinScore(Child(b, Square(j)))
    decreases 9 - k
  {
    if k < 9 {
      BestForXIsAttained(b, k + 1);
    }
  }

  /** `BestForO(b, k)` is the score of some free square numbered `k` or higher, unless there is none. */
  lemma {:induction false} BestForOIsAttained(b: Board, k: nat)
    requires k <= 9
    ensures BestForO(b, k) == 2 || exists j | k <= j < 9 && Square(j) in EmptyCells(b) :: BestForO(b, k) == MaxScore(Child(b, Square(j)))
    decreases 9 - k
  {
    if k < 9 {
      BestForOIsAttained(b, k + 1);
    }
  }

  /** On an unfinished board some move is free, so the best score over all moves is a real score. */
  lemma BestForXFindsMove(b: Board)
    requires !Terminal(b)
    ensures BestForX(b, 0) != -2
    decreases Count(b, Empty), 11
  {
    var a := Pick(EmptyCells(b));
    SquareOf(a);
    BestForXIsUpperBound(b, 0);
  }

  /** On an unfinished board some move is free, so the least score over all moves is a real score. */
  lemma BestForOFindsMove(b: Board)
    requires !Terminal(b)
    ensures BestForO(b, 0) != 2
    decreases Count(b, Empty), 11
  {
    var a := Pick(EmptyCells(b));
    SquareOf(a);
    BestForOIsLowerBound(b, 0);
  }

  /** A move whose `MinScore` no other move beats has the board's `MaxScore`. */
  lemma MaxScoreIsBest(b: Board, best: Action)
    requires !Terminal(b) && best in EmptyCells(b)
    requires forall a | a in EmptyCells(b) :: MinScore(Child(b, a)) <= MinScore(Child(b, best))
    ensures MaxScore(b) == MinScore(Child(b, best))
  {
    SquareOf(best);
    BestForXIsUpperBound(b, 0);
    BestForXIsAttained(b, 0);
  }

  /** A move whose `MaxScore` no other move undercuts has the board's `MinScore`. */
  lemma MinScoreIsBest(b: Board, best: Action)
    requires !Terminal(b) && best in EmptyCells(b)
    requires forall a | a in EmptyCells(b) :: MaxScore(Child(b, best)) <= MaxScore(Child(b, a))
    ensures MinScore(b) == MaxScore(Child(b, best))
  {
    SquareOf(best);
    BestForOIsLowerBound(b, 0);
    BestForOIsAttained(b, 0);
  }

  /**
   * The maximising half of the search. Returns the game value for X and a move reaching it;
   * of equally good moves the first one met wins, since only a strictly better value replaces the best so far.
   */
  method MaxValue(b: Board) returns (value: int, action: Option<Action>)
    ensures value == MaxScore(b)
    ensures action.None? <==> Terminal(b)
    ensures action.Some? ==> action.value in EmptyCells(b) && MinScore(Child(b, action.value)) == value
    ensures !Terminal(b) ==> forall a | a in EmptyCells(b) :: MinScore(Child(b, a)) <= value
    decreases Count(b, Empty), 1
  {
    if Terminal(b) {
      return Utility(b), None;
    }
    var bestAction: Option<Action> := None;
    var bestValue := -2;  // below every utility, in place of -infinity
    var acts := Actions(b);
    var todo := acts;
    ghost var done: set<Action> := {};
    while todo != {}
      invariant todo + done == acts && todo !! done
      invariant bestAction.None? <==> done == {}
      invariant done == {} ==> bestValue == -2
      invariant bestAction.Some? ==> bestAction.value in done && MinScore(Child(b, bestAction.value)) == bestValue
      invariant forall a | a in done :: MinScore(Child(b, a)) <= bestValue
      decreases todo
    {
      ghost var w := Pick(todo);
      var a :| a in todo;
      var next := Result(b, a).board;
      var v := MinValueOnly(next);
      if v > bestValue {
        bestValue := v;
        bestAction := Some(a);
      }
      todo := todo - {a};
      done := done + {a};
    }
    MaxScoreIsBest(b, bestAction.value);
    return bestValue, bestAction;
  }

  /**
   * The minimising half of the search. Returns the game value for O and a move reaching it;
   * of equally good moves the first one met wins.
   */
  method MinValue(b: Board) returns (value: int, action: Option<Action>)
    ensures value == MinScore(b)
    ensures action.None? <==> Terminal(b)
    ensures action.Some? ==> action.value in EmptyCells(b) && MaxScore(Child(b, action.value)) == value
    ensures !Terminal(b) ==> forall a | a in EmptyCells(b) :: value <= MaxScore(Child(b, a))
    decreases Count(b, Empty), 1
  {
    if Terminal(b) {
      return Utility(b), None;
    }
    var bestAction: Option<Action> := None;
    var bestValue := 2;  // above every utility, in place of +infinity
    var acts := Actions(b);
    var todo := acts;
    ghost var done: set<Action> := {};
    while todo != {}
      invariant todo + done == acts && todo !! done
      invariant bestAction.None? <==> done == {}
      invariant done == {} ==> bestValue == 2
      invariant bestAction.Some? ==> bestAction.value in done && MaxScore(Child(b, bestAction.value)) == bestValue
      invariant forall a | a in done :: bestValue <= MaxScore(Child(b, a))
      decreases todo
    {
      ghost var w := Pick(todo);
      var a :| a in todo;
      var next := Result(b, a).board;
      var v := MaxValueOnly(next);
      if v < bestValue {
        bestValue := v;
        bestAction := Some(a);
      }
      todo := todo - {a};
      done := done + {a};
    }
    MinScoreIsBest(b, bestAction.value);
    return bestValue, bestAction;
  }

  /** The value half of `MaxValue`'s answer, as the search uses it for a child board. */
  method MaxValueOnly(b: Board) returns (value: int)
    ensures value == MaxScore(b)
    decreases Count(b, Empty), 2
  {
    var v, _ := MaxValue(b);
    value := v;
  }

  /** The value half of `MinValue`'s answer, as the search uses it for a child board. */
  method MinValueOnly(b: Board) returns (value: int)
    ensures value == MinScore(b)
    decreases Count(b, Empty), 2
  {
    var v, _ := MinValue(b);
    value := v;
  }

  /**
   * The move the player to move should make: none on a finished board, otherwise a legal move
   * that is best for X when X is to move and best for O when O is to move.
   */
  method Minimax(b: Board) returns (move: Option<Action>)
    ensures move.None? <==> Terminal(b)
    ensures move.Some? ==> move.value in EmptyCells(b)
    ensures move.Some? && Player(b) == X ==>
      MinScore(Child(b, move.value)) == MaxScore(b) &&
      forall a | a in EmptyCells(b) :: MinScore(Child(b, a)) <= MinScore(Child(b, move.value))
    ensures move.Some? && Player(b) == O ==>
      MaxScore(Child(b, move.value)) == MinScore(b) &&
      forall a | a in EmptyCells(b) :: MaxScore(Child(b, move.value)) <= MaxScore(Child(b, a))
  {
    if Terminal(b) {
      return None;
    }
    if Player(b) == X {
      var _, best := MaxValue(b);
      move := best;
    } else {
      var _, best := MinValue(b);
      move := best;
    }
  }
}
