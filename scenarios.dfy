/**
 * Whole games played through the transition functions of module Rules, and
 * one played through the TicTacToeApp object.
 */
module Scenarios {
  import opened Rules
  import App

  /** The clicks `moves`, one after another. */
  function Play(s: GameState, moves: seq<Index>): (r: GameState)
    requires WellFormed(s)
    ensures WellFormed(r)
    ensures r.mode == s.mode
    decreases |moves|
  {
    if moves == [] then s else Play(Click(s, moves[0]), moves[1..])
  }

  /** A click on an empty cell that neither wins nor fills the board. */
  lemma Continues(s: GameState, i: Index, free: Index)
    requires WellFormed(s) && s.board[i] == Empty
    requires !WinsUnrolled(s.board[i := Taken(s.current)], s.current)
    requires free != i && s.board[free] == Empty
    ensures Click(s, i) == GameState(s.board[i := Taken(s.current)], Other(s.current), s.mode,
      if s.mode == PvE && s.current == X then s.pending + 1 else s.pending)
  {
    WinsIffUnrolled(s.board[i := Taken(s.current)], s.current);
    assert s.board[i := Taken(s.current)][free] == Empty;
  }

  /** Two clicks between humans on empty cells, neither winning, with a third cell still free. */
  lemma {:induction false} TwoQuietMoves(s: GameState, i: Index, j: Index, free: Index)
    requires WellFormed(s) && s.mode == PvP && s.board[i] == Empty
    requires !WinsUnrolled(s.board[i := Taken(s.current)], s.current)
    requires j != i && s.board[j] == Empty
    requires !WinsUnrolled(s.board[i := Taken(s.current)][j := Taken(Other(s.current))], Other(s.current))
    requires free != i && free != j && s.board[free] == Empty
    ensures Play(s, [i, j]) == s.(board := s.board[i := Taken(s.current)][j := Taken(Other(s.current))])
  {
    Continues(s, i, j);
    var t := Click(s, i);
    Continues(t, j, free);
    var u := Click(t, j);
    assert u == s.(board := s.board[i := Taken(s.current)][j := Taken(Other(s.current))]);
    assert Play(u, []) == u;
    assert [i, j][1..] == [j];
    assert Play(t, [j]) == u;
  }

  /** Two humans: X@0, O@3, X@1, O@4, X@2 completes the top row, and the game restarts. */
  lemma TopRowWins()
    ensures var s := SetMode(Initial(), PvP);
      var before := Play(s, [0, 3, 1, 4]);
      && before.current == X
      && Wins(before.board[2 := Taken(X)], X)
      && Play(s, [0, 3, 1, 4, 2]) == s
  {
    var e, x, o := Empty, Taken(X), Taken(O);
    var s0 := SetMode(Initial(), PvP);
    assert s0 == GameState([e, e, e, e, e, e, e, e, e], X, PvP, 0);
    TwoQuietMoves(s0, 0, 3, 8);
    var s2 := GameState([x, e, e, o, e, e, e, e, e], X, PvP, 0);
    assert Play(s0, [0, 3]) == s2;
    TwoQuietMoves(s2, 1, 4, 8);
    var s4 := GameState([x, x, e, o, o, e, e, e, e], X, PvP, 0);
    assert Play(s2, [1, 4]) == s4;
    PlayConcat(s0, [0, 3], [1, 4]);
    assert [0, 3] + [1, 4] == [0, 3, 1, 4];
    assert LineOwned(s4.board[2 := x], WinningCombos[0], X);
    assert Click(s4, 2) == s0;
    PlayConcat(s0, [0, 3, 1, 4], [2]);
    assert [0, 3, 1, 4] + [2] == [0, 3, 1, 4, 2];
    assert Play(s0, [0, 3, 1, 4, 2]) == Play(s4, [2]);
  }

  /** Clicks `a` and then clicks `b`. */
  lemma {:induction false} PlayConcat(s: GameState, a: seq<Index>, b: seq<Index>)
    requires WellFormed(s)
    ensures Play(s, a + b) == Play(Play(s, a), b)
    decreases |a|
  {
    if a == [] {
      assert [] + b == b;
    } else {
      assert (a + b)[1..] == a[1..] + b;
      PlayConcat(Click(s, a[0]), a[1..], b);
    }
  }

  /** The drawn game's first four moves: X@0 O@1 X@2 O@4. */
  lemma DrawOpening()
    ensures Play(SetMode(Initial(), PvP), [0, 1, 2, 4]) ==
      GameState([Taken(X), Taken(O), Taken(X), Empty, Taken(O), Empty, Empty, Empty, Empty], X, PvP, 0)
  {
    var e, x, o := Empty, Taken(X), Taken(O);
    var s0 := SetMode(Initial(), PvP);
    assert s0 == GameState([e, e, e, e, e, e, e, e, e], X, PvP, 0);
    TwoQuietMoves(s0, 0, 1, 8);
    var s2 := GameState([x, o, e, e, e, e, e, e, e], X, PvP, 0);
    assert Play(s0, [0, 1]) == s2;
    TwoQuietMoves(s2, 2, 4, 8);
    PlayConcat(s0, [0, 1], [2, 4]);
    assert [0, 1] + [2, 4] == [0, 1, 2, 4];
  }

  /** The drawn game's next four moves: X@3 O@5 X@7 O@6. */
  lemma DrawMiddleGame()
    ensures Play(GameState([Taken(X), Taken(O), Taken(X), Empty, Taken(O), Empty, Empty, Empty, Empty], X, PvP, 0),
                 [3, 5, 7, 6]) ==
      GameState([Taken(X), Taken(O), Taken(X), Taken(X), Taken(O), Taken(O), Taken(O), Taken(X), Empty], X, PvP, 0)
  {
    var e, x, o := Empty, Taken(X), Taken(O);
    var s4 := GameState([x, o, x, e, o, e, e, e, e], X, PvP, 0);
    TwoQuietMoves(s4, 3, 5, 8);
    var s6 := GameState([x, o, x, x, o, o, e, e, e], X, PvP, 0);
    assert Play(s4, [3, 5]) == s6;
    TwoQuietMoves(s6, 7, 6, 8);
    PlayConcat(s4, [3, 5], [7, 6]);
    assert [3, 5] + [7, 6] == [3, 5, 7, 6];
  }

  /** The whole drawn game up to its last move. */
  lemma DrawPosition()
    ensures Play(SetMode(Initial(), PvP), [0, 1, 2, 4, 3, 5, 7, 6]) ==
      GameState([Taken(X), Taken(O), Taken(X), Taken(X), Taken(O), Taken(O), Taken(O), Taken(X), Empty], X, PvP, 0)
  {
    DrawOpening();
    DrawMiddleGame();
    PlayConcat(SetMode(Initial(), PvP), [0, 1, 2, 4], [3, 5, 7, 6]);
    assert [0, 1, 2, 4] + [3, 5, 7, 6] == [0, 1, 2, 4, 3, 5, 7, 6];
  }

  /** The last move X@8 fills the board without a line: a draw, and the game restarts. */
  lemma DrawFinish()
    ensures var before :=
      GameState([Taken(X), Taken(O), Taken(X), Taken(X), Taken(O), Taken(O), Taken(O), Taken(X), Empty], X, PvP, 0);
      && !Wins(before.board[8 := Taken(X)], X)
      && Full(before.board[8 := Taken(X)])
      && Click(before, 8) == SetMode(Initial(), PvP)
  {
    var e, x, o := Empty, Taken(X), Taken(O);
    var last := [x, o, x, x, o, o, o, x, x];
    WinsIffUnrolled(last, X);
    assert !WinsUnrolled(last, X);
    assert forall i | 0 <= i < 9 :: last[i] != Empty;
  }

  /**
   * Two humans play X@0 O@1 X@2 O@4 X@3 O@5 X@7 O@6 X@8: no line is completed,
   * the last move fills the board, and the game restarts.
   */
  lemma FullBoardDraws()
    ensures var s := SetMode(Initial(), PvP);
      var before := Play(s, [0, 1, 2, 4, 3, 5, 7, 6]);
      && before.current == X
      && !Wins(before.board, X) && !Wins(before.board, O)
      && !Wins(before.board[8 := Taken(X)], X)
      && Full(before.board[8 := Taken(X)])
      && Play(s, [0, 1, 2, 4, 3, 5, 7, 6, 8]) == s
  {
    var s := SetMode(Initial(), PvP);
    var e, x, o := Empty, Taken(X), Taken(O);
    var board := [x, o, x, x, o, o, o, x, e];
    var before := GameState(board, X, PvP, 0);
    DrawPosition();
    WinsIffUnrolled(board, X);
    WinsIffUnrolled(board, O);
    DrawFinish();
    PlayConcat(s, [0, 1, 2, 4, 3, 5, 7, 6], [8]);
    assert [0, 1, 2, 4, 3, 5, 7, 6] + [8] == [0, 1, 2, 4, 3, 5, 7, 6, 8];
    assert Play(Click(before, 8), []) == Click(before, 8);
  }

  /**
   * Against the computer: after the human's X@0 a computer move is scheduled and
   * O is to play.
   */
  lemma HumanOpensAgainstComputer()
    ensures Click(Initial(), 0) ==
      GameState([Taken(X), Empty, Empty, Empty, Empty, Empty, Empty, Empty, Empty], O, PvE, 1)
  {
    var e := Empty;
    assert Initial() == GameState([e, e, e, e, e, e, e, e, e], X, PvE, 0);
    Continues(Initial(), 0, 8);
  }

  /**
   * The computer's reply to a lone X: O is written into a cell that was empty,
   * no line results, and the turn goes back to X.
   */
  lemma {:induction false} ComputerRepliesToLoneMark(s: GameState, roll: nat)
    requires WellFormed(s) && s.current == O && s.pending > 0
    requires forall j | 0 <= j < 9 && j != 0 :: s.board[j] == Empty
    requires s.board[0] == Taken(X)
    ensures var m := ComputerChoice(s.board, roll);
      && m.Some? && m.value != 0 && m.value < 9
      && ComputerMove(s, roll) ==
         GameState(s.board[m.value := Taken(O)], X, s.mode, s.pending - 1)
  {
    assert s.board[1] == Empty;
    var m: Index := ComputerChoice(s.board, roll).value;
    var placed := s.board[m := Taken(O)];
    SingleMarkHasNoLine(placed, m, O);
    WinsIffUnrolled(placed, O);
    var fired := s.(pending := s.pending - 1);
    Continues(fired, m, if m == 1 then 2 else 1);
  }

  /**
   * When that move fires it puts an O on a cell that was empty and hands the turn
   * back to X, leaving two marks on the board.
   */
  lemma ComputerAnswersOpening(roll: nat)
    ensures var afterHuman := Click(Initial(), 0);
      && afterHuman.pending == 1
      && var afterComputer := ComputerMove(afterHuman, roll);
      && afterComputer.current == X && afterComputer.pending == 0
      && |afterComputer.board| == 9
      && afterComputer.board[0] == Taken(X)
      && exists m: Index :: m != 0 && afterHuman.board[m] == Empty && afterComputer.board[m] == Taken(O) &&
           forall j | 0 <= j < 9 && j != m :: afterComputer.board[j] == afterHuman.board[j]
  {
    HumanOpensAgainstComputer();
    var afterHuman := GameState([Taken(X), Empty, Empty, Empty, Empty, Empty, Empty, Empty, Empty], O, PvE, 1);
    ComputerRepliesToLoneMark(afterHuman, roll);
    var m: Index := ComputerChoice(afterHuman.board, roll).value;
    var afterComputer := ComputerMove(afterHuman, roll);
    assert afterComputer.board[m] == Taken(O);
  }

  /** The same opening, driven through the window object. */
  method PlayOpeningAgainstComputer(roll: nat) {
    var app := new App.TicTacToeApp();
    app.OnButtonClick(0);
    HumanOpensAgainstComputer();
    assert app.currentPlayer == O && app.pendingComputerMoves == 1;
    app.ComputerMove(roll);
    ComputerAnswersOpening(roll);
    assert app.currentPlayer == X && app.board[0] == Taken(X) && app.pendingComputerMoves == 0;
  }
}
