/**
 * The game-state engine of the tic-tac-toe window, as values.
 *
 * A GameState holds the three fields of TicTacToeApp (board, current player,
 * game mode) plus the number of computer moves that have been scheduled with
 * a timer and have not fired yet. Each operation of the application is a
 * function from the old state to the new one; the class in module App runs
 * the same steps imperatively and is proved equal to these functions.
 */
module Rules {

  datatype Option<T> = None | Some(value: T)

  /** The two marks. `current_player` only ever holds "X" or "O". */
  datatype Player = X | O

  /** A board cell: "" in the source, or the mark of a player. */
  datatype Cell = Empty | Taken(owner: Player)

  /** "PvE" (against the computer) or "PvP" (two humans). */
  datatype Mode = PvE | PvP

  /** A cell position, 0..8 in row-major order. */
  type Index = i: nat | i < 9

  datatype GameState = GameState(
    board: seq<Cell>,
    current: Player,
    mode: Mode,
    pending: nat  // computer moves scheduled by a timer that have not fired yet
  )

  /** The board has exactly nine cells. */
  predicate WellFormed(s: GameState) {
    |s.board| == 9
  }

  /** A fresh board: nine empty cells. */
  function EmptyBoard(): (b: seq<Cell>)
    ensures |b| == 9
    ensures forall i | 0 <= i < |b| :: b[i] == Empty
  {
    seq(9, _ => Empty)
  }

  /** The window's state right after it is constructed. */
  function Initial(): GameState {
    GameState(EmptyBoard(), X, PvE, 0)
  }

  // ---------------------------------------------------------------------
  // Turns

  /** `switch_player`: X becomes O and anything else becomes X. */
  function Other(p: Player): (q: Player)
    ensures q != p
  {
    if p == X then O else X
  }

  lemma SwitchTwiceRestores(p: Player)
    ensures Other(Other(p)) == p
  {
  }

  // ---------------------------------------------------------------------
  // Winning lines, as the source lists them

  /** Rows, columns and diagonals, by cell index. */
  const WinningCombos: seq<(Index, Index, Index)> := [
    (0, 1, 2), (3, 4, 5), (6, 7, 8),
    (0, 3, 6), (1, 4, 7), (2, 5, 8),
    (0, 4, 8), (2, 4, 6)
  ]

  /** All three cells of `line` hold p's mark. */
  predicate LineOwned(b: seq<Cell>, line: (Index, Index, Index), p: Player)
    requires |b| == 9
  {
    b[line.0] == Taken(p) && b[line.1] == Taken(p) && b[line.2] == Taken(p)
  }

  /** `check_winner(p)`: some combination belongs entirely to p. */
  predicate Wins(b: seq<Cell>, p: Player)
    requires |b| == 9
  {
    exists k | 0 <= k < |WinningCombos| :: LineOwned(b, WinningCombos[k], p)
  }

  /** No empty cell is left (the draw test). */
  predicate Full(b: seq<Cell>) {
    Empty !in b
  }

  // ---------------------------------------------------------------------
  // Winning lines, by geometry: an independent statement of "three in a row"

  /** The cell in row `r` and column `c`. */
  function At(b: seq<Cell>, r: int, c: int): Cell
    requires |b| == 9 && 0 <= r < 3 && 0 <= c < 3
  {
    b[3 * r + c]
  }

  predicate RowComplete(b: seq<Cell>, p: Player, r: int)
    requires |b| == 9 && 0 <= r < 3
  {
    forall c | 0 <= c < 3 :: At(b, r, c) == Taken(p)
  }

  predicate ColumnComplete(b: seq<Cell>, p: Player, c: int)
    requires |b| == 9 && 0 <= c < 3
  {
    forall r | 0 <= r < 3 :: At(b, r, c) == Taken(p)
  }

  predicate DiagonalComplete(b: seq<Cell>, p: Player)
    requires |b| == 9
  {
    forall r, c | 0 <= r < 3 && 0 <= c < 3 && r == c :: At(b, r, c) == Taken(p)
  }

  predicate AntiDiagonalComplete(b: seq<Cell>, p: Player)
    requires |b| == 9
  {
    forall r, c | 0 <= r < 3 && 0 <= c < 3 && r + c == 2 :: At(b, r, c) == Taken(p)
  }

  predicate ThreeInARow(b: seq<Cell>, p: Player)
    requires |b| == 9
  {
    || (exists r | 0 <= r < 3 :: RowComplete(b, p, r))
    || (exists c | 0 <= c < 3 :: ColumnComplete(b, p, c))
    || DiagonalComplete(b, p)
    || AntiDiagonalComplete(b, p)
  }

  /** The eight listed combinations are exactly the rows, columns and diagonals. */
  lemma WinsIffThreeInARow(b: seq<Cell>, p: Player)
    requires |b| == 9
    ensures Wins(b, p) <==> ThreeInARow(b, p)
  {
    if Wins(b, p) {
      var k :| 0 <= k < |WinningCombos| && LineOwned(b, WinningCombos[k], p);
      if k < 3 {
        assert RowComplete(b, p, k);
      } else if k < 6 {
        assert ColumnComplete(b, p, k - 3);
      } else if k == 6 {
        assert DiagonalComplete(b, p);
      } else {
        assert AntiDiagonalComplete(b, p);
      }
    }
    if ThreeInARow(b, p) {
      if r :| 0 <= r < 3 && RowComplete(b, p, r) {
        assert At(b, r, 0) == Taken(p) && At(b, r, 1) == Taken(p) && At(b, r, 2) == Taken(p);
        assert LineOwned(b, WinningCombos[r], p);
      } else if c :| 0 <= c < 3 && ColumnComplete(b, p, c) {
        assert At(b, 0, c) == Taken(p) && At(b, 1, c) == Taken(p) && At(b, 2, c) == Taken(p);
        assert LineOwned(b, WinningCombos[3 + c], p);
      } else if DiagonalComplete(b, p) {
        assert At(b, 0, 0) == Taken(p) && At(b, 1, 1) == Taken(p) && At(b, 2, 2) == Taken(p);
        assert LineOwned(b, WinningCombos[6], p);
      } else {
        assert At(b, 0, 2) == Taken(p) && At(b, 1, 1) == Taken(p) && At(b, 2, 0) == Taken(p);
        assert LineOwned(b, WinningCombos[7], p);
      }
    }
  }

  /** The eight combinations written out one by one. */
  predicate WinsUnrolled(b: seq<Cell>, p: Player)
    requires |b| == 9
  {
    || LineOwned(b, (0, 1, 2), p) || LineOwned(b, (3, 4, 5), p) || LineOwned(b, (6, 7, 8), p)
    || LineOwned(b, (0, 3, 6), p) || LineOwned(b, (1, 4, 7), p) || LineOwned(b, (2, 5, 8), p)
    || LineOwned(b, (0, 4, 8), p) || LineOwned(b, (2, 4, 6), p)
  }

  lemma WinsIffUnrolled(b: seq<Cell>, p: Player)
    requires |b| == 9
    ensures Wins(b, p) <==> WinsUnrolled(b, p)
  {
    if Wins(b, p) {
      var k :| 0 <= k < |WinningCombos| && LineOwned(b, WinningCombos[k], p);
      assert k in {0, 1, 2, 3, 4, 5, 6, 7};
    }
    if WinsUnrolled(b, p) {
      assert exists k | 0 <= k < 8 :: LineOwned(b, WinningCombos[k], p) by {
        if LineOwned(b, (0, 1, 2), p) { assert LineOwned(b, WinningCombos[0], p); }
        else if LineOwned(b, (3, 4, 5), p) { assert LineOwned(b, WinningCombos[1], p); }
        else if LineOwned(b, (6, 7, 8), p) { assert LineOwned(b, WinningCombos[2], p); }
        else if LineOwned(b, (0, 3, 6), p) { assert LineOwned(b, WinningCombos[3], p); }
        else if LineOwned(b, (1, 4, 7), p) { assert LineOwned(b, WinningCombos[4], p); }
        else if LineOwned(b, (2, 5, 8), p) { assert LineOwned(b, WinningCombos[5], p); }
        else if LineOwned(b, (0, 4, 8), p) { assert LineOwned(b, WinningCombos[6], p); }
        else { assert LineOwned(b, WinningCombos[7], p); }
      }
    }
  }

  /** Placing p's mark can complete a line only for p. */
  lemma PlacingGivesNoLineToOther(b: seq<Cell>, i: Index, p: Player, q: Player)
    requires |b| == 9 && q != p
    ensures Wins(b[i := Taken(p)], q) ==> Wins(b, q)
  {
    var b' := b[i := Taken(p)];
    if Wins(b', q) {
      var k :| 0 <= k < |WinningCombos| && LineOwned(b', WinningCombos[k], q);
      assert LineOwned(b, WinningCombos[k], q);
    }
  }

  /** On a board where no one has a line, one placement cannot give both players one. */
  lemma NeverTwoWinners(b: seq<Cell>, i: Index, p: Player)
    requires |b| == 9 && !Wins(b, X) && !Wins(b, O)
    ensures !(Wins(b[i := Taken(p)], X) && Wins(b[i := Taken(p)], O))
  {
    PlacingGivesNoLineToOther(b, i, p, Other(p));
  }

  lemma EmptyBoardHasNoLine(p: Player)
    ensures !Wins(EmptyBoard(), p)
  {
    var b := EmptyBoard();
    forall k | 0 <= k < |WinningCombos|
      ensures !LineOwned(b, WinningCombos[k], p)
    {
      assert b[WinningCombos[k].0] == Empty;
    }
  }

  // ---------------------------------------------------------------------
  // Counting marks

  /** Number of cells of `b` equal to `c`. */
  function Count(b: seq<Cell>, c: Cell): (n: nat)
    ensures n <= |b|
  {
    if b == [] then 0 else (if b[0] == c then 1 else 0) + Count(b[1..], c)
  }

  lemma {:induction false} CountAbsent(b: seq<Cell>, c: Cell)
    requires forall i | 0 <= i < |b| :: b[i] != c
    ensures Count(b, c) == 0
  {
    if b != [] {
      CountAbsent(b[1..], c);
    }
  }

  /** Writing `c` into an empty cell adds one `c` and leaves every other count alone. */
  lemma {:induction false} CountAfterPlace(b: seq<Cell>, i: nat, c: Cell, d: Cell)
    requires i < |b| && b[i] == Empty && c != Empty
    ensures Count(b[i := c], c) == Count(b, c) + 1
    ensures d != c && d != Empty ==> Count(b[i := c], d) == Count(b, d)
  {
    if i == 0 {
      assert b[i := c][1..] == b[1..];
    } else {
      assert b[i := c][1..] == b[1..][i - 1 := c];
      CountAfterPlace(b[1..], i - 1, c, d);
    }
  }

  // ---------------------------------------------------------------------
  // Empty cells and the computer's choice

  /** The indices of the empty cells, in board order: the computer's available moves. */
  function EmptyIndices(b: seq<Cell>): (r: seq<nat>)
    ensures forall k | 0 <= k < |r| :: r[k] < |b| && b[r[k]] == Empty
    ensures forall j | 0 <= j < |b| && b[j] == Empty :: j in r
    ensures forall k, l | 0 <= k < l < |r| :: r[k] < r[l]
  {
    if b == [] then []
    else
      var front := EmptyIndices(b[..|b| - 1]);
      if b[|b| - 1] == Empty then front + [|b| - 1] else front
  }

  /**
   * `random.choice(available_moves)`, with the random source passed in as `roll`:
   * None when no cell is empty, else an empty cell.
   */
  function ComputerChoice(b: seq<Cell>, roll: nat): (r: Option<nat>)
    ensures r.None? <==> Full(b)
    ensures r.Some? ==> r.value < |b| && b[r.value] == Empty
  {
    var available := EmptyIndices(b);
    if |available| == 0 then
      None
    else
      Some(available[roll % |available|])
  }

  /** No empty cell is ruled out: each one is the choice for some roll. */
  lemma EveryEmptyCellCanBeChosen(b: seq<Cell>, j: nat)
    requires j < |b| && b[j] == Empty
    ensures exists roll: nat :: ComputerChoice(b, roll) == Some(j)
  {
    var available := EmptyIndices(b);
    assert j in available;
    var k :| 0 <= k < |available| && available[k] == j;
    assert k % |available| == k;
    assert ComputerChoice(b, k) == Some(j);
  }

  // ---------------------------------------------------------------------
  // Transitions

  /** `reset_game`: empty board, X to play; the mode and any scheduled computer move stay. */
  function Reset(s: GameState): (r: GameState)
    ensures WellFormed(r)
    ensures forall i | 0 <= i < 9 :: r.board[i] == Empty
    ensures r.current == X && r.mode == s.mode && r.pending == s.pending
  {
    s.(board := EmptyBoard(), current := X)
  }

  /** `set_mode`: store the mode, then reset. */
  function SetMode(s: GameState, m: Mode): (r: GameState)
    ensures r.mode == m && r.current == X && r.pending == s.pending
    ensures r.board == EmptyBoard()
  {
    Reset(s.(mode := m))
  }

  /** The move just made ends the game: it won, or no empty cell remains. */
  predicate Terminal(b: seq<Cell>, p: Player)
    requires |b| == 9
  {
    Wins(b, p) || Full(b)
  }

  /**
   * `on_button_click(index)`. A click keeps the board at nine cells, never
   * changes the mode, and schedules at most one new computer move.
   */
  function Click(s: GameState, index: Index): (r: GameState)
    requires WellFormed(s)
    ensures WellFormed(r) && r.mode == s.mode
    ensures r.pending == s.pending || r.pending == s.pending + 1
  {
    if s.board[index] != Empty then s
    else
      var placed := s.board[index := Taken(s.current)];
      if Terminal(placed, s.current) then Reset(s.(board := placed))
      else
        var next := Other(s.current);
        var scheduled := s.mode == PvE && next == O;
        GameState(placed, next, s.mode, if scheduled then s.pending + 1 else s.pending)
  }

  /**
   * A scheduled `computer_move` fires: it funnels into `Click` for whoever is to
   * play. The fired move is used up, and the click may schedule the next one.
   */
  function ComputerMove(s: GameState, roll: nat): (r: GameState)
    requires WellFormed(s) && s.pending > 0
    ensures WellFormed(r) && r.mode == s.mode
    ensures r.pending == s.pending - 1 || r.pending == s.pending
  {
    var fired := s.(pending := s.pending - 1);
    match ComputerChoice(s.board, roll)
    case None => fired
    case Some(move) => Click(fired, move)
  }

  /** Clicking an occupied cell changes nothing. */
  lemma ClickOccupiedIsNoOp(s: GameState, index: Index)
    requires WellFormed(s) && s.board[index] != Empty
    ensures Click(s, index) == s
  {
  }

  /** A winning or filling move resets the game without switching turn or scheduling. */
  lemma ClickTerminalResets(s: GameState, index: Index)
    requires WellFormed(s) && s.board[index] == Empty
    requires Terminal(s.board[index := Taken(s.current)], s.current)
    ensures var r := Click(s, index);
      r.board == EmptyBoard() && r.current == X && r.mode == s.mode && r.pending == s.pending
  {
  }

  /**
   * Any other move writes the mover's mark into exactly that cell, hands the turn
   * over, and schedules a computer move exactly when the mode is PvE and O is next.
   */
  lemma ClickOtherwiseSwitches(s: GameState, index: Index)
    requires WellFormed(s) && s.board[index] == Empty
    requires !Terminal(s.board[index := Taken(s.current)], s.current)
    ensures var r := Click(s, index);
      && WellFormed(r)
      && r.board[index] == Taken(s.current)
      && (forall j | 0 <= j < 9 && j != index :: r.board[j] == s.board[j])
      && r.current == Other(s.current)
      && r.mode == s.mode
      && (r.pending == s.pending + 1 <==> s.mode == PvE && r.current == O)
      && (r.pending == s.pending <==> !(s.mode == PvE && r.current == O))
  {
  }

  /** The pending count only ever grows by one, on a PvE move that hands the turn to O. */
  lemma ClickSchedulesOnlyForComputer(s: GameState, index: Index)
    requires WellFormed(s)
    ensures var r := Click(s, index);
      r.pending != s.pending ==> r.pending == s.pending + 1 && s.mode == PvE && r.current == O
  {
  }

  /** A cell is never emptied except by a reset of the whole board. */
  lemma ClickNeverClearsOneCell(s: GameState, index: Index)
    requires WellFormed(s)
    ensures var r := Click(s, index);
      r.board == EmptyBoard() ||
      forall j | 0 <= j < 9 && s.board[j] != Empty :: r.board[j] == s.board[j]
  {
  }

  /**
   * When the computer's move fires and some cell is empty, it marks a cell that was
   * empty just before, with the mark of whoever is to play; with no empty cell it
   * only consumes the scheduled move.
   */
  lemma ComputerMoveEffect(s: GameState, roll: nat)
    requires WellFormed(s) && s.pending > 0
    ensures Full(s.board) ==> ComputerMove(s, roll) == s.(pending := s.pending - 1)
    ensures !Full(s.board) ==> exists m: Index ::
      s.board[m] == Empty && ComputerMove(s, roll) == Click(s.(pending := s.pending - 1), m)
  {
    var c := ComputerChoice(s.board, roll);
    if c.Some? {
      var m: Index := c.value;
      assert ComputerMove(s, roll) == Click(s.(pending := s.pending - 1), m);
    }
  }

  // ---------------------------------------------------------------------
  // The invariant of every state between two events

  /** X moves first and the turn alternates: X has as many marks as O, or one more when O is to play. */
  predicate Balanced(b: seq<Cell>, p: Player) {
    && (p == X ==> Count(b, Taken(X)) == Count(b, Taken(O)))
    && (p == O ==> Count(b, Taken(X)) == Count(b, Taken(O)) + 1)
  }

  /** Between two events: no finished line, an empty cell left, and the counts balanced. */
  predicate Settled(s: GameState) {
    && WellFormed(s)
    && !Wins(s.board, X)
    && !Wins(s.board, O)
    && !Full(s.board)
    && Balanced(s.board, s.current)
  }

  lemma {:induction false} ResetIsSettled(s: GameState)
    ensures Settled(Reset(s))
  {
    var b := EmptyBoard();
    EmptyBoardHasNoLine(X);
    EmptyBoardHasNoLine(O);
    assert b[0] == Empty;
    CountAbsent(b, Taken(X));
    CountAbsent(b, Taken(O));
  }

  lemma InitialIsSettled()
    ensures Settled(Initial())
  {
    ResetIsSettled(Initial());
  }

  lemma SetModeIsSettled(s: GameState, m: Mode)
    ensures Settled(SetMode(s, m))
  {
    ResetIsSettled(s.(mode := m));
  }

  lemma {:induction false} ClickKeepsSettled(s: GameState, index: Index)
    requires Settled(s)
    ensures Settled(Click(s, index))
  {
    if s.board[index] == Empty {
      var p := s.current;
      var placed := s.board[index := Taken(p)];
      if Terminal(placed, p) {
        ResetIsSettled(s.(board := placed));
      } else {
        PlacingGivesNoLineToOther(s.board, index, p, Other(p));
        CountAfterPlace(s.board, index, Taken(p), Taken(Other(p)));
      }
    }
  }

  lemma ComputerMoveKeepsSettled(s: GameState, roll: nat)
    requires Settled(s) && s.pending > 0
    ensures Settled(ComputerMove(s, roll))
  {
    var fired := s.(pending := s.pending - 1);
    match ComputerChoice(s.board, roll)
    case None =>
    case Some(move) => ClickKeepsSettled(fired, move);
  }

  /** In a settled state an empty cell exists, so a firing computer move always places a mark. */
  lemma SettledComputerAlwaysMoves(s: GameState, roll: nat)
    requires Settled(s)
    ensures ComputerChoice(s.board, roll).Some?
  {
  }

  /** Marks of X lead those of O by zero or one. */
  lemma {:induction false} SettledMarkLead(s: GameState)
    requires Settled(s)
    ensures Count(s.board, Taken(O)) <= Count(s.board, Taken(X)) <= Count(s.board, Taken(O)) + 1
  {
  }

  /** A player with at most one mark on the board has no complete line. */
  lemma SingleMarkHasNoLine(b: seq<Cell>, m: Index, q: Player)
    requires |b| == 9 && forall j | 0 <= j < 9 && j != m :: b[j] != Taken(q)
    ensures !Wins(b, q)
  {
    forall k | 0 <= k < |WinningCombos|
      ensures !LineOwned(b, WinningCombos[k], q)
    {
      var line := WinningCombos[k];
      assert line.0 != line.1;
      assert b[line.0] != Taken(q) || b[line.1] != Taken(q);
    }
  }

  /**
   * A computer move scheduled before a reset still fires after it, and then plays
   * X's first move on the fresh board (reset_game does not cancel the timer).
   */
  lemma ScheduledMoveSurvivesReset(s: GameState, roll: nat)
    requires s.pending > 0
    ensures var t := ComputerMove(Reset(s), roll);
      && WellFormed(t)
      && (exists m: Index :: t.board[m] == Taken(X) &&
            forall j | 0 <= j < 9 && j != m :: t.board[j] == Empty)
      && t.current == O
  {
    var e := EmptyBoard();
    assert e[0] == Empty;
    var m: Index := ComputerChoice(e, roll).value;
    var placed := e[m := Taken(X)];
    SingleMarkHasNoLine(placed, m, X);
    assert placed[if m == 0 then 1 else 0] == Empty;
    assert !Terminal(placed, X);
    var t := ComputerMove(Reset(s), roll);
    assert t.board == placed;
    assert t.board[m] == Taken(X);
  }
}
