/**
 * The TicTacToeApp window object, without its widgets: the fields the game
 * logic updates in place, and its methods as step-by-step updates of those
 * fields. Each method is proved to leave the object in the state that the
 * matching function of module Rules computes from the old state.
 */
module App {
  import opened Rules

  class TicTacToeApp {
    var board: seq<Cell>
    var currentPlayer: Player
    var gameMode: Mode
    /** Calls to `computer_move` armed with `root.after` that have not run yet. */
    var pendingComputerMoves: nat

    /** The object's fields as a value. */
    function State(): GameState
      reads this
    {
      GameState(board, currentPlayer, gameMode, pendingComputerMoves)
    }

    ghost predicate Valid()
      reads this
    {
      WellFormed(State())
    }

    /** `__init__`: X to play on an empty board, against the computer. */
    constructor ()
      ensures Valid() && State() == Initial()
      ensures Settled(State())
    {
      currentPlayer := X;
      board := EmptyBoard();
      gameMode := PvE;
      pendingComputerMoves := 0;
      InitialIsSettled();
    }

    /** `set_mode`: store the mode, then reset the game. */
    method SetMode(mode: Mode)
      modifies this
      ensures Valid() && State() == Rules.SetMode(old(State()), mode)
    {
      gameMode := mode;
      ResetGame();
    }

    /** `reset_game`: X to play on a fresh board. A scheduled computer move is not cancelled. */
    method ResetGame()
      modifies this
      ensures Valid() && State() == Reset(old(State()))
    {
      currentPlayer := X;
      board := EmptyBoard();
    }

    /** `switch_player` */
    method SwitchPlayer()
      modifies this`currentPlayer
      ensures currentPlayer == Other(old(currentPlayer))
    {
      if currentPlayer == X {
        currentPlayer := O;
      } else {
        currentPlayer := X;
      }
    }

    /** `check_winner`: scan the combinations, stopping at the first one `player` owns. */
    method CheckWinner(player: Player) returns (won: bool)
      requires Valid()
      ensures won <==> Wins(board, player)
    {
      var i := 0;
      while i < |WinningCombos|
        invariant 0 <= i <= |WinningCombos|
        invariant forall k | 0 <= k < i :: !LineOwned(board, WinningCombos[k], player)
      {
        var (a, b, c) := WinningCombos[i];
        if board[a] == Taken(player) && board[b] == Taken(player) && board[c] == Taken(player) {
          return true;
        }
        i := i + 1;
      }
      return false;
    }

    /** `on_button_click(index)` */
    method OnButtonClick(index: nat)
      requires Valid() && index < 9
      modifies this
      ensures Valid() && State() == Click(old(State()), index)
    {
      if board[index] != Empty {
        return;
      }
      board := board[index := Taken(currentPlayer)];
      var won := CheckWinner(currentPlayer);
      if won {
        ResetGame();
        return;
      }
      if Empty !in board {
        ResetGame();
        return;
      }
      SwitchPlayer();
      if gameMode == PvE && currentPlayer == O {
        // the computer's move is scheduled on a timer
        pendingComputerMoves := pendingComputerMoves + 1;
      }
    }

    /**
     * `computer_move`, run when its timer fires; `roll` stands for the random
     * source behind `random.choice`.
     */
    method ComputerMove(roll: nat)
      requires Valid() && pendingComputerMoves > 0
      modifies this
      ensures Valid() && State() == Rules.ComputerMove(old(State()), roll)
    {
      pendingComputerMoves := pendingComputerMoves - 1;
      var availableMoves := EmptyIndices(board);
      if |availableMoves| > 0 {
        var move := availableMoves[roll % |availableMoves|];
        OnButtonClick(move);
      }
    }
  }
}
