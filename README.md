# Tic-tac-toe game state, in Dafny

This project models the game logic of a tkinter tic-tac-toe window, the
`TicTacToeApp` class in `tic_tac_toe_gui.py`. The model keeps three fields:
the board of nine cells, the player to move, and the game mode (against the
computer or against a second human). It also keeps the operations that change
them: a click on a cell, switching the turn, the win check, the computer's
random move, reset, and changing the mode. Widgets, labels and dialogs are
left out.

- `rules.dfy`, module `Rules`: the state as a value (`GameState`) and each
  operation as a function from the old state to the new one. It also holds
  the properties: the win check as the source lists it and as plain geometry
  (rows, columns, diagonals), proved equal; the effect of a click in each of
  its cases; and the invariant that holds between any two events.
- `app.dfy`, module `App`: the class `TicTacToeApp`, whose fields the methods
  update in place, as the source does. Each method's postcondition ties the
  object's new state to the matching `Rules` function of its old state.
  `CheckWinner` is a loop over the eight combinations with an early return,
  proved equal to `Rules.Wins`.
- `scenarios.dfy`, module `Scenarios`: whole games. A top-row win, a drawn
  game that fills the board, and the opening against the computer. All
  three are played on values; the opening is also played through the object.

Modelling decisions:

- Cells are `Empty | Taken(X)` or `Taken(O)`; the player is `X | O`. The source
  uses the strings `""`, `"X"` and `"O"`. `current_player` only ever holds
  `"X"` or `"O"`, so `switch_player`'s "else X" branch is written as `Other`.
- The 500 ms timer that `on_button_click` arms for `computer_move` becomes a
  count of scheduled computer moves, `pending`. The count goes up by one when a click arms the
  timer. `ComputerMove` models the timer firing: it needs a scheduled move and
  uses one up. It is a count, not a flag, because `reset_game` does not cancel
  the timer. So a click after a reset can arm a second timer while the first
  is still waiting.
- `computer_move` checks neither the mode nor the turn. It clicks on behalf of
  whoever is to move. The model keeps this: `ScheduledMoveSurvivesReset` shows
  that a computer move scheduled before a reset plays X's first move on the
  fresh board.
- `random.choice(available_moves)` takes the random source as a parameter
  `roll`. The chosen cell is `available_moves[roll % len(available_moves)]`.
  `EveryEmptyCellCanBeChosen` shows that no empty cell is ruled out.
- `on_button_click` has no range check, and the buttons only pass 0..8. So
  `Click` and `OnButtonClick` require an index below 9.
- `reset_game` and `set_mode` do not cancel a scheduled `computer_move`.
- `computer_move` on a full board does nothing, and so does the model.
- `computer_move` places the mark of whoever is to move, not always O.
- Each event handler is one atomic step of the model. The dialogs inside the
  handlers are not modelled (see "Left out").

## Model

| member | source | states |
|---|---|---|
| `Rules.EmptyBoard` | tic_tac_toe_gui.py:29 | the board has nine cells, all empty |
| `Rules.Other` | tic_tac_toe_gui.py:134-139 | switching always gives the other player |
| `Rules.SwitchTwiceRestores` | tic_tac_toe_gui.py:134-139 | switching twice gives back the original player |
| `Rules.WinsIffThreeInARow` | tic_tac_toe_gui.py:154-164 | `check_winner(p)` is true exactly when p owns a full row, a full column or a full diagonal of the 3x3 grid (row = index div 3, column = index mod 3), in both directions |
| `Rules.Wins` | tic_tac_toe_gui.py:144-164 | `check_winner(p)` as a value: some listed combination is all p; described by `WinsIffThreeInARow` and computed by `App.TicTacToeApp.CheckWinner` |
| `Rules.WinsIffUnrolled` | tic_tac_toe_gui.py:154-164 | a helper for evaluating concrete boards in `Scenarios`: some combination of the list is all p exactly when one of the eight triples, written out one by one, is all p |
| `App.TicTacToeApp.CheckWinner` | tic_tac_toe_gui.py:144-164 | the loop with early return gives true exactly when some listed combination is all `player` |
| `Rules.PlacingGivesNoLineToOther` | tic_tac_toe_gui.py:111 | writing p's mark into a cell never completes a line for the other player |
| `Rules.NeverTwoWinners` | tic_tac_toe_gui.py:111-118 | on a board where nobody has a line, one move can never give both players one |
| `Rules.EmptyBoardHasNoLine` | tic_tac_toe_gui.py:181 | the reset board holds no complete line for either player |
| `Rules.SingleMarkHasNoLine` | tic_tac_toe_gui.py:160-164 | a player with at most one mark on the board has no complete line |
| `Rules.CountAfterPlace` | tic_tac_toe_gui.py:111 | placing a mark in an empty cell adds one to that mark's count and leaves the other mark's count unchanged |
| `Rules.EmptyIndices` | tic_tac_toe_gui.py:170 | `available_moves` lists exactly the empty cells: every listed index is in range and empty, every empty index is listed, and the list is strictly increasing (enumeration order) |
| `Rules.ComputerChoice` | tic_tac_toe_gui.py:170-174 | no move is chosen exactly when the board is full; otherwise the chosen index is in range and its cell is empty |
| `Rules.EveryEmptyCellCanBeChosen` | tic_tac_toe_gui.py:174 | every empty cell is the computer's choice for some value of the random source |
| `Rules.Reset` | tic_tac_toe_gui.py:178-181 | after a reset the board is all empty and X is to move; the mode and any scheduled computer move are kept |
| `Rules.SetMode` | tic_tac_toe_gui.py:91-97 | after a mode change the new mode is stored, the board is empty and X is to move |
| `Rules.Click` | tic_tac_toe_gui.py:99-132 | `on_button_click`: the board keeps nine cells, the mode never changes, and at most one computer move is newly scheduled; its cases are described by `ClickOccupiedIsNoOp`, `ClickTerminalResets` and `ClickOtherwiseSwitches` |
| `Rules.ComputerMove` | tic_tac_toe_gui.py:166-176 | a fired `computer_move`: the board keeps nine cells, the mode never changes, and the fired move is used up while the click may schedule the next one; described further by `ComputerMoveEffect` |
| `Rules.ClickOccupiedIsNoOp` | tic_tac_toe_gui.py:106-108 | a click on an occupied cell leaves board, player, mode and schedule unchanged |
| `Rules.ClickTerminalResets` | tic_tac_toe_gui.py:114-124 | a move that wins or fills the board resets the game: the board is empty and X is to move, with no turn switch and no computer move scheduled |
| `Rules.ClickOtherwiseSwitches` | tic_tac_toe_gui.py:110-132 | any other move writes the mover's mark into exactly that cell, leaves every other cell as it was, and hands the turn to the other player; a computer move is scheduled exactly when the mode is PvE and O is next |
| `Rules.ClickSchedulesOnlyForComputer` | tic_tac_toe_gui.py:129-132 | a click changes the number of scheduled computer moves only by adding one, and only in PvE mode when O is next |
| `Rules.ClickNeverClearsOneCell` | tic_tac_toe_gui.py:107-124 | a click either resets the whole board or keeps every occupied cell as it was |
| `Rules.ComputerMoveEffect` | tic_tac_toe_gui.py:166-176 | on a full board a fired computer move only uses up the scheduled move; otherwise it acts as a click on a cell that was empty just before |
| `Rules.Settled` | tic_tac_toe_gui.py:99-181 | the invariant between two events: nine cells, no complete line for X or O, an empty cell left, and X's marks equal to O's when X is to move and one more when O is to move; kept by every operation (the `...Settled` rows below) |
| `Rules.Initial` | tic_tac_toe_gui.py:19-36 | the state `__init__` builds: empty board, X to move, PvE mode, nothing scheduled; settled by `InitialIsSettled` |
| `Rules.ResetIsSettled` | tic_tac_toe_gui.py:178-181 | a reset from any state gives a settled state: no complete line, an empty cell left, and balanced mark counts |
| `Rules.InitialIsSettled` | tic_tac_toe_gui.py:19-36 | the freshly built window is settled |
| `Rules.SetModeIsSettled` | tic_tac_toe_gui.py:91-97 | a mode change from any state gives a settled state |
| `Rules.ClickKeepsSettled` | tic_tac_toe_gui.py:99-132 | every click keeps the state settled; in particular the number of X equals the number of O when X is to move, and exceeds it by one when O is to move |
| `Rules.ComputerMoveKeepsSettled` | tic_tac_toe_gui.py:166-176 | a fired computer move, even a stale one, keeps the state settled |
| `Rules.SettledComputerAlwaysMoves` | tic_tac_toe_gui.py:170-172 | in a settled state an empty cell always exists, so the computer always finds a move |
| `Rules.SettledMarkLead` | tic_tac_toe_gui.py:111-127 | in a settled state X has as many marks as O, or one more |
| `Rules.ScheduledMoveSurvivesReset` | tic_tac_toe_gui.py:178-181 | a computer move scheduled before a reset still fires afterwards and places a single X on the fresh board, leaving O to move |
| `App.TicTacToeApp.constructor` | tic_tac_toe_gui.py:7-36 | the new window has an empty board, X to move, PvE mode, nothing scheduled, and is settled |
| `App.TicTacToeApp.SetMode` | tic_tac_toe_gui.py:91-97 | the object's new state is `Rules.SetMode` of its old state |
| `App.TicTacToeApp.ResetGame` | tic_tac_toe_gui.py:178-186 | the object's new state is `Rules.Reset` of its old state |
| `App.TicTacToeApp.SwitchPlayer` | tic_tac_toe_gui.py:134-139 | the player to move becomes the other player, and nothing else changes |
| `App.TicTacToeApp.OnButtonClick` | tic_tac_toe_gui.py:99-132 | the object's new state is `Rules.Click` of its old state and the index |
| `App.TicTacToeApp.ComputerMove` | tic_tac_toe_gui.py:166-176 | the object's new state is `Rules.ComputerMove` of its old state and the random value |
| `Scenarios.TopRowWins` | tic_tac_toe_gui.py:114-118 | with two humans, X@0 O@3 X@1 O@4 X@2 completes the top row with X's move, and the game restarts |
| `Scenarios.FullBoardDraws` | tic_tac_toe_gui.py:120-124 | with two humans, X@0 O@1 X@2 O@4 X@3 O@5 X@7 O@6 X@8 completes no line and fills the board: a draw, and the game restarts |
| `Scenarios.HumanOpensAgainstComputer` | tic_tac_toe_gui.py:126-132 | against the computer, X@0 leaves O to move with one computer move scheduled |
| `Scenarios.ComputerAnswersOpening` | tic_tac_toe_gui.py:166-176 | the computer's reply to X@0 writes one O into a cell that was empty, leaves the rest unchanged and hands the turn back to X |

## Left out

- The window itself (`setup_ui`, lines 41-89): the widgets, the grid layout, the menu bar, and every button and label update (lines 112, 142, 182, 185-186). These only display the state.
- The `messagebox.showinfo` dialogs (lines 96, 116, 122), and what can happen while they are open. Each dialog runs a nested tkinter event loop, so a scheduled `computer_move` (line 132) can fire inside `set_mode` (between lines 95 and 97) or inside `on_button_click` (between the placement at line 111 and the reset at line 117 or 123). The model makes each handler one atomic step, so such an interleaving is not modelled. An example: in PvE with X on 0, 2 and 8, O on 3 and 4, O to move and one computer move scheduled, a human click on 5 wins for O. In the source the timer can fire during the "Game Over" dialog, mark the finished board and be used up before the reset. In the model the reset keeps the scheduled move, which then plays X's first move on the fresh board. For the same reason, the model reaches the "no available move" branch of `computer_move` (line 172) only from a state that is not settled. In the source that branch is reached when the timer fires during the draw dialog. `SettledComputerAlwaysMoves` shows that the branch is dead between events.
- The 500 ms delay and the tkinter event loop (line 132). Only the fact that a computer move is now scheduled is kept. When scheduled moves fire relative to clicks is left to whoever calls the methods.
- The distribution of `random.choice` (line 174). The random source is the parameter `roll`, and only the set of possible choices is modelled, not their probabilities.
- The `__main__` block (lines 189-198): creating the window and entering the main loop.
- Indices outside 0..8 in `on_button_click`: Python would fail on 9 or more and would wrap a negative index. The buttons never pass such an index, so `OnButtonClick` requires `index < 9`.
- `set_mode` accepts any string in the source. The menu only ever passes `"PvE"` or `"PvP"`, so the mode has exactly those two values.
