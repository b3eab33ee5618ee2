# Tic-tac-toe: board, winner tests, minimax opponent and event-loop guards

This project is a Dafny model of the two tic-tac-toe programs in `TicTacToe/`:

- **`TicTacToe_AI.py`** is the computer-opponent variant. It is built as model, opponent and controller classes:
  - a `Model` board object that keeps a claim counter next to the grid;
  - an `AI` opponent that picks a random free cell at level 0 and runs a full-depth minimax search otherwise;
  - a `Controller` that holds the turn, the game mode and the running flag;
  - a main loop that applies key presses and clicks and then lets the computer move.
- **`main.py`** is the two-player variant. Its state is global: the board, the player to move and a game-over flag. Its winner test is `check_winner`, it has a restart, and its loop handles clicks and the R key.

The model works on values rather than mutable objects:

- The board is a sequence of nine cells stored row-major. Cell (row, col) is at index `3 * row + col`. A cell holds 0 (free), 1 (cross) or 2 (circle).
- The Python integers are unbounded here too. No value comes near a machine-integer limit: cells hold 0..2, the claim counter 0..9, minimax scores -1..1 (the search starts from the bounds -100 and 100), and pixel coordinates 0..499.
- Pixel coordinates are integers inside the 500x500 window.

The project has five modules:

| module | file | contents |
|---|---|---|
| `Grid` | `grid.dfy` | the board, cell access, the row-major free-cell scan, the claimed count and the pixel-to-cell mapping; shared by both variants |
| `Model` | `model.dfy` | the `Model` class |
| `Ai` | `ai.dfy` | the `AI` class |
| `Controller` | `controller.dfy` | the `Controller` class and the guards of the computer variant's main loop |
| `GlobalGame` | `global_game.dfy` | the two-player variant |

The main properties proved are these:

- **Claim counter.** A claim of a free cell keeps the counter equal to the number of claimed cells. A claim of an occupied cell makes the counter drift ahead. Under that invariant the counter-based full and empty tests agree with scans of the cells.
- **Winner test.** `final_state` reports a mark only if that mark holds a line and every earlier line is not won. It reports 0 exactly when no line is won.
- **Agreement of the winner tests.** The two variants scan the diagonals in a different order, but both tests find a winner on exactly the same boards.
- **Free-cell list.** The list holds exactly the free cells, each once, in row-major order. Every free cell is the random opponent's pick for some draw.
- **Minimax.**
  - On a board whose counter matches its cells, scores stay in -1..1.
  - A decided position gets the score of its outcome and no move.
  - On a board whose counter matches its cells, any other position gets a free cell that is optimal for the side to move, and it is the first such cell in row-major order.
  - The program never lets the counter fall behind the cells: every write goes through `spot_claim`, which increments the counter. On a board where the counter does lag behind, with every cell claimed and no line, the counter-based test does not see the position as decided. The search then returns its starting bound of -100 or 100 with no move, as the program's own search would.
- **Two-player invariant.** Every event keeps the reachable-state invariant of the two-player variant: turn parity, no line while the game runs, and exactly the last mover's line once it is over.
- **Gaps in the two-player loop.** With no draw detection, a full board without a line ignores every click.
- **Source defects.** Three are recorded under Findings. Each has an as-written model, an input that exhibits it and a corrected definition.

## Model

| member | source | states |
|---|---|---|
| Grid.Next | TicTacToe/TicTacToe_AI.py:239-245 | the turn always passes to the other mark |
| Grid.CellAtAsWritten | TicTacToe/TicTacToe_AI.py:293-295 | the pixel-division mapping yields indices 0..3 in the window, and a window pixel lands on the board exactly when both coordinates are inside the first 498 pixels |
| Grid.EdgeClickLeavesBoard | TicTacToe/TicTacToe_AI.py:293-295 | a click at pixel (499, 10) maps to column 3, which is off the board |
| Grid.Band | TicTacToe/main.py:165-166 | every pixel of an axis lies in one of three bands of 166 pixels (the last band also takes the two leftover pixels), and this agrees with the division wherever the division stays on the board |
| Grid.CellAt | TicTacToe/main.py:162-166 | every window pixel maps to an on-board cell whose pixel band contains it, and this agrees with the division inside the first 498 pixels |
| Grid.CellAtCoversEveryCell | TicTacToe/main.py:165-166 | every cell is reachable by a click: its top-left pixel maps back to it |
| Grid.EmptySpotsSpec | TicTacToe/TicTacToe_AI.py:101-108 | the row-major scan lists exactly the free cells, strictly increasing in row-major order, and as many as there are unclaimed cells |
| Grid.NoEmptyCellIffAllClaimed | TicTacToe/main.py:59-64 | no free cell iff all nine cells are claimed iff the free-cell scan is empty |
| Grid.ClaimedCountSet | TicTacToe/TicTacToe_AI.py:75-78 | overwriting one cell changes the count of claimed cells only by the change at that cell |
| Grid.ScanFull | TicTacToe/main.py:59-64 | the nested row and column loop with early exit answers true exactly when no cell is free |
| Grid.EmptyBoardSpec | TicTacToe/main.py:25 | the zeroed board has no claim, and its free-cell scan is every coordinate in row-major order |
| Model.New | TicTacToe/TicTacToe_AI.py:32-35 | a fresh board satisfies the counter invariant, has the counter at 0, and every cell is available |
| Model.FirstWon | TicTacToe/TicTacToe_AI.py:37-73 | the line scan stops at a won line, and every line it passes over is not won |
| Model.FinalState | TicTacToe/TicTacToe_AI.py:37-73 | a nonzero result is the mark holding every cell of the first won line in scan order; 0 exactly when no line is won |
| Model.FinalStateSpec | TicTacToe/TicTacToe_AI.py:37-73 | a nonzero result is a mark holding a complete line with no won line scanned before it; 0 exactly when no line is won |
| Model.WonNeedsThreeClaims | TicTacToe/TicTacToe_AI.py:37-73 | a won line occupies three claimed cells |
| Model.FewClaimsNoWinner | TicTacToe/TicTacToe_AI.py:37-73 | with fewer than three claimed cells the winner test reports 0 |
| Model.WonIsCompleteByPlayer | TicTacToe/TicTacToe_AI.py:40 | the test "three equal and nonzero" means that one player holds all three cells |
| Model.SpotClaim | TicTacToe/TicTacToe_AI.py:75-78 | the claimed cell holds the player's mark, all other cells are unchanged, and the counter grows by one |
| Model.ClaimPreservesValid | TicTacToe/TicTacToe_AI.py:75-78 | claiming a free cell keeps the counter equal to the number of claimed cells and shortens the free-cell list by one |
| Model.ClaimOccupiedBreaksValid | TicTacToe/TicTacToe_AI.py:75-78 | claiming an occupied cell leaves the counter one above the number of claimed cells |
| Model.SpotAvailable | TicTacToe/TicTacToe_AI.py:80-85 | the availability test, defined as the cell holding 0; its meaning is stated by the next row |
| Model.SpotAvailableIffListed | TicTacToe/TicTacToe_AI.py:80-85 | a cell is available exactly when the free-cell list holds it |
| Model.EmptySpot | TicTacToe/TicTacToe_AI.py:97-99 | the free-cell test answers exactly as the availability test |
| Model.BoardFullAsWritten | TicTacToe/TicTacToe_AI.py:87-95 | the scan as written answers true exactly when row 0 is filled |
| Model.FullBoardImpliesFirstRowFilled | TicTacToe/TicTacToe_AI.py:87-95 | under the counter invariant a full board passes the row-0 scan |
| Model.BoardFullAsWrittenIsWrong | TicTacToe/TicTacToe_AI.py:87-95 | a consistent board with row 0 filled and the centre free passes the scan but is not full |
| Model.BoardFull | TicTacToe/TicTacToe_AI.py:87-95 | the corrected scan answers true exactly when no cell is free, which under the counter invariant is the counter-based full test |
| Model.GetEmptySpots | TicTacToe/TicTacToe_AI.py:101-108 | the nested loop builds the row-major free-cell list: exactly the available cells, in order, 9 minus the counter many |
| Model.FullBoard | TicTacToe/TicTacToe_AI.py:110-112 | the counter-based full test, defined as the counter at 9; its meaning is stated by the next row |
| Model.FullBoardIffNoEmptyCell | TicTacToe/TicTacToe_AI.py:110-112 | under the counter invariant, counter at 9 iff no cell is free iff the free-cell list is empty |
| Model.EmptyBoardTest | TicTacToe/TicTacToe_AI.py:114-116 | the counter-based empty test, defined as the counter at 0; its meaning is stated by the next row |
| Model.EmptyBoardIffAllFree | TicTacToe/TicTacToe_AI.py:114-116 | under the counter invariant, counter at 0 iff every cell is free iff all nine cells are listed |
| Ai.DefaultAI | TicTacToe/TicTacToe_AI.py:123-125 | the default opponent searches (level 1) and plays circle |
| Ai.Rnd | TicTacToe/TicTacToe_AI.py:128-133 | on a board with a free cell, every draw picks an available cell |
| Ai.RndCoversEveryFreeCell | TicTacToe/TicTacToe_AI.py:128-133 | every available cell, and only those, is the pick for some draw |
| Ai.Minimax | TicTacToe/TicTacToe_AI.py:136-178 | on a board whose counter matches its cells, scores stay in -1..1; a decided position scores +1, -1 or 0 exactly as cross wins, circle wins or there is no winner, with no move; on a board whose counter matches its cells, an undecided position yields a move; any move is a free cell |
| Ai.Search | TicTacToe/TicTacToe_AI.py:150-178 | the loop returns the starting value or a move from the candidates; on a board whose counter matches its cells and from a well-formed start (the bound with no move, or a score in -1..1 with a move), the result is well-formed, and it has a real score and move whenever there is a candidate |
| Ai.ScanBestPicksFirstBest | TicTacToe/TicTacToe_AI.py:155-163 | a strict-improvement scan returns either the start value, when nothing beats it, or the first candidate reaching the best score |
| Ai.SearchIsScan | TicTacToe/TicTacToe_AI.py:155-176 | the recursive search is that scan over the candidates' child scores |
| Ai.MinimaxIsScan | TicTacToe/TicTacToe_AI.py:150-178 | away from a decided position, minimax is the scan over the free-cell list |
| Ai.DriftedBoardHasNoMove | TicTacToe/TicTacToe_AI.py:136-178 | on a board with every cell claimed, no line and the counter below 9, minimax returns the starting bound and no move |
| Ai.DriftedBoardExample | TicTacToe/TicTacToe_AI.py:139-148 | such a board exists: nine marks without a line and a counter of 8 pass neither terminal test |
| Ai.MinimaxPicksFirstBest | TicTacToe/TicTacToe_AI.py:136-178 | on an undecided consistent position, minimax returns a free cell that no other free cell strictly beats for the side to move, and the first such in row-major order |
| Ai.Evaluation | TicTacToe/TicTacToe_AI.py:181-190 | level 0 gives an available cell; any other level gives the minimising search's move, which is none at a decided position and, on an undecided board whose counter matches its cells, the first optimal free cell |
| Controller.Init | TicTacToe/TicTacToe_AI.py:224-231 | a new controller has an empty consistent board, the default opponent, computer mode, cross to move and the game running, and satisfies the reachable-state invariant |
| Controller.Move | TicTacToe/TicTacToe_AI.py:233-237 | the mover's mark is written at the cell, other cells are unchanged, the counter grows by one and the turn passes |
| Controller.Gameover | TicTacToe/TicTacToe_AI.py:250-251 | game over, defined as a nonzero winner test or the counter-based full test; `Controller.Inv` ties the running flag to it |
| Controller.ChangeGamemode | TicTacToe/TicTacToe_AI.py:247-248 | the mode always flips |
| Controller.Restart | TicTacToe/TicTacToe_AI.py:253-255 | after a restart every cell is available, cross is to move, the mode is computer, the game is not over and the opponent is the default one |
| Controller.MoveKeepsInv | TicTacToe/TicTacToe_AI.py:297-300 | a move on a free cell followed by the game-over test keeps the counter, running-flag and parity invariant |
| Controller.HumanClick | TicTacToe/TicTacToe_AI.py:297-300 | a click is applied only on a free cell while the game runs, writes the mark of the player to move on that cell alone, passes the turn, leaves the opponent and the mode alone, and stops the game exactly when it is over; otherwise nothing changes |
| Controller.AiToMove | TicTacToe/TicTacToe_AI.py:302 | the computer's turn, defined as computer mode, the opponent's mark to move and the game running |
| Controller.AiTurn | TicTacToe/TicTacToe_AI.py:302-309 | the computer moves only in computer mode, on its turn and while the game runs; then a free cell exists, the opponent's evaluation yields an on-board cell, the state is that move followed by the game-over test, the mark lands on one previously free cell, the opponent and mode are unchanged, and the invariant is kept |
| Controller.HandleEvent | TicTacToe/TicTacToe_AI.py:273-300 | each key does exactly its one change (mode flip, restart, level 0 or 1) and nothing else, a click goes through the loop's click guard as written, and every event keeps the invariant |
| Controller.HandleEvents | TicTacToe/TicTacToe_AI.py:265-300 | a frame's events, applied in order, keep the invariant |
| Controller.HandleEventOnTurn | TicTacToe/TicTacToe_AI.py:273-302 | the corrected event step: keys act as in the loop, a click while the computer is to move changes nothing, and any other click acts as in the loop; the invariant is kept |
| Controller.HandleEventsOnTurn | TicTacToe/TicTacToe_AI.py:265-302 | a frame's events with the corrected click, applied in order, keep the invariant |
| Controller.Frame | TicTacToe/TicTacToe_AI.py:264-309 | one pass of the loop as written, the events with the loop's click guard as written followed by the computer's turn, keeps the invariant |
| Controller.TwoClicksPlayBothMarks | TicTacToe/TicTacToe_AI.py:265-300 | in the loop as written, a frame of two clicks on different cells of a new game in computer mode places cross and then the computer's circle, and the computer is not to move |
| Controller.FirstClick | TicTacToe/TicTacToe_AI.py:297-300 | the first click of a new game places cross on its cell alone and hands the turn to the computer |
| Controller.ClickOnComputersTurn | TicTacToe/TicTacToe_AI.py:297-298 | with the guard as written, a click on a free cell on the computer's turn writes the computer's mark |
| Controller.HumanClickOnTurn | TicTacToe/TicTacToe_AI.py:297-302 | the corrected click is ignored while the computer is to move, never writes the computer's mark in computer mode, and keeps the invariant |
| Controller.TwoClicksOnTurn | TicTacToe/TicTacToe_AI.py:265-302 | with the corrected click, the second of two clicks in one frame of a new game is ignored and the computer is left to move |
| Controller.HandleEventsPair | TicTacToe/TicTacToe_AI.py:265 | a frame of two events applies the first and then the second, in the loop as written and in the corrected one |
| GlobalGame.Initial | TicTacToe/main.py:25-27 | the start state has every cell free, no claim, cross to move and the game running |
| GlobalGame.SpotClaim | TicTacToe/main.py:46-47 | the mark is written at the cell, other cells are unchanged, and a free cell raises the claimed count by one |
| GlobalGame.SpotAvailable | TicTacToe/main.py:51-55 | the availability test, defined as the cell holding 0; its meaning is stated by the next row |
| GlobalGame.SpotAvailableIffListed | TicTacToe/main.py:51-55 | a cell is available exactly when the free-cell scan lists it |
| GlobalGame.BoardFull | TicTacToe/main.py:59-64 | true iff no cell is free iff nine cells are claimed iff no cell is available |
| GlobalGame.FirstComplete | TicTacToe/main.py:82-98 | the line scan stops at the first line held by the player, and every line it passes over is not held |
| GlobalGame.CheckWinner | TicTacToe/main.py:82-98 | true iff the player holds some line; the line handed to the drawing code is the first held one in scan order, and is present exactly when the answer is true |
| GlobalGame.Restart | TicTacToe/main.py:143-150 | every cell is cleared and cross is to move, while the game-over flag is left for the loop to reset |
| GlobalGame.ClickStep | TicTacToe/main.py:161-177 | a click is ignored once the game is over or on a taken cell; otherwise it writes the mover's mark, passes the turn, and ends the game exactly when the mover now holds a line |
| GlobalGame.Step | TicTacToe/main.py:157-184 | closing the window stops the loop, the R key restores the start state including the game-over flag, a click is the click step at its cell, and other keys change nothing |
| GlobalGame.Steps | TicTacToe/main.py:156-184 | one pass of the loop handles the whole batch of events in order, and the loop stops after it exactly when the window was closed during it |
| GlobalGame.QuitThenPress | TicTacToe/main.py:157-177 | closing the window does not cut the batch short: a click queued after the close is still applied |
| GlobalGame.InitialInv | TicTacToe/main.py:25-27 | the start state satisfies the reachable-state invariant |
| GlobalGame.LineSurvivesOtherMark | TicTacToe/main.py:168-169 | writing one player's mark cannot give the other player a line |
| GlobalGame.ClickKeepsInv | TicTacToe/main.py:161-177 | a click keeps turn parity, no line while the game runs, and only the last mover holding a line once it is over |
| GlobalGame.ClaimKeepsInv | TicTacToe/main.py:168-177 | the applied click keeps that invariant |
| GlobalGame.StepKeepsInv | TicTacToe/main.py:157-184 | every event keeps that invariant |
| GlobalGame.StepsKeepInv | TicTacToe/main.py:156-184 | every pass of the loop keeps that invariant |
| GlobalGame.GameOverNamesWinner | TicTacToe/main.py:174-177 | once the game is over, the other variant's winner test names the player who moved last |
| GlobalGame.DrawIsStuck | TicTacToe/main.py:161-177 | a full board without a line leaves the game not over, and every click on it changes nothing |
| GlobalGame.SameLines | TicTacToe/main.py:82-98 | this variant's lines and the other variant's lines are the same eight lines |
| GlobalGame.WinnerTestsAgree | TicTacToe/main.py:82-98 | some player holds a line exactly when the other variant's winner test reports nonzero, and the player it reports holds a line |

## Left out

- Drawing is not modelled. This covers the grid, the marks, the winning line (`final_state`'s `show` parameter and the `vertical_line`/`horizontal_line`/diagonal helpers), the window fill and the display updates. They have no effect on the game state.
- The console messages are not modelled, since they carry no state.
- The pygame event queue is not modelled. Each frame's events become an explicit sequence (`Controller.HandleEvents`, `GlobalGame.Steps`).
- The computer variant's quit event is not modelled, because it ends the process through `sys.exit`. In the two-player variant, quit is modelled as clearing the loop flag.
- The random number generator is not modelled. The value drawn by `random.randrange(0, n)` becomes the `pick` parameter of `Ai.Rnd`, `Ai.Evaluation`, `Controller.AiTurn` and `Controller.Frame`, reduced modulo `n`, so every draw is a valid index. The draw's uniform distribution is not modelled.
- The board's numpy floating-point cells are not modelled. They only ever hold 0, 1 or 2, so they are modelled as integers 0..2.
- `Model.spots` at TicTacToe_AI.py:118-119 is not modelled. Its name is shadowed by the instance attribute of the same name set in `__init__`, so it can never be called.
- The `empty_spots` alias at line 34 is not modelled, because nothing reads it.
- A player mark outside {1, 2} is not modelled. The `Player` type rules out any other value passed to a claim, because the programs only ever pass 1 or 2. `AI.player` is likewise restricted to 1 or 2.
- Mouse positions outside the window are not modelled. Clicks carry `InWindow`, because pygame only reports clicks inside the window.
- Grid.CellAt: folds the two-pixel strip at the right and bottom edges into the last column and row. The source raises an `IndexError` there; see Findings.

## Findings

| source | as written | input that shows it | evidently intended | confidence | as-written member | corrected member |
|---|---|---|---|---|---|---|
| TicTacToe/TicTacToe_AI.py:87-95 | `return True` sits inside the loop over rows, so `board_full` inspects row 0 only | the board `[1, 2, 1, 0, 0, 0, 0, 0, 0]` with counter 3 is reported full | true only when all nine cells are claimed, as in `main.py`'s `board_full` | not executed; high (the method has no caller, so the game itself is unaffected) | Model.BoardFullAsWritten | Model.BoardFull |
| TicTacToe/TicTacToe_AI.py:297-298 | the click guard checks only that the cell is free and the game runs, not whose turn it is | in computer mode, two clicks in one frame of a new game: the second click writes circle for the human | clicks are ignored while the computer is to move | not executed; medium (needs two clicks within one frame) | Controller.TwoClicksPlayBothMarks | Controller.HumanClickOnTurn |
| TicTacToe/TicTacToe_AI.py:294-295 | the cell index is the pixel divided by `SIZE = 500 // 3 = 166`, and three cells cover only 498 pixels; `main.py:165-166` does the same | a click at pixel (499, 10) gives column 3, and the board lookup raises `IndexError`; in the computer variant this happens even after the game is over, because `empty_spot` is evaluated before `game.running` at line 297 | every window pixel maps to a cell, with the edge strip in the last column or row | not executed; high | Grid.EdgeClickLeavesBoard | Grid.CellAt |
