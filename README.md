# Offline games: the game logic, modelled and verified in Dafny

This project models the rules and screen state machines of the offline-games React Native app. It covers:

- **Ludo**: the board geometry; the move legality, capture, extra-turn and turn-rotation rules; the computer player's move choice.
- **Water Sort**: puzzle generation by scrambling a solved position; pouring, the win test, undo and the star rating.
- **Nuts & Bolts**: level generation; moving a nut, the win test and undo; the level bands.
- **Sudoku**: the validator (`isValidMove`, `checkWin`, `getCellConflicts`); the backtracking generator on a 9x9 array; the game screen (cell selection, input with mistake counting, timer display).
- **Tetris**: pieces and rotations; validity; locking a piece and clearing rows; scoring and levels; moves, rotation with wall kicks, and hard drop.
- **Snake**: direction buffering; the game tick with wall, self-collision and food; speed progression; food spawning; the high score.
- **Shop**: the catalogue; buying with confirmation; equipping.
- **Challenges**: rolling targets, claiming rewards and achievements.

The screens keep their state in React hooks and refs. Each screen is a Dafny `class` whose fields are that state. Each handler is a `method` that states the whole new state, and a `Valid()` invariant is kept by every handler. Pure helpers are functions, and their properties are lemmas. The two puzzle games share one module, `Stacks`: tubes and bolts are both stacks of colour units, and the module holds the unit-conservation facts. Board colours are small integers (an index into the palette). Tetris cells store the piece kind instead of its colour string; the two are in one-to-one correspondence.

Randomness is never drawn inside the model. Dice rolls, random index pairs, shuffle positions, spawned piece kinds and food candidates are all parameters. Timers and animations are collapsed: the action they delay happens in the same step.

## Model

| member | source | states |
|---|---|---|
| LudoBoard.RingArm | src/screens/games/ludoConstants.js:23-36 | Each colour's arm of the main path has 13 cells, all on the 15x15 grid. |
| LudoBoard.MainPath | src/screens/games/ludoConstants.js:19-36 | The main path has 52 cells on the grid; the 13 cells from each colour's start offset are that colour's arm. |
| LudoBoard.HomeStretch | src/screens/games/ludoConstants.js:38-45 | Each colour's home stretch has 6 cells on the grid. |
| LudoBoard.StartOffset | src/screens/games/ludoConstants.js:47 | Start offsets are ring indices below 52 and multiples of 13. |
| LudoBoard.GlobalIndex | src/screens/games/ludoConstants.js:61 | The global ring index of a relative position 0..50 is below 52 and congruent to offset + position mod 52. |
| LudoBoard.GetXY | src/screens/games/ludoConstants.js:55-72 | Null exactly for a piece at home; positions 0..50 map to the main path at their global index; 51..56 map to the colour's home stretch, 56 to its last cell; anything else maps to the centre (7,7). |
| LudoBoard.SafeSquaresShape | src/screens/games/ludoConstants.js:49-52 | Every start cell is safe; the safe set holds 8 strictly increasing ring indices below 52. |
| LudoBoard.IsSafe | src/screens/games/ludoConstants.js:49-52 | A ring index is safe iff it lies on the ring and is a start cell or the star eight cells after one (index mod 13 is 0 or 8). |
| LudoBoard.EntryCellsDistinct | src/screens/games/ludoConstants.js:47 | Two different colours enter the ring on different global cells and different board coordinates. |
| LudoBoard.EntryCell | src/screens/games/ludoConstants.js:55-63 | Relative position 0 is the colour's start offset and the first cell of its arm. |
| LudoBoard.RingWalk | src/screens/games/ludoConstants.js:59-63 | Positions 0..50 of one colour land on distinct ring cells, and position 50 is two cells short of the start. |
| LudoRules.Pieces.With | src/screens/games/LudoScreen.js:235-240 | Replacing one colour's pieces leaves every other colour's pieces as they were. |
| LudoRules.IndicesOnCell | src/screens/games/LudoScreen.js:262-269 | The collected indices are exactly the pieces of that colour standing on the ring cell, in increasing order, one per such piece. |
| LudoRules.CountOnCell | src/screens/games/LudoScreen.js:192-199 | The count is the number of pieces of that colour standing on the cell, so it is zero exactly when none is there. |
| LudoRules.StartPiecesOk | src/screens/games/LudoScreen.js:10-15 | The initial board (every piece at -1) is in range and keeps the stacking cap, with no piece on any board position. |
| LudoRules.IsStartBlocked | src/screens/games/LudoScreen.js:207-229 | The start is blocked iff two own pieces are at position 0 or a single opponent colour has two or more pieces on the entry cell. |
| LudoRules.Target | src/screens/games/LudoScreen.js:244-246 | A piece leaving its base lands on relative 0; any other piece moves strictly forward. |
| LudoRules.IsValidMove | src/screens/games/LudoScreen.js:172-205 | A legal move either leaves home on a six or stays within 56, and the target holds fewer than two own pieces. |
| LudoRules.CapIsTheOnlyDifference | src/screens/games/LudoScreen.js:178-205 | The as-written and the corrected legality differ exactly when a board piece would land on 56 with two own pieces already there; the corrected rule allows every move the as-written one does. |
| LudoRules.MixedPairDoesNotBlock | src/screens/games/LudoScreen.js:191-203 | A cell holding at most one piece of each opponent colour does not block a landing. |
| LudoRules.IndicesFrom | src/screens/games/LudoScreen.js:162-170 | The collected indices are exactly the flagged ones from i on, in increasing order. |
| LudoRules.ValidMoves | src/screens/games/LudoScreen.js:162-170 | The list holds exactly the pieces whose move is legal, in index order, at most four. |
| LudoRules.CaptureFrom | src/screens/games/LudoScreen.js:262-278 | When exactly one piece of the colour stands on the cell, that piece goes home and nothing else changes; otherwise the colour is unchanged. |
| LudoRules.CaptureAllEffect | src/screens/games/LudoScreen.js:258-279 | After the capture pass, each active opponent colour is captured on the cell; the mover and inactive colours are untouched. |
| LudoRules.MoveEffect | src/screens/games/LudoScreen.js:231-281 | After a move, the moved piece stands on its target, other own pieces are unchanged, and each opponent piece is unchanged or sent home by the capture rule. |
| LudoRules.MoveResult | src/screens/games/LudoScreen.js:241-285 | The mover's own colour changes only at the moved piece, which stands on its target. |
| LudoRules.CaptureAllKeepsMover | src/screens/games/LudoScreen.js:258-259 | The capture pass never touches the moving colour's own pieces. |
| LudoRules.CaptureIffSentHome | src/screens/games/LudoScreen.js:252-281 | The `captured` flag is set iff the move changes the position of some opponent piece. |
| LudoRules.NoCaptureOnSafe | src/screens/games/LudoScreen.js:253-256 | Landing on a safe cell, or beyond the ring, leaves every other colour unchanged. |
| LudoRules.MovePreservesStacks | src/screens/games/LudoScreen.js:182-186 | A legal move keeps every piece in range and at most two pieces of a colour on any position. |
| LudoRules.StackAfterMove | src/screens/games/LudoScreen.js:182-186 | After a legal move, every colour has at most two pieces on each position 0..56. |
| LudoRules.CountAfterWrite | src/screens/games/LudoScreen.js:249 | Writing the target into the moved slot raises the count at the target by one and lowers it at the old position by one. |
| LudoRules.CountDrops | src/screens/games/LudoScreen.js:275-276 | Sending pieces home never raises the count at a board position. |
| LudoRules.WinUnreachable | src/screens/games/LudoScreen.js:182-186 | Under the as-written stacking cap, no colour ever has all four pieces at 56. |
| LudoRules.ThirdPieceCannotFinish | src/screens/games/LudoScreen.js:182-186 | With two pieces at 56, a third piece 3 short of the centre may not finish on a roll of 3. |
| LudoRules.IsValidMoveIntended | src/screens/games/LudoScreen.js:172-205 | The corrected legality agrees with the as-written rule for every target except 56. |
| LudoRules.IntendedAllowsFinish | src/screens/games/LudoScreen.js:287-294 | Under the corrected rule, a last piece exactly one roll from the centre may move, and afterwards all four pieces are at 56. |
| LudoRules.BotScore | src/screens/games/LudoScreen.js:84-112 | The score is at least the target; finishing scores exactly 100, anything else at most 80. |
| LudoRules.PickBestBotMove | src/screens/games/LudoScreen.js:80-120 | The chosen index is a candidate with the maximal score, and no earlier candidate reaches that score. |
| LudoRules.BotPrefersFinish | src/screens/games/LudoScreen.js:90-91 | When some candidate finishes a piece, the bot's pick finishes a piece. |
| LudoGame.ActiveFor | src/screens/games/LudoScreen.js:456-460 | The player count selects 2, 3 or 4 distinct colours, starting with red and including yellow; two players are red and yellow. |
| LudoGame.ExtraTurn | src/screens/games/LudoScreen.js:297-298 | For distinct active colours, a move earns another roll iff the roll is 6, the piece reaches 56, or the move changes some opponent piece (a capture). |
| LudoGame.PiecesOnCell | src/screens/games/LudoScreen.js:263-269 | The loop collects exactly the indices of that colour's pieces on the ring cell. |
| LudoGame.CaptureColour | src/screens/games/LudoScreen.js:262-278 | One colour's capture step: the colour's pieces after the capture rule, and a hit flag iff exactly one piece stood there. |
| LudoGame.CaptureStep | src/screens/games/LudoScreen.js:258-279 | One round of the forEach over active colours: it carries the capture pass and the captured flag from colour k to colour k+1. |
| LudoGame.CaptureOpponents | src/screens/games/LudoScreen.js:258-279 | The loop yields the capture pass over all active colours; captured iff some other active colour had exactly one piece there. |
| LudoGame.MovePiece | src/screens/games/LudoScreen.js:231-281 | The new board is the specified move result; captured matches the capture predicate for the target. |
| LudoGame.Game.constructor | src/screens/games/LudoScreen.js:10-26 | The setup screen with four colours, every piece at home, turn 0, die 1 and no winner. |
| LudoGame.Game.StartGame | src/screens/games/LudoScreen.js:452-477 | Seats the chosen colours, resets the board, turn, die and winner, and enters the roll phase. |
| LudoGame.Game.IsBot | src/screens/games/LudoScreen.js:37 | In a game against the computer, the bot plays exactly the seats other than the first (red); in a two-player game it plays none. |
| LudoGame.Game.ResetGame | src/screens/games/LudoScreen.js:479-486 | Returns to the setup phase and changes nothing else. |
| LudoGame.Game.NextTurn | src/screens/games/LudoScreen.js:318-328 | The turn advances cyclically; phase Roll, die 1, no offered moves, the board unchanged. |
| LudoGame.Game.DoMove | src/screens/games/LudoScreen.js:231-316 | The board becomes the move result and no move is offered. The game is over exactly when the mover has all pieces at 56, with the mover as winner. Otherwise the same colour rolls again, with the die kept, after a six, a capture or a finish, and in every other case the next seat rolls with the die reset; seating and mode never change. |
| LudoGame.Game.Conclude | src/screens/games/LudoScreen.js:284-316 | The win check, then the extra-turn or next-turn branch, with the board set to the new pieces. |
| LudoGame.Game.OnUserRoll | src/screens/games/LudoScreen.js:144-160 | Ignored unless a human is to roll. With no legal move the turn passes; otherwise the move phase offers exactly the legal moves. |
| LudoGame.Game.OnPiecePress | src/screens/games/LudoScreen.js:330-335 | Only an offered piece in the move phase of a human turn moves, with the die shown; the result is the full `doMove` state (board, win, extra turn or next turn, die). Any other press changes nothing. |
| LudoGame.Game.BotTurn | src/screens/games/LudoScreen.js:57-78 | With no legal move the bot passes the turn and nothing else changes; otherwise it plays a legal move of maximal score, and the result is the full `doMove` state with the rolled die. |
| LudoGame.Game.PlayBestMove | src/screens/games/LudoScreen.js:71-77 | With at least one legal move, some legal move of maximal score is played, and the new state is the full `doMove` state with the rolled die. |
| LudoGame.NeverWon | src/screens/games/LudoScreen.js:289-294 | Under the as-written rules a reachable game never sets gameOver. |
| Common.Count | src/screens/games/LudoScreen.js:183-185 | The count of a value equals its multiplicity in the sequence. |
| Stacks.MoveBlock | src/screens/games/waterSort/puzzleGenerator.js:142-148 | Moving the top k units keeps the stack count and the units; the block lands on top of the destination in order; other stacks are unchanged. |
| Stacks.TransferUnits | src/screens/games/waterSort/puzzleGenerator.js:147 | A pop-and-push between two stacks keeps the multiset of units. |
| Stacks.SnapshotsAppend | src/screens/games/WaterSortScreen.js:143 | Appending a snapshot with the same stack count, units and bound keeps the whole undo history well-formed. |
| Stacks.SolvedState | src/screens/games/waterSort/puzzleGenerator.js:51-66 | The starting layout is solved and bounded: one full stack per colour, then the empty stacks. |
| Stacks.SolvedStateUnits | src/screens/games/waterSort/puzzleGenerator.js:55-61 | The starting layout holds exactly cap units of each colour and nothing else. |
| Stacks.SolvedGathersColours | src/screens/games/waterSort/puzzleGenerator.js:158-166 | In a solved position, all units of a colour sit in one stack. |
| Stacks.ScrambleConserves | src/screens/games/waterSort/puzzleGenerator.js:73-96 | Scrambling keeps the stack count, every colour's unit count and the capacity bound. |
| Stacks.BuildSolved | src/screens/games/waterSort/puzzleGenerator.js:51-66 | The nested push loops build exactly the starting layout. |
| Stacks.Scramble | src/screens/games/waterSort/puzzleGenerator.js:73-96 | The scrambling loop produces the draw-driven scramble (skipped draws do not count as steps). |
| WaterSortLogic.ConfigFor | src/screens/games/waterSort/puzzleGenerator.js:18-48 | Every configuration has colours + 2 empties = total tubes, 4 units per colour, and between 1 and the palette size colours. |
| WaterSortLogic.CanPour | src/screens/games/waterSort/puzzleGenerator.js:107-119 | A pour is legal iff the source is non-empty, the destination has room, and the destination is empty or shows the source's top colour; a legal pour moves at least one unit. |
| WaterSortLogic.TopRun | src/screens/games/waterSort/puzzleGenerator.js:139-148 | The top run is the longest block equal to the top unit: at least 1 for a non-empty tube, bounded below by a different colour. |
| WaterSortLogic.PerformPour | src/screens/games/waterSort/puzzleGenerator.js:128-151 | The pour loop gives the specified result, keeping the tube count, the units and the capacity bound. |
| WaterSortLogic.PourUnits | src/screens/games/waterSort/puzzleGenerator.js:139-148 | The while loop moves exactly min(top run, free space) units, in order, onto the destination. |
| WaterSortLogic.PourMovesIffLegal | src/screens/games/waterSort/puzzleGenerator.js:107-137 | A pour moves at least one unit iff canPour allows it; an illegal pour returns the tubes unchanged. |
| WaterSortLogic.PourEffect | src/screens/games/waterSort/puzzleGenerator.js:139-150 | Every moved unit has the top colour, the destination's old units stay below, the pour stops only at an empty source, a different colour or a full destination, and other tubes are unchanged. |
| WaterSortLogic.CheckWin | src/screens/games/waterSort/puzzleGenerator.js:158-167 | Won iff every tube is empty or holds exactly four units all equal to its bottom unit; a won board is within capacity. |
| WaterSortLogic.GeneratePuzzle | src/screens/games/waterSort/puzzleGenerator.js:47-99 | The generator builds the scrambled solved layout for the difficulty. |
| WaterSortLogic.PuzzleShape | src/screens/games/waterSort/puzzleGenerator.js:47-99 | A puzzle has totalTubes tubes, none holding more than 4 units. |
| WaterSortLogic.PuzzleColours | src/screens/games/waterSort/puzzleGenerator.js:47-99 | A puzzle holds exactly 4 units of each of its colorCount colours and no other. |
| WaterSortScreen.StarRating | src/screens/games/WaterSortScreen.js:168-179 | 1 to 3 stars: 3 iff moves are within the first threshold, at least 2 iff within the second. |
| WaterSortScreen.Thresholds | src/screens/games/WaterSortScreen.js:170-175 | Each difficulty's first threshold is positive and below its second. |
| WaterSortScreen.StarsNonIncreasing | src/screens/games/WaterSortScreen.js:168-179 | More moves never earn more stars. |
| WaterSortScreen.WaterSortGame.constructor | src/screens/games/WaterSortScreen.js:23-28 | The menu: not started, no difficulty, no tubes, selection, moves or history. |
| WaterSortScreen.WaterSortGame.HandleStartGame | src/screens/games/WaterSortScreen.js:45-54 | Sets the difficulty, loads its generated puzzle, clears selection, moves and history, and shows the game. |
| WaterSortScreen.WaterSortGame.HandleReset | src/screens/games/WaterSortScreen.js:219-234 | A new puzzle of the current difficulty, with selection, moves and history cleared. |
| WaterSortScreen.WaterSortGame.FinishPour | src/screens/games/WaterSortScreen.js:142-160 | The old tubes are pushed on the history, the pour is applied, moves rise by one, the selection is cleared, and the win is reported iff checkWin holds; the units are kept. |
| WaterSortScreen.WaterSortGame.TryPour | src/screens/games/WaterSortScreen.js:74-85 | A legal pour is performed and counted and the win is reported; an illegal one only clears the selection and reports no win. |
| WaterSortScreen.WaterSortGame.HandleTubePress | src/screens/games/WaterSortScreen.js:56-72 | Selects a non-empty tube, deselects on a second press of the same tube, and otherwise tries the pour: a legal pour is recorded, counted and reports whether the puzzle is solved; no other press changes tubes, history or moves or reports a win. |
| WaterSortScreen.WaterSortGame.HandleUndo | src/screens/games/WaterSortScreen.js:207-217 | With a history, restores the last snapshot, drops it and uncounts a move; otherwise nothing changes. |
| WaterSortScreen.WaterSortGame.HandleBackToMenu | src/screens/games/WaterSortScreen.js:236-241 | Leaves the game and clears difficulty and selection; the tubes stay. |
| NutsBoltsLogic.ConfigFor | src/screens/games/nutsBolts/gameLogic.js:15-19 | Each configuration has capacity 4, fewer colours than bolts, within the palette, and at least one empty bolt. |
| NutsBoltsLogic.NeededEmpty | src/screens/games/nutsBolts/gameLogic.js:41-42 | The empty-bolt count is max(empty, bolts - colours). |
| NutsBoltsLogic.BoltCountMatches | src/screens/games/nutsBolts/gameLogic.js:15-45 | Every difficulty ends up with exactly its bolts count. |
| NutsBoltsLogic.IsValidMove | src/screens/games/nutsBolts/gameLogic.js:72-89 | A move is legal iff it is between two different bolts, the source is non-empty, the target has room, and the target is empty or shows the same top nut. |
| NutsBoltsLogic.CheckWin | src/screens/games/nutsBolts/gameLogic.js:94-103 | Won iff every bolt is empty or holds exactly `capacity` nuts all equal to its first; a won board is within capacity. |
| NutsBoltsLogic.ValidMoveConserves | src/screens/games/nutsBolts/gameLogic.js:72-89 | A legal move keeps the bolt count, every colour's nut count and the capacity bound. |
| NutsBoltsLogic.GenerateLevel | src/screens/games/nutsBolts/gameLogic.js:24-67 | The generator returns the difficulty's configuration and its scrambled solved layout. |
| NutsBoltsLogic.LevelShape | src/screens/games/nutsBolts/gameLogic.js:24-67 | A level has exactly the configured number of bolts, none over capacity. |
| NutsBoltsLogic.LevelColours | src/screens/games/nutsBolts/gameLogic.js:24-67 | A level holds exactly 4 nuts of each of its colours and no other. |
| NutsBoltsScreen.DifficultyForLevel | src/screens/games/NutsBoltsScreen.js:23-29 | Levels 1-5 are easy, above 15 hard, the rest medium. |
| NutsBoltsScreen.LevelsGetHarder | src/screens/games/NutsBoltsScreen.js:23-29 | A higher level never has fewer colours or fewer bolts. |
| NutsBoltsScreen.MoveNut | src/screens/games/NutsBoltsScreen.js:76-78 | The pop and push move exactly the top nut of the source onto the destination. |
| NutsBoltsScreen.NutsBoltsGame.constructor | src/screens/games/NutsBoltsScreen.js:10-16 | The menu at level 1 with no bolts, selection, history or win. |
| NutsBoltsScreen.NutsBoltsGame.StartNewGame | src/screens/games/NutsBoltsScreen.js:23-36 | Loads the generated level of the level's difficulty, shows the game, and clears selection, history and the win. |
| NutsBoltsScreen.NutsBoltsGame.Load | src/screens/games/NutsBoltsScreen.js:30-34 | Shows the given bolts with no selection and an empty history. |
| NutsBoltsScreen.NutsBoltsGame.HandleBackToMenu | src/screens/games/NutsBoltsScreen.js:38-41 | Shows the menu and clears the win; the bolts and history stay. |
| NutsBoltsScreen.NutsBoltsGame.PerformMove | src/screens/games/NutsBoltsScreen.js:71-92 | The old bolts go on the history, the top nut moves, the selection clears, and the win is set when checkWin holds; the nuts are kept. |
| NutsBoltsScreen.NutsBoltsGame.Commit | src/screens/games/NutsBoltsScreen.js:73-86 | Records the history and the new bolts, clears the selection and raises the win flag. |
| NutsBoltsScreen.NutsBoltsGame.HandlePress | src/screens/games/NutsBoltsScreen.js:43-69 | Ignored after a win. Selects a non-empty bolt; a second press of the same bolt deselects; otherwise a legal move is performed and an illegal one clears the selection. |
| NutsBoltsScreen.NutsBoltsGame.HandleUndo | src/screens/games/NutsBoltsScreen.js:94-100 | With a history, restores the last snapshot, drops it and clears the selection, keeping the win flag, the level and the screen; otherwise nothing changes. |
| SudokuValidator.PeerSymmetric | src/screens/games/sudoku/Validator.js:4-29 | The row/column/box peer relation is symmetric. |
| SudokuValidator.IsValidMove | src/screens/games/sudoku/Validator.js:4-29 | A number may stand at a cell iff no peer of the cell holds it. |
| SudokuValidator.BoxStartIn | src/screens/games/sudoku/Validator.js:16-17 | The box start of a coordinate is 0, 3 or 6, exactly for the coordinates in that box. |
| SudokuValidator.ScansCoverPeers | src/screens/games/sudoku/Validator.js:5-26 | The three scans together pass iff no peer holds the number. |
| SudokuValidator.CheckWin | src/screens/games/sudoku/Validator.js:32-41 | The board is won iff it equals the solution. |
| SudokuValidator.RowHits | src/screens/games/sudoku/Validator.js:51-55 | The row scan reports exactly the other cells of the row holding the number. |
| SudokuValidator.ColHits | src/screens/games/sudoku/Validator.js:58-62 | The column scan reports exactly the other cells of the column holding the number. |
| SudokuValidator.BoxCell | src/screens/games/sudoku/Validator.js:67-70 | The k-th visited cell lies in the cell's box, and distinct k visit distinct cells. |
| SudokuValidator.BoxHits | src/screens/games/sudoku/Validator.js:65-75 | The box scan reports exactly the other cells of the box holding the number. |
| SudokuValidator.GetCellConflicts | src/screens/games/sudoku/Validator.js:44-78 | An empty cell has no conflicts; otherwise the list holds exactly the peers with the same value. |
| SudokuValidator.HitsSound | src/screens/games/sudoku/Validator.js:50-75 | Every reported cell is a peer holding the cell's value. |
| SudokuValidator.HitsComplete | src/screens/games/sudoku/Validator.js:50-75 | Every peer holding the cell's value is reported by one of the scans. |
| SudokuValidator.ConflictsIffInvalid | src/screens/games/sudoku/Validator.js:4-78 | A filled cell shows no conflict iff isValidMove accepts its value there. |
| SudokuGenerator.OneToNineOnce | src/screens/games/sudoku/PuzzleGenerator.js:51 | The shuffled list starts as 1..9, each digit once. |
| SudokuGenerator.Snapshot | src/screens/games/sudoku/PuzzleGenerator.js:68-70 | The grid value of the board has the board's cells. |
| SudokuGenerator.ZeroCountWrite | src/screens/games/sudoku/PuzzleGenerator.js:96-98 | Emptying a filled cell raises the number of empty cells by one; any write changes it by the cell's before/after emptiness. |
| SudokuGenerator.FilledCellExists | src/screens/games/sudoku/PuzzleGenerator.js:92-100 | While fewer than 81 cells are empty, some cell is filled, so a random draw can hit one. |
| SudokuGenerator.CanPlaceIff | src/screens/games/sudoku/PuzzleGenerator.js:4-25 | The generator's isValid is the validator's isValidMove plus the cell itself not holding the number. |
| SudokuGenerator.IsValid | src/screens/games/sudoku/PuzzleGenerator.js:4-25 | The scans return true iff the number is absent from the row, the column and the box. |
| SudokuGenerator.PlaceKeepsConsistent | src/screens/games/sudoku/PuzzleGenerator.js:33-34 | Placing an accepted number in an empty cell of a consistent grid keeps it consistent. |
| SudokuGenerator.SolveSudoku | src/screens/games/sudoku/PuzzleGenerator.js:28-46 | The solver only fills empty cells with digits and keeps consistency. On success no cell is empty; on failure the board is as before. |
| SudokuGenerator.TryDigit | src/screens/games/sudoku/PuzzleGenerator.js:32-40 | One candidate digit: the same guarantees as the solver. |
| SudokuGenerator.PlaceAndSolve | src/screens/games/sudoku/PuzzleGenerator.js:34-38 | Place, recurse, and undo the placement on failure: the same guarantees as the solver. |
| SudokuGenerator.ExtendsAfterPlace | src/screens/games/sudoku/PuzzleGenerator.js:34-35 | Filling one empty cell and then extending further extends the original grid. |
| SudokuGenerator.FirstEmpty | src/screens/games/sudoku/PuzzleGenerator.js:29-31 | Finds the first empty cell in row-major order, or reports that none is empty. |
| SudokuGenerator.DiagonalBoxSame | src/screens/games/sudoku/PuzzleGenerator.js:59-63 | A diagonal box's contents depend only on its own cells. |
| SudokuGenerator.OtherBoxesKept | src/screens/games/sudoku/PuzzleGenerator.js:50-64 | Writing one diagonal box leaves the other two as they were. |
| SudokuGenerator.SwapKeepsMultiset | src/screens/games/sudoku/PuzzleGenerator.js:55 | A swap keeps the multiset of the list. |
| SudokuGenerator.Shuffle | src/screens/games/sudoku/PuzzleGenerator.js:51-56 | The Fisher-Yates loop yields a permutation of 1..9. |
| SudokuGenerator.WriteBoxRow | src/screens/games/sudoku/PuzzleGenerator.js:60-62 | One row of a box receives three consecutive shuffled numbers; no other cell changes. |
| SudokuGenerator.WriteBox | src/screens/games/sudoku/PuzzleGenerator.js:58-63 | The box receives the shuffled numbers in row-major order; cells outside the box are unchanged. |
| SudokuGenerator.FillDiagonal | src/screens/games/sudoku/PuzzleGenerator.js:49-65 | Each diagonal box holds a permutation of 1..9; cells off the diagonal are unchanged. |
| SudokuGenerator.PermutationDistinct | src/screens/games/sudoku/PuzzleGenerator.js:48-51 | A permutation of 1..9 has nine distinct digits. |
| SudokuGenerator.DiagonalPeerDiffers | src/screens/games/sudoku/PuzzleGenerator.js:48 | On a board filled only in the diagonal boxes, a peer of a filled cell holds a different value. |
| SudokuGenerator.DiagonalCellValid | src/screens/games/sudoku/PuzzleGenerator.js:48 | Every filled diagonal cell passes isValidMove with its own value. |
| SudokuGenerator.DiagonalConsistent | src/screens/games/sudoku/PuzzleGenerator.js:48 | A board filled only in the diagonal boxes, each with 1..9, is consistent. |
| SudokuGenerator.CopyBoard | src/screens/games/sudoku/PuzzleGenerator.js:68-70 | The copy is a fresh board with the same cells. |
| SudokuGenerator.GenerateCompleteBoard | src/screens/games/sudoku/PuzzleGenerator.js:73-78 | When the solver succeeds, the board is full, consistent, and keeps 1..9 in each diagonal box. |
| SudokuGenerator.SolvedKeepsDiagonal | src/screens/games/sudoku/PuzzleGenerator.js:73-78 | Filling the empty cells of a diagonal-filled board keeps its diagonal boxes and gives a full board. |
| SudokuGenerator.CellsToRemove | src/screens/games/sudoku/PuzzleGenerator.js:82-88 | Between 40 and 60 cells are removed; an unknown difficulty removes 40. |
| SudokuGenerator.RemoveNumbers | src/screens/games/sudoku/PuzzleGenerator.js:81-103 | The puzzle is a fresh copy with exactly the removal count of extra empty cells; every cell is either kept or emptied. |
| SudokuGenerator.EmptyFilledCell | src/screens/games/sudoku/PuzzleGenerator.js:93-99 | One round empties one filled cell. |
| SudokuGenerator.GeneratePuzzle | src/screens/games/sudoku/PuzzleGenerator.js:106-114 | The solution is a full, conflict-free Sudoku; every given of the puzzle agrees with it; exactly the removal count of cells is empty. |
| SudokuScreen.NatToString | src/screens/games/SudokuScreen.js:82 | Decimal digits with no leading zero; one digit below 10, two below 100. |
| SudokuScreen.NatToStringValue | src/screens/games/SudokuScreen.js:82 | Reading back the decimal string gives the number. |
| SudokuScreen.LeadingZeroValue | src/screens/games/SudokuScreen.js:82 | A leading '0' does not change the value of a digit string. |
| SudokuScreen.Pad2 | src/screens/games/SudokuScreen.js:82 | padStart(2, '0') yields length max(2, original length). |
| SudokuScreen.Pad2Value | src/screens/games/SudokuScreen.js:82 | Padding keeps the string all digits and keeps its value. |
| SudokuScreen.FormatTime | src/screens/games/SudokuScreen.js:79-83 | "mm:ss": at least five characters, digits around one ':', minutes part worth seconds / 60, seconds part worth seconds % 60. |
| SudokuScreen.ClockShape | src/screens/games/SudokuScreen.js:82 | Joining the two padded parts with ':' puts the colon third from the end, with digits everywhere else. |
| SudokuScreen.Write | src/screens/games/SudokuScreen.js:61-62 | The copied board has the number at the cell and every other cell unchanged. |
| SudokuScreen.IsMistake | src/screens/games/SudokuScreen.js:65-67 | A number counts as a mistake iff it is non-zero and some peer of the cell (same row, column or box, other than the cell) holds it. |
| SudokuScreen.MistakeIffConflicts | src/screens/games/SudokuScreen.js:64-67 | A mistake is counted iff the cell just written then shows conflicts. |
| SudokuScreen.WriteKeepsGivens | src/screens/games/SudokuScreen.js:50-62 | Writing into a cell that is empty in the initial board keeps every given. |
| SudokuScreen.SudokuGame.constructor | src/screens/games/SudokuScreen.js:8-17 | The screen before its first puzzle: medium, nothing loaded, no mistakes, timer stopped at 0. |
| SudokuScreen.SudokuGame.StartNewGame | src/screens/games/SudokuScreen.js:31-42 | When generation succeeds: loads the puzzle with the removal count of empty cells, copies it into the board and the initial board, clears selection and mistakes, and restarts the timer at 0, not won. When the solver fails, nothing changes. |
| SudokuScreen.SudokuGame.Load | src/screens/games/SudokuScreen.js:32-41 | Shows a puzzle and its solution from scratch. |
| SudokuScreen.SudokuGame.ChooseDifficulty | src/screens/games/SudokuScreen.js:181-185 | Remembers the chosen difficulty; a started game shows the new puzzle with that difficulty's number of empty cells, the givens fixed, no selection or mistakes, the timer at 0 and running; when no game starts, every other field stays. |
| SudokuScreen.SudokuGame.SelectCell | src/screens/games/SudokuScreen.js:50-54 | Only a cell that is empty in the initial board becomes selected; nothing else changes. |
| SudokuScreen.SudokuGame.InputNumber | src/screens/games/SudokuScreen.js:57-76 | Writes the number at the selected cell, counts a mistake when isValidMove rejects a non-zero number, and wins (stopping the timer) iff the board equals the unchanged solution; puzzle, givens, selection, timer and difficulty stay; ignored without a selection or after a win. |
| SudokuScreen.SudokuGame.Tick | src/screens/games/SudokuScreen.js:19-27 | The timer grows by one second only while running and not won; every other field stays. |
| SudokuScreen.WonBoardIsSolved | src/screens/games/SudokuScreen.js:70-74 | A won board is full, consistent, and shows no conflict in any cell. |
| Tetris.Rotations | src/screens/games/TetrisScreen.js:19-27 | Every kind has 1 to 4 rotations of four cells each. |
| Tetris.RotationsShape | src/screens/games/TetrisScreen.js:19-27 | Every rotation has four distinct cells in rows 0..3, one of them in row 0. |
| Tetris.PieceCells | src/screens/games/TetrisScreen.js:37-41 | A piece covers four cells. |
| Tetris.IsValid | src/screens/games/TetrisScreen.js:43-50 | A valid piece has every cell on the board and empty, so its anchor row lies on the board. |
| Tetris.CellsShift | src/screens/games/TetrisScreen.js:37-41 | Moving a piece moves each of its cells by the same amount. |
| Tetris.CellsRows | src/screens/games/TetrisScreen.js:37-41 | The cells lie within three rows below the piece's row, and one lies in that row. |
| Tetris.EmptyRow | src/screens/games/TetrisScreen.js:30 | A row of 10 empty cells. |
| Tetris.EmptyRows | src/screens/games/TetrisScreen.js:30 | n empty rows. |
| Tetris.Spawn | src/screens/games/TetrisScreen.js:32-35 | A new piece has the drawn kind, rotation 0, row 0 and column 4. |
| Tetris.SpawnFitsEmpty | src/screens/games/TetrisScreen.js:32-50 | A freshly spawned piece is valid on an empty board. |
| Tetris.EmptyBoardNotFull | src/screens/games/TetrisScreen.js:30 | No row of the empty board is full. |
| Tetris.Keep | src/screens/games/TetrisScreen.js:75-82 | No kept row is full, and there are no more kept rows than the board has. |
| Tetris.ClearedShape | src/screens/games/TetrisScreen.js:74-82 | Clearing keeps a 20x10 board with no full row, the kept rows in order below the new empty rows. |
| Tetris.KeepRowLength | src/screens/games/TetrisScreen.js:75-82 | Kept rows keep the row length. |
| Tetris.NothingToClear | src/screens/games/TetrisScreen.js:75-82 | A board without full rows is left unchanged by clearing. |
| Tetris.ClearStepFull | src/screens/games/TetrisScreen.js:76-80 | Splicing out a full row and adding an empty row on top advances the clearing loop's invariant. |
| Tetris.ClearStepKeep | src/screens/games/TetrisScreen.js:75-76 | Passing over a row that is not full advances the clearing loop's invariant. |
| Tetris.ClearFullRows | src/screens/games/TetrisScreen.js:74-82 | The splice loop, including its re-examination of the same row, gives the cleared board and counts the full rows. |
| Tetris.ClearStep | src/screens/games/TetrisScreen.js:76-81 | One round of the clearing loop keeps its invariant and makes progress. |
| Tetris.FullCountBound | src/screens/games/TetrisScreen.js:75-82 | The full rows are no more than the rows of a set covering them. |
| Tetris.RowsOfCells | src/screens/games/TetrisScreen.js:37-41 | A piece's cells lie in a set of at most four rows. |
| Tetris.LockClearsAtMostFour | src/screens/games/TetrisScreen.js:66-89 | Locking a piece on a board with no full row clears at most four rows. |
| Tetris.Points | src/screens/games/TetrisScreen.js:85-86 | The base points for 1 to 4 rows follow the table; any other count falls back to 800. |
| Tetris.Scored | src/screens/games/TetrisScreen.js:84-87 | A clear adds between 100 and 800 points per level, and leaves the score unchanged only at level 0. |
| Tetris.LevelFor | src/screens/games/TetrisScreen.js:88 | The level is at least 1. |
| Tetris.DropInterval | src/screens/games/TetrisScreen.js:164 | The drop interval lies between 100 and 800 ms and reaches 100 exactly from level 13. |
| Tetris.DropIntervalMonotone | src/screens/games/TetrisScreen.js:164 | A higher level never drops more slowly. |
| Tetris.Stamp | src/screens/games/TetrisScreen.js:67-72 | The write loop stamps exactly the on-board cells of the piece. |
| Tetris.StampStep | src/screens/games/TetrisScreen.js:68-71 | Writing one more cell extends the stamp by that cell. |
| Tetris.DropPosition | src/screens/games/TetrisScreen.js:142-143 | The lowest valid position straight below, reached through valid positions only; one row lower is invalid. |
| Tetris.Settle | src/screens/games/TetrisScreen.js:66-82 | Stamp and clear: the result is a valid board with no full row, and cleared counts the full rows. |
| Tetris.Game.constructor | src/screens/games/TetrisScreen.js:55-63 | An empty board, two drawn pieces, not playing, score 0, level 1. |
| Tetris.Game.StartGame | src/screens/games/TetrisScreen.js:148-160 | An empty board, two fresh pieces, zero score and lines, level 1, playing. |
| Tetris.Game.LockPiece | src/screens/games/TetrisScreen.js:66-101 | Stamps, clears and scores (points times the old level when rows are cleared, lines added, level recomputed); the next piece becomes current and a new one is drawn; the game ends, and play stops, iff the new current piece does not fit. |
| Tetris.Game.SettleCurrent | src/screens/games/TetrisScreen.js:66-89 | The first half of lockPiece: board, score, lines and level. |
| Tetris.Game.SpawnNext | src/screens/games/TetrisScreen.js:91-98 | The next piece becomes current, a new piece is drawn, and the game ends iff the new current piece does not fit. |
| Tetris.Game.MoveDown | src/screens/games/TetrisScreen.js:103-112 | One row lower when that fits, with every other field unchanged; otherwise the full lock state (board, lines, score, level, next piece, game over, playing); ignored when not playing. |
| Tetris.Game.Shift | src/screens/games/TetrisScreen.js:114-124 | Shifts one column when playing and the shifted piece fits; the board, next piece, score, lines, level and both flags never change. |
| Tetris.Game.Rotate | src/screens/games/TetrisScreen.js:126-138 | The next rotation in place, else kicked one column left, else one right, else unchanged; the board, next piece, score, lines, level and both flags never change. |
| Tetris.Game.HardDrop | src/screens/games/TetrisScreen.js:140-146 | Locks the piece at the first row below which it no longer fits, reached through rows where it fits, with the full lock state (board, lines, score, level, next piece, game over, playing). |
| Tetris.StampResult | src/screens/games/TetrisScreen.js:67-72 | Stamping keeps a 20x10 board. |
| Tetris.StampIsResult | src/screens/games/TetrisScreen.js:67-72 | A board with the piece's on-board cells set and the others kept is the stamp result. |
| Snake.Delta | src/screens/games/SnakeScreen.js:21-26 | Each direction moves exactly one of x and y by one. |
| Snake.Opposite | src/screens/games/SnakeScreen.js:236-241 | Two directions are opposite iff their steps cancel out. |
| Snake.InitialSnake | src/screens/games/SnakeScreen.js:42-46 | Three distinct segments on the grid. |
| Snake.SpeedFor | src/screens/games/SnakeScreen.js:16-19 | The interval stays between 80 and 200 ms. |
| Snake.SpeedStep | src/screens/games/SnakeScreen.js:195-201 | The iterative decrement every fifth food equals the closed-form speed for the new score. |
| Snake.SpeedNonIncreasing | src/screens/games/SnakeScreen.js:195-201 | More food never makes the snake slower. |
| Snake.SpawnFood | src/screens/games/SnakeScreen.js:205-221 | The food is the drawn candidate before which every candidate lay on the snake, and which is off the snake or the hundredth; so when any candidate is free, the food is off the snake. |
| Snake.HighScoreCanDrop | src/screens/games/SnakeScreen.js:83-90 | As written, a game scoring 3 after a high score of 10 lowers the high score. |
| Snake.HighScoreAsWritten | src/screens/games/SnakeScreen.js:83-90 | The as-written update keeps the old high score or takes the final score, and lowers the high score exactly when the final score is positive but below it. |
| Snake.HighScoreAfter | src/screens/games/SnakeScreen.js:83-90 | The corrected high score is the larger of the old high score and the new score. |
| Snake.SpawnedUnique | src/screens/games/SnakeScreen.js:205-221 | The candidates decide the food: two foods spawned from the same draws and snake are equal. |
| Snake.SnakeGame.constructor | src/screens/games/SnakeScreen.js:42-57 | The initial snake moving right, food at (10,10), not playing, speed 200. |
| Snake.SnakeGame.StartGame | src/screens/games/SnakeScreen.js:93-118 | Resets snake, directions, score and speed, clears pause and game over, starts playing, keeps the high score, and places the food `spawnFood` picks for the initial snake. |
| Snake.SnakeGame.TogglePause | src/screens/games/SnakeScreen.js:129-138 | Only a running game toggles pause; snake, food, score, high score, speed, directions and the other flags stay. |
| Snake.SnakeGame.HandleInput | src/screens/games/SnakeScreen.js:232-245 | Buffers the new direction unless it reverses the current one; every other field stays. |
| Snake.SnakeGame.HandleGameOver | src/screens/games/SnakeScreen.js:223-229 | Stops playing, marks the game over, and keeps the better of the two scores; every other field stays. |
| Snake.SnakeGame.GameTick | src/screens/games/SnakeScreen.js:141-183 | Takes the buffered direction; a wall or body hit ends the game with the snake, food and score kept and the high score updated; eating grows the snake by one, scores and spawns food from the grown snake; otherwise the snake moves, dropping its tail; pause and, except on game over, the high score stay. |
| Snake.SnakeGame.HandleEatFood | src/screens/games/SnakeScreen.js:185-203 | One more point, the grown snake, the food `spawnFood` picks for it, and the speed of the new score; directions, flags and the high score stay. |
| Snake.NoReversal | src/screens/games/SnakeScreen.js:232-245 | While the game goes on, the buffered direction never turns the head back onto the neck. |
| Shop.CatalogueFacts | src/screens/ShopScreen.js:81-104 | Catalogue ids are unique and each slot's default item is free. |
| Shop.Catalogue | src/screens/ShopScreen.js:81-102 | Ten items; the free ones are exactly the three slot defaults. |
| Shop.DefaultsOfType | src/screens/ShopScreen.js:11-16 | Each slot's default id names a catalogue item of that slot. |
| Shop.ShopState.constructor | src/screens/ShopScreen.js:10-16 | No coins; the three defaults unlocked and equipped. |
| Shop.ShopState.HandleEquip | src/screens/ShopScreen.js:74-79 | The item's slot holds its id; other slots, coins and unlocked items are unchanged. |
| Shop.ShopState.HandlePurchase | src/screens/ShopScreen.js:38-72 | An unlocked item is equipped. A locked item beyond the coins is refused with the shortfall. A cancelled purchase changes nothing. A confirmed one pays the price, unlocks and equips. Coins never go negative and no id is unlocked twice. |
| Challenges.StepOf | src/screens/ChallengeScreen.js:65-68 | Every game's step is positive. |
| Challenges.RewardOf | src/screens/ChallengeScreen.js:86-135 | Each daily challenge pays between 30 and 100 coins. |
| Challenges.AchievementThreshold | src/screens/ChallengeScreen.js:138-170 | Each achievement threshold is positive and a whole number of that game's challenge steps. |
| Challenges.IsMet | src/screens/ChallengeScreen.js:186 | A challenge is met once the stat reaches the target. |
| Challenges.AchievementCompleted | src/screens/ChallengeScreen.js:144-168 | An achievement is completed iff its stat meets its threshold, which needs a positive stat. |
| Challenges.ClaimsAvailable | src/screens/ChallengeScreen.js:186-223 | No claim is available exactly when the stat is below the next milestone. |
| Challenges.NextTarget | src/screens/ChallengeScreen.js:58-63 | The target is exactly one step above the last claimed milestone. |
| Challenges.Percent | src/screens/ChallengeScreen.js:138-170 | The progress bar `min(stat / threshold, 1)` is at most 1, not negative for a non-negative stat, full exactly when the achievement is completed, and otherwise stat / threshold. |
| Challenges.ClaimsAvailableCount | src/screens/ChallengeScreen.js:186-223 | The number of claims available is the number of whole steps between the last claimed milestone and the stat. |
| Challenges.ChallengeBoard.constructor | src/screens/ChallengeScreen.js:10-17 | All stats, coins and milestones start at 0. |
| Challenges.ChallengeBoard.Target | src/screens/ChallengeScreen.js:65-68 | A game's current target lies above its milestone. |
| Challenges.ChallengeBoard.HandleClaim | src/screens/ChallengeScreen.js:70-84 | The reward is added, the milestone becomes the target, other games are unchanged, and one fewer claim remains. |

## Left out

- Rendering, layout, haptics, alerts shown only for information, the Tetris ghost piece, and the Water Sort pour animation (`performPourAnimation`, the `isPouring` flag). These are display only. The pour animation is collapsed into `FinishPour`.
- Timers (`setTimeout`, `setInterval`) and their cancellation. The delayed action happens in the same step, so the Ludo `rolling` flag and the bot's `botActiveRef` guard never show between operations.
- Random numbers are parameters: Ludo dice rolls, index pairs for scrambling, Sudoku shuffle positions, Tetris piece kinds and Snake food candidates. The scramble consumes a finite list of draws, so it may stop before `mixingSteps` moves once the draws are exhausted.
- Persistent storage (AsyncStorage) is left out: the shop's load and saves, the challenge stats load and claim saves, the Snake high-score load and save, and the Water Sort solved counter. Loaded values are the fields' initial values.
- LudoRules.PickBestBotMove: the model scores a candidate with the board it is given. The source reads the board and the current colour from a ref at call time; they are the same values in every call path.
- WaterSortLogic.PerformPour: requires two different tubes. `performPour` itself does not check this, but its only caller never passes the same tube twice, because a second press of the selected tube deselects it.
- SudokuScreen.SudokuGame.StartNewGame: when the solver fails the model keeps the old state. The source would then loop forever removing cells; `SudokuGenerator.GeneratePuzzle` returns None for that case.
- SudokuGenerator.RemoveNumbers: a draw that hits an empty cell is redrawn in the source. The model picks some filled cell each round, so which cells get emptied is not determined.
- SudokuGenerator.SolveSudoku: the contract does not state that the search fails only when no completion exists. Completeness of the backtracking is not proved.
- LudoGame.Game.BotTurn: the contract says the bot plays a legal move of maximal score, not that ties go to the first such move. `LudoRules.PickBestBotMove` states the tie rule.
- Snake.SnakeGame.HandleGameOver, Snake.SnakeGame.GameTick: both keep the larger of the old high score and the final score (`HighScoreAfter`). As written, the call from the game loop compares against a high score of 0, so any positive score replaces the high score; `Snake.HighScoreAsWritten` and `Snake.HighScoreCanDrop` model that, and the second row under "## Findings" describes it.
- WaterSortScreen.WaterSortGame.HandleReset: the confirmation dialog is left out. The model is the confirmed branch; cancel changes nothing.
- Shop.ShopState.HandlePurchase: the confirmation dialog is the `confirmed` parameter.
- The Challenges daily-card navigation is left out: it only shows a screen.
- Challenges.ChallengeBoard.HandleClaim: the model stops after the coins and the milestone are stored. As written, `handleClaim` then calls `Alert.alert`, but src/screens/ChallengeScreen.js:3 does not import `Alert`, so that call throws a ReferenceError after both storage writes. No alert appears and the claim's promise is rejected; the state change itself is unaffected.
- The Water Sort and Nuts & Bolts palettes are modelled as colour indices; the gradient pairs themselves are display only.
- Challenges.Percent: computed on exact reals, where the source divides JavaScript doubles. Rounding can move the fraction shown, but not whether it reaches 1, since the division is correctly rounded.
- Integer widths: all counters are unbounded. The source's JavaScript numbers stay far below 2^53 in every path modelled.

## Findings

| source | as written | input that shows it | evidently intended | confidence | as-written member | corrected member |
|---|---|---|---|---|---|---|
| src/screens/games/LudoScreen.js:182-186 | The own-stack cap counts pieces at every position, 56 included, so a third piece can never enter the centre and `gameOver` is never set | Red pieces at 56, 56, 53 and home, roll 3: the piece at 53 may not finish | Pieces at the centre do not count against the cap, so all four can finish | high (not executed) | LudoRules.ThirdPieceCannotFinish, LudoRules.WinUnreachable | LudoRules.IntendedAllowsFinish |
| src/screens/games/SnakeScreen.js:83-90, 141-183, 223-229 | `saveHighScore` runs from the game-loop callback, created once with `[]` dependencies, so it compares against the first render's high score of 0 and any positive score replaces the high score | High score 10, a game ending with score 3: the high score becomes 3 | Keep the larger of the two | high (not executed) | Snake.HighScoreCanDrop | Snake.HighScoreAfter |

The game classes keep the source's as-written behaviour, with one exception: `Snake.SnakeGame.HandleGameOver` uses the corrected high-score rule. `LudoGame.Game` keeps the as-written cap, and `LudoGame.NeverWon` records the consequence.

