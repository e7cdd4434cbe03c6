# Reversi rule engine, strategies and text views

This project models the core of a Java Reversi (Othello-like) game with two grids:

- a hexagonal board (`BoardImpl`, played by `ReversiGame`);
- an 8 x 8 square board (`SquareBoard`, played by `SquareReversiGame`).

The model covers these parts:

- Board construction, the guarded and unguarded cell writes, and the "empty cell next to an occupied one" candidate scan.
- The game state machines: legality, the eight-direction capture, score, game over, winner, play and pass. This includes the built-in AI seat that answers for White.
- The move value type and its order.
- The four move-choosing strategies: capture, go for corners, avoid corners and minimax.
- The hint counter.
- The two plain-text board renderers.

A board is a `map<HexCoordinate, CellState>` field of a class (`BoardImpl`, `SquareBoard`). Its methods reassign that field the way the Java code mutates its `HashMap` of cells.

The rules are written once more as functions of that map, in the modules `HexRules`, `SquareRules`, `Flips`, `Grid` and `AbstractModels`. Each method's `ensures` ties its result or its new state to those functions. The lemmas prove what the game promises about the functions.

Each Java class lives in a module of its own:

| Java | Dafny module |
|---|---|
| `CellState` | `CellStates` |
| `HexCoordinate` | `HexCoordinates` |
| `GamePlayers` | `GamePlayers` |
| `Cell` | `Cells` |
| `Move` | `Moves` |
| `BoardImpl` | `HexBoard` |
| `SquareBoard` | `SquareBoards` |
| `ReversiGame` | `HexGame` |
| `SquareReversiGame` | `SquareGame` |
| `AbstractModel` | `AbstractModels` |
| `CaptureStrategy` | `CaptureStrategies` |
| `GoForCornersStrategy` | `GoForCorners` |
| `AvoidCornersStrategy` | `AvoidCorners` |
| `MinimaxStrategy` | `MinimaxStrategies` |
| `HintManager` | `Hints` |
| `ReversiView` | `ReversiViews` |
| `SquareTexualView` | `SquareTextualViews` |

Shared pieces:

- `Text`: decimal rendering, Java `int` wrap-around, and the line and spacing helpers of the views.
- `RowTexts`: the row loop both views share.
- `Outcomes`: exceptions as `Outcome` and `Result` values, and `null` as `Option`.

The game is modelled as written, quirks included. The quirks:

- **Legality.** A move is legal when a neighbouring cell already holds the mover's own colour.
- **Occupied targets.** On the hexagonal board an occupied target cell is legal whenever it passes the board's cube test.
- **`hasValidMovesForPlayer` (hex).** Its answer is inverted.
- **`countPieces`.** It counts within a list of EMPTY cells, so it is always 0, and `getWinner` can only return `null`.
- **`copy`.** It always throws.
- **Hint counting.** It really flips the pieces it counts.
- **`SquareTexualView`.** It ignores the board it is given.

Where the tests in the repository disagree with the code, the model follows the code. Two examples:

- The test that expects `isValidMove(2, 3, Black)` on the initial hexagonal board. No neighbour of (2,3) is occupied, so `HexRules.ValidMoveSpec` makes that move illegal.
- The test that expects `move` to throw. `HexBoard.BoardImpl.Move` overwrites unconditionally.

The hexagonal text view's own test expects a trailing space on the rows above the middle one. The code does produce it (`ReversiViews.RowLayout`).

## Model

| member | source | states |
|---|---|---|
| CellStates.ToString | src/model/CellState.java:12-43 | X prints "X", O prints "O", EMPTY prints "_", each one character long |
| CellStates.ToStringInjective | src/model/CellState.java:12-22 | distinct states never print alike |
| CellStates.Glyph | src/model/CellState.java:41-43 | the single character of a state's text is `_`, `X` or `O` |
| CellStates.OpponentState | src/model/ReversiGame.java:160 | the opponent colour `s == X ? O : X` is a piece colour and differs from `s` |
| CellStates.OpponentStateInvolution | src/model/ReversiGame.java:160 | for a piece colour, taking the opponent twice gives it back |
| HexCoordinates.Equals | src/model/HexCoordinate.java:53-63 | equal exactly when q and r agree, which is value equality of the coordinate |
| HexCoordinates.HashCode | src/model/HexCoordinate.java:65-68 | `Objects.hash(q, r)` is 961 + 31q + r reduced into the 32-bit `int` range |
| HexCoordinates.HashCodeConsistent | src/model/HexCoordinate.java:53-68 | equal coordinates have equal hash codes |
| HexCoordinates.HashCodeSmall | src/model/HexCoordinate.java:65-68 | for coordinates within ±1000 no wrap-around happens |
| HexCoordinates.ToString | src/model/HexCoordinate.java:70-73 | the text is "(q, r)" with both numbers in decimal |
| Text.Wrap32 | src/model/HexCoordinate.java:65-68 | Java `int` arithmetic: the result is in the 32-bit range, congruent to the exact value modulo 2^32, and equal to it when that is already in range |
| Text.NatStringRoundTrip | src/model/HexCoordinate.java:70-73 | the decimal digits of a number read back as that number |
| Text.DecimalStringRoundTrip | src/model/HexCoordinate.java:70-73 | a signed decimal rendering reads back as the number, so the "(q, r)" text determines the coordinate |
| Text.PairString | src/strategies/Move.java:46-49 | the "(q, r)" text starts with `(` and ends with `)` |
| Text.Rounds | src/view/ReversiView.java:31 | a `for (i = 0; i < n; i++)` loop runs n rounds, none when n is negative |
| Text.Spaces | src/view/ReversiView.java:36-38 | the indentation loop appends exactly `offset` spaces |
| Text.SpreadLayout | src/view/ReversiView.java:48-58 | glyphs each followed by a space put glyph i at position 2i and a space at 2i+1 |
| Text.ConcatNewlines | src/view/ReversiView.java:31-63 | appending lines that each end in their only newline gives one newline per line, the last character a newline |
| Text.ConcatHasLine | src/view/ReversiView.java:31-63 | the buffer after the first r lines is followed by line r in the final text |
| GamePlayers.StateOf | src/player/GamePlayers.java:13-24 | Black places X and White places O; neither places EMPTY |
| GamePlayers.StateOfInjective | src/player/GamePlayers.java:13-14 | the two players own different colours |
| GamePlayers.Other | src/model/ReversiGame.java:83-85 | the other player; its colour is the opponent colour of the player's |
| GamePlayers.OtherInvolution | src/model/ReversiGame.java:150-152 | changing player twice gives the same player back |
| Moves.IntegerCompare | src/strategies/Move.java:37 | `Integer.compare`: negative, zero or positive as x is below, equal to or above y |
| Moves.CompareTo | src/strategies/Move.java:34-40 | q decides; on equal q, r decides; zero exactly for equal moves |
| Moves.CompareToAntisymmetric | src/strategies/Move.java:34-40 | swapping the arguments flips the sign |
| Moves.CompareToTransitive | src/strategies/Move.java:34-40 | the order is transitive |
| Moves.CompareToTotal | src/strategies/Move.java:34-40 | any two distinct moves are ordered one way or the other |
| Moves.Least | src/strategies/AvoidCornersStrategy.java:30-33 | the head of the list sorted by compareTo is a listed move that no listed move precedes |
| Moves.Equals | src/strategies/Move.java:57-64 | true only for a Move with the same coordinates; any other object, null included, is unequal |
| Moves.CompareToConsistentWithEquals | src/strategies/Move.java:34-64 | compareTo is zero exactly when equals holds |
| Moves.HashCode | src/strategies/Move.java:71-74 | q * 31 + r reduced into the 32-bit `int` range |
| Moves.HashCodeConsistent | src/strategies/Move.java:57-74 | equal moves hash alike |
| Moves.ToString | src/strategies/Move.java:46-49 | the text is "(q, r)", the same as the coordinate's |
| Cells.HexNeighborsSpec | src/model/Cell.java:62-71 | the six hex offsets are distinct and are exactly the cells at hex distance 1 |
| Cells.SquareNeighborsSpec | src/model/Cell.java:73-83 | the four square offsets are distinct and are exactly the cells at orthogonal distance 1 |
| Cells.NeighborsInSpec | src/model/Cell.java:90-103 | the neighbour stream keeps exactly the offsets that have a cell, with their states, at most one per offset, all of them in order when every offset has a cell |
| Cells.NeighborsInOrder | src/model/Cell.java:90-103 | the stream is the offsets that have a cell, in offset order: entry i is the offset at the i-th such index, the indices ascend, and every offset with a cell appears |
| Cells.AnyHolds | src/model/ReversiGame.java:57-61 | the neighbour loop answers true exactly when some listed neighbour holds the colour |
| Cells.Cell.constructor | src/model/Cell.java:32-37 | the cell holds the given position, state and grid type |
| Cells.Cell.SetState | src/model/Cell.java:53-55 | afterwards the state is the new one; position and grid type are fixed |
| Cells.Cell.GetHexCoordinate | src/model/Cell.java:141-143 | the coordinate has the cell's q and r |
| Cells.Cell.GetNeighbors | src/model/Cell.java:90-103 | at most six neighbours on a hex grid and four on a square one: exactly the stored cells one step away, each with its state, in the order of the offset list with the missing ones dropped |
| Grid.ScanShape | src/model/ReversiGame.java:72-73 | the q-outer, r-inner scan visits every cell of [0,size)^2 exactly once, in ascending compareTo order |
| Grid.SelectMembers | src/model/ReversiGame.java:69-80 | the collected moves are exactly the scanned coordinates that pass the filter, no more of them than were scanned |
| Grid.SelectAscending | src/model/ReversiGame.java:69-80 | filtering an ascending scan yields a list ascending by compareTo |
| Grid.CountIfAtMost | src/model/ReversiGame.java:211-226 | a count never exceeds the number of cells scanned |
| Grid.CountIfNone | src/model/ReversiGame.java:211-226 | when no scanned cell passes the filter the count is 0 |
| Grid.CountIfPartition | src/model/ReversiGame.java:211-226 | three filters that split every cell three ways split the count of the scan |
| Grid.CountIfPositive | src/model/ReversiGame.java:211-226 | one scanned cell that passes makes the count positive |
| Grid.ScanMoves | src/model/AbstractModel.java:84-94 | the nested loop collects `new Move(q, r)` for exactly the kept cells, in scan order |
| Grid.CountWhere | src/model/ReversiGame.java:211-226 | the nested counter loop counts exactly the kept cells of the scan |
| HexBoard.HexCellCount | src/model/BoardImpl.java:46-62 | the hexagon of side `size` has 3size^2 - 3size + 1 cells |
| HexBoard.RowStep | src/model/BoardImpl.java:51-60 | every row of createBoard has a non-empty q range, and adds that many cells |
| HexBoard.PlacementsStartEmpty | src/model/BoardImpl.java:34-40 | each of the constructor's six `setState` calls reaches an existing EMPTY cell, so none of them throws |
| HexBoard.ValidKeysAreTriangle | src/model/BoardImpl.java:68-88 | among the stored cells, the cube test of `isValidCell` accepts only the triangle q + r <= size - 1 |
| HexBoard.StartingPiecesNotValid | src/model/BoardImpl.java:34-40 | for sizes 4 to 8, none of the six starting pieces passes `isValidCell`, though all are stored |
| HexBoard.BoardMoves | src/model/BoardImpl.java:139-172 | every reported candidate is a stored EMPTY cell |
| HexBoard.FullHasNoMoves | src/model/BoardImpl.java:139-149 | a board with no EMPTY cell offers no candidates |
| HexBoard.BoardImpl.constructor | src/model/BoardImpl.java:30-41 | the keys are exactly the hexagon rows createBoard builds, 3size^2 - 3size + 1 of them, all EMPTY but X at (4,4), (6,5), (5,6) and O at (5,4), (4,5), (6,6); it needs size >= 4 |
| HexBoard.BoardImpl.PlaceStartingPieces | src/model/BoardImpl.java:34-40 | the six guarded writes leave the starting layout and the same key set |
| HexBoard.BoardImpl.CreateBoard | src/model/BoardImpl.java:46-62 | row by row, exactly the hexagon's coordinates are stored, each EMPTY |
| HexBoard.BoardImpl.FillRow | src/model/BoardImpl.java:56-60 | the inner loop stores row r from minQ to maxQ - 1 and nothing else |
| HexBoard.BoardImpl.Move | src/model/BoardImpl.java:99-102 | the target cell is overwritten whatever it held; no other cell and no key changes |
| HexBoard.BoardImpl.SetState | src/model/BoardImpl.java:124-132 | on an EMPTY cell only that cell changes; on an occupied cell IllegalArgument is thrown and nothing changes |
| HexBoard.BoardImpl.GetCellStateAt | src/model/BoardImpl.java:189-192 | null exactly for a coordinate with no cell, otherwise the cell's state |
| HexBoard.BoardImpl.HasAdjacentOccupiedCell | src/model/BoardImpl.java:151-172 | true exactly when one of (q±1, r), (q, r±1) passes `isValidCell`, is stored and is not EMPTY |
| HexBoard.BoardImpl.GetValidMoves | src/model/BoardImpl.java:139-149 | the list holds each EMPTY cell with an occupied valid orthogonal neighbour exactly once, and nothing else |
| HexBoard.BoardImpl.IsFull | src/model/BoardImpl.java:227-234 | true exactly when no cell is EMPTY |
| HexBoard.BoardImpl.Copy | src/model/BoardImpl.java:209-214 | always throws IllegalArgument, since the fresh board already holds X at (4,4) |
| HexRules.ValidMoveSpec | src/model/ReversiGame.java:47-65 | a move is legal exactly when some cell at hex distance 1 holds the player's colour and the target either passes `isValidCell` or is EMPTY |
| HexRules.ValidMovesSpec | src/model/ReversiGame.java:69-80 | the move list holds exactly the legal moves of [0,size)^2, ascending by compareTo, at most size^2 of them |
| HexRules.CandidatesDecideMove | src/model/ReversiGame.java:252-260 | scanning any list of exactly the board's candidates finds an EMPTY legal one exactly when the player has a move |
| HexRules.HasMoveNeedsOwnNeighbor | src/model/ReversiGame.java:252-260 | a player with a move has an EMPTY cell next to one of their own pieces |
| HexRules.FullBoardIsOver | src/model/ReversiGame.java:245-250 | a full board is over and neither player has a move |
| HexRules.AiTurnSpec | src/player/AIPlayer.java:92-99 | the AI seat's move keeps the keys, changes nothing outside [0,size)^2 and empties no cell |
| HexRules.PlaySpec | src/model/ReversiGame.java:115-128 | a legal play keeps the keys and leaves the target occupied; by White it ends with Black to move and O on the target; no cell outside [0,size)^2 but the target changes; no cell becomes EMPTY |
| HexRules.PassSpec | src/model/ReversiGame.java:269-276 | pass keeps the keys; with White to move, or when White has no move, the board is unchanged and White is to move; nothing outside [0,size)^2 changes |
| Flips.DirectionsAreDirections | src/model/ReversiGame.java:162-163 | the eight fixed vectors are the non-zero unit steps |
| Flips.RunSpec | src/model/ReversiGame.java:175-202 | the run is the 1st, 2nd, ... cells along the direction, each an opponent piece inside [0,size)^2, and the cell where the walk stops is not |
| Flips.FlipDirectionSpec | src/model/ReversiGame.java:175-202 | in one direction a cell changes exactly when it lies in the maximal opponent run and that run is closed by the mover's colour; it then takes the mover's colour |
| Flips.FlipDirectionIsFlipStep | src/model/ReversiGame.java:175-202 | one direction keeps the keys and the move's own cell, and only turns opponent pieces inside [0,size)^2 into the mover's |
| Flips.FlipDirectionsSpec | src/model/ReversiGame.java:157-170 | the eight directions in order keep the keys and the move's own cell, and only turn opponent pieces inside [0,size)^2 into the mover's |
| Flips.PlaceAndFlipSpec | src/model/ReversiGame.java:120-121 | placing then capturing keeps the keys, puts the mover's colour on the target, creates and removes no EMPTY cell elsewhere, and changes nothing outside [0,size)^2 but the target |
| Flips.SetAllSnoc | src/model/ReversiGame.java:196-199 | flipping the collected cells one at a time, in list order, sets each of them |
| Flips.WalkStep | src/model/ReversiGame.java:182-190 | one iteration of the walk that meets an opponent piece keeps the collected cells a prefix of the run |
| Flips.WalkEnd | src/model/ReversiGame.java:182-190 | when the walk stops, the collected cells are the whole run and the current cell is where it stops |
| Flips.CollectRun | src/model/ReversiGame.java:177-190 | the while loop collects the maximal opponent run and stops on the cell after it |
| HexGame.ReversiGame.constructor | src/model/ReversiGame.java:38-44 | a size-6 board in the starting layout, Black to move |
| HexGame.ReversiGame.SquareIsStored | src/model/ReversiGame.java:109-112 | on the size-6 board every coordinate of [0,size)^2 has a cell, so the scans never reach a missing one |
| HexGame.ReversiGame.IsValidMove | src/model/ReversiGame.java:47-65 | the answer is the legality rule HexRules.ValidMove |
| HexGame.ReversiGame.GetValidMoves | src/model/ReversiGame.java:69-80 | the list is the scan of legal moves for the player to move |
| HexGame.ReversiGame.GetOpponent | src/model/ReversiGame.java:83-85 | the other player, never the one to move |
| HexGame.ReversiGame.SetCurrentPlayer | src/model/ReversiGame.java:88-90 | the given player is to move and is returned |
| HexGame.ReversiGame.SomeLegalCandidate | src/model/ReversiGame.java:94-99 | the candidate loop finds an EMPTY candidate legal for the player exactly when one exists |
| HexGame.ReversiGame.HasValidMovesForPlayer | src/model/ReversiGame.java:93-101 | the answer is false exactly when the player has a move: inverted |
| HexGame.ReversiGame.HasValidMoves | src/model/ReversiGame.java:252-260 | true exactly when some EMPTY candidate is legal for the player |
| HexGame.ReversiGame.IsGameOver | src/model/ReversiGame.java:245-250 | over exactly when neither player has a move or no cell is EMPTY |
| HexGame.ReversiGame.Score | src/model/ReversiGame.java:211-226 | the number of cells of [0,size)^2 holding the player's colour |
| HexGame.ReversiGame.CountPieces | src/model/ReversiGame.java:229-232 | always 0, because every candidate cell is EMPTY |
| HexGame.ReversiGame.GetWinner | src/model/ReversiGame.java:289-305 | IllegalState while the game is not over, and null (no winner) once it is |
| HexGame.ReversiGame.ChangePlayer | src/model/ReversiGame.java:150-152 | the other player is to move |
| HexGame.ReversiGame.SwitchPlayer | src/model/ReversiGame.java:142-144 | the other player is to move |
| HexGame.ReversiGame.StartGame | src/model/ReversiGame.java:308-310 | Black is to move |
| HexGame.ReversiGame.GetFlipDirection | src/model/ReversiGame.java:175-202 | the board afterwards is the one-direction capture Flips.FlipDirection |
| HexGame.ReversiGame.FlipRun | src/model/ReversiGame.java:196-199 | every collected cell takes the mover's colour and nothing else changes |
| HexGame.ReversiGame.FlipOpponentsPieces | src/model/ReversiGame.java:157-170 | the board afterwards is the eight-direction capture for the colour on the move's cell |
| HexGame.ReversiGame.Play | src/model/ReversiGame.java:115-128 | an illegal move throws IllegalArgument and changes neither board nor player; a legal one leaves the board and player of HexRules.PlayResult: place, capture, change player, and the AI seat's reply when White is to move |
| HexGame.ReversiGame.MakeAiMove | src/player/AIPlayer.java:50-59 | with White to move and a move available, the picked move is played and Black is to move; otherwise nothing changes |
| HexGame.ReversiGame.Pass | src/model/ReversiGame.java:269-276 | the board and player afterwards are HexRules.PassResult's |
| SquareBoards.SquareKeys | src/model/SquareBoard.java:37-49 | the stored coordinates are exactly those `isValidCell` accepts |
| SquareBoards.PlacementsStartEmpty | src/model/SquareBoard.java:31-34 | each of the constructor's four `setState` calls reaches an existing EMPTY cell |
| SquareBoards.BoardMoves | src/model/SquareBoard.java:100-133 | every reported candidate is a stored EMPTY cell |
| SquareBoards.FullHasNoMoves | src/model/SquareBoard.java:100-110 | a board with no EMPTY cell offers no candidates |
| SquareBoards.OccupiedAtStart | src/model/SquareBoard.java:27-35 | on the starting layout the occupied cells are exactly the four centre pieces |
| SquareBoards.NextToCentre | src/model/SquareBoard.java:112-133 | a cell outside the centre block that touches it orthogonally is one of the eight cells around the block |
| SquareBoards.StartMovesPresent | src/model/SquareBoard.java:100-133 | each of those eight cells is a candidate on the starting layout |
| SquareBoards.StartMoves | src/model/SquareBoard.java:100-133 | on the starting layout the candidates are exactly those eight cells |
| SquareBoards.SquareBoard.constructor | src/model/SquareBoard.java:27-35 | the keys are [0,size)^2, size^2 of them, all EMPTY but O at (3,4), (4,3) and X at (4,4), (3,3); it needs size >= 5 |
| SquareBoards.SquareBoard.CreateBoard | src/model/SquareBoard.java:37-44 | rows outer and columns inner, every coordinate of [0,size)^2 is stored EMPTY |
| SquareBoards.SquareBoard.Move | src/model/SquareBoard.java:60-63 | only the target cell changes, to the given state |
| SquareBoards.SquareBoard.SetState | src/model/SquareBoard.java:85-92 | on an EMPTY cell only that cell changes; on an occupied one IllegalArgument is thrown and nothing changes |
| SquareBoards.SquareBoard.GetCellStateAt | src/model/SquareBoard.java:152-155 | null exactly for a coordinate with no cell, otherwise its state |
| SquareBoards.SquareBoard.StoredAround | src/model/SquareBoard.java:112-133 | the in-bounds orthogonal neighbours of any coordinate are stored, so `getCell` never returns null there |
| SquareBoards.SquareBoard.HasAdjacentOccupiedCell | src/model/SquareBoard.java:112-133 | true exactly when the top, bottom, left or right neighbour is in bounds and not EMPTY |
| SquareBoards.SquareBoard.GetValidMoves | src/model/SquareBoard.java:100-110 | the list holds each EMPTY cell with an occupied in-bounds orthogonal neighbour exactly once, and nothing else |
| SquareBoards.SquareBoard.IsMoveCell | src/model/SquareBoard.java:104 | the per-cell test is membership of the candidate set |
| SquareBoards.SquareBoard.IsFull | src/model/SquareBoard.java:191-198 | true exactly when no cell is EMPTY |
| SquareBoards.SquareBoard.Copy | src/model/SquareBoard.java:173-178 | always throws IllegalArgument, since the fresh board already holds X at (4,4) |
| SquareRules.ValidMoveSpec | src/model/SquareReversiGame.java:49-62 | inside the board a move is legal exactly when a cell at orthogonal distance 1 holds the player's colour; occupancy of the target is not looked at |
| SquareRules.ValidMovesSpec | src/model/SquareReversiGame.java:298-308 | the move list holds exactly the legal moves of [0,size)^2, ascending by compareTo, at most size^2 of them |
| SquareRules.GameOverSpec | src/model/SquareReversiGame.java:149-161 | a full board is over, and the game is not over while a player has a move |
| SquareRules.AiTurnSpec | src/player/AIPlayer.java:92-99 | the AI seat's move keeps the keys and empties no cell |
| SquareRules.PlaySpec | src/model/SquareReversiGame.java:208-220 | a legal play keeps the keys, never empties a cell and leaves the target occupied; by White it ends with Black to move and O on the target |
| SquareGame.SomeEmpty | src/model/SquareReversiGame.java:153-161 | the loop of hasValidMoves finds an EMPTY listed cell exactly when there is one |
| SquareGame.SquareReversiGame.constructor | src/model/SquareReversiGame.java:34-38 | an 8 x 8 board in the starting layout, Black to move |
| SquareGame.SquareReversiGame.IsValidMove | src/model/SquareReversiGame.java:49-62 | the answer is the legality rule SquareRules.ValidMove |
| SquareGame.SquareReversiGame.GetValidMoves | src/model/SquareReversiGame.java:298-308 | the list is the scan of legal moves for the player to move |
| SquareGame.SquareReversiGame.GetOpponent | src/model/SquareReversiGame.java:316-318 | the other player, never the one to move |
| SquareGame.SquareReversiGame.SetCurrentPlayer | src/model/SquareReversiGame.java:321-323 | the given player is to move and is returned |
| SquareGame.SquareReversiGame.HasValidMovesForPlayer | src/model/SquareReversiGame.java:326-334 | true exactly when some EMPTY candidate is legal for the player |
| SquareGame.SquareReversiGame.HasValidMoves | src/model/SquareReversiGame.java:153-161 | true exactly when the board offers any candidate |
| SquareGame.SquareReversiGame.IsGameOver | src/model/SquareReversiGame.java:149-151 | over exactly when the board offers no candidate |
| SquareGame.SquareReversiGame.Score | src/model/SquareReversiGame.java:104-117 | the number of cells of [0,size)^2 holding the player's colour |
| SquareGame.SquareReversiGame.CountPieces | src/model/SquareReversiGame.java:126-129 | always 0, because every candidate cell is EMPTY |
| SquareGame.SquareReversiGame.GetWinner | src/model/SquareReversiGame.java:80-95 | IllegalState while the game is not over, and null once it is |
| SquareGame.SquareReversiGame.SwitchPlayer | src/model/SquareReversiGame.java:279-285 | the other player is to move |
| SquareGame.SquareReversiGame.StartGame | src/model/SquareReversiGame.java:288-290 | Black is to move |
| SquareGame.SquareReversiGame.Pass | src/model/SquareReversiGame.java:177-179 | only the player changes, so two passes restore it; the board is untouched |
| SquareGame.SquareReversiGame.FlipPiecesInDirection | src/model/SquareReversiGame.java:243-270 | the board afterwards is the one-direction capture Flips.FlipDirection |
| SquareGame.SquareReversiGame.FlipRun | src/model/SquareReversiGame.java:266-268 | every collected cell takes the mover's colour and nothing else changes |
| SquareGame.SquareReversiGame.FlipOpponentsPieces | src/model/SquareReversiGame.java:225-238 | the board afterwards is the eight-direction capture for the colour on the move's cell |
| SquareGame.SquareReversiGame.Play | src/model/SquareReversiGame.java:208-220 | an illegal move throws IllegalArgument and changes nothing; a legal one leaves the board and player of SquareRules.PlayResult |
| SquareGame.SquareReversiGame.MakeAiMove | src/player/AIPlayer.java:50-59 | with White to move and a move available, the picked move is played and Black is to move; otherwise nothing changes |
| AbstractModels.DecideWinner | src/model/AbstractModel.java:43-52 | Black when Black has strictly more, White when White has strictly more, null exactly on a tie |
| AbstractModels.ScoresPartition | src/model/AbstractModel.java:63-76 | the two scores and the EMPTY cells of [0,size)^2 add up to size^2, so the scores sum to at most size^2 |
| AbstractModels.ScorePositive | src/model/AbstractModel.java:63-76 | a player with a piece in the square scores between 1 and size^2 |
| AbstractModels.SharedValidMovesSpec | src/model/AbstractModel.java:84-94 | whatever `isValidMove` is, the list holds exactly its moves in [0,size)^2, ascending by compareTo |
| AbstractModels.AbstractModel.constructor | src/model/AbstractModel.java:27-30 | a size-6 hexagonal board in the starting layout, Black to move |
| AbstractModels.AbstractModel.GetWinner | src/model/AbstractModel.java:38-53 | IllegalState while `isGameOver` is false; otherwise the strict majority of `countPieces`, or null on a tie |
| AbstractModels.AbstractModel.Score | src/model/AbstractModel.java:63-76 | the number of cells of [0,size)^2 holding the player's colour |
| AbstractModels.AbstractModel.GetValidMoves | src/model/AbstractModel.java:84-94 | the scan of [0,size)^2 filtered by the given `isValidMove` for the player to move |
| GoForCorners.ChooseMove | src/strategies/GoForCornersStrategy.java:12-35 | a result is a listed corner (q and r each 0 or size-1); null exactly when no listed move is a corner, an empty list included |
| GoForCorners.ChooseMoveIsFirst | src/strategies/GoForCornersStrategy.java:15-19 | the corner returned is the first one: every move listed before it is not a corner |
| GoForCorners.NonCornersIgnored | src/strategies/GoForCornersStrategy.java:15-19 | moves that are not corners, put in front of the list, do not change the choice |
| AvoidCorners.NextToCornerOnBoard | src/strategies/AvoidCornersStrategy.java:45-65 | on the board, a move is next to a corner exactly when q and r are each 1 or size-2 |
| AvoidCorners.SafeMoves | src/strategies/AvoidCornersStrategy.java:24-28 | the safe list holds exactly the listed moves that are not next to a corner |
| AvoidCorners.ChooseMove | src/strategies/AvoidCornersStrategy.java:20-37 | null exactly when every listed move is next to a corner, an empty list included; otherwise a listed move not next to a corner that no other such move precedes in compareTo order |
| CaptureStrategies.CapturedHasOwnAhead | src/strategies/CaptureStrategy.java:100-113 | a capturing direction has a cell of the player's colour k >= 1 steps along it, inside [0,size)^2 |
| CaptureStrategies.OwnAheadCaptures | src/strategies/CaptureStrategy.java:100-113 | from a cell of the square, an own piece k >= 1 steps along makes the direction capture |
| CaptureStrategies.CapturedInDirectionSpec | src/strategies/CaptureStrategy.java:100-113 | from a cell of the square, a direction captures exactly when some cell along it, still inside the square, holds the player's colour; empty and opponent cells before it are stepped over |
| CaptureStrategies.TrialFunctions | src/strategies/CaptureStrategy.java:33-36 | the function values passed to the selection loop mean "the fresh game accepts the move" and "its capture count" |
| CaptureStrategies.SelectionMeaning | src/strategies/CaptureStrategy.java:30-45 | the loop's result, read back: a failure exactly when some candidate is illegal on the fresh game, otherwise the first candidate with the most captures |
| CaptureStrategies.IsCaptured | src/strategies/CaptureStrategy.java:76-87 | true exactly when one of the eight non-zero (dq, dr) in {-1,0,1}^2 captures |
| CaptureStrategies.CountCaptures | src/strategies/CaptureStrategy.java:54-66 | the number of EMPTY cells of [0,size)^2 the player captures, at most size^2 |
| CaptureStrategies.CountColumn | src/strategies/CaptureStrategy.java:57-63 | the inner loop adds the captured EMPTY cells of column q to the count |
| CaptureStrategies.ChooseMove | src/strategies/CaptureStrategy.java:24-46 | null exactly when there is no valid move; IllegalArgument exactly when some candidate is illegal on the fresh game; otherwise the first candidate with the greatest capture count |
| CaptureStrategies.SelectMostCaptures | src/strategies/CaptureStrategy.java:30-45 | over ascending candidates the loop keeps the first with the greatest score; the tie test never fires and `requireNonNull` never fails |
| CaptureStrategies.Round | src/strategies/CaptureStrategy.java:33-42 | one round fails exactly on a candidate the fresh game refuses, and otherwise keeps the running maximum |
| CaptureStrategies.Consider | src/strategies/CaptureStrategy.java:38-42 | a strictly greater score takes the selection; a tie never does for ascending candidates |
| CaptureStrategies.Trial | src/strategies/CaptureStrategy.java:34-36 | the fresh game's `play` throws IllegalArgument exactly on an illegal candidate; otherwise the count is that candidate's captures |
| MinimaxStrategies.ValidMovesStored | src/strategies/MinimaxStrategy.java:21-31 | every valid move names a stored cell, so `board.move` never reaches a missing one |
| MinimaxStrategies.PickFirstBestSpec | src/strategies/MinimaxStrategy.java:35-38 | the `score > bestScore` rule keeps the starting choice when nothing beats it, and otherwise picks the first move of greatest score |
| MinimaxStrategies.ChooseFromPicks | src/strategies/MinimaxStrategy.java:25-39 | the chooseMove loop is that replacement rule over the successive trial values |
| MinimaxStrategies.EvalLeaves | src/strategies/MinimaxStrategy.java:50-74 | a node of the search keeps the keys and leaves every cell as it was or EMPTY |
| MinimaxStrategies.EvalMovesLeaves | src/strategies/MinimaxStrategy.java:58-71 | the loop over the opponent moves keeps the keys and leaves every cell as it was or EMPTY |
| MinimaxStrategies.ProbeLeaves | src/strategies/MinimaxStrategy.java:31-34 | a trial leaves its own cell EMPTY and every other cell as it was or EMPTY |
| MinimaxStrategies.ChooseFromLeaves | src/strategies/MinimaxStrategy.java:25-39 | after chooseMove every cell is as it was or EMPTY, and every tried move is EMPTY |
| MinimaxStrategies.ScoreAtMost | src/model/ReversiGame.java:211-226 | a score is at most size^2 |
| MinimaxStrategies.EvalBounds | src/strategies/MinimaxStrategy.java:50-53 | a node is worth at least -size^2; at depth 0 or when the game is over it is the margin, within ±size^2, and the board is left alone |
| MinimaxStrategies.EvalMovesBounds | src/strategies/MinimaxStrategy.java:55-73 | a running minimum that starts at least -size^2 stays there |
| MinimaxStrategies.EvalMovesIsMin | src/strategies/MinimaxStrategy.java:55-73 | an inner node is no larger than the running value or any child's value, and equals one of them; with no moves it is MAX_VALUE |
| MinimaxStrategies.MinimaxSpec | src/strategies/MinimaxStrategy.java:20-42 | null exactly when there is no valid move; otherwise the first valid move of greatest trial value; the board left behind has the same keys, every cell as it was or EMPTY, and every valid move EMPTY |
| MinimaxStrategies.ProbeAboveMin | src/strategies/MinimaxStrategy.java:23-35 | every top-level trial value exceeds MIN_VALUE, so the first move always replaces null |
| MinimaxStrategies.SearchErasesPiece | src/strategies/MinimaxStrategy.java:34 | as written, with X on (0,0) and (1,0) and Black to move, chooseMove leaves (0,0) EMPTY: a piece is erased |
| MinimaxStrategies.Leaf | src/strategies/MinimaxStrategy.java:51-53 | the leaf value is score(current) - score(opponent) |
| MinimaxStrategies.EvaluateOpponentMove | src/strategies/MinimaxStrategy.java:50-74 | the value and the board left behind are those of the search function; the player to move never changes |
| MinimaxStrategies.MinOverMoves | src/strategies/MinimaxStrategy.java:55-73 | the loop's running minimum and board are those of the search function, starting from MAX_VALUE |
| MinimaxStrategies.TryMove | src/strategies/MinimaxStrategy.java:26-34 | place the mover's colour on m, evaluate, then set the cell EMPTY |
| MinimaxStrategies.ChooseMove | src/strategies/MinimaxStrategy.java:20-42 | the choice and the board left behind are those of the search function as written |
| MinimaxStrategies.EvalRestoringBounds | src/strategies/MinimaxStrategy.java:50-53 | with restoring trials every node is still worth at least -size^2 |
| MinimaxStrategies.MinChildBounds | src/strategies/MinimaxStrategy.java:55-73 | with restoring trials a running minimum that starts at least -size^2 stays there |
| MinimaxStrategies.MinChildIsMin | src/strategies/MinimaxStrategy.java:55-73 | with restoring trials an inner node is the minimum of the running value and its children, all evaluated on the node's own board |
| MinimaxStrategies.MinimaxRestoringSpec | src/strategies/MinimaxStrategy.java:20-42 | with restoring trials: null exactly when there is no valid move, otherwise the first valid move of greatest trial value |
| MinimaxStrategies.EvaluateRestoring | src/strategies/MinimaxStrategy.java:50-74 | with each trial undone by restoring the old state, the board is unchanged and the value is the pure minimum search |
| MinimaxStrategies.MinOverMovesRestoring | src/strategies/MinimaxStrategy.java:58-71 | the restoring loop leaves the board unchanged and returns the minimum over the children |
| MinimaxStrategies.TryMoveRestoring | src/strategies/MinimaxStrategy.java:64-69 | a restoring trial leaves the board unchanged and returns the child's value |
| MinimaxStrategies.PutBack | src/strategies/MinimaxStrategy.java:69 | writing a cell and then writing back its old state gives the same board |
| MinimaxStrategies.ChooseMoveRestoring | src/strategies/MinimaxStrategy.java:20-42 | with restoring trials chooseMove leaves the board unchanged and returns the corrected choice |
| Hints.HintCount | src/view/HintManager.java:41-65 | the count and the flipped board of one hint request, on the same keys; its meaning, the count being the number of cells it turns to the player's colour, is proved in Hints.HintCountSpec |
| Hints.HintFilter | src/view/HintManager.java:105-116 | the kept candidates and the board the requests leave, on the same keys; what is kept and how the board changes is proved in Hints.HintFilterSpec and Hints.HintFilterUnfold |
| Hints.HintFilterUnfold | src/view/HintManager.java:110-113 | the filter asks the first candidate, keeps it when the count is at least 2, and goes on with the board that request left |
| Hints.ElementsCount | src/view/HintManager.java:93 | a list without repeats has as many distinct cells as entries |
| Hints.StepsDistinct | src/view/HintManager.java:71-80 | cells along one direction at different distances are different |
| Hints.RunDistinct | src/view/HintManager.java:74-84 | the collected run never holds a cell twice |
| Hints.DirectionChanges | src/view/HintManager.java:86-96 | one direction changes exactly the cells it flips, so the returned count is the number of cells it changes |
| Hints.ChangedCompose | src/view/HintManager.java:55-58 | two capture steps in a row change disjoint cells, and together their union |
| Hints.ChangedByDirection | src/view/HintManager.java:55-58 | the changes of n directions are those of the first n-1 plus those of direction n |
| Hints.FlipCountIsChanged | src/view/HintManager.java:55-60 | the summed count of the first n directions is the number of cells they change |
| Hints.HintCountSpec | src/view/HintManager.java:41-65 | the count is the number of cells the request changes; each changed cell was an opponent piece inside [0,size)^2 and now holds the player's colour; a non-zero count needs a target that passes `isValidCell` and is EMPTY; the target is never changed |
| Hints.FlipStepTransitive | src/view/HintManager.java:110-113 | capture steps compose |
| Hints.HintFilterSpec | src/view/HintManager.java:105-116 | the kept cells are candidates that pass `isValidCell`, no more than the candidates, and the board only changed by turning opponent pieces into the player's |
| Hints.HintManager.constructor | src/view/HintManager.java:31-33 | the manager reads the given game |
| Hints.HintManager.GetFlippedPiecesCount | src/view/HintManager.java:41-65 | the count and the board afterwards are those of Hints.HintCount |
| Hints.HintManager.GetFlipDirection | src/view/HintManager.java:67-97 | the bracketed run is flipped on the live board and its length returned; an unbracketed run gives 0 and no change |
| Hints.HintManager.Consider | src/view/HintManager.java:110-113 | one filter step: what is kept, followed by what the rest will keep, stays the filter's result |
| Hints.HintManager.CalculateValidMoves | src/view/HintManager.java:105-116 | the candidates are the board's candidate cells; the kept cells and the board afterwards are those of Hints.HintFilter |
| RowTexts.RowTextNoNewline | src/view/ReversiView.java:41-59 | a row's text holds no newline |
| RowTexts.RowGlyphs | src/view/ReversiView.java:41-53 | a row with columns lo .. hi-1 stored has hi - lo glyphs |
| RowTexts.RowPrefix | src/view/ReversiView.java:41-59 | before the last column, the row so far is the glyphs of the stored cells seen, each followed by one space |
| RowTexts.RowEndsAtLastColumn | src/view/ReversiView.java:56-58 | a row whose last stored cell is in the last column has no space after that glyph |
| RowTexts.RowEndsBeforeLastColumn | src/view/ReversiView.java:56-58 | a row that stops before the last column keeps a space after every glyph |
| RowTexts.RowSpread | src/view/ReversiView.java:41-59 | a row is its glyphs left to right, each followed by a space, except that the last glyph has none when it is in the last column; missing cells add nothing |
| ReversiViews.Lines | src/view/ReversiView.java:29-31 | there are 2size-1 lines, none for a negative count |
| ReversiViews.LineShape | src/view/ReversiView.java:33-62 | each line starts with its |size-1-r| spaces and holds one newline, as its last character |
| ReversiViews.TextLines | src/view/ReversiView.java:29-63 | the text has 2size-1 newlines and ends with one |
| ReversiViews.TextLineAt | src/view/ReversiView.java:31-63 | line r follows the first r lines, which hold r newlines |
| ReversiViews.HexRowKeys | src/model/BoardImpl.java:51-60 | row r of a board built by createBoard stores exactly the columns max(0, r-size+1) .. min(2size-1, r+size)-1 |
| ReversiViews.RowLayout | src/view/ReversiView.java:41-59 | on a board built by createBoard, row r is its glyphs left to right each followed by a space, and the last space is missing exactly from the middle row and the rows below it |
| ReversiViews.ReversiView.constructor | src/view/ReversiView.java:21-23 | the view renders the given board |
| ReversiViews.ReversiView.AppendIndent | src/view/ReversiView.java:36-38 | the indentation loop appends exactly `offset` spaces |
| ReversiViews.ReversiView.AppendRow | src/view/ReversiView.java:41-59 | the cell loop appends the row's text |
| ReversiViews.ReversiView.AppendLine | src/view/ReversiView.java:33-62 | indentation, row and newline are appended |
| ReversiViews.ReversiView.ToString | src/view/ReversiView.java:26-65 | the text is the board's rendering: 2size-1 lines of indentation, row and newline |
| SquareTextualViews.SquareLines | src/view/SquareTexualView.java:35 | there are `size` lines |
| SquareTextualViews.SquareLineShape | src/view/SquareTexualView.java:36-54 | each line holds one newline, as its last character |
| SquareTextualViews.SquareTextLines | src/view/SquareTexualView.java:35-55 | the text has `size` newlines and ends with one |
| SquareTextualViews.SquareTextLineAt | src/view/SquareTexualView.java:35-55 | line r follows the first r lines, which hold r newlines |
| SquareTextualViews.SquareRowLayout | src/view/SquareTexualView.java:36-51 | on a board built by createBoard, each row is its size glyphs separated by single spaces, with no trailing space |
| SquareTextualViews.StartGlyphsAre | src/model/SquareBoard.java:31-34 | the glyphs of row r of the 8 x 8 starting board: `___XO___` on row 3, `___OX___` on row 4, otherwise all `_` |
| SquareTextualViews.SpreadEight | src/view/SquareTexualView.java:49-51 | eight glyphs with the seven spaces between them |
| SquareTextualViews.StartRowIs | src/view/SquareTexualView.java:36-54 | each line of the starting board's text is its literal row |
| SquareTextualViews.StartTextIsRendering | src/view/SquareTexualView.java:25-57 | the rendering of the 8 x 8 starting board is the fixed eight-line text |
| SquareTextualViews.SquareTexualView.constructor | src/view/SquareTexualView.java:25-28 | whatever it is given, the view holds a fresh 8 x 8 board in the starting layout |
| SquareTextualViews.SquareTexualView.AppendRow | src/view/SquareTexualView.java:36-52 | the cell loop appends the row's text |
| SquareTextualViews.SquareTexualView.AppendLine | src/view/SquareTexualView.java:36-54 | the row and a newline are appended |
| SquareTextualViews.SquareTexualView.ToString | src/view/SquareTexualView.java:31-57 | the text is the board's rendering, and on the view's own board it is always the fixed starting text |

## Left out

- Swing panels, frames and pixel geometry (the `view` package apart from the two text views and `HintManager`): floating point, mouse events and dialogs.
- The controller and the entry points: wiring, console input and `System.exit`.
- `HintManager.handleHint`: it only prints the kept cells and their counts to the console.
- `HumanPlayer`, the mock models and the behaviour-free interfaces (`Board`, `Game`, `ReadOnlyReversiModel`, `ReversiStrategy`, `IView`, `TexualView`, `IController`). Each class is modelled directly and no interface layer is kept.
- AIPlayer's random choice. Each `new Random().nextInt(n)` draw is a parameter: `aiPick` for a game's own AI reply, where the move played is the list's element `aiPick % n`. `CaptureStrategies.ChooseMove` gives every candidate's fresh game its own draw, `aiPicks(m)`. The seat in the game has no strategy, so `makeStrategyMove` and its printing are not modelled.
- Java `HashMap` iteration order. The loops over `boardMap.values()` pick the next cell by nondeterministic choice, and their contracts hold for every order.
- Java `null` dereferences. Where the code would throw `NullPointerException` on a coordinate without a cell, the member requires that the cell exists.
- Aliasing of `Cell` objects. A board is a map from coordinate to state, and writes through a `Cell` taken from the board are writes to that map. `Cells.Cell` is modelled on its own.
- Moves.Least: `safeMoves.sort(null)` followed by `get(0)` is modelled by the minimum it yields, not as an in-place list sort.
- CaptureStrategies.ChooseMove: the strategy's private `getValidMoves` is the same q/r scan as the game's, so the game's method is used for it.
- CaptureStrategies.ChooseMove: it is stated for the hexagonal `ReversiGame`, the type of the fresh game it creates. A square game passed in as the game (as src/SquareStrategyMain.java:52 does) is not modelled. `HintManager` and `MinimaxStrategy` are likewise modelled over the hexagonal game.
- MinimaxStrategies.MinimaxSpec: "every trial value exceeds MIN_VALUE" is proved for boards with size^2 below 2^31. Java `int` overflow of the score difference is not modelled. Neither is any other `int` overflow, except in the two hash codes.
- GoForCorners.ChooseMove, AvoidCorners.ChooseMove: these take the game's valid-move list and board size as parameters. Together with `CaptureStrategies` they stand for the `Game` argument.
- SquareTextualViews.SquareTexualView.constructor: its argument is typed `object?`, since it is never used.

## Findings

| source | as written | input that shows it | evidently intended | confidence | as-written member | corrected member |
|---|---|---|---|---|---|---|
| src/strategies/MinimaxStrategy.java:34 | each trial is undone with `move(q, r, EMPTY)`, and the inner loop does the same at line 69. A valid move on the hexagonal board may be an occupied cell that passes `isValidCell`, so the undo erases a piece | a board with X on (0,0) and (1,0), Black to move: (0,0) is a valid move and chooseMove leaves it EMPTY | each trial restores the cell's previous state, so the search leaves the board as it found it | not executed | MinimaxStrategies.SearchErasesPiece | MinimaxStrategies.ChooseMoveRestoring |
