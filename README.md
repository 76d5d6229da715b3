# Othello engine and game logic, modelled in Dafny

This project models the two sequential parts of an Othello (Reversi) program:

- **The rules engine and its search player** (`othelloplayer.py`). The
  `Othello` object holds a grid of cells: 0 is empty, 1 is White, 2 is Black,
  indexed `board[y][x]`. It applies the eight-direction capture rule and plays
  moves in place. It lists the available moves in row-major order, counts
  discs, recognises finished games and builds child positions. It scores
  positions with a depth-limited negamax with alpha-beta pruning, and picks
  the root move with a corner > edge > other tie-break. `ComputerPlayer`
  checks its player number and clamps its difficulty.
- **The non-graphical logic of the application** (`othello.py`). This covers:
  - the application's own copy of the capture rule, the bounds test and the
    move scan;
  - the board writes of placing a disc and flipping a disc;
  - the turn-passing state machine of `_set_player` / `_swap_player`;
  - the victory banner of `_declare_victory`;
  - the `#rrggbb` colour codec;
  - the command-line parser.

The modules:

| module | file | contents |
|---|---|---|
| `Outcomes` | outcomes.dfy | `Option` and `Result` |
| `ExtInts` | ext_int.dfy | integers with −∞ and +∞, which stand for the `float("inf")` sentinels, with Python's `max` and unary minus |
| `Grids` | grid.dfy | grids, cells, single and repeated writes, disc counts, the location type |
| `Rules` | rules.dfy | the capture rule as functions (walk, ray, nine directions in loop order), moves, children, the start grid |
| `RuleFacts` | rule_facts.dfy | the capture rule against an independent "sandwich" definition; distinctness; the effect of a move; counts; terminality |
| `Captures` | capture.dfy | the capture rule column by column, as the engine's two nested direction loops visit it, and the step lemmas of its walk |
| `Search` | search.dfy | negamax as a function, full-width minimax as the reference, the alpha-beta theorem, the root choice |
| `Opening` | opening.dfy | Black's four opening moves for every even width ≥ 4 |
| `Texts` | texts.dfy | `str`/`int` on integers, `hex`/`int(…, 16)`, `split`/`join`, `rstrip`/`lstrip` |
| `Display` | display.dfy | the text form of a board and its reading back |
| `OthelloPlayer` | othello_player.dfy | class `Othello` and class `ComputerPlayer`, imperative, each method proved against the functions above |
| `Colors` | colors.dfy | `_make_color_tuple` and `_make_color_string` and their round trips |
| `CommandLine` | command_line.dfy | `parse_command_line_args` |
| `OthelloApp` | app.dfy | class `App`: board, player to move, banner, button locations |

Python integers are unbounded, so `int` is used throughout. Python's `//` and
`%` round towards minus infinity, and Dafny's Euclidean `/` and `%` agree with
them for the positive divisors that occur here.

## Model

| member | source | states |
|---|---|---|
| Grids.LocationType | othelloplayer.py:3-16 | 3 exactly when both coordinates are 0 or width − 1, 2 when exactly one is, 1 otherwise |
| Grids.Opponent | othelloplayer.py:208 | the lookup {1: 2, 2: 1}: the other player |
| Grids.SetCell | othelloplayer.py:54 | the single write `board[y][x] = v`: that cell becomes v, every other cell is unchanged, the shape is kept |
| Grids.SetAll | othelloplayer.py:58-59 | writing v to every location of a list: a cell in the list holds v, any other cell is unchanged |
| Grids.CountSetAll | othelloplayer.py:150-161 | writing v to distinct cells that did not hold v raises the count of v by their number |
| Grids.CountSetAllOther | othelloplayer.py:150-161 | writing v to cells that did not hold w leaves the count of w unchanged |
| Rules.DirAt | othelloplayer.py:114-115 | the nine offsets in the order of the two nested loops; only the fifth is (0, 0) |
| Rules.Walk | othelloplayer.py:118-131 | no contract; the walk from one cell in one direction, collecting opponent discs until the board edge, an empty cell or a disc of the mover. Captures.FlippedByColumns and RuleFacts.RayIsBracketed state its outcomes |
| Rules.Ray | othelloplayer.py:116-132 | no contract; what one direction adds to the capture list. See RuleFacts.RayOfBracket and RuleFacts.RayIsBracketed |
| Rules.Flipped | othelloplayer.py:105-134 | no contract; the capture list. See Rules.FlippedCells, RuleFacts.FlippedIffSandwiched and RuleFacts.FlippedDistinct |
| Rules.FlippedCells | othelloplayer.py:105-134 | every captured location is on the board and holds a disc that is neither empty nor the mover's |
| Rules.Play | othelloplayer.py:49-59 | a move keeps the grid's shape |
| Rules.Moves | othelloplayer.py:83-97 | contains exactly the empty cells with a non-empty capture list, in strictly increasing row-major order, hence without duplicates |
| Rules.StartGrid | othelloplayer.py:38-47 | a w × w grid whose cells are 1 at (m, m) and (m+1, m+1), 2 at (m, m+1) and (m+1, m), 0 elsewhere, with m = w/2 − 1 |
| Rules.IsTerminal | othelloplayer.py:163-178 | no contract; see RuleFacts.TerminalIffNoMoves and OthelloPlayer.Othello.IsStateTerminal |
| Rules.Children | othelloplayer.py:136-148 | no contract; see RuleFacts.ChildHasFewerEmpties and OthelloPlayer.Othello.GetChildren |
| RuleFacts.FlippedIffSandwiched | othelloplayer.py:105-134 | a location is captured exactly when it lies strictly between the played cell and a disc of the mover on a straight line of opponent discs |
| RuleFacts.RayOfBracket | othelloplayer.py:116-132 | a direction that reaches a disc of the mover after k − 1 opponent discs captures exactly those discs |
| RuleFacts.RayIsBracketed | othelloplayer.py:116-132 | a direction that captures anything is closed by a disc of the mover; a direction that runs off the board, meets an empty cell or starts at the mover's disc captures nothing |
| RuleFacts.FlippedDistinct | othelloplayer.py:105-134 | the capture list has no repeated location and never contains the played cell |
| RuleFacts.FlippedIgnoresOrigin | othelloplayer.py:54-56 | the capture list does not depend on what the played cell holds, so computing it after the write gives the same list |
| RuleFacts.PlayEffect | othelloplayer.py:49-59 | after a move the played cell and every captured cell hold the mover's disc, and every other cell is unchanged |
| RuleFacts.PlayCounts | othelloplayer.py:49-59 | a move on an empty cell raises the mover's count by 1 + the number captured and lowers the empty count by 1 |
| RuleFacts.PlayKeepsCells | othelloplayer.py:49-59 | a move keeps every cell 0, 1 or 2 |
| RuleFacts.TerminalIffNoMoves | othelloplayer.py:163-178 | a position is terminal exactly when neither player has a move (a full board has none) |
| RuleFacts.ChildHasFewerEmpties | othelloplayer.py:136-148 | the i-th child is the i-th move played and has exactly one empty cell fewer, which is why the search ends whatever its depth |
| RuleFacts.StartCounts | othelloplayer.py:38-47 | the start grid has two White discs, two Black discs and w·w − 4 empty cells |
| Opening.OpeningPosition | othelloplayer.py:38-47 | in the start position Black's moves are exactly (m, m−1), (m−1, m), (m+2, m+1), (m+1, m+2) in that order; for width 8 they are (3,2), (2,3), (5,4), (4,5) |
| Opening.OpeningMovesAreMoves | othelloplayer.py:83-97 | each of the four opening moves is an available move |
| Opening.OnlyOpeningMoves | othelloplayer.py:83-97 | every available opening move of Black is one of the four |
| Captures.FlippedByColumns | othelloplayer.py:114-132 | collecting the rays column by column (x outer, y inner) gives the capture list |
| Search.NegamaxValue | othelloplayer.py:204-229 | no contract; see Search.NegamaxLeavesAndPasses, UnprunedIsMinimax, AlphaBetaBounds and AlphaBetaExact, and OthelloPlayer.Othello.Negamax |
| Search.SearchReplies | othelloplayer.py:214-229 | no contract; the child loop as a function. See Search.UnprunedIsMinimax and AlphaBetaBounds, and OthelloPlayer.Othello.SearchChildren |
| Search.NegamaxLeavesAndPasses | othelloplayer.py:210-229 | at depth 0 or on a terminal position the value is the mover's disc count; on a non-terminal position where the opponent cannot move it is +∞ |
| Search.UnprunedIsMinimax | othelloplayer.py:204-229 | without pruning, negamax is full-width minimax over the children, whatever the window |
| Search.AlphaBetaBounds | othelloplayer.py:219-227 | with pruning and any window a < b, the value is exact when minimax lies inside the negated window, and on the correct side of it otherwise |
| Search.AlphaBetaExact | othelloplayer.py:219-229 | with the window (−∞, +∞), negamax with pruning equals minimax and equals negamax without pruning |
| Search.PickFrom | othelloplayer.py:187-200 | no contract; the root loop as a function. See Search.BestMoveChoice |
| Search.BestMove | othelloplayer.py:180-202 | no contract; see Search.BestMoveNoneIff, Search.BestMoveChoice and OthelloPlayer.Othello.GetBestMove |
| Search.BestMoveNoneIff | othelloplayer.py:180-202 | the root choice is None exactly when the player has no move |
| Search.BestMoveChoice | othelloplayer.py:180-202 | otherwise it is an available move of maximum score; among moves of that score it has the highest location type, and every earlier one a strictly lower type |
| ExtInts.Max | othelloplayer.py:221 | Python's `max`: at least both arguments and equal to one of them |
| ExtInts.NegReverses | othelloplayer.py:220 | negation is an involution that reverses the order |
| OthelloPlayer.Othello.constructor | othelloplayer.py:27-47 | a given non-empty grid is copied (as a value, so the copy is independent); otherwise the start grid of the even width is built |
| OthelloPlayer.Othello.IsOnBoard | othelloplayer.py:99-103 | true exactly for rows 0 … len(board) − 1 and columns 0 … len(board[0]) − 1 |
| OthelloPlayer.Othello.GetFlipped | othelloplayer.py:105-134 | the nested direction loops return the capture list, for an empty cell, an off-board cell or a cell already holding the mover's disc |
| OthelloPlayer.Othello.CaptureColumn | othelloplayer.py:115-132 | the inner direction loop collects the rays of directions (x, −1), (x, 0), (x, 1) |
| OthelloPlayer.Othello.CaptureLine | othelloplayer.py:116-131 | the walk returns the ray of its direction: nothing off the board or at an empty cell, the passed discs at a disc of the mover |
| OthelloPlayer.Othello.PlayMove | othelloplayer.py:49-59 | the grid becomes the move played on the old grid |
| OthelloPlayer.Othello.ToString | othelloplayer.py:61-81 | the text is the header line of column numbers, then one line per row with its number and cells, which reads back to the grid (Display.RenderReadBack) |
| OthelloPlayer.Othello.ColumnNumbers | othelloplayer.py:68-70 | the header loop writes two spaces and every column number followed by a space |
| OthelloPlayer.Othello.RowText | othelloplayer.py:75-77 | the row loop writes the row number and every cell, each followed by a space |
| OthelloPlayer.Othello.GetAvailableMoves | othelloplayer.py:83-97 | the row-major scan returns the available moves |
| OthelloPlayer.Othello.ScanRow | othelloplayer.py:92-95 | the inner scan returns the moves of one row, left to right |
| OthelloPlayer.Othello.GetStateValue | othelloplayer.py:150-161 | the count of cells equal to the player |
| OthelloPlayer.Othello.IsStateTerminal | othelloplayer.py:163-178 | true exactly when no cell is empty or neither player has a move |
| OthelloPlayer.Othello.GetChildren | othelloplayer.py:136-148 | one new object per available move, in move order, each holding that move played; the parent is unchanged |
| OthelloPlayer.Othello.MakeChild | othelloplayer.py:144-145 | a new object holding the parent's grid with the move played |
| OthelloPlayer.Othello.Negamax | othelloplayer.py:204-229 | returns the negamax value, with or without pruning |
| OthelloPlayer.Othello.SearchChildren | othelloplayer.py:214-229 | the child loop, with its early exit when a ≥ b, computes the best reply |
| OthelloPlayer.Othello.GetBestMove | othelloplayer.py:180-202 | the root loop returns the root choice |
| OthelloPlayer.ComputerPlayer.constructor | othelloplayer.py:240-252 | the player is 1 or 2; a missing difficulty or one below 1 becomes 1 |
| OthelloPlayer.ComputerPlayer.PickMove | othelloplayer.py:254-259 | the engine's root choice for this player and difficulty on a copy of the grid |
| Display.RenderReadBack | othelloplayer.py:61-81 | splitting the text into lines and words and reading the integers gives the grid back |
| Display.Render | othelloplayer.py:61-81 | no contract; see Display.RenderReadBack and Display.RowLineWords, and OthelloPlayer.Othello.ToString |
| Display.ReadRowLine | othelloplayer.py:75-78 | a row line reads back as its row |
| Display.RowLineWords | othelloplayer.py:75-78 | a row line is the row number and the cells joined by single spaces |
| Texts.ShowParses | othelloplayer.py:70 | reading back what `str` writes for an integer gives the integer |
| Texts.ParseInt | othello.py:358-359 | `int` accepts exactly an optional sign followed by at least one ASCII decimal digit |
| Texts.ParseHex | othello.py:255 | `int(s, 16)` of a string of ASCII hex digits of either case is their value |
| Texts.FixedValue | othello.py:267 | k fixed hex digits read back give the number modulo 16^k |
| Texts.FixedOfValue | othello.py:267 | lower-case hex digits are the fixed digits of their own value |
| Texts.HexWithLeadingOne | othello.py:267 | `hex` of a number from 16^k up to 2·16^k is "0x1" followed by its last k digits |
| Texts.Split | othello.py:357-365 | `split` gives at least one piece and no piece contains the separator |
| Texts.JoinSplit | othello.py:357-365 | joining the pieces of a split gives the string back |
| Texts.SplitJoin | othello.py:357-365 | splitting pieces joined with a separator they do not contain gives the pieces back |
| Texts.RStrip | othello.py:347 | removes the longest suffix made of the given characters |
| Texts.LStrip | othello.py:255 | removes the longest prefix made of the given characters |
| Colors.MakeColorTuple | othello.py:253-262 | three components keep r, g, b and get alpha 255, four are returned as given, any other number gives None; a string fails exactly when its hex reading fails, and otherwise gives bytes g and b and the given alpha, with 65536 r + 256 g + b equal to the value read |
| Colors.ValueSplit | othello.py:255-257 | any integer, negative ones included, is recovered from v // 65536, v // 256 % 256 and v % 256, and the last two are bytes |
| Colors.ColorStringShape | othello.py:266-267 | for byte components the string is "#" and exactly six lower-case hex digits whose value is 65536 r + 256 g + b |
| Colors.MakeColorString | othello.py:266-267 | no contract; see Colors.ColorStringShape, ColorRoundTrip and ColorStringRoundTrip |
| Colors.ByteSplit | othello.py:255-258 | a 24-bit value splits into three bytes that rebuild it |
| Colors.ColorRoundTrip | othello.py:253-267 | reading back the string of byte components gives the same red, green and blue with alpha 255 |
| Colors.ColorStringRoundTrip | othello.py:253-267 | "#" and six lower-case hex digits read as three bytes with the given alpha and are written back unchanged |
| CommandLine.IndexOf | othello.py:347-364 | `list.index`: the first position of the argument |
| CommandLine.ValueAfter | othello.py:347-364 | the argument after an option, or the missing-value error (the IndexError) when the option comes last |
| CommandLine.AiFile | othello.py:347-348 | no contract; see CommandLine.StripsCharacters and StripsPySuffix, and the fields of CommandLine.ParseCommandLineArgs |
| CommandLine.Players | othello.py:351-353 | no contract; see CommandLine.PlayersTable |
| CommandLine.Levels | othello.py:356-360 | no contract; see CommandLine.OneLevel and TwoLevels, and the failure condition of CommandLine.ParseCommandLineArgs |
| CommandLine.ColorNames | othello.py:363-366 | no contract; see CommandLine.ColorList |
| CommandLine.ParseCommandLineArgs | othello.py:337-368 | help is set exactly when "-h" or "--help" is present; parsing fails exactly when -f, -l or -c is the last argument, or the first piece of -l's value, or its second piece when there is one, is not an integer; otherwise the players, levels and colours are those of the option readers |
| CommandLine.NoArguments | othello.py:337-368 | no arguments give (False, (None, "othelloplayer"), (4, 4), None) |
| CommandLine.PlayersTable | othello.py:351-353 | "-0" makes both players the computer even with "-2"; "-2" alone makes both human; otherwise only the second is the computer; every computer player uses the -f module |
| CommandLine.OneLevel | othello.py:356-358 | wherever -l stands, a value that is one written integer n (negative ones too) gives level n to both players, in Levels and in the parsed options |
| CommandLine.TwoLevels | othello.py:356-359 | wherever -l stands, a value starting with two written integers a,b gives a to the first player and b to the second; further comma-separated pieces are ignored |
| CommandLine.ColorList | othello.py:363-365 | wherever -c stands, a value of comma-joined names gives those names back, in ColorNames and in the parsed options |
| CommandLine.StripsCharacters | othello.py:347 | `rstrip(".py")` turns "happy" into "ha" and "bot.py" into "bot" |
| CommandLine.StripsPySuffix | othello.py:347 | a module name not ending in '.', 'p' or 'y' is recovered from name + ".py" |
| OthelloApp.Flip | othello.py:229-235 | a flipped cell holds a player's disc; a disc of one player becomes the other's |
| OthelloApp.Other | othello.py:154-156 | the swap goes to the other player |
| OthelloApp.NextTurn | othello.py:202-212 | the turn stays with a player who can move, passes once to the other player when only the current one is stuck, and the game ends exactly when neither can move |
| OthelloApp.GameOverIffTerminal | othello.py:202-212 | the application ends the game exactly when the engine calls the position terminal |
| OthelloApp.Winner | othello.py:142-148 | White wins exactly with more discs, Black exactly with more discs, a tie exactly on equal counts |
| OthelloApp.VictoryBanner | othello.py:142-149 | no contract; the verdict of OthelloApp.Winner and the larger count. See OthelloApp.App.DeclareVictory |
| OthelloApp.TurnBanner | othello.py:215-224 | no contract; see OthelloApp.App.ShowTurn |
| OthelloApp.App.constructor | othello.py:83-90 | an application with a given board and player to move, no banner and no buttons |
| OthelloApp.App.IsOnBoard | othello.py:186-187 | the application's bounds test is the engine's |
| OthelloApp.App.PlaceDisc | othello.py:112-132 | the buttons are cleared; the grid becomes the engine's move for the given player (the current one when none is given); once the game has started, the turn is handed on from the current player |
| OthelloApp.App.FlipAll | othello.py:128-129 | turning over each captured opponent disc in turn writes the mover's disc to all of them |
| OthelloApp.App.FlipToken | othello.py:229-235 | the cell becomes 2 if it held 1 and 1 otherwise; nothing else changes |
| OthelloApp.App.DeclareVictory | othello.py:135-151 | the banner names the side with more discs, or a tie, with the larger count |
| OthelloApp.App.CountRow | othello.py:137-140 | the White and Black discs of one row |
| OthelloApp.App.SwapPlayer | othello.py:154-156 | the other player is made the player to move, with the outcome of SetPlayer |
| OthelloApp.App.SetPlayer | othello.py:202-226 | the board is unchanged; the player who moves next, the banner and the buttons follow NextTurn: a human gets one button per available move, a computer a "thinking" banner, the end of the game the victory banner |
| OthelloApp.App.ShowTurn | othello.py:215-224 | a human gets the turn banner and the moves as buttons, a computer the "thinking" banner |
| OthelloApp.App.GetFlipped | othello.py:160-183 | the application's capture list is the engine's |
| OthelloApp.App.CaptureColumn | othello.py:164-181 | the inner direction loop collects three rays |
| OthelloApp.App.CaptureLine | othello.py:165-180 | the application's walk returns the engine's ray |
| OthelloApp.App.GetValidMoves | othello.py:190-199 | the application's valid moves are the engine's available moves |
| OthelloApp.App.ScanRow | othello.py:193-197 | the moves of one row, left to right |
| OthelloApp.FlipStep | othello.py:128-129 | the next captured cell still holds an opponent disc, so turning it over writes the mover's disc |

## Left out

- The graphical interface: the window, label, canvas, buttons as widgets, images, `after` scheduling, `mainloop` and `_do_computer_turn`. The buttons are modelled only as the list of locations they are placed on.
- OthelloApp.App.constructor: the application's `__init__` builds images and widgets. It also places the four start discs with `_place_disc` and calls `_set_player(2)`. The model's constructor instead takes the board and the player to move, and the start sequence is not modelled.
- `load_player` (dynamic imports and `sys.exit`), `print_help`, the `random.random()` seat swap at start-up and the `play_game_in_ascii` stub. These are I/O, randomness and code loading.
- The `print` calls of the engine and the application.
- `random.shuffle` in `negamax`: the model searches the children in move order. Search.AlphaBetaExact proves that, in that order, the value with the full window equals minimax. That the value is the same for any other order follows from the fail-soft bounds of Search.AlphaBetaBounds, but it is not proved.
- Floating point: the `float("inf")` sentinels are modelled as the extended integers −∞ and +∞.
- OthelloPlayer.Othello.GetFlipped: on a cell holding an opponent disc, the engine's walk in direction (0, 0) never ends. The method therefore requires an empty cell, an off-board cell or a cell of the mover, and the capture functions give that direction nothing. This is how the engine's callers use it.
- OthelloPlayer.Othello.GetBestMove: the `if not move` skip never fires, since moves are tuples and never empty, and it is not modelled.
- OthelloPlayer.Othello.constructor: a given grid must be rectangular. A grid of None or [] falls through to the start position as in the engine, and a width must then be given, as the engine's assertions demand. A width below 2 is not modelled.
- Python's negative indices, which wrap around, are not modelled. The reads of the capture walk and the move scans are guarded by the bounds test. The writes of `play_move` (othelloplayer.py:54), `_place_disc` (othello.py:124) and `_flip_token` (othello.py:230-235) index without a test. OthelloPlayer.Othello.PlayMove, OthelloApp.App.PlaceDisc and OthelloApp.App.FlipToken therefore require the location to be on the board, which stands for what their callers guarantee: they pass only available moves, start cells and captured cells.
- Texts.ParseInt: whitespace around the digits, `_` separators and non-ASCII Unicode decimal digits (such as Arabic-Indic or fullwidth digits), which `int` also accepts, are not modelled; an -l value written with them is rejected.
- Texts.ParseHex: likewise, the whitespace, `_` separators and non-ASCII Unicode decimal digits that `int(s, 16)` accepts are rejected.
- Colors.MakeColorTuple: colour arguments that are neither a string nor a tuple or list (which give None) are not modelled.
- CommandLine.ParseCommandLineArgs: errors are returned as a value instead of a raised IndexError or ValueError.
- The application's `_declare_victory` raises KeyError on a cell other than 0, 1 or 2. The model requires every cell to hold 0, 1 or 2, which every move keeps (RuleFacts.PlayKeepsCells).
