# ChessPGN-Viewer: the navigation state machine and board geometry, in Dafny

ChessPGN-Viewer is a desktop viewer for chess games in PGN notation. Its own logic
is the `ChessApp` object. The object tracks which game of a loaded file is shown and
how many of that game's moves have been applied to the board. It handles the "next",
"back" and "next game" buttons and the arrow keys, and it announces the game result
when the last move is shown. Beside that, `draw_board` turns square numbers into canvas
coordinates, shades the grid, and looks up piece images by key.

The model has three modules:

- `Navigation` (navigation.dfy) describes the state machine as values. A `View` holds
  the game index, the shown game's moves and result tag, the move index, the stack of
  moves applied to the board, and whether the next-game button is enabled.
  `Advance`, `Retreat` and `NextGame` are the transitions of `next_move`, `prev_move`
  and `next_game`. `AdvanceNotice` and `CheckResult` give the result message box as a
  `Notification` (WhiteWins, BlackWins, Draw or NoNotice). `Inv` is the invariant that
  every reachable view keeps. `Step` and `Run` dispatch button clicks and key presses.
  The lemmas prove round trips, replay to the final position, when a notification is
  shown and when the button is enabled, and the two-game scenario.
- `App` (app.dfy) is the `ChessApp` class. It has the source's fields and the methods
  `NextMove`, `PrevMove`, `NextGame` and the two key handlers. Each method updates the
  fields in place and is proved to produce the state that the matching `Navigation`
  function gives. `Board` stands in for `chess.Board`. The viewer drives that object
  only through `push`, `pop` and the constructor, so `Board` is a stack of applied moves.
- `Render` (render.dfy) covers the arithmetic of `draw_board` and the image table built
  by `load_piece_images`. `DrawBoard` returns the canvas calls it would issue as values:
  64 rectangles, then one image per occupied square. What the chess library reports on
  each square is a parameter.

Two behaviours of the code are worth knowing, and the model keeps both:

- The next-game button is meant to work only once the shown game has ended. The comment
  at pgn_viewer.py:104 says so. But `next_game` itself checks only that a later game
  exists (pgn_viewer.py:96). What stops an early switch is the button's disabled state,
  and `prev_move` never disables it again. After reaching the end and stepping back, the
  button still switches games while moves are unshown.
  `Navigation.NextGameReachableBeforeEnd` exhibits this.
- `check_result` compares the Result header against three strings. The PGN tag for an
  unknown result, "*", and any other string produce no notification.

## Model

| member | source | states |
|---|---|---|
| Navigation.Initial | pgn_viewer.py:9-17 | The starting view shows game 0 with no move applied and an empty board. The button is disabled. The invariant holds. |
| Navigation.CheckResult | pgn_viewer.py:87-93 | "1-0" gives WhiteWins, "0-1" gives BlackWins, "1/2-1/2" gives Draw, each as an iff. Every other tag gives NoNotice. |
| Navigation.ResultTagRoundTrip | pgn_viewer.py:87-93 | Each notification other than NoNotice comes back from its own result tag. |
| Navigation.Advance | pgn_viewer.py:70-79 | Below the end, pushes `moves[moveIndex]` and increments the index. At the end, nothing changes. The button becomes enabled iff it already was, or this call reached the end while a later game exists. The invariant is kept. Game, moves and result are unchanged. |
| Navigation.AdvanceNotice | pgn_viewer.py:76-77 | There is a notification only when the call applies the last move. In that case it is check_result's notification for the tag. |
| Navigation.Retreat | pgn_viewer.py:81-85 | Above 0, pops the last applied move and decrements the index. At 0, nothing changes. The button flag is never changed. The invariant is kept. |
| Navigation.NextGame | pgn_viewer.py:95-104 | Below the last game, loads the next game with index 0, an empty board and the button disabled. On the last game, nothing changes. The invariant is kept. |
| Navigation.PressNextGame | pgn_viewer.py:32-34 | A click on the disabled button leaves the view unchanged. A click on the enabled button moves to the next game from its start and disables the button again. |
| Navigation.Step | pgn_viewer.py:107-111 | Every event keeps the invariant. A notification comes only from a forward event that reaches the end of the game. |
| Navigation.Run | pgn_viewer.py:26-38 | Any sequence of clicks and key presses keeps the invariant. It yields one notification slot per event. |
| Navigation.AdvanceN | pgn_viewer.py:70-73 | Repeated next_move keeps the invariant and the game index. |
| Navigation.RetreatN | pgn_viewer.py:81-84 | Repeated prev_move keeps the invariant and the game index. |
| Navigation.AdvanceNApplies | pgn_viewer.py:70-73 | k advances move the index forward by k, capped at the move count. The board then holds the game's moves up to the new index. |
| Navigation.ReplayReachesEnd | pgn_viewer.py:70-77 | Advancing once per move from the start reaches the end. The board then holds the whole game, in order. |
| Navigation.RetreatNUndoes | pgn_viewer.py:81-84 | k retreats move the index back by k, stopping at 0. They keep a prefix of the applied moves and leave the button flag alone. |
| Navigation.AdvanceThenRetreat | pgn_viewer.py:70-85 | next_move then prev_move restores the view below the end. The only exception is the button flag, which stays set if that next_move enabled it. |
| Navigation.RetreatThenAdvance | pgn_viewer.py:70-85 | prev_move then next_move restores the index, board, game and result. If the button was enabled, it restores the view exactly. |
| Navigation.EmptyGameKeepsButtonDisabled | pgn_viewer.py:70-79 | In a game with no moves and the button disabled, any sequence of events leaves the view unchanged and shows no notification. So the button never becomes enabled. |
| Navigation.NotifiesExactlyAtEnd | pgn_viewer.py:76-77 | An event notifies iff it is a forward event applying the last move. The notification is then check_result's. Back and next-game events never notify. |
| Navigation.Scenario | pgn_viewer.py:70-104 | Game 1 has four moves and "1-0". Four forward events give WhiteWins on the fourth and enable the button. Next game resets to game 2 with the button disabled. Game 2 has two moves and "1/2-1/2". Two forward events give Draw, show the whole game and leave the button disabled. |
| Navigation.NextGameReachableBeforeEnd | pgn_viewer.py:76-104 | Forward then back leaves the button enabled with a move unshown. A click then switches to the next game. |
| App.Board.constructor | pgn_viewer.py:14 | A new board has no moves applied. |
| App.Board.Push | pgn_viewer.py:72 | push appends the move to the applied moves. |
| App.Board.Pop | pgn_viewer.py:83 | pop removes the last applied move and returns it. |
| App.ChessApp.constructor | pgn_viewer.py:9-34 | Needs a non-empty game list. The new state is Initial of the games, the invariant holds, and the board is fresh. |
| App.ChessApp.NextMove | pgn_viewer.py:70-79 | The new state is Advance of the old one on the same board object. The returned notification is AdvanceNotice. The invariant is kept. |
| App.ChessApp.PrevMove | pgn_viewer.py:81-85 | The new state is Retreat of the old one on the same board object. The invariant is kept. |
| App.ChessApp.NextGame | pgn_viewer.py:95-104 | The new state is NextGame of the old one. A switch uses a freshly allocated board. On the last game the board object is kept. |
| App.ChessApp.ClickNextGame | pgn_viewer.py:32-34 | The new state is PressNextGame of the old one. A click on the enabled button leaves a freshly allocated board. A click on the disabled button keeps the old board object. |
| App.ChessApp.HandleRightArrow | pgn_viewer.py:107-108 | The right arrow has exactly next_move's effect and notification. |
| App.ChessApp.HandleLeftArrow | pgn_viewer.py:110-111 | The left arrow has exactly prev_move's effect. |
| App.ScenarioSession | pgn_viewer.py:70-104 | The object is driven through game 1 ("1-0", four moves), then back one move and forward again, then a next-game click, then game 2 ("1/2-1/2", two moves). Reaching the end of game 1 shows WhiteWins both times, and the end of game 2 shows Draw. |
| Render.GridRect | pgn_viewer.py:57-60 | Each cell is a 50x50 square inside the 400x400 canvas. It is filled with one of the two shades. |
| Render.ShadesAlternate | pgn_viewer.py:56-60 | Horizontally or vertically adjacent cells get different shades. The top-left cell is light. |
| Render.GridCellsDistinct | pgn_viewer.py:57-60 | Distinct cells have distinct corners. |
| Render.CornerX | pgn_viewer.py:64 | x lies in [0, 350] and is a multiple of 50. |
| Render.CornerY | pgn_viewer.py:65 | y lies in [0, 350] and is a multiple of 50. |
| Render.CornerRoundTrip | pgn_viewer.py:64-65 | The square can be recovered from its corner. |
| Render.CornerInjective | pgn_viewer.py:61-65 | Distinct squares get distinct corners. |
| Render.RanksTopToBottom | pgn_viewer.py:65 | Rank-8 squares get y = 0. Rank-1 squares get y = 350. |
| Render.PieceSitsOnItsSquare | pgn_viewer.py:57-65 | A piece's corner is the corner of grid cell (7 - rank, file). That cell is dark iff file + rank is even, so a1 is dark. |
| Render.PieceKey | pgn_viewer.py:66-67 | A key is two letters: a colour letter from {w, b} and a piece letter from {p, r, n, b, q, k}. |
| Render.PieceKeyInjective | pgn_viewer.py:66-68 | Different pieces look up different keys. |
| Render.PieceFile | pgn_viewer.py:48-51 | The file an image is read from is the key's colour letter, then "_", then the key's piece letter, then ".png". |
| Render.Ordinal | pgn_viewer.py:46-51 | Each piece has a position in the loader's walk. The key and file read at that position are the piece's. |
| Render.PieceAt | pgn_viewer.py:46-51 | Each position of the loader's walk belongs to the piece whose Ordinal it is. |
| Render.KeyAtInjective | pgn_viewer.py:46-51 | The twelve keys the loader builds are pairwise distinct. |
| Render.LoadedImagesContents | pgn_viewer.py:46-51 | After n images, the table holds exactly the first n keys, each mapped to its own file. |
| Render.LoadedImagesComplete | pgn_viewer.py:41-51 | The full table has exactly one entry per piece. Each entry is under the piece's key and maps to the piece's file. |
| Render.LoadPieceImages | pgn_viewer.py:40-52 | The loader's nested loops build exactly that table. |
| Render.PlacedPiecesExact | pgn_viewer.py:61-68 | An image of piece p at square s's corner is drawn iff p stands on s. |
| Render.PlacedPiecesSound | pgn_viewer.py:61-68 | Every image drawn is the image of the piece on some occupied square. |
| Render.DrawBoard | pgn_viewer.py:54-68 | Returns 64 rectangles in row-major order and the images of the occupied squares. An image of p at s is drawn iff p stands on s. |

## Left out

- Widgets, canvas drawing, message boxes, button packing, key binding and the event
  loop (pgn_viewer.py:19-38, 55, 89-93, 130-143). These are toolkit calls. A
  notification is returned as a value rather than shown. A redraw after each transition
  changes no modelled state.
- The file loader `open_pgn_file` (pgn_viewer.py:113-128). It covers the file dialog, file
  reading, parsing by the chess library and the error dialog. An empty game list makes
  the constructor raise at pgn_viewer.py:13, which the loader's handler reports. So the
  constructor requires a non-empty list, and the empty-file path is not modelled.
- Chess rules, legality, positions, `mainline_moves`, `piece_at` and `symbol()` all belong
  to the chess library. Moves are opaque, and the board is the stack of applied moves.
  `DrawBoard` takes the per-square pieces as a parameter. `Symbol` follows the library's
  documented letters: upper case for White, lower case for Black.
- Image decoding and resizing to 50x50 (pgn_viewer.py:49-51). `LoadPieceImages` maps each
  key to the name of the file it would read, not to an image.
- The canvas call order: `DrawBoard` returns rectangles and images as two lists rather than one
  interleaved call sequence. The rectangles all come before the images in the source
  too, so no ordering is lost.
- Python's `//` floors. Squares are never negative, so it agrees with Dafny's `/` here.
