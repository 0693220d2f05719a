/** The ChessApp object: the fields the viewer updates in place, and its navigation
    methods, each proved against the matching transition of module Navigation. */
module App {
  import opened Navigation

  /** Stands in for chess.Board, which the viewer only drives by push and pop:
      the stack of moves applied so far. */
  class Board {
    var applied: seq<Move>

    /** A fresh board in the initial position: nothing applied. */
    constructor ()
      ensures applied == []
    {
      applied := [];
    }

    method Push(m: Move)
      modifies this
      ensures applied == old(applied) + [m]
    {
      applied := applied + [m];
    }

    /** Undoes the last applied move and returns it. */
    method Pop() returns (m: Move)
      requires applied != []
      modifies this
      ensures old(applied) == applied + [m]
    {
      m := applied[|applied| - 1];
      applied := applied[..|applied| - 1];
    }
  }

  class ChessApp {
    const games: seq<Game>
    var gameIndex: nat
    var currentGame: Game
    var board: Board
    var moves: seq<Move>
    var moveIndex: nat
    var result: string
    /** Whether the next-game button is in the NORMAL (clickable) state. */
    var nextGameEnabled: bool

    /** The navigation state held by this object, as a value. */
    ghost function State(): View
      reads this, board
    {
      View(gameIndex, moves, moveIndex, result, board.applied, nextGameEnabled)
    }

    ghost predicate Valid()
      reads this, board
    {
      Inv(games, State()) && currentGame == games[gameIndex]
    }

    constructor (games: seq<Game>)
      requires 0 < |games|
      ensures Valid() && fresh(board)
      ensures this.games == games && State() == Initial(games)
    {
      this.games := games;
      gameIndex := 0;
      currentGame := games[0];
      board := new Board();
      moves := games[0].moves;
      moveIndex := 0;
      result := games[0].result;
      nextGameEnabled := false;
    }

    /** Shows the next move, if any; returns the result notification that check_result
        would show, which is not NoNotice only when this call reached the end of the game. */
    method NextMove() returns (notice: Notification)
      requires Valid()
      modifies this, board
      ensures Valid() && board == old(board)
      ensures State() == Advance(games, old(State()))
      ensures notice == AdvanceNotice(games, old(State()))
      ensures currentGame == old(currentGame)
    {
      notice := NoNotice;
      if moveIndex < |moves| {
        board.Push(moves[moveIndex]);
        moveIndex := moveIndex + 1;
        if moveIndex == |moves| {
          notice := CheckResult(result);
          if gameIndex < |games| - 1 {
            nextGameEnabled := true;
          }
        }
      }
    }

    /** Takes back the last shown move, if any; the next-game button is left alone. */
    method PrevMove()
      requires Valid()
      modifies this, board
      ensures Valid() && board == old(board)
      ensures State() == Retreat(games, old(State()))
      ensures currentGame == old(currentGame)
    {
      if moveIndex > 0 {
        var undone := board.Pop();
        moveIndex := moveIndex - 1;
      }
    }

    /** Moves on to the following game, if there is one, on a fresh board. It only checks
        that a later game exists; the button state is what keeps it from running early. */
    method NextGame()
      requires Valid()
      modifies this
      ensures Valid()
      ensures State() == Navigation.NextGame(games, old(State()))
      ensures old(gameIndex) < |games| - 1 ==> fresh(board)
      ensures old(gameIndex) == |games| - 1 ==> board == old(board)
    {
      if gameIndex < |games| - 1 {
        gameIndex := gameIndex + 1;
        currentGame := games[gameIndex];
        board := new Board();
        moves := currentGame.moves;
        moveIndex := 0;
        result := currentGame.result;
        nextGameEnabled := false;
      }
    }

    /** A click on the next-game button, which only reaches next_game while enabled. */
    method ClickNextGame()
      requires Valid()
      modifies this
      ensures Valid()
      ensures State() == PressNextGame(games, old(State()))
      ensures old(nextGameEnabled) ==> fresh(board)
      ensures !old(nextGameEnabled) ==> board == old(board)
    {
      if nextGameEnabled {
        NextGame();
      }
    }

    /** The right-arrow key runs the same transition as the next button. */
    method HandleRightArrow() returns (notice: Notification)
      requires Valid()
      modifies this, board
      ensures Valid() && board == old(board)
      ensures State() == Advance(games, old(State()))
      ensures notice == AdvanceNotice(games, old(State()))
    {
      notice := NextMove();
    }

    /** The left-arrow key runs the same transition as the back button. */
    method HandleLeftArrow()
      requires Valid()
      modifies this, board
      ensures Valid() && board == old(board)
      ensures State() == Retreat(games, old(State()))
    {
      PrevMove();
    }
  }

  /** The two-game walk-through driven through the object: four forward moves, one back
      and one forward, a click on next game, then two forward moves. */
  method ScenarioSession() returns (first: Notification, again: Notification, second: Notification)
    ensures first == WhiteWins && again == WhiteWins && second == Draw
  {
    var app := new ChessApp(ScenarioGames());
    var n := app.NextMove();
    n := app.NextMove();
    n := app.HandleRightArrow();
    first := app.NextMove();
    assert app.nextGameEnabled;
    app.PrevMove();
    again := app.NextMove();
    app.ClickNextGame();
    assert app.gameIndex == 1 && app.moveIndex == 0;
    n := app.NextMove();
    second := app.HandleRightArrow();
  }
}
