/** The viewer's navigation state machine, as values.
    A View is a snapshot of the ChessApp fields that navigation touches: which game is
    shown, its moves and result tag, how many moves have been applied, the stack of
    moves applied to the board, and whether the next-game button is enabled.
    Advance, Retreat and NextGame are the transitions of next_move, prev_move and
    next_game; the class in module App is proved against them. */
module Navigation {

  /** A move, opaque to the viewer: only ever pushed onto and popped off the board. */
  datatype Move = Move(uci: string)

  /** A parsed game record: its mainline moves and its "Result" header. */
  datatype Game = Game(moves: seq<Move>, result: string)

  /** The message box that check_result shows, or NoNotice when the tag is not recognised (no message box). */
  datatype Notification = WhiteWins | BlackWins | Draw | NoNotice

  datatype View = View(
    gameIndex: nat,
    moves: seq<Move>,
    moveIndex: nat,
    result: string,
    applied: seq<Move>,
    nextGameEnabled: bool)

  /** What a user can do: two buttons and two arrow keys for moving, one button for the next game. */
  datatype Event = NextButton | RightArrow | PrevButton | LeftArrow | NextGameButton

  datatype Outcome = Outcome(view: View, notice: Notification)

  datatype Trace = Trace(view: View, notices: seq<Notification>)

  /** The invariant every reachable view keeps: the indices are in range, the shown moves and
      result belong to the shown game, the board holds exactly the first moveIndex moves, and
      an enabled next-game button means a later game exists and the shown game has moves. */
  ghost predicate Inv(games: seq<Game>, v: View) {
    && v.gameIndex < |games|
    && v.moves == games[v.gameIndex].moves
    && v.result == games[v.gameIndex].result
    && v.moveIndex <= |v.moves|
    && v.applied == v.moves[..v.moveIndex]
    && (v.nextGameEnabled ==> v.gameIndex < |games| - 1 && 0 < |v.moves|)
  }

  /** The state set up by the constructor: first game, no move applied, button disabled. */
  function Initial(games: seq<Game>): (r: View)
    requires 0 < |games|
    ensures Inv(games, r)
    ensures r.gameIndex == 0 && r.moveIndex == 0 && r.applied == [] && !r.nextGameEnabled
  {
    View(0, games[0].moves, 0, games[0].result, [], false)
  }

  /** The notification for a result tag: only the three canonical tags produce one. */
  function CheckResult(result: string): (n: Notification)
    ensures n == WhiteWins <==> result == "1-0"
    ensures n == BlackWins <==> result == "0-1"
    ensures n == Draw <==> result == "1/2-1/2"
    ensures n == NoNotice <==> result != "1-0" && result != "0-1" && result != "1/2-1/2"
  {
    if result == "1-0" then WhiteWins
    else if result == "0-1" then BlackWins
    else if result == "1/2-1/2" then Draw
    else NoNotice
  }

  /** The result tag that produces a notification; the partner of CheckResult. */
  function ResultTag(n: Notification): (tag: string)
    requires n != NoNotice
  {
    match n
    case WhiteWins => "1-0"
    case BlackWins => "0-1"
    case Draw => "1/2-1/2"
  }

  lemma ResultTagRoundTrip(n: Notification)
    requires n != NoNotice
    ensures CheckResult(ResultTag(n)) == n
  {
  }

  /** next_move: apply the next move if there is one; reaching the end enables the
      next-game button when a later game exists. */
  function Advance(games: seq<Game>, v: View): (r: View)
    requires Inv(games, v)
    ensures Inv(games, r)
    ensures r.gameIndex == v.gameIndex && r.moves == v.moves && r.result == v.result
    ensures v.moveIndex < |v.moves| ==>
              r.moveIndex == v.moveIndex + 1 && r.applied == v.applied + [v.moves[v.moveIndex]]
    ensures v.moveIndex == |v.moves| ==> r == v
    ensures r.nextGameEnabled <==>
              v.nextGameEnabled
              || (v.moveIndex + 1 == |v.moves| && v.gameIndex < |games| - 1)
  {
    if v.moveIndex < |v.moves| then
      var reached := v.moveIndex + 1 == |v.moves|;
      v.(applied := v.applied + [v.moves[v.moveIndex]],
         moveIndex := v.moveIndex + 1,
         nextGameEnabled := v.nextGameEnabled || (reached && v.gameIndex < |games| - 1))
    else
      v
  }

  /** The notification next_move shows from view v: check_result's, exactly when this
      call applies the last move. */
  function AdvanceNotice(games: seq<Game>, v: View): (n: Notification)
    requires Inv(games, v)
    ensures n != NoNotice ==> v.moveIndex + 1 == |v.moves| && Advance(games, v).moveIndex == |v.moves|
    ensures v.moveIndex + 1 == |v.moves| ==> n == CheckResult(v.result)
  {
    if v.moveIndex < |v.moves| && v.moveIndex + 1 == |v.moves| then CheckResult(v.result) else NoNotice
  }

  /** prev_move: undo the last applied move if there is one; the button flag is left as is. */
  function Retreat(games: seq<Game>, v: View): (r: View)
    requires Inv(games, v)
    ensures Inv(games, r)
    ensures r.gameIndex == v.gameIndex && r.moves == v.moves && r.result == v.result
    ensures r.nextGameEnabled == v.nextGameEnabled
    ensures 0 < v.moveIndex ==> r.moveIndex == v.moveIndex - 1 && v.applied == r.applied + [v.moves[r.moveIndex]]
    ensures v.moveIndex == 0 ==> r == v
  {
    if 0 < v.moveIndex then
      v.(applied := v.applied[..|v.applied| - 1], moveIndex := v.moveIndex - 1)
    else
      v
  }

  /** next_game: switch to the following game, if any, from its initial position. It does
      not look at whether the shown game is finished. */
  function NextGame(games: seq<Game>, v: View): (r: View)
    requires Inv(games, v)
    ensures Inv(games, r)
    ensures v.gameIndex < |games| - 1 ==>
              r.gameIndex == v.gameIndex + 1 && r.moveIndex == 0 && r.applied == [] && !r.nextGameEnabled
    ensures v.gameIndex == |games| - 1 ==> r == v
  {
    if v.gameIndex < |games| - 1 then
      var g := games[v.gameIndex + 1];
      View(v.gameIndex + 1, g.moves, 0, g.result, [], false)
    else
      v
  }

  /** A click on the next-game button: a disabled button ignores it, an enabled one runs next_game. */
  function PressNextGame(games: seq<Game>, v: View): (r: View)
    requires Inv(games, v)
    ensures Inv(games, r)
    ensures !v.nextGameEnabled ==> r == v
    ensures v.nextGameEnabled ==>
              r.gameIndex == v.gameIndex + 1 && r.moveIndex == 0 && r.applied == [] && !r.nextGameEnabled
  {
    if v.nextGameEnabled then NextGame(games, v) else v
  }

  /** Event dispatch: the button and the arrow key for one direction run the same transition. */
  function Step(games: seq<Game>, v: View, e: Event): (o: Outcome)
    requires Inv(games, v)
    ensures Inv(games, o.view)
    ensures o.notice != NoNotice ==> (e == NextButton || e == RightArrow) && o.view.moveIndex == |o.view.moves|
  {
    match e
    case NextButton | RightArrow => Outcome(Advance(games, v), AdvanceNotice(games, v))
    case PrevButton | LeftArrow => Outcome(Retreat(games, v), NoNotice)
    case NextGameButton => Outcome(PressNextGame(games, v), NoNotice)
  }

  /** A session: the events handled one after another, with the notification each produced. */
  function Run(games: seq<Game>, v: View, events: seq<Event>): (t: Trace)
    requires Inv(games, v)
    ensures Inv(games, t.view)
    ensures |t.notices| == |events|
    decreases |events|
  {
    if events == [] then Trace(v, [])
    else
      var o := Step(games, v, events[0]);
      var rest := Run(games, o.view, events[1..]);
      Trace(rest.view, [o.notice] + rest.notices)
  }

  /** Advance applied k times. */
  function AdvanceN(games: seq<Game>, v: View, k: nat): (r: View)
    requires Inv(games, v)
    ensures Inv(games, r)
    ensures r.gameIndex == v.gameIndex
    decreases k
  {
    if k == 0 then v else AdvanceN(games, Advance(games, v), k - 1)
  }

  /** Retreat applied k times. */
  function RetreatN(games: seq<Game>, v: View, k: nat): (r: View)
    requires Inv(games, v)
    ensures Inv(games, r)
    ensures r.gameIndex == v.gameIndex
    decreases k
  {
    if k == 0 then v else RetreatN(games, Retreat(games, v), k - 1)
  }

  /** Advancing k moves from any view applies the next k moves of the game (or all that
      remain), so the board always holds the game's moves up to the new index. */
  lemma {:induction false} AdvanceNApplies(games: seq<Game>, v: View, k: nat)
    requires Inv(games, v)
    ensures var r := AdvanceN(games, v, k);
            && r.moveIndex == (if v.moveIndex + k <= |v.moves| then v.moveIndex + k else |v.moves|)
            && r.applied == v.moves[..r.moveIndex]
    decreases k
  {
    if k != 0 {
      AdvanceNApplies(games, Advance(games, v), k - 1);
    }
  }

  /** Replaying every move of the shown game from its start reaches the final position:
      the board holds all the game's moves, in order. */
  lemma ReplayReachesEnd(games: seq<Game>, v: View)
    requires Inv(games, v) && v.moveIndex == 0
    ensures AdvanceN(games, v, |v.moves|).moveIndex == |v.moves|
    ensures AdvanceN(games, v, |v.moves|).applied == games[v.gameIndex].moves
  {
    AdvanceNApplies(games, v, |v.moves|);
  }

  /** Retreating k moves undoes the last k applied moves (or all of them). */
  lemma {:induction false} RetreatNUndoes(games: seq<Game>, v: View, k: nat)
    requires Inv(games, v)
    ensures var r := RetreatN(games, v, k);
            && r.moveIndex == (if k <= v.moveIndex then v.moveIndex - k else 0)
            && r.applied == v.applied[..r.moveIndex]
            && r.nextGameEnabled == v.nextGameEnabled
    decreases k
  {
    if k != 0 {
      RetreatNUndoes(games, Retreat(games, v), k - 1);
    }
  }

  /** next_move then prev_move restores the move index and the board; only the button flag
      may differ, set when that next_move reached the end of the game. */
  lemma AdvanceThenRetreat(games: seq<Game>, v: View)
    requires Inv(games, v) && v.moveIndex < |v.moves|
    ensures Retreat(games, Advance(games, v)) ==
            v.(nextGameEnabled := v.nextGameEnabled || (v.moveIndex + 1 == |v.moves| && v.gameIndex < |games| - 1))
  {
  }

  /** prev_move then next_move restores the view whenever there was a move to undo. */
  lemma RetreatThenAdvance(games: seq<Game>, v: View)
    requires Inv(games, v) && 0 < v.moveIndex
    ensures Advance(games, Retreat(games, v)) == v.(nextGameEnabled := Advance(games, Retreat(games, v)).nextGameEnabled)
    ensures v.nextGameEnabled ==> Advance(games, Retreat(games, v)) == v
  {
  }

  /** A game without moves never enables the next-game button: next_move does nothing there,
      so with the button disabled no sequence of events changes the view or notifies. */
  lemma {:induction false} EmptyGameKeepsButtonDisabled(games: seq<Game>, v: View, events: seq<Event>)
    requires Inv(games, v) && !v.nextGameEnabled && |v.moves| == 0
    ensures Run(games, v, events).view == v
    ensures forall i :: 0 <= i < |events| ==> Run(games, v, events).notices[i] == NoNotice
    decreases |events|
  {
    if events != [] {
      var o := Step(games, v, events[0]);
      assert o.view == v;
      EmptyGameKeepsButtonDisabled(games, o.view, events[1..]);
    }
  }

  /** Notifications come only from a step that applies the last move of the shown game, and
      that step always carries check_result's notification. */
  lemma NotifiesExactlyAtEnd(games: seq<Game>, v: View, e: Event)
    requires Inv(games, v)
    ensures var o := Step(games, v, e);
            o.notice == (if (e == NextButton || e == RightArrow) && v.moveIndex + 1 == |v.moves|
                         then CheckResult(v.result) else NoNotice)
  {
  }

  /** The two games of the end-to-end scenario: four moves won by White, then two drawn. */
  function ScenarioGames(): (games: seq<Game>)
    ensures |games| == 2
  {
    [Game([Move("e2e4"), Move("e7e5"), Move("g1f3"), Move("b8c6")], "1-0"),
     Game([Move("d2d4"), Move("d7d5")], "1/2-1/2")]
  }

  /** Four advances through the first game end with "white wins" and enable the next game;
      next game resets to the second game with the button disabled; two advances end with
      "draw" and the button stays disabled, since no further game exists. */
  lemma Scenario()
    ensures var games := ScenarioGames();
            var t1 := Run(games, Initial(games), [NextButton, NextButton, RightArrow, NextButton]);
            && t1.notices == [NoNotice, NoNotice, NoNotice, WhiteWins]
            && t1.view.nextGameEnabled && t1.view.moveIndex == 4
            && var t2 := Run(games, t1.view, [NextGameButton]);
            && t2.view.gameIndex == 1 && t2.view.moveIndex == 0 && t2.view.applied == []
            && !t2.view.nextGameEnabled
            && var t3 := Run(games, t2.view, [NextButton, RightArrow]);
            && t3.notices == [NoNotice, Draw]
            && t3.view.applied == ScenarioGames()[1].moves
            && !t3.view.nextGameEnabled
  {
    var games := ScenarioGames();
    var v0 := Initial(games);
    var a1 := Advance(games, v0);
    var a2 := Advance(games, a1);
    var a3 := Advance(games, a2);
    var a4 := Advance(games, a3);
    assert a4.nextGameEnabled;
    var t1 := Run(games, v0, [NextButton, NextButton, RightArrow, NextButton]);
    assert t1.view == a4;
    var g := PressNextGame(games, a4);
    var b1 := Advance(games, g);
    var b2 := Advance(games, b1);
    assert b2.applied == games[1].moves;
  }

  /** Where the code is looser than "next game only once the game is finished": the button
      stays enabled after prev_move, so a click on it switches games with moves still unshown. */
  lemma NextGameReachableBeforeEnd()
    ensures var games := [Game([Move("e2e4")], "*"), Game([], "*")];
            var t := Run(games, Initial(games), [RightArrow, LeftArrow]);
            && t.view.moveIndex < |t.view.moves|
            && t.view.nextGameEnabled
            && Run(games, t.view, [NextGameButton]).view.gameIndex == 1
  {
    var games := [Game([Move("e2e4")], "*"), Game([], "*")];
    var v0 := Initial(games);
    var a := Advance(games, v0);
    assert a.nextGameEnabled;
    var r := Retreat(games, a);
    assert Run(games, v0, [RightArrow, LeftArrow]).view == r;
  }
}
