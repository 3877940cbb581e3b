/** The navigation shell (App.tsx): one page shown at a time, plus the
    roster, target and resume flag handed to the scoreboard. This module
    also ties the screens together: what the setup screen produces is what
    the scoreboard starts from. */
module App {
  import opened Wrappers
  import opened Records
  import opened Totals
  import GameSetup
  import Scoreboard
  import ScoreTable

  datatype Page = Home | Setup | ScoreboardPage | HistoryPage

  datatype AppState = AppState(page: Page, players: seq<string>, target: int, resume: bool)

  /** The state the app launches with. */
  const Initial := AppState(Home, [], GameSetup.DefaultTarget, false)

  /** `goHome`. */
  function GoHome(s: AppState): AppState {
    s.(page := Home, resume := false)
  }

  /** `handleNewGame`. */
  function NewGame(s: AppState): AppState {
    s.(page := Setup, resume := false)
  }

  /** `handleContinueGame`. */
  function ContinueGame(s: AppState): AppState {
    s.(page := ScoreboardPage, resume := true)
  }

  /** `handleStats`. */
  function Stats(s: AppState): AppState {
    s.(page := HistoryPage)
  }

  /** `handleGameSetupComplete`. */
  function GameSetupComplete(s: AppState, players: seq<string>, target: int): AppState {
    AppState(ScoreboardPage, players, target, false)
  }

  /** `handleRestart`. */
  function Restart(s: AppState): AppState {
    AppState(Home, [], GameSetup.DefaultTarget, false)
  }

  /** What the user can press. `SetupDone` carries what was done on the setup
      screen, which starts afresh each time it is shown. */
  datatype Event =
    | PressHome
    | PressNewGame
    | PressContinue
    | PressStats
    | SetupDone(actions: seq<GameSetup.Action>)
    | PressRestart

  /** The buttons each page offers: the home page its three buttons (its
      header also starts a new game), the setup screen Start Game once a
      player is registered, the scoreboard Restart Game and a header back to
      home, the history page its header and Back button. */
  predicate Enabled(page: Page, e: Event) {
    match page
    case Home => e.PressNewGame? || e.PressContinue? || e.PressStats?
    case Setup =>
      e.PressHome?
      || (e.SetupDone? && GameSetup.StartGame(GameSetup.Run(GameSetup.InitialSetup, e.actions)).Some?)
    case ScoreboardPage => e.PressHome? || e.PressRestart?
    case HistoryPage => e.PressHome?
  }

  /** The handler an enabled event runs; a button that is not on screen
      cannot be pressed, so a disabled event changes nothing. */
  function Dispatch(s: AppState, e: Event): AppState {
    if !Enabled(s.page, e) then s
    else
      match e
      case PressHome => GoHome(s)
      case PressNewGame => NewGame(s)
      case PressContinue => ContinueGame(s)
      case PressStats => Stats(s)
      case SetupDone(actions) =>
        var start := GameSetup.StartGame(GameSetup.Run(GameSetup.InitialSetup, actions)).value;
        GameSetupComplete(s, start.players, start.target)
      case PressRestart => Restart(s)
  }

  function Navigate(s: AppState, events: seq<Event>): AppState
    decreases |events|
  {
    if |events| == 0 then s else Navigate(Dispatch(s, events[0]), events[1..])
  }

  /** The handlers, one by one: leaving for home or setup clears the resume
      flag; continuing resumes on the scoreboard; the history page changes
      nothing else; finishing setup stores exactly the given roster and
      target for a fresh game; restarting is a return to the launch state. */
  lemma HandlerEffects(s: AppState, players: seq<string>, target: int)
    ensures GoHome(s).page == Home && !GoHome(s).resume
    ensures NewGame(s).page == Setup && !NewGame(s).resume
    ensures ContinueGame(s).page == ScoreboardPage && ContinueGame(s).resume
    ensures Stats(s) == s.(page := HistoryPage)
    ensures GameSetupComplete(s, players, target) == AppState(ScoreboardPage, players, target, false)
    ensures Restart(s) == Initial
    ensures GoHome(s).players == NewGame(s).players == ContinueGame(s).players == s.players
    ensures GoHome(s).target == NewGame(s).target == ContinueGame(s).target == s.target
  {
  }

  /** What holds in every state the app reaches: the target is never 0, the
      resume flag is only up on the scoreboard, and a scoreboard shown for a
      new game has a non-empty roster of registered names. */
  predicate Inv(s: AppState) {
    && s.target != 0
    && (s.resume ==> s.page == ScoreboardPage)
    && (s.page == ScoreboardPage && !s.resume ==>
          |s.players| > 0 && forall i :: 0 <= i < |s.players| ==> GameSetup.Registered(s.players[i]))
  }

  lemma DispatchKeepsInv(s: AppState, e: Event)
    requires Inv(s)
    ensures Inv(Dispatch(s, e))
  {
    if Enabled(s.page, e) && e.SetupDone? {
      GameSetup.RunKeepsNamesRegistered(GameSetup.InitialSetup, e.actions);
    }
  }

  lemma {:induction false} NavigateKeepsInv(s: AppState, events: seq<Event>)
    requires Inv(s)
    ensures Inv(Navigate(s, events))
    decreases |events|
  {
    if |events| > 0 {
      DispatchKeepsInv(s, events[0]);
      NavigateKeepsInv(Dispatch(s, events[0]), events[1..]);
    }
  }

  /** Whatever the user does, a new game's scoreboard starts from a valid
      board: a non-empty roster, an empty log, the first player's turn. */
  lemma NewBoardIsValid(events: seq<Event>)
    requires Navigate(Initial, events).page == ScoreboardPage && !Navigate(Initial, events).resume
    ensures Scoreboard.Valid(Navigate(Initial, events).players, Navigate(Initial, events).target,
      Scoreboard.Settle(Navigate(Initial, events).players, Navigate(Initial, events).target, Scoreboard.InitialBoard))
  {
    NavigateKeepsInv(Initial, events);
    Scoreboard.InitialValid(Navigate(Initial, events).players, Navigate(Initial, events).target);
  }

  /** The path to the empty-roster table: right after launch, Continue Game
      shows the scoreboard with an empty roster, so a stored log that is not
      empty makes the source's round count +Infinity. */
  lemma ContinueAtLaunchHasNoRoster(n: nat)
    requires n > 0
    ensures Navigate(Initial, [PressContinue]).page == ScoreboardPage
    ensures Navigate(Initial, [PressContinue]).players == []
    ensures ScoreTable.RoundCountAsWritten(n, |Navigate(Initial, [PressContinue]).players|) == ScoreTable.PosInfinity
  {
  }

  /** With registered names, a settled board names a winner exactly when the
      game is over. */
  lemma WinnerNamedIffOver(players: seq<string>, target: int, b: Scoreboard.Board)
    requires forall i :: 0 <= i < |players| ==> GameSetup.Registered(players[i])
    requires Scoreboard.Settled(players, target, b)
    ensures b.over <==> b.winner != ""
  {
  }

  /** A target at or below zero (the setup screen accepts "-5") ends the game
      before the first turn, won by the first registered player. */
  lemma NonPositiveTargetEndsAtOnce(players: seq<string>, target: int)
    requires |players| > 0 && target <= 0
    ensures Scoreboard.GameStatus(players, [], target) == Scoreboard.Status(true, players[0])
  {
    assert Total([], players[0]) == 0;
  }
}
