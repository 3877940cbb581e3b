/** The live scoreboard (components/Scoreboard.tsx) as a state machine over
    the turn log. The roster and the target come from the app and do not
    change while the board is shown. */
module Scoreboard {
  import opened Wrappers
  import opened JsText
  import opened Records
  import opened Totals
  import opened ScoreTable
  import ScoreEntry
  import EditScoreModal

  /** The board's state: the turn log, whose turn it is, whether the game is
      over and who won, and the entry open in the edit dialog, if any. */
  datatype Board = Board(
    scores: seq<Entry>,
    current: nat,
    over: bool,
    winner: string,
    editing: Option<Entry>)

  /** A freshly mounted board (`useState` initial values). */
  const InitialBoard := Board([], 0, false, "", None)

  // ---------------------------------------------------------------------------
  // Game over

  datatype Status = Status(over: bool, winner: string)

  /** The first index from `from` on whose player's total reaches `target`. */
  function FirstReaching(players: seq<string>, scores: seq<Entry>, target: int, from: nat): (r: Option<nat>)
    requires from <= |players|
    ensures r.Some? ==>
      && from <= r.value < |players|
      && Total(scores, players[r.value]) >= target
      && forall k :: from <= k < r.value ==> Total(scores, players[k]) < target
    ensures r.None? ==> forall k :: from <= k < |players| ==> Total(scores, players[k]) < target
    decreases |players| - from
  {
    if from == |players| then None
    else if Total(scores, players[from]) >= target then Some(from)
    else FirstReaching(players, scores, target, from + 1)
  }

  /** The game-over check run after every change: the game is over exactly
      when some player's total has reached the target, and the winner is the
      first such player in roster order; otherwise there is no winner. */
  function GameStatus(players: seq<string>, scores: seq<Entry>, target: int): (st: Status)
    ensures st.over <==> exists k :: 0 <= k < |players| && Total(scores, players[k]) >= target
    ensures st.over ==> exists k :: (
      && 0 <= k < |players| && st.winner == players[k]
      && Total(scores, players[k]) >= target
      && forall i :: 0 <= i < k ==> Total(scores, players[i]) < target)
    ensures !st.over ==> st.winner == ""
  {
    match FirstReaching(players, scores, target, 0)
    case Some(k) => Status(true, players[k])
    case None => Status(false, "")
  }

  /** The board once the game-over check has run on its log. */
  function Settle(players: seq<string>, target: int, b: Board): Board {
    var st := GameStatus(players, b.scores, target);
    b.(over := st.over, winner := st.winner)
  }

  predicate Settled(players: seq<string>, target: int, b: Board) {
    GameStatus(players, b.scores, target) == Status(b.over, b.winner)
  }

  // ---------------------------------------------------------------------------
  // Turns

  /** `switchPlayer`: the turn passes to the next player in roster order,
      back to the first after the last; nothing moves once the game is over. */
  function SwitchPlayer(players: seq<string>, b: Board): (r: Board)
    requires b.over || b.current < |players|
    ensures b.over ==> r == b
    ensures !b.over ==> r.current == (if b.current + 1 == |players| then 0 else b.current + 1)
    ensures r.current < |players| || b.over
    ensures r.scores == b.scores && r.over == b.over && r.winner == b.winner && r.editing == b.editing
  {
    if b.over then b else b.(current := (b.current + 1) % |players|)
  }

  /** `addScoreEntry`: once the game is over nothing happens; otherwise one
      entry is appended for the current player, with the next id, and the
      turn passes on. Earlier entries are untouched. */
  function AddScoreEntry(players: seq<string>, b: Board, score: int, note: string): (r: Board)
    requires b.over || b.current < |players|
    ensures b.over ==> r == b
    ensures !b.over ==>
      && |r.scores| == |b.scores| + 1
      && r.scores[..|b.scores|] == b.scores
      && r.scores[|b.scores|] == Entry(|b.scores| + 1, players[b.current], score, note)
      && r.current == (if b.current + 1 == |players| then 0 else b.current + 1)
      && r.over == b.over && r.winner == b.winner && r.editing == b.editing
  {
    if b.over then b
    else
      var entry := Entry(|b.scores| + 1, players[b.current], score, note);
      var r := SwitchPlayer(players, b.(scores := b.scores + [entry]));
      assert r.scores[..|b.scores|] == b.scores;
      r
  }

  // ---------------------------------------------------------------------------
  // Edits

  /** `scores.map(entry => entry.id === edited.id ? edited : entry)`. */
  function ReplaceById(scores: seq<Entry>, edited: Entry): (r: seq<Entry>)
    ensures |r| == |scores|
    ensures forall k :: 0 <= k < |scores| ==> r[k] == (if scores[k].id == edited.id then edited else scores[k])
  {
    if |scores| == 0 then []
    else
      var prefix := ReplaceById(scores[..|scores| - 1], edited);
      var last := scores[|scores| - 1];
      prefix + [if last.id == edited.id then edited else last]
  }

  /** With positional ids, an edit replaces the one entry at the edited id's
      position and leaves every other entry as it was; an id outside the log
      changes nothing. */
  lemma EditChangesExactlyOne(scores: seq<Entry>, edited: Entry)
    requires Positional(scores)
    ensures 1 <= edited.id <= |scores| ==> ReplaceById(scores, edited) == scores[edited.id - 1 := edited]
    ensures !(1 <= edited.id <= |scores|) ==> ReplaceById(scores, edited) == scores
  {
  }

  /** `saveEditedEntry`: the edited entry replaces the log entry with its id,
      and the dialog closes. */
  function SaveEditedEntry(b: Board, edited: Entry): (r: Board)
    ensures r.scores == ReplaceById(b.scores, edited) && r.editing == None
    ensures r.current == b.current && r.over == b.over && r.winner == b.winner
  {
    b.(scores := ReplaceById(b.scores, edited), editing := None)
  }

  /** `handleCellPress`: a tap on a played turn's cell opens it in the edit
      dialog; any other tap leaves the board as it is. */
  function CellPress(players: seq<string>, b: Board, r: nat, c: nat): (nb: Board)
    ensures nb.scores == b.scores && nb.current == b.current && nb.over == b.over && nb.winner == b.winner
    ensures CellEntry(players, b.scores, r, c).None? ==> nb == b
    ensures CellEntry(players, b.scores, r, c).Some? ==> nb.editing == CellEntry(players, b.scores, r, c)
  {
    match CellEntry(players, b.scores, r, c)
    case Some(e) => b.(editing := Some(e))
    case None => b
  }

  // ---------------------------------------------------------------------------
  // The board as a state machine

  /** What the user can do on the board: end a turn with the input fields as
      typed, tap a table cell, save the edit dialog with its fields as typed,
      or cancel it. */
  datatype Action =
    | EndTurn(fields: ScoreEntry.Fields)
    | TapCell(row: nat, col: nat)
    | SaveEdit(edit: EditScoreModal.Fields)
    | CancelEdit

  /** The board's invariant: a roster to rotate through, positional ids,
      round-robin turns with the turn index at the log's length modulo the
      roster size, an up-to-date game-over check, and an edit dialog open
      only on an entry of the log. */
  predicate Valid(players: seq<string>, target: int, b: Board) {
    && |players| > 0
    && Positional(b.scores)
    && RoundRobin(players, b.scores)
    && b.current == |b.scores| % |players|
    && Settled(players, target, b)
    && (b.editing.Some? ==> b.editing.value in b.scores)
  }

  /** One user action followed by the game-over check. */
  function Step(players: seq<string>, target: int, b: Board, a: Action): Board
    requires Valid(players, target, b)
  {
    match a
    case EndTurn(f) =>
      var out := ScoreEntry.HandleEndTurn(f);
      if out.report.None? then b
      else Settle(players, target, AddScoreEntry(players, b, out.report.value.score, out.report.value.note))
    case TapCell(r, c) => CellPress(players, b, r, c)
    case SaveEdit(f) =>
      if b.editing.None? then b
      else
        var saved := EditScoreModal.HandleSave(b.editing.value, f);
        if saved.Some? then Settle(players, target, SaveEditedEntry(b, saved.value)) else b
    case CancelEdit => b.(editing := None)
  }

  function Run(players: seq<string>, target: int, b: Board, actions: seq<Action>): (r: Board)
    requires Valid(players, target, b)
    ensures Valid(players, target, r)
    decreases |actions|
  {
    if |actions| == 0 then b
    else
      StepKeepsValid(players, target, b, actions[0]);
      Run(players, target, Step(players, target, b, actions[0]), actions[1..])
  }

  /** The turn after turn n goes to the next player, wrapping after the last. */
  lemma NextTurnIndex(n: nat, p: nat)
    requires p > 0
    ensures (n + 1) % p == (if n % p + 1 == p then 0 else n % p + 1)
  {
    var q := n / p;
    var t := n % p;
    assert n == q * p + t;
    if t + 1 == p {
      MulSucc(q, p);
      BlockPosition(q + 1, p, 0);
    } else {
      BlockPosition(q, p, t + 1);
    }
  }

  /** A fresh board is valid for any non-empty roster. */
  lemma InitialValid(players: seq<string>, target: int)
    requires |players| > 0
    ensures Valid(players, target, Settle(players, target, InitialBoard))
  {
  }

  lemma AddKeepsValid(players: seq<string>, target: int, b: Board, score: int, note: string)
    requires Valid(players, target, b)
    ensures Valid(players, target, Settle(players, target, AddScoreEntry(players, b, score, note)))
  {
    if !b.over {
      var r := AddScoreEntry(players, b, score, note);
      var n := |b.scores|;
      NextTurnIndex(n, |players|);
      assert forall k :: 0 <= k < n ==> r.scores[k] == b.scores[k] by {
        forall k | 0 <= k < n ensures r.scores[k] == b.scores[k] {
          assert r.scores[..n][k] == r.scores[k];
        }
      }
      assert r.editing.Some? ==> r.editing.value in r.scores by {
        if r.editing.Some? {
          var k :| 0 <= k < n && b.scores[k] == b.editing.value;
          assert r.scores[k] == b.editing.value;
        }
      }
    }
  }

  /** Replacing entry k by one with the same id and player keeps the ids
      positional and the turns round-robin. */
  lemma ReplaceKeepsLayout(players: seq<string>, scores: seq<Entry>, k: nat, e: Entry)
    requires Positional(scores) && RoundRobin(players, scores)
    requires k < |scores| && e.id == scores[k].id && e.player == scores[k].player
    ensures Positional(scores[k := e]) && RoundRobin(players, scores[k := e])
  {
  }

  lemma EditKeepsValid(players: seq<string>, target: int, b: Board, e: Entry)
    requires Valid(players, target, b) && b.editing.Some?
    requires e.id == b.editing.value.id && e.player == b.editing.value.player
    ensures Valid(players, target, Settle(players, target, SaveEditedEntry(b, e)))
  {
    var k :| 0 <= k < |b.scores| && b.scores[k] == b.editing.value;
    EditChangesExactlyOne(b.scores, e);
    ReplaceKeepsLayout(players, b.scores, k, e);
    var r := Settle(players, target, SaveEditedEntry(b, e));
    assert r.scores == b.scores[k := e];
  }

  /** Every action keeps the board's invariant. */
  lemma StepKeepsValid(players: seq<string>, target: int, b: Board, a: Action)
    requires Valid(players, target, b)
    ensures Valid(players, target, Step(players, target, b, a))
  {
    match a
    case EndTurn(f) =>
      var out := ScoreEntry.HandleEndTurn(f);
      if out.report.Some? {
        AddKeepsValid(players, target, b, out.report.value.score, out.report.value.note);
      }
    case TapCell(r, c) =>
      var e := CellEntry(players, b.scores, r, c);
      if e.Some? {
        assert e.value == b.scores[r * |players| + (c - 1)];
      }
    case SaveEdit(f) =>
      if b.editing.Some? && EditScoreModal.HandleSave(b.editing.value, f).Some? {
        EditKeepsValid(players, target, b, EditScoreModal.HandleSave(b.editing.value, f).value);
      }
    case CancelEdit =>
  }

  /** Once the game is over, ending a turn records nothing and passes the
      turn to nobody. */
  lemma NoTurnsAfterGameOver(players: seq<string>, target: int, b: Board, f: ScoreEntry.Fields)
    requires Valid(players, target, b) && b.over
    ensures Step(players, target, b, EndTurn(f)) == b
  {
  }

  /** Ending a turn with a blank score records a 0-point "Farkle" entry for
      the player whose turn it is, with the next id. */
  lemma BlankTurnIsFarkle(players: seq<string>, target: int, b: Board, f: ScoreEntry.Fields)
    requires Valid(players, target, b) && !b.over && AllWhitespace(f.score)
    ensures Step(players, target, b, EndTurn(f)).scores
         == b.scores + [Entry(|b.scores| + 1, players[|b.scores| % |players|], 0, "Farkle")]
  {
    var r := AddScoreEntry(players, b, 0, "Farkle");
    assert r.scores == r.scores[..|b.scores|] + [r.scores[|b.scores|]];
  }

  /** A score that does not parse leaves the board exactly as it was. */
  lemma RejectedTurnChangesNothing(players: seq<string>, target: int, b: Board, f: ScoreEntry.Fields)
    requires Valid(players, target, b)
    requires !AllWhitespace(f.score) && ParseInt(f.score).None?
    ensures Step(players, target, b, EndTurn(f)) == b
  {
  }

  // ---------------------------------------------------------------------------
  // Archiving a finished game

  /** The history record written when the game is over (its clock-derived id
      and date aside): the winner, roster, target, full log and the final
      standings. */
  function ArchiveRecord(players: seq<string>, target: int, b: Board): (g: GameRecord)
    ensures g.players == players && g.scores == b.scores && g.winner == b.winner && g.target == target
    ensures NonIncreasing(g.finalScores) && DistinctPlayers(g.finalScores)
    ensures |g.finalScores| == |Distinct(players)|
    ensures forall i :: 0 <= i < |g.finalScores| ==>
      g.finalScores[i].player in players && g.finalScores[i].total == Total(b.scores, g.finalScores[i].player)
    ensures forall name :: name in players ==> exists i :: 0 <= i < |g.finalScores| && g.finalScores[i].player == name
  {
    GameRecord(b.winner, players, target, b.scores, FinalStandings(players, b.scores))
  }

  /** The history key after the game-over save. Nothing is written while the
      game runs. Once it is over, the record is appended to the stored list,
      or to an empty one when nothing is stored. When the stored value cannot
      be read or parsed as a list, the failure is caught and nothing is
      written. */
  function SaveGameHistory(players: seq<string>, target: int, b: Board, key: HistoryKey): (r: HistoryKey)
    ensures !b.over || key.Unusable? ==> r == key
    ensures b.over && !key.Unusable? ==>
      && r.Games?
      && |r.games| == |StoredGames(key)| + 1
      && r.games[..|r.games| - 1] == StoredGames(key)
      && r.games[|r.games| - 1] == ArchiveRecord(players, target, b)
  {
    if b.over && !key.Unusable? then
      var log := StoredGames(key) + [ArchiveRecord(players, target, b)];
      assert log[..|log| - 1] == StoredGames(key);
      Games(log)
    else key
  }
}
