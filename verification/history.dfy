/** The history page (components/HistoryPage.tsx): the list of archived
    games and, for a selected game, the same round table and totals row the
    live scoreboard shows. */
module History {
  import opened Wrappers
  import opened Records
  import opened Totals
  import opened ScoreTable
  import Scoreboard

  /** The history list once loading has finished: it stays empty when the
      key holds nothing usable, since a failed read or parse is caught, and
      is the stored list otherwise. */
  function LoadHistory(key: HistoryKey): (h: seq<GameRecord>)
    ensures key.NothingStored? || key.Unusable? ==> h == []
    ensures key.Games? ==> h == key.games
  {
    StoredGames(key)
  }

  /** What the list area shows: a notice, or one item per archived game. */
  datatype ListView = NoHistoryNotice | Items(games: seq<GameRecord>)

  /** The "No game history available." notice appears exactly when the list
      is empty; otherwise every game is listed, in stored order. */
  function HistoryList(history: seq<GameRecord>): (v: ListView)
    ensures v.NoHistoryNotice? <==> |history| == 0
    ensures v.Items? ==> v.games == history
  {
    if |history| > 0 then Items(history) else NoHistoryNotice
  }

  /** A game saved when it ends is listed last on the history page, after
      every game stored before it, and the list is no longer empty. When the
      stored history cannot be used, the save writes nothing and the page
      still shows no games. */
  lemma SavedGameIsListed(players: seq<string>, target: int, b: Scoreboard.Board, key: HistoryKey)
    requires b.over
    ensures !key.Unusable? ==>
      LoadHistory(Scoreboard.SaveGameHistory(players, target, b, key))
        == LoadHistory(key) + [Scoreboard.ArchiveRecord(players, target, b)]
    ensures !key.Unusable? ==>
      HistoryList(LoadHistory(Scoreboard.SaveGameHistory(players, target, b, key))).Items?
    ensures key.Unusable? ==>
      HistoryList(LoadHistory(Scoreboard.SaveGameHistory(players, target, b, key))) == NoHistoryNotice
  {
    if !key.Unusable? {
      var h := LoadHistory(Scoreboard.SaveGameHistory(players, target, b, key));
      assert h == h[..|h| - 1] + [h[|h| - 1]];
    }
  }

  /** The table and totals row of `renderGameDetailsModal`, built with the
      same loops as on the page. They are exactly the live scoreboard's
      table and totals row for the game's roster and log. */
  method GameDetails(game: GameRecord) returns (table: seq<seq<Cell>>, totals: seq<Cell>)
    ensures table == Table(game.players, game.scores)
    ensures totals == TotalsRow(game.players, game.scores)
  {
    table := BuildTable(game.players, game.scores);
    totals := BuildTotals(game.players, game.scores);
  }

  /** The nested row loops of the details dialog. */
  method BuildTable(players: seq<string>, scores: seq<Entry>) returns (table: seq<seq<Cell>>)
    ensures table == Table(players, scores)
  {
    var numPlayers := |players|;
    var numRounds := RoundCount(|scores|, numPlayers);
    table := [];
    var r := 0;
    while r < numRounds
      invariant r <= numRounds
      invariant table == Rows(scores, numPlayers, r)
    {
      var row := [Num(r + 1)];
      var j := 0;
      while j < numPlayers
        invariant j <= numPlayers
        invariant row == Row(scores, numPlayers, r)[..j + 1]
      {
        var index := r * numPlayers + j;
        row := row + [if index < |scores| then Num(scores[index].score) else Dash];
        j := j + 1;
      }
      assert row == Row(scores, numPlayers, r);
      table := table + [row];
      r := r + 1;
    }
  }

  /** The totals-row loop: the label, then each player's total. */
  method BuildTotals(players: seq<string>, scores: seq<Entry>) returns (totals: seq<Cell>)
    ensures totals == TotalsRow(players, scores)
  {
    totals := [Text("Total")];
    var i := 0;
    while i < |players|
      invariant i <= |players|
      invariant totals == TotalsRow(players, scores)[..i + 1]
    {
      var total := PlayerTotal(scores, players[i]);
      totals := totals + [Num(total)];
      i := i + 1;
    }
  }

  /** `scores.filter(entry => entry.player === name).reduce(sum, 0)`. */
  method PlayerTotal(scores: seq<Entry>, name: string) returns (total: int)
    ensures total == Total(scores, name)
  {
    total := 0;
    var k := 0;
    while k < |scores|
      invariant k <= |scores|
      invariant total == Total(scores[..k], name)
    {
      assert scores[..k + 1][..k] == scores[..k];
      if scores[k].player == name {
        total := total + scores[k].score;
      }
      k := k + 1;
    }
    assert scores[..k] == scores;
  }
}
