/** The records the app keeps: one entry per played turn (the `Score`
    interface shared by the scoreboard, the edit dialog and the history
    page), a player's final standing, and an archived game. */
module Records {

  /** One turn: its position-derived id, who played it, the points scored
      (0 for a Farkle) and a free-text note. */
  datatype Entry = Entry(id: int, player: string, score: int, note: string)

  /** A player's final total, as listed on the game-over screen. */
  datatype Standing = Standing(player: string, total: int)

  /** A finished game as archived in the history log. The record's string id
      and date come from the clock and are not modelled. */
  datatype GameRecord = GameRecord(
    winner: string,
    players: seq<string>,
    target: int,
    scores: seq<Entry>,
    finalScores: seq<Standing>)

  /** Ids are positions: the k-th entry (from 0) has id k + 1. */
  predicate Positional(scores: seq<Entry>) {
    forall k :: 0 <= k < |scores| ==> scores[k].id == k + 1
  }

  /** Whose turn the k-th turn (from 0) is in round-robin order. */
  function Owner(players: seq<string>, k: nat): string
    requires |players| > 0
  {
    players[k % |players|]
  }

  /** Turns were taken in strict round-robin order: the k-th entry belongs
      to player k mod p. The round table relies on this. */
  predicate RoundRobin(players: seq<string>, scores: seq<Entry>) {
    |players| > 0 && forall k: nat {:trigger Owner(players, k)} :: k < |scores| ==> scores[k].player == Owner(players, k)
  }

  /** No name is registered twice. */
  predicate DistinctNames(players: seq<string>) {
    forall i, j :: 0 <= i < j < |players| ==> players[i] != players[j]
  }

  /** What reading the history key gives: nothing usable stored (`null` or
      the empty string), a value that cannot be used (the read fails, or the
      text is not a JSON list of games), or the archived games. */
  datatype HistoryKey = NothingStored | Unusable | Games(games: seq<GameRecord>)

  /** The games a history key holds; none unless it holds a list. */
  function StoredGames(key: HistoryKey): seq<GameRecord> {
    if key.Games? then key.games else []
  }
}
