/** The round-by-round table the scoreboard draws (components/Scoreboard.tsx,
    `tableData`, `totalsRow` and `handleCellPress`): row r is round r + 1,
    and its cells are the scores of turns r * p .. r * p + p - 1 for p
    players, with `-` where a turn has not been played yet. */
module ScoreTable {
  import opened Wrappers
  import opened Records
  import opened Totals

  /** A table cell holds a number or a text, as `(string | number)` does. */
  datatype Cell = Num(n: int) | Text(s: string)

  const Dash: Cell := Text("-")

  // ---------------------------------------------------------------------------
  // Arithmetic of the layout

  lemma MulMono(a: nat, b: nat, p: nat)
    requires a <= b
    ensures a * p <= b * p
  {
    assert b * p == a * p + (b - a) * p;
  }

  lemma MulSucc(q: nat, p: nat)
    ensures (q + 1) * p == q * p + p
  {
  }

  /** Turn q * p + t (with t < p) sits in round q, column t. */
  lemma BlockPosition(q: nat, p: nat, t: nat)
    requires t < p
    ensures (q * p + t) / p == q && (q * p + t) % p == t
  {
    var x := q * p + t;
    var q2 := x / p;
    assert q2 * p + x % p == x;
    if q > q2 {
      MulMono(q2 + 1, q, p);
      assert false;
    }
    if q2 > q {
      MulMono(q + 1, q2, p);
      assert false;
    }
  }

  /** The number of rounds, `Math.ceil(n / p)`, when there is at least one
      player; no rounds at all when there is none. */
  function RoundCount(n: nat, p: nat): (r: nat)
    ensures p == 0 ==> r == 0
    ensures p > 0 ==> (r - 1) * p < n <= r * p
  {
    if p == 0 then 0
    else
      var r := (n + p - 1) / p;
      assert r * p + (n + p - 1) % p == n + p - 1;
      r
  }

  /** Every round shown starts at a turn that has been played. */
  lemma RoundStartPlayed(n: nat, p: nat, r: nat)
    requires r < RoundCount(n, p)
    ensures r * p < n
  {
    MulMono(r, RoundCount(n, p) - 1, p);
  }

  // ---------------------------------------------------------------------------
  // Finding: with no players the source's round count is not a number

  /** The value JavaScript gives `Math.ceil(scores.length / numPlayers)`:
      dividing by zero players gives NaN for an empty log and +Infinity
      otherwise. */
  datatype JsNumber = Finite(v: int) | PosInfinity | NaN

  /** The round count as the source writes it. */
  function RoundCountAsWritten(n: nat, p: nat): (r: JsNumber)
    ensures p > 0 ==> r == Finite(RoundCount(n, p))
  {
    if p > 0 then Finite((n + p - 1) / p)
    else if n == 0 then NaN
    else PosInfinity
  }

  /** JavaScript's `r < bound` for a row counter. */
  predicate JsLess(r: nat, bound: JsNumber) {
    match bound
    case Finite(v) => r < v
    case PosInfinity => true
    case NaN => false
  }

  /** `for (let r = start; r < bound; r++)` run for at most `fuel` steps:
      the number of rows built when the loop exits, `None` while it has not. */
  function RowLoop(bound: JsNumber, start: nat, fuel: nat): Option<nat>
    decreases fuel
  {
    if !JsLess(start, bound) then Some(start)
    else if fuel == 0 then None
    else RowLoop(bound, start + 1, fuel - 1)
  }

  lemma {:induction false} RowLoopNeverExits(start: nat, fuel: nat)
    ensures RowLoop(PosInfinity, start, fuel) == None
    decreases fuel
  {
    if fuel > 0 {
      RowLoopNeverExits(start + 1, fuel - 1);
    }
  }

  /** As written: with an empty player list and a non-empty log, the row loop
      of the table builder never exits, however many steps it is given. */
  lemma EmptyRosterTableNeverEnds(n: nat, fuel: nat)
    requires n > 0
    ensures RowLoop(RoundCountAsWritten(n, 0), 0, fuel) == None
  {
    RowLoopNeverExits(0, fuel);
  }

  lemma {:induction false} RowLoopExits(k: nat, start: nat, fuel: nat)
    requires start <= k && k - start <= fuel
    ensures RowLoop(Finite(k), start, fuel) == Some(k)
    decreases fuel
  {
    if start < k {
      RowLoopExits(k, start + 1, fuel - 1);
    }
  }

  /** Corrected: with `RoundCount` the row loop exits after exactly
      `RoundCount(n, p)` rows, for every log and every roster, empty or not. */
  lemma TableAlwaysEnds(n: nat, p: nat)
    ensures RowLoop(Finite(RoundCount(n, p)), 0, RoundCount(n, p)) == Some(RoundCount(n, p))
  {
    RowLoopExits(RoundCount(n, p), 0, RoundCount(n, p));
  }

  // ---------------------------------------------------------------------------
  // The table

  /** Row `r`: the round number, then one cell per player. */
  function Row(scores: seq<Entry>, p: nat, r: nat): seq<Cell> {
    [Num(r + 1)] + seq(p, j requires 0 <= j < p =>
      if r * p + j < |scores| then Num(scores[r * p + j].score) else Dash)
  }

  /** The first `k` rows, pushed one after another. */
  function Rows(scores: seq<Entry>, p: nat, k: nat): (t: seq<seq<Cell>>)
    ensures |t| == k
    ensures forall r :: 0 <= r < k ==> t[r] == Row(scores, p, r)
  {
    if k == 0 then [] else Rows(scores, p, k - 1) + [Row(scores, p, k - 1)]
  }

  /** `tableData`: one row per round, each holding the round number and one
      cell per player, `-` for turns not yet played. */
  function Table(players: seq<string>, scores: seq<Entry>): (t: seq<seq<Cell>>)
    ensures |t| == RoundCount(|scores|, |players|)
    ensures forall r :: 0 <= r < |t| ==> |t[r]| == |players| + 1 && t[r][0] == Num(r + 1)
    ensures forall r, c :: 0 <= r < |t| && 1 <= c <= |players| ==>
      t[r][c] == (if r * |players| + c - 1 < |scores| then Num(scores[r * |players| + c - 1].score) else Dash)
  {
    Rows(scores, |players|, RoundCount(|scores|, |players|))
  }

  /** `totalsRow`: the label, then each player's total in roster order. */
  function TotalsRow(players: seq<string>, scores: seq<Entry>): (t: seq<Cell>)
    ensures |t| == |players| + 1 && t[0] == Text("Total")
    ensures forall i :: 0 <= i < |players| ==> t[i + 1] == Num(Total(scores, players[i]))
  {
    [Text("Total")] + seq(|players|, i requires 0 <= i < |players| => Num(Total(scores, players[i])))
  }

  /** Every turn of the log is shown, in the row of its round and the column
      of its position within the round. */
  lemma EveryEntryShown(players: seq<string>, scores: seq<Entry>, k: nat)
    requires |players| > 0 && k < |scores|
    ensures k / |players| < |Table(players, scores)|
    ensures Table(players, scores)[k / |players|][k % |players| + 1] == Num(scores[k].score)
  {
    var p := |players|;
    var q := k / p;
    assert q * p + (k % p + 1) - 1 == k;
  }

  // ---------------------------------------------------------------------------
  // Tapping a cell

  /** `handleCellPress(r, c)`: the entry behind a tapped cell, if any. The
      round-number column is not editable. */
  function CellEntry(players: seq<string>, scores: seq<Entry>, r: nat, c: nat): (e: Option<Entry>)
    ensures e.Some? <==> c > 0 && r * |players| + c - 1 < |scores|
    ensures e.Some? ==> e.value == scores[r * |players| + c - 1]
  {
    if c == 0 then None
    else
      var index := r * |players| + (c - 1);
      if index < |scores| then Some(scores[index]) else None
  }

  /** A tap on a table cell selects exactly the entry whose score the cell
      shows, nothing on a `-` cell; when turns were taken round-robin, that
      entry is the column's player's. */
  lemma CellPressMatchesTable(players: seq<string>, scores: seq<Entry>, r: nat, c: nat)
    requires r < |Table(players, scores)| && 1 <= c <= |players|
    ensures CellEntry(players, scores, r, c).Some? <==> Table(players, scores)[r][c].Num?
    ensures CellEntry(players, scores, r, c).Some? ==>
      Table(players, scores)[r][c] == Num(CellEntry(players, scores, r, c).value.score)
    ensures CellEntry(players, scores, r, c).Some? && RoundRobin(players, scores) ==>
      CellEntry(players, scores, r, c).value.player == players[c - 1]
  {
    BlockPosition(r, |players|, c - 1);
    assert Owner(players, r * |players| + (c - 1)) == players[c - 1];
  }

  // ---------------------------------------------------------------------------
  // Columns and totals

  /** The sum of the numbers in column `c` of the first `k` rows; `-` adds
      nothing. */
  function ColumnSum(t: seq<seq<Cell>>, c: nat, k: nat): int
    requires k <= |t|
    requires forall r :: 0 <= r < |t| ==> c < |t[r]|
  {
    if k == 0 then 0
    else ColumnSum(t, c, k - 1) + (match t[k - 1][c] case Num(v) => v case Text(_) => 0)
  }

  /** Within round q, player j's total grows by player j's turn once that
      turn has been played, and by nothing else. */
  lemma {:induction false} RoundContribution(players: seq<string>, scores: seq<Entry>, j: nat, q: nat, t: nat)
    requires RoundRobin(players, scores) && DistinctNames(players)
    requires j < |players| && t <= |players| && q * |players| + t <= |scores|
    ensures Total(scores[..q * |players| + t], players[j])
         == Total(scores[..q * |players|], players[j])
            + (if j < t then scores[q * |players| + j].score else 0)
  {
    var p := |players|;
    if t > 0 {
      RoundContribution(players, scores, j, q, t - 1);
      var m := q * p + t - 1;
      assert scores[..m + 1][..m] == scores[..m];
      BlockPosition(q, p, t - 1);
      assert Owner(players, m) == players[t - 1];
      assert scores[..m + 1][m].player == players[t - 1];
    }
  }

  /** Adding round q's row to a column adds that round's turn of the column's
      player, if it has been played. */
  lemma ColumnStep(players: seq<string>, scores: seq<Entry>, j: nat, q: nat)
    requires j < |players| && q < |Table(players, scores)|
    ensures ColumnSum(Table(players, scores), j + 1, q + 1)
         == ColumnSum(Table(players, scores), j + 1, q)
            + (if q * |players| + j < |scores| then scores[q * |players| + j].score else 0)
  {
    var t := Table(players, scores);
    assert t[q][j + 1] == (if q * |players| + j < |scores| then Num(scores[q * |players| + j].score) else Dash);
  }

  function Min(a: int, b: int): int {
    if a <= b then a else b
  }

  /** Player j's column over the first k rounds, read off the log: the turn
      at position r * p + j of each round r, when it has been played. */
  function ColumnTurns(scores: seq<Entry>, p: nat, j: nat, k: nat): int {
    if k == 0 then 0
    else ColumnTurns(scores, p, j, k - 1) + (if (k - 1) * p + j < |scores| then scores[(k - 1) * p + j].score else 0)
  }

  /** Column j + 1 of the table holds exactly those turns. */
  lemma {:induction false} ColumnIsTurns(players: seq<string>, scores: seq<Entry>, j: nat, k: nat)
    requires j < |players| && k <= |Table(players, scores)|
    ensures ColumnSum(Table(players, scores), j + 1, k) == ColumnTurns(scores, |players|, j, k)
  {
    if k > 0 {
      ColumnIsTurns(players, scores, j, k - 1);
      ColumnStep(players, scores, j, k - 1);
    }
  }

  /** With round-robin turns and distinct names, the turns in player j's
      column over k rounds are all of player j's turns among the first
      m = k * p, or among the whole log once the rounds cover it. */
  lemma {:induction false} ColumnTurnsTotal(players: seq<string>, scores: seq<Entry>, j: nat, k: nat, m: nat)
    requires RoundRobin(players, scores) && DistinctNames(players)
    requires j < |players| && m == k * |players| && m < |scores| + |players|
    ensures ColumnTurns(scores, |players|, j, k) == Total(scores[..Min(m, |scores|)], players[j])
  {
    var p := |players|;
    var n := |scores|;
    if k == 0 {
      assert scores[..0] == [];
    } else {
      var base := m - p;
      MulSucc(k - 1, p);
      ColumnTurnsTotal(players, scores, j, k - 1, base);
      var t := if m <= n then p else n - base;
      RoundContribution(players, scores, j, k - 1, t);
      assert (j < t) == (base + j < n);
    }
  }

  /** When turns were taken round-robin and no name is registered twice, the
      totals row agrees with the table: player j's total is the sum of column
      j + 1. */
  lemma ColumnSumIsTotal(players: seq<string>, scores: seq<Entry>, j: nat)
    requires RoundRobin(players, scores) && DistinctNames(players) && j < |players|
    ensures ColumnSum(Table(players, scores), j + 1, |Table(players, scores)|) == Total(scores, players[j])
    ensures TotalsRow(players, scores)[j + 1] == Num(ColumnSum(Table(players, scores), j + 1, |Table(players, scores)|))
  {
    var k := |Table(players, scores)|;
    var p := |players|;
    if k > 0 {
      MulSucc(k - 1, p);
    }
    ColumnIsTurns(players, scores, j, k);
    ColumnTurnsTotal(players, scores, j, k, k * p);
    assert scores[..|scores|] == scores;
  }
}
