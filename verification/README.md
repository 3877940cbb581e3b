# Farkle scorekeeper: a Dafny model of its scoring core

This project models the scorekeeping logic of a React Native app for the dice game Farkle. It does not model the dice themselves. The model covers:

- the app's page navigation;
- the setup screen, which registers players and reads the target score;
- the live scoreboard, which keeps a turn log, rotates turns, detects the game's end, shows a round-by-round table and totals, lets the user correct a recorded turn, and archives a finished game;
- the score-entry and edit dialogs;
- the history page, which shows archived games.

Every component is written as pure functions over immutable data.

A React event handler becomes a function from the component's state to its next state. An effect that recomputes state after a render becomes a function applied after every change: `Scoreboard.Settle` plays the game-over check. The JavaScript built-ins the screens depend on are written out in module `JsText`:

- `String.prototype.trim` uses the full WhiteSpace and LineTerminator set of ECMAScript 2024, sections 12.2 and 12.3.
- `parseInt(s, 10)` follows ECMAScript 2024, section 19.2.5. It skips leading white space, takes an optional sign and then the longest run of decimal digits. NaN is modelled as `None`.
- `Number.prototype.toString` is modelled on integers.

Modules, one per source component plus shared parts:

- `Wrappers`: `Option`.
- `JsText`: trim, parseInt and toString.
- `Records`: the `Score` and `GameHistory` records, the content of the history key, and the log invariants the table relies on.
- `Totals`: per-player totals and the final standings.
- `ScoreTable`: the round table, the totals row and cell taps.
- `ScoreEntry`, `EditScoreModal`, `GameSetup`, `Scoreboard`, `History` and `App`: one module per component.

Each component's operations are tied to a partner:

- The edit dialog's Save inverts how it opens (`SaveUntouchedIsIdentity`).
- The table's columns add up to the totals row (`ScoreTable.ColumnSumIsTotal`).
- The totals share out the log exactly (`Totals.TotalsPartitionScores`).
- Each setup action preserves the invariant that names are registered (`GameSetup.RunKeepsNamesRegistered`).
- The scoreboard's invariant (`Scoreboard.Valid`) is preserved by every action and holds at the start of every new game the app can reach (`App.NewBoardIsValid`). A resumed game is not covered: Continue Game right after launch shows an empty roster (`App.ContinueAtLaunchHasNoRoster`).

## Model

| member | source | states |
|---|---|---|
| JsText.Trim | components/ScoreEntry.tsx:15 | `trim` removes only white space at the two ends: the result is a slice `s[i..j]` with nothing but white space before `i` and after `j`, and it neither starts nor ends with white space |
| JsText.TrimBlankIff | components/ScoreEntry.tsx:15 | `s.trim() === ''` holds exactly when every character of `s` is white space |
| JsText.TrimIdempotent | components/GameSetup.tsx:27-28 | a trimmed name trims to itself |
| JsText.ParseInt | components/ScoreEntry.tsx:19 | `parseInt(s, 10)` yields a number exactly when, after leading white space, a digit follows, or a sign and then a digit; a leading `-` gives a value ≤ 0, anything else a value ≥ 0. Its partner is `JsText.ParseIntOfIntToString` |
| JsText.DigitPrefix | components/ScoreEntry.tsx:19 | the digits `parseInt` reads: the longest all-digit prefix, stopped by the first non-digit |
| JsText.NatToString | components/EditScoreModal.tsx:21 | the decimal text of a natural number is all digits, denotes that number and has no leading zero |
| JsText.ParseIntOfIntToString | components/EditScoreModal.tsx:21-31 | `parseInt(n.toString(), 10)` gives back `n` for every integer, negative ones included, even with non-digit text after it |
| JsText.ParseIntOfBlank | components/ScoreEntry.tsx:15-20 | a blank text does not parse |
| ScoreEntry.HandleEndTurn | components/ScoreEntry.tsx:14-30 | blank score reports a 0-point "Farkle"; a parsed score is reported with the note; the turn is rejected exactly when the score is non-blank and unparsable, and then the fields keep their text; otherwise both fields clear |
| ScoreEntry.ButtonLabel | components/ScoreEntry.tsx:32 | the label is "Farkle!" exactly when the score is blank and "End Turn" exactly when it is not |
| ScoreEntry.LabelPredictsOutcome | components/ScoreEntry.tsx:14-32 | "Farkle!" always records a 0-point Farkle; "End Turn" records the parsed score and note when it records anything |
| ScoreEntry.TypedNumberReported | components/ScoreEntry.tsx:14-30 | a typed integer is reported exactly as typed, with its note, and the fields clear |
| EditScoreModal.Open | components/EditScoreModal.tsx:21-27 | the score field opens holding text that parses back to the entry's score; the note field holds the entry's note |
| EditScoreModal.HandleSave | components/EditScoreModal.tsx:29-36 | Save yields an entry exactly when the score text parses; that entry keeps id and player and takes the parsed score and typed note |
| EditScoreModal.SaveUntouchedIsIdentity | components/EditScoreModal.tsx:21-36 | saving the dialog as it opened returns the very same entry |
| GameSetup.RegisteredIffTrimmed | components/GameSetup.tsx:26-31 | the names the screen can register are exactly the non-empty names that `trim` leaves unchanged |
| GameSetup.AddPlayer | components/GameSetup.tsx:26-31 | a blank name changes nothing; otherwise the trimmed name is appended after the earlier players, the name field clears and the target text is kept |
| GameSetup.TargetFrom | components/GameSetup.tsx:96 | the target is never 0: unparsable text or 0 gives 10000, and any other parsed value is taken as is |
| GameSetup.StartGame | components/GameSetup.tsx:93-97 | Start Game is offered exactly when a player has been added, and passes the players and the target read from the field |
| GameSetup.RunKeepsNamesRegistered | components/GameSetup.tsx:22-31 | after any sequence of typing and Add Player presses, every registered name is non-empty and trimmed |
| GameSetup.InitialTargetIsDefault | components/GameSetup.tsx:22 | an untouched target field yields the default target 10000 |
| Totals.TotalOfAbsentName | components/Scoreboard.tsx:95-97 | the filter-and-sum total of a name with no turns is 0 |
| Totals.TotalOfSoleName | components/Scoreboard.tsx:95-97 | when every turn was played under one name, the filter-and-sum total of that name is the sum of all scores; `Totals.TotalsPartitionScores` gives the general case |
| Totals.Distinct | components/Scoreboard.tsx:94-99 | the keys of the totals record: the roster's names, each once |
| Totals.TotalsPartitionScores | components/Scoreboard.tsx:94-99 | when every turn belongs to a roster name, the totals add up to the sum of all scores, even with a name registered twice |
| Totals.SortByTotalSpec | components/Scoreboard.tsx:209-211 | sorting by total gives a permutation ordered by decreasing total that keeps names distinct |
| Totals.FinalStandings | components/Scoreboard.tsx:203-211 | the standings list every roster name exactly once with its total, highest total first |
| ScoreTable.RoundCount | components/Scoreboard.tsx:180-181 | with players, the round count is the least r with r·p ≥ n (`Math.ceil(n / p)`); with no players it is 0 (corrected form) |
| ScoreTable.RoundCountAsWritten | components/Scoreboard.tsx:180-181 | with players, the source's round count agrees with `RoundCount` |
| ScoreTable.EmptyRosterTableNeverEnds | components/Scoreboard.tsx:180-183 | as written, with no players and a non-empty log, the row loop has not exited after any number of steps |
| ScoreTable.TableAlwaysEnds | components/Scoreboard.tsx:180-191 | with the corrected round count, the row loop exits after exactly `RoundCount` rows for every roster, empty included |
| ScoreTable.Table | components/Scoreboard.tsx:180-191 | one row per round; each row has the round number, then for each player the score of that turn or `-` if it is unplayed |
| ScoreTable.TotalsRow | components/Scoreboard.tsx:194-200 | the totals row is "Total" followed by one total per roster player, in roster order. Its partner `ScoreTable.ColumnSumIsTotal` ties each total to the column above it |
| ScoreTable.CellEntry | components/Scoreboard.tsx:215-221 | a tap yields an entry exactly when it is not in the round-number column and its turn index r·p + c − 1 has been played, and the entry is the turn at that index. Its partner `ScoreTable.CellPressMatchesTable` ties it to the cell shown |
| ScoreTable.EveryEntryShown | components/Scoreboard.tsx:180-191 | turn k appears in row k div p, column k mod p + 1, showing its score |
| ScoreTable.CellPressMatchesTable | components/Scoreboard.tsx:215-221 | a tap selects an entry exactly on a numeric cell, and that entry's score is the number shown; with round-robin turns, the entry is the column player's |
| ScoreTable.ColumnSumIsTotal | components/Scoreboard.tsx:194-200 | with round-robin turns and distinct names, the numbers in a player's column add up to that player's entry in the totals row |
| Scoreboard.FirstReaching | components/Scoreboard.tsx:101-107 | the first roster position whose total reaches the target, with every earlier player below it |
| Scoreboard.GameStatus | components/Scoreboard.tsx:93-110 | over exactly when some total reaches the target; the winner is the first such player in roster order; otherwise the winner is "" |
| Scoreboard.SwitchPlayer | components/Scoreboard.tsx:167-170 | the turn passes to the next player, wrapping to the first after the last; nothing changes once the game is over |
| Scoreboard.AddScoreEntry | components/Scoreboard.tsx:155-165 | when over, nothing changes; otherwise exactly one entry is appended with id n + 1 for the current player, earlier entries are untouched and the turn passes on |
| Scoreboard.ReplaceById | components/Scoreboard.tsx:174 | each entry is replaced by the edited one exactly when their ids match; the length is kept |
| Scoreboard.EditChangesExactlyOne | components/Scoreboard.tsx:173-176 | with positional ids, an edit replaces the single entry at its id's position; an unknown id changes nothing |
| Scoreboard.SaveEditedEntry | components/Scoreboard.tsx:173-176 | the edited entry replaces its id's entry and the dialog closes; turn, over and winner are kept |
| Scoreboard.CellPress | components/Scoreboard.tsx:215-221 | a tap on a played turn opens that entry in the dialog; any other tap leaves the board unchanged |
| Scoreboard.Run | components/Scoreboard.tsx:155-221 | any sequence of turns, taps, saves and cancels keeps the board valid: positional ids, round-robin turns, turn index = log length mod p, an up-to-date status, and the dialog on a logged entry |
| Scoreboard.StepKeepsValid | components/Scoreboard.tsx:155-221 | every single user action keeps the board valid |
| Scoreboard.InitialValid | components/Scoreboard.tsx:41-45 | a fresh board is valid for any non-empty roster |
| Scoreboard.NoTurnsAfterGameOver | components/Scoreboard.tsx:155-156 | once the game is over, ending a turn changes nothing |
| Scoreboard.BlankTurnIsFarkle | components/Scoreboard.tsx:155-165 | ending a turn with a blank score appends a 0-point "Farkle" entry for the player on turn, with the next id |
| Scoreboard.RejectedTurnChangesNothing | components/Scoreboard.tsx:155-165 | an unparsable score leaves the board exactly as it was |
| Scoreboard.ArchiveRecord | components/Scoreboard.tsx:117-137 | the archived record carries the winner, roster, target and full log; its standings list every roster name exactly once (as many entries as distinct names), with correct totals, sorted by decreasing total |
| Scoreboard.SaveGameHistory | components/Scoreboard.tsx:113-152 | nothing is written while the game runs or when the stored history cannot be read or parsed, because the failure is caught; otherwise the record is appended after the stored games, or starts a new list when nothing is stored |
| History.LoadHistory | components/HistoryPage.tsx:38-53 | the list stays empty when nothing is stored or the stored value cannot be read or parsed; otherwise it is the stored list |
| History.HistoryList | components/HistoryPage.tsx:164-168 | the no-history notice shows exactly when the list is empty; otherwise every game is listed in stored order |
| History.SavedGameIsListed | components/Scoreboard.tsx:139-147 | with a usable stored history, a game saved when it ends is loaded on the history page after every earlier game, and the no-history notice no longer shows; with an unusable one, nothing is written and the notice still shows |
| History.GameDetails | components/HistoryPage.tsx:71-93 | the details dialog's loops build exactly the scoreboard's table and totals row for the game's roster and log |
| History.BuildTable | components/HistoryPage.tsx:73-84 | the nested row loops build exactly `ScoreTable.Table` for the roster and log |
| History.BuildTotals | components/HistoryPage.tsx:87-93 | the totals loop builds exactly `ScoreTable.TotalsRow` |
| History.PlayerTotal | components/HistoryPage.tsx:89-91 | the filter-and-reduce loop computes exactly `Totals.Total` of the name |
| App.HandlerEffects | App.tsx:18-55 | the page and resume flag each handler sets; setup completion stores exactly the given roster and target; Restart returns to the launch state |
| App.NavigateKeepsInv | App.tsx:13-105 | on every reachable state: the target is never 0; resume is set only on the scoreboard; a new game's scoreboard has a non-empty roster of registered names |
| App.NewBoardIsValid | App.tsx:41-47 | every new-game scoreboard the app can reach starts from a valid board |
| App.ContinueAtLaunchHasNoRoster | App.tsx:13-34 | Continue Game right after launch shows the scoreboard with an empty roster, where a non-empty stored log makes the round count +Infinity |
| App.WinnerNamedIffOver | components/Scoreboard.tsx:101-109 | with registered names, a settled board names a winner exactly when the game is over |
| App.NonPositiveTargetEndsAtOnce | components/Scoreboard.tsx:101-105 | a target at or below 0 makes the game over before the first turn, won by the first player |

## Left out

- Storage: AsyncStorage reads and writes, JSON encoding, and the `GAME_STATE` save and restore are not modelled. The content of the history key is a parameter (`Records.HistoryKey`): nothing stored, a value that cannot be used, or a list of games. A stored JSON value that parses but is not a list is treated as unusable; in the source, the page would try to render it as a list.
- Restored game state is not modelled: the `|| []` and `|| 0` defaults of the load effect are left out. A restored state is not checked against `Scoreboard.Valid`.
- Effect timing and re-runs are not modelled. This includes the history effect writing the same record again when its dependencies change while the game is over. The model appends one record per game-over save.
- Clocks are not modelled: the history record's `Date.now()` id and locale date string are left out.
- Layout is not modelled: column widths from `Dimensions`, styles and theming, the Header, GameOverModal and StatsModal are rendering only.
- ClearData (`AsyncStorage.clear`) is left out because it only touches storage.
- JsText.ParseInt: models integers only. It leaves out floating-point rounding above 2^53, `-0`, `Infinity`, and exponent notation in `toString`.
- Totals.FinalStandings: does not state the order among equal totals. That order depends on `Object.entries` key order, where integer-like names come first, and on sort stability.
- Totals.Total: matches by name. A player named `__proto__` is not modelled: a plain object does not store a number under that key.
- Scoreboard.AddScoreEntry: requires the turn index to be in range, or the game to be over. With an empty roster, the source records an `undefined` player and moves to a NaN index. The source does reach that case: see the finding below and `App.ContinueAtLaunchHasNoRoster`. With an empty log there, one End Turn press records such an entry, and the next render's row loop never ends. What keeps the empty roster out of the model is `Scoreboard.Valid`, which `App.NewBoardIsValid` establishes for new games only.
- Scoreboard.SwitchPlayer: has the same precondition, for the same reason.
- History.BuildTable: uses the corrected `ScoreTable.RoundCount`. The history dialog computes `Math.ceil(scores.length / numPlayers)` just as the scoreboard does, so the finding below applies to it too, for a stored game with no players and a non-empty log.

## Findings

| source | as written | input that shows it | evidently intended | confidence | as-written member | corrected member |
|---|---|---|---|---|---|---|
| components/Scoreboard.tsx:180-183 | `numRounds = Math.ceil(scores.length / numPlayers)` with `numPlayers` 0 is `+Infinity`, so `for (r = 0; r < numRounds; r++)` never exits | launch the app, press Continue Game while a game with at least one turn is saved: the roster is `[]` and the log is non-empty | no rounds (or no table) when there are no players | medium, not executed | ScoreTable.EmptyRosterTableNeverEnds | ScoreTable.TableAlwaysEnds |

The same round-count expression appears in components/HistoryPage.tsx:74. There it needs a stored game with an empty roster and a non-empty log. The app writes a record only once some roster player has reached the target, so it never writes such a game itself.
