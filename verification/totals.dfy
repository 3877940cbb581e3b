/** Per-player totals over the turn log and the final standings derived from
    them (components/Scoreboard.tsx, the `totals`, `totalsRow`, `finalTotals`
    and `sortedFinalScores` computations). */
module Totals {
  import opened Records

  /** A player's total: the sum of `score` over the entries played under that
      name, added up in log order. Entries are matched by name, so two players
      registered under one name share one total. */
  function Total(scores: seq<Entry>, name: string): int {
    if |scores| == 0 then 0
    else
      var last := scores[|scores| - 1];
      Total(scores[..|scores| - 1], name) + (if last.player == name then last.score else 0)
  }

  /** The sum of every entry's score, whoever played it. */
  function SumScores(scores: seq<Entry>): int {
    if |scores| == 0 then 0 else SumScores(scores[..|scores| - 1]) + scores[|scores| - 1].score
  }

  /** The sum of the totals of `names`. */
  function SumTotals(names: seq<string>, scores: seq<Entry>): int {
    if |names| == 0 then 0 else Total(scores, names[0]) + SumTotals(names[1..], scores)
  }

  /** What entry `e` adds to the totals of `names` taken together. */
  function Hits(names: seq<string>, e: Entry): int {
    if |names| == 0 then 0 else (if names[0] == e.player then e.score else 0) + Hits(names[1..], e)
  }

  /** A name that played no turn has a total of 0. */
  lemma {:induction false} TotalOfAbsentName(scores: seq<Entry>, name: string)
    requires forall k :: 0 <= k < |scores| ==> scores[k].player != name
    ensures Total(scores, name) == 0
  {
    if |scores| > 0 {
      var prefix := scores[..|scores| - 1];
      assert forall k :: 0 <= k < |prefix| ==> prefix[k] == scores[k];
      TotalOfAbsentName(prefix, name);
    }
  }

  /** When every turn was played under one name, that name's total is the
      sum of all the scores. */
  lemma {:induction false} TotalOfSoleName(scores: seq<Entry>, name: string)
    requires forall k :: 0 <= k < |scores| ==> scores[k].player == name
    ensures Total(scores, name) == SumScores(scores)
  {
    if |scores| > 0 {
      var prefix := scores[..|scores| - 1];
      assert forall k :: 0 <= k < |prefix| ==> prefix[k] == scores[k];
      TotalOfSoleName(prefix, name);
    }
  }

  /** The names of `players` with repeats dropped, each kept where it first
      occurs: the keys of the totals record built by `reduce`. `Object.entries`
      lists them in this order unless a name looks like an array index, as
      "7" does; those come first, in ascending numeric order. */
  function Distinct(players: seq<string>): (r: seq<string>)
    ensures forall x :: x in r <==> x in players
    ensures DistinctNames(r)
  {
    if |players| == 0 then []
    else
      var d := Distinct(players[..|players| - 1]);
      var x := players[|players| - 1];
      assert forall y :: y in players <==> y in players[..|players| - 1] || y == x;
      if x in d then d else d + [x]
  }

  lemma {:induction false} HitsNone(names: seq<string>, e: Entry)
    requires e.player !in names
    ensures Hits(names, e) == 0
  {
    if |names| > 0 {
      HitsNone(names[1..], e);
    }
  }

  lemma {:induction false} HitsOnce(names: seq<string>, e: Entry)
    requires DistinctNames(names) && e.player in names
    ensures Hits(names, e) == e.score
  {
    if names[0] == e.player {
      assert e.player !in names[1..];
      HitsNone(names[1..], e);
    } else {
      HitsOnce(names[1..], e);
    }
  }

  lemma {:induction false} SumTotalsLast(names: seq<string>, scores: seq<Entry>)
    requires |scores| > 0
    ensures SumTotals(names, scores)
         == SumTotals(names, scores[..|scores| - 1]) + Hits(names, scores[|scores| - 1])
  {
    if |names| > 0 {
      SumTotalsLast(names[1..], scores);
    }
  }

  lemma {:induction false} SumTotalsOfEmptyLog(names: seq<string>)
    ensures SumTotals(names, []) == 0
  {
    if |names| > 0 {
      SumTotalsOfEmptyLog(names[1..]);
    }
  }

  /** When every entry belongs to a registered player, the per-player totals
      share out the log's points exactly: nothing is lost or counted twice,
      even when a name is registered more than once. */
  lemma {:induction false} TotalsPartitionScores(players: seq<string>, scores: seq<Entry>)
    requires forall k :: 0 <= k < |scores| ==> scores[k].player in players
    ensures SumTotals(Distinct(players), scores) == SumScores(scores)
  {
    if |scores| == 0 {
      SumTotalsOfEmptyLog(Distinct(players));
    } else {
      var names := Distinct(players);
      var prefix := scores[..|scores| - 1];
      assert forall k :: 0 <= k < |prefix| ==> prefix[k] == scores[k];
      TotalsPartitionScores(players, prefix);
      SumTotalsLast(names, scores);
      assert scores[|scores| - 1].player in names;
      HitsOnce(names, scores[|scores| - 1]);
      assert SumScores(scores) == SumScores(prefix) + scores[|scores| - 1].score;
    }
  }

  predicate NonIncreasing(s: seq<Standing>) {
    forall i, j :: 0 <= i < j < |s| ==> s[i].total >= s[j].total
  }

  predicate DistinctPlayers(s: seq<Standing>) {
    forall i, j :: 0 <= i < j < |s| ==> s[i].player != s[j].player
  }

  /** Inserts `x` into a list sorted by decreasing total, ahead of the first
      standing whose total does not exceed its own. */
  function Insert(x: Standing, l: seq<Standing>): seq<Standing> {
    if |l| == 0 || l[0].total <= x.total then [x] + l else [l[0]] + Insert(x, l[1..])
  }

  /** Insertion sort by decreasing total (`sort((a, b) => b.total - a.total)`). */
  function SortByTotal(l: seq<Standing>): seq<Standing> {
    if |l| == 0 then [] else Insert(l[0], SortByTotal(l[1..]))
  }

  lemma {:induction false} InsertPermutes(x: Standing, l: seq<Standing>)
    ensures multiset(Insert(x, l)) == multiset(l) + multiset{x}
  {
    if |l| > 0 && l[0].total > x.total {
      InsertPermutes(x, l[1..]);
      assert l == [l[0]] + l[1..];
    }
  }

  lemma InsertedFrom(x: Standing, l: seq<Standing>)
    ensures forall i :: 0 <= i < |Insert(x, l)| ==> Insert(x, l)[i] == x || Insert(x, l)[i] in l
  {
    var r := Insert(x, l);
    InsertPermutes(x, l);
    forall i | 0 <= i < |r| ensures r[i] == x || r[i] in l {
      assert r[i] in multiset(r);
    }
  }

  lemma {:induction false} InsertSorted(x: Standing, l: seq<Standing>)
    requires NonIncreasing(l)
    ensures NonIncreasing(Insert(x, l))
  {
    if |l| > 0 && l[0].total > x.total {
      InsertSorted(x, l[1..]);
      InsertedFrom(x, l[1..]);
    }
  }

  lemma {:induction false} InsertKeepsPlayersDistinct(x: Standing, l: seq<Standing>)
    requires DistinctPlayers(l)
    requires forall i :: 0 <= i < |l| ==> l[i].player != x.player
    ensures DistinctPlayers(Insert(x, l))
  {
    if |l| > 0 && l[0].total > x.total {
      InsertKeepsPlayersDistinct(x, l[1..]);
      InsertedFrom(x, l[1..]);
    }
  }

  lemma {:induction false} SortedPermutation(l: seq<Standing>)
    ensures NonIncreasing(SortByTotal(l))
    ensures multiset(SortByTotal(l)) == multiset(l)
  {
    if |l| > 0 {
      SortedPermutation(l[1..]);
      assert l == [l[0]] + l[1..];
      InsertSorted(l[0], SortByTotal(l[1..]));
      InsertPermutes(l[0], SortByTotal(l[1..]));
    }
  }

  lemma {:induction false} SortKeepsPlayersDistinct(l: seq<Standing>)
    requires DistinctPlayers(l)
    ensures DistinctPlayers(SortByTotal(l))
  {
    if |l| > 0 {
      var rest := SortByTotal(l[1..]);
      SortKeepsPlayersDistinct(l[1..]);
      SortedPermutation(l[1..]);
      forall i | 0 <= i < |rest| ensures rest[i].player != l[0].player {
        assert rest[i] in multiset(l[1..]);
      }
      InsertKeepsPlayersDistinct(l[0], rest);
    }
  }

  /** Sorting yields a permutation ordered by decreasing total, and keeps
      player names distinct when they were. */
  lemma SortByTotalSpec(l: seq<Standing>)
    ensures NonIncreasing(SortByTotal(l))
    ensures multiset(SortByTotal(l)) == multiset(l)
    ensures DistinctPlayers(l) ==> DistinctPlayers(SortByTotal(l))
  {
    SortedPermutation(l);
    if DistinctPlayers(l) {
      SortKeepsPlayersDistinct(l);
    }
  }

  /** One standing per distinct name, in first-occurrence order. */
  function Unsorted(names: seq<string>, scores: seq<Entry>): (r: seq<Standing>)
    ensures |r| == |names|
    ensures forall i :: 0 <= i < |names| ==> r[i] == Standing(names[i], Total(scores, names[i]))
  {
    if |names| == 0 then [] else [Standing(names[0], Total(scores, names[0]))] + Unsorted(names[1..], scores)
  }

  /** A permutation has the same length and the same members. */
  lemma PermutationMembers(u: seq<Standing>, r: seq<Standing>)
    requires multiset(r) == multiset(u)
    ensures |r| == |u|
    ensures forall i :: 0 <= i < |r| ==> r[i] in u
    ensures forall k :: 0 <= k < |u| ==> u[k] in r
  {
    assert |multiset(r)| == |multiset(u)|;
    forall i | 0 <= i < |r| ensures r[i] in u {
      assert r[i] in multiset(r);
    }
    forall k | 0 <= k < |u| ensures u[k] in r {
      assert u[k] in multiset(u);
    }
  }

  /** The final standings: every registered name exactly once with its total,
      ordered from the highest total down. */
  function FinalStandings(players: seq<string>, scores: seq<Entry>): (r: seq<Standing>)
    ensures NonIncreasing(r)
    ensures DistinctPlayers(r)
    ensures |r| == |Distinct(players)|
    ensures forall i :: 0 <= i < |r| ==> r[i].player in players && r[i].total == Total(scores, r[i].player)
    ensures forall name :: name in players ==> exists i :: 0 <= i < |r| && r[i].player == name
  {
    var names := Distinct(players);
    var u := Unsorted(names, scores);
    var r := SortByTotal(u);
    SortByTotalSpec(u);
    PermutationMembers(u, r);
    StandingsCover(players, names, u, r);
    r
  }

  lemma StandingsCover(players: seq<string>, names: seq<string>, u: seq<Standing>, r: seq<Standing>)
    requires forall x :: x in names <==> x in players
    requires |u| == |names|
    requires forall k :: 0 <= k < |names| ==> u[k].player == names[k]
    requires forall i :: 0 <= i < |r| ==> r[i] in u
    requires forall k :: 0 <= k < |u| ==> u[k] in r
    ensures forall i :: 0 <= i < |r| ==> r[i].player in players
    ensures forall name :: name in players ==> exists i :: 0 <= i < |r| && r[i].player == name
  {
    forall i | 0 <= i < |r| ensures r[i].player in players {
      var k :| 0 <= k < |u| && u[k] == r[i];
      assert names[k] in players;
    }
    forall name | name in players ensures exists i :: 0 <= i < |r| && r[i].player == name {
      var k :| 0 <= k < |names| && names[k] == name;
      assert u[k] in r;
    }
  }
}
