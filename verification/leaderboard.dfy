/** The public leaderboard: approved quotes grouped by author, the anonymous and system
    signatures left out, ordered by count descending, cut to a limit and ranked from 1.
    Authors with equal counts may come in any order; the model fixes one. */
module Leaderboard {
  import opened Wrappers
  import M = Moderation
  import S = Sampling

  /** The `limit` used when the query argument is missing or not an integer. */
  const DefaultLimit := 20

  /** A row the grouped query counts. */
  predicate Eligible(row: M.Row) {
    row.status == M.Approved && row.author != M.Anonymous && row.author != S.SystemAuthor
  }

  predicate DistinctNames(names: seq<string>) {
    forall j, k :: 0 <= j < k < |names| ==> names[j] != names[k]
  }

  /** The `GROUP BY author` groups: each author of an eligible row, once, in order of
      first appearance. */
  function Authors(rows: seq<M.Row>): (r: seq<string>)
    ensures DistinctNames(r)
    ensures |r| <= |rows|
    ensures forall a :: a in r <==> exists k :: 0 <= k < |rows| && Eligible(rows[k]) && rows[k].author == a
  {
    if rows == [] then []
    else
      var front := rows[..|rows| - 1];
      var last := rows[|rows| - 1];
      var rest := Authors(front);
      assert forall k :: 0 <= k < |front| ==> front[k] == rows[k];
      if Eligible(last) && last.author !in rest then rest + [last.author] else rest
  }

  /** `COUNT(*)` of the approved rows signed `author`. */
  function Submissions(rows: seq<M.Row>, author: string): (n: nat)
    ensures n <= |rows|
  {
    if rows == [] then 0
    else (if rows[0].status == M.Approved && rows[0].author == author then 1 else 0) + Submissions(rows[1..], author)
  }

  /** Every author in a group has at least one approved quote. */
  lemma {:induction false} SubmissionsPositive(rows: seq<M.Row>, k: nat)
    requires k < |rows| && rows[k].status == M.Approved
    ensures Submissions(rows, rows[k].author) >= 1
  {
    if k > 0 {
      SubmissionsPositive(rows[1..], k - 1);
    }
  }

  datatype Tally = Tally(author: string, count: nat)

  predicate DistinctAuthors(ts: seq<Tally>) {
    forall j, k :: 0 <= j < k < |ts| ==> ts[j].author != ts[k].author
  }

  /** `ORDER BY submission_count DESC`. */
  predicate SortedDesc(ts: seq<Tally>) {
    forall j, k :: 0 <= j < k < |ts| ==> ts[j].count >= ts[k].count
  }

  /** One tally per group. */
  function Tallies(rows: seq<M.Row>, authors: seq<string>): (r: seq<Tally>)
    ensures |r| == |authors|
    ensures forall k :: 0 <= k < |r| ==> r[k] == Tally(authors[k], Submissions(rows, authors[k]))
  {
    if authors == [] then []
    else [Tally(authors[0], Submissions(rows, authors[0]))] + Tallies(rows, authors[1..])
  }

  /** Puts `t` into a descending list after every tally with at least its count. */
  function InsertByCount(t: Tally, ts: seq<Tally>): (r: seq<Tally>)
    requires SortedDesc(ts)
    ensures |r| == |ts| + 1
    ensures multiset(r) == multiset(ts) + multiset{t}
    ensures forall x :: x in r <==> x == t || x in ts
    ensures SortedDesc(r)
  {
    if ts == [] || ts[0].count < t.count then [t] + ts
    else
      var rest := InsertByCount(t, ts[1..]);
      InsertStep(t, ts, rest);
      [ts[0]] + rest
  }

  /** The recursive case of `InsertByCount`: `ts[0]` goes in front of the insertion into
      the rest. */
  lemma InsertStep(t: Tally, ts: seq<Tally>, rest: seq<Tally>)
    requires SortedDesc(ts) && ts != [] && ts[0].count >= t.count
    requires multiset(rest) == multiset(ts[1..]) + multiset{t}
    requires SortedDesc(rest)
    ensures multiset([ts[0]] + rest) == multiset(ts) + multiset{t}
    ensures SortedDesc([ts[0]] + rest)
  {
    assert ts == [ts[0]] + ts[1..];
    forall k | 0 <= k < |rest| ensures ts[0].count >= rest[k].count {
      assert rest[k] in multiset(rest);
      if rest[k] != t {
        assert rest[k] in multiset(ts[1..]);
        var i :| 0 <= i < |ts[1..]| && ts[1..][i] == rest[k];
        assert ts[i + 1] == rest[k];
      }
    }
  }

  /** Inserting a tally for a new author keeps the authors distinct. */
  lemma {:induction false} InsertKeepsDistinct(t: Tally, ts: seq<Tally>)
    requires SortedDesc(ts) && DistinctAuthors(ts)
    requires forall x :: x in ts ==> x.author != t.author
    ensures DistinctAuthors(InsertByCount(t, ts))
  {
    if ts != [] && ts[0].count >= t.count {
      assert forall x :: x in ts[1..] ==> x in ts;
      InsertKeepsDistinct(t, ts[1..]);
      DistinctStep(t, ts, InsertByCount(t, ts[1..]));
    }
  }

  /** The recursive case of `InsertKeepsDistinct`: `ts[0]` differs in author from every
      tally of the insertion into the rest. */
  lemma DistinctStep(t: Tally, ts: seq<Tally>, rest: seq<Tally>)
    requires ts != [] && DistinctAuthors(ts)
    requires forall x :: x in ts ==> x.author != t.author
    requires multiset(rest) == multiset(ts[1..]) + multiset{t}
    requires DistinctAuthors(rest)
    ensures DistinctAuthors([ts[0]] + rest)
  {
    forall k | 0 <= k < |rest| ensures rest[k].author != ts[0].author {
      assert rest[k] in multiset(rest);
      if rest[k] != t {
        assert rest[k] in multiset(ts[1..]);
        var i :| 0 <= i < |ts[1..]| && ts[1..][i] == rest[k];
        assert ts[i + 1] == rest[k];
      }
    }
  }

  /** Insertion sort by count, descending. */
  function SortByCount(ts: seq<Tally>): (r: seq<Tally>)
    ensures |r| == |ts|
    ensures multiset(r) == multiset(ts)
    ensures forall x :: x in r <==> x in ts
    ensures SortedDesc(r)
  {
    if ts == [] then []
    else
      assert ts == [ts[0]] + ts[1..];
      assert forall x :: x in ts <==> x == ts[0] || x in ts[1..];
      InsertByCount(ts[0], SortByCount(ts[1..]))
  }

  /** Sorting tallies with distinct authors keeps them distinct. */
  lemma {:induction false} SortKeepsDistinct(ts: seq<Tally>)
    requires DistinctAuthors(ts)
    ensures DistinctAuthors(SortByCount(ts))
  {
    if ts != [] {
      var rest := SortByCount(ts[1..]);
      SortKeepsDistinct(ts[1..]);
      forall x | x in rest ensures x.author != ts[0].author {
        var i :| 0 <= i < |ts[1..]| && ts[1..][i] == x;
        assert ts[i + 1] == x;
      }
      InsertKeepsDistinct(ts[0], rest);
    }
  }

  /** `LIMIT ?`: a negative limit means no limit. */
  function Take(ts: seq<Tally>, limit: int): (r: seq<Tally>)
    ensures r <= ts
    ensures limit < 0 ==> r == ts
    ensures limit >= 0 ==> |r| == if limit < |ts| then limit else |ts|
  {
    if limit < 0 || limit >= |ts| then ts else ts[..limit]
  }

  datatype Entry = Entry(rank: nat, author: string, count: nat)

  /** `enumerate(results, 1)`. */
  function Ranked(ts: seq<Tally>): (r: seq<Entry>)
    ensures |r| == |ts|
    ensures forall k :: 0 <= k < |r| ==> r[k] == Entry(k + 1, ts[k].author, ts[k].count)
  {
    if ts == [] then [] else Ranked(ts[..|ts| - 1]) + [Entry(|ts|, ts[|ts| - 1].author, ts[|ts| - 1].count)]
  }

  datatype Board = Board(entries: seq<Entry>, totalApproved: nat, totalAuthors: nat, top: nat)

  /** The sorted groups the query orders before the limit applies: one per group, each
      with its author's true count. */
  function Standings(rows: seq<M.Row>): (r: seq<Tally>)
    ensures |r| == |Authors(rows)|
    ensures SortedDesc(r) && DistinctAuthors(r)
    ensures forall k :: 0 <= k < |r| ==> r[k].author in Authors(rows) && r[k].count == Submissions(rows, r[k].author)
  {
    var authors := Authors(rows);
    var ts := Tallies(rows, authors);
    SortKeepsDistinct(ts);
    var r := SortByCount(ts);
    assert forall k :: 0 <= k < |r| ==> r[k].author in authors && r[k].count == Submissions(rows, r[k].author) by {
      forall k | 0 <= k < |r| ensures r[k].author in authors && r[k].count == Submissions(rows, r[k].author) {
        assert r[k] in r;
        var i :| 0 <= i < |ts| && ts[i] == r[k];
      }
    }
    r
  }

  /** Every named author with approved quotes has a place in the standings. */
  lemma StandingsCoverAuthors(rows: seq<M.Row>, a: string)
    requires a in Authors(rows)
    ensures exists k :: 0 <= k < |Standings(rows)| && Standings(rows)[k].author == a
  {
    var authors := Authors(rows);
    var ts := Tallies(rows, authors);
    var r := SortByCount(ts);
    assert r == Standings(rows);
    var i :| 0 <= i < |authors| && authors[i] == a;
    assert ts[i] in ts;
    var k :| 0 <= k < |r| && r[k] == ts[i];
  }

  /** The ranked entries shown for a limit: the first standings, numbered from 1. */
  function Shown(standings: seq<Tally>, limit: int): (e: seq<Entry>)
    ensures |e| == |Take(standings, limit)|
    ensures forall k :: 0 <= k < |e| ==> e[k] == Entry(k + 1, standings[k].author, standings[k].count)
  {
    var shown := Take(standings, limit);
    assert forall k :: 0 <= k < |shown| ==> shown[k] == standings[k];
    Ranked(shown)
  }

  /** `/api/leaderboard?limit=`: the ranked top groups and the summary figures. */
  function GetLeaderboard(rows: seq<M.Row>, limitArg: Option<int>): (b: Board)
    ensures forall k :: 0 <= k < |b.entries| ==> b.entries[k].rank == k + 1
    ensures forall j, k :: 0 <= j < k < |b.entries| ==> b.entries[j].count >= b.entries[k].count
    ensures forall j, k :: 0 <= j < k < |b.entries| ==> b.entries[j].author != b.entries[k].author
    ensures forall k :: 0 <= k < |b.entries| ==>
      b.entries[k].author in Authors(rows) && b.entries[k].count == Submissions(rows, b.entries[k].author)
    ensures b.totalAuthors == |Authors(rows)|
    ensures b.totalApproved == |S.ApprovedRows(rows)|
    ensures limitArg.GetOr(DefaultLimit) < 0 ==> |b.entries| == b.totalAuthors
    ensures limitArg.GetOr(DefaultLimit) >= 0 ==>
      |b.entries| == if limitArg.GetOr(DefaultLimit) < b.totalAuthors then limitArg.GetOr(DefaultLimit) else b.totalAuthors
    ensures b.top == if b.entries == [] then 0 else b.entries[0].count
  {
    var entries := Shown(Standings(rows), limitArg.GetOr(DefaultLimit));
    ShownFacts(rows, limitArg.GetOr(DefaultLimit));
    Board(entries, |S.ApprovedRows(rows)|, |Authors(rows)|, if entries == [] then 0 else entries[0].count)
  }

  /** What the shown entries inherit from the standings: ranks from 1, counts descending,
      distinct authors, each with its true count, and as many as the limit allows. */
  lemma ShownFacts(rows: seq<M.Row>, limit: int)
    ensures var e := Shown(Standings(rows), limit);
      && (forall k :: 0 <= k < |e| ==> e[k].rank == k + 1)
      && (forall j, k :: 0 <= j < k < |e| ==> e[j].count >= e[k].count)
      && (forall j, k :: 0 <= j < k < |e| ==> e[j].author != e[k].author)
      && (forall k :: 0 <= k < |e| ==> e[k].author in Authors(rows) && e[k].count == Submissions(rows, e[k].author))
      && (limit < 0 ==> |e| == |Authors(rows)|)
      && (limit >= 0 ==> |e| == if limit < |Authors(rows)| then limit else |Authors(rows)|)
  {
    var standings := Standings(rows);
    var e := Shown(standings, limit);
    assert forall k :: 0 <= k < |e| ==> e[k].author == standings[k].author && e[k].count == standings[k].count;
  }

  /** No entry carries the anonymous or the system signature, and every entry counts at
      least one approved quote. */
  lemma EntriesAreNamedAuthors(rows: seq<M.Row>, limitArg: Option<int>)
    ensures forall e :: e in GetLeaderboard(rows, limitArg).entries ==>
      e.author != M.Anonymous && e.author != S.SystemAuthor && e.count >= 1
  {
    forall e | e in GetLeaderboard(rows, limitArg).entries
      ensures e.author != M.Anonymous && e.author != S.SystemAuthor && e.count >= 1
    {
      assert e.author in Authors(rows);
      var i :| 0 <= i < |rows| && Eligible(rows[i]) && rows[i].author == e.author;
      SubmissionsPositive(rows, i);
    }
  }

  /** The headline figure is at least every named author's approved count, unless a
      limit of 0 leaves the board empty. */
  lemma TopIsMaximum(rows: seq<M.Row>, limitArg: Option<int>, author: string)
    requires author in Authors(rows)
    requires limitArg.GetOr(DefaultLimit) != 0
    ensures Submissions(rows, author) <= GetLeaderboard(rows, limitArg).top
  {
    var standings := Standings(rows);
    StandingsCoverAuthors(rows, author);
    var i :| 0 <= i < |standings| && standings[i].author == author;
    assert standings[0].count >= standings[i].count;
  }

  /** An author left off a board with a non-zero limit has no more approved quotes than the last
      entry shown: the board is a true top list. */
  lemma LeftOffRankNoHigher(rows: seq<M.Row>, limitArg: Option<int>, author: string)
    requires author in Authors(rows)
    requires limitArg.GetOr(DefaultLimit) != 0
    requires forall k :: 0 <= k < |GetLeaderboard(rows, limitArg).entries| ==>
      GetLeaderboard(rows, limitArg).entries[k].author != author
    ensures var e := GetLeaderboard(rows, limitArg).entries; Submissions(rows, author) <= e[|e| - 1].count
  {
    var standings := Standings(rows);
    var e := GetLeaderboard(rows, limitArg).entries;
    StandingsCoverAuthors(rows, author);
    var i :| 0 <= i < |standings| && standings[i].author == author;
    assert e[|e| - 1].count == standings[|e| - 1].count;
  }

  /** With `limit=0` the board is empty and the top figure is 0 even when named authors
      exist. */
  lemma ZeroLimitHidesTop(rows: seq<M.Row>)
    ensures GetLeaderboard(rows, Some(0)).entries == []
    ensures GetLeaderboard(rows, Some(0)).top == 0
    ensures GetLeaderboard(rows, Some(0)).totalAuthors == |Authors(rows)|
  {
  }
}
