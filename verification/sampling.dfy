/** The public random-quote endpoints. `ORDER BY RANDOM()` is modelled by a shuffle
    parameter: a permutation of the positions of the approved rows, in the order the
    database happens to return them. */
module Sampling {
  import opened Wrappers
  import M = Moderation
  import C = Counters

  const MinBatch := 1
  const MaxBatch := 50

  /** The message shown when no quote has been approved yet. */
  const EmptyMessage := "暂无语句，欢迎提交！"
  const SystemAuthor := "系统"

  datatype Quote = Quote(content: string, author: string)

  /** A reply together with the counters after the call. */
  datatype Served<T> = Served(counters: C.Counters, body: T)

  /** `{'count': len(sentences), 'sentences': sentences}`. */
  datatype Batch = Batch(count: nat, sentences: seq<Quote>)

  /** The count after `if count > 50: count = 50` and `if count < 1: count = 1`. */
  function ClampCount(count: int): (r: int)
    ensures MinBatch <= r <= MaxBatch
    ensures MinBatch <= count <= MaxBatch ==> r == count
    ensures count > MaxBatch ==> r == MaxBatch
    ensures count < MinBatch ==> r == MinBatch
  {
    var capped := if count > MaxBatch then MaxBatch else count;
    if capped < MinBatch then MinBatch else capped
  }

  /** Clamping twice is clamping once, and clamping never reverses the order of counts. */
  lemma ClampStable(a: int, b: int)
    ensures ClampCount(ClampCount(a)) == ClampCount(a)
    ensures a <= b ==> ClampCount(a) <= ClampCount(b)
  {
  }

  /** The rows with `status='approved'`, in table order. */
  function ApprovedRows(rows: seq<M.Row>): (r: seq<M.Row>)
    ensures |r| <= |rows|
    ensures forall k :: 0 <= k < |r| ==> r[k].status == M.Approved
    ensures forall row :: row in r <==> row in rows && row.status == M.Approved
  {
    if rows == [] then []
    else (if rows[0].status == M.Approved then [rows[0]] else []) + ApprovedRows(rows[1..])
  }

  /** `order` lists each of the positions `0..n-1` exactly once. */
  predicate IsShuffle(order: seq<nat>, n: nat) {
    && |order| == n
    && (forall k :: 0 <= k < |order| ==> order[k] < n)
    && (forall j, k :: 0 <= j < k < |order| ==> order[j] != order[k])
  }

  function QuoteOf(row: M.Row): Quote {
    Quote(row.content, row.author)
  }

  /** The first `n` rows in shuffled order. */
  function Pick(rows: seq<M.Row>, order: seq<nat>, n: nat): (r: seq<Quote>)
    requires n <= |order| && forall k :: 0 <= k < |order| ==> order[k] < |rows|
    ensures |r| == n
    ensures forall k :: 0 <= k < n ==> r[k] == QuoteOf(rows[order[k]])
  {
    if n == 0 then [] else Pick(rows, order, n - 1) + [QuoteOf(rows[order[n - 1]])]
  }

  /** `/api/random/<count>`: records an API call, then returns as many distinct approved
      quotes as the clamped count allows, and reports their number as `count`. */
  function GetMultipleRandomSentences(s: M.Store, c: C.Counters, today: string, count: int, order: seq<nat>): (r: Served<Batch>)
    requires IsShuffle(order, |ApprovedRows(s.rows)|)
    ensures r.counters == C.RecordApiCall(c, today)
    ensures r.body.count == |r.body.sentences|
    ensures |r.body.sentences| <= ClampCount(count)
    ensures |r.body.sentences| == if |ApprovedRows(s.rows)| < ClampCount(count) then |ApprovedRows(s.rows)| else ClampCount(count)
    ensures forall k :: 0 <= k < |r.body.sentences| ==>
      r.body.sentences[k] == QuoteOf(ApprovedRows(s.rows)[order[k]])
    ensures forall q :: q in r.body.sentences ==>
      exists row :: row in s.rows && row.status == M.Approved && QuoteOf(row) == q
  {
    var approved := ApprovedRows(s.rows);
    var limit := ClampCount(count);
    var n := if |approved| < limit then |approved| else limit;
    var picked := Pick(approved, order, n);
    assert forall q :: q in picked ==> exists row :: row in s.rows && row.status == M.Approved && QuoteOf(row) == q by {
      forall q | q in picked
        ensures exists row :: row in s.rows && row.status == M.Approved && QuoteOf(row) == q
      {
        var k :| 0 <= k < |picked| && picked[k] == q;
        assert approved[order[k]] in approved;
      }
    }
    Served(C.RecordApiCall(c, today), Batch(|picked|, picked))
  }

  /** `/api/random`: records an API call, then returns one approved quote, or the
      placeholder quote signed by the system when none is approved. */
  function GetRandomSentence(s: M.Store, c: C.Counters, today: string, order: seq<nat>): (r: Served<Quote>)
    requires IsShuffle(order, |ApprovedRows(s.rows)|)
    ensures r.counters == C.RecordApiCall(c, today)
    ensures ApprovedRows(s.rows) == [] ==> r.body == Quote(EmptyMessage, SystemAuthor)
    ensures ApprovedRows(s.rows) != [] ==>
      exists row :: row in s.rows && row.status == M.Approved && QuoteOf(row) == r.body
  {
    var approved := ApprovedRows(s.rows);
    if approved == [] then Served(C.RecordApiCall(c, today), Quote(EmptyMessage, SystemAuthor))
    else
      assert approved[order[0]] in approved;
      Served(C.RecordApiCall(c, today), QuoteOf(approved[order[0]]))
  }
}
