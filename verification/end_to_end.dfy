/** Properties that join the browser script to the server: what the copy controller
    does with a batch the server actually serves, and what the dashboard shows for a
    listing the server actually returns. */
module EndToEnd {
  import opened Wrappers
  import M = Moderation
  import S = Sampling
  import B = BatchCopy
  import V = ClientViews
  import C = Counters

  /** `data.sentences.map(item => item.content)`. */
  function Contents(quotes: seq<S.Quote>): (r: seq<string>)
    ensures |r| == |quotes|
    ensures forall k :: 0 <= k < |r| ==> r[k] == quotes[k].content
  {
    if quotes == [] then [] else [quotes[0].content] + Contents(quotes[1..])
  }

  /** The strings the dashboard compares against `'pending'`: `status` of each listed row. */
  function StatusNames(rows: seq<M.Row>): (r: seq<string>)
    ensures |r| == |rows|
    ensures forall k :: 0 <= k < |r| ==> r[k] == M.StatusName(rows[k].status)
  {
    if rows == [] then [] else [M.StatusName(rows[0].status)] + StatusNames(rows[1..])
  }

  /** Counting `'pending'` strings in the browser agrees with the server's `COUNT(*)`. */
  lemma {:induction false} PendingCountAgrees(rows: seq<M.Row>)
    ensures V.PendingCount(StatusNames(rows)) == M.CountPending(rows)
  {
    if rows != [] {
      PendingCountAgrees(rows[1..]);
      assert StatusNames(rows)[1..] == StatusNames(rows[1..]);
    }
  }

  /** The batch the client requests for a count it accepted. The counters and the date
      play no part in the batch's contents, so any values will do. */
  function ServedItems(s: M.Store, count: int, order: seq<nat>): (items: seq<string>)
    requires B.MinCount <= count <= B.MaxCount
    requires S.IsShuffle(order, |S.ApprovedRows(s.rows)|)
    ensures |items| <= count
    ensures |items| == if |S.ApprovedRows(s.rows)| < count then |S.ApprovedRows(s.rows)| else count
    ensures forall k :: 0 <= k < |items| ==>
      exists row :: row in s.rows && row.status == M.Approved && row.content == items[k]
  {
    var batch := S.GetMultipleRandomSentences(s, C.NoCounts, "", count, order).body;
    var items := Contents(batch.sentences);
    assert forall k :: 0 <= k < |items| ==>
      exists row :: row in s.rows && row.status == M.Approved && row.content == items[k] by {
      forall k | 0 <= k < |items|
        ensures exists row :: row in s.rows && row.status == M.Approved && row.content == items[k]
      {
        assert batch.sentences[k] in batch.sentences;
        var row :| row in s.rows && row.status == M.Approved && S.QuoteOf(row) == batch.sentences[k];
      }
    }
    items
  }

  /** Whatever happens during a run on a batch the server served, the bar never passes
      100%, every write copies an approved quote, the "no items" alert appears exactly when
      nothing is approved, and an undisturbed run reaches 100% exactly when at least
      `count` quotes are approved. */
  lemma ServedBatchFitsProgressBar(ui: B.Ui, s: M.Store, count: int, order: seq<nat>, env: B.Env)
    requires !ui.active && B.MinCount <= count <= B.MaxCount
    requires S.IsShuffle(order, |S.ApprovedRows(s.rows)|)
    requires |ServedItems(s, count, order)| <= |env.steps|
    ensures var items := ServedItems(s, count, order);
      var r := B.StartBatchCopy(ui, Some(count), Success(items), env);
      && 0 <= r.ui.percentage <= 100
      && (r.ending == B.NoItems <==> S.ApprovedRows(s.rows) == [])
      && (forall w :: w in B.Writes(r.effects) ==>
            exists row :: row in s.rows && row.status == M.Approved && row.content == w)
      && (B.Undisturbed(env, |items|) && items != [] ==>
            (r.ui.percentage == 100 <==> |S.ApprovedRows(s.rows)| >= count))
  {
    ServedBarAndEnding(ui, s, count, order, env);
    ServedWritesApproved(ui, s, count, order, env);
    ServedUndisturbedFull(ui, s, count, order, env);
  }

  /** The bar stays within 100% and the "no items" ending means nothing is approved. */
  lemma ServedBarAndEnding(ui: B.Ui, s: M.Store, count: int, order: seq<nat>, env: B.Env)
    requires !ui.active && B.MinCount <= count <= B.MaxCount
    requires S.IsShuffle(order, |S.ApprovedRows(s.rows)|)
    requires |ServedItems(s, count, order)| <= |env.steps|
    ensures var r := B.StartBatchCopy(ui, Some(count), Success(ServedItems(s, count, order)), env);
      && 0 <= r.ui.percentage <= 100
      && (r.ending == B.NoItems <==> S.ApprovedRows(s.rows) == [])
  {
    var items := ServedItems(s, count, order);
    var r := B.StartBatchCopy(ui, Some(count), Success(items), env);
    assert |B.ExpectedReports(0, r.ui.current, count)| == r.ui.current;
    assert r.ui.current <= |B.Writes(r.effects)| <= |items|;
  }

  /** Every write copies the content of an approved quote. */
  lemma ServedWritesApproved(ui: B.Ui, s: M.Store, count: int, order: seq<nat>, env: B.Env)
    requires !ui.active && B.MinCount <= count <= B.MaxCount
    requires S.IsShuffle(order, |S.ApprovedRows(s.rows)|)
    requires |ServedItems(s, count, order)| <= |env.steps|
    ensures var r := B.StartBatchCopy(ui, Some(count), Success(ServedItems(s, count, order)), env);
      forall w :: w in B.Writes(r.effects) ==>
        exists row :: row in s.rows && row.status == M.Approved && row.content == w
  {
    var items := ServedItems(s, count, order);
    var writes := B.Writes(B.StartBatchCopy(ui, Some(count), Success(items), env).effects);
    assert |writes| <= |items|;
    forall w | w in writes
      ensures exists row :: row in s.rows && row.status == M.Approved && row.content == w
    {
      var k :| 0 <= k < |writes| && writes[k] == w;
      assert items[k] == w;
    }
  }

  /** An undisturbed run reaches 100% exactly when at least `count` quotes are approved. */
  lemma ServedUndisturbedFull(ui: B.Ui, s: M.Store, count: int, order: seq<nat>, env: B.Env)
    requires !ui.active && B.MinCount <= count <= B.MaxCount
    requires S.IsShuffle(order, |S.ApprovedRows(s.rows)|)
    requires |ServedItems(s, count, order)| <= |env.steps|
    ensures var items := ServedItems(s, count, order);
      var r := B.StartBatchCopy(ui, Some(count), Success(items), env);
      B.Undisturbed(env, |items|) && items != [] ==>
        (r.ui.percentage == 100 <==> |S.ApprovedRows(s.rows)| >= count)
  {
    var items := ServedItems(s, count, order);
    if B.Undisturbed(env, |items|) && items != [] {
      B.HappyPath(ui, count, items, env);
    }
  }

  /** With the "all" filter, the dashboard's pending badge, the approve-all button and the
      approve-all endpoint agree: the button is disabled exactly when approving all would
      approve nothing, and otherwise shows the number it will approve. */
  lemma ApproveAllButtonMatchesServer(s: M.Store)
    ensures var listed := M.ListSentences(s, true, "all").reply.rows;
      var button := V.ApproveAllButtonFor(V.PendingCount(StatusNames(listed)));
      var approved := M.ApproveAllPending(s, true).reply;
      && (button.disabled <==> approved == M.ApprovedAll(0))
      && (!button.disabled ==> button.caption == V.ApproveAll(approved.count))
  {
    PendingCountAgrees(s.rows);
  }

  /** With a status filter other than "all" and "pending", the listing holds no pending
      row, so the button is disabled even while the server still has pending quotes. */
  lemma FilteredListingDisablesButton(s: M.Store, filter: string)
    requires filter != "all" && filter != V.Pending
    ensures var listed := M.ListSentences(s, true, filter).reply.rows;
      V.ApproveAllButtonFor(V.PendingCount(StatusNames(listed))).disabled
  {
    var listed := M.ListSentences(s, true, filter).reply.rows;
    var names := StatusNames(listed);
    forall k | 0 <= k < |names| ensures names[k] != V.Pending {
      assert listed[k] in listed;
    }
  }
}
