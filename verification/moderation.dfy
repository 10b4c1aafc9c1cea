/** The server's quote store and the handlers that change it: public submission, and the
    admin-only review, direct add, delete and approve-all endpoints.

    The `sentences` table is a sequence of rows in insertion order. The MD5 of the content
    kept in `content_hash` is abstracted as the (possibly stripped) content itself: the
    model assumes MD5 has no collisions, so two keys are equal exactly when the hashed
    strings are. The column's UNIQUE constraint is kept: an insert whose key is already
    present fails, the transaction is never committed, and Flask answers with an internal
    server error. The session is reduced to its `admin` flag. */
module Moderation {
  import opened Wrappers
  import Text

  datatype Status = Pending | Approved | Rejected

  /** The text stored in the `status` column. */
  function StatusName(s: Status): string {
    match s
    case Pending => "pending"
    case Approved => "approved"
    case Rejected => "rejected"
  }

  datatype Row = Row(id: int, content: string, author: string, status: Status,
                     reviewedBy: Option<string>, key: string)

  /** The table, and the next id `AUTOINCREMENT` hands out (ids are never reused). */
  datatype Store = Store(rows: seq<Row>, nextId: int)

  const Anonymous := "匿名"
  const ReviewerName := "admin"
  const MaxContentLength := 2000
  const MaxAuthorLength := 50

  /** What the table's constraints guarantee: ids are positive, unique and below the
      autoincrement counter; content keys are unique. */
  predicate Valid(s: Store) {
    && s.nextId >= 1
    && (forall k :: 0 <= k < |s.rows| ==> 1 <= s.rows[k].id < s.nextId)
    && DistinctIds(s.rows)
    && DistinctKeys(s.rows)
  }

  predicate DistinctIds(rows: seq<Row>) {
    forall j, k :: 0 <= j < k < |rows| ==> rows[j].id != rows[k].id
  }

  predicate DistinctKeys(rows: seq<Row>) {
    forall j, k :: 0 <= j < k < |rows| ==> rows[j].key != rows[k].key
  }

  const EmptyStore := Store([], 1)

  /** A handler's effect: the store afterwards and the reply. */
  datatype Handled = Handled(store: Store, reply: Reply)

  datatype Refusal = Unspecified | AlreadyExists | MissingId

  datatype Reply =
    | Unauthorized                  // HTTP 401
    | Ok                            // {'success': True}
    | Refused(reason: Refusal)      // {'success': False, ...}
    | ApprovedAll(count: nat)       // approve-all's {'success': True, 'approved_count': n}
    | Listed(rows: seq<Row>)        // the admin listing
    | InternalError                 // an exception Flask turns into HTTP 500

  /** The key `check_duplicate` looks up: the hash of the stripped content. */
  function DedupKey(content: string): string {
    Text.Strip(Text.Python, content)
  }

  predicate HasKey(s: Store, key: string) {
    exists k :: 0 <= k < |s.rows| && s.rows[k].key == key
  }

  /** `check_duplicate`: some row's key equals the stripped content. */
  function CheckDuplicate(s: Store, content: string): (r: bool)
    ensures r <==> exists k :: 0 <= k < |s.rows| && s.rows[k].key == DedupKey(content)
  {
    HasKey(s, DedupKey(content))
  }

  /** An `INSERT` with the given key: refused by the UNIQUE constraint if the key exists. */
  function Insert(s: Store, content: string, author: string, status: Status, key: string): (r: Result<Store, Reply>)
    ensures r.Failure? <==> HasKey(s, key)
    ensures r.Success? ==> r.value == Store(s.rows + [Row(s.nextId, content, author, status, None, key)], s.nextId + 1)
    ensures r.Success? && Valid(s) ==> Valid(r.value)
  {
    if HasKey(s, key) then Failure(InternalError)
    else Success(Store(s.rows + [Row(s.nextId, content, author, status, None, key)], s.nextId + 1))
  }

  // ---------------------------------------------------------------- submission

  datatype SubmitError = EmptyContent | ContentTooLong | AuthorTooLong | Duplicate

  datatype SubmitOutcome = Accepted | Invalid(errors: seq<SubmitError>) | Crashed

  datatype Submitted = Submitted(store: Store, outcome: SubmitOutcome)

  /** The checks of `submit_sentence`, in the order the errors are collected, on the
      already stripped content and author. */
  function SubmitErrors(s: Store, content: string, author: string): (errors: seq<SubmitError>)
    ensures EmptyContent in errors <==> |content| == 0
    ensures ContentTooLong in errors <==> |content| > MaxContentLength
    ensures AuthorTooLong in errors <==> |author| > MaxAuthorLength
    ensures Duplicate in errors <==> content != [] && CheckDuplicate(s, content)
    ensures |errors| <= 3
  {
    (if |content| == 0 then [EmptyContent] else if |content| > MaxContentLength then [ContentTooLong] else [])
    + (if |author| > MaxAuthorLength then [AuthorTooLong] else [])
    + (if content != [] && CheckDuplicate(s, content) then [Duplicate] else [])
  }

  /** A POST to `/submit` with the raw form fields (a missing field is the empty string). */
  function SubmitSentence(s: Store, rawContent: string, rawAuthor: string): (r: Submitted)
    ensures var content := Text.Strip(Text.Python, rawContent);
      var author := Text.Strip(Text.Python, rawAuthor);
      && (r.outcome.Accepted? <==> SubmitErrors(s, content, author) == [])
      && (!r.outcome.Accepted? ==> r.store == s)
      && (r.outcome.Invalid? ==> r.outcome.errors == SubmitErrors(s, content, author))
      && (r.outcome.Accepted? ==> r.store == Store(
            s.rows + [Row(s.nextId, content, if author == [] then Anonymous else author, Pending, None, content)],
            s.nextId + 1))
    // the stripped content is hashed as it is, and it was just checked not to be present
    ensures Valid(s) ==> !r.outcome.Crashed? && Valid(r.store)
    // content that is only white space is reported as empty
    ensures r.outcome.Invalid? && Text.AllSpace(Text.Python, rawContent) ==> EmptyContent in r.outcome.errors
  {
    var content := Text.Strip(Text.Python, rawContent);
    var author := Text.Strip(Text.Python, rawAuthor);
    var errors := SubmitErrors(s, content, author);
    if errors != [] then Submitted(s, Invalid(errors))
    else
      var name := if author == [] then Anonymous else author;
      Text.StripIdempotent(Text.Python, rawContent);
      match Insert(s, content, name, Pending, content)
      case Success(s') => Submitted(s', Accepted)
      case Failure(_) => Submitted(s, Crashed)
  }

  /** After a successful submission the same content counts as a duplicate, so submitting
      it again (with any author) is refused and changes nothing. */
  lemma ResubmissionRefused(s: Store, rawContent: string, rawAuthor: string, otherAuthor: string)
    requires SubmitSentence(s, rawContent, rawAuthor).outcome.Accepted?
    ensures var s' := SubmitSentence(s, rawContent, rawAuthor).store;
      && CheckDuplicate(s', rawContent)
      && SubmitSentence(s', rawContent, otherAuthor).store == s'
      && Duplicate in SubmitSentence(s', rawContent, otherAuthor).outcome.errors
  {
    var s' := SubmitSentence(s, rawContent, rawAuthor).store;
    var content := Text.Strip(Text.Python, rawContent);
    Text.StripIdempotent(Text.Python, rawContent);
    assert s'.rows[|s.rows|].key == content;
    assert CheckDuplicate(s', content);
  }

  // ---------------------------------------------------------------- admin endpoints

  /** `/api/admin/sentences`: all rows, or those whose status text equals the filter.
      The `ORDER BY submitted_at DESC` is not modelled; rows keep insertion order. */
  function ListSentences(s: Store, admin: bool, filter: string): (r: Handled)
    ensures r.store == s
    ensures !admin <==> r.reply == Unauthorized
    ensures admin ==> r.reply.Listed?
    ensures admin ==> forall row :: row in r.reply.rows <==>
                        row in s.rows && (filter == "all" || StatusName(row.status) == filter)
  {
    if !admin then Handled(s, Unauthorized)
    else if filter == "all" then Handled(s, Listed(s.rows))
    else Handled(s, Listed(Keep(s.rows, filter)))
  }

  function Keep(rows: seq<Row>, filter: string): (r: seq<Row>)
    ensures forall row :: row in r <==> row in rows && StatusName(row.status) == filter
  {
    if rows == [] then []
    else (if StatusName(rows[0].status) == filter then [rows[0]] else []) + Keep(rows[1..], filter)
  }

  /** The rows after `UPDATE ... SET status = st, reviewed_by = 'admin' WHERE id = ?`.
      A JSON `null` id matches no row. */
  function SetStatus(rows: seq<Row>, id: Option<int>, st: Status): (r: seq<Row>)
    ensures |r| == |rows|
    ensures forall k :: 0 <= k < |r| ==>
      r[k] == if id == Some(rows[k].id) then rows[k].(status := st, reviewedBy := Some(ReviewerName)) else rows[k]
  {
    if rows == [] then []
    else
      var row := rows[0];
      [if id == Some(row.id) then row.(status := st, reviewedBy := Some(ReviewerName)) else row]
        + SetStatus(rows[1..], id, st)
  }

  /** `/api/admin/review`: 'approve' or 'reject' the row with the given id; any other
      action changes nothing; the reply is a success either way, even if no row matched. */
  function ReviewSentence(s: Store, admin: bool, id: Option<int>, action: string): (r: Handled)
    ensures !admin ==> r == Handled(s, Unauthorized)
    ensures admin ==> r.reply == Ok
    ensures r.store.nextId == s.nextId && |r.store.rows| == |s.rows|
    ensures forall k :: 0 <= k < |s.rows| ==>
      var before, after := s.rows[k], r.store.rows[k];
      && after.id == before.id && after.content == before.content
      && after.author == before.author && after.key == before.key
      && (admin && id == Some(before.id) && action == "approve" ==> after.status == Approved && after.reviewedBy == Some(ReviewerName))
      && (admin && id == Some(before.id) && action == "reject" ==> after.status == Rejected && after.reviewedBy == Some(ReviewerName))
      && (!admin || id != Some(before.id) || action !in {"approve", "reject"} ==> after == before)
    ensures Valid(s) ==> Valid(r.store)
  {
    if !admin then Handled(s, Unauthorized)
    else if action == "approve" then Handled(Store(SetStatus(s.rows, id, Approved), s.nextId), Ok)
    else if action == "reject" then Handled(Store(SetStatus(s.rows, id, Rejected), s.nextId), Ok)
    else Handled(s, Ok)
  }

  /** `/api/admin/add`: an admin inserts an approved quote directly. `content` is `None`
      when the JSON body has no usable content; `author` is `None` when the key is absent.
      The duplicate check strips the content but the stored key is the unstripped content. */
  function AddSentence(s: Store, admin: bool, content: Option<string>, author: Option<string>): (r: Handled)
    ensures !admin ==> r == Handled(s, Unauthorized)
    ensures admin && (content.None? || content.value == []) ==> r == Handled(s, Refused(Unspecified))
    ensures admin && content.Some? && content.value != [] ==>
      && (CheckDuplicate(s, content.value) ==> r == Handled(s, Refused(AlreadyExists)))
      && (!CheckDuplicate(s, content.value) && HasKey(s, content.value) ==> r == Handled(s, InternalError))
      && (!CheckDuplicate(s, content.value) && !HasKey(s, content.value) ==>
            r.reply == Ok &&
            r.store == Store(s.rows + [Row(s.nextId, content.value, author.GetOr(Anonymous), Approved, None, content.value)],
                             s.nextId + 1))
    ensures Valid(s) ==> Valid(r.store)
  {
    if !admin then Handled(s, Unauthorized)
    else if content.None? || content.value == [] then Handled(s, Refused(Unspecified))
    else if CheckDuplicate(s, content.value) then Handled(s, Refused(AlreadyExists))
    else
      match Insert(s, content.value, author.GetOr(Anonymous), Approved, content.value)
      case Success(s') => Handled(s', Ok)
      case Failure(e) => Handled(s, e)
  }

  /** The rows after `DELETE FROM sentences WHERE id = ?`. */
  function RemoveId(rows: seq<Row>, id: int): (r: seq<Row>)
    ensures |r| <= |rows|
    ensures forall row :: row in r <==> row in rows && row.id != id
    ensures (forall k :: 0 <= k < |rows| ==> rows[k].id != id) ==> r == rows
  {
    if rows == [] then []
    else (if rows[0].id != id then [rows[0]] else []) + RemoveId(rows[1..], id)
  }

  /** Deleting rows keeps the ids distinct. */
  lemma {:induction false} RemoveKeepsDistinctIds(rows: seq<Row>, id: int)
    requires DistinctIds(rows)
    ensures DistinctIds(RemoveId(rows, id))
  {
    if rows != [] {
      var rest := RemoveId(rows[1..], id);
      RemoveKeepsDistinctIds(rows[1..], id);
      if rows[0].id != id {
        assert RemoveId(rows, id) == [rows[0]] + rest;
        forall k | 0 <= k < |rest| ensures rest[k].id != rows[0].id {
          assert rest[k] in rest;
          var i :| 0 <= i < |rows[1..]| && rows[1..][i] == rest[k];
          assert rows[i + 1] == rest[k];
        }
      }
    }
  }

  /** Deleting rows keeps the content keys distinct. */
  lemma {:induction false} RemoveKeepsDistinctKeys(rows: seq<Row>, id: int)
    requires DistinctKeys(rows)
    ensures DistinctKeys(RemoveId(rows, id))
  {
    if rows != [] {
      var rest := RemoveId(rows[1..], id);
      RemoveKeepsDistinctKeys(rows[1..], id);
      if rows[0].id != id {
        assert RemoveId(rows, id) == [rows[0]] + rest;
        forall k | 0 <= k < |rest| ensures rest[k].key != rows[0].key {
          assert rest[k] in rest;
          var i :| 0 <= i < |rows[1..]| && rows[1..][i] == rest[k];
          assert rows[i + 1] == rest[k];
        }
      }
    }
  }

  /** `/api/admin/delete`: a missing id, and any falsy one such as 0, is refused; any
      other id deletes the rows carrying it and succeeds even if none did. */
  function DeleteSentence(s: Store, admin: bool, id: Option<int>): (r: Handled)
    ensures !admin ==> r == Handled(s, Unauthorized)
    ensures admin && (id == None || id == Some(0)) ==> r == Handled(s, Refused(MissingId))
    ensures admin && id.Some? && id.value != 0 ==>
      && r.reply == Ok
      && r.store.nextId == s.nextId
      && (forall row :: row in r.store.rows <==> row in s.rows && row.id != id.value)
    ensures Valid(s) ==> Valid(r.store)
  {
    if !admin then Handled(s, Unauthorized)
    else if id.None? || id.value == 0 then Handled(s, Refused(MissingId))
    else
      assert Valid(s) ==> DistinctIds(RemoveId(s.rows, id.value)) && DistinctKeys(RemoveId(s.rows, id.value)) by {
        if Valid(s) {
          RemoveKeepsDistinctIds(s.rows, id.value);
          RemoveKeepsDistinctKeys(s.rows, id.value);
        }
      }
      Handled(Store(RemoveId(s.rows, id.value), s.nextId), Ok)
  }

  /** The number of pending rows: `SELECT COUNT(*) ... WHERE status='pending'`. */
  function CountPending(rows: seq<Row>): (n: nat)
    ensures n <= |rows|
    ensures n == 0 <==> forall k :: 0 <= k < |rows| ==> rows[k].status != Pending
  {
    if rows == [] then 0
    else (if rows[0].status == Pending then 1 else 0) + CountPending(rows[1..])
  }

  /** The rows after `UPDATE ... SET status='approved', reviewed_by='admin' WHERE status='pending'`. */
  function ApprovePending(rows: seq<Row>): (r: seq<Row>)
    ensures |r| == |rows|
    ensures forall k :: 0 <= k < |r| ==>
      r[k] == if rows[k].status == Pending then rows[k].(status := Approved, reviewedBy := Some(ReviewerName)) else rows[k]
  {
    if rows == [] then []
    else
      var row := rows[0];
      [if row.status == Pending then row.(status := Approved, reviewedBy := Some(ReviewerName)) else row]
        + ApprovePending(rows[1..])
  }

  /** `/api/admin/approve-all`: reports how many rows were pending, leaves none pending,
      and leaves every other row as it was; with nothing pending the store is untouched. */
  function ApproveAllPending(s: Store, admin: bool): (r: Handled)
    ensures !admin ==> r == Handled(s, Unauthorized)
    ensures admin ==> r.reply == ApprovedAll(CountPending(s.rows))
    ensures admin ==> CountPending(r.store.rows) == 0
    ensures admin && CountPending(s.rows) == 0 ==> r.store == s
    ensures r.store.nextId == s.nextId && |r.store.rows| == |s.rows|
    ensures forall k :: 0 <= k < |s.rows| ==>
      var before, after := s.rows[k], r.store.rows[k];
      && (before.status != Pending ==> after == before)
      && (admin && before.status == Pending ==>
            after == before.(status := Approved, reviewedBy := Some(ReviewerName)))
    ensures Valid(s) ==> Valid(r.store)
  {
    if !admin then Handled(s, Unauthorized)
    else
      var pending := CountPending(s.rows);
      if pending == 0 then Handled(s, ApprovedAll(0))
      else
        var approved := ApprovePending(s.rows);
        assert Valid(s) ==> Valid(Store(approved, s.nextId)) by {
          if Valid(s) { RelabelKeepsValid(s, approved); }
        }
        Handled(Store(approved, s.nextId), ApprovedAll(pending))
  }

  /** Changing the status or reviewer of rows, keeping their ids and keys, keeps the
      table valid. */
  lemma RelabelKeepsValid(s: Store, rows: seq<Row>)
    requires Valid(s) && |rows| == |s.rows|
    requires forall k :: 0 <= k < |rows| ==> rows[k].id == s.rows[k].id && rows[k].key == s.rows[k].key
    ensures Valid(Store(rows, s.nextId))
  {
  }

  // ---------------------------------------------------------------- consequences of the key split

  /** Because the admin path stores the unstripped content but checks the stripped one,
      adding " x" twice slips past the duplicate check and is stopped only by the UNIQUE
      constraint, as a server error. */
  lemma AddingPaddedContentTwiceFails()
    ensures var first := AddSentence(EmptyStore, true, Some(" x"), None);
      && first.reply == Ok
      && AddSentence(first.store, true, Some(" x"), None) == Handled(first.store, InternalError)
  {
    PaddedKeys();
    var row := Row(1, " x", Anonymous, Approved, None, " x");
    var s1 := Store([row], 2);
    assert !HasKey(EmptyStore, " x");
    assert !CheckDuplicate(EmptyStore, " x");
    assert AddSentence(EmptyStore, true, Some(" x"), None) == Handled(s1, Ok);
    assert s1.rows[0].key == " x";
    assert HasKey(s1, " x");
    assert !CheckDuplicate(s1, " x");
  }

  /** For the same reason, content an admin added with surrounding white space can be
      submitted again, stripped, as a new pending quote. */
  lemma SubmittingStrippedCopyOfPaddedContent()
    ensures var first := AddSentence(EmptyStore, true, Some(" x"), None);
      && first.reply == Ok
      && SubmitSentence(first.store, "x", "").outcome.Accepted?
      && |SubmitSentence(first.store, "x", "").store.rows| == 2
  {
    PaddedKeys();
    var row := Row(1, " x", Anonymous, Approved, None, " x");
    var s1 := Store([row], 2);
    assert !HasKey(EmptyStore, " x");
    assert !CheckDuplicate(EmptyStore, " x");
    assert AddSentence(EmptyStore, true, Some(" x"), None) == Handled(s1, Ok);
    assert s1.rows[0].key == " x";
    assert !CheckDuplicate(s1, "x");
    assert SubmitErrors(s1, "x", "") == [];
  }

  lemma PaddedKeys()
    ensures DedupKey(" x") == "x" && DedupKey("x") == "x"
    ensures Text.Strip(Text.Python, "") == ""
  {
    assert !Text.IsSpace(Text.Python, 'x');
    assert Text.LeadingSpaces(Text.Python, " x") == 1;
    assert " x"[1..] == "x";
    assert Text.TrailingSpaces(Text.Python, "x") == 0;
  }
}
