/** Small pure pieces of the browser script: the font-size bucket of the quote card,
    the status badge text and the approve-all button of the dashboard, and the guard
    that stops an empty search from reaching the server. */
module ClientViews {
  import opened Wrappers
  import Text

  /** The four CSS classes `adjustFontSize` chooses between. */
  datatype SizeClass = Short | Medium | Long | VeryLong

  function ClassName(c: SizeClass): string {
    match c
    case Short => "short"
    case Medium => "medium"
    case Long => "long"
    case VeryLong => "very-long"
  }

  const SizeClassNames: set<string> := {"short", "medium", "long", "very-long"}

  /** The bucket for a quote, by JavaScript's `text.length`. */
  function SizeClassFor(text: string): SizeClass {
    var n := Text.Utf16Length(text);
    if n <= 20 then Short
    else if n <= 50 then Medium
    else if n <= 100 then Long
    else VeryLong
  }

  /** `adjustFontSize`: removes the four size classes from the element's class list and
      adds the one for `text`; every other class on the element is kept. */
  function AdjustFontSize(classes: set<string>, text: string): (r: set<string>)
    ensures r - SizeClassNames == classes - SizeClassNames
    ensures |r * SizeClassNames| == 1
    ensures "short" in r <==> Text.Utf16Length(text) <= 20
    ensures "medium" in r <==> 20 < Text.Utf16Length(text) <= 50
    ensures "long" in r <==> 50 < Text.Utf16Length(text) <= 100
    ensures "very-long" in r <==> 100 < Text.Utf16Length(text)
  {
    var chosen := ClassName(SizeClassFor(text));
    var r := (classes - SizeClassNames) + {chosen};
    assert r * SizeClassNames == {chosen};
    r
  }

  /** A longer quote never gets a smaller font bucket. */
  lemma SizeClassMonotone(a: string, b: string)
    requires Text.Utf16Length(a) <= Text.Utf16Length(b)
    ensures Rank(SizeClassFor(a)) <= Rank(SizeClassFor(b))
  {
  }

  function Rank(c: SizeClass): nat {
    match c
    case Short => 0
    case Medium => 1
    case Long => 2
    case VeryLong => 3
  }

  /** The three statuses the server writes, and their badge labels. */
  const Pending := "pending"
  const Approved := "approved"
  const Rejected := "rejected"

  /** `getStatusText`: the label for a known status; any other status is shown as is. */
  function StatusText(status: string): (r: string)
    ensures status == Pending ==> r == "待审核"
    ensures status == Approved ==> r == "已通过"
    ensures status == Rejected ==> r == "已拒绝"
    ensures status !in {Pending, Approved, Rejected} ==> r == status
  {
    if status == Pending then "待审核"
    else if status == Approved then "已通过"
    else if status == Rejected then "已拒绝"
    else status
  }

  /** The three known statuses get three different labels, none equal to a known status. */
  lemma StatusTextDistinguishesKnownStatuses(a: string, b: string)
    requires a in {Pending, Approved, Rejected} && b in {Pending, Approved, Rejected}
    ensures StatusText(a) == StatusText(b) <==> a == b
    ensures StatusText(a) !in {Pending, Approved, Rejected}
  {
  }

  /** `sentences.filter(s => s.status === 'pending').length` over the listed statuses. */
  function PendingCount(statuses: seq<string>): (n: nat)
    ensures n <= |statuses|
    ensures n == multiset(statuses)[Pending]
    ensures n == 0 <==> Pending !in statuses
  {
    if statuses == [] then 0
    else
      assert statuses == [statuses[0]] + statuses[1..];
      (if statuses[0] == Pending then 1 else 0) + PendingCount(statuses[1..])
  }

  /** What `updateApproveAllButton` shows. */
  datatype ButtonLabel = NothingPending | ApproveAll(pending: nat)

  datatype ApproveAllButton = ApproveAllButton(disabled: bool, caption: ButtonLabel, background: string)

  /** `updateApproveAllButton`: grey and disabled with no pending quotes, otherwise green,
      enabled and showing the pending count. */
  function ApproveAllButtonFor(pending: nat): (b: ApproveAllButton)
    ensures b.disabled <==> pending == 0
    ensures !b.disabled ==> b.caption == ApproveAll(pending)
  {
    if pending == 0 then ApproveAllButton(true, NothingPending, "#6c757d")
    else ApproveAllButton(false, ApproveAll(pending), "#28a745")
  }

  /** After `loadSentences`, the button is disabled exactly when no listed quote is pending. */
  lemma ApproveAllDisabledIffNonePending(statuses: seq<string>)
    ensures ApproveAllButtonFor(PendingCount(statuses)).disabled
        <==> forall k :: 0 <= k < |statuses| ==> statuses[k] != Pending
  {
  }

  /** The keyword `searchSentences` sends, or `None` when the trimmed input is empty and
      the search stops with a prompt before any request. */
  function SearchKeyword(input: string): (r: Option<string>)
    ensures r.None? <==> Text.AllSpace(Text.JavaScript, input)
    ensures r.Some? ==> r.value == Text.Strip(Text.JavaScript, input)
    ensures r.Some? ==> r.value != [] && Text.Trimmed(Text.JavaScript, r.value)
    ensures r.Some? ==> |r.value| <= |input|
  {
    var keyword := Text.Strip(Text.JavaScript, input);
    if keyword == [] then None else Some(keyword)
  }

  /** Trimming the keyword again changes nothing, so the request carries exactly the
      keyword the guard accepted. */
  lemma SearchKeywordStable(input: string)
    requires SearchKeyword(input).Some?
    ensures SearchKeyword(SearchKeyword(input).value) == SearchKeyword(input)
  {
    Text.StripIdempotent(Text.JavaScript, input);
  }
}
