/** The per-day counters of page views and API calls. Each is a table with one row per
    ISO date, updated by `INSERT OR IGNORE` of a zero row followed by an increment. The
    date is a parameter standing for `date.today().isoformat()`. */
module Counters {

  datatype Counters = Counters(pageViews: map<string, nat>, apiUsage: map<string, nat>)

  const NoCounts := Counters(map[], map[])

  /** `INSERT OR IGNORE ... VALUES (day, 0)`: adds a zero row unless the day has one. */
  function InsertOrIgnore(m: map<string, nat>, day: string): (r: map<string, nat>)
    ensures day in r && r.Keys == m.Keys + {day}
    ensures day in m ==> r == m
    ensures day !in m ==> r[day] == 0
    ensures forall d :: d in m ==> r[d] == m[d]
  {
    if day in m then m else m[day := 0]
  }

  /** The two statements together: the day's count goes up by one, starting from zero,
      and every other day's count is left alone. */
  function Bump(m: map<string, nat>, day: string): (r: map<string, nat>)
    ensures r.Keys == m.Keys + {day}
    ensures r[day] == (if day in m then m[day] else 0) + 1
    ensures forall d :: d in m && d != day ==> r[d] == m[d]
  {
    var seeded := InsertOrIgnore(m, day);
    seeded[day := seeded[day] + 1]
  }

  /** `update_page_view`, called by the home page. */
  function RecordPageView(c: Counters, today: string): (r: Counters)
    ensures r.apiUsage == c.apiUsage
    ensures r.pageViews == Bump(c.pageViews, today)
  {
    c.(pageViews := Bump(c.pageViews, today))
  }

  /** `update_api_usage`, called by both random-quote endpoints. */
  function RecordApiCall(c: Counters, today: string): (r: Counters)
    ensures r.pageViews == c.pageViews
    ensures r.apiUsage == Bump(c.apiUsage, today)
  {
    c.(apiUsage := Bump(c.apiUsage, today))
  }

  /** The seeding statement can be repeated without effect. */
  lemma InsertOrIgnoreIdempotent(m: map<string, nat>, day: string)
    ensures InsertOrIgnore(InsertOrIgnore(m, day), day) == InsertOrIgnore(m, day)
  {
  }

  /** `n` visits on one day, one after another. */
  function BumpTimes(m: map<string, nat>, day: string, n: nat): map<string, nat> {
    if n == 0 then m else Bump(BumpTimes(m, day, n - 1), day)
  }

  /** After `n` visits the day's count is its previous value (zero if absent) plus `n`,
      and all other days are unchanged. */
  lemma {:induction false} BumpTimesCounts(m: map<string, nat>, day: string, n: nat)
    requires n >= 1
    ensures BumpTimes(m, day, n).Keys == m.Keys + {day}
    ensures BumpTimes(m, day, n)[day] == (if day in m then m[day] else 0) + n
    ensures forall d :: d in m && d != day ==> BumpTimes(m, day, n)[d] == m[d]
  {
    if n > 1 {
      BumpTimesCounts(m, day, n - 1);
    }
  }

  /** Visits on different days can be recorded in either order. */
  lemma BumpsCommute(m: map<string, nat>, a: string, b: string)
    ensures Bump(Bump(m, a), b) == Bump(Bump(m, b), a)
  {
    if a != b {
      var x, y := Bump(Bump(m, a), b), Bump(Bump(m, b), a);
      assert x.Keys == m.Keys + {a} + {b} == y.Keys;
      forall d | d in x.Keys ensures x[d] == y[d] {
        if d == a {
          assert x[a] == Bump(m, a)[a] == y[a];
        } else if d == b {
          assert x[b] == Bump(m, b)[b] == y[b];
        } else {
          assert x[d] == m[d] == y[d];
        }
      }
    }
  }
}
