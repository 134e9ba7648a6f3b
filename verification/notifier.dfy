/** `CompleteAssignmentScraper.check_and_notify_deadlines` and the title
    `NotificationSystem.notify_assignment_deadline` puts on each reminder. */
module Notifier {
  import opened Wrappers
  import opened Text
  import opened DateTimes
  import opened DueDates
  import opened Storage

  /** How far ahead the scan looks, in days. */
  const Horizon: int := 30

  /** `(due - now).days`: whole days until the due date, rounded down as
      `timedelta.days` is, so a date a few hours away is day 0 and one a
      few hours past is day -1. */
  function DaysUntil(due: int, now: int): (d: int)
    ensures d * 86400 <= due - now < d * 86400 + 86400
  {
    (due - now) / 86400
  }

  /** The reminder rule: a day count listed in `advance_days`, or one day
      or less. */
  predicate Reminds(days: int, advance: seq<int>) {
    days in advance || days <= 1
  }

  /** The row a scan reminds about: in the 30-day window, not yet
      notified, and due on a day the reminder rule picks. */
  predicate Eligible(r: Record, now: int, advance: seq<int>) {
    && Wanted(r, Window(now, Horizon))
    && !r.notified
    && Reminds(DaysUntil(Instant(r.dueParsed.value), now), advance)
  }

  /** The table with the eligible rows among `done` marked notified. */
  function Marked(db: Db, now: int, advance: seq<int>, done: set<Key>): Db {
    map k | k in db :: if k in done && Eligible(db[k], now, advance) then db[k].(notified := true) else db[k]
  }

  /** The table a whole scan leaves: every eligible row marked. */
  function AfterScan(db: Db, now: int, advance: seq<int>): Db {
    Marked(db, now, advance, db.Keys)
  }

  /** `notify_assignment_deadline`'s title. It picks a different
      urgency line for three days or less, but the same title. */
  function Heading(days: int): string {
    if days == 0 then "Assignment Due TODAY!"
    else if days == 1 then "Assignment Due Tomorrow!"
    else "Assignment Due in " + ShowInt(days) + " days"
  }

  /** One reminder sent: the row, its day count and its title. */
  datatype Notice = Notice(row: Row, days: int, heading: string)

  /** A notice that tells the truth about the row it was sent for. */
  predicate Faithful(n: Notice, db: Db, now: int, advance: seq<int>) {
    && n.row.key in db && n.row.record == db[n.row.key]
    && Eligible(n.row.record, now, advance)
    && n.days == DaysUntil(Stamp(n.row), now)
    && n.heading == Heading(n.days)
  }

  /** The keys of the first `i` rows. */
  function KeysBefore(rows: seq<Row>, i: nat): set<Key>
    requires i <= |rows|
  {
    set j | 0 <= j < i :: rows[j].key
  }

  /** The decision the scan takes on one row of the window: a row with a
      parsed date, not yet notified, whose day count the rule picks gets a
      notice; any other row gets none. */
  function Decide(row: Row, now: int, advance: seq<int>): (r: Option<Notice>)
    ensures r.Some? ==> (&& r.value.row == row
                         && r.value.days == DaysUntil(Stamp(row), now)
                         && r.value.heading == Heading(r.value.days))
    ensures Wanted(row.record, Window(now, Horizon)) ==> (r.Some? <==> Eligible(row.record, now, advance))
  {
    if row.record.dueParsed.Some? && !row.record.notified then
      var days := DaysUntil(Instant(row.record.dueParsed.value), now);
      if Reminds(days, advance) then Some(Notice(row, days, Heading(days))) else None
    else None
  }

  /** The notices a scan sends for some rows, in their order. */
  function Notices(rows: seq<Row>, now: int, advance: seq<int>): seq<Notice> {
    if |rows| == 0 then []
    else
      var d := Decide(rows[|rows| - 1], now, advance);
      Notices(rows[..|rows| - 1], now, advance) + (if d.Some? then [d.value] else [])
  }

  /** Every notice is about an eligible row of the window, with that row's
      day count and title; every eligible row gets one. */
  lemma {:induction false} NoticesExact(rows: seq<Row>, now: int, advance: seq<int>)
    requires forall j :: 0 <= j < |rows| ==> Wanted(rows[j].record, Window(now, Horizon))
    ensures forall m :: 0 <= m < |Notices(rows, now, advance)| ==> (
              var n := Notices(rows, now, advance)[m];
              && Eligible(n.row.record, now, advance)
              && n.days == DaysUntil(Stamp(n.row), now) && n.heading == Heading(n.days))
    ensures forall j :: 0 <= j < |rows| && Eligible(rows[j].record, now, advance)
              ==> exists m :: 0 <= m < |Notices(rows, now, advance)| && Notices(rows, now, advance)[m].row == rows[j]
  {
    if |rows| > 0 {
      var front := rows[..|rows| - 1];
      var last := rows[|rows| - 1];
      NoticesExact(front, now, advance);
      var d := Decide(last, now, advance);
      var ns := Notices(rows, now, advance);
      assert ns == Notices(front, now, advance) + (if d.Some? then [d.value] else []);
      forall j | 0 <= j < |rows| && Eligible(rows[j].record, now, advance)
        ensures exists m :: 0 <= m < |ns| && ns[m].row == rows[j]
      {
        if j < |rows| - 1 {
          assert rows[j] == front[j];
          var m :| 0 <= m < |Notices(front, now, advance)| && Notices(front, now, advance)[m].row == front[j];
          assert ns[m] == Notices(front, now, advance)[m];
        } else {
          assert ns[|ns| - 1].row == rows[j];
        }
      }
    }
  }

  /** Every notice is about one of the rows. */
  lemma {:induction false} NoticesFrom(rows: seq<Row>, now: int, advance: seq<int>)
    ensures forall m :: 0 <= m < |Notices(rows, now, advance)| ==> Notices(rows, now, advance)[m].row in rows
  {
    if |rows| > 0 {
      var front := rows[..|rows| - 1];
      NoticesFrom(front, now, advance);
      var d := Decide(rows[|rows| - 1], now, advance);
      var fs := Notices(front, now, advance);
      assert Notices(rows, now, advance) == fs + (if d.Some? then [d.value] else []);
      forall m | 0 <= m < |fs| ensures fs[m].row in rows {
        var a :| 0 <= a < |front| && fs[m].row == front[a];
        assert fs[m].row == rows[a];
      }
    }
  }

  /** Notices come soonest first when their rows do. */
  lemma {:induction false} NoticesAscending(rows: seq<Row>, now: int, advance: seq<int>)
    requires Ascending(rows)
    ensures forall m, n :: 0 <= m < n < |Notices(rows, now, advance)|
              ==> Stamp(Notices(rows, now, advance)[m].row) <= Stamp(Notices(rows, now, advance)[n].row)
  {
    if |rows| > 0 {
      var front := rows[..|rows| - 1];
      var last := rows[|rows| - 1];
      NoticesAscending(front, now, advance);
      NoticesFrom(front, now, advance);
      var d := Decide(last, now, advance);
      var fs := Notices(front, now, advance);
      assert Notices(rows, now, advance) == fs + (if d.Some? then [d.value] else []);
      forall m | 0 <= m < |fs| ensures Stamp(fs[m].row) <= Stamp(last) {
        var a :| 0 <= a < |front| && fs[m].row == front[a];
        assert fs[m].row == rows[a];
      }
    }
  }

  /** Notices name each key at most once when their rows do. */
  lemma {:induction false} NoticesDistinct(rows: seq<Row>, now: int, advance: seq<int>)
    requires forall a, b :: 0 <= a < b < |rows| ==> rows[a].key != rows[b].key
    ensures forall m, n :: 0 <= m < n < |Notices(rows, now, advance)|
              ==> Notices(rows, now, advance)[m].row.key != Notices(rows, now, advance)[n].row.key
  {
    if |rows| > 0 {
      var front := rows[..|rows| - 1];
      var last := rows[|rows| - 1];
      NoticesDistinct(front, now, advance);
      NoticesFrom(front, now, advance);
      var d := Decide(last, now, advance);
      var fs := Notices(front, now, advance);
      assert Notices(rows, now, advance) == fs + (if d.Some? then [d.value] else []);
      forall m | 0 <= m < |fs| ensures fs[m].row.key != last.key {
        var a :| 0 <= a < |front| && fs[m].row == front[a];
        assert fs[m].row == rows[a];
      }
    }
  }

  /** `check_and_notify_deadlines`: walk the 30-day window soonest first,
      remind about each eligible row once, and mark it notified. */
  method CheckAndNotifyDeadlines(db: Db, now: int, advance: seq<int>) returns (after: Db, sent: seq<Notice>)
    ensures after == AfterScan(db, now, advance)
    ensures forall m :: 0 <= m < |sent| ==> Faithful(sent[m], db, now, advance)
    ensures forall k :: k in db && Eligible(db[k], now, advance) ==> exists m :: 0 <= m < |sent| && sent[m].row.key == k
    ensures forall m, n :: 0 <= m < n < |sent| ==> sent[m].row.key != sent[n].row.key
    ensures forall m, n :: 0 <= m < n < |sent| ==> Stamp(sent[m].row) <= Stamp(sent[n].row)
  {
    var upcoming := GetUpcomingDeadlines(db, now, Horizon);
    after, sent := Sweep(db, now, advance, upcoming);
    ScanSends(db, now, advance, upcoming, sent);
    MarkedCovers(db, now, advance, KeysBefore(upcoming, |upcoming|));
  }

  /** The loop of the scan over the rows of the window: decide on each
      row in turn, collect its notice and mark its key notified. */
  method Sweep(db: Db, now: int, advance: seq<int>, upcoming: seq<Row>) returns (after: Db, sent: seq<Notice>)
    requires forall i :: 0 <= i < |upcoming| ==> (&& upcoming[i].key in db && upcoming[i].record == db[upcoming[i].key]
                                                  && Wanted(upcoming[i].record, Window(now, Horizon)))
    requires forall i, j :: 0 <= i < j < |upcoming| ==> upcoming[i].key != upcoming[j].key
    ensures after == Marked(db, now, advance, KeysBefore(upcoming, |upcoming|))
    ensures sent == Notices(upcoming, now, advance)
  {
    after, sent := db, [];
    for i := 0 to |upcoming|
      invariant after == Marked(db, now, advance, KeysBefore(upcoming, i))
      invariant sent == Notices(upcoming[..i], now, advance)
    {
      var row := upcoming[i];
      KeysBeforeStep(upcoming, i);
      MarkStep(db, now, advance, KeysBefore(upcoming, i), row);
      assert upcoming[..i + 1][..i] == upcoming[..i];
      var notice := Decide(row, now, advance);
      if notice.Some? {
        sent := sent + [notice.value];
        after := MarkAsNotified(after, row.key);
      }
    }
    assert upcoming[..|upcoming|] == upcoming;
  }

  /** The notices for the 30-day window are the ones the scan promises. */
  lemma ScanSends(db: Db, now: int, advance: seq<int>, upcoming: seq<Row>, sent: seq<Notice>)
    requires sent == Notices(upcoming, now, advance)
    requires Ascending(upcoming)
    requires forall i :: 0 <= i < |upcoming| ==> (&& upcoming[i].key in db && upcoming[i].record == db[upcoming[i].key]
                                                  && upcoming[i].record.dueParsed.Some?
                                                  && now <= Stamp(upcoming[i]) <= now + Horizon * 86400)
    requires forall i, j :: 0 <= i < j < |upcoming| ==> upcoming[i].key != upcoming[j].key
    requires forall k :: k in db && Wanted(db[k], Window(now, Horizon))
               ==> exists i :: 0 <= i < |upcoming| && upcoming[i].key == k
    ensures forall m :: 0 <= m < |sent| ==> Faithful(sent[m], db, now, advance)
    ensures forall k :: k in db && Eligible(db[k], now, advance) ==> exists m :: 0 <= m < |sent| && sent[m].row.key == k
    ensures forall m, n :: 0 <= m < n < |sent| ==> sent[m].row.key != sent[n].row.key
    ensures forall m, n :: 0 <= m < n < |sent| ==> Stamp(sent[m].row) <= Stamp(sent[n].row)
    ensures forall k :: k in db && Eligible(db[k], now, advance) ==> k in KeysBefore(upcoming, |upcoming|)
  {
    NoticesExact(upcoming, now, advance);
    NoticesFrom(upcoming, now, advance);
    NoticesAscending(upcoming, now, advance);
    NoticesDistinct(upcoming, now, advance);
    forall k | k in db && Eligible(db[k], now, advance)
      ensures exists m :: 0 <= m < |sent| && sent[m].row.key == k
      ensures k in KeysBefore(upcoming, |upcoming|)
    {
      var j :| 0 <= j < |upcoming| && upcoming[j].key == k;
      var m :| 0 <= m < |sent| && sent[m].row == upcoming[j];
    }
  }

  /** Adding row `i` to the rows seen adds its key, which no earlier row
      of a query result has. */
  lemma KeysBeforeStep(rows: seq<Row>, i: nat)
    requires i < |rows|
    requires forall a, b :: 0 <= a < b < |rows| ==> rows[a].key != rows[b].key
    ensures KeysBefore(rows, i + 1) == KeysBefore(rows, i) + {rows[i].key}
    ensures rows[i].key !in KeysBefore(rows, i)
  {
  }

  /** One step of the scan: marking the row of a key not yet seen, when it
      is eligible, extends the marking to that key. */
  lemma MarkStep(db: Db, now: int, advance: seq<int>, done: set<Key>, row: Row)
    requires row.key in db && row.record == db[row.key] && row.key !in done
    ensures Marked(db, now, advance, done + {row.key})
         == if Eligible(row.record, now, advance)
            then MarkAsNotified(Marked(db, now, advance, done), row.key)
            else Marked(db, now, advance, done)
  {
  }

  /** Marking among keys that already hold every eligible row is the whole
      scan. */
  lemma MarkedCovers(db: Db, now: int, advance: seq<int>, done: set<Key>)
    requires forall k :: k in db && Eligible(db[k], now, advance) ==> k in done
    ensures Marked(db, now, advance, done) == AfterScan(db, now, advance)
  {
  }

  /** The scan changes only the `notified` flag of the eligible rows. After
      it nothing is eligible, so a second scan at the same moment sends
      nothing and changes nothing: each row is reminded about once. */
  lemma ScanIdempotent(db: Db, now: int, advance: seq<int>)
    ensures AfterScan(db, now, advance).Keys == db.Keys
    ensures forall k :: k in db ==> (AfterScan(db, now, advance)[k]
                                     == if Eligible(db[k], now, advance) then db[k].(notified := true) else db[k])
    ensures forall k :: k in db ==> !Eligible(AfterScan(db, now, advance)[k], now, advance)
    ensures AfterScan(AfterScan(db, now, advance), now, advance) == AfterScan(db, now, advance)
  {
  }

  /** A reminder is sent only for a date between now and thirty days from
      now whose day count is listed or at most one; in particular a date
      already past is never reminded about. */
  lemma RemindedDays(r: Record, now: int, advance: seq<int>)
    requires Eligible(r, now, advance)
    ensures r.dueParsed.Some? && now <= Instant(r.dueParsed.value)
    ensures 0 <= DaysUntil(Instant(r.dueParsed.value), now) <= Horizon
    ensures DaysUntil(Instant(r.dueParsed.value), now) in advance
         || DaysUntil(Instant(r.dueParsed.value), now) <= 1
  {
  }

  /** The reverse: an unnotified row with a date in the window whose day
      count the rule picks is reminded about. */
  lemma RemindedWhenDue(r: Record, now: int, advance: seq<int>)
    requires r.dueParsed.Some? && !r.notified
    requires now <= Instant(r.dueParsed.value) <= now + Horizon * 86400
    requires Reminds(DaysUntil(Instant(r.dueParsed.value), now), advance)
    ensures Eligible(r, now, advance)
  {
  }

  /** With the default `advance_days` of 7, 3 and 1: exactly three days
      ahead is reminded about, five days and an hour ahead is not, and
      anything under two days ahead always is. */
  lemma DefaultAdvance(now: int, due: int)
    ensures due - now == 3 * 86400 ==> Reminds(DaysUntil(due, now), [7, 3, 1])
    ensures due - now == 5 * 86400 + 3600 ==> !Reminds(DaysUntil(due, now), [7, 3, 1])
    ensures 0 <= due - now < 2 * 86400 ==> Reminds(DaysUntil(due, now), [7, 3, 1])
  {
  }

  /** Different day counts get different titles. */
  lemma HeadingInjective(a: int, b: int)
    requires Heading(a) == Heading(b)
    ensures a == b
  {
    HeadingLetters(a);
    HeadingLetters(b);
    if a != 0 && a != 1 && b != 0 && b != 1 {
      var p := "Assignment Due in ";
      Middle(p, ShowInt(a), " days");
      Middle(p, ShowInt(b), " days");
      ShowIntInjective(a, b);
    }
  }

  /** The letters after `Assignment Due ` tell the three titles apart. */
  lemma HeadingLetters(d: int)
    ensures |Heading(d)| > 16
    ensures Heading(d)[15] == (if d == 0 || d == 1 then 'T' else 'i')
    ensures d == 0 ==> Heading(d)[16] == 'O'
    ensures d == 1 ==> Heading(d)[16] == 'o'
    ensures d != 0 && d != 1 ==> Heading(d) == "Assignment Due in " + ShowInt(d) + " days"
  {
  }

  /** The middle of a concatenation of three. */
  lemma Middle(p: string, x: string, s: string)
    ensures (p + x + s)[|p|..|p| + |x|] == x
  {
  }
}
