/** `AssignmentStorage`: the assignments table as a map from its unique key
    (course URL, assignment name) to the rest of the row, with the upsert,
    the notified latch and the two ordered queries. */
module Storage {
  import opened Wrappers
  import opened Text
  import opened DateTimes
  import opened DueDates
  import Extraction

  /** The table's `UNIQUE(course_url, assignment_name)`. */
  datatype Key = Key(url: string, title: string)

  /** The remaining columns. `extractedAt` is the clock reading of the last
      insert or update, in seconds. */
  datatype Record = Record(dueRaw: string, dueParsed: Option<Moment>, extractedAt: int, notified: bool)

  type Db = map<Key, Record>

  /** The counters `store_assignments` returns; `added` is the `new` counter
      of `store_assignments`. */
  datatype Stats = Stats(added: nat, updated: nat, total: nat)

  /** The stored name: every `Title: ` removed from the scraped title. */
  function StoredTitle(title: string): string {
    RemoveAll(title, "Title: ")
  }

  /** A title that says `Title: ` up front is stored as if it did not, and
      a title without `Title: ` anywhere is stored as scraped. */
  lemma StoredTitleFacts(t: string)
    ensures StoredTitle("Title: " + t) == StoredTitle(t)
    ensures !Contains(t, "Title: ") ==> StoredTitle(t) == t
  {
    RemoveAllLeading("Title: ", t);
    if !Contains(t, "Title: ") {
      RemoveAllAbsent(t, "Title: ");
    }
  }

  /** What the store does with a raw due date: `parse_due_date`, whose
      result the parsed column holds. The agent's store passes
      `raw => ParseDueDate(raw, oracle)`. */
  type Parser = string -> Option<Moment>

  /** One scraped candidate as the store sees it: its key and raw due date. */
  datatype Entry = Entry(key: Key, due: string)

  /** The entries of a batch scraped from one course page, in order. */
  function Entries(url: string, batch: seq<Extraction.Candidate>): (r: seq<Entry>)
    ensures |r| == |batch|
    ensures forall i :: 0 <= i < |batch| ==> r[i] == Entry(Key(url, StoredTitle(batch[i].title)), batch[i].due)
  {
    seq(|batch|, i requires 0 <= i < |batch| => Entry(Key(url, StoredTitle(batch[i].title)), batch[i].due))
  }

  /** One entry of `store_assignments`: an existing row gets the new raw
      and parsed due date and a new extraction time and keeps its notified
      flag; a new row starts not notified. */
  function Upsert(db: Db, e: Entry, parse: Parser, now: int): (r: Db)
    ensures r.Keys == db.Keys + {e.key}
    ensures r[e.key].dueRaw == e.due && r[e.key].dueParsed == parse(e.due)
    ensures r[e.key].extractedAt == now
    ensures r[e.key].notified == (e.key in db && db[e.key].notified)
    ensures forall k :: k in db && k != e.key ==> r[k] == db[k]
  {
    if e.key in db then db[e.key := db[e.key].(dueRaw := e.due, dueParsed := parse(e.due), extractedAt := now)]
    else db[e.key := Record(e.due, parse(e.due), now, false)]
  }

  /** An upsert adds a row exactly when the key is new. */
  lemma UpsertGrows(db: Db, e: Entry, parse: Parser, now: int)
    ensures |Upsert(db, e, parse, now).Keys| == |db.Keys| + (if e.key in db then 0 else 1)
  {
    var keys := Upsert(db, e, parse, now).Keys;
    if e.key in db {
      assert keys == db.Keys;
    } else {
      assert keys == db.Keys + {e.key};
    }
  }

  /** The keys a batch writes. */
  function KeysOf(entries: seq<Entry>): set<Key> {
    set i | 0 <= i < |entries| :: entries[i].key
  }

  /** The entry at `i` is the last one of the batch with its key. */
  predicate LastOfKey(entries: seq<Entry>, i: int) {
    0 <= i < |entries| && forall j :: i < j < |entries| ==> entries[j].key != entries[i].key
  }

  /** The loop of `store_assignments`: the entries in order, one upsert
      each. Every entry is counted once, as new or as updated; the store
      gains the batch's keys and nothing else; and the new ones are
      exactly the keys the store did not have before. */
  function StoreEntries(db: Db, entries: seq<Entry>, parse: Parser, now: int): (r: (Db, Stats))
    ensures r.1.added + r.1.updated == r.1.total == |entries|
    ensures r.0.Keys == db.Keys + KeysOf(entries)
    ensures |r.0.Keys| == |db.Keys| + r.1.added
    decreases |entries|
  {
    if |entries| == 0 then (db, Stats(0, 0, 0))
    else
      var next := Upsert(db, entries[0], parse, now);
      var rest := StoreEntries(next, entries[1..], parse, now);
      var isNew := entries[0].key !in db;
      KeysOfCons(entries);
      UpsertGrows(db, entries[0], parse, now);
      CountStep(db.Keys, entries[0].key, next.Keys, KeysOf(entries[1..]), rest.0.Keys, rest.1.added);
      (rest.0, Stats(rest.1.added + (if isNew then 1 else 0),
                     rest.1.updated + (if isNew then 0 else 1), rest.1.total + 1))
  }

  lemma CountStep(before: set<Key>, key: Key, next: set<Key>, tail: set<Key>, after: set<Key>, added: int)
    requires next == before + {key} && |next| == |before| + (if key in before then 0 else 1)
    requires after == next + tail && |after| == |next| + added
    ensures after == before + ({key} + tail)
    ensures |after| == |before| + added + (if key in before then 0 else 1)
  {
  }

  /** `store_assignments` on a batch scraped from the course page `url`. */
  function StoreAssignments(db: Db, url: string, batch: seq<Extraction.Candidate>,
                            parse: Parser, now: int): (r: (Db, Stats))
    ensures r.1.added + r.1.updated == r.1.total == |batch|
    ensures r.0.Keys == db.Keys + KeysOf(Entries(url, batch))
    ensures |r.0.Keys| == |db.Keys| + r.1.added
  {
    StoreEntries(db, Entries(url, batch), parse, now)
  }

  lemma KeysOfCons(entries: seq<Entry>)
    requires |entries| > 0
    ensures KeysOf(entries) == {entries[0].key} + KeysOf(entries[1..])
  {
    forall k | k in KeysOf(entries) ensures k in {entries[0].key} + KeysOf(entries[1..]) {
      var i :| 0 <= i < |entries| && entries[i].key == k;
      if i > 0 {
        assert entries[1..][i - 1] == entries[i];
      }
    }
    forall k | k in KeysOf(entries[1..]) ensures k in KeysOf(entries) {
      var i :| 0 <= i < |entries[1..]| && entries[1..][i].key == k;
      assert entries[i + 1] == entries[1..][i];
    }
  }

  /** Rows the batch does not name are untouched, notified flags survive,
      and new rows start unnotified. */
  lemma {:induction false} StoreKeepsOthers(db: Db, entries: seq<Entry>, parse: Parser, now: int)
    ensures var r := StoreEntries(db, entries, parse, now).0;
            && (forall k :: k in db && k !in KeysOf(entries) ==> r[k] == db[k])
            && (forall k :: k in db ==> r[k].notified == db[k].notified)
            && (forall k :: k in r && k !in db ==> !r[k].notified)
    decreases |entries|
  {
    if |entries| > 0 {
      StoreKeepsOthers(Upsert(db, entries[0], parse, now), entries[1..], parse, now);
      KeysOfCons(entries);
    }
  }

  /** The last entry of each key decides its due date, and every row the
      batch names carries the clock reading of the store. */
  lemma {:induction false} StoreLastWins(db: Db, entries: seq<Entry>, parse: Parser, now: int)
    ensures var r := StoreEntries(db, entries, parse, now).0;
            && (forall i :: LastOfKey(entries, i)
                  ==> r[entries[i].key].dueRaw == entries[i].due
                      && r[entries[i].key].dueParsed == parse(entries[i].due))
            && (forall k :: k in KeysOf(entries) ==> r[k].extractedAt == now)
    decreases |entries|
  {
    if |entries| > 0 {
      var next := Upsert(db, entries[0], parse, now);
      StoreLastWins(next, entries[1..], parse, now);
      StoreKeepsOthers(next, entries[1..], parse, now);
      StoreStep(db, entries, parse, now, next, StoreEntries(next, entries[1..], parse, now).0);
    }
  }

  /** With `parse_due_date` as the parser, a row whose last raw due date in
      the batch is the placeholder, or empty, has no parsed due date, so
      the deadline queries never pick it. */
  lemma PlaceholderRowUnparsed(db: Db, entries: seq<Entry>, oracle: Option<DateOracle>, now: int, i: int)
    requires LastOfKey(entries, i)
    ensures entries[i].due == NoDueDate || entries[i].due == ""
      ==> StoreEntries(db, entries, raw => ParseDueDate(raw, oracle), now).0[entries[i].key].dueParsed.None?
  {
    StoreLastWins(db, entries, raw => ParseDueDate(raw, oracle), now);
  }

  /** The facts the inductive step of `StoreLastWins` needs from the first
      upsert and the rest of the batch. */
  lemma StoreStep(db: Db, entries: seq<Entry>, parse: Parser, now: int, next: Db, last: Db)
    requires |entries| > 0 && next == Upsert(db, entries[0], parse, now)
    requires last.Keys == next.Keys + KeysOf(entries[1..])
    requires forall k :: k in next && k !in KeysOf(entries[1..]) ==> last[k] == next[k]
    requires forall i :: LastOfKey(entries[1..], i)
               ==> last[entries[1..][i].key].dueRaw == entries[1..][i].due
                   && last[entries[1..][i].key].dueParsed == parse(entries[1..][i].due)
    requires forall k :: k in KeysOf(entries[1..]) ==> last[k].extractedAt == now
    ensures forall i :: LastOfKey(entries, i)
              ==> last[entries[i].key].dueRaw == entries[i].due
                  && last[entries[i].key].dueParsed == parse(entries[i].due)
    ensures forall k :: k in KeysOf(entries) ==> last[k].extractedAt == now
  {
    KeysOfCons(entries);
    forall i | LastOfKey(entries, i)
      ensures last[entries[i].key].dueRaw == entries[i].due
      ensures last[entries[i].key].dueParsed == parse(entries[i].due)
    {
      if i == 0 {
        forall j | 0 <= j < |entries[1..]| ensures entries[1..][j].key != entries[0].key {
          assert entries[1..][j] == entries[j + 1];
        }
        assert entries[0].key !in KeysOf(entries[1..]);
      } else {
        assert entries[1..][i - 1] == entries[i];
        assert LastOfKey(entries[1..], i - 1) by {
          forall j | i - 1 < j < |entries[1..]|
            ensures entries[1..][j].key != entries[1..][i - 1].key
          {
            assert entries[1..][j] == entries[j + 1];
          }
        }
      }
    }
  }

  /** The last position of a key the batch writes. */
  function LastIndexOf(entries: seq<Entry>, k: Key): (i: int)
    requires k in KeysOf(entries)
    ensures LastOfKey(entries, i) && entries[i].key == k
    decreases |entries|
  {
    var init := entries[..|entries| - 1];
    if entries[|entries| - 1].key == k then |entries| - 1
    else
      assert k in KeysOf(init) by {
        var j :| 0 <= j < |entries| && entries[j].key == k;
        assert init[j] == entries[j];
      }
      var i := LastIndexOf(init, k);
      assert init[i] == entries[i];
      assert forall j :: i < j < |entries| - 1 ==> init[j] == entries[j];
      i
  }

  /** A store that already holds what a batch would write is a fixed point
      of storing that batch, and nothing in it counts as new. */
  lemma StoreAgain(db: Db, entries: seq<Entry>, parse: Parser, now: int)
    requires KeysOf(entries) <= db.Keys
    requires forall i :: LastOfKey(entries, i)
               ==> db[entries[i].key].dueRaw == entries[i].due
                   && db[entries[i].key].dueParsed == parse(entries[i].due)
    requires forall k :: k in KeysOf(entries) ==> db[k].extractedAt == now
    ensures StoreEntries(db, entries, parse, now).0 == db
    ensures StoreEntries(db, entries, parse, now).1.added == 0
  {
    var r := StoreEntries(db, entries, parse, now).0;
    StoreKeepsOthers(db, entries, parse, now);
    StoreLastWins(db, entries, parse, now);
    RowsAgree(db, r, entries, parse, now);
  }

  /** Two stores with the same keys that agree off the batch, on the flags,
      and on what the batch writes are equal. */
  lemma RowsAgree(db: Db, r: Db, entries: seq<Entry>, parse: Parser, now: int)
    requires r.Keys == db.Keys && KeysOf(entries) <= db.Keys
    requires forall k :: k in db && k !in KeysOf(entries) ==> r[k] == db[k]
    requires forall k :: k in db ==> r[k].notified == db[k].notified
    requires forall i :: LastOfKey(entries, i)
               ==> db[entries[i].key].dueRaw == entries[i].due
                   && db[entries[i].key].dueParsed == parse(entries[i].due)
    requires forall i :: LastOfKey(entries, i)
               ==> r[entries[i].key].dueRaw == entries[i].due
                   && r[entries[i].key].dueParsed == parse(entries[i].due)
    requires forall k :: k in KeysOf(entries) ==> db[k].extractedAt == now && r[k].extractedAt == now
    ensures r == db
  {
    forall k | k in KeysOf(entries) ensures r[k] == db[k] {
      var i := LastIndexOf(entries, k);
    }
  }

  /** Storing a batch twice at the same clock reading: the second time every
      candidate counts as updated and the store is left as it was. */
  lemma StoreTwice(db: Db, url: string, batch: seq<Extraction.Candidate>, parse: Parser, now: int)
    ensures var once := StoreAssignments(db, url, batch, parse, now);
            var twice := StoreAssignments(once.0, url, batch, parse, now);
            twice.1.added == 0 && twice.1.updated == |batch| && twice.0 == once.0
  {
    StoreEntriesTwice(db, Entries(url, batch), parse, now);
  }

  /** `StoreTwice` on the entries of the batch. */
  lemma StoreEntriesTwice(db: Db, entries: seq<Entry>, parse: Parser, now: int)
    ensures var once := StoreEntries(db, entries, parse, now);
            var twice := StoreEntries(once.0, entries, parse, now);
            twice.1.added == 0 && twice.1.updated == |entries| && twice.0 == once.0
  {
    var once := StoreEntries(db, entries, parse, now);
    StoreLastWins(db, entries, parse, now);
    StoreAgain(once.0, entries, parse, now);
  }


  /** The same title twice in one batch: the earlier insert is visible to
      the later entry, which counts as updated. */
  lemma RepeatInBatchCountsUpdated(db: Db, e: Entry, parse: Parser, now: int)
    requires e.key !in db
    ensures StoreEntries(db, [e, e], parse, now).1 == Stats(1, 1, 2)
  {
    var next := Upsert(db, e, parse, now);
    assert [e, e][1..] == [e];
    assert [e][1..] == [];
    assert StoreEntries(next, [e], parse, now).1 == Stats(0, 1, 1);
  }

  /* ---------------------------------------------------------------- */
  /* mark_as_notified                                                   */
  /* ---------------------------------------------------------------- */

  /** `mark_as_notified`: set the flag of the one row with this key; a key
      the table does not have changes nothing. */
  function MarkAsNotified(db: Db, key: Key): (r: Db)
    ensures r.Keys == db.Keys
    ensures key in db ==> r[key].notified
    ensures forall k :: k in db && k != key ==> r[k] == db[k]
    ensures key in db ==> r[key] == db[key].(notified := true)
  {
    if key in db then db[key := db[key].(notified := true)] else db
  }

  /** The latch: marking twice is marking once, and no flag is ever reset. */
  lemma MarkLatch(db: Db, key: Key)
    ensures MarkAsNotified(MarkAsNotified(db, key), key) == MarkAsNotified(db, key)
    ensures forall k :: k in db && db[k].notified ==> MarkAsNotified(db, key)[k].notified
    ensures key !in db ==> MarkAsNotified(db, key) == db
  {
  }

  /* ---------------------------------------------------------------- */
  /* The two ordered queries                                            */
  /* ---------------------------------------------------------------- */

  /** One result row: the key and the columns the queries select. */
  datatype Row = Row(key: Key, record: Record)

  /** The ordering column: a row with no parsed date sorts before every
      dated one, as SQLite puts NULL first under `ASC`. */
  function Stamp(r: Row): int {
    if r.record.dueParsed.Some? then Instant(r.record.dueParsed.value) else -1
  }

  predicate Ascending(rows: seq<Row>) {
    forall i, j :: 0 <= i < j < |rows| ==> Stamp(rows[i]) <= Stamp(rows[j])
  }

  /** The two queries: every row, or the rows whose parsed due date lies in
      `[now, now + daysAhead days]`. */
  datatype Query = All | Window(now: int, daysAhead: int)

  predicate Wanted(r: Record, q: Query) {
    match q
    case All => true
    case Window(now, daysAhead) =>
      r.dueParsed.Some? && now <= Instant(r.dueParsed.value) <= now + daysAhead * 86400
  }

  /** The rows a query selects among some keys of the store. */
  function Picked(db: Db, q: Query, keys: set<Key>): set<Row> {
    set k | k in keys && k in db && Wanted(db[k], q) :: Row(k, db[k])
  }

  /** Insert one row into an ascending sequence, keeping it ascending. */
  function InsertByStamp(row: Row, rows: seq<Row>): (r: seq<Row>)
    requires Ascending(rows)
    ensures Ascending(r)
    ensures multiset(r) == multiset(rows) + multiset{row}
    decreases |rows|
  {
    if |rows| == 0 || Stamp(row) <= Stamp(rows[0]) then [row] + rows
    else
      var rest := InsertByStamp(row, rows[1..]);
      assert rows == [rows[0]] + rows[1..];
      HeadStaysFirst(rows[0], row, rows[1..], rest);
      [rows[0]] + rest
  }

  lemma HeadStaysFirst(head: Row, row: Row, tail: seq<Row>, rest: seq<Row>)
    requires Ascending([head] + tail) && Stamp(head) < Stamp(row)
    requires Ascending(rest) && multiset(rest) == multiset(tail) + multiset{row}
    ensures Ascending([head] + rest)
  {
    forall x | x in rest ensures Stamp(head) <= Stamp(x) {
      assert x in multiset(rest);
      if x != row {
        var j :| 0 <= j < |tail| && tail[j] == x;
        assert ([head] + tail)[0] == head && ([head] + tail)[j + 1] == x;
      }
    }
    forall i, j | 0 <= i < j < |[head] + rest|
      ensures Stamp(([head] + rest)[i]) <= Stamp(([head] + rest)[j])
    {
      if i == 0 {
        assert ([head] + rest)[j] in rest;
      } else {
        assert ([head] + rest)[i] == rest[i - 1] && ([head] + rest)[j] == rest[j - 1];
      }
    }
  }

  /** A query run: the rows it selects, each exactly once, in non-decreasing
      order of due date. */
  method Select(db: Db, q: Query) returns (rows: seq<Row>)
    ensures multiset(rows) == multiset(Picked(db, q, db.Keys))
    ensures Ascending(rows)
  {
    rows := [];
    var pending := db.Keys;
    while pending != {}
      invariant pending <= db.Keys
      invariant Ascending(rows)
      invariant multiset(rows) == multiset(Picked(db, q, db.Keys - pending))
      decreases |pending|
    {
      var k :| k in pending;
      var done := db.Keys - pending;
      pending := pending - {k};
      PickedGrows(db, q, done, k);
      if Wanted(db[k], q) {
        rows := InsertByStamp(Row(k, db[k]), rows);
      }
    }
  }

  lemma PickedGrows(db: Db, q: Query, done: set<Key>, k: Key)
    requires k in db && k !in done
    ensures Wanted(db[k], q) ==> multiset(Picked(db, q, done + {k}))
                                 == multiset(Picked(db, q, done)) + multiset{Row(k, db[k])}
    ensures !Wanted(db[k], q) ==> Picked(db, q, done + {k}) == Picked(db, q, done)
  {
    if Wanted(db[k], q) {
      assert Picked(db, q, done + {k}) == Picked(db, q, done) + {Row(k, db[k])};
      assert Row(k, db[k]) !in Picked(db, q, done);
    }
  }

  /** A row found at two positions of a sequence occurs twice in it. */
  lemma TwiceCounted<T>(s: seq<T>, i: nat, j: nat)
    requires i < j < |s|
    ensures s[i] == s[j] ==> multiset(s)[s[i]] >= 2
  {
    assert s == s[..j] + s[j..];
    assert s[..j][i] == s[i] && s[j..][0] == s[j];
    assert multiset(s)[s[i]] == multiset(s[..j])[s[i]] + multiset(s[j..])[s[i]];
  }

  /** A result holding each selected row once: every row is a row of the
      store the query wants, no key comes twice, and every wanted key is
      there. */
  lemma PickedRows(db: Db, q: Query, rows: seq<Row>)
    requires multiset(rows) == multiset(Picked(db, q, db.Keys))
    ensures forall i :: 0 <= i < |rows|
              ==> rows[i].key in db && rows[i].record == db[rows[i].key] && Wanted(rows[i].record, q)
    ensures forall i, j :: 0 <= i < j < |rows| ==> rows[i].key != rows[j].key
    ensures forall k :: k in db && Wanted(db[k], q) ==> exists i :: 0 <= i < |rows| && rows[i].key == k
  {
    forall i | 0 <= i < |rows|
      ensures rows[i].key in db && rows[i].record == db[rows[i].key] && Wanted(rows[i].record, q)
    {
      assert rows[i] in multiset(rows);
    }
    forall i, j | 0 <= i < j < |rows| ensures rows[i].key != rows[j].key {
      TwiceCounted(rows, i, j);
    }
    forall k | k in db && Wanted(db[k], q) ensures exists i :: 0 <= i < |rows| && rows[i].key == k {
      assert Row(k, db[k]) in Picked(db, q, db.Keys);
      assert Row(k, db[k]) in multiset(rows);
      var i :| 0 <= i < |rows| && rows[i] == Row(k, db[k]);
    }
  }

  /** `get_upcoming_deadlines`: the rows with a parsed due date between now
      and `daysAhead` days from now, each key once, soonest first. */
  method GetUpcomingDeadlines(db: Db, now: int, daysAhead: int) returns (rows: seq<Row>)
    ensures Ascending(rows)
    ensures forall i :: 0 <= i < |rows| ==> (&& rows[i].key in db && rows[i].record == db[rows[i].key]
                                             && rows[i].record.dueParsed.Some?
                                             && now <= Stamp(rows[i]) <= now + daysAhead * 86400)
    ensures forall i, j :: 0 <= i < j < |rows| ==> rows[i].key != rows[j].key
    ensures forall k :: k in db && Wanted(db[k], Window(now, daysAhead))
              ==> exists i :: 0 <= i < |rows| && rows[i].key == k
  {
    rows := Select(db, Window(now, daysAhead));
    PickedRows(db, Window(now, daysAhead), rows);
  }

  /** `get_all_assignments`: every row of the store, each key once, those
      without a parsed due date first, then by due date. */
  method GetAllAssignments(db: Db) returns (rows: seq<Row>)
    ensures Ascending(rows)
    ensures |rows| == |db.Keys|
    ensures forall i :: 0 <= i < |rows| ==> rows[i].key in db && rows[i].record == db[rows[i].key]
    ensures forall i, j :: 0 <= i < j < |rows| ==> rows[i].key != rows[j].key
    ensures forall i, j :: 0 <= i < j < |rows| && rows[j].record.dueParsed.None?
              ==> rows[i].record.dueParsed.None?
  {
    rows := Select(db, All);
    PickedRows(db, All, rows);
    AllPicked(db);
    assert |rows| == |multiset(rows)| == |Picked(db, All, db.Keys)|;
  }

  lemma AllPicked(db: Db)
    ensures |Picked(db, All, db.Keys)| == |db.Keys|
  {
    assert Picked(db, All, db.Keys) == set k | k in db.Keys :: Row(k, db[k]);
    RowsOfKeys(db, db.Keys);
  }

  lemma {:induction false} RowsOfKeys(db: Db, keys: set<Key>)
    requires keys <= db.Keys
    ensures |set k | k in keys :: Row(k, db[k])| == |keys|
    decreases |keys|
  {
    if keys != {} {
      var k :| k in keys;
      RowsOfKeys(db, keys - {k});
      assert (set j | j in keys :: Row(j, db[j]))
             == (set j | j in keys - {k} :: Row(j, db[j])) + {Row(k, db[k])};
    }
  }
}
