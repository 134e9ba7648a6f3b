/** `datetime.strptime(s, "%A, %d %B %Y, %I:%M %p")` for the one format the
    agent tries, and the matching `strftime` rendering.

    The format compiles to an anchored pattern in which every space of the
    format becomes a run of one or more whitespace characters, names are
    matched without regard to case, and the whole input must be consumed.
    On ASCII text, the pattern's alternatives for each numeric field (`%d`
    is one or two digits from 1 to 31, `%I` from 1 to 12, `%M` from 0 to
    59, `%Y` exactly four digits) accept exactly the maximal digit runs of
    those lengths whose value is in range, so the parse is written here as
    a deterministic tokenizer over maximal runs. Digits here are the ASCII
    digits and names are compared after lower-casing ASCII letters only:
    the other Unicode decimal digits and case-insensitive letter matches
    that Python's pattern also accepts are rejected here. The weekday is recognised
    but not checked against the date; the day is checked against the
    month's length and the year must be at least 1. */
module TimeFormat {
  import opened Wrappers
  import opened Text
  import opened DateTimes

  const Weekdays: seq<string> :=
    ["monday", "tuesday", "wednesday", "thursday", "friday", "saturday", "sunday"]

  const Months: seq<string> :=
    ["january", "february", "march", "april", "may", "june", "july",
     "august", "september", "october", "november", "december"]

  /** Position of the first entry equal to `w`. */
  function Find(names: seq<string>, w: string): (r: Option<nat>)
    ensures r.Some? ==> (r.value < |names| && names[r.value] == w
                         && forall j :: 0 <= j < r.value ==> names[j] != w)
    ensures r.None? <==> w !in names
  {
    if |names| == 0 then None
    else if names[0] == w then Some(0)
    else match Find(names[1..], w)
      case None => None
      case Some(i) => Some(i + 1)
  }

  /** A maximal run of letters that spells, ignoring case, one of `names`:
      its position and the rest of the input. */
  function Name(s: string, names: seq<string>): Option<(nat, string)> {
    var n := LetterRun(s);
    var i :- Find(names, Lower(s[..n]));
    Some((i, s[n..]))
  }

  /** The literal character `c`. */
  function Char(s: string, c: char): Option<string> {
    if |s| > 0 && s[0] == c then Some(s[1..]) else None
  }

  /** One or more whitespace characters (a space of the format). */
  function Gap(s: string): Option<string> {
    var n := SpaceRun(s);
    if n == 0 then None else Some(s[n..])
  }

  /** A maximal run of `minLen` to `maxLen` digits whose value lies in
      `lo .. hi`: the value and the rest of the input. */
  function Field(s: string, minLen: nat, maxLen: nat, lo: nat, hi: nat): Option<(nat, string)> {
    var n := DigitRun(s);
    if n < minLen || n > maxLen then None
    else
      var v := Number(s[..n]);
      if v < lo || v > hi then None else Some((v, s[n..]))
  }

  /** `%p` at the end of the input: true for PM. */
  function Meridiem(s: string): Option<bool> {
    var l := Lower(s);
    if l == "am" then Some(false) else if l == "pm" then Some(true) else None
  }

  /** `%I` with `%p` to the 24-hour clock. The result is the unique hour of
      the day with the same reading on a 12-hour dial and on the right
      side of noon: 12 AM is midnight and 12 PM is noon. */
  function To24(h12: nat, pm: bool): (h: nat)
    requires 1 <= h12 <= 12
    ensures h < 24 && h % 12 == h12 % 12 && (h >= 12 <==> pm)
  {
    if pm then (if h12 == 12 then 12 else h12 + 12)
    else (if h12 == 12 then 0 else h12)
  }

  /** `%I`: the hour on a 12-hour dial. */
  function To12(h: nat): (h12: nat)
    requires h < 24
    ensures 1 <= h12 <= 12 && To24(h12, h >= 12) == h
  {
    if h % 12 == 0 then 12 else h % 12
  }

  /** `%d %B %Y`: the day, the month (1 to 12), the year, and the rest
      of the input. */
  function DatePart(s: string): Option<(nat, nat, nat, string)> {
    var day :- Field(s, 1, 2, 1, 31);
    var s1 :- Gap(day.1);
    var month :- Name(s1, Months);
    var s2 :- Gap(month.1);
    var year :- Field(s2, 4, 4, 0, 9999);
    Some((day.0, month.0 + 1, year.0, year.1))
  }

  /** `%I:%M %p` up to the end of the input: the hour of the day and the
      minute. */
  function ClockPart(s: string): Option<(nat, nat)> {
    var hour :- Field(s, 1, 2, 1, 12);
    var s1 :- Char(hour.1, ':');
    var minute :- Field(s1, 1, 2, 0, 59);
    var s2 :- Gap(minute.1);
    var pm :- Meridiem(s2);
    Some((To24(hour.0, pm), minute.0))
  }

  /** `datetime.strptime(s, "%A, %d %B %Y, %I:%M %p")`, with `None` for
      every input on which Python raises `ValueError`. */
  function Strptime(s: string): (r: Option<DateTime>)
    ensures r.Some? ==> Valid(r.value)
  {
    var weekday :- Name(s, Weekdays);
    var s1 :- Char(weekday.1, ',');
    var s2 :- Gap(s1);
    var date :- DatePart(s2);
    var s3 :- Char(date.3, ',');
    var s4 :- Gap(s3);
    var clock :- ClockPart(s4);
    var dt := DateTime(date.2, date.1, date.0, clock.0, clock.1);
    if Valid(dt) then Some(dt) else None
  }

  /** The first letter in upper case, as `strftime` prints names. */
  function Capitalize(w: string): string {
    if |w| > 0 && 'a' <= w[0] <= 'z' then [(w[0] as int - 32) as char] + w[1..] else w
  }

  /** `dt.strftime("%A, %d %B %Y, %I:%M %p")` given the weekday's position
      `wd` (Monday is 0), which the parser ignores. */
  function Format(dt: DateTime, wd: nat): string
    requires Valid(dt) && wd < 7
  {
    Capitalize(Weekdays[wd]) + ([','] + ([' '] + FormatDate(dt, [','] + ([' '] + FormatClock(dt)))))
  }

  /** `%d %B %Y` printed in front of `rest`. */
  function FormatDate(dt: DateTime, rest: string): string
    requires Valid(dt)
  {
    Show(dt.day, 2) + ([' '] + (Capitalize(Months[dt.month - 1]) + ([' '] + (Show(dt.year, 4) + rest))))
  }

  /** `%I:%M %p`. */
  function FormatClock(dt: DateTime): string
    requires Valid(dt)
  {
    Show(To12(dt.hour), 2) + ([':'] + (Show(dt.minute, 2) + ([' '] + (if dt.hour >= 12 then "PM" else "AM"))))
  }

  /** Every name of the two tables is a non-empty run of lower-case
      letters, and no name occurs twice. */
  predicate LowerWord(w: string) {
    |w| > 0 && forall i :: 0 <= i < |w| ==> 'a' <= w[i] <= 'z'
  }

  predicate WellFormedNames(names: seq<string>) {
    (forall i :: 0 <= i < |names| ==> LowerWord(names[i]))
    && forall i, j :: 0 <= i < j < |names| ==> names[i] != names[j]
  }

  lemma WeekdaysWellFormed()
    ensures WellFormedNames(Weekdays)
  {
  }

  lemma MonthsWellFormed()
    ensures WellFormedNames(Months)
  {
  }

  lemma CapitalizeRead(w: string)
    requires LowerWord(w)
    ensures forall i :: 0 <= i < |Capitalize(w)| ==> IsLetter(Capitalize(w)[i])
    ensures Lower(Capitalize(w)) == w
  {
  }

  /** A capitalised name followed by a non-letter is read back as that
      name. */
  lemma NameRead(names: seq<string>, i: nat, rest: string)
    requires WellFormedNames(names) && i < |names|
    requires rest == [] || !IsLetter(rest[0])
    ensures Name(Capitalize(names[i]) + rest, names) == Some((i, rest))
  {
    var w := Capitalize(names[i]);
    CapitalizeRead(names[i]);
    LetterRunOf(w, rest);
    assert (w + rest)[..|w|] == w;
    assert (w + rest)[|w|..] == rest;
    var r := Find(names, names[i]);
    assert r.Some? && r.value == i;
  }

  /** A zero-padded field followed by a non-digit is read back as its
      value. */
  lemma FieldRead(n: nat, width: nat, rest: string, minLen: nat, maxLen: nat, lo: nat, hi: nat)
    requires 1 <= width && n < Pow10(width) && minLen <= width <= maxLen && lo <= n <= hi
    requires rest == [] || !IsDigit(rest[0])
    ensures Field(Show(n, width) + rest, minLen, maxLen, lo, hi) == Some((n, rest))
  {
    var w := Show(n, width);
    ShowWidth(n, width);
    DigitRunOf(w, rest);
    assert (w + rest)[..|w|] == w;
    assert (w + rest)[|w|..] == rest;
  }

  lemma GapRead(rest: string)
    requires rest == [] || !IsSpace(rest[0])
    ensures Gap([' '] + rest) == Some(rest)
  {
    SpaceRunOne(rest);
  }

  lemma MonthRead(m: int, rest: string)
    requires 1 <= m <= 12
    requires rest == [] || !IsLetter(rest[0])
    ensures Name(Capitalize(Months[m - 1]) + rest, Months) == Some((m - 1, rest))
  {
    var i: nat := m - 1;
    MonthsWellFormed();
    NameRead(Months, i, rest);
  }

  lemma WeekdayRead(wd: nat, rest: string)
    requires wd < 7
    requires rest == [] || !IsLetter(rest[0])
    ensures Name(Capitalize(Weekdays[wd]) + rest, Weekdays) == Some((wd, rest))
  {
    WeekdaysWellFormed();
    NameRead(Weekdays, wd, rest);
  }

  lemma DatePartRead(dt: DateTime, rest: string)
    requires Valid(dt)
    requires rest == [] || !IsDigit(rest[0])
    ensures DatePart(FormatDate(dt, rest)) == Some((dt.day, dt.month, dt.year, rest))
  {
    var s2 := Show(dt.year, 4) + rest;
    var s1 := Capitalize(Months[dt.month - 1]) + ([' '] + s2);
    FieldRead(dt.day, 2, [' '] + s1, 1, 2, 1, 31);
    GapRead(s1);
    MonthYearRead(dt, rest);
  }

  lemma MonthYearRead(dt: DateTime, rest: string)
    requires Valid(dt)
    requires rest == [] || !IsDigit(rest[0])
    ensures var s2 := Show(dt.year, 4) + rest;
      && Name(Capitalize(Months[dt.month - 1]) + ([' '] + s2), Months) == Some((dt.month - 1, [' '] + s2))
      && Gap([' '] + s2) == Some(s2)
      && Field(s2, 4, 4, 0, 9999) == Some((dt.year, rest))
  {
    var s2 := Show(dt.year, 4) + rest;
    MonthRead(dt.month, [' '] + s2);
    GapRead(s2);
    FieldRead(dt.year, 4, rest, 4, 4, 0, 9999);
  }

  lemma ClockPartRead(dt: DateTime)
    requires Valid(dt)
    ensures ClockPart(FormatClock(dt)) == Some((dt.hour, dt.minute))
  {
    var s2 := if dt.hour >= 12 then "PM" else "AM";
    var s1 := Show(dt.minute, 2) + ([' '] + s2);
    FieldRead(To12(dt.hour), 2, [':'] + s1, 1, 2, 1, 12);
    assert Field(FormatClock(dt), 1, 2, 1, 12) == Some((To12(dt.hour), [':'] + s1));
    assert Char([':'] + s1, ':') == Some(s1);
    FieldRead(dt.minute, 2, [' '] + s2, 1, 2, 0, 59);
    GapRead(s2);
    MeridiemRead(dt.hour >= 12);
  }

  lemma MeridiemRead(pm: bool)
    ensures Meridiem(if pm then "PM" else "AM") == Some(pm)
  {
    if pm {
      assert Lower("PM") == "pm";
    } else {
      assert Lower("AM") == "am";
    }
  }

  /** Parsing what `Format` prints gives back the date-time, whatever
      weekday name was printed. */
  lemma StrptimeFormat(dt: DateTime, wd: nat)
    requires Valid(dt) && wd < 7
    ensures Strptime(Format(dt, wd)) == Some(dt)
  {
    var s1 := [' '] + FormatDate(dt, [','] + ([' '] + FormatClock(dt)));
    WeekdayRead(wd, [','] + s1);
    assert Char([','] + s1, ',') == Some(s1);
    DateClockRead(dt);
  }

  lemma DateClockRead(dt: DateTime)
    requires Valid(dt)
    ensures var s3 := [' '] + FormatClock(dt);
      var s2 := FormatDate(dt, [','] + s3);
      && Gap([' '] + s2) == Some(s2)
      && DatePart(s2) == Some((dt.day, dt.month, dt.year, [','] + s3))
      && Char([','] + s3, ',') == Some(s3)
      && Gap(s3) == Some(FormatClock(dt))
      && ClockPart(FormatClock(dt)) == Some((dt.hour, dt.minute))
  {
    var s4 := FormatClock(dt);
    var s3 := [' '] + s4;
    var s2 := FormatDate(dt, [','] + s3);
    GapRead(s2);
    DatePartRead(dt, [','] + s3);
    GapRead(s4);
    ClockPartRead(dt);
  }
}
