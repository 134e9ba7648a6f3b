/** `AssignmentStorage.parse_due_date`: from the due-date text scraped off
    the page to a date-time, or nothing. */
module DueDates {
  import opened Wrappers
  import opened Text
  import opened DateTimes
  import opened TimeFormat

  /** The placeholder the scraper stores when it saw no due date. */
  const NoDueDate: string := "No due date found"

  /** A date-time Python can represent. */
  type Moment = dt: DateTime | Valid(dt) witness DateTime(1, 1, 1, 0, 0)

  /** `dateparser.parse` when that library is installed: an opaque
      function that may or may not recognise the text. */
  type DateOracle = string -> Option<Moment>

  /** The text handed to the parsers: every `Due:` removed, then stripped. */
  function Clean(raw: string): string {
    Strip(RemoveAll(raw, "Due:"))
  }

  /** `parse_due_date`. Empty text and the placeholder give nothing. Any
      other text is cleaned and offered first to the oracle, when there is
      one, and then to `strptime` with the fixed format; text neither
      recognises gives nothing rather than an error. The second, identical
      `strptime` attempt of `parse_due_date` cannot succeed where the first
      failed and is not repeated here. */
  function ParseDueDate(raw: string, oracle: Option<DateOracle>): (r: Option<Moment>)
    ensures raw == "" || raw == NoDueDate ==> r.None?
    ensures raw != "" && raw != NoDueDate && (oracle.None? || oracle.value(Clean(raw)).None?)
      ==> r == Strptime(Clean(raw))
    ensures raw != "" && raw != NoDueDate && oracle.Some? && oracle.value(Clean(raw)).Some?
      ==> r == oracle.value(Clean(raw))
  {
    if raw == "" || raw == NoDueDate then None
    else
      var cleaned := Clean(raw);
      var guess := if oracle.Some? then oracle.value(cleaned) else None;
      if guess.Some? then guess
      else match Strptime(cleaned)
        case None => None
        case Some(dt) => Some(dt)
  }

  /** Without the oracle, text of the shape `Due: <formatted date>` gives
      back the date that was formatted, whichever weekday it names. */
  lemma ParseFormatted(dt: DateTime, wd: nat, raw: string)
    requires Valid(dt) && wd < 7
    requires raw != "" && raw != NoDueDate
    ensures Clean(raw) == Format(dt, wd) ==> ParseDueDate(raw, None) == Some(dt)
  {
    StrptimeFormat(dt, wd);
  }

  /** A `Due: ` prefix in front of text with no `Due:` in it and no
      whitespace at its ends is cleaned away exactly. */
  lemma CleanPrefixed(raw: string)
    requires |raw| >= 5 && raw[..5] == "Due: "
    requires !Contains(raw[5..], "Due:") && NoEdgeSpace(raw[5..])
    ensures Clean(raw) == raw[5..]
  {
    var text := raw[5..];
    var t := [' '] + text;
    assert raw == "Due:" + t;
    RemoveAllLeading("Due:", t);
    assert [] + [' '] + text == t;
    ContainsAcross([], ' ', text, "Due:");
    RemoveAllAbsent(t, "Due:");
    assert SpaceRun(t) == 1 by {
      SpaceRunOne(text);
    }
    StripFixed(text);
  }

  /** The midnight example: "Due: Tuesday, 19 August 2025, 12:00 AM" is
      19 August 2025 at 00:00. */
  lemma MidnightExample()
    ensures ParseDueDate("Due: Tuesday, 19 August 2025, 12:00 AM", None)
      == Some(DateTime(2025, 8, 19, 0, 0))
  {
    MidnightCleaned();
    MidnightFormatted();
    ParseFormatted(DateTime(2025, 8, 19, 0, 0), 1, "Due: Tuesday, 19 August 2025, 12:00 AM");
  }

  lemma MidnightCleaned()
    ensures Clean("Due: Tuesday, 19 August 2025, 12:00 AM") == "Tuesday, 19 August 2025, 12:00 AM"
  {
    var raw := "Due: Tuesday, 19 August 2025, 12:00 AM";
    assert raw[..5] == "Due: ";
    assert raw[5..] == "Tuesday, 19 August 2025, 12:00 AM";
    MidnightText();
    CleanPrefixed(raw);
  }

  lemma MidnightText()
    ensures !Contains("Tuesday, 19 August 2025, 12:00 AM", "Due:")
    ensures NoEdgeSpace("Tuesday, 19 August 2025, 12:00 AM")
  {
    MissingCharNotContained("Tuesday, 19 August 2025, 12:00 AM", "Due:", 'D');
  }

  lemma MidnightFormatted()
    ensures Valid(DateTime(2025, 8, 19, 0, 0))
    ensures Format(DateTime(2025, 8, 19, 0, 0), 1) == "Tuesday, 19 August 2025, 12:00 AM"
  {
    var dt := DateTime(2025, 8, 19, 0, 0);
    MidnightClock();
    var rest := [','] + ([' '] + FormatClock(dt));
    MidnightDate(rest);
    TuesdayName();
    assert Format(dt, 1) == Capitalize(Weekdays[1]) + ([','] + ([' '] + FormatDate(dt, rest)));
    MidnightPieces();
  }

  lemma TuesdayName()
    ensures Capitalize(Weekdays[1]) == "Tuesday"
  {
  }

  lemma MidnightPieces()
    ensures "Tuesday" + ([','] + ([' '] + ("19" + ([' '] + ("August" + ([' '] + ("2025"
      + ([','] + ([' '] + ("12" + ([':'] + ("00" + ([' '] + "AM")))))))))))))
      == "Tuesday, 19 August 2025, 12:00 AM"
  {
  }

  lemma MidnightClock()
    ensures Valid(DateTime(2025, 8, 19, 0, 0))
    ensures FormatClock(DateTime(2025, 8, 19, 0, 0)) == "12" + ([':'] + ("00" + ([' '] + "AM")))
  {
    assert To12(0) == 12;
    assert Show(1, 1) == "1";
    assert Show(12, 2) == "12";
    assert Show(0, 1) == "0";
    assert Show(0, 2) == "00";
  }

  lemma MidnightDate(rest: string)
    ensures Valid(DateTime(2025, 8, 19, 0, 0))
    ensures FormatDate(DateTime(2025, 8, 19, 0, 0), rest) == "19" + ([' '] + ("August" + ([' '] + ("2025" + rest))))
  {
    assert Capitalize(Months[7]) == "August";
    ShowDay();
    ShowYear();
  }

  lemma ShowDay()
    ensures Show(19, 2) == "19"
  {
    assert Show(1, 1) == "1";
  }

  lemma ShowYear()
    ensures Show(2025, 4) == "2025"
  {
    assert Show(2, 1) == "2";
    assert Show(20, 2) == "20";
    assert Show(202, 3) == "202";
  }

  /** Empty text and the placeholder never reach a parser. */
  lemma PlaceholderGivesNothing(oracle: Option<DateOracle>)
    ensures ParseDueDate("", oracle) == None
    ensures ParseDueDate(NoDueDate, oracle) == None
  {
  }

  /** Text whose cleaned form does not open with a weekday name gives
      nothing instead of an error. */
  lemma NoWeekdayGivesNothing(raw: string)
    requires raw != "" && raw != NoDueDate
    ensures var c := Clean(raw);
            Lower(c[..LetterRun(c)]) !in Weekdays ==> ParseDueDate(raw, None) == None
  {
  }

  /** The example "Due: soon" gives nothing. */
  lemma UnparseableGivesNothing()
    ensures ParseDueDate("Due: soon", None) == None
  {
    var raw := "Due: soon";
    assert raw[..5] == "Due: ";
    assert raw[5..] == "soon";
    MissingCharNotContained("soon", "Due:", 'D');
    CleanPrefixed(raw);
    SoonIsNoWeekday();
  }

  lemma SoonIsNoWeekday()
    ensures Name("soon", Weekdays) == None
  {
    LetterRunOf("soon", []);
    assert "soon" + [] == "soon";
    assert "soon"[..4] == "soon";
    assert Lower("soon") == "soon";
    assert "soon" !in Weekdays;
  }
}
