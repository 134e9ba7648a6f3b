# Assignment Tracker Agent — a Dafny model of its core

The agent scrapes a course page for assignments, stores them in SQLite and
sends reminders before their deadlines. This project models, as pure Dafny
functions and methods, the part of `iby_agent.py` that decides things:

- the keyword classifier (`AssignmentClassifier.classify_text`);
- the two scraping strategies of `scrape_assignments` on a page given as a
  sequence of elements in document order: strategy 1 walks up to five
  levels of ancestors from each element that mentions "Assignment", and
  strategy 2 is the flat fallback that pairs a buffered title with the
  next `Due:` line. Both use the near-duplicate test built on
  `normalize_title` and `is_duplicate_title`;
- `parse_due_date`, with `datetime.strptime` for the fixed format
  `%A, %d %B %Y, %I:%M %p` written out as a tokenizer and proved to read back
  what `strftime` writes;
- the assignments table as a map from `(course_url, assignment_name)` to
  a record, and the operations on it. These are `store_assignments` (an
  upsert per item with new/updated/total counts), `mark_as_notified`, and
  the two ordered queries `get_upcoming_deadlines` and
  `get_all_assignments` (NULL dates first);
- `check_and_notify_deadlines`: the 30-day window, the whole-day count
  rounded down as `timedelta.days` rounds it, and the rule "a listed day
  count, or one day or less". Each reminder is sent once and the row is
  marked. The title `notify_assignment_deadline` gives each reminder is
  modelled too;
- `is_valid_url`.

Modules: `Wrappers` (Option), `Text` (the Python string operations used),
`Classifier`, `Dedup`, `DateTimes` (proleptic Gregorian calendar, instants
in seconds), `TimeFormat` (strptime/strftime), `DueDates`, `Extraction`,
`Storage`, `Notifier`.

Clock readings and the optional `dateparser` library are parameters: `now`
is an integer number of seconds on the same scale as `DateTimes.Instant`,
and `dateparser.parse` is an arbitrary function `DueDates.DateOracle`. The
store takes its date parser as a parameter, and the agent's parser is
`raw => DueDates.ParseDueDate(raw, oracle)`.

## Model

| member | source | states |
|---|---|---|
| Classifier.Classify | iby_agent.py:340-367 | accepted exactly when the assignment-keyword count beats the other count. The confidence `max/(sum+1)` lies in [0, 1), is at least one half exactly when the counts differ, and is 0 exactly when no keyword occurs |
| Classifier.HitsZero | iby_agent.py:357-358 | a keyword count is 0 exactly when no keyword of the list occurs in the text |
| Classifier.HitsAtLeastTwo | iby_agent.py:357-358 | two different keywords that occur give a count of at least two |
| Classifier.HitsAtMostOne | iby_agent.py:357-358 | when only one keyword can occur, the count is at most one |
| Classifier.AcceptedWithoutNegatives | iby_agent.py:357-360 | one assignment keyword and no other keyword makes the text an assignment |
| Classifier.RejectedByTwoNegatives | iby_agent.py:357-360 | two non-assignment keywords against at most one assignment keyword make it not an assignment |
| Classifier.ProgrammingAssignmentAccepted | iby_agent.py:340-367 | "Programming Assignment 3" is classified as an assignment |
| Classifier.SyllabusRejected | iby_agent.py:340-367 | "Course Syllabus and Policy" is not an assignment |
| Dedup.NormalizeTitle | iby_agent.py:471-472 | the normalized title has no upper-case letter, no whitespace at its ends, and only single spaces inside |
| Dedup.NormalizeJoin | iby_agent.py:471-472 | two words joined by any non-empty whitespace run normalize to their own normal forms joined by one space, so the characters are kept in order and only the run shrinks |
| Dedup.NormalizeIgnoresEdges | iby_agent.py:471-472 | stripping a title first does not change its normal form |
| Dedup.NormalizeIdempotent | iby_agent.py:471-472 | normalizing twice is normalizing once |
| Dedup.NormalizeFixed | iby_agent.py:471-472 | a title already in normal form is left unchanged |
| Dedup.NormalizeTrimmed | iby_agent.py:471-472 | on a trimmed title with single spaces, normalization is just lower-casing |
| Dedup.NearDuplicateSymmetric | iby_agent.py:474-480 | the near-duplicate test is symmetric and reflexive |
| Dedup.IsDuplicateTitle | iby_agent.py:474-480 | the loop answers true exactly when some title of the set is a near duplicate, whatever order the set is walked in |
| Dedup.AddKeepsDistinct | iby_agent.py:527-528 | adding a title that passed the test grows the set by one and keeps its titles pairwise non-duplicate |
| Dedup.ContainedTitlesCollide | iby_agent.py:471-480 | a title whose stripped, lower-cased text contains another's stripped, lower-cased text counts as its duplicate, whatever whitespace runs either holds |
| Dedup.NormalFormsContain | iby_agent.py:471-472 | containment of the stripped, lower-cased texts survives normalization: collapsing whitespace keeps an occurrence that starts and ends with a non-space |
| Dedup.NumberedTitlesCollide | iby_agent.py:474-480 | "Assignment 10" is rejected as a duplicate once "Assignment 1" is found |
| Text.Strip | iby_agent.py:494 | the stripped text has no whitespace at either end, and it is the middle of the input with only whitespace cut off |
| Text.StripFixed | iby_agent.py:494 | text without whitespace at its ends is left unchanged by stripping |
| Text.Split | iby_agent.py:509 | splitting gives at least one piece, and no piece contains the separator |
| Text.JoinSplit | iby_agent.py:509 | joining the pieces with the separator gives back the text |
| Text.SplitJoin | iby_agent.py:509 | splitting pieces joined by a separator they lack gives back the pieces |
| Text.RemoveAllAbsent | iby_agent.py:79 | `replace(p, "")` leaves text without `p` unchanged |
| Text.CollapseShape | iby_agent.py:472 | after `re.sub(r'\s+', ' ', ...)` every whitespace is a single space |
| Text.CollapseFixed | iby_agent.py:472 | text whose whitespace is already single spaces is left unchanged |
| Text.CollapseAppend | iby_agent.py:472 | collapsing text split after a non-space collapses the two parts independently |
| Text.CollapseAppendRight | iby_agent.py:472 | collapsing text split before a non-space collapses the two parts independently |
| Text.CollapseKeepsInner | iby_agent.py:472 | a part without edge whitespace, collapsed, occurs in the collapse of any text around it |
| Text.CollapseJoin | iby_agent.py:472 | a whitespace run between two parts becomes exactly one space, and the parts are collapsed as they stand |
| Text.ShowIntInjective | iby_agent.py:324 | different integers are written as different decimal text |
| DateTimes.InstantOrder | iby_agent.py:159-160 | comparing instants is comparing date-times field by field (year, month, day, hour, minute), and equal instants mean equal date-times |
| DateTimes.OrdinalIncreases | iby_agent.py:159-160 | a later calendar day has a larger day number |
| TimeFormat.To12 | iby_agent.py:89 | the 12-hour clock hour and AM/PM convert back to the same 24-hour hour |
| TimeFormat.To24 | iby_agent.py:89 | `%I` with `%p` gives a 24-hour hour that agrees modulo 12 and is in the afternoon exactly for PM |
| TimeFormat.Find | iby_agent.py:89 | a name lookup finds the first matching position, and fails exactly when the name is not in the list |
| TimeFormat.Strptime | iby_agent.py:89 | whatever strptime accepts is a valid date-time |
| TimeFormat.StrptimeFormat | iby_agent.py:89 | strptime reads back exactly the date-time that strftime wrote in the same format, whichever weekday name was written |
| TimeFormat.NameRead | iby_agent.py:89 | a capitalized weekday or month name is read back as its position |
| TimeFormat.FieldRead | iby_agent.py:89 | a zero-padded number field is read back as its value |
| TimeFormat.ClockPartRead | iby_agent.py:89 | the written `%I:%M %p` is read back as the same hour and minute |
| TimeFormat.DatePartRead | iby_agent.py:89 | the written `%d %B %Y` is read back as the same day, month and year |
| DueDates.ParseDueDate | iby_agent.py:73-102 | the result is a date-time Python can represent. Empty text and the placeholder give nothing. A date the oracle recognises is taken; otherwise the result is strptime of the cleaned text |
| DueDates.ParseFormatted | iby_agent.py:73-102 | text that cleans to a formatted date parses back to that date |
| DueDates.CleanPrefixed | iby_agent.py:79 | a `Due: ` prefix on text without `Due:` and without edge spaces is cleaned away exactly |
| DueDates.MidnightExample | iby_agent.py:88-91 | "Due: Tuesday, 19 August 2025, 12:00 AM" parses to 19 August 2025 at 00:00 |
| DueDates.PlaceholderGivesNothing | iby_agent.py:75-76 | the empty text and "No due date found" give no date with or without the oracle |
| DueDates.NoWeekdayGivesNothing | iby_agent.py:79-102 | without the oracle, any text whose cleaned form does not open with a weekday name gives no date rather than an error |
| DueDates.UnparseableGivesNothing | iby_agent.py:87-102 | the example "Due: soon" gives no date |
| Extraction.LastTitleLine | iby_agent.py:513-515 | the title a level yields is a line with "Assignment", no marker, more than five characters, and no navigation prefix |
| Extraction.LastDueLine | iby_agent.py:516-517 | the due date a level yields starts with `Due:` |
| Extraction.DueLineIsNoTitle | iby_agent.py:513-517 | a due line is never a title line |
| Extraction.ScanLineCases | iby_agent.py:511-517 | one line either replaces the title, replaces the due date, or changes nothing, in that priority |
| Extraction.ScanLinesAppend | iby_agent.py:511-517 | the line loop over two runs of lines is the loop over the first, continued over the second |
| Extraction.ScanLinesLast | iby_agent.py:511-517 | after the line loop, the title is the last title line and the due date the last due line, or what they were before |
| Extraction.Levels | iby_agent.py:504-523 | the walk sees between one and five levels, the first being the element itself |
| Extraction.FirstTitle | iby_agent.py:505-520 | the title the walk stops at is a title line |
| Extraction.WalkFindsFirstTitle | iby_agent.py:505-520 | the walk's title is the one from the first level that mentions `Due:` and has a title line. Its due date is the last due line of the levels scanned up to that point |
| Extraction.LastDueAppend | iby_agent.py:516-517 | the last due line of two runs is the second run's, if it has one |
| Extraction.ElementCandidate | iby_agent.py:494-525 | a skipped element yields nothing. Any other element yields a candidate exactly when the walk finds a title; the candidate carries that title and the last due line seen, or the placeholder |
| Extraction.Emit | iby_agent.py:527-533 | after an emit the title is covered by the found set. The output grows by one exactly when the title was no near duplicate, and the new item is the candidate |
| Extraction.EmitKeepsConsistent | iby_agent.py:527-533 | an emit keeps the found set equal to the emitted titles, one per item, pairwise non-duplicate |
| Extraction.ConsistentDistinct | iby_agent.py:527-533 | a consistent found set is pairwise non-duplicate |
| Extraction.EmitAll | iby_agent.py:492-536 | emitting a sequence keeps consistency and only appends. Each new item came from the sequence, and every candidate ends up covered |
| Extraction.Picks | iby_agent.py:485-488 | an element not selected by the XPath (a first text node with "Assignment" and without "Assignments") contributes nothing; a selected one contributes its candidate |
| Extraction.AncestorWalk | iby_agent.py:484-536 | strategy 1 yields a consistent harvest. Each item is the candidate of a selected element, and every selected element's candidate title is covered |
| Extraction.FallbackStep | iby_agent.py:546-567 | empty texts and short "Assignment" texts with a marker change nothing; a short marker-free "Assignment" text replaces the buffer; any other `Due:` text while a title is buffered empties the buffer and appends the pair unless the title is a near duplicate; every other text changes nothing. The buffer holds only short marker-free "Assignment" texts |
| Extraction.StepKeepsConsistent | iby_agent.py:546-567 | a fallback step keeps the harvest consistent |
| Extraction.TextNodes | iby_agent.py:542 | `//*[text()]` keeps exactly the elements that have a text node of their own |
| Extraction.TextNodesAppend | iby_agent.py:542 | the selection of a concatenation is the concatenation of the selections, so document order and repetitions are kept |
| Extraction.TextNodesAll | iby_agent.py:542 | a page whose every element has its own text is selected whole |
| Extraction.Fallback | iby_agent.py:538-567 | the fallback keeps the harvest consistent, never loses a found title or result, and only appends pairs of a buffered title and a due line |
| Extraction.FallbackAppend | iby_agent.py:546-567 | the loop over two stretches of elements is the loop over the second started from the state the first ends in |
| Extraction.FallbackSettles | iby_agent.py:546-567 | a `Due:` text met while a title is buffered leaves that title covered by the found set at the end, and the pair is in the results when the title was new |
| Extraction.Scrape | iby_agent.py:484-567 | no two titles returned are near duplicates, and each item is a strategy-1 candidate or a fallback pair |
| Extraction.FallbackOnlyWhenWalkEmpty | iby_agent.py:539 | the fallback result is returned exactly when strategy 1 found nothing; otherwise strategy 1's result is |
| Extraction.EmitAllNone | iby_agent.py:492-536 | when no element yields a candidate, strategy 1 changes nothing |
| Extraction.LoneWithoutDue | iby_agent.py:508 | an element without `Due:` and without ancestors yields no candidate |
| Extraction.TitleThenDue | iby_agent.py:484-567 | a page of three separate texts (a title, a due line, something else) gets nothing from strategy 1, and the fallback pairs the title with the due line |
| Extraction.LoneFallback | iby_agent.py:546-567 | on such a page the fallback emits exactly that pair and ends with an empty buffer |
| Extraction.LoneWalk | iby_agent.py:492-536 | on such a page strategy 1 yields the empty harvest |
| Extraction.FlatPageUsesFallback | iby_agent.py:484-567 | the concrete flat page "Assignment: Essay 1", "Due: Friday, 1 September 2025, 11:59 PM", "Lecture Notes Week 1" yields exactly that title with that due date |
| Extraction.IsValidUrl | iby_agent.py:380-381 | a URL is accepted exactly when it starts with `http://` or `https://` |
| Storage.StoredTitleFacts | iby_agent.py:112 | a leading "Title: " is dropped from the stored name, and a title without "Title: " is stored as scraped |
| Storage.Upsert | iby_agent.py:114-139 | the key is present afterwards with the new raw and parsed due date and the current time. Its notified flag is kept if the row existed and false if not; every other row is unchanged |
| Storage.UpsertGrows | iby_agent.py:124-139 | an upsert adds a row exactly when the key was absent |
| Storage.StoreEntries | iby_agent.py:110-141 | each item is counted once, as new or updated. The table gains exactly the batch's keys, and the new count is the number of rows added |
| Storage.StoreAssignments | iby_agent.py:104-146 | `new + updated == total ==` batch size. The keys afterwards are the old keys plus the batch's, and `new` is how many keys were added |
| Storage.StoreKeepsOthers | iby_agent.py:124-139 | rows outside the batch are untouched, no notified flag changes, and new rows start unnotified |
| Storage.StoreLastWins | iby_agent.py:110-139 | for a key repeated in one batch, the last item's due date is stored, and every batch row gets the current time |
| Storage.PlaceholderRowUnparsed | iby_agent.py:73-76 | with `parse_due_date` as the parser, a row whose last due text in the batch is empty or the placeholder has no parsed due date |
| Storage.LastIndexOf | iby_agent.py:110-139 | every key of a batch has a last item |
| Storage.StoreAgain | iby_agent.py:110-139 | storing a batch that the table already reflects changes nothing and adds nothing |
| Storage.StoreTwice | iby_agent.py:104-146 | storing the same batch again at the same moment counts every item as updated, none as new, and leaves the table as it was |
| Storage.RepeatInBatchCountsUpdated | iby_agent.py:124-141 | a fresh key twice in one batch counts once as new and once as updated |
| Storage.MarkAsNotified | iby_agent.py:176-188 | exactly the row with this key gets its flag set, and a missing key changes nothing |
| Storage.MarkLatch | iby_agent.py:176-188 | marking is idempotent, never clears a flag, and is a no-op for a missing key |
| Storage.InsertByStamp | iby_agent.py:160 | insertion keeps the rows ascending and adds exactly one row |
| Storage.Select | iby_agent.py:155-161 | a query returns, in ascending order, exactly the rows it selects (as a multiset) |
| Storage.PickedRows | iby_agent.py:155-161 | a query result has every selected row once and no other row |
| Storage.GetUpcomingDeadlines | iby_agent.py:148-174 | soonest first, each key once: exactly the rows whose parsed date lies between now and `days_ahead` days from now |
| Storage.GetAllAssignments | iby_agent.py:190-213 | every row once, ascending by date, with the rows that have no parsed date first |
| Storage.AllPicked | iby_agent.py:195-199 | the unfiltered query selects one row per key |
| Notifier.DaysUntil | iby_agent.py:613 | the day count is the whole number of days rounded down: `days * 86400 <= due - now < (days + 1) * 86400` |
| Notifier.Decide | iby_agent.py:612-617 | within the window, a row gets a notice exactly when it is eligible; the notice carries that row's day count and title |
| Notifier.NoticesExact | iby_agent.py:610-620 | every notice is about an eligible row with its day count and title, and every eligible row of the window gets one |
| Notifier.NoticesFrom | iby_agent.py:610-620 | every notice is about a row of the window |
| Notifier.NoticesAscending | iby_agent.py:610-620 | notices are sent soonest first |
| Notifier.NoticesDistinct | iby_agent.py:610-620 | no row gets two notices in one scan |
| Notifier.CheckAndNotifyDeadlines | iby_agent.py:605-620 | the table afterwards has exactly the eligible rows marked. Each notice is truthful, every eligible row gets exactly one, and they come soonest first |
| Notifier.Sweep | iby_agent.py:610-620 | the loop marks exactly the eligible rows among those of the window and sends their notices in order |
| Notifier.ScanSends | iby_agent.py:605-620 | the notices for the window are truthful, complete, once per key and in date order |
| Notifier.MarkStep | iby_agent.py:617-620 | one step marks the row of a new key exactly when it is eligible |
| Notifier.MarkedCovers | iby_agent.py:605-620 | once every eligible key has been visited, the marking is the whole scan |
| Notifier.ScanIdempotent | iby_agent.py:605-620 | a scan changes only the eligible rows' flags, and afterwards nothing is eligible. A second scan at the same moment therefore sends nothing and changes nothing |
| Notifier.RemindedDays | iby_agent.py:608-617 | a reminded row's date is between now and 30 days ahead, and its day count is listed or at most one; a past date is never reminded |
| Notifier.RemindedWhenDue | iby_agent.py:608-617 | an unnotified row in the window whose day count the rule picks is reminded |
| Notifier.DefaultAdvance | iby_agent.py:613-617 | with `advance_days` 7, 3, 1: due in exactly three days is reminded, due in five days and an hour is not, and under two days always is |
| Notifier.HeadingInjective | iby_agent.py:315-327 | different day counts get different titles |
| Notifier.HeadingLetters | iby_agent.py:315-327 | the titles for today, tomorrow and other counts differ in the letters after "Assignment Due " |

## Left out

- Selenium: the browser, login, waiting and `find_element` calls. A page is a sequence of elements in document order, each with its own first text node, its rendered text and the rendered texts of its ancestors. An exception while climbing ends the walk, which is modelled as running out of ancestors. The page is static, so reading an element's text never fails: the exception from `.text` that the outer `except Exception: continue` turns into a skipped element (iby_agent.py:494, 535) and the uncaught one in the fallback loop (iby_agent.py:547) are not modelled.
- Any XPath other than the one that picks elements and the one that picks text-bearing elements.
- SQLite: connections and schema. `datetime('now')` is UTC while `datetime.now()` is local time, and `due_date_parsed` is compared as ISO text; the model uses one clock and compares instants, which orders ISO text the same way. The code also reads the local clock once more per row (iby_agent.py:613), so a scan that crosses a day boundary between two rows can give the later row a smaller day count than the model computes.
- The classifier fields that `process_assignments` adds to each stored item; the table model keeps only the columns the queries return.
- `process_assignments`, `run`, `show_summary`, configuration loading, desktop and e-mail transports, and everything in `app.py`. These are I/O and glue around the modelled operations.
- Storage.StoreAssignments: the parser is a parameter, and the agent passes `raw => DueDates.ParseDueDate(raw, oracle)`. Calling `parse_due_date` inside the store would make every store proof depend on the date parser's text processing.
- DueDates.ParseDueDate: `dateparser.parse` is an unknown function, and nothing is assumed about which texts it recognises. Its type does restrict what it returns: a naive date-time at minute resolution. The seconds and microseconds it can return are not modelled. Neither are the timezone-aware results it gives for text that names a zone; on such a row, `due - datetime.now()` in `check_and_notify_deadlines` raises TypeError, which ends the scan.
- DueDates.ParseDueDate: the second `strptime` attempt uses the same format as the first, so it cannot succeed where the first failed, and it is not repeated. Exceptions other than a parse failure are not modelled.
- TimeFormat.Strptime: only the one fixed format is modelled. The weekday name is read but not checked against the date, as in CPython. Digits are ASCII only and names are matched after ASCII lower-casing, so text CPython accepts is rejected here when it uses other Unicode decimal digits (such as Arabic-Indic ones) or letters that match only under Unicode case-insensitive matching (such as 'ſ' for 's').
- Classifier.Confidence: an exact `real` stands for Python's IEEE double. The value itself is not rounded. The facts stated about it (in [0, 1), at least one half exactly when the counts differ, 0 exactly when no keyword occurs) also hold for the double: the counts are at most the few keywords listed, the division is correctly rounded, and 0, 0.5 and 1 are representable.
- Text.Lower: lower-cases ASCII letters only. Python's `str.lower` also folds non-ASCII letters.
- Notifier.DaysUntil: `now` is whole seconds, so the microseconds of `datetime.now()` are not modelled.
- The notification message body, its emoji, and the urgency line `notify_assignment_deadline` builds. Only the title is modelled; it is the same for "three days or less" and "more".
- Extraction.Skipped: Python lower-cases the element text with full Unicode folding, but the model folds ASCII only (as `Text.Lower`).

Behaviour of the code that a reader might not expect, modelled as written:

- With one clock, a due date already past never triggers a reminder. The `days_until <= 1` branch would accept negative counts, but the window query starts at now, so an overdue row never reaches it (`Notifier.RemindedDays`). In the code the window starts at SQLite's UTC `now` while `days_until` uses local time. So with a local zone east of UTC, a row overdue by less than the zone's offset still passes the window and is reminded with a count of -1. The model does not show this, because it uses one clock.
- Due-date cleaning removes every `Due:` in the text, not only a leading one.
- Because the near-duplicate test uses substring containment, "Assignment 10" is dropped once "Assignment 1" was found (`Dedup.NumberedTitlesCollide`).
- A key that occurs twice in one batch is counted once as new and once as updated (`Storage.RepeatInBatchCountsUpdated`).
