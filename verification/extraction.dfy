/** The two extraction strategies of `scrape_assignments`, run over an
    abstract page once the browser session has rendered it.

    A page is the sequence of its elements in document order. Each element
    carries its first text-node child (what XPath 1.0's `text()` yields in
    a string test, absent when the element has no text child), its
    rendered text (Selenium's `element.text`, which includes descendants)
    and the rendered texts of its ancestors, nearest first. */
module Extraction {
  import opened Wrappers
  import opened Text
  import opened Dedup
  import DueDates

  datatype Node = Node(firstText: Option<string>, text: string, ancestors: seq<string>)

  /** One scraped assignment: a title and the raw due-date text. */
  datatype Candidate = Candidate(title: string, due: string)

  /* ---------------------------------------------------------------- */
  /* Lines of one ancestor level                                        */
  /* ---------------------------------------------------------------- */

  /** A status marker that disqualifies a line as a title. */
  predicate HasMarker(line: string) {
    Contains(line, "Due:") || Contains(line, "Opened:") || Contains(line, "Closed:")
  }

  /** Text of a navigation control rather than of an assignment. */
  predicate IsNavigation(line: string) {
    StartsWith(line, "Click") || StartsWith(line, "View") || StartsWith(line, "Open")
    || StartsWith(line, "Navigate") || StartsWith(line, "Skip")
  }

  /** A stripped line that is taken as the assignment's title. */
  predicate IsTitleLine(line: string) {
    Contains(line, "Assignment") && !HasMarker(line) && |line| > 5 && !IsNavigation(line)
  }

  /** A stripped line that is taken as the due date. */
  predicate IsDueLine(line: string) {
    StartsWith(line, "Due:")
  }

  /** What the line loop has found so far. */
  datatype LineScan = LineScan(title: Option<string>, due: string)

  /** One pass of the line loop. A line with "Assignment" and no marker
      is a title when it is long enough and not navigation, and otherwise
      ignored; only the other lines can be due lines. */
  function ScanLine(acc: LineScan, raw: string): LineScan {
    var line := Strip(raw);
    if Contains(line, "Assignment") && !HasMarker(line) then
      if |line| > 5 && !IsNavigation(line) then acc.(title := Some(line)) else acc
    else if StartsWith(line, "Due:") then acc.(due := line)
    else acc
  }

  /** The line loop over the lines of one level. */
  function ScanLines(acc: LineScan, lines: seq<string>): LineScan
    decreases |lines|
  {
    if |lines| == 0 then acc else ScanLines(ScanLine(acc, lines[0]), lines[1..])
  }

  /** The last line that qualifies as a title, stripped. */
  function LastTitleLine(lines: seq<string>): (r: Option<string>)
    ensures r.Some? ==> IsTitleLine(r.value)
    decreases |lines|
  {
    if |lines| == 0 then None
    else if IsTitleLine(Strip(lines[|lines| - 1])) then Some(Strip(lines[|lines| - 1]))
    else LastTitleLine(lines[..|lines| - 1])
  }

  /** The last line that starts with `Due:`, stripped. */
  function LastDueLine(lines: seq<string>): (r: Option<string>)
    ensures r.Some? ==> IsDueLine(r.value)
    decreases |lines|
  {
    if |lines| == 0 then None
    else if IsDueLine(Strip(lines[|lines| - 1])) then Some(Strip(lines[|lines| - 1]))
    else LastDueLine(lines[..|lines| - 1])
  }

  /** A due line always carries a marker, so no line is both kinds. */
  lemma DueLineIsNoTitle(line: string)
    ensures IsDueLine(line) ==> !IsTitleLine(line)
  {
    if IsDueLine(line) {
      StartsWithContains(line, "Due:");
    }
  }

  lemma ScanLineCases(acc: LineScan, raw: string)
    ensures var line := Strip(raw);
      ScanLine(acc, raw) == (if IsTitleLine(line) then acc.(title := Some(line))
        else if IsDueLine(line) then acc.(due := line) else acc)
  {
    DueLineIsNoTitle(Strip(raw));
  }

  lemma {:induction false} ScanLinesAppend(acc: LineScan, a: seq<string>, b: seq<string>)
    ensures ScanLines(acc, a + b) == ScanLines(ScanLines(acc, a), b)
    decreases |a|
  {
    if |a| > 0 {
      assert (a + b)[1..] == a[1..] + b;
      ScanLinesAppend(ScanLine(acc, a[0]), a[1..], b);
    } else {
      assert a + b == b;
    }
  }

  /** Appending one line changes the state exactly as that line does. */
  lemma ScanLinesStep(acc: LineScan, init: seq<string>, last: string)
    ensures var line := Strip(last);
      && ScanLines(acc, init + [last]).title
         == (if IsTitleLine(line) then Some(line) else ScanLines(acc, init).title)
      && ScanLines(acc, init + [last]).due
         == (if IsDueLine(line) then line else ScanLines(acc, init).due)
  {
    ScanLinesAppend(acc, init, [last]);
    assert [last][1..] == [];
    ScanLineCases(ScanLines(acc, init), last);
    DueLineIsNoTitle(Strip(last));
  }

  /** The line loop keeps the last title line and the last due line,
      falling back on what it started with. */
  lemma ScanLinesLast(acc: LineScan, lines: seq<string>)
    ensures ScanLines(acc, lines).title
      == (if LastTitleLine(lines).Some? then LastTitleLine(lines) else acc.title)
    ensures ScanLines(acc, lines).due
      == (if LastDueLine(lines).Some? then LastDueLine(lines).value else acc.due)
  {
    ScanLinesLastTitle(acc, lines);
    ScanLinesLastDue(acc, lines);
  }

  lemma {:induction false} ScanLinesLastTitle(acc: LineScan, lines: seq<string>)
    ensures ScanLines(acc, lines).title
      == (if LastTitleLine(lines).Some? then LastTitleLine(lines) else acc.title)
    decreases |lines|
  {
    if |lines| > 0 {
      var init := lines[..|lines| - 1];
      var last := lines[|lines| - 1];
      assert lines == init + [last];
      ScanLinesLastTitle(acc, init);
      ScanLinesStep(acc, init, last);
    }
  }

  lemma {:induction false} ScanLinesLastDue(acc: LineScan, lines: seq<string>)
    ensures ScanLines(acc, lines).due
      == (if LastDueLine(lines).Some? then LastDueLine(lines).value else acc.due)
    decreases |lines|
  {
    if |lines| > 0 {
      var init := lines[..|lines| - 1];
      var last := lines[|lines| - 1];
      assert lines == init + [last];
      ScanLinesLastDue(acc, init);
      ScanLinesStep(acc, init, last);
    }
  }


  /* ---------------------------------------------------------------- */
  /* Strategy 1: the ancestor walk                                      */
  /* ---------------------------------------------------------------- */

  /** The texts the walk visits: the element's own, then its ancestors',
      at most five. The walk also ends at the root, which has no parent. */
  function Levels(n: Node): (r: seq<string>)
    ensures 1 <= |r| <= 5 && r[0] == n.text
  {
    var all := [n.text] + n.ancestors;
    if |all| <= 5 then all else all[..5]
  }

  /** A level whose stripped text mentions `Due:` has its lines scanned. */
  predicate Scanned(text: string) {
    Contains(Strip(text), "Due:")
  }

  function LevelLines(text: string): seq<string> {
    Split(Strip(text), '\n')
  }

  /** The title a level contributes, if any. */
  function LevelTitle(text: string): Option<string> {
    if Scanned(text) then LastTitleLine(LevelLines(text)) else None
  }

  /** The walk over the levels, threading the line loop's state and
      stopping at the first level that produced a title. */
  function Walk(levels: seq<string>, acc: LineScan): LineScan
    decreases |levels|
  {
    if |levels| == 0 then acc
    else
      var text := Strip(levels[0]);
      if text != "" && Contains(text, "Due:") then
        var next := ScanLines(acc, Split(text, '\n'));
        if next.title.Some? then next else Walk(levels[1..], next)
      else Walk(levels[1..], acc)
  }

  /** The title of the first level that has one. */
  function FirstTitle(levels: seq<string>): (r: Option<string>)
    ensures r.Some? ==> IsTitleLine(r.value)
    decreases |levels|
  {
    if |levels| == 0 then None
    else if LevelTitle(levels[0]).Some? then LevelTitle(levels[0])
    else FirstTitle(levels[1..])
  }

  /** The lines of the scanned levels, up to and including the first
      level that has a title. */
  function SeenLines(levels: seq<string>): seq<string>
    decreases |levels|
  {
    if |levels| == 0 then []
    else
      (if Scanned(levels[0]) then LevelLines(levels[0]) else [])
      + (if LevelTitle(levels[0]).Some? then [] else SeenLines(levels[1..]))
  }

  lemma {:induction false} LastDueAppend(a: seq<string>, b: seq<string>)
    ensures LastDueLine(a + b) == (if LastDueLine(b).Some? then LastDueLine(b) else LastDueLine(a))
    decreases |b|
  {
    if |b| == 0 {
      assert a + b == a;
    } else {
      assert (a + b)[..|a + b| - 1] == a + b[..|b| - 1];
      LastDueAppend(a, b[..|b| - 1]);
    }
  }

  /** Starting without a title, the walk finds the title of the first
      level that has one, and the due date of the last due line on the
      levels it scanned. */
  lemma {:induction false} WalkFindsFirstTitle(levels: seq<string>, acc: LineScan)
    requires acc.title.None?
    ensures Walk(levels, acc).title == FirstTitle(levels)
    ensures Walk(levels, acc).due
      == (if LastDueLine(SeenLines(levels)).Some? then LastDueLine(SeenLines(levels)).value else acc.due)
    decreases |levels|
  {
    if |levels| > 0 {
      var text := Strip(levels[0]);
      if Scanned(levels[0]) {
        var lines := LevelLines(levels[0]);
        var next := ScanLines(acc, lines);
        ScanLinesLast(acc, lines);
        if next.title.None? {
          WalkFindsFirstTitle(levels[1..], next);
          LastDueAppend(lines, SeenLines(levels[1..]));
        } else {
          assert lines + [] == lines;
        }
      } else {
        WalkFindsFirstTitle(levels[1..], acc);
        assert [] + SeenLines(levels[1..]) == SeenLines(levels[1..]);
      }
    }
  }

  /** Link text, navigation and fragments are skipped before any walk. */
  predicate Skipped(text: string) {
    text == "" || |text| < 5
    || (var low := Lower(text);
        Contains(low, "skip") || Contains(low, "click") || Contains(low, "open")
        || Contains(low, "view") || Contains(low, "navigate"))
  }

  /** What one selected element yields. A skipped element yields nothing;
      otherwise the title is the last title line of the first level (of at
      most five) that mentions `Due:` and has one, and the due date is the
      last due line on the levels scanned up to there, or the placeholder.
      An element whose walk finds no title yields nothing. */
  function ElementCandidate(n: Node): (r: Option<Candidate>)
    ensures Skipped(Strip(n.text)) ==> r.None?
    ensures !Skipped(Strip(n.text)) ==> (r.Some? <==> FirstTitle(Levels(n)).Some?)
    ensures r.Some? ==> r.value.title == FirstTitle(Levels(n)).value && IsTitleLine(r.value.title)
    ensures r.Some? ==> (r.value.due
                         == if LastDueLine(SeenLines(Levels(n))).Some?
                            then LastDueLine(SeenLines(Levels(n))).value else DueDates.NoDueDate)
  {
    if Skipped(Strip(n.text)) then None
    else
      var start := LineScan(None, DueDates.NoDueDate);
      WalkFindsFirstTitle(Levels(n), start);
      var found := Walk(Levels(n), start);
      if found.title.Some? then Some(Candidate(found.title.value, found.due)) else None
  }

  /* ---------------------------------------------------------------- */
  /* Emitting without near duplicates                                   */
  /* ---------------------------------------------------------------- */

  /** The found set and the emitted list of one scrape. */
  datatype Harvest = Harvest(found: set<string>, out: seq<Candidate>)

  function Titles(out: seq<Candidate>): set<string> {
    set i | 0 <= i < |out| :: out[i].title
  }

  /** The found set holds exactly the emitted titles, one per emitted
      candidate, and no two emitted titles are near duplicates. */
  predicate Consistent(h: Harvest) {
    && h.found == Titles(h.out)
    && |h.found| == |h.out|
    && forall i, j :: 0 <= i < |h.out| && 0 <= j < |h.out| && i != j
         ==> !NearDuplicate(h.out[i].title, h.out[j].title)
  }

  /** Emit a candidate unless its title is a near duplicate of one found
      before; afterwards the title is always covered by the found set. */
  function Emit(h: Harvest, c: Candidate): (r: Harvest)
    ensures DuplicateOf(c.title, r.found) && h.found <= r.found
    ensures |r.out| == |h.out| + (if DuplicateOf(c.title, h.found) then 0 else 1)
    ensures h.out <= r.out && (|r.out| > |h.out| ==> r.out[|h.out|] == c)
  {
    NearDuplicateSymmetric(c.title, c.title);
    if DuplicateOf(c.title, h.found) then h
    else Harvest(h.found + {c.title}, h.out + [c])
  }

  lemma TitlesAppend(out: seq<Candidate>, c: Candidate)
    ensures Titles(out + [c]) == Titles(out) + {c.title}
  {
    var long := out + [c];
    forall t | t in Titles(long) ensures t in Titles(out) + {c.title} {
      var i :| 0 <= i < |long| && long[i].title == t;
      if i < |out| {
        assert out[i].title == t;
      }
    }
    forall t | t in Titles(out) + {c.title} ensures t in Titles(long) {
      if t == c.title {
        assert long[|out|].title == t;
      } else {
        var i :| 0 <= i < |out| && out[i].title == t;
        assert long[i].title == t;
      }
    }
  }

  /** Appending a candidate whose title collides with no emitted title
      keeps the emitted titles pairwise apart. */
  lemma AppendKeepsApart(out: seq<Candidate>, c: Candidate)
    requires forall i, j :: 0 <= i < |out| && 0 <= j < |out| && i != j
                ==> !NearDuplicate(out[i].title, out[j].title)
    requires forall i :: 0 <= i < |out| ==> !NearDuplicate(c.title, out[i].title)
    ensures forall i, j :: 0 <= i < |out| + 1 && 0 <= j < |out| + 1 && i != j
               ==> !NearDuplicate((out + [c])[i].title, (out + [c])[j].title)
  {
    var long := out + [c];
    forall i, j | 0 <= i < |long| && 0 <= j < |long| && i != j
      ensures !NearDuplicate(long[i].title, long[j].title)
    {
      if i == |out| {
        NearDuplicateSymmetric(c.title, out[j].title);
      } else if j == |out| {
        NearDuplicateSymmetric(out[i].title, c.title);
      } else {
        assert long[i] == out[i] && long[j] == out[j];
      }
    }
  }

  /** A title that is no near duplicate of the found set is none of the
      emitted titles and collides with none of them. */
  lemma FreshTitle(out: seq<Candidate>, t: string)
    requires !DuplicateOf(t, Titles(out))
    ensures t !in Titles(out)
    ensures forall i :: 0 <= i < |out| ==> !NearDuplicate(t, out[i].title)
  {
    NearDuplicateSymmetric(t, t);
    forall i | 0 <= i < |out| ensures !NearDuplicate(t, out[i].title) {
      assert out[i].title in Titles(out);
    }
  }

  /** Emitting keeps the found set and the list in step. */
  lemma EmitKeepsConsistent(h: Harvest, c: Candidate)
    requires Consistent(h)
    ensures Consistent(Emit(h, c))
  {
    if !DuplicateOf(c.title, h.found) {
      TitlesAppend(h.out, c);
      FreshTitle(h.out, c.title);
      AppendKeepsApart(h.out, c);
    }
  }

  /** A consistent harvest's found set is pairwise distinct. */
  lemma ConsistentDistinct(h: Harvest)
    requires Consistent(h)
    ensures PairwiseDistinct(h.found)
  {
    forall a, b | a in h.found && b in h.found && a != b
      ensures !NearDuplicate(a, b)
    {
      var i :| 0 <= i < |h.out| && h.out[i].title == a;
      var j :| 0 <= j < |h.out| && h.out[j].title == b;
    }
  }

  /** A title covered by a found set stays covered as the set grows. */
  lemma CoveredStaysCovered(t: string, small: set<string>, large: set<string>)
    requires DuplicateOf(t, small) && small <= large
    ensures DuplicateOf(t, large)
  {
    var e :| e in small && NearDuplicate(t, e);
    assert e in large;
  }

  /** The empty harvest both strategies start from. */
  lemma EmptyConsistent()
    ensures Consistent(Harvest({}, []))
  {
    assert Titles([]) == {};
  }

  /** Emit a run of optional candidates in order. It keeps the harvest
      consistent, emits only the candidates offered, and loses nothing but
      near duplicates: every offered title ends up covered by the found
      set. */
  function EmitAll(picks: seq<Option<Candidate>>, h: Harvest): (r: Harvest)
    ensures Consistent(h) ==> Consistent(r)
    ensures h.out <= r.out && h.found <= r.found
    ensures forall i :: |h.out| <= i < |r.out| ==> Some(r.out[i]) in picks
    ensures forall k :: 0 <= k < |picks| && picks[k].Some?
               ==> DuplicateOf(picks[k].value.title, r.found)
    decreases |picks|
  {
    if |picks| == 0 then h
    else
      var next := if picks[0].Some? then Emit(h, picks[0].value) else h;
      EmitAllStep(picks, h, next);
      var r := EmitAll(picks[1..], next);
      EmitAllJoin(picks, h, next, r);
      r
  }

  lemma EmitAllStep(picks: seq<Option<Candidate>>, h: Harvest, next: Harvest)
    requires |picks| > 0 && next == if picks[0].Some? then Emit(h, picks[0].value) else h
    ensures Consistent(h) ==> Consistent(next)
    ensures forall i :: |h.out| <= i < |next.out| ==> Some(next.out[i]) in picks
  {
    if Consistent(h) && picks[0].Some? {
      EmitKeepsConsistent(h, picks[0].value);
    }
  }

  lemma EmitAllJoin(picks: seq<Option<Candidate>>, h: Harvest, next: Harvest, r: Harvest)
    requires |picks| > 0 && next == if picks[0].Some? then Emit(h, picks[0].value) else h
    requires next.found <= r.found
    requires forall i :: |next.out| <= i < |r.out| ==> Some(r.out[i]) in picks[1..]
    requires forall k :: 0 <= k < |picks[1..]| && picks[1..][k].Some?
               ==> DuplicateOf(picks[1..][k].value.title, r.found)
    ensures forall i :: |next.out| <= i < |r.out| ==> Some(r.out[i]) in picks
    ensures forall k :: 0 <= k < |picks| && picks[k].Some?
               ==> DuplicateOf(picks[k].value.title, r.found)
  {
    forall k | 0 <= k < |picks| && picks[k].Some?
      ensures DuplicateOf(picks[k].value.title, r.found)
    {
      if k == 0 {
        CoveredStaysCovered(picks[0].value.title, next.found, r.found);
      } else {
        assert picks[k] == picks[1..][k - 1];
      }
    }
  }

  /** The elements strategy 1 selects: their first text node contains
      "Assignment" but not "Assignments". */
  predicate Selected(n: Node) {
    n.firstText.Some? && Contains(n.firstText.value, "Assignment")
    && !Contains(n.firstText.value, "Assignments")
  }

  /** What strategy 1 takes from each element: the element's candidate
      when the element is selected, nothing otherwise. */
  function Picks(nodes: seq<Node>): (r: seq<Option<Candidate>>)
    ensures |r| == |nodes|
    ensures forall k :: 0 <= k < |nodes| && !Selected(nodes[k]) ==> r[k].None?
    ensures forall k :: 0 <= k < |nodes| && Selected(nodes[k]) ==> r[k] == ElementCandidate(nodes[k])
    decreases |nodes|
  {
    if |nodes| == 0 then []
    else [if Selected(nodes[0]) then ElementCandidate(nodes[0]) else None] + Picks(nodes[1..])
  }

  /** Strategy 1 (iby_agent.py:484-537): every selected element, in document
      order, through `ElementCandidate`, then through the duplicate
      filter. */
  function AncestorWalk(nodes: seq<Node>): (r: Harvest)
    ensures Consistent(r)
    ensures forall i :: 0 <= i < |r.out| ==> Some(r.out[i]) in Picks(nodes)
    ensures forall k :: 0 <= k < |nodes| && Selected(nodes[k]) && ElementCandidate(nodes[k]).Some?
               ==> DuplicateOf(ElementCandidate(nodes[k]).value.title, r.found)
  {
    EmptyConsistent();
    EmitAll(Picks(nodes), Harvest({}, []))
  }

  /* ---------------------------------------------------------------- */
  /* Strategy 2: the fallback over all texts                            */
  /* ---------------------------------------------------------------- */

  /** The one-slot buffer and the harvest of the fallback. */
  datatype Buffered = Buffered(buffer: Option<string>, h: Harvest)

  /** A short text naming an assignment and carrying no status marker. */
  predicate Bufferable(t: string) {
    Contains(t, "Assignment") && |t| < 100 && !HasMarker(t)
  }

  /** One element of the fallback loop. An empty text is passed over. A
      short text with "Assignment" is buffered unless it carries a marker,
      in which case nothing happens at all. Any other text that starts with
      `Due:` while a title is buffered emits the pair (unless the title is
      a near duplicate) and empties the buffer. */
  function FallbackStep(st: Buffered, n: Node): (r: Buffered)
    ensures (st.buffer.Some? ==> Bufferable(st.buffer.value))
            ==> (r.buffer.Some? ==> Bufferable(r.buffer.value))
    ensures r.h != st.h
            ==> (&& st.buffer.Some? && r.buffer.None? && IsDueLine(Strip(n.text))
                 && r.h == Emit(st.h, Candidate(st.buffer.value, Strip(n.text))))
    ensures var t := Strip(n.text);
            && (Bufferable(t) ==> r == st.(buffer := Some(t)))
            && (t == "" || (Contains(t, "Assignment") && |t| < 100 && HasMarker(t)) ==> r == st)
            && (Contains(t, "Assignment") && |t| < 100 ==> r.h == st.h)
            && (!(Contains(t, "Assignment") && |t| < 100) && IsDueLine(t) && st.buffer.Some?
                ==> && r.buffer.None?
                    && (DuplicateOf(st.buffer.value, st.h.found) ==> r.h == st.h)
                    && (!DuplicateOf(st.buffer.value, st.h.found)
                        ==> r.h.out == st.h.out + [Candidate(st.buffer.value, t)]))
            && (!(Contains(t, "Assignment") && |t| < 100) && !(IsDueLine(t) && st.buffer.Some?) ==> r == st)
  {
    var text := Strip(n.text);
    if text == "" then st
    else if Contains(text, "Assignment") && |text| < 100 then
      if !HasMarker(text) then st.(buffer := Some(text)) else st
    else if StartsWith(text, "Due:") && st.buffer.Some? then
      Buffered(None, Emit(st.h, Candidate(st.buffer.value, text)))
    else st
  }

  lemma StepKeepsConsistent(st: Buffered, n: Node)
    ensures Consistent(st.h) ==> Consistent(FallbackStep(st, n).h)
  {
    if Consistent(st.h) && FallbackStep(st, n).h != st.h {
      EmitKeepsConsistent(st.h, Candidate(st.buffer.value, Strip(n.text)));
    }
  }

  /** The elements with a text child of their own, in document order. */
  function TextNodes(nodes: seq<Node>): (r: seq<Node>)
    ensures forall n :: n in r <==> n in nodes && n.firstText.Some?
    decreases |nodes|
  {
    if |nodes| == 0 then []
    else (if nodes[0].firstText.Some? then [nodes[0]] else []) + TextNodes(nodes[1..])
  }

  /** Selecting text elements commutes with concatenation, so the selection
      keeps the document order and every kept element once per occurrence. */
  lemma {:induction false} TextNodesAppend(a: seq<Node>, b: seq<Node>)
    ensures TextNodes(a + b) == TextNodes(a) + TextNodes(b)
    decreases |a|
  {
    if |a| == 0 {
      assert a + b == b;
    } else {
      assert (a + b)[1..] == a[1..] + b;
      TextNodesAppend(a[1..], b);
    }
  }

  /** A page whose every element has text of its own is selected whole. */
  lemma {:induction false} TextNodesAll(nodes: seq<Node>)
    ensures (forall i :: 0 <= i < |nodes| ==> nodes[i].firstText.Some?) ==> TextNodes(nodes) == nodes
    decreases |nodes|
  {
    if |nodes| > 0 {
      TextNodesAll(nodes[1..]);
    }
  }

  /** Every candidate the fallback emits pairs a buffered title with a
      due line. */
  predicate FallbackPair(c: Candidate) {
    Bufferable(c.title) && IsDueLine(c.due)
  }

  /** The fallback loop. It keeps the harvest consistent and emits only
      buffered titles paired with the due line that followed them. */
  function Fallback(nodes: seq<Node>, st: Buffered): (r: Buffered)
    requires st.buffer.Some? ==> Bufferable(st.buffer.value)
    ensures r.buffer.Some? ==> Bufferable(r.buffer.value)
    ensures Consistent(st.h) ==> Consistent(r.h)
    ensures st.h.out <= r.h.out && st.h.found <= r.h.found
    ensures forall i :: |st.h.out| <= i < |r.h.out| ==> FallbackPair(r.h.out[i])
    decreases |nodes|
  {
    if |nodes| == 0 then st
    else
      var next := FallbackStep(st, nodes[0]);
      StepKeepsConsistent(st, nodes[0]);
      Fallback(nodes[1..], next)
  }

  /** The fallback over two stretches of elements is the fallback over the
      second, started from where the first left off. */
  lemma {:induction false} FallbackAppend(a: seq<Node>, b: seq<Node>, st: Buffered)
    requires st.buffer.Some? ==> Bufferable(st.buffer.value)
    ensures Fallback(a + b, st) == Fallback(b, Fallback(a, st))
    decreases |a|
  {
    if |a| == 0 {
      assert a + b == b;
    } else {
      assert (a + b)[1..] == a[1..] + b;
      FallbackAppend(a[1..], b, FallbackStep(st, a[0]));
    }
  }

  /** Every due line met while a title is buffered settles that title: at
      the end the title is covered by the found set, and when it was new at
      that moment the pair of the title and that due line is among the
      results. A due line that is itself a short "Assignment" text is not
      one the loop pairs. */
  lemma FallbackSettles(nodes: seq<Node>, st: Buffered, k: int)
    requires st.buffer.Some? ==> Bufferable(st.buffer.value)
    requires 0 <= k < |nodes|
    ensures var mid := Fallback(nodes[..k], st);
            var t := Strip(nodes[k].text);
            var r := Fallback(nodes, st);
            mid.buffer.Some? && IsDueLine(t) && !(Contains(t, "Assignment") && |t| < 100)
            ==> && DuplicateOf(mid.buffer.value, r.h.found)
                && (!DuplicateOf(mid.buffer.value, mid.h.found)
                    ==> Candidate(mid.buffer.value, t) in r.h.out)
  {
    var mid := Fallback(nodes[..k], st);
    var t := Strip(nodes[k].text);
    var rest := [nodes[k]] + nodes[k + 1..];
    assert nodes == nodes[..k] + rest;
    FallbackAppend(nodes[..k], rest, st);
    assert rest[1..] == nodes[k + 1..];
    var step := FallbackStep(mid, nodes[k]);
    var r := Fallback(nodes[k + 1..], step);
    assert Fallback(nodes, st) == r;
    if mid.buffer.Some? && IsDueLine(t) && !(Contains(t, "Assignment") && |t| < 100) {
      var c := Candidate(mid.buffer.value, t);
      if !DuplicateOf(c.title, mid.h.found) {
        assert step.h.out == mid.h.out + [c];
        assert step.h.out[|mid.h.out|] == c;
        assert r.h.out[|mid.h.out|] == c;
      }
      assert step.h == Emit(mid.h, c);
      var e :| e in step.h.found && NearDuplicate(c.title, e);
      assert e in r.h.found;
    }
  }

  /* ---------------------------------------------------------------- */
  /* The whole scrape                                                   */
  /* ---------------------------------------------------------------- */

  /** `scrape_assignments` once the page is rendered: strategy 1, and the
      fallback only when strategy 1 found nothing. No two titles of the
      result are near duplicates, and each candidate either came from a
      selected element or pairs a buffered title with a due line. */
  function Scrape(nodes: seq<Node>): (r: seq<Candidate>)
    ensures forall i, j :: 0 <= i < |r| && 0 <= j < |r| && i != j
               ==> !NearDuplicate(r[i].title, r[j].title)
    ensures forall i :: 0 <= i < |r| ==> Some(r[i]) in Picks(nodes) || FallbackPair(r[i])
  {
    var first := AncestorWalk(nodes);
    if |first.found| > 0 then first.out
    else
      EmptyConsistent();
      Fallback(TextNodes(nodes), Buffered(None, Harvest({}, []))).h.out
  }

  /** The fallback runs exactly when strategy 1 emitted nothing. */
  lemma FallbackOnlyWhenWalkEmpty(nodes: seq<Node>)
    ensures |AncestorWalk(nodes).out| > 0 ==> Scrape(nodes) == AncestorWalk(nodes).out
    ensures |AncestorWalk(nodes).out| == 0
            ==> Scrape(nodes) == Fallback(TextNodes(nodes), Buffered(None, Harvest({}, []))).h.out
  {
    var first := AncestorWalk(nodes);
    if |first.out| == 0 {
      assert first.found == {};
    }
  }

  /** A run with nothing offered emits nothing. */
  lemma {:induction false} EmitAllNone(picks: seq<Option<Candidate>>, h: Harvest)
    requires forall k :: 0 <= k < |picks| ==> picks[k].None?
    ensures EmitAll(picks, h) == h
    decreases |picks|
  {
    if |picks| > 0 {
      EmitAllNone(picks[1..], h);
    }
  }

  /** An element with no enclosing structure, carrying one text. */
  function Lone(t: string): Node {
    Node(Some(t), t, [])
  }

  /** A lone element whose text has no `Due:` yields no candidate in
      strategy 1. */
  lemma LoneWithoutDue(t: string)
    requires !Contains(Strip(t), "Due:")
    ensures ElementCandidate(Lone(t)) == None
  {
    assert Levels(Lone(t)) == [t];
    assert FirstTitle([t]) == None;
  }

  /** A short title text, a due line and an unrelated text. */
  predicate TitleDueOther(t: string, d: string, x: string) {
    && Strip(t) == t && Bufferable(t)
    && Strip(d) == d && StartsWith(d, "Due:") && !Contains(d, "Assignment")
    && Strip(x) == x && x != "" && !Contains(x, "Assignment")
    && !Contains(x, "Due:")
  }

  /** Three lone texts, a title, its due line and something else: no
      element carries both a title and a due date, so strategy 1 finds
      nothing, and the fallback pairs the title with the due line that
      follows it and ignores the third text. */
  lemma TitleThenDue(t: string, d: string, x: string)
    requires TitleDueOther(t, d, x)
    ensures |AncestorWalk([Lone(t), Lone(d), Lone(x)]).out| == 0
    ensures Scrape([Lone(t), Lone(d), Lone(x)]) == [Candidate(t, d)]
  {
    var nodes := [Lone(t), Lone(d), Lone(x)];
    LoneWalk(t, d, x);
    assert TextNodes(nodes[3..]) == [];
    assert TextNodes(nodes[2..]) == nodes[2..];
    assert TextNodes(nodes[1..]) == nodes[1..];
    assert TextNodes(nodes) == nodes;
    LoneFallback(t, d, x);
  }

  lemma LoneFallback(t: string, d: string, x: string)
    requires TitleDueOther(t, d, x)
    ensures Fallback([Lone(t), Lone(d), Lone(x)], Buffered(None, Harvest({}, [])))
            == Buffered(None, Harvest({t}, [Candidate(t, d)]))
  {
    var nodes := [Lone(t), Lone(d), Lone(x)];
    var s0 := Buffered(None, Harvest({}, []));
    var s1 := Buffered(Some(t), Harvest({}, []));
    var s2 := Buffered(None, Harvest({t}, [Candidate(t, d)]));
    assert FallbackStep(s0, nodes[0]) == s1;
    assert FallbackStep(s1, nodes[1]) == s2;
    assert !StartsWith(x, "Due:") by {
      if StartsWith(x, "Due:") {
        StartsWithContains(x, "Due:");
      }
    }
    assert FallbackStep(s2, nodes[2]) == s2;
    assert Fallback(nodes[3..], s2) == s2;
    assert Fallback(nodes[2..], s2) == s2;
    assert Fallback(nodes[1..], s1) == s2;
  }

  lemma LoneWalk(t: string, d: string, x: string)
    requires TitleDueOther(t, d, x)
    ensures AncestorWalk([Lone(t), Lone(d), Lone(x)]) == Harvest({}, [])
  {
    var nodes := [Lone(t), Lone(d), Lone(x)];
    var picks := Picks(nodes);
    assert picks[0].None? by {
      LoneWithoutDue(t);
    }
    assert picks[1].None? by {
      assert !Selected(nodes[1]);
    }
    assert picks[2].None? by {
      LoneWithoutDue(x);
    }
    EmitAllNone(picks, Harvest({}, []));
  }

  /** The page "Assignment: Essay 1", "Due: Friday, 1 September 2025,
      11:59 PM", "Lecture Notes Week 1" scrapes to the one pair. */
  lemma FlatPageUsesFallback()
    ensures Scrape([Lone("Assignment: Essay 1"), Lone("Due: Friday, 1 September 2025, 11:59 PM"),
                    Lone("Lecture Notes Week 1")])
            == [Candidate("Assignment: Essay 1", "Due: Friday, 1 September 2025, 11:59 PM")]
  {
    EssayTitleStripped();
    EssayTitleBufferable();
    EssayDueStripped();
    EssayDueUnnamed();
    EssayDueStarts();
    NotesText();
    TitleThenDue("Assignment: Essay 1", "Due: Friday, 1 September 2025, 11:59 PM", "Lecture Notes Week 1");
  }

  lemma EssayTitleStripped()
    ensures Strip("Assignment: Essay 1") == "Assignment: Essay 1"
  {
    StripFixed("Assignment: Essay 1");
  }

  lemma EssayTitleBufferable()
    ensures Bufferable("Assignment: Essay 1")
  {
    EssayTitleNamed();
    EssayTitleUnmarked();
  }

  lemma EssayTitleNamed()
    ensures Contains("Assignment: Essay 1", "Assignment")
  {
    ContainsAt("Assignment: Essay 1", "Assignment", 0);
  }

  lemma EssayTitleUnmarked()
    ensures !HasMarker("Assignment: Essay 1")
  {
    MissingCharNotContained("Assignment: Essay 1", "Due:", 'D');
    MissingCharNotContained("Assignment: Essay 1", "Opened:", 'O');
    MissingCharNotContained("Assignment: Essay 1", "Closed:", 'C');
  }

  lemma EssayDueStripped()
    ensures Strip("Due: Friday, 1 September 2025, 11:59 PM") == "Due: Friday, 1 September 2025, 11:59 PM"
  {
    StripFixed("Due: Friday, 1 September 2025, 11:59 PM");
  }

  lemma EssayDueUnnamed()
    ensures !Contains("Due: Friday, 1 September 2025, 11:59 PM", "Assignment")
  {
    MissingCharNotContained("Due: Friday, 1 September 2025, 11:59 PM", "Assignment", 'A');
  }

  lemma EssayDueStarts()
    ensures StartsWith("Due: Friday, 1 September 2025, 11:59 PM", "Due:")
  {
    StartsWithChars("Due: Friday, 1 September 2025, 11:59 PM", "Due:");
  }

  lemma NotesText()
    ensures Strip("Lecture Notes Week 1") == "Lecture Notes Week 1"
    ensures !Contains("Lecture Notes Week 1", "Assignment")
    ensures !Contains("Lecture Notes Week 1", "Due:")
  {
    StripFixed("Lecture Notes Week 1");
    MissingCharNotContained("Lecture Notes Week 1", "Assignment", 'A');
    MissingCharNotContained("Lecture Notes Week 1", "Due:", 'D');
  }

  /* ---------------------------------------------------------------- */
  /* is_valid_url                                                       */
  /* ---------------------------------------------------------------- */

  /** `re.match(r'https?://', url)`: "http", an optional "s", then "://",
      at the start of the text. */
  function IsValidUrl(url: string): (r: bool)
    ensures r <==> StartsWith(url, "http://") || StartsWith(url, "https://")
  {
    StartsWithSplit(url, "http", "://");
    StartsWithSplit(url, "http", "s://");
    assert "http" + "://" == "http://";
    assert "http" + "s://" == "https://";
    StartsWith(url, "http")
    && (StartsWith(url[4..], "://") || StartsWith(url[4..], "s://"))
  }
}
