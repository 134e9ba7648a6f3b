/** The keyword heuristic that decides whether an extracted title names an
    assignment (`AssignmentClassifier.classify_text`). */
module Classifier {
  import opened Text

  /** Words that suggest a piece of graded work. */
  const AssignmentIndicators: seq<string> :=
    ["assignment", "homework", "project", "essay", "lab",
     "programming", "coding", "research", "report", "analysis"]

  /** Words that suggest course material that is not an assignment. */
  const NonAssignmentIndicators: seq<string> :=
    ["syllabus", "lecture", "quiz", "exam", "announcement",
     "discussion", "forum", "schedule", "calendar", "policy",
     "introduction", "overview", "welcome", "resources"]

  /** How many entries of `indicators` occur in `text` as substrings. */
  function Hits(indicators: seq<string>, text: string): (n: nat)
    ensures n <= |indicators|
    decreases |indicators|
  {
    if |indicators| == 0 then 0
    else (if Contains(text, indicators[0]) then 1 else 0) + Hits(indicators[1..], text)
  }

  function AssignmentScore(text: string): nat {
    Hits(AssignmentIndicators, Lower(text))
  }

  function NonAssignmentScore(text: string): nat {
    Hits(NonAssignmentIndicators, Lower(text))
  }

  datatype Classification = Classification(isAssignment: bool, confidence: real)

  /** The verdict and its damped confidence `max(p, n) / (p + n + 1)`. The
      confidence is never 1; it reaches one half exactly when the two scores
      differ, so every accepted title has confidence at least one half and a
      tie (which is rejected) stays below it; it is 0 only when no keyword of
      either list occurs. */
  function Classify(text: string): (r: Classification)
    ensures r.isAssignment <==> AssignmentScore(text) > NonAssignmentScore(text)
    ensures 0.0 <= r.confidence < 1.0
    ensures r.confidence >= 0.5 <==> AssignmentScore(text) != NonAssignmentScore(text)
    ensures r.isAssignment ==> r.confidence >= 0.5
    ensures r.confidence == 0.0 <==> AssignmentScore(text) == 0 && NonAssignmentScore(text) == 0
  {
    var p := AssignmentScore(text);
    var n := NonAssignmentScore(text);
    ConfidenceRange(p, n);
    Classification(p > n, Confidence(p, n))
  }

  function Confidence(p: nat, n: nat): real {
    (if p >= n then p else n) as real / (p + n + 1) as real
  }

  lemma ConfidenceRange(p: nat, n: nat)
    ensures 0.0 <= Confidence(p, n) < 1.0
    ensures Confidence(p, n) >= 0.5 <==> p != n
    ensures Confidence(p, n) == 0.0 <==> p == 0 && n == 0
  {
    var top := (if p >= n then p else n) as real;
    var d := (p + n + 1) as real;
    var c := Confidence(p, n);
    assert c * d == top;
    assert (1.0 - c) * d == d - top > 0.0;
    assert (c - 0.5) * d == top - 0.5 * d;
  }

  /** No hit at all exactly when none of the indicators occurs. */
  lemma {:induction false} HitsZero(indicators: seq<string>, text: string)
    ensures Hits(indicators, text) == 0 <==> forall k :: k in indicators ==> !Contains(text, k)
    decreases |indicators|
  {
    if |indicators| > 0 {
      HitsZero(indicators[1..], text);
      assert forall k :: k in indicators <==> k == indicators[0] || k in indicators[1..];
    }
  }

  /** A list none of whose entries occurs scores zero. */
  lemma HitsAbsent(indicators: seq<string>, text: string)
    requires forall i | 0 <= i < |indicators| :: !Contains(text, indicators[i])
    ensures Hits(indicators, text) == 0
  {
    HitsZero(indicators, text);
  }

  /** Two distinct positions that both occur give a score of at least two. */
  lemma {:induction false} HitsAtLeastTwo(indicators: seq<string>, text: string, i: nat, j: nat)
    requires i < j < |indicators|
    requires Contains(text, indicators[i]) && Contains(text, indicators[j])
    ensures Hits(indicators, text) >= 2
    decreases i
  {
    if i > 0 {
      HitsAtLeastTwo(indicators[1..], text, i - 1, j - 1);
    } else {
      HitsZero(indicators[1..], text);
      assert indicators[j] in indicators[1..];
    }
  }

  /** When every position but `j` is absent the score is at most one. */
  lemma {:induction false} HitsAtMostOne(indicators: seq<string>, text: string, j: nat)
    requires j < |indicators|
    requires forall i :: 0 <= i < |indicators| && i != j ==> !Contains(text, indicators[i])
    ensures Hits(indicators, text) <= 1
    decreases j
  {
    if j > 0 {
      HitsAtMostOne(indicators[1..], text, j - 1);
    } else {
      HitsZero(indicators[1..], text);
    }
  }

  /** A text in which some positive keyword occurs and no negative one
      does is accepted. */
  lemma AcceptedWithoutNegatives(text: string, i: nat)
    requires i < |AssignmentIndicators| && Contains(Lower(text), AssignmentIndicators[i])
    requires forall j | 0 <= j < |NonAssignmentIndicators| :: !Contains(Lower(text), NonAssignmentIndicators[j])
    ensures Classify(text).isAssignment
  {
    HitsZero(AssignmentIndicators, Lower(text));
    HitsAbsent(NonAssignmentIndicators, Lower(text));
  }

  /** A text with two negative keywords and at most one positive keyword is
      rejected. */
  lemma RejectedByTwoNegatives(text: string, i: nat, j: nat, k: nat)
    requires i < j < |NonAssignmentIndicators| && k < |AssignmentIndicators|
    requires Contains(Lower(text), NonAssignmentIndicators[i]) && Contains(Lower(text), NonAssignmentIndicators[j])
    requires forall m | 0 <= m < |AssignmentIndicators| && m != k :: !Contains(Lower(text), AssignmentIndicators[m])
    ensures !Classify(text).isAssignment
  {
    HitsAtLeastTwo(NonAssignmentIndicators, Lower(text), i, j);
    HitsAtMostOne(AssignmentIndicators, Lower(text), k);
  }

  /** "Programming Assignment 3" is accepted: "assignment" occurs and no
      negative keyword does. */
  lemma ProgrammingAssignmentAccepted()
    ensures Classify("Programming Assignment 3").isAssignment
  {
    var low := "programming assignment 3";
    LowerProgramming();
    ContainsAt(low, "assignment", 12);
    ProgrammingMissesFirstHalf();
    ProgrammingMissesSecondHalf();
    forall j | 0 <= j < |NonAssignmentIndicators|
      ensures !Contains(low, NonAssignmentIndicators[j])
    {
      if j == 0 {} else if j == 1 {} else if j == 2 {} else if j == 3 {}
      else if j == 4 {} else if j == 5 {} else if j == 6 {} else if j == 7 {}
      else if j == 8 {} else if j == 9 {} else if j == 10 {} else if j == 11 {}
      else if j == 12 {} else {}
    }
    AcceptedWithoutNegatives("Programming Assignment 3", 0);
  }

  lemma LowerProgramming()
    ensures Lower("Programming Assignment 3") == "programming assignment 3"
  {
  }

  lemma ProgrammingMissesFirstHalf()
    ensures !Contains("programming assignment 3", "syllabus")
    ensures !Contains("programming assignment 3", "lecture")
    ensures !Contains("programming assignment 3", "quiz")
    ensures !Contains("programming assignment 3", "exam")
    ensures !Contains("programming assignment 3", "announcement")
    ensures !Contains("programming assignment 3", "discussion")
    ensures !Contains("programming assignment 3", "forum")
  {
    var low := "programming assignment 3";
    MissingCharNotContained(low, "syllabus", 'y');
    MissingCharNotContained(low, "lecture", 'l');
    MissingCharNotContained(low, "quiz", 'q');
    MissingCharNotContained(low, "exam", 'x');
    MissingCharNotContained(low, "announcement", 'c');
    MissingCharNotContained(low, "discussion", 'd');
    MissingCharNotContained(low, "forum", 'f');
  }

  lemma ProgrammingMissesSecondHalf()
    ensures !Contains("programming assignment 3", "schedule")
    ensures !Contains("programming assignment 3", "calendar")
    ensures !Contains("programming assignment 3", "policy")
    ensures !Contains("programming assignment 3", "introduction")
    ensures !Contains("programming assignment 3", "overview")
    ensures !Contains("programming assignment 3", "welcome")
    ensures !Contains("programming assignment 3", "resources")
  {
    var low := "programming assignment 3";
    MissingCharNotContained(low, "schedule", 'c');
    MissingCharNotContained(low, "calendar", 'c');
    MissingCharNotContained(low, "policy", 'c');
    MissingCharNotContained(low, "introduction", 'c');
    MissingCharNotContained(low, "overview", 'v');
    MissingCharNotContained(low, "welcome", 'w');
    MissingCharNotContained(low, "resources", 'c');
  }

  /** "Course Syllabus and Policy" is rejected: two negative keywords beat
      the single positive one ("lab", inside "syllabus"). */
  lemma SyllabusRejected()
    ensures !Classify("Course Syllabus and Policy").isAssignment
  {
    var low := "course syllabus and policy";
    LowerSyllabus();
    ContainsAt(low, "syllabus", 7);
    ContainsAt(low, "policy", 20);
    SyllabusMissesPlainWords();
    SyllabusMissesEssay();
    SyllabusMissesAnalysis();
    forall m | 0 <= m < |AssignmentIndicators| && m != 4
      ensures !Contains(low, AssignmentIndicators[m])
    {
      if m == 0 {} else if m == 1 {} else if m == 2 {} else if m == 3 {}
      else if m == 5 {} else if m == 6 {} else if m == 7 {} else if m == 8 {}
      else {}
    }
    RejectedByTwoNegatives("Course Syllabus and Policy", 0, 9, 4);
  }

  lemma LowerSyllabus()
    ensures Lower("Course Syllabus and Policy") == "course syllabus and policy"
  {
  }

  lemma SyllabusMissesPlainWords()
    ensures !Contains("course syllabus and policy", "assignment")
    ensures !Contains("course syllabus and policy", "homework")
    ensures !Contains("course syllabus and policy", "project")
    ensures !Contains("course syllabus and policy", "programming")
    ensures !Contains("course syllabus and policy", "coding")
    ensures !Contains("course syllabus and policy", "research")
    ensures !Contains("course syllabus and policy", "report")
  {
    var low := "course syllabus and policy";
    MissingCharNotContained(low, "assignment", 'g');
    MissingCharNotContained(low, "homework", 'h');
    MissingCharNotContained(low, "project", 'j');
    MissingCharNotContained(low, "programming", 'g');
    MissingCharNotContained(low, "coding", 'g');
    MissingCharNotContained(low, "research", 'h');
    MissingCharNotContained(low, "report", 't');
  }

  /** "essay" and "analysis" use only letters of the text, so each word of
      the text is checked on its own and a match across a space is ruled out
      because neither keyword holds a space. */
  lemma SyllabusMissesEssay()
    ensures !Contains("course syllabus and policy", "essay")
  {
    assert "course syllabus and policy" == "course" + [' '] + "syllabus and policy";
    MissingCharNotContained("course", "essay", 'y');
    MissingCharNotContained("syllabus and policy", "essay", 'e');
    ContainsAcross("course", ' ', "syllabus and policy", "essay");
  }

  lemma SyllabusMissesAnalysis()
    ensures !Contains("course syllabus and policy", "analysis")
  {
    SyllabusTailMissesAnalysis();
    assert "course syllabus and policy" == "course" + [' '] + "syllabus and policy";
    MissingCharNotContained("course", "analysis", 'a');
    ContainsAcross("course", ' ', "syllabus and policy", "analysis");
  }

  lemma SyllabusTailMissesAnalysis()
    ensures !Contains("syllabus and policy", "analysis")
  {
    AndPolicyMissesAnalysis();
    assert "syllabus and policy" == "syllabus" + [' '] + "and policy";
    MissingCharNotContained("syllabus", "analysis", 'n');
    ContainsAcross("syllabus", ' ', "and policy", "analysis");
  }

  lemma AndPolicyMissesAnalysis()
    ensures !Contains("and policy", "analysis")
  {
    MissingCharNotContained("and policy", "analysis", 's');
  }
}
