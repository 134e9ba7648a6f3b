/** The handful of Python `str` operations the agent relies on, as pure
    functions over `string` (= `seq<char>`): `isspace`, `lower`,
    `startswith`, the `in` operator, `strip`, `split`, `replace(p, "")`,
    `re.sub(r'\s+', ' ', ...)`, and decimal digits. */
module Text {

  /** Python's `str.isspace()` on one character, which is also what `\s`
      matches in a `str` regular expression. */
  predicate IsSpace(c: char) {
    c == ' ' || '\t' <= c <= '\r' || '\U{1C}' <= c <= '\U{1F}'
    || c == '\U{85}' || c == '\U{A0}' || c == '\U{1680}'
    || '\U{2000}' <= c <= '\U{200A}' || c == '\U{2028}' || c == '\U{2029}'
    || c == '\U{202F}' || c == '\U{205F}' || c == '\U{3000}'
  }

  predicate IsUpper(c: char) {
    'A' <= c <= 'Z'
  }

  predicate IsLetter(c: char) {
    'a' <= c <= 'z' || 'A' <= c <= 'Z'
  }

  predicate IsDigit(c: char) {
    '0' <= c <= '9'
  }

  function LowerChar(c: char): char {
    if IsUpper(c) then (c as int + 32) as char else c
  }

  /** Python's `str.lower()` on the ASCII letters. */
  function Lower(s: string): (r: string)
    ensures |r| == |s|
  {
    seq(|s|, i requires 0 <= i < |s| => LowerChar(s[i]))
  }

  predicate NoUpper(s: string) {
    forall i :: 0 <= i < |s| ==> !IsUpper(s[i])
  }

  lemma LowerFixed(s: string)
    requires NoUpper(s)
    ensures Lower(s) == s
  {
  }

  lemma LowerAppend(a: string, b: string)
    ensures Lower(a + b) == Lower(a) + Lower(b)
  {
  }

  /* ---------------------------------------------------------------- */
  /* Prefixes and substrings                                            */
  /* ---------------------------------------------------------------- */

  /** Python's `s.startswith(prefix)`. */
  predicate StartsWith(s: string, prefix: string) {
    |prefix| <= |s| && s[..|prefix|] == prefix
  }

  /** `needle` sits in `s` at position `i`. */
  predicate MatchesAt(s: string, needle: string, i: int) {
    0 <= i && i + |needle| <= |s| && s[i..i + |needle|] == needle
  }

  /** Python's `needle in s`. */
  predicate Contains(s: string, needle: string) {
    exists i | 0 <= i <= |s| - |needle| :: MatchesAt(s, needle, i)
  }

  lemma ContainsAt(s: string, needle: string, i: int)
    requires MatchesAt(s, needle, i)
    ensures Contains(s, needle)
  {
  }

  /** An occurrence splits the text into what precedes it, the needle and
      what follows. */
  lemma SplitAround(s: string, needle: string, i: int)
    requires MatchesAt(s, needle, i)
    ensures s == s[..i] + needle + s[i + |needle|..]
  {
    assert s[..i] + s[i..] == s;
    assert s[i..] == s[i..i + |needle|] + s[i + |needle|..];
  }

  /** An occurrence in the tail is an occurrence in the whole. */
  lemma ContainsTail(s: string, needle: string)
    requires |s| > 0 && Contains(s[1..], needle)
    ensures Contains(s, needle)
  {
    var i :| 0 <= i <= |s| - 1 - |needle| && MatchesAt(s[1..], needle, i);
    assert s[1..][i..i + |needle|] == s[i + 1..i + 1 + |needle|];
    assert MatchesAt(s, needle, i + 1);
  }

  lemma StartsWithContains(s: string, prefix: string)
    requires StartsWith(s, prefix)
    ensures Contains(s, prefix)
  {
    assert MatchesAt(s, prefix, 0);
  }

  /** A prefix made of two parts is matched part by part. */
  lemma StartsWithSplit(s: string, a: string, b: string)
    ensures StartsWith(s, a + b) <==> StartsWith(s, a) && StartsWith(s[|a|..], b)
  {
    if StartsWith(s, a + b) {
      assert s[..|a|] == (a + b)[..|a|] == a;
      assert s[|a|..][..|b|] == s[..|a| + |b|][|a|..] == b;
    }
    if StartsWith(s, a) && StartsWith(s[|a|..], b) {
      assert s[..|a| + |b|] == s[..|a|] + s[|a|..][..|b|];
    }
  }

  /** A prefix matched character by character. */
  lemma StartsWithChars(s: string, prefix: string)
    requires |prefix| <= |s| && forall i | 0 <= i < |prefix| :: s[i] == prefix[i]
    ensures StartsWith(s, prefix)
  {
    assert s[..|prefix|] == prefix;
  }

  /** A needle that holds a character the haystack lacks cannot occur in it. */
  lemma MissingCharNotContained(s: string, needle: string, c: char)
    requires c in needle && forall i | 0 <= i < |s| :: s[i] != c
    ensures !Contains(s, needle)
  {
  }

  /** An occurrence in `a + [sep] + b` lies within `a`, within `b`, or
      covers the separator. */
  lemma ContainsAcross(a: string, sep: char, b: string, needle: string)
    ensures Contains(a + [sep] + b, needle) ==>
              Contains(a, needle) || Contains(b, needle) || sep in needle
  {
    var s := a + [sep] + b;
    if !Contains(s, needle) {
      return;
    }
    var i :| 0 <= i <= |s| - |needle| && MatchesAt(s, needle, i);
    if i + |needle| <= |a| {
      assert s[i..i + |needle|] == a[i..i + |needle|];
      assert MatchesAt(a, needle, i);
    } else if i > |a| {
      assert s[i..i + |needle|] == b[i - |a| - 1..i - |a| - 1 + |needle|];
      assert MatchesAt(b, needle, i - |a| - 1);
    } else {
      assert needle[|a| - i] == sep;
    }
  }

  /* ---------------------------------------------------------------- */
  /* strip                                                              */
  /* ---------------------------------------------------------------- */

  function StripStart(s: string): (r: string)
    ensures r == s[SpaceRun(s)..]
  {
    s[SpaceRun(s)..]
  }

  function StripEnd(s: string): (r: string)
    ensures |r| <= |s| && r == s[..|r|]
    ensures forall i :: |r| <= i < |s| ==> IsSpace(s[i])
    ensures r == [] || !IsSpace(r[|r| - 1])
    decreases |s|
  {
    if |s| > 0 && IsSpace(s[|s| - 1]) then StripEnd(s[..|s| - 1]) else s
  }

  predicate NoEdgeSpace(s: string) {
    s == [] || (!IsSpace(s[0]) && !IsSpace(s[|s| - 1]))
  }

  /** Python's `s.strip()`: the middle of `s` once the whitespace at both
      ends is removed. */
  function Strip(s: string): (r: string)
    ensures NoEdgeSpace(r)
    ensures SpaceRun(s) + |r| <= |s| && r == s[SpaceRun(s)..SpaceRun(s) + |r|]
    ensures forall k :: SpaceRun(s) + |r| <= k < |s| ==> IsSpace(s[k])
  {
    var t := StripStart(s);
    var r := StripEnd(t);
    assert r == s[SpaceRun(s)..][..|r|] == s[SpaceRun(s)..SpaceRun(s) + |r|];
    r
  }

  lemma StripStartFixed(s: string)
    requires s == [] || !IsSpace(s[0])
    ensures StripStart(s) == s
  {
  }

  lemma StripEndFixed(s: string)
    requires s == [] || !IsSpace(s[|s| - 1])
    ensures StripEnd(s) == s
  {
  }

  /** A string with no whitespace at either end is its own strip. */
  lemma StripFixed(s: string)
    requires NoEdgeSpace(s)
    ensures Strip(s) == s
  {
    StripStartFixed(s);
    StripEndFixed(s);
  }

  /* ---------------------------------------------------------------- */
  /* split / join                                                       */
  /* ---------------------------------------------------------------- */

  /** Python's `s.split(sep)` for a one-character separator: always at least
      one piece, empty pieces kept. */
  function Split(s: string, sep: char): (parts: seq<string>)
    ensures |parts| >= 1
    ensures forall i :: 0 <= i < |parts| ==> sep !in parts[i]
    decreases |s|
  {
    if |s| == 0 then [""]
    else
      var rest := Split(s[1..], sep);
      if s[0] == sep then [""] + rest
      else [[s[0]] + rest[0]] + rest[1..]
  }

  /** Python's `sep.join(parts)`. */
  function Join(parts: seq<string>, sep: char): string
    decreases |parts|
  {
    if |parts| == 0 then ""
    else if |parts| == 1 then parts[0]
    else parts[0] + [sep] + Join(parts[1..], sep)
  }

  /** Splitting loses nothing: joining the pieces gives the text back. */
  lemma {:induction false} JoinSplit(s: string, sep: char)
    ensures Join(Split(s, sep), sep) == s
    decreases |s|
  {
    if |s| > 0 {
      JoinSplit(s[1..], sep);
      var rest := Split(s[1..], sep);
      if s[0] != sep {
        if |rest| == 1 {
          assert Join(rest, sep) == rest[0];
        } else {
          assert Join(rest, sep) == rest[0] + [sep] + Join(rest[1..], sep);
          assert ([[s[0]] + rest[0]] + rest[1..])[1..] == rest[1..];
        }
      } else {
        assert ([""] + rest)[1..] == rest;
      }
    }
  }

  lemma {:induction false} SplitPlain(p: string, sep: char)
    requires sep !in p
    ensures Split(p, sep) == [p]
    decreases |p|
  {
    if |p| > 0 {
      SplitPlain(p[1..], sep);
      assert [p[0]] + p[1..] == p;
    }
  }

  lemma {:induction false} SplitPiece(p: string, sep: char, rest: string)
    requires sep !in p
    ensures Split(p + [sep] + rest, sep) == [p] + Split(rest, sep)
    decreases |p|
  {
    var s := p + [sep] + rest;
    if |p| == 0 {
      assert s[1..] == rest;
    } else {
      assert s[1..] == p[1..] + [sep] + rest;
      SplitPiece(p[1..], sep, rest);
      assert [p[0]] + p[1..] == p;
    }
  }

  /** Pieces free of the separator are recovered by splitting their join. */
  lemma {:induction false} SplitJoin(parts: seq<string>, sep: char)
    requires |parts| >= 1
    requires forall i :: 0 <= i < |parts| ==> sep !in parts[i]
    ensures Split(Join(parts, sep), sep) == parts
    decreases |parts|
  {
    if |parts| == 1 {
      SplitPlain(parts[0], sep);
    } else {
      SplitJoin(parts[1..], sep);
      SplitPiece(parts[0], sep, Join(parts[1..], sep));
      assert [parts[0]] + parts[1..] == parts;
    }
  }

  /* ---------------------------------------------------------------- */
  /* replace(pattern, "")                                               */
  /* ---------------------------------------------------------------- */

  /** Python's `s.replace(pattern, "")`: a single left-to-right pass that
      drops every non-overlapping occurrence of `pattern`. */
  function RemoveAll(s: string, pattern: string): (r: string)
    requires |pattern| > 0
    ensures |r| <= |s|
    decreases |s|
  {
    if |s| == 0 then s
    else if StartsWith(s, pattern) then RemoveAll(s[|pattern|..], pattern)
    else [s[0]] + RemoveAll(s[1..], pattern)
  }

  /** Text without the pattern passes through unchanged. */
  lemma {:induction false} RemoveAllAbsent(s: string, pattern: string)
    requires |pattern| > 0 && !Contains(s, pattern)
    ensures RemoveAll(s, pattern) == s
    decreases |s|
  {
    if |s| > 0 {
      if Contains(s[1..], pattern) {
        ContainsTail(s, pattern);
      }
      if StartsWith(s, pattern) {
        StartsWithContains(s, pattern);
      }
      RemoveAllAbsent(s[1..], pattern);
      assert [s[0]] + s[1..] == s;
    }
  }

  lemma RemoveAllLeading(pattern: string, s: string)
    requires |pattern| > 0
    ensures RemoveAll(pattern + s, pattern) == RemoveAll(s, pattern)
  {
    assert (pattern + s)[|pattern|..] == s;
    assert (pattern + s)[..|pattern|] == pattern;
  }

  lemma RemoveAllKeep(c: char, s: string, pattern: string)
    requires |pattern| > 0 && !StartsWith([c] + s, pattern)
    ensures RemoveAll([c] + s, pattern) == [c] + RemoveAll(s, pattern)
  {
    assert ([c] + s)[1..] == s;
  }

  /* ---------------------------------------------------------------- */
  /* re.sub(r'\s+', ' ', s)                                             */
  /* ---------------------------------------------------------------- */

  /** Every maximal run of whitespace becomes a single space. */
  function Collapse(s: string): (r: string)
    decreases |s|
  {
    if |s| == 0 then []
    else if IsSpace(s[0]) then
      [' '] + Collapse(StripStart(s))
    else [s[0]] + Collapse(s[1..])
  }

  /** Whitespace appears only as single plain spaces. */
  predicate Collapsed(s: string) {
    forall i :: 0 <= i < |s| && IsSpace(s[i]) ==>
      s[i] == ' ' && (i + 1 == |s| || !IsSpace(s[i + 1]))
  }

  lemma CollapseHead(s: string)
    requires |s| > 0 && !IsSpace(s[0])
    ensures |Collapse(s)| > 0 && Collapse(s)[0] == s[0]
  {
  }

  lemma {:induction false} CollapseShape(s: string)
    ensures Collapsed(Collapse(s))
    decreases |s|
  {
    if |s| > 0 {
      if IsSpace(s[0]) {
        var t := StripStart(s);
        CollapseShape(t);
        if |t| > 0 {
          CollapseHead(t);
        }
      } else {
        CollapseShape(s[1..]);
      }
    }
  }

  lemma {:induction false} CollapseFixed(s: string)
    requires Collapsed(s)
    ensures Collapse(s) == s
    decreases |s|
  {
    if |s| > 0 {
      assert Collapsed(s[1..]);
      CollapseFixed(s[1..]);
      if IsSpace(s[0]) {
        StripStartFixed(s[1..]);
        assert StripStart(s) == StripStart(s[1..]);
      }
      assert [s[0]] + s[1..] == s;
    }
  }

  lemma {:induction false} CollapseLast(s: string)
    requires |s| > 0 && !IsSpace(s[|s| - 1])
    ensures |Collapse(s)| > 0 && Collapse(s)[|Collapse(s)| - 1] == s[|s| - 1]
    decreases |s|
  {
    if IsSpace(s[0]) {
      var t := StripStart(s);
      assert |t| > 0 && t[|t| - 1] == s[|s| - 1];
      CollapseLast(t);
    } else if |s| > 1 {
      CollapseLast(s[1..]);
    }
  }

  /** A space run in front of text ending in a non-space does not reach
      past that text. */
  lemma {:induction false} SpaceRunPrefix(a: string, b: string)
    requires |a| > 0 && !IsSpace(a[|a| - 1])
    ensures SpaceRun(a + b) == SpaceRun(a)
    decreases |a|
  {
    if IsSpace(a[0]) {
      assert (a + b)[1..] == a[1..] + b;
      SpaceRunPrefix(a[1..], b);
    }
  }

  /** A whitespace run followed by a non-space is skipped whole. */
  lemma {:induction false} SpaceRunAll(w: string, b: string)
    requires forall i :: 0 <= i < |w| ==> IsSpace(w[i])
    requires b == [] || !IsSpace(b[0])
    ensures SpaceRun(w + b) == |w|
    decreases |w|
  {
    if |w| == 0 {
      assert w + b == b;
    } else {
      assert (w + b)[1..] == w[1..] + b;
      SpaceRunAll(w[1..], b);
    }
  }

  /** Collapsing splits at any point that follows a non-space: the runs on
      either side are collapsed independently. */
  lemma {:induction false} CollapseAppend(a: string, b: string)
    requires a == [] || !IsSpace(a[|a| - 1])
    ensures Collapse(a + b) == Collapse(a) + Collapse(b)
    decreases |a|
  {
    if |a| == 0 {
      assert a + b == b;
    } else if IsSpace(a[0]) {
      var q := a[SpaceRun(a)..];
      CollapseAppend(q, b);
      SpaceRunPrefix(a, b);
      SpaceCase(a, b);
    } else {
      CollapseAppend(a[1..], b);
      LetterCase(a, b);
    }
  }

  /** The step of the two append lemmas at a leading space run that stays
      inside `p`: the split property carries over from the rest. */
  lemma {:induction false} SpaceCase(p: string, x: string)
    requires |p| > 0 && IsSpace(p[0]) && SpaceRun(p + x) == SpaceRun(p)
    requires Collapse(p[SpaceRun(p)..] + x) == Collapse(p[SpaceRun(p)..]) + Collapse(x)
    ensures Collapse(p + x) == Collapse(p) + Collapse(x)
  {
    var q := p[SpaceRun(p)..];
    calc {
      Collapse(p + x);
      { SpaceStep(p, x); }
      [' '] + Collapse(q + x);
      [' '] + (Collapse(q) + Collapse(x));
      ([' '] + Collapse(q)) + Collapse(x);
      Collapse(p) + Collapse(x);
    }
  }

  /** The step of the two append lemmas at a leading non-space. */
  lemma {:induction false} LetterCase(p: string, x: string)
    requires |p| > 0 && !IsSpace(p[0])
    requires Collapse(p[1..] + x) == Collapse(p[1..]) + Collapse(x)
    ensures Collapse(p + x) == Collapse(p) + Collapse(x)
  {
    var c, q := p[0], p[1..];
    LetterStep(p, x);
    assert Collapse(p) == [c] + Collapse(q);
    assert [c] + (Collapse(q) + Collapse(x)) == ([c] + Collapse(q)) + Collapse(x);
  }

  /** One unfolding of `Collapse` at a leading non-space of `p`. */
  lemma {:induction false} LetterStep(p: string, x: string)
    requires |p| > 0 && !IsSpace(p[0])
    ensures Collapse(p + x) == [p[0]] + Collapse(p[1..] + x)
  {
    assert (p + x)[0] == p[0];
    assert (p + x)[1..] == p[1..] + x;
  }

  /** A space run cannot cross into text that starts with a non-space. */
  lemma {:induction false} SpaceRunRight(p: string, x: string)
    requires x == [] || !IsSpace(x[0])
    ensures SpaceRun(p + x) == SpaceRun(p)
    decreases |p|
  {
    if |p| == 0 {
      assert p + x == x;
    } else if IsSpace(p[0]) {
      assert (p + x)[1..] == p[1..] + x;
      SpaceRunRight(p[1..], x);
    }
  }

  /** Collapsing also splits at any point that precedes a non-space. */
  lemma {:induction false} CollapseAppendRight(p: string, x: string)
    requires x == [] || !IsSpace(x[0])
    ensures Collapse(p + x) == Collapse(p) + Collapse(x)
    decreases |p|
  {
    if |p| == 0 {
      assert p + x == x;
    } else if IsSpace(p[0]) {
      CollapseAppendRight(p[SpaceRun(p)..], x);
      SpaceRunRight(p, x);
      SpaceCase(p, x);
    } else {
      CollapseAppendRight(p[1..], x);
      LetterCase(p, x);
    }
  }

  /** One unfolding of `Collapse` at a leading space run of `p` that does
      not reach into `x`. */
  lemma {:induction false} SpaceStep(p: string, x: string)
    requires |p| > 0 && IsSpace(p[0]) && SpaceRun(p + x) == SpaceRun(p)
    ensures SpaceRun(p) > 0
    ensures Collapse(p + x) == [' '] + Collapse(p[SpaceRun(p)..] + x)
  {
    var n := SpaceRun(p);
    assert (p + x)[0] == p[0];
    assert StripStart(p + x) == p[n..] + x by {
      assert (p + x)[n..] == p[n..] + x;
    }
  }

  /** Between two words, any whitespace run becomes exactly one space and
      the words themselves are collapsed as they stand. */
  lemma {:induction false} CollapseJoin(a: string, w: string, b: string)
    requires a == [] || !IsSpace(a[|a| - 1])
    requires |w| > 0 && forall i :: 0 <= i < |w| ==> IsSpace(w[i])
    requires b == [] || !IsSpace(b[0])
    ensures Collapse(a + w + b) == Collapse(a) + " " + Collapse(b)
  {
    var rest := w + b;
    assert a + w + b == a + rest;
    CollapseRun(w, b);
    CollapseAppend(a, rest);
    assert Collapse(a) + ([' '] + Collapse(b)) == Collapse(a) + " " + Collapse(b);
  }

  /** A leading whitespace run collapses to one space. */
  lemma {:induction false} CollapseRun(w: string, b: string)
    requires |w| > 0 && forall i :: 0 <= i < |w| ==> IsSpace(w[i])
    requires b == [] || !IsSpace(b[0])
    ensures Collapse(w + b) == [' '] + Collapse(b)
  {
    assert (w + b)[0] == w[0];
    assert StripStart(w + b) == b by {
      SpaceRunAll(w, b);
      assert (w + b)[|w|..] == b;
    }
  }

  /** Text that starts and ends with a non-space survives collapsing of
      whatever surrounds it. */
  lemma {:induction false} CollapseKeepsInner(pre: string, x: string, post: string)
    requires |x| > 0 && NoEdgeSpace(x)
    ensures Contains(Collapse(pre + x + post), Collapse(x))
  {
    CollapseAppend(pre + x, post);
    CollapseAppendRight(pre, x);
    assert Collapse(pre + x + post) == Collapse(pre) + Collapse(x) + Collapse(post);
    ContainsAt(Collapse(pre + x + post), Collapse(x), |Collapse(pre)|);
  }

  lemma CollapseEdges(s: string)
    requires NoEdgeSpace(s)
    ensures NoEdgeSpace(Collapse(s))
  {
    if |s| > 0 {
      CollapseHead(s);
      CollapseLast(s);
    }
  }

  lemma {:induction false} CollapseNoUpper(s: string)
    requires NoUpper(s)
    ensures NoUpper(Collapse(s))
    decreases |s|
  {
    if |s| > 0 {
      if IsSpace(s[0]) {
        var t := StripStart(s);
        assert NoUpper(t) by {
          forall i | 0 <= i < |t| ensures !IsUpper(t[i]) {
            assert t[i] == s[|s| - |t| + i];
          }
        }
        CollapseNoUpper(t);
      } else {
        CollapseNoUpper(s[1..]);
      }
    }
  }

  /* ---------------------------------------------------------------- */
  /* Decimal digits                                                     */
  /* ---------------------------------------------------------------- */

  predicate AllDigits(s: string) {
    forall i :: 0 <= i < |s| ==> IsDigit(s[i])
  }

  /** Length of the longest prefix of ASCII digits. */
  function DigitRun(s: string): (n: nat)
    ensures n <= |s| && AllDigits(s[..n])
    ensures n < |s| ==> !IsDigit(s[n])
    decreases |s|
  {
    if |s| > 0 && IsDigit(s[0]) then 1 + DigitRun(s[1..]) else 0
  }

  /** Length of the longest prefix of ASCII letters. */
  function LetterRun(s: string): (n: nat)
    ensures n <= |s| && forall i :: 0 <= i < n ==> IsLetter(s[i])
    ensures n < |s| ==> !IsLetter(s[n])
    decreases |s|
  {
    if |s| > 0 && IsLetter(s[0]) then 1 + LetterRun(s[1..]) else 0
  }

  /** Length of the longest prefix of whitespace. */
  function SpaceRun(s: string): (n: nat)
    ensures n <= |s| && forall i :: 0 <= i < n ==> IsSpace(s[i])
    ensures n < |s| ==> !IsSpace(s[n])
    decreases |s|
  {
    if |s| > 0 && IsSpace(s[0]) then 1 + SpaceRun(s[1..]) else 0
  }

  /** A maximal run is read whole when a character outside the class
      follows it. */
  lemma {:induction false} DigitRunOf(a: string, b: string)
    requires AllDigits(a) && (b == [] || !IsDigit(b[0]))
    ensures DigitRun(a + b) == |a|
    decreases |a|
  {
    if |a| > 0 {
      assert (a + b)[1..] == a[1..] + b;
      DigitRunOf(a[1..], b);
    }
  }

  lemma {:induction false} LetterRunOf(a: string, b: string)
    requires forall i :: 0 <= i < |a| ==> IsLetter(a[i])
    requires b == [] || !IsLetter(b[0])
    ensures LetterRun(a + b) == |a|
    decreases |a|
  {
    if |a| > 0 {
      assert (a + b)[1..] == a[1..] + b;
      LetterRunOf(a[1..], b);
    }
  }

  lemma SpaceRunOne(b: string)
    requires b == [] || !IsSpace(b[0])
    ensures SpaceRun([' '] + b) == 1
  {
    assert ([' '] + b)[1..] == b;
  }

  function DigitChar(d: nat): char
    requires d < 10
  {
    ('0' as int + d) as char
  }

  /** Python's `int(ds)` for a string of ASCII digits. */
  function Number(ds: string): nat
    requires AllDigits(ds)
    decreases |ds|
  {
    if |ds| == 0 then 0
    else Number(ds[..|ds| - 1]) * 10 + (ds[|ds| - 1] as int - '0' as int)
  }

  function Pow10(k: nat): nat {
    if k == 0 then 1 else 10 * Pow10(k - 1)
  }

  /** The decimal digits of `n`, zero-padded on the left to at least
      `width` characters (`width` 1 gives Python's `str(n)`). */
  function Show(n: nat, width: nat): (r: string)
    ensures |r| >= 1 && AllDigits(r)
    ensures Number(r) == n
    decreases n, width
  {
    if n < 10 && width <= 1 then [DigitChar(n)]
    else
      var prefix := Show(n / 10, if width == 0 then 0 else width - 1);
      var r := prefix + [DigitChar(n % 10)];
      assert r[..|r| - 1] == prefix;
      r
  }

  /** A value below `10^width` is printed in exactly `width` digits. */
  lemma {:induction false} ShowWidth(n: nat, width: nat)
    requires width >= 1 && n < Pow10(width)
    ensures |Show(n, width)| == width
    decreases width
  {
    if !(n < 10 && width <= 1) {
      ShowWidth(n / 10, width - 1);
    }
  }

  /** Values below 10 print as one digit, the others below 100 as two. */
  lemma ShowSmall(n: nat)
    requires n < 100
    ensures |Show(n, 1)| == (if n < 10 then 1 else 2)
  {
    if n >= 10 {
      assert n / 10 < 10;
    }
  }

  /** Python's `str(i)` for any integer. */
  function ShowInt(i: int): string {
    if i < 0 then "-" + Show(-i, 1) else Show(i, 1)
  }

  lemma ShowIntInjective(i: int, j: int)
    requires ShowInt(i) == ShowInt(j)
    ensures i == j
  {
    assert ShowInt(i)[0] == ShowInt(j)[0];
    if i < 0 && j < 0 {
      assert ShowInt(i)[1..] == Show(-i, 1);
      assert ShowInt(j)[1..] == Show(-j, 1);
    }
  }
}
