/** Title normalisation and the near-duplicate test that both extraction
    strategies use before emitting a title (`normalize_title` and
    `is_duplicate_title`, nested in `scrape_assignments`). */
module Dedup {
  import opened Text

  /** A title in normal form: no upper-case letter, no whitespace at either
      end, and whitespace only as single plain spaces. */
  predicate IsNormal(t: string) {
    NoUpper(t) && NoEdgeSpace(t) && Collapsed(t)
  }

  /** `normalize_title`: strip, lower-case, then turn every whitespace run
      into one space. The result is always in normal form. */
  function NormalizeTitle(t: string): (r: string)
    ensures IsNormal(r)
  {
    var s := Strip(t);
    var l := Lower(s);
    LowerKeepsEdges(s);
    CollapseEdges(l);
    CollapseNoUpper(l);
    CollapseShape(l);
    Collapse(l)
  }

  /** A title already in normal form is its own normalisation. */
  lemma NormalizeFixed(t: string)
    requires IsNormal(t)
    ensures NormalizeTitle(t) == t
  {
    StripFixed(t);
    LowerFixed(t);
    CollapseFixed(t);
  }

  lemma LowerKeepsEdges(s: string)
    requires NoEdgeSpace(s)
    ensures NoEdgeSpace(Lower(s)) && NoUpper(Lower(s))
  {
  }

  /** Normalising twice is normalising once. */
  lemma NormalizeIdempotent(t: string)
    ensures NormalizeTitle(NormalizeTitle(t)) == NormalizeTitle(t)
  {
    NormalizeFixed(NormalizeTitle(t));
  }

  /** A title whose case is the only difference from its normal form
      normalises to its lower-case spelling. */
  lemma NormalizeTrimmed(t: string)
    requires NoEdgeSpace(t) && Collapsed(t)
    ensures NormalizeTitle(t) == Lower(t)
  {
    StripFixed(t);
    LowerKeepsEdges(t);
    assert Collapsed(Lower(t));
    CollapseFixed(Lower(t));
  }

  /** Whitespace at the ends of a title does not change its normal form. */
  lemma NormalizeIgnoresEdges(t: string)
    ensures NormalizeTitle(Strip(t)) == NormalizeTitle(t)
  {
    StripFixed(Strip(t));
  }

  /** Two words joined by any run of whitespace normalise to their normal
      forms joined by one space: the letters are kept, lower-cased, in
      order, and only the run between them shrinks. */
  lemma {:induction false} NormalizeJoin(a: string, w: string, b: string)
    requires |a| > 0 && |b| > 0 && NoEdgeSpace(a) && NoEdgeSpace(b)
    requires |w| > 0 && forall i :: 0 <= i < |w| ==> IsSpace(w[i])
    ensures NormalizeTitle(a + w + b) == NormalizeTitle(a) + " " + NormalizeTitle(b)
  {
    var s := a + w + b;
    assert s[0] == a[0] && s[|s| - 1] == b[|b| - 1];
    StripFixed(s);
    StripFixed(a);
    StripFixed(b);
    LowerAppend(a + w, b);
    LowerAppend(a, w);
    LowerKeepsEdges(a);
    LowerKeepsEdges(b);
    CollapseJoin(Lower(a), Lower(w), Lower(b));
  }

  /** Two titles are near duplicates when their normal forms are equal or
      one contains the other. */
  predicate NearDuplicate(a: string, b: string) {
    var x := NormalizeTitle(a);
    var y := NormalizeTitle(b);
    x == y || Contains(y, x) || Contains(x, y)
  }

  /** The test is symmetric and every title is a near duplicate of itself,
      so a title already in the found set is always reported. */
  lemma NearDuplicateSymmetric(a: string, b: string)
    ensures NearDuplicate(a, b) <==> NearDuplicate(b, a)
    ensures NearDuplicate(a, a)
  {
  }

  /** Specification of `is_duplicate_title`: some title of the set is a
      near duplicate. */
  predicate DuplicateOf(title: string, found: set<string>) {
    exists e :: e in found && NearDuplicate(title, e)
  }

  /** `is_duplicate_title`: the loop over the found set that returns at the
      first near duplicate. The answer does not depend on the order in
      which the set is walked. */
  method IsDuplicateTitle(title: string, found: set<string>) returns (dup: bool)
    ensures dup <==> DuplicateOf(title, found)
  {
    var normalized := NormalizeTitle(title);
    var rest := found;
    while rest != {}
      invariant rest <= found
      invariant forall e :: e in found - rest ==> !NearDuplicate(title, e)
      decreases |rest|
    {
      var existing :| existing in rest;
      var existingNormalized := NormalizeTitle(existing);
      if normalized == existingNormalized || Contains(existingNormalized, normalized)
        || Contains(normalized, existingNormalized)
      {
        return true;
      }
      rest := rest - {existing};
    }
    return false;
  }

  /** No two distinct members of the set are near duplicates. */
  predicate PairwiseDistinct(found: set<string>) {
    forall a, b :: a in found && b in found && a != b ==> !NearDuplicate(a, b)
  }

  /** Adding a title that passed the duplicate test keeps the set pairwise
      distinct and grows it by exactly one. */
  lemma AddKeepsDistinct(found: set<string>, title: string)
    requires PairwiseDistinct(found) && !DuplicateOf(title, found)
    ensures title !in found && |found + {title}| == |found| + 1
    ensures PairwiseDistinct(found + {title})
  {
    NearDuplicateSymmetric(title, title);
    forall a, b | a in found + {title} && b in found + {title} && a != b
      ensures !NearDuplicate(a, b)
    {
      NearDuplicateSymmetric(a, b);
    }
  }

  /** A title collides with another whenever the other's stripped,
      lower-cased text occurs in its own, whatever whitespace runs either
      holds: collapsing the surrounding text leaves that occurrence intact,
      because it starts and ends with a non-space. */
  lemma ContainedTitlesCollide(a: string, b: string)
    requires Contains(Lower(Strip(b)), Lower(Strip(a)))
    ensures NearDuplicate(b, a) && DuplicateOf(b, {a})
  {
    NormalFormsContain(a, b);
  }

  lemma {:induction false} NormalFormsContain(a: string, b: string)
    requires Contains(Lower(Strip(b)), Lower(Strip(a)))
    ensures Contains(NormalizeTitle(b), NormalizeTitle(a))
  {
    var x := Lower(Strip(a));
    var s := Lower(Strip(b));
    assert NormalizeTitle(a) == Collapse(x);
    assert NormalizeTitle(b) == Collapse(s);
    if |x| == 0 {
      assert MatchesAt(Collapse(s), Collapse(x), 0);
    } else {
      var i :| 0 <= i <= |s| - |x| && MatchesAt(s, x, i);
      LowerKeepsEdges(Strip(a));
      SplitAround(s, x, i);
      CollapseKeepsInner(s[..i], x, s[i + |x|..]);
    }
  }

  /** A shorter numbered title swallows a longer one with the same prefix:
      once "Assignment 1" has been found, "Assignment 10" is suppressed. */
  lemma NumberedTitlesCollide()
    ensures DuplicateOf("Assignment 10", {"Assignment 1"})
  {
    ShortTitleShape();
    LongTitleShape();
    StripFixed("Assignment 1");
    StripFixed("Assignment 10");
    ContainsAt("assignment 10", "assignment 1", 0);
    ContainedTitlesCollide("Assignment 1", "Assignment 10");
  }

  lemma ShortTitleShape()
    ensures NoEdgeSpace("Assignment 1") && Collapsed("Assignment 1")
    ensures Lower("Assignment 1") == "assignment 1"
  {
  }

  lemma LongTitleShape()
    ensures NoEdgeSpace("Assignment 10") && Collapsed("Assignment 10")
    ensures Lower("Assignment 10") == "assignment 10"
  {
  }
}
