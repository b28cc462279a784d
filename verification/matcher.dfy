/** The answer matcher: `Answer.clean_string` and `Answer.check_answer`
    (flashcards.py:56-82). */
module Matcher {
  import opened Text

  /** The shape every normalised answer has: lower-case word characters
      separated by single plain spaces, with no space at either end. */
  ghost predicate IsClean(cc: CharClasses, t: string) {
    && (forall i :: 0 <= i < |t| ==> cc.isWord(t[i]) || t[i] == ' ')
    && (forall i :: 0 <= i < |t| ==> cc.lower(t[i]) == t[i])
    && (|t| > 0 ==> t[0] != ' ' && t[|t| - 1] != ' ')
    && (forall i :: 0 <= i < |t| - 1 ==> !(t[i] == ' ' && t[i + 1] == ' '))
  }

  /** `clean_string`: deletes every "ft." and then every "feat." (plain
      substring deletion, case-sensitive), deletes punctuation, deletes
      "& ", collapses whitespace runs, lower-cases and strips. */
  function Clean(cc: CharClasses, s: string): string {
    var noFt := RemoveAll(s, "ft.");
    var noFeat := RemoveAll(noFt, "feat.");
    var noPunct := KeepWordOrSpace(cc, noFeat);
    var noAmp := RemoveAll(noPunct, "& ");
    var collapsed := Collapse(cc, noAmp);
    Strip(cc, Lower(cc, collapsed))
  }

  /** Whatever the input, the normalised text has the clean shape. */
  lemma CleanIsClean(cc: CharClasses, s: string)
    requires Valid(cc)
    ensures IsClean(cc, Clean(cc, s))
  {
    var kept := c => cc.isWord(c) || cc.isSpace(c);
    var noFt := RemoveAll(s, "ft.");
    var noFeat := RemoveAll(noFt, "feat.");
    var noPunct := KeepWordOrSpace(cc, noFeat);
    KeepWordOrSpaceSelects(cc, noFeat);
    assert All(kept, noPunct);
    var noAmp := RemoveAll(noPunct, "& ");
    RemoveAllOnlyDeletes(noPunct, "& ", kept);
    var collapsed := Collapse(cc, noAmp);
    CollapseSingleSpaces(cc, noAmp, kept);
    var lowered := Lower(cc, collapsed);
    assert forall i :: 0 <= i < |lowered| ==>
      (lowered[i] == ' ' <==> collapsed[i] == ' ') && (cc.isWord(lowered[i]) || lowered[i] == ' ');
    assert SingleSpaced(cc, lowered);
    var final := c => (cc.isWord(c) || c == ' ') && cc.lower(c) == c;
    assert forall i :: 0 <= i < |lowered| ==> cc.lower(lowered[i]) == lowered[i] by {
      forall i | 0 <= i < |lowered|
        ensures cc.lower(lowered[i]) == lowered[i]
      {
        if collapsed[i] != ' ' {
          assert cc.lower(cc.lower(collapsed[i])) == cc.lower(collapsed[i]);
        }
      }
    }
    assert All(final, lowered);
    StripTrimsEnds(cc, lowered);
    StripKeepsMiddle(cc, lowered, final);
  }

  /** Text that already has the clean shape passes through every stage of
      the normaliser unchanged: it holds no '.', no '&', no punctuation,
      no whitespace run and no upper-case letter. */
  lemma CleanFixesClean(cc: CharClasses, t: string)
    requires Valid(cc) && IsClean(cc, t)
    ensures Clean(cc, t) == t
  {
    assert '.' !in t;
    assert '&' !in t;
    RemoveAllAbsent(t, "ft.", '.');
    RemoveAllAbsent(t, "feat.", '.');
    KeepWordOrSpaceSelects(cc, t);
    RemoveAllAbsent(t, "& ", '&');
    assert SingleSpaced(cc, t);
    CollapseFixesSingleSpaced(cc, t);
    assert Lower(cc, t) == t;
    StripFixesTrimmed(cc, t);
  }

  /** Normalising twice is normalising once. */
  lemma CleanIdempotent(cc: CharClasses, s: string)
    requires Valid(cc)
    ensures Clean(cc, Clean(cc, s)) == Clean(cc, s)
  {
    CleanIsClean(cc, s);
    CleanFixesClean(cc, Clean(cc, s));
  }

  /** The "& " deletion comes after punctuation (including '&') has
      already been deleted, so it never changes anything. */
  lemma AmpersandStepIsDead(cc: CharClasses, s: string)
    requires Valid(cc)
    ensures RemoveAll(KeepWordOrSpace(cc, s), "& ") == KeepWordOrSpace(cc, s)
  {
    var kept := KeepWordOrSpace(cc, s);
    KeepWordOrSpaceSelects(cc, s);
    assert '&' !in kept;
    RemoveAllAbsent(kept, "& ", '&');
  }

  /** Every part of a tuple normalised independently. */
  function CleanAll(cc: CharClasses, parts: seq<string>): (r: seq<string>)
    ensures |r| == |parts|
    ensures forall i :: 0 <= i < |parts| ==> r[i] == Clean(cc, parts[i])
  {
    seq(|parts|, i requires 0 <= i < |parts| => Clean(cc, parts[i]))
  }

  /** `check_answer`: the self-report shortcut when every given part
      normalises to "y", otherwise equality of the normalised tuples. */
  function CheckAnswer(cc: CharClasses, expected: seq<string>, given: seq<string>): (r: bool)
    ensures r <==>
      (forall i :: 0 <= i < |given| ==> Clean(cc, given[i]) == "y")
      || (|given| == |expected| && forall i :: 0 <= i < |given| ==> Clean(cc, given[i]) == Clean(cc, expected[i]))
  {
    var correct := CleanAll(cc, expected);
    var answer := CleanAll(cc, given);
    (forall i :: 0 <= i < |answer| ==> answer[i] == "y")
    || (|answer| == |correct| && forall i :: 0 <= i < |answer| ==> answer[i] == correct[i])
  }

  /** A tuple of "y" answers (in any case or punctuation) is accepted
      whatever the expected answer; so is the empty tuple. */
  lemma SelfReportShortcut(cc: CharClasses, expected: seq<string>, given: seq<string>)
    requires forall i :: 0 <= i < |given| ==> Clean(cc, given[i]) == "y"
    ensures CheckAnswer(cc, expected, given)
  {
  }

  /** Outside the shortcut, a tuple of the wrong length is rejected rather
      than raising an error. */
  lemma ArityMismatchRejected(cc: CharClasses, expected: seq<string>, given: seq<string>)
    requires |given| != |expected|
    requires exists i :: 0 <= i < |given| && Clean(cc, given[i]) != "y"
    ensures !CheckAnswer(cc, expected, given)
  {
  }

  /** Outside the shortcut the matcher is symmetric. */
  lemma CheckAnswerSymmetric(cc: CharClasses, a: seq<string>, b: seq<string>)
    requires exists i :: 0 <= i < |a| && Clean(cc, a[i]) != "y"
    requires exists i :: 0 <= i < |b| && Clean(cc, b[i]) != "y"
    ensures CheckAnswer(cc, a, b) == CheckAnswer(cc, b, a)
  {
  }

  /** Answers that differ only in what the normaliser removes or
      lower-cases are the same answer; in particular every answer matches
      itself. */
  lemma CheckAnswerUpToCleaning(cc: CharClasses, expected: seq<string>, given: seq<string>)
    requires |given| == |expected|
    requires forall i :: 0 <= i < |given| ==> Clean(cc, given[i]) == Clean(cc, expected[i])
    ensures CheckAnswer(cc, expected, given)
  {
  }

  /** The verdict depends only on the normalised parts of the reply: two
      replies that normalise alike are judged alike. */
  lemma VerdictDependsOnCleanedParts(cc: CharClasses, expected: seq<string>, g1: seq<string>, g2: seq<string>)
    requires CleanAll(cc, g1) == CleanAll(cc, g2)
    ensures CheckAnswer(cc, expected, g1) == CheckAnswer(cc, expected, g2)
  {
    var c1, c2 := CleanAll(cc, g1), CleanAll(cc, g2);
    assert |g1| == |g2|;
    forall i | 0 <= i < |g1|
      ensures Clean(cc, g1[i]) == Clean(cc, g2[i])
    {
      assert c1[i] == c2[i];
    }
  }

  /** Typing the normalised form of the expected answer is accepted. */
  lemma CheckAnswerAcceptsCleaned(cc: CharClasses, expected: seq<string>)
    requires Valid(cc)
    ensures CheckAnswer(cc, expected, CleanAll(cc, expected))
  {
    var g := CleanAll(cc, expected);
    forall i | 0 <= i < |g|
      ensures Clean(cc, g[i]) == Clean(cc, expected[i])
    {
      CleanIdempotent(cc, expected[i]);
    }
  }
}
