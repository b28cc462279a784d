/** Character classes and the string primitives the answer normaliser is
    built from: Python's non-overlapping `str.replace`, the regular
    expression character classes `\w` and `\s`, `str.lower` and
    `str.strip`. */
module Text {

  /** The three character-level behaviours Python provides: membership of
      `\w`, membership of `\s` (the same set `str.strip` removes), and the
      one-character case mapping of `str.lower`. */
  datatype CharClasses = CharClasses(isWord: char -> bool, isSpace: char -> bool, lower: char -> char)

  /** What the normaliser relies on of the character classes. They hold of
      `\w`, `\s` and Python's simple (one-to-one) case mapping; the full
      `str.lower` breaks the last two for U+0130, whose lower-case form is
      `'i'` followed by U+0307, a character outside `\w`. */
  ghost predicate Valid(cc: CharClasses) {
    && cc.isSpace(' ')
    && !cc.isWord(' ')
    && cc.lower(' ') == ' '
    && !cc.isWord('.') && !cc.isSpace('.')
    && !cc.isWord('&') && !cc.isSpace('&')
    && (forall c :: !(cc.isWord(c) && cc.isSpace(c)))
    && (forall c {:trigger cc.lower(c)} :: cc.isWord(c) ==> cc.isWord(cc.lower(c)))
    && (forall c {:trigger cc.lower(cc.lower(c))} :: cc.isWord(c) ==> cc.lower(cc.lower(c)) == cc.lower(c))
  }

  predicate IsAsciiWord(c: char) {
    ('a' <= c <= 'z') || ('A' <= c <= 'Z') || ('0' <= c <= '9') || c == '_'
  }

  /** ASCII whitespace as Python's `str.isspace` sees it: space, tab,
      line feed, vertical tab, form feed, carriage return and the four
      separators 0x1c to 0x1f. */
  predicate IsAsciiSpace(c: char) {
    c == ' ' || (9 <= c as int <= 13) || (28 <= c as int <= 31)
  }

  function AsciiLower(c: char): char {
    if 'A' <= c <= 'Z' then (c as int + 32) as char else c
  }

  /** The character classes restricted to ASCII: faithful to Python on
      ASCII text, where every other character counts as punctuation. */
  function Ascii(): (cc: CharClasses)
    ensures Valid(cc)
  {
    CharClasses(IsAsciiWord, IsAsciiSpace, AsciiLower)
  }

  /** Python's `s.replace(pat, '')`: scans left to right and deletes each
      occurrence of `pat` that does not overlap an earlier deleted one;
      occurrences that the deletions create are left in place. */
  function RemoveAll(s: string, pat: string): (r: string)
    requires |pat| > 0
    ensures |r| <= |s|
    decreases |s|
  {
    if |s| < |pat| then s
    else if s[..|pat|] == pat then RemoveAll(s[|pat|..], pat)
    else [s[0]] + RemoveAll(s[1..], pat)
  }

  /** Every character of the text satisfies `P`. */
  ghost predicate All(P: char -> bool, s: string) {
    forall i :: 0 <= i < |s| ==> P(s[i])
  }

  /** Deletion only deletes: whatever holds of every character of the
      input holds of every character of the output. */
  lemma {:induction false} RemoveAllOnlyDeletes(s: string, pat: string, P: char -> bool)
    requires |pat| > 0 && All(P, s)
    ensures All(P, RemoveAll(s, pat))
    decreases |s|
  {
    if |s| < |pat| {
    } else if s[..|pat|] == pat {
      RemoveAllOnlyDeletes(s[|pat|..], pat, P);
    } else {
      RemoveAllOnlyDeletes(s[1..], pat, P);
    }
  }

  /** A string in which some character of the pattern never occurs has no
      occurrence to delete. */
  lemma {:induction false} RemoveAllAbsent(s: string, pat: string, c: char)
    requires |pat| > 0 && c in pat && c !in s
    ensures RemoveAll(s, pat) == s
    decreases |s|
  {
    if |s| < |pat| {
    } else {
      var k :| 0 <= k < |pat| && pat[k] == c;
      assert s[..|pat|][k] == s[k];
      assert s[..|pat|] != pat;
      RemoveAllAbsent(s[1..], pat, c);
      assert s == [s[0]] + s[1..];
    }
  }

  /** `re.sub(r'[^\w\s]', '', s)`: keeps the word and whitespace
      characters, in order. */
  function KeepWordOrSpace(cc: CharClasses, s: string): (r: string)
    ensures |r| <= |s|
  {
    if |s| == 0 then []
    else if cc.isWord(s[0]) || cc.isSpace(s[0]) then [s[0]] + KeepWordOrSpace(cc, s[1..])
    else KeepWordOrSpace(cc, s[1..])
  }

  /** The output holds only word and whitespace characters, text made only
      of them is left alone, and text made only of punctuation vanishes. */
  lemma {:induction false} KeepWordOrSpaceSelects(cc: CharClasses, s: string)
    ensures var r := KeepWordOrSpace(cc, s);
      && (forall i :: 0 <= i < |r| ==> cc.isWord(r[i]) || cc.isSpace(r[i]))
      && ((forall i :: 0 <= i < |s| ==> cc.isWord(s[i]) || cc.isSpace(s[i])) ==> r == s)
      && ((forall i :: 0 <= i < |s| ==> !cc.isWord(s[i]) && !cc.isSpace(s[i])) ==> r == [])
  {
    if |s| > 0 {
      KeepWordOrSpaceSelects(cc, s[1..]);
    }
  }

  /** On one character the filter keeps it exactly when it is a word or
      whitespace character. */
  lemma KeepWordOrSpaceOfOne(cc: CharClasses, c: char)
    ensures KeepWordOrSpace(cc, [c]) == if cc.isWord(c) || cc.isSpace(c) then [c] else []
  {
  }

  /** The filter works character by character: filtering a concatenation
      filters each part. With the one-character case this pins the output
      down as exactly the word and whitespace characters of the input, in
      order. */
  lemma {:induction false} KeepWordOrSpaceConcat(cc: CharClasses, a: string, b: string)
    ensures KeepWordOrSpace(cc, a + b) == KeepWordOrSpace(cc, a) + KeepWordOrSpace(cc, b)
  {
    if |a| > 0 {
      assert (a + b)[1..] == a[1..] + b;
      KeepWordOrSpaceConcat(cc, a[1..], b);
    } else {
      assert a + b == b;
    }
  }

  /** `s.lstrip()`: drops the whitespace at the front. */
  function TrimStart(cc: CharClasses, s: string): (r: string)
    ensures |r| <= |s|
  {
    if |s| > 0 && cc.isSpace(s[0]) then TrimStart(cc, s[1..]) else s
  }

  /** What `lstrip` leaves is the longest suffix that does not start with
      whitespace. */
  lemma {:induction false} TrimStartSuffix(cc: CharClasses, s: string)
    ensures var r := TrimStart(cc, s);
      && r == s[|s| - |r|..]
      && (|r| > 0 ==> !cc.isSpace(r[0]))
      && (forall i :: 0 <= i < |s| - |r| ==> cc.isSpace(s[i]))
  {
    if |s| > 0 && cc.isSpace(s[0]) {
      TrimStartSuffix(cc, s[1..]);
    }
  }

  /** `s.rstrip()`: drops the whitespace at the back. */
  function TrimEnd(cc: CharClasses, s: string): (r: string)
    ensures |r| <= |s|
  {
    if |s| > 0 && cc.isSpace(s[|s| - 1]) then TrimEnd(cc, s[..|s| - 1]) else s
  }

  /** What `rstrip` leaves is the longest prefix that does not end with
      whitespace. */
  lemma {:induction false} TrimEndPrefix(cc: CharClasses, s: string)
    ensures var r := TrimEnd(cc, s);
      && r == s[..|r|]
      && (|r| > 0 ==> !cc.isSpace(r[|r| - 1]))
      && (forall i :: |r| <= i < |s| ==> cc.isSpace(s[i]))
  {
    if |s| > 0 && cc.isSpace(s[|s| - 1]) {
      TrimEndPrefix(cc, s[..|s| - 1]);
    }
  }

  /** `s.strip()`. */
  function Strip(cc: CharClasses, s: string): string {
    TrimEnd(cc, TrimStart(cc, s))
  }

  /** Strip leaves no whitespace at either end. */
  lemma StripTrimsEnds(cc: CharClasses, s: string)
    ensures var r := Strip(cc, s);
      |r| > 0 ==> !cc.isSpace(r[0]) && !cc.isSpace(r[|r| - 1])
  {
    TrimStartSuffix(cc, s);
    TrimEndPrefix(cc, TrimStart(cc, s));
  }

  /** Strip removes nothing but whitespace at the ends: the result is a
      slice of the input, so what holds of every input character or of the
      spacing of the input holds of the result. */
  lemma StripKeepsMiddle(cc: CharClasses, s: string, P: char -> bool)
    ensures All(P, s) ==> All(P, Strip(cc, s))
    ensures SingleSpaced(cc, s) ==> SingleSpaced(cc, Strip(cc, s))
  {
    var t := TrimStart(cc, s);
    var r := TrimEnd(cc, t);
    TrimStartSuffix(cc, s);
    TrimEndPrefix(cc, t);
    var a := |s| - |t|;
    assert r == s[a..a + |r|];
    SliceSingleSpaced(cc, s, a, a + |r|);
    assert forall i :: 0 <= i < |r| ==> r[i] == s[a + i];
  }

  /** Text without whitespace at its ends is returned as it is. */
  lemma StripFixesTrimmed(cc: CharClasses, s: string)
    requires |s| > 0 ==> !cc.isSpace(s[0]) && !cc.isSpace(s[|s| - 1])
    ensures Strip(cc, s) == s
  {
  }

  lemma SliceSingleSpaced(cc: CharClasses, s: string, a: nat, b: nat)
    requires a <= b <= |s|
    ensures SingleSpaced(cc, s) ==> SingleSpaced(cc, s[a..b])
  {
    var t := s[a..b];
    assert forall i :: 0 <= i < |t| ==> t[i] == s[a + i];
  }

  /** Every whitespace character of the text is a plain space and no two
      spaces are adjacent. */
  ghost predicate SingleSpaced(cc: CharClasses, s: string) {
    && (forall i :: 0 <= i < |s| && cc.isSpace(s[i]) ==> s[i] == ' ')
    && (forall i :: 0 <= i < |s| - 1 ==> !(s[i] == ' ' && s[i + 1] == ' '))
  }

  /** `re.sub(r'\s+', ' ', s)`: every maximal run of whitespace becomes a
      single space. */
  function Collapse(cc: CharClasses, s: string): (r: string)
    ensures |r| <= |s|
    decreases |s|
  {
    if |s| == 0 then []
    else if cc.isSpace(s[0]) then [' '] + Collapse(cc, TrimStart(cc, s[1..]))
    else [s[0]] + Collapse(cc, s[1..])
  }

  /** After collapsing, the text is single-spaced, every character other
      than a plain space is a non-whitespace character satisfying whatever
      all input characters satisfy, and the first character stands for the
      input's first. */
  lemma {:induction false} CollapseSingleSpaces(cc: CharClasses, s: string, P: char -> bool)
    requires cc.isSpace(' ') && All(P, s)
    ensures var r := Collapse(cc, s);
      && (forall i :: 0 <= i < |r| ==> r[i] == ' ' || (P(r[i]) && !cc.isSpace(r[i])))
      && (|s| > 0 ==> |r| > 0 && r[0] == (if cc.isSpace(s[0]) then ' ' else s[0]))
      && SingleSpaced(cc, r)
    decreases |s|
  {
    if |s| == 0 {
    } else if cc.isSpace(s[0]) {
      var t := TrimStart(cc, s[1..]);
      TrimStartSuffix(cc, s[1..]);
      assert forall i :: 0 <= i < |t| ==> t[i] == s[|s| - |t| + i];
      CollapseSingleSpaces(cc, t, P);
      var r := Collapse(cc, s);
      assert forall i :: 0 < i < |r| ==> r[i] == Collapse(cc, t)[i - 1];
    } else {
      CollapseSingleSpaces(cc, s[1..], P);
      var r := Collapse(cc, s);
      assert forall i :: 0 < i < |r| ==> r[i] == Collapse(cc, s[1..])[i - 1];
    }
  }

  /** Single-spaced text is left alone, so collapsing is idempotent. */
  lemma {:induction false} CollapseFixesSingleSpaced(cc: CharClasses, s: string)
    requires cc.isSpace(' ') && SingleSpaced(cc, s)
    ensures Collapse(cc, s) == s
    decreases |s|
  {
    if |s| == 0 {
    } else if cc.isSpace(s[0]) {
      SpaceRunOfOne(cc, s);
      CollapseFixesSingleSpaced(cc, s[1..]);
    } else {
      SliceSingleSpaced(cc, s, 1, |s|);
      CollapseFixesSingleSpaced(cc, s[1..]);
    }
  }

  lemma SpaceRunOfOne(cc: CharClasses, s: string)
    requires |s| > 0 && cc.isSpace(s[0])
    ensures cc.isSpace(' ') && SingleSpaced(cc, s) ==> TrimStart(cc, s[1..]) == s[1..] && SingleSpaced(cc, s[1..])
  {
    if cc.isSpace(' ') && SingleSpaced(cc, s) {
      SliceSingleSpaced(cc, s, 1, |s|);
      if |s| > 1 {
        assert !(s[0] == ' ' && s[1] == ' ');
      }
    }
  }

  /** `s.lower()`, one character at a time. */
  function Lower(cc: CharClasses, s: string): (r: string)
    ensures |r| == |s|
    ensures forall i :: 0 <= i < |s| ==> r[i] == cc.lower(s[i])
  {
    seq(|s|, i requires 0 <= i < |s| => cc.lower(s[i]))
  }
}
