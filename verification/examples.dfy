/** Concrete scenarios for the scheduler and the matcher, on ASCII text. */
module Examples {
  import opened Outcomes
  import opened Text
  import opened Matcher
  import opened Catalog
  import opened Progress
  import opened ArtistOrder
  import opened Scheduler

  /** Deletion is a single pass: deleting "ft." from "fft.t." leaves the
      "ft." the deletion itself creates. */
  lemma SinglePassDeletion()
    ensures RemoveAll("fft.t.", "ft.") == "ft."
  {
  }

  /** A single ASCII letter normalises to its lower-case form. */
  lemma CleanLetter(c: char)
    requires 'a' <= c <= 'z' || 'A' <= c <= 'Z'
    ensures Clean(Ascii(), [c]) == [AsciiLower(c)]
  {
    var cc := Ascii();
    var s := [c];
    assert RemoveAll(s, "ft.") == s;
    assert RemoveAll(s, "feat.") == s;
    assert KeepWordOrSpace(cc, s) == s;
    assert RemoveAll(s, "& ") == s;
    assert Collapse(cc, s) == s;
    assert Lower(cc, s) == [AsciiLower(c)];
    assert Strip(cc, [AsciiLower(c)]) == [AsciiLower(c)];
  }

  /** Answering "y" and "Y" is the self-report shortcut. */
  lemma ShortcutExample()
    ensures CheckAnswer(Ascii(), ["Radiohead", "Creep"], ["y", "Y"])
  {
    CleanLetter('y');
    CleanLetter('Y');
    SelfReportShortcut(Ascii(), ["Radiohead", "Creep"], ["y", "Y"]);
  }

  /** Case does not matter. */
  lemma CaseIgnored()
    ensures CheckAnswer(Ascii(), ["A", "B"], ["a", "b"])
  {
    CleanLetter('A');
    CleanLetter('a');
    CleanLetter('B');
    CleanLetter('b');
    CheckAnswerUpToCleaning(Ascii(), ["A", "B"], ["a", "b"]);
  }

  /** A reply with too few parts is wrong, not an error. */
  lemma TooFewParts()
    ensures !CheckAnswer(Ascii(), ["A", "B"], ["A"])
  {
    CleanLetter('A');
    assert Clean(Ascii(), ["A"][0]) != "y";
    ArityMismatchRejected(Ascii(), ["A", "B"], ["A"]);
  }

  function Identity(k: nat, b: seq<Pair>): seq<Pair> {
    b
  }

  /** Two unpractised pairs come out sorted by artist. */
  lemma NewPairsByArtist()
    ensures var zed := Pair(1, "q1", "Zed", "Song1");
      var abe := Pair(2, "q2", "Abe", "Song2");
      BuildQueue([zed, abe], map[], Identity) == [abe, zed]
  {
    var zed := Pair(1, "q1", "Zed", "Song1");
    var abe := Pair(2, "q2", "Abe", "Song2");
    var ps := [zed, abe];
    assert MinStreak(ps, map[]) == 0;
    assert ps[1..] == [abe];
    assert WithStreak([abe], map[], 0) == [abe];
    assert WithStreak(ps, map[], 0) == ps;
    assert WithoutStreak([abe], map[], 0) == [];
    assert WithoutStreak(ps, map[], 0) == [];
    assert !StrLe("Zed", "Abe");
    assert SortByArtist([abe]) == [abe];
    assert SortByArtist(ps) == Insert(zed, [abe]) == [abe, zed];
  }

  /** A single pair answered correctly four times: it comes straight
      back (the queue behind it is empty, so every target is clamped to 0)
      with streaks 1, 2 and 3, and the fourth correct answer retires it. */
  lemma OnePairLearnt()
    ensures var p := Pair(1, "q", "A", "a");
      var r1 := Step([p], map[], true);
      var r2 := Step(r1.queue, r1.streaks, true);
      var r3 := Step(r2.queue, r2.streaks, true);
      var r4 := Step(r3.queue, r3.streaks, true);
      && r1 == StepResult([p], map[1 := 1], Reinserted(0))
      && r2 == StepResult([p], map[1 := 2], Reinserted(0))
      && r3 == StepResult([p], map[1 := 3], Reinserted(0))
      && r4 == StepResult([], map[1 := 4], Retired)
  {
  }

  /** The first correct answer of three new pairs sends the first pair two
      places on, behind the other two; a wrong one does the same and
      records streak 0. */
  lemma FirstOfThree()
    ensures var a, b, c := Pair(1, "qa", "A", "a"), Pair(2, "qb", "B", "b"), Pair(3, "qc", "C", "c");
      && Step([a, b, c], map[], true) == StepResult([b, c, a], map[1 := 1], Reinserted(2))
      && Step([a, b, c], map[], false) == StepResult([b, c, a], map[1 := 0], Reinserted(2))
  {
  }

  /** In a long queue, streaks 1, 2 and 3 come back 4, 8 and 16 places on,
      and a wrong answer 2 places on. */
  lemma SpacingInLongQueue()
    ensures ReinsertAt(20, true, 1) == 4 && ReinsertAt(20, true, 2) == 8 && ReinsertAt(20, true, 3) == 16
    ensures ReinsertAt(20, false, 0) == 2
  {
  }
}
