/** The adaptive scheduler: building the drill queue from the streaks
    (`generate_ordered_pairs`, flashcards.py:230-251) and one consumption
    step of the play loop (flashcards.py:278-322). */
module Scheduler {
  import opened Catalog
  import opened Progress
  import opened ArtistOrder

  /** What `random.shuffle` may do to bucket `k`: any rearrangement. The
      bucket's streak is passed so that each bucket can be rearranged
      differently. */
  ghost predicate IsShuffle(shuffle: (nat, seq<Pair>) -> seq<Pair>) {
    forall k, b :: multiset(shuffle(k, b)) == multiset(b)
  }

  /** The pairs whose streak is `k`, in catalogue order. */
  function WithStreak(ps: seq<Pair>, m: Streaks, k: nat): (r: seq<Pair>)
    ensures forall i :: 0 <= i < |r| ==> GetStreak(m, r[i].id) == k
  {
    if |ps| == 0 then []
    else if GetStreak(m, ps[0].id) == k then [ps[0]] + WithStreak(ps[1..], m, k)
    else WithStreak(ps[1..], m, k)
  }

  /** The pairs whose streak is not `k`, in catalogue order. */
  function WithoutStreak(ps: seq<Pair>, m: Streaks, k: nat): (r: seq<Pair>)
    ensures forall i :: 0 <= i < |r| ==> GetStreak(m, r[i].id) != k
  {
    if |ps| == 0 then []
    else if GetStreak(m, ps[0].id) != k then [ps[0]] + WithoutStreak(ps[1..], m, k)
    else WithoutStreak(ps[1..], m, k)
  }

  /** Splitting off one bucket loses and invents nothing. */
  lemma {:induction false} BucketSplit(ps: seq<Pair>, m: Streaks, k: nat)
    ensures multiset(WithStreak(ps, m, k)) + multiset(WithoutStreak(ps, m, k)) == multiset(ps)
  {
    if |ps| > 0 {
      var p, tail := ps[0], ps[1..];
      BucketSplit(tail, m, k);
      var inK, notK := WithStreak(tail, m, k), WithoutStreak(tail, m, k);
      assert multiset(ps) == multiset{p} + multiset(tail) by {
        assert ps == [p] + tail;
      }
      if GetStreak(m, p.id) == k {
        assert WithStreak(ps, m, k) == [p] + inK;
        assert multiset([p] + inK) == multiset{p} + multiset(inK);
      } else {
        assert WithoutStreak(ps, m, k) == [p] + notK;
        assert multiset([p] + notK) == multiset{p} + multiset(notK);
      }
    }
  }

  /** The bucket of a streak that some pair has is not empty. */
  lemma {:induction false} BucketNonEmpty(ps: seq<Pair>, m: Streaks, k: nat, i: nat)
    requires i < |ps| && GetStreak(m, ps[i].id) == k
    ensures |WithStreak(ps, m, k)| > 0
  {
    if i > 0 && GetStreak(m, ps[0].id) != k {
      assert ps[1..][i - 1] == ps[i];
      BucketNonEmpty(ps[1..], m, k, i - 1);
    }
  }

  /** The smallest streak among the pairs. */
  function MinStreak(ps: seq<Pair>, m: Streaks): (k: nat)
    requires |ps| > 0
    ensures forall i :: 0 <= i < |ps| ==> k <= GetStreak(m, ps[i].id)
    ensures exists i :: 0 <= i < |ps| && GetStreak(m, ps[i].id) == k
  {
    if |ps| == 1 then GetStreak(m, ps[0].id)
    else
      var rest := MinStreak(ps[1..], m);
      assert forall i :: 1 <= i < |ps| ==> ps[i] == ps[1..][i - 1];
      if GetStreak(m, ps[0].id) <= rest then GetStreak(m, ps[0].id) else rest
  }

  /** Streaks never decrease along the queue. */
  ghost predicate StreakOrdered(q: seq<Pair>, m: Streaks) {
    forall i, j :: 0 <= i < j < |q| ==> GetStreak(m, q[i].id) <= GetStreak(m, q[j].id)
  }

  /** How one bucket is laid out: the streak-0 bucket sorted by artist,
      every other bucket shuffled. */
  function Arrange(k: nat, bucket: seq<Pair>, shuffle: (nat, seq<Pair>) -> seq<Pair>): (r: seq<Pair>)
    requires IsShuffle(shuffle)
    ensures multiset(r) == multiset(bucket)
  {
    if k == 0 then SortByArtist(bucket) else shuffle(k, bucket)
  }

  /** `generate_ordered_pairs`: the buckets in ascending streak order, each
      laid out by `Arrange`. The queue holds exactly the catalogue's pairs,
      learnt ones included, with streaks in non-decreasing order. */
  function BuildQueue(ps: seq<Pair>, m: Streaks, shuffle: (nat, seq<Pair>) -> seq<Pair>): (q: seq<Pair>)
    requires IsShuffle(shuffle)
    ensures multiset(q) == multiset(ps)
    ensures StreakOrdered(q, m)
    decreases |ps|
  {
    if |ps| == 0 then []
    else
      var k := MinStreak(ps, m);
      var bucket := WithStreak(ps, m, k);
      var rest := WithoutStreak(ps, m, k);
      BucketSplit(ps, m, k);
      var i :| 0 <= i < |ps| && GetStreak(m, ps[i].id) == k;
      BucketNonEmpty(ps, m, k, i);
      assert |multiset(bucket)| + |multiset(rest)| == |multiset(ps)|;
      var front := Arrange(k, bucket, shuffle);
      var back := BuildQueue(rest, m, shuffle);
      BuildOrdered(ps, m, k, bucket, rest, front, back);
      front + back
  }

  lemma BuildOrdered(ps: seq<Pair>, m: Streaks, k: nat, bucket: seq<Pair>, rest: seq<Pair>,
                     front: seq<Pair>, back: seq<Pair>)
    requires forall i :: 0 <= i < |ps| ==> k <= GetStreak(m, ps[i].id)
    requires bucket == WithStreak(ps, m, k) && rest == WithoutStreak(ps, m, k)
    requires multiset(bucket) + multiset(rest) == multiset(ps)
    requires multiset(front) == multiset(bucket) && multiset(back) == multiset(rest)
    requires StreakOrdered(back, m)
    ensures StreakOrdered(front + back, m)
  {
    FrontHasStreak(m, k, bucket, front);
    BackAbove(ps, m, k, rest, back);
    var q := front + back;
    forall i, j | 0 <= i < j < |q|
      ensures GetStreak(m, q[i].id) <= GetStreak(m, q[j].id)
    {
      if j >= |front| && i >= |front| {
        assert q[i] == back[i - |front|] && q[j] == back[j - |front|];
      } else if j >= |front| {
        assert q[j] == back[j - |front|];
      }
    }
  }

  lemma FrontHasStreak(m: Streaks, k: nat, bucket: seq<Pair>, front: seq<Pair>)
    requires forall i :: 0 <= i < |bucket| ==> GetStreak(m, bucket[i].id) == k
    requires multiset(front) == multiset(bucket)
    ensures forall i :: 0 <= i < |front| ==> GetStreak(m, front[i].id) == k
  {
    forall i | 0 <= i < |front|
      ensures GetStreak(m, front[i].id) == k
    {
      assert front[i] in multiset(bucket);
      var j :| 0 <= j < |bucket| && bucket[j] == front[i];
    }
  }

  lemma BackAbove(ps: seq<Pair>, m: Streaks, k: nat, rest: seq<Pair>, back: seq<Pair>)
    requires forall i :: 0 <= i < |ps| ==> k <= GetStreak(m, ps[i].id)
    requires forall i :: 0 <= i < |rest| ==> GetStreak(m, rest[i].id) != k
    requires multiset(rest) <= multiset(ps) && multiset(back) == multiset(rest)
    ensures forall i :: 0 <= i < |back| ==> GetStreak(m, back[i].id) > k
  {
    forall i | 0 <= i < |back|
      ensures GetStreak(m, back[i].id) > k
    {
      assert back[i] in multiset(rest);
      var j :| 0 <= j < |rest| && rest[j] == back[i];
      assert rest[j] in multiset(ps);
      var l :| 0 <= l < |ps| && ps[l] == rest[j];
    }
  }

  /** The streak-0 bucket comes first: the queue starts with exactly the
      unpractised pairs, sorted by artist, pairs of the same artist in
      catalogue order. */
  lemma BuildQueueStartsWithNewPairs(ps: seq<Pair>, m: Streaks, shuffle: (nat, seq<Pair>) -> seq<Pair>)
    requires IsShuffle(shuffle)
    ensures var unseen := WithStreak(ps, m, 0);
      var q := BuildQueue(ps, m, shuffle);
      && |unseen| <= |q|
      && multiset(q[..|unseen|]) == multiset(unseen)
      && SortedByArtist(q[..|unseen|])
      && forall a :: ByArtist(a, q[..|unseen|]) == ByArtist(a, unseen)
  {
    var unseen := WithStreak(ps, m, 0);
    var q := BuildQueue(ps, m, shuffle);
    BucketSplit(ps, m, 0);
    if |unseen| > 0 {
      assert |multiset(unseen)| > 0;
      assert GetStreak(m, unseen[0].id) == 0;
      assert unseen[0] in multiset(ps);
      assert MinStreak(ps, m) == 0;
      assert q[..|unseen|] == SortByArtist(unseen);
      SortByArtistSortedAndStable(unseen);
    }
  }

  /** `2 ** n`. */
  function Pow2(n: nat): (r: nat)
    ensures r >= 1
  {
    if n == 0 then 1 else 2 * Pow2(n - 1)
  }

  /** Where the played pair goes back into the remaining queue of length
      `len`: `2 ** (streak + 1)` places on after a correct answer giving
      `streak`, 2 places on after a wrong answer, never past the end. */
  function ReinsertAt(len: nat, correct: bool, newStreak: nat): (pos: nat)
    ensures pos <= len
    ensures correct ==> pos == if Pow2(newStreak + 1) < len then Pow2(newStreak + 1) else len
    ensures !correct ==> pos == if 2 < len then 2 else len
  {
    var target := if correct then Pow2(newStreak + 1) else 2;
    if target < len then target else len
  }

  /** The spacing grows with the streak: a wrong answer comes back no later
      than a correct one, and a higher streak comes back no earlier. */
  lemma {:induction false} SpacingGrows(len: nat, s1: nat, s2: nat)
    requires s1 <= s2
    ensures ReinsertAt(len, false, 0) <= ReinsertAt(len, true, s1) <= ReinsertAt(len, true, s2)
  {
    Pow2Monotone(s1 + 1, s2 + 1);
    Pow2Monotone(1, s1 + 1);
  }

  lemma {:induction false} Pow2Monotone(a: nat, b: nat)
    requires a <= b
    ensures Pow2(a) <= Pow2(b)
    decreases b
  {
    if a < b {
      Pow2Monotone(a, b - 1);
    }
  }

  /** What one step did with the pair it took off the front. */
  datatype Outcome = Skipped | Retired | Reinserted(position: nat)

  datatype StepResult = StepResult(queue: seq<Pair>, streaks: Streaks, outcome: Outcome)

  /** One pass of the play loop once the answer has been judged: take the
      front pair; skip it if it is already learnt; otherwise record the
      result and either retire the pair (it has just been learnt) or put it
      back at `ReinsertAt`. */
  function Step(q: seq<Pair>, m: Streaks, correct: bool): (r: StepResult)
    requires |q| > 0
    ensures var p, rest, s := q[0], q[1..], GetStreak(m, q[0].id);
      && (r.outcome == Skipped <==> s >= Mastery)
      && (r.outcome == Skipped ==> r.queue == rest && r.streaks == m)
      && (r.outcome == Retired <==> s < Mastery && correct && s + 1 == Mastery)
      && (r.outcome == Retired ==> r.queue == rest)
      && (s < Mastery ==> GetStreak(r.streaks, p.id) == if correct then s + 1 else 0)
      && (forall id :: id != p.id ==> GetStreak(r.streaks, id) == GetStreak(m, id))
      && (r.outcome.Reinserted? ==>
            var pos := r.outcome.position;
            && pos == ReinsertAt(|rest|, correct, GetStreak(r.streaks, p.id))
            && |r.queue| == |q|
            && r.queue[pos] == p
            && r.queue[..pos] + r.queue[pos + 1..] == rest)
  {
    var p, rest := q[0], q[1..];
    var s := GetStreak(m, p.id);
    if s >= Mastery then StepResult(rest, m, Skipped)
    else
      var m' := RecordResult(m, p.id, correct);
      if correct && s + 1 == Mastery then StepResult(rest, m', Retired)
      else
        var pos := ReinsertAt(|rest|, correct, GetStreak(m', p.id));
        var q' := rest[..pos] + [p] + rest[pos..];
        InsertAtPosition(rest, pos, p);
        StepResult(q', m', Reinserted(pos))
  }

  /** Putting `p` in at `pos` puts it exactly there and leaves the rest in
      order around it. */
  lemma InsertAtPosition(rest: seq<Pair>, pos: nat, p: Pair)
    requires pos <= |rest|
    ensures var q := rest[..pos] + [p] + rest[pos..];
      |q| == |rest| + 1 && q[pos] == p && q[..pos] + q[pos + 1..] == rest
  {
    var q := rest[..pos] + [p] + rest[pos..];
    assert q[..pos] == rest[..pos] && q[pos + 1..] == rest[pos..];
  }

  /** Putting a pair whose id is not yet present anywhere into a queue
      with distinct ids keeps the ids distinct. */
  lemma InsertKeepsDistinct(rest: seq<Pair>, pos: nat, p: Pair)
    requires pos <= |rest| && DistinctIds([p] + rest)
    ensures DistinctIds(rest[..pos] + [p] + rest[pos..])
  {
    var q := [p] + rest;
    var r := rest[..pos] + [p] + rest[pos..];
    forall i, j | 0 <= i < j < |r|
      ensures r[i].id != r[j].id
    {
      var ii := if i < pos then i + 1 else if i == pos then 0 else i;
      var jj := if j < pos then j + 1 else if j == pos then 0 else j;
      assert r[i] == q[ii] && r[j] == q[jj];
    }
  }

  /** A step removes the front pair or moves it further back, and never
      adds anything: the queue keeps its pairs with at most the front one
      gone. */
  lemma StepKeepsQueue(q: seq<Pair>, m: Streaks, correct: bool)
    requires |q| > 0
    ensures var r := Step(q, m, correct);
      && (r.outcome.Reinserted? ==> multiset(r.queue) == multiset(q))
      && (!r.outcome.Reinserted? ==> multiset(r.queue) == multiset(q) - multiset{q[0]})
  {
    var r := Step(q, m, correct);
    var p, rest := q[0], q[1..];
    assert q == [p] + rest;
    if r.outcome.Reinserted? {
      var pos := r.outcome.position;
      assert r.queue == rest[..pos] + [p] + rest[pos..];
      assert rest == rest[..pos] + rest[pos..];
    }
  }

  /** No step introduces a duplicate id into the queue. */
  lemma StepKeepsDistinct(q: seq<Pair>, m: Streaks, correct: bool)
    requires |q| > 0 && DistinctIds(q)
    ensures DistinctIds(Step(q, m, correct).queue)
  {
    var r := Step(q, m, correct);
    var p, rest := q[0], q[1..];
    assert q == [p] + rest;
    if r.outcome.Reinserted? {
      var pos := r.outcome.position;
      assert r.queue == rest[..pos] + [p] + rest[pos..];
      InsertKeepsDistinct(rest, pos, p);
    }
  }

  /** A learnt pair stays learnt: no step changes a streak of 4 or more. */
  lemma StepKeepsMastered(q: seq<Pair>, m: Streaks, correct: bool, id: int)
    requires |q| > 0 && GetStreak(m, id) >= Mastery
    ensures GetStreak(Step(q, m, correct).streaks, id) == GetStreak(m, id)
  {
  }

  /** Streaks reached by playing never exceed 4. */
  lemma StepKeepsStreaksCapped(q: seq<Pair>, m: Streaks, correct: bool)
    requires |q| > 0 && Capped(m)
    ensures Capped(Step(q, m, correct).streaks)
  {
    var m' := Step(q, m, correct).streaks;
    forall id | id in m'
      ensures m'[id] <= Mastery
    {
      assert GetStreak(m', id) == m'[id];
    }
  }

  /** The position the "Incorrect!" message reports, as written: taken
      from the queue after the pair has already been put back. */
  function ReportedAfterInsert(updated: seq<Pair>): nat {
    ReinsertAt(|updated|, false, 0)
  }

  /** With one other pair left, a wrong answer puts the pair at position 1
      (the end of the queue) while the message reports position 2. */
  lemma MisreportedWrongPosition(a: Pair, b: Pair)
    ensures var r := Step([a, b], map[], false);
      && r.outcome == Reinserted(1) && r.queue == [b, a]
      && ReportedAfterInsert(r.queue) == 2
  {
  }

  /** The position the message is evidently meant to show: the one the
      pair was put back at, computed from the queue without it. */
  function ReportedPosition(rest: seq<Pair>): nat {
    ReinsertAt(|rest|, false, 0)
  }

  /** After a wrong answer the corrected message names exactly the place
      where the pair now sits. */
  lemma ReportedPositionIsExact(q: seq<Pair>, m: Streaks)
    requires |q| > 0 && GetStreak(m, q[0].id) < Mastery
    ensures var r := Step(q, m, false);
      && r.outcome == Reinserted(ReportedPosition(q[1..]))
      && r.queue[ReportedPosition(q[1..])] == q[0]
  {
  }
}
