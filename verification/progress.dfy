/** The per-user progress record: a map from pair id to its correct
    streak (`get_correct_streak` and `update_correct_streak`,
    flashcards.py:221-228). The JSON file holding it is not modelled; ids
    are kept as integers rather than their decimal strings, which is a
    one-to-one renaming. */
module Progress {

  type Streaks = map<int, nat>

  /** The streak at which a pair counts as learnt and leaves the session. */
  const Mastery: nat := 4

  /** No recorded streak is above the mastery threshold. */
  ghost predicate Capped(m: Streaks) {
    forall id :: id in m ==> m[id] <= Mastery
  }

  /** `get_correct_streak`: the recorded streak, 0 for an id never seen. */
  function GetStreak(m: Streaks, id: int): nat {
    if id in m then m[id] else 0
  }

  /** `update_correct_streak`: one more after a correct answer, back to 0
      after a wrong one; the id is recorded from then on and every other
      id keeps its streak. */
  function RecordResult(m: Streaks, id: int, correct: bool): (r: Streaks)
    ensures GetStreak(r, id) == (if correct then GetStreak(m, id) + 1 else 0)
    ensures forall other :: other != id ==> GetStreak(r, other) == GetStreak(m, other)
    ensures r.Keys == m.Keys + {id}
  {
    m[id := if correct then GetStreak(m, id) + 1 else 0]
  }

  /** The results for one id recorded one after another, oldest first. */
  function RecordAll(m: Streaks, id: int, results: seq<bool>): Streaks
    decreases |results|
  {
    if |results| == 0 then m
    else RecordResult(RecordAll(m, id, results[..|results| - 1]), id, results[|results| - 1])
  }

  /** The number of correct results at the end of the list, after the last
      wrong one. */
  function CorrectRun(results: seq<bool>): (n: nat)
    ensures n <= |results|
    ensures forall i :: |results| - n <= i < |results| ==> results[i]
    ensures n < |results| ==> !results[|results| - 1 - n]
    decreases |results|
  {
    if |results| == 0 || !results[|results| - 1] then 0
    else CorrectRun(results[..|results| - 1]) + 1
  }

  /** A streak counts the correct answers since the last wrong one, or
      since the start plus the earlier streak if no answer was wrong; other
      ids are untouched. */
  lemma {:induction false} StreakCountsCorrectRun(m: Streaks, id: int, results: seq<bool>)
    ensures GetStreak(RecordAll(m, id, results), id) ==
      if CorrectRun(results) == |results| then GetStreak(m, id) + |results| else CorrectRun(results)
    ensures forall other :: other != id ==> GetStreak(RecordAll(m, id, results), other) == GetStreak(m, other)
    decreases |results|
  {
    if |results| > 0 {
      StreakCountsCorrectRun(m, id, results[..|results| - 1]);
    }
  }
}
