# Flashcards: a verified model of the music-quiz scheduler

`flashcards.py` is a console quiz that plays a song and asks for its artist
and title. Each question/answer pair has a numeric id and a per-user
"correct streak". A pair whose streak reaches 4 counts as learnt. This
project models the core of the program in Dafny and proves properties of
that model:

- **Answer normalisation and matching** (`Answer.clean_string`,
  `Answer.check_answer`). `Text` holds the string stages: single-pass
  deletion of a literal, keeping word and space characters, collapsing
  whitespace runs, lower-casing and stripping. `Matcher` composes them and
  decides whether an answer is correct. The character classes (`\w`, `\s`,
  `str.lower`) are a `CharClasses` record. Its `Valid` predicate lists the
  few facts the proofs need. `Text.Ascii` is an ASCII instance proved valid.
- **The catalogue** (`KnowledgeBase.load`, next id in
  `enter_song_questions`), in `Catalog`. Rows whose id starts with `#` are
  ignored. The first active row whose id does not parse aborts the load.
  The next id is one past the largest id.
- **Streaks** (`get_correct_streak`, `update_correct_streak`), in
  `Progress`. A map from pair id to streak: missing means 0, a correct
  answer adds 1, a wrong one resets to 0.
- **Queue construction** (`generate_ordered_pairs`), in `Scheduler` and
  `ArtistOrder`. Pairs are bucketed by streak and the buckets are
  concatenated in ascending order. The streak-0 bucket is stably sorted by
  artist and every other bucket is shuffled.
- **The play loop** (`play_game`), in `Scheduler.Step` and `Session`. A
  learnt front pair is skipped. Otherwise the answer is judged in the
  chosen mode and the streak updated. The pair is then either retired
  (fourth correct answer in a row) or reinserted `min(len, 2 ** (streak + 1))`
  places on after a correct answer, or `min(len, 2)` places on after a wrong
  one. When the catalogue file changed, the catalogue is reloaded and the
  queue rebuilt.
- `Examples` holds lemmas that state the model's results on small concrete
  inputs.

Console input, randomness and the file-change test are inputs of the model:
- the reply for each judged turn;
- a shuffle function for the first queue, which may put each bucket in any
  order;
- per judged turn, the reloaded catalogue when the file changed, together
  with its own shuffle function for the rebuilt queue.

A row whose id `int()` rejects raises `ValueError`, so the load stops
instead of skipping the row. `Catalog.Load` returns
`Failure(InvalidId(...))` naming that row's id.

## Model

| member | source | states |
|---|---|---|
| Matcher.CleanIsClean | flashcards.py:56-68 | a cleaned string holds only lower-case word characters and single inner spaces, with no space at either end |
| Matcher.CleanFixesClean | flashcards.py:56-68 | cleaning leaves an already-clean string unchanged |
| Matcher.CleanIdempotent | flashcards.py:56-68 | cleaning twice gives the same as cleaning once |
| Matcher.AmpersandStepIsDead | flashcards.py:62-63 | after punctuation removal no `&` is left, so the `'& '` deletion never changes the string |
| Text.RemoveAllOnlyDeletes | flashcards.py:58-59 | `str.replace(pat, '')` only deletes characters: every property of all characters of the input holds of the output |
| Text.RemoveAllAbsent | flashcards.py:63 | deleting a literal that contains a character absent from the string leaves it unchanged |
| Text.KeepWordOrSpaceSelects | flashcards.py:62 | removing `[^\w\s]` leaves only word and space characters, keeps a string that has only those, and empties one that has none |
| Text.KeepWordOrSpaceOfOne | flashcards.py:62 | removing `[^\w\s]` from one character keeps it exactly when it is a word or whitespace character |
| Text.KeepWordOrSpaceConcat | flashcards.py:62 | the removal works character by character: on a concatenation it is the concatenation of the removals, so with the one-character case the result is exactly the word and whitespace characters of the input, in order |
| Text.CollapseSingleSpaces | flashcards.py:66 | after replacing whitespace runs by one space, every whitespace character is a plain space and no two spaces are adjacent, while other character properties are kept |
| Text.CollapseFixesSingleSpaced | flashcards.py:66 | a string with only single plain spaces is unchanged by run collapsing |
| Text.StripTrimsEnds | flashcards.py:68 | `strip` leaves no whitespace at either end |
| Text.StripKeepsMiddle | flashcards.py:68 | `strip` is a slice, so character properties and single spacing survive it |
| Matcher.CheckAnswer | flashcards.py:70-82 | an answer is accepted exactly when every cleaned part is `y`, or it has as many parts as the expected answer and each cleaned part equals the cleaned expected part |
| Matcher.SelfReportShortcut | flashcards.py:75-77 | an answer whose every part cleans to `y` is accepted whatever the expected answer |
| Matcher.ArityMismatchRejected | flashcards.py:72-82 | an answer with the wrong number of parts is rejected unless it is the `y` shortcut |
| Matcher.CheckAnswerSymmetric | flashcards.py:72-82 | apart from the `y` shortcut, matching is symmetric in expected and given answers |
| Matcher.CheckAnswerUpToCleaning | flashcards.py:72-82 | a reply with as many parts as the expected answer, whose parts clean like the expected parts, is accepted |
| Matcher.VerdictDependsOnCleanedParts | flashcards.py:72-82 | the verdict depends only on the cleaned parts of the reply: two replies that clean alike are judged alike |
| Matcher.CheckAnswerAcceptsCleaned | flashcards.py:72-82 | the cleaned form of the expected answer is accepted |
| Catalog.Active | flashcards.py:110-112 | the rows kept for loading contain no `#` comment row, and every non-comment row is kept |
| Catalog.ActiveConcat | flashcards.py:110-112 | the filter works row by row: filtering two parts of a file and joining them is filtering the file |
| Catalog.ActiveOfOne | flashcards.py:111-112 | a single row is kept exactly when it is not a comment; with `Catalog.ActiveConcat` the kept rows are the non-comment rows in file order |
| Catalog.LoadSpec | flashcards.py:105-116 | loading succeeds iff every non-comment row's id parses; then the pairs are those rows in order with their fields; otherwise the failure names the first active row whose id does not parse |
| Catalog.LoadIgnoresComments | flashcards.py:111-112 | comment rows do not affect the load |
| Catalog.NextId | flashcards.py:146-153 | the next id is 1 for an empty catalogue, else one more than an existing id and above every id |
| Catalog.NextIdAfterAppend | flashcards.py:152-153 | adding a pair under the next id keeps ids distinct, and the next id then grows by one |
| Progress.RecordResult | flashcards.py:221-228 | a correct answer raises the pair's streak by one and a wrong one resets it to 0; no other pair's streak changes; the pair gets an entry |
| Progress.StreakCountsCorrectRun | flashcards.py:221-228 | after a sequence of results for one pair, its streak is the length of the trailing run of correct answers, plus the old streak if all were correct |
| ArtistOrder.SortByArtistSortedAndStable | flashcards.py:242 | sorting by artist is a permutation, ordered by artist, that keeps pairs of the same artist in their original order |
| Scheduler.BucketSplit | flashcards.py:233-237 | the pairs with streak `k` and the other pairs together are exactly the catalogue's pairs |
| Scheduler.BuildQueue | flashcards.py:230-251 | the queue holds exactly the catalogue's pairs (learnt ones included) with streaks in non-decreasing order |
| Scheduler.BuildQueueStartsWithNewPairs | flashcards.py:240-245 | the queue starts with exactly the streak-0 pairs, sorted by artist, same-artist pairs in catalogue order |
| Scheduler.ReinsertAt | flashcards.py:311-320 | the reinsertion place never passes the end of the queue and is `2 ** (streak + 1)` after a correct answer and 2 after a wrong one when the queue is long enough |
| Scheduler.SpacingGrows | flashcards.py:311-320 | a wrong answer comes back no later than a correct one, and a higher streak comes back no earlier |
| Scheduler.Step | flashcards.py:278-322 | a learnt pair is skipped; a fourth correct answer retires the pair; otherwise the pair sits at the reinsertion place and removing it gives back the rest of the queue; only that pair's streak changes |
| Scheduler.StepKeepsQueue | flashcards.py:278-322 | a step never adds a pair: the queue keeps its pairs, minus the front one when it was skipped or retired |
| Scheduler.StepKeepsDistinct | flashcards.py:279-320 | a step never duplicates an id in the queue |
| Scheduler.StepKeepsMastered | flashcards.py:285-287 | a streak of 4 or more is never changed by a step |
| Scheduler.StepKeepsStreaksCapped | flashcards.py:311-322 | playing never takes a streak above 4 |
| Session.ParseMode | flashcards.py:273-309 | the mode is typing exactly when the stripped input is `1` and self-assessment exactly when it is `2` |
| Session.Judge | flashcards.py:298-309 | a verdict exists exactly when the mode is valid |
| Session.JudgeSelfAssessment | flashcards.py:302-306 | in self-assessment mode the answer is yes exactly when the stripped y/n line is one character that lower-cases to `y`, whatever the pair |
| Session.JudgeAcceptsAnswer | flashcards.py:299-301 | a typed artist and song equal to the expected ones up to normalisation are judged correct |
| Session.JudgeAcceptsShortcut | flashcards.py:75-77 | typing `y` for both artist and song is judged correct |
| Session.JudgeRejectsWrongPart | flashcards.py:298-301 | a typed reply with a part that differs after normalisation, and that is not the `y` shortcut, is judged wrong |
| Session.PlaybackOffset | flashcards.py:289-296 | up to streak 2 no offset is requested; from streak 3 on, the requested offset is the drawn one, within 120 seconds after the video's own start; a drawn offset of 0 is never requested, as `play_audio` treats 0 as no offset |
| Session.Start | flashcards.py:275 | play starts from the loaded catalogue and the stored streaks, with the queue `Scheduler.BuildQueue` builds from them (so `Scheduler.BuildQueueStartsWithNewPairs` applies): the catalogue's pairs in non-decreasing streak order |
| Session.Turn | flashcards.py:278-344 | a learnt front pair is skipped unplayed; an invalid mode ends the loop after the pair was played; otherwise the step is applied, and after a reload the queue is the one `Scheduler.BuildQueue` builds from the new catalogue and the updated streaks with that reload's shuffle |
| Session.ReloadForgetsStaleQueue | flashcards.py:338-344 | after a reload the new queue does not depend on the old queue beyond the pair just played |
| Session.RunNeverPlaysMastered | flashcards.py:278-322 | over a whole session a learnt pair is never played and its streak never changes |
| Session.RunKeepsStreaksCapped | flashcards.py:278-344 | over a whole session, reloads included, no streak rises above 4 |
| Session.RunWithoutVerdict | flashcards.py:285-309 | with no verdict the loop plays at most one pair: learnt pairs are skipped and the first pair played ends it |
| Session.PlayNeverPlaysMastered | flashcards.py:273-344 | a whole game, from the mode prompt on, never plays a pair learnt before it started and leaves its streak unchanged |
| Session.PlayWithInvalidMode | flashcards.py:273-309 | a mode other than `1` or `2` ends the game at the first pair played, with no streak changed |

## Left out

- `BrowserController` (opening and closing tabs, sounds) is I/O. The model only records which pair was played.
- `Question.play_audio` URL rewriting (adding `t=`) is string plumbing around the browser. `Session.PlaybackOffset` models only the chosen offset.
- Reading the `t` parameter of a URL is an input of `Session.PlaybackOffset` (`start`). The random draw is its `draw` argument.
- CSV reading and writing (`load`, `store`) and the JSON user file are file I/O. The model takes parsed rows and a streak map. It treats JSON's string keys as the integer ids they encode.
- `int()` parsing of ids is the `parseId` parameter of `Catalog.Load`.
- `input()` prompts are inputs. The `Event` sequence supplies one reply per judged turn.
- The `getmtime` polling is replaced by an optional reloaded catalogue per judged turn. A failed reload is not modelled.
- `enter_song_questions` is left out apart from the next-id computation. Its YouTube branch, URL de-duplication and view sorting depend on the network.
- `get_youtube_videos.py` is not part of this model: it only talks to the YouTube API.
- `print_streak_summary` and all other console output are display only.
- `random.shuffle` is any permutation (`IsShuffle`), drawn afresh for every rebuild of the queue. Its distribution is not modelled.
- Text.Lower: maps one character to one character, on its own, as Python's simple case mapping does. Python's `str.lower` can lengthen a few non-ASCII characters (U+0130 becomes two characters, the second outside `\w`), and it depends on context for the Greek capital sigma (`'Σ'` at the end of a word becomes `'ς'`).
- Text.Ascii: the concrete character classes are ASCII only. Python's `\w`, `\s` and `lower` are Unicode-aware. The proofs use only the `Valid` facts, so they hold for any valid classes.
- Session.Judge: its contract states only when a verdict exists. The verdicts are stated by `Session.JudgeSelfAssessment`, `Session.JudgeAcceptsAnswer`, `Session.JudgeAcceptsShortcut` and `Session.JudgeRejectsWrongPart`.
- Session.Run: carries no contract of its own. Its properties are `Session.RunNeverPlaysMastered`, `Session.RunKeepsStreaksCapped` and `Session.RunWithoutVerdict`.
- Matcher.CleanIsClean: holds of the program only for text without U+0130 ('İ'). Python lower-cases it to `'i'` followed by U+0307 COMBINING DOT ABOVE, which is not in `\w`, so `clean_string('İ')` returns `'i\u0307'`, which is not clean-shaped.
- Matcher.CleanIdempotent: holds of the program only for text without U+0130 ('İ'): cleaning `'İ'` gives `'i\u0307'`, and cleaning that again gives `'i'`.
- Matcher.CheckAnswerAcceptsCleaned: holds of the program only for expected answers without U+0130 ('İ'): the cleaned form `'i\u0307'` of an expected `'İ'` cleans to `'i'`, which differs from the cleaned expected answer, so it is rejected.
- Matcher.Clean: carries no contract of its own. Its properties are `Matcher.CleanIsClean`, `Matcher.CleanFixesClean`, `Matcher.CleanIdempotent` and `Matcher.AmpersandStepIsDead`.
- Catalog.Load: carries no contract of its own. Its properties are `Catalog.LoadSpec` and `Catalog.LoadIgnoresComments`.
- Session.Play: carries no contract of its own. Its properties are `Session.PlayNeverPlaysMastered` and `Session.PlayWithInvalidMode`.

## Findings

| source | as written | input that shows it | evidently intended | confidence | as-written member | corrected member |
|---|---|---|---|---|---|---|
| flashcards.py:320-321 | after a wrong answer, the "new position" message recomputes `min(len(ordered_pairs), 2)` after the pair was already inserted | a queue of two pairs and a wrong answer on the first: the pair goes to position 1, the message says 2 | report the position the pair was inserted at, computed from the queue before the insertion | high; not executed | Scheduler.MisreportedWrongPosition | Scheduler.ReportedPositionIsExact |
