/** The play loop of `play_game` (flashcards.py:269-344) around the
    scheduler: choosing the play mode, judging a reply, one turn of the
    loop with the optional reload of a changed catalogue, and a whole
    session as a sequence of turns. Console input, the audio player, the
    sounds, the JSON file and the file-time polling are parameters: a
    reply per judged turn and, per judged turn, the reloaded catalogue when
    the catalogue file changed. */
module Session {
  import opened Outcomes
  import opened Text
  import opened Matcher
  import opened Catalog
  import opened Progress
  import opened Scheduler

  datatype PlayMode = Typing | SelfAssessment

  /** The stripped answer to "Enter 1 or 2"; anything else is an invalid
      mode, which ends the session at the first pair it would play. */
  function ParseMode(cc: CharClasses, raw: string): (r: Option<PlayMode>)
    ensures r == Some(Typing) <==> Strip(cc, raw) == "1"
    ensures r == Some(SelfAssessment) <==> Strip(cc, raw) == "2"
  {
    var choice := Strip(cc, raw);
    if choice == "1" then Some(Typing)
    else if choice == "2" then Some(SelfAssessment)
    else None
  }

  /** What the console supplies for one judged pair: the typed artist and
      song in typing mode, the y/n line in self-assessment mode. */
  datatype Reply = Reply(artist: string, song: string, yn: string)

  /** The judged result: the matcher on the typed (artist, song) in typing
      mode; in self-assessment mode whether the stripped, lower-cased y/n
      line is exactly "y". With an invalid mode there is no verdict. */
  function Judge(cc: CharClasses, mode: Option<PlayMode>, p: Pair, reply: Reply): (v: Option<bool>)
    ensures v.Some? <==> mode.Some?
  {
    match mode
    case None => None
    case Some(Typing) => Some(CheckAnswer(cc, Expected(p), [reply.artist, reply.song]))
    case Some(SelfAssessment) => Some(Lower(cc, Strip(cc, reply.yn)) == "y")
  }

  /** Typing the canonical answer, in any case and with any punctuation or
      extra spacing the normaliser removes, is judged correct. */
  lemma JudgeAcceptsAnswer(cc: CharClasses, p: Pair, reply: Reply)
    requires Clean(cc, reply.artist) == Clean(cc, p.artist) && Clean(cc, reply.song) == Clean(cc, p.song)
    ensures Judge(cc, Some(Typing), p, reply) == Some(true)
  {
    TwoPartsMatch(cc, p.artist, p.song, reply.artist, reply.song);
  }

  /** An (artist, song) reply matches when each part normalises like the
      expected one. */
  lemma TwoPartsMatch(cc: CharClasses, artist: string, song: string, typedArtist: string, typedSong: string)
    requires Clean(cc, typedArtist) == Clean(cc, artist) && Clean(cc, typedSong) == Clean(cc, song)
    ensures CheckAnswer(cc, [artist, song], [typedArtist, typedSong])
  {
    var given, expected := [typedArtist, typedSong], [artist, song];
    forall i | 0 <= i < |given|
      ensures Clean(cc, given[i]) == Clean(cc, expected[i])
    {
      if i == 0 {
        assert given[i] == typedArtist && expected[i] == artist;
      } else {
        assert given[i] == typedSong && expected[i] == song;
      }
    }
    CheckAnswerUpToCleaning(cc, expected, given);
  }

  /** Typing "y" for both parts is judged correct whatever the answer. */
  lemma JudgeAcceptsShortcut(cc: CharClasses, p: Pair, reply: Reply)
    requires Clean(cc, reply.artist) == "y" && Clean(cc, reply.song) == "y"
    ensures Judge(cc, Some(Typing), p, reply) == Some(true)
  {
    var given := [reply.artist, reply.song];
    assert given[0] == reply.artist && given[1] == reply.song;
    SelfReportShortcut(cc, Expected(p), given);
  }

  /** A typed reply is judged wrong when one part differs after
      normalisation and the reply is not the "y" shortcut. */
  lemma JudgeRejectsWrongPart(cc: CharClasses, p: Pair, reply: Reply)
    requires Clean(cc, reply.artist) != Clean(cc, p.artist) || Clean(cc, reply.song) != Clean(cc, p.song)
    requires Clean(cc, reply.artist) != "y" || Clean(cc, reply.song) != "y"
    ensures Judge(cc, Some(Typing), p, reply) == Some(false)
  {
    var given := [reply.artist, reply.song];
    assert given[0] == reply.artist && given[1] == reply.song;
    assert Expected(p)[0] == p.artist && Expected(p)[1] == p.song;
    assert !(forall i :: 0 <= i < |given| ==> Clean(cc, given[i]) == "y");
    assert !(forall i :: 0 <= i < |given| ==> Clean(cc, given[i]) == Clean(cc, Expected(p)[i]));
  }

  /** In self-assessment mode the reply is "yes" exactly when the y/n line
      is one character, between optional blanks, that lower-cases to 'y'
      (so " Y " counts); the pair and the typed parts play no role. */
  lemma JudgeSelfAssessment(cc: CharClasses, p: Pair, reply: Reply)
    ensures var t := Strip(cc, reply.yn);
      Judge(cc, Some(SelfAssessment), p, reply) == Some(|t| == 1 && cc.lower(t[0]) == 'y')
  {
    var t := Strip(cc, reply.yn);
    var l := Lower(cc, t);
    if |t| == 1 {
      assert l == [l[0]];
    }
  }

  /** The playback start requested for a pair (flashcards.py:289-296):
      from a streak of 3 on, a start drawn from the 121 seconds after the
      reference's own start; `draw` is the value `random.randint` returned
      minus `start`. A drawn offset of 0 is falsy in `play_audio`, which
      then plays without one. */
  function PlaybackOffset(streak: nat, start: int, draw: nat): (r: Option<int>)
    requires draw <= 120
    ensures r.Some? ==> streak > 2 && start <= r.value <= start + 120 && r.value != 0
    ensures r.Some? ==> r.value == start + draw
    ensures streak > 2 && start + draw != 0 ==> r.Some?
  {
    if streak > 2 && start + draw != 0 then Some(start + draw) else None
  }

  /** The state the play loop carries: the catalogue as last loaded, the
      queue of pairs still to play and the user's streaks. */
  datatype State = State(catalog: seq<Pair>, queue: seq<Pair>, streaks: Streaks)

  /** The state at the start of play. */
  function Start(catalog: seq<Pair>, m: Streaks, shuffle: (nat, seq<Pair>) -> seq<Pair>): (s: State)
    requires IsShuffle(shuffle)
    ensures s.catalog == catalog && s.streaks == m && s.queue == BuildQueue(catalog, m, shuffle)
    ensures multiset(s.queue) == multiset(catalog) && StreakOrdered(s.queue, m)
  {
    State(catalog, BuildQueue(catalog, m, shuffle), m)
  }

  /** One pass of the loop: `presented` is the pair whose audio was played,
      `ended` whether the loop broke on an invalid mode. */
  datatype TurnResult = TurnResult(state: State, presented: Option<Pair>, ended: bool)

  /** A reload of the catalogue file: the pairs it now holds, and how
      `random.shuffle` orders each bucket of the queue rebuilt from them.
      Every rebuild draws its own order. */
  datatype Reload = Reload(catalog: seq<Pair>, shuffle: (nat, seq<Pair>) -> seq<Pair>)

  /** A reload's shuffle only permutes. */
  ghost predicate ValidReload(reload: Option<Reload>) {
    reload.Some? ==> IsShuffle(reload.value.shuffle)
  }

  /** One iteration of `while ordered_pairs`, given the verdict the front
      pair would receive (none for an invalid mode). A learnt pair is
      skipped without reading input and without looking at the catalogue
      file. An invalid mode ends the loop after the pair was played.
      Otherwise the step is applied, and if the catalogue file changed
      (`reload`) the queue is rebuilt from the reloaded catalogue and the
      updated streaks. */
  function Turn(st: State, verdict: Option<bool>, reload: Option<Reload>): (t: TurnResult)
    requires |st.queue| > 0 && ValidReload(reload)
    ensures var p := st.queue[0];
      && (t.presented.Some? <==> GetStreak(st.streaks, p.id) < Mastery)
      && (t.presented.Some? ==> t.presented.value == p)
      && (GetStreak(st.streaks, p.id) >= Mastery ==>
            t.state == State(st.catalog, st.queue[1..], st.streaks) && !t.ended)
      && (t.ended <==> t.presented.Some? && verdict.None?)
      && (t.ended ==> t.state.streaks == st.streaks)
      && (!t.ended && t.presented.Some? ==>
            t.state.streaks == Step(st.queue, st.streaks, verdict.value).streaks)
      && (!t.ended && t.presented.Some? && reload.Some? ==>
            && t.state.catalog == reload.value.catalog
            && t.state.queue == BuildQueue(reload.value.catalog, t.state.streaks, reload.value.shuffle)
            && multiset(t.state.queue) == multiset(reload.value.catalog)
            && StreakOrdered(t.state.queue, t.state.streaks))
      && (!t.ended && t.presented.Some? && reload.None? ==>
            t.state == State(st.catalog, Step(st.queue, st.streaks, verdict.value).queue, t.state.streaks))
  {
    var p := st.queue[0];
    if GetStreak(st.streaks, p.id) >= Mastery then
      TurnResult(State(st.catalog, st.queue[1..], st.streaks), None, false)
    else if verdict.None? then
      TurnResult(State(st.catalog, st.queue[1..], st.streaks), Some(p), true)
    else
      var r := Step(st.queue, st.streaks, verdict.value);
      match reload
      case None => TurnResult(State(st.catalog, r.queue, r.streaks), Some(p), false)
      case Some(c) => TurnResult(State(c.catalog, BuildQueue(c.catalog, r.streaks, c.shuffle), r.streaks), Some(p), false)
  }

  /** A reload forgets the queue in flight: two states that agree on the
      pair being played and the streaks end the turn with the same queue,
      whatever the rest of their queues held. */
  lemma ReloadForgetsStaleQueue(st1: State, st2: State, correct: bool, c: Reload)
    requires |st1.queue| > 0 && |st2.queue| > 0 && IsShuffle(c.shuffle)
    requires st1.queue[0] == st2.queue[0] && st1.streaks == st2.streaks
    requires GetStreak(st1.streaks, st1.queue[0].id) < Mastery
    ensures Turn(st1, Some(correct), Some(c)).state == Turn(st2, Some(correct), Some(c)).state
  {
    var r1 := Step(st1.queue, st1.streaks, correct);
    var r2 := Step(st2.queue, st2.streaks, correct);
    assert r1.streaks == r2.streaks;
  }

  /** One judged turn's input: the reply and, if the catalogue file
      changed meanwhile, the reloaded catalogue. */
  datatype Event = Event(reply: Reply, reload: Option<Reload>)

  /** Every reload among the events only permutes its buckets. */
  ghost predicate ValidEvents(events: seq<Event>) {
    forall i :: 0 <= i < |events| ==> ValidReload(events[i].reload)
  }

  datatype RunResult = RunResult(state: State, presented: seq<Pair>)

  /** The play loop driven by `events`, one per judged turn, until the
      queue is empty, the events run out or an invalid mode ends it;
      `judge` gives the verdict on a reply for a pair. */
  function Run(st: State, judge: (Pair, Reply) -> Option<bool>, events: seq<Event>): RunResult
    requires ValidEvents(events)
    decreases |events|, |st.queue|
  {
    if |st.queue| == 0 || |events| == 0 then RunResult(st, [])
    else
      var t := Turn(st, judge(st.queue[0], events[0].reply), events[0].reload);
      if t.ended then RunResult(t.state, [st.queue[0]])
      else if t.presented.None? then Run(t.state, judge, events)
      else
        assert forall i :: 0 <= i < |events[1..]| ==> events[1..][i] == events[i + 1];
        var more := Run(t.state, judge, events[1..]);
        RunResult(more.state, [st.queue[0]] + more.presented)
  }

  /** `play_game` after the mode prompt: the queue built from the catalogue
      and the user's streaks (`shuffle` ordering its buckets), then the loop
      with the matcher as judge. */
  function Play(cc: CharClasses, rawMode: string, catalog: seq<Pair>, m: Streaks,
                shuffle: (nat, seq<Pair>) -> seq<Pair>, events: seq<Event>): RunResult
    requires IsShuffle(shuffle) && ValidEvents(events)
  {
    var mode := ParseMode(cc, rawMode);
    Run(Start(catalog, m, shuffle), (p, reply) => Judge(cc, mode, p, reply), events)
  }

  /** Dropping the first judged turn's event keeps the events valid. */
  lemma ValidEventsTail(events: seq<Event>)
    requires |events| > 0 && ValidEvents(events)
    ensures ValidEvents(events[1..])
  {
    assert forall i :: 0 <= i < |events[1..]| ==> events[1..][i] == events[i + 1];
  }

  /** Learnt pairs stay learnt for the whole session and are never played:
      a streak of 4 or more is never changed, and no pair with such an id
      is presented. */
  lemma {:induction false} RunNeverPlaysMastered(st: State, judge: (Pair, Reply) -> Option<bool>,
                                                 events: seq<Event>, id: int)
    requires ValidEvents(events) && GetStreak(st.streaks, id) >= Mastery
    ensures var r := Run(st, judge, events);
      && GetStreak(r.state.streaks, id) == GetStreak(st.streaks, id)
      && forall i :: 0 <= i < |r.presented| ==> r.presented[i].id != id
    decreases |events|, |st.queue|
  {
    if |st.queue| == 0 || |events| == 0 {
    } else {
      var t := Turn(st, judge(st.queue[0], events[0].reply), events[0].reload);
      if t.ended {
      } else if t.presented.None? {
        RunNeverPlaysMastered(t.state, judge, events, id);
      } else {
        assert st.queue[0].id != id;
        ValidEventsTail(events);
        RunNeverPlaysMastered(t.state, judge, events[1..], id);
      }
    }
  }

  /** Playing never raises a streak beyond 4: if no recorded streak is
      above 4 at the start, none is at the end. */
  lemma {:induction false} RunKeepsStreaksCapped(st: State, judge: (Pair, Reply) -> Option<bool>,
                                                 events: seq<Event>)
    requires ValidEvents(events)
    requires Capped(st.streaks)
    ensures Capped(Run(st, judge, events).state.streaks)
    decreases |events|, |st.queue|
  {
    if |st.queue| == 0 || |events| == 0 {
    } else {
      var v := judge(st.queue[0], events[0].reply);
      var t := Turn(st, v, events[0].reload);
      if t.ended {
      } else if t.presented.None? {
        RunKeepsStreaksCapped(t.state, judge, events);
      } else {
        StepKeepsStreaksCapped(st.queue, st.streaks, v.value);
        assert t.state.streaks == Step(st.queue, st.streaks, v.value).streaks;
        ValidEventsTail(events);
        RunKeepsStreaksCapped(t.state, judge, events[1..]);
      }
    }
  }

  /** Without a verdict the loop plays at most one pair: learnt pairs are
      skipped unplayed and the first pair played ends it. */
  lemma {:induction false} RunWithoutVerdict(st: State, judge: (Pair, Reply) -> Option<bool>, events: seq<Event>)
    requires ValidEvents(events)
    requires forall p, reply :: judge(p, reply).None?
    ensures |Run(st, judge, events).presented| <= 1
    decreases |st.queue|
  {
    if |st.queue| > 0 && |events| > 0 {
      var t := Turn(st, judge(st.queue[0], events[0].reply), events[0].reload);
      if !t.ended {
        RunWithoutVerdict(t.state, judge, events);
      }
    }
  }

  /** A whole session never plays a pair learnt before it started, and
      leaves its streak as it was. */
  lemma PlayNeverPlaysMastered(cc: CharClasses, rawMode: string, catalog: seq<Pair>, m: Streaks,
                               shuffle: (nat, seq<Pair>) -> seq<Pair>, events: seq<Event>, id: int)
    requires IsShuffle(shuffle) && ValidEvents(events) && GetStreak(m, id) >= Mastery
    ensures var r := Play(cc, rawMode, catalog, m, shuffle, events);
      && GetStreak(r.state.streaks, id) == GetStreak(m, id)
      && forall i :: 0 <= i < |r.presented| ==> r.presented[i].id != id
  {
    var mode := ParseMode(cc, rawMode);
    RunNeverPlaysMastered(Start(catalog, m, shuffle), (p, reply) => Judge(cc, mode, p, reply), events, id);
  }

  /** A play mode other than "1" or "2" ends the session at the first pair
      it plays, having changed no streak. */
  lemma PlayWithInvalidMode(cc: CharClasses, rawMode: string, catalog: seq<Pair>, m: Streaks,
                            shuffle: (nat, seq<Pair>) -> seq<Pair>, events: seq<Event>)
    requires IsShuffle(shuffle) && ValidEvents(events)
    requires Strip(cc, rawMode) != "1" && Strip(cc, rawMode) != "2"
    ensures var r := Play(cc, rawMode, catalog, m, shuffle, events);
      |r.presented| <= 1 && r.state.streaks == m
  {
    var mode := ParseMode(cc, rawMode);
    var judge := (p, reply) => Judge(cc, mode, p, reply);
    RunWithoutVerdict(Start(catalog, m, shuffle), judge, events);
    RunWithoutVerdictKeepsStreaks(Start(catalog, m, shuffle), judge, events);
  }

  /** Without a verdict no streak changes. */
  lemma {:induction false} RunWithoutVerdictKeepsStreaks(st: State, judge: (Pair, Reply) -> Option<bool>,
                                                         events: seq<Event>)
    requires ValidEvents(events)
    requires forall p, reply :: judge(p, reply).None?
    ensures Run(st, judge, events).state.streaks == st.streaks
    decreases |st.queue|
  {
    if |st.queue| > 0 && |events| > 0 {
      var t := Turn(st, judge(st.queue[0], events[0].reply), events[0].reload);
      if !t.ended {
        RunWithoutVerdictKeepsStreaks(t.state, judge, events);
      }
    }
  }
}
