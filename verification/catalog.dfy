/** The knowledge base: question/answer pairs, the load-time filter over
    catalogue rows and the allocation of the next id
    (flashcards.py:87-116, 146, 152-153). */
module Catalog {
  import opened Outcomes

  /** A `QuestionAnswerPair`: the question is the audio reference, the
      answer the (artist, song) tuple. */
  datatype Pair = Pair(id: int, question: string, artist: string, song: string)

  /** `Answer.correct_answer` as a tuple of strings. */
  function Expected(p: Pair): seq<string> {
    [p.artist, p.song]
  }

  /** No id occurs twice. */
  ghost predicate DistinctIds(ps: seq<Pair>) {
    forall i, j :: 0 <= i < j < |ps| ==> ps[i].id != ps[j].id
  }

  /** One row of the catalogue file, its fields still text. */
  datatype Row = Row(id: string, question: string, artist: string, song: string)

  /** A row whose id starts with '#' is commented out. */
  predicate IsComment(row: Row) {
    |row.id| > 0 && row.id[0] == '#'
  }

  /** The rows that are not commented out, in file order. */
  function Active(rows: seq<Row>): (r: seq<Row>)
    ensures |r| <= |rows|
    ensures forall i :: 0 <= i < |r| ==> !IsComment(r[i])
    ensures forall i :: 0 <= i < |rows| && !IsComment(rows[i]) ==> rows[i] in r
  {
    if |rows| == 0 then []
    else
      assert forall i :: 1 <= i < |rows| ==> rows[i] == rows[1..][i - 1];
      if IsComment(rows[0]) then Active(rows[1..])
      else [rows[0]] + Active(rows[1..])
  }

  /** A single row is kept exactly when it is not a comment. */
  lemma ActiveOfOne(row: Row)
    ensures Active([row]) == if IsComment(row) then [] else [row]
  {
  }

  /** Filtering works row by row: the rows kept from a file are the rows
      kept from its first part followed by those kept from the rest, so
      with `ActiveOfOne` the kept rows are exactly the non-comment rows in
      file order. */
  lemma {:induction false} ActiveConcat(a: seq<Row>, b: seq<Row>)
    ensures Active(a + b) == Active(a) + Active(b)
    decreases |a|
  {
    if |a| > 0 {
      assert (a + b)[1..] == a[1..] + b;
      ActiveConcat(a[1..], b);
    } else {
      assert a + b == b;
    }
  }

  /** `int(row['id'])` raising `ValueError` ends the load. */
  datatype LoadError = InvalidId(text: string)

  /** `KnowledgeBase.load` over rows already read from the file: comment
      rows are skipped, every other row becomes a pair in file order, and
      the first id that `parseId` (Python's `int`) rejects aborts the load. */
  function Load(rows: seq<Row>, parseId: string -> Option<int>): (r: Result<seq<Pair>, LoadError>)
  {
    if |rows| == 0 then Success([])
    else if IsComment(rows[0]) then Load(rows[1..], parseId)
    else match parseId(rows[0].id)
      case None => Failure(InvalidId(rows[0].id))
      case Some(n) =>
        match Load(rows[1..], parseId)
        case Success(ps) => Success([Pair(n, rows[0].question, rows[0].artist, rows[0].song)] + ps)
        case Failure(e) => Failure(e)
  }

  /** Loading succeeds exactly when every active row's id parses, and then
      yields one pair per active row, in order, carrying that row's fields;
      a failure names the first active row whose id does not parse. */
  lemma LoadSpec(rows: seq<Row>, parseId: string -> Option<int>)
    ensures var act := Active(rows);
      Load(rows, parseId).Success? <==> forall i :: 0 <= i < |act| ==> parseId(act[i].id).Some?
    ensures var act := Active(rows);
      Load(rows, parseId).Success? ==>
        var ps := Load(rows, parseId).value;
        && |ps| == |act|
        && forall i :: 0 <= i < |ps| ==>
             && parseId(act[i].id) == Some(ps[i].id)
             && ps[i].question == act[i].question
             && ps[i].artist == act[i].artist
             && ps[i].song == act[i].song
    ensures var act := Active(rows);
      Load(rows, parseId).Failure? ==>
        exists i :: && 0 <= i < |act| && act[i].id == Load(rows, parseId).error.text && parseId(act[i].id).None?
                    && forall j :: 0 <= j < i ==> parseId(act[j].id).Some?
  {
    LoadSucceedsIff(rows, parseId);
    LoadedPairs(rows, parseId);
    LoadFailsAtFirstBadId(rows, parseId);
  }

  /** Every row's id is accepted by `parseId`. */
  predicate IdsParse(rows: seq<Row>, parseId: string -> Option<int>) {
    forall i :: 0 <= i < |rows| ==> parseId(rows[i].id).Some?
  }

  /** The load succeeds exactly when no active id is rejected. */
  lemma {:induction false} LoadSucceedsIff(rows: seq<Row>, parseId: string -> Option<int>)
    ensures Load(rows, parseId).Success? <==> IdsParse(Active(rows), parseId)
  {
    if |rows| > 0 {
      LoadSucceedsIff(rows[1..], parseId);
      var act, tail := Active(rows), Active(rows[1..]);
      if IsComment(rows[0]) {
        assert act == tail;
      } else {
        assert act == [rows[0]] + tail;
        if IdsParse(act, parseId) {
          forall i | 0 <= i < |tail|
            ensures parseId(tail[i].id).Some?
          {
            assert tail[i] == act[i + 1];
          }
        }
        if parseId(rows[0].id).Some? && IdsParse(tail, parseId) {
          forall i | 0 <= i < |act|
            ensures parseId(act[i].id).Some?
          {
            if i > 0 {
              assert act[i] == tail[i - 1];
            }
          }
        }
      }
    }
  }

  /** A successful load is the active rows, field by field, in order. */
  lemma {:induction false} LoadedPairs(rows: seq<Row>, parseId: string -> Option<int>)
    ensures var act := Active(rows);
      Load(rows, parseId).Success? ==>
        var ps := Load(rows, parseId).value;
        && |ps| == |act|
        && forall i :: 0 <= i < |ps| ==>
             && parseId(act[i].id) == Some(ps[i].id)
             && ps[i].question == act[i].question
             && ps[i].artist == act[i].artist
             && ps[i].song == act[i].song
  {
    if |rows| > 0 {
      LoadedPairs(rows[1..], parseId);
      if !IsComment(rows[0]) && Load(rows, parseId).Success? {
        var act, tail := Active(rows), Active(rows[1..]);
        assert act == [rows[0]] + tail;
        var ps := Load(rows, parseId).value;
        assert ps[1..] == Load(rows[1..], parseId).value;
        assert forall i :: 1 <= i < |ps| ==> act[i] == tail[i - 1] && ps[i] == ps[1..][i - 1];
      }
    }
  }

  /** A failed load reports the first active id that is rejected. */
  lemma {:induction false} LoadFailsAtFirstBadId(rows: seq<Row>, parseId: string -> Option<int>)
    ensures var act := Active(rows);
      Load(rows, parseId).Failure? ==>
        exists i :: && 0 <= i < |act| && act[i].id == Load(rows, parseId).error.text && parseId(act[i].id).None?
                    && forall j :: 0 <= j < i ==> parseId(act[j].id).Some?
  {
    if |rows| == 0 {
    } else if IsComment(rows[0]) {
      LoadFailsAtFirstBadId(rows[1..], parseId);
      assert Active(rows) == Active(rows[1..]);
    } else {
      LoadFailsAtFirstBadId(rows[1..], parseId);
      var act, tail := Active(rows), Active(rows[1..]);
      assert act == [rows[0]] + tail;
      if parseId(rows[0].id).None? {
        assert act[0].id == Load(rows, parseId).error.text;
      } else if Load(rows[1..], parseId).Failure? {
        var i :| && 0 <= i < |tail| && tail[i].id == Load(rows[1..], parseId).error.text
                 && parseId(tail[i].id).None?
                 && forall j :: 0 <= j < i ==> parseId(tail[j].id).Some?;
        assert act[i + 1] == tail[i];
        assert forall j :: 1 <= j < i + 1 ==> act[j] == tail[j - 1];
      }
    }
  }

  /** Commented-out rows make no difference to the load. */
  lemma {:induction false} LoadIgnoresComments(rows: seq<Row>, parseId: string -> Option<int>)
    ensures Load(rows, parseId) == Load(Active(rows), parseId)
  {
    if |rows| > 0 {
      LoadIgnoresComments(rows[1..], parseId);
      if !IsComment(rows[0]) {
        var act := Active(rows);
        assert act[0] == rows[0] && act[1..] == Active(rows[1..]);
      }
    }
  }

  /** The largest id of a non-empty catalogue. */
  function MaxId(ps: seq<Pair>): (m: int)
    requires |ps| > 0
    ensures forall i :: 0 <= i < |ps| ==> ps[i].id <= m
    ensures exists i :: 0 <= i < |ps| && ps[i].id == m
  {
    if |ps| == 1 then ps[0].id
    else
      var rest := MaxId(ps[1..]);
      assert forall i :: 1 <= i < |ps| ==> ps[i] == ps[1..][i - 1];
      if ps[0].id >= rest then ps[0].id else rest
  }

  /** The id given to the next pair entered: one more than the largest id,
      or 1 for an empty catalogue. */
  function NextId(ps: seq<Pair>): (r: int)
    ensures forall i :: 0 <= i < |ps| ==> ps[i].id < r
    ensures |ps| == 0 ==> r == 1
    ensures |ps| > 0 ==> exists i :: 0 <= i < |ps| && ps[i].id == r - 1
  {
    if |ps| == 0 then 1 else MaxId(ps) + 1
  }

  /** Entering a pair under the next id keeps ids distinct, and the id
      after it is one more, which is why the entry loop may simply count
      up instead of recomputing the maximum. */
  lemma NextIdAfterAppend(ps: seq<Pair>, question: string, artist: string, song: string)
    ensures var ps' := ps + [Pair(NextId(ps), question, artist, song)];
      && NextId(ps') == NextId(ps) + 1
      && (DistinctIds(ps) ==> DistinctIds(ps'))
  {
    var p := Pair(NextId(ps), question, artist, song);
    var ps' := ps + [p];
    assert ps'[|ps|] == p;
    var n := NextId(ps');
    assert forall i :: 0 <= i < |ps| ==> ps'[i] == ps[i];
    var k :| 0 <= k < |ps'| && ps'[k].id == n - 1;
    assert n - 1 <= p.id;
  }
}
