/** The sort of the streak-0 bucket by artist (flashcards.py:242):
    Python compares strings lexicographically by code point and its sort
    is stable. */
module ArtistOrder {
  import opened Catalog

  /** Python's `a <= b` on strings: lexicographic by code point, a proper
      prefix coming first. */
  predicate StrLe(a: string, b: string)
    decreases |a|
  {
    |a| == 0 || (|b| > 0 && (a[0] < b[0] || (a[0] == b[0] && StrLe(a[1..], b[1..]))))
  }

  lemma {:induction false} StrLeReflexive(a: string)
    ensures StrLe(a, a)
    decreases |a|
  {
    if |a| > 0 {
      StrLeReflexive(a[1..]);
    }
  }

  lemma {:induction false} StrLeTotal(a: string, b: string)
    ensures StrLe(a, b) || StrLe(b, a)
    decreases |a|
  {
    if |a| > 0 && |b| > 0 && a[0] == b[0] {
      StrLeTotal(a[1..], b[1..]);
    }
  }

  lemma {:induction false} StrLeTransitive(a: string, b: string, c: string)
    requires StrLe(a, b) && StrLe(b, c)
    ensures StrLe(a, c)
    decreases |a|
  {
    if |a| > 0 && a[0] == b[0] && b[0] == c[0] {
      StrLeTransitive(a[1..], b[1..], c[1..]);
    }
  }

  /** Artists never decrease along the sequence. */
  ghost predicate SortedByArtist(s: seq<Pair>) {
    forall i, j :: 0 <= i < j < |s| ==> StrLe(s[i].artist, s[j].artist)
  }

  /** The pairs of one artist, in the order they occur. */
  function ByArtist(a: string, s: seq<Pair>): (r: seq<Pair>)
    ensures forall i :: 0 <= i < |r| ==> r[i].artist == a
  {
    if |s| == 0 then []
    else if s[0].artist == a then [s[0]] + ByArtist(a, s[1..])
    else ByArtist(a, s[1..])
  }

  lemma {:induction false} ByArtistConcat(a: string, s: seq<Pair>, t: seq<Pair>)
    ensures ByArtist(a, s + t) == ByArtist(a, s) + ByArtist(a, t)
    decreases |s|
  {
    if |s| > 0 {
      assert (s + t)[1..] == s[1..] + t;
      ByArtistConcat(a, s[1..], t);
    } else {
      assert s + t == t;
    }
  }

  /** Inserts `p` in front of the first pair whose artist is not smaller,
      so that `p` lands after smaller artists and before equal ones. */
  function Insert(p: Pair, s: seq<Pair>): (r: seq<Pair>)
    ensures multiset(r) == multiset(s) + multiset{p}
  {
    if |s| == 0 then [p]
    else if StrLe(p.artist, s[0].artist) then [p] + s
    else
      assert s == [s[0]] + s[1..];
      [s[0]] + Insert(p, s[1..])
  }

  lemma {:induction false} InsertSorted(p: Pair, s: seq<Pair>)
    requires SortedByArtist(s)
    ensures SortedByArtist(Insert(p, s))
    decreases |s|
  {
    if |s| == 0 {
    } else if StrLe(p.artist, s[0].artist) {
      forall j | 0 <= j < |s|
        ensures StrLe(p.artist, s[j].artist)
      {
        if j > 0 {
          StrLeTransitive(p.artist, s[0].artist, s[j].artist);
        }
      }
      SortedCons(p, s);
    } else {
      StrLeTotal(p.artist, s[0].artist);
      InsertSorted(p, s[1..]);
      InsertAbove(s[0].artist, p, s[1..]);
      SortedCons(s[0], Insert(p, s[1..]));
    }
  }

  /** A pair whose artist is not above any artist of a sorted sequence can
      go in front of it. */
  lemma SortedCons(x: Pair, t: seq<Pair>)
    requires SortedByArtist(t)
    requires forall j :: 0 <= j < |t| ==> StrLe(x.artist, t[j].artist)
    ensures SortedByArtist([x] + t)
  {
    var r := [x] + t;
    forall i, j | 0 <= i < j < |r|
      ensures StrLe(r[i].artist, r[j].artist)
    {
      assert r[j] == t[j - 1];
      if i > 0 {
        assert r[i] == t[i - 1];
      }
    }
  }

  /** Inserting a pair keeps a lower bound on the artists. */
  lemma InsertAbove(x: string, p: Pair, s: seq<Pair>)
    requires StrLe(x, p.artist)
    requires forall j :: 0 <= j < |s| ==> StrLe(x, s[j].artist)
    ensures forall j :: 0 <= j < |Insert(p, s)| ==> StrLe(x, Insert(p, s)[j].artist)
  {
    var r := Insert(p, s);
    forall j | 0 <= j < |r|
      ensures StrLe(x, r[j].artist)
    {
      assert r[j] in multiset(s) + multiset{p};
      if r[j] != p {
        assert r[j] in s;
      }
    }
  }

  lemma {:induction false} InsertStable(a: string, p: Pair, s: seq<Pair>)
    ensures ByArtist(a, Insert(p, s)) == ByArtist(a, [p] + s)
    decreases |s|
  {
    if |s| == 0 {
    } else if StrLe(p.artist, s[0].artist) {
    } else {
      StrLeReflexive(p.artist);
      InsertStable(a, p, s[1..]);
      assert ([p] + s)[1..] == s;
      assert ([p] + s[1..])[1..] == s[1..];
    }
  }

  /** `list.sort(key=artist)`: insertion sort, taking the pairs from the
      back so that of two equal artists the earlier stays in front. */
  function SortByArtist(s: seq<Pair>): (r: seq<Pair>)
    ensures multiset(r) == multiset(s)
    ensures |r| == |s|
  {
    if |s| == 0 then []
    else
      assert s == [s[0]] + s[1..];
      Insert(s[0], SortByArtist(s[1..]))
  }

  /** The sort orders by artist, and it is stable: the pairs of each artist
      keep the order they had. */
  lemma {:induction false} SortByArtistSortedAndStable(s: seq<Pair>)
    ensures SortedByArtist(SortByArtist(s))
    ensures forall a :: ByArtist(a, SortByArtist(s)) == ByArtist(a, s)
    decreases |s|
  {
    if |s| > 0 {
      SortByArtistSortedAndStable(s[1..]);
      InsertSorted(s[0], SortByArtist(s[1..]));
      forall a
        ensures ByArtist(a, SortByArtist(s)) == ByArtist(a, s)
      {
        InsertStable(a, s[0], SortByArtist(s[1..]));
        ByArtistConcat(a, [s[0]], SortByArtist(s[1..]));
        ByArtistConcat(a, [s[0]], s[1..]);
        assert s == [s[0]] + s[1..];
      }
    }
  }
}
