/** The ordering of the results: Pair.compareTo, then Collections.sort (a
    stable sort, ascending by compareTo), then Collections.reverse. */
module Ranking {
  import Indexer

  /** A document with its score. The score is the order key of the double
      tf * idf that the program stores: see QueryEngine.Weighted. */
  datatype Pair = Pair(file: Indexer.DocId, score: nat)

  /** Pair.compareTo: 1 when p scores higher than o, -1 when lower, else 0. */
  function CompareTo(p: Pair, o: Pair): (r: int)
    ensures r == 0 <==> p.score == o.score
    ensures r > 0 <==> p.score > o.score
    ensures r == 1 || r == 0 || r == -1
  {
    if p.score > o.score then 1
    else if p.score < o.score then -1
    else 0
  }

  /** compareTo obeys the Comparable contract: the sign flips when the
      arguments are swapped, it is transitive, and pairs comparing equal
      compare alike with every other pair. */
  lemma CompareToIsTotalPreorder(p: Pair, o: Pair, q: Pair)
    ensures CompareTo(p, o) == -CompareTo(o, p)
    ensures CompareTo(p, o) > 0 && CompareTo(o, q) > 0 ==> CompareTo(p, q) > 0
    ensures CompareTo(p, o) == 0 ==> CompareTo(p, q) == CompareTo(o, q)
  {
  }

  predicate Ascending(s: seq<Pair>) {
    forall i, j :: 0 <= i < j < |s| ==> s[i].score <= s[j].score
  }

  predicate Descending(s: seq<Pair>) {
    forall i, j :: 0 <= i < j < |s| ==> s[i].score >= s[j].score
  }

  /** The pairs of s with score v, in their order in s. */
  function WithScore(s: seq<Pair>, v: nat): seq<Pair> {
    if s == [] then []
    else Only(s[0], v) + WithScore(s[1..], v)
  }

  /** x inserted into t in front of the first pair that does not compare
      below it: in front of the pairs equal to it. */
  function Insert(x: Pair, t: seq<Pair>): (r: seq<Pair>)
    ensures multiset(r) == multiset(t) + multiset{x}
  {
    if t == [] then [x]
    else if CompareTo(x, t[0]) > 0 then
      assert t == [t[0]] + t[1..];
      [t[0]] + Insert(x, t[1..])
    else [x] + t
  }

  /** Inserting into an ascending sequence keeps it ascending. */
  lemma {:induction false} InsertAscending(x: Pair, t: seq<Pair>)
    requires Ascending(t)
    ensures Ascending(Insert(x, t))
  {
    if t == [] {
    } else if CompareTo(x, t[0]) > 0 {
      InsertAscending(x, t[1..]);
      HeadIsLeast(t);
      InsertAtLeast(x, t[1..], t[0].score);
      ConsAscending(t[0], Insert(x, t[1..]));
    } else {
      HeadIsLeast(t);
      ConsAscending(x, t);
    }
  }

  /** No pair of s scores below b. */
  predicate AtLeast(s: seq<Pair>, b: nat) {
    forall k :: 0 <= k < |s| ==> b <= s[k].score
  }

  lemma HeadIsLeast(t: seq<Pair>)
    requires Ascending(t) && t != []
    ensures AtLeast(t, t[0].score) && AtLeast(t[1..], t[0].score) && Ascending(t[1..])
  {
  }

  lemma ConsAscending(p: Pair, s: seq<Pair>)
    requires Ascending(s) && AtLeast(s, p.score)
    ensures Ascending([p] + s)
  {
  }

  lemma {:induction false} InsertAtLeast(x: Pair, t: seq<Pair>, b: nat)
    requires b <= x.score && AtLeast(t, b)
    ensures AtLeast(Insert(x, t), b)
  {
    if t != [] && CompareTo(x, t[0]) > 0 {
      InsertAtLeast(x, t[1..], b);
    }
  }

  /** Collections.sort with compareTo: ascending, and pairs comparing equal
      keep their relative order. */
  function Sort(s: seq<Pair>): (r: seq<Pair>)
    ensures multiset(r) == multiset(s)
    ensures Ascending(r)
  {
    if s == [] then []
    else
      assert s == [s[0]] + s[1..];
      InsertAscending(s[0], Sort(s[1..]));
      Insert(s[0], Sort(s[1..]))
  }

  /** Collections.reverse. */
  function Reverse(s: seq<Pair>): (r: seq<Pair>)
    ensures |r| == |s|
    ensures forall i :: 0 <= i < |s| ==> r[i] == s[|s| - 1 - i]
  {
    if s == [] then [] else Reverse(s[1..]) + [s[0]]
  }

  /** Sorting then reversing, as the query loop does. */
  function Rank(s: seq<Pair>): seq<Pair> {
    Reverse(Sort(s))
  }

  // ---------------------------------------------------------------------------
  // Stability.

  lemma {:induction false} WithScoreAppend(a: seq<Pair>, b: seq<Pair>, v: nat)
    ensures WithScore(a + b, v) == WithScore(a, v) + WithScore(b, v)
  {
    if a == [] {
      assert a + b == b;
    } else {
      var x, rest := a[0], a[1..];
      WithScoreAppend(rest, b, v);
      Unconcat(a, b);
      WithScoreCons(x, rest + b, v);
      WithScoreCons(x, rest, v);
      assert a == [x] + rest;
      Regroup(Only(x, v), WithScore(rest, v), WithScore(b, v));
    }
  }

  lemma Unconcat(a: seq<Pair>, b: seq<Pair>)
    requires a != []
    ensures a + b == [a[0]] + (a[1..] + b)
  {
    assert a == [a[0]] + a[1..];
  }

  /** Sequence step kept separate so the proofs using it stay cheap. */
  lemma Regroup(a: seq<Pair>, b: seq<Pair>, c: seq<Pair>)
    ensures a + (b + c) == (a + b) + c
  {
  }

  /** Insert puts x in front of every pair with x's score and moves no other pair. */
  lemma {:induction false} InsertWithScore(x: Pair, t: seq<Pair>, v: nat)
    ensures WithScore(Insert(x, t), v) == Only(x, v) + WithScore(t, v)
  {
    if t == [] {
      WithScoreCons(x, [], v);
      assert [x] + [] == [x];
    } else if CompareTo(x, t[0]) > 0 {
      var rest := Insert(x, t[1..]);
      InsertWithScore(x, t[1..], v);
      WithScoreCons(t[0], rest, v);
      WithScoreCons(t[0], t[1..], v);
      assert t == [t[0]] + t[1..];
      SwapFront(Only(x, v), Only(t[0], v), WithScore(t[1..], v));
    } else {
      WithScoreCons(x, t, v);
    }
  }

  /** [p] when p has score v, else []. */
  function Only(p: Pair, v: nat): seq<Pair> {
    if p.score == v then [p] else []
  }

  lemma WithScoreCons(p: Pair, s: seq<Pair>, v: nat)
    ensures WithScore([p] + s, v) == Only(p, v) + WithScore(s, v)
  {
    assert ([p] + s)[1..] == s;
  }

  /** Sequence step kept separate so the proofs using it stay cheap. */
  lemma SwapFront(a: seq<Pair>, b: seq<Pair>, c: seq<Pair>)
    requires a == [] || b == []
    ensures b + (a + c) == a + (b + c)
  {
  }

  /** The sort is stable: the pairs of any one score keep their order. */
  lemma {:induction false} SortIsStable(s: seq<Pair>, v: nat)
    ensures WithScore(Sort(s), v) == WithScore(s, v)
  {
    if s != [] {
      SortIsStable(s[1..], v);
      InsertWithScore(s[0], Sort(s[1..]), v);
    }
  }

  lemma WithScoreOfHead(r: seq<Pair>)
    requires r != []
    ensures WithScore(r, r[0].score) == [r[0]] + WithScore(r[1..], r[0].score)
    ensures forall v :: v != r[0].score ==> WithScore(r, v) == WithScore(r[1..], v)
  {
  }

  /** No pair of an ascending sequence scores below its head. */
  lemma {:induction false} WithScoreBelowHead(q: seq<Pair>, v: nat)
    requires Ascending(q) && q != [] && v < q[0].score
    ensures WithScore(q, v) == []
  {
    if |q| > 1 {
      WithScoreBelowHead(q[1..], v);
    }
  }

  /** Two ascending sequences whose pairs of each score agree, in order, are equal. */
  lemma {:induction false} AscendingByScoresUnique(r: seq<Pair>, q: seq<Pair>)
    requires Ascending(r) && Ascending(q)
    requires forall v :: WithScore(r, v) == WithScore(q, v)
    ensures r == q
    decreases |r| + |q|
  {
    if r == [] && q == [] {
    } else if r == [] {
      WithScoreOfHead(q);
    } else if q == [] {
      WithScoreOfHead(r);
    } else {
      WithScoreOfHead(r);
      WithScoreOfHead(q);
      if r[0].score < q[0].score {
        WithScoreBelowHead(q, r[0].score);
        assert false;
      } else if q[0].score < r[0].score {
        WithScoreBelowHead(r, q[0].score);
        assert false;
      } else {
        var m := r[0].score;
        assert WithScore(r, m) == WithScore(q, m);
        assert WithScore(r, m)[0] == r[0];
        assert WithScore(q, m)[0] == q[0];
        forall v
          ensures WithScore(r[1..], v) == WithScore(q[1..], v)
        {
          assert WithScore(r, v) == WithScore(q, v);
          if v == m {
            assert [r[0]] + WithScore(r[1..], m) == [q[0]] + WithScore(q[1..], m);
            assert WithScore(r[1..], m) == ([r[0]] + WithScore(r[1..], m))[1..];
          }
        }
        AscendingByScoresUnique(r[1..], q[1..]);
        assert r == [r[0]] + r[1..];
        assert q == [q[0]] + q[1..];
      }
    }
  }

  /** Sort is the only ascending arrangement of s that keeps the order of
      equal pairs: any stable ascending sort gives the same result. */
  lemma SortIsTheStableSort(s: seq<Pair>, r: seq<Pair>)
    requires Ascending(r)
    requires forall v :: WithScore(r, v) == WithScore(s, v)
    ensures r == Sort(s)
  {
    forall v
      ensures WithScore(r, v) == WithScore(Sort(s), v)
    {
      SortIsStable(s, v);
    }
    AscendingByScoresUnique(r, Sort(s));
  }

  // ---------------------------------------------------------------------------
  // Reversal.

  lemma {:induction false} ReverseMultiset(s: seq<Pair>)
    ensures multiset(Reverse(s)) == multiset(s)
  {
    if s != [] {
      ReverseMultiset(s[1..]);
      assert s == [s[0]] + s[1..];
    }
  }

  lemma {:induction false} ReverseWithScore(s: seq<Pair>, v: nat)
    ensures WithScore(Reverse(s), v) == Reverse(WithScore(s, v))
  {
    if s != [] {
      ReverseWithScore(s[1..], v);
      WithScoreAppend(Reverse(s[1..]), [s[0]], v);
      ReverseAppend(Only(s[0], v), WithScore(s[1..], v));
    }
  }

  lemma ReverseAppend(a: seq<Pair>, b: seq<Pair>)
    ensures Reverse(a + b) == Reverse(b) + Reverse(a)
  {
    var l, r := Reverse(a + b), Reverse(b) + Reverse(a);
    assert |l| == |r|;
    forall i | 0 <= i < |l|
      ensures l[i] == r[i]
    {
      if i < |b| {
        assert l[i] == (a + b)[|a| + |b| - 1 - i];
      }
    }
  }

  /** The ranking of the query loop: a permutation of the pairs, by
      non-increasing score, with the pairs of each score in the reverse of
      their original order. */
  lemma RankOrder(s: seq<Pair>)
    ensures multiset(Rank(s)) == multiset(s)
    ensures Descending(Rank(s))
    ensures forall v :: WithScore(Rank(s), v) == Reverse(WithScore(s, v))
  {
    ReverseMultiset(Sort(s));
    forall v
      ensures WithScore(Rank(s), v) == Reverse(WithScore(s, v))
    {
      ReverseWithScore(Sort(s), v);
      SortIsStable(s, v);
    }
  }

  /** The first m pairs of a descending sequence are its top m: no pair left
      out scores above a pair kept. */
  lemma TopOfDescending(ranked: seq<Pair>, m: nat)
    requires Descending(ranked) && m <= |ranked|
    ensures forall p, l :: p in multiset(ranked) - multiset(ranked[..m]) && l in ranked[..m] ==> p.score <= l.score
  {
    assert ranked == ranked[..m] + ranked[m..];
    forall p, l | p in multiset(ranked) - multiset(ranked[..m]) && l in ranked[..m]
      ensures p.score <= l.score
    {
      assert p in multiset(ranked[m..]);
      var j :| 0 <= j < |ranked[m..]| && ranked[m..][j] == p;
      var k :| 0 <= k < m && ranked[k] == l;
      assert ranked[m + j] == p;
    }
  }

  /** When all scores are equal the stable sort changes nothing, and the
      ranking is the sequence reversed. */
  lemma RankOfTies(s: seq<Pair>, v: nat)
    requires forall i :: 0 <= i < |s| ==> s[i].score == v
    ensures Rank(s) == Reverse(s)
  {
    SortIsTheStableSort(s, s);
  }

  /** The first m pairs of the ranking: descending, drawn from s, and no
      pair of s left out scores above one of them. */
  lemma RankedPrefix(s: seq<Pair>, m: nat)
    requires m <= |s|
    ensures |Rank(s)| == |s|
    ensures Descending(Rank(s)[..m])
    ensures multiset(Rank(s)[..m]) <= multiset(s)
    ensures forall p, l :: p in multiset(s) - multiset(Rank(s)[..m]) && l in Rank(s)[..m] ==> p.score <= l.score
  {
    RankOrder(s);
    SameLength(Rank(s), s);
    PrefixOfDescending(Rank(s), m);
  }

  lemma SameLength(a: seq<Pair>, b: seq<Pair>)
    requires multiset(a) == multiset(b)
    ensures |a| == |b|
  {
    assert |multiset(a)| == |multiset(b)|;
  }

  /** The first m pairs of a non-increasing sequence: non-increasing, drawn
      from it, and above every pair left out. */
  lemma PrefixOfDescending(ranked: seq<Pair>, m: nat)
    requires Descending(ranked) && m <= |ranked|
    ensures Descending(ranked[..m])
    ensures multiset(ranked[..m]) <= multiset(ranked)
    ensures forall p, l :: p in multiset(ranked) - multiset(ranked[..m]) && l in ranked[..m] ==> p.score <= l.score
  {
    assert ranked == ranked[..m] + ranked[m..];
    TopOfDescending(ranked, m);
  }
}
