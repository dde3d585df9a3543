/** The body of the query loop in main: look the query up in the index,
    compute the idf, count the query in each candidate document, score, rank,
    and list the first five. */
module QueryEngine {
  import opened Tokenizer
  import opened Indexer
  import opened Ranking

  /** The number of results the query loop lists at most. */
  const Limit: nat := 5

  function Min(a: nat, b: nat): nat {
    if a < b then a else b
  }

  /** The posting list of the query, taken as typed (neither lowercased nor
      tokenised); an absent query has no candidates. */
  function Candidates(index: Index, query: string): seq<DocId> {
    if query in index then index[query] else []
  }

  // ---------------------------------------------------------------------------
  // Inverse document frequency.

  /** Math.log(totalDocuments / size) with Java's integer division, or 0 when
      there are no candidates. The logarithm is kept symbolic: Log(q) stands
      for ln(q). */
  datatype Idf = Zero | Log(quotient: nat)

  function ComputeIdf(totalDocuments: nat, size: nat): (idf: Idf)
    ensures idf == Zero <==> size == 0
    ensures idf.Log? ==> idf.quotient * size <= totalDocuments < (idf.quotient + 1) * size
  {
    if size > 0 then Log(totalDocuments / size) else Zero
  }

  /** Fewer candidates never give a smaller idf: the quotient grows as the
      posting list shrinks. */
  lemma IdfMonotone(totalDocuments: nat, size: nat, smaller: nat)
    requires 0 < smaller <= size
    ensures ComputeIdf(totalDocuments, smaller).quotient >= ComputeIdf(totalDocuments, size).quotient
  {
    var q := ComputeIdf(totalDocuments, size).quotient;
    var q' := ComputeIdf(totalDocuments, smaller).quotient;
    if q' < q {
      MultiplyMonotone(q' + 1, q, smaller);
      MultiplyMonotone(smaller, size, q);
      assert false;
    }
  }

  /** Arithmetic step kept separate so the idf proofs stay cheap. */
  lemma MultiplyMonotone(a: nat, b: nat, c: nat)
    requires a <= b
    ensures a * c <= b * c && c * a <= c * b
  {
  }

  /** The order key of the double tf * idf. With ln(q) > 0 (q >= 2) the
      products order exactly as the counts do; with q == 1 every product is
      0, and with q == 0 every product is -Infinity or NaN, which compareTo
      finds equal to one another: every key is then 0. */
  function Weighted(tf: nat, idf: Idf): nat {
    if idf.Log? && idf.quotient >= 2 then tf else 0
  }

  /** Scores order as term frequencies when ln(quotient) is positive, and are
      all equal otherwise. */
  lemma WeightedOrder(idf: Idf, a: nat, b: nat)
    ensures idf.Log? && idf.quotient >= 2 ==>
      (Weighted(a, idf) < Weighted(b, idf) <==> a < b) && (Weighted(a, idf) == Weighted(b, idf) <==> a == b)
    ensures !(idf.Log? && idf.quotient >= 2) ==> Weighted(a, idf) == Weighted(b, idf) == 0
  {
  }

  // ---------------------------------------------------------------------------
  // Term frequency.

  /** The tokens of a document, line after line, as the query loop splits them
      (a line without letters contributes the single empty token). */
  function DocTokens(lines: seq<string>): seq<string> {
    Flatten(LineTokens(lines))
  }

  /** The tokens of each line of a document. */
  function LineTokens(lines: seq<string>): (tss: seq<seq<string>>)
    ensures |tss| == |lines|
  {
    seq(|lines|, i requires 0 <= i < |lines| => Terms(lines[i]))
  }

  /** The token lists one after the other. */
  function Flatten(tss: seq<seq<string>>): seq<string> {
    if tss == [] then [] else Flatten(tss[..|tss| - 1]) + tss[|tss| - 1]
  }

  /** How many tokens of ts equal q exactly. */
  function Occurrences(ts: seq<string>, q: string): (n: nat)
    ensures n <= |ts|
    ensures n > 0 <==> q in ts
  {
    if ts == [] then 0
    else
      assert ts == ts[..|ts| - 1] + [ts[|ts| - 1]];
      Occurrences(ts[..|ts| - 1], q) + (if ts[|ts| - 1] == q then 1 else 0)
  }

  lemma OccurrencesStep(ts: seq<string>, t: string, q: string)
    ensures Occurrences(ts + [t], q) == Occurrences(ts, q) + (if t == q then 1 else 0)
  {
    assert (ts + [t])[..|ts|] == ts;
  }

  /** Sequence step kept separate so the loop proofs stay cheap. */
  lemma TakeOneMore<T>(s: seq<T>, i: nat)
    requires i < |s|
    ensures s[..i + 1] == s[..i] + [s[i]]
  {
  }

  lemma ExtendPrefix<T>(a: seq<T>, s: seq<T>, k: nat)
    requires k < |s|
    ensures a + s[..k + 1] == (a + s[..k]) + [s[k]]
  {
    assert s[..k + 1] == s[..k] + [s[k]];
  }

  /** The term frequency of q in d: 0 when d cannot be read. */
  function TermFrequency(store: Store, d: DocId, q: string): nat {
    if d in store then Occurrences(DocTokens(store[d]), q) else 0
  }

  /** The reading loop of one candidate: counts the tokens equal to the query
      and all tokens. */
  method CountTerms(lines: seq<string>, query: string) returns (tf: nat, totalTerms: nat)
    ensures tf == Occurrences(DocTokens(lines), query)
    ensures totalTerms == |DocTokens(lines)|
    ensures tf <= totalTerms
  {
    tf, totalTerms := 0, 0;
    var j := 0;
    while j < |lines|
      invariant 0 <= j <= |lines|
      invariant tf == Occurrences(DocTokens(lines[..j]), query)
      invariant totalTerms == |DocTokens(lines[..j])|
    {
      var terms := Tokenize(lines[j]);
      TokenizeIsWords(lines[j]);
      NextLineTokens(lines, j);
      tf, totalTerms := CountLine(DocTokens(lines[..j]), terms, query, tf, totalTerms);
      j := j + 1;
    }
    assert lines[..|lines|] == lines;
  }

  lemma NextLineTokens(lines: seq<string>, j: nat)
    requires j < |lines|
    ensures DocTokens(lines[..j + 1]) == DocTokens(lines[..j]) + Terms(lines[j])
  {
    var tss := LineTokens(lines[..j + 1]);
    assert tss[..j] == LineTokens(lines[..j]);
    assert tss[j] == Terms(lines[j]);
  }

  /** The inner loop of the reading loop: the tokens of one line, counted on
      top of the counts of the lines before it (done). */
  method CountLine(ghost done: seq<string>, terms: seq<string>, query: string, tf0: nat, total0: nat)
    returns (tf: nat, totalTerms: nat)
    requires tf0 == Occurrences(done, query) && total0 == |done|
    ensures tf == Occurrences(done + terms, query) && totalTerms == |done + terms|
  {
    tf, totalTerms := tf0, total0;
    assert done + terms[..0] == done;
    for k := 0 to |terms|
      invariant tf == Occurrences(done + terms[..k], query)
      invariant totalTerms == |done| + k
    {
      OccurrencesStep(done + terms[..k], terms[k], query);
      ExtendPrefix(done, terms, k);
      if query == terms[k] {
        tf := tf + 1;
      }
      totalTerms := totalTerms + 1;
    }
    assert terms[..|terms|] == terms;
  }

  // ---------------------------------------------------------------------------
  // The query.

  /** The pairs of the candidates, in posting order, with their scores. */
  function ScoredPairs(documents: seq<DocId>, store: Store, query: string, idf: Idf): seq<Pair> {
    seq(|documents|, i requires 0 <= i < |documents| =>
      Pair(documents[i], Weighted(TermFrequency(store, documents[i], query), idf)))
  }

  /** What one pass of the query loop prints: the listed pairs, the number
      shown, and the number of candidate documents. */
  datatype Report = Report(listed: seq<Pair>, shown: nat, outOf: nat)

  /** The report of the query against the index, the readable files and the
      number of files in the directory. */
  function Answer(index: Index, store: Store, query: string, totalDocuments: nat): Report {
    var documents := Candidates(index, query);
    var idf := ComputeIdf(totalDocuments, |documents|);
    var ranked := Rank(ScoredPairs(documents, store, query, idf));
    Report(ranked[..Min(Limit, |ranked|)], Min(Limit, |ranked|), |documents|)
  }

  /** The scoring of the candidates: the term frequency of each, weighted by
      the idf into an array, then paired with its document in posting order. */
  method ScoreCandidates(documents: seq<DocId>, store: Store, query: string, idf: Idf) returns (pairs: seq<Pair>)
    ensures pairs == ScoredPairs(documents, store, query, idf)
  {
    var tfidfs := new nat[|documents|];
    for i := 0 to |documents|
      invariant forall k :: 0 <= k < i ==> tfidfs[k] == Weighted(TermFrequency(store, documents[k], query), idf)
    {
      var tf := 0;
      if documents[i] in store {
        var totalTerms;
        tf, totalTerms := CountTerms(store[documents[i]], query);
      }
      tfidfs[i] := Weighted(tf, idf);
    }
    pairs := [];
    for i := 0 to |documents|
      invariant |pairs| == i
      invariant forall k :: 0 <= k < i ==> pairs[k] == Pair(documents[k], tfidfs[k])
    {
      pairs := pairs + [Pair(documents[i], tfidfs[i])];
    }
  }

  /** One pass of the query loop: look up the candidates, score them, sort,
      reverse, and list at most five. */
  method RunQuery(index: Index, store: Store, query: string, totalDocuments: nat) returns (report: Report)
    ensures report == Answer(index, store, query, totalDocuments)
  {
    var documents := if query in index then index[query] else [];
    var idf := ComputeIdf(totalDocuments, |documents|);
    var pairs := ScoreCandidates(documents, store, query, idf);
    var ranked := Rank(pairs);
    var listed := TopResults(ranked);
    report := Report(listed, Min(Limit, |ranked|), |documents|);
  }

  /** The printing loop: the first min(5, size) ranked pairs, in order. */
  method TopResults(ranked: seq<Pair>) returns (listed: seq<Pair>)
    ensures listed == ranked[..Min(Limit, |ranked|)]
  {
    listed := [];
    var i := 0;
    while i < Limit && i < |ranked|
      invariant 0 <= i <= Min(Limit, |ranked|)
      invariant listed == ranked[..i]
    {
      TakeOneMore(ranked, i);
      listed := listed + [ranked[i]];
      i := i + 1;
    }
  }

  // ---------------------------------------------------------------------------
  // The query loop against the index createInvertedIndex builds.

  /** A token is among the tokens of a document exactly when one of its lines has it. */
  lemma DocTokensMembership(lines: seq<string>, q: string)
    ensures q in DocTokens(lines) <==> exists i :: 0 <= i < |lines| && q in Terms(lines[i])
  {
    var tss := LineTokens(lines);
    if q in DocTokens(lines) {
      var i := FlattenWitness(tss, q);
      assert tss[i] == Terms(lines[i]);
    }
    forall i | 0 <= i < |lines| && q in Terms(lines[i])
      ensures q in DocTokens(lines)
    {
      assert tss[i] == Terms(lines[i]);
      FlattenIncludes(tss, i, q);
    }
  }

  lemma {:induction false} FlattenWitness(tss: seq<seq<string>>, q: string) returns (i: nat)
    requires q in Flatten(tss)
    ensures i < |tss| && q in tss[i]
  {
    var p := tss[..|tss| - 1];
    if q in Flatten(p) {
      i := FlattenWitness(p, q);
    } else {
      i := |tss| - 1;
    }
  }

  lemma {:induction false} FlattenIncludes(tss: seq<seq<string>>, i: nat, q: string)
    requires i < |tss| && q in tss[i]
    ensures q in Flatten(tss)
  {
    var p := tss[..|tss| - 1];
    if i < |p| {
      FlattenIncludes(p, i, q);
    }
  }

  /** The indexer (splitting on \s) and the scorer (splitting on " ") agree: a
      document is a candidate for the query exactly when it is listed and
      the query occurs in it, that is, when its term frequency is positive. */
  lemma CandidatesHaveTheQuery(listing: seq<DocId>, store: Store, query: string, d: DocId)
    ensures d in Candidates(InvertedIndex(listing, store), query) <==>
      d in listing && TermFrequency(store, d, query) > 0
  {
    PostingMembership(listing, store, query, d);
    if d in store {
      DocTokensMembership(store[d], query);
      TermsOfMembership(store[d], query);
    }
    AllTermsMembership(listing, store, query);
  }

  /** A query that is neither empty nor a word over [a-z] (one with a capital
      letter, a digit or a space, say) is never a key: nothing is listed. */
  lemma UnnormalisedQueryListsNothing(listing: seq<DocId>, store: Store, query: string, totalDocuments: nat)
    requires query != "" && !IsWord(query)
    ensures Answer(InvertedIndex(listing, store), store, query, totalDocuments) == Report([], 0, 0)
  {
    if query in AllTerms(listing, store) {
      KeysAreTokens(listing, store, query);
    }
    var documents := Candidates(InvertedIndex(listing, store), query);
    assert documents == [];
    var idf := ComputeIdf(totalDocuments, 0);
    assert ScoredPairs(documents, store, query, idf) == [];
    assert Rank([]) == [];
  }

  /** Against the index of the directory's listing and that directory's
      number of files, a query has at most as many candidates as there are
      files, so total / size is at least 1 and the idf is never -Infinity. */
  lemma IdfOfIndexedQuery(listing: seq<DocId>, store: Store, query: string)
    ensures var documents := Candidates(InvertedIndex(listing, store), query);
      && |documents| <= |listing|
      && (documents != [] ==> ComputeIdf(|listing|, |documents|).quotient >= 1)
  {
    var documents := Candidates(InvertedIndex(listing, store), query);
    if documents != [] {
      PostingsFollowListing(listing, store, query);
      SubsequenceLength(documents, listing);
      QuotientAtLeastOne(|listing|, |documents|);
    }
  }

  /** At most as many candidates as files leaves a quotient of at least 1. */
  lemma QuotientAtLeastOne(totalDocuments: nat, size: nat)
    requires 0 < size <= totalDocuments
    ensures ComputeIdf(totalDocuments, size).quotient >= 1
  {
  }

  /** ln(total / size) is positive, and the scores follow the term
      frequencies, exactly when there are at least twice as many files as
      candidates. */
  lemma IdfPositive(totalDocuments: nat, size: nat)
    requires size > 0
    ensures ComputeIdf(totalDocuments, size).quotient >= 2 <==> 2 * size <= totalDocuments
  {
    var q := ComputeIdf(totalDocuments, size).quotient;
    if q >= 2 {
      MultiplyMonotone(2, q, size);
    } else if 2 * size <= totalDocuments {
      MultiplyMonotone(q + 1, 2, size);
      assert false;
    }
  }

  /** What one pass prints: min(5, size) pairs drawn from the scored
      candidates, each a candidate with its weighted term frequency, in
      non-increasing score, and no candidate left
      out scores above one listed; then the number of candidates. */
  lemma AnswerShape(index: Index, store: Store, query: string, totalDocuments: nat)
    ensures var r := Answer(index, store, query, totalDocuments);
      var documents := Candidates(index, query);
      var idf := ComputeIdf(totalDocuments, |documents|);
      var pairs := ScoredPairs(documents, store, query, idf);
      && |r.listed| == r.shown == Min(Limit, |documents|)
      && r.outOf == |documents|
      && Descending(r.listed)
      && multiset(r.listed) <= multiset(pairs)
      && (forall l :: l in r.listed ==> l.file in documents && l.score == Weighted(TermFrequency(store, l.file, query), idf))
      && (forall p, l :: p in multiset(pairs) - multiset(r.listed) && l in r.listed ==> p.score <= l.score)
  {
    var documents := Candidates(index, query);
    var idf := ComputeIdf(totalDocuments, |documents|);
    var pairs := ScoredPairs(documents, store, query, idf);
    var m := Min(Limit, |pairs|);
    RankedPrefix(pairs, m);
    var listed := Rank(pairs)[..m];
    forall l | l in listed
      ensures l.file in documents && l.score == Weighted(TermFrequency(store, l.file, query), idf)
    {
      assert l in multiset(listed);
      ScoredPairOf(documents, store, query, idf, l);
    }
  }

  /** Each scored pair is a candidate with its weighted term frequency. */
  lemma ScoredPairOf(documents: seq<DocId>, store: Store, query: string, idf: Idf, l: Pair)
    requires l in multiset(ScoredPairs(documents, store, query, idf))
    ensures l.file in documents && l.score == Weighted(TermFrequency(store, l.file, query), idf)
  {
    var pairs := ScoredPairs(documents, store, query, idf);
    var i :| 0 <= i < |pairs| && pairs[i] == l;
  }

  /** When ln(total / size) is not positive (fewer than twice as many files
      as candidates) every score is 0 and the ranking is the posting list
      reversed: the candidates indexed last are printed first. */
  lemma FlatScoresReverse(index: Index, store: Store, query: string, totalDocuments: nat)
    requires totalDocuments < 2 * |Candidates(index, query)|
    ensures var documents := Candidates(index, query);
      var pairs := ScoredPairs(documents, store, query, ComputeIdf(totalDocuments, |documents|));
      && (forall i :: 0 <= i < |pairs| ==> pairs[i].score == 0)
      && Answer(index, store, query, totalDocuments).listed == Reverse(pairs)[..Min(Limit, |documents|)]
  {
    var documents := Candidates(index, query);
    var idf := ComputeIdf(totalDocuments, |documents|);
    IdfPositive(totalDocuments, |documents|);
    RankOfTies(ScoredPairs(documents, store, query, idf), 0);
  }
}
