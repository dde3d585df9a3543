/** createInvertedIndex: every readable document of the directory listing is
    read line by line, each line is tokenised, and the document is appended to
    the posting list of each of its terms unless it is already there. */
module Indexer {
  import opened Tokenizer

  /** A document is identified by its path, as java.io.File is. */
  type DocId = string

  /** The files as the program can read them: each readable file with its
      lines. A file missing from the store cannot be opened. */
  type Store = map<DocId, seq<string>>

  /** The inverted index: each term with its posting list. */
  type Index = map<string, seq<DocId>>

  predicate NoDuplicates<T(==)>(s: seq<T>) {
    forall i, j :: 0 <= i < j < |s| ==> s[i] != s[j]
  }

  /** a can be obtained from b by deleting elements: a keeps b's order. */
  predicate IsSubsequence<T(==)>(a: seq<T>, b: seq<T>)
    decreases |b|
  {
    a == [] ||
    (b != [] &&
     ((a[|a| - 1] == b[|b| - 1] && IsSubsequence(a[..|a| - 1], b[..|b| - 1])) ||
      IsSubsequence(a, b[..|b| - 1])))
  }

  /** s with each element kept at its first occurrence only. */
  function Dedup<T(==,!new)>(s: seq<T>): (r: seq<T>)
    ensures NoDuplicates(r)
  {
    if s == [] then []
    else
      var prefix := Dedup(s[..|s| - 1]);
      var x := s[|s| - 1];
      if x in prefix then prefix else prefix + [x]
  }

  /** The elements of a sequence of terms. */
  function SetOf(s: seq<string>): set<string> {
    set t | t in s
  }

  /** Deduplication keeps every element, and adds none. */
  lemma {:induction false} DedupMembership<T(!new)>(s: seq<T>)
    ensures forall x :: x in Dedup(s) <==> x in s
  {
    if s != [] {
      DedupMembership(s[..|s| - 1]);
      assert s == s[..|s| - 1] + [s[|s| - 1]];
    }
  }

  /** The terms of one line (the indexer's tokeniser gives exactly these:
      see Tokenizer.TokenizeIsWords). */
  function LineTerms(line: string): set<string> {
    SetOf(Terms(line))
  }

  /** The union of a sequence of sets. */
  function Union(ss: seq<set<string>>): set<string> {
    if ss == [] then {} else Union(ss[..|ss| - 1]) + ss[|ss| - 1]
  }

  /** The terms of each line of a document. */
  function LineSets(lines: seq<string>): (ss: seq<set<string>>)
    ensures |ss| == |lines|
  {
    seq(|lines|, i requires 0 <= i < |lines| => LineTerms(lines[i]))
  }

  /** The terms of a document's lines. */
  function TermsOf(lines: seq<string>): set<string> {
    Union(LineSets(lines))
  }

  /** The terms of a document: those of its lines when it can be read, none otherwise. */
  function DocTerms(store: Store, d: DocId): set<string> {
    if d in store then TermsOf(store[d]) else {}
  }

  /** The terms of each document of a listing. */
  function DocSets(listing: seq<DocId>, store: Store): (ss: seq<set<string>>)
    ensures |ss| == |listing|
  {
    seq(|listing|, i requires 0 <= i < |listing| => DocTerms(store, listing[i]))
  }

  /** The terms of the readable documents of a listing. */
  function AllTerms(listing: seq<DocId>, store: Store): set<string> {
    Union(DocSets(listing, store))
  }

  /** The documents of ds whose term set in ss has t, in order. */
  function Select(ds: seq<DocId>, ss: seq<set<string>>, t: string): seq<DocId>
    requires |ds| == |ss|
  {
    if ds == [] then []
    else Select(ds[..|ds| - 1], ss[..|ss| - 1], t) + Mark(t in ss[|ss| - 1], ds[|ds| - 1])
  }

  /** The readable documents of a listing that contain t, in listing order. */
  function Containing(listing: seq<DocId>, store: Store, t: string): seq<DocId> {
    Select(listing, DocSets(listing, store), t)
  }

  /** [d] when b holds, else []. */
  function Mark(b: bool, d: DocId): seq<DocId> {
    if b then [d] else []
  }

  /** The index that createInvertedIndex returns: each term of the readable
      listed documents, with the documents containing it in listing order,
      each once. */
  ghost function InvertedIndex(listing: seq<DocId>, store: Store): (index: Index)
    ensures index.Keys == AllTerms(listing, store)
  {
    map t | t in AllTerms(listing, store) :: Dedup(Containing(listing, store, t))
  }

  /** The posting list of term once d has been added: created empty when
      absent, and d appended unless it is already on it. */
  function AddPosting(index: Index, term: string, d: DocId): seq<DocId> {
    var posting := if term in index then index[term] else [];
    if d in posting then posting else posting + [d]
  }

  /** result is index with d added to the posting list of every term in
      terms (a list created for a new term) and every other list unchanged. */
  ghost predicate AddedUnder(index: Index, result: Index, d: DocId, terms: set<string>) {
    && result.Keys == index.Keys + terms
    && forall t :: t in result ==> result[t] == if t in terms then AddPosting(index, t, d) else index[t]
  }

  /** createInvertedIndex: every readable document of the listing, in
      listing order, is added under each of its terms. */
  method BuildIndex(listing: seq<DocId>, store: Store) returns (index: Index)
    ensures index == InvertedIndex(listing, store)
    ensures index.Keys == AllTerms(listing, store)
    ensures forall t :: t in index ==> NoDuplicates(index[t]) && index[t] != []
  {
    index := map[];
    for i := 0 to |listing|
      invariant index == InvertedIndex(listing[..i], store)
    {
      var document := listing[i];
      ghost var before := index;
      if document in store {
        index := AddDocument(index, document, store[document]);
      }
      NextDocument(listing, i, store, before, index);
    }
    assert listing[..|listing|] == listing;
    FinishIndex(listing, store, index);
  }

  /** The reading of one document: each line is tokenised and the document
      is added under each of its terms. */
  method AddDocument(index: Index, document: DocId, lines: seq<string>) returns (result: Index)
    ensures AddedUnder(index, result, document, TermsOf(lines))
  {
    result := index;
    var j := 0;
    while j < |lines|
      invariant 0 <= j <= |lines|
      invariant AddedUnder(index, result, document, TermsOf(lines[..j]))
    {
      var terms := TokenizeForIndex(lines[j]);
      TokenizeIsWords(lines[j]);
      result := AddTerms(index, result, document, TermsOf(lines[..j]), terms);
      NextLine(lines, j);
      j := j + 1;
    }
    assert lines[..|lines|] == lines;
  }

  /** The inner loop over the terms of one line: create the posting list of
      each term if absent and append the document unless it is already
      there. */
  method AddTerms(index: Index, before: Index, document: DocId, ghost seen: set<string>, terms: seq<string>)
    returns (result: Index)
    requires AddedUnder(index, before, document, seen)
    ensures AddedUnder(index, result, document, seen + SetOf(terms))
  {
    result := before;
    ghost var added := seen;
    SetOfPrefix(terms, 0);
    for k := 0 to |terms|
      invariant added == seen + SetOf(terms[..k])
      invariant AddedUnder(index, result, document, added)
    {
      var term := terms[k];
      ghost var previous := result;
      var posting := if term in result then result[term] else [];
      if document !in posting {
        posting := posting + [document];
      }
      result := result[term := posting];
      AddTermStep(index, previous, document, added, term);
      added := added + {term};
      SetOfPrefix(terms, k);
    }
  }

  /** Once every document is done, each posting list is non-empty and has no repeats. */
  lemma FinishIndex(listing: seq<DocId>, store: Store, index: Index)
    requires index == InvertedIndex(listing, store)
    ensures forall t :: t in index ==> NoDuplicates(index[t]) && index[t] != []
  {
    forall t | t in index
      ensures NoDuplicates(index[t]) && index[t] != []
    {
      SelectNonEmpty(listing, DocSets(listing, store), t);
      DedupMembership(Containing(listing, store, t));
      assert Containing(listing, store, t)[0] in Dedup(Containing(listing, store, t));
    }
  }

  lemma SetOfPrefix(s: seq<string>, k: nat)
    requires k <= |s|
    ensures SetOf(s[..0]) == {}
    ensures k < |s| ==> SetOf(s[..k + 1]) == SetOf(s[..k]) + {s[k]}
    ensures SetOf(s[..|s|]) == SetOf(s)
  {
    assert s[..|s|] == s;
    if k < |s| {
      assert s[..k + 1] == s[..k] + [s[k]];
    }
  }

  lemma NextLine(lines: seq<string>, j: nat)
    requires j < |lines|
    ensures TermsOf(lines[..j + 1]) == TermsOf(lines[..j]) + LineTerms(lines[j])
  {
    var ss := LineSets(lines[..j + 1]);
    assert ss[..j] == LineSets(lines[..j]);
    assert ss[j] == LineTerms(lines[j]);
  }

  /** One pass of the innermost loop adds the document under one more term. */
  lemma AddTermStep(index: Index, before: Index, d: DocId, seen: set<string>, term: string)
    requires AddedUnder(index, before, d, seen)
    ensures AddedUnder(index, before[term := AddPosting(before, term, d)], d, seen + {term})
  {
    var after := before[term := AddPosting(before, term, d)];
    assert after.Keys == before.Keys + {term};
    assert after.Keys == index.Keys + (seen + {term});
    AddTermPostings(index, before, d, seen, term);
  }

  lemma AddTermPostings(index: Index, before: Index, d: DocId, seen: set<string>, term: string)
    requires AddedUnder(index, before, d, seen)
    ensures var after := before[term := AddPosting(before, term, d)];
      forall t :: t in after ==> after[t] == if t in seen + {term} then AddPosting(index, t, d) else index[t]
  {
    var after := before[term := AddPosting(before, term, d)];
    if term in seen {
      assert d in before[term];
    } else if term in before {
      assert before[term] == index[term];
    }
    assert AddPosting(before, term, d) == AddPosting(index, term, d);
    forall t | t in after
      ensures after[t] == if t in seen + {term} then AddPosting(index, t, d) else index[t]
    {
      if t != term {
        assert (t in seen + {term}) == (t in seen);
      }
    }
  }

  /** Adding the document under its terms extends the index of the listing
      before it to the index of the listing up to it. */
  lemma NextDocument(listing: seq<DocId>, i: nat, store: Store, before: Index, index: Index)
    requires i < |listing|
    requires before == InvertedIndex(listing[..i], store)
    requires listing[i] in store ==> AddedUnder(before, index, listing[i], TermsOf(store[listing[i]]))
    requires listing[i] !in store ==> index == before
    ensures index == InvertedIndex(listing[..i + 1], store)
  {
    var d := listing[i];
    var prefix := listing[..i];
    var next := InvertedIndex(listing[..i + 1], store);
    var terms := DocTerms(store, d);
    NextListing(listing, store, i);
    assert index.Keys == next.Keys;
    forall t | t in index
      ensures index[t] == next[t]
    {
      var c := Containing(prefix, store, t);
      NextListingContaining(listing, store, i, t);
      assert next[t] == Dedup(c + Mark(t in terms, d));
      if t in terms {
        if t !in before {
          SelectOutside(prefix, DocSets(prefix, store), t);
        }
        PostingStep(before, t, d, c);
        assert index[t] == AddPosting(before, t, d);
      } else {
        assert c + Mark(t in terms, d) == c;
        assert index[t] == before[t];
      }
    }
    MapsAgree(index, next);
  }

  /** The term sets of a listing one document longer. */
  lemma DocSetsStep(listing: seq<DocId>, store: Store, i: nat)
    requires i < |listing|
    ensures DocSets(listing[..i + 1], store) == DocSets(listing[..i], store) + [DocTerms(store, listing[i])]
  {
  }

  /** One more document adds its terms to the terms of the listing. */
  lemma NextListing(listing: seq<DocId>, store: Store, i: nat)
    requires i < |listing|
    ensures AllTerms(listing[..i + 1], store) == AllTerms(listing[..i], store) + DocTerms(store, listing[i])
  {
    var ss := DocSets(listing[..i + 1], store);
    DocSetsStep(listing, store, i);
    assert ss[..i] == DocSets(listing[..i], store);
  }

  /** One more document is appended to the documents containing t when it has t. */
  lemma NextListingContaining(listing: seq<DocId>, store: Store, i: nat, t: string)
    requires i < |listing|
    ensures Containing(listing[..i + 1], store, t) ==
      Containing(listing[..i], store, t) + Mark(t in DocTerms(store, listing[i]), listing[i])
  {
    var ss := DocSets(listing[..i + 1], store);
    DocSetsStep(listing, store, i);
    assert ss[..i] == DocSets(listing[..i], store);
    assert listing[..i + 1][..i] == listing[..i];
  }

  lemma MapsAgree(m: Index, n: Index)
    requires m.Keys == n.Keys
    requires forall t :: t in m ==> m[t] == n[t]
    ensures m == n
  {
  }

  /** The posting list after adding d is the deduplicated list of the
      documents before it, followed by d. */
  lemma PostingStep(before: Index, term: string, d: DocId, c: seq<DocId>)
    requires term in before ==> before[term] == Dedup(c)
    requires term !in before ==> c == []
    ensures AddPosting(before, term, d) == Dedup(c + Mark(true, d))
  {
    DedupAppend(c, d);
    if term !in before {
      DedupSingle(d);
      assert c + [d] == [d];
    }
  }

  lemma DedupSingle<T(!new)>(x: T)
    ensures Dedup([x]) == [x]
  {
    assert [x][..0] == [];
  }

  /** Deduplicating after an append keeps the new element only when it is new. */
  lemma DedupAppend<T(!new)>(s: seq<T>, x: T)
    ensures Dedup(s + [x]) == if x in Dedup(s) then Dedup(s) else Dedup(s) + [x]
  {
    assert (s + [x])[..|s|] == s;
  }

  lemma {:induction false} SelectOutside(ds: seq<DocId>, ss: seq<set<string>>, t: string)
    requires |ds| == |ss| && t !in Union(ss)
    ensures Select(ds, ss, t) == []
  {
    if ds != [] {
      SelectOutside(ds[..|ds| - 1], ss[..|ss| - 1], t);
    }
  }

  lemma {:induction false} SelectNonEmpty(ds: seq<DocId>, ss: seq<set<string>>, t: string)
    requires |ds| == |ss| && t in Union(ss)
    ensures Select(ds, ss, t) != []
  {
    var p, q := ds[..|ds| - 1], ss[..|ss| - 1];
    if t in Union(q) {
      SelectNonEmpty(p, q, t);
    }
  }

  // ---------------------------------------------------------------------------
  // Soundness, completeness and order of the index.

  /** A term is among the terms of a document exactly when one of its lines has it. */
  lemma TermsOfMembership(lines: seq<string>, t: string)
    ensures t in TermsOf(lines) <==> exists i :: 0 <= i < |lines| && t in Terms(lines[i])
  {
    var ss := LineSets(lines);
    if t in TermsOf(lines) {
      var i := UnionWitness(ss, t);
      assert ss[i] == LineTerms(lines[i]);
    }
    forall i | 0 <= i < |lines| && t in Terms(lines[i])
      ensures t in TermsOf(lines)
    {
      assert ss[i] == LineTerms(lines[i]);
      UnionIncludes(ss, i, t);
    }
  }

  lemma {:induction false} UnionWitness(ss: seq<set<string>>, t: string) returns (i: nat)
    requires t in Union(ss)
    ensures i < |ss| && t in ss[i]
  {
    var p := ss[..|ss| - 1];
    if t in Union(p) {
      i := UnionWitness(p, t);
    } else {
      i := |ss| - 1;
    }
  }

  lemma {:induction false} UnionIncludes(ss: seq<set<string>>, i: nat, t: string)
    requires i < |ss| && t in ss[i]
    ensures t in Union(ss)
  {
    var p := ss[..|ss| - 1];
    if i < |p| {
      UnionIncludes(p, i, t);
    }
  }

  /** The keys of the index are exactly the terms of the readable listed documents. */
  lemma AllTermsMembership(listing: seq<DocId>, store: Store, t: string)
    ensures t in AllTerms(listing, store) <==> exists d :: d in listing && d in store && t in TermsOf(store[d])
  {
    var ss := DocSets(listing, store);
    if t in AllTerms(listing, store) {
      var i := UnionWitness(ss, t);
      assert ss[i] == DocTerms(store, listing[i]);
    }
    forall d | d in listing && d in store && t in TermsOf(store[d])
      ensures t in AllTerms(listing, store)
    {
      var i :| 0 <= i < |listing| && listing[i] == d;
      assert ss[i] == DocTerms(store, d);
      UnionIncludes(ss, i, t);
    }
  }

  lemma ContainingMembership(listing: seq<DocId>, store: Store, t: string, x: DocId)
    ensures x in Containing(listing, store, t) <==> x in listing && x in store && t in TermsOf(store[x])
  {
    var ss := DocSets(listing, store);
    if x in Containing(listing, store, t) {
      var i := SelectWitness(listing, ss, t, x);
      assert ss[i] == DocTerms(store, x);
    }
    if x in listing && x in store && t in TermsOf(store[x]) {
      var i :| 0 <= i < |listing| && listing[i] == x;
      assert ss[i] == DocTerms(store, x);
      SelectIncludes(listing, ss, t, i);
    }
  }

  lemma {:induction false} SelectWitness(ds: seq<DocId>, ss: seq<set<string>>, t: string, x: DocId) returns (i: nat)
    requires |ds| == |ss| && x in Select(ds, ss, t)
    ensures i < |ds| && ds[i] == x && t in ss[i]
  {
    var p, q := ds[..|ds| - 1], ss[..|ss| - 1];
    if x in Select(p, q, t) {
      i := SelectWitness(p, q, t, x);
    } else {
      i := |ds| - 1;
    }
  }

  lemma {:induction false} SelectIncludes(ds: seq<DocId>, ss: seq<set<string>>, t: string, i: nat)
    requires |ds| == |ss| && i < |ds| && t in ss[i]
    ensures ds[i] in Select(ds, ss, t)
  {
    var p, q := ds[..|ds| - 1], ss[..|ss| - 1];
    if i < |p| {
      SelectIncludes(p, q, t, i);
    }
  }

  /** Soundness and completeness: a document is on the posting list of t
      exactly when it is listed, readable, and one of its lines has the term t. */
  lemma PostingMembership(listing: seq<DocId>, store: Store, t: string, x: DocId)
    ensures x in Dedup(Containing(listing, store, t)) <==>
      x in listing && x in store && exists i :: 0 <= i < |store[x]| && t in Terms(store[x][i])
  {
    ContainingMembership(listing, store, t, x);
    DedupMembership(Containing(listing, store, t));
    if x in store {
      TermsOfMembership(store[x], t);
    }
  }

  lemma {:induction false} SubsequenceOfItself<T>(s: seq<T>)
    ensures IsSubsequence(s, s)
  {
    if s != [] {
      SubsequenceOfItself(s[..|s| - 1]);
    }
  }

  lemma {:induction false} SubsequenceTransitive<T>(a: seq<T>, b: seq<T>, c: seq<T>)
    requires IsSubsequence(a, b) && IsSubsequence(b, c)
    ensures IsSubsequence(a, c)
    decreases |c|
  {
    if a != [] {
      assert b != [] && c != [];
      var a', b', c' := a[..|a| - 1], b[..|b| - 1], c[..|c| - 1];
      if b[|b| - 1] == c[|c| - 1] && IsSubsequence(b', c') {
        if a[|a| - 1] == b[|b| - 1] && IsSubsequence(a', b') {
          SubsequenceTransitive(a', b', c');
        } else {
          SubsequenceTransitive(a, b', c');
        }
      } else {
        SubsequenceTransitive(a, b, c');
      }
    }
  }

  lemma {:induction false} DedupIsSubsequence<T(!new)>(s: seq<T>)
    ensures IsSubsequence(Dedup(s), s)
  {
    if s != [] {
      var p := s[..|s| - 1];
      DedupIsSubsequence(p);
      var d := Dedup(p);
      if s[|s| - 1] in d {
        assert IsSubsequence(d, s);
      } else {
        assert (d + [s[|s| - 1]])[..|d|] == d;
      }
    }
  }

  lemma {:induction false} SelectIsSubsequence(ds: seq<DocId>, ss: seq<set<string>>, t: string)
    requires |ds| == |ss|
    ensures IsSubsequence(Select(ds, ss, t), ds)
  {
    if ds != [] {
      var p, q, d := ds[..|ds| - 1], ss[..|ss| - 1], ds[|ds| - 1];
      SelectIsSubsequence(p, q, t);
      SubsequenceMark(Select(p, q, t), p, d, t in ss[|ss| - 1]);
      assert ds == p + [d];
    }
  }

  lemma SubsequenceMark(c: seq<DocId>, p: seq<DocId>, d: DocId, b: bool)
    requires IsSubsequence(c, p)
    ensures IsSubsequence(c + Mark(b, d), p + [d])
  {
    SubsequenceExtend(c, p, d);
    if !b {
      assert c + Mark(b, d) == c;
    }
  }

  lemma SubsequenceExtend<T>(a: seq<T>, b: seq<T>, x: T)
    requires IsSubsequence(a, b)
    ensures IsSubsequence(a + [x], b + [x])
    ensures IsSubsequence(a, b + [x])
  {
    assert (a + [x])[..|a|] == a;
    assert (b + [x])[..|b|] == b;
  }

  lemma {:induction false} SubsequenceLength<T>(a: seq<T>, b: seq<T>)
    requires IsSubsequence(a, b)
    ensures |a| <= |b|
    decreases |b|
  {
    if a != [] {
      if a[|a| - 1] == b[|b| - 1] && IsSubsequence(a[..|a| - 1], b[..|b| - 1]) {
        SubsequenceLength(a[..|a| - 1], b[..|b| - 1]);
      } else {
        SubsequenceLength(a, b[..|b| - 1]);
      }
    }
  }

  /** Every posting list keeps the documents in listing order, without repeats. */
  lemma PostingsFollowListing(listing: seq<DocId>, store: Store, t: string)
    ensures IsSubsequence(Dedup(Containing(listing, store, t)), listing)
    ensures NoDuplicates(Dedup(Containing(listing, store, t)))
  {
    DedupIsSubsequence(Containing(listing, store, t));
    SelectIsSubsequence(listing, DocSets(listing, store), t);
    SubsequenceTransitive(Dedup(Containing(listing, store, t)), Containing(listing, store, t), listing);
  }

  lemma {:induction false} DedupOfDistinct<T(!new)>(s: seq<T>)
    requires NoDuplicates(s)
    ensures Dedup(s) == s
  {
    if s != [] {
      var p := s[..|s| - 1];
      DedupOfDistinct(p);
      assert s[|s| - 1] !in p;
      assert s == p + [s[|s| - 1]];
    }
  }

  lemma {:induction false} SelectOfDistinct(ds: seq<DocId>, ss: seq<set<string>>, t: string)
    requires |ds| == |ss| && NoDuplicates(ds)
    ensures NoDuplicates(Select(ds, ss, t))
  {
    if ds != [] {
      var p, q, d := ds[..|ds| - 1], ss[..|ss| - 1], ds[|ds| - 1];
      SelectOfDistinct(p, q, t);
      if d in Select(p, q, t) {
        var i := SelectWitness(p, q, t, d);
        assert false;
      }
    }
  }

  /** For a listing without repeats (as a directory listing is), the posting
      list of t is exactly the readable listed documents that contain t. */
  lemma PostingsOfDistinctListing(listing: seq<DocId>, store: Store, t: string)
    requires NoDuplicates(listing)
    ensures Dedup(Containing(listing, store, t)) == Containing(listing, store, t)
  {
    SelectOfDistinct(listing, DocSets(listing, store), t);
    DedupOfDistinct(Containing(listing, store, t));
  }

  /** Every key is a word over [a-z] or the empty term. */
  lemma KeysAreTokens(listing: seq<DocId>, store: Store, t: string)
    requires t in AllTerms(listing, store)
    ensures t == "" || IsWord(t)
  {
    AllTermsMembership(listing, store, t);
    var d :| d in listing && d in store && t in TermsOf(store[d]);
    TermsOfMembership(store[d], t);
    var i :| 0 <= i < |store[d]| && t in Terms(store[d][i]);
    TermsShape(store[d][i]);
  }

  /** The empty term is a key exactly when some readable listed document has
      a line without ASCII letters (a blank line, say). */
  lemma EmptyTermIsKey(listing: seq<DocId>, store: Store)
    ensures "" in AllTerms(listing, store) <==>
      exists d, i :: d in listing && d in store && 0 <= i < |store[d]| && !HasAsciiLetter(store[d][i])
  {
    AllTermsMembership(listing, store, "");
    if "" in AllTerms(listing, store) {
      var d :| d in listing && d in store && "" in TermsOf(store[d]);
      TermsOfMembership(store[d], "");
      var i :| 0 <= i < |store[d]| && "" in Terms(store[d][i]);
      TermsShape(store[d][i]);
    }
    if exists d, i :: d in listing && d in store && 0 <= i < |store[d]| && !HasAsciiLetter(store[d][i]) {
      var d, i :| d in listing && d in store && 0 <= i < |store[d]| && !HasAsciiLetter(store[d][i]);
      TermsShape(store[d][i]);
      assert "" in Terms(store[d][i]);
      TermsOfMembership(store[d], "");
    }
  }
}
