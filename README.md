# TF-IDF demo: indexing and ranking core

This project models the indexing and ranking pipeline of the single-class Java
program `src/Main.java`. The program reads a directory, builds an inverted
index from every term to the files containing it, and then answers
single-term queries. For each query it lists at most five files ordered by
term frequency times inverse document frequency.

The model has four modules, following the four stages of the program:

- `Tokenizer` (tokenizer.dfy) models the line normalisation shared by the
  indexer and the scorer: `toLowerCase().replaceAll("[^a-z]+", " ").trim()`
  followed by `split(" ")` or `split("\\s")`. Each step is a pure function:
  `LowerCase`, `ReplaceSeparatorRuns`, `Trim` and `Split`. Both tokenisers
  are proved equal to one reference definition, `Terms`. `Terms` gives the
  maximal runs of `a`–`z` in the lower-cased line, or the single empty token
  `""` when the line has no ASCII letter.
- `Indexer` (indexer.dfy) models `createInvertedIndex` as the imperative
  method `BuildIndex`. Its nested loops (`AddDocument`, then `AddTerms`)
  update a `map<string, seq<DocId>>`. It is proved equal to the declarative
  index `InvertedIndex`, where each term of the readable listed files maps
  to the files containing it, in listing order and without repeats.
  Soundness, completeness, absence of duplicates and listing order are then
  proved about `InvertedIndex`.
- `Ranking` (ranking.dfy) models `Pair.compareTo`, `Collections.sort` and
  `Collections.reverse`. The sort is a stable insertion sort. It is proved to
  be the only ascending rearrangement that keeps equal-score pairs in their
  original order.
- `QueryEngine` (query_engine.dfy) models the body of the query loop: the
  posting-list lookup, the idf, and the counting loops that fill the
  `tfidfs` array (`ScoreCandidates`, `CountTerms`, `CountLine`). It also
  covers building the pairs, ranking them, and the printing loop
  (`TopResults`). `RunQuery` is proved equal to the function `Answer`.
  Lemmas then state what `Answer` prints against the index `BuildIndex`
  produces.

The file system is a value. `listing: seq<DocId>` is the order in which
`listFiles` returns the entries. `store: map<DocId, seq<string>>` holds the
lines of each file that can be opened. A file missing from `store` is one
whose `FileReader` throws: the indexer skips it, and the scorer gives it a
term frequency of 0.

Scores are integer order keys. The program stores the double
`tf * Math.log(total / size)`. Its ordering under `compareTo` depends on the
quotient `q = total / size` (Java integer division):

- If `q >= 2`, then `ln q > 0`, and the key is `tf` itself.
- If `q == 1`, every product is `0.0`.
- If `q == 0`, every product is `-Infinity` or `NaN`, and `compareTo` finds
  these equal to one another.

In the last two cases every key is 0 (`QueryEngine.Weighted`). `Idf` keeps
the quotient symbolically: `Log(q)` stands for `ln q`.

Behaviour of the program worth noting:

- At most 5 results are listed (`Main.java` lines 88 and 95).
- The idf uses integer division. With 3 files and 2 candidates, integer
  division gives 1, not 1.5, so ln 1 = 0 and every candidate scores 0.
- The query is looked up exactly as typed. It is neither lower-cased nor
  tokenised, so a query with a capital letter, a digit or a space finds
  nothing (`UnnormalisedQueryListsNothing`).
- A line without letters is not discarded. It yields the token `""`, which
  is indexed like any other term (`EmptyTermIsKey`).
- The count of all terms (`totalTerms`) is computed but never used in the
  score.

## Model

| member | source | states |
|---|---|---|
| Tokenizer.ToLower | src/Main.java:52 | an upper-case ASCII letter becomes the lower-case letter at the same alphabet position; every other character is unchanged; so the result is in `a`–`z` exactly when the character is an ASCII letter |
| Tokenizer.LowerCase | src/Main.java:52 | the lower-cased line has the same length and lower-cases each character |
| Tokenizer.ReplaceSeparatorRuns | src/Main.java:52 | `replaceAll("[^a-z]+", " ")`; no contract of its own: characterised by `ReplaceShapeAnywhere` |
| Tokenizer.Pieces | src/Main.java:53 | the pieces between separator characters, at least one; characterised by `PiecesOfJoin` |
| Tokenizer.Normalize | src/Main.java:52 | the lower-case/replace/trim expression; no contract of its own: characterised by `NormalizeIsJoin` |
| Tokenizer.Tokenize | src/Main.java:52-53 | the scorer's tokeniser; no contract of its own: characterised by `TokenizeIsWords` and `TokenizeShape` |
| Tokenizer.TokenizeForIndex | src/Main.java:114-115 | the indexer's tokeniser; no contract of its own: characterised by `TokenizeIsWords` |
| Tokenizer.Words | src/Main.java:52 | every word of the reference tokenisation is a non-empty string over `a`–`z` |
| Tokenizer.Trim | src/Main.java:52 | the trimmed line is the slice of the line that starts right after its leading run of characters at or below U+0020 and is followed only by such characters; it neither starts nor ends with one |
| Tokenizer.TrimBlank | src/Main.java:52 | trimming a line made only of characters at or below U+0020 leaves the empty string |
| Tokenizer.Split | src/Main.java:53 | a string in which the pattern never matches (the empty string included) is returned whole, as a single piece |
| Tokenizer.DropTrailingEmpty | src/Main.java:53 | split drops only empty pieces, and only at the end |
| Tokenizer.ReplaceShapeAnywhere | src/Main.java:52 | `replaceAll("[^a-z]+", " ")` yields the words joined by single spaces, with one space in front and one behind where the line starts or ends with non-letters |
| Tokenizer.ReplaceShape | src/Main.java:52 | the same, for a line starting with a letter |
| Tokenizer.TrimAroundJoin | src/Main.java:52 | `trim` removes exactly that leading and trailing space |
| Tokenizer.NormalizeIsJoin | src/Main.java:52 | the normalised line is the words of the lower-cased line joined by single spaces |
| Tokenizer.PiecesOfJoin | src/Main.java:53 | cutting words joined by single spaces at each space, or at each `\s` character, gives back the words |
| Tokenizer.SplitJoin | src/Main.java:115 | `split(" ")` and `split("\\s")` of words joined by spaces give the words, and of the empty string give `[""]` |
| Tokenizer.TokenizeIsWords | src/Main.java:114-115 | the scorer's and the indexer's tokenisers both equal the reference `Terms`, so they agree |
| Tokenizer.LowerCaseHasLetter | src/Main.java:52 | the lower-cased line has a letter in `a`–`z` exactly when the line has an ASCII letter |
| Tokenizer.TermsShape | src/Main.java:52-53 | a line without ASCII letters gives exactly `[""]`; any other line gives only non-empty words over `a`–`z` |
| Tokenizer.TokenizeShape | src/Main.java:52-53 | the same for the tokeniser as written |
| Indexer.Dedup | src/Main.java:124-127 | appending an element only when it is absent leaves no element twice |
| Indexer.DedupMembership | src/Main.java:124-127 | the guarded append loses no element and adds none |
| Indexer.DedupIsSubsequence | src/Main.java:124-127 | the result of the guarded append is a subsequence of its input: it keeps the input's order |
| Indexer.DedupOfDistinct | src/Main.java:124-127 | the guard never fires on a list without repeats |
| Indexer.InvertedIndex | src/Main.java:99-140 | the keys of the index are exactly the terms of the readable listed files |
| Indexer.BuildIndex | src/Main.java:99-140 | the loop over the listing builds `InvertedIndex`; every posting list is non-empty and has no repeats |
| Indexer.AddDocument | src/Main.java:108-131 | reading one file adds the file to the list of each term of its lines, creating missing lists, and changes nothing else |
| Indexer.AddTerms | src/Main.java:117-128 | the loop over a line's terms adds the file under each of them and leaves the other lists unchanged |
| Indexer.AddTermStep | src/Main.java:119-127 | one step of that loop keeps the invariant of `AddTerms` |
| Indexer.AddPosting | src/Main.java:119-127 | the posting list after the create-if-absent and append-if-absent step; no contract of its own: characterised by `PostingStep` and `AddTerms` |
| Indexer.PostingStep | src/Main.java:119-127 | the create-if-absent and append-if-absent step equals deduplicating the files containing the term, then the new file |
| Indexer.NextLine | src/Main.java:112-131 | the terms of the first j+1 lines are those of the first j lines plus those of line j |
| Indexer.NextDocument | src/Main.java:106-137 | adding file i builds the index of the first i+1 files from that of the first i; an unreadable file leaves the index unchanged |
| Indexer.FinishIndex | src/Main.java:119-127 | every posting list of the finished index is non-empty and has no repeats |
| Indexer.TermsOfMembership | src/Main.java:112-131 | a term belongs to a file exactly when one of its lines has it |
| Indexer.AllTermsMembership | src/Main.java:106-131 | a term is a key exactly when some readable listed file has it |
| Indexer.ContainingMembership | src/Main.java:106-131 | a file is among those containing a term exactly when it is listed, readable, and has the term |
| Indexer.PostingMembership | src/Main.java:106-131 | soundness and completeness: a file is on the list of `t` exactly when it is listed, readable, and one of its lines has `t` |
| Indexer.PostingsFollowListing | src/Main.java:106-127 | each posting list is a subsequence of the listing, in listing order, without repeats |
| Indexer.PostingsOfDistinctListing | src/Main.java:106-127 | over a listing without repeats, a posting list is exactly the listed readable files that contain the term, in order |
| Indexer.KeysAreTokens | src/Main.java:114-122 | every key is a non-empty word over `a`–`z` or the empty term |
| Indexer.EmptyTermIsKey | src/Main.java:114-122 | `""` is a key exactly when some readable listed file has a line without ASCII letters |
| Ranking.CompareTo | src/Main.java:156-170 | the result is 1, 0 or -1, and its sign is that of the score difference |
| Ranking.CompareToIsTotalPreorder | src/Main.java:156-170 | `compareTo` is antisymmetric and transitive, and pairs comparing equal compare alike with every third pair |
| Ranking.Insert | src/Main.java:83 | insertion adds exactly one pair to the multiset |
| Ranking.InsertAscending | src/Main.java:83 | inserting into an ascending sequence keeps it ascending |
| Ranking.Sort | src/Main.java:83 | `Collections.sort` returns an ascending permutation |
| Ranking.InsertWithScore | src/Main.java:83 | insertion puts the new pair in front of the pairs with its score and keeps the order of the others |
| Ranking.SortIsStable | src/Main.java:83 | for every score, the pairs with that score keep their relative order |
| Ranking.AscendingByScoresUnique | src/Main.java:83 | two ascending sequences with the same pairs, in the same order per score, are equal |
| Ranking.SortIsTheStableSort | src/Main.java:83 | any ascending, stable rearrangement is `Sort`: the stable sort is unique |
| Ranking.Reverse | src/Main.java:84 | `Collections.reverse` puts element i at position n-1-i |
| Ranking.ReverseMultiset | src/Main.java:84 | reversing is a permutation |
| Ranking.ReverseWithScore | src/Main.java:84 | reversing reverses the order within each score |
| Ranking.Rank | src/Main.java:83-84 | `Collections.sort` then `Collections.reverse`; no contract of its own: characterised by `RankOrder`, `RankOfTies` and `RankedPrefix` |
| Ranking.RankOrder | src/Main.java:83-84 | sort then reverse gives a non-increasing permutation in which equal scores appear in reverse posting order |
| Ranking.RankOfTies | src/Main.java:83-84 | when all scores are equal, the ranking is the posting list reversed |
| Ranking.TopOfDescending | src/Main.java:86-92 | no pair after the first m of a non-increasing sequence scores above one of them |
| Ranking.PrefixOfDescending | src/Main.java:86-92 | the first m pairs of a non-increasing sequence are non-increasing, drawn from it, and no pair left out scores above one of them |
| Ranking.RankedPrefix | src/Main.java:83-92 | the first m ranked pairs are non-increasing, come from the input, and no input pair left out scores above one of them |
| QueryEngine.Candidates | src/Main.java:35-36 | the posting list of the query as typed, or empty; no contract of its own: characterised by `CandidatesHaveTheQuery` and `UnnormalisedQueryListsNothing` |
| QueryEngine.ComputeIdf | src/Main.java:40 | the idf is `Zero`, the literal 0 of line 40, exactly when there are no candidates; otherwise it is `Log(q)` with q = `total / size` rounded down, so ln 1 = 0 when q is 1 |
| QueryEngine.IdfMonotone | src/Main.java:40 | fewer candidates never give a smaller quotient |
| QueryEngine.IdfPositive | src/Main.java:40 | ln(total / size) is positive exactly when the files are at least twice the candidates |
| QueryEngine.WeightedOrder | src/Main.java:73 | with a positive logarithm, scores order exactly as term frequencies; otherwise all scores are equal |
| QueryEngine.Weighted | src/Main.java:73 | the order key of tf * idf; no contract of its own: characterised by `WeightedOrder` |
| QueryEngine.TermFrequency | src/Main.java:44-73 | the exact-match count of a readable file, 0 for an unreadable one; no contract of its own: computed by `CountTerms` and characterised by `CandidatesHaveTheQuery` |
| QueryEngine.Occurrences | src/Main.java:55-63 | the count of exact matches never exceeds the number of tokens, and is positive exactly when the query is among them |
| QueryEngine.CountLine | src/Main.java:55-63 | the loop over one line's terms adds that line's exact matches to `tf` and its term count to `totalTerms` |
| QueryEngine.NextLineTokens | src/Main.java:48-65 | the tokens of the first j+1 lines are those of the first j lines followed by those of line j |
| QueryEngine.CountTerms | src/Main.java:44-66 | after reading a file, `tf` is the number of its tokens equal to the query, `totalTerms` is the number of its tokens, and `tf <= totalTerms` |
| QueryEngine.ScoreCandidates | src/Main.java:38-81 | after both loops, pair i holds candidate i and its weighted term frequency, 0 for an unreadable file |
| QueryEngine.ScoredPairs | src/Main.java:76-81 | the candidates in posting order with their scores; no contract of its own: computed by `ScoreCandidates` and characterised by `ScoredPairOf` |
| QueryEngine.Answer | src/Main.java:35-95 | what one pass prints; no contract of its own: computed by `RunQuery` and characterised by `AnswerShape`, `CandidatesHaveTheQuery` and `FlatScoresReverse` |
| QueryEngine.TopResults | src/Main.java:86-92 | the printing loop lists exactly the first min(5, size) ranked pairs, in order |
| QueryEngine.RunQuery | src/Main.java:35-95 | one pass of the query loop produces `Answer`: the listed pairs, their number, and the number of candidates |
| QueryEngine.DocTokensMembership | src/Main.java:48-66 | a token occurs in a file exactly when one of its lines has it |
| QueryEngine.CandidatesHaveTheQuery | src/Main.java:35-36 | against the built index, a file is a candidate exactly when it is listed and its term frequency is positive: indexer and scorer agree |
| QueryEngine.UnnormalisedQueryListsNothing | src/Main.java:35-36 | a non-empty query that is not a word over `a`–`z` lists nothing: 0 of 0 |
| QueryEngine.IdfOfIndexedQuery | src/Main.java:39-40 | against the built index, there are never more candidates than files, so the quotient is at least 1 |
| QueryEngine.ScoredPairOf | src/Main.java:76-81 | every pair built is a candidate with its weighted term frequency |
| QueryEngine.AnswerShape | src/Main.java:76-95 | the listing has min(5, size) pairs, drawn (as a sub-multiset) from the scored candidate pairs, each a candidate with its weighted term frequency, in non-increasing order, and no candidate left out scores above one listed; the summary counts all candidates |
| QueryEngine.FlatScoresReverse | src/Main.java:40-84 | when ln(total / size) is not positive, every score is 0 and the listing is the reversed posting list, cut to five |

## Left out

- Console interaction (`Scanner`, `System.out`, the query loop at lines 25-31) is not modelled. One pass of the loop is `RunQuery`. Because the loop tests for `""` only at its top, the empty query is looked up and scored once before the loop ends. `RunQuery` on `""` is exactly that pass.
- Directory listing and file reading are not modelled. They become the `listing` and `store` parameters. `totalNumberOfDocuments`, which line 39 recomputes for every query, is the parameter `totalDocuments`.
- An `IOException` raised partway through a file is not modelled. The indexer would keep the terms read so far, and the scorer the count so far. A file is either readable in full or not at all.
- `Math.log` and `double` arithmetic are not modelled. Scores are the integer order keys described above. `Report.listed` gives these keys, not the printed doubles.
- QueryEngine.Weighted: for term frequencies large enough that `tf * ln q` rounds two different counts to the same double, the model keeps them apart.
- QueryEngine.CountTerms: `totalTerms` is a Java `int` (lines 44 and 62) that wraps past 2^31 - 1 tokens, and the `double` counter `tfidfs[i]` (line 59) stops growing at 2^53; the model counts in unbounded naturals, so `tf <= totalTerms` and the exact counts hold only for files below those sizes.
- Tokenizer.ToLower: the model assumes a default locale without special ASCII case rules; under a Turkish or Azeri locale `toLowerCase()` maps `'I'` to U+0131, which is outside `a`–`z`, so such a program would split `"IT"` into `["t"]` where the model gives `["it"]`.
- `toLowerCase` is modelled on ASCII only. Unicode case mappings, including ones that change a string's length, are not modelled.
- Output formatting (lines 90 and 95) and `Pair.toString` are not modelled.
- `Collections.sort` and `Collections.reverse` rearrange the `ArrayList` in place. The model computes the same sequences as values (`Sort`, `Reverse`), so aliasing of the list is not modelled.
- `List.contains` compares `File`s by path (`File.equals`). The model compares `DocId` strings, so the Windows rule that ignores case in paths is not modelled.
