/** The tokenising expression shared by the indexer and the scorer: a line is
    lower-cased, every maximal run of characters outside [a-z] is replaced by
    one space, the result is trimmed, and the trimmed line is split on single
    spaces (the scorer) or on the regular-expression class \s (the indexer).
    Characters are ASCII here: lower-casing touches only 'A'..'Z'. */
module Tokenizer {

  /** A member of the character class [a-z]. */
  predicate IsLetter(c: char) { 'a' <= c <= 'z' }

  /** An ASCII letter of either case. */
  predicate IsAsciiLetter(c: char) { 'a' <= c <= 'z' || 'A' <= c <= 'Z' }

  /** A word: a non-empty run of [a-z]. */
  predicate IsWord(w: string) { w != [] && forall i :: 0 <= i < |w| ==> IsLetter(w[i]) }

  predicate AllWords(ws: seq<string>) { forall w :: w in ws ==> IsWord(w) }

  predicate HasLetter(s: string) { exists i :: 0 <= i < |s| && IsLetter(s[i]) }

  predicate HasAsciiLetter(s: string) { exists i :: 0 <= i < |s| && IsAsciiLetter(s[i]) }

  /** Java's trim removes every character at or below U+0020. */
  predicate IsTrimmable(c: char) { c <= ' ' }

  /** The one-character patterns the program splits on: " " (the scorer) and
      "\\s" (the indexer). */
  datatype Separator = Space | Whitespace

  /** Whether c matches the pattern: \s is space, tab, newline, vertical tab,
      form feed and carriage return. */
  predicate IsSeparator(sep: Separator, c: char) {
    match sep
    case Space => c == ' '
    case Whitespace => c == ' ' || '\t' <= c <= '\r'
  }

  /** toLowerCase on one character, restricted to ASCII. */
  function ToLower(c: char): (r: char)
    ensures IsLetter(r) <==> IsAsciiLetter(c)
    ensures !('A' <= c <= 'Z') ==> r == c
    ensures 'A' <= c <= 'Z' ==> r as int - 'a' as int == c as int - 'A' as int
  {
    if 'A' <= c <= 'Z' then (c as int - 'A' as int + 'a' as int) as char else c
  }

  function LowerCase(s: string): (r: string)
    ensures |r| == |s|
    ensures forall i :: 0 <= i < |s| ==> r[i] == ToLower(s[i])
  {
    if s == [] then [] else [ToLower(s[0])] + LowerCase(s[1..])
  }

  /** The length of the leading run of characters outside [a-z]. */
  function SeparatorRunLength(s: string): (k: nat)
    ensures k <= |s|
    ensures forall i :: 0 <= i < k ==> !IsLetter(s[i])
    ensures k == |s| || IsLetter(s[k])
  {
    if s == [] || IsLetter(s[0]) then 0 else 1 + SeparatorRunLength(s[1..])
  }

  /** Drops the leading run of characters outside [a-z]. */
  function SkipSeparators(s: string): (r: string)
    ensures r == [] || IsLetter(r[0])
  {
    s[SeparatorRunLength(s)..]
  }

  /** The length of the leading run of [a-z] characters. */
  function LetterRunLength(s: string): (k: nat)
    ensures k <= |s|
    ensures forall i :: 0 <= i < k ==> IsLetter(s[i])
    ensures k == |s| || !IsLetter(s[k])
  {
    if s == [] || !IsLetter(s[0]) then 0 else 1 + LetterRunLength(s[1..])
  }

  /** The leading run of [a-z] characters. */
  function LetterRun(s: string): (w: string)
    ensures forall i :: 0 <= i < |w| ==> IsLetter(w[i])
  {
    s[..LetterRunLength(s)]
  }

  /** Reference definition of the tokens of a lower-cased line: its maximal runs of [a-z], in order. */
  function Words(s: string): (ws: seq<string>)
    ensures AllWords(ws)
    decreases |s|
  {
    var t := SkipSeparators(s);
    if t == [] then []
    else
      var w := LetterRun(t);
      assert IsWord(w);
      [w] + Words(t[|w|..])
  }

  /** replaceAll("[^a-z]+", " "): every maximal run of characters outside [a-z] becomes one space. */
  function ReplaceSeparatorRuns(s: string): string
    decreases |s|
  {
    if s == [] then []
    else if IsLetter(s[0]) then [s[0]] + ReplaceSeparatorRuns(s[1..])
    else " " + ReplaceSeparatorRuns(SkipSeparators(s[1..]))
  }

  /** The number of leading characters at or below U+0020. */
  function LeadingTrimmable(s: string): (k: nat)
    ensures k <= |s|
    ensures forall i :: 0 <= i < k ==> IsTrimmable(s[i])
    ensures k == |s| || !IsTrimmable(s[k])
  {
    if s != [] && IsTrimmable(s[0]) then 1 + LeadingTrimmable(s[1..]) else 0
  }

  /** The number of trailing characters at or below U+0020. */
  function TrailingTrimmable(s: string): (k: nat)
    ensures k <= |s|
    ensures forall i :: |s| - k <= i < |s| ==> IsTrimmable(s[i])
    ensures k == |s| || !IsTrimmable(s[|s| - k - 1])
  {
    if s != [] && IsTrimmable(s[|s| - 1]) then 1 + TrailingTrimmable(s[..|s| - 1]) else 0
  }

  /** Removes the leading characters at or below U+0020. */
  function TrimStart(s: string): (r: string)
    ensures r == [] || !IsTrimmable(r[0])
    ensures |r| <= |s| && r == s[|s| - |r|..]
    ensures forall i :: 0 <= i < |s| - |r| ==> IsTrimmable(s[i])
  {
    s[LeadingTrimmable(s)..]
  }

  /** Removes the trailing characters at or below U+0020. */
  function TrimEnd(s: string): (r: string)
    ensures r == [] || !IsTrimmable(r[|r| - 1])
    ensures r <= s
    ensures forall i :: |r| <= i < |s| ==> IsTrimmable(s[i])
  {
    s[..|s| - TrailingTrimmable(s)]
  }

  /** String.trim: the slice of s that starts after its leading characters
      at or below U+0020 and leaves out its trailing ones. */
  function Trim(s: string): (r: string)
    ensures r == [] || (!IsTrimmable(r[0]) && !IsTrimmable(r[|r| - 1]))
    ensures var k := LeadingTrimmable(s);
      && k + |r| <= |s| && r == s[k..k + |r|]
      && (forall i :: k + |r| <= i < |s| ==> IsTrimmable(s[i]))
  {
    var t := TrimStart(s);
    TrimEndSlice(s, LeadingTrimmable(s), t);
    TrimEnd(t)
  }

  /** Trimming the end of a suffix of s cuts s at the same place. */
  lemma TrimEndSlice(s: string, k: nat, t: string)
    requires k <= |s| && t == s[k..]
    ensures k + |TrimEnd(t)| <= |s| && TrimEnd(t) == s[k..k + |TrimEnd(t)|]
    ensures forall i :: k + |TrimEnd(t)| <= i < |s| ==> IsTrimmable(s[i])
  {
    var r := TrimEnd(t);
    forall i | k + |r| <= i < |s|
      ensures IsTrimmable(s[i])
    {
      assert s[i] == t[i - k];
    }
  }

  /** The pieces of s between separator characters: always one more than the separators. */
  function Pieces(s: string, sep: Separator): (ps: seq<string>)
    ensures |ps| >= 1
  {
    if s == [] then [[]]
    else
      var rest := Pieces(s[1..], sep);
      if IsSeparator(sep, s[0]) then [[]] + rest else [[s[0]] + rest[0]] + rest[1..]
  }

  /** Drops the empty strings at the end of a piece list. */
  function DropTrailingEmpty(ps: seq<string>): (r: seq<string>)
    ensures r <= ps
    ensures r == [] || r[|r| - 1] != []
    ensures forall k :: |r| <= k < |ps| ==> ps[k] == []
  {
    if ps != [] && ps[|ps| - 1] == [] then DropTrailingEmpty(ps[..|ps| - 1]) else ps
  }

  predicate NoSeparator(s: string, sep: Separator) {
    forall i :: 0 <= i < |s| ==> !IsSeparator(sep, s[i])
  }

  /** String.split with a one-character pattern: a string the pattern never
      matches is returned whole (so "" gives [""]); otherwise the pieces between
      matches, with the trailing empty pieces removed. */
  function Split(s: string, sep: Separator): (r: seq<string>)
    ensures NoSeparator(s, sep) ==> r == [s]
  {
    if NoSeparator(s, sep) then [s] else DropTrailingEmpty(Pieces(s, sep))
  }

  /** toLowerCase().replaceAll("[^a-z]+", " ").trim() */
  function Normalize(line: string): string {
    Trim(ReplaceSeparatorRuns(LowerCase(line)))
  }

  /** The tokens of a line as the scorer splits it, on " ". */
  function Tokenize(line: string): seq<string> {
    Split(Normalize(line), Space)
  }

  /** The tokens of a line as the indexer splits it, on "\\s". */
  function TokenizeForIndex(line: string): seq<string> {
    Split(Normalize(line), Whitespace)
  }

  /** Reference definition of the tokens of a line: the maximal runs of [a-z]
      of the lower-cased line, or the single empty token when there are none. */
  function Terms(line: string): seq<string> {
    var ws := Words(LowerCase(line));
    if ws == [] then [""] else ws
  }

  /** Words joined by single spaces. */
  function Join(ws: seq<string>): string {
    if ws == [] then []
    else if |ws| == 1 then ws[0]
    else ws[0] + " " + Join(ws[1..])
  }

  // ---------------------------------------------------------------------------
  // The tokenisers equal the reference definition.

  /** The space left by a trailing run of separators. */
  function Tail(t: string): string {
    if t != [] && !IsLetter(t[|t| - 1]) then " " else ""
  }

  /** The space left by a leading run of separators. */
  function Head(s: string): string {
    if s != [] && !IsLetter(s[0]) then " " else ""
  }

  lemma {:induction false} ReplaceLetterPrefix(t: string, k: nat)
    requires k <= |t|
    requires forall i :: 0 <= i < k ==> IsLetter(t[i])
    ensures ReplaceSeparatorRuns(t) == t[..k] + ReplaceSeparatorRuns(t[k..])
  {
    if k > 0 {
      var u := t[1..];
      forall i | 0 <= i < k - 1
        ensures IsLetter(u[i])
      {
        assert u[i] == t[i + 1];
      }
      ReplaceLetterPrefix(u, k - 1);
      assert u[k - 1..] == t[k..];
      ConsAppend(t[0], u[..k - 1], ReplaceSeparatorRuns(t[k..]), t[..k]);
    } else {
      assert t[..0] + ReplaceSeparatorRuns(t[0..]) == ReplaceSeparatorRuns(t);
    }
  }

  /** Sequence step kept separate so the proofs using it stay cheap. */
  lemma ConsAppend(x: char, b: string, c: string, s: string)
    requires s == [x] + b
    ensures [x] + (b + c) == s + c
  {
  }

  lemma {:induction false} JoinShape(ws: seq<string>)
    requires ws != []
    requires AllWords(ws)
    ensures Join(ws) != [] && IsLetter(Join(ws)[0]) && IsLetter(Join(ws)[|Join(ws)| - 1])
    ensures forall i :: 0 <= i < |Join(ws)| ==> IsLetter(Join(ws)[i]) || Join(ws)[i] == ' '
  {
    if |ws| > 1 {
      JoinShape(ws[1..]);
      var j := Join(ws[1..]);
      assert Join(ws) == ws[0] + " " + j;
      assert IsWord(ws[0]);
      forall i | 0 <= i < |Join(ws)|
        ensures IsLetter(Join(ws)[i]) || Join(ws)[i] == ' '
      {
        if i < |ws[0]| {
          assert Join(ws)[i] == ws[0][i];
        } else if i > |ws[0]| {
          assert Join(ws)[i] == j[i - |ws[0]| - 1];
        }
      }
    } else {
      assert IsWord(ws[0]);
    }
  }

  /** A line that starts with a letter: its first word, then the rest. */
  lemma StepOverWord(t: string)
    requires t != [] && IsLetter(t[0])
    ensures var w := LetterRun(t);
      && w != []
      && ReplaceSeparatorRuns(t) == w + ReplaceSeparatorRuns(t[|w|..])
      && Words(t) == [w] + Words(t[|w|..])
  {
    var w := LetterRun(t);
    assert SkipSeparators(t) == t;
    ReplaceLetterPrefix(t, |w|);
  }

  /** A line that starts with a separator: one space, then the rest from its next letter. */
  lemma StepOverSeparators(rest: string)
    requires rest != [] && !IsLetter(rest[0])
    ensures var t := SkipSeparators(rest);
      && ReplaceSeparatorRuns(rest) == " " + ReplaceSeparatorRuns(t)
      && Words(rest) == Words(t)
  {
    SkipAfterSeparator(rest);
    WordsSkip(rest);
  }

  /** Dropping one separator does not change where the separator run ends. */
  lemma SkipAfterSeparator(rest: string)
    requires rest != [] && !IsLetter(rest[0])
    ensures SkipSeparators(rest[1..]) == SkipSeparators(rest)
  {
    var k := SeparatorRunLength(rest[1..]);
    assert SeparatorRunLength(rest) == 1 + k;
    assert rest[1..][k..] == rest[1 + k..];
  }

  /** A string starting with a letter, or empty, has no separators to skip. */
  lemma SkipNothing(t: string)
    requires t == [] || IsLetter(t[0])
    ensures SkipSeparators(t) == t
  {
    assert SeparatorRunLength(t) == 0;
  }

  /** Leading separators contribute no word. */
  lemma WordsSkip(s: string)
    ensures Words(s) == Words(SkipSeparators(s))
  {
    SkipNothing(SkipSeparators(s));
  }

  lemma {:induction false} ReplaceShape(t: string)
    requires t == [] || IsLetter(t[0])
    ensures ReplaceSeparatorRuns(t) == Join(Words(t)) + Tail(t)
    decreases |t|
  {
    if t != [] {
      var rest := t[|LetterRun(t)|..];
      if rest == [] {
        ReplaceOneWord(t);
      } else {
        ReplaceShape(SkipSeparators(rest));
        ReplaceStep(t, rest, SkipSeparators(rest));
      }
    }
  }

  /** ReplaceShape for a line that is a single word. */
  lemma ReplaceOneWord(t: string)
    requires t != [] && IsLetter(t[0]) && t[|LetterRun(t)|..] == []
    ensures ReplaceSeparatorRuns(t) == Join(Words(t)) + Tail(t)
  {
    StepOverWord(t);
    var w := LetterRun(t);
    assert t == w;
    assert Words(t[|w|..]) == [];
    assert Join([w]) == w;
  }

  /** ReplaceShape for a word, separators and the rest, from ReplaceShape for the rest. */
  lemma ReplaceStep(t: string, rest: string, t': string)
    requires t != [] && IsLetter(t[0]) && rest == t[|LetterRun(t)|..] && rest != []
    requires t' == SkipSeparators(rest)
    requires ReplaceSeparatorRuns(t') == Join(Words(t')) + Tail(t')
    ensures ReplaceSeparatorRuns(t) == Join(Words(t)) + Tail(t)
  {
    var w := LetterRun(t);
    StepOverWord(t);
    SplitAt(t, |w|);
    StepOverSeparators(rest);
    SkipSeparatorsSuffix(rest);
    WordsEmpty(t');
    JoinStep(t, w, rest, t', Words(t'), ReplaceSeparatorRuns(t'));
  }

  /** Sequence step kept separate so the proofs using it stay cheap. */
  lemma SplitAt(t: string, k: nat)
    requires k <= |t|
    ensures t == t[..k] + t[k..]
  {
  }

  /** What SkipSeparators leaves is a suffix, and all of the line when it leaves nothing. */
  lemma SkipSeparatorsSuffix(rest: string)
    ensures var t' := SkipSeparators(rest);
      && |t'| <= |rest| && t' == rest[|rest| - |t'|..]
      && (t' == [] ==> forall i :: 0 <= i < |rest| ==> !IsLetter(rest[i]))
  {
  }

  lemma WordsEmpty(t: string)
    requires t == [] || IsLetter(t[0])
    ensures Words(t) == [] <==> t == []
  {
    if t != [] {
      StepOverWord(t);
    }
  }

  /** The inductive step of ReplaceShape, on the words and replaced text of the rest of the line. */
  lemma JoinStep(t: string, w: string, rest: string, t': string, ws': seq<string>, r': string)
    requires w != [] && rest != [] && t == w + rest
    requires |t'| <= |rest| && t' == rest[|rest| - |t'|..]
    requires t' == [] ==> forall i :: 0 <= i < |rest| ==> !IsLetter(rest[i])
    requires ws' == [] <==> t' == []
    requires r' == Join(ws') + Tail(t')
    ensures w + (" " + r') == Join([w] + ws') + Tail(t)
  {
    if t' == [] {
      assert Tail(t) == " " by {
        assert t[|t| - 1] == rest[|rest| - 1];
      }
      assert [w] + ws' == [w];
      assert r' == [];
    } else {
      assert Tail(t) == Tail(t') by {
        assert t[|t| - 1] == t'[|t'| - 1];
      }
      assert Join([w] + ws') == w + " " + Join(ws') by {
        assert ([w] + ws')[1..] == ws';
      }
      Associate(w, " ", Join(ws'), Tail(t'));
    }
  }

  /** Sequence step kept separate so the proofs using it stay cheap. */
  lemma Associate(a: string, b: string, c: string, d: string)
    ensures a + (b + (c + d)) == a + b + c + d
  {
  }

  lemma ReplaceShapeAnywhere(s: string)
    ensures ReplaceSeparatorRuns(s) == Head(s) + Join(Words(s)) + Tail(SkipSeparators(s))
  {
    if s != [] && !IsLetter(s[0]) {
      ReplaceShapeLeadingSeparator(s);
    } else {
      assert SkipSeparators(s) == s by { assert SeparatorRunLength(s) == 0; }
      ReplaceShape(s);
      assert "" + Join(Words(s)) == Join(Words(s));
    }
  }

  lemma ReplaceShapeLeadingSeparator(s: string)
    requires s != [] && !IsLetter(s[0])
    ensures ReplaceSeparatorRuns(s) == " " + Join(Words(s)) + Tail(SkipSeparators(s))
  {
    var t := SkipSeparators(s);
    StepOverSeparators(s);
    ReplaceShape(t);
    SpaceInFront(ReplaceSeparatorRuns(t), Join(Words(t)), Tail(t));
  }

  /** Sequence step kept separate so the proofs using it stay cheap. */
  lemma SpaceInFront(r: string, j: string, tail: string)
    requires r == j + tail
    ensures " " + r == " " + j + tail
  {
  }

  lemma {:induction false} TrimStartSkips(p: string, x: string)
    requires forall i :: 0 <= i < |p| ==> IsTrimmable(p[i])
    ensures TrimStart(p + x) == TrimStart(x)
  {
    if p != [] {
      assert (p + x)[0] == p[0];
      assert (p + x)[1..] == p[1..] + x;
      TrimStartSkips(p[1..], x);
      assert TrimStart(p + x) == TrimStart(p[1..] + x);
    } else {
      assert p + x == x;
    }
  }

  lemma {:induction false} TrimEndSkips(x: string, q: string)
    requires forall i :: 0 <= i < |q| ==> IsTrimmable(q[i])
    ensures TrimEnd(x + q) == TrimEnd(x)
  {
    if q != [] {
      assert (x + q)[|x + q| - 1] == q[|q| - 1];
      assert (x + q)[..|x + q| - 1] == x + q[..|q| - 1];
      TrimEndSkips(x, q[..|q| - 1]);
      assert TrimEnd(x + q) == TrimEnd(x + q[..|q| - 1]);
    } else {
      assert x + q == x;
    }
  }

  /** Trimming a single space on either side of a word list gives the words back. */
  lemma TrimAroundJoin(p: string, ws: seq<string>, q: string)
    requires p == "" || p == " "
    requires q == "" || q == " "
    requires AllWords(ws)
    ensures Trim(p + Join(ws) + q) == Join(ws)
  {
    var j := Join(ws);
    if ws == [] {
      assert p + j + q == p + q;
      TrimBlank(p + q);
    } else {
      JoinShape(ws);
      TrimStartOfJoin(p, j, q);
      TrimEndOfJoin(j, q);
    }
  }

  lemma TrimStartOfJoin(p: string, j: string, q: string)
    requires p == "" || p == " "
    requires j != [] && !IsTrimmable(j[0])
    ensures TrimStart(p + j + q) == j + q
  {
    assert p + j + q == p + (j + q);
    TrimStartSkips(p, j + q);
    assert (j + q)[0] == j[0];
    assert LeadingTrimmable(j + q) == 0;
  }

  lemma TrimEndOfJoin(j: string, q: string)
    requires q == "" || q == " "
    requires j != [] && !IsTrimmable(j[|j| - 1])
    ensures TrimEnd(j + q) == j
  {
    TrimEndSkips(j, q);
    assert TrailingTrimmable(j) == 0;
  }

  lemma TrimBlank(s: string)
    requires forall i :: 0 <= i < |s| ==> IsTrimmable(s[i])
    ensures Trim(s) == []
  {
    assert LeadingTrimmable(s) == |s| by {
      TrimStartSkips(s, []);
      assert s + [] == s;
    }
  }

  /** The line after replace and trim is its words joined by single spaces. */
  lemma NormalizeIsJoin(line: string)
    ensures Normalize(line) == Join(Words(LowerCase(line)))
  {
    var s := LowerCase(line);
    ReplaceShapeAnywhere(s);
    TrimAroundJoin(Head(s), Words(s), Tail(SkipSeparators(s)));
  }

  lemma {:induction false} PiecesOfPrefix(w: string, x: string, sep: Separator)
    requires NoSeparator(w, sep)
    ensures Pieces(w + x, sep) == [w + Pieces(x, sep)[0]] + Pieces(x, sep)[1..]
  {
    if w != [] {
      assert (w + x)[0] == w[0] && !IsSeparator(sep, w[0]);
      assert (w + x)[1..] == w[1..] + x;
      PiecesOfPrefix(w[1..], x, sep);
      var rest := Pieces(w[1..] + x, sep);
      assert Pieces(w + x, sep) == [[w[0]] + rest[0]] + rest[1..];
      var px := Pieces(x, sep);
      assert rest[0] == w[1..] + px[0] && rest[1..] == px[1..];
      assert [w[0]] + (w[1..] + px[0]) == w + px[0];
    } else {
      var px := Pieces(x, sep);
      assert w + x == x && w + px[0] == px[0];
      assert px == [px[0]] + px[1..];
    }
  }

  lemma {:induction false} PiecesOfJoin(ws: seq<string>, sep: Separator)
    requires ws != []
    requires AllWords(ws)
    ensures Pieces(Join(ws), sep) == ws
  {
    assert IsWord(ws[0]);
    if |ws| == 1 {
      PiecesOfPrefix(ws[0], [], sep);
      assert ws[0] + [] == ws[0];
    } else {
      var j := Join(ws[1..]);
      PiecesOfJoin(ws[1..], sep);
      assert Join(ws) == ws[0] + (" " + j);
      PiecesOfPrefix(ws[0], " " + j, sep);
      PiecesAfterSpace(j, sep);
      Reassemble(ws[0], ws[1..], Pieces(" " + j, sep));
    }
  }

  lemma PiecesAfterSpace(j: string, sep: Separator)
    ensures Pieces(" " + j, sep) == [[]] + Pieces(j, sep)
  {
    assert (" " + j)[1..] == j;
  }

  lemma Reassemble(w: string, rest: seq<string>, ps: seq<string>)
    requires ps == [[]] + rest
    ensures [w + ps[0]] + ps[1..] == [w] + rest
  {
    assert w + ps[0] == w;
  }

  /** Splitting words joined by spaces gives the words back; splitting "" gives [""]. */
  lemma SplitJoin(ws: seq<string>, sep: Separator)
    requires AllWords(ws)
    ensures Split(Join(ws), sep) == if ws == [] then [""] else ws
  {
    if ws != [] {
      assert IsWord(ws[0]);
      if |ws| == 1 {
        assert NoSeparator(Join(ws), sep);
      } else {
        PiecesOfJoin(ws, sep);
        assert Join(ws)[|ws[0]|] == ' ';
        assert !NoSeparator(Join(ws), sep);
        assert IsWord(ws[|ws| - 1]);
        assert DropTrailingEmpty(ws) == ws;
      }
    }
  }

  /** Both tokenisers give the maximal [a-z] runs of the lower-cased line, or
      the single empty token when there are none. */
  lemma TokenizeIsWords(line: string)
    ensures Tokenize(line) == Terms(line)
    ensures TokenizeForIndex(line) == Terms(line)
  {
    NormalizeIsJoin(line);
    SplitJoin(Words(LowerCase(line)), Space);
    SplitJoin(Words(LowerCase(line)), Whitespace);
  }

  lemma LowerCaseHasLetter(line: string)
    ensures HasLetter(LowerCase(line)) <==> HasAsciiLetter(line)
  {
    var s := LowerCase(line);
    if HasAsciiLetter(line) {
      var i :| 0 <= i < |line| && IsAsciiLetter(line[i]);
      assert IsLetter(s[i]);
    }
  }

  /** Every term of a line is a non-empty word over [a-z], except that a line
      without ASCII letters has exactly the one empty term. */
  lemma TermsShape(line: string)
    ensures !HasAsciiLetter(line) <==> Terms(line) == [""]
    ensures HasAsciiLetter(line) ==> AllWords(Terms(line))
  {
    LowerCaseHasLetter(line);
    var ws := Words(LowerCase(line));
    if ws != [] {
      assert IsWord(ws[0]);
      assert ws[0] != "";
    }
  }

  /** The same, for the tokens of the scorer's split. */
  lemma TokenizeShape(line: string)
    ensures !HasAsciiLetter(line) <==> Tokenize(line) == [""]
    ensures HasAsciiLetter(line) ==> forall k :: 0 <= k < |Tokenize(line)| ==> IsWord(Tokenize(line)[k])
  {
    TokenizeIsWords(line);
    TermsShape(line);
  }
}
