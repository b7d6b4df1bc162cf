/**
 The three regular expressions of the extractor, written out character by
 character. Each is deterministic: the character classes that follow one
 another in a pattern are disjoint, so greedy matching never needs to back
 off and "the run ends here" is the only way a match can go on.
   - `\d+\s+du\s+\d+/\d+` (an article-index footer such as "3 du 12/05"),
     searched after a newline and optional whitespace, or matched at the
     start of a line;
   - `^[-•\d.\s]+`, the leading bullet/number junk of a transition line;
   - `[.!?]+\s+`, the sentence break used by `re.split`.
 */
module Patterns {
  import opened Wrappers
  import opened Text

  /** One element of a hand-written regular expression: a literal character,
      or a greedy run (`+` or `*`) of a character class. */
  datatype Token = Char(c: char) | Plus(cls: char -> bool) | Star(cls: char -> bool)

  /** Where the token sequence `toks`, matched greedily from index `i`, ends;
      None when it does not match there. Greedy matching is exact for every
      pattern below: each run is followed by a token its class cannot match,
      so backing off a run can never let the rest of the pattern succeed. */
  function MatchEnd(s: String, i: nat, toks: seq<Token>): (r: Option<nat>)
    requires i <= |s|
    ensures r.Some? ==> i <= r.value <= |s|
    decreases |toks|
  {
    if toks == [] then Some(i)
    else match toks[0]
      case Char(c) => if i < |s| && s[i] == c then MatchEnd(s, i + 1, toks[1..]) else None
      case Plus(p) =>
        var e := SkipWhile(s, i, p);
        if e > i then MatchEnd(s, e, toks[1..]) else None
      case Star(p) => MatchEnd(s, SkipWhile(s, i, p), toks[1..])
  }

  /** `\d+\s+du\s+\d+/\d+`, an article-index footer such as "3 du 12/05". */
  const ArticleIndexPattern: seq<Token> :=
    [Plus(IsDigit), Plus(IsSpace), Char('d'), Char('u'), Plus(IsSpace),
     Plus(IsDigit), Char('/'), Plus(IsDigit)]

  /** `\n\s*\d+\s+du\s+\d+/\d+`, the footer as searched inside a section. */
  const FooterPattern: seq<Token> := [Char('\n'), Star(IsSpace)] + ArticleIndexPattern

  /** `\d+\s+du\s+\d+/\d+` matches at index `i` of `s`. */
  predicate ArticleIndexAt(s: String, i: nat)
    requires i <= |s|
  {
    MatchEnd(s, i, ArticleIndexPattern).Some?
  }

  /** `\n\s*\d+\s+du\s+\d+/\d+` matches at index `i` of `s`. */
  predicate FooterAt(s: String, i: nat)
    requires i <= |s|
  {
    MatchEnd(s, i, FooterPattern).Some?
  }

  /** No footer starts at the very end of a string: it opens with a newline. */
  lemma NoFooterAtEnd(s: String)
    ensures !FooterAt(s, |s|)
  {
    assert FooterPattern[0] == Char('\n');
  }

  /** `re.search` for the footer: the leftmost match start. */
  function FirstFooter(s: String): (r: Option<nat>)
    ensures r.Some? ==> r.value < |s| && FooterAt(s, r.value)
    ensures r.Some? ==> forall j :: 0 <= j < r.value ==> !FooterAt(s, j)
    ensures r.None? <==> forall j :: 0 <= j <= |s| ==> !FooterAt(s, j)
  {
    var p := (j: nat) => j <= |s| && FooterAt(s, j);
    assert forall j: nat :: p(j) == (j <= |s| && FooterAt(s, j));
    NoFooterAtEnd(s);
    FirstWhere(|s|, 0, p)
  }

  /** The leftmost footer is the one the search reports. */
  lemma FirstFooterIs(s: String, j: nat)
    requires j < |s| && FooterAt(s, j)
    requires forall k :: 0 <= k < j ==> !FooterAt(s, k)
    ensures FirstFooter(s) == Some(j)
  {
  }

  /** One of the characters of the class `[-•\d.\s]`. */
  predicate IsJunk(c: char) {
    c == '-' || c == '•' || IsDigit(c) || c == '.' || IsSpace(c)
  }

  /** `re.sub(r'^[-•\d.\s]+', '', line)`: drop the leading run of junk characters. */
  function DropLeadingJunk(line: String): (r: String)
    ensures |r| <= |line| && IsOccurrence(line, r, |line| - |r|)
    ensures r == [] || !IsJunk(r[0])
    ensures forall i :: 0 <= i < |line| - |r| ==> IsJunk(line[i])
  {
    if line != [] && IsJunk(line[0]) then DropLeadingJunk(line[1..]) else line
  }

  /** Dropping the leading junk keeps only characters of the line. */
  lemma DropLeadingJunkChars(line: String)
    ensures forall c :: c in DropLeadingJunk(line) ==> c in line
  {
    PieceChars(line, DropLeadingJunk(line), |line| - |DropLeadingJunk(line)|);
  }

  /** A sentence-final punctuation mark, the class `[.!?]`. */
  predicate IsTerminal(c: char) {
    c == '.' || c == '!' || c == '?'
  }

  /** `[.!?]+\s+`, the sentence break. */
  const BreakPattern: seq<Token> := [Plus(IsTerminal), Plus(IsSpace)]

  /** `[.!?]+\s+` matches at index `i` of `s`. */
  predicate BreakAt(s: String, i: nat)
    requires i <= |s|
  {
    MatchEnd(s, i, BreakPattern).Some?
  }

  /** Where the break matched at `i` ends: after its punctuation run and its whitespace run. */
  function BreakEnd(s: String, i: nat): (e: nat)
    requires i <= |s| && BreakAt(s, i)
    ensures i < e <= |s|
  {
    BreakShape(s, i);
    MatchEnd(s, i, BreakPattern).value
  }

  /** A break at `i` is a punctuation run from `i` followed by at least one
      whitespace character, and it ends after the whitespace run. */
  lemma BreakShape(s: String, i: nat)
    requires i <= |s|
    ensures var t := SkipWhile(s, i, IsTerminal);
            BreakAt(s, i) <==> t > i && t < |s| && IsSpace(s[t])
    ensures BreakAt(s, i) ==>
              MatchEnd(s, i, BreakPattern).value == SkipWhile(s, SkipWhile(s, i, IsTerminal), IsSpace)
  {
    var t := SkipWhile(s, i, IsTerminal);
    assert BreakPattern[1..] == [Plus(IsSpace)];
    assert BreakPattern[1..][1..] == [];
    if t > i {
      var u := SkipWhile(s, t, IsSpace);
      assert MatchEnd(s, u, []) == Some(u);
      if u > t {
        assert MatchEnd(s, t, [Plus(IsSpace)]) == Some(u);
      } else {
        assert MatchEnd(s, t, [Plus(IsSpace)]) == None;
      }
    }
  }

  /** The leftmost sentence break. */
  function FirstBreak(s: String): (r: Option<nat>)
    ensures r.Some? ==> r.value < |s| && BreakAt(s, r.value)
  {
    FirstWhere(|s|, 0, (j: nat) => j <= |s| && BreakAt(s, j))
  }

  /** The break `FirstBreak` finds is the leftmost one, and it finds none only
      when no break matches anywhere. */
  lemma FirstBreakIsLeftmost(s: String)
    ensures FirstBreak(s).Some? ==> forall j :: 0 <= j < FirstBreak(s).value ==> !BreakAt(s, j)
    ensures FirstBreak(s).None? <==> forall j :: 0 <= j <= |s| ==> !BreakAt(s, j)
  {
    var p := (j: nat) => j <= |s| && BreakAt(s, j);
    assert forall j: nat :: p(j) == (j <= |s| && BreakAt(s, j));
    BreakShape(s, |s|);
  }

  /** No sentence-final punctuation mark is directly followed by whitespace. */
  predicate NoBreak(s: String) {
    forall k :: 0 <= k < |s| - 1 ==> !PunctThenSpace(s, k)
  }

  /** The character at `k` is a punctuation mark and the next one whitespace. */
  predicate PunctThenSpace(s: String, k: nat)
    requires k + 1 < |s|
  {
    IsTerminal(s[k]) && IsSpace(s[k + 1])
  }

  /** A punctuation mark followed by whitespace is where a break matches. */
  lemma PairIsBreak(s: String, k: nat)
    requires k + 1 < |s| && IsTerminal(s[k]) && IsSpace(s[k + 1])
    ensures BreakAt(s, k)
  {
    assert !IsTerminal(s[k + 1]);
    BreakShape(s, k);
  }

  /** A string with no break match anywhere has no punctuation-whitespace pair. */
  lemma NoBreakFromFirst(s: String, i: nat)
    requires i <= |s|
    requires forall j :: 0 <= j < i ==> !BreakAt(s, j)
    ensures NoBreak(s[..i])
  {
    forall k | 0 <= k < i - 1
      ensures !PunctThenSpace(s[..i], k)
    {
      if PunctThenSpace(s, k) {
        PairIsBreak(s, k);
      }
    }
  }

  /** A suffix of a suffix of `s` is a suffix of `s`. */
  lemma SuffixOfSuffix(s: String, e: nat, t: String)
    requires e <= |s| && |t| <= |s| - e && t == s[e..][|s| - e - |t|..]
    ensures |t| <= |s| && t == s[|s| - |t|..]
  {
  }

  /** `re.split(r'[.!?]+\s+', s)`: the fragments between successive breaks.
      The search resumes on the suffix after each match, which is where
      `re.split` resumes, since the pattern looks neither behind nor at anchors. */
  function SplitSentences(s: String): (fs: seq<String>)
    ensures |fs| >= 1
    decreases |s|
  {
    match FirstBreak(s)
    case None => [s]
    case Some(i) => [s[..i]] + SplitSentences(s[BreakEnd(s, i)..])
  }

  /** The first fragment of a sentence split is a prefix of `s`. */
  lemma SplitSentencesFirst(s: String)
    ensures IsOccurrence(s, SplitSentences(s)[0], 0)
  {
    match FirstBreak(s)
    case None =>
      assert s[..|s|] == s;
    case Some(i) =>
      assert SplitSentences(s)[0] == s[..i];
  }

  /** The last fragment of a sentence split is a suffix of `s`. */
  lemma {:induction false} SplitSentencesLast(s: String)
    ensures var l := Last(SplitSentences(s));
            |l| <= |s| && l == s[|s| - |l|..]
    decreases |s|
  {
    match FirstBreak(s)
    case None =>
      assert s[|s| - |s|..] == s;
    case Some(i) =>
      var e := BreakEnd(s, i);
      var t := s[e..];
      SplitSentencesLast(t);
      var rest := SplitSentences(t);
      assert SplitSentences(s) == [s[..i]] + rest;
      LastOfAppend([s[..i]], rest);
      SuffixOfSuffix(s, e, Last(rest));
  }

  /** The last element of a non-empty sequence. */
  function Last<T>(xs: seq<T>): (x: T)
    requires |xs| >= 1
  {
    xs[|xs| - 1]
  }

  lemma LastOfAppend<T>(a: seq<T>, b: seq<T>)
    requires |b| >= 1
    ensures Last(a + b) == Last(b)
  {
  }

  /** No fragment of a sentence split holds a punctuation mark followed by whitespace. */
  lemma {:induction false} SplitSentencesNoBreak(s: String)
    ensures forall k :: 0 <= k < |SplitSentences(s)| ==> NoBreak(SplitSentences(s)[k])
    decreases |s|
  {
    FirstBreakIsLeftmost(s);
    match FirstBreak(s)
    case None =>
      NoBreakFromFirst(s, |s|);
      assert s[..|s|] == s;
    case Some(i) =>
      NoBreakFromFirst(s, i);
      var e := BreakEnd(s, i);
      SplitSentencesNoBreak(s[e..]);
      var fs, rest := SplitSentences(s), SplitSentences(s[e..]);
      assert fs == [s[..i]] + rest;
      forall k | 0 <= k < |fs|
        ensures NoBreak(fs[k])
      {
        if k > 0 {
          assert fs[k] == rest[k - 1];
        }
      }
  }

  /** The sentence split leaves `s` whole exactly when `s` holds no punctuation
      mark followed by whitespace. */
  lemma SplitSentencesWhole(s: String)
    ensures SplitSentences(s) == [s] <==> NoBreak(s)
  {
    FirstBreakIsLeftmost(s);
    match FirstBreak(s)
    case None =>
      NoBreakFromFirst(s, |s|);
      assert s[..|s|] == s;
    case Some(i) =>
      BreakDefeatsNoBreak(s, i);
      assert |SplitSentences(s)| >= 2;
  }

  /** Where a break matches, a punctuation mark is followed by whitespace. */
  lemma BreakDefeatsNoBreak(s: String, i: nat)
    requires i <= |s| && BreakAt(s, i)
    ensures !NoBreak(s)
  {
    BreakShape(s, i);
    var t := SkipWhile(s, i, IsTerminal);
    assert PunctThenSpace(s, t - 1);
  }

  /** A greedy run read in a suffix of `s` ends where it ends in `s`. */
  lemma {:induction false} SkipWhileShift(s: String, e: nat, i: nat, p: char -> bool)
    requires e + i <= |s|
    ensures SkipWhile(s[e..], i, p) + e == SkipWhile(s, e + i, p)
    decreases |s| - e - i
  {
    if e + i < |s| && p(s[e + i]) {
      assert s[e..][i] == s[e + i];
      SkipWhileShift(s, e, i + 1, p);
    }
  }

  /** A greedy run read from inside itself ends where it ends. */
  lemma {:induction false} SkipWhileFrom(s: String, j: nat, e: nat, p: char -> bool)
    requires j <= |s| && j <= e <= SkipWhile(s, j, p)
    ensures SkipWhile(s, e, p) == SkipWhile(s, j, p)
    decreases e - j
  {
    if j < e {
      SkipWhileFrom(s, j + 1, e, p);
    }
  }

  /** The break pattern looks only forward: it matches at `j` of `s` exactly
      when it matches at the same place of a suffix of `s`, and ends there too. */
  lemma BreakShift(s: String, e: nat, j: nat)
    requires e <= j <= |s|
    ensures BreakAt(s[e..], j - e) <==> BreakAt(s, j)
    ensures BreakAt(s, j) ==> BreakEnd(s[e..], j - e) + e == BreakEnd(s, j)
  {
    var t := SkipWhile(s, j, IsTerminal);
    SkipWhileShift(s, e, j - e, IsTerminal);
    BreakShape(s, j);
    BreakShape(s[e..], j - e);
    if t < |s| {
      assert s[e..][t - e] == s[t];
      if BreakAt(s, j) {
        SkipWhileShift(s, e, t - e, IsSpace);
      }
    }
  }

  /** `n` is where the first fragment of `re.split(r'[.!?]+\s+', s)` ends: no
      break starts before it, and a break starts there unless it is the end of `s`. */
  predicate FirstFragmentEnd(s: String, n: nat) {
    && n <= |s|
    && (forall j :: 0 <= j < n ==> !BreakAt(s, j))
    && (n < |s| ==> BreakAt(s, n))
  }

  /** `e` is where the last fragment of `re.split(r'[.!?]+\s+', s)` starts: no
      break starts at or after it, and it is the start of `s` or the end of a break. */
  predicate LastFragmentStart(s: String, e: nat) {
    && e <= |s|
    && (forall j :: e <= j <= |s| ==> !BreakAt(s, j))
    && (e > 0 ==> exists j :: 0 <= j < e && BreakAt(s, j) && BreakEnd(s, j) == e)
  }

  /** At most one index ends the first fragment. */
  lemma FirstFragmentEndUnique(s: String, n: nat, m: nat)
    requires FirstFragmentEnd(s, n) && FirstFragmentEnd(s, m)
    ensures n == m
  {
  }

  /** At most one index starts the last fragment. */
  lemma LastFragmentStartUnique(s: String, e: nat, f: nat)
    requires LastFragmentStart(s, e) && LastFragmentStart(s, f)
    ensures e == f
  {
    if f > 0 {
      var j :| 0 <= j < f && BreakAt(s, j) && BreakEnd(s, j) == f;
      BreaksEndBeforeLast(s, e, j);
    }
    if e > 0 {
      var i :| 0 <= i < e && BreakAt(s, i) && BreakEnd(s, i) == e;
      BreaksEndBeforeLast(s, f, i);
    }
  }

  /** Every break ends at or before the start of the last fragment: a start
      inside a break would either start a break itself (in the punctuation
      run) or be whitespace (in the whitespace run), and no break ends just
      before whitespace. */
  lemma BreaksEndBeforeLast(s: String, e: nat, j: nat)
    requires LastFragmentStart(s, e) && j <= |s| && BreakAt(s, j)
    ensures BreakEnd(s, j) <= e
  {
    BreakInside(s, j, e);
    if e > 0 {
      var i :| 0 <= i < e && BreakAt(s, i) && BreakEnd(s, i) == e;
      BreakEndNotSpace(s, i);
    }
  }

  /** Inside a break's punctuation run another break starts; inside its
      whitespace run every character is whitespace. */
  lemma BreakInside(s: String, j: nat, e: nat)
    requires j <= |s| && BreakAt(s, j) && e <= |s|
    ensures j < e < SkipWhile(s, j, IsTerminal) ==> BreakAt(s, e)
    ensures SkipWhile(s, j, IsTerminal) <= e < BreakEnd(s, j) ==> IsSpace(s[e])
  {
    BreakShape(s, j);
    var t := SkipWhile(s, j, IsTerminal);
    if j < e < t {
      SkipWhileFrom(s, j, e, IsTerminal);
      BreakShape(s, e);
    }
  }

  /** A break ends at the end of `s` or before a non-whitespace character. */
  lemma BreakEndNotSpace(s: String, i: nat)
    requires i <= |s| && BreakAt(s, i)
    ensures BreakEnd(s, i) < |s| ==> !IsSpace(s[BreakEnd(s, i)])
  {
    BreakShape(s, i);
  }

  /** The last fragment of the text after a break starts, in `s`, at its own
      start shifted by the end of that break. */
  lemma LastFragmentStartShift(s: String, i: nat, e: nat)
    requires i <= |s| && BreakAt(s, i) && LastFragmentStart(s[BreakEnd(s, i)..], e)
    ensures LastFragmentStart(s, BreakEnd(s, i) + e)
  {
    var e0 := BreakEnd(s, i);
    NoBreakAfterShift(s, e0, e);
    if e > 0 {
      var j :| 0 <= j < e && BreakAt(s[e0..], j) && BreakEnd(s[e0..], j) == e;
      var k := j + e0;
      assert k - e0 == j;
      BreakShift(s, e0, k);
      assert BreakAt(s, k) && BreakEnd(s, k) == e0 + e;
    } else {
      assert BreakAt(s, i) && BreakEnd(s, i) == e0 + e;
    }
  }

  /** No break starts in a suffix of `s` from `e` on: none starts in `s` from `e0 + e` on. */
  lemma NoBreakAfterShift(s: String, e0: nat, e: nat)
    requires e0 <= |s| && e <= |s| - e0
    requires forall j :: e <= j <= |s| - e0 ==> !BreakAt(s[e0..], j)
    ensures forall j :: e0 + e <= j <= |s| ==> !BreakAt(s, j)
  {
    forall j | e0 + e <= j <= |s|
      ensures !BreakAt(s, j)
    {
      BreakShift(s, e0, j);
    }
  }

  /** The first fragment of a sentence split is the prefix of `s` that ends
      where the leftmost break starts, or all of `s` when there is none. */
  lemma SplitSentencesFirstIs(s: String)
    ensures var f := SplitSentences(s)[0];
            |f| <= |s| && f == s[..|f|] && FirstFragmentEnd(s, |f|)
  {
    FirstBreakIsLeftmost(s);
    match FirstBreak(s)
    case None =>
      assert s[..|s|] == s;
    case Some(i) =>
      assert SplitSentences(s)[0] == s[..i];
  }

  /** The last fragment of a sentence split is the suffix of `s` after the end
      of its last break, or all of `s` when there is none. */
  lemma {:induction false} SplitSentencesLastIs(s: String)
    ensures var l := Last(SplitSentences(s));
            |l| <= |s| && l == s[|s| - |l|..] && LastFragmentStart(s, |s| - |l|)
    decreases |s|
  {
    SplitSentencesLast(s);
    FirstBreakIsLeftmost(s);
    match FirstBreak(s)
    case None =>
    case Some(i) =>
      var e0 := BreakEnd(s, i);
      var t := s[e0..];
      SplitSentencesLastIs(t);
      var rest := SplitSentences(t);
      assert SplitSentences(s) == [s[..i]] + rest;
      LastOfAppend([s[..i]], rest);
      LastFragmentStartShift(s, i, |t| - |Last(rest)|);
  }
}
