/**
 Triplet extraction inside one article body. For one transition phrase, every
 position where the lower-cased phrase occurs in the lower-cased body
 (overlapping positions included) is a candidate. A candidate yields a triplet
 when the stripped text before it and the stripped text after it are each
 longer than ten characters; the triplet holds the last sentence fragment of
 the text before, the phrase as listed, and the first sentence fragment of
 the text after.
 */
module Context {
  import opened Wrappers
  import opened Text
  import opened Patterns

  /** One training example: the sentence before, the transition, the sentence after. */
  datatype Triplet = Triplet(paragraphA: String, transition: String, paragraphB: String)

  /** Both the text before and the text after a hit must be longer than this. */
  const MinContext: nat := 10

  /** The phrase `t` is found, ignoring case, at index `p` of `body`. */
  predicate IsHit(body: String, t: String, p: nat) {
    IsOccurrence(LowerStr(body), LowerStr(t), p)
  }

  /** The stripped text before index `p` (`body[:p].strip()`). */
  function Before(body: String, p: nat): (r: String) {
    Strip(Slice(body, 0, p))
  }

  /** The stripped text after the phrase `t` placed at index `p`
      (`body[p + len(t):].strip()`). */
  function After(body: String, t: String, p: nat): (r: String) {
    Strip(Slice(body, p + |t|, |body|))
  }

  /** The length test a candidate must pass to yield a triplet. */
  predicate HasContext(body: String, t: String, p: nat) {
    |Before(body, p)| > MinContext && |After(body, t, p)| > MinContext
  }

  /** A verbatim piece of a string with no punctuation-whitespace pair has none either. */
  lemma NoBreakInfix(s: String, r: String, i: nat)
    requires IsOccurrence(s, r, i) && NoBreak(s)
    ensures NoBreak(r)
  {
    forall k | 0 <= k < |r| - 1
      ensures !PunctThenSpace(r, k)
    {
      assert r[k] == s[i + k] && r[k + 1] == s[i + k + 1];
      assert !PunctThenSpace(s, i + k);
    }
  }

  /** Stripping a verbatim piece with no punctuation-whitespace pair gives a
      stripped verbatim piece with none either. */
  lemma StrippedFragment(s: String, f: String, i: nat)
    requires IsOccurrence(s, f, i) && NoBreak(f)
    ensures IsStripped(Strip(f)) && NoBreak(Strip(f))
    ensures IsOccurrence(s, Strip(f), i + LeadingSpace(f))
  {
    NoBreakInfix(f, Strip(f), LeadingSpace(f));
    OccurrenceTrans(s, f, Strip(f), i, LeadingSpace(f));
  }

  /** The last fragment of a sentence split, stripped, is a stripped verbatim
      piece of `s` free of breaks. */
  lemma LastFragment(s: String)
    ensures var r := Strip(Last(SplitSentences(s)));
            IsStripped(r) && NoBreak(r) && exists i :: IsOccurrence(s, r, i)
  {
    var fs := SplitSentences(s);
    var l := Last(fs);
    SplitSentencesLast(s);
    SplitSentencesNoBreak(s);
    assert NoBreak(fs[|fs| - 1]);
    assert IsOccurrence(s, l, |s| - |l|);
    StrippedFragment(s, l, |s| - |l|);
  }

  /** The first fragment of a sentence split, stripped, is a stripped verbatim
      piece of `s` free of breaks. */
  lemma FirstFragment(s: String)
    ensures var r := Strip(SplitSentences(s)[0]);
            IsStripped(r) && NoBreak(r) && exists i :: IsOccurrence(s, r, i)
  {
    var fs := SplitSentences(s);
    SplitSentencesFirst(s);
    SplitSentencesNoBreak(s);
    assert NoBreak(fs[0]);
    StrippedFragment(s, fs[0], 0);
  }

  /** `r` is the stripped last fragment of `re.split(r'[.!?]+\s+', s)`: the
      stripped text after the end of the last break of `s` (or all of `s`). */
  predicate IsLastSentenceOf(r: String, s: String) {
    exists e :: 0 <= e <= |s| && LastFragmentStart(s, e) && r == Strip(s[e..])
  }

  /** `r` is the stripped first fragment of `re.split(r'[.!?]+\s+', s)`: the
      stripped text before the first break of `s` (or all of `s`). */
  predicate IsFirstSentenceOf(r: String, s: String) {
    exists n :: 0 <= n <= |s| && FirstFragmentEnd(s, n) && r == Strip(s[..n])
  }

  /** The last sentence of `s` (`re.split(r'[.!?]+\s+', s)[-1].strip()`): the
      stripped text after the last break, a verbatim piece of `s` holding no
      punctuation mark followed by whitespace. */
  function LastSentence(s: String): (r: String)
    ensures IsLastSentenceOf(r, s)
    ensures IsStripped(r) && NoBreak(r)
    ensures exists i :: IsOccurrence(s, r, i)
  {
    LastFragment(s);
    SplitSentencesLastIs(s);
    var l := Last(SplitSentences(s));
    assert LastFragmentStart(s, |s| - |l|) && l == s[|s| - |l|..];
    Strip(l)
  }

  /** The first sentence of `s` (`re.split(r'[.!?]+\s+', s)[0].strip()`): the
      stripped text before the first break, a verbatim piece of `s` holding no
      punctuation mark followed by whitespace. */
  function FirstSentence(s: String): (r: String)
    ensures IsFirstSentenceOf(r, s)
    ensures IsStripped(r) && NoBreak(r)
    ensures exists i :: IsOccurrence(s, r, i)
  {
    FirstFragment(s);
    SplitSentencesFirstIs(s);
    var f := SplitSentences(s)[0];
    assert FirstFragmentEnd(s, |f|) && f == s[..|f|];
    Strip(f)
  }

  /** `tr` is the triplet the source builds around the phrase `t` at index `p`
      of `body`: the last sentence of the text before, the phrase as listed,
      and the first sentence of the text after. */
  predicate IsTripletAround(tr: Triplet, body: String, t: String, p: nat) {
    && tr.transition == t
    && IsLastSentenceOf(tr.paragraphA, Before(body, p))
    && IsFirstSentenceOf(tr.paragraphB, After(body, t, p))
  }

  /** The triplet built around the phrase `t` placed at index `p`. */
  function TripletAt(body: String, t: String, p: nat): (tr: Triplet)
    ensures IsTripletAround(tr, body, t, p)
    ensures IsStripped(tr.paragraphA) && NoBreak(tr.paragraphA)
    ensures IsStripped(tr.paragraphB) && NoBreak(tr.paragraphB)
  {
    Triplet(LastSentence(Before(body, p)), t, FirstSentence(After(body, t, p)))
  }

  /** The sentence pieces pin the triplet: two triplets built around the same
      phrase at the same index are the same triplet. */
  lemma TripletAroundUnique(tr: Triplet, tr': Triplet, body: String, t: String, p: nat)
    requires IsTripletAround(tr, body, t, p) && IsTripletAround(tr', body, t, p)
    ensures tr == tr'
  {
    LastSentenceUnique(tr.paragraphA, tr'.paragraphA, Before(body, p));
    FirstSentenceUnique(tr.paragraphB, tr'.paragraphB, After(body, t, p));
  }

  /** A text has one last sentence. */
  lemma LastSentenceUnique(r: String, r': String, s: String)
    ensures IsLastSentenceOf(r, s) && IsLastSentenceOf(r', s) ==> r == r'
  {
    if IsLastSentenceOf(r, s) && IsLastSentenceOf(r', s) {
      var e :| 0 <= e <= |s| && LastFragmentStart(s, e) && r == Strip(s[e..]);
      var e' :| 0 <= e' <= |s| && LastFragmentStart(s, e') && r' == Strip(s[e'..]);
      LastFragmentStartUnique(s, e, e');
    }
  }

  /** A text has one first sentence. */
  lemma FirstSentenceUnique(r: String, r': String, s: String)
    ensures IsFirstSentenceOf(r, s) && IsFirstSentenceOf(r', s) ==> r == r'
  {
    if IsFirstSentenceOf(r, s) && IsFirstSentenceOf(r', s) {
      var n :| 0 <= n <= |s| && FirstFragmentEnd(s, n) && r == Strip(s[..n]);
      var n' :| 0 <= n' <= |s| && FirstFragmentEnd(s, n') && r' == Strip(s[..n']);
      FirstFragmentEndUnique(s, n, n');
    }
  }

  /** Every hit of `t` in `body`, in increasing order. */
  function Hits(body: String, t: String): (ps: seq<nat>)
    ensures forall k :: 0 <= k < |ps| ==> IsHit(body, t, ps[k])
    ensures forall k, m :: 0 <= k < m < |ps| ==> ps[k] < ps[m]
    ensures forall p :: IsHit(body, t, p) ==> p in ps
  {
    Occurrences(LowerStr(body), LowerStr(t), 0)
  }

  /** The hits of `t` in `body` whose surroundings pass the length test:
      strictly increasing, and holding exactly the qualifying positions. */
  function QualifyingHits(body: String, t: String): (qs: seq<nat>)
    ensures forall k, m :: 0 <= k < m < |qs| ==> qs[k] < qs[m]
    ensures forall p :: p in qs <==> IsHit(body, t, p) && HasContext(body, t, p)
  {
    var keep := (p: nat) => HasContext(body, t, p);
    var qs := Filter(Hits(body, t), keep);
    FilterIncreasing(Hits(body, t), keep);
    assert forall p :: keep(p) == HasContext(body, t, p);
    qs
  }

  /** The triplets of one phrase in one article body: one per qualifying hit,
      in document order, each carrying the phrase unchanged and stripped
      sentence fragments with no punctuation mark followed by whitespace. */
  function PhraseTriplets(body: String, t: String): (trs: seq<Triplet>)
    ensures var qs := QualifyingHits(body, t);
            |trs| == |qs| && forall k :: 0 <= k < |qs| ==> trs[k] == TripletAt(body, t, qs[k])
    ensures forall tr :: tr in trs ==>
              && tr.transition == t
              && IsStripped(tr.paragraphA) && NoBreak(tr.paragraphA)
              && IsStripped(tr.paragraphB) && NoBreak(tr.paragraphB)
  {
    var qs := QualifyingHits(body, t);
    seq(|qs|, k requires 0 <= k < |qs| => TripletAt(body, t, qs[k]))
  }
}
