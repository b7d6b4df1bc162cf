/**
 Cutting a document's text into articles. Each article starts after an
 occurrence of the fixed marker, its body runs up to the first
 "Transitions :" label, and its transitions section runs from that label to
 the next marker (or the end of the text), cut short at an article-index
 footer. The section's lines are cleaned into the article's transition phrases.
 */
module Segmenter {
  import opened Wrappers
  import opened Text
  import opened Patterns

  /** The literal that opens each article's body. */
  const Marker: String := "À savoir également dans votre département"

  /** The literal that opens each article's transitions section. */
  const TransitionsLabel: String := "Transitions :"

  /** Every index where the marker occurs, overlapping occurrences included,
      in strictly increasing order. */
  function MarkerPositions(text: String): (ps: seq<nat>)
    ensures forall k, m :: 0 <= k < m < |ps| ==> ps[k] < ps[m]
    ensures forall i :: i in ps <==> IsOccurrence(text, Marker, i)
    ensures |ps| == 0 <==> forall i :: !IsOccurrence(text, Marker, i)
  {
    Occurrences(text, Marker, 0)
  }

  /** Where the article of the `i`-th marker ends: the next marker, or the end of the text. */
  function NextBoundary(text: String, ps: seq<nat>, i: nat): (next: nat)
    requires i < |ps|
  {
    if i + 1 < |ps| then ps[i + 1] else |text|
  }

  /** One article that was not skipped: its stripped body and its transition phrases. */
  datatype Article = Article(body: String, phrases: seq<String>)

  /** Truncation of a transitions section at its first article-index footer
      (the section is stripped only when a footer was found). */
  function CutFooter(section: String): (r: String) {
    match FirstFooter(section)
    case None => section
    case Some(j) => Strip(section[..j])
  }

  /** A section without a footer is kept as it is; otherwise it is cut just
      before its leftmost footer and stripped. */
  lemma CutFooterCuts(section: String)
    ensures (forall j :: 0 <= j <= |section| ==> !FooterAt(section, j)) ==> CutFooter(section) == section
    ensures forall j :: 0 <= j < |section| && FooterAt(section, j)
                        && (forall k :: 0 <= k < j ==> !FooterAt(section, k))
                        ==> CutFooter(section) == Strip(section[..j])
  {
    forall j | 0 <= j < |section| && FooterAt(section, j) && (forall k :: 0 <= k < j ==> !FooterAt(section, k))
      ensures CutFooter(section) == Strip(section[..j])
    {
      FirstFooterIs(section, j);
    }
  }

  /** A cleaned transition phrase: longer than two characters, stripped, and
      not starting with a bullet, digit, dot or whitespace. */
  predicate IsPhrase(p: String) {
    |p| > 2 && IsStripped(p) && !IsJunk(p[0])
  }

  /** The cleanup of one line of a transitions section (None: the line is dropped). */
  function CleanLine(line: String): (r: Option<String>) {
    var l := Strip(line);
    if l == [] || l == TransitionsLabel || ArticleIndexAt(l, 0) then None
    else
      var c := Cleaned(line);
      if |c| > 2 then Some(c) else None
  }

  /** A line with its surrounding whitespace and its leading bullets, digits
      and dots removed. */
  function Cleaned(line: String): (r: String) {
    Strip(DropLeadingJunk(Strip(line)))
  }

  /** A line yields a phrase only if, stripped, it is neither empty, nor the
      "Transitions :" label, nor an article-index footer; the phrase is then a
      cleaned transition phrase. */
  lemma CleanLineSound(line: String)
    ensures Strip(line) == [] || Strip(line) == TransitionsLabel || ArticleIndexAt(Strip(line), 0)
            ==> CleanLine(line).None?
    ensures CleanLine(line).Some? ==> IsPhrase(CleanLine(line).value)
  {
    if CleanLine(line).Some? {
      CleanedIsPhrase(DropLeadingJunk(Strip(line)));
    }
  }

  /** Every character of the phrase a line yields is a character of that line. */
  lemma CleanLineChars(line: String)
    ensures CleanLine(line).Some? ==> forall c :: c in CleanLine(line).value ==> c in line
  {
    StripChars(line);
    DropLeadingJunkChars(Strip(line));
    StripChars(DropLeadingJunk(Strip(line)));
  }

  /** The cleaned line is a contiguous piece of the line: cleanup only trims. */
  lemma CleanedVerbatim(line: String)
    ensures exists i :: IsOccurrence(line, Cleaned(line), i)
  {
    var s := Strip(line);
    var d := DropLeadingJunk(s);
    var i := OccurrenceChain(line, s, d, Cleaned(line), LeadingSpace(line), |s| - |d|, LeadingSpace(d));
  }

  /** The phrase a line yields is a contiguous piece of that line. */
  lemma CleanLineVerbatim(line: String)
    ensures CleanLine(line).Some? ==> exists i :: IsOccurrence(line, CleanLine(line).value, i)
  {
    CleanedVerbatim(line);
  }

  /** Stripping a line whose leading junk is gone only trims its end, so the
      first character stays a non-junk one. */
  lemma CleanedIsPhrase(d: String)
    requires d == [] || !IsJunk(d[0])
    ensures IsOccurrence(d, Strip(d), 0)
    ensures |Strip(d)| > 2 ==> IsPhrase(Strip(d))
  {
    assert LeadingSpace(d) == 0;
  }

  /** The phrases of a sequence of lines, in line order. */
  function Phrases(lines: seq<String>): (ps: seq<String>)
    ensures |ps| <= |lines|
    ensures forall k :: 0 <= k < |lines| && CleanLine(lines[k]).Some? ==> CleanLine(lines[k]).value in ps
    ensures forall p :: p in ps ==> exists k :: 0 <= k < |lines| && CleanLine(lines[k]) == Some(p)
  {
    var cleaned := Map(lines, CleanLine);
    var ps := Somes(cleaned);
    forall p | p in ps
      ensures exists k :: 0 <= k < |lines| && CleanLine(lines[k]) == Some(p)
    {
      var k :| 0 <= k < |cleaned| && cleaned[k] == Some(p);
      assert CleanLine(lines[k]) == Some(p);
    }
    ps
  }

  /** The loop over the lines appends each line's phrase, when it yields one,
      after the phrases of the lines before it: order and repeats are kept. */
  lemma PhrasesAppend(lines: seq<String>, line: String)
    ensures Phrases(lines + [line])
            == Phrases(lines) + (if CleanLine(line).Some? then [CleanLine(line).value] else [])
  {
    MapAppend(lines, line, CleanLine);
    SomesAppend(Map(lines, CleanLine), CleanLine(line));
  }

  /** The phrases of a transitions section: cut at the footer, split into lines, cleaned. */
  function SectionPhrases(section: String): (ps: seq<String>) {
    Phrases(SplitOn(CutFooter(section), '\n'))
  }

  /** Every phrase of a section is a cleaned phrase that lies within one line. */
  lemma SectionPhrasesSound(section: String)
    ensures forall p :: p in SectionPhrases(section) ==> IsPhrase(p) && '\n' !in p
  {
    var lines := SplitOn(CutFooter(section), '\n');
    forall p | p in SectionPhrases(section)
      ensures IsPhrase(p) && '\n' !in p
    {
      var k :| 0 <= k < |lines| && CleanLine(lines[k]) == Some(p);
      CleanLineSound(lines[k]);
      CleanLineChars(lines[k]);
    }
  }

  /** The article opened by the marker at `markerPos`, bounded by `next`.
      It is skipped (None) exactly when no "Transitions :" label starts between
      the end of the marker and `next`, both included. */
  function CutArticle(text: String, markerPos: nat, next: nat): (r: Option<Article>)
    ensures r.Some? <==> exists j :: markerPos + |Marker| <= j <= next && IsOccurrence(text, TransitionsLabel, j)
    ensures r.Some? ==> forall p :: p in r.value.phrases ==> IsPhrase(p) && '\n' !in p
    ensures r.Some? ==> IsStripped(r.value.body)
  {
    var start := markerPos + |Marker|;
    match Find(text, TransitionsLabel, start)
    case None => None
    case Some(t) =>
      if t > next then None
      else
        var body := Strip(text[start..t]);
        var section := Slice(text, t + |TransitionsLabel|, next);
        SectionPhrasesSound(section);
        Some(Article(body, SectionPhrases(section)))
  }

  /** `a` is the article cut at the label `j`: `j` is the first "Transitions :"
      label after the marker at `markerPos`, it starts no later than `next`,
      the body is the stripped text between the marker and the label, and the
      phrases are those of the text from the end of the label to `next`. */
  predicate IsArticleCut(text: String, markerPos: nat, next: nat, j: nat, a: Article) {
    && markerPos + |Marker| <= j <= next
    && IsOccurrence(text, TransitionsLabel, j)
    && (forall k :: markerPos + |Marker| <= k < j ==> !IsOccurrence(text, TransitionsLabel, k))
    && a.body == Strip(text[markerPos + |Marker|..j])
    && a.phrases == SectionPhrases(Slice(text, j + |TransitionsLabel|, next))
  }

  /** An article that is kept is cut at the first label after its marker. */
  lemma CutArticleAtLabel(text: String, markerPos: nat, next: nat)
    ensures var r := CutArticle(text, markerPos, next);
            r.Some? ==> exists j :: IsArticleCut(text, markerPos, next, j, r.value)
  {
    var r := CutArticle(text, markerPos, next);
    if r.Some? {
      var t := Find(text, TransitionsLabel, markerPos + |Marker|).value;
      assert IsArticleCut(text, markerPos, next, t, r.value);
    }
  }
}
