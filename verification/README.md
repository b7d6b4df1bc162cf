# Transition extractor: a Dafny model

`transition_extractor.py` reads French newsletter documents. Each article in a
document opens with the marker "À savoir également dans votre département",
followed by the main paragraph. A "Transitions :" label then opens a section
that lists transition phrases, one per line.

The tool does two things:
- it collects (sentence before, transition, sentence after) triplets wherever
  a listed phrase occurs in its article;
- it aggregates the triplets and phrases into training files: a capped example
  list, frequency reports, a sorted phrase list and chat-format records.

This project models, as pure functions over `seq<char>`:
- the text logic of `process_document`, starting from the joined document text:
  - the marker scan;
  - article cutting and skipping;
  - the footer cut;
  - line cleanup;
  - the case-insensitive, overlapping phrase search and the triplet build;
  - the diagnostic record.
- the whole of `generate_outputs`:
  - the cap of three triplets per transition;
  - the frequency reports;
  - the sorted, de-duplicated list;
  - the chat records.

Modules, one per stage of the pipeline:

- `Wrappers` (`wrappers.dfy`): `Option`.
- `Text` (`text.dfy`): Python string primitives:
  - `str.strip`, clamped slicing, `str.find`;
  - the repeated-find scan;
  - `split('\n')` and `"\n".join`;
  - `str.lower`, as a per-character map;
  - the whitespace class `\s`;
  - `str(n)`.
- `Patterns` (`patterns.dfy`): the regular expressions of the tool, as a small
  greedy token matcher:
  - the article-index footer `\n\s*\d+\s+du\s+\d+/\d+`;
  - the leading-junk class `[-•\d\.\s]+`;
  - the sentence break `[.!?]+\s+`, with `re.split` on it.

  Each run in these patterns is followed by a token its class cannot match, so
  greedy matching without backtracking finds exactly what the regex engine finds.
- `Segmenter` (`segmenter.dfy`): marker positions, article cutting, footer cut,
  line cleanup.
- `Context` (`context.dfy`): hits of a phrase in a body, the length test,
  sentence fragments, triplets.
- `Document` (`document.dfy`): `process_document` on the joined text.
- `Aggregate` (`aggregate.dfy`): `generate_outputs`.

What the code does not do, and so the model does not do either:
- It does not apply the length test to the extracted sentences. The test
  `len(before) > 10 and len(after) > 10` is on the whole stripped text before
  and after a hit.
- It generates no variants of a phrase.
- It does not merge nearby hits.
- It does not strip trailing commas.
- It has no fallback when the text after a hit is short.

## Model

| member | source | states |
|---|---|---|
| Segmenter.MarkerPositions | transition_extractor.py:49-56 | The scan records exactly the indices where the marker occurs, overlapping ones included, in strictly increasing order; it is empty exactly when the marker does not occur. |
| Text.Find | transition_extractor.py:52-54 | `find` returns the least occurrence at or after the start index, and reports none exactly when no occurrence exists there. |
| Text.Occurrences | transition_extractor.py:116-142 | Repeated `find` resuming one past each hit yields every occurrence at or after the start, strictly increasing, and nothing else. |
| Document.ProcessDocumentMarkers | transition_extractor.py:58-67 | Without a marker the result is empty triplets and phrases with `has_marker` false and a zero count; otherwise `marker_count` is the number of positions and `transition_lines_found` the number of phrases. |
| Segmenter.CutArticle | transition_extractor.py:72-93 | An article is kept exactly when a "Transitions :" label starts between the end of its marker and the next marker or the end of text, both included; a kept article has a stripped body and only cleaned, single-line phrases. |
| Segmenter.CutArticleAtLabel | transition_extractor.py:72-96 | A kept article is cut at the first "Transitions :" label after its marker. Its body is the stripped text between the marker and that label. Its phrases are those of the text from the end of the label to the next marker or the end of text. |
| Document.ProcessDocumentArticles | transition_extractor.py:70-145 | `articles_processed` equals the number of markers whose article is not skipped. |
| Patterns.FirstFooter | transition_extractor.py:94 | The footer search finds the least index where a newline, optional whitespace and an `N du N/N` index start, or reports that none exists. |
| Segmenter.CutFooterCuts | transition_extractor.py:94-96 | A section without a footer is kept as is; otherwise it is cut before its first footer and stripped. |
| Patterns.DropLeadingJunk | transition_extractor.py:104 | Removing the leading `[-•\d.\s]+` run leaves a suffix that does not start with such a character, and everything removed was such a character. |
| Text.Strip | transition_extractor.py:101 | `strip` yields a piece of its input, taken after the leading whitespace, that neither starts nor ends with whitespace. |
| Text.StripSpec | transition_extractor.py:101 | The input is whitespace, then the stripped text, then whitespace. |
| Text.SplitOn | transition_extractor.py:100 | Splitting on a character yields at least one piece, no piece holds the character, and joining the pieces with it gives the input back. |
| Text.SplitOnJoin | transition_extractor.py:178 | Joining pieces free of the separator and splitting again gives the pieces back. |
| Segmenter.CleanLineSound | transition_extractor.py:100-105 | A blank line, the label line or a footer line yields no phrase; a phrase that is yielded is longer than two characters, stripped, and does not start with a bullet, digit, dot or whitespace. |
| Segmenter.CleanLineVerbatim | transition_extractor.py:101-104 | A phrase is a verbatim piece of the line it came from. |
| Segmenter.Phrases | transition_extractor.py:100-106 | The phrases of a section are exactly the phrases its lines yield. |
| Segmenter.PhrasesAppend | transition_extractor.py:100-106 | The loop appends each line's phrase, when the line yields one, after the phrases of the earlier lines, so line order and repeats are kept. |
| Segmenter.SectionPhrasesSound | transition_extractor.py:94-106 | Every phrase of a section is a cleaned phrase contained in a single line. |
| Document.ProcessDocumentPhrases | transition_extractor.py:99-107 | Every phrase returned for a document is a cleaned phrase contained in a single line. |
| Context.Hits | transition_extractor.py:113-120 | The candidates for a phrase are every index where the lower-cased phrase occurs in the lower-cased body, overlapping ones included, in increasing order. |
| Text.LowerStr | transition_extractor.py:113-114 | Lower-casing keeps the length and maps each character independently, so indices in the lower-cased text are indices in the original. |
| Context.QualifyingHits | transition_extractor.py:116-126 | The positions that yield triplets are exactly the hits whose stripped text before and stripped text after are each longer than ten characters. |
| Patterns.SplitSentencesNoBreak | transition_extractor.py:128 | No fragment of the sentence split holds a terminal punctuation mark followed by whitespace. |
| Patterns.SplitSentencesWhole | transition_extractor.py:128 | The split returns the text as its only fragment exactly when the text holds no punctuation mark followed by whitespace. |
| Patterns.SplitSentencesLast | transition_extractor.py:129 | The last fragment is a suffix of the text. |
| Patterns.SplitSentencesFirst | transition_extractor.py:133 | The first fragment is a prefix of the text. |
| Patterns.SplitSentencesFirstIs | transition_extractor.py:132-133 | The first fragment is the prefix of the text that ends where its first punctuation-then-whitespace run starts, or the whole text when it has none. |
| Patterns.SplitSentencesLastIs | transition_extractor.py:128-129 | The last fragment is the suffix of the text that starts where its last punctuation-then-whitespace run ends, or the whole text when it has none. |
| Patterns.FirstFragmentEndUnique | transition_extractor.py:132-133 | The end of the first fragment is determined by the text. |
| Patterns.LastFragmentStartUnique | transition_extractor.py:128-129 | The start of the last fragment is determined by the text. |
| Context.LastSentence | transition_extractor.py:128-129 | `paragraph_a` is the last fragment of the split of the text before the hit, stripped. It is a stripped, verbatim piece of that text with no punctuation mark followed by whitespace. |
| Context.FirstSentence | transition_extractor.py:132-133 | `paragraph_b` is the first fragment of the split of the text after the hit, stripped. It is a stripped, verbatim piece of that text with no punctuation mark followed by whitespace. |
| Context.LastSentenceUnique | transition_extractor.py:128-129 | Only one text is the stripped last sentence of a given text. |
| Context.FirstSentenceUnique | transition_extractor.py:132-133 | Only one text is the stripped first sentence of a given text. |
| Context.TripletAt | transition_extractor.py:123-139 | A triplet carries the phrase unchanged. `paragraph_a` is the stripped last sentence of the stripped text before the hit. `paragraph_b` is the stripped first sentence of the stripped text after the phrase. Both are stripped and free of inner breaks. |
| Context.TripletAroundUnique | transition_extractor.py:123-139 | These three conditions determine the triplet of a hit. |
| Context.PhraseTriplets | transition_extractor.py:116-142 | One triplet per qualifying hit, in document order, each carrying the phrase unchanged. |
| Document.ArticleTriplets | transition_extractor.py:110-140 | Every triplet of an article carries one of the article's phrases. |
| Document.ArticleTripletsAppend | transition_extractor.py:110-142 | The loop over an article's phrases appends each phrase's triplets after those of the phrases before it. |
| Document.ArticleTripletsComplete | transition_extractor.py:110-142 | Every qualifying hit of every phrase of an article yields its triplet. |
| Document.ArticleTripletsSound | transition_extractor.py:110-142 | Every triplet of an article is the triplet of a qualifying hit of one of its phrases. |
| Document.AllTripletsAppend | transition_extractor.py:110-144 | The loop over articles appends each article's triplets after those of the earlier articles. |
| Document.AllTripletsComplete | transition_extractor.py:110-144 | Every qualifying hit of every phrase of every article yields its triplet. |
| Document.AllTripletsSound | transition_extractor.py:110-144 | Every triplet comes from a qualifying hit of a phrase of one of the articles. |
| Document.ProcessDocument | transition_extractor.py:70-148 | The returned triplets and phrases are those of the articles that are not skipped, article by article in marker order. |
| Document.ProcessDocumentHits | transition_extractor.py:70-148 | Each qualifying hit of each phrase of each kept article yields its triplet in the document's result. Each triplet of the result holds the last sentence before such a hit and the first sentence after it. |
| Document.ProcessDocumentTripletPhrases | transition_extractor.py:110-148 | Every triplet of a document carries one of the document's phrases. |
| Document.ProcessDocumentTriplets | transition_extractor.py:123-140 | Both paragraphs of every triplet of a document are stripped and free of punctuation followed by whitespace. |
| Document.AllPhrases | transition_extractor.py:144 | The document's phrases are exactly the phrases of its kept articles. |
| Document.AllPhrasesAppend | transition_extractor.py:144 | `extend` appends each article's phrases after those of the earlier articles, so order and repeats are kept. |
| Aggregate.CapLoop | transition_extractor.py:161-168 | The loop with its usage counter computes the capped list; its counter always equals the count of each transition among the kept triplets. |
| Aggregate.CapCounts | transition_extractor.py:160-168 | For every transition, the capped list keeps min(3, n) of the n triplets carrying it. |
| Aggregate.CapSnoc | transition_extractor.py:164-168 | A triplet is kept exactly when fewer than three earlier triplets carry its transition. |
| Aggregate.CapIsSubsequence | transition_extractor.py:161-168 | The capped list is an order-preserving subsequence of the input. |
| Aggregate.Distinct | transition_extractor.py:158 | The keys of a `Counter` are the distinct inputs, each once. |
| Aggregate.DistinctFirstSeen | transition_extractor.py:175 | The keys come in order of first appearance: an earlier key occurs before every occurrence of a later one. |
| Aggregate.Report | transition_extractor.py:174-177 | The report lists exactly the phrases counted more than the threshold, each once with its count, in first-seen order. |
| Aggregate.ParseRenderEntry | transition_extractor.py:177 | A `"t: n"` line reads back as its phrase and count. |
| Aggregate.ReportTextLines | transition_extractor.py:177-178 | A report text splits into one line per entry, each parsing as its entry; an empty report is the empty text. |
| Aggregate.ReportLines | transition_extractor.py:174-189 | A report text is empty exactly when no phrase exceeds the threshold; otherwise each line is a phrase over the threshold with its exact count, and each such phrase has a line. |
| Aggregate.SortedSet | transition_extractor.py:181 | `sorted(set(...))` is strictly increasing in code-point order and holds exactly the input phrases. |
| Aggregate.Insert | transition_extractor.py:181 | Inserting into a strictly sorted list keeps it strictly sorted and adds exactly the new phrase. |
| Aggregate.LessTotal | transition_extractor.py:181 | Python's string order is total. |
| Aggregate.LessTransitive | transition_extractor.py:181 | Python's string order is transitive. |
| Aggregate.StrictlySortedDistinct | transition_extractor.py:181 | A strictly sorted list has no duplicates. |
| Aggregate.TransitionsTextLines | transition_extractor.py:181 | The phrase list text splits back into the sorted list. |
| Aggregate.ToRecord | transition_extractor.py:194-209 | A record has the fixed system message, a user turn of `paragraph_a + " " + transition` and an assistant turn of `paragraph_b`; the triplet reads back from it. |
| Aggregate.Records | transition_extractor.py:192-212 | One record per capped triplet, in the same order, each reading back as its triplet. |
| Aggregate.GenerateOutputs | transition_extractor.py:155-229 | The examples are the capped list: for every transition, its first min(3, n) triplets, in input order. `valid_examples` is their number. There is one readable record per example. The two triplet rejection reports are the same text: the report of the transitions seen more than 3 times. The transitions report lists those seen more than once. Both report texts read back as their reports. The phrase list is sorted and de-duplicated. |

## Left out

- Reading the `.docx` file and joining its non-blank paragraphs: the model starts from the joined text.
- `extract_text_from_docx`, the `try`/`except` blocks and `st.error`: the exception path returns fixed values and reports to the user interface.
- `create_download_zip` and `main`: archive writing and the Streamlit interface.
- `json.dumps` of the example list and of each chat record: records are modelled as the datatypes they serialise, not as JSON text.
- The guard `transition.lower() in main_paragraph.lower()` at line 111 is not modelled: the occurrence scan it protects finds nothing when it fails.
- Text.Lower: maps ASCII and Latin-1 capitals, Œ and Ÿ only. Other Unicode case mappings are left out, including those that change length.
- Text.IsDigit: `\d` is modelled as the ASCII digits only, in the footer search, the leading-junk class and the footer test of line cleanup. Python also matches other Unicode decimal digits.
- Document.ProcessDocumentMarkers: the diagnostic list `found_transitions` is the list of returned phrases. The model does not separate the per-article appends.
