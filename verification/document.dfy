/**
 `process_document` from the document's joined text on: the marker scan, the
 articles that are not skipped, their phrases and triplets, and the
 diagnostic record.
 */
module Document {
  import opened Wrappers
  import opened Text
  import opened Patterns
  import opened Segmenter
  import opened Context

  /** The diagnostic record. `transitionLinesFound` is absent when the text has no marker. */
  datatype Diagnostics = Diagnostics(
    textLength: nat,
    hasMarker: bool,
    markerCount: nat,
    foundTransitions: seq<String>,
    articlesProcessed: nat,
    transitionLinesFound: Option<nat>)

  /** What `process_document` returns: triplets, phrases, the document name, diagnostics. */
  datatype DocResult = DocResult(
    triplets: seq<Triplet>,
    transitions: seq<String>,
    name: String,
    info: Diagnostics)

  /** The triplets of one article: phrase by phrase, each phrase's in document order. */
  function ArticleTriplets(body: String, phrases: seq<String>): (trs: seq<Triplet>)
    ensures forall tr :: tr in trs ==> tr.transition in phrases
    decreases |phrases|
  {
    if phrases == [] then []
    else
      var rest := ArticleTriplets(body, phrases[1..]);
      assert forall x :: x in phrases[1..] ==> x in phrases;
      PhraseTriplets(body, phrases[0]) + rest
  }

  /** The loop over an article's phrases appends the triplets of each phrase
      after those of the phrases before it. */
  lemma {:induction false} ArticleTripletsAppend(body: String, phrases: seq<String>, t: String)
    ensures ArticleTriplets(body, phrases + [t]) == ArticleTriplets(body, phrases) + PhraseTriplets(body, t)
    decreases |phrases|
  {
    if phrases != [] {
      assert (phrases + [t])[1..] == phrases[1..] + [t];
      ArticleTripletsAppend(body, phrases[1..], t);
    } else {
      assert ([] + [t])[1..] == [];
    }
  }

  /** Every qualifying hit of every phrase of an article yields its triplet. */
  lemma {:induction false} ArticleTripletsComplete(body: String, phrases: seq<String>)
    ensures forall t, p :: t in phrases && p in QualifyingHits(body, t) ==>
              TripletAt(body, t, p) in ArticleTriplets(body, phrases)
    decreases |phrases|
  {
    if phrases != [] {
      ArticleTripletsComplete(body, phrases[1..]);
      forall t, p | t in phrases && p in QualifyingHits(body, t)
        ensures TripletAt(body, t, p) in ArticleTriplets(body, phrases)
      {
        if t == phrases[0] {
          var qs := QualifyingHits(body, t);
          var k :| 0 <= k < |qs| && qs[k] == p;
          assert PhraseTriplets(body, t)[k] == TripletAt(body, t, p);
        } else {
          assert t in phrases[1..];
        }
      }
    }
  }

  /** Every triplet of an article is built around a qualifying hit of one of
      its phrases. */
  predicate FromHit(tr: Triplet, body: String, phrases: seq<String>) {
    && tr.transition in phrases
    && exists p :: p in QualifyingHits(body, tr.transition) && tr == TripletAt(body, tr.transition, p)
  }

  lemma {:induction false} ArticleTripletsSound(body: String, phrases: seq<String>)
    ensures forall tr :: tr in ArticleTriplets(body, phrases) ==> FromHit(tr, body, phrases)
    decreases |phrases|
  {
    if phrases != [] {
      ArticleTripletsSound(body, phrases[1..]);
      var head := PhraseTriplets(body, phrases[0]);
      forall tr | tr in ArticleTriplets(body, phrases)
        ensures FromHit(tr, body, phrases)
      {
        if tr in head {
          var k :| 0 <= k < |head| && head[k] == tr;
          assert QualifyingHits(body, phrases[0])[k] in QualifyingHits(body, phrases[0]);
        } else {
          assert FromHit(tr, body, phrases[1..]);
          assert tr.transition in phrases;
        }
      }
    }
  }

  /** The article of the `i`-th marker, or None when it is skipped. */
  function ArticleAt(text: String, ps: seq<nat>, i: nat): (r: Option<Article>)
    requires i < |ps|
  {
    CutArticle(text, ps[i], NextBoundary(text, ps, i))
  }

  /** The outcome of every marker's article, skipped or not, in marker order. */
  function Cuts(text: String, ps: seq<nat>): (cs: seq<Option<Article>>)
    ensures |cs| == |ps|
    ensures forall i :: 0 <= i < |ps| ==> cs[i] == ArticleAt(text, ps, i)
  {
    seq(|ps|, i requires 0 <= i < |ps| => ArticleAt(text, ps, i))
  }

  /** The phrases of a sequence of articles, article by article. */
  function AllPhrases(arts: seq<Article>): (ts: seq<String>)
    ensures forall a, t :: a in arts && t in a.phrases ==> t in ts
    ensures forall t :: t in ts ==> exists a :: a in arts && t in a.phrases
  {
    if arts == [] then []
    else
      var rest := AllPhrases(arts[1..]);
      assert forall a :: a in arts ==> a == arts[0] || a in arts[1..];
      forall t | t in arts[0].phrases + rest
        ensures exists a :: a in arts && t in a.phrases
      {
        if t !in arts[0].phrases {
          var a :| a in arts[1..] && t in a.phrases;
          assert a in arts;
        }
      }
      arts[0].phrases + rest
  }

  /** The triplets of a sequence of articles, article by article. */
  function AllTriplets(arts: seq<Article>): (trs: seq<Triplet>)
    ensures forall tr :: tr in trs ==> exists a :: a in arts && tr.transition in a.phrases
  {
    if arts == [] then []
    else
      var rest := AllTriplets(arts[1..]);
      forall tr | tr in ArticleTriplets(arts[0].body, arts[0].phrases) + rest
        ensures exists a :: a in arts && tr.transition in a.phrases
      {
        if tr !in ArticleTriplets(arts[0].body, arts[0].phrases) {
          var a :| a in arts[1..] && tr.transition in a.phrases;
          assert a in arts;
        }
      }
      ArticleTriplets(arts[0].body, arts[0].phrases) + rest
  }

  /** The articles of a text that are not skipped, in marker order. */
  function KeptArticles(text: String): seq<Article> {
    Somes(Cuts(text, MarkerPositions(text)))
  }

  /** The loop over the articles appends each article's phrases after those
      of the articles before it. */
  lemma {:induction false} AllPhrasesAppend(arts: seq<Article>, a: Article)
    ensures AllPhrases(arts + [a]) == AllPhrases(arts) + a.phrases
  {
    if arts == [] {
      assert [] + [a] == [a];
    } else {
      assert (arts + [a])[1..] == arts[1..] + [a];
      AllPhrasesAppend(arts[1..], a);
    }
  }

  /** The loop over the articles appends each article's triplets after those
      of the articles before it. */
  lemma {:induction false} AllTripletsAppend(arts: seq<Article>, a: Article)
    ensures AllTriplets(arts + [a]) == AllTriplets(arts) + ArticleTriplets(a.body, a.phrases)
  {
    if arts == [] {
      assert [] + [a] == [a];
    } else {
      assert (arts + [a])[1..] == arts[1..] + [a];
      AllTripletsAppend(arts[1..], a);
    }
  }

  /** Every qualifying hit of every phrase of every article yields its triplet. */
  lemma {:induction false} AllTripletsComplete(arts: seq<Article>)
    ensures forall a, t, p :: a in arts && t in a.phrases && p in QualifyingHits(a.body, t) ==>
              TripletAt(a.body, t, p) in AllTriplets(arts)
  {
    if arts != [] {
      AllTripletsComplete(arts[1..]);
      ArticleTripletsComplete(arts[0].body, arts[0].phrases);
      forall a, t, p | a in arts && t in a.phrases && p in QualifyingHits(a.body, t)
        ensures TripletAt(a.body, t, p) in AllTriplets(arts)
      {
        if a != arts[0] {
          assert a in arts[1..];
        }
      }
    }
  }

  /** Every triplet of a sequence of articles comes from a qualifying hit of
      a phrase of one of them. */
  lemma {:induction false} AllTripletsSound(arts: seq<Article>)
    ensures forall tr :: tr in AllTriplets(arts) ==>
              exists a :: a in arts && FromHit(tr, a.body, a.phrases)
  {
    if arts != [] {
      AllTripletsSound(arts[1..]);
      ArticleTripletsSound(arts[0].body, arts[0].phrases);
      forall tr | tr in AllTriplets(arts)
        ensures exists a :: a in arts && FromHit(tr, a.body, a.phrases)
      {
        var head := ArticleTriplets(arts[0].body, arts[0].phrases);
        var a := if tr in head then arts[0] else
          assert tr in AllTriplets(arts[1..]);
          var b :| b in arts[1..] && FromHit(tr, b.body, b.phrases); b;
        assert a in arts && FromHit(tr, a.body, a.phrases);
      }
    }
  }

  /** `process_document` on the joined text of a document named `name`. */
  function ProcessDocument(text: String, name: String): (r: DocResult)
    ensures r.triplets == AllTriplets(KeptArticles(text))
    ensures r.transitions == AllPhrases(KeptArticles(text))
  {
    var ps := MarkerPositions(text);
    if ps == [] then
      DocResult([], [], name, Diagnostics(|text|, false, 0, [], 0, None))
    else
      var arts := KeptArticles(text);
      var ts := AllPhrases(arts);
      DocResult(AllTriplets(arts), ts, name, Diagnostics(|text|, true, |ps|, ts, |arts|, Some(|ts|)))
  }

  /** A text without the marker yields nothing and says so; otherwise the
      marker count is the number of marker positions. */
  lemma ProcessDocumentMarkers(text: String, name: String)
    ensures var r := ProcessDocument(text, name);
            && r.name == name
            && r.info.textLength == |text|
            && (r.info.hasMarker <==> exists i :: IsOccurrence(text, Marker, i))
            && (!r.info.hasMarker ==>
                  r.triplets == [] && r.transitions == [] && r.info.markerCount == 0
                  && r.info.articlesProcessed == 0 && r.info.transitionLinesFound.None?)
            && (r.info.hasMarker ==>
                  r.info.markerCount == |MarkerPositions(text)| > 0
                  && r.info.transitionLinesFound == Some(|r.transitions|))
            && r.info.foundTransitions == r.transitions
  {
  }

  /** `articles_processed` counts exactly the markers whose article is not skipped. */
  lemma ProcessDocumentArticles(text: String, name: String)
    ensures var r := ProcessDocument(text, name);
            var ps := MarkerPositions(text);
            r.info.articlesProcessed == |set i | 0 <= i < |ps| && ArticleAt(text, ps, i).Some?|
  {
    CutsCount(text, MarkerPositions(text));
  }

  /** The kept articles are as many as the markers whose article is kept. */
  lemma CutsCount(text: String, ps: seq<nat>)
    ensures |Somes(Cuts(text, ps))| == |set i | 0 <= i < |ps| && ArticleAt(text, ps, i).Some?|
  {
    var cs := Cuts(text, ps);
    var a, b := set i | 0 <= i < |ps| && cs[i].Some?, set i | 0 <= i < |ps| && ArticleAt(text, ps, i).Some?;
    assert |Somes(cs)| == |a| by {
      SomesCount(cs, |ps|);
      assert cs[..|ps|] == cs;
    }
    assert a == b by {
      forall i | 0 <= i < |ps|
        ensures i in a <==> i in b
      {
        assert cs[i] == ArticleAt(text, ps, i);
      }
    }
  }

  /** Every triplet of a document carries one of the document's phrases. */
  lemma ProcessDocumentTripletPhrases(text: String, name: String)
    ensures var r := ProcessDocument(text, name);
            forall tr :: tr in r.triplets ==> tr.transition in r.transitions
  {
  }

  /** The triplets of a document are exactly those of the qualifying hits of
      its kept articles' phrases: each such hit yields its triplet, and each
      triplet holds the last sentence before one such hit and the first
      sentence after it. */
  lemma ProcessDocumentHits(text: String, name: String)
    ensures var r := ProcessDocument(text, name);
            forall a, t, p :: a in KeptArticles(text) && t in a.phrases && p in QualifyingHits(a.body, t) ==>
              TripletAt(a.body, t, p) in r.triplets
    ensures var r := ProcessDocument(text, name);
            forall tr :: tr in r.triplets ==>
              exists a, p :: && a in KeptArticles(text) && tr.transition in a.phrases
                             && p in QualifyingHits(a.body, tr.transition)
                             && IsTripletAround(tr, a.body, tr.transition, p)
  {
    var arts := KeptArticles(text);
    AllTripletsComplete(arts);
    AllTripletsSound(arts);
    forall tr | tr in ProcessDocument(text, name).triplets
      ensures exists a, p :: && a in arts && tr.transition in a.phrases
                             && p in QualifyingHits(a.body, tr.transition)
                             && IsTripletAround(tr, a.body, tr.transition, p)
    {
      var a :| a in arts && FromHit(tr, a.body, a.phrases);
      var p :| p in QualifyingHits(a.body, tr.transition) && tr == TripletAt(a.body, tr.transition, p);
      assert IsTripletAround(tr, a.body, tr.transition, p);
    }
  }

  /** Every phrase of a document is a cleaned phrase within one line. */
  lemma ProcessDocumentPhrases(text: String, name: String)
    ensures forall t :: t in ProcessDocument(text, name).transitions ==> IsPhrase(t) && '\n' !in t
  {
    CutsSound(text, MarkerPositions(text));
    AllPhrasesSound(KeptArticles(text));
  }

  /** An article whose phrases are cleaned phrases within one line. */
  predicate SoundArticle(a: Article) {
    forall p :: p in a.phrases ==> IsPhrase(p) && '\n' !in p
  }

  /** Every article that is not skipped is sound. */
  lemma CutsSound(text: String, ps: seq<nat>)
    ensures forall a :: a in Somes(Cuts(text, ps)) ==> SoundArticle(a)
  {
    var cs := Cuts(text, ps);
    forall a | a in Somes(cs)
      ensures SoundArticle(a)
    {
      var k :| 0 <= k < |cs| && cs[k] == Some(a);
      assert ArticleAt(text, ps, k) == Some(a);
    }
  }

  /** The phrases of sound articles are cleaned phrases within one line. */
  lemma AllPhrasesSound(arts: seq<Article>)
    requires forall a :: a in arts ==> SoundArticle(a)
    ensures forall t :: t in AllPhrases(arts) ==> IsPhrase(t) && '\n' !in t
  {
    forall t | t in AllPhrases(arts)
      ensures IsPhrase(t) && '\n' !in t
    {
      var a :| a in arts && t in a.phrases;
      assert SoundArticle(a);
    }
  }

  /** Every triplet of a document holds stripped sentence fragments with no
      punctuation mark followed by whitespace. */
  lemma ProcessDocumentTriplets(text: String, name: String)
    ensures forall tr :: tr in ProcessDocument(text, name).triplets ==>
              && IsStripped(tr.paragraphA) && NoBreak(tr.paragraphA)
              && IsStripped(tr.paragraphB) && NoBreak(tr.paragraphB)
  {
    AllTripletsShape(KeptArticles(text));
  }

  /** The triplets of an article's phrases have the shape of `PhraseTriplets`. */
  lemma {:induction false} ArticleTripletsShape(body: String, phrases: seq<String>)
    ensures forall tr :: tr in ArticleTriplets(body, phrases) ==>
              && IsStripped(tr.paragraphA) && NoBreak(tr.paragraphA)
              && IsStripped(tr.paragraphB) && NoBreak(tr.paragraphB)
    decreases |phrases|
  {
    if phrases != [] {
      ArticleTripletsShape(body, phrases[1..]);
    }
  }

  /** The triplets of a sequence of articles have the shape of `PhraseTriplets`. */
  lemma {:induction false} AllTripletsShape(arts: seq<Article>)
    ensures forall tr :: tr in AllTriplets(arts) ==>
              && IsStripped(tr.paragraphA) && NoBreak(tr.paragraphA)
              && IsStripped(tr.paragraphB) && NoBreak(tr.paragraphB)
  {
    if arts != [] {
      ArticleTripletsShape(arts[0].body, arts[0].phrases);
      AllTripletsShape(arts[1..]);
    }
  }
}
