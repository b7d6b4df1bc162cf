/**
 `generate_outputs`: the per-transition cap on triplets, the frequency
 reports, the sorted de-duplicated transition list, and one chat-format
 record per kept triplet.
 */
module Aggregate {
  import opened Wrappers
  import opened Text
  import opened Context

  /** At most this many triplets are kept per transition. */
  const MaxExamples: nat := 3

  /** The transitions of a sequence of triplets, in order. */
  function TransitionsOf(ts: seq<Triplet>): (r: seq<String>)
    ensures |r| == |ts|
    ensures forall k :: 0 <= k < |ts| ==> r[k] == ts[k].transition
  {
    seq(|ts|, k requires 0 <= k < |ts| => ts[k].transition)
  }

  /** `Counter(xs)[x]`. */
  function Count<T(==)>(xs: seq<T>, x: T): (n: nat) {
    multiset(xs)[x]
  }

  function Min(a: nat, b: nat): (m: nat) {
    if a <= b then a else b
  }

  // ---------------------------------------------------------------------------
  // Capping

  /** The capped triplet list: the triplets are taken in order, and each is
      kept when fewer than `MaxExamples` triplets with its transition have
      been kept before it. The usage counter of the loop is the count of a
      transition among the triplets kept so far (see `CapLoop`). */
  function Cap(ts: seq<Triplet>): (kept: seq<Triplet>)
    decreases |ts|
  {
    if ts == [] then []
    else
      var kept := Cap(ts[..|ts| - 1]);
      var x := ts[|ts| - 1];
      if Count(TransitionsOf(kept), x.transition) < MaxExamples then kept + [x] else kept
  }

  /** `transition_usage[t]` of a `Counter`: zero for an unseen key. */
  function Used(usage: map<String, nat>, t: String): (n: nat) {
    if t in usage then usage[t] else 0
  }

  /** The loop of the source, with its `Counter` as a map: it computes `Cap`. */
  method CapLoop(ts: seq<Triplet>) returns (kept: seq<Triplet>)
    ensures kept == Cap(ts)
  {
    kept := [];
    var usage: map<String, nat> := map[];
    for n := 0 to |ts|
      invariant kept == Cap(ts[..n])
      invariant forall t :: Used(usage, t) == Count(TransitionsOf(kept), t)
    {
      var x := ts[n];
      assert ts[..n + 1][..n] == ts[..n];
      var t := x.transition;
      if Used(usage, t) < MaxExamples {
        ghost var before := kept;
        assert TransitionsOf(kept + [x]) == TransitionsOf(kept) + [t];
        kept := kept + [x];
        usage := usage[t := Used(usage, t) + 1];
        forall u
          ensures Used(usage, u) == Count(TransitionsOf(kept), u)
        {
          assert Count(TransitionsOf(kept), u) == Count(TransitionsOf(before), u) + (if u == t then 1 else 0);
        }
      }
    }
    assert ts[..|ts|] == ts;
  }

  /** For every transition, the capped list keeps `min(3, n)` of the `n`
      triplets carrying it. */
  lemma {:induction false} CapCounts(ts: seq<Triplet>, t: String)
    ensures Count(TransitionsOf(Cap(ts)), t) == Min(MaxExamples, Count(TransitionsOf(ts), t))
    decreases |ts|
  {
    if ts == [] {
      assert TransitionsOf(Cap(ts)) == [];
    } else {
      var init, x := ts[..|ts| - 1], ts[|ts| - 1];
      assert ts == init + [x];
      CapCounts(init, x.transition);
      CapCounts(init, t);
      var kept := Cap(init);
      assert TransitionsOf(kept + [x]) == TransitionsOf(kept) + [x.transition];
      assert TransitionsOf(ts) == TransitionsOf(init) + [x.transition];
    }
  }

  /** First seen, first kept: a triplet appended to the input is kept exactly
      when fewer than `MaxExamples` earlier triplets carry its transition. */
  lemma CapSnoc(ts: seq<Triplet>, x: Triplet)
    ensures Cap(ts + [x]) ==
            Cap(ts) + (if Count(TransitionsOf(ts), x.transition) < MaxExamples then [x] else [])
  {
    assert (ts + [x])[..|ts|] == ts;
    CapCounts(ts, x.transition);
  }

  /** `a` is `b` with some elements left out, order kept. */
  predicate IsSubsequence<T(==)>(a: seq<T>, b: seq<T>)
    decreases |b|
  {
    if a == [] then true
    else if b == [] then false
    else
      || (a[|a| - 1] == b[|b| - 1] && IsSubsequence(a[..|a| - 1], b[..|b| - 1]))
      || IsSubsequence(a, b[..|b| - 1])
  }

  /** The capped list is an order-preserving subsequence of the input. */
  lemma {:induction false} CapIsSubsequence(ts: seq<Triplet>)
    ensures IsSubsequence(Cap(ts), ts)
    decreases |ts|
  {
    if ts != [] {
      var init, x := ts[..|ts| - 1], ts[|ts| - 1];
      assert ts == init + [x];
      CapIsSubsequence(init);
      CapSnoc(init, x);
      var c := Cap(ts);
      if Count(TransitionsOf(init), x.transition) < MaxExamples {
        assert c == Cap(init) + [x];
        assert c[..|c| - 1] == Cap(init);
      } else {
        assert c == Cap(init);
        assert c == [] || IsSubsequence(c, ts[..|ts| - 1]);
      }
    }
  }

  // ---------------------------------------------------------------------------
  // Frequency reports

  /** The distinct elements of `xs` in first-seen order: the key order of a
      `Counter` built from `xs`. */
  function Distinct(xs: seq<String>): (d: seq<String>)
    ensures forall i, j :: 0 <= i < j < |d| ==> d[i] != d[j]
    ensures forall x :: x in d <==> x in xs
  {
    if xs == [] then []
    else
      var init := xs[..|xs| - 1];
      assert xs == init + [xs[|xs| - 1]];
      var d := Distinct(init);
      if xs[|xs| - 1] in d then d else d + [xs[|xs| - 1]]
  }

  /** `d` lists keys in the order they first occur in `xs`: an earlier key
      occurs in `xs` before every occurrence of a later one. */
  predicate FirstSeenOrder(d: seq<String>, xs: seq<String>) {
    forall i, j, k :: 0 <= i < j < |d| && 0 <= k < |xs| && xs[k] == d[j] ==> d[i] in xs[..k]
  }

  /** The order of `Distinct` is the order of first occurrences. */
  lemma {:induction false} DistinctFirstSeen(xs: seq<String>)
    ensures FirstSeenOrder(Distinct(xs), xs)
    decreases |xs|
  {
    if xs != [] {
      var init, y := xs[..|xs| - 1], xs[|xs| - 1];
      assert xs == init + [y];
      DistinctFirstSeen(init);
      DistinctFirstSeenStep(init, y);
    }
  }

  /** The inductive step of `DistinctFirstSeen`. */
  lemma DistinctFirstSeenStep(init: seq<String>, y: String)
    requires FirstSeenOrder(Distinct(init), init)
    ensures FirstSeenOrder(Distinct(init + [y]), init + [y])
  {
    var xs := init + [y];
    assert xs[..|xs| - 1] == init;
    var d0, d := Distinct(init), Distinct(xs);
    assert y in d0 ==> d == d0;
    assert y !in d0 ==> d == d0 + [y];
    forall i, j, k | 0 <= i < j < |d| && 0 <= k < |xs| && xs[k] == d[j]
      ensures d[i] in xs[..k]
    {
      assert d[i] == d0[i] && d0[i] in init;
      if k == |init| {
        assert xs[..k] == init;
      } else if j < |d0| {
        assert d[j] == d0[j] && xs[..k] == init[..k] && init[k] == d0[j];
      } else {
        assert false;
      }
    }
  }

  /** One line of a frequency report: a transition and its count. */
  datatype Entry = Entry(phrase: String, count: nat)

  /** The phrases of the report entries, in order. */
  function PhrasesOf(es: seq<Entry>): (r: seq<String>)
    ensures |r| == |es|
    ensures forall k :: 0 <= k < |es| ==> r[k] == es[k].phrase
  {
    seq(|es|, k requires 0 <= k < |es| => es[k].phrase)
  }

  /** The entries for the keys `keys` whose count in `xs` exceeds `threshold`. */
  function EntriesOver(keys: seq<String>, xs: seq<String>, threshold: nat): (es: seq<Entry>)
    ensures forall e :: e in es ==> e.phrase in keys && e.count == Count(xs, e.phrase) > threshold
    ensures forall k :: k in keys && Count(xs, k) > threshold ==> Entry(k, Count(xs, k)) in es
    ensures IsSubsequence(PhrasesOf(es), keys)
    decreases |keys|
  {
    if keys == [] then []
    else
      var init, k := keys[..|keys| - 1], keys[|keys| - 1];
      assert keys == init + [k];
      var es := EntriesOver(init, xs, threshold);
      if Count(xs, k) > threshold then
        var r := es + [Entry(k, Count(xs, k))];
        assert PhrasesOf(r)[..|r| - 1] == PhrasesOf(es);
        r
      else
        assert PhrasesOf(es) == [] || IsSubsequence(PhrasesOf(es), keys[..|keys| - 1]);
        es
  }

  /** The report of the phrases of `xs` occurring more than `threshold`
      times, as `"t: n"` entries: exactly those phrases, each once, with its
      count, in first-seen order. */
  function Report(xs: seq<String>, threshold: nat): (es: seq<Entry>)
    ensures forall e :: e in es ==> e.count == Count(xs, e.phrase) > threshold
    ensures forall x :: x in PhrasesOf(es) <==> x in xs && Count(xs, x) > threshold
    ensures forall i, j :: 0 <= i < j < |es| ==> es[i].phrase != es[j].phrase
    ensures IsSubsequence(PhrasesOf(es), Distinct(xs))
  {
    var d := Distinct(xs);
    var es := EntriesOver(d, xs, threshold);
    forall x | x in PhrasesOf(es)
      ensures x in xs && Count(xs, x) > threshold
    {
      var k :| 0 <= k < |es| && PhrasesOf(es)[k] == x;
      assert es[k] in es;
    }
    forall x | x in xs && Count(xs, x) > threshold
      ensures x in PhrasesOf(es)
    {
      var k :| 0 <= k < |es| && es[k] == Entry(x, Count(xs, x));
      assert PhrasesOf(es)[k] == x;
    }
    SubsequenceOfDistinct(PhrasesOf(es), d);
    es
  }

  /** A subsequence of a duplicate-free sequence is duplicate-free. */
  lemma {:induction false} SubsequenceOfDistinct<T>(a: seq<T>, b: seq<T>)
    requires IsSubsequence(a, b)
    requires forall i, j :: 0 <= i < j < |b| ==> b[i] != b[j]
    ensures forall i, j :: 0 <= i < j < |a| ==> a[i] != a[j]
    ensures forall x :: x in a ==> x in b
    decreases |b|
  {
    if a != [] {
      var b0 := b[..|b| - 1];
      assert b == b0 + [b[|b| - 1]];
      assert forall i, j :: 0 <= i < j < |b0| ==> b0[i] != b0[j];
      if a[|a| - 1] == b[|b| - 1] && IsSubsequence(a[..|a| - 1], b0) {
        var a0 := a[..|a| - 1];
        SubsequenceOfDistinct(a0, b0);
        assert b[|b| - 1] !in b0;
        forall i, j | 0 <= i < j < |a|
          ensures a[i] != a[j]
        {
          assert a[i] == a0[i] && a0[i] in b0;
        }
        forall x | x in a
          ensures x in b
        {
          if x != a[|a| - 1] {
            var i :| 0 <= i < |a| && a[i] == x;
            assert a0[i] == x;
          }
        }
      } else {
        SubsequenceOfDistinct(a, b0);
      }
    }
  }

  // ---------------------------------------------------------------------------
  // The sorted transition list

  /** Python's string order: code point by code point, a proper prefix first. */
  predicate Less(a: String, b: String) {
    if a == [] then b != []
    else if b == [] then false
    else if a[0] != b[0] then a[0] < b[0]
    else Less(a[1..], b[1..])
  }

  lemma {:induction false} LessIrreflexive(a: String)
    ensures !Less(a, a)
  {
    if a != [] {
      LessIrreflexive(a[1..]);
    }
  }

  lemma {:induction false} LessTransitive(a: String, b: String, c: String)
    requires Less(a, b) && Less(b, c)
    ensures Less(a, c)
  {
    if a != [] && b != [] && c != [] && a[0] == b[0] && b[0] == c[0] {
      LessTransitive(a[1..], b[1..], c[1..]);
    }
  }

  lemma {:induction false} LessTotal(a: String, b: String)
    ensures a == b || Less(a, b) || Less(b, a)
  {
    if a != [] && b != [] && a[0] == b[0] {
      LessTotal(a[1..], b[1..]);
      if a[1..] == b[1..] {
        assert a == [a[0]] + a[1..] && b == [b[0]] + b[1..];
      }
    }
  }

  /** Strictly increasing in string order, hence free of duplicates. */
  predicate StrictlySorted(s: seq<String>) {
    forall i, j :: 0 <= i < j < |s| ==> Less(s[i], s[j])
  }

  /** Insertion of `x` into a strictly sorted list, unless it is already there. */
  function Insert(s: seq<String>, x: String): (r: seq<String>)
    requires StrictlySorted(s)
    ensures StrictlySorted(r)
    ensures forall y :: y in r <==> y in s || y == x
  {
    if s == [] then [x]
    else if x == s[0] then s
    else if Less(x, s[0]) then
      forall j | 0 <= j < |s|
        ensures Less(x, s[j])
      {
        if j > 0 {
          LessTransitive(x, s[0], s[j]);
        }
      }
      [x] + s
    else
      LessTotal(x, s[0]);
      var rest := Insert(s[1..], x);
      var r := [s[0]] + rest;
      forall i, j | 0 <= i < j < |r|
        ensures Less(r[i], r[j])
      {
        if i == 0 {
          assert r[j] in rest;
        } else {
          assert r[i] == rest[i - 1] && r[j] == rest[j - 1];
        }
      }
      r
  }

  /** `sorted(set(xs))`: strictly sorted, holding exactly the elements of `xs`. */
  function SortedSet(xs: seq<String>): (r: seq<String>)
    ensures StrictlySorted(r)
    ensures forall y :: y in r <==> y in xs
  {
    if xs == [] then []
    else
      assert forall y :: y in xs <==> y == xs[0] || y in xs[1..] by {
        assert xs == [xs[0]] + xs[1..];
      }
      Insert(SortedSet(xs[1..]), xs[0])
  }

  /** A strictly sorted list has no duplicates. */
  lemma StrictlySortedDistinct(s: seq<String>)
    requires StrictlySorted(s)
    ensures forall i, j :: 0 <= i < j < |s| ==> s[i] != s[j]
  {
    forall i, j | 0 <= i < j < |s|
      ensures s[i] != s[j]
    {
      if s[i] == s[j] {
        LessIrreflexive(s[i]);
      }
    }
  }

  // ---------------------------------------------------------------------------
  // Chat records

  datatype Role = System | User | Assistant

  datatype Message = Message(role: Role, content: String)

  /** One line of the JSON-Lines export: `{"messages": [...]}`. */
  datatype ChatRecord = ChatRecord(messages: seq<Message>)

  /** The fixed system instruction of every record. */
  const SystemPrompt: String := "You are a helpful assistant that continues text based on the given context."

  /** Recovers the triplet behind a record, given the transition it used:
      the user turn must end with a space and the transition. */
  function ReadBack(rec: ChatRecord, t: String): (r: Option<Triplet>) {
    if |rec.messages| != 3 then None
    else
      var sys, user, asst := rec.messages[0], rec.messages[1], rec.messages[2];
      var u := user.content;
      if sys != Message(System, SystemPrompt) || user.role != User || asst.role != Assistant then None
      else if |u| < |t| + 1 || u[|u| - |t| - 1..] != [' '] + t then None
      else Some(Triplet(u[..|u| - |t| - 1], t, asst.content))
  }

  /** The record of one triplet: the system instruction, then the user turn
      `paragraph_a + " " + transition`, then the assistant turn `paragraph_b`;
      the triplet can be read back from it. */
  function ToRecord(tr: Triplet): (rec: ChatRecord)
    ensures |rec.messages| == 3
    ensures rec.messages[0] == Message(System, SystemPrompt)
    ensures rec.messages[1].role == User && rec.messages[2].role == Assistant
    ensures ReadBack(rec, tr.transition) == Some(tr)
  {
    var u := tr.paragraphA + " " + tr.transition;
    assert u[..|tr.paragraphA|] == tr.paragraphA;
    assert u[|tr.paragraphA|..] == [' '] + tr.transition;
    ChatRecord([Message(System, SystemPrompt), Message(User, u), Message(Assistant, tr.paragraphB)])
  }

  /** One record per triplet, in the same order. */
  function Records(ts: seq<Triplet>): (rs: seq<ChatRecord>)
    ensures |rs| == |ts|
    ensures forall k :: 0 <= k < |ts| ==> ReadBack(rs[k], ts[k].transition) == Some(ts[k])
  {
    seq(|ts|, k requires 0 <= k < |ts| => ToRecord(ts[k]))
  }

  // ---------------------------------------------------------------------------
  // Text rendering of the list and the reports

  /** The line `"t: n"` of a report entry. */
  function RenderEntry(e: Entry): (line: String) {
    e.phrase + ": " + Decimal(e.count)
  }

  /** Reads a report line back: the digits at its end are the count, and the
      `": "` before them separates the phrase. */
  function ParseEntry(line: String): (r: Option<Entry>) {
    var n := |line| - TrailingDigits(line);
    if n == |line| || n < 2 || line[n - 2..n] != ": " then None
    else Some(Entry(line[..n - 2], DecimalValue(line[n..])))
  }

  /** The number of digits at the end of `s`. */
  function TrailingDigits(s: String): (n: nat)
    ensures n <= |s|
    ensures forall i :: |s| - n <= i < |s| ==> IsDigit(s[i])
    ensures n < |s| ==> !IsDigit(s[|s| - 1 - n])
  {
    if s == [] || !IsDigit(s[|s| - 1]) then 0 else 1 + TrailingDigits(s[..|s| - 1])
  }

  /** A rendered report line reads back as the entry it came from. */
  lemma ParseRenderEntry(e: Entry)
    ensures ParseEntry(RenderEntry(e)) == Some(e)
  {
    var line, d := RenderEntry(e), Decimal(e.count);
    var m := |e.phrase| + 2;
    assert line[m..] == d;
    assert line[m - 1] == ' ';
    assert TrailingDigits(line) == |d| by {
      TrailingDigitsOfSuffix(line, m);
    }
    assert line[..m - 2] == e.phrase;
  }

  /** When `s` ends in digits from `m` on and `s[m - 1]` is not a digit, its
      trailing digit run starts at `m`. */
  lemma TrailingDigitsOfSuffix(s: String, m: nat)
    requires 0 < m <= |s| && !IsDigit(s[m - 1])
    requires forall i :: m <= i < |s| ==> IsDigit(s[i])
    ensures TrailingDigits(s) == |s| - m
  {
  }

  /** `"\n".join(lines)`. */
  function LinesText(lines: seq<String>): (text: String) {
    Join(lines, "\n")
  }

  /** The report lines `"t: n"`, one per entry. */
  function RenderAll(es: seq<Entry>): (lines: seq<String>)
    ensures |lines| == |es|
    ensures forall k :: 0 <= k < |es| ==> lines[k] == RenderEntry(es[k])
  {
    seq(|es|, k requires 0 <= k < |es| => RenderEntry(es[k]))
  }

  /** `"\n".join(f"{t}: {n}" ...)` of a report. */
  function ReportText(es: seq<Entry>): (text: String) {
    LinesText(RenderAll(es))
  }

  /** A rendered entry holds a newline only if its phrase does. */
  lemma RenderEntryNoNewline(e: Entry)
    requires '\n' !in e.phrase
    ensures '\n' !in RenderEntry(e)
  {
    var d := Decimal(e.count);
    assert RenderEntry(e) == e.phrase + ": " + d;
    assert !IsDigit('\n');
    assert '\n' !in d;
  }

  /** A report whose phrases hold no newline is read back line by line: the
      text splits into one line per entry, and each line parses as its entry.
      An empty report is the empty text. */
  lemma ReportTextLines(es: seq<Entry>)
    requires forall k :: 0 <= k < |es| ==> '\n' !in es[k].phrase
    ensures ReportText(es) == [] <==> es == []
    ensures es != [] ==>
              var lines := SplitOn(ReportText(es), '\n');
              |lines| == |es| && forall k :: 0 <= k < |es| ==> ParseEntry(lines[k]) == Some(es[k])
  {
    var lines := RenderAll(es);
    if es != [] {
      forall k | 0 <= k < |lines|
        ensures '\n' !in lines[k]
      {
        RenderEntryNoNewline(es[k]);
      }
      SplitOnJoin(lines, '\n');
      forall k | 0 <= k < |es|
        ensures ParseEntry(lines[k]) == Some(es[k])
      {
        ParseRenderEntry(es[k]);
      }
      assert |lines[0]| > 0;
      if |lines| > 1 {
        assert ReportText(es) == lines[0] + "\n" + Join(lines[1..], "\n");
      }
    }
  }

  /** No element holds a newline. */
  predicate NoNewlines(xs: seq<String>) {
    forall k :: 0 <= k < |xs| ==> '\n' !in xs[k]
  }

  /** `text` reports the phrases of `xs` seen more than `threshold` times: it
      is empty exactly when no phrase is; otherwise every line parses as a
      phrase seen more than `threshold` times with its exact count, and every
      such phrase has its line. */
  predicate IsReportOf(text: String, xs: seq<String>, threshold: nat) {
    EmptyWhenNoneOver(text, xs, threshold) && LinesOver(text, xs, threshold)
    && AllOverListed(text, xs, threshold)
  }

  /** The text is empty exactly when no phrase is seen more than `threshold` times. */
  predicate EmptyWhenNoneOver(text: String, xs: seq<String>, threshold: nat) {
    text == [] <==> forall x :: x in xs ==> Count(xs, x) <= threshold
  }

  /** Every line of a nonempty text is a phrase seen more than `threshold`
      times, with its exact count. */
  predicate LinesOver(text: String, xs: seq<String>, threshold: nat) {
    text != [] ==>
      var lines := SplitOn(text, '\n');
      forall k :: 0 <= k < |lines| ==>
        ParseEntry(lines[k]).Some?
        && ParseEntry(lines[k]).value.count == Count(xs, ParseEntry(lines[k]).value.phrase) > threshold
  }

  /** Every phrase seen more than `threshold` times has a line with its count. */
  predicate AllOverListed(text: String, xs: seq<String>, threshold: nat) {
    forall x :: x in xs && Count(xs, x) > threshold ==>
      exists k :: 0 <= k < |SplitOn(text, '\n')| && ParseEntry(SplitOn(text, '\n')[k]) == Some(Entry(x, Count(xs, x)))
  }

  /** The report text of a list of phrases without newlines is a report of it. */
  lemma ReportLines(xs: seq<String>, threshold: nat)
    requires NoNewlines(xs)
    ensures IsReportOf(ReportText(Report(xs, threshold)), xs, threshold)
  {
    ReportEmptyWhenNoneOver(xs, threshold);
    ReportLinesOver(xs, threshold);
    ReportAllOverListed(xs, threshold);
  }

  /** The entries of a report of phrases without newlines have none either. */
  lemma ReportNoNewline(xs: seq<String>, threshold: nat)
    requires NoNewlines(xs)
    ensures forall k :: 0 <= k < |Report(xs, threshold)| ==> '\n' !in Report(xs, threshold)[k].phrase
  {
    var es := Report(xs, threshold);
    forall k | 0 <= k < |es|
      ensures '\n' !in es[k].phrase
    {
      assert PhrasesOf(es)[k] in PhrasesOf(es);
    }
  }

  lemma ReportEmptyWhenNoneOver(xs: seq<String>, threshold: nat)
    requires NoNewlines(xs)
    ensures EmptyWhenNoneOver(ReportText(Report(xs, threshold)), xs, threshold)
  {
    var es := Report(xs, threshold);
    ReportNoNewline(xs, threshold);
    ReportTextLines(es);
    if es == [] {
      forall x | x in xs
        ensures Count(xs, x) <= threshold
      {
        assert x !in PhrasesOf(es);
      }
    } else {
      assert es[0].phrase in PhrasesOf(es);
      assert es[0] in es;
    }
  }

  lemma ReportLinesOver(xs: seq<String>, threshold: nat)
    requires NoNewlines(xs)
    ensures LinesOver(ReportText(Report(xs, threshold)), xs, threshold)
  {
    var es := Report(xs, threshold);
    ReportNoNewline(xs, threshold);
    ReportTextLines(es);
    if es != [] {
      var lines := SplitOn(ReportText(es), '\n');
      forall k | 0 <= k < |lines|
        ensures ParseEntry(lines[k]).Some?
        ensures ParseEntry(lines[k]).value.count == Count(xs, ParseEntry(lines[k]).value.phrase) > threshold
      {
        assert es[k] in es;
      }
    }
  }

  lemma ReportAllOverListed(xs: seq<String>, threshold: nat)
    requires NoNewlines(xs)
    ensures AllOverListed(ReportText(Report(xs, threshold)), xs, threshold)
  {
    var es := Report(xs, threshold);
    ReportNoNewline(xs, threshold);
    ReportTextLines(es);
    var lines := SplitOn(ReportText(es), '\n');
    forall x | x in xs && Count(xs, x) > threshold
      ensures exists k :: 0 <= k < |lines| && ParseEntry(lines[k]) == Some(Entry(x, Count(xs, x)))
    {
      assert x in PhrasesOf(es);
      var k :| 0 <= k < |es| && PhrasesOf(es)[k] == x;
      assert es[k] in es;
      assert ParseEntry(lines[k]) == Some(Entry(x, Count(xs, x)));
    }
  }

  /** The transition list text is read back, line by line, as the sorted
      de-duplicated list, provided no transition holds a newline. */
  lemma TransitionsTextLines(ts: seq<String>)
    requires |ts| >= 1 && NoNewlines(ts)
    ensures SplitOn(LinesText(SortedSet(ts)), '\n') == SortedSet(ts)
  {
    var r := SortedSet(ts);
    assert ts[0] in r;
    forall k | 0 <= k < |r|
      ensures '\n' !in r[k]
    {
      assert r[k] in ts;
    }
    SplitOnJoin(r, '\n');
  }

  // ---------------------------------------------------------------------------
  // generate_outputs

  /** The six artifacts and the example count. The JSON array and the
      JSON-Lines file are kept as the values they serialise. */
  datatype Outputs = Outputs(
    fewshotExamples: seq<Triplet>,
    transitionsText: String,
    chatRecords: seq<ChatRecord>,
    fewshotsRejectedText: String,
    transitionsRejectedText: String,
    finetuningRejectedText: String,
    validExamples: nat)

  /** The text outputs of `generate_outputs` read back as what they report. */
  lemma TextOutputs(triplets: seq<Triplet>, transitions: seq<String>)
    ensures NoNewlines(TransitionsOf(triplets)) ==>
              IsReportOf(ReportText(Report(TransitionsOf(triplets), MaxExamples)), TransitionsOf(triplets), MaxExamples)
    ensures NoNewlines(transitions) ==> IsReportOf(ReportText(Report(transitions, 1)), transitions, 1)
    ensures transitions != [] && NoNewlines(transitions) ==>
              SplitOn(LinesText(SortedSet(transitions)), '\n') == SortedSet(transitions)
  {
    if NoNewlines(TransitionsOf(triplets)) {
      ReportLines(TransitionsOf(triplets), MaxExamples);
    }
    if NoNewlines(transitions) {
      ReportLines(transitions, 1);
      if transitions != [] {
        TransitionsTextLines(transitions);
      }
    }
  }

  /** `generate_outputs(all_triplets, all_transitions)`. The examples are the
      capped triplets: by `CapSnoc` a triplet is kept exactly when fewer than
      three earlier triplets of the input carry its transition, so every
      transition keeps the first `min(3, n)` of its `n` triplets, in input
      order. Each chat record reads back as its example; the two rejection
      reports of the triplets are the same text, the report of the
      triplets' transitions seen more than 3 times; the transitions report
      lists those seen more than once. When no phrase holds a newline, the
      report texts read back as those reports and the transition list reads
      back as the sorted list of the distinct transitions. */
  function GenerateOutputs(triplets: seq<Triplet>, transitions: seq<String>): (o: Outputs)
    ensures o.fewshotExamples == Cap(triplets)
    ensures forall t :: Count(TransitionsOf(o.fewshotExamples), t) == Min(MaxExamples, Count(TransitionsOf(triplets), t))
    ensures IsSubsequence(o.fewshotExamples, triplets)
    ensures o.validExamples == |o.fewshotExamples|
    ensures |o.chatRecords| == |o.fewshotExamples|
    ensures forall k :: 0 <= k < |o.chatRecords| ==>
              ReadBack(o.chatRecords[k], o.fewshotExamples[k].transition) == Some(o.fewshotExamples[k])
    ensures o.fewshotsRejectedText == o.finetuningRejectedText
    ensures o.fewshotsRejectedText == ReportText(Report(TransitionsOf(triplets), MaxExamples))
    ensures o.transitionsRejectedText == ReportText(Report(transitions, 1))
    ensures o.transitionsText == LinesText(SortedSet(transitions))
    ensures NoNewlines(TransitionsOf(triplets)) ==> IsReportOf(o.fewshotsRejectedText, TransitionsOf(triplets), MaxExamples)
    ensures NoNewlines(transitions) ==> IsReportOf(o.transitionsRejectedText, transitions, 1)
    ensures transitions == [] ==> o.transitionsText == []
    ensures transitions != [] && NoNewlines(transitions) ==>
              var lines := SplitOn(o.transitionsText, '\n');
              StrictlySorted(lines) && forall t :: t in lines <==> t in transitions
  {
    var capped := Cap(triplets);
    forall t
      ensures Count(TransitionsOf(capped), t) == Min(MaxExamples, Count(TransitionsOf(triplets), t))
    {
      CapCounts(triplets, t);
    }
    CapIsSubsequence(triplets);
    var rejected := ReportText(Report(TransitionsOf(triplets), MaxExamples));
    TextOutputs(triplets, transitions);
    Outputs(
      capped,
      LinesText(SortedSet(transitions)),
      Records(capped),
      rejected,
      ReportText(Report(transitions, 1)),
      rejected,
      |capped|)
  }
}
