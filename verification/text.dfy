/**
 Character classes and string primitives the extractor relies on: whitespace
 (`str.strip` and the regex class `\s`), decimal digits (`\d`), lower-casing,
 `str.find`, the "find, then resume one character later" scan, Python slicing,
 `str.split` on one character and `str.join`.
 */
module Text {
  import opened Wrappers

  type String = seq<char>

  /** Whitespace as both `str.strip()` and the regex class `\s` see it
      (the code points CPython's `Py_UNICODE_ISSPACE` accepts). */
  predicate IsSpace(c: char) {
    || ('\t' <= c <= '\r')
    || ('\U{1c}' <= c <= '\U{1f}')
    || c == ' '
    || c == '\U{85}'
    || c == '\U{a0}'
    || c == '\U{1680}'
    || ('\U{2000}' <= c <= '\U{200a}')
    || c == '\U{2028}'
    || c == '\U{2029}'
    || c == '\U{202f}'
    || c == '\U{205f}'
    || c == '\U{3000}'
  }

  /** The regex class `\d`, restricted to the ASCII digits. */
  predicate IsDigit(c: char) {
    '0' <= c <= '9'
  }

  /** `str.lower` on one character: ASCII and Latin-1 capitals, plus the two
      French capitals outside Latin-1 (Œ and Ÿ). Every other character is kept. */
  function Lower(c: char): (l: char)
    ensures IsSpace(c) <==> IsSpace(l)
  {
    if 'A' <= c <= 'Z' || ('\U{c0}' <= c <= '\U{de}' && c != '\U{d7}') then
      (c as int + 32) as char
    else if c == '\U{152}' then '\U{153}'
    else if c == '\U{178}' then '\U{ff}'
    else c
  }

  /** `str.lower` on a string: a character-by-character map, so it preserves length. */
  function LowerStr(s: String): (r: String)
    ensures |r| == |s|
    ensures forall i :: 0 <= i < |s| ==> r[i] == Lower(s[i])
  {
    seq(|s|, i requires 0 <= i < |s| => Lower(s[i]))
  }

  /** True when every character of `s` is whitespace. */
  predicate AllSpace(s: String) {
    forall i :: 0 <= i < |s| ==> IsSpace(s[i])
  }

  /** A string with no whitespace at either end: what `str.strip()` returns. */
  predicate IsStripped(s: String) {
    s == [] || (!IsSpace(s[0]) && !IsSpace(s[|s| - 1]))
  }

  /** The first index at or after `i` whose character fails `p` (or `|s|`):
      the end of the greedy run `p*` that starts at `i`. */
  function SkipWhile(s: String, i: nat, p: char -> bool): (j: nat)
    requires i <= |s|
    ensures i <= j <= |s|
    ensures forall k :: i <= k < j ==> p(s[k])
    ensures j < |s| ==> !p(s[j])
    decreases |s| - i
  {
    if i == |s| || !p(s[i]) then i else SkipWhile(s, i + 1, p)
  }

  /** The least index in `[from, n)` satisfying `p`: the leftmost start a regex search finds. */
  function FirstWhere(n: nat, from: nat, p: nat -> bool): (r: Option<nat>)
    requires from <= n
    ensures r.Some? ==> from <= r.value < n && p(r.value)
    ensures r.Some? ==> forall j :: from <= j < r.value ==> !p(j)
    ensures r.None? <==> forall j :: from <= j < n ==> !p(j)
    decreases n - from
  {
    if from == n then None
    else if p(from) then Some(from)
    else FirstWhere(n, from + 1, p)
  }

  /** The end of the whitespace run that starts at `i`: the first index at or
      after `i` holding a non-whitespace character, or `|s|`. */
  function SpaceEnd(s: String, i: nat): (j: nat)
    requires i <= |s|
    ensures i <= j <= |s|
    ensures forall k :: i <= k < j ==> IsSpace(s[k])
    ensures j < |s| ==> !IsSpace(s[j])
    decreases |s| - i
  {
    if i == |s| || !IsSpace(s[i]) then i else SpaceEnd(s, i + 1)
  }

  /** The start of the whitespace run that ends at `j`, not going below `lo`:
      just past the last non-whitespace character of `s[lo..j]`, or `lo`. */
  function SpaceStart(s: String, lo: nat, j: nat): (k: nat)
    requires lo <= j <= |s|
    ensures lo <= k <= j
    ensures forall m :: k <= m < j ==> IsSpace(s[m])
    ensures lo < k ==> !IsSpace(s[k - 1])
    decreases j - lo
  {
    if j == lo || !IsSpace(s[j - 1]) then j else SpaceStart(s, lo, j - 1)
  }

  /** The length of the leading whitespace of `s`: where `str.strip()` starts. */
  function LeadingSpace(s: String): (n: nat)
    ensures n <= |s| && AllSpace(s[..n])
    ensures n < |s| ==> !IsSpace(s[n])
  {
    var n := SpaceEnd(s, 0);
    assert forall k :: 0 <= k < n ==> s[..n][k] == s[k];
    n
  }

  /** `str.strip()`: the piece of `s` between its leading and its trailing whitespace. */
  function Strip(s: String): (r: String)
    ensures IsStripped(r)
    ensures LeadingSpace(s) + |r| <= |s| && IsOccurrence(s, r, LeadingSpace(s))
    ensures AllSpace(s[LeadingSpace(s) + |r|..])
  {
    var a := LeadingSpace(s);
    var e := SpaceStart(s, a, |s|);
    assert forall k :: 0 <= k < |s| - e ==> s[e..][k] == s[e + k];
    s[a..e]
  }

  /** `Strip(s)` splits `s` into whitespace, a stripped piece, and whitespace. */
  lemma StripSpec(s: String)
    ensures var a := LeadingSpace(s);
            && a + |Strip(s)| <= |s|
            && s == s[..a] + Strip(s) + s[a + |Strip(s)|..]
            && AllSpace(s[..a]) && AllSpace(s[a + |Strip(s)|..])
            && IsStripped(Strip(s))
  {
    var a := LeadingSpace(s);
    var e := a + |Strip(s)|;
    assert Strip(s) == s[a..e];
    assert s == s[..a] + s[a..e] + s[e..];
  }

  /** Strictly increasing. */
  predicate Increasing(ps: seq<nat>) {
    forall k, m :: 0 <= k < m < |ps| ==> ps[k] < ps[m]
  }

  /** The elements of `ps` that `keep` accepts, in order. */
  function Filter(ps: seq<nat>, keep: nat -> bool): (r: seq<nat>)
    ensures |r| <= |ps|
    ensures forall x :: x in r <==> x in ps && keep(x)
  {
    if ps == [] then []
    else
      var rest := Filter(ps[1..], keep);
      assert forall x :: x in ps <==> x == ps[0] || x in ps[1..] by {
        assert ps == [ps[0]] + ps[1..];
      }
      if keep(ps[0]) then [ps[0]] + rest else rest
  }

  /** Filtering a strictly increasing sequence keeps it strictly increasing. */
  lemma {:induction false} FilterIncreasing(ps: seq<nat>, keep: nat -> bool)
    requires Increasing(ps)
    ensures Increasing(Filter(ps, keep))
  {
    if ps != [] {
      var rest := ps[1..];
      assert Increasing(rest);
      FilterIncreasing(rest, keep);
      var r := Filter(rest, keep);
      forall x | x in r
        ensures ps[0] < x
      {
        var k :| 0 <= k < |rest| && rest[k] == x;
        assert ps[k + 1] == x;
      }
      if keep(ps[0]) {
        var f := Filter(ps, keep);
        assert f == [ps[0]] + r;
        forall k, m | 0 <= k < m < |f|
          ensures f[k] < f[m]
        {
          assert f[m] == r[m - 1] && f[m] in r;
          if k > 0 {
            assert f[k] == r[k - 1];
          }
        }
      }
    }
  }

  /** Appending one optional value appends its value, if present. */
  lemma {:induction false} SomesAppend<T>(xs: seq<Option<T>>, x: Option<T>)
    ensures Somes(xs + [x]) == Somes(xs) + (if x.Some? then [x.value] else [])
  {
    if xs == [] {
      assert [x][1..] == [];
    } else {
      assert (xs + [x])[1..] == xs[1..] + [x];
      SomesAppend(xs[1..], x);
    }
  }

  /** `Somes` keeps exactly one value per present entry. */
  lemma {:induction false} SomesCount<T>(xs: seq<Option<T>>, n: nat)
    requires n <= |xs|
    ensures |Somes(xs[..n])| == |set k | 0 <= k < n && xs[k].Some?|
  {
    if n > 0 {
      SomesCount(xs, n - 1);
      assert xs[..n] == xs[..n - 1] + [xs[n - 1]];
      SomesAppend(xs[..n - 1], xs[n - 1]);
      PresentStep(xs, n);
    }
  }

  /** The present entries among the first `n` are those among the first
      `n - 1`, and entry `n - 1` when it is present. */
  lemma PresentStep<T>(xs: seq<Option<T>>, n: nat)
    requires 0 < n <= |xs|
    ensures |set k | 0 <= k < n && xs[k].Some?|
            == |set k | 0 <= k < n - 1 && xs[k].Some?| + (if xs[n - 1].Some? then 1 else 0)
  {
    var a, b := set k | 0 <= k < n - 1 && xs[k].Some?, set k | 0 <= k < n && xs[k].Some?;
    assert n - 1 !in a;
    if xs[n - 1].Some? {
      assert b == a + {n - 1};
    } else {
      assert b == a;
    }
  }

  /** `f` applied to every element, in order. */
  function Map<A, B>(xs: seq<A>, f: A -> B): (ys: seq<B>)
    ensures |ys| == |xs|
    ensures forall k :: 0 <= k < |xs| ==> ys[k] == f(xs[k])
  {
    seq(|xs|, k requires 0 <= k < |xs| => f(xs[k]))
  }

  /** Mapping over one more element appends its image. */
  lemma MapAppend<A, B>(xs: seq<A>, x: A, f: A -> B)
    ensures Map(xs + [x], f) == Map(xs, f) + [f(x)]
  {
    assert forall k :: 0 <= k < |xs| ==> (xs + [x])[k] == xs[k];
  }

  /** The present values of a sequence of optional values, in order. */
  function Somes<T>(xs: seq<Option<T>>): (r: seq<T>)
    ensures |r| <= |xs|
    ensures forall k :: 0 <= k < |xs| && xs[k].Some? ==> xs[k].value in r
    ensures forall v :: v in r ==> exists k :: 0 <= k < |xs| && xs[k] == Some(v)
  {
    if xs == [] then []
    else
      var rest := Somes(xs[1..]);
      assert forall k :: 1 <= k < |xs| ==> xs[k] == xs[1..][k - 1];
      match xs[0]
      case None => rest
      case Some(v) => [v] + rest
  }

  /** Python slicing `s[lo:hi]` with non-negative bounds: both are clamped to
      `|s|`, and an empty string results when `lo >= hi`. */
  function Slice(s: String, lo: nat, hi: nat): (r: String)
    ensures var h := if hi <= |s| then hi else |s|;
            if lo < h then r == s[lo..h] else r == []
  {
    var h := if hi <= |s| then hi else |s|;
    if lo < h then s[lo..h] else []
  }

  /** `pat` occurs in `s` starting at index `i`. */
  predicate IsOccurrence(s: String, pat: String, i: nat) {
    i + |pat| <= |s| && s[i..i + |pat|] == pat
  }

  /** Occurrence is transitive: a piece of a piece of `s` is a piece of `s`. */
  lemma OccurrenceTrans(s: String, t: String, u: String, i: nat, j: nat)
    requires IsOccurrence(s, t, i) && IsOccurrence(t, u, j)
    ensures IsOccurrence(s, u, i + j)
  {
    assert t == s[i..i + |t|];
    assert u == t[j..j + |u|];
    assert forall k :: 0 <= k < |u| ==> u[k] == s[i + j + k];
    assert u == s[i + j..i + j + |u|];
  }

  /** A piece of a piece of a piece of `s` is a piece of `s`, at the sum of the offsets. */
  lemma OccurrenceChain(s: String, t: String, u: String, v: String, i: nat, j: nat, k: nat) returns (n: nat)
    requires IsOccurrence(s, t, i) && IsOccurrence(t, u, j) && IsOccurrence(u, v, k)
    ensures n == i + j + k && IsOccurrence(s, v, n)
  {
    OccurrenceTrans(s, t, u, i, j);
    OccurrenceTrans(s, u, v, i + j, k);
    n := i + j + k;
  }

  /** Every character of a piece of `s` is a character of `s`. */
  lemma PieceChars(s: String, p: String, i: nat)
    requires IsOccurrence(s, p, i)
    ensures forall c :: c in p ==> c in s
  {
    forall c | c in p
      ensures c in s
    {
      var k :| 0 <= k < |p| && p[k] == c;
      assert s[i + k] == c;
    }
  }

  /** `strip` keeps only characters of its input. */
  lemma StripChars(s: String)
    ensures forall c :: c in Strip(s) ==> c in s
  {
    PieceChars(s, Strip(s), LeadingSpace(s));
  }



  /** `s.find(pat, from)`: the least occurrence index at or after `from`, or None for -1. */
  function Find(s: String, pat: String, from: nat): (r: Option<nat>)
    ensures r.Some? ==> from <= r.value && IsOccurrence(s, pat, r.value)
    ensures r.Some? ==> forall j :: from <= j < r.value ==> !IsOccurrence(s, pat, j)
    ensures r.None? <==> forall j :: from <= j ==> !IsOccurrence(s, pat, j)
    decreases |s| + 1 - from
  {
    if from + |pat| > |s| then None
    else if s[from..from + |pat|] == pat then assert IsOccurrence(s, pat, from); Some(from)
    else Find(s, pat, from + 1)
  }

  /** The scan loop `pos = s.find(pat, start); ...; start = pos + 1` run to -1:
      every occurrence position at or after `from`, overlapping ones included,
      in strictly increasing order. */
  function Occurrences(s: String, pat: String, from: nat): (ps: seq<nat>)
    ensures forall k :: 0 <= k < |ps| ==> from <= ps[k] && IsOccurrence(s, pat, ps[k])
    ensures forall k, m :: 0 <= k < m < |ps| ==> ps[k] < ps[m]
    ensures forall i :: from <= i && IsOccurrence(s, pat, i) ==> i in ps
    decreases |s| + 1 - from
  {
    match Find(s, pat, from)
    case None => []
    case Some(p) =>
      var rest := Occurrences(s, pat, p + 1);
      OccurrencesCons(s, pat, from, p, rest);
      [p] + rest
  }

  /** The step of the scan: the first occurrence at or after `from`, followed
      by every occurrence after it, is every occurrence at or after `from`. */
  lemma OccurrencesCons(s: String, pat: String, from: nat, p: nat, rest: seq<nat>)
    requires from <= p && IsOccurrence(s, pat, p)
    requires forall j :: from <= j < p ==> !IsOccurrence(s, pat, j)
    requires forall k :: 0 <= k < |rest| ==> p + 1 <= rest[k] && IsOccurrence(s, pat, rest[k])
    requires forall k, m :: 0 <= k < m < |rest| ==> rest[k] < rest[m]
    requires forall i :: p + 1 <= i && IsOccurrence(s, pat, i) ==> i in rest
    ensures var ps := [p] + rest;
            && (forall k :: 0 <= k < |ps| ==> from <= ps[k] && IsOccurrence(s, pat, ps[k]))
            && (forall k, m :: 0 <= k < m < |ps| ==> ps[k] < ps[m])
            && (forall i :: from <= i && IsOccurrence(s, pat, i) ==> i in ps)
  {
  }

  /** The first index of character `c` in `s`, if any. */
  function IndexOf(s: String, c: char): (r: Option<nat>)
    ensures r.Some? ==> r.value < |s| && s[r.value] == c && c !in s[..r.value]
    ensures r.None? <==> c !in s
  {
    if s == [] then None
    else if s[0] == c then Some(0)
    else match IndexOf(s[1..], c)
      case None => None
      case Some(i) => assert s[..i + 1] == [s[0]] + s[1..][..i]; Some(i + 1)
  }

  /** `sep.join(parts)`. */
  function Join(parts: seq<String>, sep: String): (r: String) {
    if |parts| == 0 then []
    else if |parts| == 1 then parts[0]
    else parts[0] + sep + Join(parts[1..], sep)
  }

  /** `s.split(c)` for a single-character separator: the pieces between the
      occurrences of `c`; joining them back with `c` gives `s` again. */
  function SplitOn(s: String, c: char): (parts: seq<String>)
    ensures |parts| >= 1
    ensures forall k :: 0 <= k < |parts| ==> c !in parts[k]
    ensures Join(parts, [c]) == s
    decreases |s|
  {
    match IndexOf(s, c)
    case None => [s]
    case Some(i) =>
      var rest := SplitOn(s[i + 1..], c);
      assert s == s[..i] + [c] + s[i + 1..];
      [s[..i]] + rest
  }

  /** Splitting undoes joining: pieces free of the separator are recovered
      from their join. */
  lemma {:induction false} SplitOnJoin(parts: seq<String>, c: char)
    requires |parts| >= 1
    requires forall k :: 0 <= k < |parts| ==> c !in parts[k]
    ensures SplitOn(Join(parts, [c]), c) == parts
    decreases |parts|
  {
    if |parts| > 1 {
      var p0, rest := parts[0], parts[1..];
      var s := Join(parts, [c]);
      assert s == p0 + [c] + Join(rest, [c]);
      assert s[..|p0|] == p0 && s[|p0|] == c;
      var i := IndexOf(s, c).value;
      if i < |p0| {
        assert false;
      } else if i > |p0| {
        assert false;
      }
      assert s[i + 1..] == Join(rest, [c]);
      SplitOnJoin(rest, c);
      assert parts == [p0] + rest;
    }
  }

  /** Decimal rendering of a natural number, as `str(n)` does. */
  function Decimal(n: nat): (d: String)
    ensures |d| >= 1
    ensures forall i :: 0 <= i < |d| ==> IsDigit(d[i])
    ensures DecimalValue(d) == n
  {
    if n < 10 then [(n + '0' as int) as char]
    else
      var d := Decimal(n / 10) + [(n % 10 + '0' as int) as char];
      assert d[..|d| - 1] == Decimal(n / 10);
      d
  }

  /** The value of a string of ASCII digits. */
  function DecimalValue(d: String): (n: nat)
    requires forall i :: 0 <= i < |d| ==> IsDigit(d[i])
  {
    if d == [] then 0
    else
      assert IsDigit(d[|d| - 1]);
      10 * DecimalValue(d[..|d| - 1]) + (d[|d| - 1] as int - '0' as int)
  }
}
