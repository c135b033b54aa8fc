// Header extraction: `DetailsGenerator::extract_header`. The PHP code
// searches the source text with the pattern `^[ \t/*#@]*LABEL:(.*)$` in
// multi-line, case-insensitive mode, the label quoted literally. The pattern
// is modelled directly on the text: a match starts at a line start `p`,
// runs over `k` comment-noise characters, then the label (ASCII
// case-insensitively) and a colon; the capture is the rest of that line.
// PCRE reports the leftmost match, and at that start its greedy noise run
// backtracks from the longest, so the match taken is the smallest `p` and,
// for it, the largest `k`.
module HeaderExtraction {
  import opened Wrappers
  import opened Text

  /** The comment noise the pattern allows before a header label: space, tab, `/`, `*`, `#`, `@`. */
  predicate IsNoise(c: char) {
    c == ' ' || c == '\t' || c == '/' || c == '*' || c == '#' || c == '@'
  }

  /** `^` in multi-line mode: the start of the text or just after a newline. */
  predicate LineStart(text: string, p: nat) {
    p == 0 || (p <= |text| && text[p - 1] == '\n')
  }

  /** The label `key`, ASCII case-insensitively, followed by a colon, at position q. */
  predicate LabelAt(text: string, key: string, q: nat) {
    && q + |key| < |text|
    && (forall j :: 0 <= j < |key| ==> Lower(text[q + j]) == Lower(key[j]))
    && text[q + |key|] == ':'
  }

  /** The pattern matches from line start p with a noise run of length k. */
  predicate MatchAt(text: string, key: string, p: nat, k: nat) {
    && p + k <= |text|
    && LineStart(text, p)
    && (forall i :: p <= i < p + k ==> IsNoise(text[i]))
    && LabelAt(text, key, p + k)
  }

  /** The match PCRE reports: no match starts earlier, and none at p has a longer noise run. */
  ghost predicate LeftmostGreedy(text: string, key: string, p: nat, k: nat) {
    && MatchAt(text, key, p, k)
    && (forall p': nat, k': nat :: p' < p ==> !MatchAt(text, key, p', k'))
    && (forall k': nat :: k < k' ==> !MatchAt(text, key, p, k'))
  }

  /** Where the capture `(.*)$` from position i stops: the next newline or the end of the text. */
  function LineEnd(text: string, i: nat): (e: nat)
    requires i <= |text|
    ensures i <= e <= |text|
    ensures e == |text| || text[e] == '\n'
    ensures forall j :: i <= j < e ==> text[j] != '\n'
    decreases |text| - i
  {
    if i == |text| || text[i] == '\n' then i else LineEnd(text, i + 1)
  }

  /** Length of the longest run of noise characters from p. */
  function NoiseRun(text: string, p: nat): (n: nat)
    requires p <= |text|
    ensures p + n <= |text|
    ensures forall i :: p <= i < p + n ==> IsNoise(text[i])
    ensures p + n == |text| || !IsNoise(text[p + n])
    decreases |text| - p
  {
    if p == |text| || !IsNoise(text[p]) then 0 else 1 + NoiseRun(text, p + 1)
  }

  // Backtracking of the noise class `[ \t/*#@]*`: the longest k' <= k after which the key follows.
  function GreedyRun(text: string, key: string, p: nat, k: nat): (r: Option<nat>)
    requires p + k <= |text|
    ensures r.Some? ==> r.value <= k && LabelAt(text, key, p + r.value)
    ensures r.Some? ==> forall q: nat :: p + r.value < q <= p + k ==> !LabelAt(text, key, q)
    ensures r.None? ==> forall q: nat :: p <= q <= p + k ==> !LabelAt(text, key, q)
  {
    if LabelAt(text, key, p + k) then Some(k)
    else if k == 0 then None
    else GreedyRun(text, key, p, k - 1)
  }

  /** A noise run of length k from p never outgrows the longest one. */
  lemma NoiseBound(text: string, key: string, p: nat, k: nat)
    requires MatchAt(text, key, p, k)
    ensures k <= NoiseRun(text, p)
  {
  }

  /** The match at start p with the longest noise run, if the pattern matches from p at all. */
  function MatchFrom(text: string, key: string, p: nat): (g: Option<nat>)
    requires p <= |text|
    ensures g.Some? ==> MatchAt(text, key, p, g.value)
    ensures forall k: nat :: MatchAt(text, key, p, k) ==> g.Some? && k <= g.value
  {
    var g := if LineStart(text, p) then GreedyRun(text, key, p, NoiseRun(text, p)) else None;
    assert forall k: nat :: MatchAt(text, key, p, k) ==> g.Some? && k <= g.value by {
      forall k: nat | MatchAt(text, key, p, k) ensures g.Some? && k <= g.value {
        NoiseBound(text, key, p, k);
        assert LabelAt(text, key, p + k);
      }
    }
    g
  }

  /** The scan of start positions from p onward, as `preg_match` performs it. */
  function FirstMatch(text: string, key: string, p: nat): (r: Option<(nat, nat)>)
    requires p <= |text|
    ensures r.Some? ==> p <= r.value.0 && MatchAt(text, key, r.value.0, r.value.1)
    ensures r.Some? ==> forall q: nat, k: nat :: p <= q < r.value.0 ==> !MatchAt(text, key, q, k)
    ensures r.Some? ==> forall k: nat :: r.value.1 < k ==> !MatchAt(text, key, r.value.0, k)
    ensures r.None? ==> forall q: nat, k: nat :: p <= q ==> !MatchAt(text, key, q, k)
    decreases |text| - p
  {
    var g := MatchFrom(text, key, p);
    if g.Some? then Some((p, g.value))
    else if p == |text| then None
    else FirstMatch(text, key, p + 1)
  }

  /** The text the group `(.*)` captures when the key's colon ends at position c. */
  function Capture(text: string, c: nat): (r: string)
    requires c <= |text|
    ensures '\n' !in r
  {
    text[c..LineEnd(text, c)]
  }

  /**
   * `extract_header($key)`: the trimmed rest of the first matching header
   * line, or '' when no line matches. The result is a single line with no
   * surrounding white space.
   */
  function ExtractHeader(text: string, key: string): (r: string)
    ensures '\n' !in r
    ensures r == [] || (!IsTrimChar(r[0]) && !IsTrimChar(r[|r| - 1]))
  {
    match FirstMatch(text, key, 0)
    case None => ""
    case Some((p, k)) => Trim(Capture(text, p + k + |key| + 1))
  }

  /** Without a matching line the header is ''. */
  lemma ExtractHeaderNoMatch(text: string, key: string)
    requires forall p: nat, k: nat :: !MatchAt(text, key, p, k)
    ensures ExtractHeader(text, key) == ""
  {
    assert FirstMatch(text, key, 0).None?;
  }

  /** Any leftmost, greedy match determines the result: its capture, trimmed. */
  lemma ExtractHeaderIsMatch(text: string, key: string, p: nat, k: nat)
    requires LeftmostGreedy(text, key, p, k)
    ensures p + k + |key| + 1 <= |text|
    ensures ExtractHeader(text, key) == Trim(Capture(text, p + k + |key| + 1))
  {
    FirstMatchIs(text, key, p, k);
  }

  /** The scan from the start of the text finds exactly the leftmost, greedy match. */
  lemma FirstMatchIs(text: string, key: string, p: nat, k: nat)
    requires LeftmostGreedy(text, key, p, k)
    ensures FirstMatch(text, key, 0) == Some((p, k))
  {
    var r := FirstMatch(text, key, 0);
    assert r.Some? by {
      assert MatchAt(text, key, p, k);
    }
    var (p0, k0) := r.value;
    assert MatchAt(text, key, p0, k0);
    assert p0 == p;
    assert MatchAt(text, key, p, k);
    assert k0 == k;
  }

  /** The first line that matches wins; the result does not depend on what follows it. */
  lemma ExtractHeaderFirstMatchIsLeftmostGreedy(text: string, key: string)
    requires FirstMatch(text, key, 0).Some?
    ensures LeftmostGreedy(text, key, FirstMatch(text, key, 0).value.0, FirstMatch(text, key, 0).value.1)
  {
  }

  /** Whether the pattern matches at (p, k) depends on the label only up to ASCII case. */
  lemma MatchAtCaseInsensitive(text: string, key1: string, key2: string, p: nat, k: nat)
    requires |key1| == |key2|
    requires forall j :: 0 <= j < |key1| ==> Lower(key1[j]) == Lower(key2[j])
    ensures MatchAt(text, key1, p, k) <==> MatchAt(text, key2, p, k)
  {
    if p + k + |key1| < |text| {
      assert (forall j :: 0 <= j < |key1| ==> Lower(text[p + k + j]) == Lower(key1[j]))
        <==> (forall j :: 0 <= j < |key2| ==> Lower(text[p + k + j]) == Lower(key2[j]));
    }
  }

  /** Labels are matched ASCII case-insensitively: labels that agree up to case extract the same value. */
  lemma ExtractHeaderCaseInsensitive(text: string, key1: string, key2: string)
    requires |key1| == |key2|
    requires forall j :: 0 <= j < |key1| ==> Lower(key1[j]) == Lower(key2[j])
    ensures ExtractHeader(text, key1) == ExtractHeader(text, key2)
  {
    if exists p: nat, k: nat :: MatchAt(text, key1, p, k) {
      var p, k := LeftmostGreedyOf(text, key1);
      CaseInsensitiveMatch(text, key1, key2, p, k);
    } else {
      CaseInsensitiveNoMatch(text, key1, key2);
    }
  }

  lemma CaseInsensitiveMatch(text: string, key1: string, key2: string, p: nat, k: nat)
    requires |key1| == |key2|
    requires forall j :: 0 <= j < |key1| ==> Lower(key1[j]) == Lower(key2[j])
    requires LeftmostGreedy(text, key1, p, k)
    ensures ExtractHeader(text, key1) == ExtractHeader(text, key2)
  {
    var v := Trim(Capture(text, p + k + |key1| + 1));
    assert ExtractHeader(text, key1) == v by {
      ExtractHeaderIsMatch(text, key1, p, k);
    }
    assert ExtractHeader(text, key2) == v by {
      GreedyCaseInsensitive(text, key1, key2, p, k);
      ExtractHeaderIsMatch(text, key2, p, k);
    }
  }

  lemma CaseInsensitiveNoMatch(text: string, key1: string, key2: string)
    requires |key1| == |key2|
    requires forall j :: 0 <= j < |key1| ==> Lower(key1[j]) == Lower(key2[j])
    requires forall p: nat, k: nat :: !MatchAt(text, key1, p, k)
    ensures ExtractHeader(text, key1) == ExtractHeader(text, key2)
  {
    forall p: nat, k: nat ensures !MatchAt(text, key2, p, k) {
      MatchAtCaseInsensitive(text, key1, key2, p, k);
    }
    ExtractHeaderNoMatch(text, key1);
    ExtractHeaderNoMatch(text, key2);
  }

  lemma GreedyCaseInsensitive(text: string, key1: string, key2: string, p: nat, k: nat)
    requires |key1| == |key2|
    requires forall j :: 0 <= j < |key1| ==> Lower(key1[j]) == Lower(key2[j])
    requires LeftmostGreedy(text, key1, p, k)
    ensures LeftmostGreedy(text, key2, p, k)
  {
    forall p': nat, k': nat ensures MatchAt(text, key1, p', k') <==> MatchAt(text, key2, p', k') {
      MatchAtCaseInsensitive(text, key1, key2, p', k');
    }
  }

  /** When the pattern matches anywhere, some match is the leftmost, greedy one. */
  lemma LeftmostGreedyOf(text: string, key: string) returns (p: nat, k: nat)
    requires exists p: nat, k: nat :: MatchAt(text, key, p, k)
    ensures LeftmostGreedy(text, key, p, k)
  {
    var m := FirstMatch(text, key, 0);
    p, k := m.value.0, m.value.1;
  }

  /** Lower-casing keeps a newline and keeps everything else off it. */
  lemma LowerNewline(c: char)
    ensures Lower(c) == '\n' <==> c == '\n'
  {
  }

  /** A match for a single-line label lies within one line: no newline from its start to its colon. */
  lemma MatchWithinLine(text: string, key: string, p: nat, k: nat)
    requires MatchAt(text, key, p, k)
    requires '\n' !in key
    ensures forall i :: p <= i <= p + k + |key| ==> text[i] != '\n'
  {
    forall i | p + k <= i < p + k + |key|
      ensures text[i] != '\n'
    {
      var j := i - p - k;
      assert Lower(text[p + k + j]) == Lower(key[j]);
      assert key[j] in key;
      LowerNewline(key[j]);
      LowerNewline(text[i]);
    }
  }

  /** A match starting in a, which ends with a newline, lies within a. */
  lemma MatchInPrefix(a: string, b: string, key: string, q: nat, k: nat)
    requires |a| > 0 && a[|a| - 1] == '\n'
    requires '\n' !in key
    requires q < |a|
    ensures MatchAt(a + b, key, q, k) <==> MatchAt(a, key, q, k)
  {
    var t := a + b;
    if MatchAt(t, key, q, k) {
      MatchWithinLine(t, key, q, k);
      assert q + k + |key| < |a| - 1 by {
        assert t[|a| - 1] == a[|a| - 1];
        if q + k + |key| >= |a| - 1 {
          assert false;
        }
      }
      assert forall i :: q <= i <= q + k + |key| ==> t[i] == a[i];
    }
    if MatchAt(a, key, q, k) {
      assert forall i :: q <= i <= q + k + |key| ==> t[i] == a[i];
    }
  }

  /** After a text ending with a newline, b matches exactly where it would alone. */
  lemma MatchInSuffix(a: string, b: string, key: string, q: nat, k: nat)
    requires |a| > 0 && a[|a| - 1] == '\n'
    ensures MatchAt(a + b, key, |a| + q, k) <==> MatchAt(b, key, q, k)
  {
    var t := a + b;
    if q + k + |key| < |b| {
      assert forall i :: q <= i <= q + k + |key| ==> t[|a| + i] == b[i];
      assert LineStart(t, |a| + q) <==> LineStart(b, q);
      assert (forall i :: |a| + q <= i < |a| + q + k ==> IsNoise(t[i])) <==> (forall i :: q <= i < q + k ==> IsNoise(b[i]));
      assert LabelAt(t, key, |a| + q + k) <==> LabelAt(b, key, q + k);
    }
  }

  /** LineEnd is the first newline at or after i. */
  lemma LineEndIs(text: string, i: nat, e: nat)
    requires i <= e <= |text|
    requires e == |text| || text[e] == '\n'
    requires forall j :: i <= j < e ==> text[j] != '\n'
    ensures LineEnd(text, i) == e
  {
  }

  /**
   * A match in a text a that ends with a newline is also the match in a + b:
   * header lines after the first matching line are ignored.
   */
  lemma ExtractHeaderIgnoresLaterLines(a: string, b: string, key: string)
    requires |a| > 0 && a[|a| - 1] == '\n'
    requires '\n' !in key
    requires exists p: nat, k: nat :: MatchAt(a, key, p, k)
    ensures ExtractHeader(a + b, key) == ExtractHeader(a, key)
  {
    var p, k := LeftmostGreedyOf(a, key);
    PrefixMatchExtract(a, b, key, p, k);
  }

  lemma PrefixMatchExtract(a: string, b: string, key: string, p: nat, k: nat)
    requires |a| > 0 && a[|a| - 1] == '\n'
    requires '\n' !in key
    requires LeftmostGreedy(a, key, p, k)
    ensures ExtractHeader(a + b, key) == ExtractHeader(a, key)
  {
    PrefixExtract(a, b, key, p, k);
    ExtractHeaderIsMatch(a, key, p, k);
  }

  /** The match in a is the match in a + b, with a's capture. */
  lemma PrefixExtract(a: string, b: string, key: string, p: nat, k: nat)
    requires |a| > 0 && a[|a| - 1] == '\n'
    requires '\n' !in key
    requires LeftmostGreedy(a, key, p, k)
    ensures p + k + |key| + 1 < |a|
    ensures ExtractHeader(a + b, key) == Trim(Capture(a, p + k + |key| + 1))
  {
    assert a[p + k + |key|] == ':';
    var c := p + k + |key| + 1;
    GreedyInPrefix(a, b, key, p, k);
    PrefixCapture(a, b, c);
    ExtractByCapture(a + b, key, p, k, Capture(a, c));
  }

  /** Within a text a that ends with a newline, a + b captures what a does. */
  lemma PrefixCapture(a: string, b: string, c: nat)
    requires |a| > 0 && a[|a| - 1] == '\n'
    requires c < |a|
    ensures Capture(a + b, c) == Capture(a, c)
  {
    var t := a + b;
    var e := LineEnd(a, c);
    assert e < |a|;
    assert forall i :: c <= i <= e ==> t[i] == a[i];
    LineEndIs(t, c, e);
    assert t[c..e] == a[c..e];
  }

  lemma GreedyInPrefix(a: string, b: string, key: string, p: nat, k: nat)
    requires |a| > 0 && a[|a| - 1] == '\n'
    requires '\n' !in key
    requires LeftmostGreedy(a, key, p, k)
    ensures LeftmostGreedy(a + b, key, p, k)
  {
    forall q: nat, k': nat | q <= p ensures MatchAt(a + b, key, q, k') <==> MatchAt(a, key, q, k') {
      MatchInPrefix(a, b, key, q, k');
    }
  }

  /**
   * Lines without a matching header are skipped: when a (ending with a
   * newline) holds no match, a + b extracts what b alone does.
   */
  lemma ExtractHeaderSkipsEarlierLines(a: string, b: string, key: string)
    requires |a| > 0 && a[|a| - 1] == '\n'
    requires '\n' !in key
    requires forall p: nat, k: nat :: !MatchAt(a, key, p, k)
    ensures ExtractHeader(a + b, key) == ExtractHeader(b, key)
  {
    if exists p: nat, k: nat :: MatchAt(b, key, p, k) {
      var p, k := LeftmostGreedyOf(b, key);
      SuffixMatchExtract(a, b, key, p, k);
    } else {
      SuffixNoMatchExtract(a, b, key);
    }
  }

  lemma SuffixMatchExtract(a: string, b: string, key: string, p: nat, k: nat)
    requires |a| > 0 && a[|a| - 1] == '\n'
    requires '\n' !in key
    requires forall p: nat, k: nat :: !MatchAt(a, key, p, k)
    requires LeftmostGreedy(b, key, p, k)
    ensures ExtractHeader(a + b, key) == ExtractHeader(b, key)
  {
    SuffixExtract(a, b, key, p, k);
    ExtractHeaderIsMatch(b, key, p, k);
  }

  /** The match in b, shifted past a, is the match in a + b, with b's capture. */
  lemma SuffixExtract(a: string, b: string, key: string, p: nat, k: nat)
    requires |a| > 0 && a[|a| - 1] == '\n'
    requires '\n' !in key
    requires forall p: nat, k: nat :: !MatchAt(a, key, p, k)
    requires LeftmostGreedy(b, key, p, k)
    ensures p + k + |key| + 1 <= |b|
    ensures ExtractHeader(a + b, key) == Trim(Capture(b, p + k + |key| + 1))
  {
    assert LabelAt(b, key, p + k);
    var c := p + k + |key| + 1;
    var q := |a| + p;
    GreedyInSuffix(a, b, key, p, k);
    ShiftedCapture(a, b, c, q + k + |key| + 1);
    ExtractByCapture(a + b, key, q, k, Capture(b, c));
  }

  /** A leftmost, greedy match whose capture is v extracts v, trimmed. */
  lemma ExtractByCapture(t: string, key: string, q: nat, k: nat, v: string)
    requires LeftmostGreedy(t, key, q, k)
    requires q + k + |key| + 1 <= |t| && Capture(t, q + k + |key| + 1) == v
    ensures ExtractHeader(t, key) == Trim(v)
  {
    ExtractHeaderIsMatch(t, key, q, k);
  }

  /** The capture at a position of the second part is that part's own capture. */
  lemma ShiftedCapture(a: string, b: string, c: nat, q: nat)
    requires c <= |b| && q == |a| + c
    ensures Capture(a + b, q) == Capture(b, c)
  {
    var t := a + b;
    var e := LineEnd(b, c);
    assert forall j :: |a| <= j < |t| ==> t[j] == b[j - |a|];
    LineEndIs(t, |a| + c, |a| + e);
    assert t[|a| + c..|a| + e] == b[c..e];
  }

  lemma SuffixNoMatchExtract(a: string, b: string, key: string)
    requires |a| > 0 && a[|a| - 1] == '\n'
    requires '\n' !in key
    requires forall p: nat, k: nat :: !MatchAt(a, key, p, k)
    requires forall p: nat, k: nat :: !MatchAt(b, key, p, k)
    ensures ExtractHeader(a + b, key) == ExtractHeader(b, key)
  {
    forall q: nat, k: nat ensures !MatchAt(a + b, key, q, k) {
      if q < |a| {
        MatchInPrefix(a, b, key, q, k);
      } else {
        MatchInSuffix(a, b, key, q - |a|, k);
      }
    }
    ExtractHeaderNoMatch(a + b, key);
    ExtractHeaderNoMatch(b, key);
  }

  lemma GreedyInSuffix(a: string, b: string, key: string, p: nat, k: nat)
    requires |a| > 0 && a[|a| - 1] == '\n'
    requires '\n' !in key
    requires forall p: nat, k: nat :: !MatchAt(a, key, p, k)
    requires LeftmostGreedy(b, key, p, k)
    ensures LeftmostGreedy(a + b, key, |a| + p, k)
  {
    var t := a + b;
    forall q: nat, k': nat | q < |a| + p ensures !MatchAt(t, key, q, k') {
      if q < |a| {
        MatchInPrefix(a, b, key, q, k');
      } else {
        MatchInSuffix(a, b, key, q - |a|, k');
      }
    }
    var start := |a| + p;
    MatchInSuffix(a, b, key, p, k);
    assert MatchAt(t, key, start, k);
    forall k': nat | k < k' ensures !MatchAt(t, key, start, k') {
      MatchInSuffix(a, b, key, p, k');
    }
  }

  /**
   * A header line `<noise><Label>:<value>` at the start of the text yields
   * the value, trimmed (whatever case the label is written in).
   */
  lemma ExtractHeaderOfHeaderLine(w: string, written: string, key: string, value: string, rest: string)
    requires forall c :: c in w ==> IsNoise(c)
    requires |written| == |key| > 0 && !IsNoise(key[0]) && !IsNoise(written[0])
    requires forall j :: 0 <= j < |key| ==> Lower(written[j]) == Lower(key[j])
    requires '\n' !in value
    requires rest == [] || rest[0] == '\n'
    ensures ExtractHeader(w + written + ":" + value + rest, key) == Trim(value)
  {
    var t := w + written + ":" + value + rest;
    HeaderLineMatch(w, written, key, value, rest);
    ExtractHeaderIsMatch(t, key, 0, |w|);
    HeaderLineCapture(w + written + ":", value, rest);
  }

  /** The header line matches at the start of the text, with the whole prefix w as its noise run. */
  lemma HeaderLineMatch(w: string, written: string, key: string, value: string, rest: string)
    requires forall c :: c in w ==> IsNoise(c)
    requires |written| == |key| > 0 && !IsNoise(written[0])
    requires forall j :: 0 <= j < |key| ==> Lower(written[j]) == Lower(key[j])
    ensures LeftmostGreedy(w + written + ":" + value + rest, key, 0, |w|)
  {
    var t := w + written + ":" + value + rest;
    var q := |w|;
    assert forall i :: 0 <= i < |w| ==> t[i] == w[i];
    assert forall j :: 0 <= j < |written| ==> t[q + j] == written[j];
    assert t[q + |key|] == ':';
    assert MatchAt(t, key, 0, q);
    assert t[q] == written[0];
  }

  /** After the colon, the capture runs over the value up to the newline that ends it. */
  lemma HeaderLineCapture(head: string, value: string, rest: string)
    requires '\n' !in value
    requires rest == [] || rest[0] == '\n'
    ensures Capture(head + value + rest, |head|) == value
  {
    var t := head + value + rest;
    var c := |head|;
    assert forall i :: 0 <= i < |value| ==> t[c + i] == value[i];
    assert c + |value| == |t| || t[c + |value|] == '\n';
    LineEndIs(t, c, c + |value|);
    assert t[c..c + |value|] == value;
  }
}
