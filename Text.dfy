/**
 * Character classes and trimming as PHP's string functions and PCRE see
 * them. Strings are sequences of characters; the source works on bytes,
 * and only ASCII letters are case-folded.
 */
module Text {

  /** The characters PHP's trim() removes by default: space, tab, LF, CR, NUL and vertical tab. */
  predicate IsTrimChar(c: char) {
    c == ' ' || c == '\t' || c == '\n' || c == '\r' || c == '\0' || c == '\U{B}'
  }

  /** The characters PCRE's `\s` matches: space, tab, LF, vertical tab, form feed and CR. */
  predicate IsRegexSpace(c: char) {
    c == ' ' || c == '\t' || c == '\n' || c == '\U{B}' || c == '\U{C}' || c == '\r'
  }

  /** ASCII lower-casing, the folding a case-insensitive PCRE pattern applies. */
  function Lower(c: char): (r: char)
    ensures 'A' <= c <= 'Z' ==> 'a' <= r <= 'z' && r as int == c as int + 32
    ensures !('A' <= c <= 'Z') ==> r == c
  {
    if 'A' <= c <= 'Z' then (c as int + 32) as char else c
  }

  /** Two characters agree up to case exactly when they are equal or are the two cases of one ASCII letter. */
  lemma SameLetter(a: char, b: char)
    ensures Lower(a) == Lower(b)
        <==> a == b || ('A' <= a <= 'Z' && b as int == a as int + 32) || ('A' <= b <= 'Z' && a as int == b as int + 32)
  {
  }

  /** Index of the first character of s[i..] that is not stripped. */
  function SkipFrom(s: string, i: nat, strip: char -> bool): (j: nat)
    requires i <= |s|
    ensures i <= j <= |s|
    ensures forall k :: i <= k < j ==> strip(s[k])
    ensures j == |s| || !strip(s[j])
    decreases |s| - i
  {
    if i == |s| || !strip(s[i]) then i else SkipFrom(s, i + 1, strip)
  }

  /** One past the last character of s[lo..j] that is not stripped. */
  function SkipBackFrom(s: string, lo: nat, j: nat, strip: char -> bool): (e: nat)
    requires lo <= j <= |s|
    ensures lo <= e <= j
    ensures forall k :: e <= k < j ==> strip(s[k])
    ensures e == lo || !strip(s[e - 1])
    decreases j - lo
  {
    if j == lo || !strip(s[j - 1]) then j else SkipBackFrom(s, lo, j - 1, strip)
  }

  /**
   * s with its leading and trailing run of `strip` characters removed: the
   * largest middle slice that neither starts nor ends with such a character.
   */
  function Strip(s: string, strip: char -> bool): (r: string)
    ensures r == [] || (!strip(r[0]) && !strip(r[|r| - 1]))
    ensures |r| <= |s|
    ensures forall c :: c in r ==> c in s
  {
    var i := SkipFrom(s, 0, strip);
    var j := SkipBackFrom(s, i, |s|, strip);
    assert forall k :: j <= k < |s| ==> strip(s[k]);
    s[i..j]
  }

  /** PHP's trim() with its default character list. */
  function Trim(s: string): (r: string)
    ensures r == [] || (!IsTrimChar(r[0]) && !IsTrimChar(r[|r| - 1]))
    ensures forall c :: c in r ==> c in s
  {
    Strip(s, IsTrimChar)
  }

  /** Stripping removes exactly the padding: x stays whole when it neither starts nor ends with a stripped character. */
  lemma StripPadded(w1: string, x: string, w2: string, strip: char -> bool)
    requires forall c :: c in w1 ==> strip(c)
    requires forall c :: c in w2 ==> strip(c)
    requires x == [] || (!strip(x[0]) && !strip(x[|x| - 1]))
    requires x == [] ==> w1 == [] && w2 == []
    ensures Strip(w1 + x + w2, strip) == x
  {
    var s := w1 + x + w2;
    var i := SkipFrom(s, 0, strip);
    if x != [] {
      assert s[|w1|] == x[0];
      assert forall k :: 0 <= k < |w1| ==> s[k] == w1[k];
      assert i == |w1|;
      var j := SkipBackFrom(s, i, |s|, strip);
      assert s[|w1| + |x| - 1] == x[|x| - 1];
      assert forall k :: |w1| + |x| <= k < |s| ==> s[k] == w2[k - |w1| - |x|];
      assert j == |w1| + |x|;
      assert s[i..j] == x;
    }
  }

  /** Stripping removes only padding: s is what Strip keeps with stripped characters on either side. */
  lemma StripParts(s: string, strip: char -> bool) returns (w1: string, w2: string)
    ensures s == w1 + Strip(s, strip) + w2
    ensures forall c :: c in w1 ==> strip(c)
    ensures forall c :: c in w2 ==> strip(c)
  {
    var i := SkipFrom(s, 0, strip);
    var j := SkipBackFrom(s, i, |s|, strip);
    w1, w2 := s[..i], s[j..];
    assert s == w1 + s[i..j] + w2;
    forall c | c in w1 ensures strip(c) {
      var k :| 0 <= k < |w1| && w1[k] == c;
      assert s[k] == c;
    }
    forall c | c in w2 ensures strip(c) {
      var k :| 0 <= k < |w2| && w2[k] == c;
      assert s[j + k] == c;
    }
  }

  /** A string with nothing to strip at either end is left as it is. */
  lemma StripUnpadded(x: string, strip: char -> bool)
    requires x == [] || (!strip(x[0]) && !strip(x[|x| - 1]))
    ensures Strip(x, strip) == x
  {
    StripPadded([], x, [], strip);
    assert [] + x + [] == x;
  }
}
