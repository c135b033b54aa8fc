/**
 * Readme section parsing: `DetailsGenerator::section_data`. The PHP code
 * splits the readme with `^\s*==([^=]+)==\s*$` (multi-line mode), keeping
 * the captured titles, then walks the pieces two at a time, assigning each
 * trimmed title its trimmed body. The split is modelled line by line: a
 * delimiter is a line that is `==`, a title without `=`, and `==`, with
 * optional white space around; the text between two delimiters (or after the
 * last) is that section's body. The pattern's `\s*` also swallows lines of
 * white space next to a delimiter, which the model keeps in the body; trim()
 * removes them again, unless they hold a form feed, which `\s` matches and
 * trim() keeps.
 */
module SectionParsing {
  import opened Wrappers
  import opened Text
  import opened PhpArray

  /** The lines of a text, split at each newline; a text without one is a single line. */
  function Lines(text: string): (ls: seq<string>)
    ensures |ls| >= 1
    ensures forall i :: 0 <= i < |ls| ==> '\n' !in ls[i]
  {
    if text == [] then [[]]
    else
      var rest := Lines(text[1..]);
      if text[0] == '\n' then [[]] + rest else [[text[0]] + rest[0]] + rest[1..]
  }

  /** Lines glued back together with newlines between them. */
  function Join(ls: seq<string>): string {
    if ls == [] then []
    else if |ls| == 1 then ls[0]
    else ls[0] + "\n" + Join(ls[1..])
  }

  /** Splitting into lines loses nothing. */
  lemma {:induction false} JoinLines(text: string)
    ensures Join(Lines(text)) == text
  {
    if text != [] {
      var rest := Lines(text[1..]);
      JoinLines(text[1..]);
      if text[0] == '\n' {
        assert Lines(text) == [[]] + rest;
        assert text == "\n" + text[1..];
      } else {
        var ls := Lines(text);
        assert ls == [[text[0]] + rest[0]] + rest[1..];
        if |rest| == 1 {
          assert text == [text[0]] + text[1..];
        } else {
          assert ls[1..] == rest[1..];
          assert Join(ls) == [text[0]] + (rest[0] + "\n" + Join(rest[1..]));
          assert text == [text[0]] + text[1..];
        }
      }
    }
  }

  /** A line followed by a newline splits off as that one line. */
  lemma {:induction false} LinesAfterLine(x: string, y: string)
    requires '\n' !in x
    ensures Lines(x + "\n" + y) == [x] + Lines(y)
  {
    if x != [] {
      LinesAfterLine(x[1..], y);
      assert (x + "\n" + y)[1..] == x[1..] + "\n" + y;
      assert [x[0]] + x[1..] == x;
    } else {
      assert ("\n" + y)[1..] == y;
    }
  }

  /** A text without a newline is one line. */
  lemma {:induction false} LinesOfLine(x: string)
    requires '\n' !in x
    ensures Lines(x) == [x]
  {
    if x != [] {
      LinesOfLine(x[1..]);
      assert [x[0]] + x[1..] == x;
    }
  }

  /** Joining lines and splitting again gives the same lines back. */
  lemma {:induction false} LinesJoin(ls: seq<string>)
    requires |ls| >= 1
    requires forall i :: 0 <= i < |ls| ==> '\n' !in ls[i]
    ensures Lines(Join(ls)) == ls
  {
    if |ls| == 1 {
      LinesOfLine(ls[0]);
    } else {
      LinesJoin(ls[1..]);
      LinesAfterLine(ls[0], Join(ls[1..]));
      assert [ls[0]] + ls[1..] == ls;
    }
  }

  /**
   * The title `([^=]+)` captures when the line is a section delimiter: the
   * line without its surrounding `\s` characters is `==`, a non-empty title
   * free of `=`, and `==`.
   */
  function DelimiterTitle(line: string): (t: Option<string>)
    ensures t.Some? ==> |t.value| >= 1 && '=' !in t.value
  {
    var s := Strip(line, IsRegexSpace);
    if |s| >= 5 && s[..2] == "==" && s[|s| - 2..] == "==" && '=' !in s[2..|s| - 2]
    then Some(s[2..|s| - 2])
    else None
  }

  /** Every line of the form `<space>==<title>==<space>` is a delimiter, whatever white space pads it. */
  lemma DelimiterLine(w1: string, title: string, w2: string)
    requires forall c :: c in w1 ==> IsRegexSpace(c)
    requires forall c :: c in w2 ==> IsRegexSpace(c)
    requires |title| >= 1 && '=' !in title
    ensures DelimiterTitle(w1 + "==" + title + "==" + w2) == Some(title)
  {
    var x := "==" + title + "==";
    var line := w1 + "==" + title + "==" + w2;
    assert line == w1 + x + w2;
    StripPadded(w1, x, w2, IsRegexSpace);
    StripUnpadded(x, IsRegexSpace);
    SameStripSameTitle(line, x);
    BareDelimiter(title);
  }

  /** The converse of DelimiterLine: a delimiter is `==`, its title and `==`, with only white space around. */
  lemma DelimiterShape(line: string)
    requires DelimiterTitle(line).Some?
    ensures exists w1, w2 :: line == w1 + ("==" + DelimiterTitle(line).value + "==") + w2
              && (forall c :: c in w1 ==> IsRegexSpace(c)) && (forall c :: c in w2 ==> IsRegexSpace(c))
  {
    var w1, w2 := StripParts(line, IsRegexSpace);
    EqualsAround(Strip(line, IsRegexSpace));
  }

  /** A text that starts and ends with `==` is `==`, what lies between, and `==`. */
  lemma EqualsAround(s: string)
    requires |s| >= 4 && s[..2] == "==" && s[|s| - 2..] == "=="
    ensures s == "==" + s[2..|s| - 2] + "=="
  {
    assert s == s[..2] + s[2..|s| - 2] + s[|s| - 2..];
  }

  /** Whether a line is a delimiter depends only on the line without its padding. */
  lemma SameStripSameTitle(a: string, b: string)
    requires Strip(a, IsRegexSpace) == Strip(b, IsRegexSpace)
    ensures DelimiterTitle(a) == DelimiterTitle(b)
  {
  }

  /** A title line written with three equals signs, as readme.txt starts, is not a delimiter. */
  lemma TripleEqualsIsNotDelimiter(title: string)
    requires |title| >= 1 && !IsRegexSpace(title[0]) && !IsRegexSpace(title[|title| - 1])
    ensures DelimiterTitle("=== " + title + " ===") == None
  {
    var x := "=== " + title + " ===";
    assert Strip(x, IsRegexSpace) == x by {
      assert x[0] == '=' && x[|x| - 1] == '=';
      StripUnpadded(x, IsRegexSpace);
    }
    assert x[2..|x| - 2][0] == '=';
  }

  /** A section: its delimiter line, the title that line captures, and the lines of its body. */
  datatype Section = Section(line: string, title: string, body: seq<string>)

  /** The lines before the first delimiter, and the sections after it. */
  datatype Grouping = Grouping(preamble: seq<string>, sections: seq<Section>)

  /** The lines grouped as the split cuts them: the preamble lines, then each delimiter's title with the lines up to the next delimiter. */
  function Group(lines: seq<string>): Grouping
  {
    if lines == [] then Grouping([], [])
    else
      var g := Group(lines[1..]);
      match DelimiterTitle(lines[0])
      case Some(t) => Grouping([], [Section(lines[0], t, g.preamble)] + g.sections)
      case None => Grouping([lines[0]] + g.preamble, g.sections)
  }

  /** Each section as two pieces, its title and then its body. */
  function Flatten(secs: seq<Section>): (pieces: seq<string>)
    ensures |pieces| == 2 * |secs|
  {
    if secs == [] then [] else [secs[0].title, Join(secs[0].body)] + Flatten(secs[1..])
  }

  /** Section j sits at pieces 2j and 2j + 1. */
  lemma {:induction false} FlattenPiece(secs: seq<Section>, j: nat)
    requires j < |secs|
    ensures Flatten(secs)[2 * j] == secs[j].title && Flatten(secs)[2 * j + 1] == Join(secs[j].body)
  {
    if j > 0 {
      FlattenPiece(secs[1..], j - 1);
      assert Flatten(secs)[2 * j] == Flatten(secs[1..])[2 * (j - 1)];
      assert Flatten(secs)[2 * j + 1] == Flatten(secs[1..])[2 * (j - 1) + 1];
    }
  }

  /** The readme's sections, in order of appearance. */
  function SectionsOf(text: string): seq<Section> {
    Group(Lines(text)).sections
  }

  /**
   * `preg_split(..., PREG_SPLIT_DELIM_CAPTURE)`: the preamble, then
   * alternately each title as captured and the body that follows it.
   */
  function Split(text: string): (pieces: seq<string>)
    ensures |pieces| == 1 + 2 * |SectionsOf(text)|
    ensures pieces[0] == Join(Group(Lines(text)).preamble)
  {
    var g := Group(Lines(text));
    [Join(g.preamble)] + Flatten(g.sections)
  }

  /** The split gives section n's title at piece 2n + 1 and its body at piece 2n + 2. */
  lemma SplitPiece(text: string, n: nat, i: nat)
    requires n < |SectionsOf(text)| && i == 2 * n + 1
    ensures Split(text)[i] == SectionsOf(text)[n].title
    ensures Split(text)[i + 1] == Join(SectionsOf(text)[n].body)
  {
    var g := Group(Lines(text));
    var f := Flatten(g.sections);
    assert Split(text) == [Join(g.preamble)] + f;
    FlattenPiece(g.sections, n);
    assert Split(text)[i] == f[2 * n];
    assert Split(text)[i + 1] == f[2 * n + 1];
  }

  /** What the loop assigns, in order: each section's trimmed title to its trimmed body. */
  function Assignments(secs: seq<Section>): (ps: Dict<string>)
    ensures |ps| == |secs|
    ensures forall j :: 0 <= j < |secs| ==> ps[j] == (Trim(secs[j].title), Trim(Join(secs[j].body)))
  {
    seq(|secs|, j requires 0 <= j < |secs| => (Trim(secs[j].title), Trim(Join(secs[j].body))))
  }

  /** The section array `section_data()` returns, as assignments into an empty array. */
  function Sections(text: string): Dict<string> {
    Merge([], Assignments(SectionsOf(text)))
  }

  /** One more iteration of the loop, on the next title and body, is one more assignment. */
  lemma AssignStep(secs: seq<Section>, n: nat, key: string, content: string)
    requires n < |secs|
    requires key == Trim(secs[n].title) && content == Trim(Join(secs[n].body))
    ensures Merge([], Assignments(secs[..n + 1])) == Set(Merge([], Assignments(secs[..n])), key, content)
  {
    var b := Assignments(secs[..n + 1]);
    assert b[..n] == Assignments(secs[..n]);
  }

  /** `section_data()`: the for loop over the split pieces, stepping two at a time. */
  method SectionData(readme: string) returns (sections: Dict<string>)
    ensures sections == Sections(readme)
  {
    var matches := Split(readme);
    ghost var secs := SectionsOf(readme);
    sections := [];
    var i := 1;
    ghost var n := 0;
    while i < |matches|
      invariant |matches| == 2 * |secs| + 1
      invariant i == 2 * n + 1 && n <= |secs|
      invariant sections == Merge([], Assignments(secs[..n]))
    {
      SplitPiece(readme, n, i);
      var key := Trim(matches[i]);
      var content := Trim(matches[i + 1]);
      AssignStep(secs, n, key, content);
      sections := Set(sections, key, content);
      i := i + 2;
      n := n + 1;
    }
    assert secs[..n] == secs;
  }

  /** The titles of the delimiter lines, in order: an independent account of what the split captures. */
  function DelimiterTitles(lines: seq<string>): seq<string> {
    if lines == [] then []
    else
      (match DelimiterTitle(lines[0]) case Some(t) => [t] case None => []) + DelimiterTitles(lines[1..])
  }

  function Titles(secs: seq<Section>): (ts: seq<string>)
    ensures |ts| == |secs|
    ensures forall j :: 0 <= j < |secs| ==> ts[j] == secs[j].title
  {
    seq(|secs|, j requires 0 <= j < |secs| => secs[j].title)
  }

  /** There is one section per delimiter line, titled with what that line captures, in order. */
  lemma {:induction false} GroupTitles(lines: seq<string>)
    ensures Titles(Group(lines).sections) == DelimiterTitles(lines)
  {
    if lines != [] {
      GroupTitles(lines[1..]);
      var g := Group(lines[1..]);
      match DelimiterTitle(lines[0])
      case Some(t) =>
        assert Titles([Section(lines[0], t, g.preamble)] + g.sections) == [t] + Titles(g.sections);
      case None =>
    }
  }

  /** The lines of the sections in order: each delimiter line followed by its body. */
  function Unfold(secs: seq<Section>): seq<string> {
    if secs == [] then [] else [secs[0].line] + secs[0].body + Unfold(secs[1..])
  }

  /** None of the lines is a delimiter. */
  predicate NoDelimiters(ls: seq<string>) {
    forall l :: l in ls ==> DelimiterTitle(l).None?
  }

  /** A section as the cut makes it: its line is a delimiter capturing its title, and its body holds no delimiter. */
  predicate CutSection(s: Section) {
    DelimiterTitle(s.line) == Some(s.title) && NoDelimiters(s.body)
  }

  /**
   * g is a cut of the lines at their delimiters: the lines are the preamble,
   * then each section's delimiter line and body; each section's line is a
   * delimiter capturing its title, and no other line is a delimiter.
   */
  predicate IsCut(lines: seq<string>, g: Grouping) {
    && lines == g.preamble + Unfold(g.sections)
    && NoDelimiters(g.preamble)
    && (forall s :: s in g.sections ==> CutSection(s))
  }

  /** Group cuts the lines at their delimiters: each body is exactly the lines up to the next delimiter or the end. */
  lemma {:induction false} GroupIsCut(lines: seq<string>)
    ensures IsCut(lines, Group(lines))
  {
    if lines != [] {
      var g := Group(lines[1..]);
      GroupIsCut(lines[1..]);
      assert lines == [lines[0]] + lines[1..];
      match DelimiterTitle(lines[0])
      case Some(t) =>
        var s := Section(lines[0], t, g.preamble);
        assert ([s] + g.sections)[1..] == g.sections;
        assert Unfold([s] + g.sections) == [lines[0]] + g.preamble + Unfold(g.sections);
      case None =>
        assert ([lines[0]] + g.preamble) + Unfold(g.sections) == [lines[0]] + (g.preamble + Unfold(g.sections));
    }
  }

  /** A cut that starts with a preamble line: that line is no delimiter, and the rest is cut the same way. */
  lemma CutPreambleLine(lines: seq<string>, g: Grouping)
    requires IsCut(lines, g) && g.preamble != []
    ensures lines != [] && lines[0] == g.preamble[0] && DelimiterTitle(lines[0]).None?
    ensures IsCut(lines[1..], Grouping(g.preamble[1..], g.sections))
  {
    var g' := Grouping(g.preamble[1..], g.sections);
    assert g.preamble == [g.preamble[0]] + g'.preamble;
    assert lines == [g.preamble[0]] + (g'.preamble + Unfold(g'.sections));
  }

  /** A cut that starts with a section: its line is a delimiter, and its body and the later sections cut the rest. */
  lemma CutSectionLine(lines: seq<string>, g: Grouping)
    requires IsCut(lines, g) && g.preamble == [] && g.sections != []
    ensures lines != [] && lines[0] == g.sections[0].line && DelimiterTitle(lines[0]) == Some(g.sections[0].title)
    ensures IsCut(lines[1..], Grouping(g.sections[0].body, g.sections[1..]))
  {
    var s := g.sections[0];
    assert g.sections == [s] + g.sections[1..];
    assert lines == [s.line] + (s.body + Unfold(g.sections[1..]));
    assert CutSection(s);
  }

  /** There is only one such cut: any grouping that cuts the lines at their delimiters is Group's. */
  lemma {:induction false} CutIsGroup(lines: seq<string>, g: Grouping)
    requires IsCut(lines, g)
    ensures g == Group(lines)
    decreases |lines|
  {
    if g.preamble != [] {
      CutPreambleLine(lines, g);
      CutIsGroup(lines[1..], Grouping(g.preamble[1..], g.sections));
      assert g.preamble == [lines[0]] + g.preamble[1..];
    } else if g.sections != [] {
      CutSectionLine(lines, g);
      CutIsGroup(lines[1..], Grouping(g.sections[0].body, g.sections[1..]));
      assert g.sections == [g.sections[0]] + g.sections[1..];
    }
  }

  /** The section keys: each trimmed title once, in order of first appearance. */
  function TrimAll(ts: seq<string>): (r: seq<string>)
    ensures |r| == |ts|
    ensures forall j :: 0 <= j < |ts| ==> r[j] == Trim(ts[j])
  {
    seq(|ts|, j requires 0 <= j < |ts| => Trim(ts[j]))
  }

  lemma SectionKeys(text: string)
    ensures Keys(Sections(text)) == Dedup(TrimAll(DelimiterTitles(Lines(text))))
    ensures WellFormed(Sections(text))
  {
    var secs := SectionsOf(text);
    var a := Assignments(secs);
    GroupTitles(Lines(text));
    assert Keys(a) == TrimAll(Titles(secs));
    var empty: Dict<string> := [];
    assert Keys(empty) + Keys(a) == Keys(a);
    MergeWellFormed([], a);
  }

  /** A title's body is that of the last section whose trimmed title it is. */
  lemma SectionBody(text: string, j: nat)
    requires j < |SectionsOf(text)|
    requires forall i :: j < i < |SectionsOf(text)| ==> Trim(SectionsOf(text)[i].title) != Trim(SectionsOf(text)[j].title)
    ensures Get(Sections(text), Trim(SectionsOf(text)[j].title)) == Some(Trim(Join(SectionsOf(text)[j].body)))
  {
    var secs := SectionsOf(text);
    var a := Assignments(secs);
    var k := Trim(secs[j].title);
    assert Keys(a)[j] == k;
    LastValueIsLast(a, j, k);
  }

  /** The readme yields no sections exactly when none of its lines is a delimiter. */
  lemma NoSectionsWithoutDelimiters(text: string)
    ensures Sections(text) == [] <==> DelimiterTitles(Lines(text)) == []
  {
    var secs := SectionsOf(text);
    GroupTitles(Lines(text));
    SectionKeys(text);
    if secs == [] {
      assert Assignments(secs) == [];
    } else {
      var k := Trim(secs[0].title);
      assert k in TrimAll(DelimiterTitles(Lines(text)));
      assert k in Keys(Sections(text));
    }
  }

  /** An empty readme has no sections. */
  lemma EmptyReadme()
    ensures Sections("") == []
  {
    assert Lines("") == [""];
    assert Strip("", IsRegexSpace) == "";
    assert DelimiterTitles([""]) == [];
    NoSectionsWithoutDelimiters("");
  }

  /** A line with no white space at its ends and not starting with `=` is body text. */
  lemma PlainLine(line: string)
    requires line != [] && line[0] != '='
    requires !IsRegexSpace(line[0]) && !IsRegexSpace(line[|line| - 1])
    ensures DelimiterTitle(line) == None
  {
    var s := Strip(line, IsRegexSpace);
    StripUnpadded(line, IsRegexSpace);
    if |s| >= 2 {
      assert s[..2][0] == line[0];
    }
  }

  lemma TrimPlain(x: string)
    requires x == [] || (!IsTrimChar(x[0]) && !IsTrimChar(x[|x| - 1]))
    ensures Trim(x) == x
  {
    StripUnpadded(x, IsTrimChar);
  }

  lemma TrimSpaced(x: string)
    requires x != [] && !IsTrimChar(x[0]) && !IsTrimChar(x[|x| - 1])
    ensures Trim(" " + x + " ") == x
  {
    StripPadded(" ", x, " ", IsTrimChar);
  }

  /** Text that neither trim() nor `\s` would shorten, on one line. */
  predicate PlainText(x: string) {
    x != [] && '\n' !in x
    && !IsTrimChar(x[0]) && !IsTrimChar(x[|x| - 1])
    && !IsRegexSpace(x[0]) && !IsRegexSpace(x[|x| - 1])
  }

  /** A delimiter line as readme.txt writes one. */
  function Heading(title: string): string {
    "== " + title + " =="
  }

  lemma HeadingLine(title: string)
    requires PlainText(title) && '=' !in title
    ensures DelimiterTitle(Heading(title)) == Some(" " + title + " ")
    ensures '\n' !in Heading(title)
  {
    var x := " " + title + " ";
    assert Heading(title) == "==" + x + "==";
    assert '=' !in x;
    BareDelimiter(x);
  }

  /** A delimiter without padding: `==`, the title, `==`. */
  lemma BareDelimiter(x: string)
    requires |x| >= 1 && '=' !in x
    ensures DelimiterTitle("==" + x + "==") == Some(x)
  {
    var y := "==" + x + "==";
    assert Strip(y, IsRegexSpace) == y by {
      assert y[0] == '=' && y[|y| - 1] == '=';
      StripUnpadded(y, IsRegexSpace);
    }
    assert y[..2] == "==" && y[|y| - 2..] == "==" && y[2..|y| - 2] == x;
  }

  lemma TwoSectionsGroup(t1: string, v1: string, t2: string, v2: string)
    requires PlainText(t1) && '=' !in t1 && PlainText(t2) && '=' !in t2
    requires PlainText(v1) && v1[0] != '=' && PlainText(v2) && v2[0] != '='
    ensures Group([Heading(t1), v1, Heading(t2), v2])
         == Grouping([], [Section(Heading(t1), " " + t1 + " ", [v1]), Section(Heading(t2), " " + t2 + " ", [v2])])
  {
    var ls := [Heading(t1), v1, Heading(t2), v2];
    HeadingLine(t1);
    HeadingLine(t2);
    PlainLine(v1);
    PlainLine(v2);
    assert Group(ls[3..]) == Grouping([v2], []);
    assert Group(ls[2..]) == Grouping([], [Section(Heading(t2), " " + t2 + " ", [v2])]);
    assert Group(ls[1..]) == Grouping([v1], [Section(Heading(t2), " " + t2 + " ", [v2])]);
  }

  lemma JoinFour(a: string, b: string, c: string, d: string)
    ensures Join([a, b, c, d]) == a + "\n" + b + "\n" + c + "\n" + d
  {
    var ls := [a, b, c, d];
    assert ls[1..][1..][1..] == [d];
    assert Join(ls[1..][1..]) == c + "\n" + d;
    assert Join(ls[1..]) == b + "\n" + (c + "\n" + d);
  }

  /** Assigning two distinct keys into an empty array. */
  lemma MergeTwo(k1: string, v1: string, k2: string, v2: string)
    requires k1 != k2
    ensures Merge([], [(k1, v1), (k2, v2)]) == [(k1, v1), (k2, v2)]
  {
    var a := [(k1, v1), (k2, v2)];
    assert a[..1][..0] == [];
    assert Merge([], a[..1]) == [(k1, v1)];
  }

  lemma TwoSectionsOf(t1: string, v1: string, t2: string, v2: string)
    requires PlainText(t1) && '=' !in t1 && PlainText(t2) && '=' !in t2
    requires PlainText(v1) && v1[0] != '=' && PlainText(v2) && v2[0] != '='
    ensures SectionsOf(Heading(t1) + "\n" + v1 + "\n" + Heading(t2) + "\n" + v2)
         == [Section(Heading(t1), " " + t1 + " ", [v1]), Section(Heading(t2), " " + t2 + " ", [v2])]
  {
    var ls := [Heading(t1), v1, Heading(t2), v2];
    JoinFour(Heading(t1), v1, Heading(t2), v2);
    HeadingLine(t1);
    HeadingLine(t2);
    LinesJoin(ls);
    TwoSectionsGroup(t1, v1, t2, v2);
  }

  /** A one-line section written with single spaces around its title assigns that title to that line. */
  lemma OneAssignment(t: string, v: string)
    requires PlainText(t) && PlainText(v)
    ensures Trim(" " + t + " ") == t && Trim(Join([v])) == v
  {
    TrimSpaced(t);
    assert Join([v]) == v;
    TrimPlain(v);
  }

  lemma TwoAssignments(t1: string, v1: string, t2: string, v2: string)
    requires PlainText(t1) && PlainText(t2) && PlainText(v1) && PlainText(v2)
    ensures Assignments([Section(Heading(t1), " " + t1 + " ", [v1]), Section(Heading(t2), " " + t2 + " ", [v2])]) == [(t1, v1), (t2, v2)]
  {
    var s1, s2 := Section(Heading(t1), " " + t1 + " ", [v1]), Section(Heading(t2), " " + t2 + " ", [v2]);
    AssignmentsOfTwo(s1, s2);
    OneAssignment(t1, v1);
    OneAssignment(t2, v2);
  }

  lemma AssignmentsOfTwo(s1: Section, s2: Section)
    ensures Assignments([s1, s2]) == [(Trim(s1.title), Trim(Join(s1.body))), (Trim(s2.title), Trim(Join(s2.body)))]
  {
  }

  /**
   * Two sections, each with one line of text, such as
   * "== Description ==\nHello world\n== Installation ==\nStep 1": both are
   * found, titles and bodies trimmed, in the order they appear.
   */
  lemma TwoSections(t1: string, v1: string, t2: string, v2: string)
    requires PlainText(t1) && '=' !in t1 && PlainText(t2) && '=' !in t2 && t1 != t2
    requires PlainText(v1) && v1[0] != '=' && PlainText(v2) && v2[0] != '='
    ensures Sections(Heading(t1) + "\n" + v1 + "\n" + Heading(t2) + "\n" + v2) == [(t1, v1), (t2, v2)]
  {
    var text := Heading(t1) + "\n" + v1 + "\n" + Heading(t2) + "\n" + v2;
    TwoSectionsOf(t1, v1, t2, v2);
    TwoAssignments(t1, v1, t2, v2);
    MergeTwo(t1, v1, t2, v2);
  }
}
