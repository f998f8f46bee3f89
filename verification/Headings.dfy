// A document folded into sections under their heading paths (scripts/check_facts.py).
module Headings {
  import opened Blocks

  // None is a line of body text, 0 the title, any other level a heading.
  datatype Line = Line(level: Option<nat>, text: string)

  datatype Heading = Heading(level: nat, text: string)

  // A section before its path and body are joined into strings.
  datatype Section = Section(path: seq<Heading>, body: seq<string>)

  datatype Fold = Fold(title: string, open: seq<Heading>, body: seq<string>, sections: seq<Section>)

  // What stays open under a heading of this level.
  function Shallower(open: seq<Heading>, level: nat): (r: seq<Heading>)
    ensures forall h :: h in r <==> h in open && h.level < level
  {
    if open == [] then []
    else (if open[0].level < level then [open[0]] else []) + Shallower(open[1..], level)
  }

  function FoldLine(f: Fold, line: Line): Fold {
    match line.level
    case None => f.(body := f.body + [line.text])
    case Some(level) =>
      var closed := f.(sections := f.sections + [Section(f.open, f.body)], body := []);
      if level == 0 then closed.(title := line.text, open := [])
      else closed.(open := Shallower(f.open, level) + [Heading(level, line.text)])
  }

  function Folded(lines: seq<Line>): Fold {
    if lines == [] then Fold("", [], [], [])
    else FoldLine(Folded(lines[..|lines| - 1]), lines[|lines| - 1])
  }

  // The title, and every section including the one the document ends in.
  function Sections(lines: seq<Line>): (string, seq<Section>) {
    var f := Folded(lines);
    (f.title, f.sections + [Section(f.open, f.body)])
  }

  method SectionsFromHeadings(lines: seq<Line>) returns (title: string, sections: seq<Section>)
    ensures (title, sections) == Sections(lines)
  {
    title := "";
    var open: seq<Heading>, body: seq<string> := [], [];
    sections := [];
    for n := 0 to |lines|
      invariant Fold(title, open, body, sections) == Folded(lines[..n])
    {
      assert lines[..n + 1][..n] == lines[..n];
      var line := lines[n];
      if line.level.None? {
        body := body + [line.text];
        continue;
      }
      sections := sections + [Section(open, body)];
      body := [];
      if line.level.value == 0 {
        title := line.text;
        open := [];
      } else {
        open := Shallower(open, line.level.value);
        open := open + [Heading(line.level.value, line.text)];
      }
    }
    assert lines[..|lines|] == lines;
    sections := sections + [Section(open, body)];
  }

  // ----- nothing of the body is lost -----

  function Bodies(sections: seq<Section>): seq<string> {
    if sections == [] then [] else Bodies(sections[..|sections| - 1]) + sections[|sections| - 1].body
  }

  function BodyLines(lines: seq<Line>): seq<string> {
    if lines == [] then []
    else
      BodyLines(lines[..|lines| - 1]) +
      if lines[|lines| - 1].level.None? then [lines[|lines| - 1].text] else []
  }

  function HeadingCount(lines: seq<Line>): nat {
    if lines == [] then 0
    else HeadingCount(lines[..|lines| - 1]) + if lines[|lines| - 1].level.Some? then 1 else 0
  }

  lemma BodiesAppend(sections: seq<Section>, last: Section)
    ensures Bodies(sections + [last]) == Bodies(sections) + last.body
  {
    assert (sections + [last])[..|sections|] == sections;
  }

  lemma {:induction false} FoldConserves(lines: seq<Line>)
    ensures var f := Folded(lines);
            Bodies(f.sections) + f.body == BodyLines(lines) && |f.sections| == HeadingCount(lines)
  {
    if lines != [] {
      var before := Folded(lines[..|lines| - 1]);
      FoldConserves(lines[..|lines| - 1]);
      BodiesAppend(before.sections, Section(before.open, before.body));
    }
  }

  // Every body line is in exactly one section, in order; a document has one section more than it
  // has headings.
  lemma BodyIsConserved(lines: seq<Line>)
    ensures var sections := Sections(lines).1;
            Bodies(sections) == BodyLines(lines) && |sections| == HeadingCount(lines) + 1
  {
    var f := Folded(lines);
    FoldConserves(lines);
    BodiesAppend(f.sections, Section(f.open, f.body));
  }

  // Line j is the title line of these lines: the last one of level 0.
  predicate IsTitle(lines: seq<Line>, j: nat) {
    j < |lines| && lines[j].level == Some(0) && forall i :: j < i < |lines| ==> lines[i].level != Some(0)
  }

  // The title is the text of that line, and empty where there is none.
  lemma {:induction false} TitleIsLast(lines: seq<Line>)
    ensures forall j: nat :: IsTitle(lines, j) ==> Sections(lines).0 == lines[j].text
    ensures (forall j :: 0 <= j < |lines| ==> lines[j].level != Some(0)) ==> Sections(lines).0 == ""
  {
    if lines != [] {
      var n := |lines| - 1;
      TitleIsLast(lines[..n]);
      forall j: nat | IsTitle(lines, j) && j < n ensures IsTitle(lines[..n], j) {
      }
    }
  }

  // ----- each section stands under the headings that are open -----

  // Heading line j is still open at the end of these lines: neither a title nor a heading at its
  // level or a shallower one has come after it.
  predicate OpenAt(lines: seq<Line>, j: nat) {
    && j < |lines| && lines[j].level.Some? && lines[j].level.value > 0
    && forall i :: j < i < |lines| && lines[i].level.Some? ==> lines[i].level.value > lines[j].level.value
  }

  // The headings open at the end of these lines, in document order, from line j on.
  function OpenFrom(lines: seq<Line>, j: nat): seq<Heading>
    requires j <= |lines|
    decreases |lines| - j
  {
    if j == |lines| then []
    else (if OpenAt(lines, j) then [Heading(lines[j].level.value, lines[j].text)] else []) + OpenFrom(lines, j + 1)
  }

  function OpenHeadings(lines: seq<Line>): seq<Heading> { OpenFrom(lines, 0) }

  // What one more line does to the headings that were open.
  function After(open: seq<Heading>, line: Line): seq<Heading> {
    match line.level
    case None => open
    case Some(level) => if level == 0 then [] else Shallower(open, level) + [Heading(level, line.text)]
  }

  lemma {:induction false} OpenFromNext(lines: seq<Line>, line: Line, j: nat)
    requires j <= |lines|
    ensures OpenFrom(lines + [line], j) == After(OpenFrom(lines, j), line)
    decreases |lines| - j
  {
    var all := lines + [line];
    if j == |lines| {
      assert OpenFrom(all, j + 1) == [];
      assert OpenAt(all, j) <==> line.level.Some? && line.level.value > 0;
    } else {
      OpenFromNext(lines, line, j + 1);
      OpenAtNext(lines, line, j);
      var rest := OpenFrom(lines, j + 1);
      var none: seq<Heading> := [];
      assert none + rest == rest && none + After(rest, line) == After(rest, line);
      if OpenAt(lines, j) {
        AfterCons(Heading(lines[j].level.value, lines[j].text), rest, line);
      }
    }
  }

  lemma AfterCons(h: Heading, rest: seq<Heading>, line: Line)
    requires h.level > 0
    ensures After([h] + rest, line)
            == (if line.level.None? || line.level.value > h.level then [h] else []) + After(rest, line)
  {
    assert ([h] + rest)[1..] == rest;
  }

  lemma OpenAtNext(lines: seq<Line>, line: Line, j: nat)
    requires j < |lines|
    ensures OpenAt(lines + [line], j) <==>
              OpenAt(lines, j) && (line.level.Some? ==> line.level.value > lines[j].level.value)
  {
    var all := lines + [line];
    assert forall i :: 0 <= i < |lines| ==> all[i] == lines[i];
    assert all[|lines|] == line;
    if OpenAt(lines, j) && (line.level.Some? ==> line.level.value > lines[j].level.value) {
      forall i | j < i < |all| && all[i].level.Some? ensures all[i].level.value > all[j].level.value {
        assert i == |lines| || all[i] == lines[i];
      }
    }
  }

  // The running stack is exactly the headings still open.
  lemma {:induction false} StackIsOpenHeadings(lines: seq<Line>)
    ensures Folded(lines).open == OpenHeadings(lines)
  {
    if lines != [] {
      var n := |lines| - 1;
      StackIsOpenHeadings(lines[..n]);
      OpenFromNext(lines[..n], lines[n], 0);
      assert lines[..n] + [lines[n]] == lines;
    }
  }

  // The line the k-th section ends before: the k-th heading, or the end of the document.
  function SectionEnd(lines: seq<Line>, k: nat): (n: nat)
    ensures n <= |lines|
  {
    if lines == [] then 0
    else
      var m := |lines| - 1;
      if k < HeadingCount(lines[..m]) then SectionEnd(lines[..m], k)
      else if k == HeadingCount(lines[..m]) && lines[m].level.Some? then m
      else |lines|
  }

  // The line the k-th section begins with, behind the heading that ended the one before it.
  function SectionStart(lines: seq<Line>, k: nat): nat {
    if k == 0 then 0 else SectionEnd(lines, k - 1) + 1
  }

  // Which lines those are: the k-th section ends before the k-th heading, the last one with the document.
  lemma {:induction false} SectionEndIs(lines: seq<Line>, k: nat)
    requires k <= HeadingCount(lines)
    ensures var e := SectionEnd(lines, k);
            if k == HeadingCount(lines) then e == |lines|
            else e < |lines| && lines[e].level.Some? && HeadingCount(lines[..e]) == k
  {
    if lines != [] {
      var m := |lines| - 1;
      var before := lines[..m];
      if k < HeadingCount(before) {
        SectionEndIs(before, k);
        assert before[..SectionEnd(before, k)] == lines[..SectionEnd(before, k)];
      } else if k == HeadingCount(before) {
        SectionEndIs(before, k);
      }
    }
  }

  // A heading does not move when more lines follow.
  lemma EndStays(before: seq<Line>, line: Line, k: nat)
    requires k < HeadingCount(before)
    ensures SectionEnd(before + [line], k) == SectionEnd(before, k) < |before|
  {
    assert (before + [line])[..|before|] == before;
    SectionEndIs(before, k);
  }

  lemma StartBeforeEnd(lines: seq<Line>, k: nat)
    requires 0 < k < HeadingCount(lines)
    ensures SectionEnd(lines, k - 1) < SectionEnd(lines, k)
  {
    SectionEndIs(lines, k - 1);
    SectionEndIs(lines, k);
    HeadingsInOrder(lines, SectionEnd(lines, k - 1), SectionEnd(lines, k));
  }

  lemma SectionStays(before: seq<Line>, line: Line, k: nat)
    requires k <= HeadingCount(before)
    ensures var lines := before + [line];
            && SectionStart(lines, k) == SectionStart(before, k) <= |before|
            && (k < HeadingCount(before) ==> SectionStart(before, k) <= SectionEnd(before, k) == SectionEnd(lines, k))
  {
    if k > 0 {
      EndStays(before, line, k - 1);
    }
    if k < HeadingCount(before) {
      EndStays(before, line, k);
      if k > 0 {
        StartBeforeEnd(before, k);
      }
    }
  }

  lemma {:induction false} HeadingsInOrder(lines: seq<Line>, i: nat, j: nat)
    requires i <= |lines| && j <= |lines| && HeadingCount(lines[..i]) < HeadingCount(lines[..j])
    ensures i < j
    decreases i
  {
    if j <= i {
      CountGrows(lines, j, i);
    }
  }

  lemma {:induction false} CountGrows(lines: seq<Line>, i: nat, j: nat)
    requires i <= j <= |lines|
    ensures HeadingCount(lines[..i]) <= HeadingCount(lines[..j])
    decreases j - i
  {
    if i < j {
      CountGrows(lines, i, j - 1);
      assert lines[..j][..j - 1] == lines[..j - 1];
    }
  }

  lemma BodyLinesNext(lines: seq<Line>, i: nat)
    requires i < |lines|
    ensures BodyLines(lines[i..])
            == BodyLines(lines[i..|lines| - 1])
               + if lines[|lines| - 1].level.None? then [lines[|lines| - 1].text] else []
  {
    assert lines[i..][..|lines[i..]| - 1] == lines[i..|lines| - 1];
  }

  // The lines gathered so far are those behind the last heading.
  lemma {:induction false} RunningBody(lines: seq<Line>)
    ensures SectionStart(lines, HeadingCount(lines)) <= |lines|
    ensures Folded(lines).body == BodyLines(lines[SectionStart(lines, HeadingCount(lines))..])
  {
    if lines != [] {
      var m := |lines| - 1;
      var before := lines[..m];
      RunningBody(before);
      assert lines == before + [lines[m]];
      SectionStays(before, lines[m], HeadingCount(before));
      if lines[m].level.None? {
        var i := SectionStart(before, HeadingCount(before));
        BodyLinesNext(lines, i);
        assert lines[i..m] == before[i..];
      } else {
        assert SectionEnd(lines, HeadingCount(before)) == m;
        assert lines[m + 1..] == [];
      }
    }
  }

  // One more line leaves the lines of an earlier section where they were.
  lemma EarlierSection(before: seq<Line>, line: Line, k: nat)
    requires k < HeadingCount(before)
    ensures SectionStart(before, k) <= SectionEnd(before, k)
    ensures var lines := before + [line];
            && SectionStart(lines, k) <= SectionEnd(lines, k)
            && lines[SectionStart(lines, k)..SectionEnd(lines, k)]
               == before[SectionStart(before, k)..SectionEnd(before, k)]
  {
    SectionStays(before, line, k);
  }

  // A heading closes the section that ran up to it.
  lemma ClosingSection(before: seq<Line>, line: Line)
    requires line.level.Some?
    ensures var lines, k := before + [line], HeadingCount(before);
            && SectionStart(lines, k) == SectionStart(before, k) <= |before| == SectionEnd(lines, k)
            && lines[SectionStart(lines, k)..SectionEnd(lines, k)] == before[SectionStart(before, k)..]
  {
    SectionStays(before, line, HeadingCount(before));
    assert (before + [line])[..|before|] == before;
  }

  lemma {:induction false} ClosedBody(lines: seq<Line>, k: nat)
    requires k < HeadingCount(lines)
    ensures SectionStart(lines, k) <= SectionEnd(lines, k) && |Folded(lines).sections| == HeadingCount(lines)
    ensures Folded(lines).sections[k].body == BodyLines(lines[SectionStart(lines, k)..SectionEnd(lines, k)])
  {
    var m := |lines| - 1;
    var before, line := lines[..m], lines[m];
    assert before + [line] == lines;
    FoldConserves(lines);
    FoldConserves(before);
    if k < HeadingCount(before) {
      ClosedBody(before, k);
      EarlierSection(before, line, k);
    } else {
      RunningBody(before);
      ClosingSection(before, line);
    }
  }

  // The body of each section is exactly the body lines between its own heading and the next.
  lemma BodiesAreBetweenHeadings(lines: seq<Line>, k: nat)
    requires k < |Sections(lines).1|
    ensures SectionStart(lines, k) <= SectionEnd(lines, k)
    ensures Sections(lines).1[k].body == BodyLines(lines[SectionStart(lines, k)..SectionEnd(lines, k)])
  {
    FoldConserves(lines);
    if k < HeadingCount(lines) {
      ClosedBody(lines, k);
    } else {
      RunningBody(lines);
      SectionEndIs(lines, k);
      assert lines[SectionStart(lines, k)..SectionEnd(lines, k)] == lines[SectionStart(lines, k)..];
    }
  }

  lemma {:induction false} SectionPath(lines: seq<Line>, k: nat)
    requires k < |Folded(lines).sections|
    ensures |Folded(lines).sections| == HeadingCount(lines)
    ensures Folded(lines).sections[k].path == OpenHeadings(lines[..SectionEnd(lines, k)])
  {
    FoldConserves(lines);
    var m := |lines| - 1;
    FoldConserves(lines[..m]);
    if k < HeadingCount(lines[..m]) {
      SectionPath(lines[..m], k);
      assert lines[..m][..SectionEnd(lines[..m], k)] == lines[..SectionEnd(lines, k)];
    } else {
      StackIsOpenHeadings(lines[..m]);
    }
  }

  // Every section's path is exactly the headings open where its body is, outermost first.
  lemma PathsAreOpenHeadings(lines: seq<Line>, k: nat)
    requires k < |Sections(lines).1|
    ensures Sections(lines).1[k].path == OpenHeadings(lines[..SectionEnd(lines, k)])
  {
    FoldConserves(lines);
    if k < HeadingCount(lines) {
      SectionPath(lines, k);
    } else {
      StackIsOpenHeadings(lines);
      EndOfLast(lines);
      assert lines[..|lines|] == lines;
    }
  }

  lemma {:induction false} EndOfLast(lines: seq<Line>)
    ensures SectionEnd(lines, HeadingCount(lines)) == |lines|
  {
  }

  predicate Deepening(path: seq<Heading>) {
    forall i, j :: 0 <= i < j < |path| ==> path[i].level < path[j].level
  }

  // An open heading is an open line.
  lemma {:induction false} OpenComesFrom(lines: seq<Line>, j: nat, h: Heading) returns (i: nat)
    requires j <= |lines| && h in OpenFrom(lines, j)
    ensures j <= i < |lines| && OpenAt(lines, i) && h.level == lines[i].level.value
    decreases |lines| - j
  {
    if OpenAt(lines, j) && h == Heading(lines[j].level.value, lines[j].text) {
      i := j;
    } else {
      i := OpenComesFrom(lines, j + 1, h);
    }
  }

  lemma {:induction false} OpenDeepens(lines: seq<Line>, j: nat)
    requires j <= |lines|
    ensures Deepening(OpenFrom(lines, j))
    decreases |lines| - j
  {
    if j < |lines| {
      OpenDeepens(lines, j + 1);
      if OpenAt(lines, j) {
        var rest := OpenFrom(lines, j + 1);
        forall k | 0 <= k < |rest| ensures lines[j].level.value < rest[k].level {
          var i := OpenComesFrom(lines, j + 1, rest[k]);
        }
        DeepensInFront(Heading(lines[j].level.value, lines[j].text), rest);
      }
    }
  }

  lemma DeepensInFront(h: Heading, rest: seq<Heading>)
    requires Deepening(rest) && forall k :: 0 <= k < |rest| ==> h.level < rest[k].level
    ensures Deepening([h] + rest)
  {
  }

  // Levels strictly increase along every path.
  lemma PathsDeepen(lines: seq<Line>, k: nat)
    requires k < |Sections(lines).1|
    ensures Deepening(Sections(lines).1[k].path)
  {
    PathsAreOpenHeadings(lines, k);
    OpenDeepens(lines[..SectionEnd(lines, k)], 0);
  }
}
