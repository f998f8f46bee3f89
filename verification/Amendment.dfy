// What a turn without a write does when an earlier turn of the session performed one: its directives
// to repeat that write give way to a line that amends it (src/hrmosaic/agent/outcome.py:847-874, 974-997).
module Amendment {
  import opened Blocks
  import opened Lists
  import opened Outcome
  import opened Sentences
  import opened Texts

  // An earlier write of the session; `directs` is directs() for its tool.
  datatype Prior = Prior(id: string, directs: string -> bool)

  const FRONT := "Amend "
  const BACK := " in MosaicOne" + " rather than" + " filing a" + " second request" + "."

  function AmendLine(id: string): string { FRONT + id + BACK }

  // A sentence that sends the reader to file again.
  predicate Stale(p: Prior, s: string) { !Contains(s, p.id) && p.directs(s) }

  function StaleTest(p: Prior): SentenceTest { s => Stale(p, s) }

  // The sentences with each stale one replaced by the line, which is not said twice.
  function Substituted(stale: SentenceTest, line: string, parts: seq<string>, said: bool): seq<string> {
    if parts == [] then []
    else if stale(parts[0]) then (if said then [] else [line]) + Substituted(stale, line, parts[1..], true)
    else [parts[0]] + Substituted(stale, line, parts[1..], said || parts[0] == line)
  }

  function AmendedBy(stale: SentenceTest, line: string, text: string): string {
    var parts := SentencesOf(text);
    if exists s :: s in parts && stale(s) then Join(Substituted(stale, line, parts, false)) else text
  }

  // amend(); the prior write has an id and a tool.
  function Amended(p: Prior, text: string): string { AmendedBy(StaleTest(p), AmendLine(p.id), text) }

  method Amend(stale: SentenceTest, line: string, text: string) returns (amended: string)
    ensures amended == AmendedBy(stale, line, text)
  {
    var parts := SentencesOf(text);
    var kept, replaced := ReplaceStale(stale, line, parts);
    amended := if replaced then Join(kept) else text;
  }

  method ReplaceStale(stale: SentenceTest, line: string, parts: seq<string>) returns (kept: seq<string>, replaced: bool)
    ensures kept == Substituted(stale, line, parts, false)
    ensures replaced <==> exists s :: s in parts && stale(s)
  {
    kept, replaced := [], false;
    for i := 0 to |parts|
      invariant kept + Substituted(stale, line, parts[i..], line in kept) == Substituted(stale, line, parts, false)
      invariant replaced <==> exists k :: 0 <= k < i && stale(parts[k])
    {
      ReplaceStep(stale, line, parts, i, kept);
      if stale(parts[i]) {
        replaced := true;
        if line !in kept {
          kept := kept + [line];
        }
      } else {
        kept := kept + [parts[i]];
      }
    }
  }

  lemma ReplaceStep(stale: SentenceTest, line: string, parts: seq<string>, i: nat, kept: seq<string>)
    requires i < |parts|
    ensures var said := line in kept;
            var next := if !stale(parts[i]) then kept + [parts[i]] else if said then kept else kept + [line];
            && kept + Substituted(stale, line, parts[i..], said)
               == next + Substituted(stale, line, parts[i + 1..], line in next)
  {
    var here, said := parts[i..], line in kept;
    assert here[0] == parts[i] && here[1..] == parts[i + 1..];
    var put := if !stale(parts[i]) then [parts[i]] else if said then [] else [line];
    var next := kept + put;
    assert line in next <==> said || line in put;
    assert kept + [] == kept;
    Associative(kept, put, Substituted(stale, line, parts[i + 1..], line in next));
  }

  // ----- a second pass -----

  lemma {:induction false} SubstitutedPieces(stale: SentenceTest, line: string, parts: seq<string>, said: bool)
    requires Pieces(parts) && OneSentence(line)
    ensures Pieces(Substituted(stale, line, parts, said))
    ensures forall s :: s in Substituted(stale, line, parts, said) ==> s == line || (s in parts && !stale(s))
    ensures parts != [] && StartsSentence(parts[0]) && Substituted(stale, line, parts, said) != [] ==>
              StartsSentence(Substituted(stale, line, parts, said)[0])
  {
    if parts != [] {
      var rest := parts[1..];
      assert forall i :: 0 <= i < |rest| ==> rest[i] == parts[i + 1];
      var next := said || stale(parts[0]) || parts[0] == line;
      SubstitutedPieces(stale, line, rest, next);
      if stale(parts[0]) && !said {
        FrontPiece(line, Substituted(stale, line, rest, true));
      } else if !stale(parts[0]) {
        FrontPiece(parts[0], Substituted(stale, line, rest, next));
      }
    }
  }

  lemma {:induction false} OthersKept(stale: SentenceTest, line: string, other: SentenceTest, standing: SentenceTest,
                                       parts: seq<string>, said: bool)
    requires forall s :: other(s) == (Strip(s) != line)
    requires forall s :: standing(s) == (Strip(s) != line && !stale(s))
    requires Strip(line) == line
    ensures Keep(Substituted(stale, line, parts, said), other) == Keep(parts, standing)
    ensures !said && (exists s :: s in parts && stale(s)) ==> line in Substituted(stale, line, parts, said)
    decreases |parts|
  {
    if parts != [] {
      var rest := parts[1..];
      OthersKept(stale, line, other, standing, rest, said || stale(parts[0]) || parts[0] == line);
      KeepFront(line, Substituted(stale, line, rest, true), other);
      KeepFront(parts[0], Substituted(stale, line, rest, said || parts[0] == line), other);
      assert [] + Substituted(stale, line, rest, true) == Substituted(stale, line, rest, true);
      assert forall s :: s in parts <==> s == parts[0] || s in rest;
    }
  }

  lemma SecondPass(stale: SentenceTest, line: string, text: string)
    requires OneSentence(line) && !stale(line) && forall s {:trigger Strip(s)} :: stale(s) == stale(Strip(s))
    ensures var once := AmendedBy(stale, line, text);
            && (forall s :: s in SentencesOf(once) ==> !stale(s))
            && AmendedBy(stale, line, once) == once
  {
    var parts := SentencesOf(text);
    if exists s :: s in parts && stale(s) {
      var kept := Substituted(stale, line, parts, false);
      SentencesArePieces(text);
      SubstitutedPieces(stale, line, parts, false);
      RejoinPieces(kept);
      forall s | s in Stripped(kept) ensures !stale(s) {
        var i :| 0 <= i < |kept| && Stripped(kept)[i] == s;
        assert kept[i] in kept && stale(kept[i]) == stale(Strip(kept[i]));
      }
    }
  }

  // ----- the line names the write -----

  // No sentence begins inside the line if none begins inside the id.
  lemma LineIsOneSentence(id: string)
    requires ProperId(id) && Unbroken(id)
    ensures OneSentence(AmendLine(id))
  {
    var line := AmendLine(id);
    forall p | 0 <= p < |line| ensures !BreakAt(line, p) {
      NoBreakAt(id, p);
    }
    OwnWords();
    LineAt(id, 0);
    LineAt(id, |line| - 1);
    StripNothing(line);
  }

  lemma NoBreakAt(id: string, p: nat)
    requires ProperId(id) && Unbroken(id) && p < |AmendLine(id)|
    ensures !BreakAt(AmendLine(id), p)
  {
    var line := AmendLine(id);
    LineAt(id, p);
    if p > 0 {
      LineAt(id, p - 1);
      if p == |FRONT| + |id| {
        NoBreakBehindId(id);
      } else if |FRONT| < p < |FRONT| + |id| {
        assert line[|FRONT|..|FRONT| + |id|] == id;
        BreakInId(line, id, p);
      } else {
        NoTerminalOutside(id, p);
      }
    }
  }

  lemma NoBreakBehindId(id: string)
    requires ProperId(id)
    ensures !BreakAt(AmendLine(id), |FRONT| + |id|)
  {
    var line, p := AmendLine(id), |FRONT| + |id|;
    OwnWords();
    LineAt(id, p);
    LineAt(id, p + 1);
    SpaceEndAt(line, p, p + 1);
  }

  // The line's own words hold no sentence end in front of a boundary.
  lemma NoTerminalOutside(id: string, p: nat)
    requires 0 < p < |AmendLine(id)| && (p <= |FRONT| || p > |FRONT| + |id|)
    ensures !IsTerminal(AmendLine(id)[p - 1])
  {
    OwnWords();
    LineAt(id, p - 1);
    if p <= |FRONT| {
      assert AmendLine(id)[p - 1] == FRONT[p - 1];
    } else {
      assert AmendLine(id)[p - 1] == BACK[..|BACK| - 1][p - 1 - |FRONT| - |id|];
    }
  }

  lemma LineAt(id: string, k: nat)
    requires k < |AmendLine(id)|
    ensures |AmendLine(id)| == |FRONT| + |id| + |BACK|
    ensures AmendLine(id)[k]
            == if k < |FRONT| then FRONT[k]
               else if k < |FRONT| + |id| then id[k - |FRONT|]
               else BACK[k - |FRONT| - |id|]
  {
  }

  // The only full stop of the line's own words is the last character.
  lemma OwnWords()
    ensures NoTerminal(FRONT) && NoTerminal(BACK[..|BACK| - 1])
    ensures BACK[0] == ' ' && BACK[1] == 'i' && BACK[|BACK| - 1] == '.'
  {
    var words := " in MosaicOne" + " rather than" + " filing a" + " second request";
    NoTerminalAppend(" in MosaicOne", " rather than");
    NoTerminalAppend(" in MosaicOne" + " rather than", " filing a");
    NoTerminalAppend(" in MosaicOne" + " rather than" + " filing a", " second request");
    assert BACK[..|BACK| - 1] == words;
  }

  lemma BreakInId(line: string, id: string, p: nat)
    requires |line| > |FRONT| + |id| && ProperId(id) && |FRONT| < p < |FRONT| + |id|
    requires line[|FRONT|..|FRONT| + |id|] == id
    ensures BreakAt(line, p) ==> BreakAt(id, p - |FRONT|)
  {
    var from := |FRONT|;
    if BreakAt(line, p) {
      var q := SpaceEnd(line, p);
      assert line[from + |id| - 1] == id[|id| - 1];
      assert q < from + |id|;
      SpacesInSlice(line, from, from + |id|, p, q);
      assert id[q - from] == line[q] && id[p - from] == line[p] && id[p - from - 1] == line[p - 1];
    }
  }

  lemma SpacesInSlice(t: string, i: nat, j: nat, p: nat, q: nat)
    requires i <= p <= q < j <= |t| && SpaceEnd(t, p) == q
    ensures SpaceEnd(t[i..j], p - i) == q - i
  {
    var s := t[i..j];
    forall k | p - i <= k < q - i ensures IsSpace(s[k]) {
      assert s[k] == t[k + i];
    }
    assert s[q - i] == t[q];
    SpaceEndAt(s, p - i, q - i);
  }

  // Every directive left after one pass names the write, and a second pass is the identity.
  lemma AmendSettles(p: Prior, text: string)
    requires ProperId(p.id) && Unbroken(p.id) && IgnoresEdges(p.directs)
    ensures var once := Amended(p, text);
            && (forall s :: s in SentencesOf(once) ==> Contains(s, p.id) || !p.directs(s))
            && Amended(p, once) == once
  {
    LineIsOneSentence(p.id);
    LineNamesTheWrite(p.id);
    forall s {:trigger Strip(s)} ensures StaleTest(p)(s) == StaleTest(p)(Strip(s)) {
      ContainsStrip(s, p.id);
      assert p.directs(s) == p.directs(Strip(s));
    }
    SecondPass(StaleTest(p), AmendLine(p.id), text);
    forall s | s in SentencesOf(Amended(p, text)) ensures Contains(s, p.id) || !p.directs(s) {
      assert !StaleTest(p)(s);
    }
  }

  // Some sentence that is not the line itself, and some that is not stale either.
  function NotTheLine(p: Prior): SentenceTest { s => Strip(s) != AmendLine(p.id) }

  function Standing(p: Prior): SentenceTest { s => Strip(s) != AmendLine(p.id) && !Stale(p, s) }

  function NotStale(p: Prior): SentenceTest { s => !Stale(p, s) }

  // The sentences of an amended text are those of the list it was joined from.
  lemma AmendedSentences(p: Prior, text: string)
    requires ProperId(p.id) && Unbroken(p.id)
    ensures Stripped(SentencesOf(Amended(p, text)))
            == if FirstWhere(StaleTest(p), SentencesOf(text)) == |SentencesOf(text)| then Stripped(SentencesOf(text))
               else Stripped(Substituted(StaleTest(p), AmendLine(p.id), SentencesOf(text), false))
  {
    var stale, line, parts := StaleTest(p), AmendLine(p.id), SentencesOf(text);
    var k := FirstWhere(stale, parts);
    if k < |parts| {
      assert parts[k] in parts;
      LineIsOneSentence(p.id);
      SentencesArePieces(text);
      SubstitutedPieces(stale, line, parts, false);
      RejoinPieces(Substituted(stale, line, parts, false));
      StrippedTwice(Substituted(stale, line, parts, false));
    }
  }

  // Of the amended text: every sentence that was not stale stands, in its order, and where one was
  // stale the line is there.
  lemma OthersStand(p: Prior, text: string)
    requires ProperId(p.id) && Unbroken(p.id)
    ensures var before, after := SentencesOf(text), SentencesOf(Amended(p, text));
            && Stripped(Keep(after, NotTheLine(p))) == Stripped(Keep(before, Standing(p)))
            && ((exists s :: s in before && Stale(p, s)) ==> AmendLine(p.id) in Stripped(after))
  {
    var stale, line, before := StaleTest(p), AmendLine(p.id), SentencesOf(text);
    AmendedSentences(p, text);
    LineIsOneSentence(p.id);
    if FirstWhere(stale, before) < |before| {
      assert before[FirstWhere(stale, before)] in before;
      OthersKept(stale, line, NotTheLine(p), Standing(p), before, false);
      SameWhenStripped(p, SentencesOf(Amended(p, text)), Substituted(stale, line, before, false));
    } else {
      NothingStale(p, before);
      SameWhenStripped(p, SentencesOf(Amended(p, text)), before);
    }
  }

  lemma SameWhenStripped(p: Prior, after: seq<string>, kept: seq<string>)
    requires Stripped(after) == Stripped(kept) && Strip(AmendLine(p.id)) == AmendLine(p.id)
    ensures Stripped(Keep(after, NotTheLine(p))) == Stripped(Keep(kept, NotTheLine(p)))
    ensures AmendLine(p.id) in kept ==> AmendLine(p.id) in Stripped(after)
  {
    NotTheLineIgnoresEdges(p);
    KeepStripped(after, NotTheLine(p));
    KeepStripped(kept, NotTheLine(p));
    if i :| 0 <= i < |kept| && kept[i] == AmendLine(p.id) {
      assert Stripped(kept)[i] == AmendLine(p.id);
    }
  }

  lemma NotTheLineIgnoresEdges(p: Prior)
    ensures IgnoresEdges(NotTheLine(p))
  {
    forall s {:trigger Strip(s)} ensures NotTheLine(p)(s) == NotTheLine(p)(Strip(s)) {
      StripTwice(s);
    }
  }

  lemma {:induction false} NothingStale(p: Prior, parts: seq<string>)
    requires forall s :: s in parts ==> !Stale(p, s)
    ensures Keep(parts, NotTheLine(p)) == Keep(parts, Standing(p))
  {
    if parts != [] {
      assert parts[0] in parts;
      NothingStale(p, parts[1..]);
    }
  }

  // Of a text that does not say the line yet: up to the first stale sentence it stands, that one
  // gives way to the line, and behind it the other stale ones are gone.
  lemma LineTakesItsPlace(p: Prior, text: string)
    requires ProperId(p.id) && Unbroken(p.id) && AmendLine(p.id) !in SentencesOf(text)
    ensures var before, after := SentencesOf(text), SentencesOf(Amended(p, text));
            var k := FirstWhere(StaleTest(p), before);
            if k == |before| then Amended(p, text) == text
            else Stripped(after) == Stripped(AtFirst(AmendLine(p.id), NotStale(p), before, k))
  {
    AmendedSentences(p, text);
    FreshIsNotStale(p);
    SubstitutedAtFirst(StaleTest(p), AmendLine(p.id), NotStale(p), SentencesOf(text));
    UntouchedWithoutStale(StaleTest(p), AmendLine(p.id), text);
  }

  lemma FreshIsNotStale(p: Prior)
    ensures forall s :: NotStale(p)(s) == !StaleTest(p)(s)
  {
  }

  lemma UntouchedWithoutStale(stale: SentenceTest, line: string, text: string)
    ensures FirstWhere(stale, SentencesOf(text)) == |SentencesOf(text)| ==> AmendedBy(stale, line, text) == text
  {
  }

  lemma {:induction false} SubstitutedAtFirst(stale: SentenceTest, line: string, current: SentenceTest,
                                               parts: seq<string>)
    requires line !in parts && forall s :: current(s) == !stale(s)
    ensures var k := FirstWhere(stale, parts);
            Substituted(stale, line, parts, false)
            == if k == |parts| then parts else AtFirst(line, current, parts, k)
  {
    if parts != [] {
      var rest := parts[1..];
      if stale(parts[0]) {
        SubstitutedNoMore(stale, line, current, rest);
        assert parts[..0] + ([line] + Keep(rest, current)) == [line] + Keep(rest, current);
      } else {
        SubstitutedAtFirst(stale, line, current, rest);
        AtFirstBehind(parts, FirstWhere(stale, rest), line, current);
      }
    }
  }

  lemma {:induction false} SubstitutedNoMore(stale: SentenceTest, line: string, current: SentenceTest,
                                              parts: seq<string>)
    requires forall s :: current(s) == !stale(s)
    ensures Substituted(stale, line, parts, true) == Keep(parts, current)
  {
    if parts != [] {
      SubstitutedNoMore(stale, line, current, parts[1..]);
    }
  }

  lemma LineNamesTheWrite(id: string)
    ensures Contains(AmendLine(id), id)
  {
    assert AmendLine(id)[|FRONT|..|FRONT| + |id|] == id;
    assert OccursAt(AmendLine(id), id, |FRONT|);
  }

  // ----- over the answer -----

  // A cited policy fact is never rewritten.
  function AmendedBlock(p: Prior, b: Block): Block {
    if b.kind.PolicyFact? && b.citations != [] then b else b.(text := Amended(p, b.text))
  }

  function AmendBlocks(p: Prior, blocks: seq<Block>): (r: seq<Block>)
    ensures |r| == |blocks| && forall i :: 0 <= i < |blocks| ==> r[i] == AmendedBlock(p, blocks[i])
  {
    if blocks == [] then [] else [AmendedBlock(p, blocks[0])] + AmendBlocks(p, blocks[1..])
  }

  function AmendTexts(p: Prior, steps: seq<string>): (r: seq<string>)
    ensures |r| == |steps| && forall i :: 0 <= i < |steps| ==> r[i] == Amended(p, steps[i])
  {
    if steps == [] then [] else [Amended(p, steps[0])] + AmendTexts(p, steps[1..])
  }

  // The steps, each said once.
  function AmendSteps(p: Prior, steps: seq<string>): seq<string> { Distinct(AmendTexts(p, steps)) }

  method AmendAnswer(p: Prior, blocks: seq<Block>, steps: seq<string>)
    returns (amended: seq<Block>, amendedSteps: seq<string>)
    ensures amended == AmendBlocks(p, blocks) && amendedSteps == AmendSteps(p, steps)
  {
    amended := [];
    for i := 0 to |blocks|
      invariant |amended| == i && forall k :: 0 <= k < i ==> amended[k] == AmendedBlock(p, blocks[k])
    {
      var block := blocks[i];
      if !(block.kind.PolicyFact? && block.citations != []) {
        var text := Amend(StaleTest(p), AmendLine(p.id), block.text);
        block := block.(text := text);
      }
      amended := amended + [block];
    }
    var texts: seq<string> := [];
    for i := 0 to |steps|
      invariant |texts| == i && forall k :: 0 <= k < i ==> texts[k] == Amended(p, steps[k])
    {
      var text := Amend(StaleTest(p), AmendLine(p.id), steps[i]);
      texts := texts + [text];
    }
    assert amended == AmendBlocks(p, blocks) && texts == AmendTexts(p, steps);
    amendedSteps := Distinct(texts);
  }

  predicate SendsNoOne(p: Prior, text: string) {
    forall s :: s in SentencesOf(text) ==> Contains(s, p.id) || !p.directs(s)
  }

  // Apart from cited policy facts no block sends the reader to file again; citations and kinds are
  // untouched; and doing it again changes nothing.
  lemma AmendBlocksSettles(p: Prior, blocks: seq<Block>)
    requires ProperId(p.id) && Unbroken(p.id) && IgnoresEdges(p.directs)
    ensures var b := AmendBlocks(p, blocks);
            && AmendBlocks(p, b) == b
            && |b| == |blocks|
            && (forall i :: 0 <= i < |b| ==>
                  b[i] == if blocks[i].kind.PolicyFact? && blocks[i].citations != [] then blocks[i]
                          else blocks[i].(text := Amended(p, blocks[i].text)))
            && (forall i :: 0 <= i < |b| ==>
                  (b[i].kind.PolicyFact? && b[i].citations != []) || SendsNoOne(p, b[i].text))
  {
    var b := AmendBlocks(p, blocks);
    forall i | 0 <= i < |b|
      ensures AmendedBlock(p, b[i]) == b[i]
      ensures (b[i].kind.PolicyFact? && b[i].citations != []) || SendsNoOne(p, b[i].text)
    {
      AmendSettles(p, blocks[i].text);
    }
  }

  lemma {:induction false} NothingToAmend(p: Prior, steps: seq<string>)
    requires forall t :: t in steps ==> Amended(p, t) == t
    ensures AmendTexts(p, steps) == steps
  {
    if steps != [] {
      assert steps[0] in steps;
      NothingToAmend(p, steps[1..]);
    }
  }

  lemma {:induction false} TextsSettle(p: Prior, steps: seq<string>)
    requires ProperId(p.id) && Unbroken(p.id) && IgnoresEdges(p.directs)
    ensures forall t :: t in AmendTexts(p, steps) ==> Amended(p, t) == t && SendsNoOne(p, t)
  {
    if steps != [] {
      AmendSettles(p, steps[0]);
      TextsSettle(p, steps[1..]);
    }
  }

  // The same for the next steps, none of which is said twice.
  lemma AmendStepsSettles(p: Prior, steps: seq<string>)
    requires ProperId(p.id) && Unbroken(p.id) && IgnoresEdges(p.directs)
    ensures var s := AmendSteps(p, steps);
            && AmendSteps(p, s) == s
            && InOrder(AmendTexts(p, steps), s)
            && (forall i :: 0 <= i < |steps| ==> Amended(p, steps[i]) in s)
            && (forall t :: t in s ==> SendsNoOne(p, t))
  {
    var texts := AmendTexts(p, steps);
    TextsSettle(p, steps);
    DistinctInOrder(texts);
    NothingToAmend(p, Distinct(texts));
    DistinctTwice(texts);
  }
}
