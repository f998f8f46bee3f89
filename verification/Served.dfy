// What the compliance step serves of each block and next step, said from the block or the step alone
// (src/hrmosaic/agent/compliance.py:517-745).
module Served {
  import opened Blocks
  import opened Compliance
  import opened ComplianceRows
  import opened Lists
  import opened Sentences
  import opened StepWords
  import opened Texts

  // The engine's own sentences are each read as one.
  predicate SaysSentences(e: Engine) {
    && (forall row :: row in e.rows ==> OneSentence(e.says(row)))
    && (e.covering.Some? ==> OneSentence(e.covering.value))
    && (e.routing.Some? ==> OneSentence(e.routing.value))
  }

  // ----- the three passes, as laws between two texts -----

  // The i-th row is the one the sentence opposes.
  predicate OnlyOpposed(e: Engine, s: string, i: nat) { OnlyIn(e, s, e.rows, i) }

  predicate OnlyIn(e: Engine, s: string, rows: seq<Row>, i: nat) {
    && i < |rows| && e.stance(s, rows[i]).Opposes?
    && forall j :: 0 <= j < |rows| && j != i ==> !e.stance(s, rows[j]).Opposes?
  }

  ghost predicate Contradicts(e: Engine, text: string) {
    exists s, i: nat :: s in SentencesOf(text) && OnlyOpposed(e, s, i)
  }

  // Each sentence that opposes one row, and that row alone, gives way to the row's result.
  ghost predicate RowsAnswered(e: Engine, before: string, after: string) {
    var a, b := SentencesOf(before), SentencesOf(after);
    && (!Contradicts(e, before) ==> after == before)
    && |b| == |a|
    && forall k :: 0 <= k < |a| ==>
         && (forall i: nat :: OnlyOpposed(e, a[k], i) ==> Strip(b[k]) == Strip(e.says(e.rows[i])))
         && ((forall i: nat :: !OnlyOpposed(e, a[k], i)) ==> Strip(b[k]) == Strip(a[k]))
  }

  function InTier(e: Engine): string -> seq<string> {
    s => if e.lowCeiling(s) then (if e.covering.Some? then [e.covering.value] else []) else [s]
  }

  ghost predicate Outgrown(e: Engine, text: string) { exists s :: s in SentencesOf(text) && e.lowCeiling(s) }

  // Each sentence that quotes an outgrown ceiling gives way to the tier that applies, or goes.
  ghost predicate CeilingsMet(e: Engine, before: string, after: string) {
    if Outgrown(e, before) then Stripped(SentencesOf(after)) == Stripped(Flat(InTier(e), SentencesOf(before)))
    else after == before
  }

  ghost predicate Misrouted(e: Engine, text: string) {
    e.routing.Some? && exists s :: s in SentencesOf(text) && e.lowerAuthority(s)
  }

  // The first sentence that names the lower authority gives way to the routing, and the others go.
  ghost predicate RoutedOnce(e: Engine, before: string, after: string) {
    var parts := SentencesOf(before);
    if Misrouted(e, before) then
      exists k: nat ::
        && k < |parts| && e.lowerAuthority(parts[k]) && (forall j :: 0 <= j < k ==> !e.lowerAuthority(parts[j]))
        && Stripped(SentencesOf(after))
           == Stripped(parts[..k] + ([e.routing.value] + Keep(parts[k + 1..], Not(e.lowerAuthority))))
    else after == before
  }

  // Only advice changes its kind: it becomes the policy it restates, which it then cites, or the reader's
  // record. A citation that was there stays.
  ghost predicate OwnKind(e: Engine, b: Block, restated: bool, out: Block) {
    && out.id == b.id && out.policyClaim == b.policyClaim
    && if b.kind != Recommendation then out.kind == b.kind && out.citations == b.citations
       else if Placed(e, out.text) then
         out.kind == PolicyFact && exists step, row :: MintedFrom(e, b, out, step, row)
       else
         && out.citations == b.citations
         && out.kind == if Named(e, out.text) || restated then Record else Recommendation
  }

  // The three passes in their order; the block is gone where a cut or a routing left nothing of it.
  ghost predicate BlockServed(e: Engine, b: Block, out: Option<Block>) {
    exists corrected, within, routed ::
      && RowsAnswered(e, b.text, corrected) && CeilingsMet(e, corrected, within) && RoutedOnce(e, within, routed)
      && if (Outgrown(e, corrected) || Misrouted(e, within)) && Strip(routed) == "" then out == None
         else out.Some? && out.value.text == routed && OwnKind(e, b, Contradicts(e, b.text), out.value)
  }

  // A next step is not rerouted.
  ghost predicate StepServed(e: Engine, step: string, out: Option<string>) {
    exists corrected, within ::
      && RowsAnswered(e, step, corrected) && CeilingsMet(e, corrected, within)
      && out == if Outgrown(e, corrected) && Strip(within) == "" then None else Some(within)
  }

  // ----- the passes keep their laws -----

  lemma {:induction false} NoneOpposed(e: Engine, s: string, rows: seq<Row>)
    requires forall i :: 0 <= i < |rows| ==> !e.stance(s, rows[i]).Opposes?
    ensures OpposedBy(e, s, rows) == []
  {
    if rows != [] {
      NoneOpposed(e, s, rows[1..]);
    }
  }

  lemma {:induction false} OneOpposed(e: Engine, s: string, rows: seq<Row>, i: nat)
    requires OnlyIn(e, s, rows, i)
    ensures OpposedBy(e, s, rows) == [rows[i]]
  {
    if i == 0 {
      NoneOpposed(e, s, rows[1..]);
    } else {
      OneOpposed(e, s, rows[1..], i - 1);
    }
  }

  lemma {:induction false} OpposedIsOne(e: Engine, s: string, rows: seq<Row>) returns (i: nat)
    requires |OpposedBy(e, s, rows)| == 1
    ensures OnlyIn(e, s, rows, i)
  {
    var rest := rows[1..];
    if e.stance(s, rows[0]).Opposes? {
      i := 0;
      forall j | 0 < j < |rows| ensures !e.stance(s, rows[j]).Opposes? {
        OpposedByRows(e, s, rest);
        assert OpposedBy(e, s, rest) == [] && rows[j] == rest[j - 1];
      }
    } else {
      var n := OpposedIsOne(e, s, rest);
      i := n + 1;
      assert forall j :: 0 < j < |rows| ==> rows[j] == rest[j - 1];
    }
  }

  // Opposed finds the one row there is to find.
  lemma OpposedExactly(e: Engine, s: string)
    ensures Opposed(e, s).None? <==> forall i: nat :: !OnlyOpposed(e, s, i)
    ensures forall i: nat :: OnlyOpposed(e, s, i) ==> Opposed(e, s) == Some(e.rows[i])
  {
    forall i: nat | OnlyOpposed(e, s, i) ensures Opposed(e, s) == Some(e.rows[i]) {
      OneOpposed(e, s, e.rows, i);
    }
    if Opposed(e, s).Some? {
      var i := OpposedIsOne(e, s, e.rows);
      assert OnlyOpposed(e, s, i);
    }
  }

  lemma ContradictsExactly(e: Engine, text: string)
    ensures CorrectedText(e, text).1 != [] <==> Contradicts(e, text)
  {
    var parts := SentencesOf(text);
    forall s ensures Opposed(e, s).Some? <==> exists i: nat :: OnlyOpposed(e, s, i) {
      OpposedExactly(e, s);
    }
    assert RestatedIds(OpposedIn(e), parts) == [] <==> forall s :: s in parts ==> Opposed(e, s).None?;
  }

  lemma CorrectKeeps(e: Engine, text: string)
    requires SaysSentences(e)
    ensures RowsAnswered(e, text, CorrectedText(e, text).0)
  {
    var a, b := SentencesOf(text), SentencesOf(CorrectedText(e, text).0);
    ContradictsExactly(e, text);
    CorrectedInPlace(e, text);
    forall k | 0 <= k < |a|
      ensures forall i: nat :: OnlyOpposed(e, a[k], i) ==> Strip(b[k]) == Strip(e.says(e.rows[i]))
      ensures (forall i: nat :: !OnlyOpposed(e, a[k], i)) ==> Strip(b[k]) == Strip(a[k])
    {
      SentenceAnswered(e, a[k], b[k]);
    }
  }

  lemma SentenceAnswered(e: Engine, s: string, answer: string)
    requires Strip(answer) == Strip(if Opposed(e, s).Some? then e.says(Opposed(e, s).value) else s)
    ensures forall i: nat :: OnlyOpposed(e, s, i) ==> Strip(answer) == Strip(e.says(e.rows[i]))
    ensures (forall i: nat :: !OnlyOpposed(e, s, i)) ==> Strip(answer) == Strip(s)
  {
    OpposedExactly(e, s);
  }

  lemma {:induction false} FlatSame(f: string -> seq<string>, g: string -> seq<string>, parts: seq<string>)
    requires forall s :: f(s) == g(s)
    ensures Flat(f, parts) == Flat(g, parts)
  {
    if parts != [] {
      FlatSame(f, g, parts[1..]);
    }
  }

  lemma CeilingsKeep(e: Engine, text: string)
    requires SaysSentences(e)
    ensures CeilingsMet(e, text, Ceilinged(e, text).0) && (Ceilinged(e, text).1 <==> Outgrown(e, text))
  {
    CeilingsGiveWay(e, text);
    FlatSame(CeilingAnswer(e.lowCeiling, e.covering), InTier(e), SentencesOf(text));
  }

  lemma RoutingKeeps(e: Engine, text: string)
    requires SaysSentences(e)
    ensures RoutedOnce(e, text, Rerouted(e, text).0) && (Rerouted(e, text).1 <==> Misrouted(e, text))
  {
    if Misrouted(e, text) {
      var parts := SentencesOf(text);
      var k := FirstWhere(e.lowerAuthority, parts);
      AuthorityGivesWay(e, text);
      SomewhereFirst(e.lowerAuthority, parts);
      RoutedAt(e, text, Rerouted(e, text).0, k);
    }
  }

  lemma SomewhereFirst(p: SentenceTest, parts: seq<string>)
    requires exists s :: s in parts && p(s)
    ensures FirstWhere(p, parts) < |parts|
  {
    var s :| s in parts && p(s);
    var j :| 0 <= j < |parts| && parts[j] == s;
    assert p(parts[j]);
  }

  lemma RoutedAt(e: Engine, before: string, after: string, k: nat)
    requires var parts := SentencesOf(before);
             && k < |parts| && e.lowerAuthority(parts[k]) && forall j :: 0 <= j < k ==> !e.lowerAuthority(parts[j])
    requires Misrouted(e, before)
    requires Stripped(SentencesOf(after))
             == Stripped(AtFirst(e.routing.value, Not(e.lowerAuthority), SentencesOf(before), k))
    ensures RoutedOnce(e, before, after)
  {
  }

  // ----- one block, one step -----

  lemma KindIsOwn(e: Engine, b: Block, restated: bool)
    ensures OwnKind(e, b, restated, Retyped(Mandated(e), b, restated))
  {
    var mandated := Mandated(e);
    var out := Retyped(mandated, b, restated);
    RetypedKinds(mandated, b, restated);
    if b.kind == Recommendation {
      RetypedExactly(e, b, restated);
      RetypedIsOwnRule(e, mandated, b, restated);
    }
  }

  lemma OwnKindOfText(e: Engine, b: Block, text: string, restated: bool, out: Block)
    requires OwnKind(e, b.(text := text), restated, out)
    ensures OwnKind(e, b, restated, out)
  {
    if b.kind == Recommendation && Placed(e, out.text) {
      var step, row :| MintedFrom(e, b.(text := text), out, step, row);
      assert MintedFrom(e, b, out, step, row);
    }
  }

  lemma BlockIsServed(e: Engine, b: Block)
    requires SaysSentences(e)
    ensures BlockServed(e, b, ServedBlock(e, Mandated(e), b))
  {
    var (corrected, ids) := CorrectedText(e, b.text);
    var within := Ceilinged(e, corrected).0;
    var routed := Rerouted(e, within).0;
    CorrectKeeps(e, b.text);
    ContradictsExactly(e, b.text);
    CeilingsKeep(e, corrected);
    RoutingKeeps(e, within);
    KindIsOwn(e, b.(text := routed), ids != []);
    RetypedKinds(Mandated(e), b.(text := routed), ids != []);
    OwnKindOfText(e, b, routed, ids != [], Retyped(Mandated(e), b.(text := routed), ids != []));
    ServedBy(e, b, corrected, within, routed, ServedBlock(e, Mandated(e), b));
  }

  lemma ServedBy(e: Engine, b: Block, corrected: string, within: string, routed: string, out: Option<Block>)
    requires RowsAnswered(e, b.text, corrected) && CeilingsMet(e, corrected, within) && RoutedOnce(e, within, routed)
    requires if (Outgrown(e, corrected) || Misrouted(e, within)) && Strip(routed) == "" then out == None
             else out.Some? && out.value.text == routed && OwnKind(e, b, Contradicts(e, b.text), out.value)
    ensures BlockServed(e, b, out)
  {
  }

  lemma StepIsServed(e: Engine, step: string)
    requires SaysSentences(e)
    ensures StepServed(e, step, StepOf(e, step))
  {
    var corrected := CorrectedText(e, step).0;
    CorrectKeeps(e, step);
    CeilingsKeep(e, corrected);
  }

  // ----- the whole answer -----

  lemma {:induction false} EachBlock(treat: Block -> Option<Block>, blocks: seq<Block>)
    returns (parts: seq<Option<Block>>)
    ensures |parts| == |blocks| && (forall n :: 0 <= n < |blocks| ==> parts[n] == treat(blocks[n]))
    ensures TreatEach(treat, blocks) == Present(parts)
  {
    parts := [];
    if blocks != [] {
      var rest := EachBlock(treat, blocks[1..]);
      parts := [treat(blocks[0])] + rest;
      assert parts[1..] == rest;
    }
  }

  lemma {:induction false} EachStep(treat: string -> Option<string>, steps: seq<string>)
    returns (parts: seq<Option<string>>)
    ensures |parts| == |steps| && (forall n :: 0 <= n < |steps| ==> parts[n] == treat(steps[n]))
    ensures TreatedSteps(treat, steps) == Present(parts)
  {
    parts := [];
    if steps != [] {
      var rest := EachStep(treat, steps[1..]);
      parts := [treat(steps[0])] + rest;
      assert parts[1..] == rest;
    }
  }

  function NotIn(said: string): SentenceTest { line => !Contains(said, line) }

  lemma {:induction false} UnsaidIsKept(said: string, lines: seq<string>)
    ensures Unsaid(said, lines) == Keep(lines, NotIn(said))
  {
    if lines != [] {
      UnsaidIsKept(said, lines[1..]);
    }
  }

  // Every block is served as the three passes leave it, in its place; behind them stands one note of the
  // unverified rows that are not said yet, if there are any.
  lemma AnswerExactly(e: Engine, blocks: seq<Block>) returns (parts: seq<Option<Block>>)
    requires SaysSentences(e)
    ensures |parts| == |blocks| && forall n :: 0 <= n < |blocks| ==> BlockServed(e, blocks[n], parts[n])
    ensures var body := Present(parts);
            var unsaid := Keep(NotStatedLines(e.unverified, e.rows), NotIn(Spaced(BlockTexts(body))));
            AnswerServed(e, blocks)
            == if unsaid == [] then body else body + [Block(Record, Spaced(unsaid), [], None, false)]
  {
    parts := EachBlock(Serving(e), blocks);
    forall n | 0 <= n < |blocks| ensures BlockServed(e, blocks[n], parts[n]) {
      BlockIsServed(e, blocks[n]);
    }
    UnsaidIsKept(Spaced(BlockTexts(Present(parts))), NotStatedLines(e.unverified, e.rows));
  }

  // And every next step as the first two leave it.
  lemma StepsExactly(e: Engine, steps: seq<string>) returns (parts: seq<Option<string>>)
    requires SaysSentences(e)
    ensures |parts| == |steps| && forall n :: 0 <= n < |steps| ==> StepServed(e, steps[n], parts[n])
    ensures TreatedSteps(TreatedStep(e), steps) == Present(parts)
  {
    parts := EachStep(TreatedStep(e), steps);
    forall n | 0 <= n < |steps| ensures StepServed(e, steps[n], parts[n]) {
      StepIsServed(e, steps[n]);
    }
  }
}
