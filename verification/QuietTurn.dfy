// The whole outcome step on a turn that wrote nothing, behind a turn that did: records are split off,
// then directives to repeat the earlier write are amended (src/hrmosaic/agent/outcome.py:898-997).
module QuietTurn {
  import opened Amendment
  import opened Blocks
  import opened Lists
  import opened Outcome
  import opened Sentences
  import opened Texts

  // The whole step on such a turn: records split off, then the earlier write amended.
  function Passed(v: Vocabulary, p: Prior, blocks: seq<Block>): seq<Block> {
    AmendBlocks(p, TreatAll(Treating(v, None, {}), blocks))
  }

  lemma AmendConcat(p: Prior, a: seq<Block>, b: seq<Block>)
    ensures AmendBlocks(p, a + b) == AmendBlocks(p, a) + AmendBlocks(p, b)
  {
    forall i | 0 <= i < |a| + |b| ensures AmendBlocks(p, a + b)[i] == (AmendBlocks(p, a) + AmendBlocks(p, b))[i] {
      AmendedAt(p, a, b, i);
    }
  }

  lemma AmendedAt(p: Prior, a: seq<Block>, b: seq<Block>, i: nat)
    requires i < |a| + |b|
    ensures AmendBlocks(p, a + b)[i] == if i < |a| then AmendBlocks(p, a)[i] else AmendBlocks(p, b)[i - |a|]
  {
    assert (a + b)[i] == if i < |a| then a[i] else b[i - |a|];
  }

  lemma PassedLast(v: Vocabulary, p: Prior, blocks: seq<Block>)
    requires blocks != []
    ensures var n := |blocks| - 1;
            Passed(v, p, blocks) == Passed(v, p, blocks[..n]) + AmendBlocks(p, Treated(v, None, blocks[n], false))
  {
    var n := |blocks| - 1;
    AmendConcat(p, TreatAll(Treating(v, None, {}), blocks[..n]), Treated(v, None, blocks[n], false));
  }

  lemma {:induction false} PassedGrows(v: Vocabulary, p: Prior, blocks: seq<Block>)
    ensures |Passed(v, p, blocks)| >= |blocks|
  {
    if blocks != [] {
      PassedLast(v, p, blocks);
      PassedGrows(v, p, blocks[..|blocks| - 1]);
    }
  }

  // One block that is amended already: it comes back alone and unchanged exactly when it is not split.
  lemma BlockComesBack(v: Vocabulary, p: Prior, b: Block)
    requires !b.kind.Performed? && AmendedBlock(p, b) == b
    ensures AmendBlocks(p, Treated(v, None, b, false)) == [b] <==> Unsplit(v, b)
  {
    UnsplitExactly(v, b);
    var r := RecordSplit(v, b, false);
    if Unsplit(v, b) {
      assert AmendBlocks(p, [b])[0] == AmendedBlock(p, b);
    } else if |r| == 1 {
      assert AmendBlocks(p, r)[0].kind == r[0].kind;
    }
  }

  lemma {:induction false} EachComesBack(v: Vocabulary, p: Prior, blocks: seq<Block>)
    requires forall b :: b in blocks ==> !b.kind.Performed? && AmendedBlock(p, b) == b
    ensures Passed(v, p, blocks) == blocks <==> forall b :: b in blocks ==> Unsplit(v, b)
  {
    if blocks != [] {
      var n := |blocks| - 1;
      var init, last := blocks[..n], blocks[n];
      LastBlock(blocks);
      PassedLast(v, p, blocks);
      PassedGrows(v, p, init);
      EachComesBack(v, p, init);
      BlockComesBack(v, p, last);
      SplitEqual(Passed(v, p, init), AmendBlocks(p, Treated(v, None, last, false)), init, last);
      assert forall b :: b in blocks <==> b in init || b == last;
    }
  }

  lemma SplitEqual(a: seq<Block>, b: seq<Block>, init: seq<Block>, last: Block)
    requires |a| >= |init| && |b| >= 1
    ensures a + b == init + [last] <==> a == init && b == [last]
  {
    if a + b == init + [last] {
      assert (a + b)[..|init|] == init && (a + b)[|init|] == last;
    }
  }

  // The step comes back to its own result exactly when the record split leaves every block of it alone.
  lemma RepeatsItself(v: Vocabulary, p: Prior, blocks: seq<Block>)
    requires ProperId(p.id) && Unbroken(p.id) && IgnoresEdges(p.directs)
    ensures var once := Passed(v, p, blocks);
            Passed(v, p, once) == once <==> forall r :: r in once ==> Unsplit(v, r)
  {
    var body := TreatAll(Treating(v, None, {}), blocks);
    var once := AmendBlocks(p, body);
    NoWriteNoAccount(v, blocks, [], {});
    AmendBlocksSettles(p, body);
    forall r | r in once ensures !r.kind.Performed? && AmendedBlock(p, r) == r {
      var i :| 0 <= i < |once| && once[i] == r;
      assert body[i] in body && AmendBlocks(p, once)[i] == AmendedBlock(p, once[i]);
    }
    EachComesBack(v, p, once);
  }

  // ----- when the record split comes to an amended block -----

  // The tests of the record split that a text passes just when one of its sentences does.
  ghost predicate Sentencewise(v: Vocabulary) {
    && BySentence(v.opens) && Inherited(v.opens)
    && BySentence(v.sharesNumber) && Inherited(v.sharesNumber)
    && BySentence(v.hasNumber) && Inherited(v.hasNumber)
    && BySentence(v.hasScalar) && Inherited(v.hasScalar)
  }

  predicate AnyOf(parts: seq<string>, p: SentenceTest) { exists s :: s in parts && p(s) }

  lemma TextPasses(p: SentenceTest, text: string)
    requires BySentence(p) && Inherited(p)
    ensures p(text) <==> AnyOf(SentencesOf(text), p)
  {
    if p(text) {
      assert exists s :: s in SentencesOf(text) && p(s);
    }
    if s :| s in SentencesOf(text) && p(s) {
      assert p(text);
    }
  }

  // Advice is left alone exactly when none of its sentences states the record.
  lemma AdviceUnsplit(v: Vocabulary, b: Block)
    requires Sentencewise(v) && Splittable(b, false) && b.kind.Recommendation?
    ensures Unsplit(v, b) <==> !AnyOf(SentencesOf(b.text), RecordSentence(v, b.kind))
  {
    TextPasses(v.opens, b.text);
    TextPasses(v.sharesNumber, b.text);
    TextPasses(v.hasScalar, b.text);
  }

  lemma StrippedPasses(parts: seq<string>, q: SentenceTest)
    requires IgnoresEdges(q)
    ensures AnyOf(Stripped(parts), q) <==> AnyOf(parts, q)
  {
    forall i | 0 <= i < |parts| ensures q(Stripped(parts)[i]) == q(parts[i]) {
      assert q(parts[i]) == q(Strip(parts[i]));
    }
    if AnyOf(parts, q) {
      var i :| 0 <= i < |parts| && q(parts[i]);
      assert Stripped(parts)[i] in Stripped(parts);
    }
    if AnyOf(Stripped(parts), q) {
      var i :| 0 <= i < |parts| && q(Stripped(parts)[i]);
      assert parts[i] in parts;
    }
  }

  lemma {:induction false} SubstitutedKeeps(stale: SentenceTest, line: string, parts: seq<string>, said: bool,
                                             s: string)
    requires s in parts && !stale(s)
    ensures s in Substituted(stale, line, parts, said)
    decreases |parts|
  {
    var rest := parts[1..];
    if s != parts[0] {
      assert s in rest;
      SubstitutedKeeps(stale, line, rest, said || stale(parts[0]) || parts[0] == line, s);
    }
  }

  lemma {:induction false} LineIsPut(stale: SentenceTest, line: string, parts: seq<string>)
    requires AnyOf(parts, stale)
    ensures line in Substituted(stale, line, parts, false)
    decreases |parts|
  {
    var rest := parts[1..];
    if !stale(parts[0]) && parts[0] != line {
      assert forall s :: s in parts <==> s == parts[0] || s in rest;
      LineIsPut(stale, line, rest);
    }
  }

  // Some sentence that is there once the text has been amended passes: the line, or one that stood.
  predicate LeftBy(p: Prior, text: string, q: SentenceTest) {
    q(AmendLine(p.id)) || exists s :: s in SentencesOf(text) && !Stale(p, s) && q(s)
  }

  lemma SubstitutedPasses(stale: SentenceTest, line: string, parts: seq<string>, q: SentenceTest)
    requires Pieces(parts) && OneSentence(line) && AnyOf(parts, stale)
    ensures AnyOf(Substituted(stale, line, parts, false), q)
            <==> q(line) || exists s :: s in parts && !stale(s) && q(s)
  {
    SubstitutedPieces(stale, line, parts, false);
    LineIsPut(stale, line, parts);
    forall s | s in parts && !stale(s) ensures s in Substituted(stale, line, parts, false) {
      SubstitutedKeeps(stale, line, parts, false, s);
    }
  }

  lemma AmendedPasses(p: Prior, text: string, q: SentenceTest)
    requires ProperId(p.id) && Unbroken(p.id) && IgnoresEdges(q) && AnyOf(SentencesOf(text), StaleTest(p))
    ensures AnyOf(SentencesOf(Amended(p, text)), q) <==> LeftBy(p, text, q)
  {
    var stale, line, parts := StaleTest(p), AmendLine(p.id), SentencesOf(text);
    LineIsOneSentence(p.id);
    SentencesArePieces(text);
    AmendedSentences(p, text);
    StrippedPasses(SentencesOf(Amended(p, text)), q);
    StrippedPasses(Substituted(stale, line, parts, false), q);
    SubstitutedPasses(stale, line, parts, q);
  }

  lemma AmendedIsSaid(p: Prior, text: string)
    requires ProperId(p.id) && Unbroken(p.id) && AnyOf(SentencesOf(text), StaleTest(p))
    ensures Amended(p, text) != ""
  {
    var anything: SentenceTest := s => true;
    AmendedPasses(p, text, anything);
    SentencesArePieces("");
  }

  // The record split comes back to an amended text. To advice it does when the line itself states the
  // record; to an uncited policy fact when a directive is left and a sentence of the record with it,
  // or the text is about the reader, without a number, and names one of the reader's own values.
  ghost predicate AmendRelapses(v: Vocabulary, p: Prior, kind: Kind, text: string) {
    && AnyOf(SentencesOf(text), StaleTest(p))
    && if kind.Recommendation? then RecordSentence(v, kind)(AmendLine(p.id))
       else if LeftBy(p, text, v.opens) then LeftBy(p, text, RecordSentence(v, kind))
       else v.aboutReader(Amended(p, text)) && !LeftBy(p, text, v.hasNumber) && LeftBy(p, text, v.hasScalar)
  }

  lemma AmendedUnsplit(v: Vocabulary, p: Prior, b: Block)
    requires ProperId(p.id) && Unbroken(p.id) && Faithful(v) && Sentencewise(v)
    requires Splittable(b, false) && Unsplit(v, b) && (b.kind.PolicyFact? ==> b.citations == [])
    ensures Unsplit(v, AmendedBlock(p, b)) <==> !AmendRelapses(v, p, b.kind, b.text)
  {
    if AnyOf(SentencesOf(b.text), StaleTest(p)) {
      AmendedIsSaid(p, b.text);
      if b.kind.Recommendation? {
        AmendedAdvice(v, p, b);
      } else {
        AmendedFact(v, p, b);
      }
    }
  }

  lemma AmendedAdvice(v: Vocabulary, p: Prior, b: Block)
    requires ProperId(p.id) && Unbroken(p.id) && Faithful(v) && Sentencewise(v)
    requires Splittable(b, false) && Unsplit(v, b) && b.kind.Recommendation?
    requires AnyOf(SentencesOf(b.text), StaleTest(p)) && Amended(p, b.text) != ""
    ensures Unsplit(v, AmendedBlock(p, b)) <==> !RecordSentence(v, b.kind)(AmendLine(p.id))
  {
    RecordIgnoresEdges(v, b.kind);
    AmendedPasses(p, b.text, RecordSentence(v, b.kind));
    AdviceUnsplit(v, b);
    AdviceUnsplit(v, AmendedBlock(p, b));
  }

  lemma AmendedFact(v: Vocabulary, p: Prior, b: Block)
    requires ProperId(p.id) && Unbroken(p.id) && Faithful(v) && Sentencewise(v)
    requires Splittable(b, false) && b.kind.PolicyFact? && b.citations == []
    requires AnyOf(SentencesOf(b.text), StaleTest(p)) && Amended(p, b.text) != ""
    ensures Unsplit(v, AmendedBlock(p, b)) <==> !AmendRelapses(v, p, b.kind, b.text)
  {
    RecordIgnoresEdges(v, b.kind);
    AmendedPasses(p, b.text, v.opens);
    AmendedPasses(p, b.text, RecordSentence(v, b.kind));
    AmendedPasses(p, b.text, v.hasNumber);
    AmendedPasses(p, b.text, v.hasScalar);
    FactUnsplit(v, AmendedBlock(p, b));
  }

  lemma FactUnsplit(v: Vocabulary, b: Block)
    requires Sentencewise(v) && Splittable(b, false) && b.kind.PolicyFact?
    ensures var parts := SentencesOf(b.text);
            Unsplit(v, b)
            <==> if AnyOf(parts, v.opens) then !AnyOf(parts, RecordSentence(v, b.kind))
                 else !(v.aboutReader(b.text) && !AnyOf(parts, v.hasNumber) && AnyOf(parts, v.hasScalar))
  {
    TextPasses(v.opens, b.text);
    TextPasses(v.hasNumber, b.text);
    TextPasses(v.hasScalar, b.text);
  }

  // ----- over the blocks the step is called with -----

  // What the record split leaves of a text that it does not retype as a whole.
  function AdviceLeft(v: Vocabulary, b: Block): string {
    if Mixed(v, b) then Join(Keep(SentencesOf(b.text), OtherSentence(v, b.kind))) else b.text
  }

  // After a pass over this block another one changes the answer.
  ghost predicate Relapses(v: Vocabulary, p: Prior, b: Block) {
    && Splittable(b, false) && (b.kind.PolicyFact? ==> b.citations == [])
    && (AnyOf(SentencesOf(b.text), v.opens) || !IsRecord(v, b.kind, b.text))
    && AmendRelapses(v, p, b.kind, AdviceLeft(v, b))
  }

  lemma Inert(v: Vocabulary, p: Prior, b: Block)
    requires !Splittable(b, false) || (b.kind.PolicyFact? && b.citations != [] && Unsplit(v, b))
    ensures Unsplit(v, AmendedBlock(p, b))
  {
  }

  ghost predicate Settles(v: Vocabulary, p: Prior, out: seq<Block>) {
    forall r :: r in out ==> Unsplit(v, AmendedBlock(p, r))
  }

  lemma SplitRelapses(v: Vocabulary, p: Prior, b: Block)
    requires ProperId(p.id) && Unbroken(p.id) && Faithful(v) && Sentencewise(v)
    ensures Settles(v, p, RecordSplit(v, b, false)) <==> !Relapses(v, p, b)
  {
    if Splittable(b, false) && Mixed(v, b) {
      MixedRelapses(v, p, b);
    } else if Unsplit(v, b) {
      UnsplitExactly(v, b);
      AloneRelapses(v, p, b);
    } else {
      RetypedSettles(v, p, b);
    }
  }

  lemma MixedRelapses(v: Vocabulary, p: Prior, b: Block)
    requires ProperId(p.id) && Unbroken(p.id) && Faithful(v) && Sentencewise(v)
    requires Splittable(b, false) && Mixed(v, b)
    ensures Settles(v, p, RecordSplit(v, b, false)) <==> !Relapses(v, p, b)
  {
    var parts := SentencesOf(b.text);
    var rest := b.(text := AdviceLeft(v, b));
    var record := Block(Record, Join(Keep(parts, RecordSentence(v, b.kind))), [], None, false);
    MixedSplits(v, b);
    Inert(v, p, record);
    RestRelapses(v, p, b, rest);
    TwoSettle(v, p, rest, record);
  }

  lemma TwoSettle(v: Vocabulary, p: Prior, a: Block, b: Block)
    ensures Settles(v, p, [a, b]) <==> Unsplit(v, AmendedBlock(p, a)) && Unsplit(v, AmendedBlock(p, b))
  {
    assert a in [a, b] && b in [a, b];
  }

  lemma RetypedSettles(v: Vocabulary, p: Prior, b: Block)
    requires Splittable(b, false) && !Mixed(v, b) && !Unsplit(v, b)
    ensures Settles(v, p, RecordSplit(v, b, false)) && !Relapses(v, p, b)
  {
    UnsplitExactly(v, b);
    var out := RecordSplit(v, b, false);
    assert |out| == 1 by {
      SomeKept(SentencesOf(b.text), Directive(v));
      SomeKept(SentencesOf(b.text), RecordSentence(v, b.kind));
    }
    Inert(v, p, out[0]);
  }

  lemma AloneRelapses(v: Vocabulary, p: Prior, b: Block)
    requires ProperId(p.id) && Unbroken(p.id) && Faithful(v) && Sentencewise(v)
    requires Unsplit(v, b)
    ensures Unsplit(v, AmendedBlock(p, b)) <==> !Relapses(v, p, b)
  {
    if Splittable(b, false) && (b.kind.PolicyFact? ==> b.citations == []) {
      AmendedUnsplit(v, p, b);
    } else {
      Inert(v, p, b);
    }
  }

  lemma RestRelapses(v: Vocabulary, p: Prior, b: Block, rest: Block)
    requires ProperId(p.id) && Unbroken(p.id) && Faithful(v) && Sentencewise(v)
    requires Splittable(b, false) && Mixed(v, b) && rest == b.(text := AdviceLeft(v, b))
    ensures Unsplit(v, AmendedBlock(p, rest)) <==> !Relapses(v, p, b)
  {
    SomeKept(SentencesOf(b.text), Directive(v));
    RestIsSettled(v, b);
    UnsplitExactly(v, rest);
    SentencesArePieces("");
    if Splittable(rest, false) && (b.kind.PolicyFact? ==> b.citations == []) {
      AmendedUnsplit(v, p, rest);
    } else {
      Inert(v, p, rest);
    }
  }

  // A block typed as performed is read as advice.
  function AsAdvice(b: Block): Block { if b.kind.Performed? then b.(kind := Recommendation) else b }

  ghost predicate AllUnsplit(v: Vocabulary, blocks: seq<Block>) { forall r :: r in blocks ==> Unsplit(v, r) }

  ghost predicate NoneRelapses(v: Vocabulary, p: Prior, blocks: seq<Block>) {
    forall b :: b in blocks ==> !Relapses(v, p, AsAdvice(b))
  }

  lemma AllUnsplitConcat(v: Vocabulary, a: seq<Block>, b: seq<Block>)
    ensures AllUnsplit(v, a + b) <==> AllUnsplit(v, a) && AllUnsplit(v, b)
  {
    assert forall r :: r in a + b <==> r in a || r in b;
  }

  lemma NoneRelapsesLast(v: Vocabulary, p: Prior, blocks: seq<Block>)
    requires blocks != []
    ensures var n := |blocks| - 1;
            NoneRelapses(v, p, blocks) <==> NoneRelapses(v, p, blocks[..n]) && !Relapses(v, p, AsAdvice(blocks[n]))
  {
    LastBlock(blocks);
    var init, last := blocks[..|blocks| - 1], blocks[|blocks| - 1];
    assert forall b :: b in blocks <==> b in init || b == last;
  }

  lemma {:induction false} EachSplitRelapses(v: Vocabulary, p: Prior, blocks: seq<Block>)
    requires ProperId(p.id) && Unbroken(p.id) && Faithful(v) && Sentencewise(v)
    ensures AllUnsplit(v, Passed(v, p, blocks)) <==> NoneRelapses(v, p, blocks)
  {
    if blocks != [] {
      var n := |blocks| - 1;
      var out := RecordSplit(v, AsAdvice(blocks[n]), false);
      PassedLast(v, p, blocks);
      AllUnsplitConcat(v, Passed(v, p, blocks[..n]), AmendBlocks(p, out));
      EachSplitRelapses(v, p, blocks[..n]);
      SplitRelapses(v, p, AsAdvice(blocks[n]));
      AmendedMembers(v, p, out);
      NoneRelapsesLast(v, p, blocks);
    }
  }

  lemma AmendedMembers(v: Vocabulary, p: Prior, out: seq<Block>)
    ensures AllUnsplit(v, AmendBlocks(p, out)) <==> Settles(v, p, out)
  {
    var amended := AmendBlocks(p, out);
    if AllUnsplit(v, amended) {
      forall r | r in out ensures Unsplit(v, AmendedBlock(p, r)) {
        var i :| 0 <= i < |out| && out[i] == r;
        assert amended[i] in amended;
      }
    }
    if Settles(v, p, out) {
      forall r | r in amended ensures Unsplit(v, r) {
        var i :| 0 <= i < |amended| && amended[i] == r;
        assert out[i] in out;
      }
    }
  }

  // Exactly when the step on such a turn changes nothing of its own answer: no block it is called with
  // has a stale directive beside which, or beside the line put for it, the record split finds a record.
  lemma QuietTurnSettles(v: Vocabulary, p: Prior, blocks: seq<Block>)
    requires ProperId(p.id) && Unbroken(p.id) && IgnoresEdges(p.directs) && Faithful(v) && Sentencewise(v)
    ensures var once := Passed(v, p, blocks);
            Passed(v, p, once) == once <==> NoneRelapses(v, p, blocks)
  {
    RepeatsItself(v, p, blocks);
    EachSplitRelapses(v, p, blocks);
  }

  // The block is advice, and a stale directive is left in it beside the record split.
  predicate StaleAdvice(v: Vocabulary, p: Prior, b: Block) {
    && Splittable(b, false) && b.kind.Recommendation?
    && (AnyOf(SentencesOf(b.text), v.opens) || !IsRecord(v, b.kind, b.text))
    && AnyOf(SentencesOf(AdviceLeft(v, b)), StaleTest(p))
  }

  // Where every policy fact is cited: exactly when the line does not itself state the record, or
  // there is no stale advice to put it for.
  lemma CitedTurnSettles(v: Vocabulary, p: Prior, blocks: seq<Block>)
    requires ProperId(p.id) && Unbroken(p.id) && IgnoresEdges(p.directs) && Faithful(v) && Sentencewise(v)
    requires forall b :: b in blocks && b.kind.PolicyFact? ==> b.citations != []
    ensures var once := Passed(v, p, blocks);
            Passed(v, p, once) == once
            <==> !RecordSentence(v, Recommendation)(AmendLine(p.id))
                 || forall b :: b in blocks ==> !StaleAdvice(v, p, AsAdvice(b))
  {
    QuietTurnSettles(v, p, blocks);
    forall b | b in blocks
      ensures Relapses(v, p, AsAdvice(b))
              <==> StaleAdvice(v, p, AsAdvice(b)) && RecordSentence(v, Recommendation)(AmendLine(p.id))
    {
    }
  }

  // It does change it where the number of the earlier ticket is also a number of the reader's record:
  // the line that replaces the directive is then retyped as that record.
  lemma QuietTurnCanChange(v: Vocabulary, p: Prior, b: Block)
    requires p.id == "MOCK-HR-000013" && b == Block(Recommendation, "Submit it.", [], None, false)
    requires p.directs(b.text) && v.opens(b.text)
    requires !v.opens(AmendLine(p.id)) && v.sharesNumber(AmendLine(p.id))
    ensures var once := Passed(v, p, [b]);
            && once == [b.(text := AmendLine(p.id))]
            && Passed(v, p, once) == [Block(Record, AmendLine(p.id), [], None, false)]
  {
    TicketId(p.id);
    ShortDirective(b.text, p.id);
    LineIsRetyped(v, p, b);
  }

  lemma TicketId(id: string)
    requires id == "MOCK-HR-000013"
    ensures ProperId(id) && Unbroken(id) && |id| == 14
  {
  }

  // So does every block that is one such directive, whatever the id, if the line states the record.
  lemma LineIsRetyped(v: Vocabulary, p: Prior, b: Block)
    requires ProperId(p.id) && Unbroken(p.id) && b.kind.Recommendation? && !b.policyClaim
    requires SentencesOf(b.text) == [b.text] && Stale(p, b.text) && v.opens(b.text)
    requires !v.opens(AmendLine(p.id)) && v.sharesNumber(AmendLine(p.id))
    ensures var line := AmendLine(p.id);
            var once := Passed(v, p, [b]);
            once == [b.(text := line)] && Passed(v, p, once) == [Block(Record, line, [], None, false)]
  {
    var line := AmendLine(p.id);
    LineIsOneSentence(p.id);
    ReadAsOne(line);
    AmendedAlone(p, b.text);
    DirectiveStays(v, b);
    OneBlockPasses(v, p, b, b);
    RecordIsRetyped(v, b.(text := line));
    OneBlockPasses(v, p, b.(text := line), Block(Record, line, [], None, false));
  }

  lemma ShortDirective(text: string, id: string)
    requires text == "Submit it." && |id| > |text|
    ensures SentencesOf(text) == [text] && !Contains(text, id)
  {
    StripNothing(text);
    ReadAsOne(text);
  }

  lemma DirectiveStays(v: Vocabulary, b: Block)
    requires SentencesOf(b.text) == [b.text] && v.opens(b.text)
    ensures RecordSplit(v, b, false) == [b]
  {
    SomeKept([b.text], Directive(v));
    SomeKept([b.text], RecordSentence(v, b.kind));
    assert b.text in [b.text] && Directive(v)(b.text);
  }

  lemma RecordIsRetyped(v: Vocabulary, b: Block)
    requires b.kind.Recommendation? && !b.policyClaim && b.text != "" && SentencesOf(b.text) == [b.text]
    requires !v.opens(b.text) && v.sharesNumber(b.text)
    ensures RecordSplit(v, b, false) == [b.(kind := Record, citations := [], id := None)]
  {
    SomeKept([b.text], Directive(v));
  }

  lemma AmendedAlone(p: Prior, text: string)
    requires SentencesOf(text) == [text] && Stale(p, text) && Strip(AmendLine(p.id)) == AmendLine(p.id)
    ensures Amended(p, text) == AmendLine(p.id)
  {
    var line := AmendLine(p.id);
    assert text in [text] && StaleTest(p)(text);
    assert Substituted(StaleTest(p), line, [text], false) == [line];
  }

  lemma OneBlockPasses(v: Vocabulary, p: Prior, b: Block, split: Block)
    requires !b.kind.Performed? && RecordSplit(v, b, false) == [split]
    ensures Passed(v, p, [b]) == [AmendedBlock(p, split)]
  {
    PassedLast(v, p, [b]);
    assert [b][..0] == [] && Passed(v, p, []) == [];
    assert AmendBlocks(p, [split])[0] == AmendedBlock(p, split);
  }
}
