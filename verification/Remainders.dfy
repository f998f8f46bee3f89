// What the outcome step leaves of each block of the answer, said from the block alone
// (src/hrmosaic/agent/outcome.py:448-470, 598-617, 724-792, 877-1009).
module Remainders {
  import opened Blocks
  import opened Outcome
  import opened Sentences
  import opened Texts

  // A sentence, or a next step, that names the write stands unless it claims it; any other stands
  // unless it sends the reader to it.
  function MayStand(v: Vocabulary, w: Write): SentenceTest {
    s => if Contains(s, w.id) then !v.asserts(s) else !v.directs(s)
  }

  // A sentence of the reader's own record: no directive, and a value of the record in it; in a policy
  // fact a sentence about the reader, without a number, that names a value.
  function OwnRecord(v: Vocabulary, kind: Kind): SentenceTest {
    s => !v.opens(s) && if kind.PolicyFact? then v.aboutReader(s) && !v.hasNumber(s) && v.hasScalar(s)
                        else v.sharesNumber(s) || v.hasScalar(s)
  }

  function Others(p: SentenceTest): SentenceTest { s => !p(s) }

  // Advice with the reader's record in it gives the record up, uncited, and keeps all else; a text that
  // is the record as a whole is typed as one, and loses its citations and its identity.
  ghost predicate SplitInto(v: Vocabulary, b: Block, isClaim: bool, out: seq<Block>) {
    var parts, own := SentencesOf(b.text), OwnRecord(v, b.kind);
    var open := !isClaim && !b.policyClaim && b.text != "" && b.kind in {Recommendation, PolicyFact};
    var advises := exists s :: s in parts && v.opens(s);
    if open && advises && exists s :: s in parts && own(s) then
      exists advice, record ::
        && out == [Block(b.kind, advice, b.citations, b.id, b.policyClaim), Block(Record, record, [], None, false)]
        && SentencesOf(advice) == Stripped(Keep(parts, Others(own)))
        && SentencesOf(record) == Stripped(Keep(parts, own))
    else if open && !advises && own(b.text) then out == [Block(Record, b.text, [], None, false)]
    else out == [b]
  }

  // The text as it was, or else its sentences that may stand.
  ghost predicate LeftOf(v: Vocabulary, w: Write, text: string, left: string) {
    var parts, stands := SentencesOf(text), MayStand(v, w);
    if forall s :: s in parts ==> stands(s) then left == text
    else SentencesOf(left) == Stripped(Keep(parts, stands))
  }

  // After a performed write. A block that is another account of it, denies it, or has only sentences
  // that may not stand is gone. What is left of any other keeps its citations, its identity and its
  // marker, and its kind too, unless it is advice that lost a sentence and no longer advises.
  ghost predicate Remains(v: Vocabulary, w: Write, b: Block, isClaim: bool, out: seq<Block>) {
    var parts, stands := SentencesOf(b.text), MayStand(v, w);
    var whole := forall s :: s in parts ==> stands(s);
    if b.kind.Performed? || (b.kind.Escalation? && v.denial(b.text) && v.acts(b.text)) then out == []
    else if !whole && forall s :: s in parts ==> !stands(s) then out == []
    else
      exists left :: LeftOf(v, w, b.text, left) && SplitInto(v, TrimmedTo(v, b, left, whole, isClaim), isClaim, out)
  }

  function TrimmedTo(v: Vocabulary, b: Block, left: string, whole: bool, isClaim: bool): Block {
    var kind := if b.kind.Recommendation? && !whole && !isClaim && !v.opens(left) then Record else b.kind;
    Block(kind, left, b.citations, b.id, b.policyClaim)
  }

  // ----- the record split -----

  lemma {:induction false} KeepSame(parts: seq<string>, p: SentenceTest, q: SentenceTest)
    requires forall s :: p(s) == q(s)
    ensures Keep(parts, p) == Keep(parts, q)
  {
    if parts != [] {
      KeepSame(parts[1..], p, q);
    }
  }

  lemma RecordTests(v: Vocabulary, kind: Kind)
    ensures forall s :: RecordSentence(v, kind)(s) == OwnRecord(v, kind)(s)
    ensures forall s :: OtherSentence(v, kind)(s) == Others(OwnRecord(v, kind))(s)
  {
    forall s ensures RecordSentence(v, kind)(s) == OwnRecord(v, kind)(s) {
      assert RecordSentence(v, kind)(s) == (!v.opens(s) && IsRecord(v, kind, s));
    }
  }

  lemma SplitExactly(v: Vocabulary, b: Block, isClaim: bool)
    ensures SplitInto(v, b, isClaim, RecordSplit(v, b, isClaim))
  {
    var parts, own, out := SentencesOf(b.text), OwnRecord(v, b.kind), RecordSplit(v, b, isClaim);
    RecordTests(v, b.kind);
    KeepSame(parts, RecordSentence(v, b.kind), own);
    KeepSame(parts, OtherSentence(v, b.kind), Others(own));
    SomeKept(parts, Directive(v));
    SomeKept(parts, own);
    if |out| == 2 {
      Rejoin(b.text, own);
      Rejoin(b.text, Others(own));
    }
  }

  // ----- one block after a write -----

  lemma StandTests(v: Vocabulary, w: Write)
    ensures forall s :: Staying(v, w)(s) == MayStand(v, w)(s) == !Leaving(v, w)(s)
  {
  }

  lemma TrimExactly(v: Vocabulary, w: Write, text: string)
    ensures var parts, stands, (left, removed) := SentencesOf(text), MayStand(v, w), Trimmed(v, w, text);
            && LeftOf(v, w, text, left)
            && (removed == [] <==> forall s :: s in parts ==> stands(s))
            && (removed != [] ==> (left == "" <==> forall s :: s in parts ==> !stands(s)))
  {
    var parts, stands := SentencesOf(text), MayStand(v, w);
    var kept := Keep(parts, stands);
    StandTests(v, w);
    KeepSame(parts, Staying(v, w), stands);
    SomeKept(parts, Leaving(v, w));
    SomeKept(parts, stands);
    Rejoin(text, stands);
    SentencesArePieces("");
    if kept != [] {
      assert |SentencesOf(Join(kept))| > 0;
    }
  }

  lemma RemainsOfBlock(v: Vocabulary, w: Write, b: Block, isClaim: bool)
    ensures Remains(v, w, b, isClaim, Treated(v, Some(w), b, isClaim))
  {
    var (left, removed) := Trimmed(v, w, b.text);
    TrimExactly(v, w, b.text);
    if !Replaced(v, b) && (removed == [] || left != "") {
      var item := TrimmedTo(v, b, left, removed == [], isClaim);
      assert Edited(v, w, b, isClaim) == Some(item);
      SplitExactly(v, item, isClaim);
      RemainsBy(v, w, b, isClaim, left, removed == [], RecordSplit(v, item, isClaim));
    }
  }

  lemma RemainsBy(v: Vocabulary, w: Write, b: Block, isClaim: bool, left: string, whole: bool, out: seq<Block>)
    requires !Replaced(v, b) && LeftOf(v, w, b.text, left)
    requires whole <==> forall s :: s in SentencesOf(b.text) ==> MayStand(v, w)(s)
    requires whole || exists s :: s in SentencesOf(b.text) && MayStand(v, w)(s)
    requires SplitInto(v, TrimmedTo(v, b, left, whole, isClaim), isClaim, out)
    ensures Remains(v, w, b, isClaim, out)
  {
  }

  // ----- the whole answer -----

  function Concatenated(parts: seq<seq<Block>>): seq<Block> {
    if parts == [] then [] else Concatenated(parts[..|parts| - 1]) + parts[|parts| - 1]
  }

  lemma {:induction false} PartsOf(f: Treatment, blocks: seq<Block>) returns (parts: seq<seq<Block>>)
    ensures |parts| == |blocks| && forall n: nat :: n < |blocks| ==> parts[n] == f(blocks[n], n)
    ensures TreatAll(f, blocks) == Concatenated(parts)
  {
    parts := [];
    if blocks != [] {
      var n := |blocks| - 1;
      var before := PartsOf(f, blocks[..n]);
      parts := before + [f(blocks[n], n)];
      assert parts[..n] == before;
    }
  }

  // After a performed write: the statement of it, then in their order what remains of each block; and of
  // the next steps exactly those that may stand.
  lemma AnswerAfterWrite(v: Vocabulary, w: Write, blocks: seq<Block>, steps: seq<string>, claims: set<nat>)
    returns (parts: seq<seq<Block>>)
    ensures |parts| == |blocks| && forall n: nat :: n < |blocks| ==> Remains(v, w, blocks[n], n in claims, parts[n])
    ensures Applied(v, Some(w), blocks, steps, claims)
            == ([Block(Performed, w.statement, [], None, false)] + Concatenated(parts), Keep(steps, MayStand(v, w)))
  {
    parts := PartsOf(Treating(v, Some(w), claims), blocks);
    forall n: nat | n < |blocks| ensures Remains(v, w, blocks[n], n in claims, parts[n]) {
      RemainsOfBlock(v, w, blocks[n], n in claims);
    }
    StandTests(v, w);
    KeepSame(steps, Staying(v, w), MayStand(v, w));
  }

  // Without one: each block with the reader's record split off, `performed` read as advice; and every
  // next step.
  lemma AnswerWithoutWrite(v: Vocabulary, blocks: seq<Block>, steps: seq<string>, claims: set<nat>)
    returns (parts: seq<seq<Block>>)
    ensures |parts| == |blocks|
    ensures forall n: nat :: n < |blocks| ==>
              var b := blocks[n];
              SplitInto(v, if b.kind.Performed? then b.(kind := Recommendation) else b, n in claims, parts[n])
    ensures Applied(v, None, blocks, steps, claims) == (Concatenated(parts), steps)
  {
    parts := PartsOf(Treating(v, None, claims), blocks);
    forall n: nat | n < |blocks|
      ensures var b := blocks[n];
              SplitInto(v, if b.kind.Performed? then b.(kind := Recommendation) else b, n in claims, parts[n])
    {
      var b := blocks[n];
      SplitExactly(v, if b.kind.Performed? then b.(kind := Recommendation) else b, n in claims);
    }
  }

  lemma {:induction false} InSomePart(parts: seq<seq<Block>>, r: Block) returns (n: nat)
    requires r in Concatenated(parts)
    ensures n < |parts| && r in parts[n]
  {
    var last := |parts| - 1;
    if r in parts[last] {
      return last;
    }
    n := InSomePart(parts[..last], r);
  }

  // A policy fact after the step was one before it, with the same citations and the same identity; and
  // whatever else is cited was cited so before.
  lemma NoCitationIsMoved(v: Vocabulary, w: Write, blocks: seq<Block>, steps: seq<string>, claims: set<nat>, r: Block)
    returns (b: Block)
    requires r in Applied(v, Some(w), blocks, steps, claims).0 && (r.kind.PolicyFact? || r.citations != [])
    ensures b in blocks && r.citations == b.citations && r.id == b.id && r.policyClaim == b.policyClaim
    ensures r.kind == b.kind || (b.kind.Recommendation? && r.kind.Record?)
  {
    var parts := AnswerAfterWrite(v, w, blocks, steps, claims);
    var n := InSomePart(parts, r);
    b := blocks[n];
    CitedInPart(v, w, b, n in claims, parts[n], r);
  }

  lemma CitedInPart(v: Vocabulary, w: Write, b: Block, isClaim: bool, out: seq<Block>, r: Block)
    requires Remains(v, w, b, isClaim, out) && r in out && (r.kind.PolicyFact? || r.citations != [])
    ensures r.citations == b.citations && r.id == b.id && r.policyClaim == b.policyClaim
    ensures r.kind == b.kind || (b.kind.Recommendation? && r.kind.Record?)
  {
    var whole := forall s :: s in SentencesOf(b.text) ==> MayStand(v, w)(s);
    var left :| LeftOf(v, w, b.text, left) && SplitInto(v, TrimmedTo(v, b, left, whole, isClaim), isClaim, out);
    CitedInSplit(v, TrimmedTo(v, b, left, whole, isClaim), isClaim, out, r);
  }

  lemma CitedInSplit(v: Vocabulary, b: Block, isClaim: bool, out: seq<Block>, r: Block)
    requires SplitInto(v, b, isClaim, out) && r in out && (r.kind.PolicyFact? || r.citations != [])
    ensures r.citations == b.citations && r.id == b.id && r.policyClaim == b.policyClaim && r.kind == b.kind
  {
    SplitShapes(v, b, isClaim, out);
    var i :| 0 <= i < |out| && out[i] == r;
  }

  lemma {:induction false} SplitShapes(v: Vocabulary, b: Block, isClaim: bool, out: seq<Block>)
    requires SplitInto(v, b, isClaim, out)
    ensures || out == [b] || out == [Block(Record, b.text, [], None, false)]
            || (|out| == 2 && out[0] == b.(text := out[0].text)
                && out[1] == Block(Record, out[1].text, [], None, false))
  {
  }

  // ----- the write itself -----

  // Which tool results prove a write, and which one: a ticket created or an email drafted, under the
  // ticket's id, or else the draft's.
  lemma EvidenceExactly(e: Envelope, w: Write)
    ensures Evidence(e) == Some(w) <==>
            && e.body.Some? && w.tool == e.name && w.statement == e.body.value.statement
            && (|| (e.name == "create_mock_hr_ticket" && e.body.value.status == "created")
                || (e.name == "draft_hr_email" && e.body.value.status == "drafted"))
            && w.id != ""
            && (w.id == e.body.value.ticketId || (e.body.value.ticketId == "" && w.id == e.body.value.draftId))
  {
  }
}
