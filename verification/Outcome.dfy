// The answer after a confirmed write: one statement of it in front, and nothing that contradicts it
// (src/hrmosaic/agent/outcome.py).
module Outcome {
  import opened Texts
  import opened Sentences
  import opened Blocks

  // ----- the write, read from the tool results -----

  datatype Body = Body(status: string, ticketId: string, draftId: string, statement: string)

  // One tool result; a body that is not a JSON object is None.
  datatype Envelope = Envelope(name: string, body: Option<Body>)

  // `statement` is the sentence the result's own fields render to.
  datatype Write = Write(tool: string, id: string, statement: string)

  const WRITE_SUCCESS: map<string, string> :=
    map["create_mock_hr_ticket" := "created", "draft_hr_email" := "drafted"]

  function Evidence(e: Envelope): Option<Write> {
    if e.name !in WRITE_SUCCESS || e.body.None? || e.body.value.status != WRITE_SUCCESS[e.name] then None
    else
      var body := e.body.value;
      var id := if body.ticketId != "" then body.ticketId else body.draftId;
      if id == "" then None else Some(Write(e.name, id, body.statement))
  }

  // What the last envelope that proves a write proves.
  ghost predicate IsLastWrite(envelopes: seq<Envelope>, found: Option<Write>) {
    exists i :: (0 <= i < |envelopes| && Evidence(envelopes[i]) == found
                 && forall j :: i < j < |envelopes| ==> Evidence(envelopes[j]).None?)
  }

  // No envelope behind the one found proves a write.
  method PerformedWrite(envelopes: seq<Envelope>) returns (found: Option<Write>)
    ensures found.None? <==> forall e :: e in envelopes ==> Evidence(e).None?
    ensures found.Some? ==> IsLastWrite(envelopes, found)
  {
    found := None;
    for n := 0 to |envelopes|
      invariant found.None? <==> forall j :: 0 <= j < n ==> Evidence(envelopes[j]).None?
      invariant found.Some? ==>
                  exists i :: (0 <= i < n && Evidence(envelopes[i]) == found
                               && forall j :: i < j < n ==> Evidence(envelopes[j]).None?)
    {
      var evidence := Evidence(envelopes[n]);
      if evidence.Some? {
        found := evidence;
      }
    }
  }

  // ----- the vocabulary -----

  // The word lists and expressions of the module, as arbitrary tests on a text. Those that depend
  // on the performed tool or on the turn's envelopes are already applied to them.
  datatype Vocabulary = Vocabulary(
    asserts: string -> bool,      // _CLAIMS_THE_WRITE finds something
    directs: string -> bool,      // directs(text, write.tool_name)
    denial: string -> bool,       // carries one of DENIALS
    acts: string -> bool,         // carries one of the tool's ACTION_WORDS
    opens: string -> bool,        // opens_with_a_directive
    sharesNumber: string -> bool, // numbers_in(text) meets the envelopes' numbers
    hasNumber: string -> bool,    // numbers_in(text) is not empty
    hasScalar: string -> bool,    // names one of the envelopes' scalars
    aboutReader: string -> bool)  // about_the_reader

  // Surrounding whitespace does not matter to a test.
  ghost predicate IgnoresEdges(p: string -> bool) { forall s {:trigger Strip(s)} :: p(s) == p(Strip(s)) }

  // A text passes when one of its sentences does.
  ghost predicate BySentence(p: string -> bool) {
    forall t {:trigger SentencesOf(t)} :: p(t) ==> exists s :: s in SentencesOf(t) && p(s)
  }

  // What passes within a text passes of the text.
  ghost predicate Inherited(p: string -> bool) {
    forall t, s {:trigger s in SentencesOf(t)} :: s in SentencesOf(t) && p(s) ==> p(t)
  }

  ghost predicate Faithful(v: Vocabulary) {
    && IgnoresEdges(v.asserts) && IgnoresEdges(v.directs) && IgnoresEdges(v.opens)
    && IgnoresEdges(v.sharesNumber) && IgnoresEdges(v.hasNumber) && IgnoresEdges(v.hasScalar)
    && IgnoresEdges(v.aboutReader)
    && IgnoresEdges(v.denial) && BySentence(v.denial) && Inherited(v.denial)
    && IgnoresEdges(v.acts) && BySentence(v.acts) && Inherited(v.acts)
  }

  // A write's id, as a tool result writes one: not empty, no whitespace around it.
  predicate ProperId(id: string) { id != "" && !IsSpace(id[0]) && !IsSpace(id[|id| - 1]) }

  function ClaimsTheWrite(v: Vocabulary, w: Write, s: string): bool {
    Contains(s, w.id) && v.asserts(s)
  }

  function Denies(v: Vocabulary, text: string): bool { v.denial(text) && v.acts(text) }

  // A sentence, or a next step, that may stand beside the statement of the write.
  function Stays(v: Vocabulary, w: Write, s: string): bool {
    !ClaimsTheWrite(v, w, s) && (Contains(s, w.id) || !v.directs(s))
  }

  function Staying(v: Vocabulary, w: Write): string -> bool { s => Stays(v, w, s) }

  function Leaving(v: Vocabulary, w: Write): string -> bool { s => !Stays(v, w, s) }

  // ----- trim -----

  function Trimmed(v: Vocabulary, w: Write, text: string): (string, seq<string>) {
    var parts := SentencesOf(text);
    var removed := Keep(parts, Leaving(v, w));
    if removed == [] then (text, []) else (Join(Keep(parts, Staying(v, w))), removed)
  }

  // The text of the staying sentences, and the sentences that left.
  method Trim(v: Vocabulary, w: Write, text: string) returns (trimmed: string, removed: seq<string>)
    ensures (trimmed, removed) == Trimmed(v, w, text)
  {
    var parts := SentencesOf(text);
    var kept: seq<string> := [];
    removed := [];
    for n := 0 to |parts|
      invariant kept == Keep(parts[..n], Staying(v, w))
      invariant removed == Keep(parts[..n], Leaving(v, w))
    {
      assert parts[..n + 1] == parts[..n] + [parts[n]];
      KeepAppend(parts[..n], parts[n], Staying(v, w));
      KeepAppend(parts[..n], parts[n], Leaving(v, w));
      if ClaimsTheWrite(v, w, parts[n]) {
        removed := removed + [parts[n]];
      } else if Contains(parts[n], w.id) || !v.directs(parts[n]) {
        kept := kept + [parts[n]];
      } else {
        removed := removed + [parts[n]];
      }
    }
    assert parts[..|parts|] == parts;
    if removed == [] {
      return text, [];
    }
    return Join(kept), removed;
  }

  // ----- the record split -----

  function StatesTheRecord(v: Vocabulary, s: string, scalarsOnly: bool): bool {
    !v.opens(s) && ((!scalarsOnly && v.sharesNumber(s)) || v.hasScalar(s))
  }

  function IsRecord(v: Vocabulary, kind: Kind, s: string): bool {
    if kind.PolicyFact? then v.aboutReader(s) && !v.hasNumber(s) && StatesTheRecord(v, s, true)
    else StatesTheRecord(v, s, false)
  }

  function Directive(v: Vocabulary): string -> bool { s => v.opens(s) }

  function RecordSentence(v: Vocabulary, kind: Kind): string -> bool { s => !v.opens(s) && IsRecord(v, kind, s) }

  function OtherSentence(v: Vocabulary, kind: Kind): string -> bool { s => !(!v.opens(s) && IsRecord(v, kind, s)) }

  predicate Splittable(b: Block, isClaim: bool) {
    !isClaim && !b.policyClaim && (b.kind.Recommendation? || b.kind.PolicyFact?) && b.text != ""
  }

  // A mixed block in two, a record typed as one, or the block as it was.
  function RecordSplit(v: Vocabulary, b: Block, isClaim: bool): seq<Block> {
    if !Splittable(b, isClaim) then [b]
    else
      var parts := SentencesOf(b.text);
      var directives := Keep(parts, Directive(v));
      var records := Keep(parts, RecordSentence(v, b.kind));
      if directives != [] && records != [] then
        [b.(text := Join(Keep(parts, OtherSentence(v, b.kind)))),
         Block(Record, Join(records), [], None, false)]
      else if directives == [] && IsRecord(v, b.kind, b.text) then
        [b.(kind := Record, citations := [], id := None)]
      else [b]
  }

  // ----- apply -----

  // A block the statement of the write replaces whole.
  predicate Replaced(v: Vocabulary, b: Block) {
    b.kind.Performed? || (b.kind.Escalation? && Denies(v, b.text))
  }

  // None when the block is replaced or trimmed away. A trimmed recommendation becomes a record when
  // it is no policy claim and does not open with a directive; other kinds stay what they were.
  function Edited(v: Vocabulary, w: Write, b: Block, isClaim: bool): Option<Block> {
    if Replaced(v, b) then None
    else
      var (text, removed) := Trimmed(v, w, b.text);
      if removed == [] then Some(b)
      else if text == "" then None
      else if b.kind.Recommendation? && !isClaim && !v.opens(text) then Some(b.(text := text, kind := Record))
      else Some(b.(text := text))
  }

  // None, one or two blocks; without a write, `performed` reads as `recommendation`.
  function Treated(v: Vocabulary, write: Option<Write>, b: Block, isClaim: bool): seq<Block> {
    match write
    case None => RecordSplit(v, if b.kind.Performed? then b.(kind := Recommendation) else b, isClaim)
    case Some(w) =>
      match Edited(v, w, b, isClaim)
      case None => []
      case Some(item) => RecordSplit(v, item, isClaim)
  }

  type Treatment = (Block, nat) -> seq<Block>

  function Treating(v: Vocabulary, write: Option<Write>, claims: set<nat>): Treatment {
    (b: Block, n: nat) => Treated(v, write, b, n in claims)
  }

  function TreatAll(f: Treatment, blocks: seq<Block>): seq<Block> {
    if blocks == [] then []
    else TreatAll(f, blocks[..|blocks| - 1]) + f(blocks[|blocks| - 1], |blocks| - 1)
  }

  function Statement(w: Write): Block { Block(Performed, w.statement, [], None, false) }

  function Applied(v: Vocabulary, write: Option<Write>, blocks: seq<Block>, steps: seq<string>, claims: set<nat>)
    : (seq<Block>, seq<string>)
  {
    var body := TreatAll(Treating(v, write, claims), blocks);
    if write.None? then (body, steps)
    else ([Statement(write.value)] + body, Keep(steps, Staying(v, write.value)))
  }

  // The blocks and next steps served, and the write they were treated for, if any. The blocks whose
  // indexes are in `claims` are neither split nor retyped.
  method Apply(v: Vocabulary, envelopes: seq<Envelope>, blocks: seq<Block>, steps: seq<string>, claims: set<nat>)
    returns (write: Option<Write>, out: seq<Block>, keptSteps: seq<string>)
    ensures (out, keptSteps) == Applied(v, write, blocks, steps, claims)
    ensures write.None? <==> forall e :: e in envelopes ==> Evidence(e).None?
    ensures write.Some? ==> IsLastWrite(envelopes, write)
  {
    write := PerformedWrite(envelopes);
    keptSteps := steps;
    if write.Some? {
      keptSteps := KeepSteps(v, write.value, steps);
    }
    out := [];
    for n := 0 to |blocks|
      invariant out == TreatAll(Treating(v, write, claims), blocks[..n])
    {
      assert blocks[..n + 1][..n] == blocks[..n];
      var survivors := ApplyToBlock(v, write, blocks[n], n in claims);
      out := out + survivors;
    }
    assert blocks[..|blocks|] == blocks;
    if write.Some? {
      out := [Statement(write.value)] + out;
    }
  }

  method KeepSteps(v: Vocabulary, w: Write, steps: seq<string>) returns (kept: seq<string>)
    ensures kept == Keep(steps, Staying(v, w))
  {
    kept := [];
    for n := 0 to |steps|
      invariant kept == Keep(steps[..n], Staying(v, w))
    {
      assert steps[..n + 1] == steps[..n] + [steps[n]];
      KeepAppend(steps[..n], steps[n], Staying(v, w));
      if !ClaimsTheWrite(v, w, steps[n]) && (Contains(steps[n], w.id) || !v.directs(steps[n])) {
        kept := kept + [steps[n]];
      }
    }
    assert steps[..|steps|] == steps;
  }

  method ApplyToBlock(v: Vocabulary, write: Option<Write>, block: Block, isClaim: bool)
    returns (survivors: seq<Block>)
    ensures survivors == Treated(v, write, block, isClaim)
  {
    if write.None? {
      return RecordSplit(v, if block.kind.Performed? then block.(kind := Recommendation) else block, isClaim);
    }
    if block.kind.Performed? || (block.kind.Escalation? && Denies(v, block.text)) {
      return [];
    }
    var item := block;
    var text, removed := Trim(v, write.value, block.text);
    if removed != [] {
      if text == "" {
        return [];
      }
      item := item.(text := text);
      if item.kind.Recommendation? && !isClaim && !v.opens(text) {
        item := item.(kind := Record);
      }
    }
    return RecordSplit(v, item, isClaim);
  }

  lemma {:induction false} KeepAppend(parts: seq<string>, last: string, p: string -> bool)
    ensures Keep(parts + [last], p) == Keep(parts, p) + if p(last) then [last] else []
  {
    if parts == [] {
      assert parts + [last] == [last];
    } else {
      assert (parts + [last])[1..] == parts[1..] + [last];
      KeepAppend(parts[1..], last, p);
    }
  }

  // ----- sentences that stay, stay -----

  lemma OccursInSlice(s: string, i: nat, j: nat, id: string, k: nat)
    requires i <= j <= |s| && k + |id| <= j - i
    ensures OccursAt(s[i..j], id, k) <==> OccursAt(s, id, i + k)
  {
    var a, b := s[i..j][k..k + |id|], s[i + k..i + k + |id|];
    assert forall m :: 0 <= m < |id| ==> a[m] == b[m];
    assert a == b;
  }

  // A proper id that occurs in a text occurs in what stripping leaves of it.
  lemma ContainsStrip(s: string, id: string)
    requires ProperId(id)
    ensures Contains(s, id) <==> Contains(Strip(s), id)
  {
    var i, j := StripSlice(s);
    if Contains(s, id) {
      var k: nat :| k <= |s| && OccursAt(s, id, k);
      assert s[k] == s[k..k + |id|][0] && s[k + |id| - 1] == s[k..k + |id|][|id| - 1];
      assert i <= k && k + |id| <= j;
      OccursInSlice(s, i, j, id, k - i);
      assert Contains(s[i..j], id);
    }
    if Contains(Strip(s), id) {
      var k: nat :| k <= |Strip(s)| && OccursAt(Strip(s), id, k);
      OccursInSlice(s, i, j, id, k);
    }
  }

  lemma StayingIgnoresEdges(v: Vocabulary, w: Write)
    requires Faithful(v) && ProperId(w.id)
    ensures IgnoresEdges(Staying(v, w))
  {
    forall s ensures Stays(v, w, s) == Stays(v, w, Strip(s)) {
      ContainsStrip(s, w.id);
      assert v.asserts(s) == v.asserts(Strip(s)) && v.directs(s) == v.directs(Strip(s));
    }
  }

  lemma RecordIgnoresEdges(v: Vocabulary, kind: Kind)
    requires Faithful(v)
    ensures IgnoresEdges(RecordSentence(v, kind)) && IgnoresEdges(OtherSentence(v, kind)) && IgnoresEdges(Directive(v))
  {
    forall s
      ensures RecordSentence(v, kind)(s) == RecordSentence(v, kind)(Strip(s)) && v.opens(s) == v.opens(Strip(s))
    {
      assert v.opens(s) == v.opens(Strip(s)) && v.sharesNumber(s) == v.sharesNumber(Strip(s));
      assert v.hasScalar(s) == v.hasScalar(Strip(s)) && v.hasNumber(s) == v.hasNumber(Strip(s));
      assert v.aboutReader(s) == v.aboutReader(Strip(s));
    }
  }

  predicate AllStay(v: Vocabulary, w: Write, text: string) {
    forall s :: s in SentencesOf(text) ==> Stays(v, w, s)
  }

  // A selection of staying sentences, joined, is a text of staying sentences.
  lemma JoinStays(v: Vocabulary, w: Write, text: string, p: string -> bool)
    requires Faithful(v) && ProperId(w.id)
    requires forall s :: s in SentencesOf(text) && p(s) ==> Stays(v, w, s)
    ensures AllStay(v, w, Join(Keep(SentencesOf(text), p)))
  {
    var kept := Keep(SentencesOf(text), p);
    Rejoin(text, p);
    StayingIgnoresEdges(v, w);
    forall s | s in Stripped(kept) ensures Stays(v, w, s) {
      var i :| 0 <= i < |kept| && s == Stripped(kept)[i];
      assert kept[i] in kept && Staying(v, w)(kept[i]) == Staying(v, w)(Strip(kept[i]));
    }
  }

  lemma TrimmedStays(v: Vocabulary, w: Write, text: string)
    requires Faithful(v) && ProperId(w.id)
    ensures AllStay(v, w, Trimmed(v, w, text).0)
    ensures AllStay(v, w, text) <==> Trimmed(v, w, text).1 == []
  {
    var parts := SentencesOf(text);
    var removed := Keep(parts, Leaving(v, w));
    if removed == [] {
      forall s | s in parts ensures Stays(v, w, s) {
        assert s !in removed;
      }
    } else {
      assert removed[0] in removed;
      JoinStays(v, w, text, Staying(v, w));
    }
  }

  // Taking sentences out of a text never makes a sentence-wise test pass.
  lemma JoinPassesLess(text: string, keep: string -> bool, p: string -> bool)
    requires IgnoresEdges(p) && BySentence(p) && Inherited(p)
    requires p(Join(Keep(SentencesOf(text), keep)))
    ensures p(text)
  {
    var kept := Keep(SentencesOf(text), keep);
    Rejoin(text, keep);
    var s :| s in Stripped(kept) && p(s);
    var i :| 0 <= i < |kept| && s == Stripped(kept)[i];
    assert kept[i] in kept && p(kept[i]) == p(Strip(kept[i]));
  }

  lemma TrimmedDeniesLess(v: Vocabulary, w: Write, text: string)
    requires Faithful(v) && Denies(v, Trimmed(v, w, text).0)
    ensures Denies(v, text)
  {
    if Trimmed(v, w, text).1 != [] {
      JoinPassesLess(text, Staying(v, w), v.denial);
      JoinPassesLess(text, Staying(v, w), v.acts);
    }
  }

  // ----- idempotence -----

  // Neither the trim nor the record split has anything left to do with this block.
  predicate Settled(v: Vocabulary, w: Write, b: Block) {
    !Replaced(v, b) && AllStay(v, w, b.text) && RecordSplit(v, b, false) == [b]
  }

  lemma SettledIsFixed(v: Vocabulary, w: Write, b: Block)
    requires Faithful(v) && ProperId(w.id) && Settled(v, w, b)
    ensures Treated(v, Some(w), b, false) == [b]
  {
    TrimmedStays(v, w, b.text);
    assert Edited(v, w, b, false) == Some(b);
  }

  lemma EditedStays(v: Vocabulary, w: Write, b: Block, isClaim: bool)
    requires Faithful(v) && ProperId(w.id)
    ensures match Edited(v, w, b, isClaim)
            case None => true
            case Some(item) => !Replaced(v, item) && AllStay(v, w, item.text)
  {
    var (text, removed) := Trimmed(v, w, b.text);
    if !Replaced(v, b) && !(removed != [] && text == "") {
      var item := Edited(v, w, b, isClaim).value;
      TrimmedStays(v, w, b.text);
      assert item.text == text;
      if b.kind.Escalation? && Denies(v, text) {
        TrimmedDeniesLess(v, w, b.text);
      }
    }
  }

  lemma {:induction false} KeepStripped(parts: seq<string>, p: string -> bool)
    requires IgnoresEdges(p)
    ensures Keep(Stripped(parts), p) == Stripped(Keep(parts, p))
  {
    if parts != [] {
      assert p(parts[0]) == p(Strip(parts[0]));
      assert Stripped(parts)[1..] == Stripped(parts[1..]);
      KeepStripped(parts[1..], p);
    }
  }

  // The advice half of a split block keeps its directives and has no record sentence left.
  lemma RestIsSettled(v: Vocabulary, b: Block)
    requires Faithful(v) && Splittable(b, false)
    requires Keep(SentencesOf(b.text), Directive(v)) != []
    ensures var rest := b.(text := Join(Keep(SentencesOf(b.text), OtherSentence(v, b.kind))));
            RecordSplit(v, rest, false) == [rest]
  {
    var parts := SentencesOf(b.text);
    var kept := Keep(parts, OtherSentence(v, b.kind));
    var rest := b.(text := Join(kept));
    Rejoin(b.text, OtherSentence(v, b.kind));
    RecordIgnoresEdges(v, b.kind);
    KeepStripped(kept, RecordSentence(v, b.kind));
    KeepStripped(kept, Directive(v));
    NoRecordsKept(v, b.kind, parts);
  }

  lemma NoRecordsKept(v: Vocabulary, kind: Kind, parts: seq<string>)
    ensures var kept := Keep(parts, OtherSentence(v, kind));
            && Keep(kept, RecordSentence(v, kind)) == []
            && (Keep(parts, Directive(v)) != [] ==> Keep(kept, Directive(v)) != [])
  {
    var kept := Keep(parts, OtherSentence(v, kind));
    var records := Keep(kept, RecordSentence(v, kind));
    assert forall s :: s !in records;
    if Keep(parts, Directive(v)) != [] {
      var directive := Keep(parts, Directive(v))[0];
      assert directive in Keep(parts, Directive(v));
      assert directive in Keep(kept, Directive(v));
    }
  }

  // The block mixes advice with sentences of the reader's own record.
  predicate Mixed(v: Vocabulary, b: Block) {
    && (exists d :: d in SentencesOf(b.text) && v.opens(d))
    && exists s :: s in SentencesOf(b.text) && RecordSentence(v, b.kind)(s)
  }

  // A mixed block gives up exactly its record sentences, which carry no citation; what is left keeps
  // its kind and its citations and is not mixed any more.
  lemma RecordIsSplitOff(v: Vocabulary, b: Block)
    requires Faithful(v) && Splittable(b, false) && Mixed(v, b)
    ensures var out, parts := RecordSplit(v, b, false), SentencesOf(b.text);
            && |out| == 2
            && out[0] == b.(text := out[0].text) && out[1] == Block(Record, out[1].text, [], None, false)
            && SentencesOf(out[0].text) == Stripped(Keep(parts, OtherSentence(v, b.kind)))
            && SentencesOf(out[1].text) == Stripped(Keep(parts, RecordSentence(v, b.kind)))
            && !Mixed(v, out[0])
  {
    MixedSplits(v, b);
    Rejoin(b.text, OtherSentence(v, b.kind));
    Rejoin(b.text, RecordSentence(v, b.kind));
    RestIsNotMixed(v, b.kind, SentencesOf(b.text));
  }

  lemma MixedSplits(v: Vocabulary, b: Block)
    requires Splittable(b, false) && Mixed(v, b)
    ensures var parts := SentencesOf(b.text);
            RecordSplit(v, b, false)
            == [b.(text := Join(Keep(parts, OtherSentence(v, b.kind)))),
                Block(Record, Join(Keep(parts, RecordSentence(v, b.kind))), [], None, false)]
  {
    var parts := SentencesOf(b.text);
    var d :| d in parts && v.opens(d);
    assert Directive(v)(d);
    SomeKept(parts, Directive(v));
    SomeKept(parts, RecordSentence(v, b.kind));
  }

  lemma RestIsNotMixed(v: Vocabulary, kind: Kind, parts: seq<string>)
    requires Faithful(v)
    ensures forall s :: s in Stripped(Keep(parts, OtherSentence(v, kind))) ==> !RecordSentence(v, kind)(s)
  {
    var kept := Keep(parts, OtherSentence(v, kind));
    RecordIgnoresEdges(v, kind);
    KeepStripped(kept, RecordSentence(v, kind));
    NoRecordsKept(v, kind, parts);
    NoneIsNone(Stripped(kept), RecordSentence(v, kind));
  }

  // The record split has nothing to do with this block: it is of a kind it leaves alone, or it is not
  // mixed and is advice, or is no record as a whole.
  predicate Unsplit(v: Vocabulary, b: Block) {
    || !Splittable(b, false)
    || (!Mixed(v, b) && ((exists d :: d in SentencesOf(b.text) && v.opens(d)) || !IsRecord(v, b.kind, b.text)))
  }

  lemma UnsplitExactly(v: Vocabulary, b: Block)
    ensures RecordSplit(v, b, false) == [b] <==> Unsplit(v, b)
    ensures !Unsplit(v, b) ==> |RecordSplit(v, b, false)| == 2 || RecordSplit(v, b, false)[0].kind == Record != b.kind
  {
    var parts := SentencesOf(b.text);
    SomeKept(parts, Directive(v));
    SomeKept(parts, RecordSentence(v, b.kind));
  }

  lemma SomeKept(parts: seq<string>, p: string -> bool)
    ensures Keep(parts, p) != [] <==> exists s :: s in parts && p(s)
  {
    if Keep(parts, p) != [] {
      assert Keep(parts, p)[0] in Keep(parts, p);
    }
    if s :| s in parts && p(s) {
      assert s in Keep(parts, p);
    }
  }

  lemma NoneIsNone(parts: seq<string>, p: string -> bool)
    requires Keep(parts, p) == []
    ensures forall s :: s in parts ==> !p(s)
  {
    forall s | s in parts ensures !p(s) {
      assert s in Keep(parts, p) <==> p(s);
    }
  }

  lemma SplitSettles(v: Vocabulary, w: Write, b: Block)
    requires Faithful(v) && ProperId(w.id) && !Replaced(v, b) && AllStay(v, w, b.text)
    ensures forall r :: r in RecordSplit(v, b, false) ==> Settled(v, w, r)
  {
    var out := RecordSplit(v, b, false);
    if |out| == 2 {
      RestIsSettled(v, b);
      JoinStays(v, w, b.text, OtherSentence(v, b.kind));
      JoinStays(v, w, b.text, RecordSentence(v, b.kind));
      assert Settled(v, w, out[0]) && Settled(v, w, out[1]);
    } else {
      assert |out| == 1 && Settled(v, w, out[0]);
    }
  }

  lemma TreatedSettles(v: Vocabulary, w: Write, b: Block)
    requires Faithful(v) && ProperId(w.id)
    ensures forall r :: r in Treated(v, Some(w), b, false) ==> Settled(v, w, r)
  {
    EditedStays(v, w, b, false);
    if Edited(v, w, b, false).Some? {
      SplitSettles(v, w, Edited(v, w, b, false).value);
    }
  }

  // A treatment whose every output it leaves alone leaves the whole of its own result alone.
  lemma {:induction false} TreatAllFixed(f: Treatment, blocks: seq<Block>)
    requires forall b, n: nat :: b in blocks ==> f(b, n) == [b]
    ensures TreatAll(f, blocks) == blocks
  {
    if blocks != [] {
      TreatAllFixed(f, blocks[..|blocks| - 1]);
    }
  }

  lemma {:induction false} TreatAllYields(f: Treatment, blocks: seq<Block>, ok: Block -> bool)
    requires forall b, n: nat, r :: b in blocks && r in f(b, n) ==> ok(r)
    ensures forall r :: r in TreatAll(f, blocks) ==> ok(r)
  {
    if blocks != [] {
      var n := |blocks| - 1;
      TreatAllYields(f, blocks[..n], ok);
      assert blocks[n] in blocks;
    }
  }

  lemma {:induction false} TreatAllAfter(f: Treatment, first: Block, blocks: seq<Block>)
    requires f(first, 0) == []
    requires forall b, n: nat :: b in blocks ==> f(b, n) == [b]
    ensures TreatAll(f, [first] + blocks) == blocks
  {
    var all := [first] + blocks;
    if blocks == [] {
      assert all[..0] == [];
      assert TreatAll(f, all) == [];
    } else {
      var n := |blocks| - 1;
      assert all[..n + 1] == [first] + blocks[..n];
      TreatAllAfter(f, first, blocks[..n]);
    }
  }

  // The write step is idempotent: its own blocks and next steps, put through it again, come back
  // unchanged, the re-emitted statement included.
  lemma WriteStepIdempotent(v: Vocabulary, w: Write, blocks: seq<Block>, steps: seq<string>)
    requires Faithful(v) && ProperId(w.id)
    ensures var once := Applied(v, Some(w), blocks, steps, {});
            Applied(v, Some(w), once.0, once.1, {}) == once
  {
    var f := Treating(v, Some(w), {});
    var body := TreatAll(f, blocks);
    forall b, n: nat, r | b in blocks && r in f(b, n) ensures Settled(v, w, r) {
      TreatedSettles(v, w, b);
    }
    TreatAllYields(f, blocks, r => Settled(v, w, r));
    forall b, n: nat | b in body ensures f(b, n) == [b] {
      SettledIsFixed(v, w, b);
    }
    TreatAllAfter(f, Statement(w), body);
    KeepAll(Keep(steps, Staying(v, w)), Staying(v, w));
  }

  // The orchestrator names as claims exactly the blocks that carry the policy-claim marker.
  function Marked(blocks: seq<Block>): set<nat> {
    set n: nat | n < |blocks| && blocks[n].policyClaim
  }

  function TreatingMarked(v: Vocabulary, w: Write): Treatment {
    (b: Block, n: nat) => Treated(v, Some(w), b, b.policyClaim)
  }

  lemma {:induction false} MarkedTreatment(v: Vocabulary, w: Write, claims: set<nat>, blocks: seq<Block>)
    requires forall n: nat :: n < |blocks| ==> (n in claims <==> blocks[n].policyClaim)
    ensures TreatAll(Treating(v, Some(w), claims), blocks) == TreatAll(TreatingMarked(v, w), blocks)
  {
    if blocks != [] {
      MarkedTreatment(v, w, claims, blocks[..|blocks| - 1]);
    }
  }

  lemma MarkedIsFixed(v: Vocabulary, w: Write, b: Block, r: Block)
    requires Faithful(v) && ProperId(w.id) && r in Treated(v, Some(w), b, b.policyClaim)
    ensures Treated(v, Some(w), r, r.policyClaim) == [r]
  {
    if b.policyClaim {
      EditedStays(v, w, b, true);
      TrimmedStays(v, w, r.text);
      assert Edited(v, w, r, true) == Some(r);
    } else {
      TreatedSettles(v, w, b);
      SettledIsFixed(v, w, r);
    }
  }

  // Idempotence as the step is called: markers travel with their blocks, so naming the marked
  // blocks of the step's own output as claims again changes nothing.
  lemma MarkedStepIdempotent(v: Vocabulary, w: Write, blocks: seq<Block>, steps: seq<string>)
    requires Faithful(v) && ProperId(w.id)
    ensures var once := Applied(v, Some(w), blocks, steps, Marked(blocks));
            Applied(v, Some(w), once.0, once.1, Marked(once.0)) == once
  {
    var f := TreatingMarked(v, w);
    var body := TreatAll(f, blocks);
    MarkedTreatment(v, w, Marked(blocks), blocks);
    var out := [Statement(w)] + body;
    MarkedTreatment(v, w, Marked(out), out);
    var fixed := (r: Block) => Treated(v, Some(w), r, r.policyClaim) == [r];
    forall b, n: nat, r | b in blocks && r in f(b, n) ensures fixed(r) {
      MarkedIsFixed(v, w, b, r);
    }
    TreatAllYields(f, blocks, fixed);
    TreatAllAfter(f, Statement(w), body);
    KeepAll(Keep(steps, Staying(v, w)), Staying(v, w));
  }

  // ----- the statement stands alone -----

  lemma SplitStays(v: Vocabulary, w: Write, b: Block, isClaim: bool)
    requires Faithful(v) && ProperId(w.id) && !Replaced(v, b) && AllStay(v, w, b.text)
    ensures forall r :: r in RecordSplit(v, b, isClaim) ==> !r.kind.Performed? && AllStay(v, w, r.text)
  {
    var out := RecordSplit(v, b, isClaim);
    if |out| == 2 {
      JoinStays(v, w, b.text, OtherSentence(v, b.kind));
      JoinStays(v, w, b.text, RecordSentence(v, b.kind));
      assert AllStay(v, w, out[0].text) && AllStay(v, w, out[1].text);
    } else {
      assert |out| == 1 && AllStay(v, w, out[0].text);
    }
  }

  // After a performed write exactly one block is the account of it, and it comes first; no other
  // sentence of any block claims the write or, without naming it, sends the reader to repeat it,
  // and no next step does either.
  lemma OneAccountOfTheWrite(v: Vocabulary, w: Write, blocks: seq<Block>, steps: seq<string>, claims: set<nat>)
    requires Faithful(v) && ProperId(w.id)
    ensures var (out, kept) := Applied(v, Some(w), blocks, steps, claims);
            && out != [] && out[0] == Statement(w)
            && (forall r :: r in out[1..] ==> !r.kind.Performed? && AllStay(v, w, r.text))
            && (forall step :: step in kept <==> step in steps && Stays(v, w, step))
  {
    var f := Treating(v, Some(w), claims);
    forall b, n: nat, r | b in blocks && r in f(b, n) ensures !r.kind.Performed? && AllStay(v, w, r.text) {
      EditedStays(v, w, b, n in claims);
      SplitStays(v, w, Edited(v, w, b, n in claims).value, n in claims);
    }
    TreatAllYields(f, blocks, (r: Block) => !r.kind.Performed? && AllStay(v, w, r.text));
    assert Applied(v, Some(w), blocks, steps, claims).0[1..] == TreatAll(f, blocks);
  }

  // Only a tool result may say that a write happened: without one no block is typed `performed`,
  // whatever the model typed.
  lemma NoWriteNoAccount(v: Vocabulary, blocks: seq<Block>, steps: seq<string>, claims: set<nat>)
    ensures var (out, kept) := Applied(v, None, blocks, steps, claims);
            (forall r :: r in out ==> !r.kind.Performed?) && kept == steps
  {
    var f := Treating(v, None, claims);
    TreatAllYields(f, blocks, (r: Block) => !r.kind.Performed?);
  }

  // ----- nothing else is lost or repeated -----

  // The sentences of a text, without the whitespace around them.
  function Heard(parts: seq<string>): multiset<string> { multiset(Stripped(parts)) }

  function Said(blocks: seq<Block>): multiset<string> {
    if blocks == [] then multiset{}
    else Said(blocks[..|blocks| - 1]) + Heard(SentencesOf(blocks[|blocks| - 1].text))
  }

  // The sentences of the blocks that are not replaced whole, less those the write contradicts.
  function Surviving(v: Vocabulary, w: Write, blocks: seq<Block>): multiset<string> {
    if blocks == [] then multiset{}
    else
      var b := blocks[|blocks| - 1];
      Surviving(v, w, blocks[..|blocks| - 1]) +
      if Replaced(v, b) then multiset{} else Heard(Keep(SentencesOf(b.text), Staying(v, w)))
  }

  lemma {:induction false} SaidConcat(a: seq<Block>, b: seq<Block>)
    ensures Said(a + b) == Said(a) + Said(b)
  {
    if b == [] {
      assert a + b == a;
    } else {
      assert (a + b)[..|a + b| - 1] == a + b[..|b| - 1];
      SaidConcat(a, b[..|b| - 1]);
    }
  }

  lemma {:induction false} HeardSplits(parts: seq<string>, p: string -> bool, q: string -> bool)
    requires forall s :: q(s) == !p(s)
    ensures Heard(Keep(parts, p)) + Heard(Keep(parts, q)) == Heard(parts)
  {
    if parts != [] {
      HeardSplits(parts[1..], p, q);
      HeardKeep(parts, p);
      HeardKeep(parts, q);
      HeardCons(parts[0], parts[1..]);
      assert [parts[0]] + parts[1..] == parts;
      OnOneSide(p(parts[0]), multiset{Strip(parts[0])}, Heard(Keep(parts[1..], p)), Heard(Keep(parts[1..], q)));
    }
  }

  lemma OnOneSide(left: bool, x: multiset<string>, a: multiset<string>, b: multiset<string>)
    ensures ((if left then x else multiset{}) + a) + ((if !left then x else multiset{}) + b) == x + (a + b)
  {
  }

  lemma HeardKeep(parts: seq<string>, p: string -> bool)
    requires parts != []
    ensures Heard(Keep(parts, p))
            == (if p(parts[0]) then multiset{Strip(parts[0])} else multiset{}) + Heard(Keep(parts[1..], p))
  {
    HeardCons(parts[0], Keep(parts[1..], p));
  }

  lemma HeardCons(head: string, rest: seq<string>)
    ensures Heard([head] + rest) == multiset{Strip(head)} + Heard(rest)
  {
    assert Stripped([head] + rest) == [Strip(head)] + Stripped(rest);
  }

  // What is heard of a selection is the same before and after it is joined into a text.
  lemma HeardOfJoin(text: string, p: string -> bool)
    ensures Heard(SentencesOf(Join(Keep(SentencesOf(text), p)))) == Heard(Keep(SentencesOf(text), p))
  {
    var kept := Keep(SentencesOf(text), p);
    Rejoin(text, p);
    assert Stripped(Stripped(kept)) == Stripped(kept) by {
      forall i | 0 <= i < |kept| ensures Stripped(Stripped(kept))[i] == Stripped(kept)[i] {
        StripTwice(kept[i]);
      }
    }
  }

  lemma SaidOne(b: Block)
    ensures Said([b]) == Heard(SentencesOf(b.text))
  {
    assert [b][..0] == [];
  }

  lemma SplitConserves(v: Vocabulary, b: Block, isClaim: bool)
    ensures Said(RecordSplit(v, b, isClaim)) == Heard(SentencesOf(b.text))
  {
    var out := RecordSplit(v, b, isClaim);
    if |out| == 2 {
      var other, rec := OtherSentence(v, b.kind), RecordSentence(v, b.kind);
      assert out == [out[0]] + [out[1]];
      SaidConcat([out[0]], [out[1]]);
      SaidOne(out[0]);
      SaidOne(out[1]);
      HeardOfJoin(b.text, other);
      HeardOfJoin(b.text, rec);
      HeardSplits(SentencesOf(b.text), other, rec);
    } else {
      assert out == [out[0]] && out[0].text == b.text;
      SaidOne(out[0]);
    }
  }

  lemma EditedConserves(v: Vocabulary, w: Write, b: Block, isClaim: bool)
    requires !Replaced(v, b)
    ensures match Edited(v, w, b, isClaim)
            case None => Keep(SentencesOf(b.text), Staying(v, w)) == []
            case Some(item) => Heard(SentencesOf(item.text)) == Heard(Keep(SentencesOf(b.text), Staying(v, w)))
  {
    var parts := SentencesOf(b.text);
    var kept := Keep(parts, Staying(v, w));
    if Keep(parts, Leaving(v, w)) == [] {
      HeardSplits(parts, Staying(v, w), Leaving(v, w));
      assert Heard([]) == multiset{};
    } else if Join(kept) == "" {
      Rejoin(b.text, Staying(v, w));
      SentencesArePieces("");
      assert |Stripped(kept)| == 0;
    } else {
      HeardOfJoin(b.text, Staying(v, w));
    }
  }

  // Conservation: beside the statement, the answer says every surviving sentence exactly as often
  // as it was said before, and nothing more.
  lemma {:induction false} SentencesConserved(v: Vocabulary, w: Write, blocks: seq<Block>, claims: set<nat>)
    ensures Said(TreatAll(Treating(v, Some(w), claims), blocks)) == Surviving(v, w, blocks)
  {
    if blocks != [] {
      var n := |blocks| - 1;
      var f := Treating(v, Some(w), claims);
      SentencesConserved(v, w, blocks[..n], claims);
      SaidConcat(TreatAll(f, blocks[..n]), f(blocks[n], n));
      TreatedConserves(v, w, blocks[n], n in claims);
    }
  }

  lemma TreatedConserves(v: Vocabulary, w: Write, b: Block, isClaim: bool)
    ensures Said(Treated(v, Some(w), b, isClaim))
            == if Replaced(v, b) then multiset{} else Heard(Keep(SentencesOf(b.text), Staying(v, w)))
  {
    if !Replaced(v, b) {
      EditedConserves(v, w, b, isClaim);
      if Edited(v, w, b, isClaim).Some? {
        SplitConserves(v, Edited(v, w, b, isClaim).value, isClaim);
      }
    }
  }
}
