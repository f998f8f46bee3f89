// Answer blocks and next steps rewritten to agree with the turn's compliance verdicts
// (src/hrmosaic/agent/compliance.py).
module Compliance {
  import opened Blocks
  import opened Lists
  import opened ComplianceRows
  import opened Sentences
  import opened StepWords
  import opened Texts

  datatype Stance = Opposes | Agrees | Unsure | NotAbout

  // What the turn's verdicts give the step. The vocabulary tests are arbitrary: `stance` is
  // relation(), `lowCeiling` finds a ceiling below the stated amount, `lowerAuthority` the lower
  // authority; `routing` is None unless a threshold is breached.
  datatype Engine = Engine(
    rows: seq<Row>, steps: seq<string>, stop: set<string>,
    stance: (string, Row) -> Stance,
    says: Row -> string,
    unverified: Row -> string,
    lowCeiling: string -> bool, covering: Option<string>,
    lowerAuthority: string -> bool, routing: Option<string>)

  // ----- correct -----

  function OpposedBy(e: Engine, s: string, rows: seq<Row>): seq<Row> {
    if rows == [] then []
    else (if e.stance(s, rows[0]).Opposes? then [rows[0]] else []) + OpposedBy(e, s, rows[1..])
  }

  // The one row the sentence opposes; None when it opposes none, or more than one.
  function Opposed(e: Engine, s: string): (row: Option<Row>)
    ensures row.Some? ==> row.value in e.rows
  {
    var rows := OpposedBy(e, s, e.rows);
    OpposedByRows(e, s, e.rows);
    if |rows| == 1 then Some(rows[0]) else None
  }

  lemma {:induction false} OpposedByRows(e: Engine, s: string, rows: seq<Row>)
    ensures forall r :: r in OpposedBy(e, s, rows) <==> r in rows && e.stance(s, r).Opposes?
  {
    if rows != [] {
      OpposedByRows(e, s, rows[1..]);
    }
  }

  function UnsureBy(e: Engine, s: string, rows: seq<Row>): (unsure: seq<Row>)
    ensures forall r :: r in unsure <==> r in rows && e.stance(s, r).Unsure?
  {
    if rows == [] then []
    else (if e.stance(s, rows[0]).Unsure? then [rows[0]] else []) + UnsureBy(e, s, rows[1..])
  }

  function Ids(rows: seq<Row>): (ids: seq<string>)
    ensures forall id :: id in ids <==> exists r :: r in rows && r.id == id
  {
    if rows == [] then [] else [rows[0].id] + Ids(rows[1..])
  }

  // The rows a sentence leaves unverified: those it opposes when it opposes several, and those it is
  // unsure of when it opposes none.
  function LeftOpen(e: Engine): string -> seq<string> {
    s =>
      var opposed := OpposedBy(e, s, e.rows);
      if |opposed| == 1 then [] else Ids(if opposed != [] then opposed else UnsureBy(e, s, e.rows))
  }

  function Unverified(e: Engine, text: string): seq<string> { Flat(LeftOpen(e), SentencesOf(text)) }

  type RowReading = string -> Option<Row>

  function Repaired(opposed: RowReading, says: Row -> string, parts: seq<string>): (r: seq<string>)
    ensures |r| == |parts|
    ensures forall i :: 0 <= i < |parts| ==>
                          r[i] == (if opposed(parts[i]).Some? then says(opposed(parts[i]).value) else parts[i])
  {
    if parts == [] then []
    else
      var said := if opposed(parts[0]).Some? then says(opposed(parts[0]).value) else parts[0];
      [said] + Repaired(opposed, says, parts[1..])
  }

  function RestatedIds(opposed: RowReading, parts: seq<string>): (ids: seq<string>)
    ensures ids == [] <==> forall s :: s in parts ==> opposed(s).None?
  {
    if parts == [] then []
    else (if opposed(parts[0]).Some? then [opposed(parts[0]).value.id] else []) + RestatedIds(opposed, parts[1..])
  }

  // The repaired text and the rows restated.
  function CorrectedBy(opposed: RowReading, says: Row -> string, text: string): (string, seq<string>) {
    var parts := SentencesOf(text);
    var ids := RestatedIds(opposed, parts);
    if ids == [] then (text, []) else (Join(Repaired(opposed, says, parts)), ids)
  }

  function OpposedIn(e: Engine): RowReading { s => Opposed(e, s) }

  function CorrectedText(e: Engine, text: string): (string, seq<string>) { CorrectedBy(OpposedIn(e), e.says, text) }

  method Correct(e: Engine, text: string)
    returns (repaired: string, restated: seq<string>, unverified: seq<string>)
    ensures (repaired, restated) == CorrectedText(e, text) && unverified == Unverified(e, text)
  {
    NoRowsNothing(e, SentencesOf(text));
    if e.rows == [] {
      return text, [], [];
    }
    repaired, restated, unverified := CorrectSentences(OpposedIn(e), e.says, LeftOpen(e), text);
  }

  lemma {:induction false} NoRowsNothing(e: Engine, parts: seq<string>)
    ensures e.rows == [] ==> RestatedIds(OpposedIn(e), parts) == [] && Flat(LeftOpen(e), parts) == []
    ensures forall s :: OpposedIn(e)(s).Some? ==> LeftOpen(e)(s) == []
  {
    if parts != [] {
      NoRowsNothing(e, parts[1..]);
    }
  }

  method CorrectSentences(opposed: RowReading, says: Row -> string, open: string -> seq<string>, text: string)
    returns (text': string, restated: seq<string>, unverified: seq<string>)
    requires forall s :: opposed(s).Some? ==> open(s) == []
    ensures (text', restated) == CorrectedBy(opposed, says, text) && unverified == Flat(open, SentencesOf(text))
  {
    var parts := SentencesOf(text);
    var repaired;
    repaired, restated, unverified := RepairSentences(opposed, says, open, parts);
    text' := if restated == [] then text else Join(repaired);
  }

  // What the first i sentences leave is what the whole text comes to without the rest of it.
  predicate Progress(opposed: RowReading, says: Row -> string, open: string -> seq<string>, parts: seq<string>, i: nat,
                     repaired: seq<string>, restated: seq<string>, unverified: seq<string>)
  {
    && i <= |parts|
    && repaired + Repaired(opposed, says, parts[i..]) == Repaired(opposed, says, parts)
    && restated + RestatedIds(opposed, parts[i..]) == RestatedIds(opposed, parts)
    && unverified + Flat(open, parts[i..]) == Flat(open, parts)
  }

  lemma ProgressStep(opposed: RowReading, says: Row -> string, open: string -> seq<string>, parts: seq<string>, i: nat,
                     repaired: seq<string>, restated: seq<string>, unverified: seq<string>)
    requires i < |parts| && (opposed(parts[i]).Some? ==> open(parts[i]) == [])
    requires Progress(opposed, says, open, parts, i, repaired, restated, unverified)
    ensures var row := opposed(parts[i]);
            if row.Some? then
              Progress(opposed, says, open, parts, i + 1, repaired + [says(row.value)], restated + [row.value.id],
                       unverified)
            else
              Progress(opposed, says, open, parts, i + 1, repaired + [parts[i]], restated, unverified + open(parts[i]))
  {
    RepairStep(opposed, says, parts, i, repaired, restated);
    FlatStep(open, parts, i, unverified);
  }

  method RepairSentences(opposed: RowReading, says: Row -> string, open: string -> seq<string>, parts: seq<string>)
    returns (repaired: seq<string>, restated: seq<string>, unverified: seq<string>)
    requires forall s :: opposed(s).Some? ==> open(s) == []
    ensures repaired == Repaired(opposed, says, parts) && restated == RestatedIds(opposed, parts)
    ensures unverified == Flat(open, parts)
  {
    repaired, restated, unverified := [], [], [];
    assert parts[0..] == parts;
    for i := 0 to |parts|
      invariant Progress(opposed, says, open, parts, i, repaired, restated, unverified)
    {
      ProgressStep(opposed, says, open, parts, i, repaired, restated, unverified);
      var row := opposed(parts[i]);
      if row.Some? {
        repaired, restated := repaired + [says(row.value)], restated + [row.value.id];
        continue;
      }
      unverified := unverified + open(parts[i]);
      repaired := repaired + [parts[i]];
    }
  }

  // A row is left unverified exactly when a sentence that was left standing opposes it beside another
  // row, or opposes no row and is unsure of this one.
  lemma UnverifiedIsExact(e: Engine, text: string, id: string)
    ensures id in Unverified(e, text)
            <==> exists s, row ::
                   && s in SentencesOf(text) && row in e.rows && row.id == id && Opposed(e, s).None?
                   && (e.stance(s, row).Opposes? || (e.stance(s, row).Unsure? && OpposesNone(e, s)))
  {
    FlatMembers(LeftOpen(e), SentencesOf(text), id);
    forall s
      ensures id in LeftOpen(e)(s)
              <==> exists row ::
                     && row in e.rows && row.id == id && Opposed(e, s).None?
                     && (e.stance(s, row).Opposes? || (e.stance(s, row).Unsure? && OpposesNone(e, s)))
    {
      LeftOpenIsExact(e, s, id);
    }
  }

  predicate OpposesNone(e: Engine, s: string) { forall row :: row in e.rows ==> !e.stance(s, row).Opposes? }

  lemma LeftOpenIsExact(e: Engine, s: string, id: string)
    ensures id in LeftOpen(e)(s)
            <==> exists row ::
                   && row in e.rows && row.id == id && Opposed(e, s).None?
                   && (e.stance(s, row).Opposes? || (e.stance(s, row).Unsure? && OpposesNone(e, s)))
  {
    var opposed := OpposedBy(e, s, e.rows);
    OpposedByRows(e, s, e.rows);
    assert opposed != [] ==> opposed[0] in opposed;
    assert OpposesNone(e, s) <==> opposed == [];
  }

  lemma RepairStep(opposed: RowReading, says: Row -> string, parts: seq<string>, i: nat, repaired: seq<string>,
                   restated: seq<string>)
    requires i < |parts|
    ensures var row, rest := opposed(parts[i]), parts[i + 1..];
            && repaired + Repaired(opposed, says, parts[i..])
               == repaired + [if row.Some? then says(row.value) else parts[i]] + Repaired(opposed, says, rest)
            && restated + RestatedIds(opposed, parts[i..])
               == (if row.Some? then restated + [row.value.id] else restated) + RestatedIds(opposed, rest)
  {
    var here, row := parts[i..], opposed(parts[i]);
    assert here[0] == parts[i] && here[1..] == parts[i + 1..];
    Associative(repaired, [if row.Some? then says(row.value) else parts[i]], Repaired(opposed, says, parts[i + 1..]));
    Associative(restated, if row.Some? then [row.value.id] else [], RestatedIds(opposed, parts[i + 1..]));
    assert restated + [] == restated;
  }

  // ----- a second reading of a corrected text -----

  ghost predicate ReadsStripped(opposed: RowReading) { forall s {:trigger Strip(s)} :: opposed(s) == opposed(Strip(s)) }

  lemma RepairedPieces(opposed: RowReading, says: Row -> string, parts: seq<string>)
    requires Pieces(parts)
    requires forall s :: s in parts && opposed(s).Some? ==> OneSentence(says(opposed(s).value))
    ensures Pieces(Repaired(opposed, says, parts))
  {
    var r := Repaired(opposed, says, parts);
    forall i | 0 <= i < |parts|
      ensures Strip(r[i]) != "" && Unbroken(r[i])
      ensures (i > 0 ==> StartsSentence(r[i])) && (i < |parts| - 1 ==> EndsSentence(r[i]))
    {
      assert parts[i] in parts;
    }
  }

  lemma SecondReading(opposed: RowReading, says: Row -> string, parts: seq<string>, again: seq<string>)
    requires ReadsStripped(opposed) && again == Stripped(Repaired(opposed, says, parts))
    requires forall s :: s in parts && opposed(s).Some? ==> OneSentence(says(opposed(s).value))
    ensures RestatedIds(opposed, again) == []
            <==> forall s :: s in parts && opposed(s).Some? ==> opposed(says(opposed(s).value)).None?
  {
    var r := Repaired(opposed, says, parts);
    forall i | 0 <= i < |parts|
      ensures opposed(again[i]) == if opposed(parts[i]).Some? then opposed(says(opposed(parts[i]).value)) else None
    {
      assert parts[i] in parts && again[i] == Strip(r[i]);
      assert opposed(r[i]) == opposed(Strip(r[i]));
    }
    if RestatedIds(opposed, again) == [] {
      forall s | s in parts && opposed(s).Some? ensures opposed(says(opposed(s).value)).None? {
        var i :| 0 <= i < |parts| && parts[i] == s;
        assert again[i] in again;
      }
    }
  }

  // A corrected text is left alone by a second pass exactly when no sentence the engine put into it
  // opposes some single row itself.
  lemma CorrectSettles(e: Engine, text: string)
    requires ReadsStripped(OpposedIn(e)) && forall row :: row in e.rows ==> OneSentence(e.says(row))
    ensures var once := CorrectedText(e, text).0;
            CorrectedText(e, once) == (once, [])
            <==> forall s :: s in SentencesOf(text) && Opposed(e, s).Some? ==>
                               Opposed(e, e.says(Opposed(e, s).value)).None?
  {
    var opposed, parts := OpposedIn(e), SentencesOf(text);
    forall s ensures opposed(s) == Opposed(e, s) {
    }
    if RestatedIds(opposed, parts) != [] {
      SettlesBy(opposed, e.says, text);
    }
  }

  lemma SettlesBy(opposed: RowReading, says: Row -> string, text: string)
    requires ReadsStripped(opposed) && RestatedIds(opposed, SentencesOf(text)) != []
    requires forall s :: s in SentencesOf(text) && opposed(s).Some? ==> OneSentence(says(opposed(s).value))
    ensures var once := CorrectedBy(opposed, says, text).0;
            CorrectedBy(opposed, says, once) == (once, [])
            <==> forall s :: s in SentencesOf(text) && opposed(s).Some? ==> opposed(says(opposed(s).value)).None?
  {
    var parts := SentencesOf(text);
    SentencesArePieces(text);
    RepairedPieces(opposed, says, parts);
    RejoinPieces(Repaired(opposed, says, parts));
    SecondReading(opposed, says, parts, Stripped(Repaired(opposed, says, parts)));
  }

  // Two rows whose own sentences quarrel: what the first row has put into the text opposes the second
  // one alone, so a second pass puts the second row's sentence in its place.
  lemma RowsQuarrel(e: Engine, text: string, a: Row, b: Row)
    requires OneSentence(text) && OneSentence(e.says(a)) && OneSentence(e.says(b))
    requires Opposed(e, text) == Some(a) && Opposed(e, e.says(a)) == Some(b)
    ensures var once := CorrectedText(e, text).0; once == e.says(a) && CorrectedText(e, once).0 == e.says(b)
  {
    SentencePass(e, text, a);
    SentencePass(e, e.says(a), b);
  }

  const DENIED := "You do not meet" + " the notice rule"
  const STANDING :=
    "Your request meets" + " this requirement:" + " Notice may be waived" + " where the balance" + " allows"
  const SHORTFALL := "Your PTO balance" + " is 2 days; your" + " request is for" + " 3 days"

  lemma QuarrelWords()
    ensures NoTerminal(DENIED) && NoTerminal(STANDING) && NoTerminal(SHORTFALL)
  {
    NoTerminalAppend("You do not meet", " the notice rule");
    NoTerminalAppend("Your request meets", " this requirement:");
    NoTerminalAppend("Your request meets" + " this requirement:", " Notice may be waived");
    NoTerminalAppend("Your request meets" + " this requirement:" + " Notice may be waived", " where the balance");
    NoTerminalAppend("Your request meets" + " this requirement:" + " Notice may be waived" + " where the balance",
                     " allows");
    NoTerminalAppend("Your PTO balance", " is 2 days; your");
    NoTerminalAppend("Your PTO balance" + " is 2 days; your", " request is for");
    NoTerminalAppend("Your PTO balance" + " is 2 days; your" + " request is for", " 3 days");
  }

  // A standing rule about notice names the balance in its text. Said as met, in place of a sentence
  // that denied it, it asserts something of the balance, which is the subject of an unmet row.
  lemma SecondPassCanChange(e: Engine, rule: Row, balance: Row)
    requires e.rows == [rule, balance] && rule.status.Met? && balance.status.Unmet?
    requires e.says(rule) == STANDING + "." && e.says(balance) == SHORTFALL + "."
    requires e.stance(DENIED + ".", rule).Opposes? && e.stance(DENIED + ".", balance).NotAbout?
    requires e.stance(STANDING + ".", rule).Agrees? && e.stance(STANDING + ".", balance).Opposes?
    ensures var once := CorrectedText(e, DENIED + ".").0;
            once == STANDING + "." && CorrectedText(e, once).0 == SHORTFALL + "."
  {
    QuarrelWords();
    PlainSentence(DENIED);
    PlainSentence(STANDING);
    PlainSentence(SHORTFALL);
    OpposedOfTwo(e, DENIED + ".", rule, balance);
    OpposedOfTwo(e, STANDING + ".", rule, balance);
    RowsQuarrel(e, DENIED + ".", rule, balance);
  }

  lemma OpposedOfTwo(e: Engine, s: string, a: Row, b: Row)
    requires e.rows == [a, b]
    ensures OpposedBy(e, s, e.rows)
            == (if e.stance(s, a).Opposes? then [a] else []) + if e.stance(s, b).Opposes? then [b] else []
  {
    assert [a, b][1..] == [b] && [b][1..] == [];
    assert OpposedBy(e, s, [b]) == if e.stance(s, b).Opposes? then [b] else [];
  }

  lemma SentencePass(e: Engine, text: string, row: Row)
    requires OneSentence(text) && OneSentence(e.says(row)) && Opposed(e, text) == Some(row)
    ensures CorrectedText(e, text) == (e.says(row), [row.id])
  {
    ReadAsOne(text);
    assert [text][1..] == [];
    assert Repaired(OpposedIn(e), e.says, [text]) == [e.says(row)];
    assert RestatedIds(OpposedIn(e), [text]) == [row.id];
  }

  // Sentence by sentence: one that opposes a single row gives way to that row's own result, in its
  // place, and every other one stands.
  lemma CorrectedInPlace(e: Engine, text: string)
    requires forall row :: row in e.rows ==> OneSentence(e.says(row))
    ensures var before, after := SentencesOf(text), SentencesOf(CorrectedText(e, text).0);
            && |after| == |before|
            && forall i :: 0 <= i < |before| ==>
                 var said := Opposed(e, before[i]);
                 Strip(after[i]) == Strip(if said.Some? then e.says(said.value) else before[i])
  {
    var opposed, before := OpposedIn(e), SentencesOf(text);
    forall s ensures opposed(s) == Opposed(e, s) {
    }
    if RestatedIds(opposed, before) != [] {
      var r := Repaired(opposed, e.says, before);
      SentencesArePieces(text);
      RepairedPieces(opposed, e.says, before);
      RejoinPieces(r);
      forall i | 0 <= i < |before| ensures Strip(Stripped(r)[i]) == Strip(r[i]) {
        StripTwice(r[i]);
      }
    }
  }

  // ----- ceilings and authority -----

  // A sentence that quotes a ceiling the amount has outgrown gives way to the tier that applies, or
  // goes where the engine named none; any other stands.
  function CeilingAnswer(low: SentenceTest, covering: Option<string>): string -> seq<string> {
    s => if !low(s) then [s] else if covering.Some? then [covering.value] else []
  }

  // correct_ceilings, and whether anything was cut
  function Ceilinged(e: Engine, text: string): (string, bool) {
    var parts := SentencesOf(text);
    if exists s :: s in parts && e.lowCeiling(s) then (Join(Flat(CeilingAnswer(e.lowCeiling, e.covering), parts)), true)
    else (text, false)
  }

  // Of the sentences that name the lower authority, the first becomes the engine's routing.
  function Routed(lower: SentenceTest, routing: string, parts: seq<string>, first: bool): seq<string> {
    if parts == [] then []
    else if !lower(parts[0]) then [parts[0]] + Routed(lower, routing, parts[1..], first)
    else (if first then [routing] else []) + Routed(lower, routing, parts[1..], false)
  }

  // correct_authority, and whether anything was moved
  function Rerouted(e: Engine, text: string): (string, bool) {
    var parts := SentencesOf(text);
    if e.routing.Some? && exists s :: s in parts && e.lowerAuthority(s) then
      (Join(Routed(e.lowerAuthority, e.routing.value, parts, true)), true)
    else (text, false)
  }

  method CorrectCeilings(e: Engine, text: string) returns (within: string, cut: bool)
    ensures (within, cut) == Ceilinged(e, text)
  {
    var kept, changed := CeilingSentences(e.lowCeiling, e.covering, SentencesOf(text));
    cut := changed > 0;
    within := if cut then Join(kept) else text;
  }

  method CeilingSentences(low: SentenceTest, covering: Option<string>, parts: seq<string>)
    returns (kept: seq<string>, changed: nat)
    ensures kept == Flat(CeilingAnswer(low, covering), parts)
    ensures changed > 0 <==> exists s :: s in parts && low(s)
  {
    kept, changed := [], 0;
    for i := 0 to |parts|
      invariant kept + Flat(CeilingAnswer(low, covering), parts[i..]) == Flat(CeilingAnswer(low, covering), parts)
      invariant changed > 0 <==> exists k :: 0 <= k < i && low(parts[k])
    {
      FlatStep(CeilingAnswer(low, covering), parts, i, kept);
      if !low(parts[i]) {
        kept := kept + [parts[i]];
        continue;
      }
      changed := changed + 1;
      if covering.Some? {
        kept := kept + [covering.value];
      }
    }
  }

  method CorrectAuthority(e: Engine, text: string) returns (routed: string, moved: bool)
    ensures (routed, moved) == Rerouted(e, text)
  {
    if e.routing.None? {
      return text, false;
    }
    var kept, changed := AuthoritySentences(e.lowerAuthority, e.routing.value, SentencesOf(text));
    moved := changed > 0;
    routed := if moved then Join(kept) else text;
  }

  predicate RoutedSoFar(lower: SentenceTest, routing: string, parts: seq<string>, i: nat, kept: seq<string>,
                        changed: nat)
  {
    && i <= |parts|
    && kept + Routed(lower, routing, parts[i..], changed == 0) == Routed(lower, routing, parts, true)
    && (changed > 0 <==> exists k :: 0 <= k < i && lower(parts[k]))
  }

  lemma RoutedFurther(lower: SentenceTest, routing: string, parts: seq<string>, i: nat, kept: seq<string>, changed: nat)
    requires i < |parts| && RoutedSoFar(lower, routing, parts, i, kept, changed)
    ensures if !lower(parts[i]) then RoutedSoFar(lower, routing, parts, i + 1, kept + [parts[i]], changed)
            else if changed > 0 then RoutedSoFar(lower, routing, parts, i + 1, kept, changed + 1)
            else RoutedSoFar(lower, routing, parts, i + 1, kept + [routing], changed + 1)
  {
    RoutedStep(lower, routing, parts, i, kept, changed == 0);
    assert kept + [] == kept;
  }

  method AuthoritySentences(lower: SentenceTest, routing: string, parts: seq<string>)
    returns (kept: seq<string>, changed: nat)
    ensures kept == Routed(lower, routing, parts, true)
    ensures changed > 0 <==> exists s :: s in parts && lower(s)
  {
    kept, changed := [], 0;
    assert parts[0..] == parts;
    for i := 0 to |parts|
      invariant RoutedSoFar(lower, routing, parts, i, kept, changed)
    {
      RoutedFurther(lower, routing, parts, i, kept, changed);
      if !lower(parts[i]) {
        kept := kept + [parts[i]];
        continue;
      }
      changed := changed + 1;
      if changed == 1 {
        kept := kept + [routing];
      }
    }
  }

  lemma RoutedStep(lower: SentenceTest, routing: string, parts: seq<string>, i: nat, kept: seq<string>, first: bool)
    requires i < |parts|
    ensures var low, put := lower(parts[i]), if !lower(parts[i]) then [parts[i]] else if first then [routing] else [];
            kept + Routed(lower, routing, parts[i..], first)
            == kept + put + Routed(lower, routing, parts[i + 1..], first && !low)
  {
    var here := parts[i..];
    assert here[0] == parts[i] && here[1..] == parts[i + 1..];
    var put := if !lower(parts[i]) then [parts[i]] else if first then [routing] else [];
    Associative(kept, put, Routed(lower, routing, parts[i + 1..], first && !lower(parts[i])));
  }

  lemma {:induction false} CeilingPieces(low: SentenceTest, covering: Option<string>, parts: seq<string>)
    requires Pieces(parts) && (covering.Some? ==> OneSentence(covering.value))
    ensures var kept := Flat(CeilingAnswer(low, covering), parts);
            && Pieces(kept)
            && (parts != [] && StartsSentence(parts[0]) && kept != [] ==> StartsSentence(kept[0]))
  {
    if parts != [] {
      var rest := parts[1..];
      assert forall i :: 0 <= i < |rest| ==> rest[i] == parts[i + 1];
      CeilingPieces(low, covering, rest);
      var after := Flat(CeilingAnswer(low, covering), rest);
      if !low(parts[0]) {
        FrontPiece(parts[0], after);
      } else if covering.Some? {
        FrontPiece(covering.value, after);
      } else {
        assert [] + after == after;
      }
    }
  }

  lemma {:induction false} RoutedPieces(lower: SentenceTest, routing: string, parts: seq<string>, first: bool)
    requires Pieces(parts) && OneSentence(routing)
    ensures var kept := Routed(lower, routing, parts, first);
            && Pieces(kept)
            && (parts != [] && StartsSentence(parts[0]) && kept != [] ==> StartsSentence(kept[0]))
    decreases |parts|
  {
    if parts != [] {
      var rest := parts[1..];
      assert forall i :: 0 <= i < |rest| ==> rest[i] == parts[i + 1];
      RoutedPieces(lower, routing, rest, first && !lower(parts[0]));
      var after := Routed(lower, routing, rest, first && !lower(parts[0]));
      if !lower(parts[0]) {
        FrontPiece(parts[0], after);
      } else if first {
        FrontPiece(routing, after);
      } else {
        assert [] + after == after;
      }
    }
  }

  // Sentence by sentence and in order: each sentence of the text that quotes an outgrown ceiling is
  // answered by the tier that applies, or gone, and every other one stands.
  lemma CeilingsGiveWay(e: Engine, text: string)
    requires e.covering.Some? ==> OneSentence(e.covering.value)
    ensures var before, after := SentencesOf(text), SentencesOf(Ceilinged(e, text).0);
            Stripped(after) == Stripped(Flat(CeilingAnswer(e.lowCeiling, e.covering), before))
  {
    var low, before := e.lowCeiling, SentencesOf(text);
    if exists s :: s in before && low(s) {
      SentencesArePieces(text);
      CeilingPieces(low, e.covering, before);
      RejoinPieces(Flat(CeilingAnswer(low, e.covering), before));
      StrippedTwice(Flat(CeilingAnswer(low, e.covering), before));
    } else {
      NothingAnswered(low, e.covering, before);
    }
  }

  lemma {:induction false} NothingAnswered(low: SentenceTest, covering: Option<string>, parts: seq<string>)
    requires forall s :: s in parts ==> !low(s)
    ensures Flat(CeilingAnswer(low, covering), parts) == parts
  {
    if parts != [] {
      assert parts[0] in parts;
      NothingAnswered(low, covering, parts[1..]);
      assert parts == [parts[0]] + parts[1..];
    }
  }

  // Sentence by sentence and in order: up to the first sentence that names the lower authority the
  // text stands, that one gives way to the routing, and behind it the others of its kind are gone.
  lemma AuthorityGivesWay(e: Engine, text: string)
    requires e.routing.Some? && OneSentence(e.routing.value)
    ensures var before, after := SentencesOf(text), SentencesOf(Rerouted(e, text).0);
            var k := FirstWhere(e.lowerAuthority, before);
            if k == |before| then Rerouted(e, text).0 == text
            else Stripped(after) == Stripped(AtFirst(e.routing.value, Not(e.lowerAuthority), before, k))
  {
    var lower, routing, before := e.lowerAuthority, e.routing.value, SentencesOf(text);
    var k := FirstWhere(lower, before);
    if k < |before| {
      assert before[k] in before;
      RoutedAtFirst(lower, routing, before);
      RoutedSentences(lower, routing, text);
    }
  }

  lemma RoutedSentences(lower: SentenceTest, routing: string, text: string)
    requires OneSentence(routing)
    ensures var routed := Routed(lower, routing, SentencesOf(text), true);
            Stripped(SentencesOf(Join(routed))) == Stripped(routed)
  {
    var before := SentencesOf(text);
    SentencesArePieces(text);
    RoutedPieces(lower, routing, before, true);
    RejoinPieces(Routed(lower, routing, before, true));
    StrippedTwice(Routed(lower, routing, before, true));
  }

  function Not(p: SentenceTest): SentenceTest { s => !p(s) }

  lemma {:induction false} RoutedAtFirst(lower: SentenceTest, routing: string, parts: seq<string>)
    ensures var k := FirstWhere(lower, parts);
            Routed(lower, routing, parts, true)
            == if k == |parts| then parts else AtFirst(routing, Not(lower), parts, k)
  {
    if parts != [] {
      var rest := parts[1..];
      if lower(parts[0]) {
        RoutedNoMore(lower, routing, rest);
        assert parts[..0] + ([routing] + Keep(rest, Not(lower))) == [routing] + Keep(rest, Not(lower));
      } else {
        RoutedAtFirst(lower, routing, rest);
        AtFirstBehind(parts, FirstWhere(lower, rest), routing, Not(lower));
      }
    }
  }

  lemma {:induction false} RoutedNoMore(lower: SentenceTest, routing: string, parts: seq<string>)
    ensures Routed(lower, routing, parts, false) == Keep(parts, Not(lower))
  {
    if parts != [] {
      RoutedNoMore(lower, routing, parts[1..]);
    }
  }

  // What is served quotes no outgrown ceiling, if the tier that applies does not.
  lemma NoOutgrownCeilingIsLeft(e: Engine, text: string, s: string)
    requires e.covering.Some? ==> OneSentence(e.covering.value) && !e.lowCeiling(e.covering.value)
    requires forall t {:trigger Strip(t)} :: e.lowCeiling(t) == e.lowCeiling(Strip(t))
    requires s in SentencesOf(Ceilinged(e, text).0)
    ensures !e.lowCeiling(s)
  {
    var before, after := SentencesOf(text), SentencesOf(Ceilinged(e, text).0);
    var answered := Flat(CeilingAnswer(e.lowCeiling, e.covering), before);
    CeilingsGiveWay(e, text);
    NoneAnsweredLow(e.lowCeiling, e.covering, before);
    var i :| 0 <= i < |after| && after[i] == s;
    assert Stripped(after)[i] == Stripped(answered)[i] == Strip(answered[i]) && answered[i] in answered;
    assert e.lowCeiling(s) == e.lowCeiling(Strip(s)) && e.lowCeiling(answered[i]) == e.lowCeiling(Strip(answered[i]));
  }

  lemma {:induction false} NoneAnsweredLow(low: SentenceTest, covering: Option<string>, parts: seq<string>)
    requires covering.Some? ==> !low(covering.value)
    ensures forall s :: s in Flat(CeilingAnswer(low, covering), parts) ==> !low(s)
  {
    if parts != [] {
      NoneAnsweredLow(low, covering, parts[1..]);
    }
  }

  // ----- retype -----

  type Mandate = map<string, Option<Row>>

  function MandateOf(place: string -> Option<Row>, steps: seq<string>): Mandate
    decreases |steps|
  {
    if steps == [] then map[]
    else
      var n := |steps| - 1;
      MandateOf(place, steps[..n])[Normalised(steps[n]) := place(steps[n])]
  }

  function PlaceOf(e: Engine): string -> Option<Row> { step => RowFor(e.stop, e.rows, step) }

  // Each engine step under its key, with the row it restates.
  function Mandated(e: Engine): Mandate { MandateOf(PlaceOf(e), e.steps) }

  function Retyped(mandated: Mandate, b: Block, restated: bool): Block {
    if b.kind != Recommendation then b
    else
      var key := Normalised(b.text);
      if key in mandated then
        if mandated[key].Some? then MintedClaim(b, mandated[key].value.chunk) else b.(kind := Record)
      else if restated then b.(kind := Record)
      else b
  }

  function MintedClaim(b: Block, chunk: string): Block {
    b.(kind := PolicyFact, citations := if chunk != "" && b.citations == [] then [chunk] else b.citations)
  }

  // Which step a key stands for does not matter: they all restate the same row.
  lemma {:induction false} MandateByStep(place: string -> Option<Row>, steps: seq<string>, key: string)
    requires forall a, b :: Normalised(a) == Normalised(b) ==> place(a) == place(b)
    ensures key in MandateOf(place, steps) <==> exists step :: step in steps && Normalised(step) == key
    ensures forall step :: step in steps && Normalised(step) == key ==> MandateOf(place, steps)[key] == place(step)
    decreases |steps|
  {
    if steps != [] {
      var n := |steps| - 1;
      var init := steps[..n];
      MandateByStep(place, init, key);
      assert forall step :: step in steps <==> step in init || step == steps[n];
    }
  }

  lemma PlacedByKey(e: Engine)
    ensures forall a, b :: Normalised(a) == Normalised(b) ==> PlaceOf(e)(a) == PlaceOf(e)(b)
  {
    forall a, b | Normalised(a) == Normalised(b) ensures PlaceOf(e)(a) == PlaceOf(e)(b) {
      KeyDecidesWords(e.stop, a, b);
    }
  }

  method BuildMandate(e: Engine) returns (mandated: Mandate)
    ensures mandated == Mandated(e)
  {
    mandated := map[];
    for i := 0 to |e.steps|
      invariant mandated == MandateOf(PlaceOf(e), e.steps[..i])
    {
      assert e.steps[..i + 1][..i] == e.steps[..i];
      mandated := mandated[Normalised(e.steps[i]) := RowFor(e.stop, e.rows, e.steps[i])];
    }
    assert e.steps[..|e.steps|] == e.steps;
  }

  // ----- apply -----

  // One block; None where a threshold the request had outgrown was all it said.
  function ServedBlock(e: Engine, mandated: Mandate, b: Block): Option<Block> {
    var (text, ids) := CorrectedText(e, b.text);
    var (within, cut) := Ceilinged(e, text);
    var (routed, moved) := Rerouted(e, within);
    if (cut || moved) && Strip(routed) == "" then None else Some(Retyped(mandated, b.(text := routed), ids != []))
  }

  function TreatEach(treat: Block -> Option<Block>, blocks: seq<Block>): seq<Block> {
    if blocks == [] then []
    else (if treat(blocks[0]).Some? then [treat(blocks[0]).value] else []) + TreatEach(treat, blocks[1..])
  }

  function BlockTexts(blocks: seq<Block>): seq<string> {
    if blocks == [] then [] else [blocks[0].text] + BlockTexts(blocks[1..])
  }

  function Unsaid(said: string, lines: seq<string>): (r: seq<string>)
    ensures forall l :: l in r <==> l in lines && !Contains(said, l)
  {
    if lines == [] then [] else (if !Contains(said, lines[0]) then [lines[0]] else []) + Unsaid(said, lines[1..])
  }

  // The unverified rows the answer does not mention yet, as one block of the reader's record.
  function WithUnverified(lines: seq<string>, body: seq<Block>): seq<Block> {
    var unsaid := Unsaid(Spaced(BlockTexts(body)), lines);
    if unsaid == [] then body else body + [NoteOf(unsaid)]
  }

  // The lines as one block of the reader's record, without a citation.
  function NoteOf(lines: seq<string>): Block { Block(Record, Spaced(lines), [], None, false) }

  function Serving(e: Engine): Block -> Option<Block> { b => ServedBlock(e, Mandated(e), b) }

  function AnswerServed(e: Engine, blocks: seq<Block>): seq<Block> {
    WithUnverified(NotStatedLines(e.unverified, e.rows), TreatEach(Serving(e), blocks))
  }

  // A next step is corrected, but not rerouted; None where an outgrown threshold was all it said.
  function StepOf(e: Engine, step: string): Option<string> {
    var text := CorrectedText(e, step).0;
    var (within, cut) := Ceilinged(e, text);
    if cut && Strip(within) == "" then None else Some(within)
  }

  function TreatedStep(e: Engine): string -> Option<string> { step => StepOf(e, step) }

  function TreatedSteps(treat: string -> Option<string>, steps: seq<string>): seq<string> {
    if steps == [] then []
    else (if treat(steps[0]).Some? then [treat(steps[0]).value] else []) + TreatedSteps(treat, steps[1..])
  }

  method TreatBlock(e: Engine, mandated: Mandate, b: Block) returns (item: Option<Block>)
    ensures item == ServedBlock(e, mandated, b)
  {
    var text, restated, _ := Correct(e, b.text);
    var within, cut := CorrectCeilings(e, text);
    var routed, moved := CorrectAuthority(e, within);
    if (cut || moved) && Strip(routed) == "" {
      return None;
    }
    return Some(Retyped(mandated, b.(text := routed), restated != []));
  }

  method TreatStep(e: Engine, step: string) returns (kept: Option<string>)
    ensures kept == StepOf(e, step)
  {
    var text, _, _ := Correct(e, step);
    var within, cut := CorrectCeilings(e, text);
    kept := if cut && Strip(within) == "" then None else Some(within);
  }

  method TreatBlocks(e: Engine, mandated: Mandate, ghost treat: Block -> Option<Block>, blocks: seq<Block>)
    returns (body: seq<Block>)
    requires forall b :: treat(b) == ServedBlock(e, mandated, b)
    ensures body == TreatEach(treat, blocks)
  {
    body := [];
    for i := 0 to |blocks|
      invariant body + TreatEach(treat, blocks[i..]) == TreatEach(treat, blocks)
    {
      TreatNext(treat, blocks, i, body);
      assert treat(blocks[i]) == ServedBlock(e, mandated, blocks[i]);
      var item := TreatBlock(e, mandated, blocks[i]);
      if item.Some? {
        body := body + [item.value];
      }
    }
  }

  method TreatSteps(e: Engine, ghost treat: string -> Option<string>, steps: seq<string>) returns (kept: seq<string>)
    requires forall s :: treat(s) == StepOf(e, s)
    ensures kept == TreatedSteps(treat, steps)
  {
    kept := [];
    for i := 0 to |steps|
      invariant kept + TreatedSteps(treat, steps[i..]) == TreatedSteps(treat, steps)
    {
      StepNext(treat, steps, i, kept);
      assert treat(steps[i]) == StepOf(e, steps[i]);
      var step := TreatStep(e, steps[i]);
      if step.Some? {
        kept := kept + [step.value];
      }
    }
  }

  method Apply(e: Engine, blocks: seq<Block>, steps: seq<string>) returns (served: seq<Block>, kept: seq<string>)
    ensures served == AnswerServed(e, blocks) && kept == TreatedSteps(TreatedStep(e), steps)
  {
    var mandated := BuildMandate(e);
    served := TreatBlocks(e, mandated, Serving(e), blocks);
    served := WithUnverified(NotStatedLines(e.unverified, e.rows), served);
    kept := TreatSteps(e, TreatedStep(e), steps);
  }

  lemma TreatNext(treat: Block -> Option<Block>, blocks: seq<Block>, i: nat, done: seq<Block>)
    requires i < |blocks|
    ensures var b := treat(blocks[i]);
            done + TreatEach(treat, blocks[i..])
            == (if b.Some? then done + [b.value] else done) + TreatEach(treat, blocks[i + 1..])
  {
    assert blocks[i..][0] == blocks[i] && blocks[i..][1..] == blocks[i + 1..];
  }

  lemma StepNext(treat: string -> Option<string>, steps: seq<string>, i: nat, done: seq<string>)
    requires i < |steps|
    ensures var s := treat(steps[i]);
            done + TreatedSteps(treat, steps[i..])
            == (if s.Some? then done + [s.value] else done) + TreatedSteps(treat, steps[i + 1..])
  {
    assert steps[i..][0] == steps[i] && steps[i..][1..] == steps[i + 1..];
  }

  // ----- a minted policy fact cites its own rule -----

  // The step restates this row and no other.
  ghost predicate Restates(e: Engine, step: string, row: Row) {
    exists i ::
      0 <= i < |e.rows| && e.rows[i] == row && UniquelyBest(ScoreBy(e.stop, ContentWords(e.stop, step)), e.rows, i)
  }

  lemma MandatedRestates(e: Engine, key: string) returns (step: string)
    requires key in Mandated(e) && Mandated(e)[key].Some?
    ensures step in e.steps && Normalised(step) == key
    ensures Restates(e, step, Mandated(e)[key].value) && Mandated(e)[key].value.chunk != ""
  {
    PlacedByKey(e);
    MandateByStep(PlaceOf(e), e.steps, key);
    step :| step in e.steps && Normalised(step) == key;
    SupportsExactly(ScoreBy(e.stop, ContentWords(e.stop, step)), e.rows, Mandated(e)[key].value);
  }

  // What a served block keeps of the block it was made from: only a recommendation changes its kind,
  // a citation is never dropped, and a policy fact made here cites the row its step restates, unless
  // it had citations already.
  ghost predicate OwnRule(e: Engine, b: Block, out: Block) {
    && (b.kind != Recommendation ==> out.kind == b.kind && out.citations == b.citations)
    && (b.kind == Recommendation ==> out.kind in {Recommendation, Record, PolicyFact})
    && (out.kind != PolicyFact ==> out.citations == b.citations)
    && (b.kind == Recommendation && out.kind == PolicyFact ==>
          exists step, row :: MintedFrom(e, b, out, step, row))
  }

  ghost predicate MintedFrom(e: Engine, b: Block, out: Block, step: string, row: Row) {
    && step in e.steps && Normalised(step) == Normalised(out.text) && Restates(e, step, row) && row.chunk != ""
    && out.citations == if b.citations == [] then [row.chunk] else b.citations
  }

  lemma RetypedKinds(mandated: Mandate, b: Block, restated: bool)
    ensures var out, key := Retyped(mandated, b, restated), Normalised(b.text);
            && out.text == b.text
            && (b.kind != Recommendation ==> out == b)
            && (b.kind == Recommendation ==> out.kind in {Recommendation, Record, PolicyFact})
            && (out.kind != PolicyFact ==> out.citations == b.citations)
            && (b.kind == Recommendation && out.kind == PolicyFact ==>
                  && key in mandated && mandated[key].Some?
                  && out == MintedClaim(b, mandated[key].value.chunk))
  {
  }

  lemma RetypedIsOwnRule(e: Engine, mandated: Mandate, b: Block, restated: bool)
    requires mandated == Mandated(e)
    ensures OwnRule(e, b, Retyped(mandated, b, restated))
  {
    var out := Retyped(mandated, b, restated);
    RetypedKinds(mandated, b, restated);
    if b.kind == Recommendation && out.kind == PolicyFact {
      var step := MandatedRestates(e, Normalised(b.text));
      assert MintedFrom(e, b, out, step, mandated[Normalised(b.text)].value);
    }
  }

  // Some step says what the text says, and some such step restates a row.
  ghost predicate Named(e: Engine, text: string) {
    exists step :: step in e.steps && Normalised(step) == Normalised(text)
  }

  ghost predicate Placed(e: Engine, text: string) {
    exists step, row :: step in e.steps && Normalised(step) == Normalised(text) && Restates(e, step, row)
  }

  // What becomes of a recommendation, exactly.
  lemma RetypedExactly(e: Engine, b: Block, restated: bool)
    requires b.kind == Recommendation
    ensures Retyped(Mandated(e), b, restated).kind
            == if Placed(e, b.text) then PolicyFact else if Named(e, b.text) || restated then Record else Recommendation
  {
    var key := Normalised(b.text);
    PlacedByKey(e);
    MandateByStep(PlaceOf(e), e.steps, key);
    if Placed(e, b.text) {
      var step, row :| step in e.steps && Normalised(step) == key && Restates(e, step, row);
      SupportsExactly(ScoreBy(e.stop, ContentWords(e.stop, step)), e.rows, row);
      assert Mandated(e)[key] == PlaceOf(e)(step);
    } else if key in Mandated(e) && Mandated(e)[key].Some? {
      var step := MandatedRestates(e, key);
    }
  }

  lemma TreatedIsOwnRule(e: Engine, b: Block)
    requires Serving(e)(b).Some?
    ensures OwnRule(e, b, Serving(e)(b).value)
  {
    var (text, ids) := CorrectedText(e, b.text);
    var routed := Rerouted(e, Ceilinged(e, text).0).0;
    RetypedIsOwnRule(e, Mandated(e), b.(text := routed), ids != []);
    SameRule(e, b, b.(text := routed), Serving(e)(b).value);
  }

  lemma SameRule(e: Engine, b: Block, c: Block, out: Block)
    requires OwnRule(e, c, out) && b.kind == c.kind && b.citations == c.citations
    ensures OwnRule(e, b, out)
  {
    if b.kind == Recommendation && out.kind == PolicyFact {
      var step, row :| MintedFrom(e, c, out, step, row);
      assert MintedFrom(e, b, out, step, row);
    }
  }

  lemma {:induction false} EachFromOne(e: Engine, treat: Block -> Option<Block>, blocks: seq<Block>, out: Block)
    requires out in TreatEach(treat, blocks)
    ensures exists b :: b in blocks && treat(b) == Some(out)
  {
    if treat(blocks[0]) == Some(out) {
    } else {
      EachFromOne(e, treat, blocks[1..], out);
    }
  }

  // Every served block is the note of what nobody verified, or keeps its own rule.
  lemma ServedBlocksCiteTheirRule(e: Engine, blocks: seq<Block>, out: Block)
    requires out in AnswerServed(e, blocks)
    ensures var body := TreatEach(Serving(e), blocks);
            && (out in body ==> exists b :: b in blocks && OwnRule(e, b, out))
            && (out !in body ==> out == NoteOf(Unsaid(Spaced(BlockTexts(body)), NotStatedLines(e.unverified, e.rows))))
  {
    var body := TreatEach(Serving(e), blocks);
    if out in body {
      EachFromOne(e, Serving(e), blocks, out);
      var b :| b in blocks && Serving(e)(b) == Some(out);
      TreatedIsOwnRule(e, b);
    }
  }

  // ----- every unverified row is said, and said once -----

  lemma {:induction false} SpacedHolds(parts: seq<string>, s: string)
    requires s in parts
    ensures Contains(Spaced(parts), s)
  {
    if parts[0] == s {
      var all := Spaced(parts);
      assert all[0..0 + |s|] == s;
      assert OccursAt(all, s, 0);
    } else {
      var rest := Spaced(parts[1..]);
      SpacedHolds(parts[1..], s);
      ContainsLater(parts[0] + " ", rest, s);
    }
  }

  lemma ContainsLater(a: string, b: string, s: string)
    ensures Contains(b, s) ==> Contains(a + b, s)
    ensures Contains(a, s) ==> Contains(a + b, s)
  {
    if i: nat :| i <= |b| && OccursAt(b, s, i) {
      assert (a + b)[|a| + i..|a| + i + |s|] == b[i..i + |s|];
      assert OccursAt(a + b, s, |a| + i);
    }
    if i: nat :| i <= |a| && OccursAt(a, s, i) {
      OccursAtAppend(a, b, s, i);
    }
  }

  lemma {:induction false} SpacedAppend(parts: seq<string>, last: string)
    ensures Spaced(parts + [last]) == if parts == [] then last else Spaced(parts) + (" " + last)
  {
    if |parts| > 1 {
      SpacedAppend(parts[1..], last);
      var all := parts + [last];
      assert all[1..] == parts[1..] + [last];
      var a, b, c := parts[0] + " ", Spaced(parts[1..]), " " + last;
      assert a + (b + c) == (a + b) + c;
    } else if |parts| == 1 {
      assert (parts + [last])[1..] == [last];
      assert parts[0] + " " + last == parts[0] + (" " + last);
    }
  }

  lemma {:induction false} TextsAppend(body: seq<Block>, b: Block)
    ensures BlockTexts(body + [b]) == BlockTexts(body) + [b.text]
  {
    if body != [] {
      TextsAppend(body[1..], b);
      assert (body + [b])[1..] == body[1..] + [b];
    }
  }

  lemma NoteHolds(texts: seq<string>, unsaid: seq<string>, l: string)
    requires l in unsaid || Contains(Spaced(texts), l)
    ensures Contains(Spaced(texts + [Spaced(unsaid)]), l)
  {
    var note := Spaced(unsaid);
    SpacedAppend(texts, note);
    if l in unsaid {
      SpacedHolds(unsaid, l);
    }
    ContainsLater(" ", note, l);
    ContainsLater(Spaced(texts), " " + note, l);
    ContainsLater("", note, l);
    assert "" + note == note;
  }

  // After the step every line is in the answer, and a second time there is nothing to add.
  lemma UnverifiedRowsAreSaidOnce(lines: seq<string>, body: seq<Block>)
    ensures var served := WithUnverified(lines, body);
            && (forall l :: l in lines ==> Contains(Spaced(BlockTexts(served)), l))
            && WithUnverified(lines, served) == served
  {
    var served := WithUnverified(lines, body);
    var unsaid := Unsaid(Spaced(BlockTexts(body)), lines);
    if unsaid != [] {
      TextsAppend(body, NoteOf(unsaid));
      forall l | l in lines ensures Contains(Spaced(BlockTexts(served)), l) {
        NoteHolds(BlockTexts(body), unsaid, l);
      }
    }
    NothingUnsaid(Spaced(BlockTexts(served)), lines);
  }

  lemma NothingUnsaid(said: string, lines: seq<string>)
    ensures Unsaid(said, lines) == [] <==> forall l :: l in lines ==> Contains(said, l)
  {
    if Unsaid(said, lines) != [] {
      assert Unsaid(said, lines)[0] in Unsaid(said, lines);
    }
  }
}
