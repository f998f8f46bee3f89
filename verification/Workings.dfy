// arithmetic.correct: a passage whose unsound workings give way to the balance's own, and the same
// passage read again (src/hrmosaic/agent/arithmetic.py:207-237).
module Workings {
  import opened Arithmetic
  import opened Blocks
  import opened Lists
  import opened Passages
  import opened Reprints

  // A stated total with a parenthesis behind it: the total, the working inside, and the parenthesis as
  // it is written.
  datatype Explained = Explained(total: real, body: string, written: string)

  function Parenthesis(c: Explained): string { c.written }

  function Reworked(b: Balance, remaining: Option<int>): Explained -> Mend<Explained> {
    (c: Explained) =>
      if Sound(c.total, c.body, b) then Keep
      else
        match Decomposition(b, remaining)
        case None => Drop
        case Some(w) => Say(Explained(c.total, w, "(" + w + ")"))
  }

  // Nothing is put in the place of a dropped parenthesis.
  function NoWeld(): Passages.CharTest { c => false }

  // ----- the loop -----

  // A match of the expression; its parenthesis is text[paren..to].
  datatype Found = Found(paren: nat, to: nat, total: real, body: string)

  function SpanFor(b: Balance, remaining: Option<int>, m: Found): Rewrite {
    if Sound(m.total, m.body, b) then Rewrite(m.paren, m.to, None)
    else
      match Decomposition(b, remaining)
      case None => Rewrite(m.paren, m.to, Some(""))
      case Some(w) => Rewrite(m.paren, m.to, Some("(" + w + ")"))
  }

  function SpansFor(b: Balance, remaining: Option<int>, found: seq<Found>): seq<Rewrite> {
    if found == [] then [] else [SpanFor(b, remaining, found[0])] + SpansFor(b, remaining, found[1..])
  }

  lemma {:induction false} SpansForAt(b: Balance, remaining: Option<int>, found: seq<Found>, i: nat)
    requires i < |found|
    ensures SpansFor(b, remaining, found[i..])
            == [SpanFor(b, remaining, found[i])] + SpansFor(b, remaining, found[i + 1..])
  {
    var here := found[i..];
    assert here[0] == found[i] && here[1..] == found[i + 1..];
  }

  method Correct(text: string, b: Balance, remaining: Option<int>, found: seq<Found>) returns (corrected: string)
    requires Behind(text, 0, SpansFor(b, remaining, found))
    ensures corrected == Corrected(NoWeld(), text, 0, SpansFor(b, remaining, found))
  {
    var replacement := Decompose(b, remaining);
    var pieces: seq<string> := [];
    var cursor: nat := 0;
    assert found[0..] == found;
    for i := 0 to |found|
      invariant Behind(text, cursor, SpansFor(b, remaining, found[i..]))
      invariant Concat(pieces) + Corrected(NoWeld(), text, cursor, SpansFor(b, remaining, found[i..]))
                == Corrected(NoWeld(), text, 0, SpansFor(b, remaining, found))
    {
      var m := found[i];
      SpansForAt(b, remaining, found, i);
      ghost var s, rest := SpanFor(b, remaining, m), SpansFor(b, remaining, found[i + 1..]);
      FirstSpan(NoWeld(), text, cursor, s, rest);
      if Sound(m.total, m.body, b) {
        continue;
      }
      var prefix := text[cursor..m.paren];
      ghost var before := pieces;
      if replacement.Some? {
        pieces := pieces + [prefix] + ["(" + replacement.value + ")"];
      } else {
        pieces := pieces + [WithoutTrailingBlanks(prefix)];
      }
      PieceStep(before, prefix, replacement, Corrected(NoWeld(), text, m.to, rest), text[m.to..]);
      cursor := m.to;
    }
    ConcatSnoc(pieces, text[cursor..]);
    return Concat(pieces + [text[cursor..]]);
  }

  // What is put in front of the rest of the passage where an unsound working stood.
  lemma PieceStep(pieces: seq<string>, prefix: string, replacement: Option<string>, rest: string, behind: string)
    ensures var piece := if replacement.Some? then prefix + ("(" + replacement.value + ")")
                         else Introduced(NoWeld(), prefix, behind);
            var next := if replacement.Some? then pieces + [prefix] + ["(" + replacement.value + ")"]
                        else pieces + [WithoutTrailingBlanks(prefix)];
            Concat(next) + rest == Concat(pieces) + (piece + rest)
  {
    if replacement.Some? {
      var said := "(" + replacement.value + ")";
      ConcatSnoc(pieces, prefix);
      ConcatSnoc(pieces + [prefix], said);
      Associative(Concat(pieces), prefix, said);
      Associative(Concat(pieces), prefix + said, rest);
    } else {
      ConcatSnoc(pieces, WithoutTrailingBlanks(prefix));
      Associative(Concat(pieces), WithoutTrailingBlanks(prefix), rest);
    }
  }

  // ----- the passage, twice -----

  // The matches in a printed passage.
  function Matches(at: nat, parts: seq<Part<Explained>>): seq<Found>
    decreases |parts|
  {
    if parts == [] then []
    else
      [MatchOf(at, parts[0])] + Matches(MatchOf(at, parts[0]).to, parts[1..])
  }

  function MatchOf(at: nat, p: Part<Explained>): Found {
    var from := at + |p.front|;
    Found(from, from + |p.claim.written|, p.claim.total, p.claim.body)
  }

  lemma MatchesAreSpans(b: Balance, remaining: Option<int>, at: nat, parts: seq<Part<Explained>>)
    ensures SpansFor(b, remaining, Matches(at, parts)) == Rewrites(Parenthesis, Reworked(b, remaining), at, parts)
  {
    var span, mend := (m: Found) => SpanFor(b, remaining, m), Reworked(b, remaining);
    forall from: nat, p: Part<Explained> ensures span(MatchOf(from, p)) == SpanOf(Parenthesis, mend, from, p) {
      SpanIs(b, remaining, from, p);
    }
    SpansBy(span, mend, at, parts);
    SpansForIs(b, remaining, span, Matches(at, parts));
  }

  function Each(span: Found -> Rewrite, found: seq<Found>): seq<Rewrite> {
    if found == [] then [] else [span(found[0])] + Each(span, found[1..])
  }

  lemma {:induction false} SpansForIs(b: Balance, remaining: Option<int>, span: Found -> Rewrite, found: seq<Found>)
    requires forall m :: span(m) == SpanFor(b, remaining, m)
    ensures SpansFor(b, remaining, found) == Each(span, found)
  {
    if found != [] {
      SpansForIs(b, remaining, span, found[1..]);
    }
  }

  lemma {:induction false} SpansBy(span: Found -> Rewrite, mend: Explained -> Mend<Explained>, at: nat,
                                   parts: seq<Part<Explained>>)
    requires forall from: nat, p: Part<Explained> :: span(MatchOf(from, p)) == SpanOf(Parenthesis, mend, from, p)
    ensures Each(span, Matches(at, parts)) == Rewrites(Parenthesis, mend, at, parts)
    decreases |parts|
  {
    if parts != [] {
      var m := MatchOf(at, parts[0]);
      SpansBy(span, mend, m.to, parts[1..]);
      EachFront(span, m, Matches(m.to, parts[1..]));
      SpansFirst(Parenthesis, mend, at, parts);
    }
  }

  lemma EachFront(span: Found -> Rewrite, m: Found, rest: seq<Found>)
    ensures Each(span, [m] + rest) == [span(m)] + Each(span, rest)
  {
    assert ([m] + rest)[1..] == rest;
  }

  lemma SpanIs(b: Balance, remaining: Option<int>, at: nat, p: Part<Explained>)
    ensures SpanFor(b, remaining, MatchOf(at, p)) == SpanOf(Parenthesis, Reworked(b, remaining), at, p)
  {
  }

  // The passage as it should read: a sound working stands, an unsound one gives way to the balance's own,
  // and where that is not known it is gone with the blanks in front of it.
  function Answered(b: Balance, remaining: Option<int>, parts: seq<Part<Explained>>, tail: string): string {
    if parts == [] then tail
    else
      var p, rest := parts[0], Answered(b, remaining, parts[1..], tail);
      if Sound(p.claim.total, p.claim.body, b) then p.front + (p.claim.written + rest)
      else if Decomposition(b, remaining).Some? then
        p.front + ("(" + Decomposition(b, remaining).value + ")" + rest)
      else WithoutTrailingBlanks(p.front) + rest
  }

  lemma {:induction false} MendedIsAnswered(b: Balance, remaining: Option<int>, parts: seq<Part<Explained>>,
                                            tail: string)
    ensures var (again, end) := Mended(NoWeld(), Parenthesis, Reworked(b, remaining), parts, tail);
            Print(Parenthesis, again, end) == Answered(b, remaining, parts, tail)
  {
    if parts != [] {
      var mend, p := Reworked(b, remaining), parts[0];
      var (rest, end) := Mended(NoWeld(), Parenthesis, mend, parts[1..], tail);
      MendedIsAnswered(b, remaining, parts[1..], tail);
      match mend(p.claim) {
        case Keep => PrintFront(Parenthesis, p, rest, end);
        case Say(c) => PrintFront(Parenthesis, Part(p.front, c), rest, end);
        case Drop => PrintFronted(Parenthesis, WithoutTrailingBlanks(p.front), rest, end);
      }
    }
  }

  // One pass over a passage.
  lemma WorkingsAnswered(b: Balance, remaining: Option<int>, parts: seq<Part<Explained>>, tail: string)
    requires forall i :: 0 <= i < |parts| ==> Solid(parts[i].claim.written)
    ensures var text, spans := Print(Parenthesis, parts, tail), SpansFor(b, remaining, Matches(0, parts));
            Behind(text, 0, spans) && Corrected(NoWeld(), text, 0, spans) == Answered(b, remaining, parts, tail)
  {
    var mend := Reworked(b, remaining);
    forall i | 0 <= i < |parts| ensures Printable(Parenthesis, mend, parts[i].claim) {
      ExplainedPart(b, remaining, parts[i].claim);
    }
    WholePass(NoWeld(), Parenthesis, mend, parts, tail);
    MatchesAreSpans(b, remaining, 0, parts);
    MendedIsAnswered(b, remaining, parts, tail);
  }

  // Read again, every passage is left as it is: what the pass puts in is sound, or is put in again.
  lemma WorkingsSettle(b: Balance, remaining: Option<int>, parts: seq<Part<Explained>>, tail: string)
    requires forall i :: 0 <= i < |parts| ==> Solid(parts[i].claim.written)
    ensures var mend := Reworked(b, remaining);
            var text, (again, end) := Print(Parenthesis, parts, tail), Mended(NoWeld(), Parenthesis, mend, parts, tail);
            var once := Print(Parenthesis, again, end);
            var first, second := SpansFor(b, remaining, Matches(0, parts)), SpansFor(b, remaining, Matches(0, again));
            && Behind(text, 0, first) && Corrected(NoWeld(), text, 0, first) == once
            && Behind(once, 0, second) && Corrected(NoWeld(), once, 0, second) == once
  {
    var mend := Reworked(b, remaining);
    var (again, end) := Mended(NoWeld(), Parenthesis, mend, parts, tail);
    forall i | 0 <= i < |parts|
      ensures Printable(Parenthesis, mend, parts[i].claim)
      ensures mend(parts[i].claim).Say? ==>
                && Redone(Parenthesis, mend, mend(parts[i].claim).claim)
                && Stands(Parenthesis, mend, mend(parts[i].claim).claim)
    {
      ExplainedPart(b, remaining, parts[i].claim);
    }
    PassTwice(NoWeld(), Parenthesis, mend, parts, tail);
    MatchesAreSpans(b, remaining, 0, parts);
    MatchesAreSpans(b, remaining, 0, again);
  }

  lemma ExplainedPart(b: Balance, remaining: Option<int>, c: Explained)
    requires Solid(c.written)
    ensures var mend := Reworked(b, remaining);
            && Printable(Parenthesis, mend, c)
            && (mend(c).Say? ==> Redone(Parenthesis, mend, mend(c).claim) && Stands(Parenthesis, mend, mend(c).claim))
  {
    var mend := Reworked(b, remaining);
    if mend(c).Say? {
      var said := mend(c).claim;
      assert said.written[|said.written| - 1] == ')';
    }
  }

  // And the working put in is found sound beside a total exactly when that is what its amounts, read
  // back, come to; beside the balance's own total, exactly when the balance keeps its signs.
  lemma ReplacedIsSound(b: Balance, remaining: int, total: real, terms: seq<Term>)
    requires terms == TermsOf(b, FIELDS) && Decomposition(b, Some(remaining)).Some?
    ensures var working := Decomposition(b, Some(remaining)).value;
            && (Sound(total, working, b) <==> Abs(SumTenths(terms, true) as real / 10.0 - total) <= TOLERANCE)
            && (total == remaining as real / 10.0 ==> (Sound(total, working, b) <==> KeepsSigns(b)))
  {
    SoundBeside(b, terms, total);
    WorkingRoundTrip(b, remaining);
  }
}
