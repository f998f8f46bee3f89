// A passage that is rewritten claim by claim, read again: what stands in front of each claim, the claims
// as they are printed, and the text behind the last one. Both passes that rewrite spans have this shape
// (correct in src/hrmosaic/agent/dates.py and in src/hrmosaic/agent/arithmetic.py).
module Reprints {
  import opened Blocks
  import opened Lists
  import opened Passages

  // What a pass makes of a claim: it stands, it goes, or it is said otherwise.
  datatype Mend<C> = Keep | Drop | Say(claim: C)

  datatype Part<C> = Part(front: string, claim: C)

  function Print<C>(show: C -> string, parts: seq<Part<C>>, tail: string): string {
    if parts == [] then tail else parts[0].front + (show(parts[0].claim) + Print(show, parts[1..], tail))
  }

  function Replacement<C>(show: C -> string, m: Mend<C>): Option<string> {
    match m
    case Keep => None
    case Drop => Some("")
    case Say(c) => Some(show(c))
  }

  // The spans of the claims in the printed passage, whose text up to the first part has length `at`.
  function Rewrites<C>(show: C -> string, mend: C -> Mend<C>, at: nat, parts: seq<Part<C>>): seq<Rewrite>
    decreases |parts|
  {
    if parts == [] then []
    else
      var p := parts[0];
      var from := at + |p.front|;
      var to := from + |show(p.claim)|;
      [Rewrite(from, to, Replacement(show, mend(p.claim)))] + Rewrites(show, mend, to, parts[1..])
  }

  // More text in front of a passage.
  function Fronted<C>(front: string, parts: seq<Part<C>>, tail: string): (seq<Part<C>>, string) {
    if parts == [] then ([], front + tail) else ([Part(front + parts[0].front, parts[0].claim)] + parts[1..], tail)
  }

  // The passage after one pass.
  function Mended<C>(isAlnum: CharTest, show: C -> string, mend: C -> Mend<C>, parts: seq<Part<C>>, tail: string)
    : (seq<Part<C>>, string)
  {
    if parts == [] then ([], tail)
    else
      var p := parts[0];
      var (rest, end) := Mended(isAlnum, show, mend, parts[1..], tail);
      match mend(p.claim)
      case Keep => ([p] + rest, end)
      case Say(c) => ([Part(p.front, c)] + rest, end)
      case Drop => Fronted(Introduced(isAlnum, p.front, Print(show, parts[1..], tail)), rest, end)
  }

  lemma PrintFronted<C>(show: C -> string, front: string, parts: seq<Part<C>>, tail: string)
    ensures var (more, end) := Fronted(front, parts, tail);
            Print(show, more, end) == front + Print(show, parts, tail)
  {
    if parts != [] {
      var p := parts[0];
      assert ([Part(front + p.front, p.claim)] + parts[1..])[1..] == parts[1..];
      Associative(front, p.front, show(p.claim) + Print(show, parts[1..], tail));
    }
  }

  // A printed claim: something, and no blank at its end.
  predicate Solid(s: string) { s != "" && !IsBlank(s[|s| - 1]) }

  predicate Printable<C>(show: C -> string, mend: C -> Mend<C>, c: C) {
    Solid(show(c)) && (mend(c).Say? ==> Solid(show(mend(c).claim)))
  }

  predicate AllPrintable<C>(show: C -> string, mend: C -> Mend<C>, parts: seq<Part<C>>) {
    forall i :: 0 <= i < |parts| ==> Printable(show, mend, parts[i].claim)
  }

  // What is left alone in front of a dropped claim ends in no blank, so only the claim's own front is
  // trimmed.
  lemma IntroducedBehind(isAlnum: CharTest, done: string, front: string, rest: string)
    requires done != "" ==> !IsBlank(done[|done| - 1])
    ensures Introduced(isAlnum, done + front, rest) == done + Introduced(isAlnum, front, rest)
  {
    TrimmedBehind(done, front);
    var trimmed := WithoutTrailingBlanks(front);
    assert done + trimmed == done + front <==> trimmed == front by {
      if done + trimmed == done + front {
        assert (done + trimmed)[|done|..] == trimmed && (done + front)[|done|..] == front;
      }
    }
    Associative(done, trimmed, " ");
  }

  lemma {:induction false} TrimmedBehind(done: string, front: string)
    requires done != "" ==> !IsBlank(done[|done| - 1])
    ensures WithoutTrailingBlanks(done + front) == done + WithoutTrailingBlanks(front)
  {
    if front == "" {
      assert done + front == done;
    } else {
      LastBehind(done, front);
      if IsBlank(front[|front| - 1]) {
        TrimmedBehind(done, front[..|front| - 1]);
      }
    }
  }

  lemma LastBehind(done: string, front: string)
    requires front != ""
    ensures var whole, n := done + front, |front| - 1;
            whole[|whole| - 1] == front[n] && whole[..|whole| - 1] == done + front[..n]
  {
  }

  lemma {:induction false} SpansAreBehind<C>(show: C -> string, mend: C -> Mend<C>, done: string,
                                             parts: seq<Part<C>>, tail: string)
    ensures Behind(done + Print(show, parts, tail), |done|, Rewrites(show, mend, |done|, parts))
    decreases |parts|
  {
    if parts != [] {
      var next := done + parts[0].front + show(parts[0].claim);
      SpansAreBehind(show, mend, next, parts[1..], tail);
      NextPart(show, done, parts, tail);
    }
  }

  lemma NextPart<C>(show: C -> string, done: string, parts: seq<Part<C>>, tail: string)
    requires parts != []
    ensures var p := parts[0];
            var next := done + p.front + show(p.claim);
            && done + Print(show, parts, tail) == next + Print(show, parts[1..], tail)
            && |next| == |done| + |p.front| + |show(p.claim)|
            && next[..|done| + |p.front|] == done + p.front
            && (show(p.claim) != "" ==> next[|next| - 1] == show(p.claim)[|show(p.claim)| - 1])
  {
    var p, rest := parts[0], Print(show, parts[1..], tail);
    Associative(done, p.front, show(p.claim) + rest);
    Associative(done + p.front, show(p.claim), rest);
  }

  lemma TextAround<C>(show: C -> string, done: string, at: nat, parts: seq<Part<C>>, tail: string)
    requires parts != [] && at <= |done|
    ensures var p, text := parts[0], done + Print(show, parts, tail);
            var from := |done| + |p.front|;
            && from + |show(p.claim)| <= |text|
            && text[at..from] == done[at..] + p.front
            && text[from + |show(p.claim)|..] == Print(show, parts[1..], tail)
  {
    var p, text := parts[0], done + Print(show, parts, tail);
    var next := done + p.front + show(p.claim);
    NextPart(show, done, parts, tail);
    assert text[|next|..] == Print(show, parts[1..], tail);
    assert text[..|done| + |p.front|] == done + p.front;
    assert text[at..|done| + |p.front|] == text[..|done| + |p.front|][at..];
  }

  lemma PrintFront<C>(show: C -> string, p: Part<C>, parts: seq<Part<C>>, tail: string)
    ensures Print(show, [p] + parts, tail) == p.front + (show(p.claim) + Print(show, parts, tail))
  {
    assert ([p] + parts)[1..] == parts;
  }

  lemma FourTexts(a: string, b: string, c: string, d: string)
    ensures (a + b + c) + d == a + (b + (c + d))
  {
  }

  // The text from `at` on, once the first part has been passed.
  lemma KeptPart<C>(isAlnum: CharTest, show: C -> string, mend: C -> Mend<C>, done: string, at: nat,
                    parts: seq<Part<C>>, tail: string)
    requires parts != [] && at <= |done|
    ensures var p := parts[0];
            var next, behind := done + p.front + show(p.claim), Mended(isAlnum, show, mend, parts[1..], tail);
            next[at..] + Print(show, behind.0, behind.1) == done[at..] + Print(show, [p] + behind.0, behind.1)
  {
    var p := parts[0];
    var next, behind := done + p.front + show(p.claim), Mended(isAlnum, show, mend, parts[1..], tail);
    PrintFront(show, p, behind.0, behind.1);
    assert next[at..] == done[at..] + p.front + show(p.claim);
    FourTexts(done[at..], p.front, show(p.claim), Print(show, behind.0, behind.1));
  }

  // What a pass makes of the first span.
  function AfterFirst(isAlnum: CharTest, text: string, at: nat, s: Rewrite, rest: seq<Rewrite>): string
    requires at <= s.from <= s.to <= |text| && Behind(text, at, rest) && Behind(text, s.to, rest)
  {
    match s.repair
    case None => Corrected(isAlnum, text, at, rest)
    case Some(r) =>
      (if r == "" then Introduced(isAlnum, text[at..s.from], text[s.to..]) else text[at..s.from] + r)
      + Corrected(isAlnum, text, s.to, rest)
  }

  lemma FirstSpan(isAlnum: CharTest, text: string, at: nat, s: Rewrite, rest: seq<Rewrite>)
    requires at <= s.from <= s.to && Behind(text, s.to, rest)
    ensures s.to <= |text| && Behind(text, at, rest) && Behind(text, at, [s] + rest)
    ensures Corrected(isAlnum, text, at, [s] + rest) == AfterFirst(isAlnum, text, at, s, rest)
  {
    BehindEarlier(text, at, s.to, rest);
    BehindInside(text, s.to, rest);
    assert ([s] + rest)[1..] == rest;
  }

  lemma {:induction false} BehindInside(text: string, at: nat, spans: seq<Rewrite>)
    requires Behind(text, at, spans)
    ensures at <= |text|
  {
  }

  // The pass from `at` on hands on what is owed of `done`, and prints the mended parts.
  ghost predicate Prints<C>(isAlnum: CharTest, show: C -> string, mend: C -> Mend<C>, done: string, at: nat,
                            parts: seq<Part<C>>, tail: string)
  {
    var text, spans := done + Print(show, parts, tail), Rewrites(show, mend, |done|, parts);
    var (again, end) := Mended(isAlnum, show, mend, parts, tail);
    && at <= |done| && Behind(text, at, spans)
    && Corrected(isAlnum, text, at, spans) == done[at..] + Print(show, again, end)
  }

  function SpanOf<C>(show: C -> string, mend: C -> Mend<C>, at: nat, p: Part<C>): Rewrite {
    var from := at + |p.front|;
    Rewrite(from, from + |show(p.claim)|, Replacement(show, mend(p.claim)))
  }

  lemma SpansFirst<C>(show: C -> string, mend: C -> Mend<C>, at: nat, parts: seq<Part<C>>)
    requires parts != []
    ensures var s := SpanOf(show, mend, at, parts[0]);
            Rewrites(show, mend, at, parts) == [s] + Rewrites(show, mend, s.to, parts[1..])
  {
  }

  lemma FirstRewrite<C>(isAlnum: CharTest, show: C -> string, mend: C -> Mend<C>, text: string, at: nat, start: nat,
                        parts: seq<Part<C>>)
    requires parts != [] && at <= start
    requires var s := SpanOf(show, mend, start, parts[0]); Behind(text, s.to, Rewrites(show, mend, s.to, parts[1..]))
    ensures var s := SpanOf(show, mend, start, parts[0]);
            var spans := Rewrites(show, mend, s.to, parts[1..]);
            && s.to <= |text| && Behind(text, at, spans) && Behind(text, at, Rewrites(show, mend, start, parts))
            && Corrected(isAlnum, text, at, Rewrites(show, mend, start, parts))
               == AfterFirst(isAlnum, text, at, s, spans)
  {
    var s := SpanOf(show, mend, start, parts[0]);
    SpansFirst(show, mend, start, parts);
    FirstSpan(isAlnum, text, at, s, Rewrites(show, mend, s.to, parts[1..]));
  }

  // The spans behind the first are those of the rest of the passage, and the first one is passed.
  lemma {:induction false} PassFirst<C>(isAlnum: CharTest, show: C -> string, mend: C -> Mend<C>, done: string,
                                        at: nat, parts: seq<Part<C>>, tail: string, next: string)
    requires parts != [] && at <= |done| && next == done + parts[0].front + show(parts[0].claim)
    ensures var text, s := next + Print(show, parts[1..], tail), SpanOf(show, mend, |done|, parts[0]);
            var spans := Rewrites(show, mend, |next|, parts[1..]);
            && s.to == |next| <= |text| && Behind(text, at, spans) && Behind(text, |next|, spans)
            && Behind(text, at, Rewrites(show, mend, |done|, parts))
            && Corrected(isAlnum, text, at, Rewrites(show, mend, |done|, parts))
               == AfterFirst(isAlnum, text, at, s, spans)
  {
    SpansAreBehind(show, mend, next, parts[1..], tail);
    FirstRewrite(isAlnum, show, mend, next + Print(show, parts[1..], tail), at, |done|, parts);
  }

  lemma TextPassed<C>(show: C -> string, done: string, at: nat, parts: seq<Part<C>>, tail: string, next: string)
    requires parts != [] && at <= |done| && next == done + parts[0].front + show(parts[0].claim)
    ensures var text, from := next + Print(show, parts[1..], tail), |done| + |parts[0].front|;
            && done + Print(show, parts, tail) == text
            && from <= |next| && text[at..from] == done[at..] + parts[0].front
            && text[|next|..] == Print(show, parts[1..], tail)
  {
    NextPart(show, done, parts, tail);
    TextAround(show, done, at, parts, tail);
  }

  lemma {:induction false} FirstPart<C>(isAlnum: CharTest, show: C -> string, mend: C -> Mend<C>, done: string,
                                        at: nat, parts: seq<Part<C>>, tail: string, next: string)
    requires parts != [] && at <= |done| && next == done + parts[0].front + show(parts[0].claim)
    ensures var text, s := next + Print(show, parts[1..], tail), SpanOf(show, mend, |done|, parts[0]);
            var spans := Rewrites(show, mend, |next|, parts[1..]);
            && done + Print(show, parts, tail) == text
            && s.to == |next| <= |text| && Behind(text, at, spans) && Behind(text, |next|, spans)
            && Behind(text, at, Rewrites(show, mend, |done|, parts))
            && Corrected(isAlnum, text, at, Rewrites(show, mend, |done|, parts))
               == AfterFirst(isAlnum, text, at, s, spans)
            && text[at..s.from] == done[at..] + parts[0].front && text[s.to..] == Print(show, parts[1..], tail)
  {
    TextPassed(show, done, at, parts, tail, next);
    PassFirst(isAlnum, show, mend, done, at, parts, tail, next);
  }

  lemma {:induction false} KeepStep<C>(isAlnum: CharTest, show: C -> string, mend: C -> Mend<C>, done: string, at: nat,
                                       parts: seq<Part<C>>, tail: string, next: string)
    requires parts != [] && at <= |done| && next == done + parts[0].front + show(parts[0].claim)
    requires mend(parts[0].claim).Keep? && Prints(isAlnum, show, mend, next, at, parts[1..], tail)
    ensures Prints(isAlnum, show, mend, done, at, parts, tail)
  {
    FirstPart(isAlnum, show, mend, done, at, parts, tail, next);
    KeptPart(isAlnum, show, mend, done, at, parts, tail);
  }

  lemma {:induction false} SayStep<C>(isAlnum: CharTest, show: C -> string, mend: C -> Mend<C>, done: string, at: nat,
                                      parts: seq<Part<C>>, tail: string, next: string, c: C)
    requires parts != [] && at <= |done| && next == done + parts[0].front + show(parts[0].claim)
    requires mend(parts[0].claim) == Say(c) && show(c) != ""
    requires Prints(isAlnum, show, mend, next, |next|, parts[1..], tail)
    ensures Prints(isAlnum, show, mend, done, at, parts, tail)
  {
    var (again, end) := Mended(isAlnum, show, mend, parts[1..], tail);
    FirstPart(isAlnum, show, mend, done, at, parts, tail, next);
    PrintFront(show, Part(parts[0].front, c), again, end);
    FourTexts(done[at..], parts[0].front, show(c), Print(show, again, end));
    NothingOwed(next, Print(show, again, end));
  }

  lemma {:induction false} DropStep<C>(isAlnum: CharTest, show: C -> string, mend: C -> Mend<C>, done: string, at: nat,
                                       parts: seq<Part<C>>, tail: string, next: string)
    requires parts != [] && at <= |done| && next == done + parts[0].front + show(parts[0].claim)
    requires mend(parts[0].claim).Drop? && (at < |done| ==> !IsBlank(done[|done| - 1]))
    requires Prints(isAlnum, show, mend, next, |next|, parts[1..], tail)
    ensures Prints(isAlnum, show, mend, done, at, parts, tail)
  {
    var (again, end) := Mended(isAlnum, show, mend, parts[1..], tail);
    var rest := Print(show, parts[1..], tail);
    FirstPart(isAlnum, show, mend, done, at, parts, tail, next);
    PrintFronted(show, Introduced(isAlnum, parts[0].front, rest), again, end);
    DroppedPart(isAlnum, done, at, parts[0].front, rest, next, Print(show, again, end));
  }

  lemma DroppedPart(isAlnum: CharTest, done: string, at: nat, front: string, rest: string, next: string,
                    printed: string)
    requires at <= |done| && (at < |done| ==> !IsBlank(done[|done| - 1]))
    ensures Introduced(isAlnum, done[at..] + front, rest) + (next[|next|..] + printed)
            == done[at..] + (Introduced(isAlnum, front, rest) + printed)
  {
    var owed := done[at..];
    assert owed != "" ==> owed[|owed| - 1] == done[|done| - 1];
    NothingOwed(next, printed);
    IntroducedBehind(isAlnum, owed, front, rest);
    Associative(owed, Introduced(isAlnum, front, rest), printed);
  }

  lemma NothingOwed(next: string, rest: string)
    ensures next[|next|..] + rest == rest
  {
  }

  // One pass over a printed passage prints the mended one. `done` is the text in front of the parts,
  // of which the pass has still to hand on what begins at `at`.
  lemma {:induction false} OnePass<C>(isAlnum: CharTest, show: C -> string, mend: C -> Mend<C>, done: string, at: nat,
                                      parts: seq<Part<C>>, tail: string)
    requires at <= |done| && (at < |done| ==> !IsBlank(done[|done| - 1])) && AllPrintable(show, mend, parts)
    ensures Prints(isAlnum, show, mend, done, at, parts, tail)
    decreases |parts|
  {
    if parts == [] {
      assert (done + tail)[at..] == done[at..] + tail;
    } else {
      var p, rest := parts[0], parts[1..];
      var next := done + p.front + show(p.claim);
      NextPart(show, done, parts, tail);
      assert Printable(show, mend, p.claim) && AllPrintable(show, mend, rest);
      match mend(p.claim) {
        case Keep =>
          OnePass(isAlnum, show, mend, next, at, rest, tail);
          KeepStep(isAlnum, show, mend, done, at, parts, tail, next);
        case Say(c) =>
          OnePass(isAlnum, show, mend, next, |next|, rest, tail);
          SayStep(isAlnum, show, mend, done, at, parts, tail, next, c);
        case Drop =>
          OnePass(isAlnum, show, mend, next, |next|, rest, tail);
          DropStep(isAlnum, show, mend, done, at, parts, tail, next);
      }
    }
  }

  // ----- a second pass -----

  // Nothing put behind the two texts makes them one.
  ghost predicate Apart(x: string, y: string) { forall r: string, s: string :: x + r != y + s }

  // The pass leaves the claim as it reads.
  predicate Stands<C>(show: C -> string, mend: C -> Mend<C>, c: C) {
    mend(c).Keep? || (mend(c).Say? && show(mend(c).claim) == show(c))
  }

  // A claim the pass has printed is not dropped by the next one, and is told from what that one prints.
  ghost predicate Redone<C>(show: C -> string, mend: C -> Mend<C>, c: C) {
    && !mend(c).Drop? && Printable(show, mend, c)
    && (Stands(show, mend, c) || Apart(show(c), show(mend(c).claim)))
  }

  ghost predicate AllRedone<C>(show: C -> string, mend: C -> Mend<C>, parts: seq<Part<C>>) {
    forall i :: 0 <= i < |parts| ==> Redone(show, mend, parts[i].claim)
  }

  predicate AllStand<C>(show: C -> string, mend: C -> Mend<C>, parts: seq<Part<C>>) {
    forall i :: 0 <= i < |parts| ==> Stands(show, mend, parts[i].claim)
  }

  // What the pass prints of these claims stands.
  predicate SaidStand<C>(show: C -> string, mend: C -> Mend<C>, parts: seq<Part<C>>) {
    forall i :: 0 <= i < |parts| && mend(parts[i].claim).Say? ==> Stands(show, mend, mend(parts[i].claim).claim)
  }

  lemma SameFront(front: string, x: string, y: string, r: string, s: string)
    ensures x == y ==> (front + (x + r) == front + (y + s) <==> r == s)
    ensures Apart(x, y) ==> front + (x + r) != front + (y + s)
  {
    if front + (x + r) == front + (y + s) {
      assert (front + (x + r))[|front|..] == x + r && (front + (y + s))[|front|..] == y + s;
      if x == y {
        assert (x + r)[|x|..] == r && (y + s)[|y|..] == s;
      }
    }
  }

  // Where nothing is dropped the passage reads as before exactly when every claim does.
  lemma {:induction false} MendedReads<C>(isAlnum: CharTest, show: C -> string, mend: C -> Mend<C>, parts: seq<Part<C>>,
                                          tail: string)
    requires AllRedone(show, mend, parts)
    ensures var (again, end) := Mended(isAlnum, show, mend, parts, tail);
            Print(show, again, end) == Print(show, parts, tail) <==> AllStand(show, mend, parts)
  {
    if parts != [] {
      var p, rest := parts[0], parts[1..];
      var (again, end) := Mended(isAlnum, show, mend, rest, tail);
      assert Redone(show, mend, p.claim) && AllRedone(show, mend, rest);
      MendedReads(isAlnum, show, mend, rest, tail);
      var said := if mend(p.claim).Say? then mend(p.claim).claim else p.claim;
      PrintFront(show, Part(p.front, said), again, end);
      SameFront(p.front, show(p.claim), show(said), Print(show, rest, tail), Print(show, again, end));
      AllStandFront(show, mend, parts);
    }
  }

  lemma AllStandFront<C>(show: C -> string, mend: C -> Mend<C>, parts: seq<Part<C>>)
    requires parts != []
    ensures AllStand(show, mend, parts)
            <==> Stands(show, mend, parts[0].claim) && AllStand(show, mend, parts[1..])
  {
    var rest := parts[1..];
    if AllStand(show, mend, rest) {
      forall i | 1 <= i < |parts| ensures Stands(show, mend, parts[i].claim) {
        assert rest[i - 1] == parts[i];
      }
    }
  }

  // What the first pass prints is redone by the second.
  ghost predicate SaidRedone<C>(show: C -> string, mend: C -> Mend<C>, parts: seq<Part<C>>) {
    forall i :: 0 <= i < |parts| && mend(parts[i].claim).Say? ==> Redone(show, mend, mend(parts[i].claim).claim)
  }

  // Of the mended parts each is a kept claim or one that was said, so they stand when those stand.
  lemma {:induction false} MendedParts<C>(isAlnum: CharTest, show: C -> string, mend: C -> Mend<C>, parts: seq<Part<C>>,
                                          tail: string)
    requires AllPrintable(show, mend, parts) && SaidRedone(show, mend, parts)
    ensures var again := Mended(isAlnum, show, mend, parts, tail).0;
            AllRedone(show, mend, again) && (AllStand(show, mend, again) <==> SaidStand(show, mend, parts))
  {
    if parts != [] {
      var p, rest := parts[0], parts[1..];
      var (again, end) := Mended(isAlnum, show, mend, rest, tail);
      assert Printable(show, mend, p.claim);
      assert AllPrintable(show, mend, rest) && SaidRedone(show, mend, rest);
      MendedParts(isAlnum, show, mend, rest, tail);
      SaidStandFront(show, mend, parts);
      match mend(p.claim) {
        case Keep => FrontRedone(show, mend, p, again);
        case Say(c) => FrontRedone(show, mend, Part(p.front, c), again);
        case Drop => FrontedRedone(show, mend, Introduced(isAlnum, p.front, Print(show, rest, tail)), again, end);
      }
    }
  }

  lemma SaidStandFront<C>(show: C -> string, mend: C -> Mend<C>, parts: seq<Part<C>>)
    requires parts != []
    ensures SaidStand(show, mend, parts)
            <==> (mend(parts[0].claim).Say? ==> Stands(show, mend, mend(parts[0].claim).claim))
                 && SaidStand(show, mend, parts[1..])
  {
    var rest := parts[1..];
    if SaidStand(show, mend, rest) {
      forall i | 1 <= i < |parts| && mend(parts[i].claim).Say?
        ensures Stands(show, mend, mend(parts[i].claim).claim)
      {
        assert rest[i - 1] == parts[i];
      }
    }
  }

  lemma FrontRedone<C>(show: C -> string, mend: C -> Mend<C>, p: Part<C>, again: seq<Part<C>>)
    requires Redone(show, mend, p.claim) && AllRedone(show, mend, again)
    ensures AllRedone(show, mend, [p] + again)
    ensures AllStand(show, mend, [p] + again) <==> Stands(show, mend, p.claim) && AllStand(show, mend, again)
  {
    assert ([p] + again)[1..] == again;
    AllStandFront(show, mend, [p] + again);
  }

  lemma FrontedRedone<C>(show: C -> string, mend: C -> Mend<C>, front: string, parts: seq<Part<C>>, tail: string)
    requires AllRedone(show, mend, parts)
    ensures AllRedone(show, mend, Fronted(front, parts, tail).0)
    ensures AllStand(show, mend, Fronted(front, parts, tail).0) <==> AllStand(show, mend, parts)
  {
    var more := Fronted(front, parts, tail).0;
    assert |more| == |parts| && forall i :: 0 <= i < |parts| ==> more[i].claim == parts[i].claim;
  }

  // Read again, a mended passage is left alone exactly when every claim the pass printed is.
  lemma PassTwice<C>(isAlnum: CharTest, show: C -> string, mend: C -> Mend<C>, parts: seq<Part<C>>, tail: string)
    requires AllPrintable(show, mend, parts) && SaidRedone(show, mend, parts)
    ensures var text, (again, end) := Print(show, parts, tail), Mended(isAlnum, show, mend, parts, tail);
            var once := Print(show, again, end);
            && Behind(text, 0, Rewrites(show, mend, 0, parts)) && Behind(once, 0, Rewrites(show, mend, 0, again))
            && Corrected(isAlnum, text, 0, Rewrites(show, mend, 0, parts)) == once
            && (Corrected(isAlnum, once, 0, Rewrites(show, mend, 0, again)) == once <==> SaidStand(show, mend, parts))
  {
    var (again, end) := Mended(isAlnum, show, mend, parts, tail);
    MendedParts(isAlnum, show, mend, parts, tail);
    WholePass(isAlnum, show, mend, parts, tail);
    WholePass(isAlnum, show, mend, again, end);
    MendedReads(isAlnum, show, mend, again, end);
  }

  lemma WholePass<C>(isAlnum: CharTest, show: C -> string, mend: C -> Mend<C>, parts: seq<Part<C>>, tail: string)
    requires AllPrintable(show, mend, parts)
    ensures var text, (again, end) := Print(show, parts, tail), Mended(isAlnum, show, mend, parts, tail);
            && Behind(text, 0, Rewrites(show, mend, 0, parts))
            && Corrected(isAlnum, text, 0, Rewrites(show, mend, 0, parts)) == Print(show, again, end)
  {
    OnePass(isAlnum, show, mend, "", 0, parts, tail);
    assert "" + Print(show, parts, tail) == Print(show, parts, tail);
  }
}
