// Coalesced emission of answer blocks on top of the scanner
// (AnswerAssembler in src/hrmosaic/agent/answer_stream.py).
module AnswerAssembly {
  import opened AnswerStream

  // What is streamed of a decoded block; an absent field reads as empty.
  datatype RawBlock = RawBlock(kind: string, text: string, citations: seq<string>)

  datatype StreamedBlock = StreamedBlock(index: nat, kind: string, text: string, citations: seq<string>)

  // What one assembler is built with. The decoder and the redactor are arbitrary functions.
  datatype Config = Config(
    loads: Decoder<RawBlock>,
    redact: string -> string,
    coalesceChars: int,
    coalesceS: real)

  datatype Assembler = Assembler(
    scanner: ScanState<RawBlock>,
    pending: nat,
    lastScan: real,
    emitted: nat,
    scans: nat)

  function Shown(redact: string -> string, index: nat, block: RawBlock): StreamedBlock {
    StreamedBlock(index, if block.kind == "" then "policy_fact" else block.kind, redact(block.text), block.citations)
  }

  // The frames for blocks[first..], numbered by position in the whole answer.
  function Frames(redact: string -> string, blocks: seq<RawBlock>, first: nat): (frames: seq<StreamedBlock>)
    requires first <= |blocks|
    ensures |frames| == |blocks| - first
    ensures forall i :: 0 <= i < |frames| ==> frames[i] == Shown(redact, first + i, blocks[first + i])
  {
    seq(|blocks| - first, i requires 0 <= i < |blocks| - first => Shown(redact, first + i, blocks[first + i]))
  }

  ghost predicate Consistent(a: Assembler) {
    Wf(a.scanner) && a.emitted <= |a.scanner.blocks|
  }

  function Started(now: real): Assembler { Assembler(Fresh(), 0, now, 0, 0) }

  function Drained(c: Config, a: Assembler): (r: (Assembler, seq<StreamedBlock>))
    requires Consistent(a)
    ensures Consistent(r.0)
  {
    var scanner := Advanced(c.loads, a.scanner);
    AdvanceKeepsBlocks(c.loads, a.scanner);
    (a.(scanner := scanner, emitted := |scanner.blocks|, scans := a.scans + 1),
     Frames(c.redact, scanner.blocks, a.emitted))
  }

  predicate Due(c: Config, pending: nat, elapsed: real) {
    pending >= c.coalesceChars || elapsed >= c.coalesceS
  }

  function Fed(c: Config, a: Assembler, text: string, now: real): (r: (Assembler, seq<StreamedBlock>))
    requires Consistent(a)
    ensures Consistent(r.0)
  {
    var scanner, pending := Pushed(a.scanner, text), a.pending + |text|;
    if Due(c, pending, now - a.lastScan) then
      Drained(c, a.(scanner := scanner, pending := 0, lastScan := now))
    else (a.(scanner := scanner, pending := pending), [])
  }

  class AnswerAssembler {
    const config: Config
    const scanner: BlockScanner<RawBlock>
    var pending: nat
    var lastScan: real
    var emitted: nat
    var scans: nat

    ghost function State(): Assembler
      reads this, scanner
    {
      Assembler(scanner.State(), pending, lastScan, emitted, scans)
    }

    ghost predicate Valid()
      reads this, scanner
    {
      scanner.loads == config.loads && Consistent(State())
    }

    // `now` is what the clock reads.
    constructor (config: Config, now: real)
      ensures Valid() && fresh(scanner) && this.config == config && State() == Started(now)
    {
      this.config := config;
      scanner := new BlockScanner(config.loads);
      pending, lastScan, emitted, scans := 0, now, 0, 0;
    }

    // The frames of the blocks found by this push; none while the batch is too short and too recent.
    method Feed(text: string, now: real) returns (frames: seq<StreamedBlock>)
      requires Valid()
      modifies this, scanner
      ensures Valid() && (State(), frames) == Fed(config, old(State()), text, now)
    {
      scanner.Push(text);
      pending := pending + |text|;
      if pending < config.coalesceChars && now - lastScan < config.coalesceS {
        return [];
      }
      pending := 0;
      lastScan := now;
      frames := Drain();
    }

    // The frames of every block found and not yet emitted, whatever is pending.
    method Flush() returns (frames: seq<StreamedBlock>)
      requires Valid()
      modifies this, scanner
      ensures Valid() && (State(), frames) == Drained(config, old(State()))
    {
      frames := Drain();
    }

    method Drain() returns (frames: seq<StreamedBlock>)
      requires Valid()
      modifies this, scanner
      ensures Valid() && (State(), frames) == Drained(config, old(State()))
    {
      scans := scans + 1;
      AdvanceKeepsBlocks(config.loads, scanner.State());
      scanner.Advance();
      frames := Frames(config.redact, scanner.blocks, emitted);
      emitted := |scanner.blocks|;
    }
  }

  // ----- whole runs -----

  datatype Arrival = Feed(text: string, now: real) | Flush

  function Stepped(c: Config, a: Assembler, event: Arrival): (r: (Assembler, seq<StreamedBlock>))
    requires Consistent(a)
    ensures Consistent(r.0)
  {
    match event
    case Feed(text, now) => Fed(c, a, text, now)
    case Flush => Drained(c, a)
  }

  function Assembled(c: Config, t0: real, events: seq<Arrival>): (r: (Assembler, seq<StreamedBlock>))
    ensures Consistent(r.0)
  {
    if events == [] then (Started(t0), [])
    else
      var (before, out) := Assembled(c, t0, events[..|events| - 1]);
      var (after, frames) := Stepped(c, before, events[|events| - 1]);
      (after, out + frames)
  }

  // The text a run was fed.
  function Received(events: seq<Arrival>): string {
    if events == [] then ""
    else
      Received(events[..|events| - 1]) +
      match events[|events| - 1] case Feed(text, _) => text case Flush => ""
  }

  // The run as the scanner saw it: each event's text, and whether it ended in a scan.
  function Deltas(c: Config, t0: real, events: seq<Arrival>): seq<Delta> {
    if events == [] then []
    else
      var before := Assembled(c, t0, events[..|events| - 1]).0;
      Deltas(c, t0, events[..|events| - 1]) +
      [match events[|events| - 1]
       case Feed(text, now) => Delta(text, Due(c, before.pending + |text|, now - before.lastScan))
       case Flush => Delta("", true)]
  }

  lemma {:induction false} RunIsScannerRun(c: Config, t0: real, events: seq<Arrival>)
    ensures Assembled(c, t0, events).0.scanner == AnswerStream.Streamed(c.loads, Deltas(c, t0, events))
    ensures Text(Deltas(c, t0, events)) == Received(events)
  {
    if events != [] {
      var before := events[..|events| - 1];
      RunIsScannerRun(c, t0, before);
      var deltas := Deltas(c, t0, events);
      assert deltas[..|deltas| - 1] == Deltas(c, t0, before);
      var scanner := Assembled(c, t0, before).0.scanner;
      assert Pushed(scanner, "") == scanner;
    }
  }

  // One event emits exactly the blocks it added, numbered on from the last.
  lemma StepEmits(c: Config, a: Assembler, event: Arrival)
    requires Consistent(a) && a.emitted == |a.scanner.blocks|
    ensures var (after, frames) := Stepped(c, a, event);
            && after.emitted == |after.scanner.blocks|
            && Frames(c.redact, a.scanner.blocks, 0) + frames == Frames(c.redact, after.scanner.blocks, 0)
  {
    var (after, frames) := Stepped(c, a, event);
    match event {
      case Feed(text, now) => AdvanceKeepsBlocks(c.loads, Pushed(a.scanner, text));
      case Flush => AdvanceKeepsBlocks(c.loads, a.scanner);
    }
    assert a.scanner.blocks <= after.scanner.blocks;
    assert frames == Frames(c.redact, after.scanner.blocks, a.emitted);
  }

  // Every block the scanner holds has been emitted exactly once, in order, under its own index.
  lemma {:induction false} EmittedAll(c: Config, t0: real, events: seq<Arrival>)
    ensures var (a, out) := Assembled(c, t0, events);
            a.emitted == |a.scanner.blocks| && out == Frames(c.redact, a.scanner.blocks, 0)
  {
    if events != [] {
      EmittedAll(c, t0, events[..|events| - 1]);
      StepEmits(c, Assembled(c, t0, events[..|events| - 1]).0, events[|events| - 1]);
    }
  }

  // What a reader has been shown is always a prefix of what one scan of all the text would show,
  // with indexes 0, 1, 2, ...; after a flush it is the whole of it.
  lemma EmissionIsPrefix(c: Config, t0: real, events: seq<Arrival>)
    ensures var out := Assembled(c, t0, events).1;
            var whole := Frames(c.redact, OneShot(c.loads, Received(events)).blocks, 0);
            && out <= whole
            && (forall i :: 0 <= i < |out| ==> out[i].index == i)
            && (events != [] && events[|events| - 1].Flush? ==> out == whole)
  {
    EmittedAll(c, t0, events);
    RunIsScannerRun(c, t0, events);
    var deltas := Deltas(c, t0, events);
    ChunkingIndependence(c.loads, deltas);
    AdvanceKeepsBlocks(c.loads, Assembled(c, t0, events).0.scanner);
  }

  // ----- when a feed scans, and what a scan shows -----

  // The counters an event moves.
  lemma StepCounts(c: Config, a: Assembler, event: Arrival)
    requires Consistent(a)
    ensures var after := Stepped(c, a, event).0;
            match event
            case Feed(text, now) =>
              var pending := a.pending + |text|;
              if Due(c, pending, now - a.lastScan)
              then after.scans == a.scans + 1 && after.pending == 0 && after.lastScan == now
              else after.scans == a.scans && after.pending == pending && after.lastScan == a.lastScan
            case Flush => after.scans == a.scans + 1 && after.pending == a.pending && after.lastScan == a.lastScan
  {
  }

  // The last event ended in a scan.
  predicate Scanned(c: Config, t0: real, events: seq<Arrival>)
    requires events != []
  {
    Assembled(c, t0, events).0.scans > Assembled(c, t0, events[..|events| - 1]).0.scans
  }

  // How many events there were up to the last feed that scanned, that one included; 0 if none did.
  function LastFeedScan(c: Config, t0: real, events: seq<Arrival>): (n: nat)
    ensures n <= |events| && (n > 0 ==> events[n - 1].Feed?)
  {
    if events == [] then 0
    else if events[|events| - 1].Feed? && Scanned(c, t0, events) then |events|
    else LastFeedScan(c, t0, events[..|events| - 1])
  }

  // The characters fed since then.
  function Unscanned(c: Config, t0: real, events: seq<Arrival>): int {
    |Received(events)| - |Received(events[..LastFeedScan(c, t0, events)])|
  }

  // What the clock read then.
  function ScanReading(c: Config, t0: real, events: seq<Arrival>): real {
    var n := LastFeedScan(c, t0, events);
    if n == 0 then t0 else events[n - 1].now
  }

  lemma {:induction false} CountersAreOfTheRun(c: Config, t0: real, events: seq<Arrival>)
    ensures var a := Assembled(c, t0, events).0;
            a.pending == Unscanned(c, t0, events) && a.lastScan == ScanReading(c, t0, events)
  {
    if events != [] {
      var n := |events| - 1;
      CountersAreOfTheRun(c, t0, events[..n]);
      StepCounts(c, Assembled(c, t0, events[..n]).0, events[n]);
      assert events[..|events|] == events;
      var m := LastFeedScan(c, t0, events[..n]);
      assert events[..n][..m] == events[..m];
    }
  }

  // Whatever ends in a scan has been shown whole.
  lemma ScanShowsAll(c: Config, t0: real, events: seq<Arrival>)
    requires events != [] && Scanned(c, t0, events)
    ensures Assembled(c, t0, events).1 == Frames(c.redact, OneShot(c.loads, Received(events)).blocks, 0)
  {
    var before, event := events[..|events| - 1], events[|events| - 1];
    EmittedAll(c, t0, events);
    RunIsScannerRun(c, t0, events);
    ChunkingIndependence(c.loads, Deltas(c, t0, events));
    StepCounts(c, Assembled(c, t0, before).0, event);
  }

  // A feed scans, and shows all there is to show, exactly when the characters fed since the last feed
  // that scanned fill a batch, or the time since then is up; otherwise it shows nothing.
  lemma FeedScansWhenDue(c: Config, t0: real, events: seq<Arrival>)
    requires events != [] && events[|events| - 1].Feed?
    ensures var before, feed := events[..|events| - 1], events[|events| - 1];
            var waiting, elapsed := Unscanned(c, t0, before) + |feed.text|, feed.now - ScanReading(c, t0, before);
            var (a, out) := Assembled(c, t0, events);
            if waiting >= c.coalesceChars || elapsed >= c.coalesceS then
              && a.scans == Assembled(c, t0, before).0.scans + 1
              && out == Frames(c.redact, OneShot(c.loads, Received(events)).blocks, 0)
            else
              a.scans == Assembled(c, t0, before).0.scans && out == Assembled(c, t0, before).1
  {
    var before, feed := events[..|events| - 1], events[|events| - 1];
    CountersAreOfTheRun(c, t0, before);
    StepCounts(c, Assembled(c, t0, before).0, feed);
    if Scanned(c, t0, events) {
      ScanShowsAll(c, t0, events);
    }
  }

  // What is shown of a block: its place, its kind, its citations, and its text as the redactor leaves it.
  lemma ShownRedacted(c: Config, t0: real, events: seq<Arrival>)
    ensures var out, blocks := Assembled(c, t0, events).1, OneShot(c.loads, Received(events)).blocks;
            && |out| <= |blocks|
            && forall i :: 0 <= i < |out| ==>
                 && out[i].index == i && out[i].text == c.redact(blocks[i].text)
                 && out[i].citations == blocks[i].citations
                 && (blocks[i].kind != "" ==> out[i].kind == blocks[i].kind)
                 && (blocks[i].kind == "" ==> out[i].kind == "policy_fact")
  {
    EmissionIsPrefix(c, t0, events);
    var out, whole := Assembled(c, t0, events).1, Frames(c.redact, OneShot(c.loads, Received(events)).blocks, 0);
    assert forall i :: 0 <= i < |out| ==> out[i] == whole[i];
  }

  // ----- what coalescing bounds -----

  predicate MonotoneClock(t0: real, events: seq<Arrival>) {
    events == [] ||
    (MonotoneClock(t0, events[..|events| - 1]) &&
     match events[|events| - 1]
     case Feed(_, now) => now >= LastReading(t0, events[..|events| - 1])
     case Flush => true)
  }

  function LastReading(t0: real, events: seq<Arrival>): real {
    if events == [] then t0
    else match events[|events| - 1]
      case Feed(_, now) => now
      case Flush => LastReading(t0, events[..|events| - 1])
  }

  function Flushes(events: seq<Arrival>): nat {
    if events == [] then 0
    else Flushes(events[..|events| - 1]) + if events[|events| - 1].Flush? then 1 else 0
  }

  // Every scan but the flushes was paid for: by a batch of characters no other scan counted, or by
  // a stretch of time no other scan counted.
  lemma {:induction false} PaidScans(c: Config, t0: real, events: seq<Arrival>) returns (byChars: nat, byTime: nat)
    requires c.coalesceChars > 0 && c.coalesceS > 0.0 && MonotoneClock(t0, events)
    ensures var a := Assembled(c, t0, events).0;
            && a.pending <= |Received(events)| && t0 <= a.lastScan <= LastReading(t0, events)
            && a.scans == byChars + byTime + Flushes(events)
            && Batched(byChars, c.coalesceChars) <= |Received(events)| - a.pending
            && Spent(byTime, c.coalesceS) <= a.lastScan - t0
  {
    if events == [] {
      return 0, 0;
    }
    var before, event := events[..|events| - 1], events[|events| - 1];
    byChars, byTime := PaidScans(c, t0, before);
    var a := Assembled(c, t0, before).0;
    StepCounts(c, a, event);
    if event.Feed? && Due(c, a.pending + |event.text|, event.now - a.lastScan) {
      byChars, byTime := PayForScan(c, a.pending + |event.text|, event.now - a.lastScan,
                                    byChars, |Received(before)| - a.pending, byTime, a.lastScan - t0);
    }
  }

  // A due scan spends the characters pending or the time elapsed.
  lemma PayForScan(c: Config, pending: nat, elapsed: real, byChars: nat, chars: int, byTime: nat, time: real)
    returns (byChars': nat, byTime': nat)
    requires Due(c, pending, elapsed) && elapsed >= 0.0
    requires Batched(byChars, c.coalesceChars) <= chars && Spent(byTime, c.coalesceS) <= time
    ensures byChars' + byTime' == byChars + byTime + 1
    ensures Batched(byChars', c.coalesceChars) <= chars + pending
    ensures Spent(byTime', c.coalesceS) <= time + elapsed
  {
    if pending >= c.coalesceChars {
      return byChars + 1, byTime;
    } else {
      return byChars, byTime + 1;
    }
  }

  // The time that `k` scans of at least `d` seconds apart take.
  function Spent(k: nat, d: real): real { if k == 0 then 0.0 else Spent(k - 1, d) + d }

  // The characters that `k` batches of at least `d` characters hold.
  function Batched(k: nat, d: int): int { if k == 0 then 0 else Batched(k - 1, d) + d }

  lemma {:induction false} BatchedIsMultiple(k: nat, d: int)
    ensures Batched(k, d) == k * d
  {
    if k > 0 {
      BatchedIsMultiple(k - 1, d);
      assert k * d == (k - 1) * d + d;
    }
  }

  lemma QuotientBounds(k: nat, n: nat, d: nat)
    requires d > 0 && k * d <= n
    ensures k <= n / d
  {
    assert n < (n / d + 1) * d;
    if k >= n / d + 1 {
      assert false;
    }
  }

  lemma {:induction false} SpentIsMultiple(k: nat, d: real)
    requires d > 0.0
    ensures Spent(k, d) / d == k as real
  {
    if k > 0 {
      SpentIsMultiple(k - 1, d);
      var before := Spent(k - 1, d);
      assert (before + d) / d == before / d + d / d;
    }
  }

  lemma TimeBounds(k: nat, t: real, d: real)
    requires d > 0.0 && Spent(k, d) <= t
    ensures k <= (t / d).Floor
  {
    SpentIsMultiple(k, d);
    QuotientMonotone(Spent(k, d), t, d);
  }

  lemma QuotientMonotone(x: real, y: real, d: real)
    requires d > 0.0 && x <= y
    ensures x / d <= y / d
  {
  }

  // The bound coalescing exists for: scans cost characters, time or an explicit flush.
  lemma ScansAreBounded(c: Config, t0: real, events: seq<Arrival>)
    requires c.coalesceChars > 0 && c.coalesceS > 0.0 && MonotoneClock(t0, events)
    ensures Assembled(c, t0, events).0.scans
            <= |Received(events)| / c.coalesceChars
               + ((LastReading(t0, events) - t0) / c.coalesceS).Floor
               + Flushes(events)
  {
    var byChars, byTime := PaidScans(c, t0, events);
    BatchedIsMultiple(byChars, c.coalesceChars);
    QuotientBounds(byChars, |Received(events)|, c.coalesceChars);
    TimeBounds(byTime, LastReading(t0, events) - t0, c.coalesceS);
  }
}
