// The answer while it is still arriving: which blocks are found, and shown, of a body cut off anywhere
// (src/hrmosaic/agent/answer_stream.py:82-205).
module GrowingBody {
  import opened AnswerAssembly
  import opened AnswerBody
  import opened AnswerStream
  import opened Texts

  // ----- a text in which no object of the array closes -----

  const TOP := Mode(0, false, false)

  // Read from mode `m` on: the array ends, or the text does, before a brace comes back to its top.
  predicate ClosesNone(m: Mode, text: string)
    decreases |text|
  {
    || text == "" || (m.depth == 0 && !m.inString && text[0] == ']')
    || (!(m.depth == 1 && !m.inString && text[0] == '}') && ClosesNone(ReadChar(m, text[0]), text[1..]))
  }

  lemma StepWaiting<Block>(loads: Decoder<Block>, s: ScanState<Block>)
    requires Wf(s) && !s.done && s.cursor < |s.buffer| && ClosesNone(ModeOf(s), Waiting(s))
    ensures var next := Step(loads, s);
            next.blocks == s.blocks && (next.done || ClosesNone(ModeOf(next), Waiting(next)))
  {
    var text, next := Waiting(s), Step(loads, s);
    assert text[0] == s.buffer[s.cursor] && Waiting(next) == text[1..];
    if !next.done {
      assert ModeOf(next) == ReadChar(ModeOf(s), text[0]);
    }
  }

  lemma {:induction false} ClosesNoneScan<Block>(loads: Decoder<Block>, s: ScanState<Block>)
    requires Wf(s) && ClosesNone(ModeOf(s), Waiting(s))
    ensures Scan(loads, s).blocks == s.blocks
    decreases |s.buffer| - s.cursor
  {
    if !s.done && s.cursor < |s.buffer| {
      StepWaiting(loads, s);
      var next := Step(loads, s);
      if next.done {
        assert Scan(loads, next) == next;
      } else {
        ClosesNoneScan(loads, next);
      }
    }
  }

  lemma {:induction false} ClosesNoneFront(m: Mode, front: string, rest: string)
    requires ClosesNone(m, front + rest)
    ensures ClosesNone(m, front)
    decreases |front|
  {
    if front != "" {
      var text := front + rest;
      assert text[0] == front[0] && text[1..] == front[1..] + rest;
      if !(m.depth == 0 && !m.inString && front[0] == ']') {
        ClosesNoneFront(ReadChar(m, front[0]), front[1..], rest);
      }
    }
  }

  lemma ClosesNonePrefix(m: Mode, front: string, text: string)
    requires front <= text && ClosesNone(m, text)
    ensures ClosesNone(m, front)
  {
    assert text == front + text[|front|..];
    ClosesNoneFront(m, front, text[|front|..]);
  }

  lemma {:induction false} IdleThen(idle: string, text: string)
    requires AllIdle(idle) && ClosesNone(TOP, text)
    ensures ClosesNone(TOP, idle + text)
    decreases |idle|
  {
    if idle == "" {
      assert idle + text == text;
    } else {
      assert (idle + text)[0] == idle[0] && (idle + text)[1..] == idle[1..] + text;
      IdleThen(idle[1..], text);
    }
  }

  lemma {:induction false} DeepClosesNone(m: Mode, text: string)
    requires Deep(m, text)
    ensures ClosesNone(m, text)
    decreases |text|
  {
    if text != "" {
      DeepClosesNone(ReadChar(m, text[0]), text[1..]);
    }
  }

  // An object that has not arrived whole.
  lemma UnfinishedObject(before: string, v: SyntaxTree, text: string)
    requires Blank(before) && v.JObject? && Grammatical(v)
    requires text <= before + ValueText(v) && |text| < |before| + |ValueText(v)|
    ensures ClosesNone(TOP, text)
  {
    var body := ObjectBody(v);
    ObjectWalk(TOP, v);
    DeepClosesNone(TOP.(depth := 1), body);
    assert ("{" + body)[0] == '{' && ("{" + body)[1..] == body;
    assert ClosesNone(TOP, "{" + body);
    BlankIsIdle(before);
    IdleThen(before, "{" + body);
    assert text <= before + ("{" + body) by {
      assert before + ValueText(v) == (before + ("{" + body)) + "}";
    }
    ClosesNonePrefix(TOP, text, before + ("{" + body));
  }

  // ----- what has arrived of a body -----

  // Whatever follows the objects that have arrived, they have all been handed over, in order; and they
  // are all the blocks there are, exactly as long as nothing behind them closes another.
  lemma GrowingRoundTrip<Block>(loads: Decoder<Block>, head: string, gap: string, blank: string, es: seq<Slot>,
                                rest: string)
    requires Opens(head, gap) && Blank(blank)
    requires forall e :: e in es ==> GrammaticalEntry(e)
    ensures var (blocks, all) := Collect(loads, [], Spans(es));
            var found := OneShot(loads, head + BLOCKS_KEY + gap + "[" + (blank + (EntriesText(es) + rest))).blocks;
            blocks <= found && (!all || ClosesNone(TOP, rest) ==> found == blocks)
  {
    OpenBody<Block>(head, gap, blank + (EntriesText(es) + rest));
    var text := head + BLOCKS_KEY + gap + "[" + (blank + (EntriesText(es) + rest));
    var s := OpenArray(Pushed<Block>(Fresh(), text));
    SkipBlank(loads, s, blank, EntriesText(es) + rest);
    var r := EntriesTaken(loads, Skipped(s, |blank|), es, rest);
    ScanFrame(loads, r);
    if !r.done && ClosesNone(TOP, rest) {
      ClosesNoneScan(loads, r);
    }
  }

  // Where the k-th object ends, counted from where the first entry begins.
  function ObjectEnd(es: seq<Slot>, k: nat): nat
    requires k < |es|
    decreases |es|
  {
    if k == 0 then |es[0].before| + |ValueText(es[0].value)| else EntryLength(es[0]) + 1 + ObjectEnd(es[1..], k - 1)
  }

  // The first n characters hold the closing braces of the first k objects, and of no other.
  predicate ClosedBy(es: seq<Slot>, k: nat, n: int) {
    && k <= |es|
    && (k > 0 ==> ObjectEnd(es, k - 1) <= n)
    && (k < |es| ==> n < ObjectEnd(es, k))
  }

  // What is written behind the object of the first entry.
  function BehindEntry(es: seq<Slot>, tail: string): string
    requires es != []
  {
    es[0].after + (if |es| == 1 then tail else "," + (EntriesText(es[1..]) + tail))
  }

  lemma EntryApart(es: seq<Slot>, tail: string)
    requires es != []
    ensures EntriesText(es) + tail == es[0].before + (ValueText(es[0].value) + BehindEntry(es, tail))
  {
  }

  lemma CutApart(front: string, rest: string, text: string)
    requires text <= front + rest && |front| <= |text|
    ensures text == front + text[|front|..] && text[|front|..] <= rest
  {
    assert (front + rest)[..|front|] == front && (front + rest)[|front|..] == rest;
  }

  lemma {:induction false} CutScan<Block>(loads: Decoder<Block>, s: ScanState<Block>, es: seq<Slot>, tail: string,
                                          text: string, k: nat)
    requires AtTop(s) && Waiting(s) == text && text <= EntriesText(es) + ([']'] + tail)
    requires ClosedBy(es, k, |text|) && forall e :: e in es ==> GrammaticalEntry(e)
    ensures Scan(loads, s).blocks == Collect(loads, s.blocks, Spans(es[..k])).0
    decreases k
  {
    if k == 0 {
      CutOpen(s, es, tail, text);
      ClosesNoneScan(loads, s);
    } else {
      EntryApart(es, [']'] + tail);
      var before, span := es[0].before, ValueText(es[0].value);
      var rest := CutEntry(before, span, BehindEntry(es, [']'] + tail), text);
      ObjectTaken(loads, s, es[0], rest);
      CollectFirst(loads, s.blocks, es, k);
      if !loads(span).Malformed? {
        CutBehind(loads, Took(loads, Skipped(s, |before|), span), es, tail, rest, k);
      }
    }
  }

  lemma ObjectTaken<Block>(loads: Decoder<Block>, s: ScanState<Block>, e: Slot, rest: string)
    requires AtTop(s) && GrammaticalEntry(e) && Waiting(s) == e.before + (ValueText(e.value) + rest)
    ensures var span := ValueText(e.value);
            var r := Took(loads, Skipped(s, |e.before|), span);
            && Wf(r) && Waiting(r) == rest && r.blocks == Taken(loads, s.blocks, span)
            && Scan(loads, s) == (if loads(span).Malformed? then r else Scan(loads, r))
            && (!loads(span).Malformed? ==> AtTop(r))
  {
    SkipBlank(loads, s, e.before, ValueText(e.value) + rest);
    ObjectScan(loads, Skipped(s, |e.before|), e.value, rest);
  }

  lemma CollectFirst<Block>(loads: Decoder<Block>, blocks: seq<Block>, es: seq<Slot>, k: nat)
    requires 0 < k <= |es|
    ensures var span := ValueText(es[0].value);
            var taken := Taken(loads, blocks, span);
            Collect(loads, blocks, Spans(es[..k])).0
            == if loads(span).Malformed? then taken else Collect(loads, taken, Spans(es[1..][..k - 1])).0
  {
    var spans := Spans(es[..k]);
    assert spans[0] == ValueText(es[0].value) && spans[1..] == Spans(es[1..][..k - 1]);
  }

  lemma CutOpen<Block>(s: ScanState<Block>, es: seq<Slot>, tail: string, text: string)
    requires AtTop(s) && text <= EntriesText(es) + ([']'] + tail)
    requires ClosedBy(es, 0, |text|) && forall e :: e in es ==> GrammaticalEntry(e)
    ensures ClosesNone(ModeOf(s), text)
  {
    assert ModeOf(s) == TOP;
    if es == [] {
      assert ClosesNone(TOP, [']'] + tail);
      assert EntriesText(es) + ([']'] + tail) == [']'] + tail;
      ClosesNonePrefix(TOP, text, [']'] + tail);
    } else {
      assert GrammaticalEntry(es[0]);
      EntryApart(es, [']'] + tail);
      var entry, behind := es[0].before + ValueText(es[0].value), BehindEntry(es, [']'] + tail);
      assert es[0].before + (ValueText(es[0].value) + behind) == entry + behind;
      CutShort(entry, behind, text);
      UnfinishedObject(es[0].before, es[0].value, text);
    }
  }

  lemma CutEntry(before: string, span: string, behind: string, text: string) returns (rest: string)
    requires text <= before + (span + behind) && |before| + |span| <= |text|
    ensures text == before + (span + rest) && rest <= behind && |text| == |before| + |span| + |rest|
  {
    CutApart(before, span + behind, text);
    CutApart(span, behind, text[|before|..]);
    rest := text[|before|..][|span|..];
  }

  lemma CutShort(front: string, rest: string, text: string)
    requires text <= front + rest && |text| <= |front|
    ensures text <= front
  {
  }

  lemma {:induction false} CutBehind<Block>(loads: Decoder<Block>, s: ScanState<Block>, es: seq<Slot>, tail: string,
                                            text: string, k: nat)
    requires k > 0 && AtTop(s) && Waiting(s) == text && es != [] && text <= BehindEntry(es, [']'] + tail)
    requires ClosedBy(es, k, |es[0].before| + |ValueText(es[0].value)| + |text|)
    requires forall e :: e in es ==> GrammaticalEntry(e)
    ensures Scan(loads, s).blocks == Collect(loads, s.blocks, Spans(es[1..][..k - 1])).0
    decreases k, 0
  {
    assert GrammaticalEntry(es[0]);
    if |es| == 1 || |text| <= |es[0].after| {
      assert ModeOf(s) == TOP;
      BetweenObjects(es, tail, text);
      ClosesNoneScan(loads, s);
    } else {
      var rest := NextEntries(loads, s, es, tail, text);
      ClosedNext(es, k, |rest|);
      CutScan(loads, Skipped(s, |es[0].after| + 1), es[1..], tail, rest, k - 1);
    }
  }

  lemma NextEntries<Block>(loads: Decoder<Block>, s: ScanState<Block>, es: seq<Slot>, tail: string, text: string)
    returns (rest: string)
    requires AtTop(s) && Waiting(s) == text && |es| > 1 && GrammaticalEntry(es[0])
    requires text <= BehindEntry(es, [']'] + tail) && |es[0].after| < |text|
    ensures |text| == |es[0].after| + 1 + |rest| && rest <= EntriesText(es[1..]) + ([']'] + tail)
    ensures var r := Skipped(s, |es[0].after| + 1);
            AtTop(r) && Waiting(r) == rest && Scan(loads, s) == Scan(loads, r)
  {
    var lead, entries := es[0].after + ",", EntriesText(es[1..]) + ([']'] + tail);
    BlankIsIdle(es[0].after);
    IdleThenComma(es[0].after);
    assert BehindEntry(es, [']'] + tail) == lead + entries;
    CutApart(lead, entries, text);
    rest := text[|lead|..];
    SkipScan(loads, s, lead, rest);
  }

  lemma {:induction false} ClosedNext(es: seq<Slot>, k: nat, n: int)
    requires k > 0 && |es| > 1 && ClosedBy(es, k, EntryLength(es[0]) + 1 + n) && n >= 0
    ensures ClosedBy(es[1..], k - 1, n)
  {
  }

  lemma BetweenObjects(es: seq<Slot>, tail: string, text: string)
    requires es != [] && Blank(es[0].after) && text <= BehindEntry(es, [']'] + tail)
    requires |es| == 1 || |text| <= |es[0].after|
    ensures ClosesNone(TOP, text)
  {
    var after := es[0].after;
    BlankIsIdle(after);
    assert ClosesNone(TOP, [']'] + tail) && ClosesNone(TOP, "");
    IdleThen(after, if |es| == 1 then [']'] + tail else "");
    ClosesNonePrefix(TOP, text, after + (if |es| == 1 then [']'] + tail else ""));
  }

  lemma {:induction false} IdleThenComma(after: string)
    requires AllIdle(after)
    ensures AllIdle(after + ",")
    decreases |after|
  {
    if after != "" {
      assert (after + ",")[0] == after[0] && (after + ",")[1..] == after[1..] + ",";
      IdleThenComma(after[1..]);
    }
  }

  // Cut off anywhere in the array or behind it, the body has given up exactly the objects whose closing
  // braces have arrived.
  lemma CutRoundTrip<Block>(loads: Decoder<Block>, head: string, gap: string, blank: string, es: seq<Slot>,
                            tail: string, n: nat, k: nat)
    requires Opens(head, gap) && Blank(blank)
    requires forall e :: e in es ==> GrammaticalEntry(e)
    requires n <= |BodyText(head, gap, blank, es) + tail|
    requires ClosedBy(es, k, n - |head + BLOCKS_KEY + gap + "[" + blank|)
    ensures OneShot(loads, (BodyText(head, gap, blank, es) + tail)[..n]).blocks
            == Collect(loads, [], Spans(es[..k])).0
  {
    var front, entries := head + BLOCKS_KEY + gap + "[", EntriesText(es) + ([']'] + tail);
    var whole := BodyText(head, gap, blank, es) + tail;
    BodyTail(front, blank, EntriesText(es), tail);
    assert whole == front + (blank + entries);
    var text := whole[..n];
    if n < |front| + |blank| {
      NothingYet<Block>(loads, head, gap, blank, text);
    } else {
      assert text == front + (blank + text[|front| + |blank|..]) && text[|front| + |blank|..] <= entries;
      var rest := text[|front| + |blank|..];
      OpenBody<Block>(head, gap, blank + rest);
      var s := OpenArray(Pushed<Block>(Fresh(), front + (blank + rest)));
      SkipBlank(loads, s, blank, rest);
      CutScan(loads, Skipped(s, |blank|), es, tail, rest, k);
    }
  }

  lemma NothingYet<Block>(loads: Decoder<Block>, head: string, gap: string, blank: string, text: string)
    requires Opens(head, gap) && Blank(blank) && text <= head + BLOCKS_KEY + gap + "[" + blank
    ensures OneShot(loads, text).blocks == []
  {
    var whole := head + BLOCKS_KEY + gap + "[" + blank;
    GrowingRoundTrip(loads, head, gap, blank, [], "");
    assert blank + (EntriesText([]) + "") == blank;
    BlocksGrow(loads, text, whole[|text|..]);
    assert text + whole[|text|..] == whole;
  }

  // While the body grows: whatever has been shown is of objects whose closing braces have arrived, and
  // each of them has been shown by the first scan behind its brace.
  lemma ShownWhileGrowing(c: Config, t0: real, events: seq<Arrival>, head: string, gap: string, blank: string,
                          es: seq<Slot>, tail: string, k: nat)
    requires Opens(head, gap) && Blank(blank)
    requires forall e :: e in es ==> GrammaticalEntry(e)
    requires Received(events) <= BodyText(head, gap, blank, es) + tail
    requires ClosedBy(es, k, |Received(events)| - |head + BLOCKS_KEY + gap + "[" + blank|)
    ensures var out, closed := Assembled(c, t0, events).1, Frames(c.redact, Collect(c.loads, [], Spans(es[..k])).0, 0);
            out <= closed && (events != [] && Scanned(c, t0, events) ==> out == closed)
  {
    var text := Received(events);
    CutRoundTrip(c.loads, head, gap, blank, es, tail, |text|, k);
    assert (BodyText(head, gap, blank, es) + tail)[..|text|] == text;
    EmissionIsPrefix(c, t0, events);
    if events != [] && Scanned(c, t0, events) {
      ScanShowsAll(c, t0, events);
    }
  }
}
