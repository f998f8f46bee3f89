// The resumable scanner of a growing answer body: each object of its block array is decoded when it closes
// (src/hrmosaic/agent/answer_stream.py).
module AnswerStream {
  import opened Texts

  // What json.loads says about one span. The decoder is an arbitrary total function.
  datatype Decoded<Block> = Malformed | NotAnObject | Object(block: Block)

  type Decoder<!Block> = string -> Decoded<Block>

  const BLOCKS_KEY := "\"blocks\""

  datatype ScanState<Block> = ScanState(
    blocks: seq<Block>,
    done: bool,
    buffer: string,
    cursor: nat,
    inArray: bool,
    depth: int,
    start: int,
    inString: bool,
    escaped: bool)

  function Fresh<Block>(): ScanState<Block> {
    ScanState([], false, "", 0, false, 0, -1, false, false)
  }

  // An open object began at `start`, inside what has already been consumed.
  predicate Wf<Block>(s: ScanState<Block>) {
    s.cursor <= |s.buffer| && (s.depth > 0 ==> 0 <= s.start < s.cursor)
  }

  function Pushed<Block>(s: ScanState<Block>, text: string): ScanState<Block> {
    s.(buffer := s.buffer + text)
  }

  // The blocks after one balanced span has been handed to the decoder.
  function Taken<Block>(loads: Decoder<Block>, blocks: seq<Block>, raw: string): seq<Block> {
    match loads(raw)
    case Object(block) => blocks + [block]
    case _ => blocks
  }

  // One character.
  function Step<Block>(loads: Decoder<Block>, s: ScanState<Block>): (r: ScanState<Block>)
    requires Wf(s) && s.cursor < |s.buffer| && !s.done
    ensures Wf(r) && r.cursor == s.cursor + 1
    ensures r.buffer == s.buffer && r.inArray == s.inArray && s.blocks <= r.blocks
  {
    var c := s.buffer[s.cursor];
    var n := s.(cursor := s.cursor + 1);
    if s.inString then
      if s.escaped then n.(escaped := false)
      else if c == '\\' then n.(escaped := true)
      else if c == '"' then n.(inString := false)
      else n
    else if c == '"' then n.(inString := true)
    else if c == '{' then n.(depth := s.depth + 1, start := if s.depth == 0 then s.cursor else s.start)
    else if c == '}' then
      if s.depth == 1 then
        var raw := s.buffer[s.start..s.cursor + 1];
        n.(depth := 0, blocks := Taken(loads, s.blocks, raw), done := loads(raw).Malformed?)
      else n.(depth := s.depth - 1)
    else if c == ']' && s.depth == 0 then n.(done := true)
    else n
  }

  function Scan<Block>(loads: Decoder<Block>, s: ScanState<Block>): (r: ScanState<Block>)
    requires Wf(s)
    ensures Wf(r)
    decreases |s.buffer| - s.cursor
  {
    if s.done || s.cursor == |s.buffer| then s else Scan(loads, Step(loads, s))
  }

  // Enter the array of the first `"blocks"` key, when both the key and its bracket have arrived.
  function OpenArray<Block>(s: ScanState<Block>): (r: ScanState<Block>)
    requires Wf(s)
    ensures Wf(r)
  {
    var head := Find(s.buffer, BLOCKS_KEY, s.cursor);
    if head < 0 then s
    else
      var bracket := Find(s.buffer, "[", head + |BLOCKS_KEY|);
      if bracket < 0 then s else s.(inArray := true, cursor := bracket + 1)
  }

  function Advanced<Block>(loads: Decoder<Block>, s: ScanState<Block>): (r: ScanState<Block>)
    requires Wf(s)
    ensures Wf(r)
  {
    if s.done then s
    else
      var entered := if s.inArray then s else OpenArray(s);
      if entered.inArray then Scan(loads, entered) else s
  }

  class BlockScanner<Block> {
    const loads: Decoder<Block>
    var blocks: seq<Block>
    var done: bool
    var buffer: string
    var cursor: nat
    var inArray: bool
    var depth: int
    var start: int
    var inString: bool
    var escaped: bool

    ghost function State(): ScanState<Block>
      reads this
    {
      ScanState(blocks, done, buffer, cursor, inArray, depth, start, inString, escaped)
    }

    ghost predicate Valid()
      reads this
    {
      Wf(State())
    }

    // What the fields say once `index` characters have been consumed; the cursor field itself is
    // only brought up to date when the loop is left.
    ghost function StateAt(index: nat): ScanState<Block>
      reads this
    {
      State().(cursor := index)
    }

    constructor (loads: Decoder<Block>)
      ensures Valid() && State() == Fresh() && this.loads == loads
    {
      this.loads := loads;
      blocks, done, buffer, cursor := [], false, "", 0;
      inArray, depth, start, inString, escaped := false, 0, -1, false, false;
    }

    method Push(text: string)
      requires Valid()
      modifies this
      ensures Valid() && State() == Pushed(old(State()), text)
    {
      buffer := buffer + text;
    }

    // Nothing once the scan is done; otherwise the array is looked for, then the buffer is read to its end.
    method Advance()
      requires Valid()
      modifies this
      ensures Valid() && State() == Advanced(loads, old(State()))
    {
      if done {
        return;
      }
      if !inArray {
        var entered := TryOpenArray();
        if !entered {
          return;
        }
      }
      ScanBuffer();
    }

    // The loop of Advance: to the end of the buffer, of the array, or of what will decode.
    method ScanBuffer()
      requires Valid() && !done
      modifies this
      ensures State() == Scan(loads, old(State()))
    {
      var index: nat := cursor;
      ghost var here := State();
      while index < |buffer|
        invariant here == StateAt(index) && Wf(here) && !done
        invariant Scan(loads, here) == Scan(loads, old(State()))
      {
        here := Step(loads, here);
        ReadCharacter(index);
        index := index + 1;
        if done {
          break;
        }
      }
      cursor := index;
    }

    method ReadCharacter(index: nat)
      requires index < |buffer| && !done && Wf(StateAt(index))
      modifies this
      ensures StateAt(index + 1) == Step(loads, old(StateAt(index)))
    {
      var c := buffer[index];
      if inString {
        if escaped {
          escaped := false;
        } else if c == '\\' {
          escaped := true;
        } else if c == '"' {
          inString := false;
        }
      } else if c == '"' {
        inString := true;
      } else if c == '{' {
        if depth == 0 {
          start := index;
        }
        depth := depth + 1;
      } else if c == '}' {
        depth := depth - 1;
        if depth == 0 {
          TryTake(buffer[start..index + 1]);
        }
      } else if c == ']' && depth == 0 {
        done := true;
      }
    }

    method TryOpenArray() returns (entered: bool)
      requires Valid() && !inArray
      modifies this
      ensures Valid() && State() == OpenArray(old(State())) && entered == inArray
    {
      var head := Find(buffer, BLOCKS_KEY, cursor);
      if head < 0 {
        return false;
      }
      var bracket := Find(buffer, "[", head + |BLOCKS_KEY|);
      if bracket < 0 {
        return false;
      }
      inArray := true;
      cursor := bracket + 1;
      return true;
    }

    // What decoding a span does: an object joins the blocks, an undecodable span ends the scan.
    method TryTake(raw: string)
      modifies this`done, this`blocks
      ensures blocks == Taken(loads, old(blocks), raw)
      ensures done == (old(done) || loads(raw).Malformed?)
    {
      match loads(raw) {
        case Malformed => done := true;
        case NotAnObject =>
        case Object(block) => blocks := blocks + [block];
      }
    }
  }

  // ----- chunking independence -----

  // Consuming one buffered character does not look at what arrives later.
  lemma StepPush<Block>(loads: Decoder<Block>, s: ScanState<Block>, text: string)
    requires Wf(s) && s.cursor < |s.buffer| && !s.done
    ensures Wf(Pushed(s, text)) && Step(loads, Pushed(s, text)) == Pushed(Step(loads, s), text)
  {
    assert Pushed(s, text).buffer[s.cursor] == s.buffer[s.cursor];
    if s.depth > 0 {
      assert (s.buffer + text)[s.start..s.cursor + 1] == s.buffer[s.start..s.cursor + 1];
    }
  }

  lemma {:induction false} ScanPush<Block>(loads: Decoder<Block>, s: ScanState<Block>, text: string)
    requires Wf(s)
    ensures Wf(Pushed(s, text)) && Wf(Pushed(Scan(loads, s), text))
    ensures Scan(loads, Pushed(Scan(loads, s), text)) == Scan(loads, Pushed(s, text))
    decreases |s.buffer| - s.cursor
  {
    if !s.done && s.cursor < |s.buffer| {
      StepPush(loads, s, text);
      ScanPush(loads, Step(loads, s), text);
    }
  }

  // Once the array is open in what has arrived, it is open at the same place in what will arrive.
  lemma OpenArrayPush<Block>(s: ScanState<Block>, text: string)
    requires Wf(s) && !s.inArray && OpenArray(s).inArray
    ensures OpenArray(Pushed(s, text)) == Pushed(OpenArray(s), text)
  {
    FindAppend(s.buffer, text, BLOCKS_KEY, s.cursor);
    FindAppend(s.buffer, text, "[", Find(s.buffer, BLOCKS_KEY, s.cursor) + |BLOCKS_KEY|);
  }

  lemma {:induction false} ScanFrame<Block>(loads: Decoder<Block>, s: ScanState<Block>)
    requires Wf(s)
    ensures var r := Scan(loads, s);
            r.buffer == s.buffer && r.inArray == s.inArray && s.blocks <= r.blocks
            && (r.done || r.cursor == |r.buffer|)
    decreases |s.buffer| - s.cursor
  {
    if !s.done && s.cursor < |s.buffer| {
      ScanFrame(loads, Step(loads, s));
    }
  }

  // Advancing early changes nothing: whatever the next delta is, the next advance ends where it
  // would have ended had the earlier advance never happened.
  lemma AdvancePush<Block>(loads: Decoder<Block>, s: ScanState<Block>, text: string)
    requires Wf(s)
    ensures Wf(Pushed(s, text)) && Wf(Pushed(Advanced(loads, s), text))
    ensures Advanced(loads, Pushed(Advanced(loads, s), text)) == Advanced(loads, Pushed(s, text))
  {
    var entered := if s.inArray then s else OpenArray(s);
    if !s.done && entered.inArray {
      if !s.inArray {
        OpenArrayPush(s, text);
      }
      ScanPush(loads, entered, text);
      ScanFrame(loads, entered);
    }
  }

  lemma AdvanceTwice<Block>(loads: Decoder<Block>, s: ScanState<Block>)
    requires Wf(s)
    ensures Advanced(loads, Advanced(loads, s)) == Advanced(loads, s)
  {
    AdvancePush(loads, s, "");
    assert Pushed(Advanced(loads, s), "") == Advanced(loads, s);
    assert Pushed(s, "") == s;
  }

  // A run of the scanner: each delta is pushed, and the scan may or may not be advanced after it.
  datatype Delta = Delta(text: string, advance: bool)

  function Text(deltas: seq<Delta>): string {
    if deltas == [] then "" else Text(deltas[..|deltas| - 1]) + deltas[|deltas| - 1].text
  }

  function Streamed<Block>(loads: Decoder<Block>, deltas: seq<Delta>): (s: ScanState<Block>)
    ensures Wf(s)
  {
    if deltas == [] then Fresh()
    else
      var last := deltas[|deltas| - 1];
      var pushed := Pushed(Streamed(loads, deltas[..|deltas| - 1]), last.text);
      if last.advance then Advanced(loads, pushed) else pushed
  }

  function OneShot<Block>(loads: Decoder<Block>, text: string): (s: ScanState<Block>)
    ensures Wf(s)
  {
    Advanced(loads, Pushed(Fresh(), text))
  }

  // However the text was cut and however often the scan was advanced on the way, what has been
  // pushed can be extended by any further text and scanned to the state of one scan of it all.
  lemma {:induction false} RunPush<Block>(loads: Decoder<Block>, deltas: seq<Delta>, text: string)
    ensures Advanced(loads, Pushed(Streamed(loads, deltas), text)) == OneShot(loads, Text(deltas) + text)
  {
    if deltas == [] {
      assert Pushed<Block>(Fresh(), "" + text) == Pushed(Fresh(), text);
    } else {
      var before, last := deltas[..|deltas| - 1], deltas[|deltas| - 1];
      var pushed := Pushed(Streamed(loads, before), last.text);
      assert Pushed(pushed, text) == Pushed(Streamed(loads, before), last.text + text)
             && Text(deltas) + text == Text(before) + (last.text + text) by {
        assert pushed.buffer + text == Streamed(loads, before).buffer + (last.text + text);
      }
      AdvancePush(loads, pushed, text);
      RunPush(loads, before, last.text + text);
    }
  }

  // Chunking independence: the whole scanner state, flags and cursor included, depends on the text
  // alone and not on how it arrived.
  lemma ChunkingIndependence<Block>(loads: Decoder<Block>, deltas: seq<Delta>)
    ensures Advanced(loads, Streamed(loads, deltas)) == OneShot(loads, Text(deltas))
    ensures deltas != [] && deltas[|deltas| - 1].advance ==> Streamed(loads, deltas) == OneShot(loads, Text(deltas))
  {
    RunPush(loads, deltas, "");
    assert Pushed(Streamed(loads, deltas), "") == Streamed(loads, deltas);
    assert Text(deltas) + "" == Text(deltas);
    if deltas != [] && deltas[|deltas| - 1].advance {
      AdvanceTwice(loads, Pushed(Streamed(loads, deltas[..|deltas| - 1]), deltas[|deltas| - 1].text));
    }
  }

  // A longer text only ever adds blocks after the ones already found.
  lemma BlocksGrow<Block>(loads: Decoder<Block>, text: string, more: string)
    ensures OneShot(loads, text).blocks <= OneShot(loads, text + more).blocks
  {
    var s := Pushed<Block>(Fresh(), text);
    AdvancePush(loads, s, more);
    PushTwice<Block>(text, more);
    AdvanceKeepsBlocks(loads, Pushed(Advanced(loads, s), more));
  }

  lemma PushTwice<Block>(text: string, more: string)
    ensures Pushed(Pushed<Block>(Fresh(), text), more) == Pushed<Block>(Fresh(), text + more)
  {
    assert ("" + text) + more == "" + (text + more);
  }

  lemma AdvanceKeepsBlocks<Block>(loads: Decoder<Block>, s: ScanState<Block>)
    requires Wf(s)
    ensures s.blocks <= Advanced(loads, s).blocks
  {
    if !s.done {
      ScanFrame(loads, if s.inArray then s else OpenArray(s));
    }
  }
}
