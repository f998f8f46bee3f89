// Every JSON text the synthesis call may stream (RFC 8259, sections 2 to 5 and 7), written as a
// syntax tree that keeps the insignificant whitespace, and what the scanner cuts out of it.
module AnswerBody {
  import opened Texts
  import opened AnswerStream

  // ----- the grammar -----

  datatype StringItem =
    | Plain(c: char)
    | Escape(c: char)
    | Unicode(hex: string)

  datatype SyntaxTree =
    | JLiteral(text: string)
    | JString(items: seq<StringItem>)
    | JArray(blank: string, elements: Elements)
    | JObject(blank: string, members: Members)

  datatype Elements =
    | NoElements
    | Element(before: string, value: SyntaxTree, after: string, rest: Elements)

  datatype Members =
    | NoMembers
    | Member(before: string, key: seq<StringItem>, gap: string, value: SyntaxTree, after: string, rest: Members)

  // Section 2: insignificant whitespace.
  predicate Blank(ws: string) { forall c :: c in ws ==> c in " \t\n\r" }

  // The separator of a member: a colon with whitespace around it.
  predicate Colon(gap: string) { exists i :: 0 <= i < |gap| && gap[i] == ':' && Blank(gap[..i]) && Blank(gap[i + 1..]) }

  predicate IsHex(c: char) { '0' <= c <= '9' || 'a' <= c <= 'f' || 'A' <= c <= 'F' }

  // Sections 3 and 6: the three literal names and numbers are all spelled with these characters.
  predicate LiteralText(text: string) {
    text != "" && forall c :: c in text ==> 'a' <= c <= 'z' || '0' <= c <= '9' || c in "+-.E"
  }

  // Section 7.
  predicate GrammaticalItem(item: StringItem) {
    match item
    case Plain(c) => c >= ' ' && c != '"' && c != '\\'
    case Escape(c) => c in "\"\\/bfnrt"
    case Unicode(hex) => |hex| == 4 && forall c :: c in hex ==> IsHex(c)
  }

  predicate GrammaticalString(items: seq<StringItem>) { forall item :: item in items ==> GrammaticalItem(item) }

  predicate Grammatical(v: SyntaxTree) {
    match v
    case JLiteral(text) => LiteralText(text)
    case JString(items) => GrammaticalString(items)
    case JArray(blank, elements) => Blank(blank) && GrammaticalElements(elements)
    case JObject(blank, members) => Blank(blank) && GrammaticalMembers(members)
  }

  predicate GrammaticalElements(es: Elements) {
    match es
    case NoElements => true
    case Element(before, value, after, rest) =>
      Blank(before) && Grammatical(value) && Blank(after) && GrammaticalElements(rest)
  }

  predicate GrammaticalMembers(ms: Members) {
    match ms
    case NoMembers => true
    case Member(before, key, gap, value, after, rest) =>
      && Blank(before) && GrammaticalString(key) && Colon(gap) && Grammatical(value) && Blank(after)
      && GrammaticalMembers(rest)
  }

  // ----- the text of a value -----

  function ItemText(item: StringItem): (text: string)
  {
    match item
    case Plain(c) => [c]
    case Escape(c) => ['\\', c]
    case Unicode(hex) => "\\u" + hex
  }

  function ItemsText(items: seq<StringItem>): string {
    if items == [] then "" else ItemText(items[0]) + ItemsText(items[1..])
  }

  function StringText(items: seq<StringItem>): string { "\"" + (ItemsText(items) + "\"") }

  function ValueText(v: SyntaxTree): string {
    match v
    case JLiteral(text) => text
    case JString(items) => StringText(items)
    case JArray(blank, elements) => "[" + (blank + (ElementsText(elements) + "]"))
    case JObject(blank, members) => "{" + (blank + (MembersText(members) + "}"))
  }

  function ElementsText(es: Elements): string {
    match es
    case NoElements => ""
    case Element(before, value, after, rest) =>
      before + (ValueText(value) + (after + (if rest.NoElements? then "" else "," + ElementsText(rest))))
  }

  function MembersText(ms: Members): string {
    match ms
    case NoMembers => ""
    case Member(before, key, gap, value, after, rest) =>
      before + (StringText(key) + (gap + (ValueText(value) +
      (after + (if rest.NoMembers? then "" else "," + MembersText(rest))))))
  }

  // One entry of the answer's array: an object, and the whitespace around it.
  datatype Slot = Slot(before: string, value: SyntaxTree, after: string)

  predicate GrammaticalEntry(e: Slot) {
    Blank(e.before) && Blank(e.after) && e.value.JObject? && Grammatical(e.value)
  }

  function EntriesText(es: seq<Slot>): string {
    if es == [] then ""
    else
      es[0].before + (ValueText(es[0].value) +
      (es[0].after + (if |es| == 1 then "" else "," + EntriesText(es[1..]))))
  }

  // Everything up to and including the array's closing bracket.
  function BodyText(head: string, gap: string, blank: string, es: seq<Slot>): string {
    head + BLOCKS_KEY + gap + "[" + (blank + (EntriesText(es) + "]"))
  }

  function Spans(es: seq<Slot>): seq<string> {
    seq(|es|, i requires 0 <= i < |es| => ValueText(es[i].value))
  }

  // What handing these spans to the decoder, in order, leaves: the blocks, and whether every span decoded.
  function Collect<Block>(loads: Decoder<Block>, blocks: seq<Block>, spans: seq<string>): (seq<Block>, bool)
    decreases |spans|
  {
    if spans == [] then (blocks, true)
    else
      var next := Taken(loads, blocks, spans[0]);
      if loads(spans[0]).Malformed? then (next, false) else Collect(loads, next, spans[1..])
  }

  // ----- what the scanner sees inside an object -----

  // The three things the scanner tracks below the top of the array.
  datatype Mode = Mode(depth: int, inString: bool, escaped: bool)

  function ReadChar(m: Mode, c: char): Mode {
    if m.inString then
      if m.escaped then m.(escaped := false)
      else if c == '\\' then m.(escaped := true)
      else if c == '"' then m.(inString := false)
      else m
    else if c == '"' then m.(inString := true)
    else if c == '{' then m.(depth := m.depth + 1)
    else if c == '}' then m.(depth := m.depth - 1)
    else m
  }

  function Walk(m: Mode, text: string): Mode
    decreases |text|
  {
    if text == "" then m else Walk(ReadChar(m, text[0]), text[1..])
  }

  // The walk never comes back to the top of the array.
  predicate Deep(m: Mode, text: string)
    decreases |text|
  {
    m.depth >= 1 && (text == "" || Deep(ReadChar(m, text[0]), text[1..]))
  }

  // A text that is walked over below the top and leaves the mode as it found it.
  predicate Neutral(m: Mode, text: string) { Deep(m, text) && Walk(m, text) == m }

  lemma {:induction false} WalkConcat(m: Mode, a: string, b: string)
    ensures Walk(m, a + b) == Walk(Walk(m, a), b)
    ensures Deep(m, a) && Deep(Walk(m, a), b) ==> Deep(m, a + b)
    decreases |a|
  {
    if a == "" {
      assert a + b == b;
    } else {
      assert (a + b)[1..] == a[1..] + b;
      WalkConcat(ReadChar(m, a[0]), a[1..], b);
    }
  }

  lemma WalkCons(m: Mode, c: char, text: string)
    ensures Walk(m, [c] + text) == Walk(ReadChar(m, c), text)
    ensures Deep(m, [c] + text) <==> m.depth >= 1 && Deep(ReadChar(m, c), text)
  {
    assert ([c] + text)[1..] == text;
  }

  lemma NeutralConcat(m: Mode, a: string, b: string)
    requires Neutral(m, a) && Neutral(m, b)
    ensures Neutral(m, a + b)
  {
    WalkConcat(m, a, b);
  }

  lemma {:induction false} QuietIsNeutral(m: Mode, text: string)
    requires m.depth >= 1 && !m.inString
    requires forall c :: c in text ==> c !in "\"{}"
    ensures Neutral(m, text)
  {
    if text != "" {
      assert text[0] in text;
      QuietIsNeutral(m, text[1..]);
    }
  }

  lemma ColonIsQuiet(gap: string)
    requires Colon(gap)
    ensures forall c :: c in gap ==> c !in "\"{}"
  {
    var i :| 0 <= i < |gap| && gap[i] == ':' && Blank(gap[..i]) && Blank(gap[i + 1..]);
    assert gap == gap[..i] + [':'] + gap[i + 1..];
  }

  // Inside a string nothing matters but escapes and the closing quote.
  lemma {:induction false} PlainIsNeutral(m: Mode, text: string)
    requires m.depth >= 1 && m.inString && !m.escaped
    requires forall c :: c in text ==> c != '"' && c != '\\'
    ensures Neutral(m, text)
  {
    if text != "" {
      assert text[0] in text && forall c :: c in text[1..] ==> c in text;
      PlainIsNeutral(m, text[1..]);
    }
  }

  lemma ItemIsNeutral(m: Mode, item: StringItem)
    requires m.depth >= 1 && m.inString && !m.escaped && GrammaticalItem(item)
    ensures Neutral(m, ItemText(item))
  {
    match item
    case Plain(c) =>
      PlainIsNeutral(m, [c]);
    case Escape(c) =>
      assert ItemText(item) == ['\\'] + ([c] + "");
      WalkCons(ReadChar(m, '\\'), c, "");
      WalkCons(m, '\\', [c] + "");
    case Unicode(hex) =>
      PlainIsNeutral(m, hex);
      assert ItemText(item) == ['\\'] + (['u'] + hex);
      WalkCons(ReadChar(m, '\\'), 'u', hex);
      WalkCons(m, '\\', ['u'] + hex);
  }

  lemma {:induction false} ItemsAreNeutral(m: Mode, items: seq<StringItem>)
    requires m.depth >= 1 && m.inString && !m.escaped && GrammaticalString(items)
    ensures Neutral(m, ItemsText(items))
  {
    if items != [] {
      ItemIsNeutral(m, items[0]);
      ItemsAreNeutral(m, items[1..]);
      NeutralConcat(m, ItemText(items[0]), ItemsText(items[1..]));
    }
  }

  // Between tokens, below the top.
  predicate Within(m: Mode) { m.depth >= 1 && !m.inString && !m.escaped }

  lemma StringIsNeutral(m: Mode, items: seq<StringItem>)
    requires Within(m) && GrammaticalString(items)
    ensures Neutral(m, StringText(items))
  {
    var inside := m.(inString := true);
    ItemsAreNeutral(inside, items);
    WalkCons(inside, '"', "");
    WalkConcat(inside, ItemsText(items), ['"'] + "");
    assert StringText(items) == ['"'] + (ItemsText(items) + (['"'] + ""));
    WalkCons(m, '"', ItemsText(items) + (['"'] + ""));
  }

  // Brackets cost nothing below the top, braces are paid back, strings hide what they hold.
  lemma {:induction false} ValueIsNeutral(m: Mode, v: SyntaxTree)
    requires Within(m) && Grammatical(v)
    ensures Neutral(m, ValueText(v))
    decreases v
  {
    match v
    case JLiteral(text) =>
      QuietIsNeutral(m, text);
    case JString(items) =>
      StringIsNeutral(m, items);
    case JArray(blank, elements) =>
      ElementsAreNeutral(m, elements);
      QuietIsNeutral(m, "]");
      NeutralConcat(m, ElementsText(elements), "]");
      QuietIsNeutral(m, blank);
      NeutralConcat(m, blank, ElementsText(elements) + "]");
      QuietIsNeutral(m, "[");
      NeutralConcat(m, "[", blank + (ElementsText(elements) + "]"));
    case JObject(blank, members) =>
      ObjectWalk(m, v);
  }

  // The inside of an object, and the walk from its opening brace to its closing one.
  function ObjectBody(v: SyntaxTree): string
    requires v.JObject?
  {
    v.blank + MembersText(v.members)
  }

  lemma {:induction false} ObjectWalk(m: Mode, v: SyntaxTree)
    requires v.JObject? && Grammatical(v)
    requires m.depth >= 0 && !m.inString && !m.escaped
    ensures ValueText(v) == "{" + ObjectBody(v) + "}"
    ensures Neutral(m.(depth := m.depth + 1), ObjectBody(v))
    ensures m.depth >= 1 ==> Neutral(m, ValueText(v))
    decreases v, 0
  {
    var inner, body := m.(depth := m.depth + 1), ObjectBody(v);
    QuietIsNeutral(inner, v.blank);
    MembersAreNeutral(inner, v.members);
    NeutralConcat(inner, v.blank, MembersText(v.members));
    assert ValueText(v) == "{" + body + "}";
    if m.depth >= 1 {
      WalkCons(inner, '}', "");
      WalkConcat(inner, body, ['}'] + "");
      assert ValueText(v) == ['{'] + (body + (['}'] + ""));
      WalkCons(m, '{', body + (['}'] + ""));
    }
  }

  lemma {:induction false} ElementsAreNeutral(m: Mode, es: Elements)
    requires Within(m) && GrammaticalElements(es)
    ensures Neutral(m, ElementsText(es))
    decreases es
  {
    if es.Element? {
      var comma := if es.rest.NoElements? then "" else "," + ElementsText(es.rest);
      ElementsAreNeutral(m, es.rest);
      QuietIsNeutral(m, ",");
      NeutralConcat(m, ",", ElementsText(es.rest));
      assert Neutral(m, comma);
      ValueIsNeutral(m, es.value);
      NeutralAround(m, es.before, ValueText(es.value), es.after, comma);
    }
  }

  lemma {:induction false} MembersAreNeutral(m: Mode, ms: Members)
    requires Within(m) && GrammaticalMembers(ms)
    ensures Neutral(m, MembersText(ms))
    decreases ms
  {
    if ms.Member? {
      var comma := if ms.rest.NoMembers? then "" else "," + MembersText(ms.rest);
      MembersAreNeutral(m, ms.rest);
      QuietIsNeutral(m, ",");
      NeutralConcat(m, ",", MembersText(ms.rest));
      assert Neutral(m, comma);
      ValueIsNeutral(m, ms.value);
      StringIsNeutral(m, ms.key);
      ColonIsQuiet(ms.gap);
      QuietIsNeutral(m, ms.gap);
      NeutralAround(m, ms.gap, ValueText(ms.value), ms.after, comma);
      var tail := ms.gap + (ValueText(ms.value) + (ms.after + comma));
      NeutralConcat(m, StringText(ms.key), tail);
      QuietIsNeutral(m, ms.before);
      NeutralConcat(m, ms.before, StringText(ms.key) + tail);
    }
  }

  lemma NeutralAround(m: Mode, before: string, value: string, after: string, comma: string)
    requires Within(m) && Neutral(m, value) && Neutral(m, comma)
    requires (Blank(before) || Colon(before)) && Blank(after)
    ensures Neutral(m, before + (value + (after + comma)))
  {
    QuietIsNeutral(m, after);
    NeutralConcat(m, after, comma);
    NeutralConcat(m, value, after + comma);
    if !Blank(before) {
      ColonIsQuiet(before);
    }
    QuietIsNeutral(m, before);
    NeutralConcat(m, before, value + (after + comma));
  }


  // ----- the scan itself -----

  // Text waiting to be scanned. Everything before the cursor has been consumed.
  function Waiting<Block>(s: ScanState<Block>): string
    requires Wf(s)
  {
    s.buffer[s.cursor..]
  }

  function ModeOf<Block>(s: ScanState<Block>): Mode { Mode(s.depth, s.inString, s.escaped) }

  // The scanner `count` characters on, in mode `m`, with everything else as it was.
  function Moved<Block>(s: ScanState<Block>, count: nat, m: Mode): ScanState<Block> {
    s.(cursor := s.cursor + count, depth := m.depth, inString := m.inString, escaped := m.escaped)
  }

  lemma MovedTwice<Block>(s: ScanState<Block>, text: string)
    requires text != ""
    ensures var next := Moved(s, 1, ReadChar(ModeOf(s), text[0]));
            && next.done == s.done && ModeOf(next) == ReadChar(ModeOf(s), text[0])
            && Moved(next, |text[1..]|, Walk(ModeOf(next), text[1..])) == Moved(s, |text|, Walk(ModeOf(s), text))
  {
  }

  lemma NextCharacter<Block>(s: ScanState<Block>, c: char, rest: string)
    requires Wf(s) && Waiting(s) == [c] + rest
    ensures s.cursor < |s.buffer| && s.buffer[s.cursor] == c && s.buffer[s.cursor + 1..] == rest
  {
    assert s.buffer[s.cursor] == Waiting(s)[0];
    assert s.buffer[s.cursor + 1..] == Waiting(s)[1..];
  }

  lemma DeepStep<Block>(loads: Decoder<Block>, s: ScanState<Block>, c: char, rest: string)
    requires Wf(s) && !s.done && Waiting(s) == [c] + rest
    requires s.depth >= 1 && ReadChar(ModeOf(s), c).depth >= 1
    ensures s.cursor < |s.buffer|
    ensures Wf(Moved(s, 1, ReadChar(ModeOf(s), c))) && Waiting(Moved(s, 1, ReadChar(ModeOf(s), c))) == rest
    ensures Step(loads, s) == Moved(s, 1, ReadChar(ModeOf(s), c))
  {
    NextCharacter(s, c, rest);
  }

  lemma ScanStep<Block>(loads: Decoder<Block>, s: ScanState<Block>, next: ScanState<Block>)
    requires Wf(s) && !s.done && s.cursor < |s.buffer| && Step(loads, s) == next
    ensures Wf(next) && Scan(loads, s) == Scan(loads, next)
  {
  }

  // While the walk stays below the top, the scan does nothing but walk.
  lemma {:induction false} DeepScan<Block>(loads: Decoder<Block>, s: ScanState<Block>, text: string, rest: string)
    requires Wf(s) && !s.done && Waiting(s) == text + rest && Deep(ModeOf(s), text)
    ensures var r := Moved(s, |text|, Walk(ModeOf(s), text));
            Wf(r) && Waiting(r) == rest && Scan(loads, s) == Scan(loads, r)
    decreases |text|
  {
    if text == "" {
      assert Moved(s, 0, ModeOf(s)) == s && text + rest == rest;
    } else {
      var next, tail := Moved(s, 1, ReadChar(ModeOf(s), text[0])), text[1..];
      TakeHead(text, rest);
      DeepStep(loads, s, text[0], tail + rest);
      ScanStep(loads, s, next);
      MovedTwice(s, text);
      DeepScan(loads, next, tail, rest);
    }
  }

  // Between the objects of the array.
  predicate AtTop<Block>(s: ScanState<Block>) {
    Wf(s) && !s.done && s.inArray && s.depth == 0 && !s.inString && !s.escaped
  }

  // A character the scanner passes over between objects.
  predicate Idle(c: char) { c != '"' && c != '{' && c != '}' && c != ']' }

  predicate AllIdle(text: string) { text == "" || (Idle(text[0]) && AllIdle(text[1..])) }

  lemma SkipStep<Block>(loads: Decoder<Block>, s: ScanState<Block>, c: char, rest: string)
    requires AtTop(s) && Idle(c) && Waiting(s) == [c] + rest
    ensures var next := Skipped(s, 1);
            AtTop(next) && Waiting(next) == rest && Scan(loads, s) == Scan(loads, next)
  {
    NextCharacter(s, c, rest);
  }

  lemma TakeHead(text: string, rest: string)
    requires text != ""
    ensures text + rest == [text[0]] + (text[1..] + rest)
  {
  }

  // The scanner `n` characters on, with everything else as it was.
  function Skipped<Block>(s: ScanState<Block>, n: nat): ScanState<Block> { s.(cursor := s.cursor + n) }

  lemma SkippedTwice<Block>(s: ScanState<Block>, text: string)
    requires text != ""
    ensures Skipped(Skipped(s, 1), |text[1..]|) == Skipped(s, |text|)
  {
  }

  lemma {:induction false} SkipScan<Block>(loads: Decoder<Block>, s: ScanState<Block>, text: string, rest: string)
    requires AtTop(s) && Waiting(s) == text + rest
    requires AllIdle(text)
    ensures var r := Skipped(s, |text|); AtTop(r) && Waiting(r) == rest && Scan(loads, s) == Scan(loads, r)
    decreases |text|
  {
    if text == "" {
      assert Skipped(s, 0) == s && text + rest == rest;
    } else {
      var tail := text[1..];
      TakeHead(text, rest);
      var next := Skipped(s, 1);
      SkipStep(loads, s, text[0], tail + rest);
      SkippedTwice(s, text);
      SkipScan(loads, next, tail, rest);
    }
  }

  lemma {:induction false} BlankIsIdle(ws: string)
    requires Blank(ws)
    ensures AllIdle(ws)
  {
    if ws != "" {
      assert ws[0] in ws;
      BlankIsIdle(ws[1..]);
    }
  }

  lemma SkipBlank<Block>(loads: Decoder<Block>, s: ScanState<Block>, ws: string, rest: string)
    requires AtTop(s) && Waiting(s) == ws + rest && Blank(ws)
    ensures var r := Skipped(s, |ws|); AtTop(r) && Waiting(r) == rest && Scan(loads, s) == Scan(loads, r)
  {
    BlankIsIdle(ws);
    SkipScan(loads, s, ws, rest);
  }

  function Took<Block>(loads: Decoder<Block>, s: ScanState<Block>, span: string): ScanState<Block> {
    s.(cursor := s.cursor + |span|, start := s.cursor,
       blocks := Taken(loads, s.blocks, span), done := loads(span).Malformed?)
  }

  // At the top of the array an object is handed to the decoder whole, and nothing else is.
  lemma ObjectScan<Block>(loads: Decoder<Block>, s: ScanState<Block>, v: SyntaxTree, rest: string)
    requires v.JObject? && Grammatical(v)
    requires AtTop(s) && Waiting(s) == ValueText(v) + rest
    ensures var r := Took(loads, s, ValueText(v));
            Wf(r) && Waiting(r) == rest && Scan(loads, s) == Scan(loads, r)
  {
    var span, body := ValueText(v), ObjectBody(v);
    ObjectWalk(ModeOf(s), v);
    InBraces(body, rest);
    OpenScan(loads, s, body + ("}" + rest));
    var inside := s.(cursor := s.cursor + 1, depth := 1, start := s.cursor);
    DeepScan(loads, inside, body, "}" + rest);
    CloseScan(loads, s, Moved(inside, |body|, ModeOf(inside)), span, rest);
  }

  lemma InBraces(body: string, rest: string)
    ensures "{" + body + "}" + rest == ['{'] + (body + ("}" + rest))
  {
  }

  lemma OpenScan<Block>(loads: Decoder<Block>, s: ScanState<Block>, rest: string)
    requires AtTop(s) && Waiting(s) == ['{'] + rest
    ensures var r := s.(cursor := s.cursor + 1, depth := 1, start := s.cursor);
            Wf(r) && Waiting(r) == rest && Scan(loads, s) == Scan(loads, r)
  {
    NextCharacter(s, '{', rest);
    assert Step(loads, s) == s.(cursor := s.cursor + 1, depth := 1, start := s.cursor);
  }

  lemma CloseScan<Block>(loads: Decoder<Block>, s: ScanState<Block>, closing: ScanState<Block>, span: string,
                         rest: string)
    requires AtTop(s) && Waiting(s) == span + rest && |span| >= 2
    requires closing == s.(cursor := s.cursor + |span| - 1, depth := 1, start := s.cursor)
    requires Wf(closing) && Waiting(closing) == "}" + rest
    ensures var r := Took(loads, s, span);
            Wf(r) && Waiting(r) == rest && Scan(loads, closing) == Scan(loads, r)
  {
    NextCharacter(closing, '}', rest);
    WaitingSpan(s, span, rest);
    CloseStep(loads, closing, span);
    assert Step(loads, closing) == Took(loads, s, span);
  }

  lemma WaitingSpan<Block>(s: ScanState<Block>, span: string, rest: string)
    requires Wf(s) && Waiting(s) == span + rest
    ensures s.cursor + |span| <= |s.buffer| && s.buffer[s.cursor..s.cursor + |span|] == span
  {
    assert Waiting(s)[..|span|] == span;
    assert s.buffer[s.cursor..s.cursor + |span|] == Waiting(s)[..|span|];
  }

  lemma CloseStep<Block>(loads: Decoder<Block>, s: ScanState<Block>, span: string)
    requires Wf(s) && !s.done && !s.inString && s.depth == 1
    requires s.cursor < |s.buffer| && s.buffer[s.cursor] == '}' && s.buffer[s.start..s.cursor + 1] == span
    ensures Step(loads, s) == s.(cursor := s.cursor + 1, depth := 0,
                                 blocks := Taken(loads, s.blocks, span), done := loads(span).Malformed?)
  {
  }

  // ----- the whole array, the whole body -----

  // A closing bracket at the top ends the scan, whatever follows it.
  lemma EndScan<Block>(loads: Decoder<Block>, s: ScanState<Block>, rest: string)
    requires AtTop(s) && Waiting(s) == [']'] + rest
    ensures Scan(loads, s) == s.(cursor := s.cursor + 1, done := true)
  {
    NextCharacter(s, ']', rest);
    assert Step(loads, s) == s.(cursor := s.cursor + 1, done := true);
  }

  // The objects of the array are handed over in order, whatever follows them, up to one that would not
  // decode; `r` is the scanner then.
  lemma {:induction false} EntriesTaken<Block>(loads: Decoder<Block>, s: ScanState<Block>, es: seq<Slot>, rest: string)
    returns (r: ScanState<Block>)
    requires AtTop(s) && Waiting(s) == EntriesText(es) + rest
    requires forall e :: e in es ==> GrammaticalEntry(e)
    ensures Wf(r) && Scan(loads, s) == Scan(loads, r)
    ensures var (blocks, all) := Collect(loads, s.blocks, Spans(es));
            && r.blocks == blocks
            && if all then AtTop(r) && Waiting(r) == rest && r.cursor == s.cursor + |EntriesText(es)| else r.done
    decreases |es|
  {
    if es == [] {
      assert EntriesText(es) + rest == rest;
      return s;
    }
    var e, span := es[0], ValueText(es[0].value);
    var comma := if |es| == 1 then "" else "," + EntriesText(es[1..]);
    assert GrammaticalEntry(e);
    assert Waiting(s) == e.before + (span + (e.after + (comma + rest)));
    EntryScan(loads, s, e, comma + rest);
    assert Spans(es)[0] == span && Spans(es)[1..] == Spans(es[1..]);
    if loads(span).Malformed? {
      r := Scan(loads, s);
    } else {
      r := MoreEntries(loads, AfterEntry(loads, s, e), es, comma, rest);
    }
  }

  lemma {:induction false} MoreEntries<Block>(loads: Decoder<Block>, s: ScanState<Block>, es: seq<Slot>,
                                              comma: string, rest: string)
    returns (r: ScanState<Block>)
    requires es != [] && comma == if |es| == 1 then "" else "," + EntriesText(es[1..])
    requires AtTop(s) && Waiting(s) == comma + rest
    requires forall e :: e in es ==> GrammaticalEntry(e)
    ensures Wf(r) && Scan(loads, s) == Scan(loads, r)
    ensures var (blocks, all) := Collect(loads, s.blocks, Spans(es[1..]));
            && r.blocks == blocks
            && if all then AtTop(r) && Waiting(r) == rest && r.cursor == s.cursor + |comma| else r.done
    decreases |es|, 0
  {
    if |es| == 1 {
      assert comma + rest == rest;
      r := s;
    } else {
      assert Waiting(s) == "," + (EntriesText(es[1..]) + rest);
      SkipScan(loads, s, ",", EntriesText(es[1..]) + rest);
      r := EntriesTaken(loads, Skipped(s, 1), es[1..], rest);
    }
  }

  function EntryLength(e: Slot): nat { |e.before| + |ValueText(e.value)| + |e.after| }

  function AfterEntry<Block>(loads: Decoder<Block>, s: ScanState<Block>, e: Slot): ScanState<Block> {
    s.(cursor := s.cursor + EntryLength(e), start := s.cursor + |e.before|,
       blocks := Taken(loads, s.blocks, ValueText(e.value)))
  }

  // One entry: its object is taken, and the scan goes on after it unless the object would not decode.
  lemma EntryScan<Block>(loads: Decoder<Block>, s: ScanState<Block>, e: Slot, rest: string)
    requires AtTop(s) && GrammaticalEntry(e)
    requires Waiting(s) == e.before + (ValueText(e.value) + (e.after + rest))
    ensures var span := ValueText(e.value);
            if loads(span).Malformed? then
              Scan(loads, s).done && Scan(loads, s).blocks == Taken(loads, s.blocks, span)
            else
              && AtTop(AfterEntry(loads, s, e)) && Waiting(AfterEntry(loads, s, e)) == rest
              && Scan(loads, s) == Scan(loads, AfterEntry(loads, s, e))
  {
    var span := ValueText(e.value);
    SkipBlank(loads, s, e.before, span + (e.after + rest));
    var s1 := Skipped(s, |e.before|);
    ObjectScan(loads, s1, e.value, e.after + rest);
    if !loads(span).Malformed? {
      AfterEntryIs(loads, s, e);
      AfterObjectScan(loads, s, Took(loads, s1, span), e, rest);
    }
  }

  lemma AfterObjectScan<Block>(loads: Decoder<Block>, s: ScanState<Block>, s2: ScanState<Block>, e: Slot, rest: string)
    requires Blank(e.after) && Skipped(s2, |e.after|) == AfterEntry(loads, s, e)
    requires AtTop(s2) && Waiting(s2) == e.after + rest
    ensures AtTop(AfterEntry(loads, s, e)) && Waiting(AfterEntry(loads, s, e)) == rest
    ensures Scan(loads, s2) == Scan(loads, AfterEntry(loads, s, e))
  {
    SkipBlank(loads, s2, e.after, rest);
  }

  lemma AfterEntryIs<Block>(loads: Decoder<Block>, s: ScanState<Block>, e: Slot)
    requires !s.done && !loads(ValueText(e.value)).Malformed?
    ensures Skipped(Took(loads, Skipped(s, |e.before|), ValueText(e.value)), |e.after|) == AfterEntry(loads, s, e)
  {
  }

  // The first `"blocks"` in the text is the one that opens the array, and its array is the next bracket.
  predicate Opens(head: string, gap: string) {
    && (forall i: nat :: i < |head| ==> !OccursAt(head + BLOCKS_KEY, BLOCKS_KEY, i))
    && '[' !in gap
  }

  lemma OpenBody<Block>(head: string, gap: string, rest: string)
    requires Opens(head, gap)
    ensures var text := head + BLOCKS_KEY + gap + "[" + rest;
            var s := OpenArray(Pushed<Block>(Fresh(), text));
            AtTop(s) && s.blocks == [] && Waiting(s) == rest && s.cursor == |text| - |rest|
  {
    KeyIsFound(head, gap, rest);
    BracketIsFound(head, gap, rest);
    assert Pushed<Block>(Fresh(), head + BLOCKS_KEY + gap + "[" + rest).buffer == head + BLOCKS_KEY + gap + "[" + rest;
  }

  lemma KeyIsFound(head: string, gap: string, rest: string)
    requires Opens(head, gap)
    ensures Find(head + BLOCKS_KEY + gap + "[" + rest, BLOCKS_KEY, 0) == |head|
  {
    var text := head + BLOCKS_KEY + gap + "[" + rest;
    assert text == (head + BLOCKS_KEY) + (gap + "[" + rest);
    forall i: nat | i < |head| ensures !OccursAt(text, BLOCKS_KEY, i) {
      OccursAtAppend(head + BLOCKS_KEY, gap + "[" + rest, BLOCKS_KEY, i);
    }
    assert text[|head|..|head| + |BLOCKS_KEY|] == BLOCKS_KEY;
    FindUnique(text, BLOCKS_KEY, 0, |head|);
  }

  lemma BracketIsFound(head: string, gap: string, rest: string)
    requires Opens(head, gap)
    ensures var text, from := head + BLOCKS_KEY + gap + "[" + rest, |head| + |BLOCKS_KEY|;
            Find(text, "[", from) == from + |gap| && text[from + |gap| + 1..] == rest
  {
    var text, from := head + BLOCKS_KEY + gap + "[" + rest, |head| + |BLOCKS_KEY|;
    forall i: nat | from <= i < from + |gap| ensures !OccursAt(text, "[", i) {
      assert text[i..i + 1][0] == text[i] == gap[i - from];
    }
    assert text[from + |gap|..from + |gap| + 1] == "[";
    FindUnique(text, "[", from, from + |gap|);
  }

  // Round trip: whatever precedes the key, whatever whitespace, nesting and escapes the objects
  // carry, and whatever follows the array, the spans decoded are the printed objects in order.
  lemma RoundTrip<Block>(loads: Decoder<Block>, head: string, gap: string, blank: string, es: seq<Slot>, tail: string)
    requires Opens(head, gap) && Blank(blank)
    requires forall e :: e in es ==> GrammaticalEntry(e)
    ensures var (blocks, all) := Collect(loads, [], Spans(es));
            var r := OneShot(loads, BodyText(head, gap, blank, es) + tail);
            && r.done && r.blocks == blocks
            && (all ==> r.cursor == |BodyText(head, gap, blank, es)|)
  {
    var rest := blank + (EntriesText(es) + ([']'] + tail));
    BodyTail(head + BLOCKS_KEY + gap + "[", blank, EntriesText(es), tail);
    OpenBody<Block>(head, gap, rest);
    ArrayScan(loads, OpenArray(Pushed<Block>(Fresh(), head + BLOCKS_KEY + gap + "[" + rest)), blank, es, tail);
  }

  lemma BodyTail(front: string, blank: string, entries: string, tail: string)
    ensures front + (blank + (entries + "]")) + tail == front + (blank + (entries + ([']'] + tail)))
  {
  }

  lemma ArrayScan<Block>(loads: Decoder<Block>, s: ScanState<Block>, blank: string, es: seq<Slot>, tail: string)
    requires AtTop(s) && Waiting(s) == blank + (EntriesText(es) + ([']'] + tail)) && Blank(blank)
    requires forall e :: e in es ==> GrammaticalEntry(e)
    ensures var (blocks, all) := Collect(loads, s.blocks, Spans(es));
            var r := Scan(loads, s);
            && r.done && r.blocks == blocks
            && (all ==> r.cursor == s.cursor + |blank| + |EntriesText(es)| + 1)
  {
    SkipBlank(loads, s, blank, EntriesText(es) + ([']'] + tail));
    var r := EntriesTaken(loads, Skipped(s, |blank|), es, [']'] + tail);
    if AtTop(r) {
      EndScan(loads, r, tail);
    }
  }

  // The same, streamed: any cutting of the body into deltas, with any advances on the way, hands
  // over exactly the printed objects once the last delta has been scanned.
  lemma StreamedRoundTrip(deltas: seq<Delta>, head: string, gap: string, blank: string, es: seq<Slot>, tail: string)
    requires Opens(head, gap) && Blank(blank)
    requires forall e :: e in es ==> GrammaticalEntry(e)
    requires Text(deltas) == BodyText(head, gap, blank, es) + tail
    ensures Advanced(Verbatim, Streamed(Verbatim, deltas)).blocks == Spans(es)
  {
    ChunkingIndependence(Verbatim, deltas);
    RoundTrip(Verbatim, head, gap, blank, es, tail);
    CollectVerbatim([], Spans(es));
  }

  // The decoder that keeps every span as it is.
  function Verbatim(span: string): Decoded<string> { Decoded.Object(span) }

  lemma {:induction false} CollectVerbatim(blocks: seq<string>, spans: seq<string>)
    ensures Collect(Verbatim, blocks, spans) == (blocks + spans, true)
    decreases |spans|
  {
    if spans == [] {
      assert blocks + spans == blocks;
    } else {
      CollectVerbatim(blocks + [spans[0]], spans[1..]);
      assert blocks + [spans[0]] + spans[1..] == blocks + spans;
    }
  }
}
