// Splitting a text where one sentence ends and the next begins, and joining a selection of the pieces
// (sentences() and _SENTENCE in src/hrmosaic/agent/outcome.py).
module Sentences {
  import opened Lists

  // str.isspace on one character, which is also what \s matches.
  predicate IsSpace(c: char) {
    var n := c as int;
    || 9 <= n <= 13 || 28 <= n <= 32 || n == 0x85 || n == 0xA0 || n == 0x1680
    || 0x2000 <= n <= 0x200A || n == 0x2028 || n == 0x2029 || n == 0x202F || n == 0x205F || n == 0x3000
  }

  type SentenceTest = string -> bool

  predicate IsTerminal(c: char) { c == '.' || c == '!' || c == '?' }

  // What may begin a sentence: a quote mark, an opening bracket, a capital or a digit.
  predicate IsOpener(c: char) {
    var n := c as int;
    || c == '"' || c == '\'' || n == 0x201C || n == 0x2018 || c == '(' || c == '['
    || 'A' <= c <= 'Z' || '0' <= c <= '9'
  }

  lemma OpenersAreNotSpaces(c: char)
    ensures IsOpener(c) || IsTerminal(c) ==> !IsSpace(c)
  {
  }

  // str.strip()
  function LeftStrip(t: string): string {
    if t != "" && IsSpace(t[0]) then LeftStrip(t[1..]) else t
  }

  function RightStrip(t: string): string {
    if t != "" && IsSpace(t[|t| - 1]) then RightStrip(t[..|t| - 1]) else t
  }

  function Strip(t: string): string { RightStrip(LeftStrip(t)) }

  lemma {:induction false} LeftStripSlice(t: string) returns (i: nat)
    ensures i <= |t| && LeftStrip(t) == t[i..]
    ensures forall k :: 0 <= k < i ==> IsSpace(t[k])
    ensures i < |t| ==> !IsSpace(t[i])
  {
    if t != "" && IsSpace(t[0]) {
      var j := LeftStripSlice(t[1..]);
      assert t[1..][j..] == t[j + 1..];
      forall k | 0 <= k < j + 1 ensures IsSpace(t[k]) {
        if k > 0 {
          assert t[k] == t[1..][k - 1];
        }
      }
      return j + 1;
    }
    return 0;
  }

  lemma {:induction false} RightStripSlice(t: string) returns (j: nat)
    ensures j <= |t| && RightStrip(t) == t[..j]
    ensures forall k :: j <= k < |t| ==> IsSpace(t[k])
    ensures j > 0 ==> !IsSpace(t[j - 1])
  {
    if t != "" && IsSpace(t[|t| - 1]) {
      j := RightStripSlice(t[..|t| - 1]);
      assert t[..|t| - 1][..j] == t[..j];
    } else {
      j := |t|;
    }
  }

  // The end of the run of whitespace at i.
  function SpaceEnd(t: string, i: nat): (j: nat)
    requires i <= |t|
    ensures i <= j <= |t|
    ensures forall k :: i <= k < j ==> IsSpace(t[k])
    ensures j < |t| ==> !IsSpace(t[j])
    decreases |t| - i
  {
    if i < |t| && IsSpace(t[i]) then SpaceEnd(t, i + 1) else i
  }

  // A match of the boundary expression at p: terminal punctuation behind, whitespace here, and the
  // beginning of a sentence after all of it.
  predicate BreakAt(t: string, p: nat) {
    && 0 < p < |t| && IsTerminal(t[p - 1]) && IsSpace(t[p])
    && SpaceEnd(t, p) < |t| && IsOpener(t[SpaceEnd(t, p)])
  }

  // The first match at or after `from`, or |t|.
  function FirstBreak(t: string, from: nat): (p: nat)
    requires from <= |t|
    ensures from <= p <= |t|
    ensures p < |t| ==> BreakAt(t, p)
    ensures forall k :: from <= k < p ==> !BreakAt(t, k)
    decreases |t| - from
  {
    if from == |t| || BreakAt(t, from) then from else FirstBreak(t, from + 1)
  }

  // re.split: the pieces between the matches, left to right.
  function Split(t: string): (parts: seq<string>)
    ensures parts != []
    decreases |t|
  {
    var p := FirstBreak(t, 0);
    if p == |t| then [t] else [t[..p]] + Split(t[SpaceEnd(t, p)..])
  }

  function Keep(parts: seq<string>, p: string -> bool): (kept: seq<string>)
    ensures |kept| <= |parts|
    ensures forall s :: s in kept <==> s in parts && p(s)
  {
    if parts == [] then []
    else if p(parts[0]) then [parts[0]] + Keep(parts[1..], p)
    else Keep(parts[1..], p)
  }

  // The parts up to position k, the line in the place of the k-th, and behind it those that pass.
  function AtFirst(line: string, p: string -> bool, parts: seq<string>, k: nat): seq<string>
    requires k < |parts|
  {
    parts[..k] + ([line] + Keep(parts[k + 1..], p))
  }

  lemma AtFirstBehind(parts: seq<string>, k: nat, line: string, p: string -> bool)
    requires parts != [] && k <= |parts[1..]|
    ensures [parts[0]] + parts[1..] == parts
    ensures var rest := parts[1..];
            k < |rest| ==> AtFirst(line, p, parts, k + 1) == [parts[0]] + AtFirst(line, p, rest, k)
  {
    var rest := parts[1..];
    if k < |rest| {
      SlicesBehind(parts, k);
      Associative([parts[0]], rest[..k], [line] + Keep(rest[k + 1..], p));
    }
  }

  lemma SlicesBehind(parts: seq<string>, k: nat)
    requires k + 1 < |parts|
    ensures parts[k + 2..] == parts[1..][k + 1..] && parts[..k + 1] == [parts[0]] + parts[1..][..k]
  {
  }

  function Stripped(parts: seq<string>): (r: seq<string>)
    ensures |r| == |parts| && forall i :: 0 <= i < |parts| ==> r[i] == Strip(parts[i])
  {
    seq(|parts|, i requires 0 <= i < |parts| => Strip(parts[i]))
  }

  // The pieces that are not blank.
  function SentencesOf(t: string): seq<string> {
    Keep(Split(t), part => Strip(part) != "")
  }

  // The stripped parts with one space between them.
  function Join(parts: seq<string>): string {
    if parts == [] then ""
    else if |parts| == 1 then Strip(parts[0])
    else Strip(parts[0]) + " " + Join(parts[1..])
  }

  // ----- what splitting yields -----

  predicate Unbroken(t: string) { forall p :: 0 <= p < |t| ==> !BreakAt(t, p) }

  predicate StartsSentence(t: string) { t != "" && IsOpener(t[0]) }

  predicate EndsSentence(t: string) { t != "" && IsTerminal(t[|t| - 1]) }

  // A text that is read as one whole sentence, wherever it stands.
  predicate OneSentence(s: string) {
    s != "" && Strip(s) == s && Unbroken(s) && StartsSentence(s) && EndsSentence(s)
  }

  predicate NoTerminal(s: string) { forall i :: 0 <= i < |s| ==> !IsTerminal(s[i]) }

  lemma NoTerminalAppend(a: string, b: string)
    requires NoTerminal(a) && NoTerminal(b)
    ensures NoTerminal(a + b)
  {
  }

  lemma PlainSentence(words: string)
    requires |words| > 1 && IsOpener(words[0]) && NoTerminal(words)
    ensures OneSentence(words + ".")
  {
    var s := words + ".";
    OpenersAreNotSpaces(words[0]);
    StripNothing(s);
    forall p | 0 < p < |s| ensures !BreakAt(s, p) {
      assert s[p - 1] == words[p - 1];
    }
  }

  // Pieces a split leaves: whitespace only around the whole, a sentence's beginning and end at
  // every joint, no boundary inside any of them.
  predicate Pieces(parts: seq<string>) {
    && (forall i :: 0 <= i < |parts| ==> Strip(parts[i]) != "" && Unbroken(parts[i]))
    && (forall i :: 0 < i < |parts| ==> StartsSentence(parts[i]))
    && (forall i :: 0 <= i < |parts| - 1 ==> EndsSentence(parts[i]))
  }

  lemma {:induction false} SpaceEndAt(t: string, i: nat, j: nat)
    requires i <= j <= |t| && (forall k :: i <= k < j ==> IsSpace(t[k])) && (j < |t| ==> !IsSpace(t[j]))
    ensures SpaceEnd(t, i) == j
    decreases j - i
  {
    if i < j {
      SpaceEndAt(t, i + 1, j);
    }
  }

  // A boundary inside a stretch of text is a boundary of the text.
  lemma BreakInSlice(t: string, i: nat, j: nat, p: nat)
    requires i <= j <= |t| && BreakAt(t[i..j], p)
    ensures BreakAt(t, i + p)
  {
    var s := t[i..j];
    var q := SpaceEnd(s, p);
    forall k | i + p <= k < i + q ensures IsSpace(t[k]) {
      assert t[k] == s[k - i];
    }
    assert t[i + q] == s[q] && t[i + p] == s[p] && t[i + p - 1] == s[p - 1];
    SpaceEndAt(t, i + p, i + q);
  }

  lemma UnbrokenSlice(t: string, i: nat, j: nat)
    requires i <= j <= |t| && forall p :: i <= p < j ==> !BreakAt(t, p)
    ensures Unbroken(t[i..j])
  {
    forall p | 0 <= p < j - i ensures !BreakAt(t[i..j], p) {
      if BreakAt(t[i..j], p) {
        BreakInSlice(t, i, j, p);
      }
    }
  }

  // Strip removes whitespace at the two ends and nothing else.
  lemma StripSlice(t: string) returns (i: nat, j: nat)
    ensures i <= j <= |t| && Strip(t) == t[i..j]
    ensures (forall k :: 0 <= k < i || j <= k < |t| ==> IsSpace(t[k]))
    ensures i < j ==> !IsSpace(t[i]) && !IsSpace(t[j - 1])
  {
    i := LeftStripSlice(t);
    var m := RightStripSlice(t[i..]);
    j := i + m;
    assert t[i..][..m] == t[i..j];
    forall k | j <= k < |t| ensures IsSpace(t[k]) {
      assert t[k] == t[i..][k - i];
    }
    if m > 0 {
      assert t[j - 1] == t[i..][m - 1];
    }
  }

  lemma StripNothing(t: string)
    requires t != "" ==> !IsSpace(t[0]) && !IsSpace(t[|t| - 1])
    ensures Strip(t) == t
  {
    var i, j := StripSlice(t);
    if t != "" {
      assert i == 0 && j == |t|;
      assert t[0..|t|] == t;
    }
  }

  lemma StripTwice(t: string)
    ensures Strip(Strip(t)) == Strip(t)
  {
    var i, j := StripSlice(t);
    StripNothing(Strip(t));
  }

  lemma StripKeepsEdges(t: string)
    ensures StartsSentence(t) ==> StartsSentence(Strip(t))
    ensures EndsSentence(t) ==> EndsSentence(Strip(t))
    ensures Unbroken(t) ==> Unbroken(Strip(t))
  {
    var i, j := StripSlice(t);
    if t != "" {
      OpenersAreNotSpaces(t[0]);
      OpenersAreNotSpaces(t[|t| - 1]);
    }
    if Unbroken(t) {
      UnbrokenSlice(t, i, j);
    }
  }

  lemma {:induction false} SplitPieces(t: string)
    requires Strip(t) != ""
    ensures Pieces(Split(t)) && Split(t)[0][..1] == t[..1]
    decreases |t|
  {
    var p := FirstBreak(t, 0);
    if p == |t| {
      UnbrokenSlice(t, 0, p);
      assert t[0..p] == t;
      assert Split(t) == [t];
    } else {
      var head, rest := t[..p], t[SpaceEnd(t, p)..];
      AroundBreak(t, p);
      SplitPieces(rest);
      PiecesCons(head, Split(rest), rest[0]);
    }
  }

  // In front of the first boundary a sentence ends, and behind it one begins.
  lemma AroundBreak(t: string, p: nat)
    requires p == FirstBreak(t, 0) < |t|
    ensures var head, rest := t[..p], t[SpaceEnd(t, p)..];
            && Strip(head) != "" && Unbroken(head) && EndsSentence(head) && head[..1] == t[..1]
            && Strip(rest) != "" && IsOpener(rest[0]) && rest[..1] == [rest[0]]
            && Split(t) == [head] + Split(rest)
  {
    var head, rest := t[..p], t[SpaceEnd(t, p)..];
    UnbrokenSlice(t, 0, p);
    assert t[0..p] == head && IsTerminal(head[p - 1]) && IsOpener(rest[0]);
    HasContent(head, p - 1);
    HasContent(rest, 0);
  }

  lemma PiecesCons(head: string, rest: seq<string>, first: char)
    requires Strip(head) != "" && Unbroken(head) && EndsSentence(head)
    requires Pieces(rest) && rest != [] && IsOpener(first) && rest[0][..1] == [first]
    ensures Pieces([head] + rest)
  {
    var parts := [head] + rest;
    assert rest[0][0] == rest[0][..1][0];
    forall i | 0 <= i < |parts|
      ensures Strip(parts[i]) != "" && Unbroken(parts[i])
      ensures 0 < i ==> StartsSentence(parts[i])
      ensures i < |parts| - 1 ==> EndsSentence(parts[i])
    {
      if i > 0 {
        assert parts[i] == rest[i - 1];
      }
    }
  }

  lemma FrontPiece(head: string, rest: seq<string>)
    requires Pieces(rest) && Strip(head) != "" && Unbroken(head)
    requires rest != [] ==> EndsSentence(head) && StartsSentence(rest[0])
    ensures Pieces([head] + rest)
  {
  }

  lemma KeepFront(head: string, rest: seq<string>, p: string -> bool)
    ensures Keep([head] + rest, p) == if p(head) then [head] + Keep(rest, p) else Keep(rest, p)
  {
    assert ([head] + rest)[1..] == rest;
  }

  lemma StrippedTwice(parts: seq<string>)
    ensures Stripped(Stripped(parts)) == Stripped(parts)
  {
    forall i | 0 <= i < |parts| ensures Strip(Strip(parts[i])) == Strip(parts[i]) {
      StripTwice(parts[i]);
    }
  }

  lemma HasContent(t: string, i: nat)
    requires i < |t| && (IsOpener(t[i]) || IsTerminal(t[i]))
    ensures Strip(t) != ""
  {
    OpenersAreNotSpaces(t[i]);
    var a, b := StripSlice(t);
  }

  lemma {:induction false} KeepAll(parts: seq<string>, p: string -> bool)
    requires forall s :: s in parts ==> p(s)
    ensures Keep(parts, p) == parts
  {
    if parts != [] {
      KeepAll(parts[1..], p);
    }
  }

  // Leaving sentences out leaves well-joined pieces.
  lemma {:induction false} KeepPieces(parts: seq<string>, p: string -> bool)
    requires Pieces(parts)
    ensures Pieces(Keep(parts, p))
  {
    if parts != [] {
      var rest := parts[1..];
      assert forall i :: 0 <= i < |rest| ==> rest[i] == parts[i + 1];
      assert Pieces(rest);
      KeepPieces(rest, p);
      var kept := Keep(rest, p);
      if p(parts[0]) && kept != [] {
        assert kept[0] in kept && kept[0] in rest;
        assert StartsSentence(kept[0]) && kept[0][..1] == [kept[0][0]];
        PiecesCons(parts[0], kept, kept[0][0]);
      }
    }
  }

  lemma SentencesArePieces(t: string)
    ensures Pieces(SentencesOf(t))
    ensures Strip(t) != "" ==> SentencesOf(t) == Split(t)
    ensures Strip(t) == "" ==> SentencesOf(t) == []
  {
    if Strip(t) == "" {
      var i, j := StripSlice(t);
      forall p | 0 <= p < |t| ensures !BreakAt(t, p) {
        if 0 < p {
          assert IsSpace(t[p - 1]);
        }
      }
      assert Split(t) == [t];
      assert Keep([t][1..], part => Strip(part) != "") == [];
    } else {
      SplitPieces(t);
      KeepAll(Split(t), part => Strip(part) != "");
    }
  }

  // ----- joining sentences back -----

  lemma StrippedPieces(parts: seq<string>)
    requires Pieces(parts)
    ensures Pieces(Stripped(parts))
    ensures forall s :: s in Stripped(parts) ==> Strip(s) == s
  {
    var r := Stripped(parts);
    forall i | 0 <= i < |parts|
      ensures Strip(r[i]) == r[i] && Strip(r[i]) != "" && Unbroken(r[i])
      ensures 0 < i ==> StartsSentence(r[i])
      ensures i < |parts| - 1 ==> EndsSentence(r[i])
    {
      StripTwice(parts[i]);
      StripKeepsEdges(parts[i]);
    }
  }

  // In a text that starts with an unbroken sentence, a space and another sentence, the first
  // boundary is that space.
  lemma FirstBreakOfJoin(head: string, rest: string)
    requires head != "" && Unbroken(head) && EndsSentence(head) && StartsSentence(rest)
    ensures var t := head + " " + rest;
            FirstBreak(t, 0) == |head| && SpaceEnd(t, |head|) == |head| + 1
  {
    var t := head + " " + rest;
    OpenersAreNotSpaces(rest[0]);
    OpenersAreNotSpaces(head[|head| - 1]);
    assert t[|head|] == ' ' && t[|head| + 1] == rest[0] && t[|head| - 1] == head[|head| - 1];
    SpaceEndAt(t, |head|, |head| + 1);
    assert BreakAt(t, |head|);
    forall p | 0 <= p < |head| ensures !BreakAt(t, p) {
      if BreakAt(t, p) {
        var q := SpaceEnd(t, p);
        if q >= |head| {
          assert false;
        }
        forall k | p <= k <= q ensures t[k] == head[k] { }
        assert t[p - 1] == head[p - 1];
        SpaceEndAt(head, p, q);
        assert BreakAt(head, p);
      }
    }
  }

  lemma {:induction false} SplitJoin(parts: seq<string>)
    requires parts != [] && Pieces(parts) && forall s :: s in parts ==> Strip(s) == s
    ensures Split(Join(parts)) == parts && Strip(Join(parts)) != ""
    ensures Join(parts) != "" && Join(parts)[0] == parts[0][0]
  {
    var head := parts[0];
    assert head in parts && head != "";
    if |parts| == 1 {
      assert Join(parts) == head;
      assert FirstBreak(head, 0) == |head|;
      assert Split(head) == [head];
    } else {
      var rest := parts[1..];
      SplitJoin(rest);
      assert StartsSentence(Join(rest));
      SplitOff(head, Join(rest));
      assert parts == [head] + rest;
    }
  }

  // The first sentence of a joined text is split off it.
  lemma SplitOff(head: string, rest: string)
    requires head != "" && Unbroken(head) && EndsSentence(head) && StartsSentence(rest)
    ensures var t := head + " " + rest;
            Split(t) == [head] + Split(rest) && Strip(t) != "" && t[0] == head[0]
  {
    var t := head + " " + rest;
    FirstBreakOfJoin(head, rest);
    assert t[..|head|] == head && t[|head| + 1..] == rest;
    HasContent(t, |head| - 1);
  }

  // The round trip every sentence-level rewrite relies on: split a text, leave some sentences out,
  // join the rest, and splitting again hears exactly the sentences that were kept.
  lemma Rejoin(t: string, p: string -> bool)
    ensures var kept := Keep(SentencesOf(t), p);
            SentencesOf(Join(kept)) == Stripped(kept)
  {
    var kept := Keep(SentencesOf(t), p);
    SentencesArePieces(t);
    KeepPieces(SentencesOf(t), p);
    RejoinPieces(kept);
  }

  lemma RejoinPieces(kept: seq<string>)
    requires Pieces(kept)
    ensures SentencesOf(Join(kept)) == Stripped(kept)
  {
    if kept == [] {
      SentencesArePieces("");
    } else {
      StrippedPieces(kept);
      JoinStripped(kept);
      SplitJoin(Stripped(kept));
      SentencesArePieces(Join(kept));
    }
  }

  lemma ReadAsOne(s: string)
    requires OneSentence(s)
    ensures SentencesOf(s) == [s]
  {
    RejoinPieces([s]);
  }

  lemma {:induction false} JoinStripped(parts: seq<string>)
    ensures Join(Stripped(parts)) == Join(parts)
  {
    if parts != [] {
      var rest := parts[1..];
      StripTwice(parts[0]);
      JoinStripped(rest);
      assert Stripped(parts)[0] == Strip(parts[0]);
      assert Stripped(parts)[1..] == Stripped(rest);
      if rest == [] {
        assert Join(Stripped(parts)) == Strip(Stripped(parts)[0]);
      } else {
        assert Join(Stripped(parts)) == Strip(Stripped(parts)[0]) + " " + Join(Stripped(rest));
      }
    }
  }
}
