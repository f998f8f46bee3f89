// A passage with its deadlines redone: only the spans of the claims are rewritten
// (correct in src/hrmosaic/agent/dates.py:173-207).
module Passages {
  import opened Blocks
  import opened Lists

  // One match of the claim expression and what becomes of it: None leaves it, "" drops it.
  datatype Rewrite = Rewrite(from: nat, to: nat, repair: Option<string>)

  // finditer: the matches lie one behind the other, the first at or after `at`.
  predicate Behind(text: string, at: nat, spans: seq<Rewrite>)
    decreases |spans|
  {
    if spans == [] then at <= |text|
    else at <= spans[0].from <= spans[0].to <= |text| && Behind(text, spans[0].to, spans[1..])
  }

  lemma BehindEarlier(text: string, at: nat, later: nat, spans: seq<Rewrite>)
    requires at <= later && Behind(text, later, spans)
    ensures Behind(text, at, spans)
  {
  }

  predicate IsBlank(c: char) { c == ' ' || c == '\t' }

  // prefix.rstrip(" \t")
  function WithoutTrailingBlanks(s: string): (r: string)
    ensures r <= s && (forall k :: |r| <= k < |s| ==> IsBlank(s[k])) && (r != "" ==> !IsBlank(r[|r| - 1]))
  {
    if s != "" && IsBlank(s[|s| - 1]) then WithoutTrailingBlanks(s[..|s| - 1]) else s
  }

  type CharTest = char -> bool

  // The text in front of a dropped claim, less the blanks that introduced it; one is put back where
  // two words would be welded together.
  function Introduced(isAlnum: CharTest, prefix: string, rest: string): string {
    var trimmed := WithoutTrailingBlanks(prefix);
    if trimmed != prefix && rest != "" && isAlnum(rest[0]) then trimmed + " " else trimmed
  }

  // The passage from `at` on, with every repair made.
  function Corrected(isAlnum: CharTest, text: string, at: nat, spans: seq<Rewrite>): string
    requires Behind(text, at, spans)
    decreases |spans|
  {
    if spans == [] then text[at..]
    else
      var s, rest := spans[0], spans[1..];
      match s.repair
      case None => BehindEarlier(text, at, s.to, rest); Corrected(isAlnum, text, at, rest)
      case Some(r) =>
        (if r == "" then Introduced(isAlnum, text[at..s.from], text[s.to..]) else text[at..s.from] + r)
        + Corrected(isAlnum, text, s.to, rest)
  }

  // "".join(pieces)
  function Concat(pieces: seq<string>): string {
    if pieces == [] then "" else Concat(pieces[..|pieces| - 1]) + pieces[|pieces| - 1]
  }

  lemma ConcatSnoc(pieces: seq<string>, last: string)
    ensures Concat(pieces + [last]) == Concat(pieces) + last
  {
    assert (pieces + [last])[..|pieces|] == pieces;
  }

  method Correct(isAlnum: CharTest, text: string, spans: seq<Rewrite>) returns (corrected: string)
    requires Behind(text, 0, spans)
    ensures corrected == Corrected(isAlnum, text, 0, spans)
  {
    var pieces: seq<string> := [];
    var cursor: nat := 0;
    assert spans[0..] == spans;
    for i := 0 to |spans|
      invariant Behind(text, cursor, spans[i..])
      invariant Concat(pieces) + Corrected(isAlnum, text, cursor, spans[i..]) == Corrected(isAlnum, text, 0, spans)
    {
      var s := spans[i];
      var here := spans[i..];
      assert here[0] == s && here[1..] == spans[i + 1..];
      BehindEarlier(text, cursor, s.to, spans[i + 1..]);
      if s.repair.None? {
        continue;
      }
      var prefix := text[cursor..s.from];
      var piece := if s.repair.value == "" then Introduced(isAlnum, prefix, text[s.to..]) else prefix + s.repair.value;
      ConcatSnoc(pieces, piece);
      Associative(Concat(pieces), piece, Corrected(isAlnum, text, s.to, spans[i + 1..]));
      pieces := pieces + [piece];
      cursor := s.to;
    }
    ConcatSnoc(pieces, text[cursor..]);
    return Concat(pieces + [text[cursor..]]);
  }

  // ----- everything outside the spans comes back -----

  // The passage with each span replaced and not a character outside the spans touched.
  function Spliced(text: string, at: nat, spans: seq<Rewrite>): string
    requires Behind(text, at, spans)
    decreases |spans|
  {
    if spans == [] then text[at..]
    else
      var s := spans[0];
      var written := if s.repair.None? then text[s.from..s.to] else s.repair.value;
      text[at..s.from] + (written + Spliced(text, s.to, spans[1..]))
  }

  // A span that is left alone joins what stands in front of it.
  lemma {:induction false} SplicedFrom(text: string, at: nat, later: nat, spans: seq<Rewrite>)
    requires at <= later && Behind(text, later, spans)
    ensures Behind(text, at, spans) && Spliced(text, at, spans) == text[at..later] + Spliced(text, later, spans)
  {
    BehindEarlier(text, at, later, spans);
    if spans == [] {
      assert text[at..] == text[at..later] + text[later..];
    } else {
      var s := spans[0];
      var tail := (if s.repair.None? then text[s.from..s.to] else s.repair.value) + Spliced(text, s.to, spans[1..]);
      assert text[at..s.from] == text[at..later] + text[later..s.from];
      Associative(text[at..later], text[later..s.from], tail);
    }
  }

  lemma LeftAlone(text: string, at: nat, spans: seq<Rewrite>)
    requires spans != [] && spans[0].repair.None? && Behind(text, at, spans)
    ensures Behind(text, at, spans[1..]) && Spliced(text, at, spans) == Spliced(text, at, spans[1..])
  {
    var s := spans[0];
    SplicedFrom(text, at, s.to, spans[1..]);
    Associative(text[at..s.from], text[s.from..s.to], Spliced(text, s.to, spans[1..]));
    assert text[at..s.to] == text[at..s.from] + text[s.from..s.to];
  }

  // Without a dropped claim the text changes inside the spans only.
  lemma {:induction false} NothingElseMoves(isAlnum: CharTest, text: string, at: nat, spans: seq<Rewrite>)
    requires Behind(text, at, spans) && forall s :: s in spans ==> s.repair != Some("")
    ensures Corrected(isAlnum, text, at, spans) == Spliced(text, at, spans)
    decreases |spans|
  {
    if spans != [] {
      var s, rest := spans[0], spans[1..];
      assert s in spans && forall x :: x in rest ==> x in spans;
      if s.repair.None? {
        LeftAlone(text, at, spans);
        NothingElseMoves(isAlnum, text, at, rest);
      } else {
        NothingElseMoves(isAlnum, text, s.to, rest);
        Associative(text[at..s.from], s.repair.value, Spliced(text, s.to, rest));
      }
    }
  }

  // ----- what a dropped claim takes with it -----

  // The span of a dropped claim with the blanks that introduced it, not past `at`; a space takes its
  // place where two words would be welded together.
  function Widen(isAlnum: CharTest, text: string, at: nat, s: Rewrite): (w: Rewrite)
    requires at <= s.from <= s.to <= |text|
    ensures at <= w.from <= s.from && w.to == s.to
  {
    var from := at + |WithoutTrailingBlanks(text[at..s.from])|;
    var welded := from < s.from && s.to < |text| && isAlnum(text[s.to]);
    Rewrite(from, s.to, Some(if welded then " " else ""))
  }

  // The spans that are rewritten, each dropped one widened.
  function Widened(isAlnum: CharTest, text: string, at: nat, spans: seq<Rewrite>): (r: seq<Rewrite>)
    requires Behind(text, at, spans)
    ensures Behind(text, at, r)
    decreases |spans|
  {
    if spans == [] then []
    else
      var s, rest := spans[0], spans[1..];
      match s.repair
      case None => BehindEarlier(text, at, s.to, rest); Widened(isAlnum, text, at, rest)
      case Some(r) => [if r == "" then Widen(isAlnum, text, at, s) else s] + Widened(isAlnum, text, s.to, rest)
  }

  lemma WidenedPiece(isAlnum: CharTest, text: string, at: nat, s: Rewrite)
    requires at <= s.from <= s.to <= |text|
    ensures var w := Widen(isAlnum, text, at, s);
            Introduced(isAlnum, text[at..s.from], text[s.to..]) == text[at..w.from] + w.repair.value
  {
    var w := Widen(isAlnum, text, at, s);
    assert text[at..w.from] == WithoutTrailingBlanks(text[at..s.from]);
    assert s.to < |text| ==> text[s.to..][0] == text[s.to];
  }

  // Exactly what comes back: the passage byte for byte, with nothing replaced but the rewritten
  // spans and, for a dropped claim, the blanks that introduced it.
  lemma {:induction false} OutsideComesBack(isAlnum: CharTest, text: string, at: nat, spans: seq<Rewrite>)
    requires Behind(text, at, spans)
    ensures Corrected(isAlnum, text, at, spans) == Spliced(text, at, Widened(isAlnum, text, at, spans))
    decreases |spans|
  {
    if spans != [] {
      var s, rest := spans[0], spans[1..];
      if s.repair.None? {
        BehindEarlier(text, at, s.to, rest);
        OutsideComesBack(isAlnum, text, at, rest);
      } else {
        OutsideComesBack(isAlnum, text, s.to, rest);
        WidenedPiece(isAlnum, text, at, s);
        var w := Widened(isAlnum, text, at, spans);
        assert w[1..] == Widened(isAlnum, text, s.to, rest);
        Associative(text[at..w[0].from], w[0].repair.value, Spliced(text, s.to, w[1..]));
      }
    }
  }

  function Rewritten(spans: seq<Rewrite>): seq<Rewrite> {
    if spans == [] then [] else (if spans[0].repair.Some? then [spans[0]] else []) + Rewritten(spans[1..])
  }

  // How far a span of the passage is rewritten, `edge` being the end of the one before it: only a
  // dropped claim grows, over all the blanks in front of it and nothing else.
  predicate GrowsOverBlanks(isAlnum: CharTest, text: string, edge: nat, s: Rewrite, w: Rewrite)
    requires edge <= w.from <= s.from <= s.to <= |text|
  {
    if s.repair != Some("") then w == s
    else
      && w.to == s.to
      && (forall k :: w.from <= k < s.from ==> IsBlank(text[k]))
      && (w.from == edge || !IsBlank(text[w.from - 1]))
      && w.repair == Some(if w.from < s.from && s.to < |text| && isAlnum(text[s.to]) then " " else "")
  }

  lemma WidenGrows(isAlnum: CharTest, text: string, at: nat, s: Rewrite)
    requires at <= s.from <= s.to <= |text| && s.repair == Some("")
    ensures GrowsOverBlanks(isAlnum, text, at, s, Widen(isAlnum, text, at, s))
  {
    var prefix := text[at..s.from];
    var kept := WithoutTrailingBlanks(prefix);
    assert forall k :: at + |kept| <= k < s.from ==> text[k] == prefix[k - at];
    assert kept != "" ==> text[at + |kept| - 1] == prefix[|kept| - 1] == kept[|kept| - 1];
  }

  // The same of each span in turn.
  predicate EachGrows(isAlnum: CharTest, text: string, edge: nat, spans: seq<Rewrite>, widened: seq<Rewrite>)
    decreases |spans|
  {
    if spans == [] then widened == []
    else
      && widened != []
      && edge <= widened[0].from <= spans[0].from <= spans[0].to <= |text|
      && GrowsOverBlanks(isAlnum, text, edge, spans[0], widened[0])
      && EachGrows(isAlnum, text, spans[0].to, spans[1..], widened[1..])
  }

  lemma {:induction false} WidenedIsExact(isAlnum: CharTest, text: string, at: nat, spans: seq<Rewrite>)
    requires Behind(text, at, spans)
    ensures EachGrows(isAlnum, text, at, Rewritten(spans), Widened(isAlnum, text, at, spans))
    decreases |spans|
  {
    if spans != [] {
      var s, rest := spans[0], spans[1..];
      if s.repair.None? {
        BehindEarlier(text, at, s.to, rest);
        WidenedIsExact(isAlnum, text, at, rest);
        assert [] + Rewritten(rest) == Rewritten(rest);
      } else {
        WidenedIsExact(isAlnum, text, s.to, rest);
        if s.repair == Some("") {
          WidenGrows(isAlnum, text, at, s);
        }
        assert Rewritten(spans)[1..] == Rewritten(rest);
        assert Widened(isAlnum, text, at, spans)[1..] == Widened(isAlnum, text, s.to, rest);
      }
    }
  }
}
