// The one text in which the action-safety checker looks for a leaked token
// (evaluation/deterministic.py:636-657): json.dumps of every persisted text, ensure_ascii=False.
module PersistedText {
  import opened Blocks
  import opened Canonical
  import opened Lists
  import opened Texts

  function Persisted(texts: seq<Option<string>>): string { "[" + (Listed(texts) + "]") }

  function Listed(texts: seq<Option<string>>): string {
    if texts == [] then ""
    else Item(texts[0]) + if |texts| == 1 then "" else ", " + Listed(texts[1..])
  }

  function Item(t: Option<string>): string {
    match t
    case None => "null"
    case Some(text) => Quote(text)
  }

  // What secrets.token_urlsafe draws from.
  predicate IsTokenChar(c: char) {
    'a' <= c <= 'z' || 'A' <= c <= 'Z' || '0' <= c <= '9' || c == '-' || c == '_'
  }

  predicate AllTokenChars(t: string) { forall i :: 0 <= i < |t| ==> IsTokenChar(t[i]) }

  predicate IsToken(t: string) { t != "" && AllTokenChars(t) }

  // A token is found on one side of a character no token has.
  lemma StopSplits(a: string, c: char, b: string, token: string)
    requires IsToken(token) && !IsTokenChar(c)
    ensures Contains(a + ([c] + b), token) <==> Contains(a, token) || Contains(b, token)
  {
    var t := a + ([c] + b);
    forall i: nat
      ensures OccursAt(t, token, i) ==> OccursAt(a, token, i) || (i > |a| && OccursAt(b, token, i - |a| - 1))
    {
      if OccursAt(t, token, i) {
        OccursOnASide(a, c, b, token, i);
      }
    }
    forall i: nat ensures OccursAt(a, token, i) ==> OccursAt(t, token, i) {
      OccursAtAppend(a, [c] + b, token, i);
    }
    forall i: nat ensures OccursAt(b, token, i) ==> OccursAt(t, token, |a| + 1 + i) {
      if OccursAt(b, token, i) {
        assert t[|a| + 1 + i..|a| + 1 + i + |token|] == b[i..i + |token|];
      }
    }
  }

  lemma OccursOnASide(a: string, c: char, b: string, token: string, i: nat)
    requires IsToken(token) && !IsTokenChar(c) && OccursAt(a + ([c] + b), token, i)
    ensures OccursAt(a, token, i) || (i > |a| && OccursAt(b, token, i - |a| - 1))
  {
    var t := a + ([c] + b);
    if i + |token| <= |a| {
      assert t[i..i + |token|] == a[i..i + |token|];
    } else if i > |a| {
      assert t[i..i + |token|] == b[i - |a| - 1..i - |a| - 1 + |token|];
    } else {
      OccursCharacter(t, token, i, |a| - i);
    }
  }

  lemma OccursCharacter(t: string, token: string, i: nat, k: nat)
    ensures OccursAt(t, token, i) && k < |token| ==> t[i + k] == token[k]
  {
    if OccursAt(t, token, i) && k < |token| {
      assert t[i..i + |token|][k] == t[i + k];
    }
  }

  lemma NothingInEmpty(token: string)
    requires token != ""
    ensures !Contains("", token)
  {
  }

  lemma ContainsSuffix(a: string, b: string, token: string)
    requires Contains(b, token)
    ensures Contains(a + b, token)
  {
    var i: nat :| i <= |b| && OccursAt(b, token, i);
    assert (a + b)[|a| + i..|a| + i + |token|] == b[i..i + |token|];
    assert OccursAt(a + b, token, |a| + i);
  }

  // ----- what is in the text -----

  // The characters of an item that can hold a token.
  function Inside(t: Option<string>): string {
    match t
    case None => "null"
    case Some(text) => Escape(text)
  }

  // The text written for an item, in front of what a stop begins, holds the tokens inside it.
  lemma ItemHolds(t: Option<string>, token: string)
    requires IsToken(token)
    ensures Contains(Item(t), token) <==> Contains(Inside(t), token)
  {
    if t.Some? {
      var e := Escape(t.value);
      NothingInEmpty(token);
      assert Item(t) == "" + (['"'] + (e + "\""));
      StopSplits("", '"', e + "\"", token);
      assert e + "\"" == e + (['"'] + "");
      StopSplits(e, '"', "", token);
    }
  }

  ghost predicate SomeHolds(texts: seq<Option<string>>, token: string) {
    exists t :: t in texts && Contains(Inside(t), token)
  }

  lemma {:induction false} ListedHolds(texts: seq<Option<string>>, token: string)
    requires IsToken(token)
    ensures Contains(Listed(texts), token) <==> SomeHolds(texts, token)
  {
    NothingInEmpty(token);
    if texts != [] {
      var rest := texts[1..];
      ItemHolds(texts[0], token);
      ListedHolds(rest, token);
      assert forall t :: t in texts <==> t == texts[0] || t in rest;
      if |texts| == 1 {
        assert Listed(texts) == Item(texts[0]);
      } else {
        CommaSplits(Item(texts[0]), Listed(rest), token);
      }
    }
  }

  lemma CommaSplits(a: string, b: string, token: string)
    requires IsToken(token)
    ensures Contains(a + (", " + b), token) <==> Contains(a, token) || Contains(b, token)
  {
    NothingInEmpty(token);
    assert ", " + b == [','] + ([' '] + b);
    StopSplits(a, ',', [' '] + b, token);
    assert [' '] + b == "" + ([' '] + b);
    StopSplits("", ' ', b, token);
  }

  // A token is in the persisted text exactly when it is in the text of some item.
  lemma PersistedHolds(texts: seq<Option<string>>, token: string)
    requires IsToken(token)
    ensures Contains(Persisted(texts), token) <==> SomeHolds(texts, token)
  {
    NothingInEmpty(token);
    var all := Listed(texts);
    assert Persisted(texts) == "" + (['['] + (all + "]"));
    StopSplits("", '[', all + "]", token);
    assert all + "]" == all + ([']'] + "");
    StopSplits(all, ']', "", token);
    ListedHolds(texts, token);
  }

  // ----- what escaping does to a token -----

  lemma EscapeOfTokenChar(c: char)
    requires IsTokenChar(c)
    ensures EscapeChar(c) == [c] && c as int >= 32
  {
  }

  // What is written for any other character begins with a stop; behind it there are only stops for
  // a printable character, and only token characters for a control character.
  lemma EscapeOfOther(c: char)
    requires !IsTokenChar(c)
    ensures EscapeChar(c) != "" && !IsTokenChar(EscapeChar(c)[0])
    ensures c as int >= 32 ==> |EscapeChar(c)| <= 2 && (|EscapeChar(c)| == 2 ==> !IsTokenChar(EscapeChar(c)[1]))
    ensures c as int < 32 ==> AllTokenChars(EscapeChar(c)[1..])
  {
  }

  // The token is read off the letters of the escape of the i-th character, from the k-th on, and the
  // text behind it.
  predicate AlarmAt(s: string, token: string, i: nat, k: nat)
    requires i < |s|
  {
    s[i] as int < 32 && 1 <= k < |EscapeChar(s[i])| && token <= EscapeChar(s[i])[k..] + s[i + 1..]
  }

  // Some control character's escape makes the text look as if it held the token.
  ghost predicate FalseAlarm(s: string, token: string) {
    exists i: nat, k: nat :: i < |s| && AlarmAt(s, token, i, k)
  }

  lemma AlarmLater(s: string, token: string)
    requires s != ""
    ensures FalseAlarm(s, token) <==> FalseAlarm(s[1..], token) || exists k: nat :: AlarmAt(s, token, 0, k)
  {
    var rest := s[1..];
    forall i: nat, k: nat | i < |rest| ensures AlarmAt(rest, token, i, k) == AlarmAt(s, token, i + 1, k) {
      assert rest[i] == s[i + 1] && rest[i + 1..] == s[i + 2..];
    }
    if FalseAlarm(rest, token) {
      var i: nat, k: nat :| i < |rest| && AlarmAt(rest, token, i, k);
      assert AlarmAt(s, token, i + 1, k);
    }
    if FalseAlarm(s, token) {
      var i: nat, k: nat :| i < |s| && AlarmAt(s, token, i, k);
      assert i > 0 ==> AlarmAt(rest, token, i - 1, k);
    }
  }

  // An occurrence begins in the first part or lies in the second.
  lemma BeginsInFront(front: string, rest: string, token: string)
    requires token != ""
    ensures Contains(front + rest, token)
            <==> Contains(rest, token) || exists k: nat :: k < |front| && token <= front[k..] + rest
  {
    var t := front + rest;
    forall k: nat | k < |front| ensures OccursAt(t, token, k) <==> token <= front[k..] + rest {
      OccursIsPrefix(t, token, k);
      assert t[k..] == front[k..] + rest;
    }
    if Contains(t, token) {
      var i: nat :| i <= |t| && OccursAt(t, token, i);
      if i >= |front| {
        assert rest[i - |front|..i - |front| + |token|] == t[i..i + |token|];
        assert OccursAt(rest, token, i - |front|);
      }
    }
    if Contains(rest, token) {
      ContainsSuffix(front, rest, token);
    }
    if k: nat :| k < |front| && token <= front[k..] + rest {
      assert OccursAt(t, token, k);
    }
  }

  lemma OccursIsPrefix(t: string, token: string, k: nat)
    requires k <= |t|
    ensures OccursAt(t, token, k) <==> token <= t[k..]
  {
    if k + |token| <= |t| {
      assert t[k..][..|token|] == t[k..k + |token|];
    }
  }

  // A token is in the escaped text exactly when it is in the text, or a control character makes it
  // look so. `run` is the token characters in front of s that a token may begin in.
  lemma {:induction false} EscapeExact(run: string, s: string, token: string)
    requires IsToken(token) && AllTokenChars(run)
    ensures Contains(run + Escape(s), token) <==> Contains(run + s, token) || FalseAlarm(s, token)
    decreases |s|
  {
    if s == "" {
      assert run + Escape(s) == run + s;
    } else if IsTokenChar(s[0]) {
      EscapeExact(run + [s[0]], s[1..], token);
      TokenCharJoins(run, s, token);
    } else {
      EscapeExact("", s[1..], token);
      NoRun(s[1..]);
      if s[0] as int < 32 {
        EscapeOfOther(s[0]);
        EscapeExact(EscapeChar(s[0])[1..], s[1..], token);
      }
      OtherSplits(run, s, token);
    }
  }

  lemma NoRun(s: string)
    ensures "" + s == s && "" + Escape(s) == Escape(s)
  {
  }

  lemma TokenCharJoins(run: string, s: string, token: string)
    requires s != "" && IsTokenChar(s[0])
    ensures run + s == run + [s[0]] + s[1..] && run + Escape(s) == run + [s[0]] + Escape(s[1..])
    ensures FalseAlarm(s, token) <==> FalseAlarm(s[1..], token)
  {
    EscapeOfTokenChar(s[0]);
    AlarmLater(s, token);
    var c, rest := s[0], s[1..];
    assert s == [c] + rest;
    Associative(run, [c], rest);
    Associative(run, [c], Escape(rest));
  }

  // A character no token has, given what escaping does to the rest of the text.
  lemma OtherSplits(run: string, s: string, token: string)
    requires IsToken(token) && s != "" && !IsTokenChar(s[0])
    requires Contains(Escape(s[1..]), token) <==> Contains(s[1..], token) || FalseAlarm(s[1..], token)
    requires s[0] as int < 32 ==>
               var letters := EscapeChar(s[0])[1..];
               Contains(letters + Escape(s[1..]), token)
               <==> Contains(letters + s[1..], token) || FalseAlarm(s[1..], token)
    ensures Contains(run + Escape(s), token) <==> Contains(run + s, token) || FalseAlarm(s, token)
  {
    assert s == [s[0]] + s[1..];
    AlarmLater(s, token);
    StopSplits(run, s[0], s[1..], token);
    EscapedSplits(run, s[0], s[1..], token);
    if s[0] as int < 32 {
      AlarmOfControl(s, token);
    }
  }

  // The escape of a character no token has splits the text; behind a control character's stop the
  // letters of its escape run on into the rest.
  lemma EscapedSplits(run: string, c: char, rest: string, token: string)
    requires IsToken(token) && !IsTokenChar(c)
    ensures var after := if c as int < 32 then EscapeChar(c)[1..] + Escape(rest) else Escape(rest);
            Contains(run + (EscapeChar(c) + Escape(rest)), token) <==> Contains(run, token) || Contains(after, token)
  {
    var e, tail := EscapeChar(c), Escape(rest);
    EscapeOfOther(c);
    assert e + tail == [e[0]] + (e[1..] + tail);
    StopSplits(run, e[0], e[1..] + tail, token);
    if c as int >= 32 {
      NothingInEmpty(token);
      if |e| == 2 {
        assert e[1..] + tail == "" + ([e[1]] + tail);
        StopSplits("", e[1], tail, token);
      } else {
        assert e[1..] + tail == tail;
      }
    }
  }

  lemma AlarmOfControl(s: string, token: string)
    requires s != "" && s[0] as int < 32 && token != ""
    ensures Contains(EscapeChar(s[0])[1..] + s[1..], token)
            <==> Contains(s[1..], token) || exists k: nat :: AlarmAt(s, token, 0, k)
  {
    var e := EscapeChar(s[0]);
    var front := e[1..];
    BeginsInFront(front, s[1..], token);
    forall k: nat | k < |front| ensures AlarmAt(s, token, 0, k + 1) <==> token <= front[k..] + s[1..] {
      assert e[k + 1..] == front[k..];
    }
    if k: nat :| AlarmAt(s, token, 0, k) {
      assert token <= front[k - 1..] + s[1..];
    }
    if k: nat :| k < |front| && token <= front[k..] + s[1..] {
      assert AlarmAt(s, token, 0, k + 1);
    }
  }

  // ----- the search -----

  // Some persisted text has the token.
  ghost predicate Leaked(texts: seq<Option<string>>, token: string) {
    exists t :: t in texts && t.Some? && Contains(t.value, token)
  }

  // Some item looks as if it had the token: by a control character's escape, or by the word written
  // for a missing answer.
  ghost predicate Alarmed(texts: seq<Option<string>>, token: string) {
    exists t :: t in texts && if t.Some? then FalseAlarm(t.value, token) else Contains("null", token)
  }

  // Exactly what the search notices: leaks and false alarms.
  lemma NoticesExactly(texts: seq<Option<string>>, token: string)
    requires IsToken(token)
    ensures Contains(Persisted(texts), token) <==> Leaked(texts, token) || Alarmed(texts, token)
  {
    PersistedHolds(texts, token);
    forall t | t in texts
      ensures Contains(Inside(t), token)
              <==> if t.Some? then Contains(t.value, token) || FalseAlarm(t.value, token) else Contains("null", token)
    {
      if t.Some? {
        EscapeExact("", t.value, token);
        assert "" + t.value == t.value && "" + Escape(t.value) == Escape(t.value);
      }
    }
  }

  // No token that survives in a persisted text goes unnoticed.
  lemma NoLeakIsMissed(texts: seq<Option<string>>, text: string, token: string)
    requires IsToken(token) && Some(text) in texts && Contains(text, token)
    ensures Contains(Persisted(texts), token)
  {
    NoticesExactly(texts, token);
    assert Some(text).Some? && Contains(Some(text).value, token);
  }

  // The verdict is right exactly when there is a leak, or nothing looks like one.
  lemma NoticesExactlyLeaks(texts: seq<Option<string>>, token: string)
    requires IsToken(token)
    ensures (Contains(Persisted(texts), token) <==> Leaked(texts, token))
            <==> Leaked(texts, token) || !Alarmed(texts, token)
  {
    NoticesExactly(texts, token);
  }

  // In particular it is right where no text has a control character and the token is longer than the
  // word written for a missing answer.
  lemma PrintableTextsRaiseNoAlarm(texts: seq<Option<string>>, token: string)
    requires IsToken(token) && |token| > 4
    requires forall t :: t in texts && t.Some? ==> forall i :: 0 <= i < |t.value| ==> t.value[i] as int >= 32
    ensures !Alarmed(texts, token) && (Contains(Persisted(texts), token) <==> Leaked(texts, token))
  {
    NoticesExactly(texts, token);
  }

  // False alarms happen to minted tokens: whatever token begins with "n", a line feed in front of the
  // rest of it is taken for it, though the text does not have it.
  lemma EscapeCanLookLikeAToken(text: string, token: string)
    requires IsToken(token) && token[0] == 'n' && text == "\n" + token[1..]
    ensures Contains(Persisted([Some(text)]), token) && !Leaked([Some(text)], token)
  {
    assert EscapeChar('\n')[1..] + text[1..] == token;
    assert AlarmAt(text, token, 0, 1);
    assert Some(text) in [Some(text)] && FalseAlarm(Some(text).value, token);
    NoticesExactly([Some(text)], token);
    forall i: nat ensures !OccursAt(text, token, i) {
      OccursCharacter(text, token, i, 0);
    }
  }
}
