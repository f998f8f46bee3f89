// The words of an engine step, and the key two statements of it share
// (src/hrmosaic/agent/compliance.py:248-254, 437-439).
module StepWords {
  import opened Texts
  import opened Blocks
  import opened ComplianceRows

  predicate IsAlnum(c: char) { 'a' <= c <= 'z' || '0' <= c <= '9' }

  predicate NotSpace(c: char) { c != ' ' }

  // The maximal runs of characters of one class, `word` being the run in progress.
  function WordsFrom(inWord: char -> bool, word: string, t: string): seq<string>
    decreases |t|
  {
    if t == "" then Ended(word)
    else if inWord(t[0]) then WordsFrom(inWord, word + [t[0]], t[1..])
    else Ended(word) + WordsFrom(inWord, "", t[1..])
  }

  function Ended(word: string): seq<string> { if word == "" then [] else [word] }

  // The longest alphanumeric runs, in lower case.
  function Tokens(text: string): seq<string> { WordsFrom(IsAlnum, "", LowerText(text)) }

  function ContentWords(stop: set<string>, text: string): set<string> {
    (set w | w in Tokens(text)) - stop
  }

  // The end of the leading run of characters that are neither in a word nor a space.
  function OthersEnd(t: string): (n: nat)
    ensures n <= |t| && forall i :: 0 <= i < n ==> !IsAlnum(t[i])
    ensures t != "" && !IsAlnum(t[0]) && t[0] != ' ' ==> n > 0
  {
    if t == "" || IsAlnum(t[0]) || t[0] == ' ' then 0 else 1 + OthersEnd(t[1..])
  }

  // Each run of other characters becomes one space.
  function Blanked(t: string): string
    decreases |t|
  {
    if t == "" then ""
    else if IsAlnum(t[0]) || t[0] == ' ' then [t[0]] + Blanked(t[1..])
    else [' '] + Blanked(t[OthersEnd(t)..])
  }

  // The key two statements of one instruction share.
  function Normalised(text: string): string {
    Spaced(WordsFrom(NotSpace, "", Blanked(LowerText(text))))
  }

  // ----- the key decides the words -----

  lemma {:induction false} SkipOthers(t: string, n: nat)
    requires n <= |t| && forall i :: 0 <= i < n ==> !IsAlnum(t[i])
    ensures WordsFrom(IsAlnum, "", t) == WordsFrom(IsAlnum, "", t[n..])
  {
    if n == 0 {
      assert t[0..] == t;
    } else {
      SkipOthers(t[1..], n - 1);
      assert t[1..][n - 1..] == t[n..];
    }
  }

  // Splitting the blanked text gives the words of the text.
  lemma {:induction false} SplitBlanked(word: string, t: string)
    ensures WordsFrom(NotSpace, word, Blanked(t)) == WordsFrom(IsAlnum, word, t)
    decreases |t|
  {
    if t != "" {
      var b := Blanked(t);
      if IsAlnum(t[0]) {
        SplitBlanked(word + [t[0]], t[1..]);
        assert b[1..] == Blanked(t[1..]);
      } else if t[0] == ' ' {
        SplitBlanked("", t[1..]);
        assert b[1..] == Blanked(t[1..]);
      } else {
        var n := OthersEnd(t);
        SplitBlanked("", t[n..]);
        SkipOthers(t[1..], n - 1);
        assert t[1..][n - 1..] == t[n..];
        assert b[1..] == Blanked(t[n..]);
      }
    }
  }

  predicate Whole(words: seq<string>) {
    forall w :: w in words ==> w != "" && forall i :: 0 <= i < |w| ==> w[i] != ' '
  }

  lemma {:induction false} WordsAreWhole(word: string, t: string)
    requires forall i :: 0 <= i < |word| ==> word[i] != ' '
    ensures Whole(WordsFrom(NotSpace, word, t))
    decreases |t|
  {
    if t != "" {
      if NotSpace(t[0]) {
        WordsAreWhole(word + [t[0]], t[1..]);
      } else {
        WordsAreWhole("", t[1..]);
      }
    }
  }

  lemma {:induction false} TakeWord(word: string, a: string, rest: string)
    requires forall i :: 0 <= i < |a| ==> a[i] != ' '
    ensures WordsFrom(NotSpace, word, a + rest) == WordsFrom(NotSpace, word + a, rest)
    decreases |a|
  {
    if a == "" {
      assert a + rest == rest && word + a == word;
    } else {
      TakeWord(word + [a[0]], a[1..], rest);
      assert (a + rest)[1..] == a[1..] + rest && word + [a[0]] + a[1..] == word + a;
    }
  }

  lemma LastWord(head: string)
    requires head != "" && forall i :: 0 <= i < |head| ==> head[i] != ' '
    ensures WordsFrom(NotSpace, "", head) == [head]
  {
    TakeWord("", head, "");
    assert head + "" == head && "" + head == head;
  }

  lemma WordThenSpace(head: string, more: string)
    requires head != "" && forall i :: 0 <= i < |head| ==> head[i] != ' '
    ensures WordsFrom(NotSpace, "", head + " " + more) == [head] + WordsFrom(NotSpace, "", more)
  {
    var after := " " + more;
    TakeWord("", head, after);
    assert "" + head == head && head + " " + more == head + after && after[1..] == more;
  }

  lemma {:induction false} SplitSpaced(words: seq<string>)
    requires Whole(words)
    ensures WordsFrom(NotSpace, "", Spaced(words)) == words
  {
    if words != [] {
      assert words[0] in words;
      if |words| == 1 {
        LastWord(words[0]);
      } else {
        SplitSpaced(words[1..]);
        WordThenSpace(words[0], Spaced(words[1..]));
        HeadAndRest(words);
      }
    }
  }

  lemma HeadAndRest<T>(s: seq<T>)
    requires s != []
    ensures s == [s[0]] + s[1..]
  {
  }

  // Two steps with one key have the same words, whatever their punctuation.
  lemma KeyDecidesWords(stop: set<string>, a: string, b: string)
    requires Normalised(a) == Normalised(b)
    ensures ContentWords(stop, a) == ContentWords(stop, b)
  {
    KeyIsOfTokens(a);
    KeyIsOfTokens(b);
  }

  lemma KeyIsOfTokens(t: string)
    ensures WordsFrom(NotSpace, "", Normalised(t)) == Tokens(t)
  {
    SplitBlanked("", LowerText(t));
    WordsAreWhole("", Blanked(LowerText(t)));
    SplitSpaced(WordsFrom(NotSpace, "", Blanked(LowerText(t))));
  }

  // Exactly: one key, one sequence of words.
  lemma KeyIsTheWords(a: string, b: string)
    ensures Normalised(a) == Normalised(b) <==> Tokens(a) == Tokens(b)
  {
    KeyIsOfTokens(a);
    KeyIsOfTokens(b);
    SplitBlanked("", LowerText(a));
    SplitBlanked("", LowerText(b));
  }

  // ----- the words of a text -----

  // t[i..j] is a longest run of the class.
  predicate IsRun(inWord: char -> bool, t: string, i: nat, j: nat) {
    && i < j <= |t| && (forall k :: i <= k < j ==> inWord(t[k]))
    && (i == 0 || !inWord(t[i - 1])) && (j == |t| || !inWord(t[j]))
  }

  ghost predicate HasRun(inWord: char -> bool, t: string, w: string) {
    exists i: nat, j: nat :: IsRun(inWord, t, i, j) && t[i..j] == w
  }

  // Around a character of another class the runs are those in front of it and those behind it.
  lemma RunBeside(inWord: char -> bool, word: string, c: char, rest: string, i: nat, j: nat)
    requires (forall k :: 0 <= k < |word| ==> inWord(word[k])) && !inWord(c)
    ensures var n := |word|;
            IsRun(inWord, word + ([c] + rest), i, j) <==>
            (i == 0 && j == n && n > 0) || (i > n && j > n && IsRun(inWord, rest, i - n - 1, j - n - 1))
  {
    var t, n := word + ([c] + rest), |word|;
    if i < j <= |t| {
      if j <= n {
        assert t[i] == word[i] && (i > 0 ==> t[i - 1] == word[i - 1]) && (j < n ==> t[j] == word[j]);
        assert t[n] == c && forall k :: i <= k < j ==> t[k] == word[k];
      } else if i <= n {
        assert t[n] == c;
      } else {
        RunShifted(inWord, word + [c], rest, i, j);
        assert t == (word + [c]) + rest;
      }
    }
  }

  // Behind a front that ends outside the class the runs are the same.
  lemma RunShifted(inWord: char -> bool, front: string, rest: string, i: nat, j: nat)
    requires front != "" && !inWord(front[|front| - 1]) && |front| <= i < j <= |front| + |rest|
    ensures IsRun(inWord, front + rest, i, j) <==> IsRun(inWord, rest, i - |front|, j - |front|)
  {
    var t, n := front + rest, |front|;
    forall k | n <= k < |t| ensures t[k] == rest[k - n] {
    }
    if IsRun(inWord, rest, i - n, j - n) {
      forall k | i <= k < j ensures inWord(t[k]) {
        assert inWord(rest[k - n]);
      }
    }
    if IsRun(inWord, t, i, j) {
      forall k | i - n <= k < j - n ensures inWord(rest[k]) {
        assert inWord(t[k + n]);
      }
    }
  }

  lemma RunsBehind(inWord: char -> bool, word: string, c: char, rest: string, w: string)
    requires (forall k :: 0 <= k < |word| ==> inWord(word[k])) && !inWord(c)
    ensures HasRun(inWord, word + ([c] + rest), w) <==> (w == word && word != "") || HasRun(inWord, rest, w)
  {
    var n := |word|;
    if HasRun(inWord, word + ([c] + rest), w) {
      RunIsBeside(inWord, word, c, rest, w);
    }
    if w == word && word != "" {
      RunBeside(inWord, word, c, rest, 0, n);
      SameSlices(word, c, rest, 0, n);
    } else if HasRun(inWord, rest, w) {
      RunIsBehind(inWord, word, c, rest, w);
    }
  }

  lemma RunIsBehind(inWord: char -> bool, word: string, c: char, rest: string, w: string)
    requires (forall k :: 0 <= k < |word| ==> inWord(word[k])) && !inWord(c) && HasRun(inWord, rest, w)
    ensures HasRun(inWord, word + ([c] + rest), w)
  {
    var n := |word| + 1;
    var i: nat, j: nat :| IsRun(inWord, rest, i, j) && rest[i..j] == w;
    RunBeside(inWord, word, c, rest, i + n, j + n);
    SameSlices(word, c, rest, i + n, j + n);
  }

  lemma RunIsBeside(inWord: char -> bool, word: string, c: char, rest: string, w: string)
    requires (forall k :: 0 <= k < |word| ==> inWord(word[k])) && !inWord(c)
    requires HasRun(inWord, word + ([c] + rest), w)
    ensures (w == word && word != "") || HasRun(inWord, rest, w)
  {
    var t := word + ([c] + rest);
    var i: nat, j: nat :| IsRun(inWord, t, i, j) && t[i..j] == w;
    RunBeside(inWord, word, c, rest, i, j);
    SameSlices(word, c, rest, i, j);
  }

  lemma SameSlices(word: string, c: char, rest: string, i: nat, j: nat)
    ensures var t, n := word + ([c] + rest), |word|;
            && t[0..n] == word
            && (n < i <= j <= |t| ==> t[i..j] == rest[i - n - 1..j - n - 1])
  {
  }

  lemma OneRun(inWord: char -> bool, word: string, w: string)
    requires forall k :: 0 <= k < |word| ==> inWord(word[k])
    ensures HasRun(inWord, word, w) <==> w == word && word != ""
  {
    if HasRun(inWord, word, w) {
      var i: nat, j: nat :| IsRun(inWord, word, i, j) && word[i..j] == w;
      assert i == 0 && j == |word|;
    }
    if w == word && word != "" {
      assert IsRun(inWord, word, 0, |word|) && word[0..|word|] == w;
    }
  }

  // The words found are the longest runs, and all of them.
  lemma {:induction false} WordsAreRuns(inWord: char -> bool, word: string, t: string, w: string)
    requires forall k :: 0 <= k < |word| ==> inWord(word[k])
    ensures w in WordsFrom(inWord, word, t) <==> HasRun(inWord, word + t, w)
    decreases |t|
  {
    if t == "" {
      assert word + t == word;
      OneRun(inWord, word, w);
    } else if inWord(t[0]) {
      assert word + t == (word + [t[0]]) + t[1..];
      WordsAreRuns(inWord, word + [t[0]], t[1..], w);
    } else {
      assert t == [t[0]] + t[1..] && "" + t[1..] == t[1..];
      RunsBehind(inWord, word, t[0], t[1..], w);
      WordsAreRuns(inWord, "", t[1..], w);
    }
  }

  // A step's words: the longest alphanumeric runs of its lower-case text that are no stop words.
  lemma ContentExactly(stop: set<string>, text: string, w: string)
    ensures w in ContentWords(stop, text) <==> w !in stop && HasRun(IsAlnum, LowerText(text), w)
  {
    WordsAreRuns(IsAlnum, "", LowerText(text), w);
    assert "" + LowerText(text) == LowerText(text);
  }

  // ----- scoring a step against the rows -----

  function RowWords(stop: set<string>, row: Row): set<string> { ContentWords(stop, row.text + " " + row.caption) }

  function ScoreBy(stop: set<string>, words: set<string>): Overlap { (row: Row) => |words * RowWords(stop, row)| }

  function RowFor(stop: set<string>, rows: seq<Row>, step: string): Option<Row> {
    SupportingRow(ScoreBy(stop, ContentWords(stop, step)), rows)
  }

  // A row's score is how many of the step's words are words of its text or its caption.
  lemma ScoreExactly(stop: set<string>, words: set<string>, row: Row, shared: set<string>)
    requires forall w :: w in shared <==>
               w in words && w !in stop && HasRun(IsAlnum, LowerText(row.text + " " + row.caption), w)
    ensures ScoreBy(stop, words)(row) == |shared|
  {
    forall w ensures w in shared <==> w in words * RowWords(stop, row) {
      ContentExactly(stop, row.text + " " + row.caption, w);
    }
    assert shared == words * RowWords(stop, row);
  }
}
