// The working behind a balance, printed and read back (src/hrmosaic/agent/arithmetic.py).
// Amounts are whole numbers of tenths of a day.
module Arithmetic {
  import opened Texts
  import opened Blocks
  import opened Digits
  import opened Sentences

  // ----- the balance -----

  // The four fields of a check_pto_balance body the working is made of; a missing one is not in the map.
  datatype Field = AccruedYtd | UsedYtd | PendingDays | CarryoverUnexpired

  type Balance = map<Field, int>

  // One line of DECOMPOSITION_TERMS.
  function WordOf(f: Field): string {
    match f
    case AccruedYtd => "accrued"
    case UsedYtd => "used"
    case PendingDays => "pending"
    case CarryoverUnexpired => "carried over"
  }

  predicate Subtracts(f: Field) { f.UsedYtd? || f.PendingDays? }

  const FIELDS := [AccruedYtd, UsedYtd, PendingDays, CarryoverUnexpired]

  // f"{value:.1f}"
  function Render(tenths: int): string {
    if tenths < 0 then "-" + Positive(-tenths) else Positive(tenths)
  }

  function Positive(tenths: nat): string { Decimal(tenths / 10) + "." + [DigitOf(tenths % 10)] }

  // A term of the working: the field it prints and the amount in it, which is not zero.
  datatype Term = Term(field: Field, tenths: int)

  function Contribution(t: Term): int { if Subtracts(t.field) then -t.tenths else t.tenths }

  function Sum(terms: seq<Term>): int { if terms == [] then 0 else Contribution(terms[0]) + Sum(terms[1..]) }

  // The nonzero terms of the balance, in the order of the given fields.
  function TermsOf(b: Balance, fields: seq<Field>): (terms: seq<Term>)
    ensures forall t :: t in terms ==> t.tenths != 0 && t.field in b && b[t.field] == t.tenths
  {
    if fields == [] then []
    else
      var f := fields[0];
      (if f in b && b[f] != 0 then [Term(f, b[f])] else []) + TermsOf(b, fields[1..])
  }

  function Operator(f: Field): string { if Subtracts(f) then "minus" else "plus" }

  // What stands behind the number: its word, and the terms after it.
  function AfterNumber(terms: seq<Term>): string
    requires terms != []
    decreases |terms|, 0
  {
    " " + (WordOf(terms[0].field) + if |terms| == 1 then "" else " " + Following(terms[1..]))
  }

  function Following(terms: seq<Term>): string
    requires terms != []
    decreases |terms|, 1
  {
    Operator(terms[0].field) + (" " + (Render(terms[0].tenths) + AfterNumber(terms)))
  }

  // The parts joined by single spaces; the first part has no operator.
  function Working(terms: seq<Term>): string
    requires terms != []
  {
    Render(terms[0].tenths) + AfterNumber(terms)
  }

  // A working is printed exactly when there are terms and they add up to what remains.
  function Decomposition(b: Balance, remaining: Option<int>): Option<string> {
    var terms := TermsOf(b, FIELDS);
    if remaining.None? || terms == [] || Sum(terms) != remaining.value then None else Some(Working(terms))
  }

  // ----- the terms of a working, read back -----

  predicate IsWordChar(c: char) { 'a' <= c <= 'z' || 'A' <= c <= 'Z' || '0' <= c <= '9' || c == '_' }

  // The text begins with the (lower-case) word, in any case.
  predicate Begins(t: string, word: string) {
    |word| <= |t| && forall i :: 0 <= i < |word| ==> Lower(t[i]) == word[i]
  }

  // The length of plus, minus or and at the beginning of the text; 0 for none of them.
  function KeywordLength(t: string): nat {
    if Begins(t, "plus") then 4 else if Begins(t, "minus") then 5 else if Begins(t, "and") then 3 else 0
  }

  // One of the keywords as a whole word; `inWord` says whether a word character stands before it.
  predicate WholeKeyword(t: string, inWord: bool) {
    var n := KeywordLength(t);
    n > 0 && !inWord && n <= |t| && (n == |t| || !IsWordChar(t[n]))
  }

  // How much of the text names a term: everything up to a comma, a semicolon or a whole keyword.
  function LabelLength(t: string, inWord: bool): (n: nat)
    ensures n <= |t|
    decreases |t|
  {
    if t == "" || WholeKeyword(t, inWord) || t[0] == ',' || t[0] == ';' then 0
    else 1 + LabelLength(t[1..], IsWordChar(t[0]))
  }

  // \d+(?:\.\d+)? at i.
  function NumberEnd(t: string, i: nat): (j: nat)
    requires i <= |t|
    ensures i <= j <= |t|
  {
    var k := DigitsEnd(t, i);
    if k + 1 < |t| && t[k] == '.' && IsDigit(t[k + 1]) then DigitsEnd(t, k + 1) else k
  }

  function Pow10(n: nat): (p: nat)
    ensures p > 0
  {
    if n == 0 then 1 else 10 * Pow10(n - 1)
  }

  // float(text) of a number that ends at NumberEnd.
  function NumberValue(t: string, i: nat): real
    requires i <= |t|
  {
    var k, j := DigitsEnd(t, i), NumberEnd(t, i);
    ParseNat(t[i..k]) as real + if j == k then 0.0 else FractionValue(t, k + 1)
  }

  function FractionValue(t: string, i: nat): real
    requires i <= |t|
  {
    ParseNat(t[i..DigitsEnd(t, i)]) as real / Pow10(DigitsEnd(t, i) - i) as real
  }

  datatype Match = Match(length: nat, value: real, name: string)

  // A number behind optional whitespace, and the label behind it.
  function MatchNumber(t: string): (m: Option<Match>)
    ensures m.Some? ==> 0 < m.value.length <= |t|
  {
    var i := SpaceEnd(t, 0);
    if i == |t| || !IsDigit(t[i]) then None
    else
      var j := NumberEnd(t, i);
      var k := SpaceEnd(t, j);
      var n := LabelLength(t[k..], k == j);
      Some(Match(k + n, NumberValue(t, i), LowerText(Strip(t[k..k + n]))))
  }

  // _TERM at the beginning of the text: with a sign in front of the number if that matches, without
  // one otherwise.
  function MatchTerm(t: string): (m: Option<Match>)
    ensures m.Some? ==> 0 < m.value.length <= |t|
  {
    var n := KeywordLength(t);
    var signed := if 0 < n <= |t| then MatchNumber(t[n..]) else None;
    match signed
    case Some(m) => Some(Match(n + m.length, if Begins(t, "minus") then -m.value else m.value, m.name))
    case None => MatchNumber(t)
  }

  type Matcher = string -> Option<Match>

  // finditer: match after match, skipping what does not match.
  function FindAll(f: Matcher, t: string): seq<(real, string)>
    decreases |t|
  {
    if t == "" then []
    else
      match f(t)
      case None => FindAll(f, t[1..])
      case Some(m) => if 0 < m.length <= |t| then [(m.value, m.name)] + FindAll(f, t[m.length..]) else []
  }

  // _TERM.finditer
  function ReadTerms(t: string): seq<(real, string)> { FindAll(MatchTerm, t) }

  // ----- the round trip -----

  // What is read of a printed term: the sign is the operator's, unless the amount is negative. Its
  // minus sign stands between the operator and the number, so neither is read.
  function ReadTenths(t: Term, first: bool): int {
    if t.tenths > 0 && Subtracts(t.field) && !first then -t.tenths
    else if t.tenths < 0 then -t.tenths
    else t.tenths
  }

  function ReadValue(t: Term, first: bool): real { ReadTenths(t, first) as real / 10.0 }

  function ReadBack(terms: seq<Term>, first: bool): seq<(real, string)> {
    if terms == [] then []
    else [(ReadValue(terms[0], first), WordOf(terms[0].field))] + ReadBack(terms[1..], false)
  }

  lemma PositiveReads(lead: string, n: nat, rest: string)
    requires rest != "" ==> !IsDigit(rest[0]) && rest[0] != '.'
    ensures var t := lead + (Positive(n) + rest);
            && IsDigit(t[|lead|])
            && NumberEnd(t, |lead|) == |lead| + |Positive(n)| && NumberValue(t, |lead|) == n as real / 10.0
  {
    var whole, t := Decimal(n / 10), lead + (Positive(n) + rest);
    var i := |lead|;
    var k := i + |whole|;
    PositiveSlices(lead, n, rest);
    DigitsEndAt(t, i, k);
    DigitsEndAt(t, k + 1, k + 2);
    ParseDecimal(n / 10);
    OneDigit(n % 10);
    TenthsValue(n);
  }

  lemma PositiveSlices(lead: string, n: nat, rest: string)
    ensures var whole, t := Decimal(n / 10), lead + (Positive(n) + rest);
            var i := |lead|;
            var k := i + |whole|;
            && |t| == k + 2 + |rest|
            && t[i..k] == whole && t[i] == whole[0] && t[k] == '.' && t[k + 1] == DigitOf(n % 10)
            && t[k + 1..k + 2] == [DigitOf(n % 10)] && (rest != "" ==> t[k + 2] == rest[0])
  {
  }

  lemma OneDigit(d: nat)
    requires d < 10
    ensures ParseNat([DigitOf(d)]) == d
  {
    assert [DigitOf(d)][..0] == "";
  }

  lemma TenthsValue(n: nat)
    ensures (n / 10) as real + (n % 10) as real / Pow10(1) as real == n as real / 10.0
  {
    assert Pow10(1) == 10 * Pow10(0) == 10;
    assert n == n / 10 * 10 + n % 10;
    assert n as real == (n / 10) as real * 10.0 + (n % 10) as real;
  }

  lemma NoKeyword(t: string)
    requires t == "" || Lower(t[0]) !in "pma"
    ensures KeywordLength(t) == 0
  {
  }

  // The i-th character of a text belongs to a label that begins the text.
  predicate InLabel(t: string, i: nat)
    requires i < |t|
  {
    t[i] != ',' && t[i] != ';' && !WholeKeyword(t[i..], i > 0 && IsWordChar(t[i - 1]))
  }

  // The characters a label runs over.
  lemma {:induction false} LabelSkips(t: string, n: nat, i: nat)
    requires i <= n <= |t| && forall k :: i <= k < n ==> InLabel(t, k)
    ensures LabelLength(t[i..], i > 0 && IsWordChar(t[i - 1]))
            == n - i + LabelLength(t[n..], n > 0 && IsWordChar(t[n - 1]))
    decreases n - i
  {
    if i < n {
      assert InLabel(t, i);
      LabelSkips(t, n, i + 1);
      DropOne(t, i);
    }
  }

  lemma DropOne(t: string, i: nat)
    requires i < |t|
    ensures t[i..] != "" && t[i..][0] == t[i] && t[i..][1..] == t[i + 1..]
  {
  }

  // The keyword stands at i, in any case, and is not the beginning of a longer word.
  predicate KeywordAt(t: string, i: nat, keyword: string) {
    && i + |keyword| <= |t| && LowerText(t[i..i + |keyword|]) == keyword
    && (i + |keyword| == |t| || !IsWordChar(t[i + |keyword|]))
  }

  // What ends a label: a comma, a semicolon, or plus, minus or and as a word of its own.
  predicate EndsLabel(t: string, i: nat, inWord: bool)
    requires i < |t|
  {
    || t[i] == ',' || t[i] == ';'
    || (!inWord && (KeywordAt(t, i, "plus") || KeywordAt(t, i, "minus") || KeywordAt(t, i, "and")))
  }

  lemma KeywordIsWhole(t: string, i: nat, inWord: bool)
    requires i < |t|
    ensures EndsLabel(t, i, inWord) <==> WholeKeyword(t[i..], inWord) || t[i] == ',' || t[i] == ';'
  {
    BeginsAt(t, i, "plus");
    BeginsAt(t, i, "minus");
    BeginsAt(t, i, "and");
    var rest := t[i..];
    assert Begins(rest, "plus") ==> Lower(rest[0]) == 'p';
    assert Begins(rest, "minus") ==> Lower(rest[0]) == 'm';
    assert Begins(rest, "and") ==> Lower(rest[0]) == 'a';
  }

  lemma BeginsAt(t: string, i: nat, keyword: string)
    requires i < |t|
    ensures Begins(t[i..], keyword) <==> i + |keyword| <= |t| && LowerText(t[i..i + |keyword|]) == keyword
    ensures i + |keyword| < |t| ==> t[i..][|keyword|] == t[i + |keyword|]
  {
    if i + |keyword| <= |t| {
      var word := t[i..i + |keyword|];
      assert forall k :: 0 <= k < |keyword| ==> t[i..][k] == word[k] && LowerText(word)[k] == Lower(word[k]);
    }
  }

  // A label at the front of the text, behind a word character or not, is at its end at k.
  predicate StopsAt(t: string, inWord: bool, k: nat)
    requires k < |t|
  {
    EndsLabel(t, k, if k == 0 then inWord else IsWordChar(t[k - 1]))
  }

  lemma KeywordLater(t: string, i: nat, keyword: string)
    requires t != "" && i < |t[1..]|
    ensures KeywordAt(t[1..], i, keyword) <==> KeywordAt(t, i + 1, keyword)
  {
    if i + |keyword| <= |t[1..]| {
      assert t[1..][i..i + |keyword|] == t[i + 1..i + 1 + |keyword|];
    }
  }

  lemma StopsLater(t: string, inWord: bool, k: nat)
    requires t != "" && k < |t[1..]|
    ensures StopsAt(t[1..], IsWordChar(t[0]), k) <==> StopsAt(t, inWord, k + 1)
  {
    KeywordLater(t, k, "plus");
    KeywordLater(t, k, "minus");
    KeywordLater(t, k, "and");
  }

  // A label runs up to the first place that ends it, or to the end of the text.
  lemma {:induction false} LabelEndsExactly(t: string, inWord: bool)
    ensures LabelLength(t, inWord) < |t| ==> StopsAt(t, inWord, LabelLength(t, inWord))
    ensures forall k: nat :: k < LabelLength(t, inWord) ==> !StopsAt(t, inWord, k)
    decreases |t|
  {
    if t != "" {
      KeywordIsWhole(t, 0, inWord);
      assert t[0..] == t;
      if !StopsAt(t, inWord, 0) {
        var n := LabelLength(t[1..], IsWordChar(t[0]));
        LabelEndsExactly(t[1..], IsWordChar(t[0]));
        forall k: nat | k < |t[1..]| ensures StopsAt(t[1..], IsWordChar(t[0]), k) <==> StopsAt(t, inWord, k + 1) {
          StopsLater(t, inWord, k);
        }
        forall k: nat | k < n + 1 ensures !StopsAt(t, inWord, k) {
          assert k > 0 ==> !StopsAt(t[1..], IsWordChar(t[0]), k - 1);
        }
      }
    }
  }

  // No keyword begins at a place inside a term's word where one could.
  lemma WordHasNoKeyword(f: Field, tail: string, i: nat)
    requires i < |WordOf(f)|
    ensures InLabel(WordOf(f) + tail, i)
  {
    var t := WordOf(f) + tail;
    assert t[i] == WordOf(f)[i] && t[i..][0] == t[i];
    if i > 0 {
      assert t[i - 1] == WordOf(f)[i - 1];
    }
    if i == 0 {
      assert t[0..] == t && t[1] == WordOf(f)[1];
    } else if i == 8 {
      NoKeyword(t[i..]);
    }
  }

  // A term's word is read up to the space in front of the next operator.
  lemma LabelOfWord(f: Field, tail: string)
    requires tail != "" ==> tail[0] == ' ' && WholeKeyword(tail[1..], false)
    ensures LabelLength(WordOf(f) + tail, false) == |WordOf(f)| + if tail == "" then 0 else 1
  {
    var word := WordOf(f);
    var t := word + tail;
    var n := |word|;
    forall i | 0 <= i < n ensures InLabel(t, i) {
      WordHasNoKeyword(f, tail, i);
    }
    LabelSkips(t, n, 0);
    assert t[0..] == t;
    assert t[n..] == tail && IsWordChar(t[n - 1]) by {
      assert t[n - 1] == word[n - 1];
    }
  }

  lemma WordReads(f: Field)
    ensures Strip(WordOf(f)) == WordOf(f) && Strip(WordOf(f) + " ") == WordOf(f) && LowerText(WordOf(f)) == WordOf(f)
    ensures !IsSpace(WordOf(f)[0])
  {
    var word := WordOf(f);
    StripNothing(word);
    StripTrailing(word);
  }

  lemma StripTrailing(t: string)
    requires t != "" && !IsSpace(t[0]) && !IsSpace(t[|t| - 1])
    ensures Strip(t + " ") == t
  {
    var i, j := StripSlice(t + " ");
    assert (t + " ")[0] == t[0] && (t + " ")[|t| - 1] == t[|t| - 1] && (t + " ")[|t|] == ' ';
    assert i == 0 && j == |t|;
    assert (t + " ")[0..|t|] == t;
  }

  // What follows a term's word begins with a space and a whole keyword.
  lemma FollowingIsKeyword(terms: seq<Term>)
    requires terms != []
    ensures var t, op := Following(terms), Operator(terms[0].field);
            && KeywordLength(t) == |op| && WholeKeyword(t, false)
            && (Begins(t, "minus") <==> Subtracts(terms[0].field))
            && t[..|op|] == op && t[|op|..] == " " + (Render(terms[0].tenths) + AfterNumber(terms))
  {
    OperatorLeads(terms[0].field, " " + (Render(terms[0].tenths) + AfterNumber(terms)));
  }

  lemma OperatorLeads(f: Field, rest: string)
    requires rest != "" && rest[0] == ' '
    ensures var op := Operator(f);
            var t := op + rest;
            && KeywordLength(t) == |op| && WholeKeyword(t, false)
            && (Begins(t, "minus") <==> Subtracts(f))
            && t[..|op|] == op && t[|op|..] == rest
  {
    if Subtracts(f) {
      KeywordLeads("minus", rest);
    } else {
      KeywordLeads("plus", rest);
    }
  }

  lemma KeywordLeads(op: string, rest: string)
    requires (op == "minus" || op == "plus") && rest != "" && rest[0] == ' '
    ensures var t := op + rest;
            && KeywordLength(t) == |op| && WholeKeyword(t, false)
            && (Begins(t, "minus") <==> op == "minus")
            && t[..|op|] == op && t[|op|..] == rest
  {
    var t := op + rest;
    assert t[|op|] == ' ' && t[0] == op[0];
    forall i | 0 <= i < |op| ensures Lower(t[i]) == op[i] {
      assert t[i] == op[i];
    }
    assert Begins(t, op);
    assert op == "minus" ==> !Begins(t, "plus");
  }

  function TailOf(terms: seq<Term>): string
    requires terms != []
  {
    if |terms| == 1 then "" else " " + Following(terms[1..])
  }

  // The rest of the working after the term that is read.
  function RestOf(terms: seq<Term>): string
    requires terms != []
  {
    if |terms| == 1 then "" else Following(terms[1..])
  }

  lemma MatchNumberReads(f: Matcher, lead: string, n: nat, terms: seq<Term>)
    requires terms != [] && (lead == "" || lead == " ") && IsNumberMatcher(f)
    ensures var t := lead + (Positive(n) + AfterNumber(terms));
            Reads(f, t, n as real / 10.0, WordOf(terms[0].field), RestOf(terms))
  {
    var word, tail := WordOf(terms[0].field), TailOf(terms);
    BehindIs(terms);
    WordReads(terms[0].field);
    LabelPart(terms);
    AmountAndLabel(f, lead, n, word, tail, |word| + if |terms| == 1 then 0 else 1, RestOf(terms));
  }

  lemma AmountAndLabel(f: Matcher, lead: string, n: nat, word: string, tail: string, k: nat, rest: string)
    requires (lead == "" || lead == " ") && word != "" && !IsSpace(word[0]) && IsNumberMatcher(f)
    requires k <= |word + tail| && LabelLength(word + tail, false) == k
    requires LowerText(Strip((word + tail)[..k])) == word && (word + tail)[k..] == rest
    ensures Reads(f, lead + (Positive(n) + (" " + (word + tail))), n as real / 10.0, word, rest)
  {
    BehindReads(lead, n, word, tail);
    NumberAndLabel(f, lead, Positive(n), word + tail, k, word, rest);
  }

  lemma BehindReads(lead: string, n: nat, word: string, tail: string)
    ensures var t := lead + (Positive(n) + (" " + (word + tail)));
            && IsDigit(Positive(n)[0])
            && NumberEnd(t, |lead|) == |lead| + |Positive(n)| && NumberValue(t, |lead|) == n as real / 10.0
  {
    PositiveReads(lead, n, " " + (word + tail));
    assert Positive(n)[0] == Decimal(n / 10)[0];
  }

  lemma TailRest(terms: seq<Term>)
    requires terms != []
    ensures TailOf(terms) == "" <==> |terms| == 1
    ensures TailOf(terms) != "" ==> TailOf(terms)[0] == ' '
    ensures RestOf(terms) == if TailOf(terms) == "" then "" else TailOf(terms)[1..]
  {
  }

  // What matching a term at the beginning of the text takes of it.
  predicate Reads(f: Matcher, t: string, value: real, word: string, rest: string) {
    var m := f(t);
    && m.Some? && 0 < m.value.length <= |t| && m.value.value == value && m.value.name == word
    && t[m.value.length..] == rest
  }

  // A number, a space and the rest of the text: the number matches, and the label is read off the rest.
  lemma {:induction false} NumberAndLabel(f: Matcher, lead: string, number: string, body: string, n: nat,
                                          word: string, rest: string)
    requires (lead == "" || lead == " ") && number != "" && IsDigit(number[0])
    requires body != "" && !IsSpace(body[0])
    requires NumberEnd(lead + (number + (" " + body)), |lead|) == |lead| + |number|
    requires n <= |body| && LabelLength(body, false) == n && LowerText(Strip(body[..n])) == word && body[n..] == rest
    requires IsNumberMatcher(f)
    ensures var t := lead + (number + (" " + body)); Reads(f, t, NumberValue(t, |lead|), word, rest)
  {
    var t := lead + (number + (" " + body));
    var j := |lead| + |number|;
    assert |t| > j && SpaceEnd(t, 0) == |lead| && IsDigit(t[|lead|])
        && SpaceEnd(t, j) == j + 1 && t[j + 1..] == body by {
      AroundNumber(lead, number, body);
    }
    assert Reads(f, t, NumberValue(t, |lead|), word, rest) by {
      TextReads(f, t, |lead|, j, body, n, word, rest);
    }
  }

  lemma {:induction false} TextReads(f: Matcher, t: string, i: nat, j: nat, body: string, n: nat,
                                     word: string, rest: string)
    requires SpaceEnd(t, 0) == i < |t| && IsDigit(t[i]) && NumberEnd(t, i) == j && IsNumberMatcher(f)
    requires j < |t| && SpaceEnd(t, j) == j + 1 && t[j + 1..] == body
    requires n <= |body| && LabelLength(body, false) == n && LowerText(Strip(body[..n])) == word && body[n..] == rest
    ensures Reads(f, t, NumberValue(t, i), word, rest)
  {
    var m := MatchAt(f, t, i, j, n);
    LabelReads(f, t, j + 1, m, n, word, rest);
  }

  lemma {:induction false} LabelReads(f: Matcher, t: string, k: nat, m: Match, n: nat, word: string, rest: string)
    requires 0 < k && k + n == m.length <= |t| && f(t) == Some(m) && m.name == LowerText(Strip(t[k..k + n]))
    requires LowerText(Strip(t[k..][..n])) == word && t[k..][n..] == rest
    ensures Reads(f, t, m.value, word, rest)
  {
    SliceOfRest(t, k, n);
  }

  // The function is MatchNumber; said text by text, so that a proof looks at the texts it needs.
  ghost predicate IsNumberMatcher(f: Matcher) { forall t: string :: MatchesNumber(f, t) }

  ghost predicate MatchesNumber(f: Matcher, t: string) { f(t) == MatchNumber(t) }

  lemma {:induction false} MatchAt(f: Matcher, t: string, i: nat, j: nat, n: nat) returns (m: Match)
    requires SpaceEnd(t, 0) == i < |t| && IsDigit(t[i]) && NumberEnd(t, i) == j
    requires j < |t| && SpaceEnd(t, j) == j + 1 && LabelLength(t[j + 1..], false) == n && IsNumberMatcher(f)
    ensures f(t) == Some(m) && m.value == NumberValue(t, i)
    ensures m.length == j + 1 + n <= |t| && m.name == LowerText(Strip(t[j + 1..j + 1 + n]))
  {
    assert MatchesNumber(f, t);
    m := f(t).value;
  }

  lemma SliceOfRest(t: string, k: nat, n: nat)
    requires k + n <= |t|
    ensures t[k..k + n] == t[k..][..n] && t[k + n..] == t[k..][n..]
  {
  }

  lemma AroundNumber(lead: string, number: string, body: string)
    requires (lead == "" || lead == " ") && number != "" && IsDigit(number[0])
    requires body != "" && !IsSpace(body[0])
    ensures var t := lead + (number + (" " + body));
            var j := |lead| + |number|;
            && SpaceEnd(t, 0) == |lead| && IsDigit(t[|lead|])
            && SpaceEnd(t, j) == j + 1 && t[j + 1..] == body
  {
    var t := lead + (number + (" " + body));
    var j := |lead| + |number|;
    assert t[|lead|] == number[0] && t[j] == ' ' && t[j + 1] == body[0];
    SpaceEndAt(t, 0, |lead|);
    SpaceEndAt(t, j, j + 1);
  }

  lemma LabelPart(terms: seq<Term>)
    requires terms != []
    ensures var word, tail := WordOf(terms[0].field), TailOf(terms);
            var n := |word| + if |terms| == 1 then 0 else 1;
            && n <= |word + tail| && LabelLength(word + tail, false) == n
            && LowerText(Strip((word + tail)[..n])) == word && (word + tail)[n..] == RestOf(terms)
  {
    TailRest(terms);
    TailIsKeyword(terms);
    WordAndTail(terms[0].field, TailOf(terms));
  }

  lemma TailIsKeyword(terms: seq<Term>)
    requires terms != []
    ensures var tail := TailOf(terms); tail != "" ==> tail[0] == ' ' && WholeKeyword(tail[1..], false)
  {
    if |terms| > 1 {
      FollowingIsKeyword(terms[1..]);
      assert TailOf(terms)[1..] == Following(terms[1..]);
    }
  }

  lemma WordAndTail(f: Field, tail: string)
    requires tail != "" ==> tail[0] == ' ' && WholeKeyword(tail[1..], false)
    ensures var word := WordOf(f);
            var n := |word| + if tail == "" then 0 else 1;
            && n <= |word + tail| && LabelLength(word + tail, false) == n
            && LowerText(Strip((word + tail)[..n])) == word
            && (word + tail)[n..] == if tail == "" then "" else tail[1..]
  {
    WordReads(f);
    LabelOfWord(f, tail);
    LabelSlices(WordOf(f), tail);
  }

  lemma LabelSlices(word: string, tail: string)
    requires tail != "" ==> tail[0] == ' '
    ensures var n := |word| + if tail == "" then 0 else 1;
            && (word + tail)[..n] == (if tail == "" then word else word + " ")
            && (word + tail)[n..] == if tail == "" then "" else tail[1..]
  {
  }

  // Characters at which nothing matches are passed over.
  lemma {:induction false} SkipText(f: Matcher, t: string, i: nat, n: nat)
    requires i <= n <= |t| && forall k :: i <= k < n ==> f(t[k..]).None?
    ensures FindAll(f, t[i..]) == FindAll(f, t[n..])
    decreases n - i
  {
    if i < n {
      SkipText(f, t, i + 1, n);
      DropOne(t, i);
    }
  }

  // Nothing matches at the first `skip` characters.
  predicate Quiet(f: Matcher, t: string, skip: nat)
    requires skip <= |t|
  {
    forall k :: 0 <= k < skip ==> f(t[k..]).None?
  }

  // The next match of the text stands behind `skip` characters.
  predicate NextMatch(f: Matcher, t: string, skip: nat, value: real, word: string, rest: string) {
    && skip <= |t| && Quiet(f, t, skip)
    && Reads(f, t[skip..], value, word, rest)
  }

  lemma TakeNext(f: Matcher, t: string, skip: nat, value: real, word: string, rest: string)
    requires NextMatch(f, t, skip, value, word, rest)
    ensures FindAll(f, t) == [(value, word)] + FindAll(f, rest)
  {
    SkipText(f, t, 0, skip);
    assert t[0..] == t;
    assert t[skip..] != "";
  }

  lemma DigitLeads(t: string)
    requires t != "" && IsDigit(t[0])
    ensures MatchTerm(t) == MatchNumber(t)
  {
    NoKeyword(t);
  }

  // No term begins at a character that is not a digit, with neither a number behind the whitespace
  // it may be nor a keyword in front of one.
  lemma NothingBegins(t: string)
    requires t != "" && !IsDigit(t[0]) && Lower(t[0]) !in "pma"
    requires IsSpace(t[0]) ==> |t| > 1 && !IsSpace(t[1]) && !IsDigit(t[1])
    ensures MatchTerm(t).None?
  {
    NoKeyword(t);
    if IsSpace(t[0]) {
      SpaceEndAt(t, 0, 1);
    } else {
      SpaceEndAt(t, 0, 0);
    }
  }

  // The function is _TERM.match; said text by text, so that a proof looks at the texts it needs.
  ghost predicate IsTermMatcher(f: Matcher) { forall t: string :: MatchesTerm(f, t) }

  ghost predicate MatchesTerm(f: Matcher, t: string) { f(t) == MatchTerm(t) }

  // An operator in front of a negative amount is not part of any term, and neither is the minus sign.
  lemma NothingAt(op: string, body: string, k: nat)
    requires (op == "plus" || op == "minus") && k < |op| + 2
    ensures MatchTerm((op + (" " + ("-" + body)))[k..]).None?
  {
    var t := op + (" " + ("-" + body));
    assert t[0..] == t && t[|op|] == ' ' && t[|op| + 1] == '-';
    DropOne(t, k);
    if k < |op| {
      assert t[k] == op[k];
      if k == 0 {
        OperatorAlone(op, body);
      } else {
        NothingBegins(t[k..]);
      }
    } else {
      if k == |op| {
        assert t[k..][1] == t[k + 1];
      }
      NothingBegins(t[k..]);
    }
  }

  lemma OperatorAlone(op: string, body: string)
    requires op == "plus" || op == "minus"
    ensures MatchTerm(op + (" " + ("-" + body))).None?
  {
    var t := op + (" " + ("-" + body));
    var rest := t[|op|..];
    assert rest == " " + ("-" + body);
    assert forall i :: 0 <= i < |op| ==> t[i] == op[i];
    assert KeywordLength(t) == |op|;
    SpaceEndAt(rest, 0, 1);
    SpaceEndAt(t, 0, 0);
  }

  lemma ReadSigned(t: string, n: nat, value: real, word: string, rest: string)
    requires KeywordLength(t) == n && 0 < n <= |t| && Reads(MatchNumber, t[n..], value, word, rest)
    ensures Reads(MatchTerm, t, if Begins(t, "minus") then -value else value, word, rest)
  {
    var m := MatchNumber(t[n..]).value;
    assert t[n..][m.length..] == t[n + m.length..];
  }

  // A positive amount with its word, at the beginning of the text.
  lemma NumberReads(f: Matcher, n: nat, terms: seq<Term>)
    requires terms != [] && IsTermMatcher(f)
    ensures Reads(f, Positive(n) + AfterNumber(terms), n as real / 10.0, WordOf(terms[0].field), RestOf(terms))
  {
    var t := Positive(n) + AfterNumber(terms);
    MatchNumberReads(MatchNumber, "", n, terms);
    NoLead(t);
    BeginsWithNumber(f, n, AfterNumber(terms));
    SameReads(MatchNumber, f, t, n as real / 10.0, WordOf(terms[0].field), RestOf(terms));
  }

  lemma BeginsWithNumber(f: Matcher, n: nat, behind: string)
    requires IsTermMatcher(f)
    ensures f(Positive(n) + behind) == MatchNumber(Positive(n) + behind)
  {
    PositiveLeads(n, behind);
    DigitLeads(Positive(n) + behind);
    assert MatchesTerm(f, Positive(n) + behind);
  }

  lemma SameReads(f: Matcher, g: Matcher, t: string, value: real, word: string, rest: string)
    requires f(t) == g(t) && Reads(f, t, value, word, rest)
    ensures Reads(g, t, value, word, rest)
  {
  }

  lemma NoLead(t: string)
    ensures "" + t == t
  {
  }

  lemma PositiveLeads(n: nat, rest: string)
    ensures (Positive(n) + rest) != "" && IsDigit((Positive(n) + rest)[0])
  {
    assert (Positive(n) + rest)[0] == Decimal(n / 10)[0];
  }

  // The same behind an operator, which gives the amount its sign.
  lemma SignedReads(f: Matcher, n: nat, terms: seq<Term>)
    requires terms != [] && terms[0].tenths == n && IsTermMatcher(f)
    ensures Reads(f, Following(terms), if Subtracts(terms[0].field) then -(n as real / 10.0) else n as real / 10.0,
                  WordOf(terms[0].field), RestOf(terms))
  {
    FollowingIsKeyword(terms);
    MatchNumberReads(MatchNumber, " ", n, terms);
    ReadSigned(Following(terms), |Operator(terms[0].field)|, n as real / 10.0, WordOf(terms[0].field), RestOf(terms));
    assert MatchesTerm(f, Following(terms));
  }

  function Printed(terms: seq<Term>, first: bool): string
    requires terms != []
  {
    if first then Working(terms) else Following(terms)
  }

  // What the reader finds next in a working is its first term, with the value ReadTenths gives it.
  ghost predicate TermIsNext(f: Matcher, terms: seq<Term>, first: bool)
    requires terms != []
  {
    exists skip ::
      NextMatch(f, Printed(terms, first), skip, ReadValue(terms[0], first), WordOf(terms[0].field), RestOf(terms))
  }

  lemma AtOnce(f: Matcher, terms: seq<Term>, first: bool)
    requires terms != []
    requires Reads(f, Printed(terms, first), ReadValue(terms[0], first), WordOf(terms[0].field), RestOf(terms))
    ensures TermIsNext(f, terms, first)
  {
    var t := Printed(terms, first);
    assert t[0..] == t;
    assert NextMatch(f, t, 0, ReadValue(terms[0], first), WordOf(terms[0].field), RestOf(terms));
  }

  lemma FoundBehind(f: Matcher, terms: seq<Term>, first: bool, front: string, body: string)
    requires terms != [] && Printed(terms, first) == front + body && Quiet(f, front + body, |front|)
    requires Reads(f, body, ReadValue(terms[0], first), WordOf(terms[0].field), RestOf(terms))
    ensures TermIsNext(f, terms, first)
  {
    assert (front + body)[|front|..] == body;
    assert NextMatch(f, Printed(terms, first), |front|, ReadValue(terms[0], first), WordOf(terms[0].field),
                     RestOf(terms));
  }

  // A negative amount is printed behind its own minus sign, and behind the operator if there is one.
  function InFront(f: Field, first: bool): string { if first then "-" else Operator(f) + " -" }

  lemma NegativePrints(terms: seq<Term>, first: bool)
    requires terms != [] && terms[0].tenths < 0
    ensures Printed(terms, first) == InFront(terms[0].field, first) + (Positive(-terms[0].tenths) + AfterNumber(terms))
  {
    MinusSign(Operator(terms[0].field), Positive(-terms[0].tenths), AfterNumber(terms));
  }

  lemma MinusSign(op: string, digits: string, behind: string)
    ensures ("-" + digits) + behind == "-" + (digits + behind)
    ensures op + (" " + (("-" + digits) + behind)) == (op + " -") + (digits + behind)
  {
  }

  lemma NothingInFront(f: Matcher, field: Field, first: bool, body: string)
    requires IsTermMatcher(f)
    ensures Quiet(f, InFront(field, first) + body, |InFront(field, first)|)
  {
    var op, t := Operator(field), InFront(field, first) + body;
    if !first {
      assert t == op + (" " + ("-" + body));
    }
    forall k | 0 <= k < |InFront(field, first)| ensures f(t[k..]).None? {
      assert MatchesTerm(f, t[k..]);
      if first {
        NothingBegins(t);
        assert t[0..] == t;
      } else {
        NothingAt(op, body, k);
      }
    }
  }

  lemma NextNegative(f: Matcher, terms: seq<Term>, first: bool)
    requires terms != [] && terms[0].tenths < 0 && IsTermMatcher(f)
    ensures TermIsNext(f, terms, first)
  {
    NumberReads(f, -terms[0].tenths, terms);
    NegativePrints(terms, first);
    NextBehindMinus(f, terms, first, Positive(-terms[0].tenths) + AfterNumber(terms));
  }

  lemma NextBehindMinus(f: Matcher, terms: seq<Term>, first: bool, body: string)
    requires terms != [] && IsTermMatcher(f) && Printed(terms, first) == InFront(terms[0].field, first) + body
    requires Reads(f, body, ReadValue(terms[0], first), WordOf(terms[0].field), RestOf(terms))
    ensures TermIsNext(f, terms, first)
  {
    NothingInFront(f, terms[0].field, first, body);
    FoundBehind(f, terms, first, InFront(terms[0].field, first), body);
  }

  lemma NextTerm(f: Matcher, terms: seq<Term>, first: bool)
    requires terms != [] && terms[0].tenths != 0 && IsTermMatcher(f)
    ensures TermIsNext(f, terms, first)
  {
    if terms[0].tenths < 0 {
      NextNegative(f, terms, first);
    } else {
      if first {
        NumberReads(f, terms[0].tenths, terms);
      } else {
        SignedReads(f, terms[0].tenths, terms);
      }
      AtOnce(f, terms, first);
    }
  }

  lemma {:induction false} ReadsBackBy(f: Matcher, terms: seq<Term>, first: bool)
    requires terms != [] && (forall t :: t in terms ==> t.tenths != 0) && IsTermMatcher(f)
    ensures FindAll(f, Printed(terms, first)) == ReadBack(terms, first)
    decreases |terms|
  {
    var t, word, rest := Printed(terms, first), WordOf(terms[0].field), RestOf(terms);
    assert terms[0] in terms;
    NextTerm(f, terms, first);
    var skip :| NextMatch(f, t, skip, ReadValue(terms[0], first), word, rest);
    TakeNext(f, t, skip, ReadValue(terms[0], first), word, rest);
    if |terms| > 1 {
      var after := terms[1..];
      assert forall t :: t in after ==> t in terms;
      ReadsBackBy(f, after, false);
    }
  }

  // What the reader finds in a whole working.
  lemma ReadsBack(terms: seq<Term>)
    requires terms != [] && forall t :: t in terms ==> t.tenths != 0
    ensures ReadTerms(Working(terms)) == ReadBack(terms, true)
  {
    forall t: string ensures MatchesTerm(MatchTerm, t) {
    }
    ReadsBackBy(MatchTerm, terms, true);
  }

  // ----- the checker accepts what the writer wrote -----

  // TERM_FIELDS, in its order.
  const TERM_FIELDS: seq<(string, Field)> := [
    ("accrued", AccruedYtd), ("accrual", AccruedYtd), ("used", UsedYtd), ("taken", UsedYtd),
    ("pending", PendingDays), ("carryover", CarryoverUnexpired), ("carried over", CarryoverUnexpired),
    ("carry-over", CarryoverUnexpired), ("rollover", CarryoverUnexpired)]

  // field_of: the first entry whose word occurs in the name.
  function FieldOf(name: string, table: seq<(string, Field)>): Option<Field> {
    if table == [] then None
    else if Find(name, table[0].0, 0) != -1 then Some(table[0].1)
    else FieldOf(name, table[1..])
  }

  function SumRead(parsed: seq<(real, string)>): real {
    if parsed == [] then 0.0 else parsed[0].0 + SumRead(parsed[1..])
  }

  const TOLERANCE := 0.001

  function Abs(x: real): real { if x < 0.0 then -x else x }

  // A term the balance scores at zero but the working does not.
  predicate Foreign(b: Balance, part: (real, string)) {
    var f := FieldOf(part.1, TERM_FIELDS);
    f.Some? && f.value in b && b[f.value] == 0 && part.0 != 0.0
  }

  // _sound
  predicate Sound(total: real, working: string, b: Balance) {
    Totals(total, ReadTerms(working), b)
  }

  predicate Totals(total: real, parsed: seq<(real, string)>, b: Balance) {
    && parsed != []
    && Abs(SumRead(parsed) - total) <= TOLERANCE
    && NoneIsForeign(b, parsed)
  }

  predicate NoneIsForeign(b: Balance, parsed: seq<(real, string)>) {
    forall part :: part in parsed ==> !Foreign(b, part)
  }

  // What a field adds to the balance: nothing when it is missing.
  function Amount(b: Balance, f: Field): int { if f in b then b[f] else 0 }

  // The balances whose working keeps every sign: no negative accrual or carryover (the reader drops
  // the minus sign of an amount), and the first amount printed is not a subtracted one (its operator
  // is not printed).
  predicate KeepsSigns(b: Balance) {
    && Amount(b, AccruedYtd) >= 0 && Amount(b, CarryoverUnexpired) >= 0
    && (|| Amount(b, AccruedYtd) != 0 || Amount(b, UsedYtd) < 0
        || (Amount(b, UsedYtd) == 0 && Amount(b, PendingDays) <= 0))
  }

  // The signed amounts of the terms, with the words they are printed with.
  function Signed(terms: seq<Term>): seq<(real, string)> {
    if terms == [] then []
    else [(Contribution(terms[0]) as real / 10.0, WordOf(terms[0].field))] + Signed(terms[1..])
  }

  // The entry a label is resolved by: the first whose word occurs in it.
  predicate NamedBy(name: string, i: nat) {
    && i < |TERM_FIELDS| && Contains(name, TERM_FIELDS[i].0)
    && forall j :: 0 <= j < i ==> !Contains(name, TERM_FIELDS[j].0)
  }

  lemma {:induction false} FieldFrom(name: string, n: nat)
    requires n <= |TERM_FIELDS| && forall j :: 0 <= j < n ==> !Contains(name, TERM_FIELDS[j].0)
    ensures forall i: nat :: NamedBy(name, i) ==> FieldOf(name, TERM_FIELDS[n..]) == Some(TERM_FIELDS[i].1)
    ensures (forall i: nat :: !NamedBy(name, i)) ==> FieldOf(name, TERM_FIELDS[n..]).None?
    decreases |TERM_FIELDS| - n
  {
    if n < |TERM_FIELDS| {
      var table := TERM_FIELDS[n..];
      assert table[0] == TERM_FIELDS[n] && table[1..] == TERM_FIELDS[n + 1..];
      if Contains(name, TERM_FIELDS[n].0) {
        assert NamedBy(name, n);
        forall i: nat | NamedBy(name, i) ensures i == n {
        }
      } else {
        FieldFrom(name, n + 1);
      }
    }
  }

  // A working is sound beside a total exactly when it has terms, they come to the total within the
  // tolerance, and none that is not zero names a field the balance has at zero.
  lemma SoundExactly(total: real, working: string, b: Balance)
    ensures var parsed := ReadTerms(working);
            Sound(total, working, b) <==>
            && parsed != [] && -0.001 <= SumRead(parsed) - total <= 0.001
            && forall part, i: nat :: part in parsed && part.0 != 0.0 && NamedBy(part.1, i) ==>
                 !(TERM_FIELDS[i].1 in b && b[TERM_FIELDS[i].1] == 0)
  {
    var parsed := ReadTerms(working);
    assert TERM_FIELDS[0..] == TERM_FIELDS;
    forall part | part in parsed
      ensures Foreign(b, part) <==>
              part.0 != 0.0 && exists i: nat ::
                NamedBy(part.1, i) && TERM_FIELDS[i].1 in b && b[TERM_FIELDS[i].1] == 0
    {
      FieldFrom(part.1, 0);
    }
  }

  // Each word of the printer is the checker's word for the same field.
  lemma WordsResolve(f: Field)
    ensures FieldOf(WordOf(f), TERM_FIELDS) == Some(f)
  {
    match f
    case AccruedYtd => FirstEntry(WordOf(f), 0, 0);
    case UsedYtd => ResolvesTo(WordOf(f), 2);
    case PendingDays => ResolvesTo(WordOf(f), 4);
    case CarryoverUnexpired => CarriedOverResolves(WordOf(f));
  }

  // The words that do not begin with any earlier entry's first letter, nor have it anywhere else.
  lemma ResolvesTo(word: string, n: nat)
    requires (n == 2 && word == "used") || (n == 4 && word == "pending")
    ensures FieldOf(word, TERM_FIELDS) == Some(TERM_FIELDS[n].1)
  {
    forall k: nat | k < n ensures Find(word, TERM_FIELDS[k].0, 0) == -1 {
      Absent(word, TERM_FIELDS[k].0, 0);
    }
    FirstEntry(word, n, 0);
  }

  // "carried over" has the letters of earlier entries in it, but none of their first letters in the
  // right company.
  lemma CarriedOverResolves(word: string)
    requires word == "carried over"
    ensures FieldOf(word, TERM_FIELDS) == Some(CarryoverUnexpired)
  {
    forall k: nat | k < 6 ensures Find(word, TERM_FIELDS[k].0, 0) == -1 {
      CarriedOverLacks(word, TERM_FIELDS[k].0, if k < 2 then 1 else if k < 5 then 0 else 4);
    }
    FirstEntry(word, 6, 0);
  }

  lemma CarriedOverLacks(word: string, key: string, k: nat)
    requires word == "carried over" && k < |key|
    requires key[0] in "utp" || (key[0] == 'a' && k == 1 && key[1] == 'c') || (key[0] == 'c' && k == 4 && key[4] == 'y')
    ensures Find(word, key, 0) == -1
  {
    forall i: nat | i + |key| <= |word| ensures word[i] != key[0] || word[i + k] != key[k] {
      CarriedOverLetters(word, i);
    }
    Absent(word, key, k);
  }

  lemma CarriedOverLetters(word: string, i: nat)
    requires i < |word| && word == "carried over"
    ensures word[i] !in "utp" && (word[i] == 'a' ==> word[i + 1] == 'r') && (word[i] == 'c' ==> word[i + 4] == 'i')
  {
  }

  // The k-th character tells the pattern apart from every place where its first character stands.
  lemma Absent(word: string, key: string, k: nat)
    requires k < |key| && forall i: nat :: i + |key| <= |word| ==> word[i] != key[0] || word[i + k] != key[k]
    ensures Find(word, key, 0) == -1
  {
    forall i: nat {
      OccursCharacters(word, key, i, k);
    }
  }

  lemma OccursCharacters(word: string, key: string, i: nat, k: nat)
    requires k < |key|
    ensures OccursAt(word, key, i) ==> word[i] == key[0] && word[i + k] == key[k]
  {
    if OccursAt(word, key, i) {
      assert word[i..i + |key|][0] == word[i] && word[i..i + |key|][k] == word[i + k];
    }
  }

  lemma {:induction false} FirstEntry(name: string, n: nat, i: nat)
    requires i <= n < |TERM_FIELDS| && forall k :: i <= k < n ==> Find(name, TERM_FIELDS[k].0, 0) == -1
    requires OccursAt(name, TERM_FIELDS[n].0, 0)
    ensures FieldOf(name, TERM_FIELDS[i..]) == Some(TERM_FIELDS[n].1)
    ensures i == 0 ==> TERM_FIELDS[i..] == TERM_FIELDS
    decreases n - i
  {
    var table := TERM_FIELDS[i..];
    assert table[0] == TERM_FIELDS[i] && table[1..] == TERM_FIELDS[i + 1..];
    if i < n {
      FirstEntry(name, n, i + 1);
    }
  }

  function Misread(t: Term, first: bool): int { ReadTenths(t, first) - Contribution(t) }

  // A misread amount is always read too high, so misreadings do not cancel out.
  lemma GapIsNotNegative(t: Term, first: bool)
    ensures Misread(t, first) >= 0
    ensures Misread(t, first) == 0 <==> (if Subtracts(t.field) then !first || t.tenths <= 0 else t.tenths >= 0)
  {
  }

  function SumTenths(terms: seq<Term>, first: bool): int {
    if terms == [] then 0 else ReadTenths(terms[0], first) + SumTenths(terms[1..], false)
  }

  lemma {:induction false} SumReadBack(terms: seq<Term>, first: bool)
    ensures SumRead(ReadBack(terms, first)) == SumTenths(terms, first) as real / 10.0
    decreases |terms|
  {
    if terms != [] {
      SumReadBack(terms[1..], false);
      assert ReadBack(terms, first)[1..] == ReadBack(terms[1..], false);
    }
  }

  // Every amount is read with the sign it contributes.
  predicate Kept(terms: seq<Term>, first: bool) {
    terms == [] || (Misread(terms[0], first) == 0 && Kept(terms[1..], false))
  }

  lemma {:induction false} KeptExactly(terms: seq<Term>, first: bool)
    ensures SumTenths(terms, first) >= Sum(terms)
    ensures SumTenths(terms, first) == Sum(terms) <==> Kept(terms, first)
    ensures ReadBack(terms, first) == Signed(terms) <==> Kept(terms, first)
    decreases |terms|
  {
    if terms != [] {
      GapIsNotNegative(terms[0], first);
      KeptExactly(terms[1..], false);
      HeadsAndTails(ReadBack(terms, first), Signed(terms));
    }
  }

  lemma HeadsAndTails<T>(a: seq<T>, b: seq<T>)
    requires a != [] && b != []
    ensures a == b <==> a[0] == b[0] && a[1..] == b[1..]
  {
    assert a == [a[0]] + a[1..] && b == [b[0]] + b[1..];
  }

  lemma KeptStep(b: Balance, fields: seq<Field>, first: bool)
    requires fields != []
    ensures var f, rest := fields[0], TermsOf(b, fields[1..]);
            Kept(TermsOf(b, fields), first) <==>
            if Amount(b, f) == 0 then Kept(rest, first)
            else Misread(Term(f, Amount(b, f)), first) == 0 && Kept(rest, false)
  {
    var f, rest := fields[0], TermsOf(b, fields[1..]);
    if Amount(b, f) == 0 {
      assert [] + rest == rest;
    } else {
      assert ([Term(f, b[f])] + rest)[1..] == rest;
    }
  }

  lemma KeptTail(b: Balance, first: bool)
    ensures Kept(TermsOf(b, FIELDS[2..]), first) <==>
            && (first ==> Amount(b, PendingDays) <= 0)
            && Amount(b, CarryoverUnexpired) >= 0
  {
    KeptStep(b, FIELDS[2..], first);
    KeptStep(b, FIELDS[3..], first);
    KeptStep(b, FIELDS[3..], false);
    assert FIELDS[2..][1..] == FIELDS[3..] && FIELDS[3..][1..] == [];
  }

  lemma KeptHead(b: Balance, first: bool)
    ensures Kept(TermsOf(b, FIELDS[1..]), first) <==>
            && (first ==> Amount(b, UsedYtd) < 0 || (Amount(b, UsedYtd) == 0 && Amount(b, PendingDays) <= 0))
            && Amount(b, CarryoverUnexpired) >= 0
  {
    KeptStep(b, FIELDS[1..], first);
    KeptTail(b, first);
    KeptTail(b, false);
    assert FIELDS[1..][1..] == FIELDS[2..];
  }

  lemma KeptKeepsSigns(b: Balance)
    ensures Kept(TermsOf(b, FIELDS), true) <==> KeepsSigns(b)
  {
    KeptStep(b, FIELDS, true);
    KeptHead(b, true);
    KeptHead(b, false);
  }

  lemma {:induction false} NoneForeign(b: Balance, terms: seq<Term>, first: bool)
    requires forall t :: t in terms ==> t.field in b && b[t.field] != 0
    ensures NoneIsForeign(b, ReadBack(terms, first))
    decreases |terms|
  {
    if terms != [] {
      assert terms[0] in terms;
      var rest := terms[1..];
      assert forall t :: t in rest ==> t in terms;
      NoneForeign(b, rest, false);
      WordsResolve(terms[0].field);
    }
  }

  lemma WithinTolerance(n: int, m: int)
    requires n >= m
    ensures Abs(n as real / 10.0 - m as real / 10.0) <= TOLERANCE <==> n == m
  {
    assert n as real / 10.0 - m as real / 10.0 == (n - m) as real / 10.0;
  }

  // The working the balance prints is read back as its own signed amounts, and passes for sound,
  // exactly when the balance keeps its signs.
  lemma WorkingRoundTrip(b: Balance, remaining: int)
    requires Decomposition(b, Some(remaining)).Some?
    ensures var working := Decomposition(b, Some(remaining)).value;
            && (ReadTerms(working) == Signed(TermsOf(b, FIELDS)) <==> KeepsSigns(b))
            && (Sound(remaining as real / 10.0, working, b) <==> KeepsSigns(b))
  {
    var terms := TermsOf(b, FIELDS);
    ReadsBack(terms);
    KeptKeepsSigns(b);
    KeptExactly(terms, true);
    SumReadBack(terms, true);
    WithinTolerance(SumTenths(terms, true), remaining);
    NoneForeign(b, terms, true);
  }

  // Beside any total a working passes for sound exactly when what is read of it comes to that total.
  lemma SoundBeside(b: Balance, terms: seq<Term>, total: real)
    requires terms != [] && forall t :: t in terms ==> t.tenths != 0 && t.field in b && b[t.field] == t.tenths
    ensures Sound(total, Working(terms), b)
            <==> Abs(SumTenths(terms, true) as real / 10.0 - total) <= TOLERANCE
  {
    TermsTotal(b, terms, total);
    ReadsBack(terms);
  }

  lemma TermsTotal(b: Balance, terms: seq<Term>, total: real)
    requires terms != [] && forall t :: t in terms ==> t.field in b && b[t.field] != 0
    ensures Totals(total, ReadBack(terms, true), b)
            <==> Abs(SumTenths(terms, true) as real / 10.0 - total) <= TOLERANCE
  {
    NoneForeign(b, terms, true);
    SumReadBack(terms, true);
    TotalsBy(total, ReadBack(terms, true), b, SumTenths(terms, true) as real / 10.0);
  }

  lemma {:induction false} TotalsBy(total: real, parsed: seq<(real, string)>, b: Balance, sum: real)
    requires parsed != [] && NoneIsForeign(b, parsed) && SumRead(parsed) == sum
    ensures Totals(total, parsed, b) <==> Abs(sum - total) <= TOLERANCE
  {
  }

  // The amounts a working stands for sum to the balance it explains.
  lemma {:induction false} SignedSum(terms: seq<Term>)
    ensures SumRead(Signed(terms)) == Sum(terms) as real / 10.0
  {
    if terms != [] {
      SignedSum(terms[1..]);
      assert Signed(terms)[1..] == Signed(terms[1..]);
    }
  }

  // The first amount is printed without its operator. Before anything has accrued, four used days and
  // ten carried over make six; the working says "4.0 used plus 10.0 carried over", and reads fourteen.
  lemma SubtractedFirstAmountIsMisread(b: Balance)
    requires b == map[UsedYtd := 40, CarryoverUnexpired := 100]
    ensures Decomposition(b, Some(60)).Some?
    ensures var working := Decomposition(b, Some(60)).value;
            && ReadTerms(working) == [(4.0, "used"), (10.0, "carried over")]
            && !Sound(6.0, working, b)
  {
    var used, carried := Term(UsedYtd, 40), Term(CarryoverUnexpired, 100);
    JanuaryTerms(b);
    TwoTerms(used, carried);
    ReadsBack([used, carried]);
    WorkingRoundTrip(b, 60);
  }

  lemma TwoTerms(used: Term, carried: Term)
    requires used == Term(UsedYtd, 40) && carried == Term(CarryoverUnexpired, 100)
    ensures Sum([used, carried]) == 60
    ensures ReadBack([used, carried], true) == [(4.0, "used"), (10.0, "carried over")]
  {
    assert [used, carried][1..] == [carried] && [carried][1..] == [];
    assert Sum([carried]) == 100;
    assert ReadBack([carried], false) == [(10.0, "carried over")];
  }

  lemma JanuaryTerms(b: Balance)
    requires b == map[UsedYtd := 40, CarryoverUnexpired := 100]
    ensures TermsOf(b, FIELDS) == [Term(UsedYtd, 40), Term(CarryoverUnexpired, 100)]
  {
    assert FIELDS[1..] == [UsedYtd, PendingDays, CarryoverUnexpired];
    assert FIELDS[1..][1..] == [PendingDays, CarryoverUnexpired];
    assert FIELDS[2..][1..] == [CarryoverUnexpired] && [CarryoverUnexpired][1..] == [];
    assert TermsOf(b, [CarryoverUnexpired]) == [Term(CarryoverUnexpired, 100)];
    assert TermsOf(b, [PendingDays, CarryoverUnexpired]) == [Term(CarryoverUnexpired, 100)];
    assert TermsOf(b, FIELDS[1..]) == [Term(UsedYtd, 40), Term(CarryoverUnexpired, 100)];
  }

  // ----- the loops of the source -----

  function Addend(t: Term, first: bool): string {
    (if first then "" else Operator(t.field) + " ") + Render(t.tenths) + " " + WordOf(t.field)
  }

  function Addends(say: (Term, bool) -> string, terms: seq<Term>, first: bool): seq<string> {
    if terms == [] then [] else [say(terms[0], first)] + Addends(say, terms[1..], false)
  }

  lemma {:induction false} PartsAreWorking(terms: seq<Term>, first: bool)
    requires terms != []
    ensures Spaced(Addends(Addend, terms, first)) == Printed(terms, first)
    decreases |terms|
  {
    var part := Addend(terms[0], first);
    PrintedIsPart(terms, first);
    if |terms| == 1 {
      assert part + "" == part;
    } else {
      var rest := Addends(Addend, terms[1..], false);
      PartsAreWorking(terms[1..], false);
      assert Addends(Addend, terms, first)[1..] == rest && rest != [];
      SpaceBetween(part, Following(terms[1..]));
    }
  }

  lemma PrintedIsPart(terms: seq<Term>, first: bool)
    requires terms != []
    ensures Printed(terms, first) == Addend(terms[0], first) + TailOf(terms)
  {
    PartThen(terms[0], first, TailOf(terms));
    BehindIs(terms);
  }

  lemma BehindIs(terms: seq<Term>)
    requires terms != []
    ensures AfterNumber(terms) == " " + (WordOf(terms[0].field) + TailOf(terms))
  {
  }

  lemma SpaceBetween(a: string, b: string)
    ensures a + " " + b == a + (" " + b)
  {
  }

  lemma PartThen(t: Term, first: bool, tail: string)
    ensures var rest := Render(t.tenths) + (" " + (WordOf(t.field) + tail));
            Addend(t, first) + tail == if first then rest else Operator(t.field) + (" " + rest)
  {
    var number, word := Render(t.tenths), WordOf(t.field);
    NumberThen(if first then "" else Operator(t.field) + " ", number, word, tail);
    if first {
      NoLead(number + (" " + (word + tail)));
    } else {
      SpaceBetween(Operator(t.field), number + (" " + (word + tail)));
    }
  }

  lemma NumberThen(lead: string, number: string, word: string, tail: string)
    ensures lead + number + " " + word + tail == lead + (number + (" " + (word + tail)))
  {
  }

  // What one field adds to the sum and to the parts gathered so far.
  lemma FieldStep(b: Balance, say: (Term, bool) -> string, fields: seq<Field>, parts: seq<string>)
    requires fields != []
    ensures var f, here, rest := fields[0], TermsOf(b, fields), TermsOf(b, fields[1..]);
            if f in b && b[f] != 0 then
              && Sum(here) == (if Subtracts(f) then -b[f] else b[f]) + Sum(rest)
              && parts + Addends(say, here, parts == [])
                 == parts + [say(Term(f, b[f]), parts == [])] + Addends(say, rest, false)
            else
              here == rest
  {
    var f, rest := fields[0], TermsOf(b, fields[1..]);
    if f in b && b[f] != 0 {
      assert ([Term(f, b[f])] + rest)[1..] == rest;
      Regroup(parts, say(Term(f, b[f]), parts == []), Addends(say, rest, false));
    } else {
      assert [] + rest == rest;
    }
  }

  lemma Regroup<T>(a: seq<T>, x: T, b: seq<T>)
    ensures a + ([x] + b) == a + [x] + b
  {
  }

  method Decompose(b: Balance, remaining: Option<int>) returns (working: Option<string>)
    ensures working == Decomposition(b, remaining)
  {
    if remaining.None? {
      return None;
    }
    var running, parts := SumAndParts(b, Addend, FIELDS);
    ghost var all := TermsOf(b, FIELDS);
    if parts == [] || running != remaining.value {
      return None;
    }
    PartsAreWorking(all, true);
    return Some(Spaced(parts));
  }

  method SumAndParts(b: Balance, say: (Term, bool) -> string, fields: seq<Field>)
    returns (running: int, parts: seq<string>)
    ensures running == Sum(TermsOf(b, fields)) && parts == Addends(say, TermsOf(b, fields), true)
  {
    running, parts := 0, [];
    ghost var sum, all := Sum(TermsOf(b, fields)), Addends(say, TermsOf(b, fields), true);
    for i := 0 to |fields|
      invariant running + Sum(TermsOf(b, fields[i..])) == sum
      invariant parts + Addends(say, TermsOf(b, fields[i..]), parts == []) == all
    {
      var f := fields[i];
      assert fields[i..][1..] == fields[i + 1..];
      FieldStep(b, say, fields[i..], parts);
      if f in b && b[f] != 0 {
        running := running + if Subtracts(f) then -b[f] else b[f];
        parts := parts + [say(Term(f, b[f]), parts == [])];
      }
    }
  }

  method Terms(body: string) returns (found: seq<(real, string)>)
    ensures found == ReadTerms(body)
  {
    found := FindEach(MatchTerm, body);
  }

  method FindEach(f: Matcher, body: string) returns (found: seq<(real, string)>)
    requires forall t {:trigger f(t)} :: f(t).Some? ==> 0 < f(t).value.length <= |t|
    ensures found == FindAll(f, body)
  {
    found := [];
    var i := 0;
    while i < |body|
      invariant i <= |body|
      invariant found + FindAll(f, body[i..]) == FindAll(f, body)
    {
      var m := f(body[i..]);
      if m.Some? {
        assert body[i..][m.value.length..] == body[i + m.value.length..];
        found := found + [(m.value.value, m.value.name)];
        i := i + m.value.length;
      } else {
        DropOne(body, i);
        i := i + 1;
      }
    }
  }
}
