// dates.correct read twice: a passage whose deadlines are redone by the claims' own workings
// (src/hrmosaic/agent/dates.py:121-151, 173-207).
module Deadlines {
  import opened Blocks
  import opened Calendar
  import opened Dates
  import opened Digits
  import opened Lists
  import opened Passages
  import opened Reprints

  // A match of the claim expression: the claim, and what is written behind its stated date.
  datatype Dated = Dated(claim: Claim, working: string)

  function Show(d: Dated): string {
    (if d.claim.stated.Some? then d.claim.stated.value else "") + d.working
  }

  // _repair; a day before the year 0 is outside Python's range.
  function Redated(d: Dated): Mend<Dated> {
    match RepairClaim(d.claim)
    case Leave => Keep
    case Drop => Mend.Drop
    case Restate(day) => if day.year >= 0 then Say(Dated(Restated(d.claim, day), d.working)) else Keep
  }

  // The working begins behind the date, with whitespace or its parenthesis, and ends with that.
  predicate IsWorking(w: string) { Solid(w) && !IsDigit(w[0]) }

  // ----- two printed days are told apart -----

  predicate Dateish(day: string, month: string, year: string) {
    && AllDigits(day) && day != "" && AllDigits(year) && year != ""
    && month != "" && forall c :: c in month ==> IsLetter(c)
  }

  lemma ReadFront(t: string, day: string, month: string, year: string, rest: string)
    requires Dateish(day, month, year) && rest != "" && !IsDigit(rest[0])
    requires t == day + " " + month + " " + year + rest
    ensures var i, j := |day|, |day| + 1 + |month|;
            && j + 1 + |year| < |t|
            && DigitsEnd(t, 0) == i && t[0..i] == day && LettersEnd(t, i + 1) == j && t[i + 1..j] == month
            && DigitsEnd(t, j + 1) == j + 1 + |year| && t[j + 1..j + 1 + |year|] == year
  {
    var i, j := |day|, |day| + 1 + |month|;
    FrontSlices(day, month, year, rest);
    DigitsEndAt(t, 0, i);
    LettersRun(t, i + 1, j, month);
    DigitsEndAt(t, j + 1, j + 1 + |year|);
  }

  lemma LettersRun(t: string, i: nat, j: nat, month: string)
    requires i <= j < |t| && t[i..j] == month && t[j] == ' ' && forall c :: c in month ==> IsLetter(c)
    ensures LettersEnd(t, i) == j
  {
    forall k | i <= k < j ensures IsLetter(t[k]) {
      assert t[k] == month[k - i];
    }
    LettersEndAt(t, i, j);
  }

  lemma FrontSlices(day: string, month: string, year: string, rest: string)
    requires rest != ""
    ensures var t := day + " " + month + " " + year + rest;
            var i, j := |day|, |day| + 1 + |month|;
            && |t| > j + 1 + |year| && t[0..i] == day && t[i] == ' ' && t[i + 1..j] == month && t[j] == ' '
            && t[j + 1..j + 1 + |year|] == year && t[j + 1 + |year|] == rest[0]
  {
  }

  lemma SameFronts(t: string, day: string, month: string, year: string, r: string,
                   day': string, month': string, year': string, s: string)
    requires Dateish(day, month, year) && Dateish(day', month', year')
    requires r != "" && s != "" && !IsDigit(r[0]) && !IsDigit(s[0])
    requires t == day + " " + month + " " + year + r && t == day' + " " + month' + " " + year' + s
    ensures day == day' && month == month' && year == year'
  {
    ReadFront(t, day, month, year, r);
    ReadFront(t, day', month', year', s);
  }

  lemma DaysApart(d: Date, e: Date, w: string)
    requires Valid(d) && Valid(e) && d.year >= 0 && e.year >= 0 && d != e && IsWorking(w)
    ensures Apart(HumanDate(d) + w, HumanDate(e) + w)
  {
    forall r: string, s: string ensures (HumanDate(d) + w) + r != (HumanDate(e) + w) + s {
      if (HumanDate(d) + w) + r == (HumanDate(e) + w) + s {
        SameDay(d, e, w, r, s);
      }
    }
  }

  lemma SameDay(d: Date, e: Date, w: string, r: string, s: string)
    requires Valid(d) && Valid(e) && d.year >= 0 && e.year >= 0 && IsWorking(w)
    requires (HumanDate(d) + w) + r == (HumanDate(e) + w) + s
    ensures d == e
  {
    Associative(HumanDate(d), w, r);
    Associative(HumanDate(e), w, s);
    SameFronts(HumanDate(d) + w + r, Decimal(d.day), MonthName(d.month), Decimal(d.year), w + r,
               Decimal(e.day), MonthName(e.month), Decimal(e.year), w + s);
    SameParts(d, e);
  }

  lemma SameParts(d: Date, e: Date)
    requires Valid(d) && Valid(e) && d.year >= 0 && e.year >= 0
    requires Decimal(d.day) == Decimal(e.day) && MonthName(d.month) == MonthName(e.month)
    requires Decimal(d.year) == Decimal(e.year)
    ensures d == e
  {
    ParseDecimal(d.day);
    ParseDecimal(e.day);
    ParseDecimal(d.year);
    ParseDecimal(e.year);
    MonthNamesDiffer(d.month, e.month);
  }

  // ----- the passage, twice -----

  // Counted back again, the day stays in the range of Python's dates; the first day printed has a year
  // of four digits.
  predicate InRange(d: Dated) {
    var first := RepairClaim(d.claim);
    first.Restate? ==>
      && 1000 <= first.deadline.year <= 9999
      && var again := RepairClaim(Restated(d.claim, first.deadline));
         again.Restate? ==> again.deadline.year >= 0
  }

  // The anchor names its own year, or the stated date was in the year of the day counted back, or the
  // anchor is no date in that year.
  predicate KeepsItsYear(c: Claim) {
    var first := RepairClaim(c);
    first.Restate? ==>
      || NamesItsYear(c.anchor)
      || (c.stated.Some? && YearOf(ParseDate(c.stated.value, None)) == Some(first.deadline.year))
      || ParseDate(c.anchor, Some(first.deadline.year)).None?
  }

  lemma RestatedStands(d: Dated)
    requires IsWorking(d.working) && InRange(d) && RepairClaim(d.claim).Restate?
    ensures var said := Dated(Restated(d.claim, RepairClaim(d.claim).deadline), d.working);
            Redone(Show, Redated, said) && (Stands(Show, Redated, said) <==> KeepsItsYear(d.claim))
  {
    var c := d.claim;
    var deadline := RepairClaim(c).deadline;
    var read := ParseDate(c.stated.value, None);
    var anchor := ParseDate(c.anchor, YearOf(read)).value;
    if read.Some? {
      StatedDay(c.stated.value, anchor.year);
    }
    RepairSettles(c, anchor);
    AgainPrinted(Restated(c, deadline), deadline, d.working);
  }

  // A claim printed with this day is left alone, or printed with another day.
  lemma AgainPrinted(c: Claim, day: Date, w: string)
    requires Valid(day) && 1000 <= day.year <= 9999 && c.stated == Some(HumanDate(day)) && IsWorking(w)
    requires RepairClaim(c).Restate? ==> RepairClaim(c).deadline.year >= 0
    ensures Redone(Show, Redated, Dated(c, w)) && (Stands(Show, Redated, Dated(c, w)) <==> RepairClaim(c).Leave?)
  {
    HumanDateReadsBack(day, None);
    ClosedBehind(HumanDate(day), w);
    if RepairClaim(c).Restate? {
      var other := RepairClaim(c).deadline;
      ClosedBehind(HumanDate(other), w);
      DaysApart(day, other, w);
      assert (HumanDate(day) + w) + "" != (HumanDate(other) + w) + "";
    }
  }

  lemma ClosedBehind(s: string, w: string)
    requires Solid(w)
    ensures Solid(s + w)
  {
    assert (s + w)[|s + w| - 1] == w[|w| - 1];
  }

  // Read again, the passage is left alone exactly when every claim that was restated settles.
  lemma DeadlinesSettle(isAlnum: CharTest, parts: seq<Part<Dated>>, tail: string)
    requires forall i :: 0 <= i < |parts| ==> IsWorking(parts[i].claim.working) && InRange(parts[i].claim)
    ensures var text, (again, end) := Print(Show, parts, tail), Mended(isAlnum, Show, Redated, parts, tail);
            var once := Print(Show, again, end);
            && Behind(text, 0, Rewrites(Show, Redated, 0, parts)) && Behind(once, 0, Rewrites(Show, Redated, 0, again))
            && Corrected(isAlnum, text, 0, Rewrites(Show, Redated, 0, parts)) == once
            && (Corrected(isAlnum, once, 0, Rewrites(Show, Redated, 0, again)) == once
                <==> forall i :: 0 <= i < |parts| ==> KeepsItsYear(parts[i].claim.claim))
  {
    forall i | 0 <= i < |parts|
      ensures Printable(Show, Redated, parts[i].claim)
      ensures Redated(parts[i].claim).Say? ==> Redone(Show, Redated, Redated(parts[i].claim).claim)
      ensures KeepsItsYear(parts[i].claim.claim)
              <==> (Redated(parts[i].claim).Say? ==> Stands(Show, Redated, Redated(parts[i].claim).claim))
    {
      DatedPart(parts[i].claim);
    }
    PassTwice(isAlnum, Show, Redated, parts, tail);
  }

  lemma DatedPart(d: Dated)
    requires IsWorking(d.working) && InRange(d)
    ensures Printable(Show, Redated, d)
    ensures Redated(d).Say? ==> Redone(Show, Redated, Redated(d).claim)
    ensures KeepsItsYear(d.claim) <==> (Redated(d).Say? ==> Stands(Show, Redated, Redated(d).claim))
  {
    ClosedBehind(if d.claim.stated.Some? then d.claim.stated.value else "", d.working);
    if RepairClaim(d.claim).Restate? {
      ClosedBehind(HumanDate(RepairClaim(d.claim).deadline), d.working);
      RestatedStands(d);
    }
  }
}
