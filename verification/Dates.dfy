// Dates as an answer writes them, read back, and deadlines recomputed from the working printed
// beside them (src/hrmosaic/agent/dates.py).
module Dates {
  import opened Blocks
  import opened Digits
  import opened Sentences
  import opened Calendar
  import opened Texts

  function MonthName(m: int): (name: string)
    requires 1 <= m <= 12
    ensures name != "" && forall c :: c in name ==> IsLetter(c)
  {
    match m
    case 1 => "January" case 2 => "February" case 3 => "March" case 4 => "April"
    case 5 => "May" case 6 => "June" case 7 => "July" case 8 => "August"
    case 9 => "September" case 10 => "October" case 11 => "November" case _ => "December"
  }

  function WeekdayName(w: int): string
    requires 0 <= w < 7
  {
    match w
    case 0 => "Monday" case 1 => "Tuesday" case 2 => "Wednesday" case 3 => "Thursday"
    case 4 => "Friday" case 5 => "Saturday" case _ => "Sunday"
  }

  predicate IsLetter(c: char) { 'a' <= c <= 'z' || 'A' <= c <= 'Z' }

  // a.lower() == b.lower()
  predicate SameName(a: string, b: string) {
    |a| == |b| && forall i :: 0 <= i < |a| ==> Lower(a[i]) == Lower(b[i])
  }

  // _MONTH_NUMBER.get(name.lower()), from month m on.
  function MonthNumber(name: string, m: int): Option<int>
    requires 1 <= m <= 13
    decreases 13 - m
  {
    if m == 13 then None
    else if SameName(MonthName(m), name) then Some(m)
    else MonthNumber(name, m + 1)
  }

  function HumanDate(d: Date): string
    requires Valid(d) && d.year >= 0
  {
    Decimal(d.day) + " " + MonthName(d.month) + " " + Decimal(d.year)
  }

  // The end of the run of letters at i.
  function LettersEnd(s: string, i: nat): (j: nat)
    requires i <= |s|
    ensures i <= j <= |s|
    decreases |s| - i
  {
    if i < |s| && IsLetter(s[i]) then LettersEnd(s, i + 1) else i
  }

  predicate SuffixAt(s: string, i: nat) {
    i + 2 <= |s| && s[i..i + 2] in ["st", "nd", "rd", "th"]
  }

  // What the date expression captures: day, name of the month, and the year when there is one.
  datatype Written = Written(day: nat, month: string, year: Option<nat>)

  // A day of one or two digits with or without its suffix, a word, and at most a year of four digits,
  // with nothing else but whitespace between and around them.
  function ReadDate(s: string): Option<Written> {
    var i0 := SpaceEnd(s, 0);
    var i1 := DigitsEnd(s, i0);
    var i2 := if SuffixAt(s, i1) then i1 + 2 else i1;
    var i3 := SpaceEnd(s, i2);
    var i4 := LettersEnd(s, i3);
    if !(1 <= i1 - i0 <= 2) || i3 == i2 || i4 == i3 then None
    else
      var day, month := ParseNat(s[i0..i1]), s[i3..i4];
      var i5 := SpaceEnd(s, i4);
      var i6 := DigitsEnd(s, i5);
      if i5 == |s| then Some(Written(day, month, None))
      else if i5 > i4 && i6 == i5 + 4 && SpaceEnd(s, i6) == |s| then
        Some(Written(day, month, Some(ParseNat(s[i5..i6]))))
      else None
  }

  // date(year, month, day), or None where it raises.
  function MakeDate(year: int, month: int, day: int): (r: Option<Date>)
    ensures r.Some? ==> Valid(r.value)
  {
    var d := Date(year, month, day);
    if 1 <= year <= 9999 && Valid(d) then Some(d) else None
  }

  function ParseDate(s: string, defaultYear: Option<int>): (r: Option<Date>)
    ensures r.Some? ==> Valid(r.value)
  {
    match ReadDate(s)
    case None => None
    case Some(written) =>
      var month := MonthNumber(written.month, 1);
      var year := if written.year.Some? then Some(written.year.value as int) else defaultYear;
      if month.None? || year.None? then None else MakeDate(year.value, month.value, written.day)
  }

  // ----- a day's suffix -----

  lemma {:induction false} SpacesBehind(front: string, rest: string, i: nat)
    requires i <= |rest|
    ensures SpaceEnd(front + rest, |front| + i) == |front| + SpaceEnd(rest, i)
    decreases |rest| - i
  {
    if i < |rest| {
      assert (front + rest)[|front| + i] == rest[i];
      SpacesBehind(front, rest, i + 1);
    }
  }

  lemma {:induction false} DigitsBehind(front: string, rest: string, i: nat)
    requires i <= |rest|
    ensures DigitsEnd(front + rest, |front| + i) == |front| + DigitsEnd(rest, i)
    decreases |rest| - i
  {
    if i < |rest| {
      assert (front + rest)[|front| + i] == rest[i];
      DigitsBehind(front, rest, i + 1);
    }
  }

  lemma {:induction false} LettersBehind(front: string, rest: string, i: nat)
    requires i <= |rest|
    ensures LettersEnd(front + rest, |front| + i) == |front| + LettersEnd(rest, i)
    decreases |rest| - i
  {
    if i < |rest| {
      assert (front + rest)[|front| + i] == rest[i];
      LettersBehind(front, rest, i + 1);
    }
  }

  // Where the month and the year stand behind the day.
  datatype Places = Places(month: nat, monthEnd: nat, year: nat, yearEnd: nat, end: nat)

  predicate AreFrom(s: string, i: nat, p: Places) {
    && i <= p.month <= p.monthEnd <= p.year <= p.yearEnd <= |s|
    && p.month == SpaceEnd(s, i) && p.monthEnd == LettersEnd(s, p.month)
    && p.year == SpaceEnd(s, p.monthEnd) && p.yearEnd == DigitsEnd(s, p.year) && p.end == SpaceEnd(s, p.yearEnd)
  }

  function PlacesFrom(s: string, i: nat): (p: Places)
    requires i <= |s|
    ensures AreFrom(s, i, p) && p.yearEnd <= p.end <= |s|
  {
    var month := SpaceEnd(s, i);
    var monthEnd := LettersEnd(s, month);
    var year := SpaceEnd(s, monthEnd);
    var yearEnd := DigitsEnd(s, year);
    Places(month, monthEnd, year, yearEnd, SpaceEnd(s, yearEnd))
  }

  function Shifted(p: Places, m: nat): Places {
    Places(m + p.month, m + p.monthEnd, m + p.year, m + p.yearEnd, m + p.end)
  }

  lemma {:induction false} MonthBehind(s: string, front: string, rest: string, p: Places)
    requires s == front + rest && AreFrom(rest, 0, p)
    ensures var q := Shifted(p, |front|); q.month == SpaceEnd(s, |front|) && q.monthEnd == LettersEnd(s, q.month)
  {
    SpacesBehind(front, rest, 0);
    LettersBehind(front, rest, p.month);
  }

  lemma {:induction false} YearBehind(s: string, front: string, rest: string, p: Places)
    requires s == front + rest && AreFrom(rest, 0, p)
    ensures Shifted(p, |front|).year == SpaceEnd(s, Shifted(p, |front|).monthEnd)
  {
    SpacesBehind(front, rest, p.monthEnd);
  }

  lemma {:induction false} YearEndBehind(s: string, front: string, rest: string, p: Places)
    requires s == front + rest && AreFrom(rest, 0, p)
    ensures Shifted(p, |front|).yearEnd == DigitsEnd(s, Shifted(p, |front|).year)
  {
    DigitsBehind(front, rest, p.year);
  }

  lemma {:induction false} EndBehind(s: string, front: string, rest: string, p: Places)
    requires s == front + rest && AreFrom(rest, 0, p)
    ensures var q := Shifted(p, |front|); q.end == SpaceEnd(s, q.yearEnd)
  {
    SpacesBehind(front, rest, p.yearEnd);
  }

  lemma {:induction false} PlacesBehind(s: string, front: string, rest: string, p: Places)
    requires s == front + rest && AreFrom(rest, 0, p)
    ensures AreFrom(s, |front|, Shifted(p, |front|))
  {
    MonthBehind(s, front, rest, p);
    YearBehind(s, front, rest, p);
    YearEndBehind(s, front, rest, p);
    EndBehind(s, front, rest, p);
  }

  // What is read there, for a day of the given text that ends at i.
  function ReadThere(day: string, s: string, i: nat, p: Places): Option<Written>
    requires AllDigits(day) && i <= p.month <= p.monthEnd <= p.year <= p.yearEnd <= p.end <= |s|
  {
    if !(1 <= |day| <= 2) || p.month == i || p.monthEnd == p.month then None
    else if p.year == |s| then Some(Written(ParseNat(day), s[p.month..p.monthEnd], None))
    else if p.year > p.monthEnd && p.yearEnd == p.year + 4 && p.end == |s| && AllDigits(s[p.year..p.yearEnd]) then
      Some(Written(ParseNat(day), s[p.month..p.monthEnd], Some(ParseNat(s[p.year..p.yearEnd]))))
    else None
  }

  lemma {:induction false} ReadByPlaces(s: string, day: string, i: nat, p: Places)
    requires SpaceEnd(s, 0) == 0 && DigitsEnd(s, 0) == |day| <= |s| && s[0..|day|] == day
    requires i == (if SuffixAt(s, |day|) then |day| + 2 else |day|) && AreFrom(s, i, p)
    ensures AllDigits(day) && p.end <= |s| && ReadDate(s) == ReadThere(day, s, i, p)
  {
  }

  lemma {:induction false} ReadThereBehind(day: string, front: string, rest: string, p: Places)
    requires AllDigits(day) && p.month <= p.monthEnd <= p.year <= p.yearEnd <= p.end <= |rest|
    ensures ReadThere(day, front + rest, |front|, Shifted(p, |front|)) == ReadThere(day, rest, 0, p)
  {
    SliceBehind(front, rest, p.month, p.monthEnd);
    SliceBehind(front, rest, p.year, p.yearEnd);
  }

  lemma SliceBehind(front: string, rest: string, i: nat, j: nat)
    requires i <= j <= |rest|
    ensures (front + rest)[|front| + i..|front| + j] == rest[i..j]
  {
  }

  lemma {:induction false} ReadFromDay(s: string, day: string, front: string, rest: string, p: Places)
    requires s == front + rest && SpaceEnd(s, 0) == 0 && DigitsEnd(s, 0) == |day| <= |s| && s[0..|day|] == day
    requires |front| == (if SuffixAt(s, |day|) then |day| + 2 else |day|) && AreFrom(rest, 0, p) && p.end <= |rest|
    ensures AllDigits(day) && ReadDate(s) == ReadThere(day, rest, 0, p)
  {
    PlacesBehind(s, front, rest, p);
    ReadByPlaces(s, day, |front|, Shifted(p, |front|));
    ReadThereBehind(day, front, rest, p);
  }

  // Behind the day it does not matter whether its suffix is written.
  lemma SuffixIsPassed(day: string, suffix: string, rest: string)
    requires AllDigits(day) && day != "" && suffix in ["st", "nd", "rd", "th"]
    requires rest != "" && IsSpace(rest[0])
    ensures ReadDate(day + suffix + rest) == ReadDate(day + rest)
  {
    var p := PlacesFrom(rest, 0);
    DayWithSuffix(day, suffix, rest);
    ReadFromDay(day + suffix + rest, day, day + suffix, rest, p);
    DayWithoutSuffix(day, rest);
    ReadFromDay(day + rest, day, day, rest, p);
  }

  lemma DayWithSuffix(day: string, suffix: string, rest: string)
    requires AllDigits(day) && day != "" && suffix in ["st", "nd", "rd", "th"]
    ensures var s := day + suffix + rest;
            SpaceEnd(s, 0) == 0 && DigitsEnd(s, 0) == |day| && s[0..|day|] == day && SuffixAt(s, |day|)
  {
    var s := day + suffix + rest;
    assert s == day + (suffix + rest) && s[|day|..|day| + 2] == suffix;
    DayIsRead(day, suffix + rest);
  }

  lemma DayWithoutSuffix(day: string, rest: string)
    requires AllDigits(day) && day != "" && rest != "" && IsSpace(rest[0])
    ensures var s := day + rest;
            SpaceEnd(s, 0) == 0 && DigitsEnd(s, 0) == |day| && s[0..|day|] == day && !SuffixAt(s, |day|)
  {
    var s := day + rest;
    DayIsRead(day, rest);
    if |day| + 2 <= |s| {
      assert s[|day|..|day| + 2][0] == rest[0];
    }
  }

  lemma DayIsRead(day: string, behind: string)
    requires AllDigits(day) && day != "" && behind != "" && !IsDigit(behind[0])
    ensures var s := day + behind; SpaceEnd(s, 0) == 0 && DigitsEnd(s, 0) == |day| && s[0..|day|] == day
  {
    var s := day + behind;
    assert s[0] == day[0] && s[|day|] == behind[0];
    DigitsEndAt(s, 0, |day|);
  }

  // ----- a printed date reads back -----

  lemma MonthNamesDiffer(m: int, n: int)
    requires 1 <= m <= 12 && 1 <= n <= 12 && SameName(MonthName(m), MonthName(n))
    ensures m == n
  {
    var a, b := MonthName(m), MonthName(n);
    assert |a| == |b| && Lower(a[0]) == Lower(b[0]) && Lower(a[1]) == Lower(b[1]) && Lower(a[2]) == Lower(b[2]);
  }

  lemma {:induction false} MonthReadsBack(m: int, from: int)
    requires 1 <= from <= m <= 12
    ensures MonthNumber(MonthName(m), from) == Some(m)
    decreases m - from
  {
    if from < m {
      if SameName(MonthName(from), MonthName(m)) {
        MonthNamesDiffer(from, m);
      }
      MonthReadsBack(m, from + 1);
    }
  }

  lemma {:induction false} LettersEndAt(s: string, i: nat, j: nat)
    requires i <= j <= |s| && (forall k :: i <= k < j ==> IsLetter(s[k])) && (j < |s| ==> !IsLetter(s[j]))
    ensures LettersEnd(s, i) == j
    decreases j - i
  {
    if i < j {
      LettersEndAt(s, i + 1, j);
    }
  }

  // A day, a month and a year with single spaces between them are captured as they stand, if the
  // day has one or two digits; the year is read only when it has four.
  lemma ReadWritten(day: string, month: string, year: string)
    requires AllDigits(day) && 1 <= |day| <= 2
    requires month != "" && forall c :: c in month ==> IsLetter(c)
    requires AllDigits(year) && year != ""
    ensures ReadDate(day + " " + month + " " + year)
            == if |year| == 4 then Some(Written(ParseNat(day), month, Some(ParseNat(year)))) else None
  {
    var s := day + " " + month + " " + year;
    var i1, i4 := |day|, |day| + 1 + |month|;
    WrittenSlices(day, month, year);
    DayEnds(s, day);
    NoSuffixAtSpace(s, i1);
    MonthEnds(s, i1, i4, month);
    YearEnds(s, i4, year);
    ReadParts(s, i1, i4);
  }

  lemma NoSuffixAtSpace(s: string, i: nat)
    requires i < |s| && s[i] == ' '
    ensures !SuffixAt(s, i)
  {
    assert i + 2 <= |s| ==> s[i..i + 2][0] == ' ';
  }

  lemma ReadParts(s: string, i1: nat, i4: nat)
    requires i1 + 1 < i4 && i4 + 1 < |s| && 1 <= i1 <= 2
    requires SpaceEnd(s, 0) == 0 && DigitsEnd(s, 0) == i1 && !SuffixAt(s, i1)
    requires SpaceEnd(s, i1) == i1 + 1 && LettersEnd(s, i1 + 1) == i4
    requires SpaceEnd(s, i4) == i4 + 1 && DigitsEnd(s, i4 + 1) == |s| && SpaceEnd(s, |s|) == |s|
    ensures ReadDate(s)
            == if |s| != i4 + 5 then None
               else Some(Written(ParseNat(s[0..i1]), s[i1 + 1..i4], Some(ParseNat(s[i4 + 1..|s|]))))
  {
  }

  lemma WrittenSlices(day: string, month: string, year: string)
    ensures var s := day + " " + month + " " + year;
            var i1, i4 := |day|, |day| + 1 + |month|;
            && |s| == i4 + 1 + |year|
            && s[0..i1] == day && s[i1] == ' ' && s[i1 + 1..i4] == month && s[i4] == ' ' && s[i4 + 1..|s|] == year
  {
  }

  lemma DayEnds(s: string, day: string)
    requires |day| < |s| && s[0..|day|] == day && s[|day|] == ' ' && AllDigits(day) && day != ""
    ensures SpaceEnd(s, 0) == 0 && DigitsEnd(s, 0) == |day|
  {
    assert s[0] == day[0];
    SpaceEndAt(s, 0, 0);
    DigitsEndAt(s, 0, |day|);
  }

  lemma MonthEnds(s: string, i: nat, j: nat, month: string)
    requires i + 1 < j < |s| && s[i] == ' ' && s[i + 1..j] == month && s[j] == ' '
    requires forall c :: c in month ==> IsLetter(c)
    ensures SpaceEnd(s, i) == i + 1 && LettersEnd(s, i + 1) == j
  {
    forall k | i + 1 <= k < j ensures IsLetter(s[k]) {
      assert s[k] == month[k - i - 1];
    }
    SpaceEndAt(s, i, i + 1);
    LettersEndAt(s, i + 1, j);
  }

  lemma YearEnds(s: string, i: nat, year: string)
    requires i + 1 < |s| && s[i] == ' ' && s[i + 1..|s|] == year && AllDigits(year)
    ensures SpaceEnd(s, i) == i + 1 && DigitsEnd(s, i + 1) == |s| && SpaceEnd(s, |s|) == |s|
  {
    assert s[i + 1] == year[0];
    SpaceEndAt(s, i, i + 1);
    DigitsEndAt(s, i + 1, |s|);
  }

  // parse_date reads back what human_date wrote exactly when the year has four digits; nothing is
  // read from any other.
  lemma {:induction false} HumanDateReadsBack(d: Date, defaultYear: Option<int>)
    requires Valid(d) && d.year >= 0
    ensures 1000 <= d.year <= 9999 ==> ParseDate(HumanDate(d), defaultYear) == Some(d)
    ensures !(1000 <= d.year <= 9999) ==> ParseDate(HumanDate(d), defaultYear) == None
  {
    HumanDateIsRead(d);
    MonthReadsBack(d.month, 1);
  }

  lemma {:induction false} HumanDateIsRead(d: Date)
    requires Valid(d) && d.year >= 0
    ensures ReadDate(HumanDate(d))
            == if 1000 <= d.year <= 9999 then Some(Written(d.day, MonthName(d.month), Some(d.year))) else None
  {
    DecimalLength(d.day);
    DecimalLength(d.year);
    ReadWritten(Decimal(d.day), MonthName(d.month), Decimal(d.year));
    ParseDecimal(d.day);
    ParseDecimal(d.year);
  }

  // ----- a deadline beside its working -----

  // One "(N days before <anchor>)", and the deadline stated directly in front of it if there is one.
  datatype Claim = Claim(stated: Option<string>, count: nat, business: bool, anchor: string)

  // Leave the words as they are, drop the claim, or print this deadline in front of the working.
  datatype Repair = Leave | Drop | Restate(deadline: Date)

  function YearOf(d: Option<Date>): Option<int> { if d.Some? then Some(d.value.year) else None }

  function RepairClaim(c: Claim): (r: Repair)
    ensures r.Restate? ==> Valid(r.deadline)
  {
    var read := if c.stated.Some? then ParseDate(c.stated.value, None) else None;
    var anchor := ParseDate(c.anchor, YearOf(read));
    if anchor.None? then Leave
    else if c.stated.None? then Drop
    else
      var stated := if read.Some? then read else ParseDate(c.stated.value, Some(anchor.value.year));
      if stated.None? then Leave
      else
        var deadline := Minus(anchor.value, c.count, c.business);
        if stated.value == deadline then Leave else Restate(deadline)
  }

  // The claim as it reads once the deadline has been printed.
  function Restated(c: Claim, deadline: Date): Claim
    requires Valid(deadline) && deadline.year >= 0
  {
    c.(stated := Some(HumanDate(deadline)))
  }

  predicate NamesItsYear(s: string) { ReadDate(s).Some? && ReadDate(s).value.year.Some? }

  // An anchor that names its year is the same date whatever year it might have borrowed.
  lemma OwnYear(s: string, y: Option<int>, z: Option<int>)
    requires NamesItsYear(s)
    ensures ParseDate(s, y) == ParseDate(s, z)
  {
  }

  // One that does not is the same day and month of each year it borrows.
  lemma BorrowedYear(s: string, y: int, z: int)
    requires !NamesItsYear(s) && ParseDate(s, Some(y)).Some? && ParseDate(s, Some(z)).Some?
    ensures ParseDate(s, None).None?
    ensures var a, b := ParseDate(s, Some(y)).value, ParseDate(s, Some(z)).value;
            a.year == y && b == a.(year := z)
  {
  }

  // A stated day that is read by itself names its year, and is read the same beside an anchor.
  lemma StatedDay(s: string, year: int)
    requires ParseDate(s, None).Some?
    ensures ParseDate(s, Some(year)) == ParseDate(s, None)
  {
    OwnYear(s, None, Some(year));
  }

  // The anchor as it is read beside the stated day, and the stated day as it is read beside the anchor.
  predicate ReadsAs(c: Claim, anchor: Date, stated: Option<Date>) {
    var own := if c.stated.Some? then ParseDate(c.stated.value, None) else None;
    && ParseDate(c.anchor, YearOf(own)) == Some(anchor)
    && stated == if c.stated.Some? then ParseDate(c.stated.value, Some(anchor.year)) else None
  }

  // What becomes of a claim, exactly: it goes where no day is stated in front of a readable anchor; it is
  // said otherwise where the stated day is read and is not the day counted back; and it stands in every
  // other case.
  lemma RepairExactly(c: Claim)
    ensures RepairClaim(c).Drop? <==> c.stated.None? && ParseDate(c.anchor, None).Some?
    ensures forall d :: RepairClaim(c) == Restate(d) <==>
              exists anchor, stated :: ReadsAs(c, anchor, stated) && stated.Some? && stated.value != d
                                       && d == Minus(anchor, c.count, c.business)
  {
    var own := if c.stated.Some? then ParseDate(c.stated.value, None) else None;
    var read := ParseDate(c.anchor, YearOf(own));
    if read.Some? {
      var anchor := read.value;
      if own.Some? {
        StatedDay(c.stated.value, anchor.year);
      }
      assert ReadsAs(c, anchor, if c.stated.Some? then ParseDate(c.stated.value, Some(anchor.year)) else None);
    }
  }

  // A claim whose stated day is not the one its own working gives is printed with the day counted
  // back from its anchor. Exactly when a second pass then leaves it alone: the anchor names its own
  // year, or the deadline stayed in the year the anchor borrowed, or the anchor is no date in the
  // deadline's year. Otherwise the correction crossed a new year and took the anchor's year with it.
  lemma RepairSettles(c: Claim, anchor: Date)
    requires c.stated.Some? && ParseDate(c.anchor, YearOf(ParseDate(c.stated.value, None))) == Some(anchor)
    requires var deadline := Minus(anchor, c.count, c.business);
             && 1000 <= deadline.year <= 9999
             && ParseDate(c.stated.value, Some(anchor.year)).Some?
             && ParseDate(c.stated.value, Some(anchor.year)) != Some(deadline)
    ensures var deadline := Minus(anchor, c.count, c.business);
            && RepairClaim(c) == Restate(deadline)
            && (RepairClaim(Restated(c, deadline)).Leave? <==>
                  || NamesItsYear(c.anchor)
                  || YearOf(ParseDate(c.stated.value, None)) == Some(deadline.year)
                  || ParseDate(c.anchor, Some(deadline.year)).None?)
  {
    var read, deadline := ParseDate(c.stated.value, None), Minus(anchor, c.count, c.business);
    RepairsOnce(c, anchor);
    RepairsAgain(c, deadline);
    AnchorMoves(c.anchor, YearOf(read), deadline.year, c.count, c.business);
  }

  lemma RepairsOnce(c: Claim, anchor: Date)
    requires c.stated.Some? && ParseDate(c.anchor, YearOf(ParseDate(c.stated.value, None))) == Some(anchor)
    requires ParseDate(c.stated.value, Some(anchor.year)).Some?
    requires ParseDate(c.stated.value, Some(anchor.year)) != Some(Minus(anchor, c.count, c.business))
    ensures RepairClaim(c) == Restate(Minus(anchor, c.count, c.business))
  {
    if ParseDate(c.stated.value, None).Some? {
      StatedDay(c.stated.value, anchor.year);
    }
  }

  // The printed deadline lends the anchor its year.
  lemma RepairsAgain(c: Claim, deadline: Date)
    requires Valid(deadline) && 1000 <= deadline.year <= 9999
    ensures RepairClaim(Restated(c, deadline)).Leave?
            <==> var again := ParseDate(c.anchor, Some(deadline.year));
                 again.None? || Minus(again.value, c.count, c.business) == deadline
  {
    HumanDateReadsBack(deadline, None);
  }

  // What is counted back changes with the year lent exactly when the anchor does.
  lemma AnchorMoves(s: string, y: Option<int>, year: int, count: nat, business: bool)
    requires ParseDate(s, y).Some?
    ensures (var again := ParseDate(s, Some(year));
             again.None? || Minus(again.value, count, business) == Minus(ParseDate(s, y).value, count, business))
            <==> NamesItsYear(s) || y == Some(year) || ParseDate(s, Some(year)).None?
  {
    if NamesItsYear(s) {
      OwnYear(s, y, Some(year));
    } else if ParseDate(s, Some(year)).Some? && y != Some(year) {
      BorrowedApart(s, y, year, count, business);
    }
  }

  // An anchor that takes its year from elsewhere is another day under another year, and so is what
  // is counted back from it.
  lemma BorrowedApart(s: string, y: Option<int>, year: int, count: nat, business: bool)
    requires !NamesItsYear(s) && ParseDate(s, y).Some? && ParseDate(s, Some(year)).Some? && y != Some(year)
    ensures Minus(ParseDate(s, y).value, count, business) != Minus(ParseDate(s, Some(year)).value, count, business)
  {
    YearBorrowed(s, y);
    BorrowedYear(s, y.value, year);
    AnchorsApart(ParseDate(s, y).value, ParseDate(s, Some(year)).value, count, business);
  }

  lemma YearBorrowed(s: string, y: Option<int>)
    requires !NamesItsYear(s) && ParseDate(s, y).Some?
    ensures y.Some?
  {
  }

  lemma AnchorsApart(a: Date, b: Date, count: nat, business: bool)
    requires Valid(a) && Valid(b) && b == a.(year := b.year) && a.year != b.year
    ensures Minus(a, count, business) != Minus(b, count, business)
  {
    if a.year < b.year {
      SameDayApart(a, b);
      MinusSeparates(a, b, count, business);
    } else {
      SameDayApart(b, a);
      MinusSeparates(b, a, count, business);
    }
  }

  // A yearless anchor does cross: "15 January 2026 (21 days before 3 January)" becomes
  // "13 December 2025 (21 days before 3 January)", which a second pass does not leave alone.
  lemma YearlessAnchorCrosses()
    ensures var c := Claim(Some(HumanDate(Date(2026, 1, 15))), 21, false, Decimal(3) + " " + MonthName(1));
            && RepairClaim(c) == Restate(Date(2025, 12, 13))
            && !RepairClaim(Restated(c, Date(2025, 12, 13))).Leave?
  {
    var stated, anchor := Date(2026, 1, 15), Decimal(3) + " " + MonthName(1);
    HumanDateReadsBack(stated, None);
    ThirdOfJanuary(Some(2026));
    ThirdOfJanuary(Some(2025));
    ThreeWeeksBack(2026);
    CrossesBack(HumanDate(stated), anchor, stated, Date(2026, 1, 3), 21);
  }

  // What crosses a new year is restated, and the restated claim is repaired again.
  lemma CrossesBack(text: string, anchor: string, stated: Date, from: Date, count: nat)
    requires ParseDate(text, None) == Some(stated) && !NamesItsYear(anchor)
    requires ParseDate(anchor, Some(stated.year)) == Some(from)
    requires var deadline := MinusCalendar(from, count);
             && 1000 <= deadline.year <= 9999 && deadline != stated && deadline.year != stated.year
             && ParseDate(anchor, Some(deadline.year)).Some?
    ensures var c, deadline := Claim(Some(text), count, false, anchor), MinusCalendar(from, count);
            RepairClaim(c) == Restate(deadline) && !RepairClaim(Restated(c, deadline)).Leave?
  {
    StatedDay(text, from.year);
    RepairSettles(Claim(Some(text), count, false, anchor), from);
  }

  lemma ThreeWeeksBack(y: int)
    ensures MinusCalendar(Date(y, 1, 3), 21) == Date(y - 1, 12, 13)
  {
    MinusCalendarOrdinal(Date(y, 1, 3), 21);
    YearsAdjoin(y - 1);
    OrdinalInjective(MinusCalendar(Date(y, 1, 3), 21), Date(y - 1, 12, 13));
  }

  lemma ThirdOfJanuary(year: Option<int>)
    requires year.Some? ==> 1 <= year.value <= 9999
    ensures var anchor := Decimal(3) + " " + MonthName(1);
            && !NamesItsYear(anchor)
            && ParseDate(anchor, year) == if year.Some? then Some(Date(year.value, 1, 3)) else None
  {
    ReadYearless(Decimal(3), MonthName(1));
    ParseDecimal(3);
    MonthReadsBack(1, 1);
  }

  lemma ReadYearless(day: string, month: string)
    requires AllDigits(day) && 1 <= |day| <= 2
    requires month != "" && forall c :: c in month ==> IsLetter(c)
    ensures ReadDate(day + " " + month) == Some(Written(ParseNat(day), month, None))
  {
    var s := day + " " + month;
    YearlessSlices(day, month);
    DayEnds(s, day);
    NoSuffixAtSpace(s, |day|);
    MonthAtEnd(s, |day|, month);
    ReadDayMonth(s, |day|);
  }

  lemma ReadDayMonth(s: string, i: nat)
    requires i + 1 < |s| && 1 <= i <= 2
    requires SpaceEnd(s, 0) == 0 && DigitsEnd(s, 0) == i && !SuffixAt(s, i)
    requires SpaceEnd(s, i) == i + 1 && LettersEnd(s, i + 1) == |s| && SpaceEnd(s, |s|) == |s|
    ensures ReadDate(s) == Some(Written(ParseNat(s[0..i]), s[i + 1..|s|], None))
  {
  }

  lemma MonthAtEnd(s: string, i: nat, month: string)
    requires i + 1 < |s| && s[i] == ' ' && s[i + 1..|s|] == month && forall c :: c in month ==> IsLetter(c)
    ensures SpaceEnd(s, i) == i + 1 && LettersEnd(s, i + 1) == |s| && SpaceEnd(s, |s|) == |s|
  {
    forall k | i + 1 <= k < |s| ensures IsLetter(s[k]) {
      assert s[k] == month[k - i - 1];
    }
    SpaceEndAt(s, i, i + 1);
    LettersEndAt(s, i + 1, |s|);
    SpaceEndAt(s, |s|, |s|);
  }

  lemma YearlessSlices(day: string, month: string)
    ensures var s := day + " " + month;
            var i := |day|;
            |s| == i + 1 + |month| && s[0..i] == day && s[i] == ' ' && s[i + 1..|s|] == month
  {
  }

  // ----- a weekday in front of its date -----

  // What the weekday of a "<weekday> <date>" pair becomes; an unreadable date leaves it.
  function RepairWeekday(weekday: string, date: string): string {
    match ParseDate(date, None)
    case None => weekday
    case Some(d) =>
      var stated := WeekdayName(Weekday(d));
      if SameName(weekday, stated) then weekday else stated
  }

  // A repaired weekday is the day's own, and a second pass leaves it.
  lemma WeekdaySettles(weekday: string, date: string)
    ensures var r, read := RepairWeekday(weekday, date), ParseDate(date, None);
            && RepairWeekday(r, date) == r
            && (read.Some? ==> SameName(r, WeekdayName(Weekday(read.value))))
            && (read.None? || SameName(weekday, WeekdayName(Weekday(read.value))) ==> r == weekday)
  {
  }

  // A deadline printed with its weekday reads back as that very day.
  lemma WeekdayOfPrintedDate(weekday: string, d: Date)
    requires Valid(d) && 1000 <= d.year <= 9999
    ensures SameName(RepairWeekday(weekday, HumanDate(d)), WeekdayName(Weekday(d)))
  {
    HumanDateReadsBack(d, None);
  }
}
