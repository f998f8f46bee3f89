// The canonical text of the arguments of a proposed write (src/hrmosaic/core/canonical.py).
module Canonical {
  import opened Digits
  import opened Lists

  // A JSON value without floats. A dict is its entries in insertion order.
  datatype Json =
    | JNull
    | JBool(flag: bool)
    | JInt(number: int)
    | JText(text: string)
    | JList(items: seq<Json>)
    | JDict(entries: seq<Entry>)

  datatype Entry = Entry(key: string, value: Json)

  // No key twice, at any depth.
  predicate WellFormed(j: Json) {
    match j
    case JList(items) => forall v :: v in items ==> WellFormed(v)
    case JDict(entries) => DistinctKeys(entries) && forall e :: e in entries ==> WellFormed(e.value)
    case _ => true
  }

  predicate DistinctKeys(entries: seq<Entry>) {
    forall i, j :: 0 <= i < j < |entries| ==> entries[i].key != entries[j].key
  }

  // Equality of JSON values: a dict is its set of key/value pairs, in whatever order they were inserted.
  predicate Same(a: Json, b: Json)
    decreases a
  {
    match (a, b)
    case (JList(x), JList(y)) => |x| == |y| && forall i :: 0 <= i < |x| ==> Same(x[i], y[i])
    case (JDict(x), JDict(y)) => EachIn(x, y) && EachFrom(x, y)
    case _ => a == b
  }

  // Every entry of x has an equal one in y.
  predicate EachIn(x: seq<Entry>, y: seq<Entry>)
    decreases x
  {
    forall i :: 0 <= i < |x| ==> exists j :: 0 <= j < |y| && x[i].key == y[j].key && Same(x[i].value, y[j].value)
  }

  // Every entry of y has an equal one in x.
  predicate EachFrom(x: seq<Entry>, y: seq<Entry>)
    decreases x
  {
    forall j :: 0 <= j < |y| ==> exists i :: 0 <= i < |x| && x[i].key == y[j].key && Same(x[i].value, y[j].value)
  }

  // ----- sort_keys=True -----

  // Python compares strings by code point.
  predicate KeyLess(a: string, b: string) {
    b != "" && (a == "" || a[0] < b[0] || (a[0] == b[0] && KeyLess(a[1..], b[1..])))
  }

  function Insert(e: Entry, sorted: seq<Entry>): (r: seq<Entry>)
    ensures |r| == |sorted| + 1
    ensures forall x :: x in r <==> x == e || x in sorted
  {
    if sorted == [] then [e]
    else if KeyLess(sorted[0].key, e.key) then [sorted[0]] + Insert(e, sorted[1..])
    else [e] + sorted
  }

  function SortByKey(entries: seq<Entry>): (r: seq<Entry>)
    ensures |r| == |entries|
    ensures forall x :: x in r <==> x in entries
  {
    if entries == [] then [] else Insert(entries[0], SortByKey(entries[1..]))
  }

  // The value with the keys of every dict in it sorted.
  function Normal(j: Json): (r: Json)
    decreases j, 0
  {
    match j
    case JList(items) => JList(NormalItems(items))
    case JDict(entries) => JDict(SortByKey(NormalEntries(entries)))
    case _ => j
  }

  function NormalItems(items: seq<Json>): (r: seq<Json>)
    ensures |r| == |items| && forall i :: 0 <= i < |items| ==> r[i] == Normal(items[i])
    decreases items
  {
    if items == [] then [] else [Normal(items[0])] + NormalItems(items[1..])
  }

  function NormalEntries(entries: seq<Entry>): (r: seq<Entry>)
    ensures |r| == |entries|
    ensures forall i :: 0 <= i < |entries| ==> r[i] == Entry(entries[i].key, Normal(entries[i].value))
    decreases entries
  {
    if entries == [] then []
    else [Entry(entries[0].key, Normal(entries[0].value))] + NormalEntries(entries[1..])
  }

  // ----- json.dumps(..., separators=(",", ":"), ensure_ascii=False) -----

  function HexDigit(n: nat): char
    requires n < 16
  {
    if n < 10 then ('0' as int + n) as char else ('a' as int + n - 10) as char
  }

  function EscapeChar(c: char): string {
    if c == '"' then "\\\""
    else if c == '\\' then "\\\\"
    else if c == '\n' then "\\n"
    else if c == '\r' then "\\r"
    else if c == '\t' then "\\t"
    else if c as int == 12 then "\\f"
    else if c as int == 8 then "\\b"
    else if c as int < 32 then ['\\', 'u', '0', '0', HexDigit(c as int / 16), HexDigit(c as int % 16)]
    else [c]
  }

  function Escape(s: string): string {
    if s == "" then "" else EscapeChar(s[0]) + Escape(s[1..])
  }

  function Quote(s: string): string { "\"" + (Escape(s) + "\"") }

  function IntText(n: int): string { if n < 0 then "-" + Decimal(-n) else Decimal(n) }

  function Dump(j: Json): string
    decreases j, 0
  {
    match j
    case JNull => "null"
    case JBool(flag) => if flag then "true" else "false"
    case JInt(n) => IntText(n)
    case JText(s) => Quote(s)
    case JList(items) => "[" + (DumpItems(items) + "]")
    case JDict(entries) => "{" + (DumpEntries(entries) + "}")
  }

  function DumpItems(items: seq<Json>): string
    decreases items
  {
    if items == [] then ""
    else Dump(items[0]) + if |items| == 1 then "" else "," + DumpItems(items[1..])
  }

  function DumpEntries(entries: seq<Entry>): string
    decreases entries
  {
    if entries == [] then ""
    else
      Quote(entries[0].key) + (":" + (Dump(entries[0].value) +
      if |entries| == 1 then "" else "," + DumpEntries(entries[1..])))
  }

  // ----- canonical_arguments -----

  const TOKEN_ARGUMENT := "confirmation_token"

  function WithoutToken(arguments: seq<Entry>): (r: seq<Entry>)
    ensures forall e :: e in r <==> e in arguments && e.key != TOKEN_ARGUMENT
  {
    if arguments == [] then []
    else (if arguments[0].key == TOKEN_ARGUMENT then [] else [arguments[0]]) + WithoutToken(arguments[1..])
  }

  function CanonicalArguments(arguments: seq<Entry>): string {
    Dump(Normal(JDict(WithoutToken(arguments))))
  }

  // ----- sorting decides equality -----

  predicate StrictlySorted(entries: seq<Entry>) {
    forall i, j :: 0 <= i < j < |entries| ==> KeyLess(entries[i].key, entries[j].key)
  }

  lemma {:induction false} KeyLessIrreflexive(a: string)
    ensures !KeyLess(a, a)
  {
    if a != "" {
      KeyLessIrreflexive(a[1..]);
    }
  }

  lemma {:induction false} KeyLessTransitive(a: string, b: string, c: string)
    requires KeyLess(a, b) && KeyLess(b, c)
    ensures KeyLess(a, c)
  {
    if a != "" && a[0] == b[0] == c[0] {
      KeyLessTransitive(a[1..], b[1..], c[1..]);
    }
  }

  lemma {:induction false} KeyLessTotal(a: string, b: string)
    ensures KeyLess(a, b) || a == b || KeyLess(b, a)
  {
    if a != "" && b != "" && a[0] == b[0] {
      KeyLessTotal(a[1..], b[1..]);
      assert a == [a[0]] + a[1..] && b == [b[0]] + b[1..];
    }
  }

  lemma {:induction false} InsertSorts(e: Entry, sorted: seq<Entry>)
    requires StrictlySorted(sorted) && forall x :: x in sorted ==> x.key != e.key
    ensures StrictlySorted(Insert(e, sorted))
  {
    if sorted != [] {
      var rest := sorted[1..];
      if KeyLess(sorted[0].key, e.key) {
        InsertSorts(e, rest);
        var r := Insert(e, rest);
        forall j | 0 <= j < |r| ensures KeyLess(sorted[0].key, r[j].key) {
          assert r[j] in r;
        }
      } else {
        KeyLessTotal(sorted[0].key, e.key);
        assert sorted[0] in sorted;
        forall j | 0 <= j < |sorted| ensures KeyLess(e.key, sorted[j].key) {
          if j > 0 {
            KeyLessTransitive(e.key, sorted[0].key, sorted[j].key);
          }
        }
      }
    }
  }

  lemma {:induction false} SortSorts(entries: seq<Entry>)
    requires DistinctKeys(entries)
    ensures StrictlySorted(SortByKey(entries))
  {
    if entries != [] {
      SortSorts(entries[1..]);
      InsertSorts(entries[0], SortByKey(entries[1..]));
    }
  }

  // A strictly sorted list is determined by what is in it.
  lemma {:induction false} SortedIsUnique(a: seq<Entry>, b: seq<Entry>)
    requires StrictlySorted(a) && StrictlySorted(b) && forall x :: x in a <==> x in b
    ensures a == b
  {
    EmptyWith(a, b);
    EmptyWith(b, a);
    if a != [] {
      assert a[0] in a && b[0] in b;
      var j :| 0 <= j < |b| && b[j] == a[0];
      var i :| 0 <= i < |a| && a[i] == b[0];
      if j > 0 {
        if i > 0 {
          KeyLessTransitive(b[0].key, b[j].key, a[i].key);
        }
        KeyLessIrreflexive(b[0].key);
        assert false;
      }
      RestSame(a, b);
      SortedIsUnique(a[1..], b[1..]);
    }
  }

  lemma EmptyWith(a: seq<Entry>, b: seq<Entry>)
    requires forall x :: x in b ==> x in a
    ensures a == [] ==> b == []
  {
    if b != [] {
      assert b[0] in b;
    }
  }

  lemma RestSame(a: seq<Entry>, b: seq<Entry>)
    requires a != [] && b != [] && a[0] == b[0] && StrictlySorted(a) && StrictlySorted(b)
    requires forall x :: x in a <==> x in b
    ensures forall x :: x in a[1..] <==> x in b[1..]
  {
    KeyLessIrreflexive(a[0].key);
    var s, t := a[1..], b[1..];
    forall x ensures x in s <==> x in t {
      assert x in a <==> x == a[0] || x in s;
      assert x in b <==> x == b[0] || x in t;
      if x in s { var i :| 0 <= i < |s| && s[i] == x; assert a[i + 1] == x; }
      if x in t { var i :| 0 <= i < |t| && t[i] == x; assert b[i + 1] == x; }
    }
  }

  // Normal forms are equal exactly when the values are.
  lemma {:induction false} NormalDecides(a: Json, b: Json)
    requires WellFormed(a) && WellFormed(b)
    ensures Normal(a) == Normal(b) <==> Same(a, b)
    decreases a
  {
    match (a, b)
    case (JList(x), JList(y)) =>
      if |x| == |y| {
        forall i | 0 <= i < |x| ensures NormalItems(x)[i] == NormalItems(y)[i] <==> Same(x[i], y[i]) {
          NormalDecides(x[i], y[i]);
        }
      }
    case (JDict(x), JDict(y)) =>
      forall i, j | 0 <= i < |x| && 0 <= j < |y|
        ensures NormalEntries(x)[i] == NormalEntries(y)[j] <==> x[i].key == y[j].key && Same(x[i].value, y[j].value)
      {
        NormalDecides(x[i].value, y[j].value);
      }
      DictDecides(x, y);
    case _ =>
  }

  predicate Paired(x: seq<Entry>, y: seq<Entry>) {
    forall i, j :: 0 <= i < |x| && 0 <= j < |y| ==>
      (NormalEntries(x)[i] == NormalEntries(y)[j] <==> x[i].key == y[j].key && Same(x[i].value, y[j].value))
  }

  lemma DictDecides(x: seq<Entry>, y: seq<Entry>)
    requires DistinctKeys(x) && DistinctKeys(y) && Paired(x, y)
    ensures SortByKey(NormalEntries(x)) == SortByKey(NormalEntries(y)) <==> EachIn(x, y) && EachFrom(x, y)
  {
    SortDecides(NormalEntries(x), NormalEntries(y));
    AllFound(x, y);
    AllCame(x, y);
  }

  predicate AllIn(x: seq<Entry>, y: seq<Entry>) { forall i :: 0 <= i < |x| ==> x[i] in y }

  lemma AllFound(x: seq<Entry>, y: seq<Entry>)
    requires Paired(x, y)
    ensures AllIn(NormalEntries(x), NormalEntries(y)) <==> EachIn(x, y)
  {
    forall i | 0 <= i < |x|
      ensures NormalEntries(x)[i] in NormalEntries(y)
              <==> exists j :: 0 <= j < |y| && x[i].key == y[j].key && Same(x[i].value, y[j].value)
    {
      EntryFound(x, y, i);
    }
  }

  lemma AllCame(x: seq<Entry>, y: seq<Entry>)
    requires Paired(x, y)
    ensures AllIn(NormalEntries(y), NormalEntries(x)) <==> EachFrom(x, y)
  {
    forall j | 0 <= j < |y|
      ensures NormalEntries(y)[j] in NormalEntries(x)
              <==> exists i :: 0 <= i < |x| && x[i].key == y[j].key && Same(x[i].value, y[j].value)
    {
      EntryCame(x, y, j);
    }
  }

  lemma EntryFound(x: seq<Entry>, y: seq<Entry>, i: nat)
    requires Paired(x, y) && i < |x|
    ensures NormalEntries(x)[i] in NormalEntries(y)
            <==> exists j :: 0 <= j < |y| && x[i].key == y[j].key && Same(x[i].value, y[j].value)
  {
    var nx, ny := NormalEntries(x), NormalEntries(y);
    if nx[i] in ny {
      var j :| 0 <= j < |ny| && ny[j] == nx[i];
      assert x[i].key == y[j].key && Same(x[i].value, y[j].value);
    }
  }

  lemma EntryCame(x: seq<Entry>, y: seq<Entry>, j: nat)
    requires Paired(x, y) && j < |y|
    ensures NormalEntries(y)[j] in NormalEntries(x)
            <==> exists i :: 0 <= i < |x| && x[i].key == y[j].key && Same(x[i].value, y[j].value)
  {
    var nx, ny := NormalEntries(x), NormalEntries(y);
    if ny[j] in nx {
      var i :| 0 <= i < |nx| && nx[i] == ny[j];
      assert x[i].key == y[j].key && Same(x[i].value, y[j].value);
    }
  }

  // Two lists with distinct keys sort to the same list just when each holds the other's entries.
  lemma SortDecides(x: seq<Entry>, y: seq<Entry>)
    requires DistinctKeys(x) && DistinctKeys(y)
    ensures SortByKey(x) == SortByKey(y) <==> AllIn(x, y) && AllIn(y, x)
  {
    var sx, sy := SortByKey(x), SortByKey(y);
    if sx == sy {
      assert forall i :: 0 <= i < |x| ==> x[i] in sx;
      assert forall j :: 0 <= j < |y| ==> y[j] in sy;
    }
    if AllIn(x, y) && AllIn(y, x) {
      SortSorts(x);
      SortSorts(y);
      SortedIsUnique(sx, sy);
    }
  }

  // ----- the text can be read back in one way only -----

  // What may follow a value inside a document.
  predicate Closes(rest: string) { rest == "" || rest[0] == ',' || rest[0] == ']' || rest[0] == '}' }

  lemma EscapeCharUnambiguous(c: char, d: char, x: string, y: string)
    requires EscapeChar(c) + x == EscapeChar(d) + y
    ensures c == d && x == y
  {
    var s, t := EscapeChar(c) + x, EscapeChar(d) + y;
    assert s[0] == EscapeChar(c)[0] && t[0] == EscapeChar(d)[0];
    if |EscapeChar(c)| > 1 {
      assert s[1] == EscapeChar(c)[1] && t[1] == EscapeChar(d)[1];
      if EscapeChar(c)[1] == 'u' {
        assert s[4] == EscapeChar(c)[4] && t[4] == EscapeChar(d)[4];
        assert s[5] == EscapeChar(c)[5] && t[5] == EscapeChar(d)[5];
      }
    }
    assert s[|EscapeChar(c)|..] == x && t[|EscapeChar(d)|..] == y;
  }

  // No escaped character begins like the closing quote.
  lemma EscapeStops(s: string, x: string)
    ensures (Escape(s) + (['"'] + x))[0] == '"' <==> s == ""
    ensures s != "" ==> Escape(s) + (['"'] + x) == EscapeChar(s[0]) + (Escape(s[1..]) + (['"'] + x))
  {
    if s != "" {
      Associative(EscapeChar(s[0]), Escape(s[1..]), ['"'] + x);
      EscapeCharIsNoQuote(s[0]);
    }
  }

  lemma EscapeCharIsNoQuote(c: char)
    ensures EscapeChar(c) != "" && EscapeChar(c)[0] != '"'
  {
  }

  lemma {:induction false} EscapeUnambiguous(s: string, t: string, x: string, y: string)
    requires Escape(s) + (['"'] + x) == Escape(t) + (['"'] + y)
    ensures s == t && x == y
  {
    EscapeStops(s, x);
    EscapeStops(t, y);
    if s == "" {
      assert (Escape(s) + (['"'] + x))[1..] == x && (Escape(t) + (['"'] + y))[1..] == y;
    } else {
      EscapeCharUnambiguous(s[0], t[0], Escape(s[1..]) + (['"'] + x), Escape(t[1..]) + (['"'] + y));
      EscapeUnambiguous(s[1..], t[1..], x, y);
      assert s == [s[0]] + s[1..] && t == [t[0]] + t[1..];
    }
  }

  lemma QuoteUnambiguous(s: string, t: string, x: string, y: string)
    requires Quote(s) + x == Quote(t) + y
    ensures s == t && x == y
  {
    QuoteTail(s, x);
    QuoteTail(t, y);
    EscapeUnambiguous(s, t, x, y);
  }

  lemma QuoteTail(s: string, x: string)
    ensures (Quote(s) + x)[1..] == Escape(s) + (['"'] + x)
  {
  }

  lemma DecimalUnambiguous(m: nat, n: nat, x: string, y: string)
    requires Closes(x) && Closes(y) && Decimal(m) + x == Decimal(n) + y
    ensures m == n && x == y
  {
    var s, t := Decimal(m) + x, Decimal(n) + y;
    assert s[0..|Decimal(m)|] == Decimal(m) && t[0..|Decimal(n)|] == Decimal(n);
    DigitsEndAt(s, 0, |Decimal(m)|);
    DigitsEndAt(t, 0, |Decimal(n)|);
    ParseDecimal(m);
    ParseDecimal(n);
    assert s[|Decimal(m)|..] == x && t[|Decimal(n)|..] == y;
  }

  lemma IntSign(n: int, x: string)
    ensures (IntText(n) + x)[0] == '-' <==> n < 0
    ensures n < 0 ==> (IntText(n) + x)[1..] == Decimal(-n) + x
  {
    if n >= 0 {
      assert (IntText(n) + x)[0] == Decimal(n)[0] && IsDigit(Decimal(n)[0]);
    }
  }

  lemma IntUnambiguous(m: int, n: int, x: string, y: string)
    requires Closes(x) && Closes(y) && IntText(m) + x == IntText(n) + y
    ensures m == n && x == y
  {
    IntSign(m, x);
    IntSign(n, y);
    if m < 0 {
      DecimalUnambiguous(-m, -n, x, y);
    } else {
      DecimalUnambiguous(m, n, x, y);
    }
  }

  // The first character of a value tells its kind, and is none of the characters that may follow one.
  function Lead(j: Json): char {
    match j
    case JNull => 'n'
    case JBool(flag) => if flag then 't' else 'f'
    case JInt(n) => if n < 0 then '-' else '0'
    case JText(_) => '"'
    case JList(_) => '['
    case JDict(_) => '{'
  }

  lemma DumpLeads(j: Json, x: string)
    ensures Dump(j) != ""
    ensures var c := (Dump(j) + x)[0]; (if IsDigit(c) then '0' else c) == Lead(j)
  {
    if j.JInt? {
      IntSign(j.number, x);
      assert (IntText(j.number) + x)[0] == IntText(j.number)[0];
    } else {
      assert (Dump(j) + x)[0] == Dump(j)[0];
    }
  }

  // What is left of a list, or of a dict, after its first element, closing bracket included.
  function ItemsRest(items: seq<Json>, x: string): string
    requires items != []
  {
    if |items| == 1 then [']'] + x else [','] + (DumpItems(items[1..]) + ([']'] + x))
  }

  function EntriesRest(entries: seq<Entry>, x: string): string
    requires entries != []
  {
    if |entries| == 1 then ['}'] + x else [','] + (DumpEntries(entries[1..]) + (['}'] + x))
  }

  lemma ItemsShape(items: seq<Json>, x: string)
    ensures items == [] ==> DumpItems(items) + ([']'] + x) == [']'] + x
    ensures items != [] ==> DumpItems(items) + ([']'] + x) == Dump(items[0]) + ItemsRest(items, x)
    ensures (DumpItems(items) + ([']'] + x))[0] == ']' <==> items == []
  {
    if items != [] {
      var first, tail := Dump(items[0]), if |items| == 1 then "" else "," + DumpItems(items[1..]);
      Associative(first, tail, [']'] + x);
      ItemsTailText(items, tail, x);
      DumpLeads(items[0], ItemsRest(items, x));
    }
  }

  lemma ItemsTailText(items: seq<Json>, tail: string, x: string)
    requires items != [] && tail == if |items| == 1 then "" else "," + DumpItems(items[1..])
    ensures tail + ([']'] + x) == ItemsRest(items, x)
  {
  }

  lemma EntriesShape(entries: seq<Entry>, x: string)
    ensures entries == [] ==> DumpEntries(entries) + (['}'] + x) == ['}'] + x
    ensures entries != [] ==>
              DumpEntries(entries) + (['}'] + x)
              == Quote(entries[0].key) + ([':'] + (Dump(entries[0].value) + EntriesRest(entries, x)))
    ensures (DumpEntries(entries) + (['}'] + x))[0] == '}' <==> entries == []
  {
    if entries != [] {
      var key, value := Quote(entries[0].key), Dump(entries[0].value);
      var tail := if |entries| == 1 then "" else "," + DumpEntries(entries[1..]);
      Associative(key, ":" + (value + tail), ['}'] + x);
      Associative(":", value + tail, ['}'] + x);
      Associative(value, tail, ['}'] + x);
      EntriesTailText(entries, tail, x);
    }
  }

  lemma EntriesTailText(entries: seq<Entry>, tail: string, x: string)
    requires entries != [] && tail == if |entries| == 1 then "" else "," + DumpEntries(entries[1..])
    ensures tail + (['}'] + x) == EntriesRest(entries, x)
  {
  }

  lemma Cancel(p: string, x: string, y: string)
    requires p + x == p + y
    ensures x == y
  {
    assert (p + x)[|p|..] == x && (p + y)[|p|..] == y;
  }

  lemma Bracketed(open: char, body: string, close: char, x: string)
    ensures ([open] + (body + [close])) + x == [open] + (body + ([close] + x))
  {
  }

  // An unambiguous parse: a value followed by a comma, a closing bracket or nothing can be read in
  // only one way, and so can what follows it.
  lemma {:induction false} DumpUnambiguous(a: Json, b: Json, x: string, y: string)
    requires Closes(x) && Closes(y) && Dump(a) + x == Dump(b) + y
    ensures a == b && x == y
    decreases a, 1
  {
    DumpLeads(a, x);
    DumpLeads(b, y);
    assert Lead(a) == Lead(b);
    match a {
      case JNull => Cancel("null", x, y);
      case JBool(flag) => Cancel(Dump(a), x, y);
      case JInt(n) => IntUnambiguous(n, b.number, x, y);
      case JText(s) => QuoteUnambiguous(s, b.text, x, y);
      case JList(items) =>
        Bracketed('[', DumpItems(items), ']', x);
        Bracketed('[', DumpItems(b.items), ']', y);
        Cancel("[", DumpItems(items) + ([']'] + x), DumpItems(b.items) + ([']'] + y));
        ItemsUnambiguous(items, b.items, x, y);
      case JDict(entries) =>
        Bracketed('{', DumpEntries(entries), '}', x);
        Bracketed('{', DumpEntries(b.entries), '}', y);
        Cancel("{", DumpEntries(entries) + (['}'] + x), DumpEntries(b.entries) + (['}'] + y));
        EntriesUnambiguous(entries, b.entries, x, y);
    }
  }

  lemma {:induction false} ItemsUnambiguous(a: seq<Json>, b: seq<Json>, x: string, y: string)
    requires DumpItems(a) + ([']'] + x) == DumpItems(b) + ([']'] + y)
    ensures a == b && x == y
    decreases a, 0
  {
    ItemsShape(a, x);
    ItemsShape(b, y);
    if a == [] {
      assert ([']'] + x)[1..] == x && ([']'] + y)[1..] == y;
    } else {
      DumpUnambiguous(a[0], b[0], ItemsRest(a, x), ItemsRest(b, y));
      ItemsTail(a, b, x, y);
    }
  }

  lemma {:induction false} ItemsTail(a: seq<Json>, b: seq<Json>, x: string, y: string)
    requires a != [] && b != [] && a[0] == b[0] && ItemsRest(a, x) == ItemsRest(b, y)
    ensures a == b && x == y
    decreases a, 0, 0
  {
    ItemsRestShape(a, x);
    ItemsRestShape(b, y);
    if |a| > 1 {
      ItemsUnambiguous(a[1..], b[1..], x, y);
    }
    HeadThenTail(a, b);
  }

  lemma ItemsRestShape(items: seq<Json>, x: string)
    requires items != []
    ensures var r := ItemsRest(items, x);
            && r != [] && (r[0] == ']' <==> |items| == 1)
            && r[1..] == if |items| == 1 then x else DumpItems(items[1..]) + ([']'] + x)
  {
  }

  lemma HeadThenTail<T>(a: seq<T>, b: seq<T>)
    requires a != [] && b != [] && a[0] == b[0] && (if |a| == 1 then |b| == 1 else a[1..] == b[1..])
    ensures a == b
  {
    assert a == [a[0]] + a[1..] && b == [b[0]] + b[1..];
  }

  lemma {:induction false} EntriesUnambiguous(a: seq<Entry>, b: seq<Entry>, x: string, y: string)
    requires DumpEntries(a) + (['}'] + x) == DumpEntries(b) + (['}'] + y)
    ensures a == b && x == y
    decreases a, 0
  {
    EntriesShape(a, x);
    EntriesShape(b, y);
    if a == [] {
      assert (['}'] + x)[1..] == x && (['}'] + y)[1..] == y;
    } else {
      var va, vb := Dump(a[0].value) + EntriesRest(a, x), Dump(b[0].value) + EntriesRest(b, y);
      QuoteUnambiguous(a[0].key, b[0].key, [':'] + va, [':'] + vb);
      assert ([':'] + va)[1..] == va && ([':'] + vb)[1..] == vb;
      DumpUnambiguous(a[0].value, b[0].value, EntriesRest(a, x), EntriesRest(b, y));
      EntriesTail(a, b, x, y);
    }
  }

  lemma {:induction false} EntriesTail(a: seq<Entry>, b: seq<Entry>, x: string, y: string)
    requires a != [] && b != [] && a[0] == b[0] && EntriesRest(a, x) == EntriesRest(b, y)
    ensures a == b && x == y
    decreases a, 0, 0
  {
    var ra, rb := EntriesRest(a, x), EntriesRest(b, y);
    assert ra[0] == rb[0] && ra[1..] == rb[1..];
    if |a| == 1 {
      assert ra[1..] == x && rb[1..] == y;
    } else {
      assert ra[1..] == DumpEntries(a[1..]) + (['}'] + x);
      assert rb[1..] == DumpEntries(b[1..]) + (['}'] + y);
      EntriesUnambiguous(a[1..], b[1..], x, y);
    }
    assert a == [a[0]] + a[1..] && b == [b[0]] + b[1..];
  }

  // Canonical serialisation is exact: equal bytes exactly when the argument sets are equal, once the
  // token is out, whatever the order in which any dict in them was built.
  lemma CanonicalIsExact(a: seq<Entry>, b: seq<Entry>)
    requires WellFormed(JDict(a)) && WellFormed(JDict(b))
    ensures CanonicalArguments(a) == CanonicalArguments(b)
            <==> Same(JDict(WithoutToken(a)), JDict(WithoutToken(b)))
  {
    WithoutTokenWellFormed(a);
    WithoutTokenWellFormed(b);
    NormalDecides(JDict(WithoutToken(a)), JDict(WithoutToken(b)));
    var na, nb := Normal(JDict(WithoutToken(a))), Normal(JDict(WithoutToken(b)));
    if CanonicalArguments(a) == CanonicalArguments(b) {
      assert Dump(na) + "" == Dump(na) && Dump(nb) + "" == Dump(nb);
      DumpUnambiguous(na, nb, "", "");
    }
  }

  lemma {:induction false} WithoutTokenWellFormed(arguments: seq<Entry>)
    requires WellFormed(JDict(arguments))
    ensures WellFormed(JDict(WithoutToken(arguments)))
  {
    if arguments != [] {
      var rest := arguments[1..];
      assert DistinctKeys(rest);
      WithoutTokenWellFormed(rest);
      assert forall e :: e in WithoutToken(rest) ==> e in rest && e.key != arguments[0].key;
    }
  }
}
