// What a compliance verdict gives the restatement step: its rows, its steps, and the row a step
// restates (src/hrmosaic/agent/compliance.py).
module ComplianceRows {
  import opened Blocks
  import opened Lists

  // ----- the engine's rows and steps -----

  datatype Status = Met | Unmet | NotStated

  // One evaluated requirement; `chunk` is "" where its evidence did not resolve.
  datatype Row = Row(id: string, text: string, status: Status, caption: string, blocking: bool, chunk: string)

  // The requirements and steps of one envelope's body; an entry that is not a requirement with an id,
  // or not a string, is None. A body that does not parse has neither.
  datatype Verdict = Verdict(requirements: seq<Option<Row>>, steps: seq<Option<string>>)

  function Present<T>(xs: seq<Option<T>>): seq<T> {
    if xs == [] then [] else (if xs[0].Some? then [xs[0].value] else []) + Present(xs[1..])
  }

  function StepsOf(verdicts: seq<Verdict>): seq<string> {
    if verdicts == [] then [] else Present(verdicts[0].steps) + StepsOf(verdicts[1..])
  }

  function RowsOf(verdicts: seq<Verdict>): seq<Row> {
    if verdicts == [] then [] else Present(verdicts[0].requirements) + RowsOf(verdicts[1..])
  }

  // The engine's own next steps, each said once.
  method EngineSteps(verdicts: seq<Verdict>) returns (steps: seq<string>)
    ensures steps == Distinct(StepsOf(verdicts))
  {
    var all: seq<string> := [];
    for i := 0 to |verdicts|
      invariant all + StepsOf(verdicts[i..]) == StepsOf(verdicts)
    {
      var rest := verdicts[i..];
      assert rest[0] == verdicts[i] && rest[1..] == verdicts[i + 1..];
      all := all + Present(verdicts[i].steps);
    }
    assert all == all + StepsOf([]);
    return Distinct(all);
  }

  // found[row.id] = row: a dict keeps the place of a key it already has.
  function Upsert(found: seq<Row>, row: Row): (r: seq<Row>)
    decreases |found|
  {
    if found == [] then [row]
    else if found[0].id == row.id then [row] + found[1..]
    else [found[0]] + Upsert(found[1..], row)
  }

  function Upserted(found: seq<Row>, rows: seq<Row>): seq<Row>
    decreases |rows|
  {
    if rows == [] then found else Upserted(Upsert(found, rows[0]), rows[1..])
  }

  predicate OneRowPerId(rows: seq<Row>) { forall i, j :: 0 <= i < j < |rows| ==> rows[i].id != rows[j].id }

  predicate HasId(rows: seq<Row>, id: string) { exists i :: 0 <= i < |rows| && rows[i].id == id }

  // The row is the last one of its id.
  ghost predicate IsLatest(rows: seq<Row>, row: Row) {
    exists k :: 0 <= k < |rows| && rows[k] == row && !HasId(rows[k + 1..], row.id)
  }

  lemma {:induction false} UpsertReplaces(found: seq<Row>, row: Row)
    requires OneRowPerId(found)
    ensures var r := Upsert(found, row);
            OneRowPerId(r) && forall x :: x in r <==> x == row || (x in found && x.id != row.id)
  {
    if found != [] {
      var rest := found[1..];
      assert forall x :: x in found <==> x == found[0] || x in rest;
      assert forall x :: x in rest ==> x.id != found[0].id;
      if found[0].id != row.id {
        UpsertReplaces(rest, row);
        var r := Upsert(rest, row);
        assert forall i :: 0 <= i < |r| ==> r[i] in r;
      }
    }
  }

  lemma LatestStep(rows: seq<Row>, x: Row)
    requires rows != []
    ensures IsLatest(rows, x) <==> IsLatest(rows[1..], x) || (x == rows[0] && !HasId(rows[1..], x.id))
    ensures HasId(rows, x.id) <==> rows[0].id == x.id || HasId(rows[1..], x.id)
  {
    var rest := rows[1..];
    forall k | 0 <= k < |rest| ensures rest[k + 1..] == rows[k + 2..] && rest[k] == rows[k + 1] {
    }
    if k :| 0 <= k < |rest| && rest[k] == x && !HasId(rest[k + 1..], x.id) {
      assert rows[k + 1] == x && !HasId(rows[k + 1 + 1..], x.id);
    }
    if k :| 0 <= k < |rows| && rows[k] == x && !HasId(rows[k + 1..], x.id) {
      assert k > 0 ==> rest[k - 1] == x && !HasId(rest[k - 1 + 1..], x.id);
    }
    if k :| 0 <= k < |rest| && rest[k].id == x.id {
      assert rows[k + 1].id == x.id;
    }
  }

  lemma {:induction false} UpsertedKeepsLatest(found: seq<Row>, rows: seq<Row>)
    requires OneRowPerId(found)
    ensures var r := Upserted(found, rows);
            OneRowPerId(r) && forall x :: x in r <==> IsLatest(rows, x) || (x in found && !HasId(rows, x.id))
    decreases |rows|
  {
    if rows != [] {
      UpsertReplaces(found, rows[0]);
      UpsertedKeepsLatest(Upsert(found, rows[0]), rows[1..]);
      forall x
        ensures IsLatest(rows, x) <==> IsLatest(rows[1..], x) || (x == rows[0] && !HasId(rows[1..], x.id))
        ensures HasId(rows, x.id) <==> rows[0].id == x.id || HasId(rows[1..], x.id)
      {
        LatestStep(rows, x);
      }
    }
  }

  function RowIds(rows: seq<Row>): (ids: seq<string>)
    ensures |ids| == |rows| && forall i :: 0 <= i < |rows| ==> ids[i] == rows[i].id
  {
    seq(|rows|, i requires 0 <= i < |rows| => rows[i].id)
  }

  lemma {:induction false} UpsertInPlace(found: seq<Row>, row: Row)
    ensures RowIds(Upsert(found, row))
            == if row.id in RowIds(found) then RowIds(found) else RowIds(found) + [row.id]
  {
    if found != [] {
      assert RowIds(found) == [found[0].id] + RowIds(found[1..]);
      if found[0].id != row.id {
        UpsertInPlace(found[1..], row);
        assert RowIds(Upsert(found, row)) == [found[0].id] + RowIds(Upsert(found[1..], row));
      }
    }
  }

  lemma {:induction false} UpsertedSnoc(found: seq<Row>, rows: seq<Row>)
    requires rows != []
    ensures var n := |rows| - 1; Upserted(found, rows) == Upsert(Upserted(found, rows[..n]), rows[n])
    decreases |rows|
  {
    if |rows| > 1 {
      assert rows[1..][..|rows| - 2] == rows[..|rows| - 1][1..];
      UpsertedSnoc(Upsert(found, rows[0]), rows[1..]);
    }
  }

  // Each row has the place in which its id came up first.
  lemma {:induction false} UpsertedInPlace(rows: seq<Row>)
    ensures RowIds(Upserted([], rows)) == Distinct(RowIds(rows))
  {
    if rows != [] {
      var n := |rows| - 1;
      UpsertedInPlace(rows[..n]);
      UpsertedSnoc([], rows);
      UpsertInPlace(Upserted([], rows[..n]), rows[n]);
      assert RowIds(rows)[..n] == RowIds(rows[..n]);
    }
  }

  // The verdicts are read in their order.
  lemma {:induction false} ReadInOrder(a: seq<Verdict>, b: seq<Verdict>)
    ensures StepsOf(a + b) == StepsOf(a) + StepsOf(b) && RowsOf(a + b) == RowsOf(a) + RowsOf(b)
  {
    if a == [] {
      assert a + b == b;
    } else {
      assert (a + b)[1..] == a[1..] + b;
      ReadInOrder(a[1..], b);
    }
  }

  // Every requirement the turn evaluated, one row each: the latest verdict on it, in the place in which
  // the requirement came up first.
  method EngineRows(verdicts: seq<Verdict>) returns (found: seq<Row>)
    ensures OneRowPerId(found) && forall x :: x in found <==> IsLatest(RowsOf(verdicts), x)
    ensures RowIds(found) == Distinct(RowIds(RowsOf(verdicts)))
  {
    found := [];
    for i := 0 to |verdicts|
      invariant Upserted(found, RowsOf(verdicts[i..])) == Upserted([], RowsOf(verdicts))
    {
      var rest := verdicts[i..];
      assert rest[0] == verdicts[i] && rest[1..] == verdicts[i + 1..];
      var requirements := verdicts[i].requirements;
      ghost var later := RowsOf(verdicts[i + 1..]);
      assert requirements[0..] == requirements;
      for k := 0 to |requirements|
        invariant Upserted(found, Present(requirements[k..]) + later) == Upserted([], RowsOf(verdicts))
      {
        PresentStep(requirements, k, later);
        if requirements[k].Some? {
          found := Upsert(found, requirements[k].value);
        }
      }
      assert Present(requirements[|requirements|..]) + later == later;
    }
    UpsertedKeepsLatest([], RowsOf(verdicts));
    UpsertedInPlace(RowsOf(verdicts));
  }

  lemma PresentStep(xs: seq<Option<Row>>, k: nat, later: seq<Row>)
    requires k < |xs|
    ensures var all, rest := Present(xs[k..]) + later, Present(xs[k + 1..]) + later;
            if xs[k].Some? then all != [] && all[0] == xs[k].value && all[1..] == rest else all == rest
  {
    assert xs[k..][0] == xs[k] && xs[k..][1..] == xs[k + 1..];
  }

  // ----- the row a step restates -----

  const MIN_STEP_OVERLAP := 3

  // How many claim-carrying words a step shares with a row.
  type Overlap = Row -> nat

  function Supporting(rows: seq<Row>): seq<Row> {
    if rows == [] then []
    else (if rows[0].chunk != "" then [rows[0]] else []) + Supporting(rows[1..])
  }

  // sorted(..., reverse=True): highest first, and rows of one score in their own order.
  function InsertByScore(score: Overlap, row: Row, sorted: seq<Row>): (r: seq<Row>)
    ensures |r| == |sorted| + 1
  {
    if sorted == [] then [row]
    else if score(sorted[0]) > score(row) then [sorted[0]] + InsertByScore(score, row, sorted[1..])
    else [row] + sorted
  }

  function SortByScore(score: Overlap, rows: seq<Row>): (r: seq<Row>)
    ensures |r| == |rows|
  {
    if rows == [] then [] else InsertByScore(score, rows[0], SortByScore(score, rows[1..]))
  }

  function SupportingRow(score: Overlap, rows: seq<Row>): Option<Row> {
    var scored := SortByScore(score, Supporting(rows));
    if scored == [] || score(scored[0]) < MIN_STEP_OVERLAP then None
    else if |scored| > 1 && score(scored[1]) == score(scored[0]) then None
    else Some(scored[0])
  }

  // The one row with evidence that shares more words than any other, and enough of them.
  ghost predicate UniquelyBest(score: Overlap, rows: seq<Row>, i: nat)
    requires i < |rows|
  {
    && rows[i].chunk != "" && score(rows[i]) >= 3
    && forall j :: 0 <= j < |rows| && j != i && rows[j].chunk != "" ==> score(rows[j]) < score(rows[i])
  }

  // What the two first places of a sorted list say about the list.
  ghost predicate Leads(score: Overlap, sorted: seq<Row>, rows: seq<Row>) {
    && (sorted == [] <==> rows == [])
    && (sorted != [] ==>
          && (forall j :: 0 <= j < |rows| ==> score(rows[j]) <= score(sorted[0]))
          && (|sorted| > 1 ==> score(sorted[1]) <= score(sorted[0]))
          && exists i :: 0 <= i < |rows| && rows[i] == sorted[0] && (Alone(score, rows, i) <==> !Tied(score, sorted)))
  }

  predicate Tied(score: Overlap, sorted: seq<Row>) { |sorted| > 1 && score(sorted[1]) == score(sorted[0]) }

  predicate Alone(score: Overlap, rows: seq<Row>, i: nat)
    requires i < |rows|
  {
    forall j :: 0 <= j < |rows| && j != i ==> score(rows[j]) < score(rows[i])
  }

  lemma {:induction false} SortedLeads(score: Overlap, rows: seq<Row>)
    ensures Leads(score, SortByScore(score, rows), rows)
  {
    if rows != [] {
      var rest := rows[1..];
      SortedLeads(score, rest);
      InsertLeads(score, rows, SortByScore(score, rest));
    }
  }

  lemma InsertLeads(score: Overlap, rows: seq<Row>, sorted: seq<Row>)
    requires rows != [] && Leads(score, sorted, rows[1..])
    ensures Leads(score, InsertByScore(score, rows[0], sorted), rows)
  {
    var row, rest := rows[0], rows[1..];
    assert forall j :: 0 < j < |rows| ==> rows[j] == rest[j - 1];
    if sorted == [] {
      assert Alone(score, rows, 0);
    } else {
      var i :| 0 <= i < |rest| && rest[i] == sorted[0] && (Alone(score, rest, i) <==> !Tied(score, sorted));
      if score(sorted[0]) > score(row) {
        LaterIsAlone(score, rows, i);
        assert rows[i + 1] == sorted[0];
      } else {
        assert rows[0] == row && rows[i + 1] == sorted[0];
        assert Alone(score, rows, 0) <==> score(sorted[0]) < score(row);
      }
    }
  }

  lemma LaterIsAlone(score: Overlap, rows: seq<Row>, i: nat)
    requires i + 1 < |rows| && score(rows[0]) < score(rows[i + 1])
    ensures Alone(score, rows, i + 1) <==> Alone(score, rows[1..], i)
  {
    var rest := rows[1..];
    assert forall j :: 0 < j < |rows| ==> rows[j] == rest[j - 1];
    if Alone(score, rows, i + 1) {
      forall j | 0 <= j < |rest| && j != i ensures score(rest[j]) < score(rest[i]) {
        assert rest[j] == rows[j + 1];
      }
    }
  }

  lemma SupportedRows(rows: seq<Row>)
    ensures forall x :: x in Supporting(rows) <==> x in rows && x.chunk != ""
  {
  }

  // Being alone at the top among the rows with evidence, said of the whole list.
  lemma {:induction false} AloneAmongSupporting(score: Overlap, rows: seq<Row>, i: nat)
    requires i < |Supporting(rows)|
    ensures exists k :: (0 <= k < |rows| && rows[k] == Supporting(rows)[i] && rows[k].chunk != ""
      && (Alone(score, Supporting(rows), i) <==> AheadOfEvidence(score, rows, k)))
  {
    var rest, all := rows[1..], Supporting(rows);
    assert forall j :: 0 < j < |rows| ==> rows[j] == rest[j - 1];
    if rows[0].chunk == "" {
      assert all == Supporting(rest);
      AloneAmongSupporting(score, rest, i);
      var k :| 0 <= k < |rest| && rest[k] == all[i] && (Alone(score, all, i) <==> AheadOfEvidence(score, rest, k));
      AheadLater(score, rows, k);
    } else {
      assert all[1..] == Supporting(rest);
      if i == 0 {
        FirstAlone(score, rows);
      } else {
        AloneAmongSupporting(score, rest, i - 1);
        var k :| 0 <= k < |rest| && rest[k] == all[1..][i - 1]
                 && (Alone(score, all[1..], i - 1) <==> AheadOfEvidence(score, rest, k));
        AheadLater(score, rows, k);
        AloneLater(score, all, i);
      }
    }
  }

  predicate AheadOfEvidence(score: Overlap, rows: seq<Row>, k: nat)
    requires k < |rows|
  {
    forall j :: 0 <= j < |rows| && j != k && rows[j].chunk != "" ==> score(rows[j]) < score(rows[k])
  }

  lemma AheadLater(score: Overlap, rows: seq<Row>, k: nat)
    requires k + 1 < |rows|
    ensures AheadOfEvidence(score, rows, k + 1)
            <==> AheadOfEvidence(score, rows[1..], k) && (rows[0].chunk != "" ==> score(rows[0]) < score(rows[k + 1]))
  {
    var rest := rows[1..];
    assert forall j :: 0 < j < |rows| ==> rows[j] == rest[j - 1];
    forall j | 0 <= j < |rest| ensures rest[j] == rows[j + 1] {
    }
  }

  lemma AloneLater(score: Overlap, all: seq<Row>, i: nat)
    requires 0 < i < |all|
    ensures Alone(score, all, i) <==> Alone(score, all[1..], i - 1) && score(all[0]) < score(all[i])
  {
    var rest := all[1..];
    assert forall j :: 0 < j < |all| ==> all[j] == rest[j - 1];
    forall j | 0 <= j < |rest| ensures rest[j] == all[j + 1] {
    }
  }

  lemma FirstAlone(score: Overlap, rows: seq<Row>)
    requires rows != [] && rows[0].chunk != ""
    ensures Supporting(rows)[0] == rows[0] && (Alone(score, Supporting(rows), 0) <==> AheadOfEvidence(score, rows, 0))
  {
    var rest, all := rows[1..], Supporting(rows);
    assert all[1..] == Supporting(rest);
    SupportedRows(rest);
    if Alone(score, all, 0) {
      forall j | 0 < j < |rows| && rows[j].chunk != "" ensures score(rows[j]) < score(rows[0]) {
        assert rows[j] == rest[j - 1] && rows[j] in Supporting(rest);
        var m :| 0 <= m < |Supporting(rest)| && Supporting(rest)[m] == rows[j];
        assert all[m + 1] == rows[j];
      }
    }
    if AheadOfEvidence(score, rows, 0) {
      forall j | 0 < j < |all| ensures score(all[j]) < score(all[0]) {
        assert all[j] == Supporting(rest)[j - 1] && all[j] in Supporting(rest);
        var m :| 0 <= m < |rest| && rest[m] == all[j];
        assert rows[m + 1] == all[j];
      }
    }
  }

  // A step is placed exactly when one row with evidence shares more of its words than any other such
  // row, and at least three; that row is then the answer.
  lemma SupportsExactly(score: Overlap, rows: seq<Row>, row: Row)
    ensures SupportingRow(score, rows) == Some(row)
            <==> exists i :: 0 <= i < |rows| && rows[i] == row && UniquelyBest(score, rows, i)
  {
    var s := Supporting(rows);
    SupportedRows(rows);
    SortedLeads(score, s);
    if s != [] {
      var sorted := SortByScore(score, s);
      var i :| 0 <= i < |s| && s[i] == sorted[0] && (Alone(score, s, i) <==> !Tied(score, sorted));
      AloneAmongSupporting(score, rows, i);
      var k :| 0 <= k < |rows| && rows[k] == s[i] && rows[k].chunk != ""
               && (Alone(score, s, i) <==> AheadOfEvidence(score, rows, k));
      if b :| 0 <= b < |rows| && rows[b] == row && UniquelyBest(score, rows, b) {
        BestIsTop(score, rows, b, k);
      }
      assert SupportingRow(score, rows) == Some(rows[k]) ==> UniquelyBest(score, rows, k);
    } else {
      assert forall x :: x in rows ==> x.chunk == "" || x in s;
    }
  }

  lemma BestIsTop(score: Overlap, rows: seq<Row>, b: nat, k: nat)
    requires b < |rows| && k < |rows| && UniquelyBest(score, rows, b) && rows[k].chunk != ""
    requires forall j :: 0 <= j < |Supporting(rows)| ==> score(Supporting(rows)[j]) <= score(rows[k])
    ensures b == k && AheadOfEvidence(score, rows, k)
  {
    SupportedRows(rows);
    assert rows[b] in Supporting(rows);
    assert score(rows[b]) <= score(rows[k]);
  }

  lemma TwiceInSequence<T>(s: seq<T>, i: nat, j: nat)
    requires i < j < |s| && s[i] == s[j]
    ensures multiset(s)[s[i]] >= 2
  {
    var front, back := s[..j], s[j..];
    assert s == front + back && front[i] == s[i] && back[0] == s[i];
    assert s[i] in multiset(front) && s[i] in multiset(back);
  }

  lemma {:induction false} TwoPlaces<T>(s: seq<T>, x: T) returns (i: nat, j: nat)
    requires multiset(s)[x] >= 2
    ensures i < j < |s| && s[i] == s[j] == x
  {
    assert s == [s[0]] + s[1..];
    if s[0] == x {
      assert x in s[1..] by {
        assert multiset(s[1..])[x] >= 1;
      }
      i := 0;
      var k :| 0 <= k < |s[1..]| && s[1..][k] == x;
      j := k + 1;
    } else {
      i, j := TwoPlaces(s[1..], x);
      i, j := i + 1, j + 1;
    }
  }

  lemma BestAnywhere(score: Overlap, a: seq<Row>, b: seq<Row>, i: nat)
    requires multiset(a) == multiset(b) && i < |a| && UniquelyBest(score, a, i)
    ensures exists k :: 0 <= k < |b| && b[k] == a[i] && UniquelyBest(score, b, k)
  {
    assert a[i] in multiset(b);
    var k :| 0 <= k < |b| && b[k] == a[i];
    forall j | 0 <= j < |b| && j != k && b[j].chunk != "" ensures score(b[j]) < score(b[k]) {
      assert b[j] in multiset(a);
      var m :| 0 <= m < |a| && a[m] == b[j];
      if m == i {
        TwiceInSequence(b, if j < k then j else k, if j < k then k else j);
        var p, q := TwoPlaces(a, a[i]);
      }
    }
    assert UniquelyBest(score, b, k);
  }

  // The answer does not depend on the order the engine reports its rows in.
  lemma SupportIgnoresOrder(score: Overlap, a: seq<Row>, b: seq<Row>)
    requires multiset(a) == multiset(b)
    ensures SupportingRow(score, a) == SupportingRow(score, b)
  {
    if SupportingRow(score, a).Some? {
      SupportSame(score, a, b);
    } else if SupportingRow(score, b).Some? {
      SupportSame(score, b, a);
    }
  }

  lemma SupportSame(score: Overlap, a: seq<Row>, b: seq<Row>)
    requires multiset(a) == multiset(b) && SupportingRow(score, a).Some?
    ensures SupportingRow(score, a) == SupportingRow(score, b)
  {
    var row := SupportingRow(score, a).value;
    SupportsExactly(score, a, row);
    var i :| 0 <= i < |a| && a[i] == row && UniquelyBest(score, a, i);
    BestAnywhere(score, a, b, i);
    SupportsExactly(score, b, row);
  }

  // ----- the unverified rows -----

  // The unverified rows of one class, in the engine's order.
  function Unchecked(rows: seq<Row>, blocking: bool): seq<Row> {
    if rows == [] then []
    else
      var said := if rows[0].status.NotStated? && rows[0].blocking == blocking then [rows[0]] else [];
      said + Unchecked(rows[1..], blocking)
  }

  function LinesFor(say: Row -> string, rows: seq<Row>): (r: seq<string>)
    ensures |r| == |rows| && forall i :: 0 <= i < |rows| ==> r[i] == say(rows[i])
  {
    if rows == [] then [] else [say(rows[0])] + LinesFor(say, rows[1..])
  }

  function NotStatedLines(say: Row -> string, rows: seq<Row>): seq<string> {
    LinesFor(say, Unchecked(rows, true)) + LinesFor(say, Unchecked(rows, false))
  }

  // The lines of the blocking rows come first, and those of the others behind them.
  lemma BlockingLinesFirst(say: Row -> string, rows: seq<Row>) returns (n: nat)
    ensures var lines := NotStatedLines(say, rows);
            && n <= |lines|
            && (forall l :: l in lines[..n] <==>
                  exists x :: x in rows && x.status.NotStated? && x.blocking && say(x) == l)
            && (forall l :: l in lines[n..] <==>
                  exists x :: x in rows && x.status.NotStated? && !x.blocking && say(x) == l)
  {
    var first, others := Unchecked(rows, true), Unchecked(rows, false);
    n := |first|;
    UncheckedIsExact(rows, true);
    UncheckedIsExact(rows, false);
    LinesAreSaid(say, first);
    LinesAreSaid(say, others);
    assert NotStatedLines(say, rows)[..n] == LinesFor(say, first);
    assert NotStatedLines(say, rows)[n..] == LinesFor(say, others);
  }

  lemma LinesAreSaid(say: Row -> string, rows: seq<Row>)
    ensures forall l :: l in LinesFor(say, rows) <==> exists x :: x in rows && say(x) == l
  {
    forall x | x in rows ensures say(x) in LinesFor(say, rows) {
      var i :| 0 <= i < |rows| && rows[i] == x;
      assert LinesFor(say, rows)[i] == say(x);
    }
  }

  // They stand in the engine's order: what one part of the rows leaves unverified stands in front of what
  // the next one does.
  lemma {:induction false} UncheckedInOrder(a: seq<Row>, b: seq<Row>, blocking: bool)
    ensures Unchecked(a + b, blocking) == Unchecked(a, blocking) + Unchecked(b, blocking)
  {
    if a == [] {
      assert a + b == b;
    } else {
      assert (a + b)[1..] == a[1..] + b;
      UncheckedInOrder(a[1..], b, blocking);
    }
  }

  lemma {:induction false} UncheckedIsExact(rows: seq<Row>, blocking: bool)
    ensures forall x :: x in Unchecked(rows, blocking) <==> x in rows && x.status.NotStated? && x.blocking == blocking
    ensures forall x: Row :: x.status.NotStated? && x.blocking == blocking ==>
                               multiset(Unchecked(rows, blocking))[x] == multiset(rows)[x]
  {
    if rows != [] {
      UncheckedIsExact(rows[1..], blocking);
      assert rows == [rows[0]] + rows[1..];
    }
  }
}
