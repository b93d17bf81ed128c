/** The nightly ledger's rows (scripts/append_260b_ledger_row.py): the
    consecutive-green counter and the date-ordered upsert. */
module LedgerRows {
  import opened Text

  const GATE_TARGET: nat := 14

  /** One row of the JSON sidecar. The outcome is kept as the stored text, since
      a ledger on disk may hold an outcome the script does not know. */
  datatype Row = Row(runDate: string, runUrl: string, outcome: string,
                     cli: string, sdk: string, cookie: string)

  predicate ValidOutcome(outcome: string) {
    outcome == "green" || outcome == "red" || outcome == "infra-skip"
  }

  // ------------------------------------------------------------------- counter

  /** The counter as the script documents it: a left-to-right fold. */
  function Forward(rows: seq<Row>): (c: nat)
    ensures c <= GATE_TARGET
  {
    if rows == [] then 0
    else
      var c := Forward(rows[..|rows| - 1]);
      var outcome := rows[|rows| - 1].outcome;
      if outcome == "green" then (if c < GATE_TARGET then c + 1 else GATE_TARGET)
      else if outcome == "infra-skip" then c
      else 0
  }

  /** The backward early-exit walk computes the documented forward counter. */
  method RecomputeConsecutiveGreen(rows: seq<Row>) returns (counter: nat)
    ensures counter == Forward(rows)
  {
    counter := 0;
    var i := |rows|;
    assert rows[..i] == rows;
    while i > 0
      invariant 0 <= i <= |rows| && counter < GATE_TARGET
      invariant var total := counter + Forward(rows[..i]);
                Forward(rows) == if total < GATE_TARGET then total else GATE_TARGET
    {
      i := i - 1;
      assert rows[..i + 1][..i] == rows[..i];
      var outcome := rows[i].outcome;
      if outcome == "green" {
        counter := counter + 1;
        if counter >= GATE_TARGET {
          return GATE_TARGET;
        }
      } else if outcome == "red" {
        return;
      } else if outcome == "infra-skip" {
      } else {
        return;
      }
    }
  }

  /** A row that ends every run of green nights before it. */
  predicate Resets(row: Row) {
    row.outcome != "green" && row.outcome != "infra-skip"
  }

  predicate NoReset(rows: seq<Row>) {
    forall i :: 0 <= i < |rows| ==> !Resets(rows[i])
  }

  function Greens(rows: seq<Row>): nat {
    if rows == [] then 0
    else Greens(rows[..|rows| - 1]) + if rows[|rows| - 1].outcome == "green" then 1 else 0
  }

  /** The gate is closed exactly when the newest rows hold fourteen green nights
      with nothing between them but infrastructure skips. */
  lemma {:induction false} CounterReaches(rows: seq<Row>, n: nat)
    requires 1 <= n <= GATE_TARGET
    ensures Forward(rows) >= n <==> exists k :: 0 <= k <= |rows| && NoReset(rows[k..]) && Greens(rows[k..]) >= n
    decreases |rows|, n
  {
    if rows != [] {
      var init, last := rows[..|rows| - 1], rows[|rows| - 1];
      forall k | 0 <= k < |rows|
        ensures NoReset(rows[k..]) <==> NoReset(init[k..]) && !Resets(last)
        ensures Greens(rows[k..]) == Greens(init[k..]) + if last.outcome == "green" then 1 else 0
      {
        assert rows[k..] == init[k..] + [last];
        assert rows[k..][..|rows| - k - 1] == init[k..];
      }
      CounterReaches(init, n);
      if last.outcome == "green" && n > 1 {
        CounterReaches(init, n - 1);
      }
      assert init[|init|..] == [];
      assert rows[|rows|..] == [];
    }
  }

  // --------------------------------------------------------------------- dates

  datatype Date = Date(year: nat, month: nat, day: nat)

  predicate Leap(year: nat) {
    year % 4 == 0 && (year % 100 != 0 || year % 400 == 0)
  }

  function DaysIn(year: nat, month: nat): nat {
    if month == 2 then (if Leap(year) then 29 else 28)
    else if month == 4 || month == 6 || month == 9 || month == 11 then 30
    else 31
  }

  function TwoDigits(s: string): nat
    requires |s| == 2 && Digits(s)
  {
    10 * (s[0] as nat - '0' as nat) + (s[1] as nat - '0' as nat)
  }

  /** A zero-padded calendar date, the `full-date` of section 5.6 of RFC 3339. */
  function ParseDate(s: string): Option<Date> {
    if && |s| == 10 && s[4] == '-' && s[7] == '-'
       && Digits(s[..2]) && Digits(s[2..4]) && Digits(s[5..7]) && Digits(s[8..]) then
      var d := Date(100 * TwoDigits(s[..2]) + TwoDigits(s[2..4]), TwoDigits(s[5..7]), TwoDigits(s[8..]));
      if 1 <= d.year && 1 <= d.month <= 12 && 1 <= d.day <= DaysIn(d.year, d.month) then Some(d) else None
    else None
  }

  predicate Earlier(a: Date, b: Date) {
    a.year < b.year || (a.year == b.year && (a.month < b.month || (a.month == b.month && a.day < b.day)))
  }

  lemma LessTwoDigits(a: string, b: string)
    requires |a| == |b| == 2 && Digits(a) && Digits(b)
    ensures Less(a, b) <==> TwoDigits(a) < TwoDigits(b)
    ensures TwoDigits(a) == TwoDigits(b) ==> a == b
  {
    assert a == [a[0], a[1]] && b == [b[0], b[1]];
    assert Less(a[1..], b[1..]) <==> a[1] < b[1];
  }

  lemma LessByParts(a: string, b: string, c: string, d: string)
    requires |a| == |b|
    ensures Less(a + c, b + d) <==> Less(a, b) || (a == b && Less(c, d))
  {
    if a == "" {
      assert a + c == c && b + d == d;
    } else {
      LessByParts(a[1..], b[1..], c, d);
      assert (a + c)[1..] == a[1..] + c && (b + d)[1..] == b[1..] + d;
      assert a == [a[0]] + a[1..] && b == [b[0]] + b[1..];
    }
  }

  /** Zero-padded date texts are ordered as their dates are (the property that
      section 5.1 of RFC 3339 gives such texts), so sorting by text is sorting
      by date. */
  lemma DateTextOrder(a: string, b: string)
    requires ParseDate(a).Some? && ParseDate(b).Some?
    ensures Less(a, b) <==> Earlier(ParseDate(a).value, ParseDate(b).value)
    ensures a == b <==> ParseDate(a) == ParseDate(b)
  {
    LessTwoDigits(a[..2], b[..2]);
    LessTwoDigits(a[2..4], b[2..4]);
    LessTwoDigits(a[5..7], b[5..7]);
    LessTwoDigits(a[8..], b[8..]);
    LessByParts(a[5..7], b[5..7], "-" + a[8..], "-" + b[8..]);
    LessCommonPrefix("-", a[8..], b[8..]);
    LessCommonPrefix("-", a[5..7] + ("-" + a[8..]), b[5..7] + ("-" + b[8..]));
    LessByParts(a[2..4], b[2..4], "-" + (a[5..7] + ("-" + a[8..])), "-" + (b[5..7] + ("-" + b[8..])));
    DateTextParts(a);
    DateTextParts(b);
    LessByParts(a[..2], b[..2], a[2..], b[2..]);
    assert a == a[..2] + a[2..] && b == b[..2] + b[2..];
  }

  lemma DateTextParts(a: string)
    requires ParseDate(a).Some?
    ensures a[2..] == a[2..4] + ("-" + (a[5..7] + ("-" + a[8..])))
  {
  }

  // -------------------------------------------------------------------- upsert

  /** What `_upsert_row` (with the row's own validation before it) answers. */
  datatype Upsert =
    | Updated(rows: seq<Row>)
    | InvalidOutcome
    | InvalidDate
    | UnreadableLedger
    | OlderThanLatest

  /** The position of the first row with the given date, or |rows|. */
  function IndexOf(rows: seq<Row>, runDate: string): (i: nat)
    ensures i <= |rows|
    ensures i < |rows| ==> rows[i].runDate == runDate
    ensures forall j :: 0 <= j < i ==> rows[j].runDate != runDate
  {
    if rows == [] || rows[0].runDate == runDate then 0 else 1 + IndexOf(rows[1..], runDate)
  }

  predicate Readable(rows: seq<Row>) {
    forall i :: 0 <= i < |rows| ==> ParseDate(rows[i].runDate).Some?
  }

  predicate OlderThan(d: Date, rows: seq<Row>)
    requires Readable(rows)
  {
    exists i :: 0 <= i < |rows| && Earlier(d, ParseDate(rows[i].runDate).value)
  }

  /** Stable insertion: after every row whose date is not later. */
  function InsertByDate(rows: seq<Row>, row: Row): seq<Row> {
    if rows != [] && Less(row.runDate, rows[|rows| - 1].runDate)
    then InsertByDate(rows[..|rows| - 1], row) + [rows[|rows| - 1]]
    else rows + [row]
  }

  /** `rows.sort(key=run_date)` */
  function SortByDate(rows: seq<Row>): seq<Row> {
    if rows == [] then [] else InsertByDate(SortByDate(rows[..|rows| - 1]), rows[|rows| - 1])
  }

  function UpsertRow(rows: seq<Row>, row: Row): Upsert {
    if !ValidOutcome(row.outcome) then InvalidOutcome
    else if ParseDate(row.runDate).None? then InvalidDate
    else
      var i := IndexOf(rows, row.runDate);
      if i < |rows| then Updated(rows[i := row])
      else if !Readable(rows) then UnreadableLedger
      else if OlderThan(ParseDate(row.runDate).value, rows) then OlderThanLatest
      else Updated(SortByDate(rows + [row]))
  }

  /** The order the ledger is kept in: readable dates, strictly increasing. */
  ghost predicate Increasing(rows: seq<Row>) {
    && Readable(rows)
    && forall i, j :: 0 <= i < j < |rows| ==> Less(rows[i].runDate, rows[j].runDate)
  }

  lemma {:induction false} SortOfIncreasing(rows: seq<Row>)
    requires Increasing(rows)
    ensures SortByDate(rows) == rows
  {
    hide Less, ParseDate;
    if rows != [] {
      var init := rows[..|rows| - 1];
      SortOfIncreasing(init);
      if init != [] {
        LessTotal(init[|init| - 1].runDate, rows[|rows| - 1].runDate);
      }
      assert rows == init + [rows[|rows| - 1]];
    }
  }

  ghost predicate Nondecreasing(rows: seq<Row>) {
    forall i, j :: 0 <= i < j < |rows| ==> !Less(rows[j].runDate, rows[i].runDate)
  }

  lemma {:induction false} InsertByDatePermutes(rows: seq<Row>, row: Row)
    ensures multiset(InsertByDate(rows, row)) == multiset(rows + [row])
  {
    hide Less;
    if rows != [] {
      InsertByDatePermutes(rows[..|rows| - 1], row);
      assert rows == rows[..|rows| - 1] + [rows[|rows| - 1]];
    }
  }

  lemma {:induction false} InsertByDateSorts(rows: seq<Row>, row: Row)
    requires Nondecreasing(rows)
    ensures Nondecreasing(InsertByDate(rows, row))
  {
    hide Less;
    if rows != [] {
      var init, last := rows[..|rows| - 1], rows[|rows| - 1];
      if Less(row.runDate, last.runDate) {
        InsertByDateSorts(init, row);
        InsertByDatePermutes(init, row);
        var r := InsertByDate(init, row);
        LessTotal(row.runDate, last.runDate);
        forall i | 0 <= i < |r| ensures !Less(last.runDate, r[i].runDate) {
          assert r[i] in multiset(r);
          assert r[i] in init + [row];
        }
      } else {
        forall i | 0 <= i < |rows| ensures !Less(row.runDate, rows[i].runDate) {
          if Less(row.runDate, rows[i].runDate) {
            NotLessTransitive(row.runDate, rows[i].runDate, last.runDate);
          }
        }
      }
    }
  }

  lemma NotLessTransitive(a: string, b: string, c: string)
    requires Less(a, b) && !Less(c, b)
    ensures Less(a, c)
  {
    LessTotal(b, c);
    if Less(b, c) {
      LessTransitive(a, b, c);
    }
  }

  /** Whatever the ledger held, the sort permutes it into date order. */
  lemma {:induction false} SortByDateSorts(rows: seq<Row>)
    ensures Nondecreasing(SortByDate(rows))
    ensures multiset(SortByDate(rows)) == multiset(rows)
  {
    hide InsertByDate;
    if rows != [] {
      var init, last := rows[..|rows| - 1], rows[|rows| - 1];
      SortByDateSorts(init);
      InsertByDateSorts(SortByDate(init), last);
      InsertByDatePermutes(SortByDate(init), last);
      assert rows == init + [last];
    }
  }

  function Dates(rows: seq<Row>): seq<string> {
    seq(|rows|, i requires 0 <= i < |rows| => rows[i].runDate)
  }

  ghost predicate Latest(d: Date, rows: seq<Row>)
    requires Readable(rows)
  {
    forall i :: 0 <= i < |rows| ==> Earlier(ParseDate(rows[i].runDate).value, d)
  }

  /** On an ordered ledger the upsert is exactly: replace the one row of that
      date, or append a row later than all others (the sort then moves nothing),
      or refuse. */
  lemma UpsertExact(rows: seq<Row>, row: Row)
    requires Increasing(rows) && ValidOutcome(row.outcome) && ParseDate(row.runDate).Some?
    ensures var d := ParseDate(row.runDate).value; var i := IndexOf(rows, row.runDate);
            UpsertRow(rows, row) ==
            if i < |rows| then Updated(rows[i := row])
            else if Latest(d, rows) then Updated(rows + [row])
            else OlderThanLatest
  {
    hide Less, ParseDate, SortByDate;
    var d := ParseDate(row.runDate).value;
    if IndexOf(rows, row.runDate) == |rows| {
      forall i | 0 <= i < |rows|
        ensures Less(rows[i].runDate, row.runDate) <==> !Earlier(d, ParseDate(rows[i].runDate).value)
        ensures Less(rows[i].runDate, row.runDate) <==> Earlier(ParseDate(rows[i].runDate).value, d)
      {
        DateTextOrder(rows[i].runDate, row.runDate);
        DateTextOrder(row.runDate, rows[i].runDate);
        LessTotal(rows[i].runDate, row.runDate);
      }
      if Latest(d, rows) {
        SortOfIncreasing(rows + [row]);
      }
    }
  }

  /** Every accepted upsert keeps the order, never drops or reorders a date, and
      changes no other row. */
  lemma UpsertKeepsOrder(rows: seq<Row>, row: Row)
    requires Increasing(rows) && UpsertRow(rows, row).Updated?
    ensures var rows' := UpsertRow(rows, row).rows;
            && Increasing(rows')
            && Dates(rows) <= Dates(rows')
            && row in rows'
            && (forall r :: r in rows && r.runDate != row.runDate ==> r in rows')
            && (forall r :: r in rows' ==> r == row || (r in rows && r.runDate != row.runDate))
  {
    hide Less, ParseDate, UpsertRow, ValidOutcome;
    UpsertAccepts(rows, row);
    UpsertExact(rows, row);
    var i := IndexOf(rows, row.runDate);
    if i < |rows| {
      ReplacedKeeps(rows, i, row);
    } else {
      forall j | 0 <= j < |rows| ensures Less(rows[j].runDate, row.runDate) {
        DateTextOrder(rows[j].runDate, row.runDate);
      }
      AppendedKeeps(rows, row);
    }
  }

  lemma UpsertAccepts(rows: seq<Row>, row: Row)
    requires UpsertRow(rows, row).Updated?
    ensures ValidOutcome(row.outcome) && ParseDate(row.runDate).Some?
  {
  }

  lemma ReplacedKeeps(rows: seq<Row>, i: nat, row: Row)
    requires Increasing(rows) && i < |rows| && rows[i].runDate == row.runDate
    ensures var rows' := rows[i := row];
            && Increasing(rows') && Dates(rows) <= Dates(rows') && row in rows'
            && (forall r :: r in rows && r.runDate != row.runDate ==> r in rows')
            && (forall r :: r in rows' ==> r == row || (r in rows && r.runDate != row.runDate))
  {
    hide Less, ParseDate;
    var rows' := rows[i := row];
    assert rows'[i] == row;
    forall j | 0 <= j < |rows| && j != i ensures rows[j].runDate != row.runDate {
      LessTotal(rows[i].runDate, rows[j].runDate);
    }
    assert forall j :: 0 <= j < |rows| && j != i ==> rows'[j] == rows[j];
  }

  lemma AppendedKeeps(rows: seq<Row>, row: Row)
    requires Increasing(rows) && ParseDate(row.runDate).Some?
    requires forall j :: 0 <= j < |rows| ==> Less(rows[j].runDate, row.runDate) && rows[j].runDate != row.runDate
    ensures var rows' := rows + [row];
            && Increasing(rows') && Dates(rows) <= Dates(rows') && row in rows'
            && (forall r :: r in rows && r.runDate != row.runDate ==> r in rows')
            && (forall r :: r in rows' ==> r == row || (r in rows && r.runDate != row.runDate))
  {
    hide Less, ParseDate;
    var rows' := rows + [row];
    assert rows'[|rows|] == row;
    assert forall j :: 0 <= j < |rows| ==> rows'[j] == rows[j];
  }

  /** Upserting the same row again changes nothing, on any ledger at all. */
  lemma UpsertTwice(rows: seq<Row>, row: Row)
    requires UpsertRow(rows, row).Updated?
    ensures UpsertRow(UpsertRow(rows, row).rows, row) == UpsertRow(rows, row)
  {
    hide ParseDate, ValidOutcome, SortByDate, Nondecreasing, Readable, OlderThan;
    var i := IndexOf(rows, row.runDate);
    var rows' := UpsertRow(rows, row).rows;
    var i' := IndexOf(rows', row.runDate);
    if i < |rows| {
      assert rows'[i] == row;
      assert i' == i;
    } else {
      SortByDateSorts(rows + [row]);
      assert row in multiset(rows');
      assert i' < |rows'|;
      assert rows'[i'] in multiset(rows');
      assert rows'[i'] in rows + [row];
      assert rows'[i'] == row;
    }
    assert rows'[i' := row] == rows';
  }

  /** The script says that a row older than the newest one is refused. It is
      refused only when the ledger has no row of its date: in any ledger of two
      green nights the first can still be turned red, which lowers the counter. */
  lemma OlderDateIsRewritten(older: Row, newer: Row)
    requires Increasing([older, newer]) && older.outcome == newer.outcome == "green"
    ensures var red := older.(outcome := "red");
            && UpsertRow([older, newer], red) == Updated([red, newer])
            && Forward([older, newer]) == 2 && Forward([red, newer]) == 1
  {
    var red := older.(outcome := "red");
    var rows := [older, newer];
    assert rows[0] == older;
    UpsertExact(rows, red);
    assert rows[0 := red] == [red, newer];
    assert [older][..0] == [] && Forward([older]) == 1;
    assert rows[..1] == [older] && Forward(rows) == 2;
    assert [red, newer][..1] == [red] && Forward([red]) == 0;
  }

  /** Dates that exist and dates that do not. */
  lemma CalendarEdges()
    ensures ParseDate("2024-02-29") == Some(Date(2024, 2, 29)) && ParseDate("2000-02-29") == Some(Date(2000, 2, 29))
    ensures ParseDate("2023-02-29") == None && ParseDate("1900-02-29") == None
    ensures ParseDate("2024-04-30") == Some(Date(2024, 4, 30)) && ParseDate("2024-04-31") == None
    ensures ParseDate("2024-12-31") == Some(Date(2024, 12, 31)) && ParseDate("2024-13-01") == None
    ensures ParseDate("2024-1-05") == None && ParseDate("2024/01/05") == None
  {
    hide ParseDate;
    LeapDays();
    LongMonths();
    OtherForms();
  }

  /** A padded text is a date exactly when its numbers are in range. */
  lemma DateReads(century: string, year: string, month: string, day: string)
    requires |century| == |year| == |month| == |day| == 2
    requires Digits(century) && Digits(year) && Digits(month) && Digits(day)
    ensures var d := Date(100 * TwoDigits(century) + TwoDigits(year), TwoDigits(month), TwoDigits(day));
            ParseDate(century + year + "-" + month + "-" + day) ==
            if 1 <= d.year && 1 <= d.month <= 12 && 1 <= d.day <= DaysIn(d.year, d.month) then Some(d) else None
  {
    hide DaysIn;
    var s := century + year + "-" + month + "-" + day;
    assert s[..2] == century && s[2..4] == year && s[5..7] == month && s[8..] == day;
  }

  lemma LeapDays()
    ensures ParseDate("2024-02-29") == Some(Date(2024, 2, 29)) && ParseDate("2000-02-29") == Some(Date(2000, 2, 29))
    ensures ParseDate("2023-02-29") == None && ParseDate("1900-02-29") == None
  {
    hide DaysIn, ParseDate;
    LongYears();
    DateReads("20", "24", "02", "29");
    DateReads("20", "00", "02", "29");
    DateReads("20", "23", "02", "29");
    DateReads("19", "00", "02", "29");
    assert "20" + "24" + "-" + "02" + "-" + "29" == "2024-02-29";
    assert "20" + "00" + "-" + "02" + "-" + "29" == "2000-02-29";
    assert "20" + "23" + "-" + "02" + "-" + "29" == "2023-02-29";
    assert "19" + "00" + "-" + "02" + "-" + "29" == "1900-02-29";
  }

  lemma LongMonths()
    ensures ParseDate("2024-04-30") == Some(Date(2024, 4, 30)) && ParseDate("2024-04-31") == None
    ensures ParseDate("2024-12-31") == Some(Date(2024, 12, 31)) && ParseDate("2024-13-01") == None
  {
    hide DaysIn, ParseDate;
    ShortMonths();
    DateReads("20", "24", "04", "30");
    DateReads("20", "24", "04", "31");
    DateReads("20", "24", "12", "31");
    DateReads("20", "24", "13", "01");
    assert "20" + "24" + "-" + "04" + "-" + "30" == "2024-04-30";
    assert "20" + "24" + "-" + "04" + "-" + "31" == "2024-04-31";
    assert "20" + "24" + "-" + "12" + "-" + "31" == "2024-12-31";
    assert "20" + "24" + "-" + "13" + "-" + "01" == "2024-13-01";
  }

  lemma OtherForms()
    ensures ParseDate("2024-1-05") == None && ParseDate("2024/01/05") == None
  {
  }

  /** The months with a 30th and with a 31st. */
  lemma MonthEnds(month: string)
    requires |month| == 2 && Digits(month)
    ensures ParseDate("2023-" + month + "-31").Some? <==> TwoDigits(month) in {1, 3, 5, 7, 8, 10, 12}
    ensures ParseDate("2023-" + month + "-30").Some? <==> TwoDigits(month) in {1, 3, 4, 5, 6, 7, 8, 9, 10, 11, 12}
  {
    hide ParseDate;
    DateReads("20", "23", month, "31");
    DateReads("20", "23", month, "30");
    assert "20" + "23" + "-" + month + "-" + "31" == "2023-" + month + "-31";
    assert "20" + "23" + "-" + month + "-" + "30" == "2023-" + month + "-30";
  }

  lemma LongYears()
    ensures DaysIn(2024, 2) == 29 && DaysIn(2000, 2) == 29 && DaysIn(2023, 2) == 28 && DaysIn(1900, 2) == 28
  {
  }

  lemma ShortMonths()
    ensures DaysIn(2024, 4) == 30 && DaysIn(2024, 12) == 31
  {
  }

  /** The counter after one more night, in numbers. */
  lemma ForwardSnoc(rows: seq<Row>, row: Row)
    ensures var c := Forward(rows); var c' := Forward(rows + [row]);
            && c <= 14
            && (row.outcome == "green" ==> c' == if c < 14 then c + 1 else 14)
            && (row.outcome == "red" ==> c' == 0)
            && (row.outcome == "infra-skip" ==> c' == c)
  {
    assert (rows + [row])[..|rows|] == rows;
    OutcomesDiffer();
  }

  lemma OutcomesDiffer()
    ensures "green" != "red" && "green" != "infra-skip" && "red" != "infra-skip"
  {
  }

  /** A night with a later date than all before it is accepted exactly when its
      outcome is one of the three, and is then the last row. */
  lemma LaterRow(rows: seq<Row>, row: Row)
    requires Increasing(rows) && ParseDate(row.runDate).Some? && Latest(ParseDate(row.runDate).value, rows)
    ensures UpsertRow(rows, row) == if row.outcome in {"green", "red", "infra-skip"} then Updated(rows + [row])
                                    else InvalidOutcome
  {
    hide ParseDate, SortByDate, Less;
    if row.outcome in {"green", "red", "infra-skip"} {
      var d := ParseDate(row.runDate).value;
      UpsertExact(rows, row);
      assert Latest(d, rows);
      assert forall i :: 0 <= i < |rows| ==> Earlier(ParseDate(rows[i].runDate).value, d);
    }
  }
}
