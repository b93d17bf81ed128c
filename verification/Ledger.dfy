/** The nightly ledger as a whole (scripts/append_260b_ledger_row.py, `main`):
    a JSON sidecar and a markdown file, updated by one call per night. */
module Ledger {
  import opened Text
  import opened LedgerRows
  import opened MarkdownSplice
  import opened LedgerMarkdown

  /** The two files. A missing sidecar reads as no rows and a zero counter. */
  datatype Files = Files(rows: seq<Row>, consecutive: nat, markdown: Option<string>)

  datatype Outcome = Recorded | Rejected | MarkdownMissing | NoAnchor

  /** One call. The sidecar is written before the markdown is touched, so a call
      that cannot splice has already recorded its row. */
  function Step(files: Files, row: Row): (Files, Outcome) {
    match UpsertRow(files.rows, row)
    case Updated(rows) =>
      var c := Forward(rows);
      if files.markdown.None? then (Files(rows, c, None), MarkdownMissing)
      else
        var body := Splice(LEDGER, files.markdown.value, Render(rows, c));
        if body.None? then (Files(rows, c, files.markdown), NoAnchor) else (Files(rows, c, body), Recorded)
    case _ => (files, Rejected)
  }

  class LedgerFiles {
    var rows: seq<Row>
    var consecutive: nat
    var markdown: Option<string>

    constructor (rows: seq<Row>, consecutive: nat, markdown: Option<string>)
      ensures Contents() == Files(rows, consecutive, markdown)
    {
      this.rows, this.consecutive, this.markdown := rows, consecutive, markdown;
    }

    function Contents(): Files
      reads this
    {
      Files(rows, consecutive, markdown)
    }

    /** `_upsert_row`: replaces a row in place, or appends and sorts. */
    method UpsertInPlace(row: Row) returns (accepted: bool)
      modifies this`rows
      ensures accepted == UpsertRow(old(rows), row).Updated?
      ensures rows == if accepted then UpsertRow(old(rows), row).rows else old(rows)
    {
      if !ValidOutcome(row.outcome) || ParseDate(row.runDate).None? {
        return false;
      }
      var i := 0;
      while i < |rows| && rows[i].runDate != row.runDate
        invariant 0 <= i <= |rows| && forall j :: 0 <= j < i ==> rows[j].runDate != row.runDate
      {
        i := i + 1;
      }
      assert i == IndexOf(rows, row.runDate);
      if i < |rows| {
        rows := rows[i := row];
        return true;
      }
      if !Readable(rows) || OlderThan(ParseDate(row.runDate).value, rows) {
        return false;
      }
      rows := rows + [row];
      rows := SortByDate(rows);
      return true;
    }

    /** `main` */
    method Append(row: Row) returns (outcome: Outcome)
      modifies this
      ensures (Contents(), outcome) == Step(old(Contents()), row)
    {
      var accepted := UpsertInPlace(row);
      if !accepted {
        return Rejected;
      }
      consecutive := RecomputeConsecutiveGreen(rows);
      if markdown.None? {
        return MarkdownMissing;
      }
      var body := Splice(LEDGER, markdown.value, Render(rows, consecutive));
      if body.None? {
        return NoAnchor;
      }
      markdown := body;
      return Recorded;
    }
  }

  /** What every call keeps: ordered rows, and a stored counter that equals the
      documented one. */
  ghost predicate WellFormed(files: Files) {
    Increasing(files.rows) && files.consecutive == Forward(files.rows)
  }

  function Run(files: Files, calls: seq<Row>): Files
    decreases |calls|
  {
    if calls == [] then files else Run(Step(files, calls[0]).0, calls[1..])
  }

  /** One call on a well-formed ledger: refused and without any effect, or in the
      ledger afterwards; either way the ledger stays well formed. */
  lemma StepKeepsLedger(files: Files, row: Row)
    requires WellFormed(files)
    ensures WellFormed(Step(files, row).0)
    ensures Dates(files.rows) <= Dates(Step(files, row).0.rows)
    ensures if Step(files, row).1 == Rejected then Step(files, row).0 == files else row in Step(files, row).0.rows
  {
    hide UpsertRow, Forward, Render, Splice, Increasing;
    if UpsertRow(files.rows, row).Updated? {
      UpsertKeepsOrder(files.rows, row);
    }
  }

  /** A night later than all before it, in full: it is recorded exactly when its
      outcome is green, red or infra-skip, and the stored counter goes up to at
      most 14, to 0, or stays. */
  lemma LaterNight(files: Files, row: Row)
    requires WellFormed(files) && ParseDate(row.runDate).Some? && Latest(ParseDate(row.runDate).value, files.rows)
    ensures var (next, outcome) := Step(files, row); var c := files.consecutive;
            && (outcome == Rejected <==> row.outcome !in {"green", "red", "infra-skip"})
            && (outcome == Rejected ==> next == files)
            && (outcome != Rejected ==> next.rows == files.rows + [row])
            && (row.outcome == "green" ==> next.consecutive == if c < 14 then c + 1 else 14)
            && (row.outcome == "red" ==> next.consecutive == 0)
            && (row.outcome == "infra-skip" ==> next.consecutive == c)
  {
    hide UpsertRow, Forward, Render, Splice, ParseDate;
    LaterRow(files.rows, row);
    ForwardSnoc(files.rows, row);
  }

  /** Over every run of calls, whatever they carry, the ledger stays well formed
      and no recorded date is lost or moved. */
  lemma {:induction false} RunKeepsLedger(files: Files, calls: seq<Row>)
    requires WellFormed(files)
    ensures WellFormed(Run(files, calls))
    ensures Dates(files.rows) <= Dates(Run(files, calls).rows)
    decreases |calls|
  {
    if calls != [] {
      StepKeepsLedger(files, calls[0]);
      RunKeepsLedger(Step(files, calls[0]).0, calls[1..]);
    }
  }

  /** The markdown can be spliced again and again: no sentinel above the heading
      of a file that has not been spliced yet. */
  predicate Respliceable(files: Files) {
    files.markdown.Some? && !HasSentinels(LEDGER, files.markdown.value)
    ==> !Contains(Partition(files.markdown.value, LEDGER.heading).before, LEDGER.begin)
  }

  /** The call reaches the markdown: its row is accepted and the file has a place
      for the section. */
  ghost predicate Spliceable(files: Files) {
    files.markdown.Some? && FrameOf(LEDGER, files.markdown.value).Some?
  }

  /** Repeating a call changes nothing, in either file, and answers the same,
      whether the first call was recorded, rejected or could not be spliced:
      exactly unless the section is written with a field that holds the END
      sentinel, or below a lone BEGIN. */
  lemma RepeatedCall(files: Files, row: Row)
    ensures var (once, outcome) := Step(files, row); var u := UpsertRow(files.rows, row);
            Step(once, row) == (once, outcome) <==>
            (u.Updated? && Spliceable(files) ==> !EndInRows(u.rows) && Respliceable(files))
  {
    hide UpsertRow, Forward, Render, HasSentinels, FrameOf, Fill, EndInRows, Contains;
    var u := UpsertRow(files.rows, row);
    if u.Updated? {
      UpsertTwice(files.rows, row);
      if Spliceable(files) {
        var g := Render(u.rows, Forward(u.rows));
        RenderHoldsEnd(u.rows, Forward(u.rows));
        LedgerIsWellShaped();
        SpliceAgainExactly(LEDGER, files.markdown.value, g);
      }
    }
  }

  /** An upsert brings in no row but its own. */
  lemma UpsertRowsFrom(rows: seq<Row>, row: Row)
    requires UpsertRow(rows, row).Updated?
    ensures forall r :: r in UpsertRow(rows, row).rows ==> r == row || r in rows
  {
    hide SortByDate, ParseDate, OlderThan, Readable, ValidOutcome;
    if IndexOf(rows, row.runDate) == |rows| {
      var sorted := SortByDate(rows + [row]);
      SortByDateSorts(rows + [row]);
      assert forall r :: r in sorted <==> r in multiset(sorted);
      assert forall r :: r in rows + [row] <==> r in multiset(rows + [row]);
    }
  }

  lemma UpsertHoldsNoEnd(rows: seq<Row>, row: Row)
    requires !EndInRows(rows) && !HoldsEnd(row) && UpsertRow(rows, row).Updated?
    ensures !EndInRows(UpsertRow(rows, row).rows)
  {
    hide UpsertRow, HoldsEnd;
    var rows' := UpsertRow(rows, row).rows;
    UpsertRowsFrom(rows, row);
    forall i | 0 <= i < |rows'| ensures !HoldsEnd(rows'[i]) {
      assert rows'[i] in rows';
    }
  }

  /** One recorded call leaves a file that every later splice treats as it would
      have treated the file before. */
  lemma RecordedStep(files: Files, row: Row)
    requires !EndInRows(files.rows) && !HoldsEnd(row) && Respliceable(files) && Spliceable(files)
    requires UpsertRow(files.rows, row).Updated?
    ensures var next := Step(files, row).0;
            && !EndInRows(next.rows) && Respliceable(next) && Spliceable(next)
            && next.markdown == Splice(LEDGER, files.markdown.value, Render(next.rows, next.consecutive))
            && forall g :: Splice(LEDGER, next.markdown.value, g) == Splice(LEDGER, files.markdown.value, g)
  {
    hide UpsertRow, Forward, Render, EndInRows, HoldsEnd, FrameOf, Fill, Contains;
    UpsertHoldsNoEnd(files.rows, row);
    var rows := UpsertRow(files.rows, row).rows;
    var g := Render(rows, Forward(rows));
    RenderHoldsEnd(rows, Forward(rows));
    LedgerIsWellShaped();
    LastWriterWinsExactly(LEDGER, files.markdown.value, g);
    var f := FrameOf(LEDGER, files.markdown.value).value;
    FillHasSentinels(LEDGER, f, g);
    FramesAgain(LEDGER, Fill(LEDGER, f, g));
  }

  lemma FramesAgain(m: Anchors, body: string)
    requires HasSentinels(m, body)
    ensures FrameOf(m, body).Some?
  {
    hide Contains;
  }

  /** The markdown always shows exactly the current sidecar: after any run whose
      rows hold no END sentinel, it is the first file with the final rows and
      counter spliced in once, unless no call was accepted and nothing changed. */
  lemma {:induction false} MarkdownShowsSidecar(files: Files, calls: seq<Row>)
    requires !EndInRows(files.rows) && !EndInRows(calls) && Respliceable(files) && Spliceable(files)
    ensures var end := Run(files, calls);
            end == files || end.markdown == Splice(LEDGER, files.markdown.value, Render(end.rows, end.consecutive))
    decreases |calls|
  {
    hide UpsertRow, Forward, Render, HoldsEnd, FrameOf, Fill, Contains, HasSentinels, Respliceable;
    if calls != [] {
      RestHoldsNoEnd(calls);
      if UpsertRow(files.rows, calls[0]).Updated? {
        RecordedStep(files, calls[0]);
      }
      MarkdownShowsSidecar(Step(files, calls[0]).0, calls[1..]);
    }
  }

  lemma RestHoldsNoEnd(calls: seq<Row>)
    requires calls != [] && !EndInRows(calls)
    ensures !HoldsEnd(calls[0]) && !EndInRows(calls[1..])
  {
    hide HoldsEnd;
    assert forall i :: 0 <= i < |calls[1..]| ==> calls[1..][i] == calls[i + 1];
  }

  /** The markdown shows the sidecar: splicing the sidecar's section in again would
      change nothing. */
  ghost predicate InSync(files: Files) {
    files.markdown.Some?
    && Splice(LEDGER, files.markdown.value, Render(files.rows, files.consecutive)) == files.markdown
  }

  /** A file without a place for the section is left as it is. */
  lemma UnanchoredIsBehind(files: Files, row: Row)
    requires !Spliceable(files)
    ensures Step(files, row).0.markdown == files.markdown && !Spliceable(Step(files, row).0)
  {
    hide UpsertRow, Forward, Render, FrameOf, Fill;
  }

  lemma UnanchoredIsNotInSync(files: Files)
    requires !Spliceable(files)
    ensures !InSync(files)
  {
    hide Forward, Render, FrameOf, Fill;
  }

  /** After an accepted call the two files agree exactly when the markdown has a
      place for the section, no field holds END, and no lone BEGIN stands above the
      heading. The sidecar is written first: without a place for the section the
      call records its row there, and the markdown stays behind. */
  lemma SyncExactly(files: Files, row: Row)
    requires UpsertRow(files.rows, row).Updated?
    ensures var next := Step(files, row).0;
            && next.rows == UpsertRow(files.rows, row).rows
            && (InSync(next) <==> Spliceable(files) && !EndInRows(next.rows) && Respliceable(files))
  {
    hide UpsertRow, Forward, Render, HasSentinels, FrameOf, Fill, EndInRows, Contains;
    var rows := UpsertRow(files.rows, row).rows;
    if Spliceable(files) {
      RenderHoldsEnd(rows, Forward(rows));
      LedgerIsWellShaped();
      SpliceAgainExactly(LEDGER, files.markdown.value, Render(rows, Forward(rows)));
    } else {
      UnanchoredIsBehind(files, row);
      UnanchoredIsNotInSync(Step(files, row).0);
    }
  }

  lemma {:induction false} UnanchoredRun(files: Files, calls: seq<Row>)
    requires !Spliceable(files)
    ensures Run(files, calls).markdown == files.markdown && !InSync(Run(files, calls))
    decreases |calls|
  {
    hide UpsertRow, Forward, Render, FrameOf, Fill, InSync, Step;
    if calls == [] {
      UnanchoredIsNotInSync(files);
    } else {
      UnanchoredIsBehind(files, calls[0]);
      UnanchoredRun(Step(files, calls[0]).0, calls[1..]);
    }
  }

  lemma {:induction false} AnchoredRun(files: Files, calls: seq<Row>)
    requires !EndInRows(files.rows) && !EndInRows(calls) && Respliceable(files) && Spliceable(files)
    ensures Run(files, calls) == files || InSync(Run(files, calls))
    decreases |calls|
  {
    hide UpsertRow, Forward, Render, HoldsEnd, FrameOf, Fill, Contains, HasSentinels, Respliceable, Spliceable, InSync,
         EndInRows;
    if calls != [] {
      RestHoldsNoEnd(calls);
      if UpsertRow(files.rows, calls[0]).Updated? {
        RecordedStep(files, calls[0]);
        SyncExactly(files, calls[0]);
      }
      AnchoredRun(Step(files, calls[0]).0, calls[1..]);
    }
  }

  /** Over every run whose rows hold no END: the two files agree at its end, if it
      changed anything, exactly when the first file has a place for the section. */
  lemma RunSyncsExactly(files: Files, calls: seq<Row>)
    requires !EndInRows(files.rows) && !EndInRows(calls) && Respliceable(files) && Run(files, calls) != files
    ensures InSync(Run(files, calls)) <==> Spliceable(files)
  {
    hide UpsertRow, Forward, Render, HoldsEnd, FrameOf, Fill, Contains, HasSentinels, Respliceable, Spliceable, InSync,
         EndInRows, Run;
    if Spliceable(files) {
      AnchoredRun(files, calls);
    } else {
      UnanchoredRun(files, calls);
    }
  }
}
