/** Rendering the ledger's generated markdown section from the rows
    (scripts/append_260b_ledger_row.py). */
module LedgerMarkdown {
  import opened Text
  import opened LedgerRows
  import opened MarkdownSplice

  /** A table row; the brackets only group the text for the proofs. */
  function RowLine(n: nat, row: Row): string {
    "| " + Decimal(n) + " | " + (row.runDate + " ") + "|" + (
      " [run](" + row.runUrl + ")" + (
        " | `" + row.outcome + "`" + (
          " | `" + row.cli + "`" + (" | `" + row.sdk + "`" + (" | `" + row.cookie + "`" + " | _—_ |")))))
  }

  function RowLines(rows: seq<Row>): seq<string> {
    if rows == [] then ["| _no nightly runs recorded yet_ " + "| — | — | — | — | — | — | — |"]
    else seq(|rows|, i requires 0 <= i < |rows| => RowLine(i + 1, rows[i]))
  }

  function GateLines(consecutive: nat): seq<string> {
    if consecutive >= GATE_TARGET then
      ["", "> ✅ **Gate closed.** 14 " + "consecutive green nights " + "reached. Proceed to the "
           + "closure-block sign-off " + "below, then to [260-cookie-" + "rollout-production-flip.md]("
           + "../runbooks/260-cookie-" + "rollout-production-flip.md)."]
    else []
  }

  function TableHead(): seq<string> {
    ["", "| #  | Run date (UTC) | Workflow " + "run | Outcome | CLI | SDK | " + "Cookie | Notes |",
     "|----|----------------|--------" + "------|---------|-----|-----" + "|--------|-------|"]
  }

  function BodyLines(rows: seq<Row>, consecutive: nat): seq<string> {
    ["", "**Consecutive green nights:** " + Decimal(consecutive) + " / 14"]
    + GateLines(consecutive) + TableHead() + RowLines(rows) + [""]
  }

  /** `_render_markdown` */
  function Render(rows: seq<Row>, consecutive: nat): string {
    "\n<!-- auto-ledger: " + ("consecutive_green=" + Decimal(consecutive) + " / target=14 -->" + "\n"
                              + Join(BodyLines(rows, consecutive), "\n"))
  }

  /** A field that holds the END sentinel. */
  ghost predicate HoldsEnd(row: Row) {
    || Contains(row.runDate, LEDGER.end) || Contains(row.runUrl, LEDGER.end) || Contains(row.outcome, LEDGER.end)
    || Contains(row.cli, LEDGER.end) || Contains(row.sdk, LEDGER.end) || Contains(row.cookie, LEDGER.end)
  }

  ghost predicate EndInRows(rows: seq<Row>) {
    exists i :: 0 <= i < |rows| && HoldsEnd(rows[i])
  }

  // ------------------------------------------------------------- where END can be

  /** Text that lacks the first character of p can be left off the front. */
  lemma ContainsBehind(a: string, s: string, p: string)
    requires p != "" && p[0] !in a
    ensures Contains(a + s, p) <==> Contains(s, p)
  {
    ContainsAppend(a, s, p);
    forall i | 0 <= i <= |a + s| && OccursAt(a + s, p, i) ensures Contains(s, p) {
      OccursChar(a + s, p, i, 0);
      OccursInPart(a, s, "", p, i);
      assert a + s + "" == a + s;
      assert OccursAt(s, p, i - |a|);
    }
  }

  /** Text that lacks the last character of p can be left off the end. */
  lemma ContainsBefore(s: string, b: string, p: string)
    requires p != "" && p[|p| - 1] !in b
    ensures Contains(s + b, p) <==> Contains(s, p)
  {
    ContainsAppend(s, b, p);
    forall i | 0 <= i <= |s + b| && OccursAt(s + b, p, i) ensures Contains(s, p) {
      OccursChar(s + b, p, i, |p| - 1);
      OccursInPrefix(s, b, p, i);
      assert OccursAt(s, p, i);
    }
  }

  /** A field between fixed text and a character that p lacks. */
  lemma ContainsField(a: string, field: string, c: char, rest: string, p: string)
    requires p != "" && p[0] !in a && c !in p
    ensures Contains(a + field + [c] + rest, p) <==> Contains(field, p) || Contains(rest, p)
  {
    ContainsAcross(a + field, c, rest, p);
    ContainsBehind(a, field, p);
  }

  ghost predicate AnyHolds(lines: seq<string>, p: string) {
    exists i :: 0 <= i < |lines| && Contains(lines[i], p)
  }

  lemma AnyHoldsAppend(a: seq<string>, b: seq<string>, p: string)
    ensures AnyHolds(a + b, p) <==> AnyHolds(a, p) || AnyHolds(b, p)
  {
    hide Contains;
    var all := a + b;
    if i :| 0 <= i < |a| && Contains(a[i], p) {
      assert all[i] == a[i];
    }
    if i :| 0 <= i < |b| && Contains(b[i], p) {
      assert all[|a| + i] == b[i];
    }
    if i :| 0 <= i < |all| && Contains(all[i], p) {
      assert if i < |a| then all[i] == a[i] else all[i] == b[i - |a|];
    }
  }

  /** Joining lines makes no new occurrence of a text without a newline. */
  lemma {:induction false} JoinHolds(lines: seq<string>, p: string)
    requires p != "" && '\n' !in p
    ensures Contains(Join(lines, "\n"), p) <==> AnyHolds(lines, p)
  {
    hide Contains;
    if lines == [] {
      ContainsNeeds("", p);
    } else if |lines| == 1 {
      assert Contains(lines[0], p) ==> AnyHolds(lines, p);
    } else {
      JoinHolds(lines[1..], p);
      ContainsAcross(lines[0], '\n', Join(lines[1..], "\n"), p);
      AnyHoldsAppend([lines[0]], lines[1..], p);
      assert lines == [lines[0]] + lines[1..];
      assert [lines[0]][0] == lines[0];
    }
  }

  /** The characters of END. */
  lemma EndShape()
    ensures var end := LEDGER.end;
            && |end| == 24 && end[0] == '<' && end[23] == '>' && end[17] == 'e'
            && '\n' !in end && '|' !in end && ')' !in end && '`' !in end
  {
    var end := LEDGER.end;
    assert forall k :: 0 <= k < |end| ==> end[k] != '\n' && end[k] != '|' && end[k] != ')' && end[k] != '`';
  }

  lemma RowTexts()
    ensures '<' !in "| " && '<' !in " | " && '>' !in " " && '<' !in " [run](" && '<' !in " | `" && '<' !in " | _—_ |"
  {
  }

  /** A table row holds END exactly when one of its fields does. */
  lemma RowHoldsEnd(n: nat, row: Row)
    ensures Contains(RowLine(n, row), LEDGER.end) <==> HoldsEnd(row)
  {
    hide Contains;
    var p := LEDGER.end;
    EndShape();
    RowTexts();
    var cookie := " | `" + row.cookie + "`" + " | _—_ |";
    var sdk := " | `" + row.sdk + "`" + cookie;
    var cli := " | `" + row.cli + "`" + sdk;
    var outcome := " | `" + row.outcome + "`" + cli;
    var url := " [run](" + row.runUrl + ")" + outcome;
    assert '<' !in "| " + Decimal(n) + " | ";
    ContainsField("| " + Decimal(n) + " | ", row.runDate + " ", '|', url, p);
    ContainsBefore(row.runDate, " ", p);
    ContainsField(" [run](", row.runUrl, ')', outcome, p);
    ContainsField(" | `", row.outcome, '`', cli, p);
    ContainsField(" | `", row.cli, '`', sdk, p);
    ContainsField(" | `", row.sdk, '`', cookie, p);
    ContainsField(" | `", row.cookie, '`', " | _—_ |", p);
    ContainsNeeds(" | _—_ |", p);
  }

  lemma RowLinesHoldEnd(rows: seq<Row>)
    ensures AnyHolds(RowLines(rows), LEDGER.end) <==> EndInRows(rows)
  {
    hide Contains, RowLine, HoldsEnd;
    var lines := RowLines(rows);
    if rows == [] {
      EmptyTablePlain();
      PlainHoldsNothing(lines);
    } else {
      forall i | 0 <= i < |rows| ensures Contains(lines[i], LEDGER.end) <==> HoldsEnd(rows[i]) {
        RowHoldsEnd(i + 1, rows[i]);
      }
    }
  }

  lemma EmptyTablePlain()
    ensures Plain(RowLines([]))
  {
    assert '<' !in "| _no nightly runs recorded yet_ ";
    assert '<' !in "| — | — | — | — | — | — | — |";
  }

  ghost predicate Plain(lines: seq<string>) {
    forall i :: 0 <= i < |lines| ==> '<' !in lines[i]
  }

  lemma PlainHoldsNothing(lines: seq<string>)
    requires Plain(lines)
    ensures !AnyHolds(lines, LEDGER.end)
  {
    hide Contains;
    EndShape();
    forall i | 0 <= i < |lines| ensures !Contains(lines[i], LEDGER.end) {
      ContainsNeeds(lines[i], LEDGER.end);
    }
  }

  lemma GateLinesPlain(consecutive: nat)
    ensures Plain(GateLines(consecutive))
  {
    GateLineStart();
    GateLineMiddle();
    GateLineLink();
    GateLineEnd();
  }

  lemma GateLineStart()
    ensures '<' !in "> ✅ **Gate closed.** 14 " && '<' !in "consecutive green nights "
  {
  }

  lemma GateLineMiddle()
    ensures '<' !in "reached. Proceed to the " && '<' !in "closure-block sign-off "
  {
  }

  lemma GateLineLink()
    ensures '<' !in "below, then to [260-cookie-" && '<' !in "rollout-production-flip.md]("
  {
  }

  lemma GateLineEnd()
    ensures '<' !in "../runbooks/260-cookie-" && '<' !in "rollout-production-flip.md)."
  {
  }

  lemma TableHeadPlain()
    ensures Plain(TableHead())
  {
    TableNamesPlain();
    TableRulePlain();
  }

  lemma TableNamesPlain()
    ensures '<' !in "| #  | Run date (UTC) | Workflow "
    ensures '<' !in "run | Outcome | CLI | SDK | " && '<' !in "Cookie | Notes |"
  {
  }

  lemma TableRulePlain()
    ensures '<' !in "|----|----------------|--------"
    ensures '<' !in "------|---------|-----|-----" && '<' !in "|--------|-------|"
  {
  }

  lemma CounterPlain(consecutive: nat)
    ensures Plain(["", "**Consecutive green nights:** " + Decimal(consecutive) + " / 14"])
  {
    assert '<' !in "**Consecutive green nights:** ";
    assert '<' !in Decimal(consecutive);
    assert '<' !in " / 14";
  }

  lemma BodyHoldsEnd(rows: seq<Row>, consecutive: nat)
    ensures Contains(Join(BodyLines(rows, consecutive), "\n"), LEDGER.end) <==> EndInRows(rows)
  {
    hide Contains, GateLines, TableHead, RowLines, AnyHolds, EndInRows, Join;
    var p := LEDGER.end;
    var a, b, c, d := ["", "**Consecutive green nights:** " + Decimal(consecutive) + " / 14"],
                      GateLines(consecutive), TableHead(), RowLines(rows);
    CounterPlain(consecutive);
    GateLinesPlain(consecutive);
    TableHeadPlain();
    PlainHoldsNothing(a);
    PlainHoldsNothing(b);
    PlainHoldsNothing(c);
    PlainHoldsNothing([""]);
    RowLinesHoldEnd(rows);
    AnyHoldsAppend(a, b, p);
    AnyHoldsAppend(a + b, c, p);
    AnyHoldsAppend(a + b + c, d, p);
    AnyHoldsAppend(a + b + c + d, [""], p);
    EndShape();
    JoinHolds(BodyLines(rows, consecutive), p);
  }

  /** The section opens with a comment that is not END: it goes on with a space
      where END goes on with a letter. */
  lemma OpeningIsNotEnd(opening: string, rest: string)
    requires |opening| == 19 && opening[0] == '\n' && opening[1] == '<' && opening[18] == ' '
    requires '<' !in opening[2..]
    ensures Contains(opening + rest, LEDGER.end) <==> Contains(rest, LEDGER.end)
  {
    var s, end := opening + rest, LEDGER.end;
    EndShape();
    ContainsAppend(opening, rest, end);
    assert forall i :: 2 <= i < 19 ==> s[i] == opening[2..][i - 2];
    forall i | 0 <= i <= |s| && OccursAt(s, end, i) ensures Contains(rest, end) {
      OccursChar(s, end, i, 0);
      OccursChar(s, end, i, 17);
      OccursInPart(opening, rest, "", end, i);
      assert opening + rest + "" == s;
      assert OccursAt(rest, end, i - 19);
    }
  }

  lemma OpeningShape()
    ensures var opening := "\n<!-- auto-ledger: ";
            |opening| == 19 && opening[0] == '\n' && opening[1] == '<' && opening[18] == ' ' && '<' !in opening[2..]
  {
    var opening := "\n<!-- auto-ledger: ";
    assert forall k :: 2 <= k < |opening| ==> opening[k] != '<';
  }

  lemma CommentPlain(consecutive: nat)
    ensures '<' !in "consecutive_green=" + Decimal(consecutive) + " / target=14 -->" + "\n"
  {
    assert '<' !in "consecutive_green=";
    assert '<' !in Decimal(consecutive);
    assert '<' !in " / target=14 -->";
  }

  /** A rendered section holds the END sentinel exactly when some field of some row
      does. */
  lemma RenderHoldsEnd(rows: seq<Row>, consecutive: nat)
    ensures Contains(Render(rows, consecutive), LEDGER.end) <==> EndInRows(rows)
  {
    hide Contains, BodyLines, Join, EndInRows;
    var body := Join(BodyLines(rows, consecutive), "\n");
    var comment := "consecutive_green=" + Decimal(consecutive) + " / target=14 -->" + "\n";
    BodyHoldsEnd(rows, consecutive);
    CommentPlain(consecutive);
    OpeningShape();
    EndShape();
    OpeningIsNotEnd("\n<!-- auto-ledger: ", comment + body);
    ContainsBehind(comment, body, LEDGER.end);
  }

  // ----------------------------------------------------------- what the table shows

  /** The cells of a row's line: number, date, link, outcome, the three jobs. */
  function Cells(n: nat, row: Row): seq<string> {
    ["", " " + Decimal(n) + " ", " " + row.runDate + " ", " [run](" + row.runUrl + ") ", " `" + row.outcome + "` ",
     " `" + row.cli + "` ", " `" + row.sdk + "` ", " `" + row.cookie + "` ", " _—_ ", ""]
  }

  lemma CodeCell(text: string, rest: string)
    ensures " | `" + text + "`" + (" " + rest) == " " + "|" + (" `" + text + "` " + rest)
  {
  }

  lemma RowLineIsJoin(n: nat, row: Row)
    ensures RowLine(n, row) == Join(Cells(n, row), "|")
  {
    var c := Cells(n, row);
    hide Join;
    JoinOne("", "|");
    JoinFirst(c[8], [c[9]], "|");
    JoinFirst(c[7], [c[8], c[9]], "|");
    JoinFirst(c[6], [c[7], c[8], c[9]], "|");
    JoinFirst(c[5], [c[6], c[7], c[8], c[9]], "|");
    JoinFirst(c[4], [c[5], c[6], c[7], c[8], c[9]], "|");
    JoinLastCells(row);
    JoinFirst(c[3], [c[4], c[5], c[6], c[7], c[8], c[9]], "|");
    JoinFirst(c[2], [c[3], c[4], c[5], c[6], c[7], c[8], c[9]], "|");
    JoinFirst(c[1], [c[2], c[3], c[4], c[5], c[6], c[7], c[8], c[9]], "|");
    JoinFirst(c[0], [c[1], c[2], c[3], c[4], c[5], c[6], c[7], c[8], c[9]], "|");
    CellLists(c);
    FirstCells(n, row, c[4] + "|" + (c[5] + "|" + (c[6] + "|" + (c[7] + "|" + (c[8] + "|" + c[9])))));
  }

  lemma CellLists(c: seq<string>)
    requires |c| == 10
    ensures [c[8]] + [c[9]] == [c[8], c[9]] && [c[7]] + [c[8], c[9]] == [c[7], c[8], c[9]]
    ensures [c[6]] + [c[7], c[8], c[9]] == [c[6], c[7], c[8], c[9]]
    ensures [c[5]] + [c[6], c[7], c[8], c[9]] == [c[5], c[6], c[7], c[8], c[9]]
    ensures [c[4]] + [c[5], c[6], c[7], c[8], c[9]] == [c[4], c[5], c[6], c[7], c[8], c[9]]
    ensures [c[3]] + [c[4], c[5], c[6], c[7], c[8], c[9]] == [c[3], c[4], c[5], c[6], c[7], c[8], c[9]]
    ensures [c[2]] + [c[3], c[4], c[5], c[6], c[7], c[8], c[9]] == [c[2], c[3], c[4], c[5], c[6], c[7], c[8], c[9]]
    ensures [c[1]] + [c[2], c[3], c[4], c[5], c[6], c[7], c[8], c[9]]
            == [c[1], c[2], c[3], c[4], c[5], c[6], c[7], c[8], c[9]]
    ensures [c[0]] + [c[1], c[2], c[3], c[4], c[5], c[6], c[7], c[8], c[9]] == c
  {
  }

  /** The text from the outcome on. */
  lemma JoinLastCells(row: Row)
    ensures var tail := " `" + row.outcome + "` " + "|" + (" `" + row.cli + "` " + "|" + (" `" + row.sdk + "` " + "|"
                          + (" `" + row.cookie + "` " + "|" + (" _—_ " + "|" + ""))));
            " | `" + row.outcome + "`" + (" | `" + row.cli + "`" + (" | `" + row.sdk + "`" + (
              " | `" + row.cookie + "`" + " | _—_ |"))) == " " + "|" + tail
  {
    var note := " _—_ " + "|" + "";
    assert " | _—_ |" == " " + ("|" + note);
    var cookie := " `" + row.cookie + "` " + ("|" + note);
    CodeCell(row.cookie, "|" + note);
    var sdk := " `" + row.sdk + "` " + ("|" + cookie);
    CodeCell(row.sdk, "|" + cookie);
    var cli := " `" + row.cli + "` " + ("|" + sdk);
    CodeCell(row.cli, "|" + sdk);
    CodeCell(row.outcome, "|" + cli);
    Assoc(" `" + row.cookie + "` ", "|", note);
    Assoc(" `" + row.sdk + "` ", "|", cookie);
    Assoc(" `" + row.cli + "` ", "|", sdk);
    Assoc(" `" + row.outcome + "` ", "|", cli);
    assert " " + ("|" + cookie) == " " + "|" + cookie && " " + ("|" + sdk) == " " + "|" + sdk;
    assert " " + ("|" + cli) == " " + "|" + cli;
  }

  lemma FirstCells(n: nat, row: Row, tail: string)
    ensures "| " + Decimal(n) + " | " + (row.runDate + " ") + "|" + (" [run](" + row.runUrl + ")" + (" " + "|" + tail))
            == "" + "|" + (" " + Decimal(n) + " " + "|" + (" " + row.runDate + " " + "|" + (
                 " [run](" + row.runUrl + ") " + "|" + tail)))
  {
    var url := " [run](" + row.runUrl + ") " + "|" + tail;
    assert " [run](" + row.runUrl + ")" + (" " + "|" + tail) == url;
    var date := " " + row.runDate + " " + "|" + url;
    assert " | " == " |" + " ";
    assert " | " + (row.runDate + " ") + "|" + url == " " + "|" + date;
    assert "| " == "|" + " ";
    assert "| " + Decimal(n) + " | " + (row.runDate + " ") + "|" + url
        == "|" + " " + Decimal(n) + (" | " + (row.runDate + " ") + "|" + url);
  }

  /** A row's line, cut at its bars, shows each field in its own column, under the
      heading of that column. */
  lemma ColumnsShowFields(n: nat, row: Row)
    requires '|' !in row.runDate && '|' !in row.runUrl && '|' !in row.outcome
    requires '|' !in row.cli && '|' !in row.sdk && '|' !in row.cookie
    ensures Split(RowLine(n, row), '|') ==
            ["", " " + Decimal(n) + " ", " " + row.runDate + " ", " [run](" + row.runUrl + ") ",
             " `" + row.outcome + "` ", " `" + row.cli + "` ", " `" + row.sdk + "` ", " `" + row.cookie + "` ",
             " _—_ ", ""]
  {
    hide Join, Split, RowLine;
    RowLineIsJoin(n, row);
    NoBars(n, row);
    SplitJoin(Cells(n, row), '|');
  }

  lemma NoBars(n: nat, row: Row)
    requires '|' !in row.runDate && '|' !in row.runUrl && '|' !in row.outcome
    requires '|' !in row.cli && '|' !in row.sdk && '|' !in row.cookie
    ensures forall i :: 0 <= i < 10 ==> '|' !in Cells(n, row)[i]
  {
    assert '|' !in Decimal(n) && '|' !in " [run](" && '|' !in " `" && '|' !in "` " && '|' !in " _—_ " && '|' !in ") ";
  }

  lemma HeadingColumns()
    ensures Split(TableHead()[1], '|') ==
            ["", " #  ", " Run date (UTC) ", " Workflow run ", " Outcome ", " CLI ", " SDK ", " Cookie ", " Notes ", ""]
  {
    hide Join, Split;
    var a := ["", " #  ", " Run date (UTC) ", " Workflow run ", " Outcome ", " CLI ", " SDK ", " Cookie ", " Notes ",
              ""];
    HeadingText();
    NoBarsInHeadings();
    SplitJoin(a, '|');
  }

  lemma NoBarsInHeadings()
    ensures '|' !in " #  " && '|' !in " Run date (UTC) " && '|' !in " Workflow run " && '|' !in " Outcome "
    ensures '|' !in " CLI " && '|' !in " SDK " && '|' !in " Cookie " && '|' !in " Notes "
  {
  }

  lemma HeadingText()
    ensures Join(["", " #  ", " Run date (UTC) ", " Workflow run ", " Outcome ", " CLI ", " SDK ", " Cookie ",
                  " Notes ", ""], "|") == TableHead()[1]
  {
    hide Join;
    var notes := [" Notes ", ""];
    JoinOne("", "|");
    JoinFirst(" Notes ", [""], "|");
    assert [" Notes "] + [""] == notes && " Notes " + "|" + "" == " Notes |";
    JoinFirst(" Cookie ", notes, "|");
    assert [" Cookie "] + notes == [" Cookie ", " Notes ", ""] && " Cookie " + "|" + " Notes |" == " Cookie | Notes |";
    JoinFirst(" SDK ", [" Cookie ", " Notes ", ""], "|");
    JoinFirst(" CLI ", [" SDK ", " Cookie ", " Notes ", ""], "|");
    JoinFirst(" Outcome ", [" CLI ", " SDK ", " Cookie ", " Notes ", ""], "|");
    LaterHeadings();
    JoinFirst(" Workflow run ", [" Outcome ", " CLI ", " SDK ", " Cookie ", " Notes ", ""], "|");
    JoinFirst(" Run date (UTC) ", [" Workflow run ", " Outcome ", " CLI ", " SDK ", " Cookie ", " Notes ", ""], "|");
    JoinFirst(" #  ", [" Run date (UTC) ", " Workflow run ", " Outcome ", " CLI ", " SDK ", " Cookie ", " Notes ", ""],
              "|");
    JoinFirst("", [" #  ", " Run date (UTC) ", " Workflow run ", " Outcome ", " CLI ", " SDK ", " Cookie ", " Notes ",
                   ""], "|");
    HeadingLists();
    EarlierHeadings();
  }

  lemma HeadingLists()
    ensures [" SDK "] + [" Cookie ", " Notes ", ""] == [" SDK ", " Cookie ", " Notes ", ""]
    ensures [" CLI "] + [" SDK ", " Cookie ", " Notes ", ""] == [" CLI ", " SDK ", " Cookie ", " Notes ", ""]
    ensures [" Outcome "] + [" CLI ", " SDK ", " Cookie ", " Notes ", ""]
            == [" Outcome ", " CLI ", " SDK ", " Cookie ", " Notes ", ""]
    ensures [" Workflow run "] + [" Outcome ", " CLI ", " SDK ", " Cookie ", " Notes ", ""]
            == [" Workflow run ", " Outcome ", " CLI ", " SDK ", " Cookie ", " Notes ", ""]
    ensures [" Run date (UTC) "] + [" Workflow run ", " Outcome ", " CLI ", " SDK ", " Cookie ", " Notes ", ""]
            == [" Run date (UTC) ", " Workflow run ", " Outcome ", " CLI ", " SDK ", " Cookie ", " Notes ", ""]
    ensures [" #  "] + [" Run date (UTC) ", " Workflow run ", " Outcome ", " CLI ", " SDK ", " Cookie ", " Notes ", ""]
            == [" #  ", " Run date (UTC) ", " Workflow run ", " Outcome ", " CLI ", " SDK ", " Cookie ", " Notes ", ""]
    ensures [""] + [" #  ", " Run date (UTC) ", " Workflow run ", " Outcome ", " CLI ", " SDK ", " Cookie ", " Notes ",
                    ""]
            == ["", " #  ", " Run date (UTC) ", " Workflow run ", " Outcome ", " CLI ", " SDK ", " Cookie ", " Notes ",
                ""]
  {
  }

  lemma LaterHeadings()
    ensures " SDK " + "|" + " Cookie | Notes |" == " SDK | Cookie | Notes |"
    ensures " CLI " + "|" + " SDK | Cookie | Notes |" == " CLI | SDK | " + "Cookie | Notes |"
    ensures " Outcome " + "|" + (" CLI | SDK | " + "Cookie | Notes |") == " Outcome | CLI | SDK | " + "Cookie | Notes |"
  {
  }

  lemma EarlierHeadings()
    ensures var tail := " Outcome | CLI | SDK | " + "Cookie | Notes |";
            "" + "|" + (" #  " + "|" + (" Run date (UTC) " + "|" + (" Workflow run " + "|" + tail))) == TableHead()[1]
  {
    var top, more, last := "| #  | Run date (UTC) | Workflow ", "run | Outcome | CLI | SDK | ", "Cookie | Notes |";
    RunHeading(more, last);
    FirstHeadings(more + last);
    Assoc(top, more, last);
  }

  lemma RunHeading(more: string, last: string)
    requires more == "run | Outcome | CLI | SDK | "
    ensures " Workflow run " + "|" + (" Outcome | CLI | SDK | " + last) == " Workflow " + (more + last)
  {
    WorkflowText();
    Assoc(" Workflow run " + "|", " Outcome | CLI | SDK | ", last);
    Assoc(" Workflow ", more, last);
  }

  lemma FirstHeadings(rest: string)
    ensures "" + "|" + (" #  " + "|" + (" Run date (UTC) " + "|" + (" Workflow " + rest)))
            == "| #  | Run date (UTC) | Workflow " + rest
  {
    DateText();
    assert "" + "|" + (" #  " + "|" + (" Run date (UTC) " + "|" + (" Workflow " + rest)))
        == "" + "|" + (" #  " + "|" + (" Run date (UTC) " + "|")) + " Workflow " + rest;
  }

  lemma WorkflowText()
    ensures " Workflow run " + "|" + " Outcome | CLI | SDK | " == " Workflow " + "run | Outcome | CLI | SDK | "
  {
  }

  lemma DateText()
    ensures "" + "|" + (" #  " + "|" + (" Run date (UTC) " + "|")) + " Workflow " == "| #  | Run date (UTC) | Workflow "
  {
  }

  /** The whole section: an opening that only the counter decides, then one line per
      row, oldest first and numbered from one. The gate's notice stands in the
      opening from 14 on. */
  lemma RenderInFull(rows: seq<Row>, consecutive: nat)
    ensures GateLines(consecutive) == [] <==> consecutive < 14
    ensures Render(rows, consecutive) ==
            "\n<!-- auto-ledger: " + ("consecutive_green=" + Decimal(consecutive) + " / target=14 -->" + "\n"
            + (Join(["", "**Consecutive green nights:** " + Decimal(consecutive) + " / 14"]
                    + GateLines(consecutive) + TableHead(), "\n")
               + "\n" + Join(RowLines(rows), "\n") + "\n"))
    ensures rows != [] ==> |RowLines(rows)| == |rows| &&
                           forall i :: 0 <= i < |rows| ==> RowLines(rows)[i] == RowLine(i + 1, rows[i])
  {
    hide Join, TableHead, RowLine, Decimal;
    HeadNotEmpty();
    var top := ["", "**Consecutive green nights:** " + Decimal(consecutive) + " / 14"]
               + GateLines(consecutive) + TableHead();
    JoinAppend(top, RowLines(rows), "\n");
    JoinAppend(top + RowLines(rows), [""], "\n");
    JoinOne("", "\n");
    assert Join(BodyLines(rows, consecutive), "\n") + "" == Join(BodyLines(rows, consecutive), "\n");
  }

  lemma HeadNotEmpty()
    ensures TableHead() != []
  {
  }
}
