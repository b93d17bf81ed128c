/** Blank and comment lines between the continued lines of an instruction
    (scripts/audit_image_build_contexts.py, `parse_dockerfile_copies_via_text`).
    A Dockerfile's reader skips them; the audit's does not. */
module DockerNotes {
  import opened Text
  import opened WordGaps
  import opened Dockerfile

  /** The text of a physical line, as the loop strips it. */
  function Core(raw: string): string { Strip(RStrip(raw, IsSpace), IsSpace) }

  /** A line that a Dockerfile's reader skips. */
  predicate Note(raw: string) { Core(raw) == "" || "#" <= Core(raw) }

  /** A line that goes on to the next one. */
  predicate Continues(raw: string) { EndsWith(Core(raw), BACKSLASH) }

  /** A first line that leaves something to be continued. */
  predicate Opens(raw: string) {
    var line := RStrip(raw, IsSpace);
    EndsWith(line, BACKSLASH) && RStrip(line[..|line| - 1], IsSpace) != ""
  }

  /** The lines between the first and the last one: continued, or notes. */
  predicate Inner(lines: seq<string>) {
    forall i :: 0 <= i < |lines| ==> Note(lines[i]) || Continues(lines[i])
  }

  function WithoutNotes(lines: seq<string>): seq<string> {
    if lines == [] then []
    else (if Note(lines[0]) then [] else [lines[0]]) + WithoutNotes(lines[1..])
  }

  // -------------------------------------------------------------------- stripping

  lemma {:induction false} RStripPrefix(s: string, f: char -> bool)
    ensures RStrip(s, f) <= s
  {
    if s != "" && f(s[|s| - 1]) {
      RStripPrefix(s[..|s| - 1], f);
    }
  }

  /** Stripping the end stops at any character that stays. */
  lemma {:induction false} RStripKeeps(a: string, b: string)
    requires a != "" && !IsSpace(a[|a| - 1])
    ensures a <= RStrip(a + b, IsSpace)
  {
    hide IsSpace;
    if b == "" {
      assert a + b == a;
    } else if IsSpace(b[|b| - 1]) {
      RStripKeeps(a, b[..|b| - 1]);
      assert (a + b)[..|a + b| - 1] == a + b[..|b| - 1];
    }
  }

  lemma CoreIsTrim(raw: string)
    ensures Core(raw) == "" || Trim(Core(raw))
  {
    hide IsSpace;
    var t := LStrip(RStrip(raw, IsSpace), IsSpace);
    RStripPrefix(t, IsSpace);
    assert Core(raw) == RStrip(t, IsSpace);
  }

  /** One line read after held text. */
  lemma ReadAfter(logical: seq<string>, buf: string, raw: string)
    requires buf != ""
    ensures var t := buf + " " + Core(raw);
            ScanLine(Scan(logical, buf), raw) ==
            if Continues(raw) then Scan(logical, RStrip(t[..|t| - 1], IsSpace)) else Scan(logical + [t], "")
  {
    hide IsSpace, RStrip, Strip;
    if Core(raw) == "" {
      LastChar(buf + " " + Core(raw));
      assert (buf + " " + Core(raw))[|buf|] == ' ';
    } else {
      LastCharOfSum(buf + " ", Core(raw));
    }
  }

  // --------------------------------------------------------------- what is logical

  /** The line that is finished next, at place k: it is finished with this start,
      or it is still held and starts so. */
  predicate StartsSo(s: Scan, k: nat, start: string) {
    (|s.logical| == k && start <= s.buf) || (|s.logical| > k && start <= s.logical[k])
  }

  lemma StartStays(s: Scan, k: nat, start: string, raw: string)
    requires StartsSo(s, k, start) && start != "" && !IsSpace(start[|start| - 1])
    ensures StartsSo(ScanLine(s, raw), k, start)
  {
    hide IsSpace, Continues, Core;
    if |s.logical| == k {
      ReadAfter(s.logical, s.buf, raw);
      var t := s.buf + " " + Core(raw);
      StartOfSum(start, s.buf, " " + Core(raw));
      Assoc(s.buf, " ", Core(raw));
      if Continues(raw) {
        KeptStart(start, t);
      }
    } else {
      LogicalGrows(s, raw);
    }
  }

  lemma StartOfSum(start: string, a: string, b: string)
    requires start <= a && b != ""
    ensures start <= a + b && |start| < |a + b|
  {
  }

  lemma KeptStart(start: string, t: string)
    requires start <= t && |start| < |t| && start != "" && !IsSpace(start[|start| - 1])
    ensures start <= RStrip(t[..|t| - 1], IsSpace)
  {
    hide IsSpace, RStrip;
    var rest := t[..|t| - 1][|start|..];
    assert t[..|t| - 1] == start + rest;
    RStripKeeps(start, rest);
  }

  lemma LogicalGrows(s: Scan, raw: string)
    ensures s.logical <= ScanLine(s, raw).logical
  {
    hide IsSpace, RStrip, Strip, EndsWith;
  }

  lemma {:induction false} StartStaysOn(s: Scan, k: nat, start: string, lines: seq<string>)
    requires StartsSo(s, k, start) && start != "" && !IsSpace(start[|start| - 1])
    ensures StartsSo(ScanLines(s, lines), k, start)
    decreases |lines|
  {
    hide IsSpace, ScanLine, StartsSo;
    if lines != [] {
      StartStays(s, k, start, lines[0]);
      StartStaysOn(ScanLine(s, lines[0]), k, start, lines[1..]);
    }
  }

  /** All logical lines of a scan that has ended. */
  function Finished(s: Scan): seq<string> {
    s.logical + if s.buf != "" then [s.buf] else []
  }

  lemma FinishedStart(s: Scan, k: nat, start: string)
    requires StartsSo(s, k, start) && start != ""
    ensures |Finished(s)| > k && start <= Finished(s)[k]
  {
  }

  lemma {:induction false} LogicalStays(s: Scan, lines: seq<string>)
    ensures s.logical <= ScanLines(s, lines).logical
    decreases |lines|
  {
    hide ScanLine;
    if lines != [] {
      LogicalGrows(s, lines[0]);
      LogicalStays(ScanLine(s, lines[0]), lines[1..]);
    }
  }

  /** A finished line stays what it is. */
  lemma FinishedStays(s: Scan, lines: seq<string>, k: nat)
    requires k < |s.logical|
    ensures |Finished(ScanLines(s, lines))| > k && Finished(ScanLines(s, lines))[k] == s.logical[k]
  {
    hide ScanLine, ScanLines;
    LogicalStays(s, lines);
  }

  // ---------------------------------------------------------- without and with notes

  /** Text that is held and goes on with a real line. */
  predicate Held(buf: string) { buf != "" && !IsSpace(buf[|buf| - 1]) }

  /** The start that a character after the held text fixes. */
  function Begun(buf: string, c: char): string { buf + " " + [c] }

  lemma BegunEnds(buf: string, c: char)
    requires !IsSpace(c)
    ensures Begun(buf, c) != "" && !IsSpace(Begun(buf, c)[|Begun(buf, c)| - 1])
  {
    hide IsSpace;
  }

  lemma BegunBy(buf: string, text: string)
    requires text != ""
    ensures Begun(buf, text[0]) <= buf + " " + text
  {
    assert text == [text[0]] + text[1..];
    Assoc(buf + " ", [text[0]], text[1..]);
  }

  /** A line with text that does not end there: with more than the backslash it
      begins the continuation, with the backslash alone it changes nothing. */
  lemma RealLineStep(logical: seq<string>, buf: string, raw: string)
    requires Held(buf) && Continues(raw)
    ensures Core(raw) == BACKSLASH ==> ScanLine(Scan(logical, buf), raw) == Scan(logical, buf)
    ensures Core(raw) != BACKSLASH ==>
              StartsSo(ScanLine(Scan(logical, buf), raw), |logical|, Begun(buf, Core(raw)[0])) && !IsSpace(Core(raw)[0])
  {
    hide IsSpace, RStrip, Core;
    CoreIsTrim(raw);
    ReadAfter(logical, buf, raw);
    var text := Core(raw);
    var t := buf + " " + text;
    LastChar(text);
    if text == BACKSLASH {
      assert t[..|t| - 1] == buf + " ";
      SpaceFacts();
      RStripPadded(buf, " ", IsSpace);
    } else {
      assert |text| > 1;
      BegunEnds(buf, text[0]);
      BegunBy(buf, text);
      KeptStart(Begun(buf, text[0]), t);
    }
  }

  /** Without notes, the line goes on with a real character. */
  lemma {:induction false} RealLines(logical: seq<string>, buf: string, lines: seq<string>, last: string,
                                     post: seq<string>) returns (c: char)
    requires Held(buf) && forall i :: 0 <= i < |lines| ==> Continues(lines[i]) && !Note(lines[i])
    requires !Note(last) && !Continues(last)
    ensures c != '#' && !IsSpace(c)
    ensures var all := Finished(ScanLines(Scan(logical, buf), lines + [last] + post));
            |all| > |logical| && Begun(buf, c) <= all[|logical|]
    decreases |lines|
  {
    hide IsSpace, ScanLine, StartsSo, Finished, Core, Continues, Note, Held;
    var s := Scan(logical, buf);
    if lines == [] {
      assert lines + [last] + post == [last] + post && ([last] + post)[1..] == post;
      c := LastLine(logical, buf, last);
      BegunEnds(buf, c);
      StartStaysOn(ScanLine(s, last), |logical|, Begun(buf, c), post);
      FinishedStart(ScanLines(ScanLine(s, last), post), |logical|, Begun(buf, c));
    } else {
      var rest := lines[1..] + [last] + post;
      assert (lines + [last] + post)[1..] == rest && (lines + [last] + post)[0] == lines[0];
      RealLineStep(logical, buf, lines[0]);
      if Core(lines[0]) == BACKSLASH {
        c := RealLines(logical, buf, lines[1..], last, post);
      } else {
        NoteStart(lines[0]);
        c := Core(lines[0])[0];
        BegunEnds(buf, c);
        StartStaysOn(ScanLine(s, lines[0]), |logical|, Begun(buf, c), rest);
        FinishedStart(ScanLines(ScanLine(s, lines[0]), rest), |logical|, Begun(buf, c));
      }
    }
  }

  lemma NoteStart(raw: string)
    ensures Note(raw) <==> Core(raw) == "" || Core(raw)[0] == '#'
  {
    hide Core;
  }

  lemma LastLine(logical: seq<string>, buf: string, last: string) returns (c: char)
    requires Held(buf) && !Note(last) && !Continues(last)
    ensures c != '#' && !IsSpace(c)
    ensures StartsSo(ScanLine(Scan(logical, buf), last), |logical|, Begun(buf, c))
  {
    hide IsSpace, Core, Continues;
    CoreIsTrim(last);
    NoteStart(last);
    ReadAfter(logical, buf, last);
    c := Core(last)[0];
    BegunBy(buf, Core(last));
  }

  /** With a note next, the line ends in a space or goes on with '#', whatever
      follows. */
  lemma NoteNext(logical: seq<string>, buf: string, note: string, left: seq<string>)
    requires Held(buf) && Note(note)
    ensures var all := Finished(ScanLines(Scan(logical, buf), [note] + left));
            |all| > |logical| && (all[|logical|] == buf + " " || Begun(buf, '#') <= all[|logical|])
  {
    hide IsSpace, ScanLine, Finished, Core, Continues, Note, RStrip;
    var s := Scan(logical, buf);
    assert ([note] + left)[1..] == left;
    NoteStart(note);
    CoreIsTrim(note);
    ReadAfter(logical, buf, note);
    if Core(note) == "" {
      BlankEnds(note);
      assert buf + " " + "" == buf + " ";
      FinishedStays(ScanLine(s, note), left, |logical|);
    } else {
      HashIsNoSpace();
      BegunEnds(buf, '#');
      CommentStep(logical, buf, note);
      StartStaysOn(ScanLine(s, note), |logical|, Begun(buf, '#'), left);
      FinishedStart(ScanLines(ScanLine(s, note), left), |logical|, Begun(buf, '#'));
    }
  }

  lemma BlankEnds(raw: string)
    requires Core(raw) == ""
    ensures !Continues(raw)
  {
    hide Core;
  }

  lemma HashIsNoSpace()
    ensures !IsSpace('#')
  {
  }

  lemma CommentStep(logical: seq<string>, buf: string, note: string)
    requires Held(buf) && Core(note) != "" && Core(note)[0] == '#'
    ensures StartsSo(ScanLine(Scan(logical, buf), note), |logical|, Begun(buf, '#'))
  {
    hide IsSpace, Core, RStrip;
    ReadAfter(logical, buf, note);
    var text := Core(note);
    BegunBy(buf, text);
    HashIsNoSpace();
    BegunEnds(buf, '#');
    LastChar(text);
    if Continues(note) {
      assert |text| > 1;
      KeptStart(Begun(buf, '#'), buf + " " + text);
    }
  }

  /** Held text, then a note: what is read differs from what is read without the
      note, whatever stands in place of the rest. */
  lemma NoteChanges(logical: seq<string>, buf: string, note: string, left: seq<string>,
                    lines: seq<string>, last: string, post: seq<string>)
    requires Held(buf) && Note(note)
    requires forall i :: 0 <= i < |lines| ==> Continues(lines[i]) && !Note(lines[i])
    requires !Note(last) && !Continues(last)
    ensures Finished(ScanLines(Scan(logical, buf), [note] + left))
            != Finished(ScanLines(Scan(logical, buf), lines + [last] + post))
  {
    hide IsSpace, ScanLines, Finished, Note, Continues, Held;
    NoteNext(logical, buf, note, left);
    var c := RealLines(logical, buf, lines, last, post);
    var s := Finished(ScanLines(Scan(logical, buf), [note] + left))[|logical|];
    var t := Finished(ScanLines(Scan(logical, buf), lines + [last] + post))[|logical|];
    assert t[|buf| + 1] == Begun(buf, c)[|buf| + 1] == c;
    if Begun(buf, '#') <= s {
      assert s[|buf| + 1] == Begun(buf, '#')[|buf| + 1] == '#';
    }
  }

  // ------------------------------------------------------------------ the theorem

  lemma OpensHeld(logical: seq<string>, raw: string)
    requires Opens(raw)
    ensures ScanLine(Scan(logical, ""), raw).logical == logical && Held(ScanLine(Scan(logical, ""), raw).buf)
  {
    hide IsSpace;
  }

  /** Real lines keep the text held. */
  lemma RealLineHeld(logical: seq<string>, buf: string, raw: string)
    requires Held(buf) && Continues(raw)
    ensures ScanLine(Scan(logical, buf), raw).logical == logical && Held(ScanLine(Scan(logical, buf), raw).buf)
  {
    hide IsSpace, Core, RStrip, Continues;
    ReadAfter(logical, buf, raw);
    var t := buf + " " + Core(raw);
    StartOfSum(buf, buf, " " + Core(raw));
    Assoc(buf, " ", Core(raw));
    KeptStart(buf, t);
    StrippedEnds(t[..|t| - 1]);
  }

  lemma StrippedEnds(s: string)
    ensures RStrip(s, IsSpace) != "" ==> !IsSpace(RStrip(s, IsSpace)[|RStrip(s, IsSpace)| - 1])
  {
    hide IsSpace;
  }

  lemma {:induction false} WithoutNotesIsReal(lines: seq<string>)
    requires Inner(lines)
    ensures forall i :: 0 <= i < |WithoutNotes(lines)| ==>
                          Continues(WithoutNotes(lines)[i]) && !Note(WithoutNotes(lines)[i])
  {
    hide Note, Continues;
    if lines != [] {
      WithoutNotesIsReal(lines[1..]);
    }
  }

  ghost predicate HasNote(lines: seq<string>) {
    exists i :: 0 <= i < |lines| && Note(lines[i])
  }

  lemma {:induction false} NothingToDrop(lines: seq<string>)
    requires !HasNote(lines)
    ensures WithoutNotes(lines) == lines
  {
    hide Note;
    if lines != [] {
      NothingToDrop(lines[1..]);
    }
  }

  /** From held text on: the lines read as without their notes exactly when there
      are none. */
  lemma {:induction false} NotesFrom(logical: seq<string>, buf: string, lines: seq<string>, last: string,
                                     post: seq<string>)
    requires Held(buf) && Inner(lines) && !Note(last) && !Continues(last)
    ensures (Finished(ScanLines(Scan(logical, buf), lines + [last] + post))
             == Finished(ScanLines(Scan(logical, buf), WithoutNotes(lines) + [last] + post))) <==> !HasNote(lines)
    decreases |lines|
  {
    hide ScanLine, Note, Continues, Finished, Held, IsSpace;
    if !HasNote(lines) {
      NothingToDrop(lines);
    } else if Note(lines[0]) {
      WithoutNotesIsReal(lines);
      assert lines + [last] + post == [lines[0]] + (lines[1..] + [last] + post);
      NoteChanges(logical, buf, lines[0], lines[1..] + [last] + post, WithoutNotes(lines), last, post);
    } else {
      var s := ScanLine(Scan(logical, buf), lines[0]);
      var rest := WithoutNotes(lines[1..]);
      RealLineHeld(logical, buf, lines[0]);
      NotesFrom(logical, s.buf, lines[1..], last, post);
      assert WithoutNotes(lines) == [lines[0]] + rest;
      OneLineOn(Scan(logical, buf), lines[0], lines[1..] + [last] + post);
      OneLineOn(Scan(logical, buf), lines[0], rest + [last] + post);
      assert lines + [last] + post == [lines[0]] + (lines[1..] + [last] + post);
      assert WithoutNotes(lines) + [last] + post == [lines[0]] + (rest + [last] + post);
      NoteBehind(lines);
    }
  }

  lemma OneLineOn(s: Scan, line: string, rest: seq<string>)
    ensures ScanLines(s, [line] + rest) == ScanLines(ScanLine(s, line), rest)
  {
    hide ScanLine;
    assert ([line] + rest)[1..] == rest;
  }

  lemma NoteBehind(lines: seq<string>)
    requires lines != [] && !Note(lines[0])
    ensures HasNote(lines) <==> HasNote(lines[1..])
  {
    hide Note;
    if i :| 0 <= i < |lines| && Note(lines[i]) {
      assert lines[1..][i - 1] == lines[i];
    }
    if i :| 0 <= i < |lines[1..]| && Note(lines[1..][i]) {
      assert lines[i + 1] == lines[1..][i];
    }
  }

  /** An instruction over any number of continued lines, with blank and comment
      lines anywhere between its first and its last line: the file reads as the
      file without those lines exactly when there are none. */
  lemma NotesExactly(pre: seq<string>, first: string, inner: seq<string>, last: string, post: seq<string>)
    requires Closed(pre) && Opens(first) && Inner(inner) && !Note(last) && !Continues(last)
    ensures (Logical(pre + [first] + inner + [last] + post)
             == Logical(pre + [first] + WithoutNotes(inner) + [last] + post)) <==> !HasNote(inner)
  {
    hide ScanLine, Opens, Inner, Note, Continues, HasNote, WithoutNotes, Held, IsSpace;
    var s := ScanLines(Scan([], ""), pre);
    OpensHeld(s.logical, first);
    var held := ScanLine(s, first);
    assert held == Scan(s.logical, held.buf);
    NotesFrom(s.logical, held.buf, inner, last, post);
    ReadTo(pre, first, inner + [last] + post);
    ReadTo(pre, first, WithoutNotes(inner) + [last] + post);
    assert pre + [first] + inner + [last] + post == pre + ([first] + (inner + [last] + post));
    assert pre + [first] + WithoutNotes(inner) + [last] + post
        == pre + ([first] + (WithoutNotes(inner) + [last] + post));
  }

  lemma ReadTo(pre: seq<string>, first: string, rest: seq<string>)
    ensures Logical(pre + ([first] + rest)) == Finished(ScanLines(ScanLine(ScanLines(Scan([], ""), pre), first), rest))
  {
    hide ScanLine, ScanLines;
    ScanAppend(Scan([], ""), pre, [first] + rest);
    OneLineOn(ScanLines(Scan([], ""), pre), first, rest);
  }

  // -------------------------------------------------------------------- at inputs

  lemma CoreOf(text: string)
    requires text == "" || Trim(text)
    ensures Core(text) == text
  {
    hide IsSpace;
    BlankNothing();
    TrimPadded("", text, "");
    assert "" + text + "" == text && "" + text == text;
    TrimPadded("", text, "");
  }

  /** One line of an instruction, a line between, and the destination. */
  lemma ThreeLines(between: string)
    requires between == "" || Trim(between)
    ensures !EndsWith(between, BACKSLASH) ==>
              Logical(["COPY a \\", between, "b /dst"]) == ["COPY a " + between, "b /dst"]
    ensures EndsWith(between, BACKSLASH) ==>
              Logical(["COPY a \\", between, "b /dst"]) ==
              [RStrip(("COPY a " + between)[..|between| + 6], IsSpace) + " " + "b /dst"]
  {
    hide IsSpace, RStrip, Strip, ScanLine, Core, Trim;
    FixedLines();
    var open := Scan([], "COPY a");
    CoreOf(between);
    ReadAfter([], "COPY a", between);
    var t := "COPY a" + " " + between;
    assert t == "COPY a " + between;
    var lines := ["COPY a \\", between, "b /dst"];
    assert lines[1..] == [between, "b /dst"] && [between, "b /dst"][1..] == ["b /dst"] && ["b /dst"][1..] == [];
    assert ScanLines(Scan([], ""), lines) == ScanLines(open, [between, "b /dst"]);
    var next := ScanLine(open, between);
    assert ScanLines(open, [between, "b /dst"]) == ScanLine(next, "b /dst");
    if EndsWith(between, BACKSLASH) {
      KeptStart("COPY a", t);
      ReadAfter([], next.buf, "b /dst");
    } else {
      assert next == Scan([t], "");
    }
  }

  lemma FixedLines()
    ensures forall logical :: ScanLine(Scan(logical, ""), "b /dst") == Scan(logical + ["b /dst"], "")
    ensures ScanLine(Scan([], ""), "COPY a \\") == Scan([], "COPY a")
    ensures Core("b /dst") == "b /dst" && !Continues("b /dst") && !IsSpace("COPY a"[5])
  {
    hide ScanLine, Core, IsSpace, RStrip, Strip;
    var first, rest := Piece("", "COPY a", " ", ""), Piece("", "b /dst", "", "");
    FixedPieces();
    FirstStep([], first);
    forall logical ensures ScanLine(Scan(logical, ""), "b /dst") == Scan(logical + ["b /dst"], "") {
      FinalStep(logical, "", rest);
    }
    CoreOf("b /dst");
    LastChar("b /dst");
  }

  lemma FixedPieces()
    ensures WellSplit(Piece("", "COPY a", " ", "")) && Ends(Piece("", "b /dst", "", "")) && Trim("b /dst")
    ensures Continued(Piece("", "COPY a", " ", "")) == "COPY a \\" && Final(Piece("", "b /dst", "", "")) == "b /dst"
    ensures "" + "COPY a" == "COPY a" && "" + "b /dst" == "b /dst" && !IsSpace("COPY a"[5])
  {
    hide EndsWith;
    LastChar("b /dst");
    assert "" + "COPY a" + (" " + BACKSLASH) + "" == "COPY a \\";
    assert "" + "b /dst" + "" == "b /dst";
  }

  /** A comment line and a blank line end the instruction, and the source on the
      next line is lost; a comment that ends in a backslash becomes sources. */
  lemma NotesAtInputs()
    ensures Logical(["COPY a \\", "# note", "b /dst"]) == ["COPY a # note", "b /dst"]
    ensures Logical(["COPY a \\", "", "b /dst"]) == ["COPY a ", "b /dst"]
    ensures Logical(["COPY a \\", "# note\\", "b /dst"]) == ["COPY a # note b /dst"]
  {
    hide Logical, RStrip;
    NoteTexts();
    ThreeLines("# note");
    ThreeLines("");
    ThreeLines("# note\\");
    RStripPadded("COPY a # note", "", IsSpace);
    assert "COPY a # note" + "" == "COPY a # note" && "COPY a " + "" == "COPY a ";
  }

  lemma NoteTexts()
    ensures Trim("# note") && Trim("# note\\") && !IsSpace("COPY a # note"[12])
    ensures !EndsWith("# note", BACKSLASH) && EndsWith("# note\\", BACKSLASH) && !EndsWith("", BACKSLASH)
    ensures "COPY a " + "# note" == "COPY a # note"
    ensures ("COPY a " + "# note\\")[..13] == "COPY a # note"
    ensures "COPY a # note" + " " + "b /dst" == "COPY a # note b /dst"
  {
    LastChar("# note");
    LastChar("# note\\");
  }
}
