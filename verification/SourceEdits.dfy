/** Edits whose positions shift as they are made: inserting marker lines
    (scripts/bootstrap_test_markers.py) and deleting character intervals
    (scripts/auto_fix_unused_assert_raises.py), both from the end backwards. */
module SourceEdits {
  import opened Text

  // ------------------------------------------------------------------- markers

  function Indent(line: string): string {
    line[..|line| - |LStrip(line, IsSpace)|]
  }

  function MarkerText(marker: string): string { "@pytest.mark." + marker + "\n" }

  function MarkerLine(line: string, marker: string): string { Indent(line) + MarkerText(marker) }

  /** All markers inserted at once: each target line gets one directly above. */
  function Marked(lines: seq<string>, targets: set<nat>, marker: string): seq<string> {
    if lines == [] then []
    else
      var n := |lines| - 1;
      Marked(lines[..n], targets, marker)
      + (if n in targets then [MarkerLine(lines[n], marker)] else []) + [lines[n]]
  }

  ghost predicate Descending(ts: seq<nat>) {
    forall i, j :: 0 <= i < j < |ts| ==> ts[i] > ts[j]
  }

  function Targets(ts: seq<nat>): set<nat> { set t | t in ts }

  lemma {:induction false} MarkedNothing(lines: seq<string>, targets: set<nat>, marker: string)
    requires forall t :: t in targets ==> t >= |lines|
    ensures Marked(lines, targets, marker) == lines
  {
    if lines != [] {
      MarkedNothing(lines[..|lines| - 1], targets, marker);
    }
  }

  /** The last line, with its marker if it has one. */
  function MarkedLast(lines: seq<string>, targets: set<nat>, marker: string): seq<string>
    requires lines != []
  {
    var n := |lines| - 1;
    (if n in targets then [MarkerLine(lines[n], marker)] else []) + [lines[n]]
  }

  lemma MarkedUnfold(lines: seq<string>, targets: set<nat>, marker: string)
    requires lines != []
    ensures Marked(lines, targets, marker)
            == Marked(lines[..|lines| - 1], targets, marker) + MarkedLast(lines, targets, marker)
  {
    hide MarkerLine;
    var n := |lines| - 1;
    Assoc(Marked(lines[..n], targets, marker), if n in targets then [MarkerLine(lines[n], marker)] else [], [lines[n]]);
  }

  lemma InsertInFront<T>(m: seq<T>, tail: seq<T>, idx: nat, x: T)
    requires idx < |m|
    ensures (m + tail)[idx] == m[idx]
    ensures m[..idx] + [x] + m[idx..] + tail == (m + tail)[..idx] + [x] + (m + tail)[idx..]
  {
    assert (m + tail)[..idx] == m[..idx];
    assert (m + tail)[idx..] == m[idx..] + tail;
  }

  /** Marking the last line of a text marks nothing else. */
  lemma MarkLast(lines: seq<string>, targets: set<nat>, marker: string)
    requires lines != [] && forall t :: t in targets ==> t >= |lines|
    ensures var n := |lines| - 1;
            && Marked(lines, targets, marker) == lines
            && Marked(lines, targets + {n}, marker) == lines[..n] + [MarkerLine(lines[n], marker)] + lines[n..]
  {
    hide MarkerLine, Marked;
    var n := |lines| - 1;
    MarkedNothing(lines, targets, marker);
    MarkedNothing(lines[..n], targets + {n}, marker);
    MarkedUnfold(lines, targets + {n}, marker);
    assert lines[n..] == [lines[n]];
    Assoc(lines[..n], [MarkerLine(lines[n], marker)], [lines[n]]);
  }

  /** With only higher targets marked, every line down to idx is still at its own
      index, and inserting there is marking idx as well. */
  lemma {:induction false} MarkOneMore(lines: seq<string>, targets: set<nat>, idx: nat, marker: string)
    requires idx < |lines| && forall t :: t in targets ==> t > idx
    ensures var m := Marked(lines, targets, marker);
            && idx < |m| && m[idx] == lines[idx]
            && Marked(lines, targets + {idx}, marker) == m[..idx] + [MarkerLine(lines[idx], marker)] + m[idx..]
  {
    hide MarkerLine, Marked, MarkedLast;
    var n := |lines| - 1;
    if n == idx {
      MarkLast(lines, targets, marker);
    } else {
      var init := lines[..n];
      MarkOneMore(init, targets, idx, marker);
      MarkedUnfold(lines, targets, marker);
      MarkedUnfold(lines, targets + {idx}, marker);
      SameLast(lines, targets, idx, marker);
      InsertInFront(Marked(init, targets, marker), MarkedLast(lines, targets, marker), idx,
                    MarkerLine(lines[idx], marker));
    }
  }

  lemma SameLast(lines: seq<string>, targets: set<nat>, idx: nat, marker: string)
    requires lines != [] && idx != |lines| - 1
    ensures MarkedLast(lines, targets + {idx}, marker) == MarkedLast(lines, targets, marker)
  {
    hide MarkerLine;
  }

  /** The insertion loop of `apply_marker_to_file`. Working upwards leaves every
      remaining target at its own index, so that the result is the simultaneous
      insertion. */
  method InsertMarkers(lines: seq<string>, targets: seq<nat>, marker: string) returns (result: seq<string>)
    requires Descending(targets) && forall i :: 0 <= i < |targets| ==> targets[i] < |lines|
    ensures result == Marked(lines, Targets(targets), marker)
  {
    hide MarkerLine, Marked;
    result := lines;
    MarkedNothing(lines, Targets(targets[..0]), marker);
    for k := 0 to |targets|
      invariant result == Marked(lines, Targets(targets[..k]), marker)
    {
      var idx := targets[k];
      assert Targets(targets[..k + 1]) == Targets(targets[..k]) + {idx};
      MarkOneMore(lines, Targets(targets[..k]), idx, marker);
      result := result[..idx] + [MarkerLine(result[idx], marker)] + result[idx..];
    }
    assert targets[..|targets|] == targets;
  }

  /** How many targets lie among the first n lines. */
  function CountBelow(targets: set<nat>, n: nat): nat {
    if n == 0 then 0 else CountBelow(targets, n - 1) + if n - 1 in targets then 1 else 0
  }

  /** Every line stands, in order, after as many markers as it has targets at or
      above it; a target line has its own marker directly above it. */
  lemma {:induction false} MarkedPositions(lines: seq<string>, targets: set<nat>, marker: string, i: nat)
    requires i < |lines|
    ensures |Marked(lines, targets, marker)| == |lines| + CountBelow(targets, |lines|)
    ensures var at := i + CountBelow(targets, i + 1);
            && at < |Marked(lines, targets, marker)|
            && Marked(lines, targets, marker)[at] == lines[i]
            && (i in targets ==> at > 0 && Marked(lines, targets, marker)[at - 1] == MarkerLine(lines[i], marker))
  {
    var n := |lines| - 1;
    if n == 0 {
      assert lines[..0] == [];
    } else {
      MarkedPositions(lines[..n], targets, marker, if i < n then i else 0);
    }
  }

  predicate IsMarkerLine(line: string, marker: string) {
    LStrip(line, IsSpace) == MarkerText(marker)
  }

  /** The lines without every marker line. */
  function Unmarked(lines: seq<string>, marker: string): seq<string> {
    if lines == [] then []
    else
      var n := |lines| - 1;
      Unmarked(lines[..n], marker) + if IsMarkerLine(lines[n], marker) then [] else [lines[n]]
  }

  lemma {:induction false} IndentIsBlank(line: string, i: nat)
    requires i < |Indent(line)|
    ensures IsSpace(Indent(line)[i])
  {
    if i > 0 {
      assert Indent(line[1..])[i - 1] == Indent(line)[i];
      IndentIsBlank(line[1..], i - 1);
    }
  }

  lemma MarkerLineIsMarker(line: string, marker: string)
    ensures IsMarkerLine(MarkerLine(line, marker), marker)
  {
    forall i | 0 <= i < |Indent(line)| ensures IsSpace(Indent(line)[i]) {
      IndentIsBlank(line, i);
    }
    assert MarkerText(marker)[0] == '@';
    LStripPadded(Indent(line), MarkerText(marker), IsSpace);
  }

  function KeepUnmarked(line: string, marker: string): seq<string> {
    if IsMarkerLine(line, marker) then [] else [line]
  }

  lemma UnmarkedSnoc(lines: seq<string>, line: string, marker: string)
    ensures Unmarked(lines + [line], marker) == Unmarked(lines, marker) + KeepUnmarked(line, marker)
  {
    hide IsMarkerLine;
    assert (lines + [line])[..|lines|] == lines;
  }

  lemma {:induction false} UnmarkedMarked(lines: seq<string>, targets: set<nat>, marker: string)
    ensures Unmarked(Marked(lines, targets, marker), marker) == Unmarked(lines, marker)
  {
    hide IsMarkerLine, MarkerLine;
    if lines != [] {
      var n := |lines| - 1;
      var init := Marked(lines[..n], targets, marker);
      var above := MarkerLine(lines[n], marker);
      UnmarkedMarked(lines[..n], targets, marker);
      MarkerLineIsMarker(lines[n], marker);
      UnmarkedSnoc(init, above, marker);
      UnmarkedSnoc(init + [above], lines[n], marker);
      UnmarkedSnoc(init, lines[n], marker);
      UnmarkedSnoc(lines[..n], lines[n], marker);
      assert lines[..n] + [lines[n]] == lines;
      assert init + [] == init;
    }
  }

  lemma UnmarkedUnfold(lines: seq<string>, marker: string)
    requires lines != []
    ensures Unmarked(lines, marker) == Unmarked(lines[..|lines| - 1], marker) + KeepUnmarked(lines[|lines| - 1], marker)
  {
    hide IsMarkerLine;
  }

  lemma {:induction false} UnmarkedShrinks(lines: seq<string>, marker: string)
    ensures |Unmarked(lines, marker)| <= |lines|
  {
    hide IsMarkerLine;
    if lines != [] {
      UnmarkedShrinks(lines[..|lines| - 1], marker);
    }
  }

  lemma {:induction false} UnmarkedExactly(lines: seq<string>, marker: string)
    ensures Unmarked(lines, marker) == lines <==> forall i :: 0 <= i < |lines| ==> !IsMarkerLine(lines[i], marker)
  {
    hide IsMarkerLine, Unmarked;
    if lines == [] {
      UnmarkedShrinks(lines, marker);
    } else {
      var init, last := lines[..|lines| - 1], lines[|lines| - 1];
      UnmarkedExactly(init, marker);
      UnmarkedShrinks(init, marker);
      UnmarkedUnfold(lines, marker);
      SplitLast(init, last, Unmarked(init, marker));
      assert lines == init + [last];
    }
  }

  lemma SplitLast(init: seq<string>, last: string, kept: seq<string>)
    requires |kept| <= |init|
    ensures kept + [last] == init + [last] <==> kept == init
    ensures kept + [] != init + [last]
  {
    if kept + [last] == init + [last] {
      assert kept == (kept + [last])[..|kept|] && init == (init + [last])[..|init|];
    }
  }

  /** Removing the marker lines again gives the original lines, exactly when none
      of those was a marker line before. */
  lemma RemovingMarkersRestores(lines: seq<string>, targets: set<nat>, marker: string)
    ensures Unmarked(Marked(lines, targets, marker), marker) == lines <==>
            forall i :: 0 <= i < |lines| ==> !IsMarkerLine(lines[i], marker)
  {
    UnmarkedMarked(lines, targets, marker);
    UnmarkedExactly(lines, marker);
  }

  // ----------------------------------------------------------------- intervals

  datatype Interval = Interval(start: nat, end: nat)

  predicate Covered(fixes: seq<Interval>, i: nat) {
    exists k :: 0 <= k < |fixes| && fixes[k].start <= i < fixes[k].end
  }

  /** The characters of a text that starts at offset `off` of the file and that no
      interval covers, in order. */
  function Outside(text: string, off: nat, fixes: seq<Interval>): string {
    if text == "" then ""
    else
      var n := |text| - 1;
      Outside(text[..n], off, fixes) + if Covered(fixes, off + n) then "" else [text[n]]
  }

  /** `del chars[start:end]`, which clips both ends to the text. */
  function Delete(text: string, f: Interval): string {
    var start := if f.start < |text| then f.start else |text|;
    var end := if f.end < |text| then f.end else |text|;
    if end < start then text else text[..start] + text[end..]
  }

  function DeleteAll(text: string, fixes: seq<Interval>): string
    decreases |fixes|
  {
    if fixes == [] then text else DeleteAll(Delete(text, fixes[0]), fixes[1..])
  }

  /** As `fix_file` sorts them: by start, descending. */
  predicate StartsDescend(fixes: seq<Interval>) {
    forall i, j :: 0 <= i < j < |fixes| ==> fixes[j].start <= fixes[i].start
  }

  predicate Disjoint(fixes: seq<Interval>) {
    forall i, j :: 0 <= i < j < |fixes| ==> fixes[j].end <= fixes[i].start || fixes[i].end <= fixes[j].start
  }

  /** What a clause match always is: some text, with more text (the colon) after. */
  predicate Proper(fixes: seq<Interval>, size: nat) {
    forall i :: 0 <= i < |fixes| ==> fixes[i].start < fixes[i].end < size
  }

  /** The deletion loop of `fix_file`. */
  method DeleteIntervals(source: string, fixes: seq<Interval>) returns (result: string)
    ensures result == DeleteAll(source, fixes)
  {
    result := source;
    for k := 0 to |fixes|
      invariant DeleteAll(source, fixes) == DeleteAll(result, fixes[k..])
    {
      assert fixes[k..][1..] == fixes[k + 1..];
      result := Delete(result, fixes[k]);
    }
  }

  lemma {:induction false} OutsideSplit(a: string, b: string, off: nat, fixes: seq<Interval>)
    ensures Outside(a + b, off, fixes) == Outside(a, off, fixes) + Outside(b, off + |a|, fixes)
  {
    hide Covered;
    if b == "" {
      assert a + b == a;
    } else {
      OutsideSplit(a, b[..|b| - 1], off, fixes);
      assert (a + b)[..|a + b| - 1] == a + b[..|b| - 1];
    }
  }

  lemma {:induction false} OutsideFree(text: string, off: nat, fixes: seq<Interval>)
    requires forall i :: off <= i < off + |text| ==> !Covered(fixes, i)
    ensures Outside(text, off, fixes) == text
  {
    hide Covered;
    if text != "" {
      OutsideFree(text[..|text| - 1], off, fixes);
    }
  }

  lemma {:induction false} OutsideCovered(text: string, off: nat, fixes: seq<Interval>)
    requires forall i :: off <= i < off + |text| ==> Covered(fixes, i)
    ensures Outside(text, off, fixes) == ""
  {
    hide Covered;
    if text != "" {
      OutsideCovered(text[..|text| - 1], off, fixes);
    }
  }

  lemma {:induction false} OutsideSame(text: string, off: nat, few: seq<Interval>, many: seq<Interval>)
    requires forall i :: off <= i < off + |text| ==> (Covered(few, i) <==> Covered(many, i))
    ensures Outside(text, off, few) == Outside(text, off, many)
    ensures |Outside(text, off, few)| <= |text|
  {
    hide Covered;
    if text != "" {
      OutsideSame(text[..|text| - 1], off, few, many);
    }
  }

  lemma CoveredBySnoc(done: seq<Interval>, f: Interval, i: nat)
    ensures Covered(done + [f], i) <==> Covered(done, i) || f.start <= i < f.end
  {
    var all := done + [f];
    if Covered(done, i) {
      var k :| 0 <= k < |done| && done[k].start <= i < done[k].end;
      assert all[k] == done[k];
    }
    if f.start <= i < f.end {
      assert all[|done|] == f;
    }
  }

  /** How the loop stands after some intervals, `s` being the last start: the text
      before s is untouched, and `tail` is what remains of the text from s on. */
  ghost predicate Standing(text: string, done: seq<Interval>, s: nat, tail: string) {
    && Proper(done, |text|) && s <= |text|
    && (if done == [] then s == |text| && tail == "" else s == done[|done| - 1].start)
    && (forall i :: 0 <= i < |done| ==> s <= done[i].start)
    && |tail| <= |Outside(text[s..], s, done)|
  }

  lemma DeleteInPrefix(text: string, s: nat, tail: string, f: Interval)
    requires f.start <= f.end <= s <= |text|
    ensures Delete(text[..s] + tail, f) == text[..f.start] + (text[f.end..s] + tail)
  {
    var r := text[..s] + tail;
    assert r[..f.start] == text[..f.start];
    assert r[f.end..] == text[f.end..s] + tail;
  }

  lemma DeleteAcross(text: string, s: nat, tail: string, f: Interval)
    requires f.start <= s < f.end && s <= |text|
    ensures Delete(text[..s] + tail, f) == text[..f.start] + if f.end - s < |tail| then tail[f.end - s..] else ""
  {
    var r := text[..s] + tail;
    assert r[..f.start] == text[..f.start];
    if f.end - s < |tail| {
      assert r[f.end..] == tail[f.end - s..];
    }
  }

  /** The part of a text that one more interval leaves, before, inside and after
      the interval. */
  lemma OutsideWithOneMore(done: seq<Interval>, f: Interval, part: string, off: nat)
    ensures f.start <= off && off + |part| <= f.end ==> Outside(part, off, done + [f]) == ""
    ensures f.end <= off || off + |part| <= f.start ==> Outside(part, off, done + [f]) == Outside(part, off, done)
  {
    hide Covered, Outside;
    forall i: nat ensures Covered(done + [f], i) <==> Covered(done, i) || f.start <= i < f.end {
      CoveredBySnoc(done, f, i);
    }
    if f.start <= off && off + |part| <= f.end {
      OutsideCovered(part, off, done + [f]);
    }
    if f.end <= off || off + |part| <= f.start {
      OutsideSame(part, off, done, done + [f]);
    }
  }

  lemma NotCoveredBelow(done: seq<Interval>, s: nat, i: nat)
    requires i < s && forall k :: 0 <= k < |done| ==> s <= done[k].start
    ensures !Covered(done, i)
  {
  }

  /** One step that does not reach back into the last interval. */
  lemma CleanStep(text: string, done: seq<Interval>, s: nat, tail: string, f: Interval)
    requires Standing(text, done, s, tail) && f.start < f.end < |text| && f.end <= s
    ensures Delete(text[..s] + tail, f) == text[..f.start] + (text[f.end..s] + tail)
    ensures Outside(text[f.start..], f.start, done + [f]) == text[f.end..s] + Outside(text[s..], s, done)
  {
    hide Covered, Outside, Delete;
    DeleteInPrefix(text, s, tail, f);
    var a, b, c := text[f.start..f.end], text[f.end..s], text[s..];
    assert text[f.start..] == a + (b + c);
    OutsideSplit(a, b + c, f.start, done + [f]);
    OutsideSplit(b, c, f.end, done + [f]);
    OutsideWithOneMore(done, f, a, f.start);
    OutsideWithOneMore(done, f, b, f.end);
    OutsideWithOneMore(done, f, c, s);
    forall i | f.end <= i < s ensures !Covered(done, i) {
      NotCoveredBelow(done, s, i);
    }
    OutsideFree(b, f.end, done);
  }

  /** One step that does: it deletes more than the union of the intervals. */
  lemma OverlapStep(text: string, done: seq<Interval>, s: nat, tail: string, f: Interval)
    requires Standing(text, done, s, tail) && f.start < f.end < |text| && f.start <= s < f.end
    ensures var tail' := if f.end - s < |tail| then tail[f.end - s..] else "";
            && Delete(text[..s] + tail, f) == text[..f.start] + tail'
            && |tail'| < |Outside(text[f.start..], f.start, done + [f])|
  {
    hide Covered, Outside, Delete;
    DeleteAcross(text, s, tail, f);
    var a, b, c := text[f.start..s], text[s..f.end], text[f.end..];
    assert text[f.start..] == a + (b + c) && text[s..] == b + c;
    OutsideSplit(a, b + c, f.start, done + [f]);
    OutsideSplit(b, c, s, done + [f]);
    OutsideSplit(b, c, s, done);
    OutsideWithOneMore(done, f, a, f.start);
    OutsideWithOneMore(done, f, b, s);
    OutsideWithOneMore(done, f, c, f.end);
    FirstIsCovered(b, s, done);
    LastIsFree(c, f.end, done, |text|);
  }

  lemma FirstIsCovered(b: string, s: nat, done: seq<Interval>)
    requires b != "" && done != [] && done[|done| - 1].start == s < done[|done| - 1].end
    ensures |Outside(b, s, done)| < |b|
  {
    assert Covered(done, s);
    assert b == b[..1] + b[1..];
    OutsideSplit(b[..1], b[1..], s, done);
    OutsideCovered(b[..1], s, done);
    OutsideSame(b[1..], s + 1, done, done);
  }

  lemma LastIsFree(c: string, off: nat, done: seq<Interval>, size: nat)
    requires c != "" && off + |c| == size && Proper(done, size)
    ensures |Outside(c, off, done)| > 0
  {
    assert !Covered(done, size - 1);
  }

  /** From any standing the loop removes at least the union, and exactly the union
      when nothing has been or will be deleted twice. */
  lemma {:induction false} LoopLength(text: string, done: seq<Interval>, s: nat, tail: string, rest: seq<Interval>)
    requires Standing(text, done, s, tail) && Proper(rest, |text|) && StartsDescend(rest)
    requires rest != [] ==> rest[0].start <= s
    ensures |DeleteAll(text[..s] + tail, rest)| <= |Outside(text, 0, done + rest)|
    ensures |tail| < |Outside(text[s..], s, done)| || !Chained(s, rest) ==>
              |DeleteAll(text[..s] + tail, rest)| < |Outside(text, 0, done + rest)|
    ensures tail == Outside(text[s..], s, done) && Chained(s, rest) ==>
              DeleteAll(text[..s] + tail, rest) == Outside(text, 0, done + rest)
    decreases |rest|
  {
    hide Covered, Outside, Delete;
    if rest == [] {
      assert done + rest == done;
      TakeDrop(text, s);
      UntouchedPrefix(text[..s], text[s..], done);
    } else {
      var f := rest[0];
      var more := rest[1..];
      assert done + rest == done + [f] + more;
      assert forall i :: 0 <= i < |more| ==> more[i] == rest[i + 1];
      if f.end <= s {
        CleanStep(text, done, s, tail, f);
        LoopLength(text, done + [f], f.start, text[f.end..s] + tail, more);
      } else {
        OverlapStep(text, done, s, tail, f);
        LoopLength(text, done + [f], f.start, if f.end - s < |tail| then tail[f.end - s..] else "", more);
      }
    }
  }

  lemma UntouchedPrefix(a: string, b: string, done: seq<Interval>)
    requires forall k :: 0 <= k < |done| ==> |a| <= done[k].start
    ensures Outside(a + b, 0, done) == a + Outside(b, |a|, done)
  {
    hide Covered, Outside;
    NothingBelow(done, |a|);
    OutsideFree(a, 0, done);
    OutsideSplit(a, b, 0, done);
  }

  lemma TakeDrop(text: string, s: nat)
    requires s <= |text|
    ensures text[..s] + text[s..] == text
  {
  }

  lemma NothingBelow(done: seq<Interval>, s: nat)
    requires forall k :: 0 <= k < |done| ==> s <= done[k].start
    ensures forall i :: 0 <= i < s ==> !Covered(done, i)
  {
  }

  /** Each interval ends before the one handled just before it begins. */
  predicate Chained(s: nat, rest: seq<Interval>)
    decreases |rest|
  {
    rest == [] || (rest[0].end <= s && Chained(rest[0].start, rest[1..]))
  }

  lemma {:induction false} ChainedIsDisjoint(s: nat, rest: seq<Interval>)
    requires StartsDescend(rest) && forall i :: 0 <= i < |rest| ==> rest[i].start < rest[i].end
    ensures Chained(s, rest) ==> Disjoint(rest) && forall i :: 0 <= i < |rest| ==> rest[i].end <= s
    ensures Disjoint(rest) && (rest != [] ==> rest[0].end <= s) ==> Chained(s, rest)
    decreases |rest|
  {
    if rest != [] {
      var more := rest[1..];
      assert forall i :: 0 <= i < |more| ==> more[i] == rest[i + 1];
      ChainedIsDisjoint(rest[0].start, more);
      if Chained(s, rest) {
        forall i, j | 0 <= i < j < |rest| ensures rest[j].end <= rest[i].start || rest[i].end <= rest[j].start {
          if i > 0 {
            assert more[i - 1] == rest[i] && more[j - 1] == rest[j];
          } else {
            assert more[j - 1] == rest[j];
          }
        }
      }
    }
  }

  /** Deleting in descending order of start leaves exactly the characters outside
      every interval, exactly when the intervals are pairwise disjoint: one clause
      recorded twice, for instance, would take text after it along. */
  lemma DeletionExactly(text: string, fixes: seq<Interval>)
    requires StartsDescend(fixes) && Proper(fixes, |text|)
    ensures DeleteAll(text, fixes) == Outside(text, 0, fixes) <==> Disjoint(fixes)
  {
    assert text[..|text|] + "" == text;
    assert text[|text|..] == "";
    LoopLength(text, [], |text|, "", fixes);
    assert [] + fixes == fixes;
    ChainedIsDisjoint(|text|, fixes);
  }

  lemma {:induction false} IndentOf(indent: string, code: string)
    requires (forall i :: 0 <= i < |indent| ==> IsSpace(indent[i])) && code != "" && !IsSpace(code[0])
    ensures Indent(indent + code) == indent
  {
    LStripPadded(indent, code, IsSpace);
    assert (indent + code)[..|indent|] == indent;
  }

  /** A target line of some white space and some code: the line directly above it in
      the result is the same white space and the marker's text. */
  lemma MarkerStandsAbove(lines: seq<string>, targets: set<nat>, marker: string, i: nat, indent: string, code: string)
    requires i < |lines| && i in targets && lines[i] == indent + code
    requires (forall k :: 0 <= k < |indent| ==> IsSpace(indent[k])) && code != "" && !IsSpace(code[0])
    ensures var at := i + CountBelow(targets, i + 1); var result := Marked(lines, targets, marker);
            && 0 < at < |result| && result[at] == lines[i]
            && result[at - 1] == indent + "@pytest.mark." + marker + "\n"
  {
    hide IsSpace, Indent;
    MarkedPositions(lines, targets, marker, i);
    IndentOf(indent, code);
    MarkerTexts(indent, marker);
  }

  lemma MarkerTexts(indent: string, marker: string)
    ensures indent + MarkerText(marker) == indent + "@pytest.mark." + marker + "\n"
  {
  }

  /** As in a class: the marker gets the four spaces of its test. */
  lemma MarkerInClass()
    ensures Marked(["class TestA:\n", "    def test_x(self):\n"], {1}, "unit")
            == ["class TestA:\n", "    @pytest.mark.unit\n", "    def test_x(self):\n"]
  {
    UnitMarker();
    MarkedSecond("class TestA:\n", "    def test_x(self):\n", "unit");
  }

  lemma UnitMarker()
    ensures MarkerLine("    def test_x(self):\n", "unit") == "    @pytest.mark.unit\n"
  {
    FourSpaces();
    IndentOf("    ", "def test_x(self):\n");
    MarkerTexts("    ", "unit");
  }

  lemma MarkedSecond(a: string, b: string, marker: string)
    ensures Marked([a, b], {1}, marker) == [a, MarkerLine(b, marker), b]
  {
    hide MarkerLine;
    assert [a, b][..1] == [a] && [a][..0] == [];
    assert Marked([a], {1}, marker) == [a];
  }

  lemma FourSpaces()
    ensures forall k :: 0 <= k < |"    "| ==> IsSpace("    "[k])
    ensures !IsSpace("def test_x(self):\n"[0]) && "    " + "def test_x(self):\n" == "    def test_x(self):\n"
    ensures "    " + "@pytest.mark." + "unit" + "\n" == "    @pytest.mark.unit\n"
  {
  }
}
