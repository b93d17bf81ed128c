/** Rewriting the generated section of a markdown file between two sentinel
    comments (scripts/append_260b_ledger_row.py). */
module MarkdownSplice {
  import opened Text

  /** The texts that `_splice_into_markdown` looks for. */
  datatype Anchors = Anchors(begin: string, end: string, heading: string, closure: string)

  const LEDGER := Anchors("<!-- auto-ledger:begin -->", "<!-- auto-ledger:end -->", "## Run ledger", "## Closure block")

  /** What the proofs need of these texts: a sentinel's first character occurs
      nowhere else in it, no sentinel holds a newline or the heading's first
      character, the heading cannot complete a sentinel, and BEGIN does not hold
      END. */
  ghost predicate WellShaped(m: Anchors) {
    && m.begin != "" && m.end != "" && |m.heading| > 0
    && m.begin[0] !in m.begin[1..] && m.end[0] !in m.end[1..]
    && '\n' !in m.begin && '\n' !in m.end
    && m.heading[0] !in m.begin && m.begin[0] !in m.heading
    && !Contains(m.begin, m.end)
  }

  lemma LedgerIsWellShaped()
    ensures WellShaped(LEDGER)
  {
    LedgerSentinel(LEDGER.begin);
    LedgerSentinel(LEDGER.end);
    var heading := LEDGER.heading;
    assert forall k :: 0 <= k < |heading| ==> heading[k] != '<';
    BeginIsNotEnd();
  }

  lemma BeginIsNotEnd()
    ensures !Contains(LEDGER.begin, LEDGER.end)
  {
    var begin, end := LEDGER.begin, LEDGER.end;
    BeginCharacters();
    assert begin[17] == 'b' && end[17] == 'e' && end[0] == '<';
    forall i | 0 <= i <= |begin| ensures !OccursAt(begin, end, i) {
      if OccursAt(begin, end, i) {
        OccursChar(begin, end, i, 0);
      }
    }
  }

  lemma LedgerSentinel(p: string)
    requires p == LEDGER.begin || p == LEDGER.end
    ensures p != "" && p[0] == '<' && p[0] !in p[1..] && '\n' !in p && '#' !in p
  {
    if p == LEDGER.begin {
      BeginCharacters();
    } else {
      EndCharacters();
    }
  }

  lemma BeginCharacters()
    ensures var p := LEDGER.begin;
            |p| > 0 && p[0] == '<' && forall k :: 1 <= k < |p| ==> p[k] != '<' && p[k] != '\n' && p[k] != '#'
  {
  }

  lemma EndCharacters()
    ensures var p := LEDGER.end;
            |p| > 0 && p[0] == '<' && forall k :: 1 <= k < |p| ==> p[k] != '<' && p[k] != '\n' && p[k] != '#'
  {
  }

  /** The text kept before and after the generated section. */
  datatype Frame = Frame(before: string, after: string)

  predicate HasSentinels(m: Anchors, body: string) {
    Contains(body, m.begin) && Contains(body, m.end)
  }

  /** Where the generated section goes; None when there is nothing to anchor it. */
  function FrameOf(m: Anchors, body: string): Option<Frame> {
    if HasSentinels(m, body) then
      var p := Partition(body, m.begin);
      Some(Frame(p.before, Partition(p.after, m.end).after))
    else if !Contains(body, m.heading) then None
    else
      var h := Partition(body, m.heading);
      var c := Partition(h.after, m.closure);
      var closure := if c.found then m.closure + c.after else "";
      Some(Frame(h.before + m.heading + "\n\n", "\n\n" + closure))
  }

  function Fill(m: Anchors, f: Frame, generated: string): string {
    f.before + m.begin + ("\n" + generated + "\n" + m.end + f.after)
  }

  /** `_splice_into_markdown`, on the file's text. */
  function Splice(m: Anchors, body: string, generated: string): Option<string> {
    match FrameOf(m, body)
    case None => None
    case Some(f) => Some(Fill(m, f, generated))
  }

  lemma FillHasSentinels(m: Anchors, f: Frame, g: string)
    ensures HasSentinels(m, Fill(m, f, g))
  {
    var rest := "\n" + g + "\n" + m.end + f.after;
    var s := Fill(m, f, g);
    assert OccursAt(s, m.begin, |f.before|);
    assert OccursAt(rest, m.end, |g| + 2);
    assert Contains(rest, m.end);
    ContainsAppend(f.before + m.begin, rest, m.end);
  }

  /** Once a section stands after text without BEGIN, the next splice finds the
      same frame, unless the section itself holds END: then it keeps more. */
  lemma RefillFrame(m: Anchors, f: Frame, g: string)
    requires WellShaped(m) && !Contains(f.before, m.begin)
    ensures FrameOf(m, Fill(m, f, g)).Some?
    ensures !Contains(g, m.end) ==> FrameOf(m, Fill(m, f, g)) == Some(f)
    ensures Contains(g, m.end) ==> var f' := FrameOf(m, Fill(m, f, g)).value;
                                   f'.before == f.before && |f'.after| > |f.after|
  {
    FillHasSentinels(m, f, g);
    var section := "\n" + g + "\n";
    PartitionAfter(f.before, m.begin, section + m.end + f.after);
    ContainsWrapped(g, m.end);
    if !Contains(g, m.end) {
      PartitionAfter(section, m.end, f.after);
    } else {
      EarlierEnd(section, m.end, f.after);
    }
  }

  lemma ContainsWrapped(g: string, p: string)
    requires p != "" && '\n' !in p
    ensures Contains("\n" + g + "\n", p) <==> Contains(g, p)
  {
    ContainsNeeds("", p);
    ContainsAcross("", '\n', g, p);
    ContainsAcross("\n" + g, '\n', "", p);
    assert "" + ['\n'] + g == "\n" + g;
    assert "\n" + g + ['\n'] + "" == "\n" + g + "\n";
  }

  lemma EarlierEnd(section: string, end: string, after: string)
    requires end != "" && Contains(section, end)
    ensures |Partition(section + end + after, end).after| > |after|
  {
    var i :| 0 <= i <= |section| && OccursAt(section, end, i);
    OccursInPrefix(section, end + after, end, i);
    Assoc(section, end, after);
    assert OccursAt(section + end + after, end, i);
  }

  lemma BeginBeforeHeading(m: Anchors, body: string)
    requires WellShaped(m) && FrameOf(m, body).Some?
    ensures Contains(FrameOf(m, body).value.before, m.begin) <==>
            !HasSentinels(m, body) && Contains(Partition(body, m.heading).before, m.begin)
  {
    NoneBefore(body, m.begin);
    BeginAboveHeading(m, Partition(body, m.heading).before);
  }

  lemma BeginAboveHeading(m: Anchors, head: string)
    requires WellShaped(m)
    ensures Contains(head + m.heading + "\n\n", m.begin) <==> Contains(head, m.begin)
  {
    var tail := m.heading[1..] + "\n\n";
    assert m.begin[0] !in tail;
    ContainsNeeds(tail, m.begin);
    ContainsAcross(head, m.heading[0], tail, m.begin);
    assert head + [m.heading[0]] + tail == head + m.heading + "\n\n";
  }

  ghost predicate LastWriterWins(m: Anchors, body: string, first: string) {
    forall second :: Splice(m, body, first).Some? ==>
                       Splice(m, Splice(m, body, first).value, second) == Splice(m, body, second)
  }

  /** Splicing twice equals splicing the second text alone, whatever the second
      text is, exactly when the first text holds no END sentinel and no lone
      BEGIN sentinel stands above the heading of a file not yet spliced. */
  lemma LastWriterWinsExactly(m: Anchors, body: string, first: string)
    requires WellShaped(m) && FrameOf(m, body).Some?
    ensures LastWriterWins(m, body, first) <==>
            && !Contains(first, m.end)
            && (HasSentinels(m, body) || !Contains(Partition(body, m.heading).before, m.begin))
  {
    var f := FrameOf(m, body).value;
    BeginBeforeHeading(m, body);
    if !Contains(f.before, m.begin) {
      RefillFrame(m, f, first);
      if Contains(first, m.end) {
        var f' := FrameOf(m, Fill(m, f, first)).value;
        assert |Fill(m, f', "")| > |Fill(m, f, "")|;
        assert Splice(m, Splice(m, body, first).value, "") != Splice(m, body, "");
      }
    } else {
      LoneBeginMovesSection(m, body, f, first);
    }
  }

  lemma LoneBeginMovesSection(m: Anchors, body: string, f: Frame, first: string)
    requires WellShaped(m) && FrameOf(m, body) == Some(f)
    requires Contains(f.before, m.begin) && !HasSentinels(m, body)
    ensures !LastWriterWins(m, body, first)
  {
    FillHasSentinels(m, f, first);
    BeginBeforeHeading(m, body);
    var head := Partition(body, m.heading).before;
    EarlyOccurrence(head, Fill(m, f, first), m.begin);
    var second := DifferentFill(m, f, FrameOf(m, Fill(m, f, first)).value);
    assert Splice(m, Splice(m, body, first).value, second) != Splice(m, body, second);
  }

  /** Frames that place BEGIN at clearly different positions fill differently. */
  lemma DifferentFill(m: Anchors, f: Frame, f': Frame) returns (second: string)
    requires |f'.before| + |m.begin| + 1 < |f.before|
    ensures Fill(m, f', second) != Fill(m, f, second)
  {
    var k := |f'.before| + |m.begin| + 1;
    second := if f.before[k] == 'x' then "y" else "x";
    assert Fill(m, f', second)[k] == second[0];
    assert Fill(m, f, second)[k] == f.before[k];
  }

  lemma EarlyOccurrence(head: string, s: string, p: string)
    requires p != "" && head <= s && Contains(head, p)
    ensures |Partition(s, p).before| + |p| <= |head|
  {
    var i :| 0 <= i <= |head| && OccursAt(head, p, i);
    OccursInPrefix(head, s[|head|..], p, i);
    assert head + s[|head|..] == s;
    assert OccursAt(s, p, i);
  }

  /** A text that the same splice leaves alone has no END in its section. */
  lemma SettledHasNoEnd(m: Anchors, s: string, g: string)
    requires WellShaped(m) && HasSentinels(m, s) && Splice(m, s, g) == Some(s)
    ensures !Contains(g, m.end)
  {
    var p := Partition(s, m.begin);
    var q := Partition(p.after, m.end);
    var section := "\n" + g + "\n";
    SameTail(p.before + m.begin, p.after, section + m.end + q.after);
    assert Contains(p.after, m.end) by { assert OccursAt(section + m.end + q.after, m.end, |section|); }
    SameHead(q.before, section, m.end, q.after);
    NoneBefore(p.after, m.end);
    ContainsWrapped(g, m.end);
  }

  lemma SameTail(a: string, b: string, b': string)
    requires a + b == a + b'
    ensures b == b'
  {
    assert b == (a + b)[|a|..] && b' == (a + b')[|a|..];
  }

  lemma SameHead(a: string, a': string, p: string, b: string)
    requires a + p + b == a' + p + b
    ensures a == a'
  {
    assert |a| == |a'|;
    assert a == (a + p + b)[..|a|] && a' == (a' + p + b)[..|a'|];
  }

  /** Text of the file up to the heading, a new section below it: no END before
      the section's own when neither the file nor the section holds one. */
  lemma NoEndAbove(m: Anchors, top: string, g: string)
    requires WellShaped(m) && !Contains(top, m.end) && !Contains(g, m.end)
    ensures !Contains(top + "\n\n" + m.begin + "\n" + g + "\n", m.end)
  {
    var section := "\n" + g + "\n";
    ContainsNeeds("", m.end);
    ContainsWrapped(g, m.end);
    ContainsAcross(m.begin, '\n', g + "\n", m.end);
    ContainsAcross(g, '\n', "", m.end);
    assert g + ['\n'] + "" == g + "\n";
    var lower := m.begin + ['\n'] + (g + "\n");
    ContainsAcross("", '\n', lower, m.end);
    ContainsAcross(top, '\n', "" + ['\n'] + lower, m.end);
    assert top + ['\n'] + ("" + ['\n'] + lower) == top + "\n\n" + m.begin + "\n" + g + "\n";
  }

  /** A text whose first BEGIN stands above the section that END closes: what a
      splice finds there. */
  lemma FrameAbove(m: Anchors, head: string, w: string, after: string)
    requires WellShaped(m) && head <= w && Contains(head, m.begin) && !Contains(w, m.end)
    ensures var s := w + m.end + after; var r := FrameOf(m, s);
            r.Some? && r.value.after == after && |r.value.before| + |m.begin| <= |head|
  {
    hide Contains, Partition, OccursAt, Find;
    var s := w + m.end + after;
    PrefixOfSum(head, w, m.end + after);
    Assoc(w, m.end, after);
    BothSentinels(m, head, s, w, after);
    EarlyOccurrence(head, s, m.begin);
    var p := Partition(s, m.begin);
    assert p.found && s == p.before + m.begin + p.after;
    var k := |p.before| + |m.begin|;
    NoEndBehind(w, k, m.end);
    SuffixFrom(p.before + m.begin, p.after, w, m.end + after, k);
    Assoc(w[k..], m.end, after);
    PartitionAfter(w[k..], m.end, after);
  }

  lemma PrefixOfSum(head: string, w: string, t: string)
    requires head <= w
    ensures head <= w + t
  {
  }

  lemma NoEndBehind(w: string, k: nat, end: string)
    requires k <= |w| && !Contains(w, end)
    ensures !Contains(w[k..], end)
  {
    assert w == w[..k] + w[k..];
    ContainsAppend(w[..k], w[k..], end);
  }

  lemma BothSentinels(m: Anchors, head: string, s: string, w: string, after: string)
    requires WellShaped(m) && s == w + m.end + after && head <= w && Contains(head, m.begin)
    ensures HasSentinels(m, s)
  {
    assert OccursAt(s, m.end, |w|);
    assert s == head + s[|head|..];
    ContainsAppend(head, s[|head|..], m.begin);
  }

  lemma SuffixFrom(a: string, b: string, w: string, t: string, k: nat)
    requires a + b == w + t && |a| == k <= |w|
    ensures b == w[k..] + t
  {
    assert b == (a + b)[k..];
    assert (w + t)[k..] == w[k..] + t;
  }

  /** Below a lone BEGIN the second splice drops what stood between it and the
      section, so that the text gets shorter. */
  lemma LoneBeginShrinks(m: Anchors, body: string, f: Frame, g: string)
    requires WellShaped(m) && FrameOf(m, body) == Some(f) && !HasSentinels(m, body) && !Contains(g, m.end)
    requires Contains(Partition(body, m.heading).before, m.begin)
    ensures FrameOf(m, Fill(m, f, g)).Some?
    ensures |Fill(m, FrameOf(m, Fill(m, f, g)).value, g)| < |Fill(m, f, g)|
  {
    var h := Partition(body, m.heading);
    var top := h.before + m.heading;
    TopHasNoEnd(m, body);
    NoEndAbove(m, top, g);
    var w := top + "\n\n" + m.begin + "\n" + g + "\n";
    FilledText(m, f, top, g);
    HeadOf(h.before, m.heading, w);
    FrameAbove(m, h.before, w, f.after);
  }

  lemma HeadOf(head: string, heading: string, w: string)
    requires head + heading <= w
    ensures head <= w
  {
  }

  lemma FilledText(m: Anchors, f: Frame, top: string, g: string)
    requires f.before == top + "\n\n"
    ensures var w := top + "\n\n" + m.begin + "\n" + g + "\n"; Fill(m, f, g) == w + m.end + f.after && top <= w
  {
  }

  lemma TopHasNoEnd(m: Anchors, body: string)
    requires Contains(body, m.heading) && !HasSentinels(m, body)
    requires Contains(Partition(body, m.heading).before, m.begin)
    ensures !Contains(Partition(body, m.heading).before + m.heading, m.end)
  {
    var h := Partition(body, m.heading);
    ContainsAppend(h.before, m.heading + h.after, m.begin);
    Assoc(h.before, m.heading, h.after);
    ContainsAppend(h.before + m.heading, h.after, m.end);
  }

  /** Splicing the same text again leaves the file alone, under exactly the same
      condition. */
  lemma SpliceAgainExactly(m: Anchors, body: string, g: string)
    requires WellShaped(m) && FrameOf(m, body).Some?
    ensures Splice(m, Splice(m, body, g).value, g) == Splice(m, body, g) <==>
            && !Contains(g, m.end)
            && (HasSentinels(m, body) || !Contains(Partition(body, m.heading).before, m.begin))
  {
    hide Contains, Partition, Fill, FrameOf, HasSentinels, WellShaped;
    var f := FrameOf(m, body).value;
    var once := Fill(m, f, g);
    FillHasSentinels(m, f, g);
    if Contains(g, m.end) {
      if Splice(m, once, g) == Some(once) {
        SettledHasNoEnd(m, once, g);
      }
    } else if !HasSentinels(m, body) && Contains(Partition(body, m.heading).before, m.begin) {
      LoneBeginShrinks(m, body, f, g);
    } else {
      LastWriterWinsExactly(m, body, g);
    }
  }

  /** With a BEGIN followed by an END, a splice changes nothing outside the two. */
  lemma SpliceKeepsOutside(m: Anchors, before: string, section: string, after: string, g: string)
    requires WellShaped(m) && !Contains(before, m.begin) && !Contains(section, m.end)
    ensures Splice(m, before + m.begin + (section + m.end + after), g)
            == Some(before + m.begin + ("\n" + g + "\n" + m.end + after))
  {
    var rest := section + m.end + after;
    PartitionAfter(before, m.begin, rest);
    PartitionAfter(section, m.end, after);
    assert OccursAt(before + m.begin + rest, m.begin, |before|);
    assert OccursAt(rest, m.end, |section|);
    ContainsAppend(before + m.begin, rest, m.end);
  }

  /** With END only before BEGIN, a splice drops everything after BEGIN. */
  lemma SpliceDropsTail(m: Anchors, before: string, tail: string, g: string)
    requires WellShaped(m) && !Contains(before, m.begin) && Contains(before, m.end) && !Contains(tail, m.end)
    ensures Splice(m, before + m.begin + tail, g) == Some(before + m.begin + ("\n" + g + "\n" + m.end))
  {
    PartitionAfter(before, m.begin, tail);
    assert OccursAt(before + m.begin + tail, m.begin, |before|);
    ContainsAppend(before, m.begin + tail, m.end);
    assert before + (m.begin + tail) == before + m.begin + tail;
    assert Splice(m, before + m.begin + tail, g) == Some(Fill(m, Frame(before, ""), g));
    assert "\n" + g + "\n" + m.end + "" == "\n" + g + "\n" + m.end;
  }

  lemma OccursInTail(s: string, p: string, k: nat, i: nat)
    requires k + i <= |s|
    ensures OccursAt(s, p, k + i) <==> OccursAt(s[k..], p, i)
  {
    if k + i + |p| <= |s| {
      assert s[k..][i..i + |p|] == s[k + i..k + i + |p|];
    }
  }

  lemma {:induction false} FindInTail(s: string, p: string, k: nat, i: nat)
    requires k + i <= |s|
    ensures Find(s, p, k + i) == match Find(s[k..], p, i) case None => None case Some(j) => Some(k + j)
    decreases |s| - k - i
  {
    hide OccursAt;
    OccursInTail(s, p, k, i);
    if !OccursAt(s, p, k + i) && k + i < |s| {
      FindInTail(s, p, k, i + 1);
    }
  }

  /** What the first splice keeps after the section: from the closure heading on,
      if there is one after the run heading. */
  function ClosureAfter(m: Anchors, body: string, head: nat): string
    requires head <= |body|
  {
    match Find(body, m.closure, head)
    case Some(c) => body[c..]
    case None => ""
  }

  lemma ClosureOfTail(m: Anchors, body: string, head: nat)
    requires head <= |body|
    ensures var c := Partition(body[head..], m.closure);
            (if c.found then m.closure + c.after else "") == ClosureAfter(m, body, head)
  {
    hide Contains, Find;
    FindInTail(body, m.closure, head, 0);
    FromFound(body[head..], m.closure);
    match Find(body[head..], m.closure)
    case None =>
    case Some(i) =>
      assert body[head + i..] == body[head..][i..];
  }

  lemma FromFound(s: string, p: string)
    ensures var c := Partition(s, p);
            match Find(s, p) case None => !c.found case Some(i) => i <= |s| && c.found && p + c.after == s[i..]
  {
    hide Contains;
    match Find(s, p)
    case None =>
    case Some(i) =>
      assert s[i..i + |p|] == p;
      assert s[i..] == s[i..i + |p|] + s[i + |p|..];
  }

  lemma FirstFrame(m: Anchors, body: string)
    requires !HasSentinels(m, body) && Find(body, m.heading).Some?
    ensures var head := Find(body, m.heading).value + |m.heading|;
            && head <= |body|
            && FrameOf(m, body) == Some(Frame(body[..head] + "\n\n", "\n\n" + ClosureAfter(m, body, head)))
  {
    hide HasSentinels, ClosureAfter, Find, Partition, Contains;
    HeadingAt(m, body);
    var i := Find(body, m.heading).value;
    var head := i + |m.heading|;
    ClosureOfTail(m, body, head);
    assert FrameOf(m, body).value.before == body[..i] + m.heading + "\n\n";
  }

  lemma HeadingAt(m: Anchors, body: string)
    requires Find(body, m.heading).Some?
    ensures var i := Find(body, m.heading).value; var head := i + |m.heading|;
            && head <= |body| && Contains(body, m.heading)
            && Partition(body, m.heading) == Parts(body[..i], true, body[head..])
            && body[..i] + m.heading == body[..head]
  {
  }

  /** The first splice into a file keeps everything up to and including the
      heading, and everything from the closure heading after it on. */
  lemma FirstSpliceKeeps(m: Anchors, body: string, g: string)
    requires !HasSentinels(m, body) && Find(body, m.heading).Some?
    ensures var head := Find(body, m.heading).value + |m.heading|;
            && Splice(m, body, g).Some? && head <= |body|
            && body[..head] <= Splice(m, body, g).value
            && EndsWith(Splice(m, body, g).value, m.end + "\n\n" + ClosureAfter(m, body, head))
  {
    hide HasSentinels, ClosureAfter, Find, FrameOf, Fill, EndsWith;
    FirstFrame(m, body);
    var head := Find(body, m.heading).value + |m.heading|;
    var f := Frame(body[..head] + "\n\n", "\n\n" + ClosureAfter(m, body, head));
    FillEnds(m, f, g);
    Assoc(m.end, "\n\n", ClosureAfter(m, body, head));
  }

  lemma FillEnds(m: Anchors, f: Frame, g: string)
    ensures f.before <= Fill(m, f, g) && EndsWith(Fill(m, f, g), m.end + f.after)
  {
    var s, t := Fill(m, f, g), m.end + f.after;
    assert s == f.before + m.begin + "\n" + g + "\n" + t;
    assert s[|s| - |t|..] == t;
  }

  // ---------------------------------------------------------- the ledger's own texts

  lemma FirstHash(a: string, p: string, b: string)
    requires '#' !in a && p != "" && p[0] == '#'
    ensures Partition(a + p + b, p) == Parts(a, true, b)
  {
    forall j | 0 <= j < |a| ensures !OccursAt(a + p + b, p, j) {
      assert (a + p + b)[j] == a[j];
      StartsOtherwise(a + p + b, p, j);
    }
    PartitionAt(a, p, b);
  }

  lemma LedgerHeadings()
    ensures LEDGER.heading == "## Run ledger" && LEDGER.heading[0] == '#' && |LEDGER.heading| == 13
    ensures LEDGER.closure == "## Closure block" && LEDGER.closure[0] == '#' && |LEDGER.closure| == 16
    ensures LEDGER.begin == "<!-- auto-ledger:begin -->" && LEDGER.begin[0] == '<'
    ensures LEDGER.end == "<!-- auto-ledger:end -->" && LEDGER.end[0] == '<'
  {
  }

  lemma NoSentinels(body: string)
    requires '<' !in body
    ensures !HasSentinels(LEDGER, body)
  {
    LedgerHeadings();
    ContainsNeeds(body, LEDGER.begin);
  }

  /** The first splice, in full: the placeholder rows between the two headings give
      way to the section, and all else stays. */
  lemma FirstSpliceInFull(top: string, rows: string, rest: string, g: string)
    requires '#' !in top && '#' !in rows && '<' !in top && '<' !in rows && '<' !in rest
    ensures Splice(LEDGER, top + "## Run ledger" + (rows + "## Closure block" + rest), g) ==
            Some(top + "## Run ledger" + "\n\n" + "<!-- auto-ledger:begin -->" + ("\n" + g + "\n"
                 + "<!-- auto-ledger:end -->" + ("\n\n" + ("## Closure block" + rest))))
  {
    hide HasSentinels, Partition, Contains;
    LedgerHeadings();
    var tail := rows + "## Closure block" + rest;
    var body := top + "## Run ledger" + tail;
    NoAngle();
    assert '<' !in body;
    NoSentinels(body);
    FirstHash(top, "## Run ledger", tail);
    FirstHash(rows, "## Closure block", rest);
    assert Partition(body, LEDGER.heading).found;
  }

  lemma NoAngle()
    ensures '<' !in "## Run ledger" && '<' !in "## Closure block" && '#' !in "\n"
  {
  }

  /** Every later splice, in full: only the text between the sentinels changes. */
  lemma LaterSpliceInFull(before: string, section: string, after: string, g: string)
    requires '<' !in before && '<' !in section
    ensures Splice(LEDGER, before + "<!-- auto-ledger:begin -->" + (section + "<!-- auto-ledger:end -->" + after), g) ==
            Some(before + "<!-- auto-ledger:begin -->" + ("\n" + g + "\n" + "<!-- auto-ledger:end -->" + after))
  {
    hide Splice, WellShaped, Contains;
    LedgerHeadings();
    LedgerIsWellShaped();
    ContainsNeeds(before, LEDGER.begin);
    ContainsNeeds(section, LEDGER.end);
    SpliceKeepsOutside(LEDGER, before, section, after, g);
  }
}
