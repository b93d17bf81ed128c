/** Reading the copied sources out of a Dockerfile
    (scripts/audit_image_build_contexts.py,
    `parse_dockerfile_copies_via_text`). */
module Dockerfile {
  import opened Text
  import opened WordGaps

  // -------------------------------------------------------------- logical lines

  /** The logical lines finished so far, and the one being continued. */
  datatype Scan = Scan(logical: seq<string>, buf: string)

  const BACKSLASH := "\\"

  function ScanLine(s: Scan, raw: string): Scan {
    var line := RStrip(raw, IsSpace);
    var buf := if s.buf != "" then s.buf + " " + Strip(line, IsSpace) else line;
    if EndsWith(buf, BACKSLASH) then Scan(s.logical, RStrip(buf[..|buf| - 1], IsSpace))
    else Scan(s.logical + [buf], "")
  }

  function ScanLines(s: Scan, lines: seq<string>): Scan
    decreases |lines|
  {
    if lines == [] then s else ScanLines(ScanLine(s, lines[0]), lines[1..])
  }

  function Logical(lines: seq<string>): seq<string> {
    var s := ScanLines(Scan([], ""), lines);
    s.logical + if s.buf != "" then [s.buf] else []
  }

  lemma {:induction false} ScanAppend(s: Scan, a: seq<string>, b: seq<string>)
    ensures ScanLines(s, a + b) == ScanLines(ScanLines(s, a), b)
    decreases |a|
  {
    hide ScanLine;
    if a == [] {
      assert a + b == b;
    } else {
      ScanAppend(ScanLine(s, a[0]), a[1..], b);
      assert (a + b)[1..] == a[1..] + b;
    }
  }

  // ------------------------------------------------------- one logical line

  function Upper(c: char): char {
    if 'a' <= c <= 'z' then (c as int - 32) as char else c
  }

  function UpperCase(s: string): string {
    seq(|s|, i requires 0 <= i < |s| => Upper(s[i]))
  }

  /** The length of a leading COPY or ADD that a space follows, or 0. */
  function Keyword(line: string): (n: nat)
    ensures n < |line| || n == 0
  {
    if |line| > 4 && UpperCase(line[..5]) == "COPY " then 4
    else if |line| > 3 && UpperCase(line[..4]) == "ADD " then 3
    else 0
  }

  /** The loop that drops leading `--` options, up to the next space. */
  function DropFlags(body: string): string
    decreases |body|
  {
    if "--" <= LStrip(body, IsSpace) then
      match Find(body, " ", 2)
      case None => ""
      case Some(end) => DropFlags(LStrip(body[end..], IsSpace))
    else body
  }

  predicate Resolvable(src: string) {
    !("/" <= src) && !("$" <= src) && src != ".."
  }

  /** Quotes off, unresolvable sources out, the context itself as "". */
  function Sources(raw: seq<string>): set<string> {
    set i | 0 <= i < |raw| && Resolvable(Strip(raw[i], IsQuote)) ::
      if Strip(raw[i], IsQuote) == "." then "" else Strip(raw[i], IsQuote)
  }

  predicate Unquoted(w: string) {
    w == "" || (!IsQuote(w[0]) && !IsQuote(w[|w| - 1]))
  }

  /** Of unquoted words, the sources are the relative ones that are neither a
      variable nor the parent; a dot, or nothing, stands for the whole context. */
  lemma SourcesOfWords(raw: seq<string>, s: string)
    requires forall i :: 0 <= i < |raw| ==> Unquoted(raw[i])
    ensures s in Sources(raw) <==>
            if s == "" then "." in raw || "" in raw
            else s in raw && s[0] != '/' && s[0] != '$' && s != ".." && s != "."
  {
    forall i | 0 <= i < |raw| ensures Strip(raw[i], IsQuote) == raw[i] {
      assert Unquoted(raw[i]);
    }
  }

  function AllButLast(ts: seq<string>): seq<string> {
    if ts == [] then [] else ts[..|ts| - 1]
  }

  /** The sources of one logical line. The JSON reader is a parameter: it gives
      the strings of an array, or None for text it rejects. */
  function LineSources(line: string, json: string -> Option<seq<string>>): set<string> {
    var stripped := Strip(line, IsSpace);
    var n := Keyword(stripped);
    if n == 0 then {}
    else
      var body := LStrip(stripped[n..], IsSpace);
      if "[" <= body then
        match json(body)
        case None => {}
        case Some(tokens) => Sources(AllButLast(tokens))
      else
        var tokens := Words(DropFlags(body));
        if |tokens| < 2 then {} else Sources(AllButLast(tokens))
  }

  function CopySet(logical: seq<string>, json: string -> Option<seq<string>>): set<string> {
    if logical == [] then {}
    else CopySet(logical[..|logical| - 1], json) + LineSources(logical[|logical| - 1], json)
  }

  /** The first loop of `parse_dockerfile_copies_via_text` */
  method JoinContinuations(lines: seq<string>) returns (logical: seq<string>)
    ensures logical == Logical(lines)
  {
    hide IsSpace, RStrip, LStrip, Strip, ScanLines;
    logical := [];
    var buf := "";
    ScanNothing();
    assert lines[..0] == [];
    for i := 0 to |lines|
      invariant ScanLines(Scan([], ""), lines[..i]) == Scan(logical, buf)
    {
      ScanSnoc(lines, i);
      var line := RStrip(lines[i], IsSpace);
      buf := if buf != "" then buf + " " + Strip(line, IsSpace) else line;
      if EndsWith(buf, BACKSLASH) {
        buf := RStrip(buf[..|buf| - 1], IsSpace);
        continue;
      }
      logical := logical + [buf];
      buf := "";
    }
    assert lines[..|lines|] == lines;
    if buf != "" {
      logical := logical + [buf];
    }
  }

  lemma ScanNothing()
    ensures ScanLines(Scan([], ""), []) == Scan([], "")
  {
  }

  lemma ScanSnoc(lines: seq<string>, i: nat)
    requires i < |lines|
    ensures ScanLines(Scan([], ""), lines[..i + 1]) == ScanLine(ScanLines(Scan([], ""), lines[..i]), lines[i])
  {
    hide ScanLine;
    assert lines[..i + 1] == lines[..i] + [lines[i]];
    ScanAppend(Scan([], ""), lines[..i], [lines[i]]);
    assert [lines[i]][1..] == [];
  }

  /** `parse_dockerfile_copies_via_text` */
  method ParseCopies(text: string, json: string -> Option<seq<string>>) returns (copies: set<string>)
    ensures copies == CopySet(Logical(SplitLines(text)), json)
  {
    hide LineSources, Logical;
    var logical := JoinContinuations(SplitLines(text));
    copies := {};
    for i := 0 to |logical|
      invariant copies == CopySet(logical[..i], json)
    {
      assert logical[..i + 1][..i] == logical[..i];
      copies := copies + LineSources(logical[i], json);
    }
    assert logical[..|logical|] == logical;
  }

  // ---------------------------------------------------- continuation of a line

  /** One physical line of an instruction: its indentation, its text, what stands
      before a continuing backslash, and what trails the line. */
  datatype Piece = Piece(indent: string, text: string, pad: string, trail: string)

  predicate WellSplit(p: Piece) {
    Blank(p.indent) && Blank(p.pad) && Blank(p.trail) && (p.text != "" ==> Trim(p.text))
  }

  function Continued(p: Piece): string {
    p.indent + p.text + (p.pad + BACKSLASH) + p.trail
  }

  function Final(p: Piece): string {
    p.indent + p.text + p.trail
  }

  function ContinuedLines(ps: seq<Piece>): seq<string> {
    seq(|ps|, i requires 0 <= i < |ps| => Continued(ps[i]))
  }

  lemma TrimPadded(pre: string, s: string, post: string)
    requires Blank(pre) && Blank(post) && (s != "" ==> Trim(s))
    ensures RStrip(pre + s + post, IsSpace) == if s == "" then "" else pre + s
    ensures Strip(pre + s + post, IsSpace) == s
  {
    hide IsSpace;
    if s == "" {
      assert pre + s + post == (pre + post) + "";
      LStripPadded(pre + post, "", IsSpace);
      RStripPadded("", pre + post, IsSpace);
      assert "" + (pre + post) == pre + s + post;
    } else {
      assert (pre + s)[|pre + s| - 1] == s[|s| - 1];
      RStripPadded(pre + s, post, IsSpace);
      StripPadded(pre, s, post, IsSpace);
    }
  }

  /** A continued line without its trailing white space, and without its
      indentation. */
  lemma ContinuedText(p: Piece)
    requires WellSplit(p)
    ensures var core := p.text + p.pad + BACKSLASH;
            && RStrip(Continued(p), IsSpace) == p.indent + core
            && Strip(p.indent + core, IsSpace) == if p.text == "" then BACKSLASH else core
  {
    hide IsSpace, RStrip, Strip, Continued, WellSplit;
    ContinuedParts(p);
    var core := p.text + p.pad + BACKSLASH;
    var lead := if p.text == "" then p.indent + p.pad else p.indent;
    var text := if p.text == "" then BACKSLASH else core;
    TrimPadded(lead, text, "");
    assert lead + text + "" == lead + text;
    TrimPadded(lead, text, p.trail);
  }

  lemma ContinuedParts(p: Piece)
    requires WellSplit(p)
    ensures var core := p.text + p.pad + BACKSLASH;
            var lead := if p.text == "" then p.indent + p.pad else p.indent;
            var text := if p.text == "" then BACKSLASH else core;
            && Blank(lead) && Trim(text) && Blank(p.trail) && Blank("")
            && Continued(p) == lead + text + p.trail && p.indent + core == lead + text
  {
    hide IsSpace;
    SpaceFacts();
    var core := p.text + p.pad + BACKSLASH;
    assert core[|core| - 1] == '\\';
    if p.text == "" {
      assert p.indent + p.text + (p.pad + BACKSLASH) + p.trail == (p.indent + p.pad) + BACKSLASH + p.trail;
      assert p.indent + core == (p.indent + p.pad) + BACKSLASH;
    } else {
      assert core[0] == p.text[0];
      assert p.indent + p.text + (p.pad + BACKSLASH) + p.trail == p.indent + core + p.trail;
    }
  }

  lemma DropBackslash(s: string)
    ensures EndsWith(s + BACKSLASH, BACKSLASH) && (s + BACKSLASH)[..|s + BACKSLASH| - 1] == s
  {
  }

  /** What a continued line adds to the text held so far. */
  function Joined(text: string): string {
    if text == "" then "" else " " + text
  }

  /** One continued line, read after text that does not end with white space. */
  lemma ContinueStep(logical: seq<string>, buf: string, p: Piece)
    requires WellSplit(p) && buf != "" && !IsSpace(buf[|buf| - 1])
    ensures ScanLine(Scan(logical, buf), Continued(p)) == Scan(logical, buf + Joined(p.text))
  {
    hide IsSpace, RStrip, Strip, Continued, EndsWith;
    SpaceFacts();
    ContinuedText(p);
    if p.text == "" {
      DropBackslash(buf + " ");
      RStripPadded(buf, " ", IsSpace);
      assert buf + "" == buf;
    } else {
      PaddedText(buf + " ", p);
      Assoc(buf, " ", p.text);
    }
  }

  /** A text, its padding and the backslash, after anything: the backslash goes
      and the padding with it. */
  lemma PaddedText(a: string, p: Piece)
    requires WellSplit(p) && p.text != ""
    ensures var s := a + (p.text + p.pad + BACKSLASH);
            EndsWith(s, BACKSLASH) && RStrip(s[..|s| - 1], IsSpace) == a + p.text
  {
    hide IsSpace, RStrip, EndsWith;
    Assoc(a, p.text + p.pad, BACKSLASH);
    DropBackslash(a + (p.text + p.pad));
    Assoc(a, p.text, p.pad);
    assert (a + p.text)[|a + p.text| - 1] == p.text[|p.text| - 1];
    RStripPadded(a + p.text, p.pad, IsSpace);
  }

  lemma FirstStep(logical: seq<string>, p: Piece)
    requires WellSplit(p) && p.text != ""
    ensures ScanLine(Scan(logical, ""), Continued(p)) == Scan(logical, p.indent + p.text)
  {
    hide IsSpace, RStrip, Strip, Continued, EndsWith, WellSplit;
    ContinuedText(p);
    PaddedText(p.indent, p);
  }

  /** A piece that ends an instruction. */
  predicate Ends(p: Piece) {
    WellSplit(p) && p.text != "" && !EndsWith(p.text, BACKSLASH)
  }

  lemma FinalStep(logical: seq<string>, buf: string, p: Piece)
    requires Ends(p)
    ensures ScanLine(Scan(logical, buf), Final(p)) ==
            Scan(logical + [if buf == "" then p.indent + p.text else buf + " " + p.text], "")
  {
    hide IsSpace, RStrip, Strip, EndsWith;
    TrimPadded(p.indent, p.text, p.trail);
    BlankNothing();
    TrimPadded(p.indent, p.text, "");
    assert p.indent + p.text + "" == p.indent + p.text;
    LastCharOfSum(p.indent, p.text);
    LastCharOfSum(buf + " ", p.text);
  }

  lemma LastCharOfSum(a: string, b: string)
    requires b != ""
    ensures EndsWith(a + b, BACKSLASH) <==> EndsWith(b, BACKSLASH)
  {
    assert (a + b)[|a + b| - 1..] == b[|b| - 1..];
  }

  lemma BlankNothing()
    ensures Blank("")
  {
  }

  predicate AllWellSplit(ps: seq<Piece>) {
    forall i :: 0 <= i < |ps| ==> WellSplit(ps[i])
  }

  /** The texts of the given lines, joined by single spaces. */
  function Written(ps: seq<Piece>): string
    requires ps != []
  {
    if |ps| == 1 then ps[0].text else Written(ps[..|ps| - 1]) + Joined(ps[|ps| - 1].text)
  }

  function AllWords(ps: seq<Piece>): seq<string> {
    if ps == [] then [] else AllWords(ps[..|ps| - 1]) + Words(ps[|ps| - 1].text)
  }

  lemma {:induction false} WrittenWords(ps: seq<Piece>)
    requires ps != [] && ps[0].text != "" && AllWellSplit(ps)
    ensures Trim(Written(ps)) && Words(Written(ps)) == AllWords(ps)
  {
    hide IsSpace, Words, Gaps, Blank;
    var init, last := ps[..|ps| - 1], ps[|ps| - 1];
    assert WellSplit(last);
    if init == [] {
      assert AllWords(init) == [];
    } else {
      assert init[0] == ps[0] && AllWellSplit(init);
      WrittenWords(init);
      WordsNothing();
      if last.text == "" {
        assert Written(init) + "" == Written(init);
      } else {
        BlankSpace();
        WordsAcross(Written(init), " ", last.text);
        Assoc(Written(init), " ", last.text);
      }
    }
  }

  lemma BlankSpace()
    ensures Blank(" ")
  {
  }

  lemma TrimEnds(s: string, indent: string)
    requires Trim(s)
    ensures indent + s != "" && !IsSpace((indent + s)[|indent + s| - 1])
  {
    hide IsSpace;
    assert (indent + s)[|indent + s| - 1] == s[|s| - 1];
  }

  lemma {:induction false} ContinuedRun(logical: seq<string>, ps: seq<Piece>)
    requires ps != [] && ps[0].text != "" && AllWellSplit(ps)
    ensures ScanLines(Scan(logical, ""), ContinuedLines(ps)) == Scan(logical, ps[0].indent + Written(ps))
  {
    hide ScanLine, IsSpace, WellSplit, Continued, Joined;
    var init, last := ps[..|ps| - 1], ps[|ps| - 1];
    var line := Continued(last);
    assert ContinuedLines(ps) == ContinuedLines(init) + [line];
    ScanAppend(Scan(logical, ""), ContinuedLines(init), [line]);
    assert [line][1..] == [];
    if init == [] {
      FirstStep(logical, last);
    } else {
      assert AllWellSplit(init) && init[0] == ps[0];
      ContinuedRun(logical, init);
      WrittenWords(init);
      TrimEnds(Written(init), ps[0].indent);
      ContinueStep(logical, ps[0].indent + Written(init), last);
      Assoc(ps[0].indent, Written(init), Joined(last.text));
    }
  }

  /** The text of the whole instruction, and the piece that writes it on one
      line. */
  function WholeText(ps: seq<Piece>, last: Piece): string
    requires ps != []
  {
    Written(ps) + " " + last.text
  }

  function Whole(ps: seq<Piece>, last: Piece): Piece
    requires ps != []
  {
    Piece(ps[0].indent, WholeText(ps, last), "", last.trail)
  }

  predicate Splitting(ps: seq<Piece>, last: Piece) {
    ps != [] && ps[0].text != "" && AllWellSplit(ps) && Ends(last)
  }

  lemma WholeEnds(ps: seq<Piece>, last: Piece)
    requires Splitting(ps, last)
    ensures Ends(Whole(ps, last)) && Trim(WholeText(ps, last))
    ensures Words(WholeText(ps, last)) == AllWords(ps) + Words(last.text)
    ensures ps[0].indent + Written(ps) != ""
    ensures ps[0].indent + Written(ps) + " " + last.text == ps[0].indent + WholeText(ps, last)
  {
    hide IsSpace, Words, Gaps, EndsWith, Blank, Written;
    WrittenWords(ps);
    BlankSpace();
    BlankNothing();
    WordsAcross(Written(ps), " ", last.text);
    LastCharOfSum(Written(ps) + " ", last.text);
    Assoc(ps[0].indent, Written(ps) + " ", last.text);
    Assoc(ps[0].indent, Written(ps), " ");
    assert WellSplit(ps[0]);
  }

  predicate Closed(pre: seq<string>) {
    ScanLines(Scan([], ""), pre).buf == ""
  }

  /** Any number of continued lines read as the single line of all their texts. */
  lemma ContinuationIsOneLine(pre: seq<string>, ps: seq<Piece>, last: Piece, post: seq<string>)
    requires Splitting(ps, last) && Closed(pre)
    ensures Logical(pre + ContinuedLines(ps) + [Final(last)] + post) == Logical(pre + [Final(Whole(ps, last))] + post)
  {
    hide ScanLine, IsSpace, WellSplit, Final, WholeText, Ends, Written;
    var logical := ScanLines(Scan([], ""), pre).logical;
    ContinuedRun(logical, ps);
    WholeEnds(ps, last);
    FinalStep(logical, ps[0].indent + Written(ps), last);
    FinalStep(logical, "", Whole(ps, last));
    ScanParts(pre, ContinuedLines(ps), Final(last), post);
    ScanParts(pre, [], Final(Whole(ps, last)), post);
    assert pre + [] + [Final(Whole(ps, last))] + post == pre + [Final(Whole(ps, last))] + post;
  }

  lemma ScanParts(pre: seq<string>, mid: seq<string>, line: string, post: seq<string>)
    ensures ScanLines(Scan([], ""), pre + mid + [line] + post)
            == ScanLines(ScanLine(ScanLines(ScanLines(Scan([], ""), pre), mid), line), post)
  {
    hide ScanLine;
    ScanAppend(Scan([], ""), pre + mid + [line], post);
    ScanAppend(Scan([], ""), pre + mid, [line]);
    ScanAppend(Scan([], ""), pre, mid);
    assert [line][1..] == [];
  }

  // ------------------------------------------------------- the leading options

  /** The documented dropping of options, word by word. */
  function DropFlagWords(args: seq<string>): (r: seq<string>)
    ensures |r| <= |args|
  {
    if args != [] && "--" <= args[0] then DropFlagWords(args[1..]) else args
  }

  /** How many words of an instruction's arguments are leading options. */
  function Options(args: seq<string>): nat { |args| - |DropFlagWords(args)| }

  lemma SpaceAt(s: string, j: nat)
    ensures OccursAt(s, " ", j) <==> j < |s| && s[j] == ' '
  {
    if j < |s| {
      assert s[j..j + 1] == [s[j]];
    }
  }

  /** The first space of a text lies behind any beginning without one. */
  lemma FindSpaceAfter(a: string, b: string)
    requires ' ' !in a
    ensures Find(a + b, " ") == match Find(b, " ") case None => None case Some(e) => Some(|a| + e)
  {
    hide Find;
    var q := Find(b, " ");
    var bound := if q.Some? then |a| + q.value else |a| + |b| + 1;
    forall j: nat | j < bound ensures !OccursAt(a + b, " ", j) {
      SpaceAt(a + b, j);
      if j < |a| {
        assert (a + b)[j] == a[j];
      } else {
        assert !OccursAt(b, " ", j - |a|);
        SpaceAt(b, j - |a|);
      }
    }
    if q.Some? {
      SpaceAt(b, q.value);
      SpaceAt(a + b, bound);
    }
    FindFirst(a + b, bound);
  }

  lemma FindFirst(s: string, i: nat)
    requires forall j: nat :: j < i ==> !OccursAt(s, " ", j)
    requires i <= |s| ==> OccursAt(s, " ", i)
    ensures Find(s, " ") == if i <= |s| then Some(i) else None
  {
    hide Find, OccursAt;
    var r := Find(s, " ");
    assert r.Some? ==> OccursAt(s, " ", r.value);
  }

  /** What follows the first space of a text. */
  function AfterSpace(s: string): string {
    match Find(s, " ")
    case None => ""
    case Some(e) => LStrip(s[e..], IsSpace)
  }

  lemma AfterSpaceless(a: string, b: string)
    requires ' ' !in a
    ensures AfterSpace(a + b) == AfterSpace(b)
  {
    hide Find, IsSpace, LStrip;
    FindSpaceAfter(a, b);
    if e :| Find(b, " ") == Some(e) {
      assert (a + b)[|a| + e..] == b[e..];
    }
  }

  lemma SplitAtSpace(gap: string) returns (g: string, g': string)
    requires ' ' in gap
    ensures gap == g + " " + g' && ' ' !in g
  {
    var i :| 0 <= i < |gap| && gap[i] == ' ' && ' ' !in gap[..i] by {
      FirstSpace(gap);
    }
    g, g' := gap[..i], gap[i + 1..];
  }

  lemma {:induction false} FirstSpace(gap: string)
    requires ' ' in gap
    ensures exists i :: 0 <= i < |gap| && gap[i] == ' ' && ' ' !in gap[..i]
  {
    if gap[0] == ' ' {
      assert gap[..0] == "";
    } else {
      FirstSpace(gap[1..]);
      var i :| 0 <= i < |gap[1..]| && gap[1..][i] == ' ' && ' ' !in gap[1..][..i];
      assert gap[i + 1] == ' ' && gap[..i + 1] == [gap[0]] + gap[1..][..i];
    }
  }

  /** What follows the first space after a word: the rest of the text when the
      gap holds a space; otherwise the rest loses its first word as well. */
  lemma AfterWord(w: string, gap: string, rest: string)
    requires Word(w) && Blank(gap) && Trim(rest)
    ensures AfterSpace(w + gap + rest) == if ' ' in gap then rest else AfterSpace(rest)
  {
    hide Find, IsSpace, AfterSpace;
    WordHasNoSpace(w);
    if ' ' in gap {
      var g, g' := SplitAtSpace(gap);
      assert w + gap + rest == (w + g) + (" " + g' + rest);
      AfterSpaceless(w + g, " " + g' + rest);
      assert Blank(g') by { assert forall i :: 0 <= i < |g'| ==> g'[i] == gap[|g| + 1 + i]; }
      AtSpace(g', rest);
    } else {
      AfterSpaceless(w + gap, rest);
    }
  }

  lemma AtSpace(g: string, rest: string)
    requires Blank(g) && Trim(rest)
    ensures AfterSpace(" " + g + rest) == rest
  {
    hide IsSpace, LStrip;
    var s := " " + g + rest;
    SpaceAt(s, 0);
    SpaceFacts();
    assert Find(s, " ") == Some(0) && s[0..] == s;
    LStripPadded(" " + g, rest, IsSpace);
  }

  lemma WordHasNoSpace(w: string)
    requires Word(w)
    ensures ' ' !in w
  {
  }

  lemma AfterLastWord(w: string)
    requires Word(w)
    ensures AfterSpace(w) == ""
  {
    hide Find;
    WordHasNoSpace(w);
    if e :| Find(w, " ") == Some(e) {
      SpaceAt(w, e);
    }
  }

  lemma DropNoFlag(body: string)
    requires body == "" || (Trim(body) && !("--" <= body))
    ensures DropFlags(body) == body
  {
    hide IsSpace;
    LStripNothing(body, IsSpace);
  }

  /** One round of the loop. */
  lemma DropOneFlag(body: string)
    requires Trim(body) && "--" <= body
    ensures DropFlags(body) == DropFlags(AfterSpace(body))
  {
    hide IsSpace, Find, LStrip;
    LStripNothing(body, IsSpace);
    FindFromTwo(body);
    DropNoFlag("");
  }

  lemma FindFromTwo(body: string)
    requires "--" <= body
    ensures Find(body, " ", 2) == Find(body, " ")
  {
    SpaceAt(body, 0);
    SpaceAt(body, 1);
    assert body[0] == '-' && body[1] == '-';
    assert Find(body, " ") == Find(body, " ", 1) == Find(body, " ", 2);
  }

  lemma OptionFirst(w: string, gap: string, rest: string)
    requires Word(w) && Blank(gap) && (gap == "" ==> rest == "")
    ensures "--" <= w + gap + rest <==> "--" <= w
  {
    hide IsSpace;
    DashIsNoSpace();
    var s := w + gap + rest;
    assert s[0] == w[0];
    if |w| > 1 {
      assert s[1] == w[1];
    } else if gap != "" {
      assert s[1] == gap[0];
    } else {
      assert s == w;
    }
  }

  lemma DashIsNoSpace()
    ensures !IsSpace('-')
  {
  }

  /** The loop never gives back more words than it was given, and it gives back
      fewer when its text began with an option. */
  lemma {:induction false} DroppedIsShorter(s: string)
    requires Trim(s)
    ensures |Words(DropFlags(AfterSpace(s)))| < |Words(s)| && |Words(DropFlags(s))| <= |Words(s)|
    decreases |s|
  {
    hide IsSpace, Words, Gaps, DropFlags, AfterSpace;
    var w, gap, rest := FirstWord(s);
    WordsNothing();
    DropNoFlag("");
    if rest == "" {
      assert s == w;
      AfterLastWord(w);
    } else {
      DroppedIsShorter(rest);
      AfterWord(w, gap, rest);
    }
    if "--" <= s {
      DropOneFlag(s);
    } else {
      DropNoFlag(s);
    }
  }

  /** Options only: nothing is left, whatever separates them. */
  lemma {:induction false} OnlyOptions(s: string)
    requires Trim(s) && DropFlagWords(Words(s)) == []
    ensures DropFlags(s) == DropFlags(AfterSpace(s)) == ""
    decreases |s|
  {
    hide IsSpace, Words, Gaps, DropFlags, AfterSpace;
    var w, gap, rest := FirstWord(s);
    OptionFirst(w, gap, rest);
    DropNoFlag("");
    DropOneFlag(s);
    if rest == "" {
      assert s == w;
      AfterLastWord(w);
    } else {
      assert Words(s)[1..] == Words(rest);
      OnlyOptions(rest);
      AfterWord(w, gap, rest);
    }
  }

  /** A space stands in the gap between the last leading option and what follows
      it. */
  predicate OptionsEnd(body: string) {
    0 < Options(Words(body)) < |Words(body)| ==> ' ' in Gaps(body)[Options(Words(body)) - 1]
  }

  /** The loop over the text drops exactly the leading option words, exactly when
      a space ends them. */
  lemma {:induction false} DropFlagsExactly(body: string)
    requires Trim(body)
    ensures Words(DropFlags(body)) == DropFlagWords(Words(body)) <==> OptionsEnd(body)
    decreases |body|
  {
    hide IsSpace, Words, Gaps, DropFlags, AfterSpace, Trim, Word, Blank;
    var w, gap, rest := FirstWord(body);
    WordsNothing();
    OptionFirst(w, gap, rest);
    if !("--" <= w) {
      DropNoFlag(body);
    } else {
      DropOneFlag(body);
      assert Words(body)[1..] == Words(rest);
      if DropFlagWords(Words(body)) == [] {
        OnlyOptions(body);
      } else {
        AfterWord(w, gap, rest);
        RestOptions(rest);
        DropFlagsExactly(rest);
        DroppedIsShorter(rest);
      }
    }
  }

  /** When the rest begins with an option too, it does not matter how the first
      option was ended. */
  lemma RestOptions(rest: string)
    requires Trim(rest)
    ensures Options(Words(rest)) > 0 <==> "--" <= rest
    ensures if "--" <= rest then DropFlags(rest) == DropFlags(AfterSpace(rest)) else DropFlags(rest) == rest
  {
    hide IsSpace, Words, Gaps, DropFlags, AfterSpace;
    var w, gap, more := FirstWord(rest);
    OptionFirst(w, gap, more);
    if "--" <= rest {
      DropOneFlag(rest);
    } else {
      DropNoFlag(rest);
    }
  }

  /** For a single option: only a space, not just any white space, ends it. */
  lemma OptionGapExactly(flag: string, gap: string, rest: string)
    requires Word(flag) && "--" <= flag && Blank(gap) && gap != "" && Trim(rest) && !("--" <= rest)
    ensures Words(DropFlags(flag + gap + rest)) == Words(rest) <==> ' ' in gap
  {
    hide IsSpace, Words, Gaps, DropFlags;
    WordThenGap(flag, gap, rest);
    RestOptions(rest);
    assert Words(flag + gap + rest)[1..] == Words(rest);
    DropFlagsExactly(flag + gap + rest);
    WordsAreWords(rest);
  }

  // ----------------------------------------------------------- the shell form

  /** The documented reading of a shell-form instruction: the words after the
      leading options, without the destination. */
  function DeclaredSources(args: seq<string>): set<string> {
    var paths := DropFlagWords(args);
    if |paths| < 2 then {} else Sources(AllButLast(paths))
  }

  predicate IsKeyword(w: string) {
    UpperCase(w) == "COPY" || UpperCase(w) == "ADD"
  }

  /** What follows the keyword of a line. */
  function Body(line: string): string { LStrip(line[Keyword(line)..], IsSpace) }

  /** The words that the parser takes for sources and destination; None when it
      does not see an instruction. */
  function ShellTokens(line: string): Option<seq<string>> {
    if Keyword(line) == 0 then None else Some(Words(DropFlags(Body(line))))
  }

  lemma KeywordOf(keyword: string, rest: string)
    requires IsKeyword(keyword)
    ensures Keyword(keyword + " " + rest) == |keyword| > 0
  {
    var line := keyword + " " + rest;
    var k := |keyword|;
    assert |UpperCase(keyword)| == k && (k == 4 || k == 3);
    assert UpperCase(line[..k + 1]) == UpperCase(keyword) + " ";
    if k == 3 && |line| > 4 {
      assert UpperCase(line[..5])[0] == UpperCase(keyword)[0] == 'A';
    }
  }

  lemma UpperIsSpace(c: char)
    ensures Upper(c) == ' ' <==> c == ' '
    ensures 'A' <= Upper(c) <= 'Z' ==> !IsSpace(c)
  {
  }

  /** A keyword that is seen is the first word, and a space follows it. */
  lemma KeywordSeen(line: string)
    requires Keyword(line) > 0
    ensures var n := Keyword(line);
            && n < |line| && IsKeyword(line[..n]) && line[n] == ' ' && forall i :: 0 <= i < n ==> !IsSpace(line[i])
  {
    hide IsSpace, Upper;
    var n := Keyword(line);
    var u := UpperCase(line[..n + 1]);
    assert u == "COPY " || u == "ADD ";
    assert forall i :: 0 <= i <= n ==> u[i] == Upper(line[i]);
    UpperIsSpace(line[n]);
    assert u[..n] == UpperCase(line[..n]);
    forall i | 0 <= i < n ensures !IsSpace(line[i]) {
      UpperIsSpace(line[i]);
      assert u[i] in {'C', 'O', 'P', 'Y', 'A', 'D'};
    }
  }

  /** An instruction is seen exactly when its first word is a keyword and a space
      follows that directly. */
  lemma KeywordExactly(line: string, keyword: string, args: seq<string>)
    requires Trim(line) && Words(line) == [keyword] + args && args != []
    ensures Keyword(line) > 0 <==> IsKeyword(keyword) && Gaps(line)[0] != "" && Gaps(line)[0][0] == ' '
    ensures Keyword(line) > 0 ==> Words(Body(line)) == args && Trim(Body(line)) && Gaps(line)[1..] == Gaps(Body(line))
  {
    hide IsSpace, Words, Gaps, Keyword, IsKeyword, Body, Trim, Word, Blank;
    var w, gap, rest := FirstWord(line);
    WordsNothing();
    assert Words(line)[0] == keyword && Words(line)[1..] == args;
    assert rest != "" && Gaps(line)[0] == gap && Gaps(line)[1..] == Gaps(rest);
    KeywordParts(w, gap, rest);
  }

  lemma KeywordParts(w: string, gap: string, rest: string)
    requires Word(w) && Blank(gap) && gap != "" && Trim(rest)
    ensures Keyword(w + gap + rest) > 0 <==> IsKeyword(w) && gap[0] == ' '
    ensures Keyword(w + gap + rest) > 0 ==> Body(w + gap + rest) == rest
  {
    hide IsSpace, Keyword, IsKeyword, Body, Trim, Word, Blank;
    if IsKeyword(w) && gap[0] == ' ' {
      assert gap == " " + gap[1..];
      assert w + gap + rest == w + " " + (gap[1..] + rest);
      KeywordOf(w, gap[1..] + rest);
    }
    if Keyword(w + gap + rest) > 0 {
      KeywordSeen(w + gap + rest);
      SameRun(w, gap, rest, Keyword(w + gap + rest));
      BodyAfter(w, gap, rest);
    }
  }

  lemma BodyAfter(w: string, gap: string, rest: string)
    requires Blank(gap) && Trim(rest) && Keyword(w + gap + rest) == |w|
    ensures Body(w + gap + rest) == rest
  {
    hide IsSpace, LStrip, Keyword;
    assert (w + gap + rest)[|w|..] == gap + rest;
    LStripPadded(gap, rest, IsSpace);
  }

  lemma SameRun(w: string, gap: string, rest: string, n: nat)
    requires Word(w) && Blank(gap) && gap != ""
    requires var line := w + gap + rest;
             n < |line| && line[n] == ' ' && forall i :: 0 <= i < n ==> !IsSpace(line[i])
    ensures n == |w| && (w + gap + rest)[..n] == w && (w + gap + rest)[n] == gap[0]
  {
    hide IsSpace;
    SpaceFacts();
    var line := w + gap + rest;
    assert line[|w|] == gap[0] && line[..|w|] == w;
    assert forall i :: 0 <= i < |w| ==> line[i] == w[i];
  }

  /** A space follows the keyword directly, and one stands in the gap before the
      first word that is not an option. */
  predicate Separated(line: string, args: seq<string>)
    requires args != [] && |Gaps(line)| == |args|
  {
    && Gaps(line)[0] != "" && Gaps(line)[0][0] == ' '
    && (Options(args) < |args| ==> ' ' in Gaps(line)[Options(args)])
  }

  /** The parser takes exactly the declared words from an instruction, however its
      words are spaced, exactly when it is separated. */
  lemma ShellTokensExactly(line: string, keyword: string, args: seq<string>)
    requires Trim(line) && Words(line) == [keyword] + args && args != [] && IsKeyword(keyword)
    ensures ShellTokens(line) == Some(DropFlagWords(args)) <==> Separated(line, args)
  {
    hide IsSpace, Words, Gaps, Keyword, IsKeyword, DropFlags, Body;
    KeywordExactly(line, keyword, args);
    if Keyword(line) > 0 {
      DropFlagsExactly(Body(line));
      assert forall i :: 0 <= i < |args| - 1 ==> Gaps(line)[i + 1] == Gaps(Body(line))[i];
    }
  }

  /** An instruction that is separated, and whose first argument does not open a
      JSON array, gives the declared sources. */
  lemma ShellForm(indent: string, line: string, keyword: string, args: seq<string>, json: string -> Option<seq<string>>)
    requires Blank(indent) && Trim(line) && Words(line) == [keyword] + args && args != [] && IsKeyword(keyword)
    requires !("[" <= args[0]) && Separated(line, args)
    ensures LineSources(indent + line, json) == DeclaredSources(args)
  {
    hide IsSpace, Words, Gaps, Keyword, IsKeyword, DropFlags, Sources, Separated, DropFlagWords, LStrip;
    ShellTokensExactly(line, keyword, args);
    OpensArray(indent, line, keyword, args);
  }

  /** What the parser looks at: the stripped line, and whether its body opens a
      JSON array. */
  lemma OpensArray(indent: string, line: string, keyword: string, args: seq<string>)
    requires Blank(indent) && Trim(line) && Words(line) == [keyword] + args && args != []
    ensures Strip(indent + line, IsSpace) == line
    ensures Keyword(line) > 0 ==> ("[" <= Body(line) <==> "[" <= args[0])
  {
    hide IsSpace, Words, Gaps, Keyword, IsKeyword, DropFlags, Body;
    BlankNothing();
    TrimPadded(indent, line, "");
    assert indent + line + "" == indent + line;
    KeywordExactly(line, keyword, args);
    if Keyword(line) > 0 {
      var w, gap, rest := FirstWord(Body(line));
      assert Body(line)[0] == w[0];
    }
  }

  /** What an instruction gives, by the form of its body. */
  lemma ByForm(indent: string, line: string, json: string -> Option<seq<string>>)
    requires Strip(indent + line, IsSpace) == line && Keyword(line) > 0
    ensures LineSources(indent + line, json) ==
            if "[" <= Body(line) then
              (match json(Body(line)) case None => {} case Some(tokens) => Sources(AllButLast(tokens)))
            else
              var tokens := Words(DropFlags(Body(line)));
              if |tokens| < 2 then {} else Sources(AllButLast(tokens))
  {
    hide IsSpace, Words, Gaps, Keyword, DropFlags, Sources, LStrip, Strip;
  }

  /** The JSON reader decides the sources of an instruction exactly when its first
      argument opens an array: an array after an option is read as shell words. */
  lemma JsonDecides(indent: string, line: string, keyword: string, args: seq<string>)
    requires Blank(indent) && Trim(line) && Words(line) == [keyword] + args && args != [] && Keyword(line) > 0
    ensures (forall json, json' :: LineSources(indent + line, json) == LineSources(indent + line, json'))
            <==> !("[" <= args[0])
  {
    hide IsSpace, Words, Gaps, Keyword, DropFlags, Body, LineSources, Sources;
    OpensArray(indent, line, keyword, args);
    if "[" <= args[0] {
      var none: string -> Option<seq<string>> := _ => None;
      var some: string -> Option<seq<string>> := _ => Some(["a", "b"]);
      ByForm(indent, line, none);
      ByForm(indent, line, some);
      OneSource();
      assert LineSources(indent + line, none) == {};
      assert "a" in LineSources(indent + line, some);
    } else {
      forall json, json' ensures LineSources(indent + line, json) == LineSources(indent + line, json') {
        ByForm(indent, line, json);
        ByForm(indent, line, json');
      }
    }
  }

  lemma OneSource()
    ensures "a" in Sources(AllButLast(["a", "b"]))
  {
    assert AllButLast(["a", "b"]) == ["a"];
    SourcesOfWords(["a"], "a");
  }

  /** A one-line form of a split instruction: the same words, and the same gaps
      but where the line was split. */
  predicate OneLineOf(line: string, ps: seq<Piece>, last: Piece)
    requires ps != []
  {
    && Trim(line) && Words(line) == Words(WholeText(ps, last))
    && forall i :: 0 <= i < |Gaps(line)| ==>
                     Gaps(WholeText(ps, last))[i] == Gaps(line)[i] || Gaps(WholeText(ps, last))[i] == " "
  }

  lemma SplittingSeparates(line: string, ps: seq<Piece>, last: Piece, keyword: string, args: seq<string>)
    requires ps != [] && OneLineOf(line, ps, last) && Words(line) == [keyword] + args && args != []
    requires Separated(line, args)
    ensures Separated(WholeText(ps, last), args)
  {
    hide Words, Gaps, WholeText, Trim;
  }

  lemma OneLineEnds(line: string, ps: seq<Piece>, last: Piece)
    requires Splitting(ps, last) && OneLineOf(line, ps, last)
    ensures Ends(Piece("", line, "", ""))
  {
    hide IsSpace, Words, Gaps, WholeText;
    WholeEnds(ps, last);
    BlankNothing();
    WordsAreWords(line);
    WordsAreWords(WholeText(ps, last));
    LastChar(line);
    LastChar(WholeText(ps, last));
  }

  lemma LastChar(s: string)
    requires s != ""
    ensures EndsWith(s, BACKSLASH) <==> s[|s| - 1] == '\\'
  {
    assert s[|s| - 1..] == [s[|s| - 1]];
  }

  /** Splitting a separated COPY or ADD over any number of continued lines gives
      the same sources for the whole file as writing it on one line, and they are
      the declared ones. */
  lemma SplitInstruction(pre: seq<string>, ps: seq<Piece>, last: Piece, post: seq<string>, line: string,
                         keyword: string, args: seq<string>, json: string -> Option<seq<string>>)
    requires Splitting(ps, last) && Closed(pre) && OneLineOf(line, ps, last)
    requires Words(line) == [keyword] + args && IsKeyword(keyword) && args != []
    requires !("[" <= args[0]) && Separated(line, args)
    ensures var split := Logical(pre + ContinuedLines(ps) + [Final(last)] + post);
            var whole := Logical(pre + [line] + post);
            && CopySet(split, json) == CopySet(whole, json)
            && CopySet(split, json)
               == CopySet(Logical(pre), json) + DeclaredSources(args) + CopySet(Logical(post), json)
  {
    hide ScanLine, IsSpace, LineSources, DeclaredSources, Words, Gaps, Logical, Final, CopySet, WholeText, Separated,
         IsKeyword, Ends;
    var one, bare := Whole(ps, last), Piece("", line, "", "");
    ContinuationIsOneLine(pre, ps, last, post);
    WholeEnds(ps, last);
    OneLineEnds(line, ps, last);
    SplittingSeparates(line, ps, last, keyword, args);
    BlankNothing();
    FirstIndent(ps);
    ShellForm(one.indent, one.text, keyword, args, json);
    ShellForm("", line, keyword, args, json);
    FinalBare(line);
    SameSources(pre, one, post, json, DeclaredSources(args));
    SameSources(pre, bare, post, json, DeclaredSources(args));
  }

  lemma FirstIndent(ps: seq<Piece>)
    requires ps != [] && AllWellSplit(ps)
    ensures Blank(ps[0].indent)
  {
    assert WellSplit(ps[0]);
  }

  lemma FinalBare(line: string)
    ensures Final(Piece("", line, "", "")) == line && "" + line == line
  {
  }

  /** What a closed file with one such instruction copies, however the one line
      is indented. */
  lemma SameSources(pre: seq<string>, p: Piece, post: seq<string>, json: string -> Option<seq<string>>,
                    sources: set<string>)
    requires Closed(pre) && Ends(p)
    requires LineSources(p.indent + p.text, json) == sources
    ensures CopySet(Logical(pre + [Final(p)] + post), json)
            == CopySet(Logical(pre), json) + sources + CopySet(Logical(post), json)
  {
    hide ScanLine, IsSpace, LineSources, Ends, Final, CopySet;
    var s := ScanLines(Scan([], ""), pre);
    var line := p.indent + p.text;
    FinalStep(s.logical, "", p);
    ScanParts(pre, [], Final(p), post);
    assert pre + [] + [Final(p)] + post == pre + [Final(p)] + post;
    ScanFrom(s.logical + [line], post);
    CopySetAppend(s.logical + [line], Logical(post), json);
    CopySetSnoc(s.logical, line, json);
    assert s.logical + [] == s.logical;
  }

  lemma CopySetSnoc(logical: seq<string>, line: string, json: string -> Option<seq<string>>)
    ensures CopySet(logical + [line], json) == CopySet(logical, json) + LineSources(line, json)
  {
    hide LineSources;
    assert (logical + [line])[..|logical|] == logical;
  }

  lemma ScanLineShift(head: seq<string>, s: Scan, line: string)
    ensures ScanLine(Scan(head + s.logical, s.buf), line)
            == Scan(head + ScanLine(s, line).logical, ScanLine(s, line).buf)
  {
    hide IsSpace;
  }

  lemma {:induction false} ScanShift(head: seq<string>, s: Scan, lines: seq<string>)
    ensures ScanLines(Scan(head + s.logical, s.buf), lines)
            == Scan(head + ScanLines(s, lines).logical, ScanLines(s, lines).buf)
    decreases |lines|
  {
    hide ScanLine;
    if lines != [] {
      ScanLineShift(head, s, lines[0]);
      ScanShift(head, ScanLine(s, lines[0]), lines[1..]);
    }
  }

  lemma ScanFrom(head: seq<string>, lines: seq<string>)
    ensures var s := ScanLines(Scan(head, ""), lines);
            s.logical + (if s.buf != "" then [s.buf] else []) == head + Logical(lines)
  {
    hide ScanLine;
    ScanShift(head, Scan([], ""), lines);
    assert head + [] == head;
  }

  lemma {:induction false} CopySetAppend(a: seq<string>, b: seq<string>, json: string -> Option<seq<string>>)
    ensures CopySet(a + b, json) == CopySet(a, json) + CopySet(b, json)
  {
    hide LineSources;
    if b == [] {
      assert a + b == a;
    } else {
      CopySetAppend(a, b[..|b| - 1], json);
      assert (a + b)[..|a + b| - 1] == a + b[..|b| - 1];
    }
  }

  // -------------------------------------------------------------- at an input

  /** Single spaces separate any instruction. */
  lemma SingleSpacesSeparate(keyword: string, args: seq<string>)
    requires IsKeyword(keyword) && Word(keyword) && AllWord(args) && args != []
    ensures var line := Join([keyword] + args, " ");
            Trim(line) && Words(line) == [keyword] + args && Separated(line, args)
  {
    hide IsSpace, Words, Gaps, IsKeyword, Word, Trim;
    assert AllWord([keyword] + args);
    WordsOfJoin([keyword] + args);
  }

  /** The array `["a", "b"]` after an option: one source, the text `["a",`. */
  lemma ArrayAfterOption(json: string -> Option<seq<string>>)
    ensures LineSources("COPY --chown=u [\"a\", \"b\"]", json) == {"[\"a\","}
  {
    hide IsSpace, LineSources, Separated, DeclaredSources;
    var line := ArrayLine();
    BlankNothing();
    ShellForm("", line, "COPY", ["--chown=u", "[\"a\",", "\"b\"]"], json);
    assert "" + line == line;
    ArraySources();
  }

  lemma ArrayLine() returns (line: string)
    ensures line == "COPY --chown=u [\"a\", \"b\"]"
    ensures var args := ["--chown=u", "[\"a\",", "\"b\"]"];
            && Trim(line) && Words(line) == ["COPY"] + args && IsKeyword("COPY") && Separated(line, args)
            && !("[" <= args[0])
  {
    hide IsSpace, Words, Gaps, Separated, Trim, IsKeyword, Word, Join;
    var args := ["--chown=u", "[\"a\",", "\"b\"]"];
    ArrayWords();
    SingleSpacesSeparate("COPY", args);
    JoinFour("COPY", args[0], args[1], args[2]);
    assert ["COPY"] + args == ["COPY", args[0], args[1], args[2]];
    assert args[0][0] == '-';
    line := Join(["COPY"] + args, " ");
  }

  lemma ArrayWords()
    ensures IsKeyword("COPY") && Word("COPY")
    ensures Word("--chown=u") && Word("[\"a\",") && Word("\"b\"]")
    ensures "COPY" + " " + "--chown=u" + " " + "[\"a\"," + " " + "\"b\"]" == "COPY --chown=u [\"a\", \"b\"]"
  {
    ArrayKeyword();
    ArrayText();
  }

  lemma ArrayKeyword()
    ensures IsKeyword("COPY")
  {
    assert UpperCase("COPY") == "COPY";
  }

  lemma ArrayText()
    ensures "COPY" + " " + "--chown=u" + " " + "[\"a\"," + " " + "\"b\"]" == "COPY --chown=u [\"a\", \"b\"]"
  {
  }

  lemma JoinFour(a: string, b: string, c: string, d: string)
    ensures Join([a, b, c, d], " ") == a + " " + b + " " + c + " " + d
  {
    assert [a, b, c, d][1..] == [b, c, d] && [b, c, d][1..] == [c, d] && [c, d][1..] == [d];
    assert Join([c, d], " ") == c + " " + d;
    assert Join([b, c, d], " ") == b + " " + (c + " " + d);
    assert a + " " + (b + " " + (c + " " + d)) == a + " " + b + " " + c + " " + d;
  }

  lemma ArraySources()
    ensures DeclaredSources(["--chown=u", "[\"a\",", "\"b\"]"]) == {"[\"a\","}
  {
    var args := ["--chown=u", "[\"a\",", "\"b\"]"];
    var paths := ["[\"a\",", "\"b\"]"];
    assert args[1..] == paths && paths[..1] == ["[\"a\","];
    assert args[0][..2] == "--" && paths[0][0] == '[';
    assert DropFlagWords(paths) == paths;
    forall s ensures s in Sources(["[\"a\","]) <==> s == "[\"a\"," {
      SourcesOfWords(["[\"a\","], s);
    }
  }

  /** A tab after an option: the source behind it is lost with the option. */
  lemma TabAfterOption()
    ensures Words(DropFlags("--chown=u" + "\t" + "a b c")) == ["b", "c"]
    ensures DropFlagWords(["--chown=u", "a", "b", "c"]) == ["a", "b", "c"]
  {
    hide IsSpace, Words, DropFlags, Gaps;
    TabWords();
    var rest := Join(["a", "b", "c"], " ");
    WordsOfJoin(["a", "b", "c"]);
    WordThenGap("--chown=u", "\t", rest);
    AfterWord("--chown=u", "\t", rest);
    DropOneFlag("--chown=u" + "\t" + rest);
    var more := Join(["b", "c"], " ");
    WordsOfJoin(["b", "c"]);
    BlankSpace();
    AfterWord("a", " ", more);
    DropNoFlag(more);
    assert ["--chown=u", "a", "b", "c"][1..] == ["a", "b", "c"];
  }

  lemma TabWords()
    ensures Word("--chown=u") && "--" <= "--chown=u" && AllWord(["a", "b", "c"]) && AllWord(["b", "c"]) && Word("a")
    ensures Blank("\t") && ' ' !in "\t" && !("--" <= "a")
    ensures Join(["b", "c"], " ") == "b c" && Join(["a", "b", "c"], " ") == "a b c" == "a" + " " + "b c"
    ensures !("--" <= "b c") && "--" <= "--chown=u" + "\t" + "a b c"
  {
    assert ["a", "b", "c"][1..] == ["b", "c"] && ["b", "c"][1..] == ["c"];
    assert ("--chown=u" + "\t" + "a b c")[..2] == "--";
    assert "b c"[0] == 'b' && "a"[0] == 'a' && "--chown=u"[..2] == "--";
  }

  /** The keywords in any case of letters, and nothing else. */
  lemma KeywordsAnyCase(w: string)
    ensures IsKeyword(w) <==>
            || (|w| == 4 && w[0] in "Cc" && w[1] in "Oo" && w[2] in "Pp" && w[3] in "Yy")
            || (|w| == 3 && w[0] in "Aa" && w[1] in "Dd" && w[2] in "Dd")
  {
    hide Upper;
    Capitals();
    var u := UpperCase(w);
    assert |u| == |w| && forall i :: 0 <= i < |w| ==> u[i] == Upper(w[i]);
    assert "COPY" == ['C', 'O', 'P', 'Y'] && "ADD" == ['A', 'D', 'D'];
    if |w| == 4 {
      assert u == [u[0], u[1], u[2], u[3]];
    } else if |w| == 3 {
      assert u == [u[0], u[1], u[2]];
    }
  }

  lemma Capitals()
    ensures forall c :: (Upper(c) == 'C' <==> c in "Cc") && (Upper(c) == 'O' <==> c in "Oo")
    ensures forall c :: (Upper(c) == 'P' <==> c in "Pp") && (Upper(c) == 'Y' <==> c in "Yy")
    ensures forall c :: (Upper(c) == 'A' <==> c in "Aa") && (Upper(c) == 'D' <==> c in "Dd")
  {
  }

  /** Quotes around a source make no difference. */
  lemma QuotedSource(s: string)
    requires s != "" && Unquoted(s)
    ensures Sources(["\"" + s + "\""]) == Sources(["'" + s + "'"]) == Sources([s])
  {
    StripPadded("\"", s, "\"", IsQuote);
    StripPadded("'", s, "'", IsQuote);
    StripPadded("", s, "", IsQuote);
    assert "" + s + "" == s;
    OnlySource("\"" + s + "\"");
    OnlySource("'" + s + "'");
    OnlySource(s);
  }

  lemma OnlySource(raw: string)
    ensures var s := Strip(raw, IsQuote);
            Sources([raw]) == if Resolvable(s) then {if s == "." then "" else s} else {}
  {
    hide Strip;
    assert [raw][0] == raw;
  }
}
