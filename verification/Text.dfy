/** Text primitives shared by the models: the Python string operations that the
    scripts rely on, over sequences of code points, with the laws about them
    that the models use. */
module Text {

  datatype Option<+T> = None | Some(value: T)

  // ---------------------------------------------------------------- characters

  /** `str.isspace` for one character, which is also the regex class \s. */
  predicate IsSpace(c: char) {
    || c == ' ' || '\t' <= c <= '\r' || '\U{1c}' <= c <= '\U{1f}' || c == '\U{85}' || c == '\U{a0}'
    || c == '\U{1680}' || '\U{2000}' <= c <= '\U{200a}' || c == '\U{2028}' || c == '\U{2029}'
    || c == '\U{202f}' || c == '\U{205f}' || c == '\U{3000}'
  }

  /** The characters at which `str.splitlines` ends a line. */
  predicate IsLineBreak(c: char) {
    '\n' <= c <= '\r' || '\U{1c}' <= c <= '\U{1e}' || c == '\U{85}' || c == '\U{2028}' || c == '\U{2029}'
  }

  predicate IsSlash(c: char) { c == '/' }

  predicate IsQuote(c: char) { c == '\'' || c == '"' }

  predicate IsDigit(c: char) { '0' <= c <= '9' }

  /** A non-empty run of non-space characters: what the regex \S+ accepts. */
  predicate Word(s: string) {
    s != "" && forall i :: 0 <= i < |s| ==> !IsSpace(s[i])
  }

  predicate OneLine(s: string) {
    forall i :: 0 <= i < |s| ==> !IsLineBreak(s[i])
  }

  predicate Digits(s: string) {
    s != "" && forall i :: 0 <= i < |s| ==> IsDigit(s[i])
  }

  predicate EndsWith(s: string, p: string) {
    |p| <= |s| && s[|s| - |p|..] == p
  }

  /** The white space and the line breaks, character by character. */
  lemma SpacesExactly(c: char)
    ensures IsSpace(c) <==>
            || c in " \t\n\U{0b}\U{0c}\r\U{1c}\U{1d}\U{1e}\U{1f}"
            || c in "\U{85}\U{a0}\U{1680}\U{2000}\U{2001}\U{2002}\U{2003}\U{2004}\U{2005}\U{2006}"
            || c in "\U{2007}\U{2008}\U{2009}\U{200a}\U{2028}\U{2029}\U{202f}\U{205f}\U{3000}"
    ensures IsLineBreak(c) <==> c in "\n\U{0b}\U{0c}\r\U{1c}\U{1d}\U{1e}\U{85}\U{2028}\U{2029}"
  {
  }

  // ------------------------------------------------------------------ searching

  predicate OccursAt(s: string, p: string, i: nat) {
    i + |p| <= |s| && s[i..i + |p|] == p
  }

  /** `p in s` */
  predicate Contains(s: string, p: string) {
    exists i :: 0 <= i <= |s| && OccursAt(s, p, i)
  }

  /** The first position of p in s at or after k. */
  function Find(s: string, p: string, k: nat := 0): (r: Option<nat>)
    requires k <= |s|
    ensures r.Some? ==> k <= r.value <= |s| && OccursAt(s, p, r.value)
    ensures r.Some? ==> forall j :: k <= j < r.value ==> !OccursAt(s, p, j)
    ensures r.None? ==> forall j :: k <= j ==> !OccursAt(s, p, j)
    decreases |s| - k
  {
    if OccursAt(s, p, k) then Some(k) else if k == |s| then None else Find(s, p, k + 1)
  }

  datatype Parts = Parts(before: string, found: bool, after: string)

  /** `str.partition`: split at the first occurrence of p. */
  function Partition(s: string, p: string): (r: Parts)
    ensures r.found <==> Contains(s, p)
    ensures r.found ==> s == r.before + p + r.after
    ensures r.found ==> OccursAt(s, p, |r.before|) && forall j :: 0 <= j < |r.before| ==> !OccursAt(s, p, j)
    ensures !r.found ==> r == Parts(s, false, "")
  {
    match Find(s, p)
    case None => Parts(s, false, "")
    case Some(i) => Parts(s[..i], true, s[i + |p|..])
  }

  lemma OccursChar(s: string, p: string, i: nat, k: nat)
    requires OccursAt(s, p, i) && k < |p|
    ensures s[i + k] == p[k]
  {
    assert s[i..i + |p|][k] == p[k];
  }

  lemma StartsOtherwise(s: string, p: string, i: nat)
    requires i < |s| && p != "" && s[i] != p[0]
    ensures !OccursAt(s, p, i)
  {
    if i + |p| <= |s| {
      assert s[i..i + |p|][0] == s[i];
    }
  }

  lemma Assoc<T>(a: seq<T>, b: seq<T>, c: seq<T>)
    ensures a + (b + c) == a + b + c
  {
  }

  lemma PartitionAt(a: string, p: string, b: string)
    requires forall j :: 0 <= j < |a| ==> !OccursAt(a + p + b, p, j)
    ensures Partition(a + p + b, p) == Parts(a, true, b)
  {
    var s := a + p + b;
    assert OccursAt(s, p, |a|);
    var r := Partition(s, p);
    assert |r.before| == |a|;
    assert s[..|a|] == a && s[|a| + |p|..] == b;
  }

  /** An occurrence that lies inside a prefix, or inside a suffix, of the text. */
  lemma OccursInPart(a: string, s: string, b: string, p: string, i: nat)
    requires |a| <= i && i + |p| <= |a| + |s|
    ensures OccursAt(a + s + b, p, i) <==> OccursAt(s, p, i - |a|)
  {
    assert (a + s + b)[i..i + |p|] == s[i - |a|..i - |a| + |p|];
  }

  lemma OccursInPrefix(a: string, b: string, p: string, i: nat)
    requires i + |p| <= |a|
    ensures OccursAt(a + b, p, i) <==> OccursAt(a, p, i)
  {
    assert (a + b)[i..i + |p|] == a[i..i + |p|];
  }

  /** If the first character of p occurs nowhere else in p, a match of p that
      begins before a given copy of p ends before that copy begins. */
  lemma NoStraddle(a: string, p: string, b: string, i: nat)
    requires p != "" && p[0] !in p[1..]
    requires i < |a| && OccursAt(a + p + b, p, i)
    ensures OccursAt(a, p, i)
  {
    var s := a + p + b;
    forall k | 1 <= k < |p| ensures p[k] != p[0] {
      assert p[k] == p[1..][k - 1];
    }
    assert s[|a|] == p[0];
    if i + |p| > |a| {
      OccursChar(s, p, i, |a| - i);
      assert false;
    }
    OccursInPrefix(a, p + b, p, i);
    Assoc(a, p, b);
  }

  /** The first occurrence after a part without one. */
  lemma PartitionAfter(a: string, p: string, b: string)
    requires p != "" && p[0] !in p[1..]
    requires !Contains(a, p)
    ensures Partition(a + p + b, p) == Parts(a, true, b)
  {
    forall j | 0 <= j < |a| ensures !OccursAt(a + p + b, p, j) {
      if OccursAt(a + p + b, p, j) {
        NoStraddle(a, p, b, j);
      }
    }
    PartitionAt(a, p, b);
  }

  lemma ContainsAppend(a: string, b: string, p: string)
    ensures Contains(a, p) || Contains(b, p) ==> Contains(a + b, p)
  {
    if i :| 0 <= i <= |a| && OccursAt(a, p, i) {
      OccursInPrefix(a, b, p, i);
    } else if i :| 0 <= i <= |b| && OccursAt(b, p, i) {
      OccursInPart(a, b, "", p, i + |a|);
      assert a + b + "" == a + b;
    }
  }

  /** A character that p lacks keeps occurrences of p on either side of it. */
  lemma ContainsAcross(a: string, c: char, b: string, p: string)
    requires p != "" && c !in p
    ensures Contains(a + [c] + b, p) <==> Contains(a, p) || Contains(b, p)
  {
    var s := a + [c] + b;
    ContainsAppend(a, [c], p);
    ContainsAppend(a + [c], b, p);
    forall i | 0 <= i <= |s| && OccursAt(s, p, i) ensures Contains(a, p) || Contains(b, p) {
      if i <= |a| < i + |p| {
        OccursChar(s, p, i, |a| - i);
      } else if i > |a| {
        OccursInPart(a + [c], b, "", p, i);
        assert a + [c] + b + "" == s;
        assert OccursAt(b, p, i - |a| - 1);
      } else {
        OccursInPrefix(a, [c] + b, p, i);
        Assoc(a, [c], b);
        assert OccursAt(a, p, i);
      }
    }
  }

  /** The part before the first occurrence has none. */
  lemma NoneBefore(s: string, p: string)
    requires p != ""
    ensures !Contains(Partition(s, p).before, p)
  {
    var r := Partition(s, p);
    if r.found {
      Assoc(r.before, p, r.after);
      forall i | 0 <= i <= |r.before| ensures !OccursAt(r.before, p, i) {
        if OccursAt(r.before, p, i) {
          OccursInPrefix(r.before, p + r.after, p, i);
        }
      }
    }
  }

  /** A text without the k-th character of p does not contain p. */
  lemma ContainsNeeds(s: string, p: string, k: nat := 0)
    requires k < |p| && p[k] !in s
    ensures !Contains(s, p)
  {
    forall i | 0 <= i <= |s| ensures !OccursAt(s, p, i) {
      if OccursAt(s, p, i) {
        OccursChar(s, p, i, k);
      }
    }
  }

  /** `str.replace`: non-overlapping, from the left. */
  function Replace(s: string, p: string, q: string): string
    requires p != ""
    decreases |s|
  {
    var r := Partition(s, p);
    if r.found then r.before + q + Replace(r.after, p, q) else s
  }

  /** A replacement acts on each side of a character that p lacks. */
  lemma {:induction false} ReplaceAcross(a: string, c: char, b: string, p: string, q: string)
    requires p != "" && c !in p
    ensures Replace(a + [c] + b, p, q) == Replace(a, p, q) + [c] + Replace(b, p, q)
    decreases |a|
  {
    var r := Partition(a, p);
    if r.found {
      var x, y := Replace(r.after, p, q), Replace(b, p, q);
      calc {
        Replace(a + [c] + b, p, q);
        { FirstInPrefix(a, [c] + b, p); Assoc(a, [c], b); Assoc(r.after, [c], b);
          ReplaceStep(a + [c] + b, p, q, r.before, r.after + [c] + b); }
        r.before + q + Replace(r.after + [c] + b, p, q);
        { ReplaceAcross(r.after, c, b, p, q); }
        r.before + q + (x + [c] + y);
        { Assoc(r.before + q, x + [c], y); Assoc(r.before + q, x, [c]); }
        r.before + q + x + [c] + y;
        Replace(a, p, q) + [c] + y;
      }
    } else {
      ReplaceAfter(a, c, b, p, q);
    }
  }

  lemma ReplaceAfter(a: string, c: char, b: string, p: string, q: string)
    requires p != "" && c !in p && !Contains(a, p)
    ensures Replace(a + [c] + b, p, q) == a + [c] + Replace(b, p, q)
  {
    ContainsAcross(a, c, b, p);
    if Contains(b, p) {
      var t := Partition(b, p);
      FirstInSuffix(a, c, b, p);
      ReplaceStep(a + [c] + b, p, q, a + [c] + t.before, t.after);
      Assoc(a + [c], t.before + q, Replace(t.after, p, q));
      Assoc(a + [c], t.before, q);
    }
  }

  lemma ReplaceStep(s: string, p: string, q: string, before: string, after: string)
    requires p != "" && Partition(s, p) == Parts(before, true, after)
    ensures Replace(s, p, q) == before + q + Replace(after, p, q)
  {
  }

  lemma FirstInPrefix(a: string, b: string, p: string)
    requires p != "" && Contains(a, p)
    ensures var r := Partition(a, p); Partition(a + b, p) == Parts(r.before, true, r.after + b)
  {
    var r := Partition(a, p);
    forall j | 0 <= j < |r.before| ensures !OccursAt(a + b, p, j) {
      OccursInPrefix(a, b, p, j);
    }
    Assoc(r.before + p, r.after, b);
    PartitionAt(r.before, p, r.after + b);
  }

  lemma FirstInSuffix(a: string, c: char, b: string, p: string)
    requires p != "" && c !in p && !Contains(a, p) && Contains(b, p)
    ensures var t := Partition(b, p); Partition(a + [c] + b, p) == Parts(a + [c] + t.before, true, t.after)
  {
    var t := Partition(b, p);
    var s := a + [c] + b;
    assert s == (a + [c] + t.before) + p + t.after;
    forall j | 0 <= j < |a| + 1 + |t.before| ensures !OccursAt(s, p, j) {
      if j > |a| {
        OccursInPart(a + [c], b, "", p, j);
        assert a + [c] + b + "" == s;
      } else {
        OccursBeforeGap(a, c, b, p, j);
      }
    }
    PartitionAt(a + [c] + t.before, p, t.after);
  }

  lemma OccursBeforeGap(a: string, c: char, b: string, p: string, j: nat)
    requires p != "" && c !in p && j <= |a| && !Contains(a, p)
    ensures !OccursAt(a + [c] + b, p, j)
  {
    var s := a + [c] + b;
    Assoc(a, [c], b);
    if OccursAt(s, p, j) {
      if j + |p| > |a| {
        OccursChar(s, p, j, |a| - j);
      } else {
        OccursInPrefix(a, [c] + b, p, j);
      }
    }
  }

  // ------------------------------------------------------------------ stripping

  /** `str.lstrip`, the stripped characters given by a predicate. */
  function LStrip(s: string, f: char -> bool): (r: string)
    ensures |r| <= |s| && (r != "" ==> !f(r[0]))
  {
    if s != "" && f(s[0]) then LStrip(s[1..], f) else s
  }

  /** `str.rstrip` */
  function RStrip(s: string, f: char -> bool): (r: string)
    ensures |r| <= |s| && (r != "" ==> !f(r[|r| - 1]))
  {
    if s != "" && f(s[|s| - 1]) then RStrip(s[..|s| - 1], f) else s
  }

  function Strip(s: string, f: char -> bool): string {
    RStrip(LStrip(s, f), f)
  }

  /** Stripping padding off a text that neither begins nor ends with a stripped
      character gives the text. */
  lemma StripPadded(pre: string, s: string, post: string, f: char -> bool)
    requires forall i :: 0 <= i < |pre| ==> f(pre[i])
    requires forall i :: 0 <= i < |post| ==> f(post[i])
    requires s != "" && !f(s[0]) && !f(s[|s| - 1])
    ensures Strip(pre + s + post, f) == s
  {
    Assoc(pre, s, post);
    LStripPadded(pre, s + post, f);
    RStripPadded(s, post, f);
  }

  lemma {:induction false} LStripPadded(pre: string, s: string, f: char -> bool)
    requires forall i :: 0 <= i < |pre| ==> f(pre[i])
    requires s != "" ==> !f(s[0])
    ensures LStrip(pre + s, f) == s
  {
    if pre == "" {
      assert pre + s == s;
    } else {
      LStripPadded(pre[1..], s, f);
      assert (pre + s)[1..] == pre[1..] + s;
    }
  }

  lemma {:induction false} RStripPadded(s: string, post: string, f: char -> bool)
    requires forall i :: 0 <= i < |post| ==> f(post[i])
    requires s != "" ==> !f(s[|s| - 1])
    ensures RStrip(s + post, f) == s
  {
    if post == "" {
      assert s + post == s;
    } else {
      RStripPadded(s, post[..|post| - 1], f);
      assert (s + post)[..|s + post| - 1] == s + post[..|post| - 1];
    }
  }

  /** `set(ss)` */
  function Elements(ss: seq<string>): set<string> { set s | s in ss }

  // -------------------------------------------------------- joining, splitting

  /** `sep.join(ts)` */
  function Join(ts: seq<string>, sep: string): string {
    if ts == [] then "" else if |ts| == 1 then ts[0] else ts[0] + sep + Join(ts[1..], sep)
  }

  lemma JoinAppend(a: seq<string>, b: seq<string>, sep: string)
    requires a != [] && b != []
    ensures Join(a + b, sep) == Join(a, sep) + sep + Join(b, sep)
  {
    if |a| == 1 {
      assert (a + b)[1..] == b;
    } else {
      JoinAppend(a[1..], b, sep);
      assert (a + b)[1..] == a[1..] + b;
      Assoc(a[0] + sep, Join(a[1..], sep) + sep, Join(b, sep));
      Assoc(a[0] + sep, Join(a[1..], sep), sep);
    }
  }

  /** `s.split(c)` for a one-character separator: always at least one piece. */
  function Split(s: string, c: char): (r: seq<string>)
    ensures r != []
  {
    if s == "" then [""]
    else
      var r := Split(s[1..], c);
      if s[0] == c then [""] + r else [[s[0]] + r[0]] + r[1..]
  }

  lemma SplitFirst(t: string, c: char, rest: string)
    requires c !in t
    ensures Split(t, c) == [t]
    ensures Split(t + [c] + rest, c) == [t] + Split(rest, c)
  {
    if t == "" {
      assert (t + [c] + rest)[1..] == rest;
    } else {
      SplitFirst(t[1..], c, rest);
      assert (t + [c] + rest)[1..] == t[1..] + [c] + rest;
      assert t == [t[0]] + t[1..];
    }
  }

  /** Splitting undoes joining when no piece holds the separator ... */
  lemma SplitJoin(ts: seq<string>, c: char)
    requires ts != []
    requires forall i :: 0 <= i < |ts| ==> c !in ts[i]
    ensures Split(Join(ts, [c]), c) == ts
  {
    if |ts| == 1 {
      SplitFirst(ts[0], c, "");
    } else {
      SplitJoin(ts[1..], c);
      SplitFirst(ts[0], c, Join(ts[1..], [c]));
    }
  }

  lemma JoinFirst(t: string, ts: seq<string>, sep: string)
    requires ts != []
    ensures Join([t] + ts, sep) == t + sep + Join(ts, sep)
  {
    assert ([t] + ts)[1..] == ts;
  }

  lemma JoinLonger(c: char, ts: seq<string>, sep: string)
    requires ts != []
    ensures Join([[c] + ts[0]] + ts[1..], sep) == [c] + Join(ts, sep)
  {
    var longer := [[c] + ts[0]] + ts[1..];
    assert longer[1..] == ts[1..];
    if |ts| > 1 {
      Assoc([c], ts[0] + sep, Join(ts[1..], sep));
      Assoc([c], ts[0], sep);
    }
  }

  /** ... and joining undoes splitting always. */
  lemma {:induction false} JoinSplit(s: string, c: char)
    ensures Join(Split(s, c), [c]) == s
    ensures forall i :: 0 <= i < |Split(s, c)| ==> c !in Split(s, c)[i]
  {
    hide Join;
    if s == "" {
      JoinOne("", [c]);
    } else {
      var r := Split(s[1..], c);
      JoinSplit(s[1..], c);
      assert s == [s[0]] + s[1..];
      if s[0] == c {
        JoinFirst("", r, [c]);
      } else {
        JoinLonger(s[0], r, [c]);
      }
    }
  }

  lemma JoinOne(t: string, sep: string)
    ensures Join([t], sep) == t
  {
  }

  /** The length of the leading run of characters outside the given class. */
  function RunLength(s: string, f: char -> bool): (n: nat)
    ensures n <= |s| && (s != "" && !f(s[0]) ==> n > 0)
  {
    if s == "" || f(s[0]) then 0 else 1 + RunLength(s[1..], f)
  }

  lemma {:induction false} RunStopsAt(w: string, rest: string, f: char -> bool)
    requires forall i :: 0 <= i < |w| ==> !f(w[i])
    requires rest != "" ==> f(rest[0])
    ensures RunLength(w + rest, f) == |w|
  {
    if w == "" {
      assert w + rest == rest;
    } else {
      RunStopsAt(w[1..], rest, f);
      assert (w + rest)[1..] == w[1..] + rest;
    }
  }

  /** `s.split()`: the maximal runs of non-space characters. */
  function Words(s: string): seq<string>
    decreases |s|
  {
    var t := LStrip(s, IsSpace);
    if t == "" then [] else
      var n := RunLength(t, IsSpace);
      [t[..n]] + Words(t[n..])
  }

  /** `str.splitlines` */
  function SplitLines(s: string): seq<string>
    decreases |s|
  {
    if s == "" then [] else
      var n := RunLength(s, IsLineBreak);
      if n == |s| then [s] else
        var skip := if s[n] == '\r' && n + 1 < |s| && s[n + 1] == '\n' then 2 else 1;
        [s[..n]] + SplitLines(s[n + skip..])
  }

  lemma SplitLinesFirst(line: string, rest: string)
    requires OneLine(line)
    ensures SplitLines(line + "\n" + rest) == [line] + SplitLines(rest)
  {
    var s := line + "\n" + rest;
    Assoc(line, "\n", rest);
    RunStopsAt(line, "\n" + rest, IsLineBreak);
    assert s[..|line|] == line && s[|line|] == '\n' && s[|line| + 1..] == rest;
  }

  /** A carriage return ends a line too, and takes a newline after it along. */
  lemma CarriageReturns(line: string, rest: string)
    requires OneLine(line)
    ensures SplitLines(line + "\r\n" + rest) == [line] + SplitLines(rest)
    ensures (rest == "" || rest[0] != '\n') ==> SplitLines(line + "\r" + rest) == [line] + SplitLines(rest)
  {
    Assoc(line, "\r\n", rest);
    Assoc(line, "\r", rest);
    RunStopsAt(line, "\r\n" + rest, IsLineBreak);
    RunStopsAt(line, "\r" + rest, IsLineBreak);
    var s, t := line + "\r\n" + rest, line + "\r" + rest;
    assert s[..|line|] == line == t[..|line|] && s[|line|] == '\r' == t[|line|] && s[|line| + 1] == '\n';
    assert s[|line| + 2..] == rest == t[|line| + 1..];
    assert rest != "" ==> t[|line| + 1] == rest[0];
  }

  /** The text whose lines are the given ones, each ended by a newline. */
  function Unlines(lines: seq<string>): string {
    if lines == [] then "" else lines[0] + "\n" + Unlines(lines[1..])
  }

  lemma SplitUnlines(lines: seq<string>)
    requires forall i :: 0 <= i < |lines| ==> OneLine(lines[i])
    ensures SplitLines(Unlines(lines)) == lines
  {
    if lines != [] {
      SplitUnlines(lines[1..]);
      SplitLinesFirst(lines[0], Unlines(lines[1..]));
    }
  }

  lemma UnlinesIsJoin(lines: seq<string>)
    requires lines != []
    ensures Join(lines, "\n") + "\n" == Unlines(lines)
  {
    if |lines| > 1 {
      UnlinesIsJoin(lines[1..]);
      assert lines[0] + "\n" + Join(lines[1..], "\n") + "\n" == lines[0] + "\n" + (Join(lines[1..], "\n") + "\n");
    } else {
      assert lines[1..] == [];
      assert lines[0] + "\n" + "" == lines[0] + "\n";
    }
  }

  // -------------------------------------------------------------------- numbers

  /** `str(n)` */
  function Decimal(n: nat): (s: string)
    ensures Digits(s)
  {
    if n < 10 then [('0' as int + n) as char] else Decimal(n / 10) + [('0' as int + n % 10) as char]
  }

  function Value(s: string): nat
    requires forall i :: 0 <= i < |s| ==> IsDigit(s[i])
  {
    if s == "" then 0
    else
      var digit := s[|s| - 1];
      assert IsDigit(digit);
      10 * Value(s[..|s| - 1]) + (digit as nat - '0' as nat)
  }

  /** Reading the digits back gives the number, and none of them is a leading zero. */
  lemma {:induction false} DecimalReads(n: nat)
    ensures Value(Decimal(n)) == n && (Decimal(n)[0] == '0' ==> n == 0)
  {
    if n >= 10 {
      DecimalReads(n / 10);
      var s := Decimal(n);
      assert s[..|s| - 1] == Decimal(n / 10);
    } else {
      assert Decimal(n)[..0] == "";
    }
  }

  // ------------------------------------------------------------------- ordering

  /** Python's order on strings: by code point, a proper prefix first. */
  predicate Less(a: string, b: string) {
    b != "" && (a == "" || a[0] < b[0] || (a[0] == b[0] && Less(a[1..], b[1..])))
  }

  lemma LessTotal(a: string, b: string)
    ensures a == b || Less(a, b) || Less(b, a)
    ensures Less(a, b) ==> a != b && !Less(b, a)
  {
    if a != "" && b != "" {
      LessTotal(a[1..], b[1..]);
      assert a == [a[0]] + a[1..] && b == [b[0]] + b[1..];
    }
  }

  lemma LessTransitive(a: string, b: string, c: string)
    requires Less(a, b) && Less(b, c)
    ensures Less(a, c)
  {
    if a != "" && a[0] == b[0] == c[0] {
      LessTransitive(a[1..], b[1..], c[1..]);
    }
  }

  ghost predicate StrictlySorted(ss: seq<string>) {
    forall i, j :: 0 <= i < j < |ss| ==> Less(ss[i], ss[j])
  }

  /** Two texts that share a prefix compare as their remainders do. */
  lemma LessCommonPrefix(p: string, a: string, b: string)
    ensures Less(p + a, p + b) <==> Less(a, b)
  {
    if p == "" {
      assert p + a == a && p + b == b;
    } else {
      LessCommonPrefix(p[1..], a, b);
      assert (p + a)[1..] == p[1..] + a && (p + b)[1..] == p[1..] + b;
    }
  }

  /** Adds one string to a sorted list of distinct strings. */
  function InsertSorted(ss: seq<string>, s: string): seq<string> {
    if ss == [] || Less(s, ss[0]) then [s] + ss else [ss[0]] + InsertSorted(ss[1..], s)
  }

  lemma InsertSortedKeeps(ss: seq<string>, s: string)
    requires StrictlySorted(ss) && s !in ss
    ensures StrictlySorted(InsertSorted(ss, s))
    ensures forall x :: x in InsertSorted(ss, s) <==> x == s || x in ss
  {
    if ss != [] {
      LessTotal(s, ss[0]);
      assert forall x :: x in ss <==> x == ss[0] || x in ss[1..];
      if Less(s, ss[0]) {
        forall j | 0 <= j < |ss| ensures Less(s, ss[j]) {
          if j > 0 { LessTransitive(s, ss[0], ss[j]); }
        }
      } else {
        InsertSortedKeeps(ss[1..], s);
        var r := InsertSorted(ss[1..], s);
        forall j | 0 <= j < |r| ensures Less(ss[0], r[j]) {
          assert r[j] in r;
        }
      }
    }
  }

  /** `sorted(s)` for a set of strings. */
  method Sorted(s: set<string>) returns (r: seq<string>)
    ensures StrictlySorted(r)
    ensures forall x :: x in r <==> x in s
  {
    r := [];
    var todo := s;
    while todo != {}
      invariant todo <= s && StrictlySorted(r)
      invariant forall x :: x in r <==> x in s - todo
      decreases todo
    {
      var x :| x in todo;
      InsertSortedKeeps(r, x);
      r := InsertSorted(r, x);
      todo := todo - {x};
    }
  }
}
