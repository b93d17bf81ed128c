/** The words of a text together with the white space between them: what
    `str.split()` keeps and what it forgets. */
module WordGaps {
  import opened Text

  predicate Blank(s: string) {
    forall i :: 0 <= i < |s| ==> IsSpace(s[i])
  }

  /** A text that neither begins nor ends with white space. */
  predicate Trim(s: string) {
    s != "" && !IsSpace(s[0]) && !IsSpace(s[|s| - 1])
  }

  /** The white space between the words of a text. */
  function Gaps(s: string): (r: seq<string>)
    ensures |r| == if |Words(s)| == 0 then 0 else |Words(s)| - 1
    decreases |s|
  {
    var t := LStrip(s, IsSpace);
    var u := t[RunLength(t, IsSpace)..];
    var v := LStrip(u, IsSpace);
    if v == "" then [] else [u[..|u| - |v|]] + Gaps(v)
  }

  /** What stripping takes off the front. */
  lemma {:induction false} Stripped(s: string, f: char -> bool) returns (pre: string)
    ensures s == pre + LStrip(s, f) && forall i :: 0 <= i < |pre| ==> f(pre[i])
  {
    if s != "" && f(s[0]) {
      var more := Stripped(s[1..], f);
      pre := [s[0]] + more;
      Assoc([s[0]], more, LStrip(s[1..], f));
      assert s == [s[0]] + s[1..];
    } else {
      pre := "";
    }
  }

  lemma {:induction false} RunShape(s: string, f: char -> bool)
    ensures var n := RunLength(s, f); (forall i :: 0 <= i < n ==> !f(s[i])) && (n < |s| ==> f(s[n]))
  {
    if s != "" && !f(s[0]) {
      RunShape(s[1..], f);
      assert forall i :: 1 <= i < |s| ==> s[i] == s[1..][i - 1];
    }
  }

  lemma LStripNothing(s: string, f: char -> bool)
    requires s == "" || !f(s[0])
    ensures LStrip(s, f) == s
  {
  }

  lemma WordsUnfold(s: string, n: nat)
    requires s != "" && !IsSpace(s[0]) && n == RunLength(s, IsSpace)
    ensures var u := s[n..]; var v := LStrip(u, IsSpace);
            && Words(s) == [s[..n]] + Words(v)
            && Gaps(s) == if v == "" then [] else [u[..|u| - |v|]] + Gaps(v)
  {
    hide IsSpace, RunLength;
    LStripNothing(s, IsSpace);
    WordsOfStripped(s[n..]);
  }

  lemma WordsOfStripped(s: string)
    ensures Words(s) == Words(LStrip(s, IsSpace))
  {
    hide IsSpace, RunLength;
    LStripNothing(LStrip(s, IsSpace), IsSpace);
  }

  lemma WordsNothing()
    ensures Words("") == [] && Gaps("") == []
  {
  }

  /** A trimmed text is its first word, white space, and a trimmed rest. */
  lemma FirstWord(s: string) returns (w: string, gap: string, rest: string)
    requires Trim(s)
    ensures s == w + gap + rest && Word(w) && Blank(gap) && |rest| < |s|
    ensures if rest == "" then gap == "" else gap != "" && Trim(rest)
    ensures Words(s) == [w] + Words(rest)
    ensures Gaps(s) == if rest == "" then [] else [gap] + Gaps(rest)
  {
    hide IsSpace, RunLength, LStrip, Words, Gaps, Word, Blank;
    var n := RunLength(s, IsSpace);
    var u := s[n..];
    w, rest := s[..n], LStrip(u, IsSpace);
    gap := FirstGap(u);
    WordsUnfold(s, n);
    FirstRun(s, n);
    assert s == w + u;
    Assoc(w, gap, rest);
    if rest != "" {
      AfterGap(s, w, gap, rest);
    } else {
      NoTrailingGap(s, w, gap);
    }
  }

  lemma FirstRun(s: string, n: nat)
    requires Trim(s) && n == RunLength(s, IsSpace)
    ensures 0 < n <= |s| && Word(s[..n]) && (n < |s| ==> IsSpace(s[n]))
  {
    hide IsSpace, RunLength;
    RunShape(s, IsSpace);
  }

  lemma FirstGap(u: string) returns (gap: string)
    ensures var rest := LStrip(u, IsSpace);
            u == gap + rest && Blank(gap) && gap == u[..|u| - |rest|] && (rest != "" ==> !IsSpace(rest[0]))
  {
    hide IsSpace, LStrip;
    gap := Stripped(u, IsSpace);
    TakeFirst(gap, LStrip(u, IsSpace));
  }

  lemma TakeFirst(a: string, b: string)
    ensures (a + b)[..|a + b| - |b|] == a
  {
  }

  lemma AfterGap(s: string, w: string, gap: string, rest: string)
    requires Trim(s) && s == w + gap + rest && w != "" && rest != "" && !IsSpace(rest[0])
    requires |w| < |s| ==> IsSpace(s[|w|])
    ensures gap != "" && Trim(rest) && |rest| < |s|
  {
    hide IsSpace;
    assert s[|s| - 1] == rest[|rest| - 1];
    assert s[|w| + |gap|] == rest[0];
  }

  lemma NoTrailingGap(s: string, w: string, gap: string)
    requires Trim(s) && s == w + gap + "" && Blank(gap)
    ensures gap == ""
  {
    hide IsSpace;
    assert forall i :: 0 <= i < |gap| ==> s[|w| + i] == gap[i];
  }

  lemma WordsOfOne(w: string)
    requires Word(w)
    ensures Trim(w) && Words(w) == [w] && Gaps(w) == []
  {
    hide IsSpace, Words, Gaps, LStrip, RunLength;
    RunStopsAt(w, "", IsSpace);
    assert w + "" == w && w[|w|..] == "" && w[..|w|] == w;
    LStripNothing("", IsSpace);
    WordsUnfold(w, |w|);
    WordsNothing();
  }

  lemma WordThenGap(w: string, gap: string, rest: string)
    requires Word(w) && Blank(gap) && gap != "" && Trim(rest)
    ensures Trim(w + gap + rest)
    ensures Words(w + gap + rest) == [w] + Words(rest) && Gaps(w + gap + rest) == [gap] + Gaps(rest)
  {
    hide IsSpace, Words, Gaps, LStrip, RunLength;
    var s := w + gap + rest;
    Assoc(w, gap, rest);
    RunStopsAt(w, gap + rest, IsSpace);
    assert s[|w|..] == gap + rest && s[..|w|] == w && s[0] == w[0] && s[|s| - 1] == rest[|rest| - 1];
    LStripPadded(gap, rest, IsSpace);
    assert (gap + rest)[..|gap|] == gap;
    WordsUnfold(s, |w|);
  }

  /** Two trimmed texts with white space between them. */
  lemma {:induction false} WordsAcross(a: string, gap: string, b: string)
    requires Trim(a) && Trim(b) && Blank(gap) && gap != ""
    ensures Trim(a + gap + b)
    ensures Words(a + gap + b) == Words(a) + Words(b) && Gaps(a + gap + b) == Gaps(a) + [gap] + Gaps(b)
    decreases |a|
  {
    hide IsSpace, Words, Gaps, Trim, Word, Blank;
    var w, g, rest := FirstWord(a);
    WordsNothing();
    if rest == "" {
      assert a == w;
      WordThenGap(w, gap, b);
    } else {
      WordsAcross(rest, gap, b);
      WordThenGap(w, g, rest + gap + b);
      Assoc(w + g, rest + gap, b);
      Assoc(w + g, rest, gap);
      Assoc([w], Words(rest), Words(b));
    }
  }

  predicate AllWord(ts: seq<string>) {
    forall i :: 0 <= i < |ts| ==> Word(ts[i])
  }

  lemma {:induction false} WordsAreWords(s: string)
    requires Trim(s)
    ensures AllWord(Words(s)) && Words(s) != []
    ensures var w := Words(s); w[|w| - 1] != "" && w[|w| - 1][|w[|w| - 1]| - 1] == s[|s| - 1]
    decreases |s|
  {
    hide IsSpace, Words, Gaps;
    var w, gap, rest := FirstWord(s);
    WordsNothing();
    if rest != "" {
      WordsAreWords(rest);
    }
  }

  /** Words joined by single spaces. */
  lemma {:induction false} WordsOfJoin(ts: seq<string>)
    requires ts != [] && AllWord(ts)
    ensures Trim(Join(ts, " ")) && Words(Join(ts, " ")) == ts
    ensures forall i :: 0 <= i < |ts| - 1 ==> Gaps(Join(ts, " "))[i] == " "
  {
    hide IsSpace, Words, Gaps;
    assert Word(ts[0]);
    if |ts| == 1 {
      WordsOfOne(ts[0]);
    } else {
      SpaceFacts();
      WordsOfJoin(ts[1..]);
      WordThenGap(ts[0], " ", Join(ts[1..], " "));
    }
  }

  lemma SpaceFacts()
    ensures IsSpace(' ') && !IsSpace('\\')
  {
  }
}
