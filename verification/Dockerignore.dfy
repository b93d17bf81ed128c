/** The ignore-file evaluator and the audit of a build context for environment
    files (scripts/audit_image_build_contexts.py: `dockerignored`,
    `is_env_file`, `audit_context`). */
module Dockerignore {
  import opened Text

  // -------------------------------------------------------------------- fnmatch

  /** Where the character class opened just before t ends: a leading '!' and a
      ']' right after it belong to the class. */
  function ClassEnd(t: string): Option<nat> {
    var i := if "!" <= t then 1 else 0;
    Find(t, "]", if i < |t| && t[i] == ']' then i + 1 else i)
  }

  function InRanges(t: string, c: char): bool {
    if t == "" then false
    else if |t| > 2 && t[1] == '-' then t[0] <= c <= t[2] || InRanges(t[3..], c)
    else t[0] == c || InRanges(t[1..], c)
  }

  function InClass(t: string, c: char): bool {
    if "!" <= t then !InRanges(t[1..], c) else InRanges(t, c)
  }

  /** `fnmatch.fnmatch` on a POSIX system: '*' crosses slashes too. */
  predicate Glob(pat: string, s: string)
    decreases |pat|, |s|
  {
    if pat == "" then s == ""
    else if pat[0] == '*' then Glob(pat[1..], s) || (s != "" && Glob(pat, s[1..]))
    else if s == "" then false
    else if pat[0] == '?' then Glob(pat[1..], s[1..])
    else if pat[0] == '[' && ClassEnd(pat[1..]).Some? then
      var end := ClassEnd(pat[1..]).value;
      InClass(pat[1..][..end], s[0]) && Glob(pat[1..][end + 1..], s[1..])
    else pat[0] == s[0] && Glob(pat[1..], s[1..])
  }

  lemma {:induction false} StarMatchesAll(s: string)
    ensures Glob("*", s)
    decreases |s|
  {
    if s != "" {
      StarMatchesAll(s[1..]);
    }
  }

  /** A pattern without special characters. */
  predicate Literal(p: string) {
    forall i :: 0 <= i < |p| ==> p[i] != '*' && p[i] != '?' && p[i] != '['
  }

  /** Such a pattern matches itself only; followed by a star, its extensions. */
  lemma {:induction false} GlobPrefix(p: string, s: string)
    requires Literal(p)
    ensures Glob(p, s) <==> s == p
    ensures Glob(p + "*", s) <==> p <= s
  {
    if p == "" {
      StarMatchesAll(s);
      assert p + "*" == "*";
    } else {
      assert (p + "*")[1..] == p[1..] + "*";
      if s != "" {
        GlobPrefix(p[1..], s[1..]);
        assert p == [p[0]] + p[1..] && s == [s[0]] + s[1..];
      }
    }
  }

  /** A star between two plain texts. */
  lemma {:induction false} GlobInfix(p: string, q: string, s: string)
    requires Literal(p) && Literal(q)
    ensures Glob(p + "*" + q, s) <==> |p| + |q| <= |s| && p <= s && EndsWith(s, q)
    decreases |p|, |s|
  {
    var pat := p + "*" + q;
    if p != "" {
      assert pat[0] == p[0] && pat[1..] == p[1..] + "*" + q;
      if s != "" {
        GlobInfix(p[1..], q, s[1..]);
        ConsBoth(p, q, s);
      }
    } else {
      assert pat[0] == '*' && pat[1..] == q;
      GlobPrefix(q, s);
      if s != "" {
        GlobInfix(p, q, s[1..]);
        EndsWithTail(s, q);
      } else {
        assert EndsWith(s, q) <==> q == "";
      }
      if s == q {
        assert s[|s| - |q|..] == q;
      }
    }
  }

  lemma ConsBoth(p: string, q: string, s: string)
    requires p != "" && s != ""
    ensures p <= s <==> p[0] == s[0] && p[1..] <= s[1..]
    ensures |p| + |q| <= |s| ==> (EndsWith(s, q) <==> EndsWith(s[1..], q))
  {
    assert p == [p[0]] + p[1..] && s == [s[0]] + s[1..];
    if |p| + |q| <= |s| {
      assert s[|s| - |q|..] == s[1..][|s| - 1 - |q|..];
    }
  }

  lemma EndsWithTail(s: string, q: string)
    requires s != ""
    ensures EndsWith(s, q) <==> s == q || EndsWith(s[1..], q)
  {
    if |q| < |s| {
      assert s[|s| - |q|..] == s[1..][|s| - 1 - |q|..];
    } else if |q| == |s| {
      assert s[0..] == s;
    }
  }

  /** A range of characters, and everything but a range. */
  lemma GlobRange(lo: char, hi: char, c: char)
    requires lo != '!' && lo != ']' && hi != ']'
    ensures Glob("[" + [lo, '-', hi, ']'], [c]) <==> lo <= c <= hi
    ensures Glob("[" + ['!', lo, '-', hi, ']'], [c]) <==> !(lo <= c <= hi)
  {
    hide ClassEnd, Glob;
    RangeEnd(lo, hi);
    ClassGlob([lo, '-', hi, ']'], 3, c);
    ClassGlob(['!', lo, '-', hi, ']'], 4, c);
    assert [lo, '-', hi, ']'][..3] == [lo, '-', hi] && ['!', lo, '-', hi, ']'][..4] == ['!', lo, '-', hi];
    RangeIn(lo, hi, c);
  }

  lemma RangeIn(lo: char, hi: char, c: char)
    requires lo != '!'
    ensures InClass([lo, '-', hi], c) <==> lo <= c <= hi
    ensures InClass(['!', lo, '-', hi], c) <==> !(lo <= c <= hi)
  {
    assert "!"[0] == '!' && ['!', lo, '-', hi][..1] == "!" && ['!', lo, '-', hi][1..] == [lo, '-', hi];
    assert [lo, '-', hi][3..] == "" && !InRanges("", c);
  }

  lemma BracketAt(s: string, j: nat)
    ensures OccursAt(s, "]", j) <==> j < |s| && s[j] == ']'
  {
    if j < |s| {
      assert s[j..j + 1] == [s[j]];
    }
  }

  lemma RangeEnd(lo: char, hi: char)
    requires lo != '!' && lo != ']' && hi != ']'
    ensures ClassEnd([lo, '-', hi, ']']) == Some(3) && ClassEnd(['!', lo, '-', hi, ']']) == Some(4)
  {
    hide OccursAt;
    var t, n := [lo, '-', hi, ']'], ['!', lo, '-', hi, ']'];
    assert "!"[0] == '!' && n[..1] == "!";
    forall j: nat ensures OccursAt(t, "]", j) <==> j == 3 {
      BracketAt(t, j);
    }
    forall j: nat ensures OccursAt(n, "]", j) <==> j == 4 {
      BracketAt(n, j);
    }
    assert t[0] == lo && n[0] == '!' && n[1] == lo;
    assert !("!" <= t) && "!" <= n;
    assert OccursAt(t, "]", 3) && OccursAt(n, "]", 4);
    assert Find(t, "]", 0) == Some(3) && Find(n, "]", 1) == Some(4);
  }

  lemma ClassGlob(t: string, end: nat, c: char)
    requires ClassEnd(t) == Some(end) && end + 1 == |t|
    ensures Glob("[" + t, [c]) <==> InClass(t[..end], c)
  {
    hide ClassEnd, InClass;
    var pat := "[" + t;
    assert pat[0] == '[' && pat[1..] == t && t[end + 1..] == "" && [c][1..] == "";
    assert Glob("", "");
  }

  /** A class of single characters; a bracket as its first character belongs to it,
      and one that is never closed stands for itself. */
  lemma GlobClass(chars: string, c: char)
    requires chars != "" && chars[0] != '!' && '-' !in chars && ']' !in chars[1..]
    ensures Glob("[" + (chars + "]"), [c]) <==> c in chars
    ensures Glob("[" + ("!" + chars + "]"), [c]) <==> c !in chars
    ensures Glob("[", [c]) <==> c == '['
  {
    hide ClassEnd, Glob, InRanges;
    CharsEnd(chars);
    var t, n := chars + "]", "!" + chars + "]";
    ClassGlob(t, |chars|, c);
    ClassGlob(n, |chars| + 1, c);
    assert t[..|chars|] == chars && n[..|chars| + 1] == "!" + chars && ("!" + chars)[1..] == chars;
    CharsIn(chars, c);
    OpenBracket(c);
  }

  lemma OpenBracket(c: char)
    ensures Glob("[", [c]) <==> c == '['
  {
    var pat := "[";
    assert pat[0] == '[' && pat[1..] == "" && ClassEnd("") == None && [c][1..] == "";
    assert Glob("", "");
  }

  lemma {:induction false} CharsIn(chars: string, c: char)
    requires '-' !in chars
    ensures InRanges(chars, c) <==> c in chars
  {
    if chars != "" {
      CharsIn(chars[1..], c);
    }
  }

  lemma CharsEnd(chars: string)
    requires chars != "" && chars[0] != '!' && ']' !in chars[1..]
    ensures ClassEnd(chars + "]") == Some(|chars|) && ClassEnd("!" + chars + "]") == Some(|chars| + 1)
  {
    hide OccursAt;
    var t, n, k := chars + "]", "!" + chars + "]", |chars|;
    assert "!"[0] == '!' && n[..1] == "!" && n[0] == '!' && t[0] == chars[0];
    forall j | 0 < j ensures OccursAt(t, "]", j) <==> j == k {
      BracketAt(t, j);
      assert j < k ==> t[j] == chars[1..][j - 1];
    }
    forall j | 1 < j ensures OccursAt(n, "]", j) <==> j == k + 1 {
      BracketAt(n, j);
      assert j < k + 1 ==> n[j] == chars[1..][j - 2];
    }
    assert OccursAt(t, "]", k) && OccursAt(n, "]", k + 1);
    BracketAt(t, 0);
    BracketAt(n, 1);
    assert ClassEnd(t) == Find(t, "]", if t[0] == ']' then 1 else 0);
    assert ClassEnd(n) == Find(n, "]", if n[1] == ']' then 2 else 1);
  }

  // --------------------------------------------------------------- ignore lines

  datatype Pattern = Pattern(negate: bool, dirOnly: bool, body: string)

  /** One line of the ignore file; None for blanks, comments and bare slashes. */
  function ReadPattern(raw: string): Option<Pattern> {
    var line := Strip(raw, IsSpace);
    if line == "" || "#" <= line then None
    else
      var negate := "!" <= line;
      var rest := if negate then Strip(line[1..], IsSpace) else line;
      var path := if "/" <= rest then rest[1..] else rest;
      var body := RStrip(path, IsSlash);
      if body == "" then None else Some(Pattern(negate, EndsWith(path, "/"), body))
  }

  predicate Covers(p: Pattern, relpath: string) {
    var segments := Split(relpath, '/');
    if '/' !in p.body then
      exists i :: 0 <= i < |segments| && if p.dirOnly then p.body <= segments[i] else Glob(p.body, segments[i])
    else Glob(p.body, relpath) || (p.dirOnly && p.body + "/" <= relpath)
  }

  /** Line i is a pattern of the given sign that covers the path. */
  predicate Hits(patterns: seq<string>, i: nat, negate: bool, relpath: string)
    requires i < |patterns|
  {
    var p := ReadPattern(patterns[i]);
    p.Some? && p.value.negate == negate && Covers(p.value, relpath)
  }

  /** The declarative reading: the last pattern that covers the path decides. */
  ghost predicate Ignored(patterns: seq<string>, relpath: string) {
    exists i :: 0 <= i < |patterns| && Hits(patterns, i, false, relpath)
                && forall j :: i < j < |patterns| ==> !Hits(patterns, j, true, relpath)
  }

  /** `dockerignored`: the overwritten flag is the declarative reading. */
  method Dockerignored(relpath: string, patterns: seq<string>) returns (ignored: bool)
    ensures ignored <==> Ignored(patterns, relpath)
  {
    hide Covers, ReadPattern;
    ignored := false;
    for k := 0 to |patterns|
      invariant ignored <==> exists i :: 0 <= i < k && Hits(patterns, i, false, relpath)
                                         && forall j :: i < j < k ==> !Hits(patterns, j, true, relpath)
    {
      var p := ReadPattern(patterns[k]);
      if p.None? {
        continue;
      }
      if Covers(p.value, relpath) {
        ignored := !p.value.negate;
      }
      assert Hits(patterns, k, true, relpath) || Hits(patterns, k, false, relpath) <==> Covers(p.value, relpath);
    }
  }

  // ------------------------------------------------------- ignore files, in words

  /** A name that an ignore file can hold as it is: no white space or slash at its
      ends, no leading sign, nothing special to the matcher. */
  predicate Ordinary(name: string) {
    && name != "" && Literal(name) && !IsSpace(name[0]) && !IsSpace(name[|name| - 1])
    && name[0] != '#' && name[0] != '!' && name[0] != '/' && name[|name| - 1] != '/'
  }

  lemma Unstripped(s: string, f: char -> bool)
    requires s != "" && !f(s[0]) && !f(s[|s| - 1])
    ensures Strip(s, f) == s && RStrip(s, f) == s
  {
  }

  lemma PunctuationIsNoSpace()
    ensures !IsSpace('!') && !IsSpace('?') && !IsSpace(']') && !IsSpace('[') && !IsSpace('/') && !IsSpace('#')
    ensures !IsSlash('?') && !IsSlash(']') && !IsSlash('[')
  {
  }

  /** The forms of a line: a name, anchored or not, as a directory, negated, with
      blanks around; and lines that say nothing. */
  lemma LineForms(name: string)
    requires Ordinary(name)
    ensures ReadPattern(name) == ReadPattern("/" + name) == Some(Pattern(false, false, name))
    ensures ReadPattern(name + "/") == Some(Pattern(false, true, name))
    ensures ReadPattern("!" + name) == ReadPattern("! " + name) == Some(Pattern(true, false, name))
    ensures ReadPattern(" " + name + " ") == Some(Pattern(false, false, name))
    ensures ReadPattern("#" + name) == ReadPattern("") == ReadPattern("/") == None
  {
    hide Strip, RStrip, LStrip, IsSpace;
    PunctuationIsNoSpace();
    NameForms(name);
    NegatedForms(name);
    PaddedForm(name);
    SilentForms(name);
  }

  /** A line without signs, slashes at its ends, or blanks around it is its pattern. */
  lemma PlainLine(s: string)
    requires s != "" && !IsSpace(s[0]) && !IsSpace(s[|s| - 1])
    requires s[0] != '#' && s[0] != '!' && s[0] != '/' && s[|s| - 1] != '/'
    ensures ReadPattern(s) == Some(Pattern(false, false, s))
  {
    hide Strip, RStrip, LStrip, IsSpace;
    Unstripped(s, IsSpace);
    Unstripped(s, IsSlash);
    assert s[|s| - 1..] == [s[|s| - 1]];
  }

  lemma NameForms(name: string)
    requires Ordinary(name)
    ensures ReadPattern(name) == ReadPattern("/" + name) == Some(Pattern(false, false, name))
    ensures ReadPattern(name + "/") == Some(Pattern(false, true, name))
  {
    hide ReadPattern, IsSpace;
    PlainLine(name);
    AnchoredForm(name);
    DirectoryForm(name);
  }

  lemma AnchoredForm(name: string)
    requires Ordinary(name)
    ensures ReadPattern("/" + name) == Some(Pattern(false, false, name))
  {
    hide Strip, RStrip, LStrip, IsSpace;
    PunctuationIsNoSpace();
    var line := "/" + name;
    assert line[0] == '/' && line[|line| - 1] == name[|name| - 1] && line[1..] == name;
    Unstripped(line, IsSpace);
    Unstripped(name, IsSlash);
    assert name[|name| - 1..] == [name[|name| - 1]];
  }

  lemma DirectoryForm(name: string)
    requires Ordinary(name)
    ensures ReadPattern(name + "/") == Some(Pattern(false, true, name))
  {
    hide Strip, RStrip, LStrip, IsSpace;
    PunctuationIsNoSpace();
    var line := name + "/";
    assert line[0] == name[0] && line[|line| - 1] == '/' && line[|name|..] == "/";
    Unstripped(line, IsSpace);
    RStripPadded(name, "/", IsSlash);
  }

  lemma NegatedForms(name: string)
    requires Ordinary(name)
    ensures ReadPattern("!" + name) == ReadPattern("! " + name) == Some(Pattern(true, false, name))
  {
    hide Strip, RStrip, IsSpace;
    PunctuationIsNoSpace();
    Unstripped(name, IsSpace);
    Unstripped(name, IsSlash);
    Unstripped("!" + name, IsSpace);
    Unstripped("! " + name, IsSpace);
    assert ("!" + name)[1..] == name && ("! " + name)[1..] == " " + name;
    BlankIsSpace();
    StripPadded(" ", name, "", IsSpace);
    assert " " + name + "" == " " + name;
    assert name[|name| - 1..] == [name[|name| - 1]];
  }

  lemma BlankIsSpace()
    ensures IsSpace(' ')
  {
  }

  lemma PaddedForm(name: string)
    requires Ordinary(name)
    ensures ReadPattern(" " + name + " ") == Some(Pattern(false, false, name))
  {
    hide Strip, RStrip, IsSpace;
    BlankIsSpace();
    StripPadded(" ", name, " ", IsSpace);
    Unstripped(name, IsSlash);
    assert name[|name| - 1..] == [name[|name| - 1]];
  }

  lemma SilentForms(name: string)
    requires Ordinary(name)
    ensures ReadPattern("#" + name) == ReadPattern("") == ReadPattern("/") == None
  {
    hide IsSpace;
    PunctuationIsNoSpace();
    Unstripped("#" + name, IsSpace);
    assert ("#" + name)[..1] == "#";
    Unstripped("/", IsSpace);
    assert "/"[1..] == "";
  }

  lemma OnlyPattern(line: string, path: string)
    ensures Ignored([line], path) <==>
            ReadPattern(line).Some? && !ReadPattern(line).value.negate && Covers(ReadPattern(line).value, path)
  {
    hide ReadPattern, Covers;
    assert Hits([line], 0, false, path) <==> ReadPattern(line).Some? && !ReadPattern(line).value.negate
                                             && Covers(ReadPattern(line).value, path);
  }

  /** The documented meaning of one line, for ordinary names: without a slash it
      ignores what has the name as a segment, and as a directory what has a segment
      that begins with it; with a slash it ignores that path, and as a directory
      what lies below it too. */
  lemma OneLineIgnores(name: string, path: string)
    requires Ordinary(name)
    ensures '/' !in name ==> (Ignored([name], path) <==> name in Split(path, '/'))
    ensures '/' !in name ==>
              (Ignored([name + "/"], path) <==> exists segment :: segment in Split(path, '/') && name <= segment)
    ensures '/' in name ==> (Ignored([name], path) <==> path == name)
    ensures '/' in name ==> (Ignored([name + "/"], path) <==> path == name || name + "/" <= path)
    ensures !Ignored(["!" + name], path) && !Ignored(["#" + name], path)
  {
    hide ReadPattern, Glob;
    LineForms(name);
    OnlyPattern(name, path);
    OnlyPattern(name + "/", path);
    OnlyPattern("!" + name, path);
    OnlyPattern("#" + name, path);
    GlobPrefix(name, path);
    forall segment ensures Glob(name, segment) <==> segment == name {
      GlobPrefix(name, segment);
    }
    var segments := Split(path, '/');
    if segment :| segment in segments && name <= segment {
      var i :| 0 <= i < |segments| && segments[i] == segment;
      assert name <= segments[i];
    }
    if i :| 0 <= i < |segments| && name <= segments[i] {
      assert segments[i] in segments;
    }
  }

  // ------------------------------------------------------------------ env files

  /** The regular expression of environment file names. Its '.' stops at a
      newline, and its '$' also matches before a final one. */
  predicate EnvName(name: string) {
    || name == ".env" || name == ".env\n"
    || (".env." <= name && forall i :: 5 <= i < |name| - 1 ==> name[i] != '\n')
  }

  /** `is_env_file` */
  predicate IsEnvFile(name: string) {
    EnvName(name) && !EndsWith(name, ".example") && !EndsWith(name, ".template") && !EndsWith(name, ".sample")
  }

  /** `PurePath.name`: the last component that is neither empty nor a dot. */
  function PathName(segments: seq<string>): string {
    if segments == [] then ""
    else
      var last := segments[|segments| - 1];
      if last == "" || last == "." then PathName(segments[..|segments| - 1]) else last
  }

  lemma {:induction false} PathNameIsSegment(segments: seq<string>)
    ensures PathName(segments) != "" ==> PathName(segments) in segments
  {
    if segments != [] {
      PathNameIsSegment(segments[..|segments| - 1]);
    }
  }

  predicate IsEnvPath(path: string) {
    IsEnvFile(PathName(Split(path, '/')))
  }

  lemma {:induction false} NameOfPath(above: seq<string>, name: string, dots: seq<string>)
    requires name != "" && name != "." && forall i :: 0 <= i < |dots| ==> dots[i] == "" || dots[i] == "."
    ensures PathName(above + [name] + dots) == name
  {
    var segments := above + [name] + dots;
    if dots == [] {
      assert segments == above + [name] && segments[|above|] == name;
    } else {
      var last := |dots| - 1;
      NameOfPath(above, name, dots[..last]);
      assert segments[..|segments| - 1] == above + [name] + dots[..last];
      assert segments[|segments| - 1] == dots[last];
    }
  }

  /** The name is `.env.` and one line more, closed or not. */
  ghost predicate GoesOn(name: string) {
    exists rest :: '\n' !in rest && (name == ".env." + rest || name == ".env." + rest + "\n")
  }

  lemma EnvNameExactly(name: string)
    ensures EnvName(name) <==> name == ".env" || name == ".env\n" || GoesOn(name)
  {
    if ".env." <= name && EnvName(name) {
      var rest := name[5..];
      assert name == ".env." + rest;
      if '\n' in rest {
        assert name == ".env." + rest[..|rest| - 1] + "\n";
      }
    }
    if rest :| '\n' !in rest && (name == ".env." + rest || name == ".env." + rest + "\n") {
      forall i | 5 <= i < |name| - 1 ensures name[i] != '\n' {
        assert name[i] == rest[i - 5];
      }
    }
  }

  lemma EndingExactly(name: string, ending: string)
    ensures EndsWith(name, ending) <==> exists stem :: name == stem + ending
  {
    if EndsWith(name, ending) {
      assert name == name[..|name| - |ending|] + ending;
    }
    if stem :| name == stem + ending {
      assert name[|name| - |ending|..] == ending;
    }
  }

  /** Which files are real environment files, in literal names: `.env` itself and
      `.env.` with any one line behind it, but for the three template endings. */
  lemma EnvFileExactly(name: string)
    ensures IsEnvFile(name) <==>
            && (name == ".env" || name == ".env\n" || GoesOn(name))
            && !(exists stem :: name == stem + ".example")
            && !(exists stem :: name == stem + ".template")
            && !(exists stem :: name == stem + ".sample")
  {
    hide EnvName, EndsWith;
    EnvNameExactly(name);
    EndingExactly(name, ".example");
    EndingExactly(name, ".template");
    EndingExactly(name, ".sample");
  }

  // ----------------------------------------------------------------------- audit

  datatype Entry = File | Directory(files: seq<string>) | Absent

  /** A build context: its files, and what the file system answers for a source
      (a directory with the files below it, all paths from the root). */
  datatype Context = Context(files: seq<string>, lookup: string -> Entry)

  /** The paths that the audit looks at for one copied source. A source with a
      wildcard is looked up as it is written, and so is nearly always absent. */
  function Entering(ctx: Context, src: string): seq<string> {
    if src == "" || src == "." then ctx.files
    else
      match ctx.lookup(src)
      case File => [src]
      case Directory(files) => files
      case Absent => []
  }

  /** A real environment file that the audit sees and that is not ignored. */
  ghost predicate Baked(ctx: Context, src: string, patterns: seq<string>, path: string) {
    path in Entering(ctx, src) && IsEnvPath(path) && !Ignored(patterns, path)
  }

  /** What the audit reports, in literal names: of the paths that it looks at and
      that are not ignored, exactly those whose last segment, trailing slashes and
      dots aside, is `.env` or goes on from `.env.`, and is no template. */
  lemma BakedExactly(ctx: Context, src: string, patterns: seq<string>, path: string, above: seq<string>, name: string,
                     dots: seq<string>)
    requires path in Entering(ctx, src) && !Ignored(patterns, path)
    requires Split(path, '/') == above + [name] + dots && name != "" && name != "."
    requires forall i :: 0 <= i < |dots| ==> dots[i] == "" || dots[i] == "."
    ensures Baked(ctx, src, patterns, path) <==>
            && (name == ".env" || name == ".env\n" || GoesOn(name))
            && !(exists stem :: name == stem + ".example")
            && !(exists stem :: name == stem + ".template")
            && !(exists stem :: name == stem + ".sample")
  {
    hide Ignored, Entering, IsEnvFile, PathName, Split;
    NameOfPath(above, name, dots);
    EnvFileExactly(name);
  }

  /** `.env.production` is reported, `.env.example` and `.envrc` are not. */
  lemma BakedAtInputs(ctx: Context, src: string, patterns: seq<string>, path: string)
    requires path in Entering(ctx, src) && !Ignored(patterns, path)
    ensures path == ".env.production" ==> Baked(ctx, src, patterns, path)
    ensures path == ".env.example" || path == ".envrc" ==> !Baked(ctx, src, patterns, path)
  {
    hide Ignored, Entering, Split, IsEnvFile;
    if path == ".env.production" || path == ".env.example" || path == ".envrc" {
      NoSlashInNames();
      SplitFirst(path, '/', "");
      assert [path] == [] + [path] + [];
      NameOfPath([], path, []);
      EnvFilesAtInputs();
    }
  }

  lemma NoSlashInNames()
    ensures '/' !in ".env.production" && '/' !in ".env.example" && '/' !in ".envrc"
  {
  }

  lemma EnvFilesAtInputs()
    ensures IsEnvFile(".env.production") && !IsEnvFile(".env.example") && !IsEnvFile(".envrc")
  {
    ProductionIsEnv();
    ExampleIsNot();
    assert ".envrc"[4] == 'r' && ".env."[4] == '.' && |".envrc"| == 6;
  }

  lemma ProductionIsEnv()
    ensures IsEnvFile(".env.production")
  {
    var s := ".env.production";
    assert s[..5] == ".env." && s[|s| - 1] == 'n';
    assert ".example"[7] == 'e' && ".template"[8] == 'e' && ".sample"[6] == 'e';
  }

  lemma ExampleIsNot()
    ensures !IsEnvFile(".env.example")
  {
    assert ".env.example"[4..] == ".example";
  }

  method AuditPaths(paths: seq<string>, patterns: seq<string>) returns (findings: seq<string>)
    ensures forall p :: p in findings <==> p in paths && IsEnvPath(p) && !Ignored(patterns, p)
  {
    hide IsEnvPath, Ignored;
    findings := [];
    for i := 0 to |paths|
      invariant forall p :: p in findings <==> p in paths[..i] && IsEnvPath(p) && !Ignored(patterns, p)
    {
      var ignored := Dockerignored(paths[i], patterns);
      assert paths[..i + 1] == paths[..i] + [paths[i]];
      if IsEnvPath(paths[i]) && !ignored {
        findings := findings + [paths[i]];
      }
    }
    assert paths[..|paths|] == paths;
  }

  /** `audit_context`: the findings are exactly the baked environment files. */
  method AuditContext(ctx: Context, copies: set<string>, patterns: seq<string>) returns (findings: seq<string>)
    ensures forall p :: p in findings <==> exists src :: src in copies && Baked(ctx, src, patterns, p)
  {
    hide IsEnvPath, Ignored, Entering;
    findings := [];
    var sources := Sorted(copies);
    for i := 0 to |sources|
      invariant forall p :: p in findings <==> exists src :: src in sources[..i] && Baked(ctx, src, patterns, p)
    {
      var found := AuditPaths(Entering(ctx, sources[i]), patterns);
      assert sources[..i + 1] == sources[..i] + [sources[i]];
      assert forall p :: p in found <==> Baked(ctx, sources[i], patterns, p);
      ghost var before := findings;
      findings := findings + found;
      forall p ensures p in findings <==> exists src :: src in sources[..i + 1] && Baked(ctx, src, patterns, p) {
        if p in before {
          var src :| src in sources[..i] && Baked(ctx, src, patterns, p);
          assert src in sources[..i + 1];
        } else if p in found {
          assert sources[i] in sources[..i + 1];
        }
      }
    }
    assert sources[..|sources|] == sources;
  }

  // ------------------------------------------------------------------ protection

  const ENV_STAR := ".env*"

  lemma EnvStarReads(raw: string)
    requires Strip(raw, IsSpace) == ENV_STAR
    ensures ReadPattern(raw) == Some(Pattern(false, false, ENV_STAR))
  {
    var s := ENV_STAR;
    assert s[0] == '.' && s[|s| - 1] == '*';
    assert RStrip(s, IsSlash) == s;
    assert '/' !in s;
  }

  /** The pattern covers every path whose file is a real environment file. */
  lemma EnvStarCovers(path: string)
    requires IsEnvPath(path)
    ensures Covers(Pattern(false, false, ENV_STAR), path)
  {
    var segments := Split(path, '/');
    var name := PathName(segments);
    PathNameIsSegment(segments);
    var i :| 0 <= i < |segments| && segments[i] == name;
    assert name[..4] == ".env" by {
      assert ".env." == ".env" + "." && ".env\n" == ".env" + "\n";
    }
    assert ENV_STAR == ".env" + "*" && Literal(".env");
    GlobPrefix(".env", name);
    var s := ENV_STAR;
    assert '/' !in s;
  }

  /** A later negated pattern brings the path back, and no pattern after that one
      ignores it again. */
  ghost predicate Exposed(patterns: seq<string>, i: nat, path: string) {
    exists j :: i < j < |patterns| && Hits(patterns, j, true, path)
                && forall k :: j < k < |patterns| ==> !Hits(patterns, k, false, path)
  }

  lemma {:induction false} IgnoredUnlessExposed(patterns: seq<string>, i: nat, path: string)
    requires i < |patterns| && Hits(patterns, i, false, path)
    ensures Ignored(patterns, path) <==> !Exposed(patterns, i, path)
    decreases |patterns| - i
  {
    hide Covers, ReadPattern;
    if forall j :: i < j < |patterns| ==> !Hits(patterns, j, true, path) {
    } else if j :| i < j < |patterns| && Hits(patterns, j, false, path) {
      IgnoredUnlessExposed(patterns, j, path);
      assert Exposed(patterns, j, path) ==> Exposed(patterns, i, path);
      if Exposed(patterns, i, path) {
        var k :| i < k < |patterns| && Hits(patterns, k, true, path)
                 && forall l :: k < l < |patterns| ==> !Hits(patterns, l, false, path);
        assert j < k by {
          assert !(k < j);
          SignsDiffer(patterns, k, path);
        }
      }
    } else {
      LastNegated(patterns, i, path);
    }
  }

  lemma SignsDiffer(patterns: seq<string>, k: nat, path: string)
    requires k < |patterns|
    ensures !(Hits(patterns, k, true, path) && Hits(patterns, k, false, path))
  {
    hide Covers, ReadPattern;
  }

  lemma LastNegated(patterns: seq<string>, i: nat, path: string)
    requires i < |patterns| && exists j :: i < j < |patterns| && Hits(patterns, j, true, path)
    requires forall j :: i < j < |patterns| ==> !Hits(patterns, j, false, path)
    ensures Exposed(patterns, i, path) && !Ignored(patterns, path)
  {
    hide Hits;
  }

  /** With `.env*` in the ignore file, the audit finds nothing exactly when no
      later negated pattern exposes an environment file that enters the image,
      for every context and every set of copied sources. */
  lemma EnvStarProtects(ctx: Context, copies: set<string>, patterns: seq<string>, i: nat)
    requires i < |patterns| && Strip(patterns[i], IsSpace) == ENV_STAR
    ensures (forall src, path :: src in copies ==> !Baked(ctx, src, patterns, path)) <==>
            (forall src, path ::
               src in copies && path in Entering(ctx, src) && IsEnvPath(path) ==> !Exposed(patterns, i, path))
  {
    hide IsEnvPath, Ignored, Entering, Covers;
    EnvStarReads(patterns[i]);
    forall path | IsEnvPath(path) ensures Ignored(patterns, path) <==> !Exposed(patterns, i, path) {
      EnvStarCovers(path);
      IgnoredUnlessExposed(patterns, i, path);
    }
    if forall src, path :: src in copies ==> !Baked(ctx, src, patterns, path) {
      forall src, path | src in copies && path in Entering(ctx, src) && IsEnvPath(path)
        ensures !Exposed(patterns, i, path)
      {
        assert !Baked(ctx, src, patterns, path);
      }
    }
  }

  /** In particular when no later line is a negated pattern that covers a real
      environment file's path. */
  lemma NoLaterNegation(ctx: Context, copies: set<string>, patterns: seq<string>, i: nat)
    requires i < |patterns| && Strip(patterns[i], IsSpace) == ENV_STAR
    requires forall j, path :: i < j < |patterns| && IsEnvPath(path) ==> !Hits(patterns, j, true, path)
    ensures forall src, path :: src in copies ==> !Baked(ctx, src, patterns, path)
  {
    hide IsEnvPath, Ignored, Entering, Hits;
    EnvStarProtects(ctx, copies, patterns, i);
  }
}
