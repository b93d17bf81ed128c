/** When the context audit misses no baked environment file
    (scripts/audit_image_build_contexts.py, `audit_context`): sources as they are
    written against the files that a build copies for them. */
module AuditSoundness {
  import opened Text
  import opened Dockerignore

  // ---------------------------------------------------------------- normal forms

  predicate Real(segment: string) { segment != "" && segment != "." && segment != ".." }

  /** The segments that `root / src` keeps. */
  function Parts(segments: seq<string>): seq<string> {
    if segments == [] then []
    else (if segments[0] == "" || segments[0] == "." then [] else [segments[0]]) + Parts(segments[1..])
  }

  /** A source as a path from the context's root: no `./`, no doubled and no
      trailing slash. */
  function Normal(src: string): string { Join(Parts(Split(src, '/')), "/") }

  /** A source that stays in the context. */
  predicate Plain(src: string) { !("/" <= src) && ".." !in Split(src, '/') }

  /** A path in normal form. */
  predicate IsPath(path: string) {
    forall i :: 0 <= i < |Split(path, '/')| ==> Real(Split(path, '/')[i])
  }

  /** The path is the given one or lies below it; nothing stands for the root. */
  predicate AtOrBelow(top: string, path: string) {
    top == "" || path == top || top + "/" <= path
  }

  lemma SplitCons(c: char, s: string)
    ensures var r := Split(s, '/');
            Split([c] + s, '/') == if c == '/' then [""] + r else [[c] + r[0]] + r[1..]
  {
    assert ([c] + s)[1..] == s;
  }

  lemma {:induction false} SplitConcat(a: string, b: string)
    ensures Split(a + "/" + b, '/') == Split(a, '/') + Split(b, '/')
  {
    hide Split;
    NoParts();
    if a == "" {
      assert a + "/" + b == ['/'] + b;
      SplitCons('/', b);
    } else {
      var t := a[1..] + "/" + b;
      SplitConcat(a[1..], b);
      SplitCons(a[0], a[1..]);
      SplitCons(a[0], t);
      ConsText(a, b);
      Regroup(Split(a[1..], '/'), Split(b, '/'), [a[0]] + Split(a[1..], '/')[0]);
    }
  }

  lemma ConsText(a: string, b: string)
    requires a != ""
    ensures a == [a[0]] + a[1..] && a + "/" + b == [a[0]] + (a[1..] + "/" + b)
  {
  }

  lemma Regroup(r: seq<string>, q: seq<string>, x: string)
    requires r != []
    ensures [""] + (r + q) == [""] + r + q
    ensures (r + q)[0] == r[0] && [x] + (r + q)[1..] == [x] + r[1..] + q
  {
    assert (r + q)[1..] == r[1..] + q;
  }

  lemma PartsFirst(segments: seq<string>)
    requires segments != []
    ensures Parts(segments)
            == (if segments[0] == "" || segments[0] == "." then [] else [segments[0]]) + Parts(segments[1..])
  {
  }

  lemma {:induction false} PartsConcat(a: seq<string>, b: seq<string>)
    ensures Parts(a + b) == Parts(a) + Parts(b)
  {
    hide Parts;
    if a == [] {
      NoParts();
      assert a + b == b && [] + Parts(b) == Parts(b);
    } else {
      var all := a + b;
      PartsConcat(a[1..], b);
      assert all[0] == a[0] && all[1..] == a[1..] + b;
      PartsFirst(all);
      PartsFirst(a);
    }
  }

  lemma {:induction false} PartsOfReal(segments: seq<string>)
    requires forall i :: 0 <= i < |segments| ==> Real(segments[i])
    ensures Parts(segments) == segments
  {
    if segments != [] {
      PartsOfReal(segments[1..]);
    }
  }

  lemma PathIsNormal(path: string)
    requires IsPath(path)
    ensures Normal(path) == path && path != "" && Plain(path)
  {
    PartsOfReal(Split(path, '/'));
    JoinSplit(path, '/');
    SlashFirst(path);
  }

  lemma SlashFirst(path: string)
    ensures path == "" || path[0] == '/' ==> Split(path, '/')[0] == ""
  {
  }

  /** A trailing slash and a leading `./` do not change what is meant. */
  lemma SameNormal(src: string)
    ensures Normal(src + "/") == Normal(src) && Normal("./" + src) == Normal(src)
  {
    hide Join, Parts, Split;
    NoParts();
    SplitConcat(src, "");
    assert src + "/" + "" == src + "/";
    PartsConcat(Split(src, '/'), [""]);
    assert Parts(Split(src, '/')) + [] == Parts(Split(src, '/'));
    SplitConcat(".", src);
    assert "." + "/" + src == "./" + src;
    PartsConcat(["."], Split(src, '/'));
    assert [] + Parts(Split(src, '/')) == Parts(Split(src, '/'));
  }

  lemma NoParts()
    ensures Parts([]) == [] && Parts([""]) == [] && Parts(["."]) == []
    ensures Split("", '/') == [""] && Split(".", '/') == ["."]
  {
    SplitFirst(".", '/', "");
    assert [""][1..] == [] && ["."][1..] == [];
  }

  /** Normalising only takes characters away. */
  lemma {:induction false} PartsShorter(segments: seq<string>)
    ensures |Join(Parts(segments), "/")| <= |Join(segments, "/")|
    ensures |Join(Parts(segments), "/")| == |Join(segments, "/")| ==> Join(Parts(segments), "/") == Join(segments, "/")
  {
    if segments != [] {
      var rest := segments[1..];
      PartsShorter(rest);
      if rest == [] {
        assert Parts(rest) == [];
        assert Parts(segments) == if segments[0] == "" || segments[0] == "." then [] else [segments[0]];
      } else if segments[0] == "" || segments[0] == "." {
        assert Parts(segments) == Parts(rest);
      } else {
        assert Parts(segments)[1..] == Parts(rest);
      }
    }
  }

  lemma NormalShorter(src: string)
    ensures |Normal(src)| <= |src| && (|Normal(src)| == |src| ==> Normal(src) == src)
  {
    JoinSplit(src, '/');
    PartsShorter(Split(src, '/'));
  }

  lemma BelowBelow(a: string, b: string, c: string)
    requires AtOrBelow(a, b) && AtOrBelow(b, c)
    ensures AtOrBelow(a, c)
  {
    if a != "" && b != c && a != b {
      assert (a + "/")[..|a| + 1] == b[..|a| + 1] == c[..|a| + 1];
    }
  }

  lemma BelowLonger(top: string, path: string)
    requires AtOrBelow(top, path)
    ensures |top| <= |path| && (|top| == |path| ==> top == path)
  {
  }

  // ------------------------------------------------------------------- the audit

  /** Files in normal form, none below another. */
  ghost predicate FileTree(files: seq<string>) {
    && (forall p :: p in files ==> IsPath(p))
    && (forall p, q :: p in files && q in files ==> !(p + "/" <= q))
  }

  /** What the file system answers for a source within the context. */
  ghost predicate Answers(ctx: Context, src: string) {
    var top := Normal(src);
    match ctx.lookup(src)
    case File => top in ctx.files
    case Directory(below) => top !in ctx.files && forall p :: p in below <==> p in ctx.files && AtOrBelow(top, p)
    case Absent => forall p :: p in ctx.files ==> !AtOrBelow(top, p)
  }

  ghost predicate Truthful(ctx: Context, copies: set<string>) {
    FileTree(ctx.files) && forall src :: src in copies && src != "" && src != "." && Plain(src) ==> Answers(ctx, src)
  }

  /** What a build copies for a source: everything for the context itself, else
      what is at or below a path that the source, read as a wildcard, matches. */
  ghost predicate Copied(ctx: Context, matches: (string, string) -> bool, src: string, path: string) {
    && path in ctx.files
    && ((Plain(src) && Normal(src) == "") || exists top :: IsPath(top) && matches(src, top) && AtOrBelow(top, path))
  }

  /** A real environment file that a build bakes into the image. */
  ghost predicate Leaks(ctx: Context, copies: set<string>, patterns: seq<string>, matches: (string, string) -> bool,
                        path: string)
  {
    IsEnvPath(path) && !Ignored(patterns, path) && exists src :: src in copies && Copied(ctx, matches, src, path)
  }

  /** A finding names the file, perhaps as the source writes it. */
  ghost predicate Found(ctx: Context, copies: set<string>, patterns: seq<string>, path: string) {
    exists src, p :: src in copies && Baked(ctx, src, patterns, p) && Normal(p) == path
  }

  /** The source as it is written leads the audit to the path: from above, or
      exactly; an environment file itself must be written in normal form, because
      the ignore patterns see the source as it is written. */
  predicate Watches(src: string, top: string) {
    Plain(src) && AtOrBelow(Normal(src), top) && (src == top || Normal(src) != top || !IsEnvPath(top))
  }

  ghost predicate Watched(copies: set<string>, top: string) {
    exists src :: src in copies && Watches(src, top)
  }

  lemma RootNormal()
    ensures Normal("") == "" && Normal(".") == "" && Plain("") && Plain(".")
  {
    SplitFirst("", '/', "");
    SplitFirst(".", '/', "");
    assert [""][1..] == [] && ["."][1..] == [];
  }

  /** A watching source finds what is at or below the path that it watches. */
  lemma WatchingFinds(ctx: Context, copies: set<string>, patterns: seq<string>, src: string, top: string, path: string)
    requires Truthful(ctx, copies) && src in copies && Watches(src, top) && top != "" && AtOrBelow(top, path)
    requires path in ctx.files && IsEnvPath(path) && !Ignored(patterns, path)
    ensures Found(ctx, copies, patterns, path)
  {
    hide IsEnvPath, Ignored, Normal, Plain, IsPath, AtOrBelow;
    PathIsNormal(path);
    if src == "" || src == "." {
      assert Baked(ctx, src, patterns, path);
    } else {
      BelowBelow(Normal(src), top, path);
      match ctx.lookup(src) {
        case File => FileIsSource(ctx, copies, src, top, path);
        case Directory(below) => assert Baked(ctx, src, patterns, path);
        case Absent =>
      }
    }
  }

  lemma FileIsSource(ctx: Context, copies: set<string>, src: string, top: string, path: string)
    requires Truthful(ctx, copies) && src in copies && Watches(src, top) && top != "" && AtOrBelow(top, path)
    requires path in ctx.files && IsEnvPath(path) && Normal(src) in ctx.files && AtOrBelow(Normal(src), path)
    ensures src == path
  {
    hide IsEnvPath, Normal, Plain, IsPath;
    PathIsNormal(Normal(src));
    assert Normal(src) == path;
    BelowLonger(Normal(src), top);
    BelowLonger(top, path);
  }

  lemma Sufficient(ctx: Context, copies: set<string>, patterns: seq<string>, matches: (string, string) -> bool,
                   path: string)
    requires forall src, top :: src in copies && matches(src, top) && IsPath(top) ==> Watched(copies, top)
    requires Truthful(ctx, copies) && Leaks(ctx, copies, patterns, matches, path)
    ensures Found(ctx, copies, patterns, path)
  {
    hide IsEnvPath, Ignored, Normal, Plain, IsPath, AtOrBelow, Answers, Watches, Baked;
    var src :| src in copies && Copied(ctx, matches, src, path);
    PathIsNormal(path);
    if top :| IsPath(top) && matches(src, top) && AtOrBelow(top, path) {
      PathIsNormal(top);
      var s :| s in copies && Watches(s, top);
      WatchingFinds(ctx, copies, patterns, s, top, path);
    } else {
      RootWatches(src, path);
      WatchingFinds(ctx, copies, patterns, src, path, path);
    }
  }

  lemma RootWatches(src: string, path: string)
    requires Plain(src) && Normal(src) == "" && path != ""
    ensures Watches(src, path) && AtOrBelow(path, path)
  {
    hide IsEnvPath, Normal;
  }

  // --------------------------------------------------------------- what is missed

  /** A context with one file, as the file system shows it. */
  function Single(file: string): Context {
    Context([file], src =>
      if !Plain(src) then Absent
      else if Normal(src) == file then File
      else if AtOrBelow(Normal(src), file) then Directory([file])
      else Absent)
  }

  lemma SingleIsTruthful(file: string, copies: set<string>)
    requires IsPath(file)
    ensures Truthful(Single(file), copies)
  {
    hide Normal, Plain, IsPath;
    var files := Single(file).files;
    assert forall p :: p in files <==> p == file;
    assert |file + "/"| > |file|;
    forall src ensures Plain(src) ==> Answers(Single(file), src) {
      BelowLonger(file, file);
    }
  }

  /** What the audit looks at in such a context. */
  lemma SingleEntering(file: string, src: string, p: string)
    requires p in Entering(Single(file), src)
    ensures src == "" || src == "." || Plain(src)
    ensures if src != "" && src != "." && Normal(src) == file then p == src
            else p == file && (src == "" || src == "." || AtOrBelow(Normal(src), file))
  {
    hide Normal, Plain, AtOrBelow;
  }

  function Marks(n: nat): string {
    if n == 0 then "" else "?" + Marks(n - 1)
  }

  lemma {:induction false} MarksMatch(n: nat, s: string)
    ensures Glob(Marks(n), s) <==> |s| == n
  {
    if n > 0 {
      assert Marks(n)[0] == '?' && Marks(n)[1..] == Marks(n - 1);
      if s != "" {
        MarksMatch(n - 1, s[1..]);
      }
    }
  }

  lemma {:induction false} MarksOnly(n: nat)
    ensures |Marks(n)| == n && forall i :: 0 <= i < n ==> Marks(n)[i] == '?'
  {
    if n > 0 {
      MarksOnly(n - 1);
    }
  }

  /** Any path of n + 1 characters that does not start with a slash. */
  function OfLength(n: nat): string { "[!/]" + Marks(n) }

  lemma OfLengthMatches(n: nat, s: string)
    ensures Glob(OfLength(n), s) <==> |s| == n + 1 && s[0] != '/'
  {
    var pat := OfLength(n);
    var t := pat[1..];
    assert pat[0] == '[' && t == "!/]" + Marks(n) && "!" <= t && t[1] == '/';
    ClassOfLength(n);
    MarksOnly(n);
    assert t[..2] == "!/" && t[3..] == Marks(n);
    assert "!/"[1..] == "/" && "/"[1..] == "";
    if s != "" {
      MarksMatch(n, s[1..]);
      assert InRanges("/", s[0]) <==> s[0] == '/';
    }
  }

  lemma ClassOfLength(n: nat)
    ensures ClassEnd("!/]" + Marks(n)) == Some(2)
  {
    var t := "!/]" + Marks(n);
    assert t[1..2] == "/" && t[2..3] == "]";
    assert !OccursAt(t, "]", 1) && OccursAt(t, "]", 2);
    assert Find(t, "]", 1) == Find(t, "]", 2) == Some(2);
  }

  /** An ignore file that ignores everything but the paths of one length. */
  function OnlyLength(n: nat): seq<string> { ["*", "!" + OfLength(n)] }

  /** An ignore file that spares the path, and only paths of its length. */
  function Sparing(path: string): seq<string> { OnlyLength(if path == "" then 0 else |path| - 1) }

  lemma StarReads()
    ensures ReadPattern("*") == Some(Pattern(false, false, "*"))
  {
    hide ReadPattern, IsSpace;
    StarIsNoSpace();
    PlainLine("*");
  }

  lemma StarIsNoSpace()
    ensures !IsSpace('*')
  {
  }

  lemma StarCovers(path: string)
    ensures Covers(Pattern(false, false, "*"), path)
  {
    assert '/' !in "*";
    StarMatchesAll(Split(path, '/')[0]);
  }

  lemma OfLengthEnds(n: nat)
    ensures var s := OfLength(n); |s| > 2 && s[0] == '[' && (s[|s| - 1] == '?' || s[|s| - 1] == ']') && s[2] == '/'
  {
    MarksOnly(n);
    var s := OfLength(n);
    if n > 0 {
      assert s[|s| - 1] == Marks(n)[n - 1];
    }
  }

  lemma OfLengthReads(n: nat)
    ensures ReadPattern("!" + OfLength(n)) == Some(Pattern(true, false, OfLength(n)))
  {
    hide Strip, RStrip, OfLength;
    OfLengthEnds(n);
    var body := OfLength(n);
    var line := "!" + body;
    assert line[0] == '!' && line[|line| - 1] == body[|body| - 1] && line[1..] == body;
    PunctuationIsNoSpace();
    Unstripped(line, IsSpace);
    Unstripped(body, IsSpace);
    Unstripped(body, IsSlash);
    assert body[|body| - 1..] == [body[|body| - 1]];
  }

  lemma OnlyLengthIgnores(n: nat, path: string)
    ensures Ignored(OnlyLength(n), path) <==> !(|path| == n + 1 && path[0] != '/')
  {
    hide ReadPattern, Covers, OfLength;
    StarReads();
    StarCovers(path);
    OfLengthReads(n);
    OfLengthCovers(n, path);
    TwoPatterns("*", "!" + OfLength(n), path);
  }

  lemma SparingIgnores(top: string, path: string)
    requires top != ""
    ensures Ignored(Sparing(top), path) <==> !(|path| == |top| && path[0] != '/')
  {
    hide Ignored, OnlyLength;
    OnlyLengthIgnores(|top| - 1, path);
  }

  lemma OfLengthCovers(n: nat, path: string)
    ensures Covers(Pattern(true, false, OfLength(n)), path) <==> |path| == n + 1 && path[0] != '/'
  {
    OfLengthEnds(n);
    OfLengthMatches(n, path);
    assert '/' in OfLength(n);
  }

  /** An unwatched environment file: in a context with that file alone, and an
      ignore file that spares only paths of its length, the audit misses it. */
  lemma UnwatchedFile(copies: set<string>, matches: (string, string) -> bool, src: string, top: string)
    requires src in copies && matches(src, top) && IsPath(top) && !Watched(copies, top) && IsEnvPath(top)
    ensures var ctx := Single(top); var patterns := Sparing(top);
            Truthful(ctx, copies) && Leaks(ctx, copies, patterns, matches, top) && !Found(ctx, copies, patterns, top)
  {
    hide IsEnvPath, Ignored, Normal, Plain, IsPath, AtOrBelow, Entering, Sparing;
    var ctx := Single(top);
    var patterns := Sparing(top);
    PathIsNormal(top);
    SingleIsTruthful(top, copies);
    PathStart(top);
    SparingIgnores(top, top);
    BelowSelf(top);
    assert Copied(ctx, matches, src, top);
    forall s, p | s in copies && p in Entering(ctx, s) && IsEnvPath(p) && Normal(p) == top
      ensures Ignored(patterns, p)
    {
      assert !Watches(s, top);
      SingleEntering(top, s, p);
      RootNormal();
      RootBelow(top);
      NormalShorter(s);
      SparingIgnores(top, p);
    }
  }

  lemma PathStart(path: string)
    requires IsPath(path)
    ensures path != "" && path[0] != '/'
  {
    PathIsNormal(path);
    assert path[0] == '/' ==> "/" <= path;
  }

  lemma BelowSelf(path: string)
    ensures AtOrBelow(path, path)
  {
  }

  lemma RootBelow(path: string)
    ensures AtOrBelow("", path)
  {
  }

  lemma {:induction false} LongerThanAll(copies: set<string>) returns (n: nat)
    ensures forall s :: s in copies ==> |s| <= n
  {
    if copies == {} {
      n := 0;
    } else {
      var s :| s in copies;
      var m := LongerThanAll(copies - {s});
      n := if m < |s| then |s| else m;
    }
  }

  function Fresh(n: nat): string { seq(n + 1, _ => 'x') }

  /** An environment file deep below a directory that no source names. */
  function Deep(top: string, n: nat): string { top + "/" + Fresh(n) + "/" + ".env" }

  lemma DeepIsPath(top: string, n: nat)
    requires IsPath(top)
    ensures IsPath(Deep(top, n)) && IsEnvPath(Deep(top, n)) && AtOrBelow(top, Deep(top, n))
  {
    hide Split, IsEnvFile, PathName;
    DeepSegments(top, n);
    DeepParts(n);
    EnvFile();
    var segments := Split(top, '/') + [Fresh(n)] + [".env"];
    NameOf(Split(top, '/') + [Fresh(n)]);
    assert Deep(top, n) == top + "/" + (Fresh(n) + "/" + ".env");
  }

  lemma NameOf(above: seq<string>)
    ensures PathName(above + [".env"]) == ".env"
  {
  }

  lemma DeepParts(n: nat)
    ensures Real(Fresh(n)) && Real(".env") && '/' !in Fresh(n) && '/' !in ".env"
  {
    assert Fresh(n)[0] == 'x';
  }

  lemma DeepSegments(top: string, n: nat)
    ensures Split(Deep(top, n), '/') == Split(top, '/') + [Fresh(n)] + [".env"]
  {
    hide Split, Fresh;
    var x := Fresh(n);
    DeepParts(n);
    SplitConcat(top + "/" + x, ".env");
    SplitConcat(top, x);
    SplitFirst(x, '/', "");
    SplitFirst(".env", '/', "");
  }

  /** A short path at or above the deep file is at or above the directory. */
  lemma ShortAboveDeep(s: string, top: string, n: nat)
    requires |s| <= n && AtOrBelow(s, Deep(top, n))
    ensures AtOrBelow(s, top)
  {
    var x, f := Fresh(n), Deep(top, n);
    assert |f| > n;
    assert f == top + "/" + (x + "/" + ".env");
    assert forall i :: |top| < i <= |top| + n + 1 ==> f[i] == x[i - |top| - 1] == 'x';
    if s != "" {
      assert f[|s|] == (s + "/")[|s|] == '/' && f[..|s|] == (s + "/")[..|s|] == s;
      if |s| == |top| {
        assert f[..|top|] == top;
      } else {
        assert (s + "/") == f[..|s| + 1] == top[..|s| + 1];
      }
    }
  }

  lemma UnwatchedDirectory(copies: set<string>, matches: (string, string) -> bool, src: string, top: string, n: nat)
    requires src in copies && matches(src, top) && IsPath(top) && !Watched(copies, top) && !IsEnvPath(top)
    requires forall s :: s in copies ==> |s| <= n
    ensures var ctx := Single(Deep(top, n));
            && Truthful(ctx, copies) && Leaks(ctx, copies, [], matches, Deep(top, n))
            && !Found(ctx, copies, [], Deep(top, n))
  {
    hide IsEnvPath, Normal, Plain, IsPath, AtOrBelow, Entering, Deep;
    var file := Deep(top, n);
    var ctx := Single(file);
    DeepIsPath(top, n);
    SingleIsTruthful(file, copies);
    assert Copied(ctx, matches, src, file);
    DeepIsLong(top, n);
    forall s, p | s in copies && p in Entering(ctx, s) && Normal(p) == file ensures false {
      assert !Watches(s, top);
      SingleEntering(file, s, p);
      RootNormal();
      RootBelow(top);
      NormalShorter(s);
      if s != "" && s != "." && Normal(s) != file {
        ShortAboveDeep(Normal(s), top, n);
      }
    }
  }

  lemma DeepIsLong(top: string, n: nat)
    ensures |Deep(top, n)| > n
  {
  }

  /** The audit misses no baked environment file, in any context and under any
      ignore file, exactly when every path that a source matches as a wildcard is
      watched by some source as it is written. */
  lemma AuditSoundExactly(copies: set<string>, matches: (string, string) -> bool)
    ensures (forall ctx, patterns, path ::
               Truthful(ctx, copies) && Leaks(ctx, copies, patterns, matches, path) ==>
                 Found(ctx, copies, patterns, path))
            <==>
            (forall src, top :: src in copies && matches(src, top) && IsPath(top) ==> Watched(copies, top))
  {
    hide IsEnvPath, IsPath, Truthful, Leaks, Found, Watched, Single, Sparing, Deep;
    if forall src, top :: src in copies && matches(src, top) && IsPath(top) ==> Watched(copies, top) {
      forall ctx, patterns, path | Truthful(ctx, copies) && Leaks(ctx, copies, patterns, matches, path)
        ensures Found(ctx, copies, patterns, path)
      {
        Sufficient(ctx, copies, patterns, matches, path);
      }
    } else {
      var src, top :| src in copies && matches(src, top) && IsPath(top) && !Watched(copies, top);
      if IsEnvPath(top) {
        UnwatchedFile(copies, matches, src, top);
        assert !Found(Single(top), copies, Sparing(top), top);
      } else {
        var n := LongerThanAll(copies);
        UnwatchedDirectory(copies, matches, src, top, n);
        assert !Found(Single(Deep(top, n)), copies, [], Deep(top, n));
      }
    }
  }

  /** In particular when every source matches only what it says, and environment
      files are named without a detour. */
  lemma LiteralSourcesAreSeen(ctx: Context, copies: set<string>, patterns: seq<string>,
                              matches: (string, string) -> bool, path: string)
    requires forall src :: src in copies ==> Plain(src) && (IsEnvPath(Normal(src)) ==> src == Normal(src))
    requires forall src, top :: src in copies && matches(src, top) ==> top == Normal(src)
    requires Truthful(ctx, copies) && Leaks(ctx, copies, patterns, matches, path)
    ensures Found(ctx, copies, patterns, path)
  {
    hide IsEnvPath, IsPath, Truthful, Leaks, Found, Normal, Plain, AtOrBelow;
    forall src, top | src in copies && matches(src, top) && IsPath(top) ensures Watched(copies, top) {
      BelowSelf(top);
      assert Watches(src, top);
    }
    Sufficient(ctx, copies, patterns, matches, path);
  }

  // -------------------------------------------------------------------- at inputs

  /** `COPY .env* ./`: the build bakes `.env`, and the audit looks at nothing. */
  lemma WildcardIsMissed()
    ensures var ctx := Single(".env");
            && Truthful(ctx, {".env*"}) && Leaks(ctx, {".env*"}, [], Glob, ".env")
            && !Found(ctx, {".env*"}, [], ".env")
  {
    hide Normal, Plain, IsPath, Glob, Entering, IsEnvPath;
    var ctx, src := Single(".env"), ".env*";
    EnvTexts();
    SingleIsTruthful(".env", {src});
    BelowSelf(".env");
    assert Copied(ctx, Glob, src, ".env");
    forall p | p in Entering(ctx, src) ensures false {
      SingleEntering(".env", src, p);
      BelowLonger(src, ".env");
    }
  }

  lemma EnvTexts()
    ensures IsPath(".env") && IsEnvPath(".env") && Glob(".env*", ".env") && Normal(".env*") == ".env*"
    ensures |".env*"| == 5 && |".env"| == 4 && ".env*"[0] == '.'
  {
    hide IsPath, IsEnvPath, Normal, Glob;
    EnvIsPath();
    StarIsPath();
    PathIsNormal(".env*");
    assert ".env*" == ".env" + "*";
    GlobPrefix(".env", ".env");
  }

  lemma EnvIsPath()
    ensures IsPath(".env") && IsEnvPath(".env")
  {
    hide Split, IsEnvFile;
    SplitFirst(".env", '/', "");
    EnvFile();
    assert PathName([".env"]) == ".env";
  }

  lemma StarIsPath()
    ensures IsPath(".env*")
  {
    hide Split;
    SplitFirst(".env*", '/', "");
  }

  /** `COPY ./svc/.env /app/` with `.env*` and `!svc/.env` in the ignore file: the
      file is brought back for the build, and stays ignored for the audit. */
  lemma DetourIsMissed()
    ensures var ctx := Single("svc/.env"); var patterns := [".env*", "!svc/.env"];
            && Truthful(ctx, {"./svc/.env"})
            && Leaks(ctx, {"./svc/.env"}, patterns, (s, t) => t == Normal(s), "svc/.env")
            && !Found(ctx, {"./svc/.env"}, patterns, "svc/.env")
  {
    hide Normal, Plain, IsPath, Entering, IsEnvPath, Ignored, AtOrBelow;
    var ctx, src, patterns := Single("svc/.env"), "./svc/.env", [".env*", "!svc/.env"];
    DetourPaths();
    DetourIgnored();
    SingleIsTruthful("svc/.env", {src});
    BelowSelf("svc/.env");
    assert Copied(ctx, (s, t) => t == Normal(s), src, "svc/.env");
    forall p | p in Entering(ctx, src) ensures Ignored(patterns, p) {
      SingleEntering("svc/.env", src, p);
      assert p == src;
    }
  }

  lemma DetourPaths()
    ensures IsPath("svc/.env") && IsEnvPath("svc/.env") && IsEnvPath("./svc/.env")
    ensures Normal("./svc/.env") == "svc/.env" && |"./svc/.env"| == 10
  {
    hide IsEnvFile, Split, Parts, Join;
    DetourSegments();
    PathIsNormal("svc/.env");
    SameNormal("svc/.env");
    assert "./" + "svc/.env" == "./svc/.env";
    EnvFile();
  }

  lemma DetourSegments()
    ensures Split("svc/.env", '/') == ["svc", ".env"] && Split("./svc/.env", '/') == [".", "svc", ".env"]
    ensures PathName(["svc", ".env"]) == ".env" && PathName([".", "svc", ".env"]) == ".env"
  {
    hide Split;
    SplitFirst("svc", '/', ".env");
    SplitFirst(".env", '/', "");
    assert "svc" + "/" + ".env" == "svc/.env";
    SplitFirst(".", '/', "svc/.env");
    assert "." + "/" + "svc/.env" == "./svc/.env";
  }

  lemma EnvFile()
    ensures IsEnvFile(".env")
  {
  }

  lemma DetourIgnored()
    ensures !Ignored([".env*", "!svc/.env"], "svc/.env") && Ignored([".env*", "!svc/.env"], "./svc/.env")
  {
    hide ReadPattern, Covers, IsEnvPath;
    DetourPaths();
    EnvStarUnstripped();
    EnvStarReads(".env*");
    EnvStarCovers("svc/.env");
    EnvStarCovers("./svc/.env");
    BackReads();
    BackCovers();
    TwoPatterns(".env*", "!svc/.env", "svc/.env");
    TwoPatterns(".env*", "!svc/.env", "./svc/.env");
  }

  /** Two lines, a pattern and a negated one: the path is ignored exactly when the
      first covers it and the second does not. */
  lemma TwoPatterns(first: string, second: string, path: string)
    requires ReadPattern(first).Some? && !ReadPattern(first).value.negate
    requires ReadPattern(second).Some? && ReadPattern(second).value.negate
    ensures Ignored([first, second], path) <==>
            Covers(ReadPattern(first).value, path) && !Covers(ReadPattern(second).value, path)
  {
    hide ReadPattern, Covers;
    var patterns := [first, second];
    assert Hits(patterns, 0, false, path) <==> Covers(ReadPattern(first).value, path);
    assert Hits(patterns, 1, true, path) <==> Covers(ReadPattern(second).value, path);
    assert !Hits(patterns, 1, false, path);
  }

  lemma EnvStarUnstripped()
    ensures Strip(".env*", IsSpace) == ENV_STAR
  {
    assert ".env*"[0] == '.' && ".env*"[4] == '*';
  }

  lemma BackReads()
    ensures ReadPattern("!svc/.env") == Some(Pattern(true, false, "svc/.env"))
  {
    hide Strip, RStrip;
    var line, body := "!svc/.env", "svc/.env";
    assert line[0] == '!' && line[8] == 'v' && line[1..] == body && body[0] == 's' && body[7] == 'v';
    Unstripped(line, IsSpace);
    Unstripped(body, IsSpace);
    Unstripped(body, IsSlash);
  }

  lemma BackCovers()
    ensures Covers(Pattern(true, false, "svc/.env"), "svc/.env")
    ensures !Covers(Pattern(true, false, "svc/.env"), "./svc/.env")
  {
    assert "svc/.env"[3] == '/' && "./svc/.env"[0] == '.';
    GlobPrefix("svc/.env", "svc/.env");
    GlobPrefix("svc/.env", "./svc/.env");
  }
}
