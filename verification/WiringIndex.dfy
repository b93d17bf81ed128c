/** Deciding whether a module is referenced by a dotted string
    (scripts/audit_dead_code.py, `find_orphaned_modules`): a binary search in
    the sorted strings stands in for a scan of all of them. */
module WiringIndex {
  import opened Text

  /** The reference meaning: some string is the path, or goes on with a dot. */
  predicate WiredBy(w: string, dotpath: string) {
    w == dotpath || dotpath + "." <= w
  }

  ghost predicate Wired(strings: set<string>, dotpath: string) {
    exists w :: w in strings && WiredBy(w, dotpath)
  }

  /** A string that extends the path with a character sorted before the dot. */
  predicate Shadows(w: string, dotpath: string) {
    dotpath < w && w[|dotpath|] < '.'
  }

  ghost predicate Shadowed(strings: set<string>, dotpath: string) {
    exists w :: w in strings && Shadows(w, dotpath)
  }

  /** What the binary search decides. */
  ghost predicate Found(strings: set<string>, dotpath: string) {
    dotpath in strings || (Wired(strings, dotpath) && !Shadowed(strings, dotpath))
  }

  /** `bisect.bisect_left` */
  method BisectLeft(ordered: seq<string>, x: string) returns (lo: nat)
    requires StrictlySorted(ordered)
    ensures lo <= |ordered|
    ensures forall i :: 0 <= i < lo ==> Less(ordered[i], x)
    ensures forall i :: lo <= i < |ordered| ==> !Less(ordered[i], x)
  {
    lo := 0;
    var hi := |ordered|;
    while lo < hi
      invariant 0 <= lo <= hi <= |ordered|
      invariant forall i :: 0 <= i < lo ==> Less(ordered[i], x)
      invariant forall i :: hi <= i < |ordered| ==> !Less(ordered[i], x)
    {
      var mid := (lo + hi) / 2;
      if Less(ordered[mid], x) {
        forall i | 0 <= i < mid ensures Less(ordered[i], x) {
          LessTransitive(ordered[i], ordered[mid], x);
        }
        lo := mid + 1;
      } else {
        forall i | mid < i < |ordered| ensures !Less(ordered[i], x) {
          if Less(ordered[i], x) {
            LessTransitive(ordered[mid], ordered[i], x);
          }
        }
        hi := mid;
      }
    }
  }

  /** Between a text and one of its extensions lie only extensions of it. */
  lemma BetweenExtends(p: string, x: string, w: string)
    requires p <= w && !Less(x, p) && !Less(w, x)
    ensures p <= x
  {
    if p != "" {
      assert w[0] == p[0];
      assert x != "" && x[0] == p[0];
      BetweenExtends(p[1..], x[1..], w[1..]);
      assert p == [p[0]] + p[1..] && x == [x[0]] + x[1..];
    }
  }

  lemma ShadowIsBelow(p: string, s: string, w: string)
    requires Shadows(s, p) && p + "." <= w
    ensures Less(s, w) && Less(p, s)
  {
    assert s == p + s[|p|..] && w == p + w[|p|..] && p == p + "";
    assert w[|p|] == '.';
    LessCommonPrefix(p, s[|p|..], w[|p|..]);
    LessCommonPrefix(p, "", s[|p|..]);
  }

  /** The least string not below the path is an extension by a dot exactly when
      there is one and nothing shadows it. */
  lemma FirstExtension(strings: set<string>, p: string, x: string)
    requires p !in strings && x in strings && !Less(x, p)
    requires forall y :: y in strings && !Less(y, p) ==> !Less(y, x)
    ensures p + "." <= x <==> Wired(strings, p) && !Shadowed(strings, p)
  {
    if p + "." <= x {
      assert WiredBy(x, p);
      forall s | s in strings ensures !Shadows(s, p) {
        if Shadows(s, p) {
          ShadowIsBelow(p, s, x);
          LessTotal(p, s);
        }
      }
    }
    if Wired(strings, p) && !Shadowed(strings, p) {
      var w :| w in strings && WiredBy(w, p);
      ExtensionIsNotBelow(p, w);
      LeastExtension(p, x, w);
      assert !Shadows(x, p);
    }
  }

  lemma ExtensionIsNotBelow(p: string, w: string)
    requires p <= w
    ensures !Less(w, p)
  {
    assert w == p + w[|p|..] && p == p + "";
    LessCommonPrefix(p, w[|p|..], "");
  }

  lemma LeastExtension(p: string, x: string, w: string)
    requires p + "." <= w && x != p && !Less(x, p) && !Less(w, x)
    ensures p + "." <= x || Shadows(x, p)
  {
    BetweenExtends(p, x, w);
    assert x == p + x[|p|..] && w == p + w[|p|..] && w[|p|] == '.';
    LessCommonPrefix(p, w[|p|..], x[|p|..]);
  }

  /** `is_wired`: it never invents a reference, and it finds a real one exactly
      when the path itself is there or nothing shadows it. */
  method IsWired(ordered: seq<string>, strings: set<string>, dotpath: string) returns (wired: bool)
    requires StrictlySorted(ordered) && forall w :: w in ordered <==> w in strings
    ensures wired <==> Found(strings, dotpath)
    ensures wired ==> Wired(strings, dotpath)
    ensures Wired(strings, dotpath) ==> (wired <==> dotpath in strings || !Shadowed(strings, dotpath))
  {
    FoundIsWired(strings, dotpath);
    var idx := BisectLeft(ordered, dotpath);
    wired := (idx < |ordered| && ordered[idx] == dotpath) || (idx < |ordered| && dotpath + "." <= ordered[idx]);
    if dotpath in strings {
      var i :| 0 <= i < |ordered| && ordered[i] == dotpath;
      LessTotal(dotpath, dotpath);
      assert idx <= i;
      LessTotal(ordered[idx], dotpath);
      assert i == idx;
    } else {
      if idx < |ordered| {
        assert ordered[idx] in strings;
        forall y | y in strings && !Less(y, dotpath) ensures !Less(y, ordered[idx]) {
          var j :| 0 <= j < |ordered| && ordered[j] == y;
          assert idx <= j;
          LessTotal(ordered[idx], y);
        }
        FirstExtension(strings, dotpath, ordered[idx]);
      } else {
        forall w | w in strings ensures !WiredBy(w, dotpath) {
          var j :| 0 <= j < |ordered| && ordered[j] == w;
          assert Less(w, dotpath);
          if WiredBy(w, dotpath) {
            ExtensionIsNotBelow(dotpath, w);
          }
        }
      }
    }
  }

  lemma FoundIsWired(strings: set<string>, dotpath: string)
    ensures Found(strings, dotpath) ==> Wired(strings, dotpath)
  {
    if dotpath in strings {
      assert WiredBy(dotpath, dotpath);
    }
  }

  /** Dotted names, such as the config-file channel collects, are searched
      completely. */
  lemma SearchCompleteOnNames(strings: set<string>, dotpath: string)
    requires forall w, k :: w in strings && 0 <= k < |w| ==>
                              'a' <= w[k] <= 'z' || 'A' <= w[k] <= 'Z' || '0' <= w[k] <= '9' || w[k] in "_."
    ensures Found(strings, dotpath) <==> Wired(strings, dotpath)
  {
    forall w | w in strings ensures !Shadows(w, dotpath) {
      if dotpath < w {
        assert w[|dotpath|] >= '.';
      }
    }
    FoundIsWired(strings, dotpath);
  }

  /** String literals are not filtered: one with a hyphen hides a reference. */
  lemma HyphenHidesReference(dotpath: string, tail: string, member: string)
    ensures var strings := {dotpath + "-" + tail, dotpath + "." + member};
            Wired(strings, dotpath) && !Found(strings, dotpath)
  {
    var strings := {dotpath + "-" + tail, dotpath + "." + member};
    assert WiredBy(dotpath + "." + member, dotpath);
    assert Shadows(dotpath + "-" + tail, dotpath);
  }

  // ------------------------------------------------------------------- orphans

  /** `_dotpath` */
  function Dotpath(rel: string): string {
    if EndsWith(rel, ".py") then Slashes(rel[..|rel| - 3]) else rel
  }

  function Slashes(s: string): string {
    if s == "" then "" else [if s[0] == '/' then '.' else s[0]] + Slashes(s[1..])
  }

  ghost predicate IsOrphan(rel: string, referenced: set<string>, strings: set<string>) {
    Dotpath(rel) !in referenced && !Found(strings, Dotpath(rel))
  }

  ghost function Orphans(candidates: seq<string>, referenced: set<string>, strings: set<string>): seq<string> {
    if candidates == [] then []
    else
      var last := candidates[|candidates| - 1];
      Orphans(candidates[..|candidates| - 1], referenced, strings)
      + if IsOrphan(last, referenced, strings) then [last] else []
  }

  /** `find_orphaned_modules`, after the candidates and references are collected. */
  method FindOrphanedModules(candidates: seq<string>, referenced: set<string>, strings: set<string>)
    returns (orphans: seq<string>)
    ensures orphans == Orphans(candidates, referenced, strings)
  {
    var ordered := Sorted(strings);
    orphans := [];
    for i := 0 to |candidates|
      invariant orphans == Orphans(candidates[..i], referenced, strings)
    {
      assert candidates[..i + 1][..i] == candidates[..i];
      var dotpath := Dotpath(candidates[i]);
      var wired := IsWired(ordered, strings, dotpath);
      if !(dotpath in referenced || wired) {
        orphans := orphans + [candidates[i]];
      }
    }
    assert candidates[..|candidates|] == candidates;
  }

  /** Every module that nothing references is reported, and a reported module is
      referenced only by strings that a shadowing string hides. */
  lemma {:induction false} OrphansExactly(candidates: seq<string>, referenced: set<string>, strings: set<string>,
                                          rel: string)
    ensures rel in Orphans(candidates, referenced, strings) <==>
            && rel in candidates && Dotpath(rel) !in referenced
            && (Wired(strings, Dotpath(rel)) ==> Dotpath(rel) !in strings && Shadowed(strings, Dotpath(rel)))
  {
    if candidates != [] {
      var init, last := candidates[..|candidates| - 1], candidates[|candidates| - 1];
      OrphansExactly(init, referenced, strings, rel);
      FoundIsWired(strings, Dotpath(rel));
      assert candidates == init + [last];
    }
  }

  lemma {:induction false} SlashesConcat(a: string, b: string)
    ensures Slashes(a + b) == Slashes(a) + Slashes(b)
  {
    if a == "" {
      assert a + b == b;
    } else {
      SlashesConcat(a[1..], b);
      assert (a + b)[1..] == a[1..] + b;
    }
  }

  lemma {:induction false} SlashesOfPart(s: string)
    requires '/' !in s
    ensures Slashes(s) == s
  {
    if s != "" {
      SlashesOfPart(s[1..]);
    }
  }

  lemma {:induction false} SlashesOfJoin(parts: seq<string>)
    requires parts != [] && forall i :: 0 <= i < |parts| ==> '/' !in parts[i]
    ensures Slashes(Join(parts, "/")) == Join(parts, ".")
  {
    hide Slashes;
    SlashesOfPart(parts[0]);
    if |parts| > 1 {
      SlashesOfJoin(parts[1..]);
      SlashesConcat(parts[0] + "/", Join(parts[1..], "/"));
      SlashesConcat(parts[0], "/");
      OneSlash();
    }
  }

  lemma OneSlash()
    ensures Slashes("/") == "."
  {
    assert "/"[1..] == "" && Slashes("") == "";
  }

  /** A module by its path: the file `a/b/c.py` is reported exactly when it is a
      candidate, `a.b.c` is not imported, and every string that wires `a.b.c` is
      hidden. */
  lemma ModuleIsOrphan(candidates: seq<string>, referenced: set<string>, strings: set<string>, parts: seq<string>)
    requires parts != [] && forall i :: 0 <= i < |parts| ==> '/' !in parts[i]
    ensures var file, name := Join(parts, "/") + ".py", Join(parts, ".");
            file in Orphans(candidates, referenced, strings) <==>
            && file in candidates && name !in referenced
            && (Wired(strings, name) ==> name !in strings && Shadowed(strings, name))
  {
    hide Slashes, Orphans;
    var stem := Join(parts, "/");
    var file := stem + ".py";
    SlashesOfJoin(parts);
    assert file[|file| - 3..] == ".py" && file[..|file| - 3] == stem;
    OrphansExactly(candidates, referenced, strings, file);
  }

  /** A string wires a module when it is its name or goes on with a dot and more;
      it is hidden by a string that goes on with a hyphen, a space or the like. */
  lemma WiringInWords(name: string, tail: string)
    ensures WiredBy(name, name) && WiredBy(name + "." + tail, name)
    ensures !WiredBy(name + "_" + tail, name) && !WiredBy(name + "-" + tail, name) && !WiredBy(name + "x" + tail, name)
    ensures Shadows(name + "-" + tail, name) && Shadows(name + " " + tail, name)
    ensures !Shadows(name + "_" + tail, name) && !Shadows(name + "." + tail, name) && !Shadows(name, name)
  {
    assert (name + "." + tail)[..|name| + 1] == name + ".";
    assert (name + "_" + tail)[|name|] == '_' && (name + "-" + tail)[|name|] == '-';
    assert (name + "x" + tail)[|name|] == 'x';
    assert (name + ".")[|name|] == '.';
    assert (name + "." + tail)[|name|] == '.' && (name + " " + tail)[|name|] == ' ';
    assert name <= name + "-" + tail && name <= name + " " + tail;
  }
}
