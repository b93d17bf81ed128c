/** Directories by path, and the removal of the directories that a list of names
    leads to (scripts/archive_staging_tags.py, `run_delete`: `backups_root /
    row["name"]` and `shutil.rmtree`). Names are followed as a POSIX system does;
    links are not modelled. */
module DirTree {
  import opened Text

  type Path = seq<string>

  /** One segment of a name, followed from a directory. */
  function Move(at: Path, segment: string): Path {
    if segment == "" || segment == "." then at
    else if segment == ".." then if at == [] then [] else at[..|at| - 1]
    else at + [segment]
  }

  function Walk(at: Path, segments: seq<string>): (r: seq<Path>)
    ensures |r| == |segments|
    decreases |segments|
  {
    if segments == [] then []
    else
      var next := Move(at, segments[0]);
      [next] + Walk(next, segments[1..])
  }

  /** The directories on the way to a name, the last one being the target. */
  function Visited(root: Path, name: string): (r: seq<Path>)
    ensures r != []
  {
    var start := if "/" <= name then [] else root;
    [start] + Walk(start, Split(name, '/'))
  }

  function Target(root: Path, name: string): Path {
    var way := Visited(root, name);
    way[|way| - 1]
  }

  predicate Exists(dirs: set<Path>, root: Path, name: string) {
    forall at :: at in Visited(root, name) ==> at in dirs
  }

  predicate StrictlyBelow(top: Path, d: Path) { top <= d && d != top }

  /** The way to the target leads through a directory below the target, as with
      "..": after its contents the target cannot be reached any more. */
  predicate ThroughItself(root: Path, name: string) {
    exists at :: at in Visited(root, name) && StrictlyBelow(Target(root, name), at)
  }

  /** What is left, and whether the removal ran to its end. */
  datatype Swept = Swept(dirs: set<Path>, whole: bool)

  /** `if directory.exists(): shutil.rmtree(directory)` */
  function Sweep(root: Path, dirs: set<Path>, name: string): Swept {
    var top := Target(root, name);
    if !Exists(dirs, root, name) then Swept(dirs, true)
    else if ThroughItself(root, name) then Swept(set d | d in dirs && !StrictlyBelow(top, d), false)
    else Swept(set d | d in dirs && !(top <= d), true)
  }

  /** One name after the other, up to the first removal that fails. */
  function SweepAll(root: Path, dirs: set<Path>, names: seq<string>): Swept {
    if names == [] then Swept(dirs, true)
    else
      var before := SweepAll(root, dirs, names[..|names| - 1]);
      if before.whole then Sweep(root, before.dirs, names[|names| - 1]) else before
  }

  lemma SweepSnoc(root: Path, dirs: set<Path>, names: seq<string>, i: nat)
    requires i < |names|
    ensures var before := SweepAll(root, dirs, names[..i]);
            SweepAll(root, dirs, names[..i + 1]) == if before.whole then Sweep(root, before.dirs, names[i]) else before
  {
    hide Sweep;
    assert names[..i + 1][..i] == names[..i];
  }

  lemma {:induction false} SweepFailed(root: Path, dirs: set<Path>, names: seq<string>, i: nat)
    requires i <= |names| && !SweepAll(root, dirs, names[..i]).whole
    ensures SweepAll(root, dirs, names) == SweepAll(root, dirs, names[..i])
    decreases |names| - i
  {
    hide Sweep, SweepAll;
    if i == |names| {
      assert names[..i] == names;
    } else {
      SweepSnoc(root, dirs, names, i);
      SweepFailed(root, dirs, names, i + 1);
    }
  }

  /** Whatever the names: only directories at or below a target go. */
  lemma {:induction false} SweptBelowTarget(root: Path, dirs: set<Path>, names: seq<string>, d: Path)
    requires d in dirs && d !in SweepAll(root, dirs, names).dirs
    ensures exists n :: n in names && Target(root, n) <= d
  {
    hide Target, Exists, ThroughItself;
    assert names != [];
    var init, last := names[..|names| - 1], names[|names| - 1];
    assert names == init + [last];
    if d in SweepAll(root, dirs, init).dirs {
      assert Target(root, last) <= d;
    } else {
      SweptBelowTarget(root, dirs, init, d);
    }
  }

  // ----------------------------------------------------------------- plain names

  /** A name that is one component of a path. */
  predicate Component(name: string) {
    name != "" && name != "." && name != ".." && '/' !in name
  }

  lemma ComponentWay(root: Path, name: string)
    requires Component(name)
    ensures Visited(root, name) == [root, root + [name]] && Target(root, name) == root + [name]
    ensures !ThroughItself(root, name)
  {
    SplitFirst(name, '/', "");
    assert name[0] != '/';
    assert [name][1..] == [];
    assert Walk(root + [name], []) == [];
    assert Walk(root, [name]) == [root + [name]];
  }

  /** Every segment that is followed downwards becomes a component of the way. */
  lemma {:induction false} WalkComponents(at: Path, segments: seq<string>, base: nat, k: nat, i: nat)
    requires forall j :: base <= j < |at| ==> '/' !in at[j]
    requires forall j :: 0 <= j < |segments| ==> '/' !in segments[j]
    requires k < |segments| && base <= i < |Walk(at, segments)[k]|
    ensures '/' !in Walk(at, segments)[k][i]
    decreases |segments|
  {
    if k > 0 {
      WalkComponents(Move(at, segments[0]), segments[1..], base, k - 1, i);
    }
  }

  lemma WayComponents(root: Path, name: string, k: nat, i: nat)
    requires k < |Visited(root, name)| && |root| <= i < |Visited(root, name)[k]|
    ensures '/' !in Visited(root, name)[k][i]
  {
    hide Walk, Split;
    var start := if "/" <= name then [] else root;
    JoinSplit(name, '/');
    if k > 0 {
      WalkComponents(start, Split(name, '/'), |start|, k - 1, i);
    }
  }

  /** A name that is not a component never leads into an entry of that name. */
  lemma NoEntryOnTheWay(root: Path, name: string, at: Path)
    requires !Component(name) && at in Visited(root, name)
    ensures !(root + [name] <= at)
  {
    hide Visited;
    var k :| 0 <= k < |Visited(root, name)| && Visited(root, name)[k] == at;
    if root + [name] <= at {
      assert at[|root|] == name;
      WayComponents(root, name, k, |root|);
      ShortWay(root, name, at);
    }
  }

  lemma ShortWay(root: Path, name: string, at: Path)
    requires !Component(name) && '/' !in name && at in Visited(root, name)
    ensures |at| <= |root|
  {
    SplitFirst(name, '/', "");
    assert name == "" || name[0] != '/';
    assert [name][1..] == [];
    assert Walk(Move(root, name), []) == [];
    assert Walk(root, [name]) == [Move(root, name)];
  }

  /** Removing what one name leads to stays within the entry of that name, in
      every tree, exactly when the name is one component: `..` takes the parent of
      the backups directory, `a/b` and `/abs` take what has no entry. */
  lemma SweepStaysExactly(root: Path, name: string)
    ensures (forall dirs, d :: d in dirs && d !in Sweep(root, dirs, name).dirs ==> root + [name] <= d)
            <==> Component(name)
  {
    if Component(name) {
      ComponentWay(root, name);
    } else {
      var dirs := set at | at in Visited(root, name);
      var d := EscapesIn(root, name, dirs);
      assert d in dirs && d !in Sweep(root, dirs, name).dirs;
    }
  }

  lemma EscapesIn(root: Path, name: string, dirs: set<Path>) returns (d: Path)
    requires !Component(name) && dirs == set at | at in Visited(root, name)
    ensures d in dirs && d !in Sweep(root, dirs, name).dirs && !(root + [name] <= d)
  {
    hide Visited;
    var way := Visited(root, name);
    assert Target(root, name) == way[|way| - 1] && way[|way| - 1] in way;
    if ThroughItself(root, name) {
      d :| d in way && StrictlyBelow(Target(root, name), d);
    } else {
      d := Target(root, name);
    }
    NoEntryOnTheWay(root, name, d);
  }

  /** A directory tree: with every directory its parent. */
  ghost predicate Tree(dirs: set<Path>) {
    forall d :: d in dirs && d != [] ==> d[..|d| - 1] in dirs
  }

  /** The directories outside the listed entries. */
  function Without(root: Path, dirs: set<Path>, names: set<string>): set<Path> {
    set d | d in dirs && (|d| <= |root| || !(root <= d) || d[|root|] !in names)
  }

  lemma BelowEntry(root: Path, name: string, d: Path)
    ensures root + [name] <= d <==> |d| > |root| && root <= d && d[|root|] == name
  {
    if |d| > |root| && root <= d {
      assert d[..|root| + 1] == root + [d[|root|]];
    }
    if root + [name] <= d {
      assert d[..|root|] == (root + [name])[..|root|] == root;
    }
  }

  lemma {:induction false} Ancestors(dirs: set<Path>, d: Path, k: nat)
    requires Tree(dirs) && d in dirs && k <= |d|
    ensures d[..k] in dirs
    decreases |d|
  {
    if k < |d| {
      Ancestors(dirs, d[..|d| - 1], k);
      assert d[..|d| - 1][..k] == d[..k];
    } else {
      assert d[..k] == d;
    }
  }

  /** An entry with anything in it is there, and so is the way to it. */
  lemma EntryExists(root: Path, dirs: set<Path>, name: string, d: Path)
    requires Component(name) && Tree(dirs) && d in dirs && root + [name] <= d
    ensures Exists(dirs, root, name)
  {
    hide Visited, Tree, Component;
    ComponentWay(root, name);
    Ancestors(dirs, d, |root|);
    Ancestors(dirs, d, |root| + 1);
    assert d[..|root| + 1] == root + [name] && d[..|root|] == (root + [name])[..|root|] == root;
  }

  lemma SweepEntry(root: Path, dirs: set<Path>, name: string)
    requires Component(name) && Tree(dirs)
    ensures Sweep(root, dirs, name) == Swept(Without(root, dirs, {name}), true)
    ensures Tree(Without(root, dirs, {name}))
  {
    hide Visited, Tree, Component, Exists, ThroughItself, Without, Target;
    ComponentWay(root, name);
    WithoutEntry(root, dirs, name);
    TreeWithout(root, dirs, name);
    forall d | d in dirs && root + [name] <= d ensures Exists(dirs, root, name) {
      EntryExists(root, dirs, name, d);
    }
    assert Sweep(root, dirs, name).dirs == Without(root, dirs, {name});
  }

  lemma WithoutEntry(root: Path, dirs: set<Path>, name: string)
    ensures Without(root, dirs, {name}) == set d | d in dirs && !(root + [name] <= d)
  {
    forall d | d in dirs ensures root + [name] <= d <==> d !in Without(root, dirs, {name}) {
      BelowEntry(root, name, d);
    }
  }

  lemma PrefixOfParent(top: Path, d: Path)
    requires d != []
    ensures top <= d[..|d| - 1] ==> top <= d
  {
  }

  lemma TreeWithout(root: Path, dirs: set<Path>, name: string)
    requires Tree(dirs)
    ensures Tree(Without(root, dirs, {name}))
  {
    WithoutEntry(root, dirs, name);
    hide Without;
    var left := Without(root, dirs, {name});
    forall d | d in left && d != [] ensures d[..|d| - 1] in left {
      PrefixOfParent(root + [name], d);
    }
  }

  lemma WithoutMore(root: Path, dirs: set<Path>, names: set<string>, name: string)
    ensures Without(root, Without(root, dirs, names), {name}) == Without(root, dirs, names + {name})
  {
  }

  lemma WithoutNothing(root: Path, dirs: set<Path>)
    ensures Without(root, dirs, {}) == dirs
  {
  }

  /** With plain names the removal never fails, and takes exactly the listed
      entries with everything below them. */
  lemma {:induction false} SweepEntries(root: Path, dirs: set<Path>, names: seq<string>)
    requires Tree(dirs) && forall n :: n in names ==> Component(n)
    ensures SweepAll(root, dirs, names) == Swept(Without(root, dirs, Elements(names)), true)
    ensures Tree(Without(root, dirs, Elements(names)))
  {
    hide Sweep, Without, Component, Tree;
    if names == [] {
      assert Elements(names) == {};
      WithoutNothing(root, dirs);
    } else {
      var init, last := names[..|names| - 1], names[|names| - 1];
      assert names == init + [last];
      SweepEntries(root, dirs, init);
      var before := Without(root, dirs, Elements(init));
      SweepEntry(root, before, last);
      WithoutMore(root, dirs, Elements(init), last);
      assert Elements(init) + {last} == Elements(names);
    }
  }

  /** Where names lead: down, through dots and doubled slashes, up, and from the top. */
  lemma TargetsAtInputs(root: Path)
    ensures Target(root, "a/b") == root + ["a", "b"]
    ensures Target(root, "./a") == Target(root, "a/") == Target(root, "a//.") == root + ["a"]
    ensures Target(root, "/abs") == ["abs"]
    ensures root != [] ==> Target(root, "../x") == root[..|root| - 1] + ["x"]
  {
    hide Visited, Target, Walk;
    TwoSegments(root, "a", "b");
    TwoSegments(root, ".", "a");
    TwoSegments(root, "a", "");
    TwoSegments(root, "", "abs");
    TwoSegments(root, "..", "x");
    assert "a" + "/" + "b" == "a/b" && "." + "/" + "a" == "./a" && "a" + "/" + "" == "a/" && "" + "/" + "abs" == "/abs";
    assert ".." + "/" + "x" == "../x";
    assert root + ["a"] + ["b"] == root + ["a", "b"];
    ThreeSegments(root);
  }

  lemma TwoSegments(root: Path, s: string, t: string)
    requires '/' !in s && '/' !in t
    ensures Target(root, s + "/" + t) == if s == "" then Move([], t) else Move(Move(root, s), t)
  {
    SplitFirst(s, '/', t);
    SplitFirst(t, '/', "");
    var name := s + "/" + t;
    assert s != "" ==> name[0] == s[0];
    var start := if "/" <= name then [] else root;
    assert [s, t][1..] == [t] && [t][1..] == [];
    assert Split(name, '/') == [s, t];
    assert Walk(Move(Move(start, s), t), []) == [];
    assert Walk(Move(start, s), [t]) == [Move(Move(start, s), t)];
    assert Walk(start, [s, t]) == [Move(start, s), Move(Move(start, s), t)];
    assert s == "" ==> "/" <= name;
  }

  lemma ThreeSegments(root: Path)
    ensures Target(root, "a//.") == root + ["a"]
  {
    SplitFirst("a", '/', "/.");
    SplitFirst("", '/', ".");
    SplitFirst(".", '/', "");
    assert "a" + "/" + "/." == "a//." && "" + "/" + "." == "/.";
    var segments := ["a", "", "."];
    var at := root + ["a"];
    assert Split("a//.", '/') == segments;
    assert segments[1..] == ["", "."] && ["", "."][1..] == ["."] && ["."][1..] == [];
    assert Walk(at, []) == [] && Walk(at, ["."]) == [at] && Walk(at, ["", "."]) == [at, at];
    assert Walk(root, segments) == [at, at, at];
    assert "a//."[0] == 'a';
  }
}
