/** Flattening a tree of URL patterns (scripts/audit-api-endpoints.py:
    `EndpointAuditor._parse_resolver`, `URLPatternParser._parse_path_pattern`). */
module RouteTree {
  import opened Text

  datatype Route = Leaf(pattern: string) | Include(pattern: string, children: seq<Route>)

  // -------------------------------------------------------------------- slashes

  /** `re.sub(r"/+", "/", s)` */
  function Collapse(s: string): (r: string)
    ensures s != "" ==> r != "" && r[0] == s[0]
  {
    if |s| < 2 then s
    else if s[0] == '/' && s[1] == '/' then Collapse(s[1..])
    else [s[0]] + Collapse(s[1..])
  }

  predicate NoDoubleSlash(s: string) {
    forall i :: 0 <= i < |s| - 1 ==> !(s[i] == '/' && s[i + 1] == '/')
  }

  lemma {:induction false} CollapseIsSingle(s: string)
    ensures NoDoubleSlash(Collapse(s))
  {
    if |s| >= 2 {
      CollapseIsSingle(s[1..]);
    }
  }

  lemma {:induction false} CollapseRight(a: string, b: string)
    ensures Collapse(a + b) == Collapse(a + Collapse(b))
  {
    if a == "" {
      assert a + b == b && a + Collapse(b) == Collapse(b);
      CollapseTwice(b);
    } else {
      CollapseRight(a[1..], b);
      assert (a + b)[1..] == a[1..] + b && (a + Collapse(b))[1..] == a[1..] + Collapse(b);
      if |a| == 1 && b != "" {
        assert (a + b)[1] == b[0] && (a + Collapse(b))[1] == Collapse(b)[0];
      }
    }
  }

  lemma {:induction false} CollapseSingle(s: string)
    requires NoDoubleSlash(s)
    ensures Collapse(s) == s
  {
    if |s| >= 2 {
      assert !(s[0] == '/' && s[0 + 1] == '/');
      forall i | 0 <= i < |s[1..]| - 1 ensures !(s[1..][i] == '/' && s[1..][i + 1] == '/') {
        assert s[1..][i] == s[i + 1] && s[1..][i + 1] == s[i + 1 + 1];
      }
      CollapseSingle(s[1..]);
    }
  }

  lemma CollapseTwice(s: string)
    ensures Collapse(Collapse(s)) == Collapse(s)
  {
    CollapseIsSingle(s);
    CollapseSingle(Collapse(s));
  }

  lemma {:induction false} CollapseLeft(a: string, b: string)
    ensures Collapse(a + b) == Collapse(Collapse(a) + b)
  {
    if |a| >= 2 {
      var rest := a[1..];
      assert (a + b)[0] == a[0] && (a + b)[1] == a[1] && (a + b)[1..] == rest + b;
      CollapseLeft(rest, b);
      if !(a[0] == '/' && a[1] == '/') {
        CollapseConsBoth(a[0], rest + b, Collapse(rest) + b);
        Assoc([a[0]], Collapse(rest), b);
        Assoc([a[0]], rest, b);
        assert a == [a[0]] + rest;
      }
    }
  }

  lemma CollapseConsBoth(c: char, s: string, t: string)
    requires Collapse(s) == Collapse(t)
    ensures Collapse([c] + s) == Collapse([c] + t)
  {
    CollapseRight([c], s);
    CollapseRight([c], t);
  }

  /** Collapsing does not see how many slashes stand between two texts. */
  lemma {:induction false} SlashRun(a: string, run: string, b: string)
    requires forall i :: 0 <= i < |run| ==> run[i] == '/'
    ensures Collapse(a + run + "/" + b) == Collapse(a + "/" + b)
  {
    if run == "" {
      assert a + run == a;
    } else {
      SlashRun(a, run[1..], b);
      var t := run[1..] + "/" + b;
      assert a + run + "/" + b == a + ("/" + t);
      assert t[0] == '/';
      assert ("/" + t)[1..] == t;
      CollapseRight(a, "/" + t);
      CollapseRight(a, t);
      assert a + t == a + run[1..] + "/" + b;
    }
  }

  // ------------------------------------------------------------ canonical forms

  function TrimEnd(s: string): string { RStrip(s, IsSlash) }

  function TrimStart(s: string): string { LStrip(s, IsSlash) }

  lemma {:induction false} TrimEndShape(s: string)
    ensures TrimEnd(s) <= s && forall i :: |TrimEnd(s)| <= i < |s| ==> s[i] == '/'
  {
    if s != "" && s[|s| - 1] == '/' {
      TrimEndShape(s[..|s| - 1]);
    }
  }

  lemma {:induction false} TrimStartShape(s: string)
    ensures |TrimStart(s)| <= |s| && TrimStart(s) == s[|s| - |TrimStart(s)|..]
    ensures forall i :: 0 <= i < |s| - |TrimStart(s)| ==> s[i] == '/'
  {
    if s != "" && s[0] == '/' {
      var rest := s[1..];
      TrimStartShape(rest);
      DropTwice(s, |rest| - |TrimStart(rest)|);
      assert forall i :: 1 <= i < |s| ==> s[i] == rest[i - 1];
    }
  }

  lemma DropTwice(s: string, k: nat)
    requires k < |s|
    ensures s[1..][k..] == s[k + 1..]
  {
  }

  /** Trimming both sides of a joint and leaving them alone collapse alike. */
  lemma JointTrimmed(a: string, b: string)
    ensures Collapse(TrimEnd(a) + "/" + TrimStart(b)) == Collapse(a + "/" + b)
  {
    TrimEndShape(a);
    TrimStartShape(b);
    var ra, rb := a[|TrimEnd(a)|..], b[..|b| - |TrimStart(b)|];
    assert a == TrimEnd(a) + ra && b == rb + TrimStart(b);
    SlashRun(TrimEnd(a), ra, b);
    SlashesBefore(TrimEnd(a), rb, TrimStart(b));
  }

  lemma {:induction false} SlashesBefore(a: string, run: string, b: string)
    requires forall i :: 0 <= i < |run| ==> run[i] == '/'
    ensures Collapse(a + "/" + (run + b)) == Collapse(a + "/" + b)
  {
    if run == "" {
      assert run + b == b;
    } else {
      SlashesBefore(a, run[1..], b);
      assert run == ['/'] + run[1..];
      assert a + "/" + (run + b) == a + "/" + "/" + (run[1..] + b);
      SlashRun(a, "/", run[1..] + b);
    }
  }

  /** The path up to repeated and trailing slashes. */
  function Canon(s: string): string { TrimEnd(Collapse(s)) }

  /** Joining another piece depends on the text before it only up to that. */
  lemma JoinCanon(x: string, y: string, piece: string)
    requires Canon(x) == Canon(y)
    ensures Collapse(x + "/" + piece) == Collapse(y + "/" + piece)
  {
    JoinFromCanon(x, piece);
    JoinFromCanon(y, piece);
  }

  lemma JoinFromCanon(x: string, piece: string)
    ensures Collapse(x + "/" + piece) == Collapse(Canon(x) + "/" + piece)
  {
    CollapseLeft(x, "/" + piece);
    assert x + ("/" + piece) == x + "/" + piece;
    var c := Collapse(x);
    TrimEndShape(c);
    var run := c[|Canon(x)|..];
    assert c == Canon(x) + run;
    SlashRun(Canon(x), run, piece);
    assert c + ("/" + piece) == Canon(x) + run + "/" + piece;
  }

  lemma CanonOfCollapse(s: string)
    ensures Canon(Collapse(s)) == Canon(s)
  {
    CollapseTwice(s);
  }

  lemma CanonWithSlash(s: string)
    ensures Canon(s + "/") == Canon(s)
  {
    hide Collapse, TrimEnd;
    CollapseLeft(s, "/");
    var c := Collapse(s);
    CollapseIsSingle(s);
    if c != "" && c[|c| - 1] == '/' {
      OneSlashMore(c);
    } else {
      SingleWithSlash(c);
      CollapseSingle(c + "/");
      TrimEndSlash(c);
    }
  }

  lemma TrimEndSlash(s: string)
    ensures TrimEnd(s + "/") == TrimEnd(s)
  {
    assert (s + "/")[..|s + "/"| - 1] == s;
  }

  lemma SingleWithSlash(c: string)
    requires NoDoubleSlash(c) && (c != "" ==> c[|c| - 1] != '/')
    ensures NoDoubleSlash(c + "/")
  {
  }

  lemma OneSlashMore(c: string)
    requires NoDoubleSlash(c) && c != "" && c[|c| - 1] == '/'
    ensures Collapse(c + "/") == c
  {
    hide Collapse, NoDoubleSlash;
    var d := c[..|c| - 1];
    assert c == d + "/";
    assert d + "/" + "/" + "" == c + "/" && d + "/" + "" == c;
    SlashRun(d, "/", "");
    CollapseSingle(c);
  }

  // ------------------------------------------------------------------ flattening

  /** `str(pattern).replace("^", "").replace("$", "")` */
  function Anchorless(s: string): string {
    if s == "" then ""
    else (if s[0] == '^' || s[0] == '$' then "" else [s[0]]) + Anchorless(s[1..])
  }

  /** The prefix that `_parse_resolver` hands to an included tree. */
  function NewPrefix(prefix: string, pattern: string): string {
    if pattern != "" then
      var joined := if TrimEnd(prefix) != "" then TrimEnd(prefix) + "/" + TrimStart(pattern) else TrimStart(pattern);
      var path := Collapse(joined);
      if EndsWith(path, "/") then path else path + "/"
    else if EndsWith(prefix, "/") then prefix
    else if prefix != "" then prefix + "/"
    else "/"
  }

  /** `_parse_path_pattern`'s full path. */
  function LeafPath(base: string, prefix: string, pattern: string): string {
    var joined :=
      if prefix != "" then
        if TrimStart(pattern) != "" then TrimEnd(prefix) + "/" + TrimStart(pattern) else TrimEnd(prefix)
      else TrimEnd(base) + "/" + TrimStart(pattern);
    var path := Collapse(joined);
    if EndsWith(pattern, "/") && !EndsWith(path, "/") then path + "/" else path
  }

  function Flatten(routes: seq<Route>, base: string, prefix: string): seq<string>
    decreases routes
  {
    if routes == [] then []
    else
      (match routes[0]
       case Leaf(pattern) => [LeafPath(base, prefix, pattern)]
       case Include(pattern, children) => Flatten(children, base, NewPrefix(prefix, Anchorless(pattern))))
      + Flatten(routes[1..], base, prefix)
  }

  /** The reference: all pieces from the root joined once, collapsed once. */
  function JoinedPaths(routes: seq<Route>, above: string): seq<string>
    decreases routes
  {
    if routes == [] then []
    else
      (match routes[0]
       case Leaf(pattern) => [Collapse(above + "/" + pattern)]
       case Include(pattern, children) => JoinedPaths(children, above + "/" + Anchorless(pattern)))
      + JoinedPaths(routes[1..], above)
  }

  /** The paths of one route. */
  function FlattenRoute(route: Route, base: string, prefix: string): seq<string> {
    match route
    case Leaf(pattern) => [LeafPath(base, prefix, pattern)]
    case Include(pattern, children) => Flatten(children, base, NewPrefix(prefix, Anchorless(pattern)))
  }

  lemma FlattenNothing(base: string, prefix: string)
    ensures Flatten([], base, prefix) == []
  {
  }

  lemma {:induction false} FlattenAppend(a: seq<Route>, route: Route, base: string, prefix: string)
    ensures Flatten(a + [route], base, prefix) == Flatten(a, base, prefix) + FlattenRoute(route, base, prefix)
  {
    hide Flatten, FlattenRoute;
    FlattenNothing(base, prefix);
    if a == [] {
      assert a + [route] == [route] && [route][1..] == [];
      FlattenFirst([route], base, prefix);
    } else {
      var all := a + [route];
      FlattenAppend(a[1..], route, base, prefix);
      assert all[0] == a[0] && all[1..] == a[1..] + [route];
      FlattenFirst(all, base, prefix);
      FlattenFirst(a, base, prefix);
    }
  }

  lemma FlattenFirst(routes: seq<Route>, base: string, prefix: string)
    requires routes != []
    ensures Flatten(routes, base, prefix)
            == FlattenRoute(routes[0], base, prefix) + Flatten(routes[1..], base, prefix)
  {
    hide NewPrefix, LeafPath;
  }

  lemma FlattenSnoc(routes: seq<Route>, i: nat, base: string, prefix: string)
    requires i < |routes|
    ensures Flatten(routes[..i + 1], base, prefix)
            == Flatten(routes[..i], base, prefix) + FlattenRoute(routes[i], base, prefix)
  {
    hide Flatten, FlattenRoute;
    FlattenAppend(routes[..i], routes[i], base, prefix);
    assert routes[..i + 1] == routes[..i] + [routes[i]];
  }

  class Auditor {
    var endpoints: seq<string>

    constructor ()
      ensures endpoints == []
    {
      endpoints := [];
    }

    /** `_parse_resolver`, appending to the shared list of endpoints. */
    method ParseResolver(routes: seq<Route>, base: string, prefix: string)
      modifies this
      ensures endpoints == old(endpoints) + Flatten(routes, base, prefix)
      decreases routes
    {
      hide NewPrefix, LeafPath, Flatten;
      var i := 0;
      FlattenNothing(base, prefix);
      assert routes[..0] == [];
      while i < |routes|
        invariant 0 <= i <= |routes|
        invariant endpoints == old(endpoints) + Flatten(routes[..i], base, prefix)
      {
        FlattenSnoc(routes, i, base, prefix);
        match routes[i] {
          case Leaf(pattern) =>
            endpoints := endpoints + [LeafPath(base, prefix, pattern)];
          case Include(pattern, children) =>
            ParseResolver(children, base, NewPrefix(prefix, Anchorless(pattern)));
        }
        i := i + 1;
      }
      assert routes[..|routes|] == routes;
    }
  }

  /** A prefix with something other than slashes in it. */
  predicate Real(prefix: string) { TrimEnd(prefix) != "" }

  lemma EndsWithSlash(s: string)
    ensures EndsWith(s, "/") <==> s != "" && s[|s| - 1] == '/'
  {
    if s != "" {
      assert s[|s| - 1..] == [s[|s| - 1]];
    }
  }

  lemma {:induction false} TrimEndOfSum(a: string, b: string)
    requires TrimEnd(a) != ""
    ensures TrimEnd(a + b) != ""
  {
    if b == "" {
      assert a + b == a;
    } else {
      TrimEndOfSum(a, b[..|b| - 1]);
      assert (a + b)[..|a + b| - 1] == a + b[..|b| - 1];
    }
  }

  lemma {:induction false} CollapseKeepsReal(s: string)
    requires Real(s)
    ensures Real(Collapse(s))
  {
    if |s| >= 2 {
      if s[0] != '/' {
        TrimEndOfSum([s[0]], Collapse(s[1..]));
      } else {
        TrimEndTail(s);
        CollapseKeepsReal(s[1..]);
        TrimEndOfTail("/", Collapse(s[1..]));
      }
    }
  }

  lemma {:induction false} TrimEndTail(s: string)
    requires s != "" && s[0] == '/' && Real(s)
    ensures Real(s[1..])
  {
    TrimEndShape(s);
    var r := TrimEnd(s);
    assert r[|r| - 1] == s[|r| - 1] != '/';
    TrimEndShape(s[1..]);
    assert s[1..][|r| - 2] == s[|r| - 1];
  }

  lemma TrimEndOfTail(a: string, b: string)
    requires Real(b)
    ensures Real(a + b)
  {
    TrimEndShape(b);
    var r := TrimEnd(b);
    TrimEndShape(a + b);
    assert (a + b)[|a| + |r| - 1] == b[|r| - 1] == r[|r| - 1];
  }

  /** One level: from equivalent texts the prefix handed down is equivalent to the
      plain join, and it stays real. */
  lemma PrefixStep(prefix: string, above: string, pattern: string)
    requires Real(prefix) && Canon(prefix) == Canon(above)
    ensures Canon(NewPrefix(prefix, pattern)) == Canon(above + "/" + pattern)
    ensures Real(NewPrefix(prefix, pattern))
  {
    hide Collapse, TrimEnd, TrimStart;
    RealIsNotEmpty(prefix);
    CanonWithSlash(prefix);
    TrimEndOfSum(prefix, "/");
    if pattern == "" {
      CanonWithSlash(above);
      assert above + "/" + "" == above + "/";
    } else {
      var joined := TrimEnd(prefix) + "/" + TrimStart(pattern);
      var path := Collapse(joined);
      JointTrimmed(prefix, pattern);
      JoinCanon(prefix, above, pattern);
      CanonOfCollapse(joined);
      CanonWithSlash(path);
      RealJoin(prefix, TrimStart(pattern));
      TrimEndOfSum(path, "/");
    }
  }

  lemma RealJoin(prefix: string, rest: string)
    requires Real(prefix)
    ensures Real(Collapse(TrimEnd(prefix) + "/" + rest))
  {
    TrimEndTwice(prefix);
    TrimEndOfSum(TrimEnd(prefix), "/" + rest);
    assert TrimEnd(prefix) + ("/" + rest) == TrimEnd(prefix) + "/" + rest;
    CollapseKeepsReal(TrimEnd(prefix) + "/" + rest);
  }

  lemma TrimEndTwice(s: string)
    ensures TrimEnd(TrimEnd(s)) == TrimEnd(s)
  {
  }

  lemma LeafStep(base: string, prefix: string, above: string, pattern: string)
    requires Real(prefix) && Canon(prefix) == Canon(above)
    ensures TrimEnd(LeafPath(base, prefix, pattern)) == TrimEnd(Collapse(above + "/" + pattern))
    ensures NoDoubleSlash(LeafPath(base, prefix, pattern))
  {
    hide Collapse, TrimEnd, TrimStart;
    RealIsNotEmpty(prefix);
    JoinCanon(prefix, above, pattern);
    JointTrimmed(prefix, pattern);
    if TrimStart(pattern) != "" {
      LeafEnd(TrimEnd(prefix) + "/" + TrimStart(pattern), pattern);
    } else {
      LeafEnd(TrimEnd(prefix), pattern);
      CanonWithSlash(TrimEnd(prefix));
      assert TrimEnd(prefix) + "/" + "" == TrimEnd(prefix) + "/";
    }
  }

  lemma RealIsNotEmpty(prefix: string)
    requires Real(prefix)
    ensures prefix != ""
  {
  }

  lemma LeafEnd(joined: string, pattern: string)
    ensures var path := Collapse(joined);
            var full := if EndsWith(pattern, "/") && !EndsWith(path, "/") then path + "/" else path;
            TrimEnd(full) == Canon(joined) && NoDoubleSlash(full)
  {
    hide Collapse, EndsWith, TrimEnd;
    var path := Collapse(joined);
    CollapseIsSingle(joined);
    EndsWithSlash(path);
    TrimEndSlash(path);
    if !EndsWith(path, "/") {
      SingleWithSlash(path);
    }
  }

  /** Pointwise equality of two lists of paths up to trailing slashes. */
  ghost predicate SamePaths(a: seq<string>, b: seq<string>) {
    |a| == |b| && forall i :: 0 <= i < |a| ==> TrimEnd(a[i]) == TrimEnd(b[i])
  }

  lemma SamePathsAppend(a: seq<string>, b: seq<string>, c: seq<string>, d: seq<string>)
    requires SamePaths(a, b) && SamePaths(c, d)
    ensures SamePaths(a + c, b + d)
  {
    hide TrimEnd;
  }

  /** Whether any leaf stands in the tree. */
  predicate HasLeaf(routes: seq<Route>)
    decreases routes
  {
    routes != [] && (routes[0].Leaf? || HasLeaf(routes[0].children) || HasLeaf(routes[1..]))
  }

  /** No leaf stands below an include whose pattern is more than anchors and
      slashes. */
  predicate Rooted(routes: seq<Route>)
    decreases routes
  {
    routes == []
    || (&& (routes[0].Include? ==>
              if TrimStart(Anchorless(routes[0].pattern)) == "" then Rooted(routes[0].children)
              else !HasLeaf(routes[0].children))
        && Rooted(routes[1..]))
  }

  /** Below a real prefix, stripping, joining and collapsing at every level gives
      each leaf the path of joining once. */
  lemma {:induction false} RealPrefixJoinsOnce(routes: seq<Route>, base: string, prefix: string, above: string)
    requires Real(prefix) && Canon(prefix) == Canon(above)
    ensures SamePaths(Flatten(routes, base, prefix), JoinedPaths(routes, above))
    decreases routes
  {
    hide NewPrefix, LeafPath, Canon, Real, Collapse, TrimEnd;
    if routes != [] {
      RealPrefixJoinsOnce(routes[1..], base, prefix, above);
      match routes[0] {
        case Leaf(pattern) =>
          LeafStep(base, prefix, above, pattern);
          SamePathsAppend([LeafPath(base, prefix, pattern)], [Collapse(above + "/" + pattern)],
                          Flatten(routes[1..], base, prefix), JoinedPaths(routes[1..], above));
        case Include(pattern, children) =>
          var deeper := NewPrefix(prefix, Anchorless(pattern));
          PrefixStep(prefix, above, Anchorless(pattern));
          RealPrefixJoinsOnce(children, base, deeper, above + "/" + Anchorless(pattern));
          SamePathsAppend(Flatten(children, base, deeper), JoinedPaths(children, above + "/" + Anchorless(pattern)),
                          Flatten(routes[1..], base, prefix), JoinedPaths(routes[1..], above));
      }
    }
  }

  predicate AllSlashes(s: string) {
    forall i :: 0 <= i < |s| ==> s[i] == '/'
  }

  lemma NotReal(s: string)
    ensures AllSlashes(s) <==> TrimEnd(s) == ""
  {
    TrimEndShape(s);
    if TrimEnd(s) != "" {
      assert s[|TrimEnd(s)| - 1] == TrimEnd(s)[|TrimEnd(s)| - 1] != '/';
    }
  }

  lemma {:induction false} CollapseSlashes(s: string)
    requires AllSlashes(s)
    ensures Collapse(s) == if s == "" then "" else "/"
  {
    if |s| >= 2 {
      CollapseSlashes(s[1..]);
    }
  }

  lemma {:induction false} TrimStartSlashes(s: string)
    requires AllSlashes(s)
    ensures TrimStart(s) == ""
  {
    if s != "" {
      TrimStartSlashes(s[1..]);
    }
  }

  /** Canonical forms tell real texts from slashes. */
  lemma CanonNothing(s: string)
    ensures AllSlashes(s) <==> Canon(s) == ""
  {
    hide TrimEnd;
    NotReal(s);
    if AllSlashes(s) {
      CollapseSlashes(s);
      NotReal(Collapse(s));
    } else {
      CollapseKeepsReal(s);
    }
  }

  /** One include below a prefix of slashes: the prefix handed down either stays
      slashes or lacks the leading one. */
  lemma SlashPrefixStep(prefix: string, pattern: string)
    requires prefix != "" && AllSlashes(prefix)
    ensures var deeper := NewPrefix(prefix, pattern);
            && deeper != ""
            && (if TrimStart(pattern) == "" then AllSlashes(deeper) else deeper[0] != '/')
  {
    NotReal(prefix);
    var path := Collapse(TrimStart(pattern));
    assert (path + "/")[0] == if path == "" then '/' else path[0];
  }

  lemma LeadingSlashTrimmed(s: string)
    requires s != "" && s[0] == '/'
    ensures TrimEnd(s) == "" || TrimEnd(s)[0] == '/'
  {
    TrimEndShape(s);
  }

  /** A prefix that starts with something other than a slash stays so in every
      prefix and in every path below it. */
  lemma RootlessStep(base: string, prefix: string, pattern: string)
    requires prefix != "" && prefix[0] != '/'
    ensures NewPrefix(prefix, pattern) != "" && NewPrefix(prefix, pattern)[0] != '/'
    ensures TrimEnd(LeafPath(base, prefix, pattern)) != "" && TrimEnd(LeafPath(base, prefix, pattern))[0] != '/'
  {
    hide Collapse, TrimStart;
    RootlessTrim(prefix);
    var joined := TrimEnd(prefix) + "/" + TrimStart(pattern);
    assert joined[0] == prefix[0];
    RootlessTrim(LeafPath(base, prefix, pattern));
  }

  lemma RootlessTrim(s: string)
    requires s != "" && s[0] != '/'
    ensures TrimEnd(s) != "" && TrimEnd(s)[0] == s[0]
  {
    TrimEndShape(s);
  }

  /** Paths that start with something other than a slash, and paths that start
      with one, are never the same when there are any. */
  ghost predicate Rootless(paths: seq<string>) {
    forall i :: 0 <= i < |paths| ==> TrimEnd(paths[i]) != "" && TrimEnd(paths[i])[0] != '/'
  }

  ghost predicate Slashed(paths: seq<string>) {
    forall i :: 0 <= i < |paths| ==> paths[i] != "" && paths[i][0] == '/'
  }

  lemma {:induction false} RootlessBelow(routes: seq<Route>, base: string, prefix: string)
    requires prefix != "" && prefix[0] != '/'
    ensures Rootless(Flatten(routes, base, prefix))
    ensures Flatten(routes, base, prefix) != [] <==> HasLeaf(routes)
    decreases routes
  {
    hide NewPrefix, LeafPath, TrimEnd;
    if routes != [] {
      RootlessBelow(routes[1..], base, prefix);
      RootlessStep(base, prefix, routes[0].pattern);
      if routes[0].Include? {
        RootlessStep(base, prefix, Anchorless(routes[0].pattern));
        RootlessBelow(routes[0].children, base, NewPrefix(prefix, Anchorless(routes[0].pattern)));
      }
    }
  }

  lemma {:induction false} SlashedBelow(routes: seq<Route>, above: string)
    requires above == "" || above[0] == '/'
    ensures Slashed(JoinedPaths(routes, above))
    ensures JoinedPaths(routes, above) != [] <==> HasLeaf(routes)
    decreases routes
  {
    hide Collapse;
    if routes != [] {
      SlashedBelow(routes[1..], above);
      match routes[0] {
        case Leaf(pattern) =>
          StartsWithSlash(above, pattern);
        case Include(pattern, children) =>
          StartsWithSlash(above, Anchorless(pattern));
          SlashedBelow(children, above + "/" + Anchorless(pattern));
      }
    }
  }

  lemma StartsWithSlash(above: string, pattern: string)
    requires above == "" || above[0] == '/'
    ensures var s := above + "/" + pattern; s[0] == '/' && Collapse(s) != "" && Collapse(s)[0] == '/'
  {
    hide Collapse;
  }

  /** Below a prefix of slashes, an include with a real pattern takes the leading
      slash from every path under it, while joining once keeps it there: the two
      lists agree only when both are empty. */
  lemma SlashPrefixLosesRoot(routes: seq<Route>, base: string, prefix: string, above: string, pattern: string)
    requires prefix != "" && AllSlashes(prefix) && AllSlashes(above) && TrimStart(pattern) != ""
    ensures Rootless(Flatten(routes, base, NewPrefix(prefix, pattern)))
    ensures Slashed(JoinedPaths(routes, above + "/" + pattern))
    ensures SamePaths(Flatten(routes, base, NewPrefix(prefix, pattern)), JoinedPaths(routes, above + "/" + pattern))
            <==> !HasLeaf(routes)
  {
    hide NewPrefix, TrimEnd, HasLeaf, Flatten, JoinedPaths;
    SlashPrefixStep(prefix, pattern);
    RootlessBelow(routes, base, NewPrefix(prefix, pattern));
    StartsWithSlash(above, pattern);
    SlashedBelow(routes, above + "/" + pattern);
    var a, b := Flatten(routes, base, NewPrefix(prefix, pattern)), JoinedPaths(routes, above + "/" + pattern);
    if HasLeaf(routes) && SamePaths(a, b) {
      LeadingSlashTrimmed(b[0]);
    }
  }

  /** A leaf below slashes only still gets its path. */
  lemma SlashLeaf(base: string, prefix: string, above: string, pattern: string)
    requires prefix != "" && AllSlashes(prefix) && AllSlashes(above)
    ensures TrimEnd(LeafPath(base, prefix, pattern)) == TrimEnd(Collapse(above + "/" + pattern))
  {
    hide TrimStart;
    NotReal(prefix);
    NotReal(above);
    JointTrimmed(above, pattern);
    var t := TrimStart(pattern);
    if t != "" {
      LeafEnd("/" + t, pattern);
      assert TrimEnd(prefix) + "/" + t == "/" + t == TrimEnd(above) + "/" + t;
    } else {
      LeafEnd("", pattern);
      assert TrimEnd(above) + "/" + t == "/";
    }
  }

  lemma SamePathsPrefix(a: seq<string>, b: seq<string>, c: seq<string>, d: seq<string>)
    requires |a| == |b|
    ensures SamePaths(a + c, b + d) <==> SamePaths(a, b) && SamePaths(c, d)
  {
    hide TrimEnd;
    if SamePaths(a + c, b + d) {
      forall i | 0 <= i < |a| ensures TrimEnd(a[i]) == TrimEnd(b[i]) {
        assert (a + c)[i] == a[i] && (b + d)[i] == b[i];
      }
      forall i | 0 <= i < |c| ensures TrimEnd(c[i]) == TrimEnd(d[i]) {
        assert (a + c)[|a| + i] == c[i] && (b + d)[|b| + i] == d[i];
      }
    }
  }

  lemma {:induction false} SameCount(routes: seq<Route>, base: string, prefix: string, above: string)
    ensures |Flatten(routes, base, prefix)| == |JoinedPaths(routes, above)|
    decreases routes
  {
    hide NewPrefix, LeafPath, Collapse;
    if routes != [] {
      SameCount(routes[1..], base, prefix, above);
      if routes[0].Include? {
        SameCount(routes[0].children, base, NewPrefix(prefix, Anchorless(routes[0].pattern)),
                  above + "/" + Anchorless(routes[0].pattern));
      }
    }
  }

  lemma {:induction false} SlashPrefixJoinsOnce(routes: seq<Route>, base: string, prefix: string, above: string)
    requires prefix != "" && AllSlashes(prefix) && AllSlashes(above)
    ensures SamePaths(Flatten(routes, base, prefix), JoinedPaths(routes, above)) <==> Rooted(routes)
    decreases routes
  {
    hide NewPrefix, LeafPath, Collapse, TrimEnd, TrimStart, HasLeaf;
    if routes != [] {
      SlashPrefixJoinsOnce(routes[1..], base, prefix, above);
      var rest, rest' := Flatten(routes[1..], base, prefix), JoinedPaths(routes[1..], above);
      match routes[0] {
        case Leaf(pattern) =>
          SlashLeaf(base, prefix, above, pattern);
          SamePathsPrefix([LeafPath(base, prefix, pattern)], [Collapse(above + "/" + pattern)], rest, rest');
        case Include(pattern, children) =>
          var p := Anchorless(pattern);
          SlashPrefixStep(prefix, p);
          SameCount(children, base, NewPrefix(prefix, p), above + "/" + p);
          SamePathsPrefix(Flatten(children, base, NewPrefix(prefix, p)), JoinedPaths(children, above + "/" + p),
                          rest, rest');
          if TrimStart(p) == "" {
            SlashesStay(above, p);
            SlashPrefixJoinsOnce(children, base, NewPrefix(prefix, p), above + "/" + p);
          } else {
            SlashPrefixLosesRoot(children, base, prefix, above, p);
          }
      }
    }
  }

  lemma SlashesStay(above: string, pattern: string)
    requires AllSlashes(above) && TrimStart(pattern) == ""
    ensures AllSlashes(above + "/" + pattern)
  {
    TrimStartShape(pattern);
  }

  /** For every tree of includes, stripping, joining and collapsing at every level
      gives each leaf, in order, the path that joining all its pieces once and
      collapsing once gives, up to a trailing slash: exactly when the prefix holds
      more than slashes, or no leaf stands below an include that adds to it. */
  lemma FlattenIsJoinOnce(routes: seq<Route>, base: string, prefix: string, above: string)
    requires prefix != "" && Canon(prefix) == Canon(above)
    ensures SamePaths(Flatten(routes, base, prefix), JoinedPaths(routes, above)) <==> Real(prefix) || Rooted(routes)
  {
    hide Flatten, JoinedPaths, Canon, TrimEnd, Rooted;
    NotReal(prefix);
    CanonNothing(prefix);
    CanonNothing(above);
    if Real(prefix) {
      RealPrefixJoinsOnce(routes, base, prefix, above);
    } else {
      SlashPrefixJoinsOnce(routes, base, prefix, above);
    }
  }

  /** The prefix that the audit starts from. */
  function InitialPrefix(base: string): string { TrimEnd(base) + "/" }

  /** The audit's own call: every base path but an empty or all-slash one. */
  lemma AuditIsJoinOnce(routes: seq<Route>, base: string)
    ensures SamePaths(Flatten(routes, base, InitialPrefix(base)), JoinedPaths(routes, base))
            <==> Real(base) || Rooted(routes)
  {
    hide Flatten, JoinedPaths, Canon, TrimEnd, TrimStart, Rooted;
    JointTrimmed(base, "");
    TrimStartSlashes("");
    assert TrimEnd(base) + "/" + "" == InitialPrefix(base) && base + "/" + "" == base + "/";
    CanonOfCollapse(InitialPrefix(base));
    CanonOfCollapse(base + "/");
    CanonWithSlash(base);
    InitialIsReal(base);
    FlattenIsJoinOnce(routes, base, InitialPrefix(base), base);
  }

  lemma InitialIsReal(base: string)
    ensures Real(InitialPrefix(base)) <==> Real(base)
  {
    NotReal(InitialPrefix(base));
    NotReal(base);
    if Real(base) {
      TrimEndShape(base);
      assert InitialPrefix(base)[|TrimEnd(base)| - 1] == TrimEnd(base)[|TrimEnd(base)| - 1] != '/';
    }
  }

  /** The smallest route that shows it: under a base path of one slash. */
  lemma IncludedRouteLosesSlash()
    ensures var routes := [Include("api/", [Leaf("ping")])];
            && Flatten(routes, "/", InitialPrefix("/")) == ["api/ping"]
            && JoinedPaths(routes, "/") == ["/api/ping"]
  {
    hide Flatten, JoinedPaths, NewPrefix, LeafPath, Collapse, Anchorless;
    var leaf := [Leaf("ping")];
    assert TrimEnd("/") == "" by { assert "/"[..0] == ""; }
    assert InitialPrefix("/") == "/";
    ApiPrefix();
    OneInclude("api/", leaf, "/", "/", "/");
    OneLeaf("ping", "/", "api/", "/" + "/" + "api/");
  }

  lemma OneLeaf(pattern: string, base: string, prefix: string, above: string)
    ensures Flatten([Leaf(pattern)], base, prefix) == [LeafPath(base, prefix, pattern)]
    ensures JoinedPaths([Leaf(pattern)], above) == [Collapse(above + "/" + pattern)]
  {
    assert [Leaf(pattern)][1..] == [];
  }

  lemma OneInclude(pattern: string, children: seq<Route>, base: string, prefix: string, above: string)
    ensures Flatten([Include(pattern, children)], base, prefix)
            == Flatten(children, base, NewPrefix(prefix, Anchorless(pattern)))
    ensures JoinedPaths([Include(pattern, children)], above)
            == JoinedPaths(children, above + "/" + Anchorless(pattern))
  {
    hide NewPrefix, Anchorless;
    assert [Include(pattern, children)][1..] == [];
  }

  lemma ApiPrefix()
    ensures Anchorless("api/") == "api/" && NewPrefix("/", "api/") == "api/"
    ensures LeafPath("/", "api/", "ping") == "api/ping"
    ensures Collapse("/" + "/" + "api/" + "/" + "ping") == "/api/ping"
  {
    ApiAnchorless();
    ApiPrefixed();
    ApiLeaf();
    ApiJoined();
  }

  lemma ApiAnchorless()
    ensures Anchorless("api/") == "api/"
  {
    assert "api/"[1..] == "pi/" && "pi/"[1..] == "i/" && "i/"[1..] == "/" && "/"[1..] == "";
  }

  lemma ApiPrefixed()
    ensures NewPrefix("/", "api/") == "api/"
  {
    hide Collapse;
    assert "/"[..0] == "";
    EndsWithSlash("api/");
    CollapseSingle("api/");
  }

  lemma ApiLeaf()
    ensures LeafPath("/", "api/", "ping") == "api/ping"
  {
    hide Collapse;
    assert "api/"[..3] == "api" && TrimEnd("api/") == "api";
    assert "api" + "/" + "ping" == "api/ping";
    EndsWithSlash("ping");
    CollapseSingle("api/ping");
  }

  lemma ApiJoined()
    ensures Collapse("/" + "/" + "api/" + "/" + "ping") == "/api/ping"
  {
    hide Collapse;
    SlashRun("", "/", "api/" + "/" + "ping");
    SlashRun("/api", "/", "ping");
    CollapseSingle("/api/ping");
    assert "" + "/" + "/" + ("api/" + "/" + "ping") == "/" + "/" + "api/" + "/" + "ping";
    assert "" + "/" + ("api/" + "/" + "ping") == "/api" + "/" + "/" + "ping";
    assert "/api" + "/" + "ping" == "/api/ping";
  }

  /** No path has two adjacent slashes, for every tree, base and prefix. */
  lemma {:induction false} FlattenHasNoDoubleSlash(routes: seq<Route>, base: string, prefix: string)
    ensures forall p :: p in Flatten(routes, base, prefix) ==> NoDoubleSlash(p)
    decreases routes
  {
    hide NewPrefix, NoDoubleSlash;
    if routes != [] {
      FlattenHasNoDoubleSlash(routes[1..], base, prefix);
      match routes[0] {
        case Leaf(pattern) =>
          LeafIsSingle(base, prefix, pattern);
        case Include(pattern, children) =>
          FlattenHasNoDoubleSlash(children, base, NewPrefix(prefix, Anchorless(pattern)));
      }
    }
  }

  lemma LeafIsSingle(base: string, prefix: string, pattern: string)
    ensures NoDoubleSlash(LeafPath(base, prefix, pattern))
  {
    hide Collapse, TrimEnd, TrimStart, NoDoubleSlash;
    var joined :=
      if prefix != "" then
        if TrimStart(pattern) != "" then TrimEnd(prefix) + "/" + TrimStart(pattern) else TrimEnd(prefix)
      else TrimEnd(base) + "/" + TrimStart(pattern);
    LeafEnd(joined, pattern);
  }

  lemma {:induction false} CollapseKeepsLast(s: string)
    requires s != ""
    ensures Collapse(s) != "" && Collapse(s)[|Collapse(s)| - 1] == s[|s| - 1]
  {
    if |s| >= 2 {
      CollapseKeepsLast(s[1..]);
    }
  }

  /** A leaf's path ends with a slash exactly when its own pattern does, which with
      FlattenIsJoinOnce fixes the path completely. */
  lemma TrailingSlashIsPatterns(base: string, prefix: string, pattern: string)
    requires prefix != ""
    ensures EndsWith(LeafPath(base, prefix, pattern), "/") <==> EndsWith(pattern, "/")
  {
    var t := TrimStart(pattern);
    TrimStartShape(pattern);
    EndsWithSlash(pattern);
    var joined := if t != "" then TrimEnd(prefix) + "/" + t else TrimEnd(prefix);
    if joined != "" {
      CollapseKeepsLast(joined);
    }
    EndsWithSlash(Collapse(joined));
    EndsWithSlash(Collapse(joined) + "/");
    EndsWithSlash("");
  }

  lemma {:induction false} AnchorlessConcat(a: string, b: string)
    ensures Anchorless(a + b) == Anchorless(a) + Anchorless(b)
  {
    hide Anchorless;
    if a == "" {
      AnchorlessNothing();
      assert a + b == b && "" + Anchorless(b) == Anchorless(b);
    } else {
      AnchorlessConcat(a[1..], b);
      AnchorlessFirst(a[0], a[1..] + b);
      AnchorlessFirst(a[0], a[1..]);
      assert a == [a[0]] + a[1..] && a + b == [a[0]] + (a[1..] + b);
    }
  }

  lemma AnchorlessNothing()
    ensures Anchorless("") == ""
  {
  }

  lemma AnchorlessFirst(c: char, s: string)
    ensures Anchorless([c] + s) == (if c == '^' || c == '$' then "" else [c]) + Anchorless(s)
  {
    assert ([c] + s)[1..] == s;
  }

  lemma {:induction false} AnchorlessPlain(s: string)
    requires '^' !in s && '$' !in s
    ensures Anchorless(s) == s
  {
    if s != "" {
      AnchorlessPlain(s[1..]);
    }
  }

  lemma AnchorsAlone()
    ensures Anchorless("^") == "" && Anchorless("$") == ""
  {
    assert "^"[1..] == "" && "$"[1..] == "" && Anchorless("") == "";
  }

  /** Anchors around an included pattern make no difference, and without anchors the
      pattern is taken as it is. */
  lemma AnchorsIgnored(pattern: string, children: seq<Route>, base: string, prefix: string)
    ensures Flatten([Include("^" + pattern, children)], base, prefix)
            == Flatten([Include(pattern + "$", children)], base, prefix)
            == Flatten([Include(pattern, children)], base, prefix)
    ensures '^' !in pattern && '$' !in pattern ==>
              Flatten([Include(pattern, children)], base, prefix) == Flatten(children, base, NewPrefix(prefix, pattern))
  {
    hide Flatten, NewPrefix, JoinedPaths, Anchorless;
    AnchorsAlone();
    AnchorlessConcat("^", pattern);
    AnchorlessConcat(pattern, "$");
    assert "" + Anchorless(pattern) == Anchorless(pattern) == Anchorless(pattern) + "";
    OneInclude("^" + pattern, children, base, prefix, "");
    OneInclude(pattern + "$", children, base, prefix, "");
    OneInclude(pattern, children, base, prefix, "");
    if '^' !in pattern && '$' !in pattern {
      AnchorlessPlain(pattern);
    }
  }

  function NonSlashes(s: string): string {
    if s == "" then "" else (if s[0] == '/' then "" else [s[0]]) + NonSlashes(s[1..])
  }

  /** Collapsing takes only slashes away, and never the last one between two texts. */
  lemma {:induction false} CollapseKeeps(s: string)
    ensures NonSlashes(Collapse(s)) == NonSlashes(s)
    ensures '/' in s ==> '/' in Collapse(s)
  {
    if |s| >= 2 {
      CollapseKeeps(s[1..]);
      assert s == [s[0]] + s[1..];
      if !(s[0] == '/' && s[1] == '/') {
        assert Collapse(s)[1..] == Collapse(s[1..]);
      }
    }
  }

  /** The documented example: base path, an include and a leaf. */
  lemma DocumentedRoute()
    ensures Flatten([Include("auth/", [Leaf("login/")])], "/api/v1", InitialPrefix("/api/v1"))
            == ["/api/v1/auth/login/"]
  {
    hide Flatten, JoinedPaths, NewPrefix, LeafPath, Collapse, Anchorless;
    InitialApi();
    AuthPrefix();
    LoginLeaf();
    OneInclude("auth/", [Leaf("login/")], "/api/v1", "/api/v1/", "");
    OneLeaf("login/", "/api/v1", "/api/v1/auth/", "");
  }

  lemma InitialApi()
    ensures InitialPrefix("/api/v1") == "/api/v1/"
  {
    assert "/api/v1"[6] == '1' && TrimEnd("/api/v1") == "/api/v1";
  }

  lemma AuthPrefix()
    ensures NewPrefix("/api/v1/", Anchorless("auth/")) == "/api/v1/auth/"
  {
    hide Collapse, Anchorless;
    AnchorlessPlain("auth/");
    assert "/api/v1/"[..7] == "/api/v1" && TrimEnd("/api/v1/") == "/api/v1" by { InitialApi(); }
    assert "/api/v1" + "/" + "auth/" == "/api/v1/auth/";
    EndsWithSlash("/api/v1/auth/");
    CollapseSingle("/api/v1/auth/");
  }

  lemma LoginLeaf()
    ensures LeafPath("/api/v1", "/api/v1/auth/", "login/") == "/api/v1/auth/login/"
  {
    hide Collapse;
    assert "/api/v1/auth/"[..12] == "/api/v1/auth" && "/api/v1/auth"[11] == 'h';
    assert TrimEnd("/api/v1/auth/") == "/api/v1/auth";
    assert "/api/v1/auth" + "/" + "login/" == "/api/v1/auth/login/";
    EndsWithSlash("/api/v1/auth/login/");
    CollapseSingle("/api/v1/auth/login/");
  }
}
