/** The dead-code gate and its shrink-only allowlist
    (scripts/audit_dead_code.py: `check_gate`, `check_growth`,
    `update_allowlist`). */
module DeadCodeGate {
  import opened Text

  /** One scan of a tree: the files in it, the legacy-class files, the orphans. */
  datatype Scan = Scan(files: set<string>, legacy: seq<string>, orphans: set<string>)

  type Allowlist = map<string, string>

  datatype Baseline = Missing | Unreadable | Entries(entries: Allowlist)

  datatype Violation =
    | LegacyFile(path: string)
    | Untriaged(path: string)
    | DeadAnchor(path: string)
    | Stale(path: string)
    | Reasonless(path: string)

  const TODO_REASON := "TODO: reason required" + " — cite the wiring site"

  /** A reason the gate rejects. */
  predicate Hollow(reason: string) {
    reason == "" || "TODO" <= Strip(reason, IsSpace)
  }

  ghost predicate IsViolation(scan: Scan, entries: Allowlist, v: Violation) {
    match v
    case LegacyFile(p) => p in scan.legacy
    case Untriaged(p) => p in scan.orphans && p !in entries
    case DeadAnchor(p) => p in entries && p !in scan.files
    case Stale(p) => p in entries && p in scan.files && p !in scan.orphans
    case Reasonless(p) => p in entries && p in scan.files && p in scan.orphans && Hollow(entries[p])
  }

  /** What a passing gate means. */
  ghost predicate Clean(scan: Scan, entries: Allowlist) {
    && scan.legacy == []
    && entries.Keys == scan.orphans <= scan.files
    && forall p :: p in entries ==> !Hollow(entries[p])
  }

  ghost predicate GatePasses(scan: Scan, baseline: Baseline) {
    baseline.Entries? && Clean(scan, baseline.entries)
  }

  lemma NoViolationIsClean(scan: Scan, entries: Allowlist)
    ensures (forall v :: !IsViolation(scan, entries, v)) <==> Clean(scan, entries)
  {
    if scan.legacy != [] {
      assert IsViolation(scan, entries, LegacyFile(scan.legacy[0]));
    }
    if forall v :: !IsViolation(scan, entries, v) {
      forall p ensures p !in scan.legacy && (p in entries <==> p in scan.orphans)
        ensures p in entries ==> p in scan.files && !Hollow(entries[p])
      {
        assert !IsViolation(scan, entries, LegacyFile(p)) && !IsViolation(scan, entries, Untriaged(p));
        assert !IsViolation(scan, entries, DeadAnchor(p)) && !IsViolation(scan, entries, Stale(p));
        assert !IsViolation(scan, entries, Reasonless(p));
      }
    }
  }

  /** `check_gate`: the violations are exactly the ones there are, and the exit
      code is zero exactly for a readable allowlist whose keys are the orphans. */
  method CheckGate(scan: Scan, baseline: Baseline) returns (code: nat, violations: seq<Violation>)
    ensures code <= 1 && (code == 0 <==> GatePasses(scan, baseline))
    ensures baseline.Entries? ==> forall v :: v in violations <==> IsViolation(scan, baseline.entries, v)
  {
    violations := [];
    if !baseline.Entries? {
      return 1, violations;
    }
    var entries := baseline.entries;
    for i := 0 to |scan.legacy|
      invariant forall v :: v in violations <==> v.LegacyFile? && v.path in scan.legacy[..i]
    {
      assert scan.legacy[..i + 1] == scan.legacy[..i] + [scan.legacy[i]];
      violations := violations + [LegacyFile(scan.legacy[i])];
    }
    assert scan.legacy[..|scan.legacy|] == scan.legacy;
    var untriaged := Sorted(scan.orphans - entries.Keys);
    for i := 0 to |untriaged|
      invariant forall v :: v in violations <==>
                  || (v.LegacyFile? && v.path in scan.legacy)
                  || (v.Untriaged? && v.path in untriaged[..i])
    {
      assert untriaged[..i + 1] == untriaged[..i] + [untriaged[i]];
      violations := violations + [Untriaged(untriaged[i])];
    }
    assert untriaged[..|untriaged|] == untriaged;
    var keys := Sorted(entries.Keys);
    for i := 0 to |keys|
      invariant forall v :: v in violations <==>
                  IsViolation(scan, entries, v) && (v.LegacyFile? || v.Untriaged? || v.path in keys[..i])
    {
      var path := keys[i];
      assert path in keys && path in entries;
      assert keys[..i + 1] == keys[..i] + [path];
      LessIrreflexiveKeys(keys, i);
      if path !in scan.files {
        violations := violations + [DeadAnchor(path)];
      } else if path !in scan.orphans {
        violations := violations + [Stale(path)];
      } else if Hollow(entries[path]) {
        violations := violations + [Reasonless(path)];
      }
    }
    assert keys[..|keys|] == keys;
    NoViolationIsClean(scan, entries);
    code := if violations != [] then 1 else 0;
    if violations != [] {
      assert violations[0] in violations;
    }
  }

  lemma LessIrreflexiveKeys(keys: seq<string>, i: nat)
    requires StrictlySorted(keys) && i < |keys|
    ensures keys[i] !in keys[..i]
  {
    forall j | 0 <= j < i ensures keys[j] != keys[i] {
      LessTotal(keys[j], keys[i]);
    }
  }

  /** The gate's documentation says that empty reasons fail; one of spaces only
      passes, because only the empty text and a leading TODO are looked for. */
  lemma BlankReasonPasses(reason: string)
    requires reason != "" && forall i :: 0 <= i < |reason| ==> IsSpace(reason[i])
    ensures !Hollow(reason)
  {
    LStripPadded(reason, "", IsSpace);
    assert reason + "" == reason;
  }

  // --------------------------------------------------------------------- growth

  /** The allowlist in the revision that the working copy is compared with. */
  datatype Head = NoRevision | BadRevision | Revision(keys: set<string>)

  /** `check_growth`'s exit code, for a working allowlist that can be read. */
  function CheckGrowth(head: Head, working: Allowlist): nat {
    match head
    case NoRevision => 0
    case BadRevision => 1
    case Revision(keys) => if working.Keys - keys != {} then 1 else 0
  }

  datatype Commit = Commit(scan: Scan, baseline: Baseline)

  function HeadOf(baseline: Baseline): Head {
    match baseline
    case Missing => NoRevision
    case Unreadable => BadRevision
    case Entries(entries) => Revision(entries.Keys)
  }

  /** Commit i passes the gate, and the growth check against the one before: both
      are run on the working copy, before the commit is made, when the one before
      is still the head revision. */
  ghost predicate PassesAt(history: seq<Commit>, i: nat)
    requires i < |history|
  {
    && GatePasses(history[i].scan, history[i].baseline)
    && CheckGrowth(if i == 0 then NoRevision else HeadOf(history[i - 1].baseline), history[i].baseline.entries) == 0
  }

  ghost predicate Passing(history: seq<Commit>) {
    forall i :: 0 <= i < |history| ==> PassesAt(history, i)
  }

  ghost predicate CleanAndNested(history: seq<Commit>, i: nat)
    requires i < |history|
  {
    && GatePasses(history[i].scan, history[i].baseline)
    && (i > 0 ==> history[i].scan.orphans <= history[i - 1].scan.orphans)
  }

  lemma NothingAdded(now: set<string>, before: set<string>)
    ensures now - before == {} <==> now <= before
  {
    if now - before == {} {
      forall p | p in now ensures p in before {
        assert p !in now - before;
      }
    }
  }

  /** The growth check passes exactly against a head without an allowlist, or with
      one that has every working key. */
  lemma GrowthExactly(head: Baseline, working: Allowlist)
    ensures CheckGrowth(HeadOf(head), working) <= 1
    ensures CheckGrowth(HeadOf(head), working) == 0 <==>
            head.Missing? || (head.Entries? && forall p :: p in working ==> p in head.entries)
  {
    if head.Entries? {
      NothingAdded(working.Keys, head.entries.Keys);
    }
  }

  lemma PassesAtStep(history: seq<Commit>, i: nat)
    requires i < |history|
    requires i > 0 ==> GatePasses(history[i - 1].scan, history[i - 1].baseline)
    ensures PassesAt(history, i) <==> CleanAndNested(history, i)
  {
    if i > 0 && history[i].baseline.Entries? {
      NothingAdded(history[i].baseline.entries.Keys, history[i - 1].baseline.entries.Keys);
    }
  }

  /** A history passes both checks exactly when every commit passes the gate and
      no commit has an orphan that the one before it did not have. */
  lemma PassingMeansShrinking(history: seq<Commit>)
    ensures Passing(history) <==> forall i :: 0 <= i < |history| ==> CleanAndNested(history, i)
  {
    if forall i :: 0 <= i < |history| ==> GatePasses(history[i].scan, history[i].baseline) {
      forall i | 0 <= i < |history| ensures PassesAt(history, i) <==> CleanAndNested(history, i) {
        PassesAtStep(history, i);
      }
    } else {
      var i :| 0 <= i < |history| && !GatePasses(history[i].scan, history[i].baseline);
      assert !PassesAt(history, i) && !CleanAndNested(history, i);
    }
  }

  /** Over every passing history the allowlist names exactly the orphans and they
      never grow. */
  lemma {:induction false} OrphansOnlyShrink(history: seq<Commit>, i: nat, j: nat)
    requires Passing(history) && i <= j < |history|
    ensures history[j].baseline.Entries? && history[j].baseline.entries.Keys == history[j].scan.orphans
    ensures history[j].scan.orphans <= history[i].scan.orphans
    decreases j - i
  {
    assert PassesAt(history, j);
    if i < j {
      PassingMeansShrinking(history);
      assert CleanAndNested(history, j);
      OrphansOnlyShrink(history, i, j - 1);
    }
  }

  /** An orphan, or an allowlist entry, that has gone does not come back. */
  lemma RemovedNeverReturns(history: seq<Commit>, k: nat, j: nat, path: string)
    requires Passing(history) && k <= j < |history| && path !in history[k].scan.orphans
    ensures path !in history[j].scan.orphans && history[j].baseline.Entries? && path !in history[j].baseline.entries
  {
    OrphansOnlyShrink(history, k, j);
  }

  // --------------------------------------------------------------------- update

  datatype Update = Update(entries: Allowlist, added: set<string>, dead: set<string>, stale: set<string>)

  function Kept(scan: Scan, recorded: Allowlist): Allowlist {
    map p | p in recorded && p in scan.orphans && p in scan.files :: recorded[p]
  }

  /** `update_allowlist`, for a baseline that can be read (or is missing: then
      the old allowlist is empty). */
  function UpdateAllowlist(scan: Scan, recorded: Allowlist): Update {
    var kept := Kept(scan, recorded);
    var added := scan.orphans - kept.Keys;
    Update(kept + map p | p in added :: TODO_REASON,
           added,
           set p | p in recorded && p !in scan.files,
           set p | p in recorded && p in scan.files && p !in scan.orphans)
  }

  /** The old entries are split into kept, dead and stale; the new keys are the
      orphans; surviving reasons stay; recording again changes nothing. */
  lemma UpdatePartitions(scan: Scan, recorded: Allowlist)
    requires scan.orphans <= scan.files
    ensures var u := UpdateAllowlist(scan, recorded); var kept := Kept(scan, recorded).Keys;
            && recorded.Keys == kept + u.dead + u.stale
            && kept !! u.dead !! u.stale
            && u.entries.Keys == scan.orphans == kept + u.added && kept !! u.added
            && kept == recorded.Keys * scan.orphans
            && u.dead == recorded.Keys - scan.files && u.stale == recorded.Keys * scan.files - scan.orphans
            && (forall p :: p in kept ==> u.entries[p] == recorded[p])
            && (forall p :: p in u.added ==> u.entries[p] == "TODO: reason required" + " — cite the wiring site")
            && UpdateAllowlist(scan, u.entries) == Update(u.entries, {}, {}, {})
  {
    var u := UpdateAllowlist(scan, recorded);
    assert u.entries.Keys == scan.orphans;
    assert Kept(scan, u.entries) == u.entries;
    var u' := UpdateAllowlist(scan, u.entries);
    assert u'.added == {} && u'.dead == {} && u'.stale == {};
    assert u'.entries == u.entries;
  }

  lemma TodoIsHollow()
    ensures Hollow(TODO_REASON)
  {
    var s := TODO_REASON;
    assert !IsSpace(s[0]) && !IsSpace(s[|s| - 1]);
    assert LStrip(s, IsSpace) == s;
    assert RStrip(s, IsSpace) == s;
    assert s[..4] == "TODO: reason required"[..4] == "TODO";
  }

  /** After recording, the gate passes exactly when there is no legacy file, no
      orphan is new, and no surviving reason is hollow. */
  lemma GateAfterUpdate(scan: Scan, recorded: Allowlist)
    requires scan.orphans <= scan.files
    ensures Clean(scan, UpdateAllowlist(scan, recorded).entries) <==>
            && scan.legacy == [] && scan.orphans <= recorded.Keys
            && forall p :: p in scan.orphans ==> !Hollow(recorded[p])
  {
    var u := UpdateAllowlist(scan, recorded);
    UpdatePartitions(scan, recorded);
    TodoIsHollow();
    forall p | p in scan.orphans
      ensures u.entries[p] == if p in recorded then recorded[p] else TODO_REASON
    {
    }
  }

  /** Recording on top of a passing commit gives a commit that passes both checks
      exactly when it has no legacy file and no orphan the old one did not have:
      recording can follow a shrinking tree and can never excuse a growing one. */
  lemma UpdateThenRatchet(before: Commit, scan: Scan)
    requires GatePasses(before.scan, before.baseline) && scan.orphans <= scan.files
    ensures var entries := UpdateAllowlist(scan, before.baseline.entries).entries;
            && (GatePasses(scan, Entries(entries)) && CheckGrowth(HeadOf(before.baseline), entries) == 0
                <==> scan.legacy == [] && scan.orphans <= before.scan.orphans)
            && (CheckGrowth(HeadOf(before.baseline), entries) == 0 <==> scan.orphans <= before.scan.orphans)
  {
    var recorded := before.baseline.entries;
    var entries := UpdateAllowlist(scan, recorded).entries;
    UpdatePartitions(scan, recorded);
    GateAfterUpdate(scan, recorded);
    NothingAdded(entries.Keys, recorded.Keys);
  }

  /** Which reasons a passing gate can hold: no empty one, and none whose first
      letters behind white space are TODO; every other text will do. */
  lemma ReasonsExactly(scan: Scan, entries: Allowlist, path: string)
    requires path in entries
    ensures entries[path] == "" ==> !GatePasses(scan, Entries(entries))
    ensures (exists blank, rest :: SpacesThenTodo(entries[path], blank, rest)) ==> !GatePasses(scan, Entries(entries))
    ensures scan.legacy == [] && entries.Keys == scan.orphans && scan.orphans <= scan.files
            && (forall p :: p in entries && p != path ==> !Hollow(entries[p])) ==>
              (GatePasses(scan, Entries(entries)) <==>
               entries[path] != "" && !(exists blank, rest :: SpacesThenTodo(entries[path], blank, rest)))
  {
    HollowExactly(entries[path]);
    hide Hollow, SpacesThenTodo;
  }

  ghost predicate SpacesThenTodo(reason: string, blank: string, rest: string) {
    reason == blank + "TODO" + rest && forall i :: 0 <= i < |blank| ==> IsSpace(blank[i])
  }

  lemma HollowExactly(reason: string)
    ensures Hollow(reason) <==> reason == "" || exists blank, rest :: SpacesThenTodo(reason, blank, rest)
  {
    hide IsSpace;
    TodoLetters();
    var t := LStrip(reason, IsSpace);
    if reason != "" && "TODO" <= Strip(reason, IsSpace) {
      TodoInFront(reason);
    }
    if blank, rest :| SpacesThenTodo(reason, blank, rest) {
      Assoc(blank, "TODO", rest);
      LStripPadded(blank, "TODO" + rest, IsSpace);
      StripKeepsStart("TODO", rest);
    }
  }

  lemma TodoLetters()
    ensures |"TODO"| == 4 && "TODO"[0] == 'T' && "TODO"[3] == 'O' && !IsSpace('T') && !IsSpace('O')
  {
  }

  lemma TodoInFront(reason: string)
    requires "TODO" <= Strip(reason, IsSpace)
    ensures exists blank, rest :: SpacesThenTodo(reason, blank, rest)
  {
    hide IsSpace;
    var t := LStrip(reason, IsSpace);
    var blank := Front(reason);
    RStripIsPrefix(t);
    assert reason == blank + "TODO" + t[4..];
    assert SpacesThenTodo(reason, blank, t[4..]);
  }

  lemma {:induction false} RStripIsPrefix(s: string)
    ensures RStrip(s, IsSpace) <= s
  {
    hide IsSpace;
    if s != "" && IsSpace(s[|s| - 1]) {
      RStripIsPrefix(s[..|s| - 1]);
    }
  }

  lemma {:induction false} Front(s: string) returns (blank: string)
    ensures s == blank + LStrip(s, IsSpace) && forall i :: 0 <= i < |blank| ==> IsSpace(blank[i])
  {
    hide IsSpace;
    if s != "" && IsSpace(s[0]) {
      var more := Front(s[1..]);
      blank := [s[0]] + more;
      Assoc([s[0]], more, LStrip(s[1..], IsSpace));
      assert s == [s[0]] + s[1..];
    } else {
      blank := "";
    }
  }

  lemma {:induction false} StripKeepsStart(a: string, b: string)
    requires a != "" && !IsSpace(a[|a| - 1])
    ensures a <= RStrip(a + b, IsSpace)
  {
    hide IsSpace;
    if b == "" {
      assert a + b == a;
    } else if IsSpace(b[|b| - 1]) {
      StripKeepsStart(a, b[..|b| - 1]);
      assert (a + b)[..|a + b| - 1] == a + b[..|b| - 1];
    }
  }
}
