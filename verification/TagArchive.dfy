/** Archiving the staging restore points and then deleting them
    (scripts/archive_staging_tags.py: `make_tag_tree_archives`, `run_delete`,
    and the archive branch of `main`). */
module TagArchive {
  import opened Text
  import opened TagManifest
  import opened ManifestFlip
  import opened DirTree

  const TAG_PREFIX := "backup-staging-"
  const DIR_PREFIX := "staging_"
  const ARCHIVE_PREFIX := "w06-s5-archive"

  /** Everything the tool touches: the repository's tags, the directories there
      are, and the manifest's text. */
  datatype World = World(tags: set<string>, dirs: set<Path>, manifest: string)

  /** `discover_tags` and `discover_backup_dirs`, as sets */
  function LocalTags(tags: set<string>): set<string> { set t | t in tags && TAG_PREFIX <= t }

  lemma LocalTagsExist(tags: set<string>)
    ensures LocalTags(tags) <= tags
  {
  }

  function BackupDirs(root: Path, dirs: set<Path>): set<string> {
    set d | d in dirs && |d| == |root| + 1 && root <= d && DIR_PREFIX <= d[|root|] :: d[|root|]
  }

  function Names(rows: seq<Parsed>): seq<string> {
    seq(|rows|, i requires 0 <= i < |rows| => rows[i].name)
  }

  lemma ElementsSnoc(ss: seq<string>, i: nat)
    requires i < |ss|
    ensures Elements(ss[..0]) == {} && Elements(ss[..i + 1]) == Elements(ss[..i]) + {ss[i]}
    ensures ss[i] in Elements(ss) && (ss[i] in ss[..i] <==> ss[i] in Elements(ss[..i]))
  {
    assert ss[..i + 1] == ss[..i] + [ss[i]];
  }

  lemma NoElements()
    ensures Elements([]) == {}
  {
  }

  lemma SomeMissing(rows: seq<Parsed>, tags: set<string>)
    ensures (exists i :: 0 <= i < |rows| && rows[i].name !in tags) <==> !(Elements(Names(rows)) <= tags)
  {
    var names := Names(rows);
    if i :| 0 <= i < |rows| && rows[i].name !in tags {
      assert names[i] in Elements(names);
    }
  }

  // ------------------------------------------------------------------- deleting

  datatype DeleteOutcome = Unconfirmed | NoRows | Unverified | TagsMissing | Crashed | Deleted

  /** How many names come before the first repeated one. */
  function DistinctPrefix(names: seq<string>, i: nat := 0): (n: nat)
    requires i <= |names|
    ensures i <= n <= |names|
    decreases |names| - i
  {
    if i == |names| || names[i] in names[..i] then i else DistinctPrefix(names, i + 1)
  }

  function DeleteSpec(root: Path, w: World, confirm: bool): (World, DeleteOutcome) {
    var rows := ParseRows(w.manifest);
    var names := Names(rows.tags);
    if !confirm then (w, Unconfirmed)
    else if rows.tags == [] && rows.backups == [] then (w, NoRows)
    else if exists m: Parsed :: m in rows.tags + rows.backups && m.verified != "yes" then (w, Unverified)
    else if !(Elements(names) <= LocalTags(w.tags)) then (w, TagsMissing)
    else
      var k := DistinctPrefix(names);
      // `git tag -d` fails on a tag that an earlier row has already deleted
      if k < |names| then (w.(tags := w.tags - Elements(names[..k])), Crashed)
      else
        var left := SweepAll(root, w.dirs, Names(rows.backups));
        if !left.whole then (World(w.tags - Elements(names), left.dirs, w.manifest), Crashed)
        else (World(w.tags - Elements(names), left.dirs, Replace(w.manifest, FLAG_NO, FLAG_YES)), Deleted)
  }

  datatype Tarball = Tarball(sha: string, size: nat)

  /** What the store answered: the ETag without quotes, and whether the size that
      it holds is the size that was sent. */
  datatype Upload = Upload(etag: string, ok: bool)

  datatype Archive = Archive(key: string, tarball: Tarball)

  class Tool {
    const root: Path
    var tags: set<string>
    var dirs: set<Path>
    var manifest: string

    constructor (root: Path, tags: set<string>, dirs: set<Path>, manifest: string)
      ensures this.root == root && Contents() == World(tags, dirs, manifest)
    {
      this.root, this.tags, this.dirs, this.manifest := root, tags, dirs, manifest;
    }

    function Contents(): World
      reads this
    {
      World(tags, dirs, manifest)
    }

    /** `run_delete` */
    method RunDelete(confirm: bool) returns (outcome: DeleteOutcome)
      modifies this
      ensures (Contents(), outcome) == DeleteSpec(root, old(Contents()), confirm)
    {
      hide ParseRows, Replace, LocalTags, Elements, Sweep;
      LocalTagsExist(tags);
      NoElements();
      if !confirm {
        return Unconfirmed;
      }
      var tagRows, backupRows := ParseManifest(manifest);
      if tagRows == [] && backupRows == [] {
        return NoRows;
      }
      if exists m: Parsed :: m in tagRows + backupRows && m.verified != "yes" {
        return Unverified;
      }
      ghost var names, backupNames := Names(tagRows), Names(backupRows);
      SomeMissing(tagRows, LocalTags(tags));
      if exists i :: 0 <= i < |tagRows| && tagRows[i].name !in LocalTags(tags) {
        return TagsMissing;
      }
      assert names[..0] == [] == backupNames[..0] && names[..|names|] == names;
      for i := 0 to |tagRows|
        invariant tags == old(tags) - Elements(names[..i])
        invariant dirs == old(dirs) && manifest == old(manifest)
        invariant DistinctPrefix(names) == DistinctPrefix(names, i)
      {
        ElementsSnoc(names, i);
        if tagRows[i].name !in tags {
          return Crashed;
        }
        tags := tags - {tagRows[i].name};
      }
      for i := 0 to |backupRows|
        invariant tags == old(tags) - Elements(names) && manifest == old(manifest)
        invariant SweepAll(root, old(dirs), backupNames[..i]) == Swept(dirs, true)
      {
        SweepSnoc(root, old(dirs), backupNames, i);
        var left := Sweep(root, dirs, backupRows[i].name);
        dirs := left.dirs;
        if !left.whole {
          SweepFailed(root, old(dirs), backupNames, i + 1);
          return Crashed;
        }
      }
      assert backupNames[..|backupNames|] == backupNames;
      manifest := Replace(manifest, FLAG_NO, FLAG_YES);
      return Deleted;
    }

    /** The archive branch of `main`: the manifest is written only when there was
        something to archive and every upload verified. */
    method RunArchive(bucket: string, commitOf: string -> string, tarball: string -> Tarball,
                      dirTarball: string -> Tarball, uploads: nat -> Upload)
      returns (code: nat, ghost tagRows: seq<TagRow>, ghost backupRows: seq<BackupRow>)
      requires OneFormat(LocalTags(tags), commitOf)
      modifies this`manifest
      ensures code == 0 <==> && LocalTags(tags) + BackupDirs(root, dirs) != {}
                             && AllVerified(uploads, |LocalTags(tags)| + |BackupDirs(root, dirs)|)
      ensures code != 0 ==> manifest == old(manifest)
      ensures code == 0 ==> manifest == BuildManifest(bucket, tagRows, backupRows, false)
      ensures code == 0 ==> Archived(LocalTags(tags), BackupDirs(root, dirs), tagRows, backupRows,
                                     commitOf, tarball, dirTarball, uploads)
      ensures code == 0 ==> KeysApart(tagRows, backupRows)
    {
      tagRows, backupRows := [], [];
      if LocalTags(tags) == {} && BackupDirs(root, dirs) == {} {
        return 1, tagRows, backupRows;
      }
      var ok, tagLines, backupLines :=
        ArchiveAll(LocalTags(tags), BackupDirs(root, dirs), commitOf, tarball, dirTarball, uploads);
      if !ok {
        return 1, tagRows, backupRows;
      }
      manifest := BuildManifest(bucket, tagLines, backupLines, false);
      code, tagRows, backupRows := 0, tagLines, backupLines;
    }
  }

  // ------------------------------------------------------------------ archiving

  /** A full commit hash, as `git rev-parse` prints it. */
  predicate CommitHash(c: string) {
    c != "" && forall i :: 0 <= i < |c| ==> IsDigit(c[i]) || 'a' <= c[i] <= 'f'
  }

  /** All hashes of a repository have the length of its hash function. */
  ghost predicate OneFormat(tags: set<string>, commitOf: string -> string) {
    && (forall t :: t in tags ==> CommitHash(commitOf(t)))
    && (forall t, t' :: t in tags && t' in tags ==> |commitOf(t)| == |commitOf(t')|)
  }

  function TagKey(commit: string): string { ARCHIVE_PREFIX + "/tag-tree-" + (commit + ".tar.gz") }

  function DirKey(name: string): string { ARCHIVE_PREFIX + "/" + name + "/backup-dir.tar.gz" }

  ghost predicate TagArchived(r: TagRow, name: string, commitOf: string -> string, tarball: string -> Tarball,
                              upload: Upload)
  {
    var commit := commitOf(name);
    upload.ok && r == TagRow(name, commit, TagKey(commit), tarball(commit).sha, tarball(commit).size, upload.etag)
  }

  ghost predicate BackupArchived(r: BackupRow, name: string, dirTarball: string -> Tarball, upload: Upload) {
    upload.ok && r == BackupRow(name, DirKey(name), dirTarball(name).sha, dirTarball(name).size, upload.etag)
  }

  function TagNames(rows: seq<TagRow>): seq<string> {
    seq(|rows|, i requires 0 <= i < |rows| => rows[i].name)
  }

  function DirNames(rows: seq<BackupRow>): seq<string> {
    seq(|rows|, i requires 0 <= i < |rows| => rows[i].name)
  }

  /** The rows list exactly the local tags and backup directories, each with the
      archive of its own commit or directory and an upload that verified. */
  ghost predicate Archived(local: set<string>, dirs: set<string>, tags: seq<TagRow>, backups: seq<BackupRow>,
                           commitOf: string -> string, tarball: string -> Tarball, dirTarball: string -> Tarball,
                           uploads: nat -> Upload)
  {
    && StrictlySorted(TagNames(tags)) && (forall n :: n in TagNames(tags) <==> n in local)
    && StrictlySorted(DirNames(backups)) && (forall n :: n in DirNames(backups) <==> n in dirs)
    && (forall i :: 0 <= i < |tags| ==> TagArchived(tags[i], tags[i].name, commitOf, tarball, uploads(i)))
    && (forall i :: 0 <= i < |backups| ==> BackupArchived(backups[i], backups[i].name, dirTarball, uploads(|tags| + i)))
  }

  /** No upload overwrites another: rows share a key only as tags of one commit. */
  ghost predicate KeysApart(tags: seq<TagRow>, backups: seq<BackupRow>) {
    && (forall i, j :: 0 <= i < |tags| && 0 <= j < |tags| && tags[i].key == tags[j].key ==>
                         tags[i].commit == tags[j].commit)
    && (forall i, j :: 0 <= i < j < |backups| ==> backups[i].key != backups[j].key)
    && (forall i, j :: 0 <= i < |tags| && 0 <= j < |backups| ==> tags[i].key != backups[j].key)
  }

  lemma TagKeyShape(commit: string)
    ensures TagKey(commit) == "w06-s5-archive/" + ("tag-tree-" + commit + ".tar.gz")
  {
  }

  lemma DirKeyShape(name: string)
    ensures DirKey(name) == "w06-s5-archive/" + (name + "/backup-dir.tar.gz")
  {
  }

  lemma SameMiddle(a: string, x: string, y: string, b: string)
    requires a + x + b == a + y + b
    ensures x == y
  {
    assert |x| == |y|;
    assert x == (a + x + b)[|a|..|a| + |x|] && y == (a + y + b)[|a|..|a| + |y|];
  }

  /** One commit, one key; one directory, one key; and a directory's key is never
      a commit's, since it has one more slash. */
  lemma KeysDiffer(c: string, c': string, n: string, n': string)
    requires '/' !in c
    ensures TagKey(c) == TagKey(c') ==> c == c'
    ensures DirKey(n) == DirKey(n') ==> n == n'
    ensures TagKey(c) != DirKey(n)
  {
    hide TagKey, DirKey;
    TagKeyShape(c);
    TagKeyShape(c');
    DirKeyShape(n);
    DirKeyShape(n');
    if TagKey(c) == TagKey(c') {
      Assoc("w06-s5-archive/", "tag-tree-" + c, ".tar.gz");
      Assoc("w06-s5-archive/", "tag-tree-", c);
      Assoc("w06-s5-archive/", "tag-tree-" + c', ".tar.gz");
      Assoc("w06-s5-archive/", "tag-tree-", c');
      SameMiddle("w06-s5-archive/" + "tag-tree-", c, c', ".tar.gz");
    }
    if DirKey(n) == DirKey(n') {
      Assoc("w06-s5-archive/", n, "/backup-dir.tar.gz");
      Assoc("w06-s5-archive/", n', "/backup-dir.tar.gz");
      SameMiddle("w06-s5-archive/", n, n', "/backup-dir.tar.gz");
    }
    SlashInDirKey(n);
    NoSlashInTagKey(c);
    if TagKey(c) == DirKey(n) {
      SameTail("w06-s5-archive/", "tag-tree-" + c + ".tar.gz", n + "/backup-dir.tar.gz");
    }
  }

  lemma SameTail(a: string, x: string, y: string)
    requires a + x == a + y
    ensures x == y
  {
    assert x == (a + x)[|a|..] && y == (a + y)[|a|..];
  }

  lemma SlashInDirKey(n: string)
    ensures '/' in n + "/backup-dir.tar.gz"
  {
    assert (n + "/backup-dir.tar.gz")[|n|] == '/';
  }

  lemma NoSlashInTagKey(c: string)
    requires '/' !in c
    ensures '/' !in "tag-tree-" + c + ".tar.gz"
  {
    assert '/' !in "tag-tree-" && '/' !in ".tar.gz";
  }

  /** When archiving succeeds, no stored archive has been overwritten. */
  lemma ArchivedKeysApart(local: set<string>, dirs: set<string>, tags: seq<TagRow>, backups: seq<BackupRow>,
                          commitOf: string -> string, tarball: string -> Tarball, dirTarball: string -> Tarball,
                          uploads: nat -> Upload)
    requires Archived(local, dirs, tags, backups, commitOf, tarball, dirTarball, uploads)
    requires OneFormat(local, commitOf)
    ensures KeysApart(tags, backups)
  {
    hide TagKey, DirKey, Less;
    forall i | 0 <= i < |tags| ensures tags[i].key == TagKey(tags[i].commit) && '/' !in tags[i].commit {
      assert TagNames(tags)[i] in local;
      assert TagArchived(tags[i], tags[i].name, commitOf, tarball, uploads(i));
      HashHasNoSlash(tags[i].commit);
    }
    forall i | 0 <= i < |backups| ensures backups[i].key == DirKey(backups[i].name) {
      assert BackupArchived(backups[i], backups[i].name, dirTarball, uploads(|tags| + i));
    }
    forall i, j | 0 <= i < |tags| && 0 <= j < |tags| && tags[i].key == tags[j].key
      ensures tags[i].commit == tags[j].commit
    {
      KeysDiffer(tags[i].commit, tags[j].commit, "", "");
    }
    forall i, j | 0 <= i < |tags| && 0 <= j < |backups| ensures tags[i].key != backups[j].key {
      KeysDiffer(tags[i].commit, "", backups[j].name, "");
    }
    forall i, j | 0 <= i < j < |backups| ensures backups[i].key != backups[j].key {
      assert Less(DirNames(backups)[i], DirNames(backups)[j]);
      LessTotal(backups[i].name, backups[j].name);
      KeysDiffer("", "", backups[i].name, backups[j].name);
    }
  }

  lemma HashHasNoSlash(c: string)
    requires CommitHash(c)
    ensures '/' !in c
  {
  }

  /** Every key is below the prefix that the manifest announces. */
  lemma KeysUnderPrefix(destination: string, commit: string, name: string)
    ensures "- prefix: ``" + "w06-s5-archive/" + "``" in Preamble(destination)
    ensures "w06-s5-archive/" <= TagKey(commit) && "w06-s5-archive/" <= DirKey(name)
  {
    TagKeyShape(commit);
    DirKeyShape(name);
    PrefixLine();
    assert Preamble(destination)[10] == "- prefix: ``w06-s5-archive/``";
  }

  lemma PrefixLine()
    ensures "- prefix: ``" + "w06-s5-archive/" + "``" == "- prefix: ``w06-s5-archive/``"
  {
  }

  /** What the tool takes for a restore point: by literal prefix, directly in the
      backups directory. */
  lemma DiscoveredExactly(tags: set<string>, root: Path, dirs: set<Path>, name: string)
    ensures name in LocalTags(tags) <==> name in tags && exists rest :: name == "backup-staging-" + rest
    ensures name in BackupDirs(root, dirs) <==> root + [name] in dirs && exists rest :: name == "staging_" + rest
  {
    PrefixedBy("backup-staging-", name);
    PrefixedBy("staging_", name);
    if name in BackupDirs(root, dirs) {
      var d :| d in dirs && |d| == |root| + 1 && root <= d && DIR_PREFIX <= d[|root|] && d[|root|] == name;
      assert d == root + [name];
    }
    if root + [name] in dirs {
      assert (root + [name])[|root|] == name && root <= root + [name];
    }
  }

  lemma PrefixedBy(p: string, s: string)
    ensures p <= s <==> exists rest :: s == p + rest
  {
    if p <= s {
      assert s == p + s[|p|..];
    }
  }

  ghost predicate AllVerified(uploads: nat -> Upload, n: nat) {
    forall k :: 0 <= k < n ==> uploads(k).ok
  }

  /** One upload per tag and then one per directory, in sorted order. */
  method ArchiveAll(local: set<string>, dirs: set<string>, commitOf: string -> string, tarball: string -> Tarball,
                    dirTarball: string -> Tarball, uploads: nat -> Upload)
    returns (ok: bool, tagRows: seq<TagRow>, backupRows: seq<BackupRow>)
    requires OneFormat(local, commitOf)
    ensures ok <==> AllVerified(uploads, |local| + |dirs|)
    ensures ok ==> Archived(local, dirs, tagRows, backupRows, commitOf, tarball, dirTarball, uploads)
    ensures ok ==> KeysApart(tagRows, backupRows)
  {
    hide KeysApart, OneFormat, FindsOwn, Matching, TagKey, DirKey, Dedup, ArchivesOf, Less;
    var tagNames := Sorted(local);
    var dirNames := Sorted(dirs);
    SortedSize(tagNames, local);
    SortedSize(dirNames, dirs);
    var archives := MakeTagTreeArchives(tagNames, commitOf, tarball);
    assert Elements(tagNames) == local;
    AllFindOwn(archives, tagNames, commitOf, tarball);
    backupRows := [];
    ok, tagRows := UploadTags(archives, tagNames, commitOf, tarball, uploads);
    if !ok {
      return;
    }
    ok, backupRows := UploadDirs(dirNames, |tagNames|, dirTarball, uploads);
    assert TagNames(tagRows) == tagNames;
    assert ok ==> DirNames(backupRows) == dirNames;
    if ok {
      ArchivedKeysApart(local, dirs, tagRows, backupRows, commitOf, tarball, dirTarball, uploads);
    }
  }

  /** The distinct commits of the tags, first seen first. */
  function Dedup(commits: seq<string>): seq<string> {
    if commits == [] then []
    else
      var init, last := Dedup(commits[..|commits| - 1]), commits[|commits| - 1];
      if last in init then init else init + [last]
  }

  function Commits(tags: seq<string>, commitOf: string -> string): seq<string> {
    seq(|tags|, i requires 0 <= i < |tags| => commitOf(tags[i]))
  }

  function ArchivesOf(commits: seq<string>, tarball: string -> Tarball): seq<Archive> {
    seq(|commits|, i requires 0 <= i < |commits| => Archive(TagKey(commits[i]), tarball(commits[i])))
  }

  /** Every commit is archived, and none of them twice. */
  lemma {:induction false} DedupExactly(commits: seq<string>)
    ensures forall c :: c in Dedup(commits) <==> c in commits
    ensures forall i, j :: 0 <= i < j < |Dedup(commits)| ==> Dedup(commits)[i] != Dedup(commits)[j]
  {
    if commits != [] {
      var init, last := commits[..|commits| - 1], commits[|commits| - 1];
      DedupExactly(init);
      assert commits == init + [last];
    }
  }

  /** `make_tag_tree_archives` */
  method MakeTagTreeArchives(tags: seq<string>, commitOf: string -> string, tarball: string -> Tarball)
    returns (archives: seq<Archive>)
    ensures archives == ArchivesOf(Dedup(Commits(tags, commitOf)), tarball)
  {
    archives := [];
    var seen: seq<string> := [];
    for i := 0 to |tags|
      invariant seen == Dedup(Commits(tags[..i], commitOf)) && archives == ArchivesOf(seen, tarball)
    {
      var commit := commitOf(tags[i]);
      assert Commits(tags[..i + 1], commitOf)[..i] == Commits(tags[..i], commitOf);
      if commit in seen {
        continue;
      }
      seen := seen + [commit];
      archives := archives + [Archive(TagKey(commit), tarball(commit))];
    }
    assert tags[..|tags|] == tags;
  }

  /** The upload loop over the tags; it stops at the first failed verification. */
  method UploadTags(archives: seq<Archive>, tags: seq<string>, commitOf: string -> string,
                    tarball: string -> Tarball, uploads: nat -> Upload)
    returns (ok: bool, rows: seq<TagRow>)
    requires forall t :: t in tags ==> FindsOwn(archives, commitOf(t), tarball)
    ensures ok <==> forall i :: 0 <= i < |tags| ==> uploads(i).ok
    ensures ok ==> |rows| == |tags|
    ensures forall i :: 0 <= i < |rows| ==> i < |tags| && TagArchived(rows[i], tags[i], commitOf, tarball, uploads(i))
  {
    rows := [];
    for i := 0 to |tags|
      invariant |rows| == i
      invariant forall j :: 0 <= j < i ==> TagArchived(rows[j], tags[j], commitOf, tarball, uploads(j))
    {
      var commit := commitOf(tags[i]);
      assert tags[i] in tags;
      var found := Matching(archives, commit)[0];
      var upload := uploads(i);
      if !upload.ok {
        return false, rows;
      }
      rows := rows + [TagRow(tags[i], commit, found.key, found.tarball.sha, found.tarball.size, upload.etag)];
    }
    ok := true;
  }

  /** The upload loop over the backup directories, after `first` earlier uploads. */
  method UploadDirs(dirs: seq<string>, first: nat, dirTarball: string -> Tarball, uploads: nat -> Upload)
    returns (ok: bool, rows: seq<BackupRow>)
    ensures ok <==> forall k :: first <= k < first + |dirs| ==> uploads(k).ok
    ensures ok ==> |rows| == |dirs|
    ensures forall i :: 0 <= i < |rows| ==>
                          i < |dirs| && BackupArchived(rows[i], dirs[i], dirTarball, uploads(first + i))
  {
    rows := [];
    for i := 0 to |dirs|
      invariant |rows| == i
      invariant forall k :: first <= k < first + i ==> uploads(k).ok
      invariant forall j :: 0 <= j < i ==> BackupArchived(rows[j], dirs[j], dirTarball, uploads(first + j))
    {
      var upload := uploads(first + i);
      if !upload.ok {
        return false, rows;
      }
      var t := dirTarball(dirs[i]);
      rows := rows + [BackupRow(dirs[i], DirKey(dirs[i]), t.sha, t.size, upload.etag)];
    }
    ok := true;
  }

  /** The archives whose key ends with the commit's file name. */
  function Matching(archives: seq<Archive>, commit: string): seq<Archive> {
    if archives == [] then []
    else (if EndsWith(archives[0].key, commit + ".tar.gz") then [archives[0]] else []) + Matching(archives[1..], commit)
  }

  lemma {:induction false} MatchingExactly(archives: seq<Archive>, commit: string)
    ensures forall a :: a in Matching(archives, commit) <==> a in archives && EndsWith(a.key, commit + ".tar.gz")
  {
    if archives != [] {
      MatchingExactly(archives[1..], commit);
      assert archives == [archives[0]] + archives[1..];
    }
  }

  lemma KeyOfOneCommit(c: string, c': string)
    requires |c| == |c'|
    ensures EndsWith(TagKey(c), c' + ".tar.gz") <==> c == c'
  {
    var key, tail := TagKey(c), c + ".tar.gz";
    assert key[|key| - |tail|..] == tail;
    assert tail[..|c|] == c && (c' + ".tar.gz")[..|c|] == c';
  }

  /** The lookup by suffix gives the commit's own archive. */
  ghost predicate FindsOwn(archives: seq<Archive>, commit: string, tarball: string -> Tarball) {
    Matching(archives, commit) != [] && Matching(archives, commit)[0] == Archive(TagKey(commit), tarball(commit))
  }

  lemma AllFindOwn(archives: seq<Archive>, tags: seq<string>, commitOf: string -> string, tarball: string -> Tarball)
    requires archives == ArchivesOf(Dedup(Commits(tags, commitOf)), tarball)
    requires OneFormat(Elements(tags), commitOf)
    ensures forall t :: t in tags ==> FindsOwn(archives, commitOf(t), tarball)
  {
    forall t | t in tags ensures FindsOwn(archives, commitOf(t), tarball) {
      var i :| 0 <= i < |tags| && tags[i] == t;
      assert Commits(tags, commitOf)[i] == commitOf(t);
      OwnArchive(archives, tags, commitOf, tarball, commitOf(t));
      assert Matching(archives, commitOf(t))[0] in Matching(archives, commitOf(t));
    }
  }

  lemma SameLengths(tags: seq<string>, commitOf: string -> string, commit: string)
    requires OneFormat(Elements(tags), commitOf) && commit in Commits(tags, commitOf)
    ensures forall c :: c in Commits(tags, commitOf) ==> |c| == |commit|
  {
    var commits := Commits(tags, commitOf);
    var k :| 0 <= k < |commits| && commits[k] == commit;
    assert tags[k] in Elements(tags);
    forall c | c in commits ensures |c| == |commit| {
      var i :| 0 <= i < |commits| && commits[i] == c;
      assert tags[i] in Elements(tags);
    }
  }

  /** Full hashes make the suffix lookup find exactly the tag's own archive. */
  lemma OwnArchive(archives: seq<Archive>, tags: seq<string>, commitOf: string -> string, tarball: string -> Tarball,
                   commit: string)
    requires archives == ArchivesOf(Dedup(Commits(tags, commitOf)), tarball)
    requires OneFormat(Elements(tags), commitOf)
    requires commit in Commits(tags, commitOf)
    ensures Matching(archives, commit) != []
    ensures forall a :: a in Matching(archives, commit) ==> a == Archive(TagKey(commit), tarball(commit))
  {
    var commits := Dedup(Commits(tags, commitOf));
    DedupExactly(Commits(tags, commitOf));
    MatchingExactly(archives, commit);
    SameLengths(tags, commitOf, commit);
    var i :| 0 <= i < |commits| && commits[i] == commit;
    KeyOfOneCommit(commit, commit);
    assert archives[i] in archives;
    forall a | a in Matching(archives, commit) ensures a == Archive(TagKey(commit), tarball(commit)) {
      var j :| 0 <= j < |archives| && archives[j] == a;
      assert commits[j] in commits;
      KeyOfOneCommit(commits[j], commit);
    }
  }

  /** A shorter name would also match the archive of a longer one ending in it. */
  lemma ShortCommitIsAmbiguous(head: string, commit: string)
    ensures EndsWith(TagKey(head + commit), commit + ".tar.gz")
  {
    var key, tail := TagKey(head + commit), commit + ".tar.gz";
    assert key == ARCHIVE_PREFIX + "/tag-tree-" + head + tail;
  }

  lemma SortedSize(ss: seq<string>, s: set<string>)
    requires StrictlySorted(ss) && forall x :: x in ss <==> x in s
    ensures |ss| == |s|
  {
    if ss == [] {
      assert s == {};
    } else {
      assert ss[0] in s;
      forall j | 1 <= j < |ss| ensures ss[j] != ss[0] {
        LessTotal(ss[0], ss[j]);
      }
      forall x | x in ss[1..] ensures x in s - {ss[0]} {
        var j :| 0 <= j < |ss[1..]| && ss[1..][j] == x;
        assert x == ss[j + 1];
      }
      assert forall x :: x in ss[1..] <==> x in s - {ss[0]};
      SortedSize(ss[1..], s - {ss[0]});
    }
  }

  // ------------------------------------------------------- archive, then delete

  /** Every listed backup is named by one component of a path. */
  predicate PlainRows(manifest: string) {
    forall m :: m in ParseRows(manifest).backups ==> Component(m.name)
  }

  /** Whatever the manifest holds and however a deletion ends, every removed tag is
      a staging tag with a row marked verified, and every removed directory is at
      or below what such a row's name leads to. When the names are plain, that is
      the entry of that name, so that nothing goes without a row of its own. */
  lemma OnlyVerifiedRowsAreRemoved(root: Path, w: World, confirm: bool)
    ensures var (w', outcome) := DeleteSpec(root, w, confirm); var rows := ParseRows(w.manifest);
            && (forall t :: t in w.tags - w'.tags ==>
                  TAG_PREFIX <= t && exists m :: m in rows.tags && m.name == t && m.verified == "yes")
            && (forall d :: d in w.dirs - w'.dirs ==>
                  exists m :: m in rows.backups && m.verified == "yes" && Target(root, m.name) <= d)
            && (PlainRows(w.manifest) ==>
                  forall d :: d in w.dirs - w'.dirs ==>
                    exists m :: m in rows.backups && m.verified == "yes" && root + [m.name] <= d)
            && (outcome != Deleted ==> w'.manifest == w.manifest)
            && (outcome != Deleted && outcome != Crashed ==> w' == w)
  {
    hide ParseRows, Replace, DistinctPrefix, Target, Component, SweepAll;
    var (w', outcome) := DeleteSpec(root, w, confirm);
    var rows := ParseRows(w.manifest);
    var names, backupNames := Names(rows.tags), Names(rows.backups);
    forall t | t in w.tags - w'.tags
      ensures TAG_PREFIX <= t && exists m :: m in rows.tags && m.name == t && m.verified == "yes"
    {
      assert t in names;
      var i :| 0 <= i < |names| && names[i] == t;
      assert rows.tags[i] in rows.tags + rows.backups;
      assert rows.tags[i] in rows.tags && rows.tags[i].name == t;
      assert t in Elements(names);
    }
    forall d | d in w.dirs - w'.dirs
      ensures exists m :: m in rows.backups && m.verified == "yes" && Target(root, m.name) <= d
                          && (PlainRows(w.manifest) ==> root + [m.name] <= d)
    {
      SweptBelowTarget(root, w.dirs, backupNames, d);
      var n :| n in backupNames && Target(root, n) <= d;
      var i :| 0 <= i < |backupNames| && backupNames[i] == n;
      var m := rows.backups[i];
      assert m in rows.tags + rows.backups;
      if PlainRows(w.manifest) {
        ComponentWay(root, n);
      }
      assert m in rows.backups && m.verified == "yes" && Target(root, m.name) <= d;
    }
  }

  /** A verified row named `..`: everything below the parent of the backups
      directory goes, row or no row, before the removal fails. */
  lemma ParentRowSweepsAll(root: Path, w: World, bucket: string, r: BackupRow)
    requires root != [] && root in w.dirs && root[..|root| - 1] in w.dirs
    requires PrintableBackup(r) && r.name == ".." && r.etag != ""
    requires w.manifest == BuildManifest(bucket, [], [r], false)
    ensures var parent := root[..|root| - 1];
            DeleteSpec(root, w, true) ==
            (w.(dirs := set d | d in w.dirs && !StrictlyBelow(parent, d)), Crashed)
  {
    hide ParseRows, BuildManifest, LocalTags, Replace, PrintableBackup, Sweep;
    ParsePrinted(bucket, [], [r], false);
    OneEntry(r);
    var rows := ParseRows(w.manifest);
    var m := BackupGroups(r, "no");
    assert rows.tags == [] && rows.backups == [m];
    assert Names(rows.tags) == [] && Names(rows.backups) == [".."] && [".."][..0] == [];
    assert Elements(Names(rows.tags)) == {};
    assert SweepAll(root, w.dirs, [".."]) == Sweep(root, w.dirs, "..");
    ParentSwept(root, w.dirs);
    assert w.tags - {} == w.tags;
  }

  lemma ParentSwept(root: Path, dirs: set<Path>)
    requires root != [] && root in dirs && root[..|root| - 1] in dirs
    ensures Sweep(root, dirs, "..") == Swept(set d | d in dirs && !StrictlyBelow(root[..|root| - 1], d), false)
  {
    var parent := root[..|root| - 1];
    SplitFirst("..", '/', "");
    assert Split("..", '/') == [".."] && [".."][1..] == [];
    assert Walk(parent, []) == [] && Walk(root, [".."]) == [parent];
    assert Visited(root, "..") == [root, parent];
    assert root in Visited(root, "..") && StrictlyBelow(parent, root);
  }

  lemma OneEntry(r: BackupRow)
    requires r.etag != ""
    ensures WithEtag(BackupEntries([r], "no")) == [BackupGroups(r, "no")]
    ensures WithEtag(TagEntries([], "no")) == []
  {
    var e := BackupEntries([r], "no");
    assert |e| == 1 && WithEtag(e[..0]) == [];
  }

  ghost predicate Distinct(names: seq<string>) {
    forall i, j :: 0 <= i < j < |names| ==> names[i] != names[j]
  }

  lemma {:induction false} DistinctPrefixExactly(names: seq<string>, i: nat)
    requires i <= |names| && Distinct(names[..i])
    ensures DistinctPrefix(names, i) == |names| <==> Distinct(names)
    decreases |names| - i
  {
    if i == |names| {
      assert names[..i] == names;
    } else if names[i] in names[..i] {
      var j :| 0 <= j < i && names[..i][j] == names[i];
      assert names[j] == names[i];
    } else {
      assert names[..i + 1] == names[..i] + [names[i]];
      forall j | 0 <= j < i ensures names[j] != names[i] {
        assert names[..i][j] == names[j];
      }
      DistinctPrefixExactly(names, i + 1);
    }
  }

  /** The guards of a confirmed deletion: there are rows, all of them are marked
      verified, and every listed tag is there. */
  predicate Accepted(w: World) {
    var rows := ParseRows(w.manifest);
    && (rows.tags != [] || rows.backups != [])
    && (forall m: Parsed :: m in rows.tags + rows.backups ==> m.verified == "yes")
    && Elements(Names(rows.tags)) <= LocalTags(w.tags)
  }

  /** A confirmed deletion runs to its end exactly when its guards let it start,
      the manifest lists no tag twice, and no name leads through what it removes;
      plain names never do. Otherwise it stops half way, and the manifest still
      says that nothing was deleted. */
  lemma DeletionCompletes(root: Path, w: World)
    ensures var rows := ParseRows(w.manifest); var (w', outcome) := DeleteSpec(root, w, true);
            var runs := Distinct(Names(rows.tags)) && SweepAll(root, w.dirs, Names(rows.backups)).whole;
            && (outcome == Deleted <==> Accepted(w) && runs)
            && (outcome == Crashed <==> Accepted(w) && !runs)
            && (outcome == Crashed ==> w'.manifest == w.manifest)
            && (outcome == Crashed && !Distinct(Names(rows.tags)) ==> w'.dirs == w.dirs)
            && (PlainRows(w.manifest) ==> SweepAll(root, w.dirs, Names(rows.backups)).whole)
  {
    hide ParseRows, LocalTags, Replace, SweepAll, Component;
    var rows := ParseRows(w.manifest);
    var names := Names(rows.tags);
    assert names[..0] == [];
    DistinctPrefixExactly(names, 0);
    if PlainRows(w.manifest) {
      PlainIsWhole(root, w.dirs, Names(rows.backups));
    }
  }

  lemma {:induction false} PlainIsWhole(root: Path, dirs: set<Path>, names: seq<string>)
    requires forall n :: n in names ==> Component(n)
    ensures SweepAll(root, dirs, names).whole
  {
    hide Component, Visited, Exists;
    if names != [] {
      PlainIsWhole(root, dirs, names[..|names| - 1]);
      ComponentWay(root, names[|names| - 1]);
    }
  }

  /** When a deletion refuses, and that it then does nothing. */
  lemma DeleteRefusals(root: Path, w: World)
    ensures DeleteSpec(root, w, false) == (w, Unconfirmed)
    ensures var rows := ParseRows(w.manifest); var outcome := DeleteSpec(root, w, true).1;
            var verified := forall m: Parsed :: m in rows.tags + rows.backups ==> m.verified == "yes";
            && outcome != Unconfirmed
            && (outcome == NoRows <==> rows.tags == [] && rows.backups == [])
            && (outcome == Unverified <==> outcome != NoRows && !verified)
            && (outcome == TagsMissing <==> outcome != NoRows && verified
                                            && exists m :: m in rows.tags && m.name !in LocalTags(w.tags))
  {
    hide ParseRows, LocalTags, Replace, SweepAll;
    var rows := ParseRows(w.manifest);
    SomeMissing(rows.tags, LocalTags(w.tags));
    if m :| m in rows.tags && m.name !in LocalTags(w.tags) {
      var i :| 0 <= i < |rows.tags| && rows.tags[i] == m;
      assert rows.tags[i].name !in LocalTags(w.tags);
    }
  }

  /** The smallest manifest that shows it: one staging tag printed twice. */
  lemma RepeatedTagCrashes(root: Path, w: World, bucket: string, r: TagRow)
    requires PrintableTag(r) && r.etag != "" && r.name in LocalTags(w.tags)
    requires w.manifest == BuildManifest(bucket, [r, r], [], false)
    ensures DeleteSpec(root, w, true) == (w.(tags := w.tags - {r.name}), Crashed)
  {
    hide ParseRows, BuildManifest, LocalTags, Replace, PrintableTag;
    var m := TagGroups(r, "no");
    ParsePrinted(bucket, [r, r], [], false);
    TwoEntries(r);
    var rows := ParseRows(w.manifest);
    assert rows.tags == [m, m] && rows.backups == [];
    var names := Names(rows.tags);
    assert names == [r.name, r.name];
    assert forall n :: n in Elements(names) <==> n == r.name;
    assert names[..0] == [] && names[..1] == [r.name];
    assert DistinctPrefix(names) == DistinctPrefix(names, 1) == 1;
    assert Elements(names[..1]) == {r.name};
  }

  lemma TwoEntries(r: TagRow)
    requires r.etag != ""
    ensures WithEtag(TagEntries([r, r], "no")) == [TagGroups(r, "no"), TagGroups(r, "no")]
    ensures WithEtag(BackupEntries([], "no")) == []
  {
    var e := TagEntries([r, r], "no");
    assert |e| == 2 && e[..1][..0] == [];
    assert WithEtag(e[..1]) == [TagGroups(r, "no")];
  }

  lemma {:induction false} SortedNamesAreDistinct(names: seq<string>, i: nat)
    requires StrictlySorted(names) && i <= |names|
    ensures DistinctPrefix(names, i) == |names|
    decreases |names| - i
  {
    if i < |names| {
      forall j | 0 <= j < i ensures names[j] != names[i] {
        LessTotal(names[j], names[i]);
      }
      SortedNamesAreDistinct(names, i + 1);
    }
  }

  /** The rows that are read back from sorted entries are sorted, and are the
      entries with an ETag. */
  lemma {:induction false} ReadNames(entries: seq<Entry>)
    requires forall i, j :: 0 <= i < j < |entries| ==> Less(entries[i].groups.name, entries[j].groups.name)
    ensures StrictlySorted(Names(WithEtag(entries)))
    ensures forall m :: m in WithEtag(entries) <==>
                        exists i :: 0 <= i < |entries| && entries[i].groups == m && m.etag != ""
  {
    if entries != [] {
      var init, last := entries[..|entries| - 1], entries[|entries| - 1];
      ReadNames(init);
      var r := WithEtag(init);
      forall i | 0 <= i < |r| ensures Less(r[i].name, last.groups.name) {
        assert r[i] in r;
        var k :| 0 <= k < |init| && init[k].groups == r[i];
        assert entries[k] == init[k];
      }
      var names, names' := Names(WithEtag(entries)), Names(r);
      assert forall i :: 0 <= i < |r| ==> names[i] == names'[i];
      forall m
        ensures m in WithEtag(entries) <==> exists i :: 0 <= i < |entries| && entries[i].groups == m && m.etag != ""
      {
        if m in r {
          var i :| 0 <= i < |init| && init[i].groups == m && m.etag != "";
          assert entries[i].groups == m;
        }
        if i :| 0 <= i < |entries| && entries[i].groups == m && m.etag != "" {
          if i < |init| {
            assert init[i].groups == m;
          }
        }
      }
    }
  }

  function TagsWithEtag(rows: seq<TagRow>): set<string> {
    set i | 0 <= i < |rows| && rows[i].etag != "" :: rows[i].name
  }

  function DirsWithEtag(rows: seq<BackupRow>): set<string> {
    set i | 0 <= i < |rows| && rows[i].etag != "" :: rows[i].name
  }

  /** What git, the file system and the store answer: names and ETags without
      white space, and real hashes. An ETag may be missing. */
  ghost predicate CleanData(local: set<string>, dirs: set<string>, commitOf: string -> string,
                            tarball: string -> Tarball, dirTarball: string -> Tarball, uploads: nat -> Upload)
  {
    && OneFormat(local, commitOf)
    && (forall t :: t in local ==> Word(t) && Hash64(tarball(commitOf(t)).sha))
    && (forall d :: d in dirs ==> Word(d) && Component(d) && Hash64(dirTarball(d).sha))
    && (forall k: nat :: uploads(k).etag == "" || Word(uploads(k).etag))
  }

  lemma CleanCommits(local: set<string>, dirs: set<string>, commitOf: string -> string,
                     tarball: string -> Tarball, dirTarball: string -> Tarball, uploads: nat -> Upload)
    requires CleanData(local, dirs, commitOf, tarball, dirTarball, uploads)
    ensures OneFormat(local, commitOf)
  {
  }

  lemma CommitIsWord(c: string)
    requires CommitHash(c)
    ensures Word(c)
  {
  }

  lemma KeysAreWords(part: string)
    requires Word(part)
    ensures Word(TagKey(part)) && Word(DirKey(part))
  {
    assert Word(ARCHIVE_PREFIX) && Word("/tag-tree-") && Word(".tar.gz") && Word("/") && Word("/backup-dir.tar.gz");
    hide IsSpace;
  }

  /** The archiver prints rows that can be read back. */
  lemma ArchivedIsPrintable(local: set<string>, dirs: set<string>, tags: seq<TagRow>, backups: seq<BackupRow>,
                            commitOf: string -> string, tarball: string -> Tarball, dirTarball: string -> Tarball,
                            uploads: nat -> Upload)
    requires Archived(local, dirs, tags, backups, commitOf, tarball, dirTarball, uploads)
    requires CleanData(local, dirs, commitOf, tarball, dirTarball, uploads)
    ensures PrintableRows(tags, backups)
  {
    hide Word, Hash64, CommitHash, TagKey, DirKey, StrictlySorted;
    forall i | 0 <= i < |tags| ensures PrintableTag(tags[i]) {
      assert TagNames(tags)[i] in local;
      assert TagArchived(tags[i], tags[i].name, commitOf, tarball, uploads(i));
      CommitIsWord(commitOf(tags[i].name));
      KeysAreWords(commitOf(tags[i].name));
    }
    forall i | 0 <= i < |backups| ensures PrintableBackup(backups[i]) {
      assert DirNames(backups)[i] in dirs;
      assert BackupArchived(backups[i], backups[i].name, dirTarball, uploads(|tags| + i));
      KeysAreWords(backups[i].name);
    }
  }

  /** The archive of the tag's own commit was uploaded, verified, and got an ETag. */
  ghost predicate StoredTag(tag: string, tags: seq<TagRow>, commitOf: string -> string, tarball: string -> Tarball,
                            uploads: nat -> Upload)
  {
    exists i :: 0 <= i < |tags| && TagArchived(tags[i], tag, commitOf, tarball, uploads(i)) && uploads(i).etag != ""
  }

  ghost predicate StoredDir(dir: string, first: nat, backups: seq<BackupRow>, dirTarball: string -> Tarball,
                            uploads: nat -> Upload)
  {
    exists i :: 0 <= i < |backups| && BackupArchived(backups[i], dir, dirTarball, uploads(first + i))
                && uploads(first + i).etag != ""
  }

  lemma RemovedWasStored(local: set<string>, dirs: set<string>, tags: seq<TagRow>, backups: seq<BackupRow>,
                         commitOf: string -> string, tarball: string -> Tarball, dirTarball: string -> Tarball,
                         uploads: nat -> Upload)
    requires Archived(local, dirs, tags, backups, commitOf, tarball, dirTarball, uploads)
    ensures forall t :: t in TagsWithEtag(tags) ==> t in local && StoredTag(t, tags, commitOf, tarball, uploads)
    ensures forall d :: d in DirsWithEtag(backups) ==> d in dirs && StoredDir(d, |tags|, backups, dirTarball, uploads)
  {
    hide StrictlySorted;
    forall t | t in TagsWithEtag(tags) ensures t in local && StoredTag(t, tags, commitOf, tarball, uploads) {
      var i :| 0 <= i < |tags| && tags[i].etag != "" && tags[i].name == t;
      assert TagNames(tags)[i] in local;
      assert TagArchived(tags[i], t, commitOf, tarball, uploads(i));
    }
    forall d | d in DirsWithEtag(backups) ensures d in dirs && StoredDir(d, |tags|, backups, dirTarball, uploads) {
      var i :| 0 <= i < |backups| && backups[i].etag != "" && backups[i].name == d;
      assert DirNames(backups)[i] in dirs;
      assert BackupArchived(backups[i], d, dirTarball, uploads(|tags| + i));
    }
  }

  /** Deleting with the manifest that the archiver wrote, whatever has become of
      the repository since: it is refused when nothing returned an ETag or a
      listed tag has gone; otherwise it removes exactly the archived tags and
      directories whose upload verified and returned an ETag, and leaves the
      manifest that prints every row as deleted. */
  lemma ArchiveThenDelete(root: Path, w: World, bucket: string, local: set<string>, dirs: set<string>,
                          tags: seq<TagRow>, backups: seq<BackupRow>,
                          commitOf: string -> string, tarball: string -> Tarball, dirTarball: string -> Tarball,
                          uploads: nat -> Upload)
    requires Archived(local, dirs, tags, backups, commitOf, tarball, dirTarball, uploads)
    requires CleanData(local, dirs, commitOf, tarball, dirTarball, uploads)
    requires w.manifest == BuildManifest(bucket, tags, backups, false) && Tree(w.dirs)
    ensures DeleteSpec(root, w, true) ==
            if TagsWithEtag(tags) == {} && DirsWithEtag(backups) == {} then (w, NoRows)
            else if !(TagsWithEtag(tags) <= LocalTags(w.tags)) then (w, TagsMissing)
            else (World(w.tags - TagsWithEtag(tags), Without(root, w.dirs, DirsWithEtag(backups)),
                        BuildManifest(bucket, tags, backups, true)), Deleted)
    ensures forall t :: t in TagsWithEtag(tags) ==> t in local && StoredTag(t, tags, commitOf, tarball, uploads)
    ensures forall d :: d in DirsWithEtag(backups) ==> d in dirs && StoredDir(d, |tags|, backups, dirTarball, uploads)
    ensures KeysApart(tags, backups)
  {
    hide KeysApart, ParseRows, BuildManifest, LocalTags, Replace, WithEtag, TagsWithEtag, DirsWithEtag, StrictlySorted,
         Component, OneFormat, Tree, Without, Word, Hash64;
    ArchivedIsPrintable(local, dirs, tags, backups, commitOf, tarball, dirTarball, uploads);
    RemovedWasStored(local, dirs, tags, backups, commitOf, tarball, dirTarball, uploads);
    ArchivedKeysApart(local, dirs, tags, backups, commitOf, tarball, dirTarball, uploads);
    var ts, bs := WithEtag(TagEntries(tags, "no")), WithEtag(BackupEntries(backups, "no"));
    ParsePrinted(bucket, tags, backups, false);
    FlipIsReprint(bucket, tags, backups);
    TagNamesRead(tags);
    DirNamesRead(backups);
    SortedNamesAreDistinct(Names(ts), 0);
    DeleteGoodRows(root, w, Rows(InBackups, ts, bs));
  }

  lemma NothingListed(root: Path, dirs: set<Path>, names: set<string>)
    ensures names == {} ==> Without(root, dirs, names) == dirs
  {
  }

  /** Archiving and then deleting: nothing changes unless every upload verified;
      then exactly the tags and directories whose upload returned an ETag go. */
  method ArchiveAndDelete(tool: Tool, bucket: string, commitOf: string -> string, tarball: string -> Tarball,
                          dirTarball: string -> Tarball, uploads: nat -> Upload)
    returns (code: nat, outcome: DeleteOutcome, ghost tagRows: seq<TagRow>, ghost backupRows: seq<BackupRow>)
    requires CleanData(LocalTags(tool.tags), BackupDirs(tool.root, tool.dirs), commitOf, tarball, dirTarball, uploads)
    requires Tree(tool.dirs)
    modifies tool
    ensures code == 0 <==> && LocalTags(old(tool.tags)) + BackupDirs(tool.root, old(tool.dirs)) != {}
                           && AllVerified(uploads,
                                          |LocalTags(old(tool.tags))| + |BackupDirs(tool.root, old(tool.dirs))|)
    ensures code != 0 ==> tool.Contents() == old(tool.Contents())
    ensures code == 0 ==>
              && Archived(LocalTags(old(tool.tags)), BackupDirs(tool.root, old(tool.dirs)), tagRows, backupRows,
                          commitOf, tarball, dirTarball, uploads)
              && KeysApart(tagRows, backupRows)
              && tool.tags == old(tool.tags) - TagsWithEtag(tagRows)
              && tool.dirs == Without(tool.root, old(tool.dirs), DirsWithEtag(backupRows))
              && outcome == (if TagsWithEtag(tagRows) == {} && DirsWithEtag(backupRows) == {} then NoRows else Deleted)
              && tool.manifest == BuildManifest(bucket, tagRows, backupRows, outcome == Deleted)
  {
    hide KeysApart, DeleteSpec, BuildManifest, AllVerified, Archived, CleanData, LocalTags, BackupDirs, TagsWithEtag,
         DirsWithEtag, StoredTag, StoredDir, Tree, Without, OneFormat;
    outcome := Unconfirmed;
    CleanCommits(LocalTags(tool.tags), BackupDirs(tool.root, tool.dirs), commitOf, tarball, dirTarball, uploads);
    code, tagRows, backupRows := tool.RunArchive(bucket, commitOf, tarball, dirTarball, uploads);
    if code != 0 {
      return;
    }
    ghost var local, dirs := LocalTags(tool.tags), BackupDirs(tool.root, tool.dirs);
    ArchiveThenDelete(tool.root, tool.Contents(), bucket, local, dirs, tagRows, backupRows,
                      commitOf, tarball, dirTarball, uploads);
    assert TagsWithEtag(tagRows) <= local;
    NothingListed(tool.root, tool.dirs, DirsWithEtag(backupRows));
    outcome := tool.RunDelete(true);
  }

  lemma DeleteGoodRows(root: Path, w: World, rows: Rows)
    requires Tree(w.dirs) && forall n :: n in Elements(Names(rows.backups)) ==> Component(n)
    requires ParseRows(w.manifest) == rows
    requires forall m: Parsed :: m in rows.tags + rows.backups ==> m.verified == "yes"
    requires DistinctPrefix(Names(rows.tags)) == |Names(rows.tags)|
    ensures DeleteSpec(root, w, true) ==
            if Elements(Names(rows.tags)) == {} && Elements(Names(rows.backups)) == {} then (w, NoRows)
            else if !(Elements(Names(rows.tags)) <= LocalTags(w.tags)) then (w, TagsMissing)
            else (World(w.tags - Elements(Names(rows.tags)),
                        Without(root, w.dirs, Elements(Names(rows.backups))),
                        Replace(w.manifest, FLAG_NO, FLAG_YES)), Deleted)
  {
    hide ParseRows, LocalTags, Replace, Tree, Without, Component, SweepAll;
    EmptyNames(rows.tags);
    EmptyNames(rows.backups);
    SweepEntries(root, w.dirs, Names(rows.backups));
  }

  lemma EmptyNames(rows: seq<Parsed>)
    ensures rows == [] <==> Elements(Names(rows)) == {}
  {
    if rows != [] {
      assert Names(rows)[0] in Elements(Names(rows));
    }
  }

  /** The names that are read back, whatever kind of row they come from. */
  lemma NamesRead(entries: seq<Entry>)
    requires forall i, j :: 0 <= i < j < |entries| ==> Less(entries[i].groups.name, entries[j].groups.name)
    ensures forall n :: n in Elements(Names(WithEtag(entries))) <==>
                        exists i :: 0 <= i < |entries| && entries[i].groups.etag != "" && entries[i].groups.name == n
  {
    hide Less, StrictlySorted, WithEtag;
    ReadNames(entries);
    var ms := WithEtag(entries);
    forall n
      ensures n in Elements(Names(ms)) <==>
              exists i :: 0 <= i < |entries| && entries[i].groups.etag != "" && entries[i].groups.name == n
    {
      if n in Elements(Names(ms)) {
        var j :| 0 <= j < |ms| && Names(ms)[j] == n;
        assert ms[j] in ms;
        var i :| 0 <= i < |entries| && entries[i].groups == ms[j] && ms[j].etag != "";
        assert entries[i].groups.name == n;
      }
      if i :| 0 <= i < |entries| && entries[i].groups.etag != "" && entries[i].groups.name == n {
        assert entries[i].groups in ms;
        var j :| 0 <= j < |ms| && ms[j] == entries[i].groups;
        assert Names(ms)[j] == n;
      }
    }
  }

  lemma TagNamesRead(tags: seq<TagRow>)
    requires StrictlySorted(TagNames(tags))
    ensures Elements(Names(WithEtag(TagEntries(tags, "no")))) == TagsWithEtag(tags)
    ensures StrictlySorted(Names(WithEtag(TagEntries(tags, "no"))))
    ensures forall m :: m in WithEtag(TagEntries(tags, "no")) ==> m.verified == "yes"
  {
    hide Less, WithEtag, Elements, Names;
    var te := TagEntries(tags, "no");
    assert forall i :: 0 <= i < |tags| ==> te[i].groups.name == TagNames(tags)[i];
    ReadNames(te);
    NamesRead(te);
    assert forall i :: 0 <= i < |tags| ==> te[i].groups.name == tags[i].name && te[i].groups.etag == tags[i].etag;
  }

  lemma DirNamesRead(backups: seq<BackupRow>)
    requires StrictlySorted(DirNames(backups))
    ensures Elements(Names(WithEtag(BackupEntries(backups, "no")))) == DirsWithEtag(backups)
    ensures forall m :: m in WithEtag(BackupEntries(backups, "no")) ==> m.verified == "yes"
  {
    hide Less, WithEtag, Elements, Names;
    var be := BackupEntries(backups, "no");
    assert forall i :: 0 <= i < |backups| ==> be[i].groups.name == DirNames(backups)[i];
    ReadNames(be);
    NamesRead(be);
    assert forall i :: 0 <= i < |backups| ==>
                         be[i].groups.name == backups[i].name && be[i].groups.etag == backups[i].etag;
  }
}
