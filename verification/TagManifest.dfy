/** The tag-archive manifest (scripts/archive_staging_tags.py): printing its
    rows, parsing them back, and flipping them to deleted. */
module TagManifest {
  import opened Text

  datatype TagRow = TagRow(name: string, commit: string, key: string, sha: string, size: nat, etag: string)

  datatype BackupRow = BackupRow(name: string, key: string, sha: string, size: nat, etag: string)

  /** The named groups of one matched row. */
  datatype Parsed = Parsed(name: string, key: string, sha: string, size: string, etag: string,
                           verified: string, deleted: string)

  predicate Hash64(s: string) {
    |s| == 64 && forall i :: 0 <= i < |s| ==> IsDigit(s[i]) || 'a' <= s[i] <= 'f'
  }

  /** \w+, for ASCII text */
  predicate Identifier(s: string) {
    s != "" && forall i :: 0 <= i < |s| ==> IsDigit(s[i]) || 'a' <= s[i] <= 'z' || 'A' <= s[i] <= 'Z' || s[i] == '_'
  }

  // ------------------------------------------------------------- one row's text

  /** A row line, as the list of its space-separated words. */
  function RowWords(m: Parsed, commit: Option<string>): seq<string> {
    ["-", m.name, "—"] + (if commit.Some? then ["commit", commit.value, "—"] else [])
    + ["key", m.key, "—", "sha256", m.sha, "—", "size", m.size, "—", "ETag", m.etag, "—",
       "verified:", m.verified, "—", "deleted:", m.deleted]
  }

  function RowLine(m: Parsed, commit: Option<string>): string {
    Join(RowWords(m, commit), " ")
  }

  function TagGroups(r: TagRow, deleted: string): Parsed {
    Parsed(r.name, r.key, r.sha, Decimal(r.size), r.etag, "yes", deleted)
  }

  function BackupGroups(r: BackupRow, deleted: string): Parsed {
    Parsed(r.name, r.key, r.sha, Decimal(r.size), r.etag, "yes", deleted)
  }

  /** A row as it is printed: its groups and, for a tag, its commit. */
  datatype Entry = Entry(groups: Parsed, commit: Option<string>)

  function TagEntries(rows: seq<TagRow>, deleted: string): seq<Entry> {
    seq(|rows|, i requires 0 <= i < |rows| => Entry(TagGroups(rows[i], deleted), Some(rows[i].commit)))
  }

  function BackupEntries(rows: seq<BackupRow>, deleted: string): seq<Entry> {
    seq(|rows|, i requires 0 <= i < |rows| => Entry(BackupGroups(rows[i], deleted), None))
  }

  function EntryLines(entries: seq<Entry>): seq<string> {
    seq(|entries|, i requires 0 <= i < |entries| => RowLine(entries[i].groups, entries[i].commit))
  }

  /** What the regular expression asks of the groups of a row. */
  predicate ValidGroups(m: Parsed) {
    && Word(m.name) && Word(m.key) && Hash64(m.sha) && Digits(m.size) && Word(m.etag)
    && Identifier(m.verified) && Identifier(m.deleted)
  }

  /** The regular expression, read declaratively: the line is the text of these
      groups with an optional commit, and every group is of its class. */
  ghost predicate Matches(line: string, m: Parsed) {
    ValidGroups(m) && exists commit: Option<string> ::
      line == RowLine(m, commit) && (commit.Some? ==> Word(commit.value))
  }

  /** `_ROW.match`: the words of the line, the commit pair dropped if present. */
  function MatchRow(line: string): Option<Parsed> {
    var t := Split(line, ' ');
    if |t| == 23 && t[3] == "commit" && Word(t[4]) && t[5] == "—" then MatchWords(t[..3] + t[6..])
    else MatchWords(t)
  }

  function MatchWords(t: seq<string>): Option<Parsed> {
    if |t| != 20 then None
    else
      var m := Parsed(t[1], t[4], t[7], t[10], t[13], t[16], t[19]);
      if t == RowWords(m, None) && ValidGroups(m) then Some(m) else None
  }

  lemma NoSpaces(s: string)
    requires Word(s) || Hash64(s) || Digits(s) || Identifier(s)
    ensures ' ' !in s
  {
  }

  /** The pieces that RowWords places between the groups hold no space. */
  lemma RowWordsSplit(m: Parsed, commit: Option<string>)
    requires ' ' !in m.name && ' ' !in m.key && ' ' !in m.sha && ' ' !in m.size && ' ' !in m.etag
    requires ' ' !in m.verified && ' ' !in m.deleted && (commit.Some? ==> ' ' !in commit.value)
    ensures Split(RowLine(m, commit), ' ') == RowWords(m, commit)
  {
    SplitJoin(RowWords(m, commit), ' ');
  }

  /** The word parser is the regular expression. */
  lemma MatchRowIsRegex(line: string, m: Parsed)
    ensures MatchRow(line) == Some(m) <==> Matches(line, m)
  {
    hide Word, Split, Join, RowWords, MatchWords, ValidGroups;
    if MatchRow(line) == Some(m) {
      MatchIsText(line, m);
    }
    if Matches(line, m) {
      var commit :| line == RowLine(m, commit) && (commit.Some? ==> Word(commit.value));
      GroupsHaveNoSpace(m, commit);
      RowWordsSplit(m, commit);
      WithoutCommit(m, commit);
      MatchWordsBack(m);
    }
  }

  lemma MatchWordsBack(m: Parsed)
    ensures MatchWords(RowWords(m, None)) == if ValidGroups(m) then Some(m) else None
  {
    hide ValidGroups;
  }

  lemma GroupsHaveNoSpace(m: Parsed, commit: Option<string>)
    requires ValidGroups(m) && (commit.Some? ==> Word(commit.value))
    ensures ' ' !in m.name && ' ' !in m.key && ' ' !in m.sha && ' ' !in m.size && ' ' !in m.etag
    ensures ' ' !in m.verified && ' ' !in m.deleted && (commit.Some? ==> ' ' !in commit.value)
  {
    hide Word, Hash64, Identifier, Digits;
    NoSpaces(m.name);
    NoSpaces(m.key);
    NoSpaces(m.sha);
    NoSpaces(m.size);
    NoSpaces(m.etag);
    NoSpaces(m.verified);
    NoSpaces(m.deleted);
    if commit.Some? { NoSpaces(commit.value); }
  }

  lemma WithoutCommit(m: Parsed, commit: Option<string>)
    ensures var t := RowWords(m, commit);
            && |t| == (if commit.Some? then 23 else 20)
            && (commit.Some? ==>
                  t[3] == "commit" && t[4] == commit.value && t[5] == "—" && t[..3] + t[6..] == RowWords(m, None))
  {
  }

  lemma MatchIsText(line: string, m: Parsed)
    requires MatchRow(line) == Some(m)
    ensures Matches(line, m)
  {
    hide Word, Hash64, Identifier, Digits, Split, Join;
    var t := Split(line, ' ');
    JoinSplit(line, ' ');
    if |t| == 23 {
      var s := t[..3] + t[6..];
      assert s == RowWords(m, None);
      assert t == s[..3] + t[3..6] + s[3..] == RowWords(m, Some(t[4]));
      assert line == RowLine(m, Some(t[4]));
    } else {
      assert line == RowLine(m, None);
    }
  }

  /** A printed row matches exactly when its groups are valid, given its commit. */
  lemma PrintedRowMatches(m: Parsed, commit: Option<string>)
    requires commit.Some? ==> Word(commit.value)
    requires Word(m.name) && Word(m.key) && Hash64(m.sha) && Digits(m.size) && ' ' !in m.etag
    requires Identifier(m.verified) && Identifier(m.deleted)
    ensures MatchRow(RowLine(m, commit)) == if Word(m.etag) then Some(m) else None
  {
    hide Word, Hash64, Identifier, Digits, Split, Join;
    NoSpaces(m.name);
    NoSpaces(m.key);
    NoSpaces(m.sha);
    NoSpaces(m.size);
    NoSpaces(m.verified);
    NoSpaces(m.deleted);
    if commit.Some? { NoSpaces(commit.value); }
    RowWordsSplit(m, commit);
    WithoutCommit(m, commit);
    MatchWordsBack(m);
  }

  const HEX := "0123456789abcdef"
  const DECIMAL_DIGITS := "0123456789"

  ghost predicate Solid(s: string) {
    s != "" && forall c :: c in s ==> !IsSpace(c)
  }

  /** The groups that a row is read with, in literal characters: no white space, a
      hash of 64 lowercase hexadecimal digits, a size of decimal digits, flags of
      letters, digits and underscores. */
  lemma RowReadExactly(m: Parsed, commit: Option<string>)
    requires ' ' !in m.name && ' ' !in m.key && ' ' !in m.sha && ' ' !in m.size && ' ' !in m.etag
    requires ' ' !in m.verified && ' ' !in m.deleted && (commit.Some? ==> Solid(commit.value))
    ensures MatchRow(RowLine(m, commit)) == Some(m) <==>
            && Solid(m.name) && Solid(m.key) && Solid(m.etag)
            && |m.sha| == 64 && (forall c :: c in m.sha ==> c in HEX)
            && m.size != "" && (forall c :: c in m.size ==> c in DECIMAL_DIGITS)
            && LettersOnly(m.verified) && LettersOnly(m.deleted)
  {
    hide Split, Join, RowWords, MatchWords, Word, Hash64, Digits, Identifier, Solid;
    SolidIsWord(m.name);
    SolidIsWord(m.key);
    SolidIsWord(m.etag);
    HexIsHash(m.sha);
    DigitsExactly(m.size);
    LettersAreIdentifier(m.verified);
    LettersAreIdentifier(m.deleted);
    if commit.Some? {
      SolidIsWord(commit.value);
      NoSpaces(commit.value);
    }
    RowWordsSplit(m, commit);
    WithoutCommit(m, commit);
    MatchWordsBack(m);
  }

  ghost predicate LettersOnly(s: string) {
    s != "" && forall c :: c in s ==> c in "abcdefghijklmnopqrstuvwxyz" || c in "ABCDEFGHIJKLMNOPQRSTUVWXYZ"
                                      || c in DECIMAL_DIGITS || c == '_'
  }

  lemma SolidIsWord(s: string)
    ensures Solid(s) <==> Word(s)
  {
    hide IsSpace;
    assert forall i :: 0 <= i < |s| ==> s[i] in s;
  }

  lemma HexIsHash(s: string)
    ensures Hash64(s) <==> |s| == 64 && forall c :: c in s ==> c in HEX
  {
    forall c ensures c in HEX <==> IsDigit(c) || 'a' <= c <= 'f' {
      HexDigit(c);
    }
    assert forall i :: 0 <= i < |s| ==> s[i] in s;
  }

  lemma HexDigit(c: char)
    ensures c in HEX <==> IsDigit(c) || 'a' <= c <= 'f'
  {
    var h := HEX;
    assert h == "0123456789" + "abcdef";
    DecimalDigit(c);
    assert c in "abcdef" <==> 'a' <= c <= 'f';
  }

  lemma DecimalDigit(c: char)
    ensures c in DECIMAL_DIGITS <==> IsDigit(c)
  {
  }

  lemma DigitsExactly(s: string)
    ensures Digits(s) <==> s != "" && forall c :: c in s ==> c in DECIMAL_DIGITS
  {
    forall c ensures c in DECIMAL_DIGITS <==> IsDigit(c) {
      DecimalDigit(c);
    }
    assert forall i :: 0 <= i < |s| ==> s[i] in s;
  }

  lemma SmallLetter(c: char)
    ensures c in "abcdefghijklmnopqrstuvwxyz" <==> 'a' <= c <= 'z'
  {
    assert "abcdefghijklmnopqrstuvwxyz" == "abcdefghi" + "jklmnopqr" + "stuvwxyz";
    assert c in "abcdefghi" <==> 'a' <= c <= 'i';
    assert c in "jklmnopqr" <==> 'j' <= c <= 'r';
    assert c in "stuvwxyz" <==> 's' <= c <= 'z';
  }

  lemma CapitalLetter(c: char)
    ensures c in "ABCDEFGHIJKLMNOPQRSTUVWXYZ" <==> 'A' <= c <= 'Z'
  {
    assert "ABCDEFGHIJKLMNOPQRSTUVWXYZ" == "ABCDEFGHI" + "JKLMNOPQR" + "STUVWXYZ";
    assert c in "ABCDEFGHI" <==> 'A' <= c <= 'I';
    assert c in "JKLMNOPQR" <==> 'J' <= c <= 'R';
    assert c in "STUVWXYZ" <==> 'S' <= c <= 'Z';
  }

  lemma LettersAreIdentifier(s: string)
    ensures Identifier(s) <==> LettersOnly(s)
  {
    forall i | 0 <= i < |s|
      ensures var c := s[i];
              (IsDigit(c) || 'a' <= c <= 'z' || 'A' <= c <= 'Z' || c == '_') <==>
              (c in "abcdefghijklmnopqrstuvwxyz" || c in "ABCDEFGHIJKLMNOPQRSTUVWXYZ" || c in DECIMAL_DIGITS
               || c == '_')
    {
      SmallLetter(s[i]);
      CapitalLetter(s[i]);
      DecimalDigit(s[i]);
      assert s[i] in s;
    }
  }

  /** The printed lines of a tag and of a directory, field by field. */
  lemma PrintedLines(tags: seq<TagRow>, backups: seq<BackupRow>, flag: string, i: nat)
    ensures i < |tags| ==>
              EntryLines(TagEntries(tags, flag))[i] ==
              "- " + tags[i].name + " — " + ("commit " + tags[i].commit + " — "
              + RowTail(tags[i].key, tags[i].sha, Decimal(tags[i].size), tags[i].etag, flag))
    ensures i < |backups| ==>
              EntryLines(BackupEntries(backups, flag))[i] ==
              "- " + backups[i].name + " — "
              + RowTail(backups[i].key, backups[i].sha, Decimal(backups[i].size), backups[i].etag, flag)
  {
    if i < |tags| {
      TagLineText(TagGroups(tags[i], flag), tags[i].commit);
    }
    if i < |backups| {
      BackupLineText(BackupGroups(backups[i], flag));
    }
  }

  function RowTail(key: string, sha: string, size: string, etag: string, deleted: string): string {
    "key " + key + " — " + ("sha256 " + sha + " — " + ("size " + size + " — " + ("ETag " + etag + " — " + (
      "verified: " + "yes" + " — " + ("deleted: " + deleted)))))
  }

  function TailWords(m: Parsed): seq<string> {
    ["key", m.key, "—", "sha256", m.sha, "—", "size", m.size, "—", "ETag", m.etag, "—",
     "verified:", m.verified, "—", "deleted:", m.deleted]
  }

  /** Three words and the rest. */
  lemma JoinThree(a: string, b: string, rest: seq<string>)
    requires rest != []
    ensures Join([a, b, "—"] + rest, " ") == a + " " + b + " — " + Join(rest, " ")
  {
    JoinFirst("—", rest, " ");
    JoinFirst(b, ["—"] + rest, " ");
    JoinFirst(a, [b] + (["—"] + rest), " ");
    assert [a] + ([b] + (["—"] + rest)) == [a, b, "—"] + rest;
    assert a + " " + (b + " " + ("—" + " " + Join(rest, " "))) == a + " " + b + " — " + Join(rest, " ");
  }

  lemma JoinTwo(a: string, b: string)
    ensures Join([a, b], " ") == a + " " + b
  {
    assert [a, b][1..] == [b];
  }

  lemma Labels()
    ensures "-" + " " == "- " && "commit" + " " == "commit " && "key" + " " == "key " && "sha256" + " " == "sha256 "
    ensures "size" + " " == "size " && "ETag" + " " == "ETag " && "verified:" + " " == "verified: "
    ensures "deleted:" + " " == "deleted: "
  {
  }

  lemma TailText(m: Parsed)
    requires m.verified == "yes"
    ensures Join(TailWords(m), " ") == RowTail(m.key, m.sha, m.size, m.etag, m.deleted)
  {
    hide Join;
    var last := ["deleted:", m.deleted];
    var flags := ["verified:", m.verified, "—"] + last;
    var etag := ["ETag", m.etag, "—"] + flags;
    var size := ["size", m.size, "—"] + etag;
    var sha := ["sha256", m.sha, "—"] + size;
    assert TailWords(m) == ["key", m.key, "—"] + sha;
    Labels();
    JoinTwo("deleted:", m.deleted);
    JoinThree("verified:", m.verified, last);
    JoinThree("ETag", m.etag, flags);
    JoinThree("size", m.size, etag);
    JoinThree("sha256", m.sha, size);
    JoinThree("key", m.key, sha);
  }

  lemma TagLineText(m: Parsed, commit: string)
    requires m.verified == "yes"
    ensures RowLine(m, Some(commit)) == "- " + m.name + " — " + ("commit " + commit + " — "
                                        + RowTail(m.key, m.sha, m.size, m.etag, m.deleted))
  {
    hide Join, RowTail;
    TailText(m);
    Labels();
    var rest := ["commit", commit, "—"] + TailWords(m);
    assert RowWords(m, Some(commit)) == ["-", m.name, "—"] + rest;
    JoinThree("-", m.name, rest);
    JoinThree("commit", commit, TailWords(m));
  }

  lemma BackupLineText(m: Parsed)
    requires m.verified == "yes"
    ensures RowLine(m, None) == "- " + m.name + " — " + RowTail(m.key, m.sha, m.size, m.etag, m.deleted)
  {
    hide Join, RowTail;
    TailText(m);
    Labels();
    assert RowWords(m, None) == ["-", m.name, "—"] + TailWords(m);
    JoinThree("-", m.name, TailWords(m));
  }

  // ------------------------------------------------------------- the whole text

  const TAGS := "## Tag trees"
  const BACKUPS := "## Backup directories"

  /** The manifest's opening lines. The destination shows only by its length. */
  function Preamble(destination: string): seq<string> {
    ["# Tag Archive Manifest " + "— 2026-10-06 (W0.6 / S5)",
     "",
     "The 17 ``backup-staging-*`` " + "tag trees and the ``backups" + "/staging_*``",
     "restore-point dirs, archived " + "to the staging MinIO BEFORE " + "local",
     "deletion. Contract-enforced " + "by GATE-52",
     "(`scripts/check_tag_archive" + "_manifest.py`).",
     "",
     "## Archive destination",
     "",
     "- the staging MinIO bucket " + "from ``.env.staging`` (name " + "length " + Decimal(|destination|)
     + " — redacted per the " + "W0.9 contract)",
     "- prefix: ``w06-s5-archive/``",
     ""]
  }

  function SectionedLines(preamble: seq<string>, tags: seq<Entry>, backups: seq<Entry>): seq<string> {
    preamble + [TAGS, ""] + EntryLines(tags) + (["", BACKUPS, ""] + EntryLines(backups))
  }

  function ManifestLines(destination: string, tags: seq<TagRow>, backups: seq<BackupRow>, deleted: bool): seq<string> {
    var flag := if deleted then "yes" else "no";
    SectionedLines(Preamble(destination), TagEntries(tags, flag), BackupEntries(backups, flag))
  }

  /** `build_manifest` */
  function BuildManifest(destination: string, tags: seq<TagRow>, backups: seq<BackupRow>, deleted: bool): string {
    Join(ManifestLines(destination, tags, backups, deleted), "\n") + "\n"
  }

  /** The destination shows in the manifest by its length, and by nothing else. */
  lemma DestinationRedacted(d: string, d': string, tags: seq<TagRow>, backups: seq<BackupRow>, deleted: bool)
    ensures |d| == |d'| ==> BuildManifest(d, tags, backups, deleted) == BuildManifest(d', tags, backups, deleted)
    ensures "- the staging MinIO bucket " + "from ``.env.staging`` (name " + "length " + Decimal(|d|)
            + " — redacted per the " + "W0.9 contract)" in Preamble(d)
  {
    hide Decimal, Join, ManifestLines;
    DestinationLine(d);
    if |d| == |d'| {
      SamePreamble(d, d');
      SameLines(d, d', tags, backups, deleted);
    }
  }

  lemma DestinationLine(d: string)
    ensures "- the staging MinIO bucket " + "from ``.env.staging`` (name " + "length " + Decimal(|d|)
            + " — redacted per the " + "W0.9 contract)" in Preamble(d)
  {
    hide Decimal;
    var p := Preamble(d);
    assert |p| == 12 && p[9] in p;
  }

  lemma SamePreamble(d: string, d': string)
    requires |d| == |d'|
    ensures Preamble(d) == Preamble(d')
  {
    hide Decimal;
  }

  lemma SameLines(d: string, d': string, tags: seq<TagRow>, backups: seq<BackupRow>, deleted: bool)
    requires Preamble(d) == Preamble(d')
    ensures ManifestLines(d, tags, backups, deleted) == ManifestLines(d', tags, backups, deleted)
  {
    hide Preamble;
  }

  /** The manifest's lines: the opening, then each section with its heading, one
      line per row, in order. */
  lemma ManifestHasRows(destination: string, tags: seq<TagRow>, backups: seq<BackupRow>, deleted: bool)
    ensures var lines := ManifestLines(destination, tags, backups, deleted);
            var flag := if deleted then "yes" else "no"; var n := |Preamble(destination)|;
            && |lines| == n + |tags| + |backups| + 5
            && lines[n] == "## Tag trees" && lines[n + |tags| + 3] == "## Backup directories"
            && (forall i :: 0 <= i < |tags| ==> lines[n + 2 + i] == EntryLines(TagEntries(tags, flag))[i])
            && (forall i :: 0 <= i < |backups| ==>
                              lines[n + |tags| + 5 + i] == EntryLines(BackupEntries(backups, flag))[i])
  {
    hide RowLine, Preamble;
  }

  datatype Section = Outside | InTags | InBackups

  datatype Rows = Rows(section: Section, tags: seq<Parsed>, backups: seq<Parsed>)

  /** What one line adds to the rows read so far. */
  function ReadLine(acc: Rows, line: string): Rows {
    if TAGS <= line then acc.(section := InTags)
    else if BACKUPS <= line then acc.(section := InBackups)
    else if !("- " <= line) then acc
    else
      match MatchRow(line)
      case None => acc
      case Some(m) =>
        match acc.section
        case InTags => acc.(tags := acc.tags + [m])
        case InBackups => acc.(backups := acc.backups + [m])
        case Outside => acc
  }

  function ReadLines(acc: Rows, lines: seq<string>): Rows
    decreases |lines|
  {
    if lines == [] then acc else ReadLines(ReadLine(acc, lines[0]), lines[1..])
  }

  const START := Rows(Outside, [], [])

  function ParseRows(manifest: string): Rows {
    ReadLines(START, SplitLines(manifest))
  }

  lemma {:induction false} ReadAppend(acc: Rows, a: seq<string>, b: seq<string>)
    ensures ReadLines(acc, a + b) == ReadLines(ReadLines(acc, a), b)
    decreases |a|
  {
    if a == [] {
      assert a + b == b;
    } else {
      ReadAppend(ReadLine(acc, a[0]), a[1..], b);
      assert (a + b)[1..] == a[1..] + b;
    }
  }

  /** `_parse_rows` */
  method ParseManifest(manifest: string) returns (tags: seq<Parsed>, backups: seq<Parsed>)
    ensures var rows := ParseRows(manifest); tags == rows.tags && backups == rows.backups
  {
    tags, backups := [], [];
    var section := Outside;
    var lines := SplitLines(manifest);
    assert lines[..0] == [];
    for i := 0 to |lines|
      invariant ReadLines(START, lines[..i]) == Rows(section, tags, backups)
    {
      var line := lines[i];
      assert lines[..i + 1] == lines[..i] + [line];
      ReadAppend(START, lines[..i], [line]);
      assert [line][1..] == [];
      if TAGS <= line {
        section := InTags;
        continue;
      }
      if BACKUPS <= line {
        section := InBackups;
        continue;
      }
      if !("- " <= line) {
        continue;
      }
      var matched := MatchRow(line);
      if matched.None? {
        continue;
      }
      if section == InTags {
        tags := tags + [matched.value];
      } else if section == InBackups {
        backups := backups + [matched.value];
      }
    }
    assert lines[..|lines|] == lines;
  }

  // ----------------------------------------------------------------- round trip

  /** Whitespace-free fields and a real hash; the ETag may still be empty, as a
      store that returns none leaves it. */
  predicate Printable(name: string, key: string, sha: string, etag: string) {
    Word(name) && Word(key) && Hash64(sha) && (etag == "" || Word(etag))
  }

  predicate PrintableTag(r: TagRow) { Printable(r.name, r.key, r.sha, r.etag) && Word(r.commit) }

  predicate PrintableBackup(r: BackupRow) { Printable(r.name, r.key, r.sha, r.etag) }

  predicate PrintableRows(tags: seq<TagRow>, backups: seq<BackupRow>) {
    && (forall i :: 0 <= i < |tags| ==> PrintableTag(tags[i]))
    && (forall i :: 0 <= i < |backups| ==> PrintableBackup(backups[i]))
  }

  predicate PrintableEntry(e: Entry) {
    && Printable(e.groups.name, e.groups.key, e.groups.sha, e.groups.etag) && Digits(e.groups.size)
    && e.groups.verified == "yes" && (e.groups.deleted == "yes" || e.groups.deleted == "no")
    && (e.commit.Some? ==> Word(e.commit.value))
  }

  /** The groups of the rows that have an ETag, in order. */
  function WithEtag(entries: seq<Entry>): seq<Parsed> {
    if entries == [] then []
    else
      var last := entries[|entries| - 1];
      WithEtag(entries[..|entries| - 1]) + if last.groups.etag != "" then [last.groups] else []
  }

  lemma RowLineShape(m: Parsed, commit: Option<string>)
    ensures "- " <= RowLine(m, commit) && RowLine(m, commit)[0] == '-'
  {
    var t := RowWords(m, commit);
    assert t[0] == "-" && |t| > 1;
    assert RowLine(m, commit) == "-" + " " + Join(t[1..], " ");
  }

  lemma FlagIsIdentifier(flag: string)
    requires flag == "yes" || flag == "no"
    ensures Identifier(flag) && Identifier("yes")
  {
  }

  function AddRows(acc: Rows, rows: seq<Parsed>): Rows {
    match acc.section
    case InTags => acc.(tags := acc.tags + rows)
    case InBackups => acc.(backups := acc.backups + rows)
    case Outside => acc
  }

  lemma ReadRowLine(acc: Rows, e: Entry)
    requires PrintableEntry(e)
    ensures ReadLine(acc, RowLine(e.groups, e.commit)) == if e.groups.etag == "" then acc else AddRows(acc, [e.groups])
  {
    FlagIsIdentifier(e.groups.deleted);
    PrintedRowMatches(e.groups, e.commit);
    RowLineShape(e.groups, e.commit);
  }

  lemma {:induction false} ReadEntries(acc: Rows, entries: seq<Entry>)
    requires forall i :: 0 <= i < |entries| ==> PrintableEntry(entries[i])
    ensures ReadLines(acc, EntryLines(entries)) == AddRows(acc, WithEtag(entries))
  {
    hide RowLine, PrintableEntry, ReadLine;
    if entries != [] {
      var init, last := entries[..|entries| - 1], entries[|entries| - 1];
      var line := RowLine(last.groups, last.commit);
      assert EntryLines(entries) == EntryLines(init) + [line];
      ReadAppend(acc, EntryLines(init), [line]);
      ReadEntries(acc, init);
      ReadRowLine(ReadLines(acc, EntryLines(init)), last);
      assert [line][1..] == [];
    }
  }

  const FLAG_NO := "deleted: no"
  const FLAG_YES := "deleted: yes"

  /** A line that neither opens a section nor carries a deletion flag. */
  ghost predicate Quiet(line: string) {
    OneLine(line) && !(TAGS <= line) && !(BACKUPS <= line) && !Contains(line, FLAG_NO)
  }

  /** Text whose characters show at once that it is quiet. */
  predicate Prose(s: string) {
    forall i :: 0 <= i < |s| ==> (' ' <= s[i] <= '~' || s[i] == '—') && s[i] != ':'
  }

  lemma ProseIsQuiet(s: string)
    requires Prose(s) && (|s| < 4 || s[0] != '#' || s[1] != '#' || s[3] == 'A')
    ensures Quiet(s)
  {
    assert TAGS[0] == '#' && TAGS[1] == '#' && TAGS[3] == 'T';
    assert BACKUPS[0] == '#' && BACKUPS[1] == '#' && BACKUPS[3] == 'B';
    assert FLAG_NO[7] == ':';
    ContainsNeeds(s, FLAG_NO, 7);
  }

  lemma TitleProse()
    ensures Prose("# Tag Archive Manifest ") && Prose("— 2026-10-06 (W0.6 / S5)")
  {
  }

  lemma Line2Prose()
    ensures Prose("The 17 ``backup-staging-*`` ") && Prose("tag trees and the ``backups") && Prose("/staging_*``")
  {
  }

  lemma Line3Prose()
    ensures Prose("restore-point dirs, archived ") && Prose("to the staging MinIO BEFORE ") && Prose("local")
  {
  }

  lemma DestinationProse()
    ensures Prose("- the staging MinIO bucket ") && Prose("from ``.env.staging`` (name ")
  {
  }

  lemma RedactionProse()
    ensures Prose("length ") && Prose(" — redacted per the ") && Prose("W0.9 contract)")
  {
  }

  lemma TitleIsQuiet()
    ensures Quiet(Preamble("")[0])
  {
    TitleProse();
    ProseIsQuiet("# Tag Archive Manifest " + "— 2026-10-06 (W0.6 / S5)");
  }

  lemma Line2IsQuiet()
    ensures Quiet(Preamble("")[2])
  {
    Line2Prose();
    ProseIsQuiet("The 17 ``backup-staging-*`` " + "tag trees and the ``backups" + "/staging_*``");
  }

  lemma Line3IsQuiet()
    ensures Quiet(Preamble("")[3])
  {
    Line3Prose();
    ProseIsQuiet("restore-point dirs, archived " + "to the staging MinIO BEFORE " + "local");
  }

  lemma Line4IsQuiet()
    ensures Quiet("deletion. Contract-enforced " + "by GATE-52")
  {
    assert Prose("deletion. Contract-enforced ");
    assert Prose("by GATE-52");
    ProseIsQuiet("deletion. Contract-enforced " + "by GATE-52");
  }

  lemma Line5IsQuiet()
    ensures Quiet("(`scripts/check_tag_archive" + "_manifest.py`).")
  {
    assert Prose("(`scripts/check_tag_archive");
    assert Prose("_manifest.py`).");
    ProseIsQuiet("(`scripts/check_tag_archive" + "_manifest.py`).");
  }

  lemma HeadingIsQuiet()
    ensures Quiet("## Archive destination") && Quiet("")
  {
    var s := "## Archive destination";
    assert Prose(s);
    ProseIsQuiet(s);
    ProseIsQuiet("");
  }

  lemma DestinationIsQuiet(n: nat)
    ensures Quiet("- the staging MinIO bucket " + "from ``.env.staging`` (name " + "length " + Decimal(n)
                  + " — redacted per the " + "W0.9 contract)")
  {
    DestinationProse();
    RedactionProse();
    assert Prose(Decimal(n));
    ProseIsQuiet("- the staging MinIO bucket " + "from ``.env.staging`` (name " + "length " + Decimal(n)
                 + " — redacted per the " + "W0.9 contract)");
  }

  lemma PrefixIsQuiet()
    ensures Quiet("- prefix: ``w06-s5-archive/``")
  {
    var s := "- prefix: ``w06-s5-archive/``";
    assert forall i :: 0 <= i < |s| ==> ' ' <= s[i] <= '~' && s[i] != 'd';
    ContainsNeeds(s, FLAG_NO, 0);
    assert TAGS[0] == BACKUPS[0] == '#';
  }

  lemma PreambleIsQuiet(destination: string)
    ensures forall i :: 0 <= i < |Preamble(destination)| ==> Quiet(Preamble(destination)[i])
  {
    TitleIsQuiet();
    Line2IsQuiet();
    Line3IsQuiet();
    Line4IsQuiet();
    Line5IsQuiet();
    HeadingIsQuiet();
    DestinationIsQuiet(|destination|);
    PrefixIsQuiet();
    assert forall i :: 0 <= i < 9 ==> Preamble(destination)[i] == Preamble("")[i];
  }

  lemma {:induction false} ReadNothing(acc: Rows, lines: seq<string>)
    requires acc.section == Outside && forall i :: 0 <= i < |lines| ==> Quiet(lines[i])
    ensures ReadLines(acc, lines) == acc
    decreases |lines|
  {
    if lines != [] {
      assert Quiet(lines[0]);
      ReadNothing(acc, lines[1..]);
    }
  }

  lemma {:induction false} RowLineIsOneLine(e: Entry)
    requires PrintableEntry(e)
    ensures OneLine(RowLine(e.groups, e.commit))
  {
    hide OneLine, Word, Hash64, Digits;
    var m := e.groups;
    FixedWordsAreOneLine();
    BreaksAreSpaces(m.name);
    BreaksAreSpaces(m.key);
    BreaksAreSpaces(m.sha);
    BreaksAreSpaces(m.size);
    BreaksAreSpaces(m.etag);
    if e.commit.Some? { BreaksAreSpaces(e.commit.value); }
    JoinOneLine(RowWords(m, e.commit));
  }

  lemma FixedWordsAreOneLine()
    ensures OneLine("-") && OneLine("—") && OneLine("commit") && OneLine("key") && OneLine("sha256")
    ensures OneLine("size") && OneLine("ETag") && OneLine("verified:") && OneLine("deleted:")
    ensures OneLine("yes") && OneLine("no") && OneLine("")
  {
  }

  lemma BreaksAreSpaces(s: string)
    requires s == "" || Word(s) || Hash64(s) || Digits(s)
    ensures OneLine(s)
  {
  }

  lemma JoinOneLine(ts: seq<string>)
    requires forall i :: 0 <= i < |ts| ==> OneLine(ts[i])
    ensures OneLine(Join(ts, " "))
  {
  }

  lemma EntriesArePrintable(tags: seq<TagRow>, backups: seq<BackupRow>, flag: string)
    requires PrintableRows(tags, backups) && (flag == "yes" || flag == "no")
    ensures forall i :: 0 <= i < |tags| ==> PrintableEntry(TagEntries(tags, flag)[i])
    ensures forall i :: 0 <= i < |backups| ==> PrintableEntry(BackupEntries(backups, flag)[i])
  {
    forall i | 0 <= i < |tags| ensures PrintableEntry(TagEntries(tags, flag)[i]) {
      assert PrintableTag(tags[i]);
    }
    forall i | 0 <= i < |backups| ensures PrintableEntry(BackupEntries(backups, flag)[i]) {
      assert PrintableBackup(backups[i]);
    }
  }

  lemma ManifestLinesAreLines(destination: string, tags: seq<TagRow>, backups: seq<BackupRow>, deleted: bool)
    requires PrintableRows(tags, backups)
    ensures SplitLines(BuildManifest(destination, tags, backups, deleted))
            == ManifestLines(destination, tags, backups, deleted)
  {
    var flag := if deleted then "yes" else "no";
    var lines := ManifestLines(destination, tags, backups, deleted);
    PreambleIsQuiet(destination);
    EntriesArePrintable(tags, backups, flag);
    forall i | 0 <= i < |tags| ensures OneLine(EntryLines(TagEntries(tags, flag))[i]) {
      RowLineIsOneLine(TagEntries(tags, flag)[i]);
    }
    forall i | 0 <= i < |backups| ensures OneLine(EntryLines(BackupEntries(backups, flag))[i]) {
      RowLineIsOneLine(BackupEntries(backups, flag)[i]);
    }
    SectionLines();
    UnlinesIsJoin(lines);
    SplitUnlines(lines);
  }

  lemma SectionLines()
    ensures OneLine(TAGS) && OneLine(BACKUPS) && OneLine("")
    ensures TAGS != "" && !(TAGS <= BACKUPS) && !(TAGS <= "") && !(BACKUPS <= "") && !("- " <= "")
  {
    assert TAGS[3] == 'T' && BACKUPS[3] == 'B';
  }

  lemma ReadSectionStart(acc: Rows)
    ensures ReadLines(acc, [TAGS, ""]) == acc.(section := InTags)
    ensures ReadLines(acc, ["", BACKUPS, ""]) == acc.(section := InBackups)
  {
    SectionLines();
    var tags := acc.(section := InTags);
    var backups := acc.(section := InBackups);
    assert [TAGS, ""][1..] == [""] && ["", BACKUPS, ""][1..] == [BACKUPS, ""] && [BACKUPS, ""][1..] == [""];
    assert ReadLine(acc, TAGS) == tags && ReadLine(acc, BACKUPS) == backups;
    ReadBlank(tags);
    ReadBlank(backups);
    assert ReadLine(acc, "") == acc;
    assert ReadLines(acc, [TAGS, ""]) == ReadLines(tags, [""]);
    assert ReadLines(acc, ["", BACKUPS, ""]) == ReadLines(acc, [BACKUPS, ""]) == ReadLines(backups, [""]);
  }

  lemma ReadBlank(acc: Rows)
    ensures ReadLines(acc, [""]) == acc
  {
    SectionLines();
    assert [""][1..] == [];
    assert ReadLine(acc, "") == acc;
  }

  /** Printing and parsing back gives exactly the printed rows that have an ETag,
      in order and each in its section, and nothing from the opening bullets. */
  lemma ParsePrinted(destination: string, tags: seq<TagRow>, backups: seq<BackupRow>, deleted: bool)
    requires PrintableRows(tags, backups)
    ensures var flag := if deleted then "yes" else "no";
            ParseRows(BuildManifest(destination, tags, backups, deleted)) ==
            Rows(InBackups, WithEtag(TagEntries(tags, flag)), WithEtag(BackupEntries(backups, flag)))
  {
    var flag := if deleted then "yes" else "no";
    ManifestLinesAreLines(destination, tags, backups, deleted);
    EntriesArePrintable(tags, backups, flag);
    PreambleIsQuiet(destination);
    ReadSectioned(Preamble(destination), TagEntries(tags, flag), BackupEntries(backups, flag));
  }

  lemma ReadSectioned(p: seq<string>, tags: seq<Entry>, backups: seq<Entry>)
    requires forall i :: 0 <= i < |p| ==> Quiet(p[i])
    requires forall i :: 0 <= i < |tags| ==> PrintableEntry(tags[i])
    requires forall i :: 0 <= i < |backups| ==> PrintableEntry(backups[i])
    ensures ReadLines(START, SectionedLines(p, tags, backups)) == Rows(InBackups, WithEtag(tags), WithEtag(backups))
  {
    ReadTagHalf(p, tags);
    ReadBackupHalf(Rows(InTags, WithEtag(tags), []), backups);
    ReadAppend(START, p + [TAGS, ""] + EntryLines(tags), ["", BACKUPS, ""] + EntryLines(backups));
  }

  lemma ReadTagHalf(p: seq<string>, entries: seq<Entry>)
    requires forall i :: 0 <= i < |p| ==> Quiet(p[i])
    requires forall i :: 0 <= i < |entries| ==> PrintableEntry(entries[i])
    ensures ReadLines(START, p + [TAGS, ""] + EntryLines(entries)) == Rows(InTags, WithEtag(entries), [])
  {
    ReadNothing(START, p);
    ReadAppend(START, p, [TAGS, ""]);
    ReadSectionStart(START);
    ReadAppend(START, p + [TAGS, ""], EntryLines(entries));
    ReadEntries(Rows(InTags, [], []), entries);
  }

  lemma ReadBackupHalf(acc: Rows, entries: seq<Entry>)
    requires acc.backups == [] && forall i :: 0 <= i < |entries| ==> PrintableEntry(entries[i])
    ensures ReadLines(acc, ["", BACKUPS, ""] + EntryLines(entries)) == Rows(InBackups, acc.tags, WithEtag(entries))
  {
    ReadSectionStart(acc);
    ReadAppend(acc, ["", BACKUPS, ""], EntryLines(entries));
    ReadEntries(acc.(section := InBackups), entries);
  }

  /** A parsed row carries the fields of a tag's row, and of a directory's row. */
  predicate ReadsTag(m: Parsed, r: TagRow, flag: string) {
    && m.name == r.name && m.key == r.key && m.sha == r.sha && m.size == Decimal(r.size) && m.etag == r.etag
    && m.verified == "yes" && m.deleted == flag
  }

  predicate ReadsBackup(m: Parsed, r: BackupRow, flag: string) {
    && m.name == r.name && m.key == r.key && m.sha == r.sha && m.size == Decimal(r.size) && m.etag == r.etag
    && m.verified == "yes" && m.deleted == flag
  }

  ghost predicate ReadsAll(rows: Rows, tags: seq<TagRow>, backups: seq<BackupRow>, flag: string) {
    && |rows.tags| == |tags| && (forall i :: 0 <= i < |tags| ==> ReadsTag(rows.tags[i], tags[i], flag))
    && |rows.backups| == |backups|
    && (forall i :: 0 <= i < |backups| ==> ReadsBackup(rows.backups[i], backups[i], flag))
  }

  lemma {:induction false} ReadRowsAreValid(acc: Rows, lines: seq<string>)
    requires forall m :: m in acc.tags + acc.backups ==> ValidGroups(m)
    ensures forall m :: m in ReadLines(acc, lines).tags + ReadLines(acc, lines).backups ==> ValidGroups(m)
    decreases |lines|
  {
    if lines != [] {
      ReadRowsAreValid(ReadLine(acc, lines[0]), lines[1..]);
    }
  }

  lemma ParsedRowsAreValid(manifest: string)
    ensures forall m :: m in ParseRows(manifest).tags + ParseRows(manifest).backups ==> ValidGroups(m)
  {
    ReadRowsAreValid(START, SplitLines(manifest));
  }

  lemma {:induction false} WithEtagKeepsAll(entries: seq<Entry>)
    requires forall i :: 0 <= i < |entries| ==> entries[i].groups.etag != ""
    ensures |WithEtag(entries)| == |entries|
    ensures forall i :: 0 <= i < |entries| ==> WithEtag(entries)[i] == entries[i].groups
  {
    if entries != [] {
      WithEtagKeepsAll(entries[..|entries| - 1]);
    }
  }

  /** The round trip gives back every row exactly when every field is free of
      white space and not empty, and every hash has 64 lowercase hex digits: one
      empty ETag, for instance, breaks it. (A commit is always such a word.) */
  lemma RoundTripExactly(destination: string, tags: seq<TagRow>, backups: seq<BackupRow>, deleted: bool)
    requires forall i :: 0 <= i < |tags| ==> Word(tags[i].commit)
    ensures var flag := if deleted then "yes" else "no";
            var rows := ParseRows(BuildManifest(destination, tags, backups, deleted));
            ReadsAll(rows, tags, backups, flag) <==>
            && PrintableRows(tags, backups)
            && (forall i :: 0 <= i < |tags| ==> tags[i].etag != "")
            && (forall i :: 0 <= i < |backups| ==> backups[i].etag != "")
  {
    var flag := if deleted then "yes" else "no";
    var manifest := BuildManifest(destination, tags, backups, deleted);
    hide ParseRows, BuildManifest, Hash64, Digits, Identifier, WithEtag;
    var rows := ParseRows(manifest);
    ParsedRowsAreValid(manifest);
    if ReadsAll(rows, tags, backups, flag) {
      forall i | 0 <= i < |tags| ensures PrintableTag(tags[i]) && tags[i].etag != "" {
        assert rows.tags[i] in rows.tags + rows.backups && ReadsTag(rows.tags[i], tags[i], flag);
      }
      forall i | 0 <= i < |backups| ensures PrintableBackup(backups[i]) && backups[i].etag != "" {
        assert rows.backups[i] in rows.tags + rows.backups && ReadsBackup(rows.backups[i], backups[i], flag);
      }
    }
    if PrintableRows(tags, backups) && (forall i :: 0 <= i < |tags| ==> tags[i].etag != "")
       && (forall i :: 0 <= i < |backups| ==> backups[i].etag != "") {
      ParsePrinted(destination, tags, backups, deleted);
      WithEtagKeepsAll(TagEntries(tags, flag));
      WithEtagKeepsAll(BackupEntries(backups, flag));
    }
  }
}
