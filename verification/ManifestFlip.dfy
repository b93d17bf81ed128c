/** Turning a printed manifest into the printed-as-deleted one by a single text
    replacement (scripts/archive_staging_tags.py, `run_delete`). */
module ManifestFlip {
  import opened Text
  import opened TagManifest

  /** Some word that ends in u is followed by a word that begins with v. */
  predicate PairAt(ts: seq<string>, u: string, v: string, k: nat)
    requires k + 1 < |ts|
  {
    EndsWith(ts[k], u) && v <= ts[k + 1]
  }

  /** Where words are joined by spaces, "u v" can only occur across the boundary
      of two words that fit it: so with no earlier fit, the closing pair is the
      first occurrence. */
  lemma {:induction false} ClosingPairIsFirst(q: seq<string>, u: string, v: string, j: nat)
    requires ' ' !in u && ' ' !in v
    requires forall k :: 0 <= k < |q| ==> ' ' !in q[k] && !PairAt(q + [u, v], u, v, k)
    requires j + |u| + 1 + |v| < |Join(q + [u, v], " ")|
    ensures !OccursAt(Join(q + [u, v], " "), u + " " + v, j)
  {
    var ts := q + [u, v];
    var p := u + " " + v;
    assert [u, v][1..] == [v] && [] + [u, v] == [u, v];
    if q != [] {
      assert !PairAt(ts, u, v, 0) && ts[1..][0] == ts[1];
      var s := Join(ts, " ");
      var rest := Join(q[1..] + [u, v], " ");
      assert ts[1..] == q[1..] + [u, v];
      assert s == q[0] + " " + rest;
      if j > |q[0]| {
        forall k | 0 <= k < |q[1..]| ensures !PairAt(q[1..] + [u, v], u, v, k) {
          assert !PairAt(ts, u, v, k + 1);
        }
        ClosingPairIsFirst(q[1..], u, v, j - |q[0]| - 1);
        OccursInPart(q[0] + " ", rest, "", p, j);
        assert q[0] + " " + rest + "" == s;
      } else if OccursAt(s, p, j) {
        PairAcross(q[0], ts[1..], u, v, j);
      }
    }
  }

  lemma PairAcross(t: string, ts: seq<string>, u: string, v: string, j: nat)
    requires ts != [] && ' ' !in t && ' ' !in u && ' ' !in v && j <= |t|
    requires OccursAt(t + " " + Join(ts, " "), u + " " + v, j)
    ensures EndsWith(t, u) && v <= ts[0]
  {
    var rest := Join(ts, " ");
    var s, p := t + " " + rest, u + " " + v;
    assert p[|u|] == ' ' && s[|t|] == ' ';
    assert forall i :: 0 <= i < |u| ==> p[i] == u[i] && p[i] != ' ';
    assert forall i :: 0 <= i < |t| ==> s[i] == t[i] && s[i] != ' ';
    OccursChar(s, p, j, |u|);
    if j + |u| > |t| {
      OccursChar(s, p, j, |t| - j);
    }
    assert j + |u| == |t|;
    assert s[j..j + |p|] == p;
    assert t[j..] == s[j..|t|] == p[..|u|] == u;
    assert v == p[|u| + 1..] == s[|t| + 1..|t| + 1 + |v|] == rest[..|v|];
    PrefixOfFirst(ts, v);
  }

  lemma PrefixOfFirst(ts: seq<string>, v: string)
    requires ts != [] && ' ' !in v && v <= Join(ts, " ")
    ensures v <= ts[0]
  {
    if |ts| > 1 {
      var s := Join(ts, " ");
      assert s[|ts[0]|] == ' ';
      assert forall i :: 0 <= i < |v| ==> v[i] == s[i];
    }
  }

  lemma ReplaceClosingPair(q: seq<string>, u: string, v: string, w: string)
    requires ' ' !in u && ' ' !in v
    requires forall k :: 0 <= k < |q| ==> ' ' !in q[k] && !PairAt(q + [u, v], u, v, k)
    ensures Replace(Join(q + [u, v], " "), u + " " + v, u + " " + w) == Join(q + [u, w], " ")
  {
    var p := u + " " + v;
    var s := Join(q + [u, v], " ");
    var a := OpeningOf(q, u, v, w);
    forall j | 0 <= j < |a| ensures !OccursAt(s, p, j) {
      ClosingPairIsFirst(q, u, v, j);
    }
    assert s == a + p + "";
    PartitionAt(a, p, "");
    ReplaceStep(s, p, u + " " + w, a, "");
    assert !Contains("", p);
  }

  /** The common beginning of the two joined texts. */
  lemma OpeningOf(q: seq<string>, u: string, v: string, w: string) returns (a: string)
    ensures Join(q + [u, v], " ") == a + (u + " " + v)
    ensures Join(q + [u, w], " ") == a + (u + " " + w)
  {
    assert [u, v][1..] == [v] && [u, w][1..] == [w];
    if q == [] {
      a := "";
      assert q + [u, v] == [u, v] && q + [u, w] == [u, w];
    } else {
      a := Join(q, " ") + " ";
      JoinAppend(q, [u, v], " ");
      JoinAppend(q, [u, w], " ");
    }
  }

  // ---------------------------------------------------------------------- flip

  lemma FlagTexts()
    ensures FLAG_NO == "deleted:" + " " + "no" && FLAG_YES == "deleted:" + " " + "yes"
    ensures ' ' !in "deleted:" && ' ' !in "no" && '\n' !in FLAG_NO && FLAG_NO != ""
  {
    assert FLAG_NO[7] == ':';
  }

  /** No word of a row but the last flag is followed so as to read as the flag. */
  lemma RowPairs(m: Parsed, commit: Option<string>, q: seq<string>)
    requires RowWords(m, commit) == q + ["deleted:", "no"]
    requires |q| == (if commit.Some? then 21 else 18)
    ensures forall k :: 0 <= k < |q| ==> !PairAt(q + ["deleted:", "no"], "deleted:", "no", k)
  {
    var ts := q + ["deleted:", "no"];
    forall k | 0 <= k < |q| ensures !PairAt(ts, "deleted:", "no", k) {
      RowNeighbours(m, commit, k);
      NoPair(ts[k], ts[k + 1]);
    }
  }

  /** Every word of a row is followed by a dash, or is short, or is "verified:". */
  lemma RowNeighbours(m: Parsed, commit: Option<string>, k: nat)
    requires k < |RowWords(m, commit)| - 2
    ensures var t := RowWords(m, commit); t[k + 1] == "—" || |t[k]| < 8 || t[k] == "verified:"
  {
    hide RowWords, TagWords, BackupWords;
    RowWordList(m, commit);
    if commit.Some? {
      TagNeighbours(m, commit.value, k);
    } else {
      BackupNeighbours(m, k);
    }
  }

  /** The words of a row with a commit, and of one without. */
  function TagWords(m: Parsed, commit: string): seq<string> {
    ["-", m.name, "—", "commit", commit, "—", "key", m.key, "—", "sha256", m.sha, "—", "size", m.size, "—",
     "ETag", m.etag, "—", "verified:", m.verified, "—", "deleted:", m.deleted]
  }

  function BackupWords(m: Parsed): seq<string> {
    ["-", m.name, "—", "key", m.key, "—", "sha256", m.sha, "—", "size", m.size, "—",
     "ETag", m.etag, "—", "verified:", m.verified, "—", "deleted:", m.deleted]
  }

  lemma RowWordList(m: Parsed, commit: Option<string>)
    ensures RowWords(m, commit) == if commit.Some? then TagWords(m, commit.value) else BackupWords(m)
    ensures |RowWords(m, commit)| == if commit.Some? then 23 else 20
  {
    hide RowWords, TagWords, BackupWords;
    if commit.Some? {
      TagWordList(m, commit.value);
    } else {
      BackupWordList(m);
    }
  }

  lemma TagWordList(m: Parsed, commit: string)
    ensures RowWords(m, Some(commit)) == TagWords(m, commit) && |TagWords(m, commit)| == 23
  {
  }

  lemma BackupWordList(m: Parsed)
    ensures RowWords(m, None) == BackupWords(m) && |BackupWords(m)| == 20
  {
  }

  lemma TagNeighbours(m: Parsed, commit: string, k: nat)
    requires k < 21
    ensures var t := TagWords(m, commit); t[k + 1] == "—" || |t[k]| < 8 || t[k] == "verified:"
  {
    hide TagWords;
    TagDashes(m, commit);
    TagLabels(m, commit);
  }

  lemma TagDashes(m: Parsed, commit: string)
    ensures var t := TagWords(m, commit);
            |t| == 23 && t[2] == t[5] == t[8] == t[11] == t[14] == t[17] == t[20] == "—"
  {
  }

  lemma TagLabels(m: Parsed, commit: string)
    ensures var t := TagWords(m, commit);
            && |t| == 23 && t[0] == "-" && t[3] == "commit" && t[6] == "key" && t[9] == "sha256" && t[12] == "size"
            && t[15] == "ETag" && t[18] == "verified:"
            && |t[0]| < 8 && |t[2]| < 8 && |t[3]| < 8 && |t[5]| < 8 && |t[6]| < 8 && |t[8]| < 8 && |t[9]| < 8
            && |t[11]| < 8 && |t[12]| < 8 && |t[14]| < 8 && |t[15]| < 8 && |t[17]| < 8 && |t[20]| < 8
  {
  }

  lemma BackupNeighbours(m: Parsed, k: nat)
    requires k < 18
    ensures var t := BackupWords(m); t[k + 1] == "—" || |t[k]| < 8 || t[k] == "verified:"
  {
    hide BackupWords;
    BackupDashes(m);
    BackupLabels(m);
  }

  lemma BackupDashes(m: Parsed)
    ensures var t := BackupWords(m);
            |t| == 20 && t[2] == t[5] == t[8] == t[11] == t[14] == t[17] == "—"
  {
  }

  lemma BackupLabels(m: Parsed)
    ensures var t := BackupWords(m);
            && |t| == 20 && t[0] == "-" && t[3] == "key" && t[6] == "sha256" && t[9] == "size" && t[12] == "ETag"
            && t[15] == "verified:"
            && |t[0]| < 8 && |t[2]| < 8 && |t[3]| < 8 && |t[5]| < 8 && |t[6]| < 8 && |t[8]| < 8 && |t[9]| < 8
            && |t[11]| < 8 && |t[12]| < 8 && |t[14]| < 8 && |t[17]| < 8
  {
  }

  lemma NoPair(s: string, t: string)
    requires t == "—" || |s| < 8 || s == "verified:"
    ensures !(EndsWith(s, "deleted:") && "no" <= t)
  {
    assert "—"[0] != 'n' && |"deleted:"| == 8 && "deleted:"[0] == 'd';
    if s == "verified:" {
      assert s[|s| - 8..][0] == 'e';
    }
  }

  lemma FlipRow(m: Parsed, commit: Option<string>)
    requires m.deleted == "no" && PrintableEntry(Entry(m, commit))
    ensures Replace(RowLine(m, commit), FLAG_NO, FLAG_YES) == RowLine(m.(deleted := "yes"), commit)
  {
    hide Replace, Join, Word, Hash64, Digits;
    FlagTexts();
    var q := Opening(m, commit);
    RowPairs(m, commit, q);
    OpeningHasNoSpace(m, commit);
    ReplaceClosingPair(q, "deleted:", "no", "yes");
  }

  /** The words of a row before its deletion flag. */
  function Opening(m: Parsed, commit: Option<string>): (q: seq<string>)
    ensures RowWords(m, commit) == q + ["deleted:", m.deleted]
    ensures RowWords(m.(deleted := "yes"), commit) == q + ["deleted:", "yes"]
    ensures |q| == if commit.Some? then 21 else 18
  {
    var t := RowWords(m, commit);
    assert RowWords(m.(deleted := "yes"), commit) == t[..|t| - 2] + ["deleted:", "yes"];
    t[..|t| - 2]
  }

  lemma OpeningHasNoSpace(m: Parsed, commit: Option<string>)
    requires PrintableEntry(Entry(m, commit))
    ensures forall k :: 0 <= k < |Opening(m, commit)| ==> ' ' !in Opening(m, commit)[k]
  {
    hide Word, Hash64, Digits, Opening, RowWords, TagWords, BackupWords, PrintableEntry;
    FieldsHaveNoSpace(m, commit);
    RowWordList(m, commit);
    var q := Opening(m, commit);
    forall k | 0 <= k < |q| ensures ' ' !in q[k] {
      if commit.Some? {
        TagWordsHaveNoSpace(m, commit.value, k);
      } else {
        BackupWordsHaveNoSpace(m, k);
      }
    }
  }

  lemma FieldsHaveNoSpace(m: Parsed, commit: Option<string>)
    requires PrintableEntry(Entry(m, commit))
    ensures ' ' !in m.name && ' ' !in m.key && ' ' !in m.sha && ' ' !in m.size && ' ' !in m.etag && ' ' !in m.verified
    ensures commit.Some? ==> ' ' !in commit.value
  {
    hide Word, Hash64, Digits;
    NoSpaces(m.name);
    NoSpaces(m.key);
    NoSpaces(m.sha);
    NoSpaces(m.size);
    if m.etag != "" { NoSpaces(m.etag); }
    if commit.Some? { NoSpaces(commit.value); }
  }

  lemma TagWordsHaveNoSpace(m: Parsed, commit: string, k: nat)
    requires k < 21 && ' ' !in m.name && ' ' !in m.key && ' ' !in m.sha && ' ' !in m.size && ' ' !in m.etag
    requires ' ' !in m.verified && ' ' !in commit
    ensures ' ' !in TagWords(m, commit)[k]
  {
    hide TagWords;
    LabelsHaveNoSpace();
    TagDashes(m, commit);
    TagLabels(m, commit);
    TagFields(m, commit);
  }

  lemma TagFields(m: Parsed, commit: string)
    ensures var t := TagWords(m, commit);
            && t[1] == m.name && t[4] == commit && t[7] == m.key && t[10] == m.sha && t[13] == m.size
            && t[16] == m.etag && t[19] == m.verified
  {
  }

  lemma BackupWordsHaveNoSpace(m: Parsed, k: nat)
    requires k < 18 && ' ' !in m.name && ' ' !in m.key && ' ' !in m.sha && ' ' !in m.size && ' ' !in m.etag
    requires ' ' !in m.verified
    ensures ' ' !in BackupWords(m)[k]
  {
    hide BackupWords;
    LabelsHaveNoSpace();
    BackupDashes(m);
    BackupLabels(m);
    BackupFields(m);
  }

  lemma BackupFields(m: Parsed)
    ensures var t := BackupWords(m);
            && t[1] == m.name && t[4] == m.key && t[7] == m.sha && t[10] == m.size && t[13] == m.etag
            && t[16] == m.verified
  {
  }

  lemma LabelsHaveNoSpace()
    ensures ' ' !in "-" && ' ' !in "—" && ' ' !in "commit" && ' ' !in "key" && ' ' !in "sha256" && ' ' !in "size"
    ensures ' ' !in "ETag" && ' ' !in "verified:"
  {
  }

  lemma {:induction false} ReplaceLines(lines: seq<string>, lines': seq<string>, p: string, q: string)
    requires p != "" && '\n' !in p && |lines| == |lines'|
    requires forall i :: 0 <= i < |lines| ==> Replace(lines[i], p, q) == lines'[i]
    ensures Replace(Unlines(lines), p, q) == Unlines(lines')
  {
    if lines == [] {
      assert !Contains("", p);
    } else {
      ReplaceLines(lines[1..], lines'[1..], p, q);
      ReplaceAcross(lines[0], '\n', Unlines(lines[1..]), p, q);
    }
  }

  lemma FlipSections(p: seq<string>, tags: seq<Entry>, backups: seq<Entry>, tags': seq<Entry>, backups': seq<Entry>)
    requires forall i :: 0 <= i < |p| ==> Quiet(p[i])
    requires |tags| == |tags'| && |backups| == |backups'|
    requires forall i :: 0 <= i < |tags| ==> Flipped(tags[i], tags'[i])
    requires forall i :: 0 <= i < |backups| ==> Flipped(backups[i], backups'[i])
    ensures Replace(Unlines(SectionedLines(p, tags, backups)), FLAG_NO, FLAG_YES)
            == Unlines(SectionedLines(p, tags', backups'))
  {
    var a, a' := EntryLines(tags), EntryLines(tags');
    var b, b' := EntryLines(backups), EntryLines(backups');
    var lines, lines' := SectionedLines(p, tags, backups), SectionedLines(p, tags', backups');
    FlagTexts();
    HeadingsHaveNoFlag();
    forall i | 0 <= i < |a| ensures Replace(a[i], FLAG_NO, FLAG_YES) == a'[i] {
      FlipRow(tags[i].groups, tags[i].commit);
      assert Flipped(tags[i], tags'[i]);
    }
    forall i | 0 <= i < |b| ensures Replace(b[i], FLAG_NO, FLAG_YES) == b'[i] {
      FlipRow(backups[i].groups, backups[i].commit);
      assert Flipped(backups[i], backups'[i]);
    }
    forall i | 0 <= i < |p| ensures Replace(p[i], FLAG_NO, FLAG_YES) == p[i] {
      assert Quiet(p[i]);
    }
    ReplaceLines(lines, lines', FLAG_NO, FLAG_YES);
  }

  ghost predicate Flipped(e: Entry, e': Entry) {
    PrintableEntry(e) && e.groups.deleted == "no" && e' == Entry(e.groups.(deleted := "yes"), e.commit)
  }

  lemma HeadingsHaveNoFlag()
    ensures !Contains(TAGS, FLAG_NO) && !Contains(BACKUPS, FLAG_NO) && !Contains("", FLAG_NO)
  {
    assert FLAG_NO[7] == ':';
    var t, b := TAGS, BACKUPS;
    assert forall i :: 0 <= i < |t| ==> t[i] != ':';
    assert forall i :: 0 <= i < |b| ==> b[i] != ':';
    ContainsNeeds(t, FLAG_NO, 7);
    ContainsNeeds(b, FLAG_NO, 7);
    ContainsNeeds("", FLAG_NO, 7);
  }

  /** Replacing every `deleted: no` of a printed manifest by `deleted: yes` gives
      the manifest printed as deleted, and touches nothing else in it. */
  lemma FlipIsReprint(destination: string, tags: seq<TagRow>, backups: seq<BackupRow>)
    requires PrintableRows(tags, backups)
    ensures Replace(BuildManifest(destination, tags, backups, false), FLAG_NO, FLAG_YES)
            == BuildManifest(destination, tags, backups, true)
  {
    PreambleIsQuiet(destination);
    EntriesArePrintable(tags, backups, "no");
    UnlinesIsJoin(ManifestLines(destination, tags, backups, false));
    UnlinesIsJoin(ManifestLines(destination, tags, backups, true));
    FlipSections(Preamble(destination), TagEntries(tags, "no"), BackupEntries(backups, "no"),
                 TagEntries(tags, "yes"), BackupEntries(backups, "yes"));
  }
}
