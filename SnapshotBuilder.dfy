/**
 * TableSnapshot.Builder: gathers the directories that hold one logical snapshot,
 * adopting the first manifest that records timestamps, and before building the
 * entity creates or enriches manifests: it settles a creation instant and decides
 * which directories get a manifest (re)written, and with what content.
 */
module SnapshotBuilder {
  import opened Common
  import opened SnapshotFs
  import Snapshot

  /** The fields of a builder that addSnapshotDir and maybeCreateOrEnrichManifest change. */
  datatype BuilderState = BuilderState(createdAt: Option<Instant>, expiresAt: Option<Instant>, ephemeral: bool, dirs: seq<Path>)

  /** A manifest written to `dir`/manifest.json. */
  datatype ManifestWrite = ManifestWrite(dir: Path, manifest: Manifest)

  /** What maybeCreateOrEnrichManifest leaves behind: the builder's creation instant and the writes it issued. */
  datatype Enrichment = Enrichment(createdAt: Option<Instant>, writes: seq<ManifestWrite>)

  const EmptyBuilder := BuilderState(None, None, false, [])

  // ---------------------------------------------------------------------------
  // addSnapshotDir
  // ---------------------------------------------------------------------------

  /** loadMetadataFromManifest: adopt a readable manifest's timestamps and OR in its flag; an unreadable one changes nothing. */
  function LoadManifest(s: BuilderState, fs: Node, manifestFile: Path): BuilderState
  {
    match ReadManifest(fs, manifestFile)
    case None => s
    case Some(m) => s.(createdAt := m.createdAt, expiresAt := m.expiresAt, ephemeral := s.ephemeral || m.ephemeral)
  }

  /** Whether adding `dir` in state `s` reads its manifest: one exists and no timestamp is known yet. */
  predicate LoadsManifest(s: BuilderState, fs: Node, dir: Path)
  {
    Exists(fs, dir + [ManifestFileName]) && s.createdAt.None? && s.expiresAt.None?
  }

  /** addSnapshotDir. */
  function AddDir(s: BuilderState, fs: Node, dir: Path): BuilderState
  {
    var s1 := s.(dirs := if dir in s.dirs then s.dirs else s.dirs + [dir]);
    var s2 := if LoadsManifest(s1, fs, dir) then LoadManifest(s1, fs, dir + [ManifestFileName]) else s1;
    if !s2.ephemeral && Exists(fs, dir + [EphemeralMarkerName]) then s2.(ephemeral := true) else s2
  }

  /** Successive addSnapshotDir calls, in order. */
  function AddDirs(s: BuilderState, fs: Node, dirs: seq<Path>): BuilderState
    decreases |dirs|
  {
    if dirs == [] then s else AddDirs(AddDir(s, fs, dirs[0]), fs, dirs[1..])
  }

  lemma {:induction false} AddDirsAppend(s: BuilderState, fs: Node, a: seq<Path>, b: seq<Path>)
    ensures AddDirs(s, fs, a + b) == AddDirs(AddDirs(s, fs, a), fs, b)
    decreases |a|
  {
    if a != [] {
      assert (a + b)[0] == a[0] && (a + b)[1..] == a[1..] + b;
      AddDirsAppend(AddDir(s, fs, a[0]), fs, a[1..], b);
    } else {
      assert a + b == b;
    }
  }

  /** Once a timestamp is known, no later directory changes either timestamp. */
  lemma {:induction false} TimestampsAreKept(s: BuilderState, fs: Node, dirs: seq<Path>)
    requires s.createdAt.Some? || s.expiresAt.Some?
    ensures AddDirs(s, fs, dirs).createdAt == s.createdAt
    ensures AddDirs(s, fs, dirs).expiresAt == s.expiresAt
    decreases |dirs|
  {
    if dirs != [] {
      TimestampsAreKept(AddDir(s, fs, dirs[0]), fs, dirs[1..]);
    }
  }

  /** Once ephemeral, always ephemeral; and any directory with the legacy marker makes the snapshot ephemeral. */
  lemma {:induction false} EphemeralIsSticky(s: BuilderState, fs: Node, dirs: seq<Path>)
    ensures s.ephemeral ==> AddDirs(s, fs, dirs).ephemeral
    ensures (exists d <- dirs :: Exists(fs, d + [EphemeralMarkerName])) ==> AddDirs(s, fs, dirs).ephemeral
    decreases |dirs|
  {
    if dirs != [] {
      EphemeralIsSticky(AddDir(s, fs, dirs[0]), fs, dirs[1..]);
      if exists d <- dirs :: Exists(fs, d + [EphemeralMarkerName]) {
        var d :| d in dirs && Exists(fs, d + [EphemeralMarkerName]);
        if d != dirs[0] {
          assert d in dirs[1..];
        }
      }
    }
  }

  /** Directories whose manifest is missing or unreadable leave both timestamps as they were. */
  lemma {:induction false} UnreadableManifestsChangeNothing(s: BuilderState, fs: Node, dirs: seq<Path>)
    requires forall d <- dirs :: ReadManifest(fs, d + [ManifestFileName]).None?
    ensures AddDirs(s, fs, dirs).createdAt == s.createdAt
    ensures AddDirs(s, fs, dirs).expiresAt == s.expiresAt
    decreases |dirs|
  {
    if dirs != [] {
      assert dirs[0] in dirs;
      UnreadableManifestsChangeNothing(AddDir(s, fs, dirs[0]), fs, dirs[1..]);
    }
  }

  /** Every directory added is kept, once, in the order first added. */
  lemma {:induction false} DirectoriesAreCollected(s: BuilderState, fs: Node, dirs: seq<Path>)
    requires NoDuplicates(s.dirs)
    ensures NoDuplicates(AddDirs(s, fs, dirs).dirs)
    ensures |AddDirs(s, fs, dirs).dirs| >= |s.dirs|
    ensures forall d :: d in AddDirs(s, fs, dirs).dirs <==> d in s.dirs || d in dirs
    ensures AddDirs(s, fs, dirs).dirs[..|s.dirs|] == s.dirs
    decreases |dirs|
  {
    if dirs != [] {
      var s1 := AddDir(s, fs, dirs[0]);
      DirectoriesAreCollected(s1, fs, dirs[1..]);
      assert s1.dirs[..|s.dirs|] == s.dirs;
      assert forall d :: d in dirs <==> d == dirs[0] || d in dirs[1..];
    }
  }

  /**
   * The first manifest wins: when no directory before `d` yielded a timestamp and `d`'s
   * manifest records one, the builder ends with `d`'s timestamps, whatever follows.
   */
  lemma FirstTimestampedManifestWins(s: BuilderState, fs: Node, before: seq<Path>, d: Path, after: seq<Path>, m: Manifest)
    requires AddDirs(s, fs, before).createdAt.None? && AddDirs(s, fs, before).expiresAt.None?
    requires ReadManifest(fs, d + [ManifestFileName]) == Some(m)
    requires m.createdAt.Some? || m.expiresAt.Some?
    ensures AddDirs(s, fs, before + [d] + after).createdAt == m.createdAt
    ensures AddDirs(s, fs, before + [d] + after).expiresAt == m.expiresAt
  {
    var mid := AddDirs(s, fs, before);
    AddDirsAppend(s, fs, before, [d] + after);
    assert before + [d] + after == before + ([d] + after);
    var next := AddDir(mid, fs, d);
    assert ([d] + after)[0] == d && ([d] + after)[1..] == after;
    assert Lookup(fs, d + [ManifestFileName]).Some?;
    assert next.createdAt == m.createdAt && next.expiresAt == m.expiresAt;
    TimestampsAreKept(next, fs, after);
  }

  // ---------------------------------------------------------------------------
  // maybeCreateOrEnrichManifest
  // ---------------------------------------------------------------------------

  /** getSnapshotDirsWithoutManifest: the directories, in order, that hold no manifest.json. */
  function WithoutManifest(fs: Node, dirs: seq<Path>): seq<Path>
  {
    if dirs == [] then []
    else
      var d := dirs[|dirs| - 1];
      WithoutManifest(fs, dirs[..|dirs| - 1]) + (if Exists(fs, d + [ManifestFileName]) then [] else [d])
  }

  /** Exactly the directories lacking a manifest, so none at all when every directory has one. */
  lemma {:induction false} WithoutManifestMembers(fs: Node, dirs: seq<Path>)
    ensures forall d :: d in WithoutManifest(fs, dirs) <==> d in dirs && !Exists(fs, d + [ManifestFileName])
    ensures WithoutManifest(fs, dirs) == [] <==> forall d <- dirs :: Exists(fs, d + [ManifestFileName])
  {
    if dirs != [] {
      var d := dirs[|dirs| - 1];
      var init := dirs[..|dirs| - 1];
      WithoutManifestMembers(fs, init);
      assert dirs == init + [d];
      assert forall x :: x in dirs <==> x in init || x == d;
    }
  }

  /** The earliest positive last-modified time over `dirs`, -1 when none is positive (the builder's loop). */
  function PositiveMinLastModified(fs: Node, dirs: seq<Path>): int
  {
    if dirs == [] then -1
    else
      var m := PositiveMinLastModified(fs, dirs[..|dirs| - 1]);
      var current := LastModified(fs, dirs[|dirs| - 1]);
      if (current < m || m == -1) && current > 0 then current else m
  }

  lemma {:induction false} PositiveMinIsMinimum(fs: Node, dirs: seq<Path>)
    ensures var m := PositiveMinLastModified(fs, dirs);
            && (m == -1 <==> forall d <- dirs :: LastModified(fs, d) <= 0)
            && (m != -1 ==> m > 0 && exists d <- dirs :: LastModified(fs, d) == m)
            && (forall d <- dirs :: LastModified(fs, d) > 0 ==> m <= LastModified(fs, d))
  {
    if dirs != [] {
      var init := dirs[..|dirs| - 1];
      var last := dirs[|dirs| - 1];
      PositiveMinIsMinimum(fs, init);
      assert dirs == init + [last];
      var m0 := PositiveMinLastModified(fs, init);
      var m := PositiveMinLastModified(fs, dirs);
      if m == m0 && m != -1 {
        var d :| d in init && LastModified(fs, d) == m;
        assert d in dirs;
      }
    }
  }

  /**
   * The creation instant maybeCreateOrEnrichManifest settles on. A known instant is kept,
   * except that -1 ms is read as "unknown" and any other negative one falls back to now.
   */
  function DerivedCreatedAt(createdAt: Option<Instant>, fs: Node, dirs: seq<Path>, now: Instant): Instant
  {
    var known := if createdAt.None? then -1 else createdAt.value;
    var lastModified := if known == -1 then PositiveMinLastModified(fs, dirs) else known;
    if lastModified < 0 then now else lastModified
  }

  /** The order of preference: the known instant; else the earliest positive directory time; else now. */
  lemma DerivedCreatedAtPreference(createdAt: Option<Instant>, fs: Node, dirs: seq<Path>, now: Instant)
    ensures createdAt.Some? && createdAt.value >= 0 ==> DerivedCreatedAt(createdAt, fs, dirs, now) == createdAt.value
    ensures createdAt.None? && (exists d <- dirs :: LastModified(fs, d) > 0) ==>
              var c := DerivedCreatedAt(createdAt, fs, dirs, now);
              (exists d <- dirs :: LastModified(fs, d) == c) && forall d <- dirs :: LastModified(fs, d) > 0 ==> c <= LastModified(fs, d)
    ensures createdAt.None? && (forall d <- dirs :: LastModified(fs, d) <= 0) ==> DerivedCreatedAt(createdAt, fs, dirs, now) == now
  {
    PositiveMinIsMinimum(fs, dirs);
  }

  predicate IsDataFileName(name: string)
  {
    EndsWith(name, "-Data.db")
  }

  /** A dot-prefixed directory: set aside by the listing filter as a secondary-index directory. */
  predicate IsIndexDir(e: Entry)
  {
    e.node.Dir? && IsHidden(e.name)
  }

  /** The entries of a snapshot directory the listing filter keeps: data files, index directories excluded. */
  function TopLevelDataFiles(dir: Path, entries: seq<Entry>): seq<Path>
  {
    if entries == [] then []
    else
      var e := entries[|entries| - 1];
      TopLevelDataFiles(dir, entries[..|entries| - 1])
      + (if !IsIndexDir(e) && IsDataFileName(e.name) then [dir + [e.name]] else [])
  }

  /** The index directories the listing filter sets aside, in listing order. */
  function IndexDirs(entries: seq<Entry>): (dirs: seq<Entry>)
    ensures forall e :: e in dirs <==> e in entries && IsIndexDir(e)
  {
    if entries == [] then []
    else
      var e := entries[|entries| - 1];
      IndexDirs(entries[..|entries| - 1]) + (if IsIndexDir(e) then [e] else [])
  }

  /** The data files directly inside one index directory. */
  function DataFilesIn(dir: Path, entries: seq<Entry>): seq<Path>
  {
    if entries == [] then []
    else
      var e := entries[|entries| - 1];
      DataFilesIn(dir, entries[..|entries| - 1]) + (if IsDataFileName(e.name) then [dir + [e.name]] else [])
  }

  /** The data files of the index directories, in order; a directory that cannot be listed ends the scan. */
  function IndexDataFiles(dir: Path, indexDirs: seq<Entry>): seq<Path>
  {
    if indexDirs == [] then []
    else
      var e := indexDirs[0];
      if e.node.Dir? && e.node.listable then DataFilesIn(dir + [e.name], e.node.entries) + IndexDataFiles(dir, indexDirs[1..])
      else []
  }

  /** The data files maybeCreateOrEnrichManifest finds in one snapshot directory. */
  function DataFilesOf(fs: Node, dir: Path): seq<Path>
  {
    match Lookup(fs, dir)
    case Some(n) =>
      if n.Dir? && n.listable then TopLevelDataFiles(dir, n.entries) + IndexDataFiles(dir, IndexDirs(n.entries)) else []
    case None => []
  }

  /** A top-level data file of `dir`: a data-file name among its entries that is not an index directory. */
  predicate TopLevelDataFile(dir: Path, entries: seq<Entry>, p: Path)
  {
    exists e <- entries :: !IsIndexDir(e) && IsDataFileName(e.name) && p == dir + [e.name]
  }

  /** A data file one level down, inside one of the directories `indexDirs`. */
  predicate IndexDataFile(dir: Path, indexDirs: seq<Entry>, p: Path)
  {
    exists e, f :: e in indexDirs && e.node.Dir? && f in e.node.entries && IsDataFileName(f.name) && p == dir + [e.name, f.name]
  }

  lemma {:induction false} TopLevelDataFilesMembers(dir: Path, entries: seq<Entry>, p: Path)
    ensures p in TopLevelDataFiles(dir, entries) <==> TopLevelDataFile(dir, entries, p)
  {
    if entries != [] {
      var init := entries[..|entries| - 1];
      var e := entries[|entries| - 1];
      TopLevelDataFilesMembers(dir, init, p);
      assert entries == init + [e];
      assert forall x :: x in entries <==> x in init || x == e;
    }
  }

  lemma {:induction false} DataFilesInMembers(dir: Path, entries: seq<Entry>, p: Path)
    ensures p in DataFilesIn(dir, entries) <==> exists f <- entries :: IsDataFileName(f.name) && p == dir + [f.name]
  {
    if entries != [] {
      var init := entries[..|entries| - 1];
      var e := entries[|entries| - 1];
      DataFilesInMembers(dir, init, p);
      assert entries == init + [e];
      assert forall x :: x in entries <==> x in init || x == e;
    }
  }

  lemma {:induction false} IndexDataFilesMembers(dir: Path, indexDirs: seq<Entry>, p: Path)
    requires forall e <- indexDirs :: e.node.Dir? && e.node.listable
    ensures p in IndexDataFiles(dir, indexDirs) <==> IndexDataFile(dir, indexDirs, p)
    decreases |indexDirs|
  {
    if indexDirs != [] {
      var e := indexDirs[0];
      var rest := indexDirs[1..];
      IndexDataFilesMembers(dir, rest, p);
      DataFilesInMembers(dir + [e.name], e.node.entries, p);
      assert forall x :: x in indexDirs <==> x == e || x in rest;
      if p in DataFilesIn(dir + [e.name], e.node.entries) {
        var f :| f in e.node.entries && IsDataFileName(f.name) && p == dir + [e.name] + [f.name];
        assert p == dir + [e.name, f.name];
      }
      if IndexDataFile(dir, indexDirs, p) && !IndexDataFile(dir, rest, p) {
        var x, f :| x in indexDirs && x.node.Dir? && f in x.node.entries && IsDataFileName(f.name) && p == dir + [x.name, f.name];
        assert x == e;
        assert p == dir + [e.name] + [f.name];
      }
    }
  }

  /**
   * For a listable directory whose index directories can all be listed: the files found are
   * exactly the data files among its own entries, other than index directories, and the data
   * files directly inside its index directories.
   */
  lemma DataFilesOfMembers(fs: Node, dir: Path, n: Node, p: Path)
    requires Lookup(fs, dir) == Some(n) && n.Dir? && n.listable
    requires forall e <- n.entries :: IsIndexDir(e) ==> e.node.listable
    ensures p in DataFilesOf(fs, dir) <==>
              || (exists e <- n.entries :: !IsIndexDir(e) && IsDataFileName(e.name) && p == dir + [e.name])
              || (exists e, f :: e in n.entries && IsIndexDir(e) && f in e.node.entries
                                 && IsDataFileName(f.name) && p == dir + [e.name, f.name])
  {
    var idx := IndexDirs(n.entries);
    TopLevelDataFilesMembers(dir, n.entries, p);
    IndexDataFilesMembers(dir, idx, p);
  }

  /** The relative names of the data files whose descriptor can be recovered, in order. */
  function RelativeNames(files: seq<Path>, relativeName: Path -> Option<string>): seq<string>
  {
    if files == [] then []
    else
      var f := files[|files| - 1];
      RelativeNames(files[..|files| - 1], relativeName) + (if relativeName(f).Some? then [relativeName(f).value] else [])
  }

  /** allDataFiles: the relative data-file names of every directory, directory by directory. */
  function AllDataFiles(fs: Node, dirs: seq<Path>, relativeName: Path -> Option<string>): seq<string>
  {
    if dirs == [] then []
    else AllDataFiles(fs, dirs[..|dirs| - 1], relativeName) + RelativeNames(DataFilesOf(fs, dirs[|dirs| - 1]), relativeName)
  }

  /** The combined list holds the data files of every directory. */
  lemma {:induction false} AllDataFilesCoverEveryDir(fs: Node, dirs: seq<Path>, relativeName: Path -> Option<string>, d: Path)
    requires d in dirs
    ensures forall x <- RelativeNames(DataFilesOf(fs, d), relativeName) :: x in AllDataFiles(fs, dirs, relativeName)
  {
    if d != dirs[|dirs| - 1] {
      assert dirs == dirs[..|dirs| - 1] + [dirs[|dirs| - 1]];
      AllDataFilesCoverEveryDir(fs, dirs[..|dirs| - 1], relativeName, d);
    }
  }

  /** A directory whose manifest has a null createdAt (written before creation times were recorded). */
  predicate HasLegacyManifest(fs: Node, dir: Path)
  {
    var m := ReadManifest(fs, dir + [ManifestFileName]);
    m.Some? && m.value.createdAt.None?
  }

  /** The manifest writes of the last loop: to directories lacking a manifest, or holding a legacy one. */
  function PlannedWrites(fs: Node, dirs: seq<Path>, without: seq<Path>, m: Manifest): seq<ManifestWrite>
  {
    if dirs == [] then []
    else
      var d := dirs[|dirs| - 1];
      PlannedWrites(fs, dirs[..|dirs| - 1], without, m)
      + (if d in without || HasLegacyManifest(fs, d) then [ManifestWrite(d, m)] else [])
  }

  lemma {:induction false} PlannedWritesTargets(fs: Node, dirs: seq<Path>, without: seq<Path>, m: Manifest, w: ManifestWrite)
    ensures w in PlannedWrites(fs, dirs, without, m) <==> w.dir in dirs && w.manifest == m && (w.dir in without || HasLegacyManifest(fs, w.dir))
  {
    if dirs != [] {
      PlannedWritesTargets(fs, dirs[..|dirs| - 1], without, m, w);
      assert forall x :: x in dirs <==> x in dirs[..|dirs| - 1] || x == dirs[|dirs| - 1];
    }
  }

  /** maybeCreateOrEnrichManifest, as a function of the builder's state before it runs. */
  function Enrich(s: BuilderState, fs: Node, enabled: bool, now: Instant, relativeName: Path -> Option<string>): Enrichment
  {
    if !enabled then Enrichment(s.createdAt, [])
    else
      var without := WithoutManifest(fs, s.dirs);
      if s.createdAt.Some? && without == [] then Enrichment(s.createdAt, [])
      else
        var createdAt := DerivedCreatedAt(s.createdAt, fs, s.dirs, now);
        var manifest := Manifest(AllDataFiles(fs, s.dirs, relativeName), Some(createdAt), None, s.ephemeral);
        Enrichment(Some(createdAt), PlannedWrites(fs, s.dirs, without, manifest))
  }

  /** Nothing happens when enrichment is switched off, or the creation instant is known and every directory has a manifest. */
  lemma EnrichNoOp(s: BuilderState, fs: Node, enabled: bool, now: Instant, relativeName: Path -> Option<string>)
    requires !enabled || (s.createdAt.Some? && forall d <- s.dirs :: Exists(fs, d + [ManifestFileName]))
    ensures Enrich(s, fs, enabled, now, relativeName) == Enrichment(s.createdAt, [])
  {
    WithoutManifestMembers(fs, s.dirs);
  }

  /**
   * Otherwise the builder ends with a creation instant, and exactly the directories without
   * a manifest or with a legacy one are written, each with the combined data-file list of all
   * directories, that instant, no expiry and the builder's ephemeral flag.
   */
  lemma EnrichWrites(s: BuilderState, fs: Node, enabled: bool, now: Instant, relativeName: Path -> Option<string>, w: ManifestWrite)
    requires enabled && (s.createdAt.None? || exists d <- s.dirs :: !Exists(fs, d + [ManifestFileName]))
    ensures var e := Enrich(s, fs, enabled, now, relativeName);
            && e.createdAt == Some(DerivedCreatedAt(s.createdAt, fs, s.dirs, now))
            && (w in e.writes <==>
                  && w.dir in s.dirs
                  && (!Exists(fs, w.dir + [ManifestFileName]) || HasLegacyManifest(fs, w.dir))
                  && w.manifest == Manifest(AllDataFiles(fs, s.dirs, relativeName), e.createdAt, None, s.ephemeral))
  {
    var without := WithoutManifest(fs, s.dirs);
    WithoutManifestMembers(fs, s.dirs);
    var createdAt := DerivedCreatedAt(s.createdAt, fs, s.dirs, now);
    var manifest := Manifest(AllDataFiles(fs, s.dirs, relativeName), Some(createdAt), None, s.ephemeral);
    PlannedWritesTargets(fs, s.dirs, without, manifest, w);
  }

  /** A directory whose manifest already records a creation instant is never rewritten. */
  lemma EnrichSparesCurrentManifests(s: BuilderState, fs: Node, enabled: bool, now: Instant, relativeName: Path -> Option<string>, w: ManifestWrite)
    requires w in Enrich(s, fs, enabled, now, relativeName).writes
    requires ReadManifest(fs, w.dir + [ManifestFileName]).Some?
    ensures ReadManifest(fs, w.dir + [ManifestFileName]).value.createdAt.None?
  {
    var without := WithoutManifest(fs, s.dirs);
    var createdAt := DerivedCreatedAt(s.createdAt, fs, s.dirs, now);
    var manifest := Manifest(AllDataFiles(fs, s.dirs, relativeName), Some(createdAt), None, s.ephemeral);
    PlannedWritesTargets(fs, s.dirs, without, manifest, w);
    WithoutManifestMembers(fs, s.dirs);
  }

  // ---------------------------------------------------------------------------
  // The loops of maybeCreateOrEnrichManifest
  // ---------------------------------------------------------------------------

  /** The loop over the snapshot directories' modification times. */
  method EarliestPositiveLastModified(fs: Node, dirs: seq<Path>) returns (lastModified: int)
    ensures lastModified == PositiveMinLastModified(fs, dirs)
  {
    lastModified := -1;
    var i := 0;
    while i < |dirs|
      invariant 0 <= i <= |dirs|
      invariant lastModified == PositiveMinLastModified(fs, dirs[..i])
    {
      assert dirs[..i + 1][..i] == dirs[..i];
      var currentLastModified := LastModified(fs, dirs[i]);
      if (currentLastModified < lastModified || lastModified == -1) && currentLastModified > 0 {
        lastModified := currentLastModified;
      }
      i := i + 1;
    }
    assert dirs[..|dirs|] == dirs;
  }

  /** The loop that gathers every directory's data files into allDataFiles. */
  method CollectDataFiles(fs: Node, dirs: seq<Path>, relativeName: Path -> Option<string>) returns (allDataFiles: seq<string>)
    ensures allDataFiles == AllDataFiles(fs, dirs, relativeName)
  {
    allDataFiles := [];
    var j := 0;
    while j < |dirs|
      invariant 0 <= j <= |dirs|
      invariant allDataFiles == AllDataFiles(fs, dirs[..j], relativeName)
    {
      assert dirs[..j + 1][..j] == dirs[..j];
      allDataFiles := allDataFiles + RelativeNames(DataFilesOf(fs, dirs[j]), relativeName);
      j := j + 1;
    }
    assert dirs[..|dirs|] == dirs;
  }

  /** The closing loop: write the manifest where there is none, or where the existing one has no creation instant. */
  method WriteManifests(fs: Node, dirs: seq<Path>, without: seq<Path>, manifest: Manifest) returns (writes: seq<ManifestWrite>)
    ensures writes == PlannedWrites(fs, dirs, without, manifest)
  {
    writes := [];
    var k := 0;
    while k < |dirs|
      invariant 0 <= k <= |dirs|
      invariant writes == PlannedWrites(fs, dirs[..k], without, manifest)
    {
      var snapshotDir := dirs[k];
      assert dirs[..k + 1][..k] == dirs[..k];
      if snapshotDir in without {
        writes := writes + [ManifestWrite(snapshotDir, manifest)];
      } else {
        var existing := ReadManifest(fs, snapshotDir + [ManifestFileName]);
        if existing.Some? && existing.value.createdAt.None? {
          writes := writes + [ManifestWrite(snapshotDir, manifest)];
        }
      }
      k := k + 1;
    }
    assert dirs[..|dirs|] == dirs;
  }

  // ---------------------------------------------------------------------------
  // The builder
  // ---------------------------------------------------------------------------

  class Builder {
    const keyspaceName: string
    const tableName: string
    const tableId: string
    const tag: Option<string>

    var createdAt: Option<Instant>
    var expiresAt: Option<Instant>
    var ephemeral: bool
    /** The directories added so far: a Java set, kept in the order they were first added. */
    var snapshotDirs: seq<Path>

    ghost predicate Valid()
      reads this
    {
      NoDuplicates(snapshotDirs)
    }

    ghost function State(): BuilderState
      reads this
    {
      BuilderState(createdAt, expiresAt, ephemeral, snapshotDirs)
    }

    constructor (keyspaceName: string, tableName: string, tableId: string, tag: Option<string>)
      ensures Valid() && State() == EmptyBuilder
      ensures this.keyspaceName == keyspaceName && this.tableName == tableName
      ensures this.tableId == tableId && this.tag == tag
    {
      this.keyspaceName := keyspaceName;
      this.tableName := tableName;
      this.tableId := tableId;
      this.tag := tag;
      createdAt := None;
      expiresAt := None;
      ephemeral := false;
      snapshotDirs := [];
    }

    /** addSnapshotDir. */
    method AddSnapshotDir(fs: Node, snapshotDir: Path)
      requires Valid()
      modifies this`createdAt, this`expiresAt, this`ephemeral, this`snapshotDirs
      ensures Valid() && State() == AddDir(old(State()), fs, snapshotDir)
    {
      if snapshotDir !in snapshotDirs {
        snapshotDirs := snapshotDirs + [snapshotDir];
      }
      var manifestFile := snapshotDir + [ManifestFileName];
      if Exists(fs, manifestFile) && createdAt.None? && expiresAt.None? {
        LoadMetadataFromManifest(fs, manifestFile);
      }
      if !ephemeral && Exists(fs, snapshotDir + [EphemeralMarkerName]) {
        ephemeral := true;
      }
    }

    /** loadMetadataFromManifest. */
    method LoadMetadataFromManifest(fs: Node, manifestFile: Path)
      modifies this`createdAt, this`expiresAt, this`ephemeral
      ensures State() == LoadManifest(old(State()), fs, manifestFile)
    {
      var manifest := ReadManifest(fs, manifestFile);
      if manifest.Some? {
        createdAt := manifest.value.createdAt;
        expiresAt := manifest.value.expiresAt;
        if !ephemeral {
          ephemeral := manifest.value.ephemeral;
        }
      }
    }

    /** getSnapshotDirsWithoutManifest. */
    method GetSnapshotDirsWithoutManifest(fs: Node) returns (without: seq<Path>)
      ensures without == WithoutManifest(fs, snapshotDirs)
    {
      var dirs := snapshotDirs;
      without := [];
      var i := 0;
      while i < |dirs|
        invariant 0 <= i <= |dirs|
        invariant without == WithoutManifest(fs, dirs[..i])
      {
        assert dirs[..i + 1][..i] == dirs[..i];
        if !Exists(fs, dirs[i] + [ManifestFileName]) {
          without := without + [dirs[i]];
        }
        i := i + 1;
      }
      assert dirs[..|dirs|] == dirs;
    }

    /**
     * maybeCreateOrEnrichManifest. `enabled` is the enrichment configuration flag, `now` the
     * clock, and `relativeName` recovers a data file's relative name from its descriptor
     * (None where no descriptor can be parsed). The writes are returned in the order issued.
     */
    method MaybeCreateOrEnrichManifest(fs: Node, enabled: bool, now: Instant, relativeName: Path -> Option<string>)
      returns (writes: seq<ManifestWrite>)
      requires Valid()
      modifies this`createdAt
      ensures Valid()
      ensures Enrichment(createdAt, writes) == Enrich(old(State()), fs, enabled, now, relativeName)
    {
      writes := [];
      if !enabled {
        return;
      }
      var without := GetSnapshotDirsWithoutManifest(fs);
      if createdAt.Some? && without == [] {
        return;
      }

      var dirs := snapshotDirs;
      var lastModified := if createdAt.None? then -1 else createdAt.value;
      if lastModified == -1 {
        lastModified := EarliestPositiveLastModified(fs, dirs);
      }
      var allDataFiles := CollectDataFiles(fs, dirs, relativeName);
      createdAt := Some(if lastModified < 0 then now else lastModified);
      var manifest := Manifest(allDataFiles, createdAt, None, ephemeral);
      writes := WriteManifests(fs, dirs, without, manifest);
    }

    /**
     * build: enrich the manifests, then construct the entity. `after` is the file system once
     * the manifest writes have been made; the entity reads its sidecar sizes from it.
     */
    method Build(fs: Node, enabled: bool, now: Instant, relativeName: Path -> Option<string>, after: Node)
      returns (snapshot: Snapshot.TableSnapshot, writes: seq<ManifestWrite>)
      requires Valid()
      modifies this`createdAt
      ensures Enrichment(createdAt, writes) == Enrich(old(State()), fs, enabled, now, relativeName)
      ensures fresh(snapshot)
      ensures snapshot.keyspaceName == keyspaceName && snapshot.tableName == tableName
      ensures snapshot.tableId == tableId && snapshot.tag == tag
      ensures snapshot.createdAt == createdAt && snapshot.expiresAt == expiresAt
      ensures snapshot.snapshotDirs == snapshotDirs && snapshot.ephemeral == ephemeral
      ensures snapshot.sizeOnDisk == 0 && snapshot.IsCompleted()
      ensures snapshot.manifestsSize == Snapshot.SidecarsSize(after, snapshotDirs, ManifestFileName)
      ensures snapshot.schemasSize == Snapshot.SidecarsSize(after, snapshotDirs, SchemaFileName)
    {
      writes := MaybeCreateOrEnrichManifest(fs, enabled, now, relativeName);
      snapshot := new Snapshot.TableSnapshot(keyspaceName, tableName, tableId, tag, createdAt, expiresAt, snapshotDirs, ephemeral, after);
    }
  }
}
