/**
 * TableSnapshot: one named, possibly multi-directory snapshot of a table. Its
 * identity and timestamps are fixed at construction; it caches its size on disk
 * and the sizes of its manifest and schema sidecars, and carries a lifecycle
 * flag. The file system it reads is passed in as a value on every call.
 */
module Snapshot {
  import opened Common
  import opened SnapshotFs
  import opened SnapshotNames

  /** The host-platform facts tag comparison depends on: whether it is macOS, and its lower-casing. */
  datatype Platform = Platform(isMacOS: bool, lowerCase: string -> string)

  /** The four components equality is defined over. */
  datatype Identity = Identity(keyspace: string, table: string, tableId: string, tag: Option<string>)

  // ---------------------------------------------------------------------------
  // Pure rules of the entity
  // ---------------------------------------------------------------------------

  /**
   * isExpired: only a snapshot with both a creation and an expiry instant can expire,
   * and it is expired strictly after its expiry instant.
   */
  function IsExpired(createdAt: Option<Instant>, expiresAt: Option<Instant>, now: Instant): (expired: bool)
    ensures createdAt.None? || expiresAt.None? ==> !expired
    ensures createdAt.Some? && expiresAt.Some? ==> (expired <==> expiresAt.value < now)
  {
    if createdAt.None? || expiresAt.None? then false else expiresAt.value < now
  }

  /** Not yet expired at the very instant it expires. */
  lemma NotExpiredAtExpiry(createdAt: Instant, expiresAt: Instant)
    ensures !IsExpired(Some(createdAt), Some(expiresAt), expiresAt)
  {
  }

  /** Once expired, expired at every later instant. */
  lemma ExpiryIsPermanent(createdAt: Option<Instant>, expiresAt: Option<Instant>, now: Instant, later: Instant)
    requires IsExpired(createdAt, expiresAt, now) && now <= later
    ensures IsExpired(createdAt, expiresAt, later)
  {
  }

  /**
   * tagsEqual: two null tags are equal, a null and a non-null tag are not; otherwise the
   * tags are compared after lower-casing on macOS and exactly elsewhere.
   */
  function TagsEqual(platform: Platform, tag1: Option<string>, tag2: Option<string>): (equal: bool)
    ensures tag1.None? && tag2.None? ==> equal
    ensures tag1.None? != tag2.None? ==> !equal
    ensures tag1.Some? && tag2.Some? && !platform.isMacOS ==> (equal <==> tag1.value == tag2.value)
    ensures tag1.Some? && tag2.Some? && platform.isMacOS
            ==> (equal <==> platform.lowerCase(tag1.value) == platform.lowerCase(tag2.value))
  {
    if tag1.None? && tag2.None? then true
    else if tag1.None? || tag2.None? then false
    else if platform.isMacOS then platform.lowerCase(tag1.value) == platform.lowerCase(tag2.value)
    else tag1.value == tag2.value
  }

  /** equals: keyspace, table and table id exactly, tags by tagsEqual. */
  function IdentitiesEqual(platform: Platform, a: Identity, b: Identity): bool
  {
    a.keyspace == b.keyspace && a.table == b.table && a.tableId == b.tableId && TagsEqual(platform, a.tag, b.tag)
  }

  /** Off macOS, equality is equality of the four components. */
  lemma EqualsIsExactOffMacOS(platform: Platform, a: Identity, b: Identity)
    requires !platform.isMacOS
    ensures IdentitiesEqual(platform, a, b) <==> a == b
  {
  }

  /** On every platform equals is an equivalence relation, whatever the lower-casing does. */
  lemma EqualsIsEquivalence(platform: Platform, a: Identity, b: Identity, c: Identity)
    ensures IdentitiesEqual(platform, a, a)
    ensures IdentitiesEqual(platform, a, b) ==> IdentitiesEqual(platform, b, a)
    ensures IdentitiesEqual(platform, a, b) && IdentitiesEqual(platform, b, c) ==> IdentitiesEqual(platform, a, c)
  {
  }

  /**
   * getLiveFileFromSnapshotFile. A snapshot file lies at {data_dir}/snapshots/{tag}/{file},
   * or at {data_dir}/snapshots/{tag}/.{index}/{file}; its live file at {data_dir}/{file},
   * or at {data_dir}/.{index}/{file}. None stands for the NullPointerException the Java
   * code raises when the path is too short to have the parents it climbs to.
   */
  function LiveFileFromSnapshotFile(p: Path): (live: Option<Path>)
    ensures live.Some? <==> |p| >= 3 && (IsHidden(p[|p| - 2]) ==> |p| >= 4)
    ensures live.Some? ==> |live.value| == |p| - 2 && live.value[|live.value| - 1] == p[|p| - 1]
  {
    if |p| < 3 then None
    else if IsHidden(p[|p| - 2]) then
      if |p| < 4 then None else Some(p[..|p| - 4] + [p[|p| - 2], p[|p| - 1]])
    else Some(p[..|p| - 3] + [p[|p| - 1]])
  }

  lemma LiveFileOfTableFile(dataDir: Path, tag: string, file: string)
    requires !IsHidden(tag)
    ensures LiveFileFromSnapshotFile(dataDir + ["snapshots", tag, file]) == Some(dataDir + [file])
  {
    var p := dataDir + ["snapshots", tag, file];
    assert p[..|p| - 3] == dataDir;
  }

  lemma LiveFileOfIndexFile(dataDir: Path, tag: string, index: string, file: string)
    requires IsHidden(index)
    ensures LiveFileFromSnapshotFile(dataDir + ["snapshots", tag, index, file]) == Some(dataDir + [index, file])
  {
    var p := dataDir + ["snapshots", tag, index, file];
    assert p[..|p| - 4] == dataDir;
  }

  // ---------------------------------------------------------------------------
  // Directory listing (listDir)
  // ---------------------------------------------------------------------------

  /**
   * What listDir returns for `dir`: every entry in listing order, except that a
   * dot-prefixed entry is replaced by the listing of its own contents. A path that does
   * not exist, is not a directory or cannot be listed lists as empty. Every listed path
   * lies below `dir`, has a non-hidden name and only hidden directories in between.
   */
  function Listing(fs: Node, dir: Path): (paths: seq<Path>)
    ensures forall p <- paths :: ListedBelow(dir, p)
  {
    match Lookup(fs, dir)
    case Some(n) =>
      if n.Dir? && n.listable then
        DirListingShape(dir, n, |n.entries|);
        DirListing(dir, n, |n.entries|)
      else []
    case None => []
  }

  /** The listing contributed by the first `k` entries of directory node `d` at path `dir`. */
  function DirListing(dir: Path, d: Node, k: nat): seq<Path>
    requires d.Dir? && k <= |d.entries|
    decreases d, k
  {
    if k == 0 then []
    else
      var e := d.entries[k - 1];
      assert e in d.entries;
      DirListing(dir, d, k - 1) + EntryListing(dir, e)
  }

  function EntryListing(dir: Path, e: Entry): seq<Path>
    decreases e, 0
  {
    if !IsHidden(e.name) then [dir + [e.name]]
    else if e.node.Dir? && e.node.listable then DirListing(dir + [e.name], e.node, |e.node.entries|)
    else []
  }

  /** The shape of what is listed: below `dir`, a non-hidden name, reached through hidden directories only. */
  ghost predicate ListedBelow(dir: Path, p: Path)
  {
    |p| > |dir| && p[..|dir|] == dir && !IsHidden(p[|p| - 1])
    && forall i :: |dir| <= i < |p| - 1 ==> IsHidden(p[i])
  }

  lemma {:induction false} DirListingShape(dir: Path, d: Node, k: nat)
    requires d.Dir? && k <= |d.entries|
    ensures forall p :: p in DirListing(dir, d, k) ==> ListedBelow(dir, p)
    decreases d, k
  {
    if k > 0 {
      var e := d.entries[k - 1];
      assert e in d.entries;
      DirListingShape(dir, d, k - 1);
      if IsHidden(e.name) && e.node.Dir? && e.node.listable {
        var sub := dir + [e.name];
        DirListingShape(sub, e.node, |e.node.entries|);
        forall p | p in EntryListing(dir, e) ensures ListedBelow(dir, p) {
          assert ListedBelow(sub, p);
          assert p[..|sub|] == sub;
          assert p[..|dir|] == sub[..|dir|];
        }
      }
    }
  }

  /**
   * Nothing is lost: every non-hidden entry of a listed directory is listed, and so is
   * everything the listing of a hidden subdirectory yields.
   */
  lemma {:induction false} DirListingComplete(dir: Path, d: Node, k: nat, j: nat)
    requires d.Dir? && k <= |d.entries| && j < k
    ensures forall p :: p in EntryListing(dir, d.entries[j]) ==> p in DirListing(dir, d, k)
    decreases k
  {
    if j < k - 1 {
      DirListingComplete(dir, d, k - 1, j);
    }
  }

  /** A directory that exists and can be listed. */
  predicate ListableDir(fs: Node, dir: Path)
  {
    Lookup(fs, dir).Some? && Lookup(fs, dir).value.Dir? && Lookup(fs, dir).value.listable
  }

  lemma {:induction false} DirListingInTree(fs: Node, dir: Path, d: Node, k: nat)
    requires Lookup(fs, dir) == Some(d) && d.Dir? && UniqueNames(d) && k <= |d.entries|
    ensures forall p <- DirListing(dir, d, k) :: Lookup(fs, p).Some?
    decreases d, k
  {
    if k > 0 {
      var e := d.entries[k - 1];
      assert e in d.entries;
      DirListingInTree(fs, dir, d, k - 1);
      ChildOfUniqueName(d.entries, e);
      LookupAppend(fs, dir, [e.name]);
      assert Lookup(fs, dir + [e.name]) == Some(e.node);
      if IsHidden(e.name) && e.node.Dir? && e.node.listable {
        DirListingInTree(fs, dir + [e.name], e.node, |e.node.entries|);
      }
    }
  }

  /** Everything listed is in the tree (whose directories, like a real file system's, never repeat a name). */
  lemma ListingInTree(fs: Node, dir: Path)
    requires UniqueNames(fs)
    ensures forall p <- Listing(fs, dir) :: Lookup(fs, p).Some?
  {
    if ListableDir(fs, dir) {
      LookupUniqueNames(fs, dir);
      var n := Lookup(fs, dir).value;
      DirListingInTree(fs, dir, n, |n.entries|);
    }
  }

  /**
   * Everything is listed that can be: a path below `dir` with a name that is not dot-prefixed,
   * reached only through dot-prefixed directories, is listed when it exists and every
   * directory from `dir` down to its parent can be listed.
   */
  lemma {:induction false} ListingComplete(fs: Node, dir: Path, p: Path)
    requires Lookup(fs, p).Some? && ListedBelow(dir, p)
    requires forall i :: |dir| <= i < |p| ==> ListableDir(fs, p[..i])
    ensures p in Listing(fs, dir)
    decreases |p| - |dir|
  {
    assert p[..|dir|] == dir;
    var n := Lookup(fs, dir).value;
    var name := p[|dir|];
    var sub := dir + [name];
    assert p == dir + p[|dir|..];
    LookupAppend(fs, dir, p[|dir|..]);
    assert p[|dir|..][0] == name;
    var c := Child(n.entries, name).value;
    var e :| e in n.entries && e.name == name && e.node == c;
    var j :| 0 <= j < |n.entries| && n.entries[j] == e;
    DirListingComplete(dir, n, |n.entries|, j);
    if |p| == |dir| + 1 {
      assert p == sub;
    } else {
      assert p[..|dir| + 1] == sub;
      LookupAppend(fs, dir, [name]);
      assert Lookup(fs, sub) == Some(c);
      forall i | |sub| <= i < |p| ensures ListableDir(fs, p[..i]) {
      }
      assert ListedBelow(sub, p) by {
        assert p[..|sub|] == sub;
        assert IsHidden(p[|dir|]);
      }
      ListingComplete(fs, sub, p);
    }
  }

  // ---------------------------------------------------------------------------
  // Size accounting
  // ---------------------------------------------------------------------------

  /** Whether a listed file is manifest.json or schema.cql. */
  predicate IsSidecar(p: Path)
    requires |p| >= 1
  {
    p[|p| - 1] == ManifestFileName || p[|p| - 1] == SchemaFileName
  }

  /**
   * Whether computeTrueSizeBytes gets through a listed file: getLiveFileFromSnapshotFile
   * is reached only for a file that is not a sidecar when a live set is given, and then
   * must have the parents it climbs to.
   */
  predicate Resolvable(p: Path, live: Option<set<Path>>)
  {
    |p| >= 1 && (live.Some? && !IsSidecar(p) ==> LiveFileFromSnapshotFile(p).Some?)
  }

  /** Whether computeTrueSizeBytes counts a listed file: not a sidecar, and not shared with live data. */
  predicate Counted(p: Path, live: Option<set<Path>>)
    requires Resolvable(p, live)
  {
    !IsSidecar(p) && (live.None? || LiveFileFromSnapshotFile(p).value !in live.value)
  }

  /** The bytes of the counted files among `paths`. */
  function CountedSize(fs: Node, paths: seq<Path>, live: Option<set<Path>>): nat
    requires forall p <- paths :: Resolvable(p, live)
  {
    if paths == [] then 0
    else
      var p := paths[|paths| - 1];
      CountedSize(fs, paths[..|paths| - 1], live) + (if Counted(p, live) then SizeOrZero(fs, p) else 0)
  }

  /** Whether computeTrueSizeBytes gets through every file listed under `dirs`. */
  predicate TrueSizeDefined(fs: Node, dirs: seq<Path>, live: Option<set<Path>>)
  {
    forall d <- dirs, p <- Listing(fs, d) :: Resolvable(p, live)
  }

  /** Without a live set (a dropped table) computeTrueSizeBytes gets through any directories. */
  lemma TrueSizeDefinedWithoutLiveSet(fs: Node, dirs: seq<Path>)
    ensures TrueSizeDefined(fs, dirs, None)
  {
    forall d <- dirs, p <- Listing(fs, d) ensures Resolvable(p, None) {
      assert ListedBelow(d, p);
    }
  }

  /** The data bytes of a snapshot's directories that computeTrueSizeBytes attributes to it. */
  function TrueSize(fs: Node, dirs: seq<Path>, live: Option<set<Path>>): nat
    requires TrueSizeDefined(fs, dirs, live)
  {
    if dirs == [] then 0
    else
      var d := dirs[|dirs| - 1];
      TrueSize(fs, dirs[..|dirs| - 1], live) + CountedSize(fs, Listing(fs, d), live)
  }

  /** `wide` counts every file `narrow` counts: no live set at all, or a smaller one. */
  predicate CountsMore(wide: Option<set<Path>>, narrow: Option<set<Path>>)
  {
    wide.None? || (narrow.Some? && wide.value <= narrow.value)
  }

  lemma {:induction false} CountedSizeMonotone(fs: Node, paths: seq<Path>, wide: Option<set<Path>>, narrow: Option<set<Path>>)
    requires forall p <- paths :: Resolvable(p, narrow)
    requires CountsMore(wide, narrow)
    ensures CountedSize(fs, paths, narrow) <= CountedSize(fs, paths, wide)
  {
    if paths != [] {
      CountedSizeMonotone(fs, paths[..|paths| - 1], wide, narrow);
    }
  }

  /**
   * The more live files there are, the less true size a snapshot has; a dropped table
   * (no live set) attributes every snapshot file to the snapshot.
   */
  lemma {:induction false} TrueSizeMonotone(fs: Node, dirs: seq<Path>, wide: Option<set<Path>>, narrow: Option<set<Path>>)
    requires TrueSizeDefined(fs, dirs, narrow)
    requires CountsMore(wide, narrow)
    ensures TrueSizeDefined(fs, dirs, wide)
    ensures TrueSize(fs, dirs, narrow) <= TrueSize(fs, dirs, wide)
  {
    forall d <- dirs, p <- Listing(fs, d) ensures Resolvable(p, wide) {
      assert Resolvable(p, narrow);
    }
    if dirs != [] {
      var d := dirs[|dirs| - 1];
      TrueSizeMonotone(fs, dirs[..|dirs| - 1], wide, narrow);
      CountedSizeMonotone(fs, Listing(fs, d), wide, narrow);
    }
  }

  /** A file whose live counterpart is in the live set adds nothing to the true size. */
  lemma {:induction false} SharedFileNotCounted(fs: Node, paths: seq<Path>, live: set<Path>, p: Path)
    requires forall q <- paths :: Resolvable(q, Some(live))
    requires Resolvable(p, Some(live)) && !IsSidecar(p) && LiveFileFromSnapshotFile(p).value in live
    ensures CountedSize(fs, paths + [p], Some(live)) == CountedSize(fs, paths, Some(live))
  {
    assert (paths + [p])[..|paths|] == paths;
  }

  /** The sizes of the sidecar file called `name` (manifest.json or schema.cql) over `dirs`. */
  function SidecarsSize(fs: Node, dirs: seq<Path>, name: string): nat
  {
    if dirs == [] then 0
    else
      var f := dirs[|dirs| - 1] + [name];
      SidecarsSize(fs, dirs[..|dirs| - 1], name) + (if Exists(fs, f) then SizeOrZero(fs, f) else 0)
  }

  /** The sum of FileUtils.folderSize over `dirs`. */
  function DiskUsage(fs: Node, dirs: seq<Path>): nat
  {
    if dirs == [] then 0 else DiskUsage(fs, dirs[..|dirs| - 1]) + FolderSize(fs, dirs[|dirs| - 1])
  }

  /**
   * The minimum non-zero last-modified time over the existing directories, 0 when there
   * is none (the accumulation getCreatedAt performs).
   */
  function MinNonZeroLastModified(fs: Node, dirs: seq<Path>): int
  {
    if dirs == [] then 0
    else
      var m := MinNonZeroLastModified(fs, dirs[..|dirs| - 1]);
      var d := dirs[|dirs| - 1];
      var lastModified := LastModified(fs, d);
      if !Exists(fs, d) || lastModified == 0 then m
      else if m == 0 || m > lastModified then lastModified
      else m
  }

  ghost predicate DatesDir(fs: Node, d: Path)
  {
    Exists(fs, d) && LastModified(fs, d) != 0
  }

  /** MinNonZeroLastModified is the least non-zero time of an existing directory, or 0 if none has one. */
  lemma {:induction false} MinNonZeroIsMinimum(fs: Node, dirs: seq<Path>)
    ensures var m := MinNonZeroLastModified(fs, dirs);
            && (m == 0 <==> forall d <- dirs :: !DatesDir(fs, d))
            && (m != 0 ==> exists d <- dirs :: DatesDir(fs, d) && LastModified(fs, d) == m)
            && (forall d <- dirs :: DatesDir(fs, d) ==> m <= LastModified(fs, d))
  {
    if dirs != [] {
      var init := dirs[..|dirs| - 1];
      var last := dirs[|dirs| - 1];
      MinNonZeroIsMinimum(fs, init);
      assert dirs == init + [last];
      var m0 := MinNonZeroLastModified(fs, init);
      var m := MinNonZeroLastModified(fs, dirs);
      if DatesDir(fs, last) {
        assert m != 0;
        assert m == m0 || m == LastModified(fs, last);
        if m == m0 {
          var d :| d in init && DatesDir(fs, d) && LastModified(fs, d) == m;
          assert d in dirs;
        }
      } else {
        assert m == m0;
        if m != 0 {
          var d :| d in init && DatesDir(fs, d) && LastModified(fs, d) == m;
          assert d in dirs;
        }
      }
    }
  }

  /** getCreatedAt: the recorded instant, else the earliest directory time, else none. */
  function CreatedAtOf(createdAt: Option<Instant>, fs: Node, dirs: seq<Path>): Option<Instant>
  {
    if createdAt.Some? then createdAt
    else
      var m := MinNonZeroLastModified(fs, dirs);
      if m != 0 then Some(m) else None
  }

  // ---------------------------------------------------------------------------
  // listDir, and the size loops the entity runs
  // ---------------------------------------------------------------------------

  /** listDir. */
  method ListDir(fs: Node, dir: Path) returns (paths: seq<Path>)
    ensures paths == Listing(fs, dir)
  {
    var n := Lookup(fs, dir);
    if n.Some? && n.value.Dir? && n.value.listable {
      paths := ListDirNode(dir, n.value);
    } else {
      paths := [];
    }
  }

  /** The body of listDir once Files.list has succeeded on directory node `d`. */
  method ListDirNode(dir: Path, d: Node) returns (paths: seq<Path>)
    requires d.Dir?
    ensures paths == DirListing(dir, d, |d.entries|)
    decreases d
  {
    paths := [];
    var i := 0;
    while i < |d.entries|
      invariant 0 <= i <= |d.entries|
      invariant paths == DirListing(dir, d, i)
    {
      var e := d.entries[i];
      assert e in d.entries;
      if IsHidden(e.name) {
        if e.node.Dir? && e.node.listable {
          var nested := ListDirNode(dir + [e.name], e.node);
          paths := paths + nested;
        }
      } else {
        paths := paths + [dir + [e.name]];
      }
      i := i + 1;
    }
  }

  /** getManifestsSize / getSchemasSize: the lengths of the existing sidecar files. */
  method GetSidecarsSize(fs: Node, dirs: seq<Path>, name: string) returns (size: nat)
    ensures size == SidecarsSize(fs, dirs, name)
  {
    size := 0;
    var i := 0;
    while i < |dirs|
      invariant 0 <= i <= |dirs|
      invariant size == SidecarsSize(fs, dirs[..i], name)
    {
      assert dirs[..i + 1][..i] == dirs[..i];
      var f := dirs[i] + [name];
      if Exists(fs, f) {
        size := size + SizeOrZero(fs, f);
      }
      i := i + 1;
    }
    assert dirs[..|dirs|] == dirs;
  }

  /** The inner loop of computeTrueSizeBytes: the bytes of the counted files among `snapshotFiles`. */
  method SizeOfCountedFiles(fs: Node, snapshotFiles: seq<Path>, files: Option<set<Path>>) returns (size: nat)
    requires forall p <- snapshotFiles :: Resolvable(p, files)
    ensures size == CountedSize(fs, snapshotFiles, files)
  {
    size := 0;
    var j := 0;
    while j < |snapshotFiles|
      invariant 0 <= j <= |snapshotFiles|
      invariant size == CountedSize(fs, snapshotFiles[..j], files)
    {
      var snapshotFile := snapshotFiles[j];
      assert Resolvable(snapshotFile, files);
      assert snapshotFiles[..j + 1][..j] == snapshotFiles[..j];
      var name := snapshotFile[|snapshotFile| - 1];
      if name != ManifestFileName && name != SchemaFileName {
        if files.None? || LiveFileFromSnapshotFile(snapshotFile).value !in files.value {
          size := size + SizeOrZero(fs, snapshotFile);
        }
      }
      j := j + 1;
    }
    assert snapshotFiles[..|snapshotFiles|] == snapshotFiles;
  }

  // ---------------------------------------------------------------------------
  // The entity
  // ---------------------------------------------------------------------------

  class TableSnapshot {
    const keyspaceName: string
    const tableName: string
    const tableId: string
    const tag: Option<string>
    const createdAt: Option<Instant>
    const expiresAt: Option<Instant>
    /** The snapshot's directories, one per data volume, in the iteration order of the Java set. */
    const snapshotDirs: seq<Path>
    const ephemeral: bool

    /** Memoised size on disk; 0 means "not computed yet". */
    var sizeOnDisk: nat
    var manifestsSize: nat
    var schemasSize: nat
    var inProgress: bool

    constructor (keyspaceName: string, tableName: string, tableId: string, tag: Option<string>,
                 createdAt: Option<Instant>, expiresAt: Option<Instant>,
                 snapshotDirs: seq<Path>, ephemeral: bool, fs: Node)
      requires NoDuplicates(snapshotDirs)
      ensures this.keyspaceName == keyspaceName && this.tableName == tableName
      ensures this.tableId == tableId && this.tag == tag
      ensures this.createdAt == createdAt && this.expiresAt == expiresAt
      ensures this.snapshotDirs == snapshotDirs && this.ephemeral == ephemeral
      ensures sizeOnDisk == 0 && !inProgress
      ensures manifestsSize == SidecarsSize(fs, snapshotDirs, ManifestFileName)
      ensures schemasSize == SidecarsSize(fs, snapshotDirs, SchemaFileName)
    {
      var manifests := GetSidecarsSize(fs, snapshotDirs, ManifestFileName);
      var schemas := GetSidecarsSize(fs, snapshotDirs, SchemaFileName);
      this.keyspaceName := keyspaceName;
      this.tableName := tableName;
      this.tableId := tableId;
      this.tag := tag;
      this.createdAt := createdAt;
      this.expiresAt := expiresAt;
      this.snapshotDirs := snapshotDirs;
      this.ephemeral := ephemeral;
      sizeOnDisk := 0;
      inProgress := false;
      manifestsSize := manifests;
      schemasSize := schemas;
    }

    function Id(): Identity
    {
      Identity(keyspaceName, tableName, tableId, tag)
    }

    /** getId. */
    function GetId(): (id: string)
      ensures ':' !in keyspaceName && ':' !in tableName && ':' !in tableId && ':' !in TagText(tag)
              ==> Split(id, ':') == [keyspaceName, tableName, tableId, TagText(tag)]
    {
      ColonFreeIdSplits(keyspaceName, tableName, tableId, tag);
      BuildSnapshotId(keyspaceName, tableName, tableId, tag)
    }

    /**
     * equals: keyspace, table and table id must coincide and the tags must be equal by
     * tagsEqual (case-insensitively on macOS); so a tagged snapshot never equals an
     * untagged one, and off macOS equality is equality of identities.
     */
    function Equals(platform: Platform, other: TableSnapshot): (equal: bool)
      ensures equal <==> && keyspaceName == other.keyspaceName && tableName == other.tableName
                         && tableId == other.tableId && TagsEqual(platform, tag, other.tag)
      ensures equal ==> keyspaceName == other.keyspaceName && tableName == other.tableName && tableId == other.tableId
      ensures tag.None? != other.tag.None? ==> !equal
      ensures !platform.isMacOS ==> (equal <==> Id() == other.Id())
    {
      IdentitiesEqual(platform, Id(), other.Id())
    }

    function IsExpiredAt(now: Instant): bool
    {
      IsExpired(createdAt, expiresAt, now)
    }

    function IsCompleted(): bool
      reads this
    {
      !inProgress
    }

    /** incomplete. */
    method Incomplete()
      modifies this`inProgress
      ensures !IsCompleted()
    {
      inProgress := true;
    }

    /** complete. */
    method Complete()
      modifies this`inProgress
      ensures IsCompleted()
    {
      inProgress := false;
    }

    /** exists: some directory of the snapshot is present on disk. */
    method Exists(fs: Node) returns (present: bool)
      ensures present <==> exists d <- snapshotDirs :: SnapshotFs.Exists(fs, d)
    {
      var i := 0;
      while i < |snapshotDirs|
        invariant 0 <= i <= |snapshotDirs|
        invariant forall j :: 0 <= j < i ==> !SnapshotFs.Exists(fs, snapshotDirs[j])
      {
        if SnapshotFs.Exists(fs, snapshotDirs[i]) {
          return true;
        }
        i := i + 1;
      }
      return false;
    }

    /** getCreatedAt. */
    method GetCreatedAt(fs: Node) returns (at: Option<Instant>)
      ensures at == CreatedAtOf(createdAt, fs, snapshotDirs)
    {
      if createdAt.None? {
        var minCreation := 0;
        var i := 0;
        while i < |snapshotDirs|
          invariant 0 <= i <= |snapshotDirs|
          invariant minCreation == MinNonZeroLastModified(fs, snapshotDirs[..i])
        {
          assert snapshotDirs[..i + 1][..i] == snapshotDirs[..i];
          var dir := snapshotDirs[i];
          i := i + 1;
          if !SnapshotFs.Exists(fs, dir) {
            continue;
          }
          var lastModified := LastModified(fs, dir);
          if lastModified == 0 {
            continue;
          }
          if minCreation == 0 || minCreation > lastModified {
            minCreation := lastModified;
          }
        }
        assert snapshotDirs[..|snapshotDirs|] == snapshotDirs;
        if minCreation != 0 {
          return Some(minCreation);
        }
      }
      return createdAt;
    }

    /**
     * computeSizeOnDiskBytes: a non-zero cached value is returned as it is, whatever the
     * directories hold now; otherwise the folder sizes are summed, and the sum cached
     * (a sum of 0 leaves the cache empty).
     */
    method ComputeSizeOnDiskBytes(fs: Node) returns (sum: nat)
      modifies this`sizeOnDisk
      ensures old(sizeOnDisk) != 0 ==> sum == old(sizeOnDisk)
      ensures old(sizeOnDisk) == 0 ==> sum == DiskUsage(fs, snapshotDirs)
      ensures sizeOnDisk == sum
    {
      sum := sizeOnDisk;
      if sum == 0 {
        var i := 0;
        while i < |snapshotDirs|
          invariant 0 <= i <= |snapshotDirs|
          invariant sum == DiskUsage(fs, snapshotDirs[..i])
        {
          assert snapshotDirs[..i + 1][..i] == snapshotDirs[..i];
          sum := sum + FolderSize(fs, snapshotDirs[i]);
          i := i + 1;
        }
        assert snapshotDirs[..|snapshotDirs|] == snapshotDirs;
        sizeOnDisk := sum;
      }
    }

    /**
     * computeTrueSizeBytes(files): the sidecar sizes plus every listed file that is
     * neither a sidecar nor, when `files` is given, shared with the live table. With
     * `files` given, a file too shallow for getLiveFileFromSnapshotFile makes the Java code
     * throw; the model requires that this does not happen.
     */
    method ComputeTrueSizeBytes(fs: Node, files: Option<set<Path>>) returns (size: nat)
      requires TrueSizeDefined(fs, snapshotDirs, files)
      ensures size == manifestsSize + schemasSize + TrueSize(fs, snapshotDirs, files)
    {
      size := manifestsSize + schemasSize;
      var i := 0;
      while i < |snapshotDirs|
        invariant 0 <= i <= |snapshotDirs|
        invariant size == manifestsSize + schemasSize + TrueSize(fs, snapshotDirs[..i], files)
      {
        var dir := snapshotDirs[i];
        assert snapshotDirs[..i + 1][..i] == snapshotDirs[..i];
        var snapshotFiles := ListDir(fs, dir);
        var counted := SizeOfCountedFiles(fs, snapshotFiles, files);
        size := size + counted;
        i := i + 1;
      }
      assert snapshotDirs[..|snapshotDirs|] == snapshotDirs;
    }

    /** updateMetadataSize: recomputes a sidecar total only while it is 0. */
    method UpdateMetadataSize(fs: Node)
      modifies this`manifestsSize, this`schemasSize
      ensures manifestsSize == if old(manifestsSize) == 0 then SidecarsSize(fs, snapshotDirs, ManifestFileName) else old(manifestsSize)
      ensures schemasSize == if old(schemasSize) == 0 then SidecarsSize(fs, snapshotDirs, SchemaFileName) else old(schemasSize)
    {
      if manifestsSize == 0 {
        manifestsSize := GetSidecarsSize(fs, snapshotDirs, ManifestFileName);
      }
      if schemasSize == 0 {
        schemasSize := GetSidecarsSize(fs, snapshotDirs, SchemaFileName);
      }
    }
  }
}
