/**
 * An in-memory stand-in for the file system the snapshot code reads: a tree of
 * named entries rooted at "/", addressed by paths that are sequences of names.
 * Each failure the Java code catches and logs is a value here: a directory that
 * cannot be listed, a file whose size cannot be read, a manifest that cannot be
 * deserialised.
 */
module SnapshotFs {
  import opened Common

  /** An absolute path, as the list of its names below the root. */
  type Path = seq<string>

  /** An instant, as milliseconds since the epoch (java.time.Instant at millisecond precision). */
  type Instant = int

  /**
   * The record a snapshot directory's manifest.json holds: the relative names of the
   * snapshot's data files, its creation and expiry instants (absent in manifests
   * written before those were recorded) and the ephemeral flag.
   */
  datatype Manifest = Manifest(files: seq<string>, createdAt: Option<Instant>, expiresAt: Option<Instant>, ephemeral: bool)

  /**
   * A file-system node. `lastModified` is what File.lastModified reports (0 when it
   * cannot tell), `size` what Files.size reports (None when it throws). A file also
   * carries what the manifest deserialiser yields when it is read as a manifest
   * (None when that throws). A directory that cannot be listed has `listable == false`.
   */
  datatype Node =
    | File(lastModified: int, size: Option<nat>, manifest: Option<Manifest>)
    | Dir(lastModified: int, size: Option<nat>, listable: bool, entries: seq<Entry>)

  datatype Entry = Entry(name: string, node: Node)

  const ManifestFileName: string := "manifest.json"
  const SchemaFileName: string := "schema.cql"
  const EphemeralMarkerName: string := "ephemeral.snapshot"

  /** A dot-prefixed name: a secondary-index directory inside a table or snapshot directory. */
  predicate IsHidden(name: string)
  {
    StartsWith(name, ".")
  }

  /** The first entry of `entries` called `name`. */
  function Child(entries: seq<Entry>, name: string): (r: Option<Node>)
    ensures r.Some? ==> exists e :: e in entries && e.name == name && e.node == r.value
    ensures r.None? ==> forall e :: e in entries ==> e.name != name
  {
    if entries == [] then None
    else if entries[0].name == name then Some(entries[0].node)
    else Child(entries[1..], name)
  }

  /** The node at `path` below `root`, if there is one. */
  function Lookup(root: Node, path: Path): Option<Node>
    decreases |path|
  {
    if path == [] then Some(root)
    else match root
      case File(_, _, _) => None
      case Dir(_, _, _, entries) =>
        match Child(entries, path[0])
        case None => None
        case Some(child) => Lookup(child, path[1..])
  }

  /** Whether the names inside every directory of the tree are distinct, as on a real file system. */
  predicate UniqueNames(n: Node)
  {
    match n
    case File(_, _, _) => true
    case Dir(_, _, _, entries) =>
      && (forall i, j :: 0 <= i < j < |entries| ==> entries[i].name != entries[j].name)
      && forall e <- entries :: UniqueNames(e.node)
  }

  /** Among distinct names, an entry is found under its own name. */
  lemma {:induction false} ChildOfUniqueName(entries: seq<Entry>, e: Entry)
    requires forall i, j :: 0 <= i < j < |entries| ==> entries[i].name != entries[j].name
    requires e in entries
    ensures Child(entries, e.name) == Some(e.node)
  {
    if entries[0] != e {
      assert forall i, j :: 0 <= i < j < |entries[1..]| ==> entries[1..][i] == entries[i + 1] && entries[1..][j] == entries[j + 1];
      ChildOfUniqueName(entries[1..], e);
      var k :| 0 <= k < |entries| && entries[k] == e;
      assert k > 0;
    }
  }

  /** Looking up a path in two parts: the node at the first part, then the second part below it. */
  lemma {:induction false} LookupAppend(root: Node, a: Path, b: Path)
    ensures Lookup(root, a + b) == match Lookup(root, a) case Some(n) => Lookup(n, b) case None => None
    decreases |a|
  {
    if a == [] {
      assert a + b == b;
    } else {
      assert (a + b)[0] == a[0] && (a + b)[1..] == a[1..] + b;
      match root
      case File(_, _, _) =>
      case Dir(_, _, _, entries) =>
        match Child(entries, a[0])
        case None =>
        case Some(child) => LookupAppend(child, a[1..], b);
    }
  }

  /** Every node of a tree with unique names has unique names. */
  lemma {:induction false} LookupUniqueNames(root: Node, path: Path)
    requires UniqueNames(root) && Lookup(root, path).Some?
    ensures UniqueNames(Lookup(root, path).value)
    decreases |path|
  {
    if path != [] {
      var child := Child(root.entries, path[0]).value;
      LookupUniqueNames(child, path[1..]);
    }
  }

  /** File.exists. */
  predicate Exists(fs: Node, path: Path)
  {
    Lookup(fs, path).Some?
  }

  /** File.lastModified: 0 for a path that does not exist. */
  function LastModified(fs: Node, path: Path): int
  {
    match Lookup(fs, path)
    case None => 0
    case Some(n) => n.lastModified
  }

  /** Files.size with its failure read as 0, as getFileSize and File.length do. */
  function SizeOrZero(fs: Node, path: Path): nat
  {
    match Lookup(fs, path)
    case None => 0
    case Some(n) => n.size.GetOr(0)
  }

  /** What deserialising the file at `path` as a manifest yields; None where that throws. */
  function ReadManifest(fs: Node, path: Path): Option<Manifest>
  {
    match Lookup(fs, path)
    case Some(File(_, _, m)) => m
    case _ => None
  }

  /**
   * FileUtils.folderSize: the sizes of all regular files below a node, a directory
   * that cannot be listed contributing nothing.
   */
  function TreeSize(n: Node): nat
  {
    match n
    case File(_, size, _) => size.GetOr(0)
    case Dir(_, _, listable, entries) => if listable then EntriesSize(n, |entries|) else 0
  }

  /** The total TreeSize of the first `k` entries of directory `d`. */
  function EntriesSize(d: Node, k: nat): nat
    requires d.Dir? && k <= |d.entries|
    decreases d, k
  {
    if k == 0 then 0
    else
      var e := d.entries[k - 1];
      assert e in d.entries;
      EntriesSize(d, k - 1) + TreeSize(e.node)
  }

  function FolderSize(fs: Node, path: Path): nat
  {
    match Lookup(fs, path)
    case None => 0
    case Some(n) => TreeSize(n)
  }
}
