# Cassandra table snapshots, CREATE TABLE LIKE and resource chains, in Dafny

This project models three pieces of Apache Cassandra and proves what they promise.

- **Table snapshots** (`TableSnapshot.java`). A snapshot of one table is identified by keyspace, table, table id and tag. It can span several directories, one per data volume. The entity answers whether it has expired, when it was created and whether it still exists. It computes its size on disk, caching it, and its "true" size: the bytes it does not share with the live table. Its `Builder` gathers the directories of one snapshot. It adopts the first manifest that records timestamps. Before building, it settles a creation instant and writes or enriches `manifest.json` in the directories that need one. `getSnapshotSSTableReaders` takes one reference per sstable of a snapshot. It prefers the table's live reader and otherwise opens the snapshot's own copy. When an open fails, it releases everything taken so far.
- **CREATE TABLE ... LIKE** (`CopyTableStatement.java`). `apply` runs an ordered chain of guards over the schema and ends in an error, the unchanged schema, or the schema with one table added. `buildIndexesAndTriggers` copies indexes and triggers according to the LIKE options. The raw statement resolves unqualified names against the session keyspace and collects the options.
- **Authorization resources** (`Resources.java`). `chain` walks from a resource up to its root, keeping the resources a filter accepts. `fromName` dispatches an external name on the first root prefix it starts with.

Modules, one file each:

| file | module | models |
|---|---|---|
| `Common.dfy` | `Common` | an optional value, string prefixes and suffixes, and sequences standing for Java sets |
| `SnapshotFs.dfy` | `SnapshotFs` | the file system the snapshot code reads, as a tree value, and the manifest record |
| `SnapshotNames.dfy` | `SnapshotNames` | the snapshot id string and the timestamped snapshot names |
| `TableSnapshot.dfy` | `Snapshot` | the `TableSnapshot` entity (a class) and its pure rules |
| `SnapshotBuilder.dfy` | `SnapshotBuilder` | `TableSnapshot.Builder` (a class) and the manifest enrichment |
| `SnapshotReaders.dfy` | `SnapshotReaders` | `getSnapshotSSTableReaders` over a reference-count pool (a class) |
| `CopyTable.dfy` | `CopyTable` | `CopyTableStatement`, its `Raw` form (a class) and the index/trigger copy |
| `Resources.dfy` | `AuthResources` | `Resources.chain` and `Resources.fromName` |

How the model stands in for what the code calls:

- **File system.** It is a tree of named entries. A failure the Java code catches and logs is a value in the tree: a directory that cannot be listed, a size that cannot be read, a manifest that cannot be deserialised. It is passed to every operation that reads it.
- **Sets and maps.** A Java `HashSet` of directories is a sequence without repeats, iterated in insertion order.
- **Time.** Instants are milliseconds as `int`. The clock is a parameter `now`.
- **Platform.** The macOS test and the localized lower-casing are a `Platform` parameter.
- **Storage engine.** Reference counting of sstable readers is a `Pool` of counts per reader id. `SSTableReader.open` hands out the next id. Which listing entries fail to open is the parameter `fails`.
- **Schema.** The schema is a map from keyspace names to keyspaces, each a map from table names to tables. The CQL round trip of the table, the CQL round trip of each copied index and trigger, the WITH attributes, validation, the table id, the uncompressed-tables guardrail and the time UUIDs are supplied in an `Env` value.

Three details where the model follows the code literally:

- `getCreatedAt` takes the least **non-zero** last-modified time of the existing directories, so a negative time can win. The enrichment step takes the least **positive** time.
- In the enrichment step, a known creation instant of exactly -1 ms is taken for "unknown", because -1 is the code's sentinel. A known negative instant is replaced by the current time.
- `Refs.tryRef` on a reader the set already holds releases the older reference, so the count stays the same.

## Model

| member | source | states |
|---|---|---|
| Snapshot.IsExpired | src/java/org/apache/cassandra/service/snapshot/TableSnapshot.java:180-188 | never expired without both a creation and an expiry instant; with both, expired exactly when the expiry is strictly before now |
| Snapshot.NotExpiredAtExpiry | src/java/org/apache/cassandra/service/snapshot/TableSnapshot.java:187 | a snapshot is not yet expired at the very instant it expires |
| Snapshot.ExpiryIsPermanent | src/java/org/apache/cassandra/service/snapshot/TableSnapshot.java:180-188 | once expired, a snapshot stays expired at every later instant |
| Snapshot.TagsEqual | src/java/org/apache/cassandra/service/snapshot/TableSnapshot.java:397-415 | two null tags are equal and a null and a non-null tag are not; otherwise tags are equal after lower-casing on macOS and exactly equal elsewhere |
| Snapshot.TableSnapshot.Equals | src/java/org/apache/cassandra/service/snapshot/TableSnapshot.java:386-395 | equal exactly when keyspace, table and table id coincide and the tags are equal by tagsEqual (lower-cased on macOS); so a tagged and an untagged snapshot are never equal, and off macOS equality is equality of identities |
| Snapshot.EqualsIsExactOffMacOS | src/java/org/apache/cassandra/service/snapshot/TableSnapshot.java:386-395 | off macOS, two snapshots are equal exactly when keyspace, table, table id and tag all coincide |
| Snapshot.EqualsIsEquivalence | src/java/org/apache/cassandra/service/snapshot/TableSnapshot.java:386-415 | equals is reflexive, symmetric and transitive on every platform, whatever the lower-casing function is |
| Snapshot.LiveFileFromSnapshotFile | src/java/org/apache/cassandra/service/snapshot/TableSnapshot.java:291-312 | defined exactly when the path has the parents the code climbs to; the live path is two segments shorter and ends in the same file name |
| Snapshot.LiveFileOfTableFile | src/java/org/apache/cassandra/service/snapshot/TableSnapshot.java:302-312 | {data_dir}/snapshots/{tag}/{file} maps to {data_dir}/{file} |
| Snapshot.LiveFileOfIndexFile | src/java/org/apache/cassandra/service/snapshot/TableSnapshot.java:305-311 | {data_dir}/snapshots/{tag}/.{index}/{file} maps to {data_dir}/.{index}/{file} |
| Snapshot.Listing | src/java/org/apache/cassandra/service/snapshot/TableSnapshot.java:254-277 | every listed path lies below the directory, has a name that is not dot-prefixed, and is reached only through dot-prefixed directories |
| Snapshot.ListingInTree | src/java/org/apache/cassandra/service/snapshot/TableSnapshot.java:254-277 | when each directory holds unique names, every listed path exists in the tree |
| Snapshot.ListingComplete | src/java/org/apache/cassandra/service/snapshot/TableSnapshot.java:254-277 | every existing path of the listed shape is listed, provided every directory from the listed one down to its parent can be listed |
| Snapshot.DirListingComplete | src/java/org/apache/cassandra/service/snapshot/TableSnapshot.java:259-270 | nothing is lost: each entry's contribution (the entry itself, or a hidden directory's flattened listing) appears in the directory's listing |
| Snapshot.ListDir | src/java/org/apache/cassandra/service/snapshot/TableSnapshot.java:254-277 | the recursive listing equals the listing specification; a missing or unlistable directory yields nothing |
| Snapshot.TrueSizeDefinedWithoutLiveSet | src/java/org/apache/cassandra/service/snapshot/TableSnapshot.java:243-245 | without a live set (a dropped table) the true size is defined for any directories: the live-file lookup is never reached |
| Snapshot.TrueSizeMonotone | src/java/org/apache/cassandra/service/snapshot/TableSnapshot.java:241-246 | the more live files there are, the smaller the true size, and whatever the narrower live set lets through the wider one does too; with no live set (a dropped table) every snapshot file counts |
| Snapshot.SharedFileNotCounted | src/java/org/apache/cassandra/service/snapshot/TableSnapshot.java:245-246 | a file whose live counterpart is in the live set adds nothing to the true size |
| Snapshot.MinNonZeroIsMinimum | src/java/org/apache/cassandra/service/snapshot/TableSnapshot.java:155-167 | the accumulated value is 0 exactly when no existing directory has a non-zero time; otherwise it is the time of such a directory and no greater than any other |
| Snapshot.GetSidecarsSize | src/java/org/apache/cassandra/service/snapshot/TableSnapshot.java:366-382 | the loop sums the lengths of the manifest (or schema) files that exist, one per directory |
| Snapshot.SizeOfCountedFiles | src/java/org/apache/cassandra/service/snapshot/TableSnapshot.java:238-248 | the inner loop sums the files that are neither sidecars nor shared with the live set |
| Snapshot.TableSnapshot.constructor | src/java/org/apache/cassandra/service/snapshot/TableSnapshot.java:86-102 | identity, timestamps, directories and flag are as given; the size cache is empty, the snapshot is completed, and the sidecar sizes are those on disk |
| Snapshot.TableSnapshot.GetId | src/java/org/apache/cassandra/service/snapshot/TableSnapshot.java:126-129 | when no component contains ':', splitting the id on ':' gives back keyspace, table, table id and tag |
| Snapshot.TableSnapshot.Incomplete | src/java/org/apache/cassandra/service/snapshot/TableSnapshot.java:109-112 | afterwards the snapshot is not completed |
| Snapshot.TableSnapshot.Complete | src/java/org/apache/cassandra/service/snapshot/TableSnapshot.java:114-117 | afterwards the snapshot is completed |
| Snapshot.TableSnapshot.Exists | src/java/org/apache/cassandra/service/snapshot/TableSnapshot.java:190-197 | true exactly when some directory of the snapshot exists |
| Snapshot.TableSnapshot.GetCreatedAt | src/java/org/apache/cassandra/service/snapshot/TableSnapshot.java:151-173 | the recorded instant if there is one, else the earliest non-zero time of an existing directory, else none |
| Snapshot.TableSnapshot.ComputeSizeOnDiskBytes | src/java/org/apache/cassandra/service/snapshot/TableSnapshot.java:209-221 | a non-zero cached size is returned unchanged whatever the disk now holds; otherwise the folder sizes are summed and cached, so a sum of 0 is recomputed next time |
| Snapshot.TableSnapshot.ComputeTrueSizeBytes | src/java/org/apache/cassandra/service/snapshot/TableSnapshot.java:232-252 | the sidecar sizes plus every listed file that is not manifest.json or schema.cql and, when a live set is given, whose live path is not in it |
| Snapshot.TableSnapshot.UpdateMetadataSize | src/java/org/apache/cassandra/service/snapshot/TableSnapshot.java:438-444 | each sidecar total is recomputed from disk only while it is 0, and kept otherwise |
| SnapshotNames.BuildSnapshotId | src/java/org/apache/cassandra/service/snapshot/TableSnapshot.java:641-644 | the id starts with the keyspace name and a ':' |
| SnapshotNames.ColonFreeIdSplits | src/java/org/apache/cassandra/service/snapshot/TableSnapshot.java:641-644 | when no component contains ':', splitting the id on ':' gives back exactly the four components |
| SnapshotNames.SnapshotIdSplits | src/java/org/apache/cassandra/service/snapshot/TableSnapshot.java:641-644 | the id splits on ':' back into its four components when none contains ':' |
| SnapshotNames.SnapshotIdInjective | src/java/org/apache/cassandra/service/snapshot/TableSnapshot.java:641-644 | under the same condition two snapshots with one id have the same identity |
| SnapshotNames.TimestampedSnapshotName | src/java/org/apache/cassandra/service/snapshot/TableSnapshot.java:711-718 | the name parses back to its timestamp and to the client name, which a null or empty name leaves out |
| SnapshotNames.TimestampedSnapshotNameWithPrefix | src/java/org/apache/cassandra/service/snapshot/TableSnapshot.java:720-723 | the name starts with the prefix and a '-', and what follows parses back to the timestamp and the recorded client name, whatever the prefix contains |
| SnapshotBuilder.TimestampsAreKept | src/java/org/apache/cassandra/service/snapshot/TableSnapshot.java:467-472 | once either timestamp is known, no later directory changes either |
| SnapshotBuilder.FirstTimestampedManifestWins | src/java/org/apache/cassandra/service/snapshot/TableSnapshot.java:467-488 | the first directory whose manifest records a timestamp decides both timestamps, whatever directories follow |
| SnapshotBuilder.UnreadableManifestsChangeNothing | src/java/org/apache/cassandra/service/snapshot/TableSnapshot.java:481-497 | directories with a missing or unreadable manifest leave both timestamps unchanged |
| SnapshotBuilder.EphemeralIsSticky | src/java/org/apache/cassandra/service/snapshot/TableSnapshot.java:467-491 | the ephemeral flag never goes back to false, and any directory with an ephemeral marker sets it |
| SnapshotBuilder.DirectoriesAreCollected | src/java/org/apache/cassandra/service/snapshot/TableSnapshot.java:467-469 | every added directory is kept exactly once, earlier ones in their place |
| SnapshotBuilder.WithoutManifestMembers | src/java/org/apache/cassandra/service/snapshot/TableSnapshot.java:505-515 | the directories listed are exactly those without a manifest.json; the list is empty exactly when every directory has one |
| SnapshotBuilder.PositiveMinIsMinimum | src/java/org/apache/cassandra/service/snapshot/TableSnapshot.java:537-549 | the scan yields -1 exactly when no directory has a positive time, and otherwise the least positive time |
| SnapshotBuilder.DerivedCreatedAtPreference | src/java/org/apache/cassandra/service/snapshot/TableSnapshot.java:537-595 | the creation instant is the known one, else the least positive directory time, else now |
| SnapshotBuilder.AllDataFilesCoverEveryDir | src/java/org/apache/cassandra/service/snapshot/TableSnapshot.java:551-589 | the combined list holds every data file found in every directory |
| SnapshotBuilder.IndexDirs | src/java/org/apache/cassandra/service/snapshot/TableSnapshot.java:557-563 | the index directories are exactly the dot-prefixed directories among the entries |
| SnapshotBuilder.DataFilesOfMembers | src/java/org/apache/cassandra/service/snapshot/TableSnapshot.java:551-589 | a path is collected from a listable directory exactly when it is a top-level non-index entry named *-Data.db or a *-Data.db entry of one of its index directories |
| SnapshotBuilder.PlannedWritesTargets | src/java/org/apache/cassandra/service/snapshot/TableSnapshot.java:597-611 | a manifest is written to a directory exactly when it lacks one or its manifest has no creation instant |
| SnapshotBuilder.EnrichNoOp | src/java/org/apache/cassandra/service/snapshot/TableSnapshot.java:519-527 | with the flag off, or a known creation instant and a manifest everywhere, nothing is written and the instant stays |
| SnapshotBuilder.EnrichWrites | src/java/org/apache/cassandra/service/snapshot/TableSnapshot.java:517-612 | otherwise the instant is settled, and the same manifest (all data files, that instant, no expiry, the flag) goes to exactly the directories lacking one or holding one without a creation instant |
| SnapshotBuilder.EnrichSparesCurrentManifests | src/java/org/apache/cassandra/service/snapshot/TableSnapshot.java:597-611 | a readable manifest that records a creation instant is never overwritten |
| SnapshotBuilder.EarliestPositiveLastModified | src/java/org/apache/cassandra/service/snapshot/TableSnapshot.java:539-549 | the loop computes the least positive directory time, -1 when none |
| SnapshotBuilder.CollectDataFiles | src/java/org/apache/cassandra/service/snapshot/TableSnapshot.java:551-589 | the loop collects the relative names of the data files of every directory |
| SnapshotBuilder.WriteManifests | src/java/org/apache/cassandra/service/snapshot/TableSnapshot.java:597-611 | the loop issues exactly the planned manifest writes |
| SnapshotBuilder.Builder.constructor | src/java/org/apache/cassandra/service/snapshot/TableSnapshot.java:459-465 | identity as given; no timestamps, not ephemeral, no directories |
| SnapshotBuilder.Builder.AddSnapshotDir | src/java/org/apache/cassandra/service/snapshot/TableSnapshot.java:467-479 | the new state is one addSnapshotDir step, and the directories stay free of repeats |
| SnapshotBuilder.Builder.LoadMetadataFromManifest | src/java/org/apache/cassandra/service/snapshot/TableSnapshot.java:481-497 | a readable manifest's timestamps are adopted and its flag OR-ed in; an unreadable one changes nothing |
| SnapshotBuilder.Builder.GetSnapshotDirsWithoutManifest | src/java/org/apache/cassandra/service/snapshot/TableSnapshot.java:505-515 | returns the directories without a manifest, in order |
| SnapshotBuilder.Builder.MaybeCreateOrEnrichManifest | src/java/org/apache/cassandra/service/snapshot/TableSnapshot.java:517-612 | the new creation instant and the writes issued are those of the enrichment specification |
| SnapshotBuilder.Builder.Build | src/java/org/apache/cassandra/service/snapshot/TableSnapshot.java:499-503 | enriches, then returns a new completed snapshot with the builder's identity, settled timestamps, directories and flag, and the sidecar sizes of the file system after the writes |
| SnapshotReaders.ActiveIsLastReader | src/java/org/apache/cassandra/service/snapshot/TableSnapshot.java:673-675 | an sstable id is active exactly when a canonical reader has it, and maps to the last such reader |
| SnapshotReaders.ReleaseAllCounts | src/java/org/apache/cassandra/service/snapshot/TableSnapshot.java:705 | releasing the set takes exactly one reference off each reader it holds |
| SnapshotReaders.StepEffect | src/java/org/apache/cassandra/service/snapshot/TableSnapshot.java:684-694 | a live active reader is used and gains a reference unless already held; otherwise a new reader is opened and ends with count 1 |
| SnapshotReaders.StepKeepsLiveness | src/java/org/apache/cassandra/service/snapshot/TableSnapshot.java:684-694 | serving one entry never releases or revives an active reader |
| SnapshotReaders.ResolveSuccess | src/java/org/apache/cassandra/service/snapshot/TableSnapshot.java:671-709 | on success, one reader per listing entry; each held reader gains exactly one reference; a new reader's only reference is the set's; a live active reader is preferred |
| SnapshotReaders.ResolveFailureRollsBack | src/java/org/apache/cassandra/service/snapshot/TableSnapshot.java:701-706 | when an open fails, every count is back to what it was before the call |
| SnapshotReaders.ReleasingResultRestores | src/java/org/apache/cassandra/service/snapshot/TableSnapshot.java:671-709 | releasing the returned set restores every count: it owns exactly the references the call took |
| SnapshotReaders.ActiveIsReady | src/java/org/apache/cassandra/service/snapshot/TableSnapshot.java:673-675 | the active map built from canonical readers names only readers already handed out |
| SnapshotReaders.ReaderPool.TryRef | src/java/org/apache/cassandra/service/snapshot/TableSnapshot.java:685-691 | the pool and the set change as one tryRef step specifies |
| SnapshotReaders.ReaderPool.Open | src/java/org/apache/cassandra/service/snapshot/TableSnapshot.java:690 | a fresh reader id with its self-reference counted |
| SnapshotReaders.ReaderPool.Release | src/java/org/apache/cassandra/service/snapshot/TableSnapshot.java:693 | one reference dropped |
| SnapshotReaders.ReaderPool.ReleaseAll | src/java/org/apache/cassandra/service/snapshot/TableSnapshot.java:705 | the loop drops one reference per reader of the set |
| SnapshotReaders.ActiveReaders | src/java/org/apache/cassandra/service/snapshot/TableSnapshot.java:673-675 | the loop builds the active map, a later reader replacing an earlier one |
| SnapshotReaders.GetSnapshotSSTableReaders | src/java/org/apache/cassandra/service/snapshot/TableSnapshot.java:671-709 | the pool ends as the resolution specifies; references are returned exactly when no open failed |
| CopyTable.CopiedElementsShape | src/java/org/apache/cassandra/cql3/statements/schema/CopyTableStatement.java:181-199 | one copy per source element, its definition passed through the element's CQL round trip; renamed to ks_table_name plus a UUID when asked, the same name otherwise |
| CopyTable.IndexesAndTriggersGated | src/java/org/apache/cassandra/cql3/statements/schema/CopyTableStatement.java:174-202 | indexes are replaced by copies (each through the index round trip) exactly when INDEXES or ALL is asked, triggers (through the trigger round trip) exactly when TRIGGERS or ALL is, and nothing else changes |
| CopyTable.CopyElements | src/java/org/apache/cassandra/cql3/statements/schema/CopyTableStatement.java:180-199 | the copy loop yields the copied elements |
| CopyTable.BuildIndexesAndTriggers | src/java/org/apache/cassandra/cql3/statements/schema/CopyTableStatement.java:174-202 | the builder's indexes and triggers end as the gated copy specifies |
| CopyTable.ApplyChecking | src/java/org/apache/cassandra/cql3/statements/schema/CopyTableStatement.java:111-171 | a statement applies only when the source table and the target keyspace are found, and keeps the set of keyspaces; a changed schema holds the target table, which it did not before; the user-type rejection happens only for a table with user types copied to another keyspace |
| CopyTable.Apply | src/java/org/apache/cassandra/cql3/statements/schema/CopyTableStatement.java:111-171 | whatever the corrected apply accepts, the code as written accepts with the same schema; the two differ only where the corrected one rejects user types across keyspaces |
| CopyTable.GuardOrder | src/java/org/apache/cassandra/cql3/statements/schema/CopyTableStatement.java:112-131 | each of the five existence and kind errors is raised exactly when its own check fails and all earlier ones pass |
| CopyTable.ExistingTarget | src/java/org/apache/cassandra/cql3/statements/schema/CopyTableStatement.java:133-139 | an existing target table gives the unchanged schema under IF NOT EXISTS and AlreadyExists otherwise, before any later check |
| CopyTable.AddsExactlyOneTable | src/java/org/apache/cassandra/cql3/statements/schema/CopyTableStatement.java:157-171 | a changed schema differs from the input by one new table under the target name in the target keyspace |
| CopyTable.AddedTablePassedGuards | src/java/org/apache/cassandra/cql3/statements/schema/CopyTableStatement.java:141-169 | an added table is valid, has no read repair in a transiently replicated keyspace, is compressed or allowed uncompressed, and passed the user-type guard |
| CopyTable.AddedTableCopiesAsAsked | src/java/org/apache/cassandra/cql3/statements/schema/CopyTableStatement.java:146-159 | the new table has the new id; if asked, one index per source index with the definition the index round trip gives, and otherwise the parsed ones; likewise for triggers |
| CopyTable.UserTypesStayInTheirKeyspace | src/java/org/apache/cassandra/cql3/statements/schema/CopyTableStatement.java:141-142 | with the exact comparison, a table that uses user types is only copied within its own keyspace |
| CopyTable.UserTypesCrossKeyspacesAsWritten | src/java/org/apache/cassandra/cql3/statements/schema/CopyTableStatement.java:141-142 | as written, a table with a user type in keyspace "ks" is copied into keyspace "KS" |
| CopyTable.ParseOption | src/java/org/apache/cassandra/cql3/statements/schema/CopyTableStatement.java:257-272 | an option name is accepted exactly when it is ALL, INDEXES or TRIGGERS |
| CopyTable.ParseOptionInvertsName | src/java/org/apache/cassandra/cql3/statements/schema/CopyTableStatement.java:261-272 | parsing an option's name gives the option back, and only that name gives it |
| CopyTable.ExtendOptionsIdempotent | src/java/org/apache/cassandra/cql3/statements/schema/CopyTableStatement.java:254-258 | adding an option twice is adding it once; the set only grows, by at most the named option |
| CopyTable.Raw.constructor | src/java/org/apache/cassandra/cql3/statements/schema/CopyTableStatement.java:237-244 | the names and flag are as given and the option set is empty |
| CopyTable.Raw.Prepare | src/java/org/apache/cassandra/cql3/statements/schema/CopyTableStatement.java:246-252 | each keyspace is the qualified one if present, else the session keyspace, independently; names, flag and options are carried over; no statement when a needed session keyspace is missing |
| CopyTable.Raw.ExtendWithLikeOptions | src/java/org/apache/cassandra/cql3/statements/schema/CopyTableStatement.java:254-258 | an accepted option is added to the set; an empty or unknown one is reported and the set is unchanged |
| AuthResources.AncestryShape | src/java/org/apache/cassandra/auth/Resources.java:48-57 | the chain starts at the resource, steps to the parent each time, ends at a root, has one element per ancestor plus one and repeats nothing |
| AuthResources.KeepExactly | src/java/org/apache/cassandra/auth/Resources.java:51-52 | filtering keeps exactly the accepted elements, and the always-true filter keeps everything |
| AuthResources.Chain | src/java/org/apache/cassandra/auth/Resources.java:45-58 | the loop returns the unfiltered chain with only the accepted resources kept, in order |
| AuthResources.ChainAll | src/java/org/apache/cassandra/auth/Resources.java:32-35 | with the always-true filter the chain is the whole ancestry |
| AuthResources.FilteredChain | src/java/org/apache/cassandra/auth/Resources.java:45-58 | every resource in the filtered chain is accepted and in the ancestry, and none appears twice |
| AuthResources.FromName | src/java/org/apache/cassandra/auth/Resources.java:67-79 | the role, data, function and JMX roots are tried in that order and the first prefix match wins; a name no root prefixes is rejected |

## Left out

- File-system I/O: `Files.list`, `Files.size`, `File.exists`, `File.lastModified`, `File.list` and `FileUtils.folderSize` read an in-memory tree. `FileUtils.folderSize` is not part of this model, so it is taken as the sum of file sizes below the directory.
- Manifest JSON: deserialisation is read from the tree, and serialisation is recorded as a list of writes. `SnapshotManifest` is not part of this model.
- `SnapshotBuilder.Builder.Build`: the writes are not applied to the file system. The caller passes the file system as it is after the writes, and the new snapshot's sidecar sizes are read from it.
- `Directories.isSecondaryIndexFolder` is not part of this model. A secondary-index folder is taken to be a dot-prefixed name.
- `toAbsolutePath` is left out: paths are already absolute.
- `SSTable.tryDescriptorFromFile` and `relativeFilenameFor` are a function parameter `relativeName`. A file it gives no descriptor for is skipped.
- Java `long` overflow in the size sums is not modelled: sizes are unbounded naturals.
- `volatile` fields and directories that vanish concurrently are left out.
- `hashCode` and `toString` are left out. Under case folding, equal snapshots can hash differently, so no hash consistency is claimed.
- `getSnapshotDescriptors` is left out. It never releases the references it takes.
- `computeTrueSizeBytes()` without arguments is left out. It returns 0 when `ColumnFamilyStore.getIfExists` finds no table (TableSnapshot.java:226-227), so through it a snapshot of a dropped table gets 0 rather than reaching the path with no live set, where every file is counted; that 0 case is not modelled. Otherwise it passes the live table's files (line 229), which is the `files` parameter here.
- The plain getters are left out.
- Logging is left out, and the clock is the parameter `now`.
- The enrichment config flag is the parameter `enabled`.
- `SSTableReader.open` failing is the set `fails` of listing entries.
- The snapshot's sstable listing is a given sequence of descriptors.
- Reader references are counts per reader id. Which reader a count belongs to is not distinguished between the self-reference and other references.
- `HashSet` and `HashMap` iteration order is taken as insertion order.
- The CQL round trip of the table (`toCqlString` then `CreateTableStatement.parse`), `TableAttributes`, `TableMetadata.validate`, `TableId.get`, `nextTimeUUID` and the uncompressed-tables guardrail are the fields of `Env`. Audit and authorization are left out.
- The round trip of each copied index (`toCqlString` then `parseIndex`) and trigger (`toCqlString` then `CreateTriggerStatement.parse`) is the `Env` field `elementCql`, a function on the definition. What `parseIndex` rebuilds (a CUSTOM or COMPOSITES kind, options kept only for a custom index) is inside that function and not modelled. A parse that throws, which would abort the statement, is not modelled either.
- `CopyTable.Raw.Prepare`: `ClientState.getKeyspace` throwing when no keyspace is set is the result None.
- `CopyTable.Raw.Prepare`: the statement takes a copy of the option set. The Java statement shares the set with the raw form.
- `CopyTable.Raw.ExtendWithLikeOptions`: the Java `assert` on a null or empty option and the exception from `valueOf` are both the returned error. A null option is not modelled.
- `equalsIgnoreCase` is modelled over ASCII letters only.
- The root names and the `fromName` parsers of the four resource kinds are not part of this model. `AuthResources.FromName` returns the kind whose parser the name goes to, and None where the Java code throws.
- `SnapshotBuilder.DataFilesOfMembers`: stated for a listable directory whose index directories can all be listed. An unlistable one contributes no data files, which `SnapshotBuilder.AllDataFilesCoverEveryDir` does not need to distinguish.
- `Snapshot.ListingInTree`: requires unique names in each directory, as a real file system has. `Lookup` resolves a name to its first entry, so the tree value alone does not guarantee this.
- `Snapshot.TableSnapshot.ComputeTrueSizeBytes`: requires that, when a live set is given, every listed file other than manifest.json and schema.cql is deep enough for `getLiveFileFromSnapshotFile` (TableSnapshot.java:291-312). For a shallower file its `getParent` chain yields null and the Java code throws a NullPointerException; that outcome is not modelled. Without a live set there is no such requirement (`Snapshot.TrueSizeDefinedWithoutLiveSet`).
- `IResource.hasParent`/`getParent` form a finite parent map with a depth that every parent step lowers.

## Findings

| source | as written | input that shows it | evidently intended | confidence | as-written member | corrected member |
|---|---|---|---|---|---|---|
| src/java/org/apache/cassandra/cql3/statements/schema/CopyTableStatement.java:141-142 | the user-type guard compares the source and target keyspace names with `equalsIgnoreCase`, although keyspace lookup is case-sensitive | source keyspace "ks" holding a table that uses a user type, target keyspace "KS": the copy is applied and refers to a type that "KS" does not have | only a copy within the same keyspace, compared exactly as keyspace names are, may keep user types | medium, not executed | CopyTable.UserTypesCrossKeyspacesAsWritten | CopyTable.UserTypesStayInTheirKeyspace |
