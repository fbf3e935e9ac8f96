# Volume identity and a degree-tracking graph, modelled in Dafny

This project models two unrelated cores of one repository and proves what
they promise.

**Eraser's `VolumeInfo`** (`Eraser.Util/VolumeInfo.cs`) names a disk volume
by its identifier: a volume GUID path `\\?\Volume{…}\` or a UNC path
`\\server\share\`. The model covers:

- the constructor's validation, `IsReady`, label and FAT12/FAT16 tagging;
- the parsing of the NUL-separated list of mount points;
- the reading of the mapped network drives into a local-name → UNC-path
  dictionary, and the reconciliation that keeps one local name per UNC path;
- the upward walk of `FromMountPoint`;
- `HasQuota`, the flag checks of `OpenHandle`, `MountPoints`, `IsMounted`
  and `ToString`;
- `VolumeLock`: its bounded retry loop and its release.

Every Win32 call is an oracle. The datatype `Win32.Os` bundles one function
per call; each returns a value or a Win32 error code. An exception becomes
an `Err` of `Win32.Error`. `Win32ErrorCode` is not part of this model, so
the model uses the standard Win32 code values.

**`graph_hash.c`** (GraphLib) is an undirected graph. Its edges are keys of a
GLib hash table. It also keeps two `node_t` arrays updated in place:
`degree[v]`, and `degree_dist[k]`, the number of nodes of degree k. The model
is a class:

- the hash table becomes a set of ordered pairs;
- the two arrays stay arrays.

The invariant `Valid()` has two parts: `degree_dist` is the histogram of
`degree`, and `degree` counts the stored keys that touch each node. Every
mutator is proved to keep `Valid()`, except that `DelEdge` of an absent key
keeps only `Hist()`, the histogram part. `ValidTotals` proves the consequences: the
histogram sums to the number of nodes, and the degrees sum to twice the
number of keys.

Files:

| file | module |
|---|---|
| `wrappers.dfy` | `Option` and `Result` |
| `win32.dfy` | the OS oracle, Win32 codes and flags, error kinds |
| `volume_info.dfy` | constructor, `HasQuota`, `OpenHandle` |
| `multi_string.dfy` | the mount-point list and its parse loop |
| `ordered_dict.dfy` | an add-only `Dictionary`, which enumerates in insertion order |
| `network_drives.dfy` | `GetNetworkDrivesInternal`, `GetNetworkMountPoints`, `NetworkDrives` |
| `mount_points.dfy` | `MountPoints`, `IsMounted`, `ToString` |
| `mount_resolver.dfy` | `FromMountPoint` |
| `volume_lock.dfy` | `VolumeLock` |
| `graph_spec.dfy` | degrees, counts and histograms over sequences and sets |
| `graph_hash.dfy` | the graph class |

Where the code does something a reader might not expect, the model follows
the code:

- Locking: the loop tests `i > 100` only after a failed request, so it gives
  up after 102 failed `FSCTL_LOCK_VOLUME` requests, not 100.
- Reconciliation: a UNC path keeps the first local name of the shortest
  length, in the dictionary's enumeration order. The comparison is a strict
  `>`, so a later name of the same length does not replace it. That order is
  insertion order, because the dictionary is only ever added to. No
  lexicographic tie-break is applied.
- Network enumeration: `WNetEnumResource` fills a fixed buffer of 32 records.
  Any code other than success or "no more items" is an error; the buffer is
  never grown and the call never retried.
- A failed `WNetOpenEnum` is reported with the thread's last Win32 error
  (`Marshal.GetLastWin32Error`), not with the code the call returned.
- Dictionary keys: a null local name or a repeated local name makes
  `Dictionary.Add` throw, so the whole enumeration fails.
- Mount-point parsing: the loop stops at the first empty entry, so whatever
  follows a double NUL is ignored (`EmptyEntryStops`). Text after the last
  NUL is dropped. A buffer of one or more NUL-terminated entries with no empty
  entry and no final extra NUL makes the loop index one past the end
  (`MissingFinalNulFails`).
- Identifier validation: a GUID path starts with `\\`, so the GUID-prefix
  test adds nothing. Under an exact character-by-character comparison,
  validation comes down to two leading backslashes and a trailing one
  (`ValidVolumeId`).
- `graph_del_edge` lowers both degrees even when the key is absent. The
  histogram stays the histogram of the degree table, but the degree table no
  longer matches the edge set. `DelEdge` states both facts.

## Model

Source paths: `V` = `fstmerge/examples/Eraser/rev1518-1801/right-branch-1801/Eraser.Util/VolumeInfo.cs`, `G` = `fstcomp/examples/C/GraphLib/Hash/graph_hash.c`.

| member | source | states |
|---|---|---|
| VolumeInfo.ValidVolumeId | fstmerge/examples/Eraser/rev1518-1801/right-branch-1801/Eraser.Util/VolumeInfo.cs:25-32 | an identifier is accepted iff it has two leading backslashes (covering both the `\\?\` and `\\` prefixes) and a trailing backslash |
| VolumeInfo.NonEmpty | fstmerge/examples/Eraser/rev1518-1801/right-branch-1801/Eraser.Util/VolumeInfo.cs:50-51 | an empty buffer reads as null, any other buffer as its text |
| VolumeInfo.NewVolume | fstmerge/examples/Eraser/rev1518-1801/right-branch-1801/Eraser.Util/VolumeInfo.cs:22-66 | construction fails with InvalidArgument iff the identifier is malformed; otherwise `VolumeId` is the input exactly, `IsReady` is whether GetVolumeInformation succeeded, the label is the non-empty volume name, and the format is the FAT-tagged file system |
| VolumeInfo.FormatCases | fstmerge/examples/Eraser/rev1518-1801/right-branch-1801/Eraser.Util/VolumeInfo.cs:51-65 | "FAT" becomes FAT12 at ≤ 0xFF0 clusters and FAT16 above; it stays FAT when the cluster count cannot be read; an empty name is null; any other name is kept; FAT12 arises only from FAT with few clusters or a volume reporting FAT12 itself |
| VolumeInfo.HasQuota | fstmerge/examples/Eraser/rev1518-1801/right-branch-1801/Eraser.Util/VolumeInfo.cs:423-441 | true iff GetDiskFreeSpaceEx succeeds and the total free bytes differ from the bytes available to the caller; false on NotReady; the error of any other failure is reported |
| VolumeInfo.AccessMask | fstmerge/examples/Eraser/rev1518-1801/right-branch-1801/Eraser.Util/VolumeInfo.cs:572-584 | GENERIC_READ is set iff the access is not Write-only, GENERIC_WRITE iff it is not Read-only, and no other bit is set |
| VolumeInfo.OpenPath | fstmerge/examples/Eraser/rev1518-1801/right-branch-1801/Eraser.Util/VolumeInfo.cs:589-591 | one trailing backslash is stripped, and only when present |
| VolumeInfo.OpenHandle | fstmerge/examples/Eraser/rev1518-1801/right-branch-1801/Eraser.Util/VolumeInfo.cs:570-601 | an inheritable share mode is refused first, then asynchronous options; otherwise the result is CreateFile's handle on the stripped path (mapped access, given share and options, OPEN_EXISTING), or its error |
| VolumeInfo.OpenPathOfVolume | fstmerge/examples/Eraser/rev1518-1801/right-branch-1801/Eraser.Util/VolumeInfo.cs:589-591 | for every constructed volume the opened path is the identifier less exactly its final backslash |
| MultiString.IndexOfNul | fstmerge/examples/Eraser/rev1518-1801/right-branch-1801/Eraser.Util/VolumeInfo.cs:105-107 | the first NUL at or after the start position, or the length when there is none |
| MultiString.ParseEntries | fstmerge/examples/Eraser/rev1518-1801/right-branch-1801/Eraser.Util/VolumeInfo.cs:105-120 | the `lastIndex`/`i` loop returns exactly `Entries` of the buffer, including the out-of-range failure |
| MultiString.EntriesOfEncode | fstmerge/examples/Eraser/rev1518-1801/right-branch-1801/Eraser.Util/VolumeInfo.cs:105-120 | round trip: parsing the OS layout (each entry NUL-terminated, one more NUL at the end) of non-empty NUL-free entries gives back those entries in order |
| MultiString.EntriesStorable | fstmerge/examples/Eraser/rev1518-1801/right-branch-1801/Eraser.Util/VolumeInfo.cs:111-114 | every parsed entry is non-empty and contains no NUL |
| MultiString.SingleTerminatorFails | fstmerge/examples/Eraser/rev1518-1801/right-branch-1801/Eraser.Util/VolumeInfo.cs:116-118 | a single non-empty entry followed by a single NUL makes the loop read past the end |
| MultiString.MissingFinalNulFails | fstmerge/examples/Eraser/rev1518-1801/right-branch-1801/Eraser.Util/VolumeInfo.cs:105-120 | any one or more non-empty, NUL-free entries, each NUL-terminated but without the final extra NUL, make the loop read past the end |
| MultiString.EmptyEntryStops | fstmerge/examples/Eraser/rev1518-1801/right-branch-1801/Eraser.Util/VolumeInfo.cs:114-118 | an entry followed by a double NUL is the whole result, whatever text follows |
| MultiString.TwoDrives | fstmerge/examples/Eraser/rev1518-1801/right-branch-1801/Eraser.Util/VolumeInfo.cs:105-120 | `"E:\\\0F:\\\0\0"` parses to `["E:\\", "F:\\"]` |
| OrderedDict.Insert | fstmerge/examples/Eraser/rev1518-1801/right-branch-1801/Eraser.Util/VolumeInfo.cs:186-187 | `Dictionary.Add` of a new key appends it to the enumeration order and maps it; the dictionary stays well formed |
| OrderedDict.Overwrite | fstmerge/examples/Eraser/rev1518-1801/right-branch-1801/Eraser.Util/VolumeInfo.cs:190-191 | an indexer store to a present key keeps the order and changes only that key's value |
| OrderedDict.DedupSpec | fstmerge/examples/Eraser/rev1518-1801/right-branch-1801/Eraser.Util/VolumeInfo.cs:182-197 | first-occurrence order has no repeats and keeps exactly the original elements |
| NetworkDrives.NormaliseRemote | fstmerge/examples/Eraser/rev1518-1801/right-branch-1801/Eraser.Util/VolumeInfo.cs:256-257 | the UNC path ends with a backslash; it extends the input by at most one character and is the input itself when that already ends with one |
| NetworkDrives.NormaliseIdempotent | fstmerge/examples/Eraser/rev1518-1801/right-branch-1801/Eraser.Util/VolumeInfo.cs:256-257 | normalising twice is normalising once |
| NetworkDrives.Add | fstmerge/examples/Eraser/rev1518-1801/right-branch-1801/Eraser.Util/VolumeInfo.cs:258 | `Dictionary.Add` refuses a null key and a present key; any other key goes last with its value |
| NetworkDrives.NetworkDrivesOf | fstmerge/examples/Eraser/rev1518-1801/right-branch-1801/Eraser.Util/VolumeInfo.cs:207-274 | a successful enumeration yields a well-formed dictionary |
| NetworkDrives.GetNetworkDrivesInternal | fstmerge/examples/Eraser/rev1518-1801/right-branch-1801/Eraser.Util/VolumeInfo.cs:207-274 | the batch loop returns `NetworkDrivesOf`: the open failure with the last error, the first record failure, the end code's failure, or the dictionary |
| NetworkDrives.AddBatch | fstmerge/examples/Eraser/rev1518-1801/right-branch-1801/Eraser.Util/VolumeInfo.cs:245-259 | the record loop over one batch continues the fold of all earlier records exactly |
| NetworkDrives.CollectFailurePersists | fstmerge/examples/Eraser/rev1518-1801/right-branch-1801/Eraser.Util/VolumeInfo.cs:258 | once a record makes `Add` throw, no later record changes the outcome |
| NetworkDrives.KeptRecords | fstmerge/examples/Eraser/rev1518-1801/right-branch-1801/Eraser.Util/VolumeInfo.cs:254-255 | only records with a non-null, non-empty remote name are used |
| NetworkDrives.CollectSpec | fstmerge/examples/Eraser/rev1518-1801/right-branch-1801/Eraser.Util/VolumeInfo.cs:245-259 | building succeeds iff no used record has a null local name and no local name repeats; the dictionary then lists the used records' local names in order, each mapped to its normalised remote name |
| NetworkDrives.RemotesEndWithBackslash | fstmerge/examples/Eraser/rev1518-1801/right-branch-1801/Eraser.Util/VolumeInfo.cs:256-258 | every UNC path stored ends with a backslash |
| NetworkDrives.LocalsOfSpec | fstmerge/examples/Eraser/rev1518-1801/right-branch-1801/Eraser.Util/VolumeInfo.cs:132-134 | a local name is selected iff the dictionary maps it to the given UNC path |
| NetworkDrives.MountPointsFor | fstmerge/examples/Eraser/rev1518-1801/right-branch-1801/Eraser.Util/VolumeInfo.cs:132-134 | the `foreach` loop returns the selected local names in dictionary order |
| NetworkDrives.GetNetworkMountPoints | fstmerge/examples/Eraser/rev1518-1801/right-branch-1801/Eraser.Util/VolumeInfo.cs:129-137 | the enumeration's failure, or the local names mapped to the volume's UNC path |
| NetworkDrives.ReconcileStep | fstmerge/examples/Eraser/rev1518-1801/right-branch-1801/Eraser.Util/VolumeInfo.cs:185-191 | one reconciliation step keeps the remote → local dictionary well formed |
| NetworkDrives.ReconcileKeys | fstmerge/examples/Eraser/rev1518-1801/right-branch-1801/Eraser.Util/VolumeInfo.cs:182-192 | the UNC paths of the result are the distinct UNC paths of the mappings, in first-seen order |
| NetworkDrives.ReconcileFrom | fstmerge/examples/Eraser/rev1518-1801/right-branch-1801/Eraser.Util/VolumeInfo.cs:182-192 | every local name kept for a UNC path comes from a mapping of that path |
| NetworkDrives.ReconcileShortest | fstmerge/examples/Eraser/rev1518-1801/right-branch-1801/Eraser.Util/VolumeInfo.cs:182-192 | each UNC path keeps its shortest local name, the first seen among names of equal length |
| NetworkDrives.ReconcileDrives | fstmerge/examples/Eraser/rev1518-1801/right-branch-1801/Eraser.Util/VolumeInfo.cs:182-192 | the in-place `remoteToLocal` loop computes `Reconcile` of the mappings in order |
| NetworkDrives.VolumesOfSpec | fstmerge/examples/Eraser/rev1518-1801/right-branch-1801/Eraser.Util/VolumeInfo.cs:194-196 | building the volumes succeeds iff every UNC path is a valid identifier, and then yields one volume per path, in order |
| NetworkDrives.OpenVolumes | fstmerge/examples/Eraser/rev1518-1801/right-branch-1801/Eraser.Util/VolumeInfo.cs:194-196 | the `foreach` over the UNC paths returns `VolumesOf`, stopping at the first refused path |
| NetworkDrives.VolumesFailureStays | fstmerge/examples/Eraser/rev1518-1801/right-branch-1801/Eraser.Util/VolumeInfo.cs:194-196 | a refused path ends the property with that error |
| NetworkDrives.GetNetworkDrives | fstmerge/examples/Eraser/rev1518-1801/right-branch-1801/Eraser.Util/VolumeInfo.cs:174-201 | `NetworkDrives` returns the enumeration's failure, or one volume per reconciled UNC path |
| NetworkDrives.ReconciledRemotes | fstmerge/examples/Eraser/rev1518-1801/right-branch-1801/Eraser.Util/VolumeInfo.cs:182-196 | the UNC paths turned into volumes are exactly the values of the local-name dictionary: one volume per distinct remote |
| NetworkDrives.DrivesEndWithBackslash | fstmerge/examples/Eraser/rev1518-1801/right-branch-1801/Eraser.Util/VolumeInfo.cs:256-258 | every UNC path of a successful enumeration ends with a backslash |
| NetworkDrives.NetworkDrivesRefusal | fstmerge/examples/Eraser/rev1518-1801/right-branch-1801/Eraser.Util/VolumeInfo.cs:25-32 | after a successful enumeration, `NetworkDrives` succeeds iff every UNC path starts with two backslashes (the trailing one is always there) |
| MountPoints.GetLocalVolumeMountPoints | fstmerge/examples/Eraser/rev1518-1801/right-branch-1801/Eraser.Util/VolumeInfo.cs:72-123 | the query's failure, or the parsed entries of the path-name list |
| MountPoints.GetMountPoints | fstmerge/examples/Eraser/rev1518-1801/right-branch-1801/Eraser.Util/VolumeInfo.cs:539-546 | a network volume is looked up among the mapped drives; any other volume parses its path-name list |
| MountPoints.IsMounted | fstmerge/examples/Eraser/rev1518-1801/right-branch-1801/Eraser.Util/VolumeInfo.cs:551-554 | true iff `MountPoints` is non-empty; a `MountPoints` failure propagates |
| MountPoints.ToString | fstmerge/examples/Eraser/rev1518-1801/right-branch-1801/Eraser.Util/VolumeInfo.cs:624-628 | the first mount point, or the identifier when there is none; a `MountPoints` failure propagates |
| MountPoints.LocalMountPoints | fstmerge/examples/Eraser/rev1518-1801/right-branch-1801/Eraser.Util/VolumeInfo.cs:539-546 | a local volume whose path names come in the OS layout is mounted exactly at those paths |
| MountPoints.NetworkMountPoints | fstmerge/examples/Eraser/rev1518-1801/right-branch-1801/Eraser.Util/VolumeInfo.cs:129-137 | a network volume is mounted exactly at the local names that map to its UNC path |
| MountPoints.LocalMountPointsStorable | fstmerge/examples/Eraser/rev1518-1801/right-branch-1801/Eraser.Util/VolumeInfo.cs:105-120 | every local mount point reported is non-empty and NUL-free |
| MountResolver.WithBackslash | fstmerge/examples/Eraser/rev1518-1801/right-branch-1801/Eraser.Util/VolumeInfo.cs:293-295 | a non-empty directory name gains a trailing backslash only when it lacks one; an empty one stays empty |
| MountResolver.Chain | fstmerge/examples/Eraser/rev1518-1801/right-branch-1801/Eraser.Util/VolumeInfo.cs:351-353 | the walk visits the directory first and ends at a directory without a parent |
| MountResolver.ChainLinks | fstmerge/examples/Eraser/rev1518-1801/right-branch-1801/Eraser.Util/VolumeInfo.cs:351 | each directory visited is followed by its parent |
| MountResolver.Probe | fstmerge/examples/Eraser/rev1518-1801/right-branch-1801/Eraser.Util/VolumeInfo.cs:293-349 | the loop body computes the step `Walk` takes at one directory; what each answer of the operating system makes of the walk is stated by the three `WalkAt…` lemmas |
| MountResolver.WalkAtEmptyName | fstmerge/examples/Eraser/rev1518-1801/right-branch-1801/Eraser.Util/VolumeInfo.cs:293-299 | a directory with an empty name ends the walk with DirectoryNotFound |
| MountResolver.WalkAtNetworkDrive | fstmerge/examples/Eraser/rev1518-1801/right-branch-1801/Eraser.Util/VolumeInfo.cs:302-327 | on a network drive, WNetGetConnection is asked about the directory without its trailing backslash. Success yields the volume of the share plus a backslash, and a share with a UNC prefix is a volume with exactly that identifier. BadDevice makes the result that of the walk from the parent, or NotAReparsePoint at a root. Any other code ends the walk with that code |
| MountResolver.WalkAtLocalDirectory | fstmerge/examples/Eraser/rev1518-1801/right-branch-1801/Eraser.Util/VolumeInfo.cs:328-351 | on any other drive, a volume name found yields that volume. InvalidFunction, FileNotFound, PathNotFound and NotAReparsePoint make the result that of the walk from the parent, or NotAReparsePoint at a root. Any other code ends the walk with that code |
| MountResolver.FromMountPoint | fstmerge/examples/Eraser/rev1518-1801/right-branch-1801/Eraser.Util/VolumeInfo.cs:282-356 | the do-while returns `FromMountPointOf`: not-found for a missing directory, else the walk along the directory's ancestors |
| MountResolver.WalkStopsAtFirst | fstmerge/examples/Eraser/rev1518-1801/right-branch-1801/Eraser.Util/VolumeInfo.cs:290-353 | the walk's outcome is that of the first directory not passed over: a found volume or a fatal error |
| MountResolver.WalkExhausted | fstmerge/examples/Eraser/rev1518-1801/right-branch-1801/Eraser.Util/VolumeInfo.cs:353-355 | when every directory is passed over, the walk ends with NotAReparsePoint |
| MountResolver.WalkFromAncestor | fstmerge/examples/Eraser/rev1518-1801/right-branch-1801/Eraser.Util/VolumeInfo.cs:290-353 | starting from any ancestor reached by passing over the ones below gives the same result |
| MountResolver.FromMountPointResolves | fstmerge/examples/Eraser/rev1518-1801/right-branch-1801/Eraser.Util/VolumeInfo.cs:282-356 | for an existing directory, the result is decided by its first ancestor that is a mount point, a mapped share or a fatal failure |
| VolumeLocking.TryLock | fstmerge/examples/Eraser/rev1518-1801/right-branch-1801/Eraser.Util/VolumeInfo.cs:638-646 | between 1 and 102 lock requests are made; every request before the last failed; the loop locks iff the last request succeeded; giving up takes exactly 102 failures |
| VolumeLocking.TryLockSucceeds | fstmerge/examples/Eraser/rev1518-1801/right-branch-1801/Eraser.Util/VolumeInfo.cs:638-646 | the lock is taken iff one of the first 102 requests succeeds |
| VolumeLocking.LockVolume | fstmerge/examples/Eraser/rev1518-1801/right-branch-1801/Eraser.Util/VolumeInfo.cs:629-648 | fails with LockFailed iff none of the 102 requests succeeds; otherwise a new lock holds the stream |
| VolumeLocking.VolumeLock.constructor | fstmerge/examples/Eraser/rev1518-1801/right-branch-1801/Eraser.Util/VolumeInfo.cs:647 | a lock holds the stream it was taken on |
| VolumeLocking.VolumeLock.Dispose | fstmerge/examples/Eraser/rev1518-1801/right-branch-1801/Eraser.Util/VolumeInfo.cs:653-672 | a released lock is left alone and issues no request; a failed unlock reports UnlockFailed and keeps the stream; a successful one clears it |
| VolumeLocking.DisposeTwice | fstmerge/examples/Eraser/rev1518-1801/right-branch-1801/Eraser.Util/VolumeInfo.cs:659-672 | after a successful release, a second `Dispose` issues no request and returns success, whatever the unlock would have answered |
| GraphHash.EdgeHash | fstcomp/examples/C/GraphLib/Hash/graph_hash.c:21-29 | the hash is a 32-bit value whose high half is the smaller endpoint and whose low half is the larger |
| GraphHash.EdgeHashUnordered | fstcomp/examples/C/GraphLib/Hash/graph_hash.c:21-29 | two keys hash alike iff they are the same pair in either order |
| GraphHash.EdgeEqualIsOrdered | fstcomp/examples/C/GraphLib/Hash/graph_hash.c:21-33 | equal keys hash alike; a pair and its reverse hash alike but are different keys |
| GraphHash.Graph.constructor | fstcomp/examples/C/GraphLib/Hash/graph_hash.c:39-51 | a valid graph with no edges, every degree 0, `degree_dist[0] = n` and every other entry 0 |
| GraphHash.Graph.GetEdge | fstcomp/examples/C/GraphLib/Hash/graph_hash.c:71-79 | true iff the ordered key (i, j) is stored |
| GraphHash.Graph.SetEdge | fstcomp/examples/C/GraphLib/Hash/graph_hash.c:58-69 | validity is kept and the key is present afterwards. A present key changes nothing. Otherwise exactly `degree[i]` and `degree[j]` rise by one |
| GraphHash.Graph.DelEdge | fstcomp/examples/C/GraphLib/Hash/graph_hash.c:81-91 | returns whether the key was stored and removes it; exactly `degree[i]` and `degree[j]` drop by one; the histogram stays exact; the graph stays valid when the key was stored, and otherwise both degrees are one below their real value |
| GraphHash.Graph.FlipEdge | fstcomp/examples/C/GraphLib/Hash/graph_hash.c:93-111 | validity is kept; the sorted key is toggled; both degrees drop by one if it was stored and rise by one otherwise, and no other degree changes |
| GraphHash.Graph.StepDegrees | fstcomp/examples/C/GraphLib/Hash/graph_hash.c:64 | the pre-increment (or pre-decrement) of both degrees, returning the new values |
| GraphHash.Graph.MoveCounts | fstcomp/examples/C/GraphLib/Hash/graph_hash.c:65-68 | the four histogram updates of set/del: up at each new degree, down at each old one |
| GraphHash.Graph.FlipSorted | fstcomp/examples/C/GraphLib/Hash/graph_hash.c:96-110 | the body of `graph_flip_edge` after the swap keeps validity, toggles the key and moves both degrees by one |
| GraphHash.Graph.StoreDegree | fstcomp/examples/C/GraphLib/Hash/graph_hash.c:102-103 | `degree_dist[degree[v] = x]++`: one degree stored and counted |
| GraphHash.Graph.BumpDist | fstcomp/examples/C/GraphLib/Hash/graph_hash.c:97-98 | one histogram slot moved by one; nothing else changes |
| GraphHash.Graph.GetDegree | fstcomp/examples/C/GraphLib/Hash/graph_hash.c:137-139 | the stored degree, below `nnodes` whenever the histogram is exact, and equal to the number of stored keys touching the node while the degree table is consistent |
| GraphHash.AbsentDeleteDrifts | fstcomp/examples/C/GraphLib/Hash/graph_hash.c:81-91 | after deleting an absent key from a valid graph, `graph_get_degree` reports one less than the number of stored keys touching the node |
| GraphHash.Graph.GetNEdges | fstcomp/examples/C/GraphLib/Hash/graph_hash.c:141-143 | the number of stored keys reduced to 16 bits; exactly that number while it fits |
| GraphHash.ValidTotals | fstcomp/examples/C/GraphLib/Hash/graph_hash.c:17-18 | on a valid graph the histogram sums to `nnodes` and the degrees sum to twice the number of keys |
| GraphHash.FlipTwice | fstcomp/examples/C/GraphLib/Hash/graph_hash.c:93-111 | flipping the same pair twice restores the edge set, the degrees and the histogram |
| GraphSpec.DegInsert | fstcomp/examples/C/GraphLib/Hash/graph_hash.c:63-64 | inserting a new key raises exactly its endpoints' degrees by one |
| GraphSpec.DegRemove | fstcomp/examples/C/GraphLib/Hash/graph_hash.c:85-90 | removing a stored key lowers exactly its endpoints' degrees by one |
| GraphSpec.CountUpdate | fstcomp/examples/C/GraphLib/Hash/graph_hash.c:17-18 | overwriting one degree moves one count from the old value to the new one |
| GraphSpec.SumUpdate | fstcomp/examples/C/GraphLib/Hash/graph_hash.c:17 | overwriting one entry changes the sum by the difference |
| GraphSpec.CountConstant | fstcomp/examples/C/GraphLib/Hash/graph_hash.c:47-49 | in n zeros, 0 occurs n times and nothing else occurs |
| GraphSpec.HistogramMoveTwo | fstcomp/examples/C/GraphLib/Hash/graph_hash.c:64-68 | moving two nodes to new degrees, while the counts move with them, keeps the histogram exact |
| GraphSpec.HistogramSetDel | fstcomp/examples/C/GraphLib/Hash/graph_hash.c:64-68 | the update order of set_edge and del_edge (up at the new degrees, then down at the old) keeps the histogram exact |
| GraphSpec.HistogramFlip | fstcomp/examples/C/GraphLib/Hash/graph_hash.c:96-110 | the update order of flip_edge (down at the old degrees, then up at the new) keeps the histogram exact |
| GraphSpec.DegreesAfterInsert | fstcomp/examples/C/GraphLib/Hash/graph_hash.c:63-64 | inserting a new key and raising both degrees keeps the degree table exact |
| GraphSpec.DegreesAfterRemove | fstcomp/examples/C/GraphLib/Hash/graph_hash.c:85-90 | removing a stored key and lowering both degrees keeps the table exact; both degrees were positive |
| GraphSpec.DegreesAfterDelete | fstcomp/examples/C/GraphLib/Hash/graph_hash.c:81-91 | after del_edge the table is exact when the key was stored, and one below the real degree at both endpoints when it was not |
| GraphSpec.FlipBookkeeping | fstcomp/examples/C/GraphLib/Hash/graph_hash.c:93-111 | flip_edge's new degrees stay in range, its histogram updates keep the histogram exact, and its degree table matches the toggled edge set |
| GraphSpec.SumCountsAppend | fstcomp/examples/C/GraphLib/Hash/graph_hash.c:18 | one more node adds one to the counts iff its degree is in range |
| GraphSpec.SumCountsAll | fstcomp/examples/C/GraphLib/Hash/graph_hash.c:18 | when every degree is in range, the counts add up to the number of nodes |
| GraphSpec.SumOfHistogram | fstcomp/examples/C/GraphLib/Hash/graph_hash.c:18 | the sum of a histogram is the sum of the counts it records |
| GraphSpec.HistogramTotal | fstcomp/examples/C/GraphLib/Hash/graph_hash.c:17-18 | a degree histogram over n slots sums to the number of nodes |
| GraphSpec.SumDegRemove | fstcomp/examples/C/GraphLib/Hash/graph_hash.c:17 | removing a key lowers the degree sum by the number of its endpoints in range |
| GraphSpec.Handshake | fstcomp/examples/C/GraphLib/Hash/graph_hash.c:17 | the degrees of a graph sum to twice its number of keys |
| GraphSpec.SumOfDegreeTable | fstcomp/examples/C/GraphLib/Hash/graph_hash.c:17 | a table holding every node's degree sums to the degree sum |

## Left out

- Win32 and P/Invoke plumbing: each call is an oracle in `Win32.Os`. This covers GetVolumeInformation, GetDiskFreeSpace(Ex), GetDriveType, GetVolumePathNamesForVolumeName, WNetOpenEnum/WNetEnumResource, WNetGetConnection, GetVolumeNameForVolumeMountPoint, CreateFile and DeviceIoControl. The marshalling of NETRESOURCE records becomes a sequence of record batches.
- The StringBuilder grow-and-retry loop of `GetLocalVolumeMountPoints`: only the final buffer is modelled, so a failed query is an error code.
- `Volumes` and `MountedVolumes`: these are FindFirstVolume/FindNextVolume handle loops with no logic of their own.
- The live accessors `ClusterSize`, `SectorSize`, `TotalFreeSpace`, `TotalSize`, `AvailableFreeSpace` and `VolumeType`: they pass oracle values through. `VolumeType` appears only as `os.driveType(id)`.
- `Performance` and `DiskPerformanceInfo`: a field-by-field copy of an OS structure.
- The `Open` overloads: they wrap `OpenHandle` in a FileStream.
- DirectoryInfo: the model abstracts it as a full-name function, an existence test and a parent function. The parent's name must be strictly shorter than its child's, which is what makes the upward walk finite. Path normalisation itself is not modelled.
- `Thread.Sleep`, `Stream.Flush`, the finaliser and `GC.SuppressFinalize` in `VolumeLock`: the model keeps the attempt count and the held/released state.
- Exception types: each becomes an `Error` value, so `IOException`, `ArgumentException`, `Win32Exception` and `NotSupportedException` are not told apart beyond that value.
- VolumeInfo.NewVolume: the GetVolumeInformation buffers are taken as whatever the oracle returns, even when the call fails. The 260-character buffer limit is not modelled.
- The graph's printing and file-writing functions (`graph_show*`, `graph_write_*`, `graph_show_glib_version`), `edge_destroy`, `graph_clear` and the `malloc(sizeof(graph_t))` size: these are I/O and memory management.
- GraphHash.Graph.constructor: `graph_new(0)` writes `degree_dist[0]` into a zero-length allocation, so the model requires at least one node. `nnodes == G_MAXUSHORT`, which makes the program exit, is excluded too.
- GraphHash.Graph.SetEdge, GraphHash.Graph.DelEdge, GraphHash.Graph.FlipEdge: the C code does not check bounds. The model requires the new degrees to stay within `[0, nnodes)` so that every array write is in bounds.
- GraphHash.EdgeHash: the C `gint` shift can produce a negative intermediate, which is returned as `guint` with the same bits. The model gives the unsigned value directly.
- GraphHash.Graph.GetDegree: `node_t` is 16 bits. Whenever the histogram is exact, degrees stay below `nnodes`, and `nnodes < 65535` from construction on, so no wrap-around is modelled there.
- GraphHash.Graph.SetEdge, GraphHash.Graph.DelEdge, GraphHash.Graph.FlipEdge: they require `Valid()`. So after a delete of an absent key, which breaks the match between the degree table and the edge set, the model does not follow further mutations. `GetDegree` still reads that state (`AbsentDeleteDrifts`).
- VolumeInfo.ValidVolumeId, NetworkDrives.ReconcileStep, NetworkDrives.ReconcileShortest: C# strings are modelled as sequences of characters compared exactly. The culture-sensitive `String.StartsWith`/`EndsWith` used without a `StringComparison` is not modelled; it skips ignorable code points such as U+00AD, so it accepts some identifiers the model rejects. `Length` is modelled as the number of characters, not of UTF-16 code units, so a name containing a character outside the Basic Multilingual Plane can compare differently. Null strings, such as a null `volumeId`, which throws NullReferenceException, are not modelled, except for the null local and remote names of network records.
