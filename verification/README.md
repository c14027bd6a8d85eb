# Verified model of ifuse-rs

ifuse-rs mounts the file system of an iOS device over AFC, through FUSE on Linux and WinFsp on Windows. This Dafny
project models the parts of it that keep state, encode data or run concurrently, and proves what they promise for all
inputs, all runs and all interleavings. `dafny verify dfyconfig.toml` checks everything.

| file | what it models |
|---|---|
| Splitting.dfy | cutting a sequence at separators; shared by paths and AFC payloads |
| Paths.dfy | path strings, `child`, `parent`, the subtree test, the mount-root prefix |
| InodeTable.dfy | the two maps of the inode table, with `rename` over an arbitrary hash-map order |
| MountState.dfy | device tree, table and descriptors as one transition system; what each FUSE callback may do |
| MountRuns.dfy | whole runs of callbacks: identity of entries, conservation of descriptors |
| RemoteDevice.dfy | the device the callbacks talk to, with a record of every request and its answer |
| Filesystem.dfy | the FUSE callbacks as methods, each proved to be one step of that system |
| Paging.dfy | directory pages by offset, "." and ".." |
| WindowsDirectory.dfy | the sorted snapshot and pages resumed by name |
| Transfer.dfy | chunked reading and writing through one descriptor |
| BackendProtocol.dfy | the worker thread, its clients and its shutdown, as a concurrent protocol |
| MountLifecycle.dfy | `unmount` from many clones at once, on both platforms, and `Drop` |
| Utf16.dfy, Reparse.dfy | UTF-16 and the symbolic-link reparse buffer |
| Payload.dfy | UTF-8, zero-terminated lists and dictionaries |
| Timestamps.dfy | write times between Windows ticks, saturating nanoseconds and decimal text |
| Counterexamples.dfy | concrete inputs and runs at which the conditional properties fail without their condition |
| Wrappers.dfy | optional values and results |

## How the source is modelled

- Paths are strings, as in the source. `Components` lists the names of a path and `Render` puts them together again;
  a canonical path is one that `Render` gives back. Names are non-empty and contain no `/`.
- The device is a tree of entries, each with an identity that is never given out again; a hard link is an entry of its
  own. A run starts on any such tree, with whatever it already holds and nothing open yet, and the tree then changes only
  through the mount. The device may refuse any request. It refuses to move an entry below itself or over a directory that is not
  empty, which is where the absence of nested renames comes from: it is proved from the device's answer, not assumed.
- The iteration order of a hash map is arbitrary: the loops of `rename` and `remove` pick any remaining key.
- One FUSE callback is one step. The default `fuser` configuration the source starts from runs them one at a time.
- Bytes are integers below 256 and UTF-16 units integers below 65536. 16-bit truncations, 64-bit saturation, the cast of
  a file offset to `i64`, the cast of a byte count to `u32` and the wrapping packet number are written out.
- Every request a callback sends is recorded with its answer. Each callback is proved to send exactly the requests of the
  source, in its order, up to the first refusal, and to succeed if and only if none was refused (`Remote.Follows`).
- The device refuses to seek to a negative position. That is where the refusal of offsets from 2^63 on comes from, since
  the source itself only casts.
- Characters are Unicode scalar values, as in Rust.

## Results where a condition decides

Each condition is followed by an input or a run at which the property fails without it.

- `rename` of the table gives the same result in every hash-map order if and only if no image of a moved path is another
  moved path (`Inodes.RenameOrderIndependence`). Paths that are equal or not nested always satisfy this; renaming /a to
  /a/b with both tracked does not (`Counterexamples.OrderMatters`).
- A rename accepted by the device keeps tracked paths on their own entries if and only if its source has been looked up,
  or its destination has not, or both are the same (`MountState.RenameKeepsIdentity`). The kernel always looks the
  source up first. Otherwise the destination keeps the inode of the entry that was replaced
  (`Counterexamples.UnknownSourceRun`). So a run keeps identity throughout if and only if every rename in it is such a one
  (`MountRuns.IdentityIffCareful`).
- Most callbacks start from the path kept for an inode number. That path is the one of the number's own entry if and
  only if the entry still exists, which is if and only if the path is tracked under that number
  (`MountState.NumberReachesItsEntry`). A rename over a looked-up path leaves exactly one number behind
  (`MountState.OnlyReplacedGoesStale`): until the kernel forgets it, `open`, `getattr` and `setattr` with it act on the
  entry that was moved there. So truncating the old file through a handle that is still open truncates the new one
  (`Filesystem.IfuseFilesystem.SetAttr`, `MountState.ReplacedNumberMisleads`, `Counterexamples.StaleNumberRun`).
- The two maps stay exact inverses under an unentangled rename if and only if it overwrites no tracked path
  (`Inodes.RenameKeepsExact`, `Counterexamples.StaleNumberRun`).
- The reparse buffer round-trips if and only if the target has at most 32767 UTF-16 units (`Reparse.RoundTrip`). The
  source writes longer targets without an error, with wrapped length fields; one of 32768 characters is read back as
  the empty target (`Counterexamples.LongTargetIsLost`). The data-length field is right if and only if there are at most
  16380 units (`Reparse.DataLength`, `Counterexamples.DataLengthWraps`).
- The descriptors open on the device are the kernel's handles if and only if no release and no failed create of the run
  had its Close refused (`MountRuns.DescriptorsConserved`, `Counterexamples.RefusedCloseRun`). The source ignores a
  refused Close.
- A shutdown of the backend begins after the teardown of the session if and only if no other call is tearing down at
  that moment (`MountLifecycle.ShutdownOrder`). On Windows the host lock makes this always so; on Linux two overlapping
  calls can break it (`MountLifecycle.LinuxOverlap`).
- A write time set on Windows reads back unchanged if and only if it lies between 1970 and what 64 bits of nanoseconds
  can say (`Timestamps.SetThenReadExact`, `Counterexamples.TimesAreClamped`).
- The subtree tests of table and device agree except for the subtree of the mount's own root
  (`Paths.DevicePathKeepsSubtrees`, `Counterexamples.RootSubtreeDiffers`).

## Model

| member | source | states |
|---|---|---|
| Paths.ParentOfChild | src/inode.rs:74-89 | for every canonical path and legal name, `child` is canonical, appends one name, and `parent` undoes it |
| Paths.ChildOfRender | src/inode.rs:74-80 | `child` on strings is appending a name to the list, the root included |
| Paths.ParentOfRender | src/inode.rs:82-89 | `parent` on strings drops the last name; the root is its own parent |
| Paths.ComponentsOfRender | src/inode.rs:74-80 | the string of a list of legal names determines the list |
| Paths.SubtreeIsPrefix | src/inode.rs:42-71 | `p == from` or `p` starts with `from/` holds exactly when `from`'s names are a prefix of `p`'s, so siblings with a common string prefix are never selected; for the root it selects the root alone |
| Paths.ImageIsSubstitution | src/inode.rs:50-54 | `to` + suffix is canonical and replaces the names of `from` by those of `to` |
| Paths.DevicePathPrepends | src/afc.rs:61-73 | for every canonical mount root, the device path has the root's names followed by the path's |
| Paths.DevicePathInjective | src/afc.rs:61-73 | different mount paths have different device paths |
| Paths.DevicePathOfChild | src/afc.rs:61-73 | mapping to the device commutes with `child` |
| Paths.DevicePathKeepsSubtrees | src/afc.rs:61-73 | the subtree tests on mount and device agree exactly when the subtree is not the mount's own root, or the device root is trivial, or the path is the root |
| Paths.DevicePathOfImage | src/afc.rs:61-73 | renaming in the table and on the device move the same entries to the same places: the device path of an image is the image of the device path |
| Paths.DevicePathOfAny | src/afc.rs:61-73 | for any two strings at all: an absolute path under "/" is itself, a relative one is made absolute, and under another root the root comes first without its trailing slashes, alone for "/" or nothing |
| Paths.TrimmedIsPrefix | src/afc.rs:71-71 | trimming takes away exactly the slashes at the end |
| Counterexamples.RootSubtreeDiffers | src/afc.rs:61-73 | below the mount root the two subtree tests differ for /a |
| Inodes.InodeTable.constructor | src/inode.rs:12-24 | a fresh table tracks the root as inode 1, issues 2 next, and its maps are exact inverses |
| Inodes.InodeTable.Path | src/inode.rs:27-29 | the path of an inode, present exactly for numbers in use |
| Inodes.InodeTable.Inode | src/inode.rs:31-40 | a known path gets its number, a new one gets the next number; consistency is kept |
| Inodes.InodeTable.Rename | src/inode.rs:42-57 | in whatever order the pairs are visited the table stays consistent, and it becomes the simultaneous renaming whenever no image is a moved path |
| Inodes.InodeTable.Remove | src/inode.rs:59-71 | exactly the paths of the subtree and their inodes are gone |
| Inodes.TrackKeeps | src/inode.rs:31-40 | issuing keeps consistency and exactness and every older path's number |
| Inodes.RemoveKeeps | src/inode.rs:59-71 | removing keeps consistency and exactness |
| Inodes.LoopKeepsConsistency | src/inode.rs:50-56 | after any part of the rename loop, in any order and however nested, the table is consistent, no live number has appeared or vanished, and each visited inode leads to its image |
| Inodes.RenameIsExact | src/inode.rs:42-57 | every order of the loop gives the simultaneous renaming when no image is a moved path |
| Inodes.RenamedMoves | src/inode.rs:50-56 | each moved path carries its inode to its image, both ways round |
| Inodes.RenamedKeeps | src/inode.rs:43-49 | every path that is not moved stays tracked under its own inode unless an image lands on it |
| Inodes.RenamedPaths | src/inode.rs:42-57 | after a rename exactly the images and the unmoved paths are tracked |
| Inodes.RenameOrderIndependence | src/inode.rs:42-57 | all hash-map orders give the same table if and only if no image of a moved path is another moved path |
| Inodes.EntangledOrdersDiffer | src/inode.rs:42-57 | if the image of a moved path is another moved path, two orders give different tables |
| Counterexamples.OrderMatters | src/inode.rs:42-57 | renaming /a to /a/b while both are tracked gives different tables in different orders |
| Inodes.UnnestedIsUnentangled | src/inode.rs:42-57 | equal or non-nested paths never have an image that is a moved path |
| Inodes.RenameKeepsConsistent | src/inode.rs:42-57 | rename never changes the set of live inode numbers or the next number, nested renames included |
| Inodes.LeftBehind | src/inode.rs:49-56 | after a rename a number's path leads back to it exactly if it did before and no image took the path |
| Inodes.RenameKeepsExact | src/inode.rs:42-57 | such a rename keeps the maps exact inverses if and only if no image lands on a tracked path outside the moved set |
| Inodes.RunsAreConsistent | src/inode.rs:26-72 | every table of every run of the three operations leads each tracked path's inode back to that path, and is an exact inverse pair if no rename overwrote or entangled |
| Inodes.NumbersAreNeverReissued | src/inode.rs:31-40 | over every run, a number below the counter that is live later was live before, and runs of renames leave the live numbers unchanged |
| Counterexamples.RemovedRun | src/filesystem.rs:473-485 | a run that makes, looks up and removes a file: its entry and its inode are gone and nothing else is |
| MountState.ObservedKeepsIdentity | src/filesystem.rs:90-93 | giving an inode to an existing entry keeps every tracked path on its own entry |
| MountState.UnlinkKeepsIdentity | src/filesystem.rs:473-485 | device and table remove the same entries |
| MountState.AcceptedRenameIsExact | src/filesystem.rs:253-263 | what the device accepts is never nested, so the table's rename is the simultaneous one |
| MountState.RenamedEntryTracked | src/filesystem.rs:253-263 | every entry that was given an inode is tracked under it at its new place |
| MountState.UnknownSourceMisleads | src/filesystem.rs:253-263 | when an entry that was never looked up replaces a tracked one, the destination keeps the replaced entry's inode |
| MountState.RenameKeepsIdentity | src/filesystem.rs:253-263 | an accepted rename keeps identity if and only if the source was looked up, or the destination was not, or both are equal |
| Counterexamples.UnknownSourceRun | src/filesystem.rs:239-265 | a run from the fresh mount whose last rename, of a path never looked up over one that was, loses identity |
| MountState.NumberReachesItsEntry | src/filesystem.rs:45-51 | the path kept for a number is that of its own entry if and only if the path is tracked under it, and if and only if that entry still exists anywhere on the device |
| MountState.ReplacedNumberMisleads | src/inode.rs:49-56 | a rename over a looked-up path leaves the replaced number leading to the entry that was moved there, which has a number of its own |
| MountState.OnlyReplacedGoesStale | src/inode.rs:49-56 | a rename leaves behind exactly the number of the path it replaced, and restores none |
| Counterexamples.StaleNumberRun | src/filesystem.rs:253-263 | a careful run after which identity holds but the maps are no longer inverses: inode 3 leads to the entry of inode 2 |
| MountState.IdleRenameMisleads | src/filesystem.rs:253-263 | if the device accepts a rename without doing anything, as for two hard links of one file, identity survives if and only if the source had not been looked up |
| MountRuns.StepKeepsIdentity | src/filesystem.rs:103-470 | each callback, refused at any point or not, keeps tracked paths on their entries and never rewrites what a number was issued for |
| MountRuns.MountedIdentity | src/inode.rs:12-24 | the fresh table on any device tree satisfies identity and conserves descriptors |
| MountRuns.WholeRunIdentity | src/filesystem.rs:103-485 | on whatever the device held when it was mounted, in every state of every run whose renames have looked-up sources, each tracked path exists on the device under the inode issued for that entry, and each entry given an inode is tracked under it |
| MountRuns.IdentityIffCareful | src/filesystem.rs:239-265 | a run keeps this in all its states if and only if each rename that takes effect has a looked-up source, or replaces nothing looked up |
| MountRuns.EntryKeepsItsNumber | src/filesystem.rs:90-113 | a later lookup yields a number exactly when it is of the entry that number was issued for, however often it or an ancestor was renamed |
| MountRuns.DescriptorsConserved | src/filesystem.rs:289-297 | in every reachable state every handle of the kernel is open on the device, and nothing else is, if and only if no release or failed create of the run so far had its Close refused |
| MountRuns.StepConservesDescriptors | src/filesystem.rs:435-469 | every callback conserves descriptors, a create whose stat fails included; those open without a handle never become fewer, and become more exactly when a Close is refused |
| Counterexamples.RefusedCloseRun | src/filesystem.rs:352-366 | a run of a create and a release after which a descriptor is open that no handle stands for |
| Filesystem.IfuseFilesystem.constructor | src/filesystem.rs:32-43 | a new file system on whatever the device holds tracks the root alone, has no handles, and satisfies identity |
| Filesystem.IfuseFilesystem.NamedPath | src/filesystem.rs:53-58 | the child path of a known parent, canonical, and below the parent's own entry exactly if its number has not been left behind; an unknown inode is an error |
| Filesystem.IfuseFilesystem.Entry | src/filesystem.rs:90-93 | the inode of an existing path, without moving any older one |
| Filesystem.IfuseFilesystem.Lookup | src/filesystem.rs:104-113 | one stat and one lookup step: it succeeds if and only if the parent is known and the stat is accepted, with the tracked inode of the existing path, and any failure changes nothing |
| Filesystem.IfuseFilesystem.MakeEntry | src/filesystem.rs:185-237 | mkdir and symlink: the make request with its kind and target, then the stat; success if and only if both are accepted, and only then is the new entry tracked |
| Filesystem.IfuseFilesystem.Link | src/filesystem.rs:267-287 | link: an unknown target inode or parent is an error before any request, and otherwise the target sent is the path of that inode |
| Filesystem.IfuseFilesystem.Rename | src/filesystem.rs:239-265 | flags first, then unknown inodes, without any request; the one request decides success; an accepted rename is the simultaneous one, with the exact condition for identity |
| Filesystem.IfuseFilesystem.Remove | src/filesystem.rs:473-485 | the one request decides success; then the entry was there and is gone with its subtree in the table, and otherwise nothing changed |
| Filesystem.IfuseFilesystem.Open | src/filesystem.rs:289-297 | the one request decides success; then exactly one unused descriptor is granted, and the entry opened is the one the number was issued for if and only if the number has not been left behind by a rename |
| Filesystem.IfuseFilesystem.GetAttr | src/filesystem.rs:115-128 | the attributes are those of the number's own entry if and only if the number has not been left behind by a rename |
| Filesystem.IfuseFilesystem.SetAttr | src/filesystem.rs:130-169 | both requests go to one entry, whatever handle was passed: the number's own if and only if it has not been left behind; an error leaves what was done before it, and nothing else is ever changed |
| Filesystem.IfuseFilesystem.Release | src/filesystem.rs:352-366 | the handle is given up; it stays open on the device only if the Close was refused |
| Filesystem.IfuseFilesystem.Create | src/filesystem.rs:435-469 | open, stat, and after a refused stat a Close whose answer does not matter; success if and only if both are accepted; on error the kernel's handles are unchanged, and no further descriptor is open on the device unless its Close was refused |
| Filesystem.IfuseFilesystem.ReadDir | src/filesystem.rs:379-419 | the listing request, then one stat for each entry that fits and for the first that does not; success if and only if all are accepted; the page is the longest run of entries from the offset that fits, each with the next offset and the inode issued for the very entry its name stands for, "." and ".." included; no older number moves |
| Filesystem.ReadWholeDirectory | src/filesystem.rs:379-419 | calling readdir page after page with the last offset returned gives the positions of the completed listing from the first on, each once and in order under the inode of the entry it stands for; enough pages give all of it, and only a refused request or an unknown inode stops it |
| Filesystem.IfuseFilesystem.FillPage | src/filesystem.rs:397-412 | the loop of `readdir`: which paths it asks about and in what order, where the page ends, and what its entries are |
| Filesystem.DirentStandsFor | src/filesystem.rs:397-407 | the inode in a directory entry is the one issued for the directory itself, the one above it, or the entry of that name inside |
| Paging.WithDots | src/filesystem.rs:391-396 | the completed listing has both dot names; inserting at index 1 is always in range |
| Paging.WithDotsKeeps | src/filesystem.rs:391-396 | the device's own entries stay, in order and as often |
| Paging.WithDotsCompletes | src/filesystem.rs:391-396 | each dot name the device gave stays as often, and each it left out appears exactly once |
| Paging.WithDotsPlaces | src/filesystem.rs:391-396 | a missing "." comes first and a missing ".." second, and a listing with both stays as it is |
| Paging.PageIsLongest | src/filesystem.rs:397-412 | a page is the longest run of entries that fits its buffer |
| Paging.LargeBuffersSuffice | src/filesystem.rs:397-412 | buffers that hold every entry always hold the one their page starts with |
| Paging.PagesReproduceListing | src/filesystem.rs:397-412 | resuming with the last offset, any pages of any sizes that hold the entry they start with give each position once and in order, and enough of them give the whole listing |
| WindowsDirectory.LessIsBefore | src/windows_filesystem.rs:252-252 | the order of names, without recursion: a proper prefix comes first, and otherwise the first differing code point decides |
| WindowsDirectory.OrderOfBytes | src/windows_filesystem.rs:252-252 | that is the order of the UTF-8 bytes, which is how Rust compares strings |
| WindowsDirectory.SortSorts | src/windows_filesystem.rs:252-252 | sorting distinct names gives an ascending permutation |
| WindowsDirectory.SortedIsUnique | src/windows_filesystem.rs:252-252 | for distinct names there is one sorted arrangement, so an unstable sort has one result |
| WindowsDirectory.SnapshotIsListing | src/windows_filesystem.rs:242-254 | the snapshot holds exactly the listed names other than "." and "..", each with its stat, ascending |
| WindowsDirectory.StartsAfterMarker | src/windows_filesystem.rs:472-476 | the page starts at the first name that comes after the marker, listed or not |
| WindowsDirectory.ResumesAfter | src/windows_filesystem.rs:472-476 | resuming with the name of entry k goes on with entry k + 1 |
| WindowsDirectory.ByNameIsByPosition | src/windows_filesystem.rs:256-271 | resuming by name reads what resuming by position reads |
| WindowsDirectory.PagesReproduceSnapshot | src/windows_filesystem.rs:256-271 | for distinct names, resuming by name through any buffers that hold the entry they start with yields a prefix of the ascending listing, and enough buffers yield all of it |
| WindowsDirectory.EnumerateDirectory | src/windows_filesystem.rs:232-275 | calling read_directory page after page with the last name returned, encoded in UTF-16 as the marker, yields the listing in ascending order, every entry exactly once, and enough buffers yield all of it; it cannot fail if all names fit an entry |
| WindowsDirectory.IfuseFileContext.TakeSnapshot | src/windows_filesystem.rs:243-253 | the loop stores the snapshot exactly when every stat succeeds, and otherwise keeps the old one |
| WindowsDirectory.IfuseFileContext.ReadDirectory | src/windows_filesystem.rs:232-275 | the three errors and when they occur, when the snapshot is replaced, that the page begins with the first name after the decoded marker, which entries it holds, and when the end mark is in it |
| Counterexamples.LongestName | src/windows_filesystem.rs:263-263 | a name of 255 units fits an entry, one of 256 does not |
| WindowsDirectory.FillBuffer | src/windows_filesystem.rs:259-274 | the page is the entries that fit, with the end mark exactly if they are the last and it fits too; it fails exactly when a name it looks at is too long |
| Transfer.SplicesJoin | src/afc.rs:228-239 | writing two adjacent pieces is writing their concatenation |
| Transfer.ReadBack | src/afc.rs:209-239 | reading the range just written gives back what was written |
| Transfer.ReadElsewhere | src/afc.rs:209-239 | reading any range before or after it gives what was there |
| Transfer.GapIsZero | src/afc.rs:228-239 | a gap between the old end and the bytes written reads as zeros, and the file ends where the longer of both does |
| Transfer.CastIsTwosComplement | src/afc.rs:201-205 | the signed cast of an offset keeps its 64 bits |
| Transfer.ChunksAreMiB | src/afc.rs:12-12 | a transfer takes one request for each started MiB |
| Transfer.AfcTransport.NumberPacket | src/afc.rs:81-94 | the n-th request carries n modulo 2^64 |
| Transfer.AfcTransport.Seek | src/afc.rs:201-207 | the position asked for is the offset in two's complement, so one of 2^63 or more is never accepted; a failure is a refusal |
| Transfer.AfcTransport.Read | src/afc.rs:209-226 | the result is a prefix of the requested slice, and all of it from a device that is short only at the end of the file, in exactly the stated number of requests and never more than one per started MiB; it fails if and only if a request was refused |
| Transfer.AfcTransport.Write | src/afc.rs:228-239 | success splices all bytes in at the offset; a failure, which is a refused request, leaves exactly the accepted chunks applied |
| BackendProtocol.StepKeepsInv | src/backend.rs:109-154 | every step of clients, worker and shutdown keeps each request's state a function of its place in the channel |
| BackendProtocol.Linearisable | src/backend.rs:301-314 | over all interleavings, any outcome a client has is the sequential device's answer to its own command at its place in the channel, or BackendStopped exactly if a shutdown came first |
| BackendProtocol.RealTimeOrder | src/backend.rs:305-314 | the channel only grows and a request submitted later stands behind every earlier one |
| BackendProtocol.ReplyNeverBlocks | src/backend.rs:301-303 | the worker always finds the reply channel empty |
| BackendProtocol.StepTowards | src/backend.rs:109-154 | every step of the worker brings every unsettled position of the channel strictly nearer, and no step of anyone else moves it |
| BackendProtocol.WorkerStepsCounted | src/backend.rs:109-154 | the worker's steps counted are its receives, device calls and replies |
| BackendProtocol.StepsAddUp | src/backend.rs:109-154 | over any stretch of any run, what is left for a position is what was left before less the steps of the worker, or nothing |
| BackendProtocol.DueIsBounded | src/backend.rs:109-154 | a request is settled after at most three steps for each message still queued and two for the one in hand |
| BackendProtocol.WorkerCanStep | src/backend.rs:109-154 | while anything in the channel is unsettled the worker can step |
| BackendProtocol.ClientsAreFree | src/backend.rs:301-314 | in every reachable state whoever has a sender can send, clone it or give it up, and the backend value can be stopped, and dropped once joined |
| BackendProtocol.SettledCollects | src/backend.rs:305-314 | a waiting client can receive its reply, or the end of its channel, exactly when its request is settled |
| BackendProtocol.NobodyStranded | src/backend.rs:305-314 | in every run, whatever other clients send meanwhile: once the worker has made the steps that were due for a request, its client has its outcome or can collect it at once, and it is the outcome fixed when the request was accepted |
| BackendProtocol.OutcomeStable | src/backend.rs:305-314 | later traffic never changes the outcome a request will have |
| BackendProtocol.OneOutcome | src/backend.rs:305-314 | a client that has an outcome keeps it over every run |
| BackendProtocol.WorkerLeaves | src/backend.rs:109-154 | a worker with a shutdown in its channel has left its loop after the steps due for it, whatever else is sent |
| BackendProtocol.StopReturns | src/backend.rs:70-75 | after the send of `stop` the worker is gone once the due steps are made, and the join is possible from then on |
| BackendProtocol.SecondStopIsHarmless | src/backend.rs:66-82 | in every state of every run after a `stop` has joined, the worker is gone, nothing is left to join, and another `stop`, as `drop` makes one, can be made at once and changes nothing |
| Counterexamples.ShutdownBetween | src/backend.rs:66-82 | a run of a request, a shutdown and a second request: the first is answered, the second is told the backend has stopped, and the join returns |
| BackendProtocol.UsefulEnabled | src/backend.rs:109-154 | while a client waits or a shutdown is pending, the worker or that client can step |
| BackendProtocol.InternalStepsDecrease | src/backend.rs:109-154 | every step of the worker or of a waiting client uses up work |
| BackendProtocol.InternalRunsAreShort | src/backend.rs:109-154 | in every run all such steps are paid for by the work there was at first and the requests and shutdowns sent since |
| BackendProtocol.InternalStepsCounted | src/backend.rs:109-154 | the steps paid for are those of the worker and of the waiting clients |
| BackendProtocol.BroughtCounted | src/backend.rs:109-154 | a request pays for five of them and a shutdown for four |
| BackendProtocol.QuietMeansDone | src/backend.rs:109-154 | in a reachable state with no such step left every client has its outcome, and a worker told to shut down is gone |
| BackendProtocol.RunWorker | src/backend.rs:109-154 | the loop answers the commands before the first shutdown in order, with the sequential device's answers, and drops the rest |
| MountLifecycle.StepKeepsInv | src/platform_linux.rs:36-53 | every step of every call keeps slots, locks, places and the log of events consistent, on both platforms |
| MountLifecycle.UnmountIsIdempotent | src/platform_windows.rs:38-47 | over all interleavings teardown and shutdown each begin and end at most once, and a call that returned Ok leaves both slots empty with the shutdown complete, on Windows the teardown too |
| MountLifecycle.LaterCallsAreNoOps | src/platform_linux.rs:36-47 | after a call has returned Ok no step begins anything, and on Windows none is logged at all |
| MountLifecycle.ShutdownOrder | src/platform_windows.rs:38-47 | a shutdown begins after the teardown ended if and only if no call is tearing down, and after a successful one if and only if no call has failed either; on Windows always |
| MountLifecycle.SequentialShutdownOrder | src/platform_linux.rs:36-53 | without overlapping calls the order holds on Linux too |
| MountLifecycle.LinuxOverlap | src/platform_linux.rs:36-53 | two overlapping calls on Linux that begin the shutdown during the teardown |
| MountLifecycle.NoDeadlock | src/platform_windows.rs:38-47 | while a call has not returned, it or the holder of the lock it waits for can step, and gets closer to returning |
| MountLifecycle.StepLowers | src/platform_linux.rs:36-53 | on both platforms every step of every call but its entry lowers the steps the calls have left |
| MountLifecycle.SchedulesAreBounded | src/platform_linux.rs:36-53 | under every schedule a run in which n calls enter has at most 4n further steps |
| MountLifecycle.EntriesCounted | src/platform_linux.rs:36-53 | the calls counted are those that entered |
| MountLifecycle.DropCompletes | src/platform_linux.rs:56-69 | dropping leaves both slots empty and both ended exactly once, even after a failed join |
| MountLifecycle.DropOrder | src/platform_linux.rs:56-69 | a shutdown begun by the drop finds the teardown ended, whatever joining said |
| MountLifecycle.PlatformMount.Unmount | src/platform_linux.rs:36-47 | one call on its own: a failed join returns the error with the backend still running, otherwise both slots end empty, and it is a path of the transition system |
| MountLifecycle.PlatformMount.TakeDown | src/platform_linux.rs:36-42 | a session still in its slot is torn down, exactly once; a failed join is the error, and the backend is not touched |
| MountLifecycle.PlatformMount.StopBackend | src/platform_linux.rs:49-53 | a backend still in its slot is shut down, exactly once |
| Reparse.WriteUnits | src/windows_filesystem.rs:567-570 | the loop writes the units little-endian at their place and nothing else |
| Utf16.UnitsOfChar | src/windows_filesystem.rs:554-554 | a character of the basic plane is its own unit; any other is a high and a low surrogate carrying ten bits each |
| Utf16.EncodeConcat | src/windows_filesystem.rs:554-554 | the units of a text are those of its characters, one after another |
| Utf16.ReplaceReplaces | src/windows_filesystem.rs:553-553 | replacing changes every occurrence of the one character and nothing else |
| Utf16.DecodeOfEncode | src/windows_filesystem.rs:554-554 | every string survives UTF-16, surrogate pairs included |
| Utf16.LossyKeepsLength | src/windows_filesystem.rs:591-591 | lossy decoding keeps the number of units |
| Utf16.LossyReplacesUnpaired | src/windows_filesystem.rs:591-591 | lossy decoding keeps every unit but the unpaired surrogates, each of which becomes U+FFFD |
| Reparse.HeaderFields | src/windows_filesystem.rs:561-566 | the header has the tag, the data length, both offsets, both name lengths and the flag where the format puts them |
| Reparse.ParseOfLayout | src/windows_filesystem.rs:574-592 | what the parser reads from a written buffer followed by anything, wrapped lengths included |
| Reparse.WideSeparators | src/windows_filesystem.rs:553-554 | what is written for a target has no slash, a backslash for each separator, and every other character in its place |
| Reparse.ParseFails | src/windows_filesystem.rs:574-585 | for any buffer: exactly when the parser fails, and with which error |
| Reparse.ParseReturns | src/windows_filesystem.rs:586-592 | for any buffer it accepts: the text has as many units as the print-name length says, and no backslash |
| Reparse.ParseReadsPrintName | src/windows_filesystem.rs:580-592 | whoever wrote the buffer, the name at the print offset is what is read |
| Reparse.RoundTrip | src/windows_filesystem.rs:552-592 | parsing what was written gives the target with every separator as `/` if and only if it has at most 32767 units |
| Counterexamples.LongTargetIsLost | src/windows_filesystem.rs:552-592 | a target of 32768 characters is written and read back as the empty target |
| Reparse.RoundTripPlain | src/windows_filesystem.rs:552-592 | a target without backslashes comes back as itself |
| Reparse.SubstituteName | src/windows_filesystem.rs:563-564 | a reader of the substitute-name fields sees the target with backslashes |
| Reparse.DataLength | src/windows_filesystem.rs:562-562 | the data-length field is the total minus 8 if and only if there are at most 16380 units |
| Counterexamples.DataLengthWraps | src/windows_filesystem.rs:562-562 | for 16381 units the field is zero |
| Reparse.WriteSymlinkReparse | src/windows_filesystem.rs:552-572 | a short buffer is refused untouched; otherwise the layout is written, its size returned, and every byte past it is unchanged |
| Payload.DecodeOfUtf8 | src/afc.rs:281-287 | valid text survives lossy UTF-8 decoding |
| Payload.BytesOfChar | src/afc.rs:275-279 | the bytes of a character: the lead byte of its length and six bits in each continuation byte |
| Payload.Utf8Concat | src/afc.rs:275-279 | the bytes of a text are those of its characters, one after another |
| Payload.OnlyEncodingsDecode | src/afc.rs:285-285 | overlong forms, surrogates, code points past U+10FFFF and forms cut short decode to the replacement character only |
| Payload.ReplacesLongestBeginning | src/afc.rs:285-285 | bytes that do not begin with a character are replaced by the longest beginning of one, or by a single byte |
| Payload.StringsOfTerminated | src/afc.rs:275-287 | a list of non-empty strings without the zero character comes back from its terminated encodings |
| Payload.ZerosTerminate | src/afc.rs:275-279 | a payload of n strings has n zero bytes, the last at its end, and begins with the bytes of the first string |
| Payload.RenamePayloadDecodes | src/afc.rs:173-179 | a rename payload decodes to exactly its two device paths |
| Payload.RenamePayloadInjective | src/afc.rs:173-179 | a rename payload determines the two mount paths |
| Payload.DictionaryMeaning | src/afc.rs:289-298 | decoding fails exactly on an odd number of strings; otherwise the last binding of each key wins and there are no other keys |
| Payload.SomeSerialisation | src/afc.rs:289-298 | every map has a serialisation |
| Payload.DictionaryInverts | src/afc.rs:289-298 | decoding inverts every serialisation of a map with sendable keys and values, in any order |
| Payload.Take | src/afc.rs:300-304 | the value is returned exactly if present, and only its key is gone |
| Timestamps.ParseOfDecimal | src/afc.rs:312-317 | every 64-bit number survives decimal text |
| Timestamps.ValueOfConcat | src/afc.rs:312-317 | digits count in base ten |
| Timestamps.ParsedIsNumber | src/afc.rs:312-317 | what parses is one or more digits whose value fits 64 bits, with or without a plus sign |
| Timestamps.TimestampOf | src/afc.rs:312-317 | no stored time, and text that does not parse, is the epoch |
| Timestamps.SentIsNearest | src/backend.rs:144-151 | the nanoseconds sent are the 64-bit number nearest to the time |
| Timestamps.TicksOfTime | src/windows_filesystem.rs:514-523 | the ticks of a time are whole hundreds of nanoseconds since 1601, 1970 at the earliest, and wrap past 64 bits |
| Timestamps.SetThenRead | src/windows_filesystem.rs:292-309 | setting a write time and reading it back clamps it to what 64 bits of nanoseconds since 1970 can say; zero changes nothing |
| Timestamps.SetThenReadExact | src/windows_filesystem.rs:514-528 | it comes back unchanged if and only if it lies in that range |
| Counterexamples.TimesAreClamped | src/windows_filesystem.rs:514-528 | the first tick reads back as 1970, and the last as the end of 64 bits of nanoseconds |
| Timestamps.Monotone | src/windows_filesystem.rs:516-528 | both conversions are monotone |
| Timestamps.Adjoint | src/windows_filesystem.rs:516-528 | the conversions are adjoint for a number of nanoseconds if and only if it is not the saturation value |

## Left out

- Inodes.InodeTable.Inode: the counter is a natural number; the 64-bit overflow after 2^64 issued numbers is not modelled.
- Filesystem.IfuseFilesystem.ReadDir: the size an entry takes in the kernel's buffer is a parameter, since it belongs to the FUSE library.
- WindowsDirectory.IfuseFileContext.ReadDirectory: the sizes of entries and of the end mark are parameters, and the sort of the standard library is modelled by its result.
- Hard links of one file are separate entries, and a device that renames one over another really moves it; where it does nothing instead, `MountState.IdleRenameMisleads` says when the table is wrong.
- Transfer.AfcTransport.Write: append-mode descriptors ignore the offset on the device and are not modelled; a refused Write request is taken to have changed nothing.
- Concurrent FUSE callbacks: each is one atomic step, as in the default configuration.
- Changes to the device from outside the mount, and the loss of a device response after the device has acted.
- Filesystem.IfuseFilesystem.GetAttr: which entry is described, not the fields of the description; `readlink` is the same request, and `statfs` returns numbers read when the mount starts.
- The translation of errors and of open flags into numbers and modes: there is no state in it, and a proof would only repeat its cases.
- Relative symlink targets, which the source prefixes with the mount root as if they were absolute.
- Windows `create`, `rename`, `set_delete` and `cleanup`: stored paths are not updated after a rename there, and failure paths keep descriptors open, so no clean invariant holds.
- `is_mounted`, poisoned locks and panics.
- Device discovery and connection, including the ready handshake of `Backend::start`, command-line parsing, logging and build scripts.
- The insides of fuser, WinFsp, tokio and the AFC packet format of the idevice library, which are not part of this model.
