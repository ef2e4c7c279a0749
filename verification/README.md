# Tokamak: verified models of the runtime's core

Tokamak runs a web worker inside a native application: the worker sees an in-memory filesystem, a
gateway serves it over local TLS, a proxy connects it to a development server, and a small
certificate authority of its own secures both. This project models the parts of that runtime whose
correctness is not visible from any single function, and proves what they promise.

`dafny verify dfyconfig.toml` checks everything.

| files | component |
|---|---|
| `vfs_*.dfy`, `virtual_filesystem.dfy`, `sorting.dfy` | the virtual filesystem: paths, nodes, resolution, the tree invariant, the operations and their effects, descriptors, runs, and the object that changes in place |
| `websocket_*.dfy` | WebSocket frames, the stream codec, message reassembly, close payloads |
| `chunked_coding.dfy`, `chunked_grammar.dfy`, `chunked_relay.dfy`, `relay_channel.dfy` | the chunked body coding, its two readers, its writer, and the channel between them |
| `http_text.dfy`, `http_requests.dfy`, `http_bodies.dfy`, `http_round_trip.dfy`, `http_limits.dfy` | the request serialiser of the proxy and the request parser of the gateway |
| `gateway.dfy` | the lifecycle lock and the connection registry under every interleaving |
| `certificates.dfy`, `certificate_recovery.dfy` | the certificate cache, crashes and renewal |
| `wildcards.dfy`, `braces.dfy`, `nested_braces.dfy`, `brace_groups.dfy`, `base64.dfy` | the two glob matchers, brace expansion, base64 |
| `utf8.dfy`, `strings.dfy`, `wrappers.dfy` | shared: UTF-8, splitting, `Option` and `Result` |

## How the code is modelled

**The filesystem.** Directories and file bodies are shared and changed in place in the program. Here
a shared directory or body is an index into an arena (`dirs`, `files`), so two handles to one object
are equal indices. Every operation is first a function from a filesystem to its outcome
(`VfsOperations`, `VfsDescriptors`); an error carries no new state. The class
`VirtualFilesystem.VirtualFileSystem` then does what the program does, step by step, on mutable
arenas and a mutable descriptor table, and each of its methods is proved to end in exactly the state
of the function, or, on an error, in the state it started from: that is the all-or-nothing property,
including for operations that have already allocated or inserted something when they fail. The host
bundle is an immutable tree and `/dev` a fixed table. Entropy is a parameter.

Beside the functions stand laws on paths, bytes and fields themselves (`VfsLinks`, `VfsOutcomes`,
`VfsHandles`, `WebSocketWire`, `HttpBodies`, `ChunkedGrammar`), which say what the functions compute without
calling them again.

**Streams.** A connection is a byte sequence together with how it is cut: a list of pieces and pauses
for the WebSocket codec, a list of turns (cancelled, late, failing, ready with so many bytes) for the
pump, a list of events for the response writer. The theorems quantify over all of these. Between pump
and writer stands the bounded channel with its flags, a state machine over the steps of both threads
(`RelayChannel`); its pump sends and ends as a run of `ChunkedRelay.HostBody` does.

**The gateway.** Each atomic step of each thread (taking the lock, loading `accepting`, testing the
phase, waiting, registering, deregistering, the sweeps) is a step of a state machine over any number
of threads; the critical sections themselves are the class `Gateway.Lifecycle`, proved equal to the
functions the machine uses.

**Certificates.** The directory is a map from file names to contents, a write is a list of atomic
steps, and a crash stops between two of them. Certificates and keys are abstract terms with issuer,
key, host and validity window.

## What turned out to be conditional

- `rename` compares its two paths as written, and two kinds of pair pass its check although nothing is
  moved. When two spellings of one slot meet through a link, it removes the target and then the
  source, which is the same entry: the node is lost (`VfsRename.RenameCanLose`). When the target lies
  below the source through a link, it puts a directory into itself, where no path leads
  (`VfsRename.RenameCanDetach`). Both happen exactly when the source's canonical path is a prefix of
  the target's (`VfsRename.RenameMovesIff`, `VfsRename.RenamedDirectoryReachedIff`).
- `realpath` can return more than 48 names, and its own output is then refused
  (`VfsResolve.RealPathStable` says exactly when, `VfsRealPath.RealPathCanFail` gives a run).
- `writev` with no buffers differs from a write of nothing when that starts behind the end of the
  file, which grows the file, and in append mode with a cursor that is not at the end, which moves the
  cursor (`VfsVectors.WriteVEmpty`, with a run in `VfsFileEffects.WriteVCanDiffer`).
- `read_frame` checks its buffer limit before it parses. What it accepts depends on how the stream is
  cut exactly when some complete frame, header included, is longer than 16 MiB less 8177 bytes and
  the stream from that frame on is longer than the limit, so that one read can run over it
  (`WebSocketStream.TightExact`; `WebSocketStream.LongFrameRefused` gives a cut that fails and
  `WebSocketStream.CutCanMatter` a stream).
- `write_frame` accepts opcodes of more than four bits, if the control frame test lets them through;
  they do not survive the wire (`WebSocketFrames.FrameRoundTrip` holds if and only if the opcode is
  below 16, `WebSocketFrames.WideOpcodeLost` gives two).
- The renewal thread's delay is cut to whole seconds. Unless the remaining time is a whole number of
  seconds it wakes up to a second early (`CertificateRecovery.RenewalDelayExact`,
  `CertificateRecovery.RenewalDelayBounds`, with an input in `CertificateRecovery.RenewalWakesEarly`),
  finds nothing due, reports a renewal and sleeps for no time, again and again until renewal is due
  (`CertificateRecovery.EarlyWakeSpins`).
- A pattern's brace groups are expanded as the units their matching braces make if and only if, in
  every outermost group, no closing brace comes after a comma and, should it hold a comma, no opening
  brace after a letter (`BraceGroups.GroupsAreUnitsIff`). The reason is that the first closing brace ends the first
  group. Braces are left over exactly when the first half fails, which a scan from the left finds
  (`NestedBraces.NoStrayBraceIff`, `BraceGroups.BalancedExpandsIff`): `{a,{b,c}}` expands to `a}`, `b`
  and `c}` (`Braces.NestedGroups`).
- A proxied request can be refused by the next parser only because the proxy's own header lines made
  its header block too long (`HttpRoundTrip.ProxiedRequest`). A header of 65513 letters is enough
  (`HttpLimits.ProxyCanRefuse`).

## Model

| member | source | states |
|---|---|---|
| `VfsPath.ApplyComponents` | tokamak/src/fs/vfs/path.rs:29-54 | the in-place loop computes the normalisation of its parts and reports the same error |
| `VfsPath.PathRoundTrip` | tokamak/src/fs/vfs/path.rs:7-62 | rendering a component list and parsing it again is the identity exactly for lists of at most 48 valid names whose text is at most 4096 characters |
| `VfsPath.ChildPathComponents` | tokamak/src/fs/vfs/path.rs:7-62 | an entry's textual path parses, if at all, to its directory's components and its name |
| `VfsLinks.UpInPath` | tokamak/src/fs/vfs/path.rs:7-54 | `/above/name/../below` and `/above//./below` are read as `/above/below` |
| `VfsLinks.AcceptedPath` | tokamak/src/fs/vfs/path.rs:7-54 | an accepted path is absolute, at most 4096 characters and 48 names, and free of backslashes and zero characters |
| `VfsLinks.TargetMeans` | tokamak/src/fs/vfs/path.rs:16-27 | a link target is read from its directory with one name cut off for each leading `..`, or from the root if a slash leads it, and refused if it climbs past the root or gets too deep |
| `VfsResolve.ResolvedIsWalk` | tokamak/src/fs/vfs/virtual_filesystem.rs:845-887 | a successful resolution returns a list that walks from the root to the returned node without any link, for every symlink graph |
| `VfsResolve.WalkResolves` | tokamak/src/fs/vfs/virtual_filesystem.rs:845-887 | a plain walk resolves to itself even with the link budget used up |
| `VfsResolve.ResolveIdempotent` | tokamak/src/fs/vfs/virtual_filesystem.rs:845-887 | resolving a resolved list again gives the same node and list and follows no link |
| `VfsResolve.ResolveThroughParent` | tokamak/src/fs/vfs/virtual_filesystem.rs:824-843 | no-follow resolution of a path succeeds exactly when its parent resolves and holds the last name, with the same node |
| `VfsLinks.LinkFollowed` | tokamak/src/fs/vfs/virtual_filesystem.rs:845-887 | any path through a link resolves as the path its target leads to from the directory of the link, or from the root if it is absolute, with one link more used up |
| `VfsLinks.PathEnds` | tokamak/src/fs/vfs/virtual_filesystem.rs:845-887 | with which error a path without links ends early: at a file, at a missing name, at an unsupported host entry |
| `VfsLinks.ChainFollowed` | tokamak/src/fs/vfs/virtual_filesystem.rs:845-887 | a chain of links in one directory is followed to its end if and only if it has at most 40 links |
| `VfsLinks.SelfLinkRefused` | tokamak/src/fs/vfs/virtual_filesystem.rs:845-887 | a link to itself is refused as a loop |
| `VfsLinkRuns.RelativeLinkReads` | tokamak/src/fs/vfs/virtual_filesystem.rs:845-887 | after a run that makes a file and a link `b` or `../tmp/b` to it, the link reads as the file |
| `VfsResolve.RealPathStable` | tokamak/src/fs/vfs/virtual_filesystem.rs:556-559 | `realpath` of its own output is that output when it is a legal path and an invalid-path error otherwise |
| `VfsRealPath.RealPathCanFail` | tokamak/src/fs/vfs/virtual_filesystem.rs:556-559 | a run from a fresh filesystem after which `realpath` of a path has 49 names and is refused as a path |
| `VfsResolve.ResolveGrows` | tokamak/src/fs/vfs/virtual_filesystem.rs:845-887 | a path that resolves keeps its node and list when entries are added anywhere |
| `VfsInvariant.TreeFromRoot` | tokamak/src/fs/vfs/nodes.rs:151-191 | under the invariant, two plain walks from the root to one memory directory are the same walk |
| `VfsInvariant.NoCycleFromRoot` | tokamak/src/fs/vfs/nodes.rs:151-191 | no directory reachable from the root contains itself at any depth |
| `VfsNamespace.RenameEffect` | tokamak/src/fs/vfs/virtual_filesystem.rs:434-465 | a successful rename between different slots puts the source node in the target slot, empties the source slot and changes no other slot; between spellings of one slot the node is gone |
| `VfsOutcomes.RenameOutcome` | tokamak/src/fs/vfs/virtual_filesystem.rs:434-465 | between occupied and writable slots, not one above the other as written, a rename succeeds if and only if the target is no directory with entries |
| `VfsOutcomes.RenameRefused` | tokamak/src/fs/vfs/virtual_filesystem.rs:434-465 | the refusals of a rename, and that a successful one had an occupied source and two writable directories |
| `VfsRename.RenameFillsIff` | tokamak/src/fs/vfs/virtual_filesystem.rs:434-465 | the two slots of a rename differ, and the target slot holds the node afterwards, if and only if the canonical slots of the two paths differ |
| `VfsRename.RenameMovesIff` | tokamak/src/fs/vfs/virtual_filesystem.rs:434-465 | after a successful rename the target's canonical path leads to the node if and only if the source's canonical path is not a prefix of it |
| `VfsRename.RenamedDirectoryReachedIff` | tokamak/src/fs/vfs/virtual_filesystem.rs:434-465 | a renamed directory is on any path from the root afterwards if and only if the same condition holds |
| `VfsRename.RenameCanLose` | tokamak/src/fs/vfs/virtual_filesystem.rs:434-465 | a run from a fresh filesystem after which a rename between two spellings succeeds and deletes the file |
| `VfsRename.RenameCanDetach` | tokamak/src/fs/vfs/virtual_filesystem.rs:434-465 | a run from a fresh filesystem after which a rename succeeds and puts a directory into itself, where no path leads |
| `VfsNamespace.RenameValid` | tokamak/src/fs/vfs/virtual_filesystem.rs:434-465 | rename keeps every memory directory in at most one slot, also when it moves a directory below itself |
| `VfsNamespace.MkdirValid` | tokamak/src/fs/vfs/virtual_filesystem.rs:370-391 | mkdir, recursive too, keeps the tree invariant |
| `VfsNamespace.RemovePathValid` | tokamak/src/fs/vfs/virtual_filesystem.rs:394-415 | removal keeps the tree invariant |
| `VfsNamespace.RemoveEffect` | tokamak/src/fs/vfs/virtual_filesystem.rs:394-415 | a removal empties exactly the slot the path denotes, which held the node found there, and changes no file body; with force and nothing there it changes nothing |
| `VfsOutcomes.RemoveOutcome` | tokamak/src/fs/vfs/virtual_filesystem.rs:394-415 | what a slot of a writable directory holds is removed, unless it is a directory with entries and the removal is not recursive; an empty slot is an error unless forced |
| `VfsOutcomes.RemoveRefused` | tokamak/src/fs/vfs/virtual_filesystem.rs:394-415 | nothing outside a writable directory is removed |
| `VfsOutcomes.RemoveKinds` | tokamak/src/fs/vfs/virtual_filesystem.rs:418-431 | a directory removal takes only what leads to a directory, a file removal only what is not one itself |
| `VfsEffects.MkdirEffect` | tokamak/src/fs/vfs/virtual_filesystem.rs:370-391 | mkdir fills exactly one free slot with a fresh empty directory that the path then denotes |
| `VfsEffects.MkdirRecursiveEffect` | tokamak/src/fs/vfs/virtual_filesystem.rs:727-744 | recursive mkdir leaves a directory at the path and takes no entry away |
| `VfsOutcomes.MkdirOutcome` | tokamak/src/fs/vfs/virtual_filesystem.rs:370-391 | mkdir succeeds if and only if the path leads nowhere and its slot is free in a writable directory; what exists is refused, or left alone when recursive and a directory |
| `VfsOutcomes.MkdirRecursiveOutcome` | tokamak/src/fs/vfs/virtual_filesystem.rs:727-744 | recursive mkdir succeeds if and only if the names exist as directories up to a depth at which a writable directory can take the rest |
| `VfsEffects.LinkAliases` | tokamak/src/fs/vfs/virtual_filesystem.rs:500-513 | after a hard link both paths resolve to the same file node |
| `VfsOutcomes.LinkOutcome` | tokamak/src/fs/vfs/virtual_filesystem.rs:500-513 | a hard link is made if and only if its source is a memory or bundle file and its slot is free in a writable directory |
| `VfsOutcomes.SymlinkOutcome` | tokamak/src/fs/vfs/virtual_filesystem.rs:536-545 | a link is made if and only if its target has no zero character and its slot is free in a writable directory |
| `VfsOutcomes.ReadLinkOutcome` | tokamak/src/fs/vfs/virtual_filesystem.rs:548-553 | links are read and nothing else |
| `VfsOutcomes.MakeTempOutcome` | tokamak/src/fs/vfs/virtual_filesystem.rs:516-533 | a temporary directory is made if and only if one of the drawn names is free |
| `VfsOutcomes.MakeTempMade` | tokamak/src/fs/vfs/virtual_filesystem.rs:516-533 | it is the first free name, six characters of the alphabet behind the prefix, and the returned path leads to a fresh empty directory |
| `VfsOutcomes.SuffixSpelled` | tokamak/src/fs/vfs/path.rs:71-77 | each byte draws the character of its remainder by 36 |
| `VfsEffects.SymlinkReadsBack` | tokamak/src/fs/vfs/virtual_filesystem.rs:536-553 | a new link reads back as its target text |
| `VfsEffects.RemoveUndoesInsert` | tokamak/src/fs/vfs/virtual_filesystem.rs:394-431 | removing what link or symlink placed restores the filesystem exactly |
| `VfsCopy.CopyTreeShows` | tokamak/src/fs/vfs/virtual_filesystem.rs:790-822 | the tree a copy reads shows the source's entries, bytes and link targets at every relative path, links followed or kept as asked; the recursion terminates on cyclic links |
| `VfsCopy.PlantShows` | tokamak/src/fs/vfs/virtual_filesystem.rs:790-822 | a tree planted in fresh directories and files shows exactly that tree |
| `VfsCopyEffects.CopyEffect` | tokamak/src/fs/vfs/virtual_filesystem.rs:478-497 | a copy shows at every relative path what the source shows, is made only of fresh directories and files, and changes only its own slot |
| `VfsCopyEffects.CopySharesNothing` | tokamak/src/fs/vfs/virtual_filesystem.rs:478-497 | no directory or file body in the copy was reachable before |
| `VfsCopyEffects.CopyUnaffected` | tokamak/src/fs/vfs/virtual_filesystem.rs:478-497 | later changes to anything older than the copy never show in it |
| `VfsCopyEffects.SourceUnaffected` | tokamak/src/fs/vfs/virtual_filesystem.rs:478-497 | later changes inside the copy never show in the source, or on any older walk that is not through the filled slot |
| `VfsCopyLater.CopyOutlivesWrites` | tokamak/src/fs/vfs/virtual_filesystem.rs:478-497 | no run of writes, vectored writes, whole writes and truncations of files older than the copy, by path or descriptor, shows in the copy |
| `VfsCopyLater.SourceOutlivesWrites` | tokamak/src/fs/vfs/virtual_filesystem.rs:478-497 | no such run on the copy's files shows in the source, or on any older walk that is not through the filled slot |
| `VfsCopyEffects.CopyTargetMeans` | tokamak/src/fs/vfs/virtual_filesystem.rs:765-788 | when the target is a directory, a target path that parses denotes the slot of the source's last name in that very directory, links included; otherwise it is the path given |
| `VfsOutcomes.CopiedFile` | tokamak/src/fs/vfs/virtual_filesystem.rs:790-822 | a copied file is its bytes, within the size limit, and no device |
| `VfsOutcomes.CopyFlags` | tokamak/src/fs/vfs/virtual_filesystem.rs:478-497 | what each flag does once source and target are known, and that a copy otherwise succeeds if and only if the source can be read and the target slot is writable |
| `VfsCopyResolved.ShownThroughResolves` | tokamak/src/fs/vfs/virtual_filesystem.rs:790-822 | the view with links followed shows, wherever the joined path resolves, the node it resolves to |
| `VfsCopyResolved.CopyTreeResolves` | tokamak/src/fs/vfs/virtual_filesystem.rs:790-822 | the tree read with links followed shows at every path below the source what that path resolves to, and nothing where it does not resolve |
| `VfsCopyResolved.CopyShowsResolved` | tokamak/src/fs/vfs/virtual_filesystem.rs:478-497 | a copy that follows links shows at every relative path exactly what the joined path resolves to, through however many links |
| `VfsCopyEffects.CopyValid` | tokamak/src/fs/vfs/virtual_filesystem.rs:478-497 | copying keeps the tree invariant |
| `VfsVectors.WriteVIsWrite` | tokamak/src/fs/vfs/virtual_filesystem.rs:688-705 | on a memory file a non-empty `writev` succeeds exactly when one write of the concatenation does, with the same bytes, cursor and count in positioned, cursor and append modes |
| `VfsVectors.WriteVStops` | tokamak/src/fs/vfs/virtual_filesystem.rs:688-705 | the buffers before a refused one stay written, and its error is returned |
| `VfsVectors.WriteVEmpty` | tokamak/src/fs/vfs/virtual_filesystem.rs:647-705 | in every mode the empty list agrees with a write of nothing if and only if that starts no further than the end and, appending at the cursor, the cursor is at the end |
| `VfsFileEffects.WriteVCanDiffer` | tokamak/src/fs/vfs/virtual_filesystem.rs:647-705 | on a file just created an empty vector at position 1 changes nothing and an empty write there leaves one zero byte |
| `VfsVectors.ReadVIsRead` | tokamak/src/fs/vfs/virtual_filesystem.rs:668-685 | the pieces of `readv` concatenate to one read of the summed length, with the same cursor |
| `VfsRuns.ApplyValid` | tokamak/src/fs/vfs/virtual_filesystem.rs:317-719 | every operation keeps the namespace invariant, the file size bound and the descriptor table's integrity |
| `VfsRuns.RunKeepsNamespace` | tokamak/src/fs/vfs/virtual_filesystem.rs:292-719 | after any run the root holds exactly bundle, dev and tmp; every plain path under /bundle shows what the host gave; /dev is unchanged; every file is within the size limit; the memory directories form a tree |
| `VfsRuns.BundleFileFixed` | tokamak/src/fs/vfs/nodes.rs:274-295 | over any run a bundle file that a path leads to exists in the host tree, reads as its host bytes through every hard link to it, and refuses writing and resizing |
| `VfsFileEffects.WriteFileReads` | tokamak/src/fs/vfs/virtual_filesystem.rs:317-330 | after a whole write the path leads to a file other than a bundle file, and a memory file reads back exactly the data |
| `VfsHandles.WriteFileOutcome` | tokamak/src/fs/vfs/virtual_filesystem.rs:317-330 | a whole write to a memory file leaves exactly the data, or with append the data behind the old bytes, if and only if that is within the size limit |
| `VfsHandles.ReadAllOutcome` | tokamak/src/fs/vfs/virtual_filesystem.rs:312-315 | a path to a memory or bundle file reads as its bytes, one to a directory is refused |
| `VfsFileEffects.CopyFileReads` | tokamak/src/fs/vfs/virtual_filesystem.rs:468-475 | a file copied to a memory file reads back what the source read |
| `VfsFileEffects.TruncateReads` | tokamak/src/fs/vfs/virtual_filesystem.rs:708-710 | a truncated memory file reads back its bytes cut, or with zeros behind them |
| `VfsHandles.TruncateOutcome` | tokamak/src/fs/vfs/virtual_filesystem.rs:708-710 | resizing changes that file alone, up to the limit, and refuses bundle files and directories |
| `VfsHandles.OpenExisting` | tokamak/src/fs/vfs/virtual_filesystem.rs:562-609 | opening what exists gives the next number for that very file, with the access asked for and the cursor at the start, and empties it exactly when it is opened for writing and truncated |
| `VfsHandles.OpenMissing` | tokamak/src/fs/vfs/virtual_filesystem.rs:562-609 | opening what is missing makes an empty file in the path's slot if and only if that is free in a writable directory |
| `VfsHandles.OpenRefused` | tokamak/src/fs/vfs/virtual_filesystem.rs:562-609 | every refusal of an open leaves the state as it was |
| `VfsHandles.DescriptorsRunOut` | tokamak/src/fs/vfs/virtual_filesystem.rs:562-609 | with no descriptor number left nothing is opened and no descriptor changes |
| `VfsHandles.OpenedReads` | tokamak/src/fs/vfs/virtual_filesystem.rs:562-644 | a file opened for reading gives exactly its bytes from a position or the start, at most as many as asked for; one opened without is refused |
| `VfsHandles.OpenedRefusesWrites` | tokamak/src/fs/vfs/virtual_filesystem.rs:562-719 | a descriptor opened without write access writes and resizes nothing |
| `VfsHandles.OpenedWrites` | tokamak/src/fs/vfs/virtual_filesystem.rs:562-719 | in append mode a write lands behind the old bytes whatever the position, otherwise at the position or cursor, and changes that file alone; resizing likewise |
| `VfsHandles.HandleReads` | tokamak/src/fs/vfs/virtual_filesystem.rs:625-644 | reading at a position leaves the cursor, reading at the cursor moves it by what was read |
| `VfsHandles.UnknownRefused` | tokamak/src/fs/vfs/virtual_filesystem.rs:612-719 | a number that is not open is refused by every operation |
| `VfsHandles.DevicesNamed` | tokamak/src/fs/vfs/nodes.rs:330-352 | the four devices stand under /dev and nothing else does |
| `VfsHandles.DeviceBehaves` | tokamak/src/fs/vfs/nodes.rs:297-328 | what each device gives and takes |
| `VfsFileEffects.ClosedStaysClosed` | tokamak/src/fs/vfs/virtual_filesystem.rs:612-617 | over any further run a closed descriptor is never given out again and is refused by write and close, and closing touches no other descriptor |
| `VirtualFilesystem.VirtualFileSystem.ResolveComponents` | tokamak/src/fs/vfs/virtual_filesystem.rs:845-887 | the loop with restarts returns what resolution specifies and terminates on every link graph |
| `VirtualFilesystem.VirtualFileSystem.ParentOf` | tokamak/src/fs/vfs/virtual_filesystem.rs:824-834 | the resolved directory and last name, or the specified error |
| `VirtualFilesystem.VirtualFileSystem.Mkdir` | tokamak/src/fs/vfs/virtual_filesystem.rs:370-391 | the state afterwards is the specified one, and unchanged on an error |
| `VirtualFilesystem.VirtualFileSystem.MkdirRecursive` | tokamak/src/fs/vfs/virtual_filesystem.rs:727-744 | the loop that creates level by level is all-or-nothing |
| `VirtualFilesystem.VirtualFileSystem.RemovePath` | tokamak/src/fs/vfs/virtual_filesystem.rs:394-415 | the state afterwards is the specified one, and unchanged on an error |
| `VirtualFilesystem.VirtualFileSystem.RemoveDirectory` | tokamak/src/fs/vfs/virtual_filesystem.rs:418-423 | the state afterwards is the specified one, and unchanged on an error |
| `VirtualFilesystem.VirtualFileSystem.RemoveFile` | tokamak/src/fs/vfs/virtual_filesystem.rs:426-431 | the state afterwards is the specified one, and unchanged on an error |
| `VirtualFilesystem.VirtualFileSystem.Rename` | tokamak/src/fs/vfs/virtual_filesystem.rs:434-465 | the state afterwards is the specified one, and unchanged on an error although the target is vacated first |
| `VirtualFilesystem.VirtualFileSystem.Copy` | tokamak/src/fs/vfs/virtual_filesystem.rs:478-497 | the state afterwards is the specified one, and unchanged on an error in the middle of the tree |
| `VirtualFilesystem.VirtualFileSystem.CopyNode` | tokamak/src/fs/vfs/virtual_filesystem.rs:790-822 | the recursive in-place copy builds exactly the planted snapshot of the source |
| `VirtualFilesystem.VirtualFileSystem.CopyFile` | tokamak/src/fs/vfs/virtual_filesystem.rs:468-475 | the target is written with the source's bytes as specified |
| `VirtualFilesystem.VirtualFileSystem.Link` | tokamak/src/fs/vfs/virtual_filesystem.rs:500-513 | the state afterwards is the specified one, and unchanged on an error |
| `VirtualFilesystem.VirtualFileSystem.MakeSymlink` | tokamak/src/fs/vfs/virtual_filesystem.rs:536-545 | the state afterwards is the specified one, and unchanged on an error |
| `VirtualFilesystem.VirtualFileSystem.MakeTempDir` | tokamak/src/fs/vfs/virtual_filesystem.rs:516-533 | the first free name of the drawn ones is made a directory |
| `VirtualFilesystem.VirtualFileSystem.WriteBody` | tokamak/src/fs/vfs/path.rs:93-116 | growing with zeros and replacing the middle leaves every byte as the pointwise overwrite says, or refuses and changes nothing |
| `VirtualFilesystem.VirtualFileSystem.Open` | tokamak/src/fs/vfs/virtual_filesystem.rs:562-609 | descriptor, truncation, creation and errors as specified, and the invariant is kept |
| `VirtualFilesystem.VirtualFileSystem.Read` | tokamak/src/fs/vfs/virtual_filesystem.rs:625-644 | bytes, cursor and state as specified |
| `VirtualFilesystem.VirtualFileSystem.Write` | tokamak/src/fs/vfs/virtual_filesystem.rs:647-665 | bytes, cursor and state as specified in positioned, cursor and append modes |
| `VirtualFilesystem.VirtualFileSystem.ReadV` | tokamak/src/fs/vfs/virtual_filesystem.rs:668-685 | the loop's pieces, cursor and state as specified |
| `VirtualFilesystem.VirtualFileSystem.WriteV` | tokamak/src/fs/vfs/virtual_filesystem.rs:688-705 | the loop's count, cursor and state as specified |
| `VirtualFilesystem.VirtualFileSystem.Truncate` | tokamak/src/fs/vfs/virtual_filesystem.rs:708-710 | the file is cut or grown with zeros as specified, or refused and unchanged |
| `VirtualFilesystem.VirtualFileSystem.FTruncate` | tokamak/src/fs/vfs/virtual_filesystem.rs:713-719 | the same through a descriptor |
| `VirtualFilesystem.VirtualFileSystem.WriteWhole` | tokamak/src/fs/vfs/virtual_filesystem.rs:317-330 | writing a whole file by open, write and close ends in the specified state |
| `WebSocketFrames.FrameRoundTrip` | tokamak/src/transport.rs:398-561 | parsing what the writer wrote, followed by any bytes, gives the same opcode and payload with the final flag set and leaves exactly those bytes, if and only if the opcode fits four bits; for every length form and mask (sections 5.2 and 5.3 of RFC 6455) |
| `WebSocketWire.WireFrameParses` | tokamak/src/transport.rs:448-561 | every frame a peer may send, final or not, masked or not, with any form of the length, is read back exactly and leaves what follows it if it is legal, and is refused otherwise (section 5.2 of RFC 6455) |
| `WebSocketWire.HeaderRefused` | tokamak/src/transport.rs:488-561 | a reserved bit is refused, and so is a mask where none belongs or none where one does |
| `WebSocketWire.WriterIsShortest` | tokamak/src/transport.rs:398-446 | what the writer puts out is a final frame with the shortest form of the length |
| `WebSocketFrames.WideOpcodeLost` | tokamak/src/transport.rs:398-561 | opcode 0x10 is written and refused by the reader, opcode 0x80 is written and read as a continuation |
| `WebSocketFrames.FrameStable` | tokamak/src/transport.rs:448-561 | a frame or error found in a buffer is found however much follows |
| `WebSocketStream.WebSocketCodec.NextFrame` | tokamak/src/transport.rs:365-396 | one call on the mutable codec returns and leaves what the specification says |
| `WebSocketStream.SplitIndependent` | tokamak/src/transport.rs:365-396 | however a tight stream is cut into reads and interrupted, the frames and the first error are those of parsing it whole |
| `WebSocketStream.LongFrameRefused` | tokamak/src/transport.rs:365-396 | for every longer first frame that a read can run over there is a cut on which the codec refuses it although parsing the whole stream finds it |
| `WebSocketStream.TightExact` | tokamak/src/transport.rs:365-396 | every cut gives what parsing the whole stream gives if and only if each complete frame is within the safe length or has a stream within the limit from it on |
| `WebSocketStream.CutCanMatter` | tokamak/src/transport.rs:365-396 | a frame of the longest body with five bytes behind it is found whole and refused on some cut |
| `WebSocketMessages.Reassembler.QueueMessage` | tokamak/src/transport.rs:563-605 | one data frame's effect on the state under construction and the deliveries, or the error |
| `WebSocketMessages.Reassembler.QueueUpstreamMessage` | tokamak/src/dev_proxy.rs:760-803 | the proxy's own reassembler has the same effect and errors |
| `WebSocketMessages.ProxyAgrees` | tokamak/src/dev_proxy.rs:256-312 | on every frame sequence the two sessions deliver the same and end the same; the proxy answers with the same pongs, and differs only in not echoing a close |
| `WebSocketMessages.ReassemblyExact` | tokamak/src/transport.rs:563-605 | a data frame sequence is accepted exactly when it is whole messages followed by at most one open one, none reassembled over the limit, and the concatenated messages are delivered with the first frame's type (section 5.4 of RFC 6455) |
| `WebSocketMessages.PingsTransparent` | tokamak/src/transport.rs:289-342 | pings and pongs between frames change neither deliveries nor the end of the session |
| `WebSocketMessages.NeverOverLimit` | tokamak/src/dev_proxy.rs:760-803 | with frames within the limit neither the construction nor a delivery exceeds it |
| `WebSocketMessages.SentIsDelivered` | tokamak/src/transport.rs:365-605 | written and masked messages are delivered exactly on every cut of their bytes if and only if each frame is within the safe length or the bytes from it on are within the limit |
| `WebSocketWire.FragmentsDelivered` | tokamak/src/transport.rs:289-605 | masked messages in any number of fragments, with pings and pongs anywhere between them, are delivered exactly and the pings answered on every cut of the bytes, if and only if no frame is too long for the codec |
| `WebSocketWire.CloseEnds` | tokamak/src/transport.rs:289-342 | a close ends the session whatever follows: it is echoed and reported, or the session is broken if it cannot be read |
| `WebSocketWire.UnknownKindEnds` | tokamak/src/transport.rs:289-342 | a frame of no known kind breaks the session whatever follows |
| `WebSocketWire.SessionAnswers` | tokamak/src/transport.rs:289-342 | a session that stays open has answered every ping with its payload, in order, and written nothing else |
| `WebSocketClose.CloseReadsBack` | tokamak/src/transport.rs:657-693 | a built close payload fits a control frame and reads back to its code and reason |
| `WebSocketClose.CloseOutcome` | tokamak/src/transport.rs:657-693 | a payload is built if and only if its code may be sent and its reason fits, and a payload of any code reads back or is refused for the code |
| `WebSocketClose.CodesAllowed` | tokamak/src/transport.rs:676-678 | the codes that may be sent (section 7.4 of RFC 6455) |
| `WebSocketClose.CloseIsCanonical` | tokamak/src/transport.rs:657-693 | every non-empty payload that reads back is the one the builder makes |
| `ChunkedRelay.RequestStream.ReadChunkedBody` | tokamak/src/transport.rs:231-280 | the loops over lines, chunks and trailers return the decoded body and leave what follows it, or the first error |
| `ChunkedRelay.RequestStream.NextLine` | tokamak/src/transport.rs:265-280 | the byte loop returns the line before the first CRLF and leaves what follows, or says too long, cut short or not UTF-8 |
| `ChunkedRelay.HostBody.ReadHostChunk` | tokamak/src/dev_proxy.rs:656-667 | what is read is the front of the stream, at most as long as asked, empty only at its end; nothing is lost when cancelled |
| `ChunkedRelay.HostBody.ReadHostExact` | tokamak/src/dev_proxy.rs:669-683 | exactly the asked number of bytes off the front, or cut short only if there are fewer |
| `ChunkedRelay.HostBody.ReadUpstreamLine` | tokamak/src/dev_proxy.rs:703-721 | the same lines and errors as the request reader, for every schedule of reads |
| `ChunkedRelay.HostBody.ReadChunkedTrailers` | tokamak/src/dev_proxy.rs:685-701 | the same end of the trailers and errors as the request reader |
| `ChunkedRelay.HostBody.PumpChunkedBody` | tokamak/src/dev_proxy.rs:610-721 | for every schedule of late, short and failing reads: what is sent is a prefix of the body's data, all of it when the pump completes, and a defect is reported after the data before it |
| `ChunkedRelay.HostBody.PumpHostBody` | tokamak/src/dev_proxy.rs:581-593 | the receiver is told of a failure and of nothing else |
| `ChunkedRelay.WriteStream` | tokamak/src/transport.rs:735-791 | the event loop writes the encoded non-empty chunks before its stop, and the end marker exactly when it ends terminated |
| `ChunkedCoding.ChunkedRoundTrip` | tokamak/src/transport.rs:231-263 | whatever chunks are written, the reader recovers their concatenation and stops at the body's end, and refuses exactly the bodies over its limit (section 7.1 of RFC 9112) |
| `ChunkedGrammar.GrammarRead` | tokamak/src/transport.rs:231-280 | every body of the grammar, with sizes in any spelling, extensions and trailers, is read to its data and leaves exactly what follows; only limits refuse it (section 7.1 of RFC 9112) |
| `ChunkedGrammar.TrailersSkipped` | tokamak/src/transport.rs:231-280 | trailers are skipped up to the empty line, or refused over the header limit |
| `ChunkedGrammar.DigitsSpelled` | tokamak/src/transport.rs:242-246 | the sixteen digits in either case have the values of their places |
| `ChunkedCoding.CutIsIncomplete` | tokamak/src/transport.rs:231-280 | every proper prefix of a written body is read as cut short |
| `ChunkedCoding.LimitOnly` | tokamak/src/transport.rs:251-253 | a limited reader differs from an unlimited one only by refusing bodies over its limit |
| `ChunkedRelay.ResponseReadBack` | tokamak/src/transport.rs:745-791 | a terminated response reads back as every byte produced; any other ending reads as an error |
| `ChunkedRelay.TerminatedOnlyWhenClosed` | tokamak/src/transport.rs:745-791 | the end marker is written if and only if the producer closed with no error and no cancellation |
| `RelayChannel.WriterStops` | tokamak/src/transport.rs:755-791 | the writer goes on over chunks and quiet polls and stops at the first other event, each in its way |
| `RelayChannel.ChannelCarries` | tokamak/src/transport.rs:735-791 | in every interleaving of pump and writer over the bounded channel the writer meets the pump's chunks in order, and the end only after all of them and a complete body |
| `RelayChannel.RelayDelivers` | tokamak/src/dev_proxy.rs:581-721 | through pump, channel and writer together, in every interleaving, the client reads a complete body only if the server sent one, and then the same bytes |
| `ChunkedRelay.ReadersAgree` | tokamak/src/dev_proxy.rs:610-721 | the pump and the request reader agree on every body within the limit and on every defect |
| `HttpRequests.WriteRequest` | tokamak/src/dev_proxy.rs:472-513 | the proxy's writes add up to the specified head and body |
| `HttpRequests.ReadRequestFrom` | tokamak/src/transport.rs:164-229 | the parser's loops return the specified request and leave what follows it, or the specified error |
| `HttpRequests.ReadHeaderBlock` | tokamak/src/transport.rs:108-123 | the byte loop returns the block up to its first empty line and leaves what follows, or the specified error |
| `HttpRequests.ParseHead` | tokamak/src/transport.rs:178-206 | the loop over the lines keeps the last value of each name, the length and whether the body is chunked |
| `HttpBodies.FieldsSay` | tokamak/src/transport.rs:178-206 | whatever fields a client sends, the headers are the last values of their names in any case, the length the last one given, the body chunked if some transfer encoding lists that in any case; a length that is no number is refused |
| `HttpBodies.LineTaken` | tokamak/src/transport.rs:178-206 | a header line is its name and value around the first colon, each without the whitespace around it |
| `HttpBodies.ChunkedRequest` | tokamak/src/transport.rs:164-229 | a request that announces chunks is read with the data of any body of the grammar and leaves exactly what follows |
| `HttpBodies.ChunkedWritten` | tokamak/src/transport.rs:164-229 | the same for the form the writers here produce |
| `HttpBodies.AmbiguousRequest` | tokamak/src/transport.rs:207-212 | with a content length beside the chunks a request is refused, whatever follows |
| `HttpBodies.SizedRequest` | tokamak/src/transport.rs:207-229 | without chunks the body has exactly the last content length given, and one byte less is cut short |
| `HttpBodies.HeadRefused` | tokamak/src/transport.rs:164-206 | a content length that is no number and a blank request line are refused |
| `HttpRoundTrip.RequestRoundTrip` | tokamak/src/dev_proxy.rs:472-513 | a written request is parsed to the same method, target and body, with the original headers minus the dropped ones plus exactly the proxy's own, unless a limit is exceeded |
| `HttpLimits.OthersForwarded` | tokamak/src/dev_proxy.rs:472-513 | a header that does not end at the proxy arrives exactly if and as it was sent |
| `HttpLimits.OwnForwarded` | tokamak/src/dev_proxy.rs:472-513 | the proxy's own headers and their values |
| `HttpLimits.DroppedNames` | tokamak/src/dev_proxy.rs:472-513 | the headers that end at the proxy |
| `HttpRoundTrip.ReadIsWellFormed` | tokamak/src/transport.rs:164-229 | whatever the bytes, a parsed request satisfies what the round trip asks |
| `HttpRoundTrip.ProxiedRequest` | tokamak/src/dev_proxy.rs:472-513 | every request the gateway can parse is, after the proxy rewrote it, parsed again to its forwarded form, or its header block has become too long |
| `HttpLimits.FullBlockRefused` | tokamak/src/dev_proxy.rs:472-513 | a request whose passed-on headers fill the block to its limit is read, and refused after the proxy rewrote it |
| `HttpLimits.ProxyCanRefuse` | tokamak/src/dev_proxy.rs:472-513 | such a request: `GET /` with one header of 65513 letters |
| `Gateway.SuspensionCompletes` | tokamak/src/gateway.rs:112-186 | after a suspend, as many leaves as there were executions lead to Suspended, and any fewer do not |
| `Gateway.ResumeUndoesSuspend` | tokamak/src/gateway.rs:112-130 | a resume restores what a suspend did to a running worker, whatever left in between, and has no effect once stopping |
| `Gateway.StopIsFinal` | tokamak/src/gateway.rs:112-186 | after a stop no suspend, resume or leave changes the phase |
| `Gateway.LifecycleSafety` | tokamak/src/gateway.rs:101-186 | in every reachable state the count is the number of live executions, Suspended means none, Suspending at least one, and a blocked thread is one the phase tells to wait |
| `Gateway.StartsOnlyRunning` | tokamak/src/gateway.rs:138-167 | an execution starts only while Running and accepting; Stopping and not accepting are never left |
| `Gateway.WaitersProgress` | tokamak/src/gateway.rs:152-167 | once Running or Stopping no thread of the protocol is blocked and each of its steps brings it nearer to its end; if it cannot step, the lock holder can |
| `Gateway.GoesIn` | tokamak/src/gateway.rs:138-167 | with the lock free, running and accepting, an arriving thread goes in within four steps and is counted if it is a job |
| `Gateway.WaitsOutside` | tokamak/src/gateway.rs:138-167 | while suspended it ends up blocked and has given the lock back |
| `Gateway.ResumedGoesIn` | tokamak/src/gateway.rs:124-167 | after a resume a blocked thread goes in within three steps |
| `Gateway.TurnedAway` | tokamak/src/gateway.rs:138-167 | after a stop, or once nothing is accepted, it is turned away and holds nothing |
| `Gateway.DropCancelsAll` | tokamak/src/gateway.rs:284-297 | after the shutdown sweep every connection past its checks is cancelled |
| `Gateway.CancelledStays` | tokamak/src/gateway.rs:404-416 | a connection's flag stays set, and a sweep sets exactly those of the registered ones |
| `Gateway.SuspendCancelsAll` | tokamak/src/gateway.rs:274-277 | after a suspend and its sweep, with no resume since, every connection past its checks is cancelled |
| `Certificates.WorkDirectory.WriteAll` | tokamak/src/certificates.rs:259-298 | the directory is changed by exactly the listed atomic steps |
| `Certificates.WorkDirectory.WriteLeaves` | tokamak/src/certificates.rs:300-331 | the directory is changed by exactly the listed atomic steps |
| `Certificates.WorkDirectory.Ensure` | tokamak/src/certificates.rs:56-90 | keeps, renews or regenerates as planned, with the planned steps on disk |
| `Certificates.WorkDirectory.RenewOrGenerate` | tokamak/src/certificates.rs:74-84 | without a loadable cache a current authority is kept and everything else reissued, or all is generated |
| `CertificateRecovery.EnsureGood` | tokamak/src/certificates.rs:56-90 | on any directory `ensure` succeeds exactly when the cache is good or the host can be certified, and then returns and stores a good bundle: on the certificates' own fields, chained, with their keys, in force, for the host, and not due |
| `CertificateRecovery.GoodIsTested` | tokamak/src/certificates.rs:192-234 | the tests made on a cached bundle are exactly these conditions on its fields |
| `CertificateRecovery.EnsureKeeps` | tokamak/src/certificates.rs:56-72 | a good bundle is returned and nothing written |
| `CertificateRecovery.EnsureReissues` | tokamak/src/certificates.rs:56-147 | otherwise leaves are issued for the host for ninety days, under the authority of the directory if that is current and a new one of ten years if not |
| `CertificateRecovery.LoadedMeans` | tokamak/src/certificates.rs:154-176 | what loads is the marker and nine files, none empty, text where text is expected |
| `CertificateRecovery.IssuerMeans` | tokamak/src/certificates.rs:178-190 | the authority loads from its three files alone |
| `CertificateRecovery.CrashIsAtomic` | tokamak/src/certificates.rs:259-331 | stopped after any step the directory loads as the old bundle, the new bundle or not at all |
| `CertificateRecovery.CrashKeepsIssuer` | tokamak/src/certificates.rs:300-331 | an interrupted or finished `ensure` that found a current authority leaves its three files as they were |
| `CertificateRecovery.RunsConsistent` | tokamak/src/certificates.rs:154-176 | over any run of starts and crashes whatever loads fits together |
| `CertificateRecovery.RunsKeepIssuer` | tokamak/src/certificates.rs:56-147 | while it stays current the authority survives any run unchanged |
| `CertificateRecovery.RecoversAfterCrashes` | tokamak/src/certificates.rs:56-90 | after any run the next complete `ensure` stores a good bundle, under the old authority if that is current |
| `CertificateRecovery.RenewalDelayExact` | tokamak/src/certificates.rs:216-232 | after its sleep the thread finds renewal due if and only if it was due already or a whole number of seconds away |
| `CertificateRecovery.RenewalDelayBounds` | tokamak/src/certificates.rs:216-232 | the sleep never ends after renewal falls due and always less than one second before; having woken early, the next sleep has no length |
| `CertificateRecovery.RenewalWakesEarly` | tokamak/src/certificates.rs:221-232 | one and a half seconds before renewal is due the thread sleeps one second and wakes early |
| `CertificateRecovery.EarlyWakeSpins` | tokamak/src/certificates.rs:798-823 | until renewal is due, a thread that woke early keeps the bundle, writes nothing and does not sleep |
| `Wildcards.SegmentMatches` | tokamak-cli/src/worker.rs:293-321 | the worklist terminates and decides the declarative wildcard relation on every pattern and value |
| `Wildcards.SegmentMatch` | tokamak/src/fs/node/javascript_objects.rs:1152-1173 | the table decides the same relation |
| `Wildcards.ToolGlobSegments` | tokamak-cli/src/worker.rs:281-291 | the path matcher over the worklist decides the declarative relation on segment lists |
| `Wildcards.NodeGlobSegments` | tokamak/src/fs/node/javascript_objects.rs:1139-1150 | the path matcher over the table decides the same relation |
| `Wildcards.PlainSegment` | tokamak/src/fs/node/javascript_objects.rs:1152-1173 | a segment without wildcards matches itself and nothing else |
| `Wildcards.WildcardsMean` | tokamak/src/fs/node/javascript_objects.rs:1139-1173 | `*` matches every segment, `?` every byte, `**` every path |
| `Braces.ExpandedHasNoGroup` | tokamak/src/fs/node/javascript_objects.rs:1117-1131 | expansion terminates with at least one pattern, none holding a brace group |
| `BraceGroups.GroupsAreUnitsIff` | tokamak/src/fs/node/javascript_objects.rs:1117-1131 | a pattern expands to every choice its matching braces mean, nested groups included and in order, if and only if in each outermost group no closing brace follows a comma and, if there is a comma, no opening brace follows a letter |
| `BraceGroups.BalancedExpandsIff` | tokamak/src/fs/node/javascript_objects.rs:1117-1131 | the same for the text of every pattern with matching braces, and braces are left over exactly when a closing brace follows a comma inside a group |
| `BraceGroups.ParseIsInverse` | tokamak/src/fs/node/javascript_objects.rs:1117-1131 | patterns with matching braces and their readings are one to one |
| `NestedBraces.NoStrayBraceIff` | tokamak/src/fs/node/javascript_objects.rs:1117-1131 | every expansion of a pattern with matching braces is free of braces if and only if no group text, read from the left up to the first closing brace, has both an inner opening brace and a comma |
| `Braces.NestedGroups` | tokamak/src/fs/node/javascript_objects.rs:1117-1131 | an instance: `{a,{b,c}}` expands to `a}`, `b` and `c}` |
| `Base64.DecodeBase64` | tokamak/src/fs/node/filesystem_operations.rs:1645-1672 | the loop over the wrapping 32-bit accumulator computes the decoding |
| `Base64.DecodeMeaning` | tokamak/src/fs/node/filesystem_operations.rs:1645-1661 | although the accumulator loses its high bits, the bytes are the whole octets of the number the alphabet characters write in base 64, fewer than eight bits left over |
| `Base64.AlphabetSpelled` | tokamak/src/fs/node/filesystem_operations.rs:1663-1677 | the digits of the base in order: capitals, small letters, numerals, plus and slash |
| `Base64.DecodeIgnoresOthers` | tokamak/src/fs/node/filesystem_operations.rs:1645-1672 | decoding depends only on the alphabet characters |
| `Base64.EncodeBase64` | tokamak/src/fs/node/filesystem_operations.rs:1674-1695 | the loop over chunks of three computes the encoding |
| `Base64.Base64RoundTrip` | tokamak/src/fs/node/filesystem_operations.rs:1645-1695 | every byte sequence survives encoding and decoding (section 4 of RFC 4648) |

## Left out

- Machine words are 64 bits wide; `usize` arithmetic that saturates is written out where a limit depends on it.
- Host I/O errors and host names that are not UTF-8: the bundle is an immutable tree of names (`HostNamesOk`), its symbolic links and special files are unsupported nodes, and an absent bundle is an empty directory.
- Reference counting: what a failed copy allocated is dropped by cutting the arenas back, and unreachable directories and bodies stay in the arenas.
- `stat`, `access`, `walk`, `read_dir` and error texts: they only read, or are not part of a property here.
- Failing entropy, and how `/dev/random` fills a buffer: the bytes are a parameter.
- VirtualFilesystem.VirtualFileSystem.MakeTempDir: the draws are a finite list given by the caller, so that the entropy source never failing is not modelled.
- Gateway.WaitersProgress: progress is stated per step with a rank; fairness of the scheduler and of the mutex is not modelled.
- The gateway's registry is a set of thread ids; listener recovery, TLS, thread joins and the socket shutdown that follows a cancellation are not part of the model.
- WebSocketStream.WebSocketCodec.NextFrame: stream errors other than timeouts are not modelled; the outbound queue, the wait for readiness and closed channels of a session are left out.
- ChunkedRelay.HostBody.PumpChunkedBody: a receiver that goes away is a number of sends after which it is gone, and a schedule that runs out means the pump is still waiting.
- ChunkedRelay.WriteStream: a failing connection is not an event; `ChunkedCoding.CutIsIncomplete` covers every prefix such a failure can leave. Response headers and bodies that are not streamed are left out, as is the close-delimited body.
- HttpRequests.ReadRequestFrom: how the lossy conversion replaces bytes that are not UTF-8 is a parameter, constrained only on valid input; the `url` field, a concatenation, is left out.
- Certificates: an I/O error in the middle of a write is a crash, and permissions, temporary names, X.509, PEM and DER are abstract; the identity file is a pair of contents; validity bounds are whole seconds, the clock is in nanoseconds.
- Splitting a glob's pattern and path at `/` and stripping the working directory before the segment matchers run.
- NestedBraces.NoStrayBraceIff: for patterns with matching braces; of the others `Braces.ExpandedHasNoGroup` says that no group is left.
- Hexadecimal encoding and decoding.
- QuickJS bindings, value coercion, streams and promises, the JavaScript dispatcher, command-line orchestration, packaging and the platform shells.
