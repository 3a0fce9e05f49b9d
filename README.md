# tmpdir in Dafny

A model of the `tmpdir` crate's core: a scratch directory named
`<prefix>-<10 random alphanumerics>` under the temporary-files root, the
explicit-stack traversal that streams every entry below a directory, the copy
that replays that stream onto a destination, and the explicit removal.

The filesystem is a value, `Fs.Tree = map<Path, Node>`, where a path is a
sequence of segments and a node is a directory or a file with its bytes. The
filesystem primitives the crate calls appear as functions from that tree to a
result and a new tree:
- `create_dir` and `create_dir_all`;
- `read_dir`, `DirEntry::metadata` and `fs::copy`;
- `remove_dir_all`.

Everything the real system decides outside the crate sits in one `Fs.Env`
value:
- the order in which `read_dir` returns names;
- which calls fail with an OS-level error (`Injected`).

The model is split into these modules:
- `Fs`: the tree, its well-formedness (`Valid`: every entry sits inside a directory) and the primitives.
- `Traversal`:
  - `list_contents` as the loop `ListContents`, proved against the value `Listing`;
  - `traverse` as the loop `Traverse`, proved against the stream `Walk`;
  - a termination measure for the walk.
- `WalkFacts`: the stream stays strictly below the root, up to its first error each entry comes after its parent, and only listing errors appear in it.
- `Completeness`: on a well-formed tree whose read order lists each directory faithfully (`Enumerates`), and with no listing error, the walk emits each entry below the root exactly once.
- `Scratch`: `TmpDir::new` and `TmpDir::close`.
- `TreeCopy`: `TmpDir::copy` as the loop `Copy`, proved against the value `CopySpec`, and what a copy does to the tree.

Two behaviours of the code worth knowing:
- When a listing fails part-way, the directories `list_contents` had already pushed stay on the worklist and are expanded later. Their own entries were dropped together with the rest of that listing. So the branch is not ended, and those directories' children are emitted although the directories never were. Parent-before-child (`WalkFacts.WalkParentFirst`) therefore holds up to the first error of the stream and not beyond; `WalkFacts.PushedDirOutlivesFailedListing` shows a two-level tree where the directory is never emitted but its child is. `copy` stops at that error, so it is unaffected.
- `read_dir` yields names only. Classifying an entry is a separate `metadata` call, and that call can fail on its own.

## Model

| member | source | states |
|---|---|---|
| Fs.CreateDir | src/lib.rs:82 | `create_dir` succeeds exactly when it is not faulted, the path is absent and its parent is a directory. It then adds only that path, as a directory. It reports `AlreadyExists` when the path exists, and it keeps the tree well-formed. |
| Fs.MakeDirs | src/lib.rs:132 | Creating missing ancestors: on success the path is a directory, existing entries keep their nodes and every new entry is a directory on the path's line. An existing directory is a no-op. |
| Fs.CreateDirAll | src/lib.rs:150 | `create_dir_all`: the `MakeDirs` guarantees, plus a fault reported as `Injected`. The error is `AlreadyExists`, `NotADirectory` or `Injected`. |
| Fs.MakeDirsSucceeds | src/lib.rs:132 | In a well-formed tree, creating all ancestors succeeds exactly when no prefix of the path is a file. |
| Fs.MakeDirsValid | src/lib.rs:150 | Creating all ancestors keeps the tree well-formed. |
| Fs.CreateDirAllValid | src/lib.rs:132 | `create_dir_all` keeps the tree well-formed. |
| Fs.Metadata | src/lib.rs:101 | `metadata` succeeds exactly when it is not faulted and the entry exists, and returns that entry's node. A faulted call gives `Injected`, and an unfaulted one on a missing entry gives `NotFound`. |
| Fs.ReadDir | src/lib.rs:97 | `read_dir` succeeds exactly when it is not faulted and the path is a directory, and returns the names in read order. |
| Fs.CopyFile | src/lib.rs:152 | `fs::copy` succeeds exactly when it is not faulted, the source is a file, the target is not a directory and the target's parent is a directory. It writes the source bytes at the target and nothing else. `NotFound` means exactly that the parent is missing. |
| Fs.CopyFileValid | src/lib.rs:152 | `fs::copy` keeps the tree well-formed. |
| Fs.RemoveDirAll | src/lib.rs:160 | `remove_dir_all` succeeds exactly when it is not faulted and the path is a directory. It then removes exactly the path and everything below it and leaves every other entry unchanged. A missing path gives `NotFound`. |
| Fs.RemoveDirAllValid | src/lib.rs:160 | `remove_dir_all` keeps the tree well-formed. |
| Fs.ChildPathsShape | src/lib.rs:100-102 | Every entry path a listing builds is a direct child of the listed directory. |
| Traversal.DirsOf | src/lib.rs:101-102 | A path is pushed exactly when it is one of the children and a directory, and no more paths are pushed than there are children. |
| Traversal.Listing | src/lib.rs:97-109 | Listing one directory, as a value: the entries or an error, and the directories pushed meanwhile. `ListingFacts`, `ListingFetchFails`, `ListingMetadataFails`, `ListingEnds` and `ListingStep` state what it returns, and `ListContents` is proved to compute it. |
| Traversal.ListingFacts | src/lib.rs:97-109 | A listing succeeds exactly when `read_dir` succeeds and no fetch or `metadata` call faults. It then returns every child in read order and pushes exactly the directory children. After a failure, what was pushed is a prefix of those directories, and only a directory pushes anything. |
| Traversal.ListingFetchFails | src/lib.rs:100 | A failing fetch of entry `i` gives one error and keeps the directories pushed before it. |
| Traversal.ListingMetadataFails | src/lib.rs:101 | A failing `metadata` call on entry `i` gives its error and keeps the directories pushed before it. |
| Traversal.ListingEnds | src/lib.rs:100-109 | Reaching the end of the directory returns all children and pushes all directory children. |
| Traversal.ListingStep | src/lib.rs:100-106 | A fetch without a fault adds one entry to the result, and one pushed path exactly when that entry is a directory. |
| Traversal.ListContents | src/lib.rs:93-110 | The loop returns the listing's result and leaves the old worklist as a prefix, followed by exactly the paths the listing pushes. |
| Traversal.StepDecreases | src/lib.rs:117-124 | Each pop and listing lowers the total weight of the worklist, so the stream is finite. |
| Traversal.Emit | src/lib.rs:119-122 | A successful listing contributes its entries in order, a failed one a single error. |
| Traversal.Walk | src/lib.rs:114-127 | The stream as a value: pop the last path of the worklist, list it, emit its entries or its error, repeat until the worklist is empty. `StepDecreases` shows it is finite, `Traverse` is proved to compute it, and `WalkBelowRoot`, `WalkParentFirst`, `WalkErrKinds` and `WalkEmitsEachOnce` state what it contains. |
| Traversal.Traverse | src/lib.rs:114-127 | The explicit-stack loop computes exactly the stream `Walk` seeded with the root. |
| WalkFacts.Oks | src/lib.rs:136-137 | The entry paths of a stream are exactly its `Ok` items. |
| WalkFacts.WalkBelowRoot | src/lib.rs:114-127 | Every entry of the stream is in the tree and strictly below the root, so the root itself is never emitted. |
| WalkFacts.WalkParentFirst | src/lib.rs:117-124 | Up to the first error, each entry's parent is a directory that is the root or was emitted earlier. |
| WalkFacts.PushedDirOutlivesFailedListing | src/lib.rs:100-103 | When the fetch after the root's only child, a directory, faults, the stream is exactly the error followed by that directory's child: the child is emitted and the directory is not. |
| WalkFacts.WalkErrKinds | src/lib.rs:119-121 | The stream's errors are only those of listings: `Injected`, `NotFound` or `NotADirectory`. |
| WalkFacts.ListingBelow | src/lib.rs:97-109 | Listing a path below the root emits and pushes only paths strictly below the root. |
| Completeness.SubtreeSplit | src/lib.rs:100-107 | The entries below a directory are its children plus the entries below its directory children, each counted once. |
| Completeness.WalkEmitsEachOnce | src/lib.rs:114-127 | Given `Valid`, `Enumerates` and no error in the stream, the stream's entries are, as a multiset, exactly the entries below the root: each one exactly once, and nothing else. |
| Completeness.WalkClean | src/lib.rs:97-109 | Given `Enumerates`, a directory root and no listing fault, the stream has no error. |
| Scratch.IsRandomSuffix | src/lib.rs:65-77 | What the random generator yields: exactly `LEN_RNG` = 10 ASCII letters and digits. `New` requires it of its `suffix` parameter. |
| Scratch.ScratchName | src/lib.rs:80 | The directory name `<prefix>-<suffix>`. `ScratchNameParses` and `ScratchNameInjective` state how it splits back. |
| Scratch.ScratchPath | src/lib.rs:70-80 | The temporary root with the name pushed onto it. `NewShape` states that the created directory sits directly under the root with that name. |
| Scratch.ScratchNameParses | src/lib.rs:71-80 | The directory name is the prefix, a dash and exactly 10 alphanumerics. |
| Scratch.ScratchNameInjective | src/lib.rs:80 | Because the suffix length is fixed, a name determines both its prefix and its suffix. |
| Scratch.New | src/lib.rs:69-84 | `new` succeeds exactly when creating `<root>/<prefix>-<suffix>` succeeds, and it then adds only that directory. A failure changes nothing, and an existing path gives `AlreadyExists`. |
| Scratch.NewShape | src/lib.rs:68-83 | A created scratch directory sits directly under the temporary root, has the promised name and keeps the tree well-formed. |
| Scratch.Close | src/lib.rs:159-161 | `close` succeeds exactly when it is not faulted and the directory exists. It then removes exactly that subtree. A failure leaves the tree as it was, because a failing `remove_dir_all` is modelled as failing before it removes anything. A missing directory gives `NotFound`. |
| Scratch.CloseTwice | src/lib.rs:159-161 | A second `close` after a successful one fails whatever faults it meets, and reports `NotFound` when it does not fault. |
| Scratch.NewThenClose | src/lib.rs:195-201 | After a successful `new`, a `close` meeting faults of its own succeeds exactly when it does not fault, and then gives back exactly the original tree. |
| TreeCopy.Target | src/lib.rs:139-147 | An entry's target is below the destination, deeper by the entry's depth below the scratch directory. |
| TreeCopy.TargetInjective | src/lib.rs:143-147 | Distinct entries have distinct targets. |
| TreeCopy.TargetParent | src/lib.rs:143-147 | The target of an entry's parent is the parent of its target, and the scratch directory maps to the destination. |
| TreeCopy.CopyEntry | src/lib.rs:139-153 | One entry of the stream: strip the scratch directory's prefix, join onto the destination, read the entry's `metadata`, then `create_dir_all` for a directory and `fs::copy` otherwise. `EntryWritesTarget` states that, with the target's parent a directory, a successful step writes the entry's node at its target and nothing else. |
| TreeCopy.Replay | src/lib.rs:137-154 | The loop over the stream as a value, stopping at the first error. `ReplayStopsAtErr` and the `Copy…` lemmas below state what it does. |
| TreeCopy.EntryWritesTarget | src/lib.rs:147-153 | Once the parent of its target is a directory, a successful copy of an entry adds only its target, puts the entry's node there and leaves every other path as it was. |
| TreeCopy.CopySpec | src/lib.rs:130-156 | The whole copy as a value: create the destination, then replay the stream. `Copy` is proved to compute it, and the lemmas below state what it does. |
| TreeCopy.Copy | src/lib.rs:130-156 | The loop returns the status and the tree of `CopySpec`: create the destination, then replay the stream, stopping at the first error. |
| TreeCopy.ReplayStopsAtErr | src/lib.rs:137-138 | Nothing after the stream's first error is processed and the copy reports an error; when every step before it succeeded, the reported error is exactly that stream error. |
| TreeCopy.CopyOnlyAdds | src/lib.rs:130-156 | Copying never deletes, also when it stops part-way: directories stay directories, files stay files, and off the destination's line nothing appears or changes. |
| TreeCopy.CopyAddsOnlyTargets | src/lib.rs:130-156 | Whether the copy succeeds or stops part-way, every path it creates is on the way to the destination or is the target of an entry of the stream, so no stray path appears below the destination. |
| TreeCopy.CopyKeepsUntargeted | src/lib.rs:149-153 | Copying overwrites but does not mirror: an entry that is no entry's target keeps its node. |
| TreeCopy.CopyLeavesSourceAlone | src/lib.rs:130-156 | When the scratch directory and the destination are unrelated, nothing at or below the scratch directory changes. |
| TreeCopy.CopyValid | src/lib.rs:130-156 | Copying keeps the tree well-formed. |
| TreeCopy.CopyErrKinds | src/lib.rs:143-153 | No copy reports `InvalidInput`. Once the destination exists and the stream has no error, a copy fails only with `Injected`, `AlreadyExists` or `IsADirectory`. |
| TreeCopy.CopyMirrors | src/lib.rs:149-153 | A successful copy met no stream error, and every emitted entry's node is found at its target. |
| TreeCopy.CopyComplete | src/lib.rs:130-156 | Given `Valid` and `Enumerates`, after a successful copy every entry below the scratch directory is found at its target with the same node. |
| TreeCopy.WalkDistinct | src/lib.rs:114-127 | Given `Valid` and `Enumerates` (each directory's read order names each child once), a stream with no error emits no entry twice. |
| TreeCopy.CopySucceeds | src/lib.rs:130-156 | The copy succeeds under these conditions: no fault, a directory as source, `Valid` and `Enumerates`, no file on the path to the destination, and no clash at a target (`NoClash`: where a target already exists, it is a directory exactly when its entry is). Existing files at file targets are overwritten, and existing directories at directory targets are reused. |
| TreeCopy.CopyReachesNestedFile | src/lib.rs:240-245 | In the copy test's setting, `dest/dir1/file1` exists after the copy, with the bytes of the scratch directory's `dir1/file1`. |

## Left out

- `Drop` (src/lib.rs:165-171) is not modelled. It spawns a background task that runs `remove_dir_all` and discards its result; that is concurrency with no observable result. `Close` models the same removal.
- `async` and the stream library are not modelled; the stream is a finite sequence. `copy` consumes it in order, one item at a time, like the loop over the sequence.
- `Copy` does not model a destination at, inside or above the scratch directory. The model lists and reads the tree as it was when the copy began, while the real stream lists directories after earlier writes. At the scratch directory itself, every file would be copied onto itself, which the real `fs::copy` opens with truncation; above it, a target can land inside the scratch directory. When the two roots are unrelated, nothing at or below the scratch directory changes (`CopyLeavesSourceAlone`), so both views agree.
- `env::temp_dir` is not modelled; it is the parameter `tempRoot`.
- The random generator is not modelled. Its output is the parameter `suffix`, and `New` requires what `sample_iter(Alphanumeric).take(LEN_RNG)` guarantees: exactly 10 alphanumerics.
- A failing primitive is modelled as failing before it changes anything. A real `create_dir_all` can fail after creating some ancestors, `fs::copy` after truncating its target, and `remove_dir_all` after deleting part of the subtree; the model's statements that a failure changes nothing (`Close`, and the last step of a copy that stops part-way) do not cover those partial effects.
- Symbolic links, permissions and timestamps are not part of the tree. `fs::copy` carries over file contents only, and its byte count is dropped.
- Path parsing is not modelled. A path is a sequence of segments, so a prefix containing a separator, or `..`, is not interpreted.
- `to_path_buf`, `AsRef<Path>`, `Display` and `Debug` (src/lib.rs:87-89, 174-184) are not modelled. They are accessors and formatting.
- OS errors are reduced to `NotFound`, `AlreadyExists`, `NotADirectory`, `IsADirectory` and `InvalidInput`, plus one kind `Injected` for any other failure a call may meet, such as permissions or I/O.
- Read order across directories is a free parameter. Completeness assumes each directory's listing names each child once (`Enumerates`); ordering beyond parent-first is not constrained.
- `test_tmp_drop` (src/lib.rs:204-218) is not modelled. It depends on timing.
