# calibre-auto-import, modelled in Dafny

This tool copies newly created files from a watched directory tree into an output
directory. A small marker file stores the cutoff instant of the last successful
run, so each run copies only files modified after it. The model covers three parts:

- the marker (`src/marker.rs`): its default and its derived order, loading it from a
  store of files and saving it back, and every error kind those steps produce;
- file discovery (`src/file_discovery.rs`): the recency predicate `newer_than`, the
  pre-order walk filtered by that predicate, and `discover`, which stops at the first
  walk error;
- the run (`src/main.rs` from line 36 on): it falls back on the default marker when
  loading fails, copies only the first candidate of each file name, honours dry runs,
  and writes a new marker only after a real run that found candidates and copied all
  of them.

Files: `wrappers.dfy` (Option, Result), `paths.dfy` (paths as lists of components, and
the derived lexicographic order on strings and paths), `marker.dfy` (module `Markers`),
`file_discovery.dfy` (module `FileDiscovery`), `orchestrator.dfy` (module `Orchestrator`).

How the environment is modelled:

- Instants are `int`s (`Markers.Time`).
- The marker's JSON text is an abstract token sequence. `Encode` maps no cutoff to `[0]`
  and cutoff `t` to `[1, t]`. `Decode` inverts `Encode` and rejects everything else,
  including an empty file and any truncated encoding.
- The marker's filesystem is a `Store` object. `files` maps each path that can be
  opened to its content. `creatable` is the set of paths where `File::create` succeeds.
  `WriteFaults` gives the outcome of the two steps after creation: whether serializing
  fails, and how many tokens the device accepts.
- The watched tree is an `Entry` value. Each entry carries its own name, the result of
  its own metadata (`None` when that read fails: otherwise is-dir plus an optional
  modified time), whether its path is a directory when links are followed, whether the
  walker yields an error in its place, and its children in read order. The children
  are the entries the walker reads below it. A link below the search directory has
  none, because the walker does not follow it. The search directory is
  `parent + [root.name]`.
- `Walk` is the sequence of items that `WalkDir::new(..).into_iter().filter_entry(..)`
  yields below any entry. An error item passes through the filter. An entry that fails
  the filter is not yielded and its children are not visited. Otherwise the entry
  comes first, then the walks of its children.
- `Search` is that walk started at the search directory, and `discover` iterates over
  it. The walker follows a search directory that is a link to a directory, but the
  root's entry keeps the link's own metadata. `filter_entry` skips the contents of a
  rejected entry only when the entry reports itself a directory. So when the filter
  rejects such a link (`LinkedRoot`), its children are still walked, each under the
  filter. Everywhere else `Search` is `Walk`.
- A directory whose listing cannot be read is the one place where the walker's error
  path differs from the model. `walkdir` yields that error at the directory's own path,
  after the directory itself. The model shows it as an error child, so the error
  carries a child's path. Only the path inside `FetchEntry` changes: where discovery
  fails, and that it fails, are the same.
- `std::fs::copy` is the oracle `copyOk`, which says whether a copy from a source to a
  destination succeeds. The clock reading is the parameter `now`.

The loop of `discover` over the walker's items is the method
`FileDiscovery.DiscoverItems`, which `FileDiscovery.Discover` calls on the search.
The loop of `main` over the candidates is the method `Orchestrator.CopyCandidates`,
which `Orchestrator.Run` calls. Its early return on a failed copy becomes the result
`failed`.

The code behaves differently from what one might expect in these places:

- Directories are not pruned unconditionally. Only an entry whose own metadata can be
  read and says "directory" is exempt from the filter. With a cutoff, a directory whose
  metadata cannot be read is pruned together with everything below it
  (`FileDiscovery.UnreadableDirectoryIsPruned`).
- An unreadable metadata or modified time excludes an entry only when there is a
  cutoff. Without a cutoff such an entry passes, and a non-directory is discovered.
- The discovered list is in walk order, not sorted.

## Model

| member | source | states |
|---|---|---|
| `Markers.Default` | src/marker.rs:20-25 | the default marker has no cutoff and is not greater than any marker |
| `Markers.FromTime` | src/marker.rs:47-53 | `Marker::from(t)` has cutoff `Some(t)` and is strictly above the default |
| `Markers.CompareMarkers` | src/marker.rs:20-24 | the derived order on markers reports equality exactly for equal markers, and "less" exactly when the first has no cutoff and the second has one, or both have one and the first's is earlier |
| `Markers.MarkerOrderIsTotal` | src/marker.rs:20-24 | the derived order agrees with equality, is antisymmetric and is transitive |
| `Markers.Encode` | src/marker.rs:37 | the serialization of a marker parses back to that same marker |
| `Markers.Decode` | src/marker.rs:31 | an empty file fails to parse; a successful parse reads one or two tokens, whose first tells whether there is a cutoff and whose last is the cutoff when there is one |
| `Markers.DecodeEncode` | src/marker.rs:28-41 | parsing a serialized marker gives that marker back, for both kinds of cutoff |
| `Markers.DecodeOnlyEncodings` | src/marker.rs:31 | a parse succeeds only on the serialization of the marker it returns |
| `Markers.TruncatedEncodingInvalid` | src/marker.rs:36-41 | an empty file, and any proper prefix of a serialization, fails to parse |
| `Markers.Store.constructor` | src/marker.rs:28-35 | the store of marker files starts with exactly the given openable files and creatable paths |
| `Markers.Loaded` | src/marker.rs:28-32 | loading fails with `FileOpen` exactly when the path cannot be opened, and with `InvalidFormat` exactly when the content does not parse; on success the content is that marker's serialization; no other error occurs |
| `Markers.Saved` | src/marker.rs:34-44 | `FileCreate` exactly when the path cannot be created, and then nothing changes; other paths are never touched; `Serialization` exactly when serializing fails, leaving the file empty; `Write` exactly when the device accepts fewer tokens than the serialization has; success exactly when creation, serialization and the full write succeed, leaving the serialization in the file; any later failure leaves a proper prefix of the serialization |
| `Markers.SaveThenLoad` | src/marker.rs:28-44 | a successful save followed by a load returns the saved marker |
| `Markers.FailedSaveLeavesInvalid` | src/marker.rs:35-41 | a save that fails after creating the file leaves content the next load rejects with `InvalidFormat` |
| `Markers.FromFile` | src/marker.rs:28-32 | `from_file` returns what `Loaded` prescribes and changes nothing |
| `Markers.WriteToFile` | src/marker.rs:34-44 | `write_to_file` leaves the store and returns the result that `Saved` prescribes |
| `Markers.TryFromPath` | src/marker.rs:55-61 | `TryFrom<&Path>` gives exactly the result of `from_file` |
| `Markers.TryFromPathBuf` | src/marker.rs:63-69 | `TryFrom<PathBuf>` gives exactly the result of `from_file` |
| `Paths.CompareStringsEqual` | src/file_discovery.rs:14-18 | the derived order on names reports equality exactly for equal names |
| `Paths.CompareStringsReverse` | src/file_discovery.rs:14-18 | the derived order on names is antisymmetric |
| `Paths.CompareStringsTransitive` | src/file_discovery.rs:14-18 | the derived order on names is transitive |
| `Paths.ComparePathsEqual` | src/file_discovery.rs:14-18 | the component-wise order on paths reports equality exactly for equal paths |
| `Paths.ComparePathsReverse` | src/file_discovery.rs:14-18 | the order on paths is antisymmetric |
| `Paths.ComparePathsTransitive` | src/file_discovery.rs:14-18 | the order on paths is transitive |
| `FileDiscovery.CompareFileInfos` | src/file_discovery.rs:14-18 | two `FileInfo`s with different paths compare as their paths do, and the comparison reports equality exactly for equal values |
| `FileDiscovery.FileInfoOrder` | src/file_discovery.rs:14-18 | `FileInfo`s are ordered by path, and by name only when the paths are equal; the order agrees with equality and is antisymmetric |
| `FileDiscovery.FileInfoOrderTransitive` | src/file_discovery.rs:14-18 | the order on `FileInfo` is transitive |
| `FileDiscovery.NewerThan` | src/file_discovery.rs:50-90 | an entry whose metadata says directory passes; without a cutoff everything passes; with a cutoff a non-directory passes exactly when its modified time is readable and strictly after the cutoff |
| `FileDiscovery.Walk` | src/file_discovery.rs:33-34 | an entry the walker fails on yields one error item at its path; an entry the filter rejects yields nothing, children included; an accepted entry is yielded first, at its path; every yielded entry passes the filter |
| `FileDiscovery.Search` | src/file_discovery.rs:33-34 | from a search directory that is not a link to a directory, the walk is `Walk`'s; every yielded entry passes the filter |
| `FileDiscovery.LinkedRootIgnoresFilter` | src/file_discovery.rs:33-34 | a search directory that is a link to a directory gives its children's files and errors, whether or not the filter accepts the link |
| `FileDiscovery.SearchIsWalk` | src/file_discovery.rs:33-34 | on a well-formed tree, and on any tree without a cutoff, the search is the plain walk from the root |
| `FileDiscovery.LinkedRootStillSearched` | src/file_discovery.rs:33-34 | a search directory that is a link older than the cutoff still yields the newer file below it |
| `FileDiscovery.WalkAll` | src/file_discovery.rs:33-34 | the walks of a directory's children, in read order, yield only entries that pass the filter |
| `FileDiscovery.NewerThanDirectory` | src/file_discovery.rs:52-58 | an entry whose own metadata reports a directory passes the filter, whatever the marker |
| `FileDiscovery.NewerThanNoCutoff` | src/file_discovery.rs:86-89 | without a cutoff every entry passes the filter |
| `FileDiscovery.NewerThanCutoff` | src/file_discovery.rs:60-85 | with cutoff `t`, a non-directory passes exactly when its metadata and modified time are readable and the time is strictly after `t`; unreadable values or a time equal to `t` exclude it |
| `FileDiscovery.UnreadableDirectoryIsPruned` | src/file_discovery.rs:52-85 | with a cutoff, an entry whose metadata cannot be read is neither yielded nor descended into |
| `FileDiscovery.CollectSound` | src/file_discovery.rs:34-43 | every collected file comes from a yielded item with the same path and name whose path is not a directory |
| `FileDiscovery.Scan` | src/file_discovery.rs:31-47 | the loop fails exactly when the walk holds an error item, with `FetchEntry` at the first error's path; otherwise it returns every collected file in walk order |
| `FileDiscovery.ScanFirstError` | src/file_discovery.rs:34-35 | the first error item of the walk decides the error returned, and no partial list is returned |
| `FileDiscovery.DiscoverItems` | src/file_discovery.rs:32-46 | the loop over the walker's items returns what `Scan` prescribes: the first error, or every non-directory in order |
| `FileDiscovery.Discover` | src/file_discovery.rs:31-47 | `discover` returns what `Scan` prescribes for the search from the root |
| `FileDiscovery.FilterDuringWalk` | src/file_discovery.rs:33-44 | on a well-formed tree, the files the walk collects (and so, by `SearchIsWalk`, the files discovered) are exactly the files of the unfiltered listing that pass the filter and are not directories, in the same order |
| `FileDiscovery.NoCutoffCollectsEveryFile` | src/file_discovery.rs:86-89 | without a cutoff, the walk (and so, by `SearchIsWalk`, `discover`) collects every non-directory of the unfiltered listing, whatever its modified time and whatever the tree |
| `FileDiscovery.ErrorsIgnoreMarker` | src/file_discovery.rs:34-35 | on a well-formed tree the walk meets the same errors, at the same paths and in the same order, whatever the marker |
| `FileDiscovery.DiscoveryFailureIgnoresMarker` | src/file_discovery.rs:34-35 | on a well-formed tree, whether `discover` fails does not depend on the marker |
| `FileDiscovery.DiscoveredFiles` | src/file_discovery.rs:36-43 | every discovered file lies at or below the search directory and has as name its path's final component; it was yielded at that path, and its path is not a directory, so the root and subdirectories never appear |
| `FileDiscovery.WalkYieldsMetadataDirsAreDirs` | src/file_discovery.rs:34-38 | when every entry whose metadata says directory is a directory, the walk yields no entry whose metadata says directory at a path that is not a directory |
| `FileDiscovery.CutoffDiscoversOnlyNewer` | src/file_discovery.rs:79-82 | with cutoff `t`, when every entry whose metadata says directory is a directory, every discovered file was yielded at its path by an entry with readable metadata and a modified time strictly after `t` |
| `FileDiscovery.EmptyRootDirectory` | src/file_discovery.rs:31-47 | an empty root directory gives `Ok([])` |
| `FileDiscovery.NewerAndOlderFile` | src/file_discovery.rs:60-85 | a directory with one file newer and one older than the cutoff gives exactly the newer one |
| `Orchestrator.LoadOrDefault` | src/main.rs:37-39 | a missing or malformed marker file gives the default marker; a cutoff is used only when the file holds its serialization |
| `Orchestrator.Dedup` | src/main.rs:49-53 | the candidates that pass the `seen` test are no more than the candidates, and at least one of them when there is a candidate |
| `Orchestrator.DedupKeepsFirstOfEachName` | src/main.rs:49-53 | the candidates that pass the `seen` test are exactly those that no earlier candidate shares a name with |
| `Orchestrator.DedupNames` | src/main.rs:53-67 | every candidate name survives once, and no two surviving candidates share a name |
| `Orchestrator.NamesStep` | src/main.rs:53 | `seen` after a candidate is `seen` before it plus that candidate's name |
| `Orchestrator.Plan` | src/main.rs:53-55 | at most one copy per candidate; each copy goes from some candidate's path to a path below the output directory whose final component is that candidate's name |
| `Orchestrator.PlanCopiesFirstOfEachName` | src/main.rs:53-59 | each planned copy goes from the first candidate of its name to the output directory joined with that name |
| `Orchestrator.PlanCoversFirstOfEachName` | src/main.rs:53-59 | the first candidate of each name is copied to the output directory joined with that name |
| `Orchestrator.PlanTargetsDistinct` | src/main.rs:53-59 | no two planned copies target the same destination |
| `Orchestrator.PlanPrefix` | src/main.rs:49-68 | the copies planned for the first candidates form a prefix of the whole plan |
| `Orchestrator.UntilFailure` | src/main.rs:59 | the copies attempted are a prefix of the plan; all of them when every copy succeeds, otherwise up to and including the first failing one |
| `Orchestrator.UntilFailureHead` | src/main.rs:59 | a failing first copy is the last one attempted; after a successful first copy the attempts continue with the rest |
| `Orchestrator.UntilFailureStops` | src/main.rs:59 | after successful copies, a failing one is the last copy attempted |
| `Orchestrator.FailedCopyEndsPlan` | src/main.rs:59 | when the copies planned so far all succeeded and the next planned copy fails, the attempts are exactly those copies and the failing one, and the whole plan does not succeed |
| `Orchestrator.CopyCandidates` | src/main.rs:47-68 | a dry run attempts no copy; otherwise the calls made are the plan up to its first failure, and a failure is reported exactly when some planned copy fails |
| `Orchestrator.Run` | src/main.rs:36-80 | the marker falls back on the default; a discovery error ends the run with no copy and an unchanged store; a dry run or zero candidates copies nothing and leaves the store unchanged; a copy failure stops at once and leaves the store unchanged; only a real run whose copies all succeed saves `Marker::from(now)`, with that save's effect and error |

## Left out

- `src/cli.rs` is not part of this model. Argument parsing and environment bindings are left out, and so is `marker_path`, which only joins the marker directory and file name. The marker path, watch and output directories and dry-run flag are plain parameters.
- Logging (`tracing` and its subscriber setup) is left out. It is output on the side only.
- The JSON byte format and the RFC 3339 text of timestamps are abstracted to tokens.
- Real I/O is left out: the OS traversal, opening, creating and writing files, and the bytes `std::fs::copy` moves. The tree, the store and the copy oracle stand in for them. A successful copy does not change the model's state.
- The conversion from `SystemTime` to `DateTime<Utc>` is left out, and so is the lossy UTF-8 conversion of file names. Modified times are `int`s and names are strings.
- The walker's naming of a root path with no final component (such as `/`) is not modelled: the root's name is always its last path component.
- Concurrency is absent from the source and from the model.
- The `walkdir` crate is not part of this model. `Walk` and `Search` follow the order, filtering, link following and error reporting that `walkdir`'s `IntoIter` and `FilterEntry` document for the options this code uses: the defaults, with `filter_entry` only.
- FileDiscovery.FilterDuringWalk: holds only on well-formed trees. In those trees, only entries whose metadata reports a directory have children, and such entries are directories when links are followed. `Walk` and `Search` themselves model every tree.
- FileDiscovery.CutoffDiscoversOnlyNewer: assumes that every entry whose metadata says directory is a directory when links are followed. Without that, an entry whose metadata says directory but whose path is not one would be discovered without its time being checked.
- FileDiscovery.ErrorsIgnoreMarker: assumes a well-formed tree. Elsewhere, a pruned directory hides any errors below it. FileDiscovery.DiscoveryFailureIgnoresMarker inherits the assumption.
- Orchestrator.Run: a successful copy does not change the store. The store's unchanged state after a copy failure therefore holds only when no copy target is the marker path. A copy to the output directory joined with a name that equals the marker path would overwrite the marker in the source, and the model does not capture that aliasing.
