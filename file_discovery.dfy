/**
  Recursive discovery of the files newer than a marker's cutoff
  (src/file_discovery.rs). The directory tree is given as a value; the walk
  over it is the sequence of items the directory walker yields, with the
  recency predicate applied during the walk.
 */
module FileDiscovery {
  import opened Wrappers
  import opened Paths
  import opened Markers

  /** What an entry's own (non link-following) metadata reports. */
  datatype Metadata = Metadata(isDir: bool, modified: Option<Time>)

  /**
    One entry of the watched tree:
    - `metadata`: its own metadata, `None` when it cannot be read;
    - `pathIsDir`: whether its path, following links, is a directory;
    - `walkError`: the walker yields an error at this position instead of the entry;
    - `children`: the entries the walker finds under it, in the order it reads them.
   */
  datatype Entry = Entry(
    name: string,
    metadata: Option<Metadata>,
    pathIsDir: bool,
    walkError: bool,
    children: seq<Entry>
  )

  /** A discovered file: its full path and its final component. */
  datatype FileInfo = FileInfo(path: Path, name: string)

  /** A failure of the walk, at the path it concerns. */
  datatype DiscoverError = FetchEntry(path: Path)

  /** One item of the walker's output. */
  datatype WalkItem = Yielded(path: Path, entry: Entry) | Failed(path: Path)

  predicate IsDirByMetadata(e: Entry) {
    e.metadata.Some? && e.metadata.value.isDir
  }

  /** Both the metadata and the modified time of `e` are readable, and the time is after `t`. */
  predicate ModifiedAfter(e: Entry, t: Time) {
    e.metadata.Some? && e.metadata.value.modified.Some? && e.metadata.value.modified.value > t
  }

  /** `newer_than`: the predicate the walk is filtered with. */
  predicate NewerThan(marker: Marker, e: Entry)
    ensures IsDirByMetadata(e) ==> NewerThan(marker, e)
    ensures marker.cutoffTime.None? ==> NewerThan(marker, e)
    ensures marker.cutoffTime.Some? && !IsDirByMetadata(e) ==>
              (NewerThan(marker, e) <==> ModifiedAfter(e, marker.cutoffTime.value))
  {
    if IsDirByMetadata(e) then true
    else match marker.cutoffTime
      case None => true
      case Some(cutoff) =>
        match e.metadata
        case None => false
        case Some(md) =>
          match md.modified
          case None => false
          case Some(modified) => modified > cutoff
  }

  /** An entry whose own metadata reports a directory passes, whatever the marker. */
  lemma NewerThanDirectory(marker: Marker, e: Entry)
    requires IsDirByMetadata(e)
    ensures NewerThan(marker, e)
  {
  }

  /** Without a cutoff every entry passes. */
  lemma NewerThanNoCutoff(marker: Marker, e: Entry)
    requires marker.cutoffTime.None?
    ensures NewerThan(marker, e)
  {
  }

  /**
    With a cutoff, a non-directory passes exactly when its metadata and modified
    time are readable and the time is strictly after the cutoff; an unreadable
    metadata or time, or a time equal to the cutoff, excludes it.
   */
  lemma NewerThanCutoff(marker: Marker, e: Entry, t: Time)
    requires marker.cutoffTime == Some(t) && !IsDirByMetadata(e)
    ensures NewerThan(marker, e) <==> ModifiedAfter(e, t)
    ensures e.metadata.None? || e.metadata.value.modified in {None, Some(t)} ==> !NewerThan(marker, e)
  {
  }

  /**
    The walk of `e`, whose parent directory is `parent`, in pre-order: an error
    item passes through the filter; an entry failing the filter is neither
    yielded nor descended into; otherwise the entry comes first, then its children.
   */
  function Walk(marker: Marker, parent: Path, e: Entry): (items: seq<WalkItem>)
    ensures e.walkError ==> items == [Failed(Join(parent, e.name))]
    ensures !e.walkError && !NewerThan(marker, e) ==> items == []
    ensures !e.walkError && NewerThan(marker, e) ==> items != [] && items[0] == Yielded(Join(parent, e.name), e)
    ensures forall k :: 0 <= k < |items| && items[k].Yielded? ==> NewerThan(marker, items[k].entry)
    decreases e
  {
    var path := Join(parent, e.name);
    if e.walkError then [Failed(path)]
    else if !NewerThan(marker, e) then []
    else [Yielded(path, e)] + WalkAll(marker, path, e.children)
  }

  function WalkAll(marker: Marker, dir: Path, es: seq<Entry>): (items: seq<WalkItem>)
    ensures forall k :: 0 <= k < |items| && items[k].Yielded? ==> NewerThan(marker, items[k].entry)
    decreases es
  {
    if es == [] then []
    else
      var a, b := Walk(marker, dir, es[0]), WalkAll(marker, dir, es[1..]);
      assert forall k :: 0 <= k < |a + b| ==> (a + b)[k] == if k < |a| then a[k] else b[k - |a|];
      a + b
  }

  /**
    A search directory reached through a link to a directory: the walker
    follows it, while its entry reports the link's own, non-directory, metadata.
   */
  predicate LinkedRoot(root: Entry) {
    !root.walkError && root.metadata.Some? && !root.metadata.value.isDir && root.pathIsDir
  }

  /**
    The walk `discover` iterates over, started at the search directory
    `parent + [root.name]`. The walker descends into a search directory that is
    a link to a directory, and the filter skips the contents of a rejected
    entry only when that entry reports itself a directory. So the children of a
    rejected linked root are still walked, each under the filter.
   */
  function Search(marker: Marker, parent: Path, root: Entry): (items: seq<WalkItem>)
    ensures !LinkedRoot(root) ==> items == Walk(marker, parent, root)
    ensures forall k :: 0 <= k < |items| && items[k].Yielded? ==> NewerThan(marker, items[k].entry)
  {
    var path := Join(parent, root.name);
    if LinkedRoot(root) && !NewerThan(marker, root) then WalkAll(marker, path, root.children)
    else Walk(marker, parent, root)
  }

  /**
    Whether the filter accepts a linked search directory does not matter: the
    search finds its children's files and errors either way.
   */
  lemma LinkedRootIgnoresFilter(marker: Marker, parent: Path, root: Entry)
    requires LinkedRoot(root)
    ensures Collect(Search(marker, parent, root)) == Collect(WalkAll(marker, Join(parent, root.name), root.children))
    ensures ErrorPaths(Search(marker, parent, root)) == ErrorPaths(WalkAll(marker, Join(parent, root.name), root.children))
  {
    var path := Join(parent, root.name);
    if NewerThan(marker, root) {
      CollectAppend([Yielded(path, root)], WalkAll(marker, path, root.children));
      ErrorPathsAppend([Yielded(path, root)], WalkAll(marker, path, root.children));
    }
  }

  /** What the loop body of `discover` pushes for one item that is not an error. */
  function Accepted(item: WalkItem): seq<FileInfo> {
    match item
    case Yielded(p, e) => if e.pathIsDir then [] else [FileInfo(p, e.name)]
    case Failed(_) => []
  }

  /** The files among the yielded items, in walk order. */
  function Collect(items: seq<WalkItem>): seq<FileInfo> {
    if items == [] then [] else Accepted(items[0]) + Collect(items[1..])
  }

  lemma {:induction false} CollectAppend(a: seq<WalkItem>, b: seq<WalkItem>)
    ensures Collect(a + b) == Collect(a) + Collect(b)
  {
    if a == [] {
      assert a + b == b;
    } else {
      assert (a + b)[0] == a[0] && (a + b)[1..] == a[1..] + b;
      CollectAppend(a[1..], b);
    }
  }

  /** Every collected file comes from a yielded, non-directory item with the same path and name. */
  lemma {:induction false} CollectSound(items: seq<WalkItem>, fi: FileInfo)
    requires fi in Collect(items)
    ensures exists k :: 0 <= k < |items| && items[k].Yielded? && items[k].path == fi.path
                        && items[k].entry.name == fi.name && !items[k].entry.pathIsDir
  {
    if fi !in Accepted(items[0]) {
      CollectSound(items[1..], fi);
      var k :| 0 <= k < |items[1..]| && items[1..][k].Yielded? && items[1..][k].path == fi.path
               && items[1..][k].entry.name == fi.name && !items[1..][k].entry.pathIsDir;
      assert items[k + 1] == items[1..][k];
    }
  }

  /**
    The `for` loop of `discover` with its `?`: the first error item ends it
    with `FetchEntry`; without one, the result is every collected file.
   */
  function Scan(items: seq<WalkItem>): (r: Result<seq<FileInfo>, DiscoverError>)
    ensures r.Err? <==> exists k :: 0 <= k < |items| && items[k].Failed?
    ensures r.Err? ==> exists k :: 0 <= k < |items| && items[k] == Failed(r.error.path)
                                   && forall j :: 0 <= j < k ==> items[j].Yielded?
    ensures r.Ok? ==> r.value == Collect(items)
  {
    if items == [] then Ok([])
    else match items[0]
      case Failed(p) => Err(FetchEntry(p))
      case Yielded(_, _) =>
        var rest := Scan(items[1..]);
        if rest.Err? then
          assert forall k :: 0 < k < |items| ==> items[k] == items[1..][k - 1];
          rest
        else Ok(Accepted(items[0]) + rest.value)
  }

  /** The first error item decides `Scan`. */
  lemma ScanFirstError(items: seq<WalkItem>, i: nat)
    requires i < |items| && items[i].Failed?
    requires forall j :: 0 <= j < i ==> items[j].Yielded?
    ensures Scan(items) == Err(FetchEntry(items[i].path))
  {
  }

  /** Without error items `Scan` succeeds with every collected file. */
  lemma ScanNoError(items: seq<WalkItem>)
    requires forall j :: 0 <= j < |items| ==> items[j].Yielded?
    ensures Scan(items) == Ok(Collect(items))
  {
  }

  /**
    The `for` loop of `discover` over the walker's items: `?` returns the first
    error, `continue` skips directories, and every other entry is pushed.
   */
  method DiscoverItems(items: seq<WalkItem>) returns (r: Result<seq<FileInfo>, DiscoverError>)
    ensures r == Scan(items)
  {
    var out: seq<FileInfo> := [];
    for i := 0 to |items|
      invariant out == Collect(items[..i])
      invariant forall j :: 0 <= j < i ==> items[j].Yielded?
    {
      var item := items[i];
      if item.Failed? {
        ScanFirstError(items, i);
        return Err(FetchEntry(item.path));
      }
      assert items[..i + 1] == items[..i] + [item];
      CollectAppend(items[..i], [item]);
      if item.entry.pathIsDir {
        continue;
      }
      out := out + [FileInfo(item.path, item.entry.name)];
    }
    assert items[..|items|] == items;
    ScanNoError(items);
    r := Ok(out);
  }

  /** `FileDiscoverer::discover` over the tree rooted at `root`, found at `parent + [root.name]`. */
  method Discover(marker: Marker, parent: Path, root: Entry) returns (r: Result<seq<FileInfo>, DiscoverError>)
    ensures r == Scan(Search(marker, parent, root))
  {
    r := DiscoverItems(Search(marker, parent, root));
  }

  /** The derived order on `FileInfo`: by path, then by name. */
  function CompareFileInfos(a: FileInfo, b: FileInfo): (r: Ordering)
    ensures a.path != b.path ==> r == ComparePaths(a.path, b.path)
    ensures r == Equal <==> a == b
  {
    ComparePathsEqual(a.path, b.path);
    CompareStringsEqual(a.name, b.name);
    match ComparePaths(a.path, b.path)
    case Equal => CompareStrings(a.name, b.name)
    case other => other
  }

  /** Paths decide the order unless they are equal; the order agrees with equality and is antisymmetric. */
  lemma FileInfoOrder(a: FileInfo, b: FileInfo)
    ensures a.path != b.path ==> CompareFileInfos(a, b) == ComparePaths(a.path, b.path)
    ensures a.path == b.path ==> CompareFileInfos(a, b) == CompareStrings(a.name, b.name)
    ensures CompareFileInfos(a, b) == Equal <==> a == b
    ensures CompareFileInfos(b, a) == CompareFileInfos(a, b).Reverse()
  {
    ComparePathsEqual(a.path, b.path);
    ComparePathsReverse(a.path, b.path);
    CompareStringsEqual(a.name, b.name);
    CompareStringsReverse(a.name, b.name);
  }

  lemma FileInfoOrderTransitive(a: FileInfo, b: FileInfo, c: FileInfo)
    requires CompareFileInfos(a, b) == Less && CompareFileInfos(b, c) == Less
    ensures CompareFileInfos(a, c) == Less
  {
    ComparePathsEqual(a.path, b.path);
    ComparePathsEqual(b.path, c.path);
    ComparePathsEqual(a.path, c.path);
    if a.path == b.path && b.path == c.path {
      CompareStringsTransitive(a.name, b.name, c.name);
    } else if a.path != b.path && b.path != c.path {
      ComparePathsTransitive(a.path, b.path, c.path);
    }
  }

  // ---------------------------------------------------------------------
  // The walk compared with an unfiltered listing of the tree.

  /**
    A tree a real filesystem can present: an entry that its own metadata calls
    a directory is a directory when links are followed, and only such entries
    have children.
   */
  ghost predicate WellFormed(e: Entry)
    decreases e
  {
    && (IsDirByMetadata(e) ==> e.pathIsDir)
    && (e.children != [] ==> IsDirByMetadata(e))
    && forall i :: 0 <= i < |e.children| ==> WellFormed(e.children[i])
  }

  /** Every entry an unfiltered walk reaches, with its path, in pre-order. */
  function Listing(parent: Path, e: Entry): seq<(Path, Entry)>
    decreases e
  {
    var path := Join(parent, e.name);
    if e.walkError then [] else [(path, e)] + ListingAll(path, e.children)
  }

  function ListingAll(dir: Path, es: seq<Entry>): seq<(Path, Entry)>
    decreases es
  {
    if es == [] then [] else Listing(dir, es[0]) + ListingAll(dir, es[1..])
  }

  /** The non-directories of `nodes` that pass the filter, as files. */
  function Select(marker: Marker, nodes: seq<(Path, Entry)>): seq<FileInfo> {
    if nodes == [] then []
    else
      var (p, e) := nodes[0];
      (if NewerThan(marker, e) && !e.pathIsDir then [FileInfo(p, e.name)] else [])
      + Select(marker, nodes[1..])
  }

  /** All non-directories of `nodes`, as files. */
  function Files(nodes: seq<(Path, Entry)>): seq<FileInfo> {
    if nodes == [] then []
    else
      var (p, e) := nodes[0];
      (if !e.pathIsDir then [FileInfo(p, e.name)] else []) + Files(nodes[1..])
  }

  lemma {:induction false} SelectAppend(marker: Marker, a: seq<(Path, Entry)>, b: seq<(Path, Entry)>)
    ensures Select(marker, a + b) == Select(marker, a) + Select(marker, b)
  {
    if a == [] {
      assert a + b == b;
    } else {
      assert (a + b)[0] == a[0] && (a + b)[1..] == a[1..] + b;
      SelectAppend(marker, a[1..], b);
    }
  }

  lemma {:induction false} FilesAppend(a: seq<(Path, Entry)>, b: seq<(Path, Entry)>)
    ensures Files(a + b) == Files(a) + Files(b)
  {
    if a == [] {
      assert a + b == b;
    } else {
      assert (a + b)[0] == a[0] && (a + b)[1..] == a[1..] + b;
      FilesAppend(a[1..], b);
    }
  }

  /**
    Filtering during the walk loses nothing: on a well-formed tree, the files
    the walk collects are exactly the filtered files of the full listing, in
    the same order. Directories are never pruned.
   */
  lemma {:induction false} FilterDuringWalk(marker: Marker, parent: Path, e: Entry)
    requires WellFormed(e)
    ensures Collect(Walk(marker, parent, e)) == Select(marker, Listing(parent, e))
    decreases e, 1
  {
    var path := Join(parent, e.name);
    if e.walkError {
    } else if !NewerThan(marker, e) {
      assert e.children == [];
      assert Listing(parent, e) == [(path, e)];
    } else {
      CollectAppend([Yielded(path, e)], WalkAll(marker, path, e.children));
      SelectAppend(marker, [(path, e)], ListingAll(path, e.children));
      FilterDuringWalkAll(marker, path, e.children);
    }
  }

  lemma {:induction false} FilterDuringWalkAll(marker: Marker, dir: Path, es: seq<Entry>)
    requires forall i :: 0 <= i < |es| ==> WellFormed(es[i])
    ensures Collect(WalkAll(marker, dir, es)) == Select(marker, ListingAll(dir, es))
    decreases es, 0
  {
    if es != [] {
      CollectAppend(Walk(marker, dir, es[0]), WalkAll(marker, dir, es[1..]));
      SelectAppend(marker, Listing(dir, es[0]), ListingAll(dir, es[1..]));
      FilterDuringWalk(marker, dir, es[0]);
      FilterDuringWalkAll(marker, dir, es[1..]);
    }
  }

  /**
    Without a cutoff the walk collects every non-directory the walk reaches,
    whatever its modified time or metadata, with no assumption on the tree.
   */
  lemma {:induction false} NoCutoffCollectsEveryFile(marker: Marker, parent: Path, e: Entry)
    requires marker.cutoffTime.None?
    ensures Collect(Walk(marker, parent, e)) == Files(Listing(parent, e))
    decreases e, 1
  {
    var path := Join(parent, e.name);
    if !e.walkError {
      CollectAppend([Yielded(path, e)], WalkAll(marker, path, e.children));
      FilesAppend([(path, e)], ListingAll(path, e.children));
      NoCutoffCollectsEveryFileAll(marker, path, e.children);
    }
  }

  lemma {:induction false} NoCutoffCollectsEveryFileAll(marker: Marker, dir: Path, es: seq<Entry>)
    requires marker.cutoffTime.None?
    ensures Collect(WalkAll(marker, dir, es)) == Files(ListingAll(dir, es))
    decreases es, 0
  {
    if es != [] {
      CollectAppend(Walk(marker, dir, es[0]), WalkAll(marker, dir, es[1..]));
      FilesAppend(Listing(dir, es[0]), ListingAll(dir, es[1..]));
      NoCutoffCollectsEveryFile(marker, dir, es[0]);
      NoCutoffCollectsEveryFileAll(marker, dir, es[1..]);
    }
  }

  /** The paths of the error items, in walk order. */
  function ErrorPaths(items: seq<WalkItem>): seq<Path> {
    if items == [] then []
    else (if items[0].Failed? then [items[0].path] else []) + ErrorPaths(items[1..])
  }

  lemma {:induction false} ErrorPathsAppend(a: seq<WalkItem>, b: seq<WalkItem>)
    ensures ErrorPaths(a + b) == ErrorPaths(a) + ErrorPaths(b)
  {
    if a == [] {
      assert a + b == b;
    } else {
      assert (a + b)[0] == a[0] && (a + b)[1..] == a[1..] + b;
      ErrorPathsAppend(a[1..], b);
    }
  }

  /** The items contain an error exactly when their error paths are not empty. */
  lemma {:induction false} ErrorPathsEmpty(items: seq<WalkItem>)
    ensures ErrorPaths(items) == [] <==> forall k :: 0 <= k < |items| ==> items[k].Yielded?
  {
    if items != [] {
      ErrorPathsEmpty(items[1..]);
      assert forall k :: 0 < k < |items| ==> items[k] == items[1..][k - 1];
    }
  }

  /**
    On a well-formed tree the marker never hides or adds an error: the walk
    meets the same errors, in the same order, whatever the cutoff.
   */
  lemma {:induction false} ErrorsIgnoreMarker(m1: Marker, m2: Marker, parent: Path, e: Entry)
    requires WellFormed(e)
    ensures ErrorPaths(Walk(m1, parent, e)) == ErrorPaths(Walk(m2, parent, e))
    decreases e, 1
  {
    var path := Join(parent, e.name);
    if !e.walkError {
      if !IsDirByMetadata(e) {
        assert e.children == [];
        assert ErrorPaths(Walk(m1, parent, e)) == [];
        assert ErrorPaths(Walk(m2, parent, e)) == [];
      } else {
        ErrorPathsAppend([Yielded(path, e)], WalkAll(m1, path, e.children));
        ErrorPathsAppend([Yielded(path, e)], WalkAll(m2, path, e.children));
        ErrorsIgnoreMarkerAll(m1, m2, path, e.children);
      }
    }
  }

  lemma {:induction false} ErrorsIgnoreMarkerAll(m1: Marker, m2: Marker, dir: Path, es: seq<Entry>)
    requires forall i :: 0 <= i < |es| ==> WellFormed(es[i])
    ensures ErrorPaths(WalkAll(m1, dir, es)) == ErrorPaths(WalkAll(m2, dir, es))
    decreases es, 0
  {
    if es != [] {
      ErrorPathsAppend(Walk(m1, dir, es[0]), WalkAll(m1, dir, es[1..]));
      ErrorPathsAppend(Walk(m2, dir, es[0]), WalkAll(m2, dir, es[1..]));
      ErrorsIgnoreMarker(m1, m2, dir, es[0]);
      ErrorsIgnoreMarkerAll(m1, m2, dir, es[1..]);
    }
  }

  /**
    On a well-formed tree, and on any tree without a cutoff, the search walks
    exactly as from any other entry: a linked root makes a difference only
    when it has children, which a well-formed tree rules out.
   */
  lemma SearchIsWalk(marker: Marker, parent: Path, root: Entry)
    requires WellFormed(root) || marker.cutoffTime.None?
    ensures Search(marker, parent, root) == Walk(marker, parent, root)
  {
    if LinkedRoot(root) && !NewerThan(marker, root) {
      assert root.children == [];
    }
  }

  /** On a well-formed tree, whether discovery fails never depends on the cutoff. */
  lemma DiscoveryFailureIgnoresMarker(m1: Marker, m2: Marker, parent: Path, e: Entry)
    requires WellFormed(e)
    ensures Scan(Search(m1, parent, e)).Err? <==> Scan(Search(m2, parent, e)).Err?
  {
    SearchIsWalk(m1, parent, e);
    SearchIsWalk(m2, parent, e);
    ErrorsIgnoreMarker(m1, m2, parent, e);
    ErrorPathsEmpty(Walk(m1, parent, e));
    ErrorPathsEmpty(Walk(m2, parent, e));
  }

  /** Every yielded item lies at or below the entry's own path and its path ends in the entry's name. */
  lemma {:induction false} WalkPaths(marker: Marker, parent: Path, e: Entry)
    ensures forall k :: 0 <= k < |Walk(marker, parent, e)| && Walk(marker, parent, e)[k].Yielded? ==>
              Join(parent, e.name) <= Walk(marker, parent, e)[k].path
              && FileName(Walk(marker, parent, e)[k].path) == Walk(marker, parent, e)[k].entry.name
    decreases e, 1
  {
    var path := Join(parent, e.name);
    if !e.walkError && NewerThan(marker, e) {
      WalkPathsAll(marker, path, e.children);
      var items := Walk(marker, parent, e);
      forall k | 0 <= k < |items| && items[k].Yielded?
        ensures path <= items[k].path && FileName(items[k].path) == items[k].entry.name
      {
        if k > 0 {
          assert items[k] == WalkAll(marker, path, e.children)[k - 1];
        }
      }
    }
  }

  lemma {:induction false} WalkPathsAll(marker: Marker, dir: Path, es: seq<Entry>)
    ensures forall k :: 0 <= k < |WalkAll(marker, dir, es)| && WalkAll(marker, dir, es)[k].Yielded? ==>
              dir < WalkAll(marker, dir, es)[k].path
              && FileName(WalkAll(marker, dir, es)[k].path) == WalkAll(marker, dir, es)[k].entry.name
    decreases es, 0
  {
    if es != [] {
      WalkPaths(marker, dir, es[0]);
      WalkPathsAll(marker, dir, es[1..]);
      var a, b := Walk(marker, dir, es[0]), WalkAll(marker, dir, es[1..]);
      var items: seq<WalkItem> := a + b;
      forall k | 0 <= k < |items| && items[k].Yielded?
        ensures dir < items[k].path && FileName(items[k].path) == items[k].entry.name
      {
        if k < |a| {
          assert items[k] == a[k];
          assert dir < Join(dir, es[0].name) <= items[k].path;
        } else {
          assert items[k] == b[k - |a|];
        }
      }
    }
  }

  /**
    Every discovered file lies at or below the search directory, has as name
    the final component of its path, and comes from an entry whose path is not
    a directory; so neither the root directory nor any subdirectory is ever
    reported.
   */
  lemma DiscoveredFiles(marker: Marker, parent: Path, root: Entry, fi: FileInfo)
    requires fi in Collect(Search(marker, parent, root))
    ensures Join(parent, root.name) <= fi.path && FileName(fi.path) == fi.name
    ensures exists k :: 0 <= k < |Search(marker, parent, root)| && Search(marker, parent, root)[k].Yielded?
                        && Search(marker, parent, root)[k].path == fi.path
                        && !Search(marker, parent, root)[k].entry.pathIsDir
  {
    CollectSound(Search(marker, parent, root), fi);
    WalkPaths(marker, parent, root);
    WalkPathsAll(marker, Join(parent, root.name), root.children);
  }

  /** At every entry of the tree, one that its own metadata calls a directory is a directory when links are followed. */
  ghost predicate MetadataDirsAreDirs(e: Entry)
    decreases e
  {
    && (IsDirByMetadata(e) ==> e.pathIsDir)
    && forall i :: 0 <= i < |e.children| ==> MetadataDirsAreDirs(e.children[i])
  }

  /** Every entry the walk yields satisfies what `MetadataDirsAreDirs` demands of the tree locally. */
  lemma {:induction false} WalkYieldsMetadataDirsAreDirs(marker: Marker, parent: Path, e: Entry)
    requires MetadataDirsAreDirs(e)
    ensures forall k :: 0 <= k < |Walk(marker, parent, e)| && Walk(marker, parent, e)[k].Yielded? ==>
              (IsDirByMetadata(Walk(marker, parent, e)[k].entry) ==> Walk(marker, parent, e)[k].entry.pathIsDir)
    decreases e, 1
  {
    var path := Join(parent, e.name);
    if !e.walkError && NewerThan(marker, e) {
      WalkYieldsMetadataDirsAreDirsAll(marker, path, e.children);
      var items := Walk(marker, parent, e);
      forall k | 0 <= k < |items| && items[k].Yielded?
        ensures IsDirByMetadata(items[k].entry) ==> items[k].entry.pathIsDir
      {
        if k > 0 { assert items[k] == WalkAll(marker, path, e.children)[k - 1]; }
      }
    }
  }

  lemma {:induction false} WalkYieldsMetadataDirsAreDirsAll(marker: Marker, dir: Path, es: seq<Entry>)
    requires forall i :: 0 <= i < |es| ==> MetadataDirsAreDirs(es[i])
    ensures forall k :: 0 <= k < |WalkAll(marker, dir, es)| && WalkAll(marker, dir, es)[k].Yielded? ==>
              (IsDirByMetadata(WalkAll(marker, dir, es)[k].entry) ==> WalkAll(marker, dir, es)[k].entry.pathIsDir)
    decreases es, 0
  {
    if es != [] {
      WalkYieldsMetadataDirsAreDirs(marker, dir, es[0]);
      WalkYieldsMetadataDirsAreDirsAll(marker, dir, es[1..]);
      var a, b := Walk(marker, dir, es[0]), WalkAll(marker, dir, es[1..]);
      var items: seq<WalkItem> := a + b;
      forall k | 0 <= k < |items| && items[k].Yielded?
        ensures IsDirByMetadata(items[k].entry) ==> items[k].entry.pathIsDir
      {
        if k < |a| { assert items[k] == a[k]; } else { assert items[k] == b[k - |a|]; }
      }
    }
  }

  /**
    With cutoff `t`, every discovered file comes from a yielded entry whose
    metadata and modified time are readable and strictly after `t`, provided
    only that entries whose metadata reports a directory are directories.
   */
  lemma CutoffDiscoversOnlyNewer(marker: Marker, parent: Path, root: Entry, t: Time, fi: FileInfo)
    requires MetadataDirsAreDirs(root) && marker.cutoffTime == Some(t)
    requires fi in Collect(Search(marker, parent, root))
    ensures exists k :: 0 <= k < |Search(marker, parent, root)| && Search(marker, parent, root)[k].Yielded?
                        && Search(marker, parent, root)[k].path == fi.path
                        && ModifiedAfter(Search(marker, parent, root)[k].entry, t)
  {
    var items := Search(marker, parent, root);
    CollectSound(items, fi);
    WalkYieldsMetadataDirsAreDirs(marker, parent, root);
    WalkYieldsMetadataDirsAreDirsAll(marker, Join(parent, root.name), root.children);
    var k :| 0 <= k < |items| && items[k].Yielded? && items[k].path == fi.path
             && items[k].entry.name == fi.name && !items[k].entry.pathIsDir;
    assert NewerThan(marker, items[k].entry);
  }

  /**
    The exemption from the filter rests on readable metadata: with a cutoff, a
    directory whose own metadata cannot be read is neither yielded nor
    descended into, so nothing below it is discovered.
   */
  lemma UnreadableDirectoryIsPruned(marker: Marker, parent: Path, e: Entry)
    requires marker.cutoffTime.Some? && e.metadata.None? && !e.walkError
    ensures Walk(marker, parent, e) == []
  {
  }

  /** An empty root directory gives no files and no error. */
  lemma EmptyRootDirectory(marker: Marker, parent: Path, name: string, modified: Option<Time>)
    ensures Scan(Search(marker, parent, Entry(name, Some(Metadata(true, modified)), true, false, []))) == Ok([])
  {
    var root := Entry(name, Some(Metadata(true, modified)), true, false, []);
    assert Walk(marker, parent, root) == [Yielded(Join(parent, name), root)];
  }

  /** A directory holding one file newer and one file older than the cutoff gives exactly the newer one. */
  lemma NewerAndOlderFile(parent: Path)
    ensures
      var newer := Entry("new", Some(Metadata(false, Some(20))), false, false, []);
      var older := Entry("old", Some(Metadata(false, Some(5))), false, false, []);
      var root := Entry("watch", Some(Metadata(true, Some(1))), true, false, [older, newer]);
      Scan(Search(FromTime(10), parent, root)) == Ok([FileInfo(parent + ["watch", "new"], "new")])
  {
    var newer := Entry("new", Some(Metadata(false, Some(20))), false, false, []);
    var older := Entry("old", Some(Metadata(false, Some(5))), false, false, []);
    var root := Entry("watch", Some(Metadata(true, Some(1))), true, false, [older, newer]);
    var dir := Join(parent, "watch");
    assert Walk(FromTime(10), dir, older) == [];
    assert Walk(FromTime(10), dir, newer) == [Yielded(dir + ["new"], newer)];
    assert WalkAll(FromTime(10), dir, [newer]) == [Yielded(dir + ["new"], newer)];
    assert WalkAll(FromTime(10), dir, [older, newer]) == [Yielded(dir + ["new"], newer)];
    var items := Walk(FromTime(10), parent, root);
    assert items == [Yielded(dir, root), Yielded(dir + ["new"], newer)];
    assert Accepted(items[0]) == [] && Accepted(items[1]) == [FileInfo(dir + ["new"], "new")];
    assert items[1..][1..] == [];
    assert Collect(items[1..]) == Accepted(items[1]) + Collect(items[1..][1..]);
    assert Collect(items) == [FileInfo(dir + ["new"], "new")];
    assert dir + ["new"] == parent + ["watch", "new"];
  }

  /**
    A search directory that is a link to a directory keeps being searched once
    the link itself is older than the cutoff: the newer file below it is found.
   */
  lemma LinkedRootStillSearched(parent: Path)
    ensures
      var newer := Entry("new", Some(Metadata(false, Some(20))), false, false, []);
      var root := Entry("watch", Some(Metadata(false, Some(1))), true, false, [newer]);
      Scan(Search(FromTime(10), parent, root)) == Ok([FileInfo(parent + ["watch", "new"], "new")])
  {
    var newer := Entry("new", Some(Metadata(false, Some(20))), false, false, []);
    var root := Entry("watch", Some(Metadata(false, Some(1))), true, false, [newer]);
    var dir := Join(parent, "watch");
    assert !NewerThan(FromTime(10), root);
    assert Walk(FromTime(10), dir, newer) == [Yielded(dir + ["new"], newer)];
    assert WalkAll(FromTime(10), dir, [newer]) == [Yielded(dir + ["new"], newer)];
    var items := Search(FromTime(10), parent, root);
    assert items == [Yielded(dir + ["new"], newer)];
    assert Collect(items) == [FileInfo(dir + ["new"], "new")];
    assert dir + ["new"] == parent + ["watch", "new"];
  }
}
