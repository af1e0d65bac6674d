/**
  The run itself (src/main.rs from the marker load on): load the marker or
  fall back on the default, discover the candidates, copy the first candidate
  of each file name into the output directory, and stamp a new marker only
  after a real run that found candidates and copied all of them.
 */
module Orchestrator {
  import opened Wrappers
  import opened Paths
  import opened Markers
  import opened FileDiscovery

  /** One call of `std::fs::copy`, from `src` to `dst`. */
  datatype CopyOp = CopyOp(src: Path, dst: Path)

  /** Why a run fails. */
  datatype RunError =
    | MarkerFailed(markerError: MarkerError)
    | DiscoverFailed(discoverError: DiscoverError)
    | CopyFailed(op: CopyOp)

  /** `Marker::from_file(..).unwrap_or_default()`: any load failure gives the default marker. */
  function LoadOrDefault(files: map<Path, Content>, p: Path): (m: Marker)
    ensures p !in files ==> m == Default()
    ensures p in files && Decode(files[p]).None? ==> m == Default()
    ensures m.cutoffTime.Some? ==> p in files && files[p] == Encode(m)
    ensures p in files && Decode(files[p]).Some? ==> m == Decode(files[p]).value
  {
    match Loaded(files, p)
    case Ok(m) => m
    case Err(_) => Default()
  }

  /** The file names of a candidate list. */
  function Names(s: seq<FileInfo>): set<string> {
    set i | 0 <= i < |s| :: s[i].name
  }

  lemma NamesAppend(a: seq<FileInfo>, b: seq<FileInfo>)
    ensures Names(a + b) == Names(a) + Names(b)
  {
    var ab := a + b;
    forall n | n in Names(ab) ensures n in Names(a) + Names(b) {
      var i :| 0 <= i < |ab| && ab[i].name == n;
      if i < |a| { assert ab[i] == a[i]; } else { assert ab[i] == b[i - |a|]; }
    }
    forall n | n in Names(a) + Names(b) ensures n in Names(ab) {
      if n in Names(a) {
        var i :| 0 <= i < |a| && a[i].name == n;
        assert ab[i] == a[i];
      } else {
        var i :| 0 <= i < |b| && b[i].name == n;
        assert ab[|a| + i] == b[i];
      }
    }
  }

  /** The candidate at `i` is the first of its name. */
  predicate FirstOfName(s: seq<FileInfo>, i: nat)
    requires i < |s|
  {
    forall j :: 0 <= j < i ==> s[j].name != s[i].name
  }

  /** What survives the `seen.insert` test: each candidate whose name no earlier candidate has. */
  function Dedup(s: seq<FileInfo>): (kept: seq<FileInfo>)
    ensures |kept| <= |s|
    ensures s != [] ==> kept != []
  {
    if s == [] then []
    else
      var init, last := s[..|s| - 1], s[|s| - 1];
      Dedup(init) + (if last.name in Names(init) then [] else [last])
  }

  /** The kept candidates are exactly the first candidate of each name. */
  lemma {:induction false} DedupKeepsFirstOfEachName(s: seq<FileInfo>)
    ensures forall x :: x in Dedup(s) <==> exists i :: 0 <= i < |s| && s[i] == x && FirstOfName(s, i)
  {
    if s != [] {
      var init, last := s[..|s| - 1], s[|s| - 1];
      DedupKeepsFirstOfEachName(init);
      assert forall i :: 0 <= i < |init| ==> s[i] == init[i];
      assert forall i :: 0 <= i < |init| ==> (FirstOfName(s, i) <==> FirstOfName(init, i));
      assert FirstOfName(s, |s| - 1) <==> last.name !in Names(init);
      forall x ensures x in Dedup(s) <==> exists i :: 0 <= i < |s| && s[i] == x && FirstOfName(s, i) {
        if x in Dedup(s) {
          if x in Dedup(init) {
            var i :| 0 <= i < |init| && init[i] == x && FirstOfName(init, i);
            assert s[i] == x && FirstOfName(s, i);
          } else {
            assert x == last && FirstOfName(s, |s| - 1);
          }
        }
        if exists i :: 0 <= i < |s| && s[i] == x && FirstOfName(s, i) {
          var i :| 0 <= i < |s| && s[i] == x && FirstOfName(s, i);
          if i < |init| {
            assert init[i] == x && FirstOfName(init, i);
          }
        }
      }
    }
  }

  /** Every name of the candidates is kept once, and no two kept candidates share a name. */
  lemma {:induction false} DedupNames(s: seq<FileInfo>)
    ensures Names(Dedup(s)) == Names(s)
    ensures forall i, j :: 0 <= i < j < |Dedup(s)| ==> Dedup(s)[i].name != Dedup(s)[j].name
  {
    if s != [] {
      var init, last := s[..|s| - 1], s[|s| - 1];
      DedupNames(init);
      assert s == init + [last];
      NamesAppend(init, [last]);
      var tail := if last.name in Names(init) then [] else [last];
      NamesAppend(Dedup(init), tail);
      assert Names([last]) == {last.name};
      var d := Dedup(s);
      assert d == Dedup(init) + tail;
      forall i, j | 0 <= i < j < |d| ensures d[i].name != d[j].name {
        if j >= |Dedup(init)| {
          assert d[j] == last && d[i] == Dedup(init)[i];
          assert d[i].name in Names(Dedup(init));
        } else {
          assert d[i] == Dedup(init)[i] && d[j] == Dedup(init)[j];
        }
      }
    }
  }

  /** `op` copies some candidate of `s` under that candidate's own name. */
  ghost predicate CopiesCandidate(s: seq<FileInfo>, op: CopyOp) {
    op.dst != [] && exists i :: 0 <= i < |s| && s[i].path == op.src && s[i].name == FileName(op.dst)
  }

  /** The copy from each kept candidate's path to the output directory joined with its name. */
  function Plan(s: seq<FileInfo>, outputDir: Path): (ops: seq<CopyOp>)
    ensures |ops| <= |s|
    ensures forall k :: 0 <= k < |ops| ==>
              outputDir < ops[k].dst && CopiesCandidate(s, ops[k])
  {
    DedupKeepsFirstOfEachName(s);
    var kept := Dedup(s);
    assert forall k :: 0 <= k < |kept| ==> kept[k] in kept;
    seq(|kept|, k requires 0 <= k < |kept| => CopyOp(kept[k].path, Join(outputDir, kept[k].name)))
  }

  /** The planned copies, in candidate order, target pairwise distinct destinations. */
  lemma PlanTargetsDistinct(s: seq<FileInfo>, outputDir: Path)
    ensures forall i, j :: 0 <= i < j < |Plan(s, outputDir)| ==> Plan(s, outputDir)[i].dst != Plan(s, outputDir)[j].dst
  {
    DedupNames(s);
    var ops := Plan(s, outputDir);
    forall i, j | 0 <= i < j < |ops| ensures ops[i].dst != ops[j].dst {
      assert FileName(ops[i].dst) == Dedup(s)[i].name;
      assert FileName(ops[j].dst) == Dedup(s)[j].name;
    }
  }

  /** `op` copies the first candidate of some name to the output directory joined with that name. */
  ghost predicate CopiesFirstOfName(s: seq<FileInfo>, outputDir: Path, op: CopyOp) {
    exists i :: 0 <= i < |s| && FirstOfName(s, i) && op == CopyOp(s[i].path, Join(outputDir, s[i].name))
  }

  /** Each planned copy takes the first candidate of its name, to the output directory joined with that name. */
  lemma PlanCopiesFirstOfEachName(s: seq<FileInfo>, outputDir: Path)
    ensures forall k :: 0 <= k < |Plan(s, outputDir)| ==> CopiesFirstOfName(s, outputDir, Plan(s, outputDir)[k])
  {
    DedupKeepsFirstOfEachName(s);
    var kept, ops := Dedup(s), Plan(s, outputDir);
    forall k | 0 <= k < |ops| ensures CopiesFirstOfName(s, outputDir, ops[k]) {
      assert kept[k] in kept;
      var i :| 0 <= i < |s| && s[i] == kept[k] && FirstOfName(s, i);
      assert ops[k] == CopyOp(s[i].path, Join(outputDir, s[i].name));
    }
  }

  /** Conversely, the first candidate of each name is copied: exactly those candidates are acted on. */
  lemma PlanCoversFirstOfEachName(s: seq<FileInfo>, outputDir: Path, i: nat)
    requires i < |s| && FirstOfName(s, i)
    ensures CopyOp(s[i].path, Join(outputDir, s[i].name)) in Plan(s, outputDir)
  {
    DedupKeepsFirstOfEachName(s);
    var kept := Dedup(s);
    assert s[i] in kept;
    var k :| 0 <= k < |kept| && kept[k] == s[i];
    assert Plan(s, outputDir)[k] == CopyOp(s[i].path, Join(outputDir, s[i].name));
  }

  /** The names seen grow by the name of candidate `i`. */
  lemma NamesStep(s: seq<FileInfo>, i: nat)
    requires i < |s|
    ensures Names(s[..i + 1]) == Names(s[..i]) + {s[i].name}
  {
    assert s[..i + 1] == s[..i] + [s[i]];
    NamesAppend(s[..i], [s[i]]);
    assert Names([s[i]]) == {s[i].name};
  }

  /** The plan grows by at most the copy for candidate `i` when the loop takes it. */
  lemma PlanStep(s: seq<FileInfo>, i: nat, outputDir: Path)
    requires i < |s|
    ensures Plan(s[..i + 1], outputDir) ==
              Plan(s[..i], outputDir)
              + (if s[i].name in Names(s[..i]) then [] else [CopyOp(s[i].path, Join(outputDir, s[i].name))])
  {
    assert s[..i + 1][..i] == s[..i];
    assert s[..i + 1][i] == s[i];
  }

  /** Copies planned for a prefix of the candidates are a prefix of the whole plan. */
  lemma {:induction false} PlanPrefix(s: seq<FileInfo>, i: nat, outputDir: Path)
    requires i <= |s|
    ensures Plan(s[..i], outputDir) <= Plan(s, outputDir)
    decreases |s| - i
  {
    if i < |s| {
      PlanStep(s, i, outputDir);
      PlanPrefix(s, i + 1, outputDir);
    } else {
      assert s[..i] == s;
    }
  }

  predicate AllSucceed(ops: seq<CopyOp>, copyOk: CopyOp -> bool) {
    forall k :: 0 <= k < |ops| ==> copyOk(ops[k])
  }

  lemma AllSucceedCons(ops: seq<CopyOp>, copyOk: CopyOp -> bool)
    requires ops != []
    ensures AllSucceed(ops, copyOk) <==> copyOk(ops[0]) && AllSucceed(ops[1..], copyOk)
  {
    assert forall k :: 0 < k < |ops| ==> ops[k] == ops[1..][k - 1];
  }

  lemma ConsLast(op: CopyOp, rest: seq<CopyOp>)
    ensures rest != [] ==> ([op] + rest)[..|rest|] == [op] + rest[..|rest| - 1]
    ensures rest != [] ==> ([op] + rest)[|rest|] == rest[|rest| - 1]
  {
  }

  /** The copies attempted when the first failing one stops the run. */
  function UntilFailure(ops: seq<CopyOp>, copyOk: CopyOp -> bool): (r: seq<CopyOp>)
    ensures r <= ops
    ensures AllSucceed(ops, copyOk) ==> r == ops
    ensures !AllSucceed(ops, copyOk) ==>
              r != [] && !copyOk(r[|r| - 1]) && AllSucceed(r[..|r| - 1], copyOk)
  {
    if ops == [] then []
    else if !copyOk(ops[0]) then [ops[0]]
    else
      var rest := UntilFailure(ops[1..], copyOk);
      AllSucceedCons(ops, copyOk);
      ConsLast(ops[0], rest);
      [ops[0]] + rest
  }

  /** Where the first failure sits decides the attempted copies. */
  lemma {:induction false} UntilFailureStops(done: seq<CopyOp>, op: CopyOp, rest: seq<CopyOp>, copyOk: CopyOp -> bool)
    requires AllSucceed(done, copyOk) && !copyOk(op)
    ensures UntilFailure(done + [op] + rest, copyOk) == done + [op]
  {
    if done == [] {
      assert done + [op] + rest == [op] + rest;
      UntilFailureHead(op, rest, copyOk);
    } else {
      assert done + [op] + rest == [done[0]] + (done[1..] + [op] + rest);
      AllSucceedCons(done, copyOk);
      UntilFailureHead(done[0], done[1..] + [op] + rest, copyOk);
      UntilFailureStops(done[1..], op, rest, copyOk);
      assert [done[0]] + (done[1..] + [op]) == done + [op];
    }
  }

  /** One step of `UntilFailure`: a failing first copy is the last attempted, a succeeding one is followed by the rest's attempts. */
  lemma UntilFailureHead(op: CopyOp, rest: seq<CopyOp>, copyOk: CopyOp -> bool)
    ensures !copyOk(op) ==> UntilFailure([op] + rest, copyOk) == [op]
    ensures copyOk(op) ==> UntilFailure([op] + rest, copyOk) == [op] + UntilFailure(rest, copyOk)
  {
    assert ([op] + rest)[0] == op && ([op] + rest)[1..] == rest;
  }

  /** A failing copy, after the successful copies planned for the candidates before it, ends the plan's attempts. */
  lemma FailedCopyEndsPlan(s: seq<FileInfo>, i: nat, outputDir: Path, done: seq<CopyOp>, op: CopyOp,
                           copyOk: CopyOp -> bool)
    requires i <= |s| && Plan(s[..i], outputDir) == done + [op]
    requires AllSucceed(done, copyOk) && !copyOk(op)
    ensures UntilFailure(Plan(s, outputDir), copyOk) == done + [op]
    ensures !AllSucceed(Plan(s, outputDir), copyOk)
  {
    PlanPrefix(s, i, outputDir);
    var plan := Plan(s, outputDir);
    assert plan == done + [op] + plan[|done| + 1..];
    UntilFailureStops(done, op, plan[|done| + 1..], copyOk);
    assert plan[|done|] == op;
  }

  /**
    The `for` loop of `main` over the candidates: the `seen` set lets only the
    first candidate of each name through; outside a dry run each one is copied,
    and the first failing copy ends the loop. `attempts` lists the copy calls
    made, in order; `failed` is the one that failed, if any.
   */
  method CopyCandidates(candidates: seq<FileInfo>, outputDir: Path, dryRun: bool, copyOk: CopyOp -> bool)
    returns (failed: Option<CopyOp>, attempts: seq<CopyOp>)
    ensures dryRun ==> attempts == [] && failed == None
    ensures !dryRun ==> attempts == UntilFailure(Plan(candidates, outputDir), copyOk)
    ensures failed.Some? <==> !dryRun && !AllSucceed(Plan(candidates, outputDir), copyOk)
    ensures failed.Some? ==> attempts != [] && failed.value == attempts[|attempts| - 1]
  {
    attempts := [];
    var seen: set<string> := {};
    for i := 0 to |candidates|
      invariant seen == Names(candidates[..i])
      invariant dryRun ==> attempts == []
      invariant !dryRun ==> attempts == Plan(candidates[..i], outputDir) && AllSucceed(attempts, copyOk)
    {
      var candidate := candidates[i];
      NamesStep(candidates, i);
      PlanStep(candidates, i, outputDir);
      var inserted := candidate.name !in seen;
      seen := seen + {candidate.name};
      if inserted {
        var op := CopyOp(candidate.path, Join(outputDir, candidate.name));
        if !dryRun {
          var done := attempts;
          attempts := attempts + [op];
          if !copyOk(op) {
            FailedCopyEndsPlan(candidates, i + 1, outputDir, done, op, copyOk);
            return Some(op), attempts;
          }
        }
      }
    }
    assert candidates[..|candidates|] == candidates;
    failed := None;
  }

  /**
    `main` after argument parsing. The marker lives at `markerPath`, the
    watched tree is `watchRoot` found at `watchParent + [watchRoot.name]`,
    `copyOk` says which copies succeed and `now` is the clock's reading.
    `attempts` lists the copy calls made, in order.
   */
  method Run(store: Store, markerPath: Path, watchParent: Path, watchRoot: Entry, outputDir: Path,
             dryRun: bool, copyOk: CopyOp -> bool, now: Time, faults: WriteFaults)
    returns (r: Result<(), RunError>, attempts: seq<CopyOp>)
    modifies store
    ensures store.creatable == old(store.creatable)
    ensures var found := Scan(Search(LoadOrDefault(old(store.files), markerPath), watchParent, watchRoot));
      && (found.Err? ==>
            r == Err(DiscoverFailed(found.error)) && attempts == [] && store.files == old(store.files))
      && (found.Ok? && (found.value == [] || dryRun) ==>
            r == Ok(()) && attempts == [] && store.files == old(store.files))
      && (found.Ok? && !dryRun ==>
            attempts == UntilFailure(Plan(found.value, outputDir), copyOk))
      && (found.Ok? && !dryRun && !AllSucceed(Plan(found.value, outputDir), copyOk) ==>
            r == Err(CopyFailed(attempts[|attempts| - 1])) && store.files == old(store.files))
      && (found.Ok? && found.value != [] && !dryRun && AllSucceed(Plan(found.value, outputDir), copyOk) ==>
            var saving := Saved(old(store.files), old(store.creatable), markerPath, FromTime(now), faults);
            store.files == saving.files
            && r == if saving.result.Ok? then Ok(()) else Err(MarkerFailed(saving.result.error)))
  {
    var loaded := FromFile(store, markerPath);
    var marker := if loaded.Ok? then loaded.value else Default();
    var discovered := Discover(marker, watchParent, watchRoot);
    attempts := [];
    if discovered.Err? {
      return Err(DiscoverFailed(discovered.error)), attempts;
    }
    var candidates := discovered.value;
    if candidates != [] {
      var failed;
      failed, attempts := CopyCandidates(candidates, outputDir, dryRun, copyOk);
      if failed.Some? {
        return Err(CopyFailed(failed.value)), attempts;
      }
      if !dryRun {
        var written := WriteToFile(FromTime(now), store, markerPath, faults);
        if written.Err? {
          return Err(MarkerFailed(written.error)), attempts;
        }
      }
    }
    r := Ok(());
  }
}
