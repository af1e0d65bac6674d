/**
  The persisted cutoff of the last successful run (src/marker.rs): the marker
  value with its derived default and order, its serialized form, and loading
  it from and saving it to a store of files.
 */
module Markers {
  import opened Wrappers
  import opened Paths

  /** An instant, as a count on a single time axis. */
  type Time = int

  /** The ways loading or saving a marker can fail. */
  datatype MarkerError = FileOpen | FileCreate | InvalidFormat | Serialization | Write

  /** The cutoff of the last successful run; `None` means "accept everything". */
  datatype Marker = Marker(cutoffTime: Option<Time>)

  /** The derived `Default`: no cutoff. It is the least marker. */
  function Default(): (m: Marker)
    ensures m.cutoffTime == None
    ensures forall other: Marker :: CompareMarkers(m, other) != Greater
  {
    Marker(None)
  }

  /** `Marker::from(t)`: a cutoff at `t`, strictly above the default. */
  function FromTime(t: Time): (m: Marker)
    ensures m.cutoffTime == Some(t)
    ensures CompareMarkers(Default(), m) == Less
  {
    Marker(Some(t))
  }

  /** The derived order on instants. */
  function CompareTimes(a: Time, b: Time): Ordering {
    if a < b then Less else if b < a then Greater else Equal
  }

  /** The derived order on `Marker`: its one field, an `Option`, where `None` comes first. */
  function CompareMarkers(a: Marker, b: Marker): (r: Ordering)
    ensures r == Equal <==> a == b
    ensures r == Less <==>
              (a.cutoffTime.None? && b.cutoffTime.Some?)
              || (a.cutoffTime.Some? && b.cutoffTime.Some? && a.cutoffTime.value < b.cutoffTime.value)
  {
    match (a.cutoffTime, b.cutoffTime)
    case (None, None) => Equal
    case (None, Some(_)) => Less
    case (Some(_), None) => Greater
    case (Some(x), Some(y)) => CompareTimes(x, y)
  }

  /** The derived order agrees with the derived equality, and is antisymmetric and transitive. */
  lemma MarkerOrderIsTotal(a: Marker, b: Marker, c: Marker)
    ensures CompareMarkers(a, b) == Equal <==> a == b
    ensures CompareMarkers(b, a) == CompareMarkers(a, b).Reverse()
    ensures CompareMarkers(a, b) == Less && CompareMarkers(b, c) == Less ==> CompareMarkers(a, c) == Less
  {
  }

  /** The content of a file: an abstract sequence of tokens. */
  type Content = seq<int>

  /** The JSON document `{"cutoff_time": ...}` for a marker, abstracted to tokens. */
  function Encode(m: Marker): (c: Content)
    ensures Decode(c) == Some(m)
  {
    match m.cutoffTime
    case None => [0]
    case Some(t) => [1, t]
  }

  /** Parsing a marker document; anything that is not an encoding fails. */
  function Decode(c: Content): (r: Option<Marker>)
    ensures c == [] ==> r.None?
    ensures r.Some? ==> 0 < |c| <= 2 && (c[0] == 0 <==> r.value.cutoffTime.None?)
    ensures r.Some? && r.value.cutoffTime.Some? ==> c[|c| - 1] == r.value.cutoffTime.value
  {
    if c == [0] then Some(Marker(None))
    else if |c| == 2 && c[0] == 1 then Some(Marker(Some(c[1])))
    else None
  }

  lemma DecodeEncode(m: Marker)
    ensures Decode(Encode(m)) == Some(m)
  {
  }

  /** `Decode` accepts nothing but encodings. */
  lemma DecodeOnlyEncodings(c: Content)
    ensures Decode(c).Some? ==> c == Encode(Decode(c).value)
  {
  }

  /** An empty file, or any proper prefix of an encoding, does not parse. */
  lemma TruncatedEncodingInvalid(m: Marker, k: nat)
    requires k < |Encode(m)|
    ensures Decode(Encode(m)[..k]) == None
  {
    var c := Encode(m)[..k];
    assert |c| == k && k < 2;
    if k == 1 {
      assert c == [Encode(m)[0]];
      assert m.cutoffTime.Some? && c == [1];
    }
  }

  /**
    The part of the filesystem the marker lives in: the files that can be
    opened for reading, with their content, and the paths at which a file can
    be created (the parent exists and is writable).
   */
  class Store {
    var files: map<Path, Content>
    var creatable: set<Path>

    constructor (files: map<Path, Content>, creatable: set<Path>)
      ensures this.files == files && this.creatable == creatable
    {
      this.files := files;
      this.creatable := creatable;
    }
  }

  /** What `from_file(p)` returns when the openable files are `files`. */
  function Loaded(files: map<Path, Content>, p: Path): (r: Result<Marker, MarkerError>)
    ensures r == Err(FileOpen) <==> p !in files
    ensures r == Err(InvalidFormat) <==> p in files && Decode(files[p]).None?
    ensures r.Ok? ==> p in files && files[p] == Encode(r.value)
    ensures r.Err? ==> r.error in {FileOpen, InvalidFormat}
  {
    if p !in files then Err(FileOpen)
    else match Decode(files[p])
      case None => Err(InvalidFormat)
      case Some(m) =>
        DecodeOnlyEncodings(files[p]);
        Ok(m)
  }

  /** The environment's answer to the two fallible steps after creating the file. */
  datatype WriteFaults = WriteFaults(
    serializeFails: bool,        // serde_json::to_string fails
    writeCapacity: Option<nat>   // the device accepts only this many tokens; None: unlimited
  )

  /** The files afterwards, and the outcome, of one `write_to_file`. */
  datatype Saving = Saving(files: map<Path, Content>, result: Result<(), MarkerError>)

  /** What `write_to_file(p)` does: create (truncate) `p`, serialize, then write everything. */
  function Saved(files: map<Path, Content>, creatable: set<Path>, p: Path, m: Marker, faults: WriteFaults): (s: Saving)
    ensures s.result == Err(FileCreate) <==> p !in creatable
    ensures p !in creatable ==> s.files == files
    ensures p in creatable ==> s.files.Keys == files.Keys + {p}
    ensures forall q :: q in files && q != p ==> q in s.files && s.files[q] == files[q]
    ensures s.result.Ok? <==>
              p in creatable && !faults.serializeFails
              && (faults.writeCapacity.None? || |Encode(m)| <= faults.writeCapacity.value)
    ensures s.result.Ok? ==> s.files[p] == Encode(m)
    ensures s.result == Err(Serialization) <==> p in creatable && faults.serializeFails
    ensures s.result == Err(Serialization) ==> s.files[p] == []
    ensures s.result == Err(Write) <==>
              p in creatable && !faults.serializeFails
              && faults.writeCapacity.Some? && faults.writeCapacity.value < |Encode(m)|
    ensures s.result.Err? ==> s.result.error in {FileCreate, Serialization, Write}
    ensures s.result.Err? && p in creatable ==>
              |s.files[p]| < |Encode(m)| && s.files[p] == Encode(m)[..|s.files[p]|]
  {
    if p !in creatable then Saving(files, Err(FileCreate))
    else
      var truncated := files[p := []];
      if faults.serializeFails then Saving(truncated, Err(Serialization))
      else
        var text := Encode(m);
        match faults.writeCapacity
        case Some(k) =>
          if k < |text| then Saving(files[p := text[..k]], Err(Write))
          else Saving(files[p := text], Ok(()))
        case None => Saving(files[p := text], Ok(()))
  }

  /** Round trip: a successful save followed by a load gives back the saved marker. */
  lemma SaveThenLoad(files: map<Path, Content>, creatable: set<Path>, p: Path, m: Marker, faults: WriteFaults)
    requires Saved(files, creatable, p, m, faults).result.Ok?
    ensures Loaded(Saved(files, creatable, p, m, faults).files, p) == Ok(m)
  {
    DecodeEncode(m);
  }

  /**
    A save that fails after creating the file leaves `p` holding something
    that no longer parses, so the next load falls back on the default.
   */
  lemma FailedSaveLeavesInvalid(files: map<Path, Content>, creatable: set<Path>, p: Path, m: Marker, faults: WriteFaults)
    requires p in creatable && Saved(files, creatable, p, m, faults).result.Err?
    ensures Loaded(Saved(files, creatable, p, m, faults).files, p) == Err(InvalidFormat)
  {
    var s := Saved(files, creatable, p, m, faults);
    TruncatedEncodingInvalid(m, |s.files[p]|);
  }

  /** `Marker::from_file`: open `p`, then parse its content. */
  method FromFile(store: Store, p: Path) returns (r: Result<Marker, MarkerError>)
    ensures r == Loaded(store.files, p)
  {
    if p !in store.files {
      return Err(FileOpen);
    }
    var content := store.files[p];
    var parsed := Decode(content);
    match parsed
    case None => r := Err(InvalidFormat);
    case Some(m) => r := Ok(m);
  }

  /** `Marker::write_to_file`: create or truncate `p`, serialize `m`, write it out. */
  method WriteToFile(m: Marker, store: Store, p: Path, faults: WriteFaults) returns (r: Result<(), MarkerError>)
    modifies store
    ensures store.creatable == old(store.creatable)
    ensures store.files == Saved(old(store.files), old(store.creatable), p, m, faults).files
    ensures r == Saved(old(store.files), old(store.creatable), p, m, faults).result
  {
    if p !in store.creatable {
      return Err(FileCreate);
    }
    store.files := store.files[p := []];
    if faults.serializeFails {
      return Err(Serialization);
    }
    var text := Encode(m);
    if faults.writeCapacity.Some? && faults.writeCapacity.value < |text| {
      store.files := store.files[p := text[..faults.writeCapacity.value]];
      return Err(Write);
    }
    store.files := store.files[p := text];
    r := Ok(());
  }

  /** `TryFrom<&Path>`: the same as `from_file`. */
  method TryFromPath(store: Store, p: Path) returns (r: Result<Marker, MarkerError>)
    ensures r == Loaded(store.files, p)
  {
    r := FromFile(store, p);
  }

  /** `TryFrom<PathBuf>`: the same as `from_file`. */
  method TryFromPathBuf(store: Store, p: Path) returns (r: Result<Marker, MarkerError>)
    ensures r == Loaded(store.files, p)
  {
    r := FromFile(store, p);
  }
}
