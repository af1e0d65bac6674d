/**
  Filesystem paths as sequences of components, and the orders Rust derives for
  strings and paths: strings compare character by character, paths compare
  component by component, and a proper prefix comes before any extension of it.
 */
module Paths {

  /** A path, as the list of its components. */
  type Path = seq<string>

  /** The result of a three-way comparison. */
  datatype Ordering = Less | Equal | Greater {
    function Reverse(): Ordering {
      match this
      case Less => Greater
      case Equal => Equal
      case Greater => Less
    }
  }

  /** `dir.join(name)` for a single component `name`. */
  function Join(dir: Path, name: string): Path {
    dir + [name]
  }

  /** The final component of a non-empty path. */
  function FileName(p: Path): string
    requires p != []
  {
    p[|p| - 1]
  }

  /** Lexicographic order on strings. */
  function CompareStrings(a: string, b: string): Ordering {
    if a == [] then (if b == [] then Equal else Less)
    else if b == [] then Greater
    else if a[0] < b[0] then Less
    else if b[0] < a[0] then Greater
    else CompareStrings(a[1..], b[1..])
  }

  lemma {:induction false} CompareStringsEqual(a: string, b: string)
    ensures CompareStrings(a, b) == Equal <==> a == b
  {
    if a != [] && b != [] && a[0] == b[0] {
      CompareStringsEqual(a[1..], b[1..]);
      assert a == [a[0]] + a[1..] && b == [b[0]] + b[1..];
    }
  }

  lemma {:induction false} CompareStringsReverse(a: string, b: string)
    ensures CompareStrings(b, a) == CompareStrings(a, b).Reverse()
  {
    if a != [] && b != [] && a[0] == b[0] {
      CompareStringsReverse(a[1..], b[1..]);
    }
  }

  lemma {:induction false} CompareStringsTransitive(a: string, b: string, c: string)
    requires CompareStrings(a, b) == Less && CompareStrings(b, c) == Less
    ensures CompareStrings(a, c) == Less
  {
    if a != [] && b != [] && c != [] && a[0] == b[0] && b[0] == c[0] {
      CompareStringsTransitive(a[1..], b[1..], c[1..]);
    }
  }

  /** Rust's derived order on paths: component-wise, each component as a string. */
  function ComparePaths(a: Path, b: Path): Ordering {
    if a == [] then (if b == [] then Equal else Less)
    else if b == [] then Greater
    else match CompareStrings(a[0], b[0])
      case Equal => ComparePaths(a[1..], b[1..])
      case other => other
  }

  lemma {:induction false} ComparePathsEqual(a: Path, b: Path)
    ensures ComparePaths(a, b) == Equal <==> a == b
  {
    if a != [] && b != [] {
      CompareStringsEqual(a[0], b[0]);
      if a[0] == b[0] {
        ComparePathsEqual(a[1..], b[1..]);
        assert a == [a[0]] + a[1..] && b == [b[0]] + b[1..];
      }
    }
  }

  lemma {:induction false} ComparePathsReverse(a: Path, b: Path)
    ensures ComparePaths(b, a) == ComparePaths(a, b).Reverse()
  {
    if a != [] && b != [] {
      CompareStringsReverse(a[0], b[0]);
      if CompareStrings(a[0], b[0]) == Equal {
        ComparePathsReverse(a[1..], b[1..]);
      }
    }
  }

  lemma {:induction false} ComparePathsTransitive(a: Path, b: Path, c: Path)
    requires ComparePaths(a, b) == Less && ComparePaths(b, c) == Less
    ensures ComparePaths(a, c) == Less
  {
    if a != [] && b != [] && c != [] {
      CompareStringsEqual(a[0], b[0]);
      CompareStringsEqual(b[0], c[0]);
      CompareStringsEqual(a[0], c[0]);
      if a[0] == b[0] && b[0] == c[0] {
        ComparePathsTransitive(a[1..], b[1..], c[1..]);
      } else if a[0] == b[0] {
      } else if b[0] == c[0] {
      } else {
        CompareStringsTransitive(a[0], b[0], c[0]);
      }
    }
  }
}
