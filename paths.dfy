/** Filesystem paths as sequences of segment names (`path.join` appends a
    segment), with the pieces of Node's `path` module the mod manager uses. */
module Paths {
  import opened Text

  type Path = seq<string>

  /** `q` lies inside `p` (or is `p`). */
  predicate Under(q: Path, p: Path) {
    |p| <= |q| && q[..|p|] == p
  }

  /** `path.dirname(p)`; the root is its own parent. */
  function Dirname(p: Path): (d: Path)
    ensures |p| > 0 ==> d + [p[|p| - 1]] == p
  {
    if p == [] then [] else p[..|p| - 1]
  }

  /** `path.basename(p)`; empty for the root. */
  function Basename(p: Path): string {
    if p == [] then "" else p[|p| - 1]
  }

  /** A segment that can be written into a path string. */
  predicate Segments(p: Path) {
    forall i :: 0 <= i < |p| ==> '/' !in p[i]
  }

  /** The string form of a path, as stored in a descriptor: every segment
      preceded by the separator. */
  function PathString(p: Path): string {
    Join([""] + p, '/')
  }

  /** The path a stored string names (the inverse of `PathString`). */
  function ParsePath(s: string): Path {
    Split(s, '/')[1..]
  }

  lemma PathStringRoundTrip(p: Path)
    requires Segments(p)
    ensures ParsePath(PathString(p)) == p
  {
    var parts := [""] + p;
    assert forall i :: 0 <= i < |parts| ==> '/' !in parts[i] by {
      forall i | 0 <= i < |parts| ensures '/' !in parts[i] {
        if i > 0 { assert parts[i] == p[i - 1]; }
      }
    }
    SplitJoin(parts, '/');
    assert parts[1..] == p;
  }

  /** Index of the last `.` in `name`, or -1. */
  function LastDot(name: string): (k: int)
    ensures -1 <= k < |name|
    ensures k >= 0 ==> name[k] == '.' && forall j :: k < j < |name| ==> name[j] != '.'
    ensures k == -1 ==> '.' !in name
  {
    if name == [] then -1
    else if name[|name| - 1] == '.' then |name| - 1
    else LastDot(name[..|name| - 1])
  }

  /** `path.extname(name)`: from the last dot on, but empty for a name with no
      dot, a name whose only dot is its first character, and `..`. */
  function Extname(name: string): (ext: string)
    ensures ext == [] || (ext[0] == '.' && EndsWith(name, ext) && |ext| < |name|)
  {
    var k := LastDot(name);
    if k <= 0 || name == ".." then "" else name[k..]
  }

  /** `path.basename(name, suffix)`: the suffix is cut off when the name ends
      with it and is longer than it. */
  function BasenameWithout(name: string, suffix: string): (r: string)
    ensures EndsWith(name, suffix) && |suffix| < |name| ==> r + suffix == name && r != ""
    ensures !EndsWith(name, suffix) || |suffix| >= |name| ==> r == name
  {
    if EndsWith(name, suffix) && |suffix| < |name| then name[..|name| - |suffix|] else name
  }
}
