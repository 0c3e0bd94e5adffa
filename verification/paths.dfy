/**
 * POSIX path helpers used by the scanner window: `str.rfind`, `os.path.basename`
 * and the two-argument `os.path.join`, all with `/` as the separator.
 */
module Paths {

  type Path = string

  /** The fixed directory the corrector writes its output into. */
  const OutputDir: Path := "output"

  /** Index of the last occurrence of `c` in `s`, or -1 when there is none. */
  function RFind(s: string, c: char): (i: int)
    ensures -1 <= i < |s|
    ensures i >= 0 ==> s[i] == c
    ensures forall j :: i < j < |s| ==> s[j] != c
    decreases |s|
  {
    if |s| == 0 then -1
    else if s[|s| - 1] == c then |s| - 1
    else RFind(s[..|s| - 1], c)
  }

  /** The last path component: everything after the last `/`. */
  function Basename(p: Path): (r: string)
    ensures '/' !in r
    ensures |r| <= |p| && p[|p| - |r|..] == r
    ensures |r| == |p| || p[|p| - |r| - 1] == '/'
  {
    p[RFind(p, '/') + 1..]
  }

  /** A name that is already free of separators is its own basename. */
  lemma BasenameOfName(name: string)
    requires '/' !in name
    ensures Basename(name) == name
  {
  }

  /** Taking the basename twice is the same as taking it once. */
  lemma BasenameIdempotent(p: Path)
    ensures Basename(Basename(p)) == Basename(p)
  {
  }

  /**
   * The basename of `dir + name` is `name` whenever `name` has no separator and
   * `dir` is empty or ends in one: the directory never leaks into the basename.
   */
  lemma BasenameUnderDirectory(dir: Path, name: string)
    requires '/' !in name
    requires dir == [] || dir[|dir| - 1] == '/'
    ensures Basename(dir + name) == name
  {
    var p := dir + name;
    var i := RFind(p, '/');
    if |dir| > 0 {
      assert p[|dir| - 1] == '/';
      assert i >= |dir| - 1;
    }
    if i >= |dir| {
      assert false;
    }
    assert i == |dir| - 1;
    assert p[i + 1..] == name;
  }

  /** Two documents with the same file name in different directories share a basename. */
  lemma BasenameIgnoresDirectory(dir1: Path, dir2: Path, name: string)
    requires '/' !in name
    ensures Basename(dir1 + "/" + name) == Basename(dir2 + "/" + name) == name
  {
    BasenameUnderDirectory(dir1 + "/", name);
    BasenameUnderDirectory(dir2 + "/", name);
    assert dir1 + "/" + name == (dir1 + "/") + name;
    assert dir2 + "/" + name == (dir2 + "/") + name;
  }

  /**
   * Two-argument `os.path.join`: an absolute second component replaces the
   * first; otherwise a separator is inserted unless the first is empty or
   * already ends in one.
   */
  function PathJoin(a: Path, b: Path): (r: Path)
    ensures '/' !in b ==> Basename(r) == b
  {
    if |b| > 0 && b[0] == '/' then b
    else if a == [] || a[|a| - 1] == '/' then
      NameUnderDirectory(a, b);
      a + b
    else
      NameUnderDirectory(a + "/", b);
      assert a + "/" + b == (a + "/") + b;
      a + "/" + b
  }

  /** `BasenameUnderDirectory` for callers that cannot discharge its precondition up front. */
  lemma NameUnderDirectory(dir: Path, name: string)
    ensures '/' !in name && (dir == [] || dir[|dir| - 1] == '/') ==> Basename(dir + name) == name
  {
    if '/' !in name && (dir == [] || dir[|dir| - 1] == '/') {
      BasenameUnderDirectory(dir, name);
    }
  }

  /** A path the corrector could have written: `output/` followed by a bare file name. */
  predicate IsOutputPath(p: Path)
  {
    |p| > |OutputDir| && p[..|OutputDir| + 1] == OutputDir + "/" && '/' !in p[|OutputDir| + 1..]
  }

  /** Where the corrected image of a document named `name` lands. */
  lemma OutputPathOf(name: string)
    requires '/' !in name
    ensures PathJoin(OutputDir, name) == OutputDir + "/" + name
    ensures IsOutputPath(PathJoin(OutputDir, name))
    ensures Basename(PathJoin(OutputDir, name)) == name
  {
  }
}
