/**
 * Directory names, their case-insensitive comparison, and the facts the
 * filesystem reports about them.
 */
module Paths {
  import opened Wrappers

  type Path = string

  /** ASCII lower-casing of one character. */
  function LowerChar(c: char): char
  {
    if 'A' <= c <= 'Z' then (c as int + 32) as char else c
  }

  /** The case-folded form of a name; two names are equal up to case when their folds agree. */
  function Fold(s: string): (r: string)
    ensures |r| == |s| && forall i :: 0 <= i < |s| ==> r[i] == LowerChar(s[i])
  {
    seq(|s|, i requires 0 <= i < |s| => LowerChar(s[i]))
  }

  /**
   * The one case-insensitive equivalence used throughout: it stands for both the
   * NOCASE collation of the `parent_dir` columns and Go's strings.EqualFold.
   */
  predicate EqualFold(a: string, b: string)
    ensures EqualFold(a, b) <==> |a| == |b| && forall i :: 0 <= i < |a| ==> LowerChar(a[i]) == LowerChar(b[i])
  {
    Fold(a) == Fold(b)
  }

  /** Folding is idempotent, so a folded name is its own canonical form under NOCASE. */
  lemma FoldIdempotent(s: string)
    ensures Fold(Fold(s)) == Fold(s) && EqualFold(s, Fold(s))
  {
  }

  /**
   * What the filesystem and the process report: the working directory (None when
   * it cannot be determined), the directories that hold a `.user` marker file, and
   * the paths that exist (os.Stat succeeds for a file as well as a directory).
   */
  datatype Env = Env(cwd: Option<Path>, markers: set<Path>, existing: set<Path>)

  predicate IsAbs(p: Path)
  {
    |p| > 0 && p[0] == '/'
  }

  /** Joins a directory and a relative name; an empty name adds nothing. */
  function Join(dir: Path, name: Path): Path
  {
    if name == [] then dir else dir + "/" + name
  }

  /**
   * filepath.Abs: an absolute path is kept, a relative one is joined to the working
   * directory; None is the error returned when the working directory is unknown.
   */
  function Abs(env: Env, p: Path): (r: Option<Path>)
    ensures IsAbs(p) ==> r == Some(p)
    ensures r.None? <==> !IsAbs(p) && env.cwd.None?
    ensures r.Some? && env.cwd.Some? && IsAbs(env.cwd.value) ==> IsAbs(r.value)
  {
    if IsAbs(p) then Some(p)
    else if env.cwd.None? then None
    else Some(Join(env.cwd.value, p))
  }
}
