/**
 * The parts of Node's `path` module the core uses, for POSIX paths with `/`
 * as the separator and without normalisation of `.` or `..` segments.
 */
module Paths {

  /** `base` as a directory prefix ending in the separator: the root `/` stays as it is. */
  function DirPrefix(base: string): (d: string)
    ensures |d| >= 1 && d[|d| - 1] == '/'
    ensures d[..|d| - 1] == base || d == base
  {
    if base != [] && base[|base| - 1] == '/' then base else base + "/"
  }

  /** `path.join(base, p)` where neither side needs normalising. */
  function JoinPath(base: string, p: string): string {
    DirPrefix(base) + p
  }

  /** `file` lies below the directory `base`. */
  predicate Below(base: string, file: string) {
    |DirPrefix(base)| <= |file| && file[..|DirPrefix(base)|] == DirPrefix(base)
  }

  /** `path.relative(base, file)` for `file` equal to `base` or below it; other paths are kept as given. */
  function Relative(base: string, file: string): string {
    if file == base then ""
    else if Below(base, file) then file[|DirPrefix(base)|..]
    else file
  }

  /** Relative undoes JoinPath. */
  lemma RelativeOfJoin(base: string, r: string)
    ensures Relative(base, JoinPath(base, r)) == r
  {
  }

  /** JoinPath undoes Relative for a file below the base. */
  lemma JoinOfRelative(base: string, file: string)
    requires Below(base, file)
    ensures JoinPath(base, Relative(base, file)) == file
  {
  }

  /** Below the root every absolute path is relative to it without its leading separator. */
  lemma RelativeToRoot(file: string)
    requires |file| > 1 && file[0] == '/'
    ensures Relative("/", file) == file[1..]
  {
  }

  /** Index of the last `c` in `s`, or -1 when there is none. */
  function LastIndexOfChar(s: string, c: char): (i: int)
    ensures -1 <= i < |s|
    ensures i >= 0 ==> s[i] == c
    ensures forall j :: i < j < |s| ==> s[j] != c
  {
    if s == [] then -1
    else if s[|s| - 1] == c then |s| - 1
    else LastIndexOfChar(s[..|s| - 1], c)
  }

  /** `path.basename(p)`: what follows the last separator. */
  function Basename(p: string): string {
    p[LastIndexOfChar(p, '/') + 1..]
  }

  /**
   * `path.extname(p)`: the basename's suffix from its last dot, or "" when
   * the basename has no dot or only a leading one.
   */
  function Extname(p: string): (e: string)
    ensures e == "" || (e[0] == '.' && '.' !in e[1..] && '/' !in e)
  {
    var b := Basename(p);
    var i := LastIndexOfChar(b, '.');
    if i <= 0 then "" else b[i..]
  }

  /** A basename that does not start with its last dot has that dot's suffix as extension. */
  lemma ExtnameOfDottedName(p: string, stem: string, ext: string)
    requires stem != "" && '.' !in ext
    requires Basename(p) == stem + "." + ext
    ensures Extname(p) == "." + ext
  {
    var b := stem + "." + ext;
    assert b[|stem|] == '.';
    assert forall j :: |stem| < j < |b| ==> b[j] == ext[j - |stem| - 1];
    assert b[|stem|..] == "." + ext;
  }

  /** A basename without any dot has no extension. */
  lemma ExtnameWithoutDot(p: string)
    requires '.' !in Basename(p)
    ensures Extname(p) == ""
  {
  }
}
