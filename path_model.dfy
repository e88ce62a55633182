/**
 The value a `PathUtil` holds (its four fields) and the functions of it that
 the const members of `PathUtil` compute. `Parse` is the specification of
 `PathUtil::construct`; the class in module PathObject runs the scan itself.
 */
module PathModel {
  import opened StringUtils

  /** The four fields of a PathUtil: `_root`, `_directory`, `_file` (the stem) and `_extension`. */
  datatype PathParts = PathParts(root: string, directory: string, stem: string, extensions: seq<string>)

  /** The parts of a default-initialised PathUtil, before construct runs. */
  const Empty := PathParts("", "", "", [])

  /** String::npos, the "not found" value of the backward scan. */
  const Npos: int := -1

  function Min(a: nat, b: nat): nat {
    if a <= b then a else b
  }

  // ---------------------------------------------------------------------------
  // Well-formedness of the parts

  /** The three root forms: none, "/", or a drive letter followed by ':'. */
  predicate IsRoot(r: string) {
    r == "" || r == "/" || (|r| == 2 && IsLetter(r[0]) && r[1] == ':')
  }

  /** A directory string is empty or ends with '/'. */
  predicate IsDirectoryString(d: string) {
    d == [] || d[|d| - 1] == '/'
  }

  /** A piece of a file name holds neither separator. */
  predicate IsNamePart(t: string) {
    '/' !in t && '\\' !in t
  }

  /** An extension token: non-empty, without '.', without separators. */
  predicate IsExtension(e: string) {
    e != [] && '.' !in e && IsNamePart(e)
  }

  /** What splitting a file name on '.' can produce: either no extensions and a stem that is
      dot-free or made of dots only (a name of dots only yields no tokens), or a non-empty
      dot-free stem followed by extension tokens. */
  predicate WellFormedName(stem: string, exts: seq<string>) {
    && IsNamePart(stem)
    && (forall e :: e in exts ==> IsExtension(e))
    && (if exts == [] then '.' !in stem || AllChar(stem, '.') else stem != [] && '.' !in stem)
  }

  /** The invariant every parsed path satisfies. */
  predicate Valid(p: PathParts) {
    && IsRoot(p.root)
    && IsDirectoryString(p.directory)
    && '\\' !in p.directory
    && WellFormedName(p.stem, p.extensions)
  }

  // ---------------------------------------------------------------------------
  // construct (Path.cpp:29-87), written as a function

  /** Index of the last `c` in `s`, or Npos: the backward scan of Path.cpp:39-45. */
  function LastIndexOf(s: string, c: char): (n: int)
    ensures n == Npos || (0 <= n < |s| && s[n] == c)
    ensures forall k :: n < k < |s| ==> s[k] != c
    decreases |s|
  {
    if s == [] then Npos
    else if s[|s| - 1] == c then |s| - 1
    else LastIndexOf(s[..|s| - 1], c)
  }

  /** Step 1 of construct: every '\' becomes '/'. */
  function Clean(s: string): string {
    ReplaceAll(s, "\\", "/")
  }

  /** Root detection on the raw directory `d` (which ends with the last '/'): a leading '/'
      is the root "/"; a letter and ':' is a drive root, and the character after it is
      skipped; otherwise there is no root. Returns the root and what is left of `d`. */
  function SplitRoot(d: string): (r: (string, string))
    requires d != [] && d[|d| - 1] == '/'
    ensures IsRoot(r.0)
    ensures |r.0| + |r.1| <= |d| <= |r.0| + |r.1| + 1
    ensures d[..|r.0|] == r.0
    ensures r.1 == d[|d| - |r.1|..]
  {
    if d[0] == '/' then ("/", d[1..])
    else if |d| > 1 && IsLetter(d[0]) && d[1] == ':' then (d[..2], d[3..])
    else ("", d)
  }

  /** Path.cpp:67-74: drop one leading '/' and make sure a non-empty directory ends with '/'.
      Where dropping the '/' leaves nothing, the source reads back() of an empty string,
      which is undefined; the model leaves the directory empty there. `Parse` never takes the
      `e + "/"` branch, nor does the source take its push_back('/'): what `SplitRoot` leaves
      is a suffix of a '/'-terminated string, so after one leading '/' is dropped it is empty
      or still ends with '/' (`TrimDirectoryDrops`). */
  function TrimDirectory(d: string): (r: string)
    ensures IsDirectoryString(r)
  {
    if d == [] then d
    else
      var e := if d[0] == '/' then d[1..] else d;
      if e == [] then e
      else if e[|e| - 1] != '/' then e + "/"
      else e
  }

  /** Path.cpp:77-86: the first '.'-token is the stem, the others the extensions; a name
      without tokens is kept whole as the stem. */
  function SplitName(name: string): (string, seq<string>) {
    if name == [] then (name, [])
    else
      var tokens := Split(name, '.');
      if tokens != [] then (tokens[0], tokens[1..]) else (name, [])
  }

  /** PathUtil::construct applied to a default-initialised object. */
  function Parse(s: string): PathParts {
    var clean := Clean(s);
    var n := LastIndexOf(clean, '/');
    if n == Npos then
      var (stem, exts) := SplitName(clean);
      PathParts("", "", stem, exts)
    else
      var (root, rest) := SplitRoot(clean[..n + 1]);
      var (stem, exts) := SplitName(clean[n + 1..]);
      PathParts(root, TrimDirectory(rest), stem, exts)
  }

  // ---------------------------------------------------------------------------
  // The const members

  /** PathUtil::fullExtension (Path.cpp:212-218): "." + e for every extension, in order. */
  function FullExtension(p: PathParts): string {
    Prefixed(p.extensions, '.')
  }

  /** PathUtil::firstExtension (Path.cpp:110-119). */
  function FirstExtension(p: PathParts): string {
    if p.extensions == [] then "" else "." + p.extensions[0]
  }

  /** PathUtil::lastExtension (Path.cpp:99-108). */
  function LastExtension(p: PathParts): string {
    if p.extensions == [] then "" else "." + p.extensions[|p.extensions| - 1]
  }

  /** PathUtil::fileName() (Path.cpp:121-124): stem followed by the full extension. */
  function FileName(p: PathParts): string {
    p.stem + FullExtension(p)
  }

  /** PathUtil::rootedDir (Path.cpp:205-210). A '/' always follows the root, also when the
      root is empty. */
  function RootedDir(p: PathParts): string {
    if p.root == "/" then "/" + p.directory else p.root + "/" + p.directory
  }

  /** PathUtil::fullPath (Path.cpp:195-203). Root and directory are dropped together when
      the directory is empty. */
  function FullPath(p: PathParts): string {
    if p.directory == [] then FileName(p) else RootedDir(p) + FileName(p)
  }

  /** PathUtil::directoryList (Path.cpp:150-153): the '/'-separated segments of the directory. */
  function DirectoryList(p: PathParts): seq<string> {
    Split(p.directory, '/')
  }

  /** PathUtil::parentDir (Path.cpp:160-183): the rooted directory with the last `n`
      segments removed. */
  function ParentDir(p: PathParts, n: nat): string {
    if n < 1 then RootedDir(p)
    else
      var segments := DirectoryList(p);
      var kept := segments[..|segments| - Min(n, |segments|)];
      if kept != [] then p.root + "/" + Terminated(kept, '/') else p.root + "/"
  }

  /** PathUtil::hasDirectory (Path.cpp:155-158). */
  predicate HasDirectory(p: PathParts) {
    p.directory != []
  }

  /** PathUtil::isAbsolute (Path.cpp:240-243). */
  predicate IsAbsolute(p: PathParts) {
    p.root != []
  }

  /** PathUtil::hasExtensions (Path.cpp:245-248). */
  predicate HasExtensions(p: PathParts) {
    p.extensions != []
  }

  // ---------------------------------------------------------------------------
  // The field edits, on values

  /** PathUtil::fileName(x) (Path.cpp:126-138): take the stem and the extensions of `name`. */
  function WithFileName(p: PathParts, name: PathParts): PathParts {
    p.(stem := name.stem, extensions := name.extensions)
  }

  /** PathUtil::appendDirectory(const PathUtil&) (Path.cpp:220-224). */
  function AppendDirectory(p: PathParts, other: PathParts): PathParts {
    if other.directory == [] then p else p.(directory := p.directory + other.directory)
  }

  /** The preparation of Path.cpp:228-235: make the piece end with a separator, then drop
      one leading separator. */
  function DirectoryPiece(s: string): string {
    if s == [] then s
    else
      var t := if s[|s| - 1] != '\\' && s[|s| - 1] != '/' then s + "/" else s;
      if t[0] == '\\' || t[0] == '/' then t[1..] else t
  }

  /** PathUtil::appendDirectory(const String&) (Path.cpp:226-238). */
  function AppendDirectoryString(p: PathParts, s: string): PathParts {
    AppendDirectory(p, Parse(DirectoryPiece(s)))
  }

  /** The static PathUtil::construct(path, srcPath) (Path.cpp:250-255). */
  function ConstructWithFileName(path: string, srcPath: string): PathParts {
    Parse(FullPath(WithFileName(Parse(path), Parse(srcPath))))
  }
}
