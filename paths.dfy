/** The parts of the POSIX flavour of `@std/path` that the program uses:
    `parse`, `resolve`, `relative`, `join` and `normalize`, on path strings
    with `/` as the separator. The working directory, which `resolve` reads
    from the process, is a parameter. */
module Paths {
  import opened Wrappers
  import opened Strings

  /** Segments of a resolved absolute path: no empty, `.` or `..` segment and
      no separator inside one. */
  predicate Canonical(segs: seq<string>) {
    forall i :: 0 <= i < |segs| ==> segs[i] != "" && segs[i] != "." && segs[i] != ".." && '/' !in segs[i]
  }

  function LastIndexOf(s: string, c: char): (r: Option<nat>)
    ensures r.None? ==> c !in s
    ensures r.Some? ==> r.value < |s| && s[r.value] == c && c !in s[r.value + 1..]
    decreases |s|
  {
    if |s| == 0 then None
    else if s[|s| - 1] == c then Some(|s| - 1)
    else
      var r := LastIndexOf(s[..|s| - 1], c);
      assert r.Some? ==> s[r.value + 1..] == s[..|s| - 1][r.value + 1..] + [s[|s| - 1]];
      assert r.None? ==> s == s[..|s| - 1] + [s[|s| - 1]];
      r
  }

  /** The last occurrence of `c` is at the end of `prefix` when `prefix`
      ends with it and `rest` does not contain it. */
  lemma LastIndexOfAfter(prefix: string, rest: string, c: char)
    requires |prefix| > 0 && prefix[|prefix| - 1] == c && c !in rest
    ensures LastIndexOf(prefix + rest, c) == Some(|prefix| - 1)
  {
    var s := prefix + rest;
    assert s[|prefix| - 1] == c;
    assert s[|prefix|..] == rest;
  }

  /** Trailing separators are ignored by `parse`, except for a lone root. */
  function TrimTrailingSlashes(p: string): (r: string)
    ensures |r| <= |p|
    ensures |r| > 1 ==> r[|r| - 1] != '/'
    decreases |p|
  {
    if |p| > 1 && p[|p| - 1] == '/' then TrimTrailingSlashes(p[..|p| - 1]) else p
  }

  /** What `parse` returns: the directory, the base name, the name without
      its extension, and the extension with its dot. */
  datatype ParsedPath = ParsedPath(dir: string, base: string, name: string, ext: string)

  /** The extension starts at the last dot of the base name, unless that dot
      is its first character or the base name is `..`. */
  function SplitExt(base: string): (r: (string, string))
    ensures r.0 + r.1 == base
    ensures r.1 == "" || (r.1[0] == '.' && '.' !in r.1[1..])
  {
    match LastIndexOf(base, '.')
    case None => (base, "")
    case Some(k) =>
      if k == 0 || base == ".." then (base, "")
      else
        assert base[..k] + base[k..] == base;
        assert base[k..][1..] == base[k + 1..];
        (base[..k], base[k..])
  }

  function Parse(path: string): ParsedPath {
    var p := TrimTrailingSlashes(path);
    var ne := SplitExt(match LastIndexOf(p, '/') case None => p case Some(k) => p[k + 1..]);
    match LastIndexOf(p, '/')
    case None => ParsedPath("", p, ne.0, ne.1)
    case Some(k) => ParsedPath(if k == 0 then "/" else p[..k], p[k + 1..], ne.0, ne.1)
  }

  /** `normalizeString`: drops empty and `.` segments and resolves `..`
      against the segments kept so far; with `allowAboveRoot` a `..` that has
      nothing to cancel is kept, otherwise it is dropped. */
  function NormalizeSegments(acc: seq<string>, segs: seq<string>, allowAboveRoot: bool): (r: seq<string>)
    requires forall i :: 0 <= i < |acc| ==> acc[i] != "" && acc[i] != "." && '/' !in acc[i]
    requires forall i :: 0 <= i < |segs| ==> '/' !in segs[i]
    ensures forall i :: 0 <= i < |r| ==> r[i] != "" && r[i] != "." && '/' !in r[i]
    ensures !allowAboveRoot && Canonical(acc) ==> Canonical(r)
    decreases |segs|
  {
    if |segs| == 0 then acc
    else
      var s := segs[0];
      if s == "" || s == "." then NormalizeSegments(acc, segs[1..], allowAboveRoot)
      else if s == ".." then
        if |acc| > 0 && acc[|acc| - 1] != ".." then NormalizeSegments(acc[..|acc| - 1], segs[1..], allowAboveRoot)
        else if allowAboveRoot then NormalizeSegments(acc + [".."], segs[1..], allowAboveRoot)
        else NormalizeSegments(acc, segs[1..], allowAboveRoot)
      else NormalizeSegments(acc + [s], segs[1..], allowAboveRoot)
  }

  /** `resolve(p)` as a list of segments: a relative path is taken from the
      working directory `cwd`. */
  function Resolve(cwd: seq<string>, p: string): (r: seq<string>)
    requires Canonical(cwd)
    ensures Canonical(r)
  {
    NormalizeSegments(if StartsWith(p, "/") then [] else cwd, Split(p, '/'), false)
  }

  function CommonPrefixLength(a: seq<string>, b: seq<string>): (n: nat)
    ensures n <= |a| && n <= |b| && a[..n] == b[..n]
    ensures n < |a| && n < |b| ==> a[n] != b[n]
    decreases |a|
  {
    if |a| == 0 || |b| == 0 || a[0] != b[0] then 0
    else
      var n := CommonPrefixLength(a[1..], b[1..]);
      assert a[..n + 1] == [a[0]] + a[1..][..n];
      assert b[..n + 1] == [b[0]] + b[1..][..n];
      n + 1
  }

  function Ups(n: nat): (r: seq<string>)
    ensures |r| == n && forall i :: 0 <= i < n ==> r[i] == ".."
  {
    if n == 0 then [] else Ups(n - 1) + [".."]
  }

  /** The segments of `relative(from, to)` for two resolved paths: one `..`
      for each segment of `from` below the common ancestor, then the rest of
      `to`. */
  function RelativeSegments(from: seq<string>, to: seq<string>): (r: seq<string>)
    requires Canonical(from) && Canonical(to)
    ensures forall i :: 0 <= i < |r| ==> r[i] != "" && '/' !in r[i]
  {
    var n := CommonPrefixLength(from, to);
    Ups(|from| - n) + to[n..]
  }

  /** `relative(from, to)`: the empty string when both resolve to the same
      place. */
  function Relative(cwd: seq<string>, from: string, to: string): string
    requires Canonical(cwd)
  {
    Join(RelativeSegments(Resolve(cwd, from), Resolve(cwd, to)), "/")
  }

  /** `normalize(p)`: keeps a leading root and a trailing separator, keeps
      `..` above the start of a relative path, and gives `.` for nothing. */
  function Normalize(p: string): string {
    if p == "" then "."
    else
      var absolute := p[0] == '/';
      var trailing := p[|p| - 1] == '/';
      var body := Join(NormalizeSegments([], Split(p, '/'), !absolute), "/");
      var body' := if body == "" && !absolute then "." else body;
      var body'' := if body' != "" && trailing then body' + "/" else body';
      if absolute then "/" + body'' else body''
  }

  /** `join(a, b)`: the non-empty arguments joined by a separator, then
      normalised. */
  function JoinPaths(a: string, b: string): string {
    var joined := if a == "" then b else if b == "" then a else a + "/" + b;
    if joined == "" then "." else Normalize(joined)
  }

  /** `rel.length ? rel.split(SEPARATOR) : []`, the directory of a note, for
      `rel` the path of its file's directory relative to the source
      directory. */
  function DirSegments(cwd: seq<string>, root: string, fileDir: string): seq<string>
    requires Canonical(cwd)
  {
    var rel := Relative(cwd, root, fileDir);
    if |rel| > 0 then Split(rel, '/') else []
  }

  /** Splitting the relative path again yields exactly the relative
      segments; for a file below the root these are its sub-directories. */
  lemma DirSegmentsAreRelative(cwd: seq<string>, root: string, fileDir: string)
    requires Canonical(cwd)
    ensures DirSegments(cwd, root, fileDir) == RelativeSegments(Resolve(cwd, root), Resolve(cwd, fileDir))
    ensures forall d :: Resolve(cwd, fileDir) == Resolve(cwd, root) + d ==> DirSegments(cwd, root, fileDir) == d
  {
    var segs := RelativeSegments(Resolve(cwd, root), Resolve(cwd, fileDir));
    if |segs| > 0 {
      JoinNonEmpty(segs, "/");
      SplitJoin(segs, '/');
    }
    forall d | Resolve(cwd, fileDir) == Resolve(cwd, root) + d
      ensures DirSegments(cwd, root, fileDir) == d
    {
      var f, t := Resolve(cwd, root), Resolve(cwd, fileDir);
      var n := CommonPrefixLength(f, t);
      assert t[..|f|] == f;
      assert t[n..] == d;
    }
  }

  /** `dir.replace(/\/$/, "")`: one trailing separator is removed. */
  function StripTrailingSlash(dir: string): (r: string)
    ensures EndsWith(dir, "/") ==> r + "/" == dir
    ensures !EndsWith(dir, "/") ==> r == dir
  {
    if EndsWith(dir, "/") then dir[..|dir| - 1] else dir
  }

  /** Length of the longest suffix of `s` made of `\w` characters. */
  function WordSuffixLength(s: string): (n: nat)
    ensures n <= |s|
    ensures forall i :: |s| - n <= i < |s| ==> IsWordChar(s[i])
    ensures n < |s| ==> !IsWordChar(s[|s| - n - 1])
    decreases |s|
  {
    if |s| > 0 && IsWordChar(s[|s| - 1]) then WordSuffixLength(s[..|s| - 1]) + 1 else 0
  }

  /** The file filter of the directory walk, `/\.note\.\w+$/`, decided by
      scanning back over the trailing word characters. */
  predicate IsNoteFile(path: string) {
    var n := WordSuffixLength(path);
    n > 0 && EndsWith(path[..|path| - n], ".note.")
  }

  /** `path` is some text, `.note.` at `k`, and one or more word characters. */
  predicate NoteSuffixAt(path: string, k: int) {
    0 <= k <= |path| - 7 && path[k..k + 6] == ".note." &&
    forall i :: k + 6 <= i < |path| ==> IsWordChar(path[i])
  }

  /** The scan decides the regular expression: a path matches exactly when
      it is some text, `.note.`, and one or more word characters. */
  lemma IsNoteFileMatches(path: string)
    ensures IsNoteFile(path) <==> exists k :: NoteSuffixAt(path, k)
  {
    var n := WordSuffixLength(path);
    if IsNoteFile(path) {
      var k := |path| - n - 6;
      assert path[..|path| - n][|path| - n - 6..] == path[k..k + 6];
      assert NoteSuffixAt(path, k);
    }
    if exists k :: NoteSuffixAt(path, k) {
      var k :| NoteSuffixAt(path, k);
      assert path[k..k + 6][5] == '.';
      assert !IsWordChar(path[k + 5]);
      assert n == |path| - k - 6;
      assert path[..|path| - n][|path| - n - 6..] == path[k..k + 6];
    }
  }
}
