/**
 * The parts of Go's `path/filepath` package that the pipeline uses, with '/'
 * as the only separator. Of `Clean`, the model applies what the pipeline's
 * joins meet: a leading "./" and trailing separators of the directory, a "."
 * directory, and the trailing separator of an archive's directory entry.
 */
module GoFilepath {

  /** A name with one trailing separator dropped, as a directory entry of an archive is written. */
  function DropTrailingSlash(name: string): string {
    if |name| > 1 && name[|name| - 1] == '/' then name[..|name| - 1] else name
  }

  /**
   * The directory operand of `filepath.Join` as `Clean` leaves it: leading
   * "./" and trailing separators dropped, so "./" and "." become ".", and
   * only the root keeps a final separator.
   */
  function CleanDir(dir: string): (d: string)
    ensures |d| <= |dir| && (dir != "" ==> d != "")
    ensures |d| <= 1 || d[|d| - 1] != '/'
    ensures !(|d| > 2 && d[..2] == "./" && d[2] != '/')
    decreases |dir|
  {
    if |dir| > 2 && dir[..2] == "./" && dir[2] != '/' then CleanDir(dir[2..])
    else if |dir| > 1 && dir[|dir| - 1] == '/' then CleanDir(dir[..|dir| - 1])
    else dir
  }

  /** Cleaning a cleaned directory changes nothing. */
  lemma CleanDirIdempotent(dir: string)
    ensures CleanDir(CleanDir(dir)) == CleanDir(dir)
  {
  }

  /**
   * `filepath.Join(dir, name)`: the two joined by one separator and cleaned,
   * an empty operand ignored and a "." directory dropped.
   */
  function Join(dir: string, name: string): string {
    var d, n := CleanDir(dir), DropTrailingSlash(name);
    if n == "" then d
    else if d == "" || d == "." then n
    else if d == "/" then d + n
    else d + "/" + n
  }

  /** `Dir` skips back over a stretch without separators. */
  lemma {:induction false} DirFromSkips(path: string, k: nat, n: nat)
    requires k <= n <= |path|
    requires forall i :: k <= i < n ==> path[i] != '/'
    ensures DirFrom(path, n) == DirFrom(path, k)
    decreases n
  {
    if n > k {
      DirFromSkips(path, k, n - 1);
    }
  }

  /**
   * Joining one path element under a directory and taking `Dir` gives back
   * the cleaned directory ("." for an empty one), as `filepath.Dir` undoes
   * `filepath.Join`.
   */
  lemma JoinDirRoundTrip(dir: string, name: string)
    requires var n := DropTrailingSlash(name); n != "" && forall i :: 0 <= i < |n| ==> n[i] != '/'
    ensures Dir(Join(dir, name)) == if CleanDir(dir) == "" then "." else CleanDir(dir)
  {
    var d, n := CleanDir(dir), DropTrailingSlash(name);
    var path := Join(dir, name);
    if d == "" || d == "." {
      DirFromSkips(path, 0, |path|);
    } else if d == "/" {
      DirFromSkips(path, 1, |path|);
    } else {
      assert path == d + "/" + n && path[|d|] == '/';
      DirFromSkips(path, |d| + 1, |path|);
      assert path[..|d|] == d;
    }
  }

  /** Scan of `filepath.Ext` from index `n - 1` down to the last separator. */
  function ExtFrom(path: string, n: nat): string
    requires n <= |path|
    decreases n
  {
    if n == 0 || path[n - 1] == '/' then ""
    else if path[n - 1] == '.' then path[n - 1..]
    else ExtFrom(path, n - 1)
  }

  /** `filepath.Ext`: the suffix from the last '.' of the final element, or "". */
  function Ext(path: string): string {
    ExtFrom(path, |path|)
  }

  lemma {:induction false} ExtFromShape(path: string, n: nat)
    requires n <= |path|
    ensures ExtFrom(path, n) == "" || exists k :: 0 <= k < n && ExtFrom(path, n) == path[k..] && path[k] == '.'
    decreases n
  {
    if n > 0 && path[n - 1] != '/' && path[n - 1] != '.' {
      ExtFromShape(path, n - 1);
    }
  }

  /** The tar/zip dispatch: the extension is ".gz" exactly when the name ends in ".gz". */
  lemma ExtIsGzIff(path: string)
    ensures Ext(path) == ".gz" <==> |path| >= 3 && path[|path| - 3..] == ".gz"
  {
    var n := |path|;
    if n >= 3 && path[n - 3..] == ".gz" {
      assert path[n - 1] == 'z' && path[n - 2] == 'g' && path[n - 3] == '.';
      assert ExtFrom(path, n) == ExtFrom(path, n - 1) == ExtFrom(path, n - 2);
    }
    if Ext(path) == ".gz" {
      ExtFromShape(path, n);
      var k :| 0 <= k < n && Ext(path) == path[k..] && path[k] == '.';
      assert |path[k..]| == 3;
    }
  }

  /** Scan of `filepath.Dir` from index `n - 1` down to the last separator. */
  function DirFrom(path: string, n: nat): string
    requires n <= |path|
    decreases n
  {
    if n == 0 then "."
    else if path[n - 1] == '/' then (if n == 1 then "/" else path[..n - 1])
    else DirFrom(path, n - 1)
  }

  /** `filepath.Dir` of a clean path: everything before the last separator. */
  function Dir(path: string): string {
    DirFrom(path, |path|)
  }
}
