/**
 * The file system as the pipeline sees it: a set of present paths, and the
 * calls it makes on them (`os.Stat`, `os.MkdirAll`, `os.OpenFile` with
 * O_CREATE, `os.Rename`). Which paths make a call fail is fixed up front in
 * `Faults`, standing for whatever the operating system would report.
 */
module FileSystem {
  import opened Wrappers
  import opened GoStrings
  import opened GoFilepath

  /** The errors the pipeline tells apart: `os.IsExist` and `os.ErrNotExist`, and any other. */
  datatype FsError = AlreadyExists | NotFound | Failed

  datatype StatResult = Present | NotExist | StatFailed

  /**
   * Paths on which `Stat` reports an error other than not-exist, paths that
   * cannot be created, and the error a rename of a source path reports.
   */
  datatype Faults = Faults(statFails: set<string>, createFails: set<string>, renameFails: map<string, FsError>)

  /** `os.Stat(path)`: nil for a present path, ErrNotExist for an absent one, unless it fails. */
  function StatOf(present: set<string>, faults: Faults, path: string): (r: StatResult)
    ensures r.Present? <==> path !in faults.statFails && path in present
    ensures r.NotExist? <==> path !in faults.statFails && path !in present
  {
    if path in faults.statFails then StatFailed
    else if path in present then Present
    else NotExist
  }

  /** What a call did: its error, if any, and the paths present afterwards. */
  datatype Effect = Effect(err: Option<FsError>, present: set<string>)

  /**
   * The ancestors of a path, root excepted: each prefix that ends just before
   * one of its separators.
   */
  function Ancestors(path: string): set<string> {
    set k | 0 < k < |path| && path[k] == '/' :: path[..k]
  }

  /** The path together with its ancestors. */
  function WithAncestors(path: string): set<string> {
    {path} + Ancestors(path)
  }

  /** The paths and all of their ancestors. */
  function Footprint(paths: seq<string>): set<string> {
    if paths == [] then {} else WithAncestors(paths[0]) + Footprint(paths[1..])
  }

  /**
   * `os.OpenFile(path, O_CREATE|...)`: the path is present afterwards (an
   * existing one is kept), unless creating it fails. Parents are not made.
   */
  function Created(present: set<string>, faults: Faults, path: string): (e: Effect)
    ensures e.err.None? <==> path !in faults.createFails
    ensures e.err.None? ==> e.present == present + {path}
    ensures e.err.Some? ==> e.err == Some(Failed) && e.present == present
  {
    if path in faults.createFails then Effect(Some(Failed), present) else Effect(None, present + {path})
  }

  /**
   * `os.MkdirAll(path)`: the path and every missing ancestor are present
   * afterwards, unless making it fails.
   */
  function MadeAll(present: set<string>, faults: Faults, path: string): (e: Effect)
    ensures e.err.None? <==> path !in faults.createFails
    ensures e.err.None? ==> e.present == present + WithAncestors(path)
    ensures e.err.Some? ==> e.err == Some(Failed) && e.present == present
  {
    if path in faults.createFails then Effect(Some(Failed), present) else Effect(None, present + WithAncestors(path))
  }

  /** A path below `dir` has `dir` among its ancestors, and `MkdirAll` of it makes `dir`. */
  lemma MkdirAllMakesParent(present: set<string>, faults: Faults, dir: string, rest: string)
    requires dir != "" && MadeAll(present, faults, dir + "/" + rest).err.None?
    ensures dir in Ancestors(dir + "/" + rest)
    ensures dir in MadeAll(present, faults, dir + "/" + rest).present
  {
    var path := dir + "/" + rest;
    assert path[|dir|] == '/' && path[..|dir|] == dir;
  }

  /** `p` is `root` or lies below it. */
  predicate Within(p: string, root: string) {
    p == root || HasPrefix(p, root + "/")
  }

  /** The paths once the tree at `from` has been moved to `to`. */
  function Moved(present: set<string>, from: string, to: string): set<string> {
    (set p | p in present && !Within(p, from))
      + (set p | p in present && Within(p, from) :: to + p[|from|..])
  }

  /**
   * The directory `to` would be entered into exists: the current directory,
   * the root, or a present path.
   */
  predicate ParentPresent(present: set<string>, to: string) {
    var d := Dir(to);
    d == "." || d == "/" || d in present
  }

  /**
   * `os.Rename(from, to)`: the tree at `from` moves to `to`. It fails with
   * not-exist when `from` is absent or the directory of `to` is missing, with
   * already-exists when `to` is present, and as `faults` says for `from`; a
   * failed rename changes nothing.
   */
  function RenameOf(present: set<string>, faults: Faults, from: string, to: string): (e: Effect)
    ensures e.err.Some? ==> e.present == present
    ensures e.err.None? <==> from !in faults.renameFails && from in present && ParentPresent(present, to) && to !in present
    ensures from !in faults.renameFails && (from !in present || !ParentPresent(present, to)) ==> e.err == Some(NotFound)
  {
    if from in faults.renameFails then Effect(Some(faults.renameFails[from]), present)
    else if from !in present || !ParentPresent(present, to) then Effect(Some(NotFound), present)
    else if to in present then Effect(Some(AlreadyExists), present)
    else Effect(None, Moved(present, from, to))
  }

  /**
   * A rename puts `to` in place of `from` and leaves every path outside the
   * two trees as it was.
   */
  lemma RenameMovesTree(present: set<string>, faults: Faults, from: string, to: string, q: string)
    requires RenameOf(present, faults, from, to).err.None?
    requires !Within(q, from) && !Within(q, to)
    ensures to in RenameOf(present, faults, from, to).present
    ensures q in RenameOf(present, faults, from, to).present <==> q in present
  {
    assert Within(from, from) && to + from[|from|..] == to;
    var moved := RenameOf(present, faults, from, to).present;
    if q in moved && q !in present {
      var p :| p in present && Within(p, from) && q == to + p[|from|..];
      MovedIntoTarget(p, from, to);
    }
  }

  /** A path of the tree at `from` lands in the tree at `to`. */
  lemma MovedIntoTarget(p: string, from: string, to: string)
    requires Within(p, from)
    ensures Within(to + p[|from|..], to)
  {
    var r := p[|from|..];
    if p != from {
      assert p[..|from| + 1] == from + "/";
      assert r[0] == p[|from|] == '/';
      assert (to + r)[..|to| + 1] == to + "/";
    }
  }

  /** A disk whose present paths the pipeline's calls change in place. */
  class Disk {
    var present: set<string>
    const faults: Faults

    constructor (present: set<string>, faults: Faults)
      ensures this.present == present && this.faults == faults
    {
      this.present := present;
      this.faults := faults;
    }

    method Stat(path: string) returns (r: StatResult)
      ensures r == StatOf(present, faults, path)
    {
      if path in faults.statFails {
        r := StatFailed;
      } else if path in present {
        r := Present;
      } else {
        r := NotExist;
      }
    }

    method MkdirAll(path: string) returns (err: Option<FsError>)
      modifies this
      ensures Effect(err, present) == MadeAll(old(present), faults, path)
    {
      if path in faults.createFails {
        err := Some(Failed);
      } else {
        err := None;
        present := present + WithAncestors(path);
      }
    }

    /** `os.OpenFile(path, os.O_CREATE|...)` followed by Close. */
    method Create(path: string) returns (err: Option<FsError>)
      modifies this
      ensures Effect(err, present) == Created(old(present), faults, path)
    {
      if path in faults.createFails {
        err := Some(Failed);
      } else {
        err := None;
        present := present + {path};
      }
    }

    method Rename(from: string, to: string) returns (err: Option<FsError>)
      modifies this
      ensures Effect(err, present) == RenameOf(old(present), faults, from, to)
    {
      if from in faults.renameFails {
        err := Some(faults.renameFails[from]);
      } else if from !in present || !ParentPresent(present, to) {
        err := Some(NotFound);
      } else if to in present {
        err := Some(AlreadyExists);
      } else {
        err := None;
        present := Moved(present, from, to);
      }
    }
  }
}
