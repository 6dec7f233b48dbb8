/**
 * The entry loops of `Untar` and `Unzip`: which paths they report and which
 * they create. An archive is an abstract sequence of entries, each saying
 * what reading it yields; the byte-level gzip, tar and zip decoding is not
 * modelled.
 */
module Extract {
  import opened Wrappers
  import opened FileSystem
  import opened GoFilepath

  /** The type flag of a tar header, and whether copying a regular file's contents fails. */
  datatype TarKind = TarDir | TarReg(copyFails: bool) | TarOther

  /** One `tr.Next()`: a header, a nil header with no error, or a read error. */
  datatype TarStep = Header(name: string, kind: TarKind) | NilHeader | ReadFailure

  /** What `gzip.NewReader` on the file yields: an error, or the tar stream up to io.EOF. */
  datatype TarStream = NotGzip | TarStream(steps: seq<TarStep>)

  /** A zip entry: its name, whether it is a directory, and whether opening or copying it fails. */
  datatype ZipEntry = ZipEntry(name: string, isDir: bool, readFails: bool)

  /** What `zip.OpenReader` yields: an error, or the entries in order. */
  datatype ZipArchive = NotZip | ZipArchive(entries: seq<ZipEntry>)

  datatype ExtractError = BadArchive | ReadFailed | CreateFailed(path: string) | CopyFailed(path: string)

  /** The paths returned, the error returned and the paths present afterwards. */
  datatype Extraction = Extraction(paths: seq<string>, err: Option<ExtractError>, present: set<string>)

  /** The effect of handling one entry after its path was recorded. */
  datatype EntryEffect = EntryEffect(err: Option<ExtractError>, present: set<string>)

  function Prepend(paths: seq<string>, x: Extraction): Extraction {
    x.(paths := paths + x.paths)
  }

  /**
   * A tar entry at `target`: a directory is made with its ancestors unless
   * `Stat` finds it, a regular file is created and filled.
   */
  function TarEntryEffect(target: string, kind: TarKind, faults: Faults, present: set<string>): (e: EntryEffect)
    ensures e.err.Some? ==> EntryFailure(e.err) && e.err.value.path == target
  {
    match kind
    case TarDir =>
      if StatOf(present, faults, target).Present? then EntryEffect(None, present)
      else
        var m := MadeAll(present, faults, target);
        EntryEffect(if m.err.Some? then Some(CreateFailed(target)) else None, m.present)
    case TarReg(copyFails) =>
      var m := Created(present, faults, target);
      if m.err.Some? then EntryEffect(Some(CreateFailed(target)), present)
      else EntryEffect(if copyFails then Some(CopyFailed(target)) else None, m.present)
    case TarOther => EntryEffect(None, present)
  }

  /** A tar entry makes nothing beyond its own target and the target's ancestors. */
  lemma TarEntryBound(target: string, kind: TarKind, faults: Faults, present: set<string>)
    ensures var e := TarEntryEffect(target, kind, faults, present);
      present <= e.present <= present + WithAncestors(target)
  {
  }

  /** The `for` loop of `Untar` over the rest of the tar stream. */
  function UntarSteps(dst: string, steps: seq<TarStep>, faults: Faults, present: set<string>): Extraction
    decreases |steps|
  {
    if steps == [] then Extraction([], None, present)
    else match steps[0]
      case NilHeader => UntarSteps(dst, steps[1..], faults, present)
      case ReadFailure => Extraction([], Some(ReadFailed), present)
      case Header(name, kind) =>
        var target := Join(dst, name);
        var e := TarEntryEffect(target, kind, faults, present);
        Prepend([target], if e.err.Some? then Extraction([], e.err, e.present)
                          else UntarSteps(dst, steps[1..], faults, e.present))
  }

  function UntarOf(dst: string, stream: TarStream, faults: Faults, present: set<string>): Extraction {
    match stream
    case NotGzip => Extraction([], Some(BadArchive), present)
    case TarStream(steps) => UntarSteps(dst, steps, faults, present)
  }

  /** The collection from the `i`-th step on, by the step's kind. */
  lemma UntarAt(dst: string, steps: seq<TarStep>, i: nat, faults: Faults, present: set<string>)
    requires i < |steps|
    ensures steps[i].NilHeader? ==> UntarSteps(dst, steps[i..], faults, present) == UntarSteps(dst, steps[i + 1..], faults, present)
    ensures steps[i].ReadFailure? ==> UntarSteps(dst, steps[i..], faults, present) == Extraction([], Some(ReadFailed), present)
    ensures steps[i].Header? ==>
      var target := Join(dst, steps[i].name);
      var e := TarEntryEffect(target, steps[i].kind, faults, present);
      UntarSteps(dst, steps[i..], faults, present) ==
        Prepend([target], if e.err.Some? then Extraction([], e.err, e.present)
                          else UntarSteps(dst, steps[i + 1..], faults, e.present))
  {
    assert steps[i..][0] == steps[i];
    assert steps[i..][1..] == steps[i + 1..];
  }

  lemma PrependTwice(a: seq<string>, b: seq<string>, x: Extraction)
    ensures Prepend(a, Prepend(b, x)) == Prepend(a + b, x)
  {
    assert a + (b + x.paths) == a + b + x.paths;
  }

  /** `Untar`: the files are created under `dst` on `disk`, and their paths returned. */
  method Untar(disk: Disk, dst: string, stream: TarStream) returns (filenames: seq<string>, err: Option<ExtractError>)
    modifies disk
    ensures Extraction(filenames, err, disk.present) == UntarOf(dst, stream, disk.faults, old(disk.present))
  {
    filenames := [];
    if stream.NotGzip? {
      return filenames, Some(BadArchive);
    }
    var steps := stream.steps;
    var i := 0;
    while true
      invariant i <= |steps|
      invariant Prepend(filenames, UntarSteps(dst, steps[i..], disk.faults, disk.present))
        == UntarOf(dst, stream, disk.faults, old(disk.present))
      decreases |steps| - i
    {
      if i == |steps| {
        return filenames, None;
      }
      var step := steps[i];
      UntarAt(dst, steps, i, disk.faults, disk.present);
      i := i + 1;
      match step
      case ReadFailure =>
        return filenames, Some(ReadFailed);
      case NilHeader =>
      case Header(name, kind) =>
        var target := Join(dst, name);
        ghost var before := disk.present;
        PrependTwice(filenames, [target], if TarEntryEffect(target, kind, disk.faults, before).err.Some?
          then Extraction([], TarEntryEffect(target, kind, disk.faults, before).err, TarEntryEffect(target, kind, disk.faults, before).present)
          else UntarSteps(dst, steps[i..], disk.faults, TarEntryEffect(target, kind, disk.faults, before).present));
        filenames := filenames + [target];
        match kind
        case TarDir =>
          var st := disk.Stat(target);
          if !st.Present? {
            var e := disk.MkdirAll(target);
            if e.Some? {
              return filenames, Some(CreateFailed(target));
            }
          }
        case TarReg(copyFails) =>
          var e := disk.Create(target);
          if e.Some? {
            return filenames, Some(CreateFailed(target));
          }
          if copyFails {
            return filenames, Some(CopyFailed(target));
          }
        case TarOther =>
    }
  }

  /** The targets of the headers read before the stream ends or fails, nil headers skipped. */
  function TarTargets(dst: string, steps: seq<TarStep>): seq<string>
    decreases |steps|
  {
    if steps == [] || steps[0].ReadFailure? then []
    else if steps[0].NilHeader? then TarTargets(dst, steps[1..])
    else [Join(dst, steps[0].name)] + TarTargets(dst, steps[1..])
  }

  /** A failure of the entry's own creation or copy, which names its path. */
  predicate EntryFailure(err: Option<ExtractError>) {
    err.Some? && (err.value.CreateFailed? || err.value.CopyFailed?)
  }

  /**
   * The returned paths are a prefix of `targets`: all of them when there is
   * no error or a read error ends the stream, and ending with the failing
   * entry's own path when an entry fails.
   */
  predicate PathsAgree(x: Extraction, targets: seq<string>) {
    && x.paths <= targets
    && (x.err.None? || x.err == Some(ReadFailed) ==> x.paths == targets)
    && (EntryFailure(x.err) ==> |x.paths| > 0 && x.paths[|x.paths| - 1] == x.err.value.path)
  }

  /** An entry that succeeds keeps the agreement of the entries after it. */
  lemma PrependAgrees(target: string, x: Extraction, targets: seq<string>)
    requires PathsAgree(x, targets)
    ensures PathsAgree(Prepend([target], x), [target] + targets)
  {
    assert [target] + x.paths <= [target] + targets;
  }

  /** An entry that fails ends the returned paths with its own path. */
  lemma FailureAgrees(target: string, err: Option<ExtractError>, present: set<string>, targets: seq<string>)
    requires EntryFailure(err) && err.value.path == target
    ensures PathsAgree(Prepend([target], Extraction([], err, present)), [target] + targets)
  {
    assert [target] + [] == [target];
  }

  /**
   * `Untar` returns the targets `filepath.Join(dst, name)` of the headers in
   * archive order, nil headers skipped: all of them when it succeeds or a
   * read error ends the stream, and a prefix ending with the failing entry's
   * own path when that entry fails.
   */
  lemma {:induction false} UntarPaths(dst: string, steps: seq<TarStep>, faults: Faults, present: set<string>)
    ensures PathsAgree(UntarSteps(dst, steps, faults, present), TarTargets(dst, steps))
    decreases |steps|
  {
    if steps != [] && !steps[0].ReadFailure? {
      var rest := steps[1..];
      if steps[0].NilHeader? {
        UntarPaths(dst, rest, faults, present);
      } else {
        var target := Join(dst, steps[0].name);
        var e := TarEntryEffect(target, steps[0].kind, faults, present);
        if e.err.None? {
          UntarPaths(dst, rest, faults, e.present);
          PrependAgrees(target, UntarSteps(dst, rest, faults, e.present), TarTargets(dst, rest));
        } else {
          FailureAgrees(target, e.err, e.present, TarTargets(dst, rest));
        }
      }
    }
  }

  /** `Untar` creates no path other than those it returns and their ancestors. */
  lemma {:induction false} UntarCreatesOnlyListed(dst: string, steps: seq<TarStep>, faults: Faults, present: set<string>)
    ensures var x := UntarSteps(dst, steps, faults, present);
      present <= x.present <= present + Footprint(x.paths)
    decreases |steps|
  {
    if steps != [] && !steps[0].ReadFailure? {
      var rest := steps[1..];
      if steps[0].NilHeader? {
        UntarCreatesOnlyListed(dst, rest, faults, present);
      } else {
        var target := Join(dst, steps[0].name);
        var e := TarEntryEffect(target, steps[0].kind, faults, present);
        TarEntryBound(target, steps[0].kind, faults, present);
        if e.err.None? {
          UntarCreatesOnlyListed(dst, rest, faults, e.present);
          var x := UntarSteps(dst, rest, faults, e.present);
          assert ([target] + x.paths)[1..] == x.paths;
        }
      }
    }
  }

  /**
   * A directory entry made under `dst` makes the cleaned `dst` as well, since
   * `MkdirAll` creates the missing parents (the root and "." are not paths
   * of the disk).
   */
  lemma TarDirectoryMakesDst(dst: string, name: string, faults: Faults, present: set<string>)
    requires var d := CleanDir(dst); d != "" && d != "." && d != "/"
    requires name != "" && Join(dst, name) !in present
    ensures var e := TarEntryEffect(Join(dst, name), TarDir, faults, present);
      e.err.None? ==> CleanDir(dst) in e.present
  {
    var n := DropTrailingSlash(name);
    if TarEntryEffect(Join(dst, name), TarDir, faults, present).err.None? {
      MkdirAllMakesParent(present, faults, CleanDir(dst), n);
    }
  }

  /**
   * A zip entry at `fpath`: a directory is made with its ancestors, its error
   * ignored; a file gets its parent directory made, then is created and filled.
   */
  function ZipEntryEffect(fpath: string, entry: ZipEntry, faults: Faults, present: set<string>): (e: EntryEffect)
    ensures entry.isDir ==> e.err.None?
    ensures e.err.Some? ==> EntryFailure(e.err) && (e.err.value.path == fpath || e.err.value.path == Dir(fpath))
  {
    if entry.isDir then EntryEffect(None, MadeAll(present, faults, fpath).present)
    else
      var parent := MadeAll(present, faults, Dir(fpath));
      if parent.err.Some? then EntryEffect(Some(CreateFailed(Dir(fpath))), present)
      else
        var file := Created(parent.present, faults, fpath);
        if file.err.Some? then EntryEffect(Some(CreateFailed(fpath)), parent.present)
        else EntryEffect(if entry.readFails then Some(CopyFailed(fpath)) else None, file.present)
  }

  /** A zip entry makes nothing beyond its own path, its parent directory and their ancestors. */
  lemma ZipEntryBound(fpath: string, entry: ZipEntry, faults: Faults, present: set<string>)
    ensures var e := ZipEntryEffect(fpath, entry, faults, present);
      present <= e.present <= present + WithAncestors(fpath) + WithAncestors(Dir(fpath))
  {
  }

  /** The `for` loop of `Unzip` over the rest of the entries. */
  function UnzipEntries(dest: string, entries: seq<ZipEntry>, faults: Faults, present: set<string>): Extraction
    decreases |entries|
  {
    if entries == [] then Extraction([], None, present)
    else
      var fpath := Join(dest, entries[0].name);
      var e := ZipEntryEffect(fpath, entries[0], faults, present);
      Prepend([fpath], if e.err.Some? then Extraction([], e.err, e.present)
                       else UnzipEntries(dest, entries[1..], faults, e.present))
  }

  function UnzipOf(dest: string, archive: ZipArchive, faults: Faults, present: set<string>): Extraction {
    match archive
    case NotZip => Extraction([], Some(BadArchive), present)
    case ZipArchive(entries) => UnzipEntries(dest, entries, faults, present)
  }

  lemma UnzipAt(dest: string, entries: seq<ZipEntry>, i: nat, faults: Faults, present: set<string>)
    requires i < |entries|
    ensures
      var fpath := Join(dest, entries[i].name);
      var e := ZipEntryEffect(fpath, entries[i], faults, present);
      UnzipEntries(dest, entries[i..], faults, present) ==
        Prepend([fpath], if e.err.Some? then Extraction([], e.err, e.present)
                         else UnzipEntries(dest, entries[i + 1..], faults, e.present))
  {
    assert entries[i..][0] == entries[i];
    assert entries[i..][1..] == entries[i + 1..];
  }

  /** `Unzip(src, dest)`, given what opening `src` as a zip file yields. */
  method Unzip(disk: Disk, archive: ZipArchive, dest: string) returns (filenames: seq<string>, err: Option<ExtractError>)
    modifies disk
    ensures Extraction(filenames, err, disk.present) == UnzipOf(dest, archive, disk.faults, old(disk.present))
  {
    filenames := [];
    if archive.NotZip? {
      return filenames, Some(BadArchive);
    }
    var entries := archive.entries;
    for i := 0 to |entries|
      invariant Prepend(filenames, UnzipEntries(dest, entries[i..], disk.faults, disk.present))
        == UnzipOf(dest, archive, disk.faults, old(disk.present))
    {
      var f := entries[i];
      var fpath := Join(dest, f.name);
      UnzipAt(dest, entries, i, disk.faults, disk.present);
      ghost var e := ZipEntryEffect(fpath, f, disk.faults, disk.present);
      PrependTwice(filenames, [fpath], if e.err.Some? then Extraction([], e.err, e.present)
                                       else UnzipEntries(dest, entries[i + 1..], disk.faults, e.present));
      filenames := filenames + [fpath];
      if f.isDir {
        var _ := disk.MkdirAll(fpath);
        continue;
      }
      var parentErr := disk.MkdirAll(Dir(fpath));
      if parentErr.Some? {
        return filenames, Some(CreateFailed(Dir(fpath)));
      }
      var createErr := disk.Create(fpath);
      if createErr.Some? {
        return filenames, Some(CreateFailed(fpath));
      }
      if f.readFails {
        return filenames, Some(CopyFailed(fpath));
      }
    }
    assert entries[|entries|..] == [];
    err := None;
  }

  function ZipTargets(dest: string, entries: seq<ZipEntry>): (ts: seq<string>)
    ensures |ts| == |entries|
    decreases |entries|
  {
    if entries == [] then [] else [Join(dest, entries[0].name)] + ZipTargets(dest, entries[1..])
  }

  /**
   * `Unzip` returns `filepath.Join(dest, name)` for the entries in archive
   * order: all of them when it succeeds, and a prefix ending with the failing
   * entry's path when one fails (the error then names that path or its
   * parent directory).
   */
  lemma {:induction false} UnzipPaths(dest: string, entries: seq<ZipEntry>, faults: Faults, present: set<string>)
    ensures var x := UnzipEntries(dest, entries, faults, present);
      && x.paths <= ZipTargets(dest, entries)
      && (x.err.None? ==> x.paths == ZipTargets(dest, entries))
      && (x.err.Some? ==> EntryFailure(x.err) && |x.paths| > 0
                          && (x.err.value.path == x.paths[|x.paths| - 1]
                              || x.err.value.path == Dir(x.paths[|x.paths| - 1])))
    decreases |entries|
  {
    if entries != [] {
      var fpath := Join(dest, entries[0].name);
      var e := ZipEntryEffect(fpath, entries[0], faults, present);
      if e.err.None? {
        UnzipPaths(dest, entries[1..], faults, e.present);
        var x := UnzipEntries(dest, entries[1..], faults, e.present);
        assert [fpath] + x.paths <= [fpath] + ZipTargets(dest, entries[1..]);
      }
    }
  }

  /** The paths, their parent directories, and the ancestors of both. */
  function ZipFootprint(paths: seq<string>): set<string> {
    if paths == [] then {}
    else WithAncestors(paths[0]) + WithAncestors(Dir(paths[0])) + ZipFootprint(paths[1..])
  }

  /** `Unzip` creates no path beyond those it returns, their parent directories and their ancestors. */
  lemma {:induction false} UnzipCreatesOnlyListed(dest: string, entries: seq<ZipEntry>, faults: Faults, present: set<string>)
    ensures var x := UnzipEntries(dest, entries, faults, present);
      present <= x.present <= present + ZipFootprint(x.paths)
    decreases |entries|
  {
    if entries != [] {
      var fpath := Join(dest, entries[0].name);
      var e := ZipEntryEffect(fpath, entries[0], faults, present);
      ZipEntryBound(fpath, entries[0], faults, present);
      if e.err.None? {
        UnzipCreatesOnlyListed(dest, entries[1..], faults, e.present);
        var x := UnzipEntries(dest, entries[1..], faults, e.present);
        assert ([fpath] + x.paths)[1..] == x.paths;
      }
    }
  }

  /** A directory entry never stops `Unzip`, even when making it fails. */
  lemma ZipDirectoryNeverFails(dest: string, entry: ZipEntry, rest: seq<ZipEntry>, faults: Faults, present: set<string>)
    requires entry.isDir
    ensures var fpath := Join(dest, entry.name);
      UnzipEntries(dest, [entry] + rest, faults, present) ==
        Prepend([fpath], UnzipEntries(dest, rest, faults, MadeAll(present, faults, fpath).present))
  {
    assert ([entry] + rest)[0] == entry;
    assert ([entry] + rest)[1..] == rest;
  }
}
