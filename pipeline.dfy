/**
 * `DownloadFromRequirementsFile`: parse the manifest, then for each
 * requirement download its release, extract it by extension, and move what
 * was extracted out of the archive's wrapper directory.
 */
module Pipeline {
  import opened Wrappers
  import opened GoStrings
  import opened GoFilepath
  import opened FileSystem
  import opened Requirements
  import opened PackageIndex
  import opened Extract

  /** What reading each path as an archive yields, for the files the downloads left behind. */
  datatype ArchiveFile = ArchiveFile(asTar: TarStream, asZip: ZipArchive)

  /** Everything outside the disk: the index and the downloaded archives, keyed by path. */
  datatype Env = Env(net: Network, archives: map<string, ArchiveFile>)

  datatype RunError =
    | ParseFailed(parse: ParseError)
    | DownloadFailed(download: DownloadError)
    | ArchiveOpenFailed(path: string)
    | UntarFailed(filename: string, extract: ExtractError)
    | UnzipFailed(filename: string, extract: ExtractError)
    | MoveFailed(filename: string, move: FsError)

  /** An error, if any, and the paths present afterwards. */
  datatype Step = Step(err: Option<RunError>, present: set<string>)

  // ---------------------------------------------------------------------------
  // Moving extracted paths out of the wrapper directory
  // ---------------------------------------------------------------------------

  /** `"/" + strings.ReplaceAll(filename, ".tar.gz", "")`: the directory a source archive wraps its files in. */
  function WrapperName(filename: string): (w: string)
    ensures |w| > 0 && w[0] == '/'
  {
    "/" + RemoveAll(filename, ".tar.gz")
  }

  /** `strings.ReplaceAll(oldLocation, extractDirName, "")`. */
  function Target(filename: string, source: string): string {
    RemoveAll(source, WrapperName(filename))
  }

  /** A path is moved exactly when the wrapper name occurs in it. */
  lemma TargetIsSourceIffNoWrapper(filename: string, source: string)
    ensures Target(filename, source) == source <==> !Contains(source, WrapperName(filename))
  {
    RemoveAllUnchangedIff(source, WrapperName(filename));
  }

  /**
   * A path `dst/<wrapper>/rest` moves to `dst/rest` (with any further
   * occurrence in `rest` removed too) when none starts inside `dst`.
   */
  lemma TargetStripsWrapper(filename: string, dst: string, rest: string)
    requires var w := WrapperName(filename);
      forall i :: 0 <= i < |dst| ==> !OccursAt(dst + w + rest, i, w)
    ensures Target(filename, dst + WrapperName(filename) + rest) == dst + RemoveAll(rest, WrapperName(filename))
  {
    var w := WrapperName(filename);
    assert dst + w + rest == dst + (w + rest);
    RemoveAllKeepsPrefix(dst, w + rest, w);
    RemoveAllAtFront(w, rest);
  }

  /**
   * One pass of the reconcile loop: skip when the target is the path itself,
   * keep an existing target, rename onto an absent one, and skip when `Stat`
   * fails otherwise. Only a rename error other than already-exists aborts.
   */
  function ReconcileOne(filename: string, source: string, faults: Faults, present: set<string>): (s: Step)
    ensures s.err.Some? ==> s.present == present
  {
    var target := Target(filename, source);
    if source == target then Step(None, present)
    else match StatOf(present, faults, target)
      case Present => Step(None, present)
      case StatFailed => Step(None, present)
      case NotExist =>
        var r := RenameOf(present, faults, source, target);
        if r.err.Some? && r.err.value != AlreadyExists then Step(Some(MoveFailed(filename, r.err.value)), present)
        else Step(None, r.present)
  }

  /** The reconcile loop over the extracted paths, stopping at the first move error. */
  function ReconcileFrom(filename: string, files: seq<string>, faults: Faults, present: set<string>): Step
    decreases |files|
  {
    if files == [] then Step(None, present)
    else
      var s := ReconcileOne(filename, files[0], faults, present);
      if s.err.Some? then s else ReconcileFrom(filename, files[1..], faults, s.present)
  }

  /**
   * A move never overwrites: where the target is already present (or cannot
   * be stat'ed), nothing changes; a move that happens leaves the target present.
   * An error is reported only for a rename onto an absent target that fails
   * other than with already-exists.
   */
  lemma ReconcileOneRules(filename: string, source: string, faults: Faults, present: set<string>)
    ensures var target, s := Target(filename, source), ReconcileOne(filename, source, faults, present);
      && (source == target || !StatOf(present, faults, target).NotExist? ==> s == Step(None, present))
      && (s.present != present ==> target !in present && target in s.present && s.err.None?)
      && (s.err.Some? <==> source != target && StatOf(present, faults, target).NotExist?
                           && RenameOf(present, faults, source, target).err.Some?
                           && RenameOf(present, faults, source, target).err != Some(AlreadyExists))
  {
    var target := Target(filename, source);
    if source != target && StatOf(present, faults, target).NotExist? && RenameOf(present, faults, source, target).err.None? {
      assert Within(source, source) && target + source[|source|..] == target;
    }
  }

  /** Reconciling a path a second time changes nothing: it is either not target or its target now exists. */
  lemma ReconcileOneIdempotent(filename: string, source: string, faults: Faults, present: set<string>)
    ensures var s := ReconcileOne(filename, source, faults, present);
      s.err.None? ==> ReconcileOne(filename, source, faults, s.present) == Step(None, s.present)
  {
    ReconcileOneRules(filename, source, faults, present);
    var s := ReconcileOne(filename, source, faults, present);
    if s.err.None? && s.present == present {
      ReconcileOneRules(filename, source, faults, present);
    }
  }

  /**
   * The archive's own wrapper directory `dst/<wrapper>` stays in place once
   * `dst` exists (as `MkdirAll` of any entry below it leaves it): its target
   * is `dst`, which `Stat` finds.
   */
  lemma WrapperEntryKept(filename: string, dst: string, faults: Faults, present: set<string>)
    requires dst in present && dst !in faults.statFails
    requires var w := WrapperName(filename);
      forall i :: 0 <= i < |dst| ==> !OccursAt(dst + w, i, w)
    ensures Target(filename, dst + WrapperName(filename)) == dst
    ensures ReconcileOne(filename, dst + WrapperName(filename), faults, present) == Step(None, present)
  {
    var w := WrapperName(filename);
    assert dst + w + "" == dst + w;
    TargetStripsWrapper(filename, dst, "");
  }

  /** The wrapper directory of "p-1.tar.gz" is "/p-1". */
  lemma WrapperOfExample()
    ensures WrapperName("p-1.tar.gz") == "/p-1"
  {
    var gz := ".tar.gz";
    assert "p-1.tar.gz"[..7] != gz && "p-1.tar.gz"[1..] == "-1.tar.gz";
    assert "-1.tar.gz"[..7] != gz && "-1.tar.gz"[1..] == "1.tar.gz";
    assert "1.tar.gz"[..7] != gz && "1.tar.gz"[1..] == gz;
    assert gz[..7] == gz && gz[7..] == "";
    assert RemoveAll(gz, gz) == "";
    assert RemoveAll("p-1.tar.gz", gz) == "p-1";
  }

  /** "/p-1" does not occur in "p-1/setup.py". */
  lemma WrapperAbsentFromExample()
    ensures RemoveAll("p-1/setup.py", "/p-1") == "p-1/setup.py"
  {
    var source, w := "p-1/setup.py", "/p-1";
    forall i | 0 <= i <= |source| ensures !OccursAt(source, i, w) {
      if i + 4 <= |source| {
        if i == 3 {
          assert source[i..i + 4][1] == 's' != w[1];
        } else {
          assert source[i..i + 4][0] == source[i] != w[0];
        }
      }
    }
    RemoveAllUnchangedIff(source, w);
  }

  /**
   * With `dst` ".", `filepath.Join` drops the "./", so the entries of an
   * sdist start with its wrapper directory and no "/<wrapper>" occurs in
   * them: the reconcile loop leaves them where they are.
   */
  lemma DotDestinationMovesNothing(faults: Faults, present: set<string>)
    ensures Join(".", "p-1/setup.py") == "p-1/setup.py"
    ensures ReconcileOne("p-1.tar.gz", Join(".", "p-1/setup.py"), faults, present) == Step(None, present)
  {
    assert CleanDir(".") == ".";
    WrapperOfExample();
    WrapperAbsentFromExample();
  }

  /**
   * A path `dst/<wrapper>/rest` whose target `dst/rest` lies in a directory
   * that does not exist cannot be moved: the rename fails with not-exist
   * and the run stops. An sdist listing only `p-1/sub/deep/` and a file in it,
   * extracted into "d", is such a case, since `MkdirAll` made `d/p-1/sub/deep`
   * but not `d/sub`.
   */
  lemma MissingTargetParentStopsMove(filename: string, dst: string, rest: string, faults: Faults, present: set<string>)
    requires var w := WrapperName(filename);
      (forall i :: 0 <= i < |dst| ==> !OccursAt(dst + w + rest, i, w)) && !Contains(rest, w)
    requires var source := dst + WrapperName(filename) + rest;
      source in present && source !in faults.renameFails
    requires dst + rest !in present && dst + rest !in faults.statFails && !ParentPresent(present, dst + rest)
    ensures Target(filename, dst + WrapperName(filename) + rest) == dst + rest
    ensures ReconcileOne(filename, dst + WrapperName(filename) + rest, faults, present)
      == Step(Some(MoveFailed(filename, NotFound)), present)
  {
    TargetStripsWrapper(filename, dst, rest);
    RemoveAllUnchangedIff(rest, WrapperName(filename));
    assert |WrapperName(filename)| > 0;
  }

  lemma ReconcileAt(filename: string, files: seq<string>, j: nat, faults: Faults, present: set<string>)
    requires j < |files|
    ensures var s := ReconcileOne(filename, files[j], faults, present);
      ReconcileFrom(filename, files[j..], faults, present) ==
        if s.err.Some? then s else ReconcileFrom(filename, files[j + 1..], faults, s.present)
  {
    assert files[j..][0] == files[j];
    assert files[j..][1..] == files[j + 1..];
  }

  /** The loop over `extractedFiles` in `DownloadFromRequirementsFile`. */
  method Reconcile(disk: Disk, filename: string, files: seq<string>) returns (err: Option<RunError>)
    modifies disk
    ensures Step(err, disk.present) == ReconcileFrom(filename, files, disk.faults, old(disk.present))
  {
    for j := 0 to |files|
      invariant ReconcileFrom(filename, files[j..], disk.faults, disk.present)
        == ReconcileFrom(filename, files, disk.faults, old(disk.present))
    {
      ReconcileAt(filename, files, j, disk.faults, disk.present);
      var extractDirName := WrapperName(filename);
      var oldLocation := files[j];
      var newLocation := RemoveAll(oldLocation, extractDirName);
      if oldLocation == newLocation {
        continue;
      }
      var st := disk.Stat(newLocation);
      if st.NotExist? {
        var e := disk.Rename(oldLocation, newLocation);
        if e.Some? && e.value != AlreadyExists {
          return Some(MoveFailed(filename, e.value));
        }
      }
    }
    assert files[|files|..] == [];
    err := None;
  }

  /**
   * A path the reconcile loop leaves alone, and goes on leaving alone while
   * its target stays: it holds no wrapper, its target cannot be stat'ed or
   * exists, or its rename is reported as already-exists.
   */
  predicate Settled(filename: string, source: string, faults: Faults, present: set<string>) {
    var target := Target(filename, source);
    || target == source
    || target in faults.statFails
    || target in present
    || (source in faults.renameFails && faults.renameFails[source] == AlreadyExists)
  }

  /** A settled path is skipped. */
  lemma SettledSkipped(filename: string, source: string, faults: Faults, present: set<string>)
    requires Settled(filename, source, faults, present)
    ensures ReconcileOne(filename, source, faults, present) == Step(None, present)
  {
  }

  /** A path reconciled without error is settled on the disk it leaves. */
  lemma ReconciledIsSettled(filename: string, source: string, faults: Faults, present: set<string>)
    ensures var s := ReconcileOne(filename, source, faults, present);
      s.err.None? ==> Settled(filename, source, faults, s.present)
  {
    var target := Target(filename, source);
    if source != target && StatOf(present, faults, target).NotExist? && RenameOf(present, faults, source, target).err.None? {
      assert Within(source, source) && target + source[|source|..] == target;
    }
  }

  /** A path below a tree holds every occurrence the tree's root holds. */
  lemma WithinKeepsContains(p: string, root: string, w: string)
    requires Within(p, root) && Contains(root, w)
    ensures Contains(p, w)
  {
    var k :| 0 <= k <= |root| && OccursAt(root, k, w);
    assert p[..|root|] == root by {
      if p != root {
        assert p[..|root| + 1] == root + "/";
        assert p[..|root|] == p[..|root| + 1][..|root|];
      }
    }
    assert k + |w| <= |root| <= |p|;
    assert p[k..k + |w|] == p[..|root|][k..k + |w|] == w;
    assert OccursAt(p, k, w);
  }

  /**
   * A later step moves only a tree whose root holds the wrapper name, so a
   * settled path whose target does not hold it stays settled.
   */
  lemma SettledThroughStep(filename: string, source: string, other: string, faults: Faults, present: set<string>)
    requires Settled(filename, source, faults, present)
    requires !Contains(Target(filename, source), WrapperName(filename))
    ensures var s := ReconcileOne(filename, other, faults, present);
      s.err.None? ==> Settled(filename, source, faults, s.present)
  {
    var t, w := Target(filename, source), WrapperName(filename);
    var s := ReconcileOne(filename, other, faults, present);
    if s.err.None? && s.present != present && t in present {
      TargetIsSourceIffNoWrapper(filename, other);
      assert !Within(t, other) by {
        if Within(t, other) {
          WithinKeepsContains(t, other, w);
        }
      }
      assert s.present == Moved(present, other, Target(filename, other));
    }
  }

  lemma {:induction false} SettledThroughLoop(filename: string, source: string, files: seq<string>, faults: Faults, present: set<string>)
    requires Settled(filename, source, faults, present)
    requires !Contains(Target(filename, source), WrapperName(filename))
    ensures var s := ReconcileFrom(filename, files, faults, present);
      s.err.None? ==> Settled(filename, source, faults, s.present)
    decreases |files|
  {
    if files != [] {
      SettledThroughStep(filename, source, files[0], faults, present);
      var s := ReconcileOne(filename, files[0], faults, present);
      if s.err.None? {
        SettledThroughLoop(filename, source, files[1..], faults, s.present);
      }
    }
  }

  /** A loop over settled paths changes nothing and reports no error. */
  lemma {:induction false} SettledLoopSkips(filename: string, files: seq<string>, faults: Faults, present: set<string>)
    requires forall i :: 0 <= i < |files| ==> Settled(filename, files[i], faults, present)
    ensures ReconcileFrom(filename, files, faults, present) == Step(None, present)
    decreases |files|
  {
    if files != [] {
      SettledSkipped(filename, files[0], faults, present);
      forall i | 0 <= i < |files| - 1 ensures Settled(filename, files[1..][i], faults, present) {
        assert files[1..][i] == files[i + 1];
      }
      SettledLoopSkips(filename, files[1..], faults, present);
    }
  }

  /**
   * After a loop without error every listed path is settled, provided no
   * target still holds the wrapper name.
   */
  lemma {:induction false} ReconcileSettles(filename: string, files: seq<string>, faults: Faults, present: set<string>)
    requires forall i :: 0 <= i < |files| ==> !Contains(Target(filename, files[i]), WrapperName(filename))
    ensures var s := ReconcileFrom(filename, files, faults, present);
      s.err.None? ==> forall i :: 0 <= i < |files| ==> Settled(filename, files[i], faults, s.present)
    decreases |files|
  {
    if files != [] {
      var s0 := ReconcileOne(filename, files[0], faults, present);
      ReconciledIsSettled(filename, files[0], faults, present);
      if s0.err.None? {
        var rest := files[1..];
        forall i | 0 <= i < |rest| ensures !Contains(Target(filename, rest[i]), WrapperName(filename)) {
          assert rest[i] == files[i + 1];
        }
        ReconcileSettles(filename, rest, faults, s0.present);
        SettledThroughLoop(filename, files[0], rest, faults, s0.present);
        var s := ReconcileFrom(filename, rest, faults, s0.present);
        forall i | 0 <= i < |files| ensures s.err.None? ==> Settled(filename, files[i], faults, s.present) {
          if i > 0 {
            assert files[i] == rest[i - 1];
          }
        }
      }
    }
  }

  /**
   * Reconciling the same extracted paths a second time, on the disk the first
   * run left, moves nothing and reports no error.
   */
  lemma ReconcileRerunChangesNothing(filename: string, files: seq<string>, faults: Faults, present: set<string>)
    requires forall i :: 0 <= i < |files| ==> !Contains(Target(filename, files[i]), WrapperName(filename))
    ensures var s := ReconcileFrom(filename, files, faults, present);
      s.err.None? ==> ReconcileFrom(filename, files, faults, s.present) == Step(None, s.present)
  {
    ReconcileSettles(filename, files, faults, present);
    var s := ReconcileFrom(filename, files, faults, present);
    if s.err.None? {
      SettledLoopSkips(filename, files, faults, s.present);
    }
  }

  // ---------------------------------------------------------------------------
  // One requirement, and the whole run
  // ---------------------------------------------------------------------------

  /** The result of extracting the downloaded `filename`: the paths, the error and the disk. */
  datatype Extracted = Extracted(paths: seq<string>, err: Option<RunError>, present: set<string>)

  /** Extraction by `filepath.Ext(filename)`: `Untar` for ".gz", `Unzip` for anything else. */
  function ExtractOf(env: Env, dst: string, filename: string, faults: Faults, present: set<string>): Extracted {
    var path := Join(dst, filename);
    if Ext(filename) == ".gz" then
      if path !in env.archives then Extracted([], Some(ArchiveOpenFailed(path)), present)
      else
        var x := UntarOf(dst, env.archives[path].asTar, faults, present);
        Extracted(x.paths, if x.err.Some? then Some(UntarFailed(filename, x.err.value)) else None, x.present)
    else
      var x := UnzipOf(dst, if path in env.archives then env.archives[path].asZip else NotZip, faults, present);
      Extracted(x.paths, if x.err.Some? then Some(UnzipFailed(filename, x.err.value)) else None, x.present)
  }

  /** Download, extract and reconcile one "==" requirement. */
  function ProcessOne(env: Env, dst: string, r: Requirement, faults: Faults, present: set<string>): Step {
    var d := DownloadOf(env.net, r.name, r.specification.version);
    if d.err.Some? then Step(Some(DownloadFailed(d.err.value)), present)
    else
      var x := ExtractOf(env, dst, d.filename, faults, present);
      if x.err.Some? then Step(x.err, x.present)
      else ReconcileFrom(d.filename, x.paths, faults, x.present)
  }

  /** The requirements in order, stopping at the first error. */
  function ProcessAll(env: Env, dst: string, reqs: seq<Requirement>, faults: Faults, present: set<string>): Step
    decreases |reqs|
  {
    if reqs == [] then Step(None, present)
    else
      var s := ProcessOne(env, dst, reqs[0], faults, present);
      if s.err.Some? then s else ProcessAll(env, dst, reqs[1..], faults, s.present)
  }

  /** What `DownloadFromRequirementsFile` returns, and the disk afterwards. */
  datatype Outcome = Outcome(reqs: seq<Requirement>, err: Option<RunError>, present: set<string>)

  /**
   * The parse error is returned only when no requirement was parsed: with
   * one or more, the error variable is overwritten by the first download,
   * and after a full run it is nil.
   */
  function RunOf(env: Env, dst: string, m: Manifest, faults: Faults, present: set<string>): Outcome {
    var p := ParseManifest(m);
    var s := ProcessAll(env, dst, p.reqs, faults, present);
    Outcome(p.reqs,
            if s.err.Some? then s.err
            else if p.reqs == [] && p.err.Some? then Some(ParseFailed(p.err.value))
            else None,
            s.present)
  }

  lemma ProcessAt(env: Env, dst: string, reqs: seq<Requirement>, i: nat, faults: Faults, present: set<string>)
    requires i < |reqs|
    ensures var s := ProcessOne(env, dst, reqs[i], faults, present);
      ProcessAll(env, dst, reqs[i..], faults, present) ==
        if s.err.Some? then s else ProcessAll(env, dst, reqs[i + 1..], faults, s.present)
  {
    assert reqs[i..][0] == reqs[i];
    assert reqs[i..][1..] == reqs[i + 1..];
  }

  /** `DownloadFromRequirementsFile(dst, filename)` on the manifest the file holds. */
  method DownloadFromRequirementsFile(disk: Disk, env: Env, dst: string, m: Manifest)
    returns (reqs: seq<Requirement>, err: Option<RunError>)
    modifies disk
    ensures Outcome(reqs, err, disk.present) == RunOf(env, dst, m, disk.faults, old(disk.present))
  {
    var parseErr;
    reqs, parseErr := ParseRequirements(m);
    ManifestAllEquality(m);
    err := if parseErr.Some? then Some(ParseFailed(parseErr.value)) else None;
    for i := 0 to |reqs|
      invariant ProcessAll(env, dst, reqs[i..], disk.faults, disk.present)
        == ProcessAll(env, dst, reqs, disk.faults, old(disk.present))
      invariant i > 0 ==> err.None?
      invariant i == 0 ==> err == if parseErr.Some? then Some(ParseFailed(parseErr.value)) else None
    {
      var req := reqs[i];
      ProcessAt(env, dst, reqs, i, disk.faults, disk.present);
      if req.specification.comparison == "==" {
        var filename, downloadErr := DownloadRelease(env.net, req.name, req.specification.version);
        err := if downloadErr.Some? then Some(DownloadFailed(downloadErr.value)) else None;
        if err.Some? {
          return;
        }
        var extension := Ext(filename);
        var extractedFiles: seq<string>;
        var path := Join(dst, filename);
        if extension == ".gz" {
          if path !in env.archives {
            return reqs, Some(ArchiveOpenFailed(path));
          }
          var untarErr;
          extractedFiles, untarErr := Untar(disk, dst, env.archives[path].asTar);
          if untarErr.Some? {
            return reqs, Some(UntarFailed(filename, untarErr.value));
          }
        } else {
          var unzipErr;
          extractedFiles, unzipErr := Unzip(disk, if path in env.archives then env.archives[path].asZip else NotZip, dst);
          if unzipErr.Some? {
            return reqs, Some(UnzipFailed(filename, unzipErr.value));
          }
        }
        var moveErr := Reconcile(disk, filename, extractedFiles);
        if moveErr.Some? {
          return reqs, moveErr;
        }
      } else {
        assert false;
      }
    }
    assert reqs[|reqs|..] == [];
  }

  // ---------------------------------------------------------------------------
  // Properties of the run
  // ---------------------------------------------------------------------------

  /**
   * Requirements are processed in parse order: processing `a + b` is
   * processing `a` and, unless that failed, `b` on the disk it left.
   */
  lemma {:induction false} ProcessAllAppend(env: Env, dst: string, a: seq<Requirement>, b: seq<Requirement>,
                                            faults: Faults, present: set<string>)
    ensures var s := ProcessAll(env, dst, a, faults, present);
      ProcessAll(env, dst, a + b, faults, present) ==
        if s.err.Some? then s else ProcessAll(env, dst, b, faults, s.present)
    decreases |a|
  {
    if a == [] {
      assert a + b == b;
    } else {
      assert (a + b)[0] == a[0];
      assert (a + b)[1..] == a[1..] + b;
      var s := ProcessOne(env, dst, a[0], faults, present);
      if s.err.None? {
        ProcessAllAppend(env, dst, a[1..], b, faults, s.present);
      }
    }
  }

  /** The full parsed list is returned whatever happens, and the run's error is the first failure's. */
  lemma RunReturnsParsedList(env: Env, dst: string, m: Manifest, faults: Faults, present: set<string>)
    ensures var o, p := RunOf(env, dst, m, faults, present), ParseManifest(m);
      && o.reqs == p.reqs
      && (ProcessAll(env, dst, p.reqs, faults, present).err.Some? ==> o.err == ProcessAll(env, dst, p.reqs, faults, present).err)
  {
  }

  /** With no requirement parsed, the parse error (or none) is what comes back, and the disk is untouched. */
  lemma ZeroRequirementsKeepParseError(env: Env, dst: string, m: Manifest, faults: Faults, present: set<string>)
    requires ParseManifest(m).reqs == []
    ensures var o, p := RunOf(env, dst, m, faults, present), ParseManifest(m);
      o == Outcome([], if p.err.Some? then Some(ParseFailed(p.err.value)) else None, present)
  {
  }

  /**
   * A parse error after at least one parsed requirement is lost: when all of
   * them download, extract and move without error, there is no error.
   */
  lemma ParseErrorSwallowed(env: Env, dst: string, m: Manifest, faults: Faults, present: set<string>)
    requires ParseManifest(m).reqs != []
    requires ProcessAll(env, dst, ParseManifest(m).reqs, faults, present).err.None?
    ensures RunOf(env, dst, m, faults, present).err.None?
  {
  }

  /** An unopenable manifest downloads nothing and reports the open error. */
  lemma UnopenableManifest(env: Env, dst: string, faults: Faults, present: set<string>)
    ensures RunOf(env, dst, Unopenable, faults, present) == Outcome([], Some(ParseFailed(Requirements.OpenFailed)), present)
  {
  }

  /**
   * A requirement whose release cannot be found stops the run with that
   * error before anything is extracted.
   */
  lemma NoReleaseStopsBeforeExtraction(env: Env, dst: string, r: Requirement, rest: seq<Requirement>,
                                       faults: Faults, present: set<string>)
    requires DownloadOf(env.net, r.name, r.specification.version).fetched.None?
    ensures ProcessAll(env, dst, [r] + rest, faults, present)
      == Step(Some(DownloadFailed(NoReleaseFound(r.name, r.specification.version))), present)
  {
    DownloadFetchesSelected(env.net, r.name, r.specification.version);
    assert ([r] + rest)[0] == r;
  }
}
