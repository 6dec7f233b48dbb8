/**
 * Release selection and download on the package index: the last wheel or
 * the last sdist of a version, the wheel-then-sdist fallback of
 * `DownloadRelease`, and the "no release found" error.
 *
 * The index itself is an oracle: the metadata of a project (the JSON of
 * `pypi/<name>/json`, reduced to the fields the pipeline reads) and the
 * URLs whose transfer fails.
 */
module PackageIndex {
  import opened Wrappers

  /** The fields of a release file the pipeline reads. */
  datatype Release = Release(filename: string, packageType: string, url: string)

  /** Go's zero `Release`: every field empty. */
  const ZeroRelease := Release("", "", "")

  /** `Package`: the files of every version (`Info`, read only by `DownloadLatest`, is left out). */
  datatype Package = Package(releases: map<string, seq<Release>>)

  /** The package a failed or undecodable metadata request leaves behind. */
  const EmptyPackage := Package(map[])

  /**
   * The index as the pipeline sees it. A project missing from `metadata`
   * stands for a request that failed; `GetLatest` drops that error, so it
   * reads as a package with no releases.
   */
  datatype Network = Network(metadata: map<string, Package>, failingUrls: set<string>)

  /** `p.Releases[version]`, which is nil for an absent version. */
  function ReleasesOf(p: Package, version: string): (rs: seq<Release>)
    ensures version !in p.releases ==> rs == []
  {
    if version in p.releases then p.releases[version] else []
  }

  const Wheel := "bdist_wheel"
  const Sdist := "sdist"

  /** The last release of the given type, or the zero release when there is none. */
  function LastOfKind(rs: seq<Release>, kind: string): Release
    decreases |rs|
  {
    if rs == [] then ZeroRelease
    else if rs[|rs| - 1].packageType == kind then rs[|rs| - 1]
    else LastOfKind(rs[..|rs| - 1], kind)
  }

  /**
   * The result is the release of that type with no other of the type after it,
   * or, when there is no release of the type at all, the zero release.
   */
  lemma {:induction false} LastOfKindIsLastMatch(rs: seq<Release>, kind: string)
    ensures var r := LastOfKind(rs, kind);
      || (exists k :: 0 <= k < |rs| && rs[k] == r && r.packageType == kind
            && forall j :: k < j < |rs| ==> rs[j].packageType != kind)
      || (r == ZeroRelease && forall j :: 0 <= j < |rs| ==> rs[j].packageType != kind)
    decreases |rs|
  {
    if rs != [] && rs[|rs| - 1].packageType != kind {
      var init := rs[..|rs| - 1];
      LastOfKindIsLastMatch(init, kind);
      var r := LastOfKind(init, kind);
      if exists k :: 0 <= k < |init| && init[k] == r && r.packageType == kind
           && forall j :: k < j < |init| ==> init[j].packageType != kind {
        var k :| 0 <= k < |init| && init[k] == r && r.packageType == kind
           && forall j :: k < j < |init| ==> init[j].packageType != kind;
        assert rs[k] == r;
      }
    }
  }

  /** A release of the type placed last is what is found. */
  lemma LastOfKindAppend(rs: seq<Release>, r: Release, kind: string)
    ensures LastOfKind(rs + [r], kind) == if r.packageType == kind then r else LastOfKind(rs, kind)
  {
    assert (rs + [r])[..|rs|] == rs;
  }

  /** Last-match-wins loop over `rs`; `GetWheelByVersion` and `GetSdistByVersion` share it. */
  method LastByType(rs: seq<Release>, kind: string) returns (found: Release)
    ensures found == LastOfKind(rs, kind)
  {
    found := ZeroRelease;
    for i := 0 to |rs|
      invariant found == LastOfKind(rs[..i], kind)
    {
      LastOfKindAppend(rs[..i], rs[i], kind);
      assert rs[..i + 1] == rs[..i] + [rs[i]];
      if rs[i].packageType == kind {
        found := rs[i];
      }
    }
    assert rs[..|rs|] == rs;
  }

  /** `GetWheelByVersion`: the last "bdist_wheel" file of the version. */
  method GetWheelByVersion(p: Package, version: string) returns (wheel: Release)
    ensures wheel == LastOfKind(ReleasesOf(p, version), Wheel)
  {
    wheel := LastByType(ReleasesOf(p, version), Wheel);
  }

  /** `GetSdistByVersion`: the last "sdist" file of the version. */
  method GetSdistByVersion(p: Package, version: string) returns (sdist: Release)
    ensures sdist == LastOfKind(ReleasesOf(p, version), Sdist)
  {
    sdist := LastByType(ReleasesOf(p, version), Sdist);
  }

  /** The release `DownloadRelease` picks: the last wheel unless its URL is empty, else the last sdist. */
  function SelectRelease(p: Package, version: string): Release {
    var wheel := LastOfKind(ReleasesOf(p, version), Wheel);
    if wheel.url != "" then wheel else LastOfKind(ReleasesOf(p, version), Sdist)
  }

  /**
   * Selection looks at the URL of the last wheel only: when it is empty the
   * last sdist is taken, even though an earlier wheel has a URL.
   */
  lemma EmptyLastWheelFallsBack(p: Package, version: string, k: nat)
    requires var rs := ReleasesOf(p, version);
      && k < |rs| && rs[k].packageType == Wheel && rs[k].url != ""
      && LastOfKind(rs, Wheel).url == ""
    ensures SelectRelease(p, version) == LastOfKind(ReleasesOf(p, version), Sdist)
  {
  }

  /** With wheels and sdists present, a last wheel with a URL wins over any sdist. */
  lemma WheelPreferred(p: Package, version: string, k: nat)
    requires var rs := ReleasesOf(p, version);
      && k < |rs| && rs[k].packageType == Wheel && rs[k].url != ""
      && forall j :: k < j < |rs| ==> rs[j].packageType != Wheel
    ensures SelectRelease(p, version) == ReleasesOf(p, version)[k]
  {
    var rs := ReleasesOf(p, version);
    LastOfKindIsLastMatch(rs, Wheel);
  }

  /** `GetRelease(name, version)`: the version is ignored and the latest metadata fetched. */
  function MetadataOf(net: Network, project: string): Package {
    if project in net.metadata then net.metadata[project] else EmptyPackage
  }

  datatype DownloadError = NoReleaseFound(project: string, version: string) | TransferFailed(url: string)

  /**
   * What `DownloadRelease` returns: the file name of the release it picked,
   * the URL it handed to the downloader (None when it never called it), and
   * its error.
   */
  datatype Download = Download(filename: string, fetched: Option<string>, err: Option<DownloadError>)

  function DownloadOf(net: Network, project: string, version: string): Download {
    var release := SelectRelease(MetadataOf(net, project), version);
    if release.url == "" then Download(release.filename, None, Some(NoReleaseFound(project, version)))
    else Download(release.filename, Some(release.url),
                  if release.url in net.failingUrls then Some(TransferFailed(release.url)) else None)
  }

  /** `DownloadRelease` (the destination directory only matters to the transfer, which is an oracle). */
  method DownloadRelease(net: Network, project: string, version: string) returns (filename: string, err: Option<DownloadError>)
    ensures filename == DownloadOf(net, project, version).filename
    ensures err == DownloadOf(net, project, version).err
  {
    var pkg := MetadataOf(net, project);
    var release := GetWheelByVersion(pkg, version);
    if release.url == "" {
      release := GetSdistByVersion(pkg, version);
    }
    if release.url == "" {
      return release.filename, Some(NoReleaseFound(project, version));
    }
    filename := release.filename;
    err := if release.url in net.failingUrls then Some(TransferFailed(release.url)) else None;
  }

  /**
   * The downloader is called exactly when a release with a URL was found, with
   * that URL, which is the last wheel's or the last sdist's; otherwise the
   * error is "no release found".
   */
  lemma DownloadFetchesSelected(net: Network, project: string, version: string)
    ensures var d, rs := DownloadOf(net, project, version), ReleasesOf(MetadataOf(net, project), version);
      && (d.fetched.None? <==> d.err == Some(NoReleaseFound(project, version)))
      && (d.fetched.None? <==> forall j :: 0 <= j < |rs| && rs[j].packageType in {Wheel, Sdist} ==>
            rs[j] != LastOfKind(rs, rs[j].packageType) || rs[j].url == "")
      && (d.fetched.Some? ==>
            && d.fetched.value != ""
            && (d.fetched.value == LastOfKind(rs, Wheel).url || d.fetched.value == LastOfKind(rs, Sdist).url))
  {
    var rs := ReleasesOf(MetadataOf(net, project), version);
    LastOfKindIsLastMatch(rs, Wheel);
    LastOfKindIsLastMatch(rs, Sdist);
  }

  /** A project the index knows nothing about is never downloaded. */
  lemma UnknownProjectNotFound(net: Network, project: string, version: string)
    requires project !in net.metadata
    ensures DownloadOf(net, project, version) == Download("", None, Some(NoReleaseFound(project, version)))
  {
  }
}
