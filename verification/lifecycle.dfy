/** `install_proton_version` and `uninstall_proton_version`.

    The file system is the directory listing of `Inventory`; what the code asks
    the outside world to do (fetch the release, download an asset, unpack the
    archive, delete a directory) is returned as a list of effects next to the
    listing that results. The archive's contents are a parameter: the
    directories it unpacks into the compatibility-tools directory. */
module Lifecycle {
  import opened Outcomes
  import opened Inventory
  import opened Ordering

  /** One asset of a release: `name` and `browser_download_url`. */
  datatype Asset = Asset(name: string, downloadUrl: string)

  /** The side effects, in the order the code performs them. */
  datatype Effect =
    | FetchRelease(tag: string)           // GET of the release with this tag
    | Download(url: string, file: string) // streamed into the staging directory
    | Extract(archive: string)            // extractall of the staged archive
    | RemoveTree(dir: string)             // rmtree of a compatibility-tool directory

  /** A command's result: the listing afterwards, how it ended, and what it did. */
  datatype Transition = Transition(listing: Listing, outcome: Result<()>, effects: seq<Effect>)

  const TarballSuffix: string := ".tar.gz"

  /** Python's `str.endswith`. */
  predicate EndsWith(s: string, suffix: string) {
    |suffix| <= |s| && s[|s| - |suffix|..] == suffix
  }

  lemma EndsWithAppended(s: string, suffix: string)
    ensures EndsWith(s + suffix, suffix)
  {
    assert (s + suffix)[|s|..] == suffix;
  }

  /** The archive the code opens after the downloads: `<version>.tar.gz`. */
  function ArchiveName(v: string): (a: string)
    ensures EndsWith(a, TarballSuffix)
  {
    EndsWithAppended(v, TarballSuffix);
    v + TarballSuffix
  }

  /** The assets the download loop does not skip, in release order. */
  function Tarballs(assets: seq<Asset>): (r: seq<Asset>)
    ensures |r| <= |assets|
    ensures forall a :: a in r <==> a in assets && EndsWith(a.name, TarballSuffix)
  {
    if |assets| == 0 then []
    else
      var rest := Tarballs(assets[1..]);
      assert forall a :: a in assets <==> a == assets[0] || a in assets[1..];
      if EndsWith(assets[0].name, TarballSuffix) then [assets[0]] + rest else rest
  }

  /** The filter distributes over concatenation: it keeps the release's order
      and every repeated asset. */
  lemma {:induction false} TarballsAppend(a: seq<Asset>, b: seq<Asset>)
    ensures Tarballs(a + b) == Tarballs(a) + Tarballs(b)
    decreases |a|
  {
    if |a| > 0 {
      assert (a + b)[0] == a[0] && (a + b)[1..] == a[1..] + b;
      TarballsAppend(a[1..], b);
    } else {
      assert a + b == b;
    }
  }

  /** One download effect per asset, each saved under the asset's name. */
  function Downloads(assets: seq<Asset>): (r: seq<Effect>)
    ensures |r| == |assets|
    ensures forall i :: 0 <= i < |assets| ==> r[i] == Download(assets[i].downloadUrl, assets[i].name)
  {
    if |assets| == 0 then []
    else [Download(assets[0].downloadUrl, assets[0].name)] + Downloads(assets[1..])
  }

  /** Some asset in the list is called `file`: of the release's assets, it is
      offered; of the downloaded ones, it is in the staging directory. */
  predicate Staged(assets: seq<Asset>, file: string) {
    exists i :: 0 <= i < |assets| && assets[i].name == file
  }

  /** The release offers an asset called `<version>.tar.gz`. */
  predicate ArchiveOffered(assets: seq<Asset>, v: string) {
    Staged(assets, ArchiveName(v))
  }

  /** The archive is in the staging directory after the download loop exactly
      when the release offers it: the loop skips only names without the
      `.tar.gz` suffix, and the archive's name has it. */
  lemma ArchiveStagedIffOffered(assets: seq<Asset>, v: string)
    ensures Staged(Tarballs(assets), ArchiveName(v)) <==> ArchiveOffered(assets, v)
  {
    var t := Tarballs(assets);
    if ArchiveOffered(assets, v) {
      var i :| 0 <= i < |assets| && assets[i].name == ArchiveName(v);
      assert assets[i] in t;
      var j :| 0 <= j < |t| && t[j] == assets[i];
    }
    if Staged(t, ArchiveName(v)) {
      var j :| 0 <= j < |t| && t[j].name == ArchiveName(v);
      assert t[j] in assets;
      var i :| 0 <= i < |assets| && assets[i] == t[j];
    }
  }

  /** A directory of the listing has the given name. */
  predicate HasName(l: Listing, name: string) {
    exists i :: 0 <= i < |l| && l[i].name == name
  }

  /** The directories of `d` that the archive does not overwrite. */
  function Untouched(d: Listing, unpacked: Listing): (r: Listing)
    ensures |r| <= |d|
    ensures forall e :: e in r <==> e in d && !HasName(unpacked, e.name)
  {
    if |d| == 0 then []
    else
      var rest := Untouched(d[1..], unpacked);
      assert forall e :: e in d <==> e == d[0] || e in d[1..];
      if HasName(unpacked, d[0].name) then rest else [d[0]] + rest
  }

  /** `extractall(PROTON_DIR)`: the archive's top-level directories are written
      into the compatibility-tools directory, each replacing a directory of the
      same name. */
  function Unpack(d: Listing, unpacked: Listing): (r: Listing)
    ensures forall e :: e in unpacked ==> e in r
    ensures forall e :: e in d && !HasName(unpacked, e.name) ==> e in r
    ensures forall e :: e in r ==> e in unpacked || (e in d && !HasName(unpacked, e.name))
  {
    Untouched(d, unpacked) + unpacked
  }

  /** After the release lookup, only files with the `.tar.gz` suffix are
      downloaded. */
  lemma FetchedTarballs(v: string, assets: seq<Asset>)
    ensures var fetched := [FetchRelease(v)] + Downloads(Tarballs(assets));
      && fetched[0] == FetchRelease(v)
      && forall i :: 0 <= i < |fetched| && fetched[i].Download? ==> EndsWith(fetched[i].file, TarballSuffix)
  {
    var downloaded := Tarballs(assets);
    var fetched := [FetchRelease(v)] + Downloads(downloaded);
    forall i | 0 <= i < |fetched| && fetched[i].Download?
      ensures EndsWith(fetched[i].file, TarballSuffix)
    {
      assert fetched[i] == Downloads(downloaded)[i - 1];
      assert downloaded[i - 1] in downloaded;
    }
  }

  /** `install_proton_version(v)`. `release` is the parsed response of the tag
      lookup, `None` when it has no asset list (the lookup found no release);
      `unpacked` is what the archive holds. */
  function Install(d: Listing, v: string, release: Option<seq<Asset>>, unpacked: Listing): (t: Transition)
    ensures t.outcome.Err? ==> t.listing == d
    ensures t.outcome.Ok? ==> t.listing == Unpack(d, unpacked)
    ensures t.outcome.Ok? <==> IsInstalled(d, v) == Ok(false) && release.Some? && ArchiveOffered(release.value, v)
    ensures t.effects != [] ==> t.effects[0] == FetchRelease(v)
    ensures forall i :: 0 <= i < |t.effects| && t.effects[i].Download? ==>
      EndsWith(t.effects[i].file, TarballSuffix)
    ensures t.outcome.Ok? ==> |t.effects| > 0 && t.effects[|t.effects| - 1] == Extract(ArchiveName(v))
  {
    match IsInstalled(d, v)
    case Err(e) => Transition(d, Err(e), [])
    case Ok(true) => Transition(d, Err(AlreadyInstalled), [])
    case Ok(false) =>
      match release
      case None => Transition(d, Err(ReleaseNotFound(v)), [FetchRelease(v)])
      case Some(assets) =>
        var downloaded := Tarballs(assets);
        var fetched := [FetchRelease(v)] + Downloads(downloaded);
        ArchiveStagedIffOffered(assets, v);
        FetchedTarballs(v, assets);
        if !Staged(downloaded, ArchiveName(v)) then
          Transition(d, Err(ArchiveNotStaged(ArchiveName(v))), fetched)
        else
          Transition(Unpack(d, unpacked), Ok(()), fetched + [Extract(ArchiveName(v))])
  }

  /** A version the scan reports as installed is refused before anything is
      fetched, and a scan that raises stops the command the same way. */
  lemma InstallRefuses(d: Listing, v: string, release: Option<seq<Asset>>, unpacked: Listing)
    ensures IsInstalled(d, v) == Ok(true) ==>
      Install(d, v, release, unpacked) == Transition(d, Err(AlreadyInstalled), [])
    ensures IsInstalled(d, v).Err? ==>
      Install(d, v, release, unpacked) == Transition(d, Err(IsInstalled(d, v).error), [])
  {
  }

  /** Without the archive in the release nothing is unpacked, even though the
      other tarballs were downloaded. */
  lemma InstallNeedsArchive(d: Listing, v: string, assets: seq<Asset>, unpacked: Listing)
    requires IsInstalled(d, v) == Ok(false)
    requires !ArchiveOffered(assets, v)
    ensures Install(d, v, Some(assets), unpacked) ==
      Transition(d, Err(ArchiveNotStaged(ArchiveName(v))), [FetchRelease(v)] + Downloads(Tarballs(assets)))
  {
    ArchiveStagedIffOffered(assets, v);
  }

  /** A readable listing in which some directory's tag is `v` reports `v` as
      installed. */
  lemma ReadableListingFinds(l: Listing, v: string, k: nat)
    requires forall e :: e in l ==> VersionTag(e).Ok?
    requires k < |l| && VersionTag(l[k]) == Ok(v)
    ensures IsInstalled(l, v) == Ok(true)
  {
    assert !ScannedPast(l, v, |l|);
    forall j | 0 <= j < |l|
      ensures VersionTag(l[j]).Ok?
    {
      assert l[j] in l;
    }
  }

  /** Once the archive has unpacked a directory whose version file names `v`,
      and every directory is readable, the scan finds `v`. */
  lemma InstallThenInstalled(d: Listing, v: string, release: Option<seq<Asset>>, unpacked: Listing, k: nat)
    requires Install(d, v, release, unpacked).outcome.Ok?
    requires k < |unpacked| && VersionTag(unpacked[k]) == Ok(v)
    requires forall e :: e in Install(d, v, release, unpacked).listing ==> VersionTag(e).Ok?
    ensures IsInstalled(Install(d, v, release, unpacked).listing, v) == Ok(true)
  {
    var l := Install(d, v, release, unpacked).listing;
    assert unpacked[k] in l;
    var m :| 0 <= m < |l| && l[m] == unpacked[k];
    ReadableListingFinds(l, v, m);
  }

  /** Installing the same version a second time is refused. */
  lemma InstallTwice(d: Listing, v: string, release: Option<seq<Asset>>, unpacked: Listing, k: nat,
                     release2: Option<seq<Asset>>, unpacked2: Listing)
    requires Install(d, v, release, unpacked).outcome.Ok?
    requires k < |unpacked| && VersionTag(unpacked[k]) == Ok(v)
    requires forall e :: e in Install(d, v, release, unpacked).listing ==> VersionTag(e).Ok?
    ensures var l := Install(d, v, release, unpacked).listing;
            Install(l, v, release2, unpacked2) == Transition(l, Err(AlreadyInstalled), [])
  {
    InstallThenInstalled(d, v, release, unpacked, k);
  }

  /** The scan never raises "not installed": only reading a version file can
      raise, and it raises a file error. */
  lemma ScanErrorIsFileError(d: Listing, v: string, e: Error)
    requires exists j: nat :: FirstFailure(d, v, j, e)
    ensures e.VersionFileMissing? || e.TagFieldMissing?
  {
    var j: nat :| FirstFailure(d, v, j, e);
    assert VersionTag(d[j]) == Err(e);
  }

  /** `uninstall_proton_version(v)`. The guard scan and the deleting loop read
      the same version files in the same order, so both stop at the first
      directory whose tag is `v`; that directory is deleted. */
  function Uninstall(d: Listing, v: string): (t: Transition)
    ensures t.outcome.Err? ==> t.listing == d && t.effects == []
    ensures t.outcome.Ok? <==> IsInstalled(d, v) == Ok(true)
    ensures t.outcome == Err(NotInstalled) <==> IsInstalled(d, v) == Ok(false)
    ensures forall e :: IsInstalled(d, v) == Err(e) <==> t.outcome == Err(e) && e != NotInstalled
    ensures t.outcome.Ok? ==> exists i: nat :: && FirstMatch(d, v, i)
                                           && t.listing == d[..i] + d[i + 1..]
                                           && t.effects == [RemoveTree(d[i].name)]
  {
    match Locate(d, v)
    case Err(e) =>
      ScanErrorIsFileError(d, v, e);
      Transition(d, Err(e), [])
    case Ok(None) => Transition(d, Err(NotInstalled), [])
    case Ok(Some(i)) => Transition(d[..i] + d[i + 1..], Ok(()), [RemoveTree(d[i].name)])
  }


  /** The directory a successful uninstall deletes. */
  lemma RemovedIndex(d: Listing, v: string) returns (i: nat)
    requires Uninstall(d, v).outcome.Ok?
    ensures FirstMatch(d, v, i) && Uninstall(d, v).listing == d[..i] + d[i + 1..]
  {
    i := Locate(d, v).value.value;
  }

  /** Uninstalling removes exactly one directory and keeps the others. */
  lemma UninstallRemovesOne(d: Listing, v: string)
    requires Uninstall(d, v).outcome.Ok?
    ensures |Uninstall(d, v).listing| == |d| - 1
    ensures exists i: nat :: && FirstMatch(d, v, i)
                         && multiset(d) == multiset(Uninstall(d, v).listing) + multiset{d[i]}
  {
    var i := RemovedIndex(d, v);
    RemoveAt(d, i);
    assert d[i] in multiset(d);
  }

  /** A listing in which no directory's tag is `v` never reports `v` as installed. */
  lemma AbsentNotInstalled(l: Listing, v: string)
    requires forall m :: 0 <= m < |l| ==> VersionTag(l[m]) != Ok(v)
    ensures IsInstalled(l, v) != Ok(true)
  {
    IsInstalledIff(l, v);
  }

  /** When at most one directory carries `v`, uninstalling it leaves no
      directory the scan could report as `v`. */
  lemma UninstallThenNotInstalled(d: Listing, v: string)
    requires Uninstall(d, v).outcome.Ok?
    requires forall i, j :: 0 <= i < j < |d| && VersionTag(d[i]) == Ok(v) ==> VersionTag(d[j]) != Ok(v)
    ensures IsInstalled(Uninstall(d, v).listing, v) != Ok(true)
  {
    var i := RemovedIndex(d, v);
    var l := Uninstall(d, v).listing;
    forall m | 0 <= m < |l|
      ensures VersionTag(l[m]) != Ok(v)
    {
      if m < i {
        assert l[m] == d[m];
      } else {
        assert l[m] == d[m + 1];
      }
    }
    AbsentNotInstalled(l, v);
  }
}
