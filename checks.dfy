/**
 * The individual checks of `velo doctor`, each returning the number it adds
 * to the issue or warning counter, and the icon of the line it prints.
 */
module Checks {
  import opened Wrappers
  import opened Text

  /** The icon of a check's line: ✅, ❌ or ⚠️. */
  datatype Mark = Passed | Failed | Warned

  /** What a check returns to `run`, and how its line is marked. */
  datatype Verdict = Verdict(count: nat, mark: Mark)

  // ----- architecture -----

  /** What `/usr/bin/uname -m` gave: it could not be run, or its output decoded as UTF-8 (None when not UTF-8). */
  datatype UnameProbe = UnameFailed(error: string) | UnameOutput(decoded: Option<string>)

  const AppleSilicon: string := "arm64"

  /** The architecture the doctor reports: the trimmed output, or "unknown" when it cannot be decoded. */
  function DetectedArchitecture(decoded: Option<string>): string {
    match decoded
    case Some(text) => Trim(text)
    case None => "unknown"
  }

  function CheckArchitecture(probe: UnameProbe): Verdict {
    match probe
    case UnameFailed(_) => Verdict(1, Warned)
    case UnameOutput(decoded) =>
      if DetectedArchitecture(decoded) == AppleSilicon then Verdict(0, Passed) else Verdict(1, Failed)
  }

  /**
   * 0 exactly for output that trims to "arm64", 1 otherwise, including when
   * `uname` cannot be run (then the line is marked as a warning although
   * `run` counts it as an issue); the newline `uname` prints does not matter.
   */
  lemma ArchitectureVerdict(probe: UnameProbe)
    ensures CheckArchitecture(probe).count <= 1
    ensures CheckArchitecture(probe).count == 0 <==>
      probe.UnameOutput? && probe.decoded.Some? && Trim(probe.decoded.value) == AppleSilicon
    ensures CheckArchitecture(probe).count == 0 <==> CheckArchitecture(probe).mark == Passed
    ensures probe.UnameFailed? ==> CheckArchitecture(probe) == Verdict(1, Warned)
    ensures CheckArchitecture(UnameOutput(Some(AppleSilicon + "\n"))).count == 0
  {
    assert [] + AppleSilicon + "\n" == AppleSilicon + "\n";
    TrimPadded([], AppleSilicon, "\n");
  }

  /** Undecodable output is reported as "unknown", which is not Apple Silicon. */
  lemma UndecodableArchitecture()
    ensures DetectedArchitecture(None) == "unknown"
    ensures CheckArchitecture(UnameOutput(None)) == Verdict(1, Failed)
  {
    assert "unknown"[0] != AppleSilicon[0];
  }

  // ----- macOS version -----

  const MinimumMacOSMajor: int := 12

  function CheckMacOSVersion(major: int): Verdict {
    if major >= MinimumMacOSMajor then Verdict(0, Passed) else Verdict(1, Warned)
  }

  /** A warning exactly below macOS 12, and a newer system never warns where an older one does not. */
  lemma MacOSVersionVerdict(major: int, newer: int)
    requires major <= newer
    ensures CheckMacOSVersion(major).count == 0 <==> major >= 12
    ensures CheckMacOSVersion(newer).count <= CheckMacOSVersion(major).count
    ensures CheckMacOSVersion(major).count <= 1
  {
  }

  // ----- Velo directories -----

  /** The seven directories of `PathHelper`. */
  datatype Layout = Layout(veloHome: string, cellar: string, bin: string, cache: string, taps: string,
                           logs: string, tmp: string)

  datatype Directory = Directory(name: string, path: string)

  function Directories(layout: Layout): (ds: seq<Directory>)
    ensures |ds| == 7
  {
    [ Directory("Velo home", layout.veloHome), Directory("Cellar", layout.cellar), Directory("Bin", layout.bin),
      Directory("Cache", layout.cache), Directory("Taps", layout.taps), Directory("Logs", layout.logs),
      Directory("Temp", layout.tmp) ]
  }

  /** One line per directory: its name, its path, and whether it exists. */
  datatype DirectoryLine = DirectoryLine(name: string, path: string, present: bool)

  /** Positions of the directories that do not exist. */
  function Missing(ds: seq<Directory>, exists_: string -> bool): set<int> {
    set k | 0 <= k < |ds| && !exists_(ds[k].path)
  }

  lemma MissingSnoc(ds: seq<Directory>, d: Directory, exists_: string -> bool)
    ensures |Missing(ds + [d], exists_)| == |Missing(ds, exists_)| + (if exists_(d.path) then 0 else 1)
  {
    var es := ds + [d];
    var before := Missing(ds, exists_);
    var after := Missing(es, exists_);
    var last: set<int> := if exists_(d.path) then {} else {|ds|};
    forall k | k in after ensures k in before + last {
      if k < |ds| {
        assert es[k] == ds[k];
      }
    }
    forall k | k in before + last ensures k in after {
      if k < |ds| {
        assert es[k] == ds[k];
      }
    }
    assert after == before + last;
    assert |ds| !in before;
  }

  /**
   * The loop of `checkVeloDirectories`: the number of missing directories,
   * 0 exactly when all exist and |ds| exactly when none does, with one line
   * per directory in order.
   */
  method CountMissing(ds: seq<Directory>, exists_: string -> bool)
    returns (issues: nat, lines: seq<DirectoryLine>)
    ensures issues == |Missing(ds, exists_)|
    ensures issues <= |ds|
    ensures issues == 0 <==> forall k :: 0 <= k < |ds| ==> exists_(ds[k].path)
    ensures issues == |ds| <==> forall k :: 0 <= k < |ds| ==> !exists_(ds[k].path)
    ensures |lines| == |ds|
    ensures forall k :: 0 <= k < |ds| ==> lines[k] == DirectoryLine(ds[k].name, ds[k].path, exists_(ds[k].path))
  {
    issues := 0;
    lines := [];
    for i := 0 to |ds|
      invariant issues == |Missing(ds[..i], exists_)|
      invariant issues <= i
      invariant issues == 0 <==> forall k :: 0 <= k < i ==> exists_(ds[k].path)
      invariant issues == i <==> forall k :: 0 <= k < i ==> !exists_(ds[k].path)
      invariant |lines| == i
      invariant forall k :: 0 <= k < i ==> lines[k] == DirectoryLine(ds[k].name, ds[k].path, exists_(ds[k].path))
    {
      var directory := ds[i];
      MissingSnoc(ds[..i], directory, exists_);
      assert ds[..i + 1] == ds[..i] + [directory];
      if exists_(directory.path) {
        lines := lines + [DirectoryLine(directory.name, directory.path, true)];
      } else {
        lines := lines + [DirectoryLine(directory.name, directory.path, false)];
        issues := issues + 1;
      }
    }
    assert ds[..|ds|] == ds;
  }

  /** `checkVeloDirectories`: between 0 and 7 missing directories of the seven. */
  method CheckVeloDirectories(layout: Layout, exists_: string -> bool)
    returns (issues: nat, lines: seq<DirectoryLine>)
    ensures issues == |Missing(Directories(layout), exists_)|
    ensures issues <= 7
    ensures issues == 0 <==> forall k :: 0 <= k < 7 ==> exists_(Directories(layout)[k].path)
    ensures issues == 7 <==> forall k :: 0 <= k < 7 ==> !exists_(Directories(layout)[k].path)
    ensures |lines| == 7
    ensures forall k :: 0 <= k < 7 ==>
      lines[k].name == Directories(layout)[k].name && lines[k].present == exists_(Directories(layout)[k].path)
  {
    issues, lines := CountMissing(Directories(layout), exists_);
  }

  // ----- PATH -----

  /** `checkPath`: whether `~/.velo/bin` is on PATH is answered by the path helper. */
  function CheckPath(inPath: bool): (v: Verdict)
    ensures v.count == 0 <==> inPath
    ensures v.count <= 1
  {
    if inPath then Verdict(0, Passed) else Verdict(1, Warned)
  }

  // ----- permissions -----

  /** The write of the probe file and its removal; each either succeeds (None) or throws. */
  datatype PermissionProbe = PermissionProbe(write: Option<string>, remove: Option<string>)

  function CheckPermissions(probe: PermissionProbe): Verdict {
    if probe.write.Some? then Verdict(1, Failed)
    else if probe.remove.Some? then Verdict(1, Failed)
    else Verdict(0, Passed)
  }

  /** 0 exactly when the probe file could be both written and removed; the removal matters only after a write. */
  lemma PermissionsVerdict(probe: PermissionProbe, otherRemove: Option<string>)
    ensures CheckPermissions(probe).count == 0 <==> probe.write.None? && probe.remove.None?
    ensures CheckPermissions(probe).count <= 1
    ensures probe.write.Some? ==> CheckPermissions(PermissionProbe(probe.write, otherRemove)) == CheckPermissions(probe)
  {
  }

  // ----- disk space -----

  /** `attributesOfFileSystem`: it throws, lacks a free-size entry, or reports the free bytes. */
  datatype DiskProbe = AttributesFailed(error: string) | NoFreeSize | FreeSize(bytes: int)

  /** Less than this many free bytes (1 GB) is low. */
  const LowDiskThreshold: int := 1_000_000_000

  function CheckDiskSpace(probe: DiskProbe): Verdict {
    match probe
    case AttributesFailed(_) => Verdict(1, Failed)
    case NoFreeSize => Verdict(1, Warned)
    case FreeSize(bytes) => if bytes < LowDiskThreshold then Verdict(1, Warned) else Verdict(0, Passed)
  }

  /**
   * 0 exactly when at least 1,000,000,000 bytes are known to be free; more
   * free space never warns more; a throw is marked as an error although
   * `run` counts it as a warning.
   */
  lemma DiskSpaceVerdict(probe: DiskProbe, bytes: int, more: int)
    requires bytes <= more
    ensures CheckDiskSpace(probe).count == 0 <==> probe.FreeSize? && probe.bytes >= 1_000_000_000
    ensures CheckDiskSpace(probe).count <= 1
    ensures CheckDiskSpace(FreeSize(more)).count <= CheckDiskSpace(FreeSize(bytes)).count
    ensures probe.AttributesFailed? ==> CheckDiskSpace(probe) == Verdict(1, Failed)
  {
  }
}
