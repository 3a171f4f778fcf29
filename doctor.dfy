/**
 * `velo doctor`: runs every check, adds their results into an issue counter
 * and a warning counter, reports the context, and ends with a summary that
 * either gives the all-clear, suggests `--fix`, or attempts the fix.
 */
module Doctor {
  import opened Wrappers
  import opened Listing
  import opened Installation
  import opened Scopes
  import opened Checks
  import Classifier

  /** What `ProjectContext` and the file system say about the current directory. */
  datatype ProjectProbe = ProjectProbe(
    isProject: bool,
    localCellarExists: bool,
    localCellarListing: Result<seq<string>>,
    listPackageDirectory: string -> Result<seq<string>>,
    localBinExists: bool,
    localBinPath: string)

  /** Everything the doctor asks of the machine, as plain values. */
  datatype Environment = Environment(
    uname: UnameProbe,
    macOSMajor: int,
    layout: Layout,
    fileExists: string -> bool,
    inPath: bool,
    permissions: PermissionProbe,
    cellarListing: Result<seq<string>>,
    installedVersions: string -> seq<string>,
    verifyInstallation: Request -> Result<InstallationStatus>,
    disk: DiskProbe,
    project: ProjectProbe,
    which: string -> CommandProbe,
    ensureDirectories: Option<string>)   // the error `ensureVeloDirectories` throws, if any

  /** The installer and the dependency classifier, as the installed-package check uses them. */
  function PackageVerifier(env: Environment): Verifier {
    Verifier(Classifier.IsLikelyDependencyPackage, env.verifyInstallation)
  }

  function InstalledPackages(env: Environment, verbose: bool): PackageReport {
    InstalledPackagesReport(env.cellarListing, env.installedVersions, PackageVerifier(env), verbose)
  }

  /** `issueCount`: architecture, directories, permissions and installed packages. */
  function Issues(env: Environment, verbose: bool): nat {
    CheckArchitecture(env.uname).count
      + |Missing(Directories(env.layout), env.fileExists)|
      + CheckPermissions(env.permissions).count
      + InstalledPackages(env, verbose).issues
  }

  /** `warningCount`: macOS version, PATH and disk space. */
  function Warnings(env: Environment): nat {
    CheckMacOSVersion(env.macOSMajor).count + CheckPath(env.inPath).count + CheckDiskSpace(env.disk).count
  }

  /** Lines of the summary and of `fixIssues`. */
  datatype SummaryLine =
    | AllClear                      // "No issues found. Velo is ready to go!"
    | IssuesFound(count: nat)
    | WarningsFound(count: nat)
    | AttemptingFix
    | FixHint                       // "Run 'velo doctor --fix' to attempt automatic fixes"
    | DirectoriesCreated
    | DirectoriesFailed(error: string)
    | ManualIntervention            // "Some issues may require manual intervention"

  /** `fixIssues`: recreate the directories, report how that went, and admit the rest is manual. */
  function FixIssues(ensureDirectories: Option<string>): (lines: seq<SummaryLine>)
    ensures |lines| == 2 && lines[1] == ManualIntervention
    ensures lines[0] == DirectoriesCreated <==> ensureDirectories.None?
    ensures ensureDirectories.Some? ==> lines[0] == DirectoriesFailed(ensureDirectories.value)
  {
    match ensureDirectories
    case None => [DirectoriesCreated, ManualIntervention]
    case Some(e) => [DirectoriesFailed(e), ManualIntervention]
  }

  function Summary(issues: nat, warnings: nat, fix: bool, ensureDirectories: Option<string>): seq<SummaryLine> {
    if issues == 0 && warnings == 0 then [AllClear]
    else
      (if issues > 0 then [IssuesFound(issues)] else [])
        + (if warnings > 0 then [WarningsFound(warnings)] else [])
        + (if fix then [AttemptingFix] + FixIssues(ensureDirectories) else [FixHint])
  }

  /**
   * The all-clear exactly when both counters are 0; otherwise each nonzero
   * counter is reported, and the fix is attempted exactly when `--fix` was
   * given, the hint shown exactly when it was not.
   */
  lemma SummarySpec(issues: nat, warnings: nat, fix: bool, ensureDirectories: Option<string>)
    ensures AllClear in Summary(issues, warnings, fix, ensureDirectories) <==> issues == 0 && warnings == 0
    ensures IssuesFound(issues) in Summary(issues, warnings, fix, ensureDirectories) <==> issues > 0
    ensures WarningsFound(warnings) in Summary(issues, warnings, fix, ensureDirectories) <==> warnings > 0
    ensures AttemptingFix in Summary(issues, warnings, fix, ensureDirectories) <==> fix && (issues > 0 || warnings > 0)
    ensures FixHint in Summary(issues, warnings, fix, ensureDirectories) <==> !fix && (issues > 0 || warnings > 0)
    ensures ManualIntervention in Summary(issues, warnings, fix, ensureDirectories) <==>
      fix && (issues > 0 || warnings > 0)
  {
    var lines := Summary(issues, warnings, fix, ensureDirectories);
    if !(issues == 0 && warnings == 0) {
      var head := (if issues > 0 then [IssuesFound(issues)] else []) + (if warnings > 0 then [WarningsFound(warnings)] else []);
      var tail := if fix then [AttemptingFix] + FixIssues(ensureDirectories) else [FixHint];
      assert lines == head + tail;
      assert forall l :: l in head ==> l.IssuesFound? || l.WarningsFound?;
      if issues > 0 {
        assert lines[0] == IssuesFound(issues);
      }
      if warnings > 0 {
        assert head[|head| - 1] == WarningsFound(warnings);
        assert lines[|head| - 1] == WarningsFound(warnings);
      }
      if fix {
        assert lines[|head|] == AttemptingFix;
        assert lines[|head| + 2] == ManualIntervention;
      } else {
        assert lines[|head|] == FixHint;
      }
    }
  }

  /** The context part of the report: the local packages in a project, the global ones, and path resolution. */
  datatype ContextReport = ContextReport(
    isProject: bool,
    localPackages: Option<seq<ListingLine>>,
    globalPackages: seq<ListingLine>,
    resolution: seq<ResolutionLine>)

  function ContextInformation(env: Environment): ContextReport {
    var p := env.project;
    ContextReport(
      p.isProject,
      if p.isProject
      then Some(PackageListing(p.localCellarExists, p.localCellarListing, PackageDirectories(p.listPackageDirectory)))
      else None,
      PackageListing(env.fileExists(env.layout.cellar), env.cellarListing, InstalledVersions(env.installedVersions)),
      ResolutionReport(p.isProject, p.localBinExists, p.localBinPath, env.layout.bin, env.which))
  }

  /**
   * Local packages are listed exactly in a project, and the search order
   * starts with the project's own bin directory exactly then; either package
   * section says "No packages installed" exactly when its store is missing or
   * holds only hidden entries, and neither shows a hidden entry.
   */
  lemma ContextInformationSpec(env: Environment)
    ensures var r := ContextInformation(env);
      && r.isProject == env.project.isProject
      && (r.localPackages.Some? <==> env.project.isProject)
      && (r.resolution[0].LocalBin? <==> env.project.isProject)
      && |r.resolution| == (if env.project.isProject then 3 else 2) + |CommonTools|
      && (r.localPackages.Some? ==>
            (r.localPackages.value == [NoPackagesInstalled] <==>
               !env.project.localCellarExists
               || (env.project.localCellarListing.Success? && Visible(env.project.localCellarListing.value) == [])))
      && (r.localPackages.Some? ==>
            forall l :: l in r.localPackages.value && l.PackageEntry? ==> !IsHidden(l.name))
      && (r.globalPackages == [NoPackagesInstalled] <==>
            !env.fileExists(env.layout.cellar) || (env.cellarListing.Success? && Visible(env.cellarListing.value) == []))
      && (forall l :: l in r.globalPackages && l.PackageEntry? ==> !IsHidden(l.name))
  {
    var p := env.project;
    var local := PackageDirectories(p.listPackageDirectory);
    var global := InstalledVersions(env.installedVersions);
    PackageListingEmpty(p.localCellarExists, p.localCellarListing, local);
    PackageListingHidesHidden(p.localCellarExists, p.localCellarListing, local);
    PackageListingEmpty(env.fileExists(env.layout.cellar), env.cellarListing, global);
    PackageListingHidesHidden(env.fileExists(env.layout.cellar), env.cellarListing, global);
    SearchOrderSpec(p.isProject, p.localBinExists, p.localBinPath, env.layout.bin);
    ToolLinesSpec(CommonTools, env.which);
  }

  /** `checkContextInformation`: local packages only in a project; global packages and resolution always. */
  method CheckContextInformation(env: Environment) returns (report: ContextReport)
    ensures report == ContextInformation(env)
  {
    var p := env.project;
    var localPackages: Option<seq<ListingLine>> := None;
    if p.isProject {
      var lines := ListLocalPackages(p.localCellarExists, p.localCellarListing, p.listPackageDirectory);
      localPackages := Some(lines);
    }
    var globalPackages := ListGlobalPackages(env.fileExists(env.layout.cellar), env.cellarListing, env.installedVersions);
    var resolution := CheckPathResolution(p.isProject, p.localBinExists, p.localBinPath, env.layout.bin, env.which);
    report := ContextReport(p.isProject, localPackages, globalPackages, resolution);
  }

  /** Everything `run` produces. */
  datatype DoctorReport = DoctorReport(
    issues: nat,
    warnings: nat,
    architecture: Verdict,
    macOS: Verdict,
    directories: seq<DirectoryLine>,
    path: Verdict,
    permissions: Verdict,
    packages: PackageReport,
    disk: Verdict,
    context: ContextReport,
    summary: seq<SummaryLine>)

  /** `run`: the checks in their order, the two counters, the context and the summary. */
  method Run(env: Environment, verbose: bool, fix: bool) returns (report: DoctorReport)
    ensures report.issues == Issues(env, verbose)
    ensures report.warnings == Warnings(env)
    ensures report.architecture == CheckArchitecture(env.uname)
    ensures report.macOS == CheckMacOSVersion(env.macOSMajor)
    ensures report.path == CheckPath(env.inPath)
    ensures report.permissions == CheckPermissions(env.permissions)
    ensures report.packages == InstalledPackages(env, verbose)
    ensures report.disk == CheckDiskSpace(env.disk)
    ensures |report.directories| == 7
    ensures forall k :: 0 <= k < 7 ==>
      report.directories[k].name == Directories(env.layout)[k].name
      && report.directories[k].present == env.fileExists(Directories(env.layout)[k].path)
    ensures report.context == ContextInformation(env)
    ensures report.summary == Summary(report.issues, report.warnings, fix, env.ensureDirectories)
  {
    var issueCount := 0;
    var warningCount := 0;

    var architecture := CheckArchitecture(env.uname);
    issueCount := issueCount + architecture.count;

    var macOS := CheckMacOSVersion(env.macOSMajor);
    warningCount := warningCount + macOS.count;

    var missing, directories := CheckVeloDirectories(env.layout, env.fileExists);
    issueCount := issueCount + missing;

    var path := CheckPath(env.inPath);
    warningCount := warningCount + path.count;

    var permissions := CheckPermissions(env.permissions);
    issueCount := issueCount + permissions.count;

    var packages := CheckInstalledPackages(env.cellarListing, env.installedVersions, PackageVerifier(env), verbose);
    issueCount := issueCount + packages.issues;

    var disk := CheckDiskSpace(env.disk);
    warningCount := warningCount + disk.count;

    var context := CheckContextInformation(env);

    var summary: seq<SummaryLine>;
    if issueCount == 0 && warningCount == 0 {
      summary := [AllClear];
    } else {
      summary := [];
      if issueCount > 0 {
        summary := summary + [IssuesFound(issueCount)];
      }
      if warningCount > 0 {
        summary := summary + [WarningsFound(warningCount)];
      }
      if fix {
        summary := summary + [AttemptingFix] + FixIssues(env.ensureDirectories);
      } else {
        summary := summary + [FixHint];
      }
    }
    report := DoctorReport(issueCount, warningCount, architecture, macOS, directories, path, permissions,
                           packages, disk, context, summary);
  }

  /** `--verbose` never changes the counters. */
  lemma VerboseDoesNotCount(env: Environment)
    ensures Issues(env, true) == Issues(env, false)
  {
    InstalledPackagesVerboseOnlyPrints(env.cellarListing, env.installedVersions, PackageVerifier(env));
  }

  /**
   * A healthy machine: Apple Silicon, macOS 12 or later, every directory
   * present, `~/.velo/bin` on PATH, writable, every installed version
   * intact and 1 GB free gets the all-clear, with or without `--fix`.
   */
  lemma HealthyMachine(env: Environment, verbose: bool, fix: bool)
    requires env.uname.UnameOutput? && env.uname.decoded.Some? && Text.Trim(env.uname.decoded.value) == AppleSilicon
    requires env.macOSMajor >= 12
    requires forall k :: 0 <= k < 7 ==> env.fileExists(Directories(env.layout)[k].path)
    requires env.inPath
    requires env.permissions == PermissionProbe(None, None)
    requires env.cellarListing.Success?
    requires forall r :: env.verifyInstallation(r) == Success(Installed)
    requires env.disk.FreeSize? && env.disk.bytes >= 1_000_000_000
    ensures Issues(env, verbose) == 0 && Warnings(env) == 0
    ensures Summary(Issues(env, verbose), Warnings(env), fix, env.ensureDirectories) == [AllClear]
  {
    var ds := Directories(env.layout);
    assert Missing(ds, env.fileExists) == {};
    var v := PackageVerifier(env);
    var pairs := Pairs(Visible(env.cellarListing.value), env.installedVersions);
    InstalledPackagesCount(env.cellarListing, env.installedVersions, v, verbose);
    assert IssueIndices(pairs, v) == {};
  }

  /** All seven directories missing is seven directory issues. */
  lemma AllDirectoriesMissing(layout: Layout, exists_: string -> bool)
    requires forall k :: 0 <= k < 7 ==> !exists_(Directories(layout)[k].path)
    ensures |Missing(Directories(layout), exists_)| == 7
  {
    var missing := Missing(Directories(layout), exists_);
    assert 0 in missing && 1 in missing && 2 in missing && 3 in missing && 4 in missing && 5 in missing && 6 in missing;
    assert missing == {0, 1, 2, 3, 4, 5, 6};
  }

  /**
   * A machine where Velo was never set up: all seven directories missing
   * is at least seven issues, the global section shows no packages, and the
   * summary ends with the `--fix` hint or the fix.
   */
  lemma NothingSetUp(env: Environment, verbose: bool, fix: bool)
    requires forall k :: 0 <= k < 7 ==> !env.fileExists(Directories(env.layout)[k].path)
    ensures Issues(env, verbose) >= 7
    ensures ContextInformation(env).globalPackages == [NoPackagesInstalled]
    ensures FixHint in Summary(Issues(env, verbose), Warnings(env), fix, env.ensureDirectories) <==> !fix
    ensures AttemptingFix in Summary(Issues(env, verbose), Warnings(env), fix, env.ensureDirectories) <==> fix
  {
    AllDirectoriesMissing(env.layout, env.fileExists);
    assert !env.fileExists(Directories(env.layout)[1].path);
    SummarySpec(Issues(env, verbose), Warnings(env), fix, env.ensureDirectories);
  }

  /** The installed-package check asks for a symlink check exactly for packages that are not likely dependencies. */
  lemma SymlinkPolicy(env: Environment, verbose: bool)
    ensures forall r :: r in InstalledPackages(env, verbose).requests ==>
      (r.checkSymlinks <==> !Classifier.IsLikelyDependencyPackage(r.package))
  {
    var v := PackageVerifier(env);
    InstalledPackagesRequests(env.cellarListing, env.installedVersions, v, verbose);
    forall r | r in InstalledPackages(env, verbose).requests
      ensures r.checkSymlinks <==> !Classifier.IsLikelyDependencyPackage(r.package)
    {
      assert v.isDependency(r.package) == Classifier.IsLikelyDependencyPackage(r.package);
    }
  }

  /** A throw anywhere in the installed-package check contributes exactly one issue, whatever was found before it. */
  lemma PackageFailureCountsOnce(env: Environment, verbose: bool, k: nat)
    requires env.cellarListing.Success?
    requires k < |Pairs(Visible(env.cellarListing.value), env.installedVersions)|
    requires Outcome(Pairs(Visible(env.cellarListing.value), env.installedVersions)[k], PackageVerifier(env)).Failure?
    ensures InstalledPackages(env, verbose).issues == 1
    ensures Issues(env, verbose) == CheckArchitecture(env.uname).count
      + |Missing(Directories(env.layout), env.fileExists)| + CheckPermissions(env.permissions).count + 1
  {
    InstalledPackagesCount(env.cellarListing, env.installedVersions, PackageVerifier(env), verbose);
  }
}
