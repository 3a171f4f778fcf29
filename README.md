# velo doctor, modelled in Dafny

This project models the decision logic of `velo doctor`, the diagnostic command of the Velo package manager for Apple Silicon Macs.

The doctor runs seven checks in a fixed order:
- the machine architecture;
- the macOS version;
- the seven Velo directories;
- whether `~/.velo/bin` is on PATH;
- write permission in the Velo tree;
- the integrity of every installed package version;
- free disk space.

Each check adds 0 or more to one of two counters: `issueCount` or `warningCount`. The doctor then reports the context:
- the local packages of a project;
- the global packages, shown as the first five plus a count of the rest;
- the order in which the local, global and system bin directories are searched;
- where `which` finds `wget`, `node` and `python`, and in which scope.

It ends with a summary. The summary gives the all-clear, suggests `velo doctor --fix`, or runs the fix.

## Modelling choices

Every question the doctor asks of the machine is an input value. The `Doctor.Environment` datatype collects them all:
- the `uname` outcome;
- the macOS major version;
- the directory layout and a file-exists function;
- the PATH flag;
- the permission probe;
- directory listings, as a `Result`: the entries or the error thrown;
- the path helper's version lists;
- the installer's verdict function;
- the file-system attributes;
- the project probe;
- the `which` outcomes;
- the outcome of recreating directories.

What the doctor prints is modelled as datatypes of report lines, not as text.

The modules follow the source:
- `Classifier`: `isLikelyDependencyPackage`, with Swift's `split(separator:)`.
- `Listing`: the hidden-entry filter and the five-package truncation of the local and global package sections.
- `Installation`: the nested verification loops of `checkInstalledPackages`.
  - The loops are proved against a specification function, `Scan`, which is defined over the (package, version) pairs.
  - The loops receive the classifier as a function value, and `Doctor.Run` passes `Classifier.IsLikelyDependencyPackage`. This keeps the 128-name list out of the loop proofs.
- `Text`: Foundation's whitespace trimming and substring search.
- `Scopes`: the path-resolution report and `resolveCommand`.
- `Checks`: the architecture, macOS, directory, PATH, permission and disk verdicts.
- `Doctor`: the `run` aggregation, the summary and `fixIssues`.

Each check's `Verdict` carries the count and the icon of its line. This makes two places where icon and counter disagree visible, as explained below.

### Behaviour worth noting

- **The `--fix` hint.** It is printed whenever either counter is nonzero, including when there are only warnings (`Doctor.SummarySpec`).
- **Project bin directories.** A tool found in a project's own `.velo/bin/` is reported as `global`, because the test is the substring `/.velo/bin/` (`Scopes.ProjectBinIsGlobal`).
- **Architecture probe failure.** An architecture that cannot be detected is printed with a warning icon, yet it is counted in `issueCount` (`Checks.ArchitectureVerdict`, `Doctor.Run`).
- **Disk probe failure.** A disk check whose attribute query throws is printed with an error icon, yet it is counted in `warningCount` (`Checks.DiskSpaceVerdict`).
- **The all-OK line.** "All N package(s) are properly installed" counts packages, while issues count (package, version) pairs. A package with no installed versions is never verified and still passes (`Installation.UnversionedPackagesPass`).

## Model

| member | source | states |
|---|---|---|
| Classifier.IsLikelyDependencyPackage | Sources/VeloCLI/Commands/Doctor.swift:463-544 | the classifier itself: exact lookup in the 128-name list first, then, for a name with `@`, lookup of its first non-empty segment among the 12 versioned bases; its properties are those of ExactListRule, VersionedNameRule, OffListRule and SeparatorsOnlyName |
| Classifier.ExactListRule | Sources/VeloCLI/Commands/Doctor.swift:465-543 | every name on the 128-entry list is a dependency, including versioned entries such as `openssl@3`; a name without `@` is a dependency exactly when it is on that list |
| Classifier.InListSpec | Sources/VeloCLI/Commands/Doctor.swift:528-530 | the linear lookup succeeds exactly for members of the list |
| Classifier.SkipSeparatorsSpec | Sources/VeloCLI/Commands/Doctor.swift:535 | splitting first drops a run of separators: what remains is a suffix, everything cut is `@`, and it does not start with `@` |
| Classifier.PieceSpec | Sources/VeloCLI/Commands/Doctor.swift:535 | a piece is the longest `@`-free prefix, ended by a separator or the end of the string |
| Classifier.SplitSpec | Sources/VeloCLI/Commands/Doctor.swift:535 | every piece of `split(separator:)` is non-empty and free of `@`; there are no pieces exactly when the name is all separators; the first piece is the first segment after the leading separators |
| Classifier.BaseName | Sources/VeloCLI/Commands/Doctor.swift:535 | `split(...).first ?? ""` is free of `@`, is empty exactly when the name holds only `@`, and otherwise is the first non-empty `@` segment |
| Classifier.FirstSegmentUnique | Sources/VeloCLI/Commands/Doctor.swift:535 | a name has only one first non-empty `@` segment |
| Classifier.VersionedNameRule | Sources/VeloCLI/Commands/Doctor.swift:533-541 | a name off the exact list that contains `@` is a dependency exactly when its first non-empty segment is one of the 12 versioned bases |
| Classifier.VersionedDependency | Sources/VeloCLI/Commands/Doctor.swift:533-541 | such a name with a listed base is a dependency |
| Classifier.VersionedNonDependency | Sources/VeloCLI/Commands/Doctor.swift:533-541 | such a name with an unlisted base is not a dependency |
| Classifier.OffListRule | Sources/VeloCLI/Commands/Doctor.swift:528-541 | off the exact list, a name is a dependency exactly when it contains `@` and its base is one of the 12 versioned bases |
| Classifier.SeparatorsOnlyName | Sources/VeloCLI/Commands/Doctor.swift:535-540 | an off-list name made only of `@` splits into no pieces, gets the empty base and is not a dependency |
| Classifier.NotInExactList | Sources/VeloCLI/Commands/Doctor.swift:465-525 | a name outside each of the seventeen groups of the list is not on the list |
| Classifier.VersionedRuntimeExample | Sources/VeloCLI/Commands/Doctor.swift:533-541 | `python@3.10` is a dependency through its base `python` |
| Classifier.VersionedToolExample | Sources/VeloCLI/Commands/Doctor.swift:533-541 | `mytool@1.0` is not a dependency |
| Classifier.VersionedLibraryExample | Sources/VeloCLI/Commands/Doctor.swift:533-541 | `sqlite@3` is not a dependency, although `sqlite` is on the exact list |
| Classifier.LeadingSeparatorsExample | Sources/VeloCLI/Commands/Doctor.swift:535 | empty pieces are dropped: `@@node@x` has base `node` and is a dependency |
| Classifier.ExactEntryExample | Sources/VeloCLI/Commands/Doctor.swift:467 | `openssl` is a dependency |
| Classifier.VersionedExactEntryExample | Sources/VeloCLI/Commands/Doctor.swift:470 | `python@3.12` matches the exact list before any `@` handling |
| Classifier.PlainNameExample | Sources/VeloCLI/Commands/Doctor.swift:543 | `wget` is not a dependency |
| Listing.Visible | Sources/VeloCLI/Commands/Doctor.swift:354-355 | the filter keeps exactly the entries that do not start with `.`, and never adds any |
| Listing.VisibleAppend | Sources/VeloCLI/Commands/Doctor.swift:354-355 | the filter keeps listing order, since it distributes over concatenation |
| Listing.VisibleNoHidden | Sources/VeloCLI/Commands/Doctor.swift:354-355 | a listing without hidden entries passes unchanged |
| Listing.TruncatedListing | Sources/VeloCLI/Commands/Doctor.swift:360-368 | the definition of the shown part: the first five visible packages with their versions, then the count of the rest; its properties are those of TruncatedListingShape |
| Listing.PackageListing | Sources/VeloCLI/Commands/Doctor.swift:341-404 | the definition of either package section: missing store, read failure, empty store, or the truncated listing; its properties are those of PackageListingEmpty and PackageListingHidesHidden |
| Listing.TruncatedListingShape | Sources/VeloCLI/Commands/Doctor.swift:360-368 | for n packages: exactly min(5, n) package lines, holding the first packages in order with their versions; a "... and n - 5 more" line exactly when n > 5; shown plus summarised is n |
| Listing.PackageListingHidesHidden | Sources/VeloCLI/Commands/Doctor.swift:354-368 | no hidden entry ever appears as a package line |
| Listing.PackageListingEmpty | Sources/VeloCLI/Commands/Doctor.swift:350-358 | "No packages installed" is printed exactly when the store is missing or holds only hidden entries |
| Listing.ShowFirstPackages | Sources/VeloCLI/Commands/Doctor.swift:360-368 | the loop over `prefix(5)` and the "... and N more" line produce the truncated listing |
| Listing.ListStore | Sources/VeloCLI/Commands/Doctor.swift:350-372 | shared guard, read and empty case of both sections: the lines are the package listing of the store |
| Listing.ListLocalPackages | Sources/VeloCLI/Commands/Doctor.swift:341-373 | the local section is the listing of `.velo/Cellar`, with versions from each package directory; an unreadable directory shows none |
| Listing.ListGlobalPackages | Sources/VeloCLI/Commands/Doctor.swift:375-404 | the global section is the listing of the Cellar, with versions from the path helper |
| Installation.Scan | Sources/VeloCLI/Commands/Doctor.swift:198-229 | the definition of the nested loops over the (package, version) pairs, stopping at the first throw; its properties are those of ScanStopsAfterFailure, ScanPrefix, ScanOutcomes, ScanCountsIssues and ScanLines |
| Installation.InstalledPackagesReport | Sources/VeloCLI/Commands/Doctor.swift:183-242 | the definition of `checkInstalledPackages`: unreadable Cellar, no visible packages, the scan and its all-OK line; its properties are those of InstalledPackagesCount, InstalledPackagesRequests and InstalledPackagesAllOk |
| Installation.PairsMembership | Sources/VeloCLI/Commands/Doctor.swift:198-200 | the nested loops visit exactly the listed packages' versions |
| Installation.PairsAppend | Sources/VeloCLI/Commands/Doctor.swift:198-200 | the pairs of two package lists concatenate in order |
| Installation.ScanStopsAfterFailure | Sources/VeloCLI/Commands/Doctor.swift:238-241 | once the installer has thrown, no later pair changes anything |
| Installation.ScanPrefix | Sources/VeloCLI/Commands/Doctor.swift:198-215 | the calls made are the requests for a prefix of the pairs, in order, and for all of them when nothing threw |
| Installation.ScanOutcomes | Sources/VeloCLI/Commands/Doctor.swift:215-241 | every call before the last succeeded; a stopped scan stopped at its last call, with that call's error |
| Installation.ScanFailsIffSomeCallThrows | Sources/VeloCLI/Commands/Doctor.swift:215-241 | the scan stops exactly when some verification throws |
| Installation.ScanCountsIssues | Sources/VeloCLI/Commands/Doctor.swift:217-228 | the counter is the number of pairs found corrupted or not installed among those verified before any throw; `installed` never counts |
| Installation.ScanLines | Sources/VeloCLI/Commands/Doctor.swift:217-228 | the loops print only per-version lines, and success lines only in verbose mode |
| Installation.ScanVerboseOnlyPrints | Sources/VeloCLI/Commands/Doctor.swift:218-221 | verbosity changes neither the counter, nor the calls, nor where the scan stops |
| Installation.InstalledPackagesVerboseOnlyPrints | Sources/VeloCLI/Commands/Doctor.swift:183-241 | the section returns the same count and makes the same calls with or without `--verbose` |
| Installation.InstalledPackagesCount | Sources/VeloCLI/Commands/Doctor.swift:183-241 | the result is 1 for an unreadable Cellar; 0 without visible packages; 1 when any verification throws, discarding the partial count; otherwise the number of corrupted or not-installed pairs |
| Installation.InstalledPackagesRequests | Sources/VeloCLI/Commands/Doctor.swift:198-215 | every verification is of a visible package's listed version, with the symlink flag set exactly for non-dependencies |
| Installation.InstalledPackagesAllOk | Sources/VeloCLI/Commands/Doctor.swift:232-234 | the all-OK line appears exactly when the Cellar was read, held packages, nothing threw, no issue was found and the run is not verbose; its number counts packages; no success line without `--verbose` |
| Installation.UnversionedPackagesPass | Sources/VeloCLI/Commands/Doctor.swift:198-234 | packages without versions are never verified and pass |
| Installation.CheckInstalledPackages | Sources/VeloCLI/Commands/Doctor.swift:183-242 | the nested loops, with their return on the first throw, compute the section's specification |
| Installation.PairsSplit | Sources/VeloCLI/Commands/Doctor.swift:198-200 | the pairs of the Cellar split after any version of any package into those visited and those left |
| Text.TrimSpec | Sources/VeloCLI/Commands/Doctor.swift:89 | trimming keeps a contiguous middle, removes only whitespace and newlines around it, and leaves none at either end |
| Text.TrimPadded | Sources/VeloCLI/Commands/Doctor.swift:456 | a word without whitespace at its ends survives any whitespace padding unchanged |
| Text.ContainsIff | Sources/VeloCLI/Commands/Doctor.swift:432-433 | the substring scan succeeds exactly when the substring occurs at some index |
| Text.ContainsPrefix | Sources/VeloCLI/Commands/Doctor.swift:432-433 | a string containing `a + b` contains `a` |
| Scopes.ClassifyResolved | Sources/VeloCLI/Commands/Doctor.swift:432-433 | the definition of the scope ternary; its properties are those of ClassifyResolvedSpec |
| Scopes.ClassifyResolvedSpec | Sources/VeloCLI/Commands/Doctor.swift:432-433 | the scope is system exactly when the path lacks `/.velo/`; global exactly when it has `/.velo/bin/`; local exactly for the rest of a Velo tree |
| Scopes.ProjectBinIsGlobal | Sources/VeloCLI/Commands/Doctor.swift:432-433 | a tool in a project's own `.velo/bin/` is reported as global |
| Scopes.VeloPathHasDot | Sources/VeloCLI/Commands/Doctor.swift:432 | every path inside a Velo tree has a dot |
| Scopes.DotlessPathIsSystem | Sources/VeloCLI/Commands/Doctor.swift:432-433 | a path without a dot, such as `/usr/bin/python`, is system |
| Scopes.HomeIrrelevant | Sources/VeloCLI/Commands/Doctor.swift:432-433 | below a home directory without a dot, the scope depends only on the part of the path from `/.velo/` on |
| Scopes.CellarPathIsLocal | Sources/VeloCLI/Commands/Doctor.swift:432-433 | a path `home + "/.velo/" + rest` below a dotless home is local whenever `"/.velo/" + rest` holds no `/.velo/bin/` |
| Scopes.ResolveCommand | Sources/VeloCLI/Commands/Doctor.swift:441-460 | a path is produced exactly when `which` ran, exited with 0 and its output decoded, and it is that output trimmed |
| Scopes.ResolveCommandDropsNewline | Sources/VeloCLI/Commands/Doctor.swift:455-456 | the newline after the path is dropped |
| Scopes.SearchOrder | Sources/VeloCLI/Commands/Doctor.swift:413-426 | the definition of the numbered search order; its properties are those of SearchOrderSpec |
| Scopes.SearchOrderSpec | Sources/VeloCLI/Commands/Doctor.swift:413-426 | lines numbered 1, 2, ... in order; in a project Local = 1, Global = 2, System = 3, else Global = 1, System = 2 with no Local line; global precedes system; an absent local bin is "Not configured" |
| Scopes.ToolLinesSpec | Sources/VeloCLI/Commands/Doctor.swift:429-438 | one line per tool in order; "not found" exactly when resolution fails; otherwise the resolved path and its scope |
| Scopes.CheckPathResolution | Sources/VeloCLI/Commands/Doctor.swift:406-439 | the method prints the search order followed by the loop over `wget`, `node` and `python` |
| Checks.CheckArchitecture | Sources/VeloCLI/Commands/Doctor.swift:73-103 | the definition of the architecture check; its properties are those of ArchitectureVerdict and UndecodableArchitecture |
| Checks.ArchitectureVerdict | Sources/VeloCLI/Commands/Doctor.swift:73-103 | 0 exactly for output that trims to `arm64`, else 1, including a failed `uname`, which is marked as a warning; a trailing newline does not matter |
| Checks.UndecodableArchitecture | Sources/VeloCLI/Commands/Doctor.swift:89 | undecodable output becomes "unknown" and fails |
| Checks.CheckMacOSVersion | Sources/VeloCLI/Commands/Doctor.swift:105-119 | the definition of the macOS check; its properties are those of MacOSVersionVerdict |
| Checks.MacOSVersionVerdict | Sources/VeloCLI/Commands/Doctor.swift:111-118 | a warning exactly below major version 12, never more warnings for a newer system |
| Checks.Directories | Sources/VeloCLI/Commands/Doctor.swift:125-133 | seven directories are checked |
| Checks.CountMissing | Sources/VeloCLI/Commands/Doctor.swift:135-146 | the loop counts the missing directories: 0 exactly when all exist, all of them exactly when none does, one line per directory with its presence |
| Checks.CheckVeloDirectories | Sources/VeloCLI/Commands/Doctor.swift:121-147 | the result is the number of missing directories, between 0 and 7 |
| Checks.CheckPath | Sources/VeloCLI/Commands/Doctor.swift:149-163 | a warning exactly when `~/.velo/bin` is not on PATH |
| Checks.CheckPermissions | Sources/VeloCLI/Commands/Doctor.swift:165-181 | the definition of the permission check; its properties are those of PermissionsVerdict |
| Checks.PermissionsVerdict | Sources/VeloCLI/Commands/Doctor.swift:165-181 | 0 exactly when the probe file was written and removed; after a failed write the removal is irrelevant |
| Checks.CheckDiskSpace | Sources/VeloCLI/Commands/Doctor.swift:244-274 | the definition of the disk check; its properties are those of DiskSpaceVerdict |
| Checks.DiskSpaceVerdict | Sources/VeloCLI/Commands/Doctor.swift:251-273 | 0 exactly when at least 1,000,000,000 bytes are known free; a missing attribute or a throw gives 1; more free space never warns more; a throw is marked as an error |
| Doctor.Issues | Sources/VeloCLI/Commands/Doctor.swift:24-46 | the definition of `issueCount`: architecture, missing directories, permissions and installed packages; its properties are those of Run, VerboseDoesNotCount and PackageFailureCountsOnce |
| Doctor.Warnings | Sources/VeloCLI/Commands/Doctor.swift:24-46 | the definition of `warningCount`: macOS, PATH and disk; its properties are those of Run and HealthyMachine |
| Doctor.FixIssues | Sources/VeloCLI/Commands/Doctor.swift:276-291 | the directory fix reports success exactly when recreating the directories did not throw, and always ends with the manual-intervention note |
| Doctor.Summary | Sources/VeloCLI/Commands/Doctor.swift:51-70 | the definition of the summary; its properties are those of SummarySpec |
| Doctor.SummarySpec | Sources/VeloCLI/Commands/Doctor.swift:51-70 | all-clear exactly when both counters are 0; each nonzero counter reported; the fix runs exactly with `--fix` and a nonzero counter; otherwise, with a nonzero counter, the hint is shown |
| Doctor.ContextInformationSpec | Sources/VeloCLI/Commands/Doctor.swift:293-339 | local packages exactly in a project, whose search order then starts with the project's bin; each package section says "No packages installed" exactly for a missing or visibly empty store and never shows a hidden entry; the resolution has one line per search-order entry and per common tool |
| Doctor.CheckContextInformation | Sources/VeloCLI/Commands/Doctor.swift:293-339 | the method computes the context report whose properties ContextInformationSpec states |
| Doctor.Run | Sources/VeloCLI/Commands/Doctor.swift:19-71 | `issueCount` is architecture + directories + permissions + packages; `warningCount` is macOS + PATH + disk; every check's result and the summary follow from them |
| Doctor.VerboseDoesNotCount | Sources/VeloCLI/Commands/Doctor.swift:24-46 | `--verbose` never changes the counters |
| Doctor.HealthyMachine | Sources/VeloCLI/Commands/Doctor.swift:19-71 | a healthy machine gets the all-clear, with or without `--fix` |
| Doctor.AllDirectoriesMissing | Sources/VeloCLI/Commands/Doctor.swift:135-146 | with no directory present, all seven are counted |
| Doctor.NothingSetUp | Sources/VeloCLI/Commands/Doctor.swift:19-71 | with no Velo directory, at least 7 issues, no global packages listed, and the summary ends with the fix or the hint |
| Doctor.SymlinkPolicy | Sources/VeloCLI/Commands/Doctor.swift:213-215 | the doctor's verifications ask for a symlink check exactly for packages that are not likely dependencies |
| Doctor.PackageFailureCountsOnce | Sources/VeloCLI/Commands/Doctor.swift:238-241 | any throw while verifying packages adds exactly one issue |

## Left out

- Launching `/usr/bin/uname` and `/usr/bin/which`, pipes and UTF-8 decoding: these are operating-system calls. Their outcomes are the inputs `UnameProbe` and `CommandProbe`, with the decoded text as an optional string.
- FileManager calls: existence tests, directory listings, the permission probe's write and removal, and `attributesOfFileSystem`. Their outcomes are inputs.
- `ProcessInfo`: only the major version takes part in a decision. The minor and patch numbers are used only in printed text.
- `ByteCountFormatter`, the emoji and the message texts: these are library formatting with no decisions. Lines are abstract datatypes.
- `Installer.verifyInstallation`: its code is not part of this model. It is an input function of the request. The empty description, homepage, url and sha256 of the dummy formula are not modelled.
- `PathHelper` (`installedVersions`, `isInPath`, `ensureVeloDirectories` and the directory paths): its code is not part of this model, so its answers are inputs. The idempotence of recreating directories therefore cannot be stated.
- `ProjectContext`: project detection is an input. The two instances in `checkContextInformation` and `checkPathResolution` are assumed to agree.
- The current-directory, project-root, `velo.json`, `velo.lock` and local `.velo` lines of the context report: these print probe results and decide nothing.
- ArgumentParser flag plumbing: `verbose` and `fix` are plain parameters.
- Counters and free bytes are unbounded integers. Swift's `Int` and `Int64` limits cannot be reached by these counts.
- Swift compares strings as grapheme clusters up to canonical equivalence. The model compares sequences of Unicode scalars, so, for example, composed and decomposed spellings of one name are different names here.
- `run` calls `fixIssues` with `try`, but `fixIssues` catches its own error and cannot throw. The model therefore has no error path there.
