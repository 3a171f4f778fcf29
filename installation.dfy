/**
 * `checkInstalledPackages`: every version of every visible package in the
 * global Cellar is handed to the installer for verification, and the
 * corrupted or incomplete ones are counted as issues.
 */
module Installation {
  import opened Wrappers
  import opened Listing

  /** What `Installer.verifyInstallation` reports about one package version. */
  datatype InstallationStatus = Installed | Corrupted(reason: string) | NotInstalled

  /** One (package, version) pair of the Cellar, in iteration order. */
  datatype Pair = Pair(package: string, version: string)

  /** One call of `verifyInstallation`: the dummy formula's name and version, and the symlink flag. */
  datatype Request = Request(package: string, version: string, checkSymlinks: bool)

  /**
   * The two collaborators of the loop: the dependency classifier
   * (`isLikelyDependencyPackage`, passed in by the doctor so that the loop
   * is reasoned about apart from its long name list) and the installer,
   * which returns a status or the error it throws.
   */
  datatype Verifier = Verifier(isDependency: string -> bool, inspect: Request -> Result<InstallationStatus>)

  /** Lines of the "Checking installed packages..." section. */
  datatype PackageLine =
    | Verified(pair: Pair)                        // only in verbose mode
    | Broken(pair: Pair, reason: string)
    | NotProperlyInstalled(pair: Pair)
    | AllInstalled(count: nat)                    // "All <count> package(s) are properly installed"
    | NoPackages
    | CheckFailed(error: string)

  /** What the section returns to `run`, what it prints, and the installer calls it made. */
  datatype PackageReport = PackageReport(issues: nat, lines: seq<PackageLine>, requests: seq<Request>)

  /** Symlinks are checked only for packages the classifier does not take for a dependency. */
  function RequestFor(pair: Pair, v: Verifier): (r: Request)
    ensures r.package == pair.package && r.version == pair.version
    ensures r.checkSymlinks <==> !v.isDependency(pair.package)
  {
    Request(pair.package, pair.version, !v.isDependency(pair.package))
  }

  /** What the installer answers for one pair. */
  function Outcome(pair: Pair, v: Verifier): Result<InstallationStatus> {
    v.inspect(RequestFor(pair, v))
  }

  function Requests(pairs: seq<Pair>, v: Verifier): seq<Request> {
    seq(|pairs|, k requires 0 <= k < |pairs| => RequestFor(pairs[k], v))
  }

  function VersionPairs(package: string, versions: seq<string>): seq<Pair> {
    seq(|versions|, k requires 0 <= k < |versions| => Pair(package, versions[k]))
  }

  /** The pairs the nested loops visit: packages in listing order, each package's versions in order. */
  function Pairs(packages: seq<string>, versionsOf: string -> seq<string>): seq<Pair>
    decreases |packages|
  {
    if packages == [] then []
    else
      var n := |packages| - 1;
      Pairs(packages[..n], versionsOf) + VersionPairs(packages[n], versionsOf(packages[n]))
  }

  lemma {:induction false} PairsAppend(a: seq<string>, b: seq<string>, versionsOf: string -> seq<string>)
    ensures Pairs(a + b, versionsOf) == Pairs(a, versionsOf) + Pairs(b, versionsOf)
    decreases |b|
  {
    if b == [] {
      assert a + b == a;
    } else {
      var n := |b| - 1;
      var ab := a + b;
      assert ab[..|ab| - 1] == a + b[..n];
      assert ab[|ab| - 1] == b[n];
      PairsAppend(a, b[..n], versionsOf);
      assert Pairs(ab, versionsOf) == Pairs(a + b[..n], versionsOf) + VersionPairs(b[n], versionsOf(b[n]));
      assert Pairs(b, versionsOf) == Pairs(b[..n], versionsOf) + VersionPairs(b[n], versionsOf(b[n]));
    }
  }

  /** The loops visit exactly the versions of the listed packages. */
  lemma {:induction false} PairsMembership(packages: seq<string>, versionsOf: string -> seq<string>, pair: Pair)
    ensures pair in Pairs(packages, versionsOf) <==>
      pair.package in packages && pair.version in versionsOf(pair.package)
    decreases |packages|
  {
    if packages != [] {
      var n := |packages| - 1;
      var p := packages[n];
      PairsMembership(packages[..n], versionsOf, pair);
      assert packages == packages[..n] + [p];
      if pair.package == p && pair.version in versionsOf(p) {
        var k :| 0 <= k < |versionsOf(p)| && versionsOf(p)[k] == pair.version;
        assert VersionPairs(p, versionsOf(p))[k] == pair;
      }
    }
  }

  /** The state of the nested loops: the counter, what was printed, the calls made, and the error that stopped them. */
  datatype ScanState = ScanState(issues: nat, lines: seq<PackageLine>, requests: seq<Request>, failure: Option<string>)

  /** A version the installer found corrupted or not installed. */
  predicate IsIssue(outcome: Result<InstallationStatus>) {
    outcome.Success? && !outcome.value.Installed?
  }

  /** One iteration of the inner loop; after a throw nothing more happens. */
  function Step(st: ScanState, pair: Pair, v: Verifier, verbose: bool): ScanState {
    if st.failure.Some? then st
    else
      var requests := st.requests + [RequestFor(pair, v)];
      match Outcome(pair, v)
      case Failure(e) => ScanState(st.issues, st.lines, requests, Some(e))
      case Success(Installed) =>
        ScanState(st.issues, st.lines + (if verbose then [Verified(pair)] else []), requests, None)
      case Success(Corrupted(reason)) => ScanState(st.issues + 1, st.lines + [Broken(pair, reason)], requests, None)
      case Success(NotInstalled) => ScanState(st.issues + 1, st.lines + [NotProperlyInstalled(pair)], requests, None)
  }

  function Scan(pairs: seq<Pair>, v: Verifier, verbose: bool): ScanState
    decreases |pairs|
  {
    if pairs == [] then ScanState(0, [], [], None)
    else Step(Scan(pairs[..|pairs| - 1], v, verbose), pairs[|pairs| - 1], v, verbose)
  }

  lemma ScanSnoc(ps: seq<Pair>, pair: Pair, v: Verifier, verbose: bool)
    ensures Scan(ps + [pair], v, verbose) == Step(Scan(ps, v, verbose), pair, v, verbose)
  {
    assert (ps + [pair])[..|ps|] == ps;
  }

  /** The whole section: an unreadable Cellar, an empty one, a throw part-way, or the count. */
  function InstalledPackagesReport(listing: Result<seq<string>>, versionsOf: string -> seq<string>,
                                   v: Verifier, verbose: bool): PackageReport
  {
    match listing
    case Failure(e) => PackageReport(1, [CheckFailed(e)], [])
    case Success(entries) =>
      var packages := Visible(entries);
      if packages == [] then PackageReport(0, [NoPackages], [])
      else
        var st := Scan(Pairs(packages, versionsOf), v, verbose);
        match st.failure
        case Some(e) => PackageReport(1, st.lines + [CheckFailed(e)], st.requests)
        case None =>
          PackageReport(st.issues, st.lines + (if st.issues == 0 && !verbose then [AllInstalled(|packages|)] else []),
                        st.requests)
  }

  /** Once the installer has thrown, later pairs change nothing. */
  lemma {:induction false} ScanStopsAfterFailure(ps: seq<Pair>, qs: seq<Pair>, v: Verifier, verbose: bool)
    requires Scan(ps, v, verbose).failure.Some?
    ensures Scan(ps + qs, v, verbose) == Scan(ps, v, verbose)
    decreases |qs|
  {
    if qs == [] {
      assert ps + qs == ps;
    } else {
      var n := |qs| - 1;
      ScanStopsAfterFailure(ps, qs[..n], v, verbose);
      assert ps + qs == (ps + qs[..n]) + [qs[n]];
      ScanSnoc(ps + qs[..n], qs[n], v, verbose);
    }
  }

  /**
   * The calls made are the requests for a prefix of the pairs, in order,
   * and for all of them when nothing threw.
   */
  lemma {:induction false} ScanPrefix(pairs: seq<Pair>, v: Verifier, verbose: bool)
    ensures |Scan(pairs, v, verbose).requests| <= |pairs|
    ensures Scan(pairs, v, verbose).requests == Requests(pairs[..|Scan(pairs, v, verbose).requests|], v)
    ensures Scan(pairs, v, verbose).failure.None? ==> |Scan(pairs, v, verbose).requests| == |pairs|
    decreases |pairs|
  {
    if pairs != [] {
      var n := |pairs| - 1;
      var ps := pairs[..n];
      var prev := Scan(ps, v, verbose);
      ScanPrefix(ps, v, verbose);
      var m := |prev.requests|;
      if prev.failure.Some? {
        assert pairs[..m] == ps[..m];
      } else {
        assert ps[..m] == ps;
        assert pairs[..m + 1] == pairs;
      }
    }
  }

  /** Every call before the last one succeeded; a stopped scan stopped at its last call, with that call's error. */
  lemma {:induction false} ScanOutcomes(pairs: seq<Pair>, v: Verifier, verbose: bool)
    ensures |Scan(pairs, v, verbose).requests| <= |pairs|
    ensures forall k :: 0 <= k < |Scan(pairs, v, verbose).requests| - 1 ==> Outcome(pairs[k], v).Success?
    ensures Scan(pairs, v, verbose).failure.None? ==> forall k :: 0 <= k < |pairs| ==> Outcome(pairs[k], v).Success?
    ensures Scan(pairs, v, verbose).failure.Some? ==>
      |Scan(pairs, v, verbose).requests| > 0 &&
      Outcome(pairs[|Scan(pairs, v, verbose).requests| - 1], v) == Failure(Scan(pairs, v, verbose).failure.value)
    decreases |pairs|
  {
    ScanPrefix(pairs, v, verbose);
    if pairs != [] {
      var n := |pairs| - 1;
      var ps := pairs[..n];
      ScanOutcomes(ps, v, verbose);
      ScanPrefix(ps, v, verbose);
      assert forall k :: 0 <= k < n ==> ps[k] == pairs[k];
    }
  }

  /** The scan stops early exactly when some call throws. */
  lemma ScanFailsIffSomeCallThrows(pairs: seq<Pair>, v: Verifier, verbose: bool)
    ensures Scan(pairs, v, verbose).failure.Some? <==> exists k :: 0 <= k < |pairs| && Outcome(pairs[k], v).Failure?
  {
    ScanPrefix(pairs, v, verbose);
    ScanOutcomes(pairs, v, verbose);
  }

  /** Positions of the pairs the installer reported as corrupted or not installed. */
  function IssueIndices(pairs: seq<Pair>, v: Verifier): set<int> {
    set k | 0 <= k < |pairs| && IsIssue(Outcome(pairs[k], v))
  }

  lemma IssueIndicesSnoc(ps: seq<Pair>, pair: Pair, v: Verifier)
    ensures |IssueIndices(ps + [pair], v)| == |IssueIndices(ps, v)| + (if IsIssue(Outcome(pair, v)) then 1 else 0)
  {
    var qs := ps + [pair];
    var before := IssueIndices(ps, v);
    var after := IssueIndices(qs, v);
    var last: set<int> := if IsIssue(Outcome(pair, v)) then {|ps|} else {};
    forall k | k in after ensures k in before + last {
      if k < |ps| {
        assert qs[k] == ps[k];
      }
    }
    forall k | k in before + last ensures k in after {
      if k < |ps| {
        assert qs[k] == ps[k];
      }
    }
    assert after == before + last;
    assert |ps| !in before;
  }

  /** The counter is the number of issue pairs among those verified before any throw. */
  lemma {:induction false} ScanCountsIssues(pairs: seq<Pair>, v: Verifier, verbose: bool)
    ensures |Scan(pairs, v, verbose).requests| <= |pairs|
    ensures Scan(pairs, v, verbose).issues == |IssueIndices(pairs[..|Scan(pairs, v, verbose).requests|], v)|
    decreases |pairs|
  {
    ScanPrefix(pairs, v, verbose);
    if pairs == [] {
      assert IssueIndices(pairs, v) == {};
    } else {
      var n := |pairs| - 1;
      var ps := pairs[..n];
      var prev := Scan(ps, v, verbose);
      ScanCountsIssues(ps, v, verbose);
      ScanPrefix(ps, v, verbose);
      var m := |prev.requests|;
      if prev.failure.Some? {
        assert pairs[..m] == ps[..m];
      } else {
        assert ps[..m] == ps;
        assert pairs[..m + 1] == pairs == ps + [pairs[n]];
        IssueIndicesSnoc(ps, pairs[n], v);
      }
    }
  }

  /** Only per-version lines are printed by the loops, and successes only in verbose mode. */
  lemma {:induction false} ScanLines(pairs: seq<Pair>, v: Verifier, verbose: bool)
    ensures forall l :: l in Scan(pairs, v, verbose).lines ==> l.Verified? || l.Broken? || l.NotProperlyInstalled?
    ensures !verbose ==> forall l :: l in Scan(pairs, v, verbose).lines ==> !l.Verified?
    decreases |pairs|
  {
    if pairs != [] {
      var n := |pairs| - 1;
      ScanLines(pairs[..n], v, verbose);
    }
  }

  /** `--verbose` changes what the loops print, not what they count or which calls they make. */
  lemma {:induction false} ScanVerboseOnlyPrints(pairs: seq<Pair>, v: Verifier)
    ensures Scan(pairs, v, true).issues == Scan(pairs, v, false).issues
    ensures Scan(pairs, v, true).requests == Scan(pairs, v, false).requests
    ensures Scan(pairs, v, true).failure == Scan(pairs, v, false).failure
    decreases |pairs|
  {
    if pairs != [] {
      ScanVerboseOnlyPrints(pairs[..|pairs| - 1], v);
    }
  }

  lemma InstalledPackagesVerboseOnlyPrints(listing: Result<seq<string>>, versionsOf: string -> seq<string>, v: Verifier)
    ensures InstalledPackagesReport(listing, versionsOf, v, true).issues ==
      InstalledPackagesReport(listing, versionsOf, v, false).issues
    ensures InstalledPackagesReport(listing, versionsOf, v, true).requests ==
      InstalledPackagesReport(listing, versionsOf, v, false).requests
  {
    if listing.Success? {
      ScanVerboseOnlyPrints(Pairs(Visible(listing.value), versionsOf), v);
    }
  }

  /**
   * The returned count: 1 when the Cellar cannot be read or any call throws
   * (the partial count is discarded); 0 for a Cellar without visible
   * packages; otherwise the number of pairs found corrupted or not installed.
   */
  lemma InstalledPackagesCount(listing: Result<seq<string>>, versionsOf: string -> seq<string>,
                               v: Verifier, verbose: bool)
    ensures listing.Failure? ==> InstalledPackagesReport(listing, versionsOf, v, verbose).issues == 1
    ensures listing.Success? && Visible(listing.value) == [] ==>
      InstalledPackagesReport(listing, versionsOf, v, verbose).issues == 0
    ensures listing.Success? && (exists k :: 0 <= k < |Pairs(Visible(listing.value), versionsOf)| &&
                                   Outcome(Pairs(Visible(listing.value), versionsOf)[k], v).Failure?) ==>
      InstalledPackagesReport(listing, versionsOf, v, verbose).issues == 1
    ensures listing.Success? && (forall k :: 0 <= k < |Pairs(Visible(listing.value), versionsOf)| ==>
                                   Outcome(Pairs(Visible(listing.value), versionsOf)[k], v).Success?) ==>
      InstalledPackagesReport(listing, versionsOf, v, verbose).issues ==
        |IssueIndices(Pairs(Visible(listing.value), versionsOf), v)|
  {
    if listing.Success? {
      var pairs := Pairs(Visible(listing.value), versionsOf);
      ScanFailsIffSomeCallThrows(pairs, v, verbose);
      ScanCountsIssues(pairs, v, verbose);
      ScanPrefix(pairs, v, verbose);
      assert pairs[..|pairs|] == pairs;
      if Visible(listing.value) == [] {
        assert pairs == [];
      }
    }
  }

  /** Every call asks for a listed package's version, with symlinks checked exactly for non-dependencies. */
  lemma InstalledPackagesRequests(listing: Result<seq<string>>, versionsOf: string -> seq<string>,
                                  v: Verifier, verbose: bool)
    ensures forall r :: r in InstalledPackagesReport(listing, versionsOf, v, verbose).requests ==>
      && listing.Success?
      && r.package in Visible(listing.value)
      && r.version in versionsOf(r.package)
      && (r.checkSymlinks <==> !v.isDependency(r.package))
  {
    if listing.Success? && Visible(listing.value) != [] {
      var packages := Visible(listing.value);
      var pairs := Pairs(packages, versionsOf);
      var requests := InstalledPackagesReport(listing, versionsOf, v, verbose).requests;
      ScanPrefix(pairs, v, verbose);
      forall r | r in requests
        ensures r.package in packages && r.version in versionsOf(r.package)
        ensures r.checkSymlinks <==> !v.isDependency(r.package)
      {
        var k :| 0 <= k < |requests| && requests[k] == r;
        assert r == RequestFor(pairs[k], v);
        PairsMembership(packages, versionsOf, pairs[k]);
      }
    }
  }

  /**
   * The "All N package(s) are properly installed" line appears exactly when
   * the Cellar was read and held packages, nothing threw, no issue was
   * found and the run is not verbose; N counts packages, not versions.
   */
  lemma InstalledPackagesAllOk(listing: Result<seq<string>>, versionsOf: string -> seq<string>,
                               v: Verifier, verbose: bool)
    ensures (exists l :: l in InstalledPackagesReport(listing, versionsOf, v, verbose).lines && l.AllInstalled?) <==>
      && listing.Success?
      && Visible(listing.value) != []
      && Scan(Pairs(Visible(listing.value), versionsOf), v, verbose).failure.None?
      && InstalledPackagesReport(listing, versionsOf, v, verbose).issues == 0
      && !verbose
    ensures forall l :: l in InstalledPackagesReport(listing, versionsOf, v, verbose).lines && l.AllInstalled? ==>
      l.count == |Visible(listing.value)|
    ensures !verbose ==> forall l :: l in InstalledPackagesReport(listing, versionsOf, v, verbose).lines ==> !l.Verified?
  {
    if listing.Success? && Visible(listing.value) != [] {
      var packages := Visible(listing.value);
      var st := Scan(Pairs(packages, versionsOf), v, verbose);
      ScanLines(Pairs(packages, versionsOf), v, verbose);
      var lines := InstalledPackagesReport(listing, versionsOf, v, verbose).lines;
      if st.failure.None? && st.issues == 0 && !verbose {
        assert lines[|lines| - 1] == AllInstalled(|packages|);
      }
    }
  }

  /** A package whose version list is empty is never verified and never counted. */
  lemma UnversionedPackagesPass(listing: Result<seq<string>>, versionsOf: string -> seq<string>, v: Verifier)
    requires listing.Success? && Visible(listing.value) != []
    requires forall p :: p in Visible(listing.value) ==> versionsOf(p) == []
    ensures InstalledPackagesReport(listing, versionsOf, v, false) ==
      PackageReport(0, [AllInstalled(|Visible(listing.value)|)], [])
  {
    var packages := Visible(listing.value);
    var pairs := Pairs(packages, versionsOf);
    if pairs != [] {
      PairsMembership(packages, versionsOf, pairs[0]);
      assert false;
    }
  }

  /** The nested loops of `checkInstalledPackages`, returning on the first throw. */
  method CheckInstalledPackages(listing: Result<seq<string>>, versionsOf: string -> seq<string>,
                                v: Verifier, verbose: bool)
    returns (report: PackageReport)
    ensures report == InstalledPackagesReport(listing, versionsOf, v, verbose)
  {
    if listing.Failure? {
      return PackageReport(1, [CheckFailed(listing.error)], []);
    }
    var packages := Visible(listing.value);
    if packages == [] {
      return PackageReport(0, [NoPackages], []);
    }
    var issues := 0;
    var lines: seq<PackageLine> := [];
    var requests: seq<Request> := [];
    for i := 0 to |packages|
      invariant Scan(Pairs(packages[..i], versionsOf), v, verbose) == ScanState(issues, lines, requests, None)
    {
      var package := packages[i];
      var versions := versionsOf(package);
      ghost var done := Pairs(packages[..i], versionsOf);
      assert done + VersionPairs(package, versions[..0]) == done;
      for j := 0 to |versions|
        invariant Scan(done + VersionPairs(package, versions[..j]), v, verbose) == ScanState(issues, lines, requests, None)
      {
        var version := versions[j];
        var request := Request(package, version, !v.isDependency(package));
        ghost var pair := Pair(package, version);
        ghost var before := done + VersionPairs(package, versions[..j]);
        VisitNext(done, package, versions, j);
        ScanSnoc(before, pair, v, verbose);
        assert RequestFor(pair, v) == request;
        requests := requests + [request];
        var outcome := v.inspect(request);
        match outcome {
          case Failure(e) =>
            PairsSplit(packages, i, j, versionsOf);
            ScanStopsAfterFailure(before + [pair],
              VersionPairs(package, versions[j + 1..]) + Pairs(packages[i + 1..], versionsOf), v, verbose);
            return PackageReport(1, lines + [CheckFailed(e)], requests);
          case Success(Installed) =>
            if verbose {
              lines := lines + [Verified(Pair(package, version))];
            }
          case Success(Corrupted(reason)) =>
            lines := lines + [Broken(Pair(package, version), reason)];
            issues := issues + 1;
          case Success(NotInstalled) =>
            lines := lines + [NotProperlyInstalled(Pair(package, version))];
            issues := issues + 1;
        }
      }
      assert versions[..|versions|] == versions;
      assert packages[..i + 1][..i] == packages[..i];
    }
    assert packages[..|packages|] == packages;
    if issues == 0 && !verbose {
      lines := lines + [AllInstalled(|packages|)];
    }
    report := PackageReport(issues, lines, requests);
  }

  /** The pairs visited once version j of a package is done. */
  lemma VisitNext(done: seq<Pair>, package: string, versions: seq<string>, j: nat)
    requires j < |versions|
    ensures done + VersionPairs(package, versions[..j + 1]) ==
      (done + VersionPairs(package, versions[..j])) + [Pair(package, versions[j])]
  {
    assert VersionPairs(package, versions[..j + 1]) == VersionPairs(package, versions[..j]) + [Pair(package, versions[j])];
  }

  lemma VersionPairsSplit(package: string, versions: seq<string>, j: nat)
    requires j <= |versions|
    ensures VersionPairs(package, versions) == VersionPairs(package, versions[..j]) + VersionPairs(package, versions[j..])
  {
  }

  lemma PairsThrough(packages: seq<string>, i: nat, versionsOf: string -> seq<string>)
    requires i < |packages|
    ensures Pairs(packages[..i + 1], versionsOf) == Pairs(packages[..i], versionsOf) + VersionPairs(packages[i], versionsOf(packages[i]))
  {
    assert packages[..i + 1][..i] == packages[..i];
  }

  /** The pairs of the whole Cellar, cut after version j of package i. */
  lemma PairsSplit(packages: seq<string>, i: nat, j: nat, versionsOf: string -> seq<string>)
    requires i < |packages| && j < |versionsOf(packages[i])|
    ensures Pairs(packages, versionsOf) ==
      (Pairs(packages[..i], versionsOf) + VersionPairs(packages[i], versionsOf(packages[i])[..j + 1]))
      + (VersionPairs(packages[i], versionsOf(packages[i])[j + 1..]) + Pairs(packages[i + 1..], versionsOf))
  {
    var p := packages[i];
    var vs := versionsOf(p);
    var a := Pairs(packages[..i], versionsOf);
    var b := VersionPairs(p, vs[..j + 1]);
    var c := VersionPairs(p, vs[j + 1..]);
    var d := Pairs(packages[i + 1..], versionsOf);
    assert packages == packages[..i + 1] + packages[i + 1..];
    PairsAppend(packages[..i + 1], packages[i + 1..], versionsOf);
    PairsThrough(packages, i, versionsOf);
    VersionPairsSplit(p, vs, j + 1);
    assert Pairs(packages, versionsOf) == a + (b + c) + d;
    assert a + (b + c) + d == (a + b) + (c + d);
  }
}
