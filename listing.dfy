/**
 * Directory listings as the doctor reads them: hidden entries dropped, and
 * the package sections of the context report showing the first five
 * packages and a count of the rest (`checkLocalPackages`,
 * `checkGlobalPackages`).
 */
module Listing {
  import opened Wrappers

  /** `entry.hasPrefix(".")`. */
  predicate IsHidden(entry: string) {
    |entry| > 0 && entry[0] == '.'
  }

  /** `.filter { !$0.hasPrefix(".") }`. */
  function Visible(entries: seq<string>): (r: seq<string>)
    ensures |r| <= |entries|
    ensures forall e :: e in r <==> e in entries && !IsHidden(e)
  {
    if entries == [] then []
    else if IsHidden(entries[0]) then Visible(entries[1..])
    else [entries[0]] + Visible(entries[1..])
  }

  /** Filtering keeps the listing order: it distributes over concatenation. */
  lemma {:induction false} VisibleAppend(a: seq<string>, b: seq<string>)
    ensures Visible(a + b) == Visible(a) + Visible(b)
  {
    if a == [] {
      assert a + b == b;
    } else {
      assert (a + b)[0] == a[0];
      assert (a + b)[1..] == a[1..] + b;
      VisibleAppend(a[1..], b);
    }
  }

  /** A listing with nothing hidden passes through unchanged, so filtering twice is filtering once. */
  lemma {:induction false} VisibleNoHidden(entries: seq<string>)
    requires forall k :: 0 <= k < |entries| ==> !IsHidden(entries[k])
    ensures Visible(entries) == entries
  {
    if entries != [] {
      VisibleNoHidden(entries[1..]);
    }
  }

  /** What the report prints for one package section. */
  datatype ListingLine =
    | PackageEntry(name: string, versions: seq<string>)  // "<package>: <v1>, <v2>"
    | AndMore(count: nat)                                  // "... and <count> more"
    | NoPackagesInstalled
    | ReadFailed(error: string)

  /** How many packages a section shows before it summarises the rest. */
  const ShownLimit: nat := 5

  function Min(a: nat, b: nat): nat {
    if a <= b then a else b
  }

  /**
   * Where a section gets a package's versions from: the global section asks
   * the path helper (`installedVersions(for:)`); the local one lists the
   * package's directory, drops hidden entries, and shows nothing when the
   * listing fails (`try? ... ?? []`).
   */
  datatype VersionSource =
    | InstalledVersions(versionsOf: string -> seq<string>)
    | PackageDirectories(listDirectory: string -> Result<seq<string>>)

  function VersionsOf(src: VersionSource, package: string): seq<string> {
    match src
    case InstalledVersions(versionsOf) => versionsOf(package)
    case PackageDirectories(listDirectory) =>
      match listDirectory(package)
      case Success(entries) => Visible(entries)
      case Failure(_) => []
  }

  /** One entry line per package, in order. */
  function Entries(packages: seq<string>, src: VersionSource): (lines: seq<ListingLine>)
    ensures |lines| == |packages|
    ensures forall k :: 0 <= k < |packages| ==> lines[k] == PackageEntry(packages[k], VersionsOf(src, packages[k]))
  {
    seq(|packages|, k requires 0 <= k < |packages| => PackageEntry(packages[k], VersionsOf(src, packages[k])))
  }

  /** The lines for a non-empty package list: the first five packages, then the count of the others. */
  function TruncatedListing(packages: seq<string>, src: VersionSource): seq<ListingLine> {
    Entries(packages[..Min(ShownLimit, |packages|)], src)
      + (if |packages| > ShownLimit then [AndMore(|packages| - ShownLimit)] else [])
  }

  /** The whole section: missing store, unreadable store, empty store, or the truncated list. */
  function PackageListing(storeExists: bool, listing: Result<seq<string>>, src: VersionSource): seq<ListingLine> {
    if !storeExists then [NoPackagesInstalled]
    else match listing
      case Failure(e) => [ReadFailed(e)]
      case Success(entries) =>
        var packages := Visible(entries);
        if packages == [] then [NoPackagesInstalled] else TruncatedListing(packages, src)
  }

  /** Number of package lines. */
  function ShownCount(lines: seq<ListingLine>): nat {
    if lines == [] then 0
    else ShownCount(lines[..|lines| - 1]) + (if lines[|lines| - 1].PackageEntry? then 1 else 0)
  }

  /** The count on the "... and N more" line, or 0 without one. */
  function HiddenCount(lines: seq<ListingLine>): nat {
    if lines == [] then 0
    else
      HiddenCount(lines[..|lines| - 1])
        + (match lines[|lines| - 1] case AndMore(n) => n case _ => 0)
  }

  lemma {:induction false} EntriesCounts(packages: seq<string>, src: VersionSource)
    ensures ShownCount(Entries(packages, src)) == |packages|
    ensures HiddenCount(Entries(packages, src)) == 0
  {
    if packages != [] {
      var n := |packages| - 1;
      assert Entries(packages, src)[..n] == Entries(packages[..n], src);
      EntriesCounts(packages[..n], src);
    }
  }

  /**
   * Truncation: exactly min(5, n) package lines, which are the first
   * packages in listing order; a "... and n - 5 more" line after them exactly
   * when n > 5; and shown plus summarised is n.
   */
  lemma TruncatedListingShape(packages: seq<string>, src: VersionSource)
    ensures |TruncatedListing(packages, src)| == Min(ShownLimit, |packages|) + (if |packages| > ShownLimit then 1 else 0)
    ensures forall k :: 0 <= k < Min(ShownLimit, |packages|) ==>
      TruncatedListing(packages, src)[k] == PackageEntry(packages[k], VersionsOf(src, packages[k]))
    ensures |packages| > ShownLimit <==> exists l :: l in TruncatedListing(packages, src) && l.AndMore?
    ensures |packages| > ShownLimit ==>
      TruncatedListing(packages, src)[Min(ShownLimit, |packages|)] == AndMore(|packages| - ShownLimit)
    ensures ShownCount(TruncatedListing(packages, src)) == Min(ShownLimit, |packages|)
    ensures ShownCount(TruncatedListing(packages, src)) + HiddenCount(TruncatedListing(packages, src)) == |packages|
  {
    var m := Min(ShownLimit, |packages|);
    var shown := Entries(packages[..m], src);
    var lines := TruncatedListing(packages, src);
    EntriesCounts(packages[..m], src);
    if |packages| > ShownLimit {
      assert lines[..|lines| - 1] == shown;
      assert lines[|lines| - 1] == AndMore(|packages| - ShownLimit);
      assert lines[|lines| - 1] in lines;
    } else {
      assert lines == shown;
      forall l | l in lines ensures !l.AndMore? {
        var k :| 0 <= k < |lines| && lines[k] == l;
      }
    }
  }

  /** No hidden entry ever reaches a package line. */
  lemma PackageListingHidesHidden(storeExists: bool, listing: Result<seq<string>>, src: VersionSource)
    ensures forall l :: l in PackageListing(storeExists, listing, src) && l.PackageEntry? ==> !IsHidden(l.name)
  {
    if storeExists && listing.Success? {
      var packages := Visible(listing.value);
      if packages != [] {
        var lines := TruncatedListing(packages, src);
        var m := Min(ShownLimit, |packages|);
        forall l | l in lines && l.PackageEntry? ensures !IsHidden(l.name) {
          var k :| 0 <= k < |lines| && lines[k] == l;
          assert k < m;
          assert packages[k] in packages;
        }
      }
    }
  }

  /** The section reports "No ... packages installed" exactly when the store is missing or holds only hidden entries. */
  lemma PackageListingEmpty(storeExists: bool, listing: Result<seq<string>>, src: VersionSource)
    ensures PackageListing(storeExists, listing, src) == [NoPackagesInstalled] <==>
      !storeExists || (listing.Success? && Visible(listing.value) == [])
  {
    if storeExists && listing.Success? && Visible(listing.value) != [] {
      var packages := Visible(listing.value);
      var lines := TruncatedListing(packages, src);
      assert lines[0] == PackageEntry(packages[0], VersionsOf(src, packages[0]));
    }
  }

  /** The loop over `packages.prefix(5)` and the "... and N more" line after it. */
  method ShowFirstPackages(packages: seq<string>, src: VersionSource) returns (lines: seq<ListingLine>)
    ensures lines == TruncatedListing(packages, src)
  {
    var m := Min(ShownLimit, |packages|);
    lines := [];
    for i := 0 to m
      invariant lines == Entries(packages[..i], src)
    {
      var package := packages[i];
      lines := lines + [PackageEntry(package, VersionsOf(src, package))];
    }
    if |packages| > ShownLimit {
      lines := lines + [AndMore(|packages| - ShownLimit)];
    }
  }

  /** `checkLocalPackages`: the project's `.velo/Cellar`, versions read from each package directory. */
  method ListLocalPackages(cellarExists: bool, listing: Result<seq<string>>,
                           listDirectory: string -> Result<seq<string>>)
    returns (lines: seq<ListingLine>)
    ensures lines == PackageListing(cellarExists, listing, PackageDirectories(listDirectory))
  {
    lines := ListStore(cellarExists, listing, PackageDirectories(listDirectory));
  }

  /** `checkGlobalPackages`: the global Cellar, versions from the path helper. */
  method ListGlobalPackages(cellarExists: bool, listing: Result<seq<string>>,
                            installedVersions: string -> seq<string>)
    returns (lines: seq<ListingLine>)
    ensures lines == PackageListing(cellarExists, listing, InstalledVersions(installedVersions))
  {
    lines := ListStore(cellarExists, listing, InstalledVersions(installedVersions));
  }

  /** The guard, the read and the empty case the two sections share. */
  method ListStore(storeExists: bool, listing: Result<seq<string>>, src: VersionSource)
    returns (lines: seq<ListingLine>)
    ensures lines == PackageListing(storeExists, listing, src)
  {
    if !storeExists {
      return [NoPackagesInstalled];
    }
    match listing
    case Failure(e) =>
      lines := [ReadFailed(e)];
    case Success(entries) =>
      var packages := Visible(entries);
      if packages == [] {
        lines := [NoPackagesInstalled];
      } else {
        lines := ShowFirstPackages(packages, src);
      }
  }
}
