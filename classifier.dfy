/**
 * The heuristic that tells packages users install on purpose apart from
 * packages that are most likely only there as someone else's dependency
 * (`isLikelyDependencyPackage` in Doctor.swift). Dependencies are not asked
 * to have command symlinks in the bin directory.
 */
module Classifier {

  /*
   * The exact list, in the source's order, kept in the groups its comments
   * name; `CommonDependencies` is their concatenation.
   */
  /** System libraries */
  const SystemLibraries: seq<string> := [
    "openssl", "openssl@3", "zlib", "bzip2", "xz", "lz4", "zstd"
  ]

  /** Language runtimes, when used as dependencies */
  const LanguageRuntimes: seq<string> := [
    "python@3.11", "python@3.12", "python@3.13", "node@18", "node@20"
  ]

  /** Build tools and libraries */
  const BuildTools: seq<string> := [
    "cmake", "autoconf", "automake", "libtool", "pkg-config", "pkgconf",
    "gettext", "readline", "ncurses", "sqlite", "gdbm"
  ]

  /** Graphics and media libraries */
  const GraphicsLibraries: seq<string> := [
    "jpeg-turbo", "libpng", "libtiff", "giflib", "webp", "freetype",
    "fontconfig", "cairo", "pixman", "fribidi", "harfbuzz", "pango",
    "glib", "gobject-introspection", "graphite2", "little-cms2"
  ]

  /** Compression libraries */
  const CompressionLibraries: seq<string> := [
    "brotli", "lzma", "libdeflate", "snappy"
  ]

  /** Audio and video libraries */
  const AudioVideoLibraries: seq<string> := [
    "lame", "mpg123", "speex", "opus", "flac", "ogg", "vorbis",
    "x264", "x265", "aom", "dav1d", "rav1e", "svt-av1", "libvpx",
    "libtheora", "libvorbis", "libogg", "libsndfile", "rubberband"
  ]

  /** Network and security libraries, leaving out tools users install themselves */
  const NetworkLibraries: seq<string> := [
    "gnutls", "nettle", "libtasn1", "p11-kit",
    "ca-certificates", "libevent", "libnghttp2", "c-ares",
    "libidn2", "libpsl", "libssh2"
  ]

  /** Archive and file format libraries */
  const ArchiveLibraries: seq<string> := [
    "libarchive", "unrar", "p7zip", "libzip"
  ]

  /** Development libraries */
  const DevelopmentLibraries: seq<string> := [
    "pcre", "pcre2", "icu4c", "boost", "protobuf", "yaml-cpp",
    "json-c", "jansson", "rapidjson"
  ]

  /** Image processing */
  const ImageProcessing: seq<string> := [
    "imagemagick", "vips", "opencv", "tesseract", "leptonica",
    "openjpeg", "jpeg-xl", "libjxl", "openexr", "imath"
  ]

  /** Multimedia frameworks */
  const MultimediaFrameworks: seq<string> := [
    "sdl2", "allegro", "sfml", "glfw"
  ]

  /** Database libraries */
  const DatabaseLibraries: seq<string> := [
    "postgresql", "mysql", "sqlite3", "redis", "mongodb"
  ]

  /** Encryption and hashing */
  const CryptoLibraries: seq<string> := [
    "libgcrypt", "libgpg-error", "argon2", "bcrypt"
  ]

  /** XML and HTML processing */
  const MarkupLibraries: seq<string> := [
    "libxml2", "libxslt", "pugixml", "tinyxml2"
  ]

  /** File system libraries */
  const FileSystemLibraries: seq<string> := [
    "ossp-uuid", "e2fsprogs", "ntfs-3g"
  ]

  /** Compiler components */
  const CompilerComponents: seq<string> := [
    "gcc", "llvm", "clang", "binutils", "nasm", "yasm"
  ]

  /** Further multimedia and graphics dependencies */
  const MediaDependencies: seq<string> := [
    "libbluray", "zeromq", "srt", "librist", "libvmaf", "mbedtls"
  ]

  /** Names that are treated as dependencies when they match exactly. */
  const CommonDependencies: seq<string> :=
    SystemLibraries
    + LanguageRuntimes
    + BuildTools
    + GraphicsLibraries
    + CompressionLibraries
    + AudioVideoLibraries
    + NetworkLibraries
    + ArchiveLibraries
    + DevelopmentLibraries
    + ImageProcessing
    + MultimediaFrameworks
    + DatabaseLibraries
    + CryptoLibraries
    + MarkupLibraries
    + FileSystemLibraries
    + CompilerComponents
    + MediaDependencies

  /** Base names whose `name@version` forms are treated as dependencies. */
  const VersionedDependencyBases: seq<string> := [
    "python", "node", "ruby", "go", "rust", "java", "perl",
    "php", "openssl", "mysql", "postgresql", "redis"
  ]

  const VersionSeparator: char := '@'

  /** `s` with its leading separators removed. */
  function SkipSeparators(s: string, sep: char): string {
    if s != [] && s[0] == sep then SkipSeparators(s[1..], sep) else s
  }

  /** What is skipped is a run of separators, and what is left starts with something else. */
  lemma {:induction false} SkipSeparatorsSpec(s: string, sep: char)
    ensures |SkipSeparators(s, sep)| <= |s|
    ensures SkipSeparators(s, sep) == s[|s| - |SkipSeparators(s, sep)|..]
    ensures forall k :: 0 <= k < |s| - |SkipSeparators(s, sep)| ==> s[k] == sep
    ensures SkipSeparators(s, sep) == [] || SkipSeparators(s, sep)[0] != sep
  {
    if s != [] && s[0] == sep {
      var r := SkipSeparators(s[1..], sep);
      SkipSeparatorsSpec(s[1..], sep);
      assert SkipSeparators(s, sep) == r;
      assert s[1..][|s| - 1 - |r|..] == s[|s| - |r|..];
      forall k | 0 < k < |s| - |r| ensures s[k] == sep {
        assert s[k] == s[1..][k - 1];
      }
    }
  }

  /** The longest prefix of `s` free of separators. */
  function Piece(s: string, sep: char): string {
    if s == [] || s[0] == sep then [] else [s[0]] + Piece(s[1..], sep)
  }

  /** The piece is a separator-free prefix that ends at a separator or at the end of `s`. */
  lemma {:induction false} PieceSpec(s: string, sep: char)
    ensures |Piece(s, sep)| <= |s|
    ensures Piece(s, sep) == s[..|Piece(s, sep)|]
    ensures sep !in Piece(s, sep)
    ensures |Piece(s, sep)| == |s| || s[|Piece(s, sep)|] == sep
  {
    if !(s == [] || s[0] == sep) {
      var r := Piece(s[1..], sep);
      PieceSpec(s[1..], sep);
      assert Piece(s, sep) == [s[0]] + r;
      assert s[..|r| + 1] == [s[0]] + s[1..][..|r|];
    }
  }

  /** Every piece is non-empty and free of the separator. */
  ghost predicate ProperPieces(pieces: seq<string>, sep: char) {
    forall k :: 0 <= k < |pieces| ==> pieces[k] != [] && sep !in pieces[k]
  }

  /**
   * Swift's `split(separator:)` with its default arguments: the maximal runs
   * of non-separator characters, in order; empty pieces are omitted.
   */
  function Split(s: string, sep: char): seq<string>
    decreases |s|
  {
    var t := SkipSeparators(s, sep);
    if t == [] then []
    else
      SkipSeparatorsSpec(s, sep);
      PieceSpec(t, sep);
      var p := Piece(t, sep);
      [p] + Split(t[|p|..], sep)
  }

  /** No piece is empty or holds a separator; the first piece is the first run after the leading separators. */
  lemma {:induction false} SplitSpec(s: string, sep: char)
    ensures ProperPieces(Split(s, sep), sep)
    ensures Split(s, sep) == [] <==> SkipSeparators(s, sep) == []
    ensures Split(s, sep) != [] ==> Split(s, sep)[0] == Piece(SkipSeparators(s, sep), sep)
    decreases |s|
  {
    var t := SkipSeparators(s, sep);
    if t != [] {
      SkipSeparatorsSpec(s, sep);
      PieceSpec(t, sep);
      var p := Piece(t, sep);
      var rest := Split(t[|p|..], sep);
      SplitSpec(t[|p|..], sep);
      assert Split(s, sep) == [p] + rest;
      forall k | 0 <= k < |[p] + rest|
        ensures ([p] + rest)[k] != [] && sep !in ([p] + rest)[k]
      {
        if k > 0 { assert ([p] + rest)[k] == rest[k - 1]; }
      }
    }
  }

  /** `String(packageName.split(separator: "@").first ?? "")`. */
  function BaseName(name: string): (b: string)
    ensures VersionSeparator !in b
    ensures b == [] <==> forall k :: 0 <= k < |name| ==> name[k] == VersionSeparator
    ensures b != [] ==> exists i :: LeadsTo(name, i, b)
  {
    var pieces := Split(name, VersionSeparator);
    SplitSpec(name, VersionSeparator);
    SkipSeparatorsSpec(name, VersionSeparator);
    if pieces == [] then ""
    else
      var t := SkipSeparators(name, VersionSeparator);
      PieceSpec(t, VersionSeparator);
      assert t[..|pieces[0]|] == pieces[0];
      assert name[|name| - |t|..][..|pieces[0]|] == name[|name| - |t|..|name| - |t| + |pieces[0]|];
      assert LeadsTo(name, |name| - |t|, pieces[0]);
      pieces[0]
  }

  /**
   * `b` is the first non-empty `@`-separated segment of `name`, starting at
   * index `i`: only separators come before it and a separator or the end of
   * the name comes after it.
   */
  ghost predicate LeadsTo(name: string, i: int, b: string) {
    && 0 <= i && i + |b| <= |name|
    && (forall k :: 0 <= k < i ==> name[k] == VersionSeparator)
    && name[i..i + |b|] == b
    && (i + |b| == |name| || name[i + |b|] == VersionSeparator)
  }

  /** Linear search of a lookup list, as `Array.contains` does. */
  predicate InList(x: string, list: seq<string>)
    decreases |list|
  {
    list != [] && (list[0] == x || InList(x, list[1..]))
  }

  lemma {:induction false} InListSpec(x: string, list: seq<string>)
    ensures InList(x, list) <==> x in list
    decreases |list|
  {
    if list != [] {
      InListSpec(x, list[1..]);
      assert list == [list[0]] + list[1..];
    }
  }

  /** The classifier: exact lookup first, then the versioned-base rule for names with an `@`. */
  function IsLikelyDependencyPackage(packageName: string): bool {
    if InList(packageName, CommonDependencies) then true
    else if VersionSeparator in packageName then InList(BaseName(packageName), VersionedDependencyBases)
    else false
  }

  /**
   * Every name of the exact list is a dependency, versioned or not; a name
   * without '@' is one exactly when it is on that list.
   */
  lemma ExactListRule(packageName: string)
    ensures packageName in CommonDependencies ==> IsLikelyDependencyPackage(packageName)
    ensures VersionSeparator !in packageName ==>
      (IsLikelyDependencyPackage(packageName) <==> packageName in CommonDependencies)
  {
    InListSpec(packageName, CommonDependencies);
  }

  ghost predicate OutsideEveryGroup(x: string) {
    && x !in SystemLibraries
    && x !in LanguageRuntimes
    && x !in BuildTools
    && x !in GraphicsLibraries
    && x !in CompressionLibraries
    && x !in AudioVideoLibraries
    && x !in NetworkLibraries
    && x !in ArchiveLibraries
    && x !in DevelopmentLibraries
    && x !in ImageProcessing
    && x !in MultimediaFrameworks
    && x !in DatabaseLibraries
    && x !in CryptoLibraries
    && x !in MarkupLibraries
    && x !in FileSystemLibraries
    && x !in CompilerComponents
    && x !in MediaDependencies
  }

  /** A name outside every group is outside the exact list. */
  lemma NotInExactList(x: string)
    requires OutsideEveryGroup(x)
    ensures x !in CommonDependencies
  {
  }

  /**
   * For a name outside the exact list that carries a version qualifier, the
   * verdict is decided by its first non-empty `@` segment alone.
   */
  lemma VersionedNameRule(packageName: string, b: string, i: int)
    requires packageName !in CommonDependencies && VersionSeparator in packageName
    requires b != [] && VersionSeparator !in b && LeadsTo(packageName, i, b)
    ensures IsLikelyDependencyPackage(packageName) <==> b in VersionedDependencyBases
  {
    assert packageName[i] == b[0] != VersionSeparator;
    FirstSegmentUnique(packageName, i, b, BaseName(packageName));
    InListSpec(packageName, CommonDependencies);
    InListSpec(b, VersionedDependencyBases);
  }

  /** Off the exact list, only the versioned-base rule can make a name a dependency. */
  lemma OffListRule(packageName: string)
    requires packageName !in CommonDependencies
    ensures IsLikelyDependencyPackage(packageName) <==>
      VersionSeparator in packageName && BaseName(packageName) in VersionedDependencyBases
  {
    InListSpec(packageName, CommonDependencies);
    InListSpec(BaseName(packageName), VersionedDependencyBases);
  }

  /**
   * A name off the exact list made only of separators splits into no pieces,
   * so its base is empty and it is not a dependency.
   */
  lemma SeparatorsOnlyName(packageName: string)
    requires packageName !in CommonDependencies && packageName != []
    requires forall k :: 0 <= k < |packageName| ==> packageName[k] == VersionSeparator
    ensures BaseName(packageName) == []
    ensures !IsLikelyDependencyPackage(packageName)
  {
    OffListRule(packageName);
  }

  /** There is only one first non-empty segment. */
  lemma FirstSegmentUnique(name: string, i: int, b: string, c: string)
    requires b != [] && VersionSeparator !in b && LeadsTo(name, i, b)
    requires c != [] && VersionSeparator !in c
    requires exists j :: LeadsTo(name, j, c)
    ensures b == c
  {
    var j :| LeadsTo(name, j, c);
    assert name[i] == b[0] && name[j] == c[0];
  }

  /** The two halves of `VersionedNameRule`, in the form the examples below use. */
  lemma VersionedDependency(packageName: string, b: string, i: int)
    requires packageName !in CommonDependencies && VersionSeparator in packageName
    requires b != [] && VersionSeparator !in b && LeadsTo(packageName, i, b)
    requires b in VersionedDependencyBases
    ensures IsLikelyDependencyPackage(packageName)
  {
    VersionedNameRule(packageName, b, i);
  }

  lemma VersionedNonDependency(packageName: string, b: string, i: int)
    requires packageName !in CommonDependencies && VersionSeparator in packageName
    requires b != [] && VersionSeparator !in b && LeadsTo(packageName, i, b)
    requires b !in VersionedDependencyBases
    ensures !IsLikelyDependencyPackage(packageName)
  {
    VersionedNameRule(packageName, b, i);
  }

  /** A versioned runtime outside the exact list is still a dependency. */
  lemma VersionedRuntimeExample()
    ensures IsLikelyDependencyPackage("python@3.10")
  {
    Python310NotExact();
    VersionedDependency("python@3.10", "python", 0);
  }

  /** A versioned package whose base is not a runtime is not a dependency. */
  lemma VersionedToolExample()
    ensures !IsLikelyDependencyPackage("mytool@1.0")
  {
    Mytool10NotExact();
    VersionedNonDependency("mytool@1.0", "mytool", 0);
  }

  /** The versioned rule consults only the smaller list, even when the base is in the exact list. */
  lemma VersionedLibraryExample()
    ensures !IsLikelyDependencyPackage("sqlite@3")
  {
    Sqlite3NotExact();
    VersionedNonDependency("sqlite@3", "sqlite", 0);
  }

  /** Leading empty pieces are dropped by `split`, so the base is the first non-empty one. */
  lemma LeadingSeparatorsExample()
    ensures IsLikelyDependencyPackage("@@node@x")
  {
    LeadingSeparatorsNotExact();
    VersionedDependency("@@node@x", "node", 2);
  }

  /** An exact entry is a dependency. */
  lemma ExactEntryExample()
    ensures IsLikelyDependencyPackage("openssl")
  {
    assert "openssl" in SystemLibraries;
    ExactListRule("openssl");
  }

  /** A versioned exact entry matches before any `@` handling. */
  lemma VersionedExactEntryExample()
    ensures IsLikelyDependencyPackage("python@3.12")
  {
    assert "python@3.12" in LanguageRuntimes;
    ExactListRule("python@3.12");
  }

  /** A plain name outside the list is not a dependency. */
  lemma PlainNameExample()
    ensures !IsLikelyDependencyPackage("wget")
  {
    WgetNotExact();
    ExactListRule("wget");
  }

  // The names used in the examples are outside the exact list.

  lemma Python310NotExact()
    ensures "python@3.10" !in CommonDependencies
  {
    assert OutsideEveryGroup("python@3.10");
    NotInExactList("python@3.10");
  }

  lemma Mytool10NotExact()
    ensures "mytool@1.0" !in CommonDependencies
  {
    assert OutsideEveryGroup("mytool@1.0");
    NotInExactList("mytool@1.0");
  }

  lemma Sqlite3NotExact()
    ensures "sqlite@3" !in CommonDependencies
  {
    assert OutsideEveryGroup("sqlite@3");
    NotInExactList("sqlite@3");
  }

  lemma LeadingSeparatorsNotExact()
    ensures "@@node@x" !in CommonDependencies
  {
    assert OutsideEveryGroup("@@node@x");
    NotInExactList("@@node@x");
  }

  lemma WgetNotExact()
    ensures "wget" !in CommonDependencies
  {
    assert OutsideEveryGroup("wget");
    NotInExactList("wget");
  }
}
