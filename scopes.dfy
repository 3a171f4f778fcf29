/**
 * The "Path resolution" part of the context report (`checkPathResolution`,
 * `resolveCommand`): the search order of the bin directories, and where
 * `which` finds a few common tools.
 */
module Scopes {
  import opened Wrappers
  import opened Text

  datatype Scope = Local | Global | System

  /** Marks a path inside some Velo tree, global or a project's. */
  const VeloSegment: string := "/.velo/"
  /** Marks a path inside a Velo bin directory. */
  const VeloBinSegment: string := "/.velo/bin/"

  /** The scope ternary of the tool lines. */
  function ClassifyResolved(path: string): Scope {
    if Contains(path, VeloSegment) then
      if Contains(path, VeloBinSegment) then Global else Local
    else System
  }

  /**
   * System exactly when no Velo tree is on the path; Global exactly when a
   * Velo bin directory is; Local for the rest of a Velo tree.
   */
  lemma ClassifyResolvedSpec(path: string)
    ensures ClassifyResolved(path) == System <==> !Contains(path, VeloSegment)
    ensures ClassifyResolved(path) == Global <==> Contains(path, VeloBinSegment)
    ensures ClassifyResolved(path) == Local <==> Contains(path, VeloSegment) && !Contains(path, VeloBinSegment)
  {
    assert VeloBinSegment == VeloSegment + "bin/";
    if Contains(path, VeloBinSegment) {
      ContainsPrefix(path, VeloSegment, "bin/");
    }
  }

  /** A tool linked into a project's own `.velo/bin` is reported as global. */
  lemma ProjectBinIsGlobal(projectRoot: string, tool: string)
    ensures ClassifyResolved(projectRoot + VeloBinSegment + tool) == Global
  {
    var path := projectRoot + VeloBinSegment + tool;
    assert path[|projectRoot|..|projectRoot| + |VeloBinSegment|] == VeloBinSegment;
    assert OccursAt(path, VeloBinSegment, |projectRoot|);
    ContainsIff(path, VeloBinSegment);
    ClassifyResolvedSpec(path);
  }

  /** Every path inside a Velo tree has a dot. */
  lemma VeloPathHasDot(path: string)
    ensures Contains(path, VeloSegment) ==> '.' in path
  {
    ContainsIff(path, VeloSegment);
    if Contains(path, VeloSegment) {
      var i :| OccursAt(path, VeloSegment, i);
      assert path[i + 1] == path[i..i + |VeloSegment|][1];
    }
  }

  /** A path without a dot, such as `/usr/bin/python`, is outside every Velo tree. */
  lemma DotlessPathIsSystem(path: string)
    requires '.' !in path
    ensures ClassifyResolved(path) == System
  {
    VeloPathHasDot(path);
  }

  /**
   * Below a home directory without a dot, the scope depends only on the part
   * of the path from `/.velo/` on.
   */
  lemma HomeIrrelevant(home: string, rest: string)
    requires '.' !in home
    ensures ClassifyResolved(home + VeloSegment + rest) == ClassifyResolved(VeloSegment + rest)
  {
    var tail := VeloSegment + rest;
    assert home + VeloSegment + rest == home + tail;
    DotlessPrefixContains(home, tail, VeloSegment);
    DotlessPrefixContains(home, tail, VeloBinSegment);
  }

  /**
   * A file of a Velo tree below a dotless home is local when no bin directory
   * of a Velo tree follows.
   */
  lemma CellarPathIsLocal(home: string, rest: string)
    requires '.' !in home
    requires !Contains(VeloSegment + rest, VeloBinSegment)
    ensures ClassifyResolved(home + VeloSegment + rest) == Local
  {
    var tail := VeloSegment + rest;
    HomeIrrelevant(home, rest);
    assert tail[..|VeloSegment|] == VeloSegment;
    assert OccursAt(tail, VeloSegment, 0);
    ContainsIff(tail, VeloSegment);
  }

  /** What `/usr/bin/which` gave: it could not be launched, or its exit status and its output decoded as UTF-8. */
  datatype CommandProbe = LaunchFailed(error: string) | Exited(status: int, output: Option<string>)

  /** `resolveCommand`: the trimmed output of a successful `which`. */
  function ResolveCommand(probe: CommandProbe): (r: Option<string>)
    ensures r.Some? <==> probe.Exited? && probe.status == 0 && probe.output.Some?
    ensures r.Some? ==> r.value == Trim(probe.output.value)
  {
    match probe
    case LaunchFailed(_) => None
    case Exited(status, output) =>
      if status != 0 then None
      else match output
        case None => None
        case Some(text) => Some(Trim(text))
  }

  /** `which` prints the path followed by a newline; the newline is dropped. */
  lemma ResolveCommandDropsNewline(path: string)
    requires path == [] || (!IsWhitespace(path[0]) && !IsWhitespace(path[|path| - 1]))
    ensures ResolveCommand(Exited(0, Some(path + "\n"))) == Some(path)
  {
    assert [] + path + "\n" == path + "\n";
    TrimPadded([], path, "\n");
  }

  /** Lines of the path-resolution part. */
  datatype ResolutionLine =
    | LocalBin(rank: nat, binPath: Option<string>)   // None: "Not configured"
    | GlobalBin(rank: nat, globalBinPath: string)
    | SystemPath(rank: nat)
    | Resolved(tool: string, scope: Scope, path: string)
    | NotFound(tool: string)

  predicate IsSearchLine(l: ResolutionLine) {
    l.LocalBin? || l.GlobalBin? || l.SystemPath?
  }

  function Rank(l: ResolutionLine): nat
    requires IsSearchLine(l)
  {
    match l
    case LocalBin(rank, _) => rank
    case GlobalBin(rank, _) => rank
    case SystemPath(rank) => rank
  }

  /** The numbered search order: a project's own bin first, then the global bin, then the system PATH. */
  function SearchOrder(isProject: bool, localBinExists: bool, localBinPath: string, globalBinPath: string)
    : seq<ResolutionLine>
  {
    (if isProject then [LocalBin(1, if localBinExists then Some(localBinPath) else None)] else [])
      + [GlobalBin(if isProject then 2 else 1, globalBinPath), SystemPath(if isProject then 3 else 2)]
  }

  /**
   * The lines are numbered 1, 2, ... in order; the local line is present
   * exactly in a project, and then it comes first; the global line always
   * precedes the system line, which is last.
   */
  lemma SearchOrderSpec(isProject: bool, localBinExists: bool, localBinPath: string, globalBinPath: string)
    ensures var lines := SearchOrder(isProject, localBinExists, localBinPath, globalBinPath);
      && |lines| == (if isProject then 3 else 2)
      && (forall k :: 0 <= k < |lines| ==> IsSearchLine(lines[k]) && Rank(lines[k]) == k + 1)
      && ((exists k :: 0 <= k < |lines| && lines[k].LocalBin?) <==> isProject)
      && (isProject ==> lines[0].LocalBin?)
      && lines[|lines| - 2].GlobalBin? && lines[|lines| - 1].SystemPath?
      && (isProject ==> lines[0].binPath == (if localBinExists then Some(localBinPath) else None))
  {
    var lines := SearchOrder(isProject, localBinExists, localBinPath, globalBinPath);
    if isProject {
      assert lines[0].LocalBin?;
    }
  }

  /** The tools whose resolution is shown. */
  const CommonTools: seq<string> := ["wget", "node", "python"]

  function ToolLine(tool: string, probe: CommandProbe): ResolutionLine {
    match ResolveCommand(probe)
    case None => NotFound(tool)
    case Some(path) => Resolved(tool, ClassifyResolved(path), path)
  }

  function ToolLines(tools: seq<string>, which: string -> CommandProbe): seq<ResolutionLine> {
    seq(|tools|, k requires 0 <= k < |tools| => ToolLine(tools[k], which(tools[k])))
  }

  /** One line per tool, in order; a tool is "not found" exactly when `which` did not succeed. */
  lemma ToolLinesSpec(tools: seq<string>, which: string -> CommandProbe)
    ensures |ToolLines(tools, which)| == |tools|
    ensures forall k :: 0 <= k < |tools| ==> ToolLines(tools, which)[k].tool == tools[k]
    ensures forall k :: 0 <= k < |tools| ==>
      (ToolLines(tools, which)[k].NotFound? <==> ResolveCommand(which(tools[k])).None?)
    ensures forall k :: 0 <= k < |tools| && ToolLines(tools, which)[k].Resolved? ==>
      ToolLines(tools, which)[k].path == ResolveCommand(which(tools[k])).value
      && ToolLines(tools, which)[k].scope == ClassifyResolved(ToolLines(tools, which)[k].path)
  {
  }

  function ResolutionReport(isProject: bool, localBinExists: bool, localBinPath: string, globalBinPath: string,
                            which: string -> CommandProbe): seq<ResolutionLine>
  {
    SearchOrder(isProject, localBinExists, localBinPath, globalBinPath) + ToolLines(CommonTools, which)
  }

  /** `checkPathResolution`: the search order, then the loop over the common tools. */
  method CheckPathResolution(isProject: bool, localBinExists: bool, localBinPath: string, globalBinPath: string,
                             which: string -> CommandProbe)
    returns (lines: seq<ResolutionLine>)
    ensures lines == ResolutionReport(isProject, localBinExists, localBinPath, globalBinPath, which)
  {
    lines := [];
    if isProject {
      if localBinExists {
        lines := lines + [LocalBin(1, Some(localBinPath))];
      } else {
        lines := lines + [LocalBin(1, None)];
      }
    }
    lines := lines + [GlobalBin(if isProject then 2 else 1, globalBinPath)];
    lines := lines + [SystemPath(if isProject then 3 else 2)];
    ghost var order := lines;
    for i := 0 to |CommonTools|
      invariant lines == order + ToolLines(CommonTools[..i], which)
    {
      var tool := CommonTools[i];
      var resolved := ResolveCommand(which(tool));
      match resolved {
        case Some(path) =>
          var isLocal := Contains(path, VeloSegment);
          var scope := if isLocal then (if Contains(path, VeloBinSegment) then Global else Local) else System;
          lines := lines + [Resolved(tool, scope, path)];
        case None =>
          lines := lines + [NotFound(tool)];
      }
      assert ToolLines(CommonTools[..i + 1], which) == ToolLines(CommonTools[..i], which) + [ToolLine(tool, which(tool))];
    }
    assert CommonTools[..|CommonTools|] == CommonTools;
  }
}
