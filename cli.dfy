/**
 * The imperative core of `main` in src/cli.ts: workspace records that the
 * second pass and the pack step update in place, and the modify task that
 * rewrites each tarball's manifest. `Run` is proved to compute
 * `Manifests.RunSpec`.
 */
module Cli {
  import opened Wrappers
  import opened Paths
  import opened Manifests

  /** A workspace record (lines 8-15). */
  class Workspace {
    const dir: string
    const packageJson: Manifest
    const name: string := packageJson.name
    const version: string := packageJson.version
    var workspaceDependencies: seq<string>
    /** None until the pack step sets it (line 57 leaves it undefined). */
    var tarball: Option<string>

    constructor (dir: string, packageJson: Manifest)
      ensures this.dir == dir && this.packageJson == packageJson
      ensures workspaceDependencies == [] && tarball == None
    {
      this.dir := dir;
      this.packageJson := packageJson;
      workspaceDependencies := [];
      tarball := None;
    }

    /** The member this record was made from. */
    function View(): Member {
      Member(dir, packageJson)
    }
  }

  function Views(ws: seq<Workspace>): seq<Member> {
    seq(|ws|, i requires 0 <= i < |ws| => ws[i].View())
  }

  /** No record appears twice in the list. */
  predicate Distinct(ws: seq<Workspace>) {
    forall i, j :: 0 <= i < j < |ws| ==> ws[i] != ws[j]
  }

  /** Every record has its tarball path. */
  predicate Packed(ws: seq<Workspace>)
    reads ws
  {
    forall w :: w in ws ==> w.tarball.Some?
  }

  function Tarballs(ws: seq<Workspace>): seq<string>
    reads ws
    requires Packed(ws)
  {
    seq(|ws|, i requires 0 <= i < |ws| && ws[i].tarball.Some? reads ws => ws[i].tarball.value)
  }

  /** The dependency keys that name a workspace, each once. */
  ghost predicate IsEdgeList(edges: seq<string>, m: Manifest, names: seq<string>) {
    && (forall a, b :: 0 <= a < b < |edges| ==> edges[a] != edges[b])
    && (forall k :: k in edges <==> k in InternalDeps(m, names))
  }

  /** `after` is `before` followed by an edge list of `m`. */
  ghost predicate Extends(before: seq<string>, after: seq<string>, m: Manifest, names: seq<string>) {
    |before| <= |after| && after[..|before|] == before && IsEdgeList(after[|before|..], m, names)
  }

  /** Record `i`'s `workspaceDependencies` are exactly its internal dependencies. */
  ghost predicate Resolved(ws: seq<Workspace>, i: nat)
    reads ws
    requires i < |ws|
  {
    forall k :: k in ws[i].workspaceDependencies <==> k in InternalDeps(ws[i].packageJson, Names(Views(ws)))
  }

  /** Every record's `workspaceDependencies` are exactly its internal dependencies. */
  ghost predicate AllResolved(ws: seq<Workspace>)
    reads ws
  {
    forall i :: 0 <= i < |ws| ==> Resolved(ws, i)
  }

  /** The first pass (lines 43-59): a fresh record for every non-private member, in scan order. */
  method Discover(members: seq<Member>) returns (ws: seq<Workspace>)
    ensures Views(ws) == Discovered(members)
    ensures Distinct(ws)
    ensures forall w :: w in ws ==> fresh(w) && w.workspaceDependencies == [] && w.tarball.None?
  {
    ws := [];
    for i := 0 to |members|
      invariant Views(ws) == Discovered(members[..i])
      invariant Distinct(ws)
      invariant forall w :: w in ws ==> fresh(w) && w.workspaceDependencies == [] && w.tarball.None?
    {
      var member := members[i];
      assert members[..i + 1][..i] == members[..i] && members[..i + 1][i] == member;
      if member.packageJson.private {
        continue;
      }
      var w := new Workspace(member.dir, member.packageJson);
      assert Views(ws + [w]) == Views(ws) + [w.View()];
      ws := ws + [w];
    }
    assert members[..|members|] == members;
  }

  /** `workspaces.some(w => w.name === dependency)` (line 67). */
  predicate IsOwn(ws: seq<Workspace>, dependency: string) {
    exists j :: 0 <= j < |ws| && ws[j].name == dependency
  }

  /** The `some` test is membership in the list of workspace names. */
  lemma IsOwnIff(ws: seq<Workspace>, dependency: string)
    ensures IsOwn(ws, dependency) <==> dependency in Names(Views(ws))
  {
    var names := Names(Views(ws));
    if IsOwn(ws, dependency) {
      var j :| 0 <= j < |ws| && ws[j].name == dependency;
      assert names[j] == dependency;
    }
    if dependency in names {
      var j :| 0 <= j < |names| && names[j] == dependency;
      assert ws[j].name == dependency;
    }
  }

  /** The inner loop of the second pass (lines 63-71): push every dependency key that names a workspace. */
  method ResolveWorkspace(w: Workspace, ws: seq<Workspace>) returns (added: seq<string>)
    modifies w
    ensures w.workspaceDependencies == old(w.workspaceDependencies) + added
    ensures IsEdgeList(added, w.packageJson, Names(Views(ws)))
    ensures w.tarball == old(w.tarball)
  {
    added := [];
    var dependencies := w.packageJson.dependencies;
    if dependencies.None? {
      return;
    }
    var keys := dependencies.value.Keys;
    var remaining := keys;
    while remaining != {}
      invariant remaining <= keys
      invariant w.workspaceDependencies == old(w.workspaceDependencies) + added
      invariant w.tarball == old(w.tarball)
      invariant forall a, b :: 0 <= a < b < |added| ==> added[a] != added[b]
      invariant forall k :: k in added <==> k in keys - remaining && k in Names(Views(ws))
      decreases remaining
    {
      var dependency :| dependency in remaining;
      IsOwnIff(ws, dependency);
      if IsOwn(ws, dependency) {
        w.workspaceDependencies := w.workspaceDependencies + [dependency];
        added := added + [dependency];
      }
      remaining := remaining - {dependency};
    }
  }

  /** The second pass (lines 62-72), run over the complete list of records. */
  method ResolveWorkspaceDependencies(ws: seq<Workspace>)
    requires Distinct(ws)
    modifies set w | w in ws
    ensures forall i :: 0 <= i < |ws| ==>
              Extends(old(ws[i].workspaceDependencies), ws[i].workspaceDependencies, ws[i].packageJson, Names(Views(ws)))
    ensures forall w :: w in ws ==> w.tarball == old(w.tarball)
  {
    for i := 0 to |ws|
      invariant forall j :: 0 <= j < i ==>
                  Extends(old(ws[j].workspaceDependencies), ws[j].workspaceDependencies, ws[j].packageJson, Names(Views(ws)))
      invariant forall j :: i <= j < |ws| ==> ws[j].workspaceDependencies == old(ws[j].workspaceDependencies)
      invariant forall w :: w in ws ==> w.tarball == old(w.tarball)
    {
      var before := ws[i].workspaceDependencies;
      var added := ResolveWorkspace(ws[i], ws);
      assert (before + added)[..|before|] == before && (before + added)[|before|..] == added;
    }
  }

  /** The pack step (lines 77-92): record each tarball path, or stop at the first failed pack. */
  method PackAll(ws: seq<Workspace>, pack: string -> PackResult) returns (r: Outcome<RunError>)
    modifies (set w | w in ws)`tarball
    ensures r.Fail? <==> PackFailureFrom(Views(ws), pack, 0).Some?
    ensures r.Fail? ==> r.error == PackFailureFrom(Views(ws), pack, 0).value
    ensures r.Pass? ==> forall i :: 0 <= i < |ws| ==> ws[i].tarball == Some(pack(ws[i].dir).stdout)
    ensures forall w :: w in ws ==> w.workspaceDependencies == old(w.workspaceDependencies)
  {
    for i := 0 to |ws|
      invariant PackFailureFrom(Views(ws), pack, 0) == PackFailureFrom(Views(ws), pack, i)
      invariant forall j :: 0 <= j < i ==> ws[j].tarball == Some(pack(ws[j].dir).stdout)
    {
      var result := pack(ws[i].dir);
      assert Views(ws)[i].dir == ws[i].dir;
      if !result.success {
        return Fail(PackFailed(result.stderr));
      }
      ws[i].tarball := Some(result.stdout);
    }
    return Pass;
  }

  /**
   * One pass of the rewrite loop (lines 120-136) for the edge `dep` of the
   * workspace named `requiredBy`: look the dependency up among the records,
   * compute its target file name and write the `file:` reference into
   * `dependencies`.
   */
  method RewriteEdge(ws: seq<Workspace>, requiredBy: string, dep: string,
                     dependencies: Option<map<string, string>>, noVersion: bool, absolute: bool)
    returns (r: Result<map<string, string>, RunError>)
    requires Packed(ws)
    ensures r == WriteEdge(Names(Views(ws)), FinalPaths(Views(ws), Tarballs(ws), noVersion), absolute,
                           requiredBy, dep, dependencies)
  {
    var found := FirstIndex(Names(Views(ws)), dep);
    if found.None? {
      return Failure(MissingWorkspace(dep, requiredBy));
    }
    var depWorkspace := ws[found.value];
    var targetFileName := TargetFileName(depWorkspace.tarball.value, depWorkspace.version, noVersion);
    assert targetFileName == FinalPaths(Views(ws), Tarballs(ws), noVersion)[found.value];
    if dependencies.None? {
      return Failure(DependenciesAbsent(requiredBy));
    }
    return Success(dependencies.value[dep := FileRef(targetFileName, absolute)]);
  }

  /**
   * The rewrite loop (lines 119-137) over the manifest found in record `i`'s
   * tarball, one `workspaceDependencies` entry after the other, stopping at
   * the first entry that fails.
   */
  method RewriteDependencies(ws: seq<Workspace>, i: nat, archived: Manifest, noVersion: bool, absolute: bool)
    returns (r: Result<Option<map<string, string>>, RunError>)
    requires i < |ws| && Packed(ws)
    ensures r == RewriteEdges(ws[i].workspaceDependencies, Names(Views(ws)), FinalPaths(Views(ws), Tarballs(ws), noVersion),
                              absolute, ws[i].name, archived.dependencies)
  {
    var workspace := ws[i];
    ghost var names := Names(Views(ws));
    ghost var finals := FinalPaths(Views(ws), Tarballs(ws), noVersion);
    var dependencies := archived.dependencies;
    var rest := workspace.workspaceDependencies;
    while rest != []
      invariant RewriteEdges(workspace.workspaceDependencies, names, finals, absolute, workspace.name, archived.dependencies) ==
                  RewriteEdges(rest, names, finals, absolute, workspace.name, dependencies)
      decreases |rest|
    {
      var written := RewriteEdge(ws, workspace.name, rest[0], dependencies, noVersion, absolute);
      if written.Failure? {
        return Failure(written.error);
      }
      dependencies := Some(written.value);
      rest := rest[1..];
    }
    r := Success(dependencies);
  }

  /**
   * The modify task of record `i` as the loop computes it: the rewrite
   * loop's result with `devDependencies` deleted, at the record's target
   * file name.
   */
  ghost function LoopTask(ws: seq<Workspace>, i: nat, archived: Manifest, noVersion: bool, absolute: bool)
    : Result<Rewritten, RunError>
    reads ws
    requires i < |ws| && Packed(ws)
  {
    match RewriteEdges(ws[i].workspaceDependencies, Names(Views(ws)),
                       FinalPaths(Views(ws), Tarballs(ws), noVersion), absolute, ws[i].name, archived.dependencies)
    case Failure(e) => Failure(e)
    case Success(d) => Success(Rewritten(archived.(dependencies := d, devDependencies := None),
                                         TargetFileName(ws[i].tarball.value, ws[i].version, noVersion)))
  }

  /** For a resolved record, the loop computes the modify task that `Task` specifies. */
  lemma TaskOfRewrite(ws: seq<Workspace>, i: nat, archived: Manifest, noVersion: bool, absolute: bool)
    requires i < |ws| && Packed(ws) && Resolved(ws, i)
    ensures Task(Views(ws), Tarballs(ws), noVersion, absolute, i, archived) == LoopTask(ws, i, archived, noVersion, absolute)
  {
    var names := Names(Views(ws));
    var internal := InternalDeps(ws[i].packageJson, names);
    assert internal == set x | x in ws[i].workspaceDependencies;
    RewriteEdgesMeetsSpec(ws[i].workspaceDependencies, names, FinalPaths(Views(ws), Tarballs(ws), noVersion), absolute,
                          ws[i].name, archived);
    assert Tarballs(ws)[i] == ws[i].tarball.value;
    assert Views(ws)[i].packageJson == ws[i].packageJson;
  }

  /**
   * The modify task of record `i` (lines 97-168), given the manifest found in
   * its tarball: rewrite the dependencies, delete `devDependencies`, and under
   * `--no-version` rename the tarball.
   */
  method ModifyWorkspace(ws: seq<Workspace>, i: nat, archivedOf: string -> Manifest, noVersion: bool, absolute: bool)
    returns (r: Result<Rewritten, RunError>)
    requires i < |ws| && Packed(ws)
    ensures AllResolved(ws) ==> r == Tasks(Views(ws), Tarballs(ws), archivedOf, noVersion, absolute)[i]
  {
    var workspace := ws[i];
    assert Tarballs(ws)[i] == workspace.tarball.value;
    var archived := archivedOf(workspace.tarball.value);
    var rewritten := RewriteDependencies(ws, i, archived, noVersion, absolute);
    if AllResolved(ws) {
      assert Resolved(ws, i);
      TaskOfRewrite(ws, i, archived, noVersion, absolute);
    }
    if rewritten.Failure? {
      return Failure(rewritten.error);
    }
    var packageJson := archived.(dependencies := rewritten.value, devDependencies := None);
    var finalTarball := workspace.tarball.value;
    if noVersion {
      finalTarball := StripVersion(workspace.tarball.value, workspace.version);
    }
    r := Success(Rewritten(packageJson, finalTarball));
  }

  /** The modify step (lines 96-170), task by task; the first failing task ends it. */
  method ModifyAll(ws: seq<Workspace>, archivedOf: string -> Manifest, noVersion: bool, absolute: bool)
    returns (r: Result<seq<Rewritten>, RunError>)
    requires Packed(ws)
    requires AllResolved(ws)
    ensures r == CollectFrom(Tasks(Views(ws), Tarballs(ws), archivedOf, noVersion, absolute), 0)
  {
    ghost var tasks := Tasks(Views(ws), Tarballs(ws), archivedOf, noVersion, absolute);
    var out := [];
    for i := 0 to |ws|
      invariant |out| == i
      invariant forall j :: 0 <= j < i ==> tasks[j] == Success(out[j])
    {
      var result := ModifyWorkspace(ws, i, archivedOf, noVersion, absolute);
      if result.Failure? {
        CollectStopsAtFailure(tasks, 0, i);
        return Failure(result.error);
      }
      out := out + [result.value];
    }
    Collected(tasks);
    assert CollectFrom(tasks, 0).Success?;
    assert CollectFrom(tasks, 0).value == out;
    r := Success(out);
  }

  /** The run (lines 19-173) on the scanned members, with `pak.pack` and the tarballs' manifests as parameters. */
  method Run(members: seq<Member>, pack: string -> PackResult, archivedOf: string -> Manifest,
             noVersion: bool, absolute: bool) returns (r: Result<seq<Rewritten>, RunError>)
    ensures r == RunSpec(members, pack, archivedOf, noVersion, absolute)
  {
    var ws := Discover(members);
    assert fresh(set w | w in ws);
    ResolveWorkspaceDependencies(ws);
    forall i | 0 <= i < |ws|
      ensures Resolved(ws, i)
    {
      assert ws[i].workspaceDependencies[0..] == ws[i].workspaceDependencies;
    }
    var packed := PackAll(ws, pack);
    if packed.Fail? {
      return Failure(packed.error);
    }
    assert Tarballs(ws) == PackedPaths(Views(ws), pack);
    r := ModifyAll(ws, archivedOf, noVersion, absolute);
  }
}
