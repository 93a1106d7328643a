/**
 * The values the run works on and a functional specification of the whole
 * rewrite in src/cli.ts: discovery (first pass), edge resolution (second
 * pass), packing, the per-workspace manifest rewrite and the `--no-version`
 * rename. The imperative model in module Cli is proved to compute RunSpec.
 */
module Manifests {
  import opened Wrappers
  import opened Paths

  /** The part of a `package.json` the rewrite reads or changes; `private` is the flag's truthiness. */
  datatype Manifest = Manifest(
    name: string,
    version: string,
    private: bool,
    dependencies: Option<map<string, string>>,
    devDependencies: Option<map<string, string>>)

  /** A directory reported by `pak.workspaces()` together with the manifest read from it. */
  datatype Member = Member(dir: string, packageJson: Manifest)

  /** What `pak.pack` reports: its success flag, the tarball path (stdout) and its diagnostics (stderr). */
  datatype PackResult = PackResult(success: bool, stdout: string, stderr: string)

  /** The fatal errors of the run; each ends the process with exit code 1. */
  datatype RunError =
    | PackFailed(stderr: string)
    | MissingWorkspace(dep: string, requiredBy: string)
    | DependenciesAbsent(requiredBy: string)

  /** A rewritten workspace: the manifest written back into its tarball, and where that tarball ends up. */
  datatype Rewritten = Rewritten(manifest: Manifest, tarball: string)

  // ----- First pass: discovery -----

  /** The workspaces of a run: the non-private members, in scan order. */
  function Discovered(members: seq<Member>): seq<Member>
  {
    if members == [] then []
    else
      var last := members[|members| - 1];
      Discovered(members[..|members| - 1]) + (if last.packageJson.private then [] else [last])
  }

  /** Discovery keeps exactly the non-private members, and no more of them than were scanned. */
  lemma {:induction false} DiscoveredIsFilter(members: seq<Member>)
    ensures |Discovered(members)| <= |members|
    ensures forall w :: w in Discovered(members) ==> w in members && !w.packageJson.private
    ensures forall m :: m in members && !m.packageJson.private ==> m in Discovered(members)
  {
    if members != [] {
      var init := members[..|members| - 1];
      var last := members[|members| - 1];
      DiscoveredIsFilter(init);
      assert members == init + [last];
    }
  }

  /** Discovery keeps scan order: it distributes over concatenation of the scanned members. */
  lemma {:induction false} DiscoveredConcat(a: seq<Member>, b: seq<Member>)
    ensures Discovered(a + b) == Discovered(a) + Discovered(b)
    decreases |b|
  {
    if b == [] {
      assert a + b == a;
    } else {
      var n := |b| - 1;
      var ab := a + b;
      assert ab[..|ab| - 1] == a + b[..n];
      assert ab[|ab| - 1] == b[n];
      DiscoveredConcat(a, b[..n]);
    }
  }

  /** The `name` of every workspace, in order. */
  function Names(ws: seq<Member>): seq<string> {
    seq(|ws|, i requires 0 <= i < |ws| => ws[i].packageJson.name)
  }

  /** `workspaces.find(w => w.name === name)`, as the index of the first match. */
  function FirstIndex(names: seq<string>, name: string): (r: Option<nat>)
    ensures r.None? <==> name !in names
    ensures r.Some? ==> r.value < |names| && names[r.value] == name
    ensures r.Some? ==> forall j :: 0 <= j < r.value ==> names[j] != name
  {
    if names == [] then None
    else if names[0] == name then Some(0)
    else
      match FirstIndex(names[1..], name)
      case None => None
      case Some(i) => Some(i + 1)
  }

  /** A manifest with a truthy `private` flag never names a workspace, so nothing can depend on it internally. */
  lemma PrivateNeverInternal(members: seq<Member>, name: string, m: Manifest)
    requires forall x :: x in members && x.packageJson.name == name ==> x.packageJson.private
    ensures name !in Names(Discovered(members))
    ensures name !in InternalDeps(m, Names(Discovered(members)))
  {
    var ws := Discovered(members);
    DiscoveredIsFilter(members);
    forall j | 0 <= j < |ws|
      ensures Names(ws)[j] != name
    {
      assert ws[j] in ws;
    }
  }

  // ----- Second pass: internal dependency edges -----

  /** The keys of `dependencies` that name a workspace; an absent `dependencies` gives none. */
  function InternalDeps(m: Manifest, names: seq<string>): set<string> {
    match m.dependencies
    case None => {}
    case Some(deps) => set k | k in deps && k in names
  }

  /** Edges depend on which names are in the list, not on their positions or the workspace's own place. */
  lemma EdgesDependOnlyOnNameSet(m: Manifest, a: seq<string>, b: seq<string>)
    requires forall x :: x in a <==> x in b
    ensures InternalDeps(m, a) == InternalDeps(m, b)
  {
  }

  /**
   * Resolving against a list that is still being built misses the edges to
   * workspaces scanned later, which is why the second pass starts only after
   * the first one is complete.
   */
  lemma EdgesNeedCompleteList(m: Manifest, names: seq<string>, k: nat, dep: string)
    requires k <= |names|
    requires m.dependencies.Some? && dep in m.dependencies.value
    requires dep in names[k..] && dep !in names[..k]
    ensures InternalDeps(m, names[..k]) <= InternalDeps(m, names)
    ensures dep in InternalDeps(m, names) && dep !in InternalDeps(m, names[..k])
  {
    assert names == names[..k] + names[k..];
  }

  // ----- File names and `file:` references -----

  /**
   * The file a reference to a workspace names (lines 127-132); with
   * `--no-version` it is also the name the workspace's tarball is renamed to
   * (lines 157-165), and without it the tarball stays where it is.
   */
  function TargetFileName(tarball: string, version: string, noVersion: bool): string {
    if noVersion then StripVersion(tarball, version) else tarball
  }

  /** The value written into `dependencies[dep]`: `file:<target>` or `file:./<basename>`. */
  function FileRef(target: string, absolute: bool): (ref: string)
    ensures |ref| >= 5 && ref[..5] == "file:"
  {
    if absolute then "file:" + target else "file:./" + Basename(target)
  }

  /** The path a `file:` reference denotes when it is read from directory `dir`. */
  function ResolveFileRef(ref: string, dir: string): string
    requires |ref| >= 5 && ref[..5] == "file:"
  {
    var spec := ref[5..];
    if |spec| >= 2 && spec[..2] == "./" then dir + "/" + spec[2..] else spec
  }

  /**
   * Both reference forms lead back to the tarball when the tarball sits in
   * the absolute output directory `outDir` (lines 24-29 make it absolute).
   */
  lemma FileRefResolvesToTarget(outDir: string, file: string, absolute: bool)
    requires |outDir| > 0 && outDir[0] == '/'
    requires '/' !in file
    ensures ResolveFileRef(FileRef(outDir + "/" + file, absolute), outDir) == outDir + "/" + file
  {
    var target := outDir + "/" + file;
    if absolute {
      assert FileRef(target, absolute)[5..] == target;
      assert target[..2] != "./" by { assert target[0] == '/'; }
    } else {
      BasenameOfJoin(outDir, file);
      assert FileRef(target, absolute)[5..] == "./" + file;
    }
  }

  /**
   * The reference written for the dependency `name`: to the final path of
   * the first workspace of that name (`find`, line 120). A name of no
   * workspace has none; the empty string stands in for it.
   */
  function RefOf(names: seq<string>, finals: seq<string>, absolute: bool, name: string): string
    requires |names| == |finals|
  {
    match FirstIndex(names, name)
    case None => ""
    case Some(j) => FileRef(finals[j], absolute)
  }

  /** The reference written for each workspace name: to the first workspace of that name. */
  function References(names: seq<string>, finals: seq<string>, absolute: bool): (refs: map<string, string>)
    requires |names| == |finals|
    ensures refs.Keys == set n | n in names
  {
    map n | n in names :: RefOf(names, finals, absolute, n)
  }

  // ----- The manifest rewrite of one workspace -----

  /**
   * The manifest written back into a workspace's tarball (lines 119-139):
   * each internal dependency is pointed at its reference, and
   * `devDependencies` is deleted. Assigning into an absent `dependencies`
   * object throws, which fails the run.
   */
  function RewriteSpec(requiredBy: string, archived: Manifest, internal: set<string>, refs: map<string, string>)
    : (r: Result<Manifest, RunError>)
    requires internal <= refs.Keys
    ensures r.Failure? <==> internal != {} && archived.dependencies.None?
    ensures r.Failure? ==> r.error == DependenciesAbsent(requiredBy)
    ensures r.Success? ==> r.value.devDependencies.None?
    ensures r.Success? ==>
              r.value.name == archived.name && r.value.version == archived.version && r.value.private == archived.private
    ensures r.Success? && internal == {} ==> r.value.dependencies == archived.dependencies
    ensures r.Success? && internal != {} ==>
              && archived.dependencies.Some? && r.value.dependencies.Some?
              && r.value.dependencies.value.Keys == archived.dependencies.value.Keys + internal
              && (forall k :: k in internal ==> r.value.dependencies.value[k] == refs[k])
              && (forall k :: k in archived.dependencies.value && k !in internal ==>
                    r.value.dependencies.value[k] == archived.dependencies.value[k])
  {
    if internal == {} then Success(archived.(devDependencies := None))
    else
      match archived.dependencies
      case None => Failure(DependenciesAbsent(requiredBy))
      case Some(deps) =>
        var rewritten := map k | k in deps.Keys + internal :: if k in internal then refs[k] else deps[k];
        Success(archived.(dependencies := Some(rewritten), devDependencies := None))
  }

  /**
   * Any `dependencies` map that gives each internal dependency its reference
   * and keeps every other entry is the one the rewrite produces.
   */
  lemma RewriteSpecOfUpdatedMap(requiredBy: string, archived: Manifest, internal: set<string>, refs: map<string, string>,
                                deps: map<string, string>)
    requires internal <= refs.Keys
    requires archived.dependencies.Some?
    requires forall x :: x in deps <==> x in archived.dependencies.value || x in internal
    requires forall x :: x in deps ==> deps[x] == if x in internal then refs[x] else archived.dependencies.value[x]
    ensures RewriteSpec(requiredBy, archived, internal, refs) ==
              Success(archived.(dependencies := Some(deps), devDependencies := None))
  {
    var before := archived.dependencies.value;
    if internal == {} {
      assert deps == before;
    } else {
      var after := RewriteSpec(requiredBy, archived, internal, refs).value.dependencies.value;
      assert deps == after;
    }
  }

  /**
   * The rewrite loop over the edge list `edges` (lines 119-134) stops at
   * index `k` with error `e`: every earlier edge names a workspace and was
   * written (so `dependencies` is present when `k > 0`), and edge `k` either
   * names no workspace or finds no `dependencies` object to write into.
   */
  predicate FirstEdgeFailure(edges: seq<string>, names: seq<string>, present: bool, requiredBy: string,
                             k: nat, e: RunError)
  {
    && k < |edges|
    && (forall j :: 0 <= j < k ==> edges[j] in names)
    && (0 < k ==> present)
    && if edges[k] !in names then e == MissingWorkspace(edges[k], requiredBy)
       else !present && e == DependenciesAbsent(requiredBy)
  }

  /** The loop can stop at one edge only, so its error is determined by the edges, the names and `present`. */
  lemma FirstEdgeFailureUnique(edges: seq<string>, names: seq<string>, present: bool, requiredBy: string,
                               k1: nat, e1: RunError, k2: nat, e2: RunError)
    requires FirstEdgeFailure(edges, names, present, requiredBy, k1, e1)
    requires FirstEdgeFailure(edges, names, present, requiredBy, k2, e2)
    ensures k1 == k2 && e1 == e2
  {
  }

  // ----- The rewrite loop, edge by edge -----

  /**
   * One pass of the rewrite loop (lines 120-136) for the edge `dep` of the
   * workspace named `requiredBy`: find the workspace named `dep` or fail,
   * then write the reference to its final path into `dependencies`, which
   * fails when there is no `dependencies` object to write into.
   */
  function WriteEdge(names: seq<string>, finals: seq<string>, absolute: bool, requiredBy: string, dep: string,
                     dependencies: Option<map<string, string>>): (r: Result<map<string, string>, RunError>)
    requires |names| == |finals|
    ensures r.Success? <==> dep in names && dependencies.Some?
    ensures r.Success? ==> forall x :: x in r.value <==> x in dependencies.value || x == dep
    ensures r.Success? ==> forall x :: x in r.value ==>
              r.value[x] == if x == dep then RefOf(names, finals, absolute, dep) else dependencies.value[x]
    ensures r.Failure? && dep !in names ==> r.error == MissingWorkspace(dep, requiredBy)
    ensures r.Failure? && dep in names ==> r.error == DependenciesAbsent(requiredBy)
  {
    match FirstIndex(names, dep)
    case None => Failure(MissingWorkspace(dep, requiredBy))
    case Some(j) =>
      if dependencies.None? then Failure(DependenciesAbsent(requiredBy))
      else Success(dependencies.value[dep := RefOf(names, finals, absolute, dep)])
  }

  /** The rewrite loop (lines 119-137): every edge in order, stopping at the first one that fails. */
  function RewriteEdges(edges: seq<string>, names: seq<string>, finals: seq<string>, absolute: bool,
                        requiredBy: string, dependencies: Option<map<string, string>>)
    : Result<Option<map<string, string>>, RunError>
    requires |names| == |finals|
    decreases |edges|
  {
    if edges == [] then Success(dependencies)
    else
      match WriteEdge(names, finals, absolute, requiredBy, edges[0], dependencies)
      case Failure(e) => Failure(e)
      case Success(written) => RewriteEdges(edges[1..], names, finals, absolute, requiredBy, Some(written))
  }

  /**
   * The loop succeeds exactly when every edge names a workspace and, if
   * there is any edge, `dependencies` exists; when it fails, it fails at its
   * first failing edge.
   */
  lemma {:induction false} RewriteEdgesFailsAtFirst(edges: seq<string>, names: seq<string>, finals: seq<string>,
                                                    absolute: bool, requiredBy: string,
                                                    dependencies: Option<map<string, string>>)
    requires |names| == |finals|
    ensures var r := RewriteEdges(edges, names, finals, absolute, requiredBy, dependencies);
            r.Success? <==> (forall x :: x in edges ==> x in names) && (edges != [] ==> dependencies.Some?)
    ensures var r := RewriteEdges(edges, names, finals, absolute, requiredBy, dependencies);
            r.Failure? ==> exists k: nat :: FirstEdgeFailure(edges, names, dependencies.Some?, requiredBy, k, r.error)
    decreases |edges|
  {
    if edges != [] {
      var r := RewriteEdges(edges, names, finals, absolute, requiredBy, dependencies);
      assert forall x :: x in edges <==> x == edges[0] || x in edges[1..];
      match WriteEdge(names, finals, absolute, requiredBy, edges[0], dependencies)
      case Failure(e) =>
        assert FirstEdgeFailure(edges, names, dependencies.Some?, requiredBy, 0, r.error);
      case Success(written) =>
        RewriteEdgesFailsAtFirst(edges[1..], names, finals, absolute, requiredBy, Some(written));
        if r.Failure? {
          var k: nat :| FirstEdgeFailure(edges[1..], names, true, requiredBy, k, r.error);
          assert FirstEdgeFailure(edges, names, dependencies.Some?, requiredBy, k + 1, r.error) by {
            forall j | 0 <= j < k + 1
              ensures edges[j] in names
            {
              if j > 0 {
                assert edges[j] == edges[1..][j - 1];
              }
            }
          }
        }
    }
  }

  /**
   * A successful loop writes the reference of every edge over `dependencies`
   * and keeps every other entry; an absent `dependencies` stays absent.
   */
  lemma {:induction false} RewriteEdgesWrites(edges: seq<string>, names: seq<string>, finals: seq<string>,
                                              absolute: bool, requiredBy: string,
                                              dependencies: Option<map<string, string>>)
    requires |names| == |finals|
    ensures var r := RewriteEdges(edges, names, finals, absolute, requiredBy, dependencies);
            r.Success? ==>
              && (r.value.None? <==> dependencies.None?)
              && (r.value.Some? ==>
                    && (forall x :: x in r.value.value <==> x in dependencies.value || x in edges)
                    && forall x :: x in r.value.value ==>
                         r.value.value[x] == if x in edges then RefOf(names, finals, absolute, x)
                                             else dependencies.value[x])
    decreases |edges|
  {
    if edges != [] {
      match WriteEdge(names, finals, absolute, requiredBy, edges[0], dependencies)
      case Failure(e) =>
      case Success(written) =>
        RewriteEdgesWrites(edges[1..], names, finals, absolute, requiredBy, Some(written));
        var r := RewriteEdges(edges[1..], names, finals, absolute, requiredBy, Some(written));
        if r.Success? {
          var d := dependencies.value;
          var m := r.value.value;
          forall x
            ensures x in m <==> x in d || x in edges
            ensures x in m ==> m[x] == if x in edges then RefOf(names, finals, absolute, x) else d[x]
          {
            assert x in edges <==> x == edges[0] || x in edges[1..];
          }
        }
    }
  }

  /** Over edges that all name workspaces, the loop computes the rewrite that `RewriteSpec` specifies. */
  lemma RewriteEdgesMeetsSpec(edges: seq<string>, names: seq<string>, finals: seq<string>, absolute: bool,
                              requiredBy: string, archived: Manifest)
    requires |names| == |finals|
    requires forall x :: x in edges ==> x in names
    ensures RewriteSpec(requiredBy, archived, (set x | x in edges), References(names, finals, absolute)) ==
              match RewriteEdges(edges, names, finals, absolute, requiredBy, archived.dependencies)
              case Failure(e) => Failure(e)
              case Success(d) => Success(archived.(dependencies := d, devDependencies := None))
  {
    var internal := set x | x in edges;
    var refs := References(names, finals, absolute);
    var r := RewriteEdges(edges, names, finals, absolute, requiredBy, archived.dependencies);
    RewriteEdgesFailsAtFirst(edges, names, finals, absolute, requiredBy, archived.dependencies);
    RewriteEdgesWrites(edges, names, finals, absolute, requiredBy, archived.dependencies);
    if r.Failure? {
      var k: nat :| FirstEdgeFailure(edges, names, archived.dependencies.Some?, requiredBy, k, r.error);
      assert edges[k] in internal;
    } else if r.value.Some? {
      forall x | x in r.value.value
        ensures r.value.value[x] == if x in internal then refs[x] else archived.dependencies.value[x]
      {
      }
      RewriteSpecOfUpdatedMap(requiredBy, archived, internal, refs, r.value.value);
    }
  }

  // ----- The whole run -----

  /** The first failure of the pack phase, scanning the workspaces from index `i` (lines 80-89). */
  function PackFailureFrom(ws: seq<Member>, pack: string -> PackResult, i: nat): (r: Option<RunError>)
    decreases |ws| - i
    ensures r.None? <==> forall j :: i <= j < |ws| ==> pack(ws[j].dir).success
    ensures r.Some? ==>
              exists j :: i <= j < |ws| && !pack(ws[j].dir).success && r.value == PackFailed(pack(ws[j].dir).stderr)
  {
    if i >= |ws| then None
    else if !pack(ws[i].dir).success then Some(PackFailed(pack(ws[i].dir).stderr))
    else PackFailureFrom(ws, pack, i + 1)
  }

  /** The tarball path each workspace's pack reported (line 85). */
  function PackedPaths(ws: seq<Member>, pack: string -> PackResult): seq<string> {
    seq(|ws|, i requires 0 <= i < |ws| => pack(ws[i].dir).stdout)
  }

  /** Where each workspace's tarball ends up once the run is over. */
  function FinalPaths(ws: seq<Member>, tarballs: seq<string>, noVersion: bool): seq<string>
    requires |tarballs| == |ws|
  {
    seq(|ws|, i requires 0 <= i < |ws| => TargetFileName(tarballs[i], ws[i].packageJson.version, noVersion))
  }

  /** The modify task of workspace `i` (lines 97-168), given the manifest found in its tarball. */
  function Task(ws: seq<Member>, tarballs: seq<string>, noVersion: bool, absolute: bool, i: nat, archived: Manifest)
    : Result<Rewritten, RunError>
    requires |tarballs| == |ws| && i < |ws|
  {
    var names := Names(ws);
    var finals := FinalPaths(ws, tarballs, noVersion);
    match RewriteSpec(ws[i].packageJson.name, archived, InternalDeps(ws[i].packageJson, names), References(names, finals, absolute))
    case Failure(e) => Failure(e)
    case Success(m) => Success(Rewritten(m, finals[i]))
  }

  /** A whole phase: it succeeds when every task does, and then holds each task's value at that task's index. */
  lemma Collected<T, E>(results: seq<Result<T, E>>)
    ensures CollectFrom(results, 0).Success? <==> forall k :: 0 <= k < |results| ==> results[k].Success?
    ensures CollectFrom(results, 0).Success? ==>
              && |CollectFrom(results, 0).value| == |results|
              && forall k :: 0 <= k < |results| ==> results[k] == Success(CollectFrom(results, 0).value[k])
  {
    CollectFromShape(results, 0);
  }

  /** A phase whose tasks before `k` succeed and whose task `k` fails ends with task `k`'s error. */
  lemma {:induction false} CollectStopsAtFailure<T, E>(results: seq<Result<T, E>>, from: nat, k: nat)
    requires from <= k < |results| && results[k].Failure?
    requires forall j :: from <= j < k ==> results[j].Success?
    ensures CollectFrom(results, from) == Failure(results[k].error)
    decreases k - from
  {
    if from < k {
      CollectStopsAtFailure(results, from + 1, k);
    }
  }

  /** A failed phase fails with the error of one of its tasks. */
  lemma {:induction false} CollectFailureIsTaskError<T, E>(results: seq<Result<T, E>>, from: nat)
    requires CollectFrom(results, from).Failure?
    ensures exists k :: from <= k < |results| && results[k] == Failure(CollectFrom(results, from).error)
    decreases |results| - from
  {
    if results[from].Success? {
      CollectFailureIsTaskError(results, from + 1);
    }
  }

  /** A task fails only on an absent `dependencies` object with internal dependencies to write. */
  lemma TaskSucceedsIff(ws: seq<Member>, tarballs: seq<string>, noVersion: bool, absolute: bool, i: nat, archived: Manifest)
    requires |tarballs| == |ws| && i < |ws|
    ensures Task(ws, tarballs, noVersion, absolute, i, archived).Success? <==>
              InternalDeps(ws[i].packageJson, Names(ws)) == {} || archived.dependencies.Some?
    ensures Task(ws, tarballs, noVersion, absolute, i, archived).Failure? ==>
              Task(ws, tarballs, noVersion, absolute, i, archived).error == DependenciesAbsent(ws[i].packageJson.name)
  {
  }

  /**
   * A successful task points every internal dependency at the final path of
   * the first workspace of that name, and reports its own final path.
   */
  lemma TaskLinks(ws: seq<Member>, tarballs: seq<string>, noVersion: bool, absolute: bool, i: nat, archived: Manifest,
                  dep: string)
    requires |tarballs| == |ws| && i < |ws|
    ensures Task(ws, tarballs, noVersion, absolute, i, archived).Success? &&
            dep in InternalDeps(ws[i].packageJson, Names(ws)) ==>
              var m := Task(ws, tarballs, noVersion, absolute, i, archived).value.manifest;
              var j := FirstIndex(Names(ws), dep);
              && j.Some? && j.value < |ws|
              && m.dependencies.Some? && dep in m.dependencies.value
              && m.dependencies.value[dep] == FileRef(FinalPaths(ws, tarballs, noVersion)[j.value], absolute)
  {
    if Task(ws, tarballs, noVersion, absolute, i, archived).Failure? || dep !in InternalDeps(ws[i].packageJson, Names(ws)) {
      return;
    }
    var names := Names(ws);
    var finals := FinalPaths(ws, tarballs, noVersion);
    var refs := References(names, finals, absolute);
    var internal := InternalDeps(ws[i].packageJson, names);
    assert dep in names;
    assert refs[dep] == FileRef(finals[FirstIndex(names, dep).value], absolute);
    var r := RewriteSpec(ws[i].packageJson.name, archived, internal, refs);
    assert r.Success? && internal != {};
  }

  /** The result of every workspace's modify task, in workspace order. */
  function Tasks(ws: seq<Member>, tarballs: seq<string>, archivedOf: string -> Manifest, noVersion: bool, absolute: bool)
    : seq<Result<Rewritten, RunError>>
    requires |tarballs| == |ws|
  {
    seq(|ws|, i requires 0 <= i < |ws| => Task(ws, tarballs, noVersion, absolute, i, archivedOf(tarballs[i])))
  }

  /** A phase from task `i` on: every task's value, or the first failure (`Promise.all`, run in order). */
  function CollectFrom<T, E>(results: seq<Result<T, E>>, i: nat): Result<seq<T>, E>
    decreases |results| - i
  {
    if i >= |results| then Success([])
    else
      match results[i]
      case Failure(e) => Failure(e)
      case Success(x) =>
        match CollectFrom(results, i + 1)
        case Failure(e) => Failure(e)
        case Success(rest) => Success([x] + rest)
  }

  /** A phase succeeds when all its tasks do, and then holds their values in order. */
  lemma {:induction false} CollectFromShape<T, E>(results: seq<Result<T, E>>, from: nat)
    requires from <= |results|
    ensures CollectFrom(results, from).Success? <==> forall k :: from <= k < |results| ==> results[k].Success?
    ensures CollectFrom(results, from).Success? ==>
              && |CollectFrom(results, from).value| == |results| - from
              && forall k :: from <= k < |results| ==> results[k] == Success(CollectFrom(results, from).value[k - from])
    decreases |results| - from
  {
    if from < |results| {
      CollectFromShape(results, from + 1);
    }
  }

  /**
   * The phases after discovery over the workspace list `ws`: pack every
   * workspace, then rewrite every tarball. `pack` stands for `pak.pack` and
   * `archivedOf` for the manifest found inside a produced tarball.
   */
  function RunOn(ws: seq<Member>, pack: string -> PackResult, archivedOf: string -> Manifest,
                 noVersion: bool, absolute: bool): Result<seq<Rewritten>, RunError>
  {
    match PackFailureFrom(ws, pack, 0)
    case Some(e) => Failure(e)
    case None => CollectFrom(Tasks(ws, PackedPaths(ws, pack), archivedOf, noVersion, absolute), 0)
  }

  /** The whole run over the scanned members (lines 19-173). */
  function RunSpec(members: seq<Member>, pack: string -> PackResult, archivedOf: string -> Manifest,
                   noVersion: bool, absolute: bool): Result<seq<Rewritten>, RunError>
  {
    RunOn(Discovered(members), pack, archivedOf, noVersion, absolute)
  }

  // ----- Properties of the run -----

  /** A successful run is the collected modify phase over the packed workspaces. */
  lemma RunOnIsCollect(ws: seq<Member>, pack: string -> PackResult, archivedOf: string -> Manifest,
                         noVersion: bool, absolute: bool)
    ensures RunOn(ws, pack, archivedOf, noVersion, absolute).Success? ==>
              RunOn(ws, pack, archivedOf, noVersion, absolute) ==
                CollectFrom(Tasks(ws, PackedPaths(ws, pack), archivedOf, noVersion, absolute), 0)
  {
  }

  /** Entry `k` of a successful run is the result of workspace `k`'s modify task. */
  lemma RunOutputAt(ws: seq<Member>, pack: string -> PackResult, archivedOf: string -> Manifest,
                    noVersion: bool, absolute: bool, k: nat)
    requires k < |ws|
    ensures var r := RunOn(ws, pack, archivedOf, noVersion, absolute);
            r.Success? ==>
              && |r.value| == |ws|
              && Task(ws, PackedPaths(ws, pack), noVersion, absolute, k, archivedOf(pack(ws[k].dir).stdout)) == Success(r.value[k])
  {
    if RunOn(ws, pack, archivedOf, noVersion, absolute).Success? {
      var tarballs := PackedPaths(ws, pack);
      var tasks := Tasks(ws, tarballs, archivedOf, noVersion, absolute);
      RunOnIsCollect(ws, pack, archivedOf, noVersion, absolute);
      Collected(tasks);
      assert tasks[k] == Task(ws, tarballs, noVersion, absolute, k, archivedOf(tarballs[k]));
    }
  }

  /**
   * The central property: in every rewritten manifest, the entry of an
   * internal dependency `dep` is a `file:` reference to exactly the path
   * `dep`'s own tarball ends up at after the run's rename.
   */
  lemma RunLinksToFinalTarballs(ws: seq<Member>, pack: string -> PackResult, archivedOf: string -> Manifest,
                                noVersion: bool, absolute: bool, i: nat, dep: string)
    requires i < |ws|
    ensures RunOn(ws, pack, archivedOf, noVersion, absolute).Success? &&
            dep in InternalDeps(ws[i].packageJson, Names(ws)) ==>
              var out := RunOn(ws, pack, archivedOf, noVersion, absolute).value;
              var j := FirstIndex(Names(ws), dep);
              && |out| == |ws| && j.Some? && j.value < |ws| && ws[j.value].packageJson.name == dep
              && out[i].manifest.dependencies.Some? && dep in out[i].manifest.dependencies.value
              && out[i].manifest.dependencies.value[dep] == FileRef(out[j.value].tarball, absolute)
              && out[j.value].tarball == TargetFileName(pack(ws[j.value].dir).stdout, ws[j.value].packageJson.version, noVersion)
  {
    if RunOn(ws, pack, archivedOf, noVersion, absolute).Failure? || dep !in InternalDeps(ws[i].packageJson, Names(ws)) {
      return;
    }
    var tarballs := PackedPaths(ws, pack);
    RunOutputAt(ws, pack, archivedOf, noVersion, absolute, i);
    TaskLinks(ws, tarballs, noVersion, absolute, i, archivedOf(pack(ws[i].dir).stdout), dep);
    var j := FirstIndex(Names(ws), dep).value;
    RunOutputAt(ws, pack, archivedOf, noVersion, absolute, j);
    assert tarballs[j] == pack(ws[j].dir).stdout;
  }

  /** No rewritten manifest keeps `devDependencies`, whether or not it had one. */
  lemma RunDropsDevDependencies(ws: seq<Member>, pack: string -> PackResult, archivedOf: string -> Manifest,
                                noVersion: bool, absolute: bool, i: nat)
    requires i < |ws|
    ensures RunOn(ws, pack, archivedOf, noVersion, absolute).Success? ==>
              var out := RunOn(ws, pack, archivedOf, noVersion, absolute).value;
              i < |out| && out[i].manifest.devDependencies.None?
  {
    if RunOn(ws, pack, archivedOf, noVersion, absolute).Failure? {
      return;
    }
    RunOutputAt(ws, pack, archivedOf, noVersion, absolute, i);
  }

  /**
   * Entries that are not internal dependencies keep their value, and the only
   * keys a rewrite can add are internal dependencies that the manifest in the
   * tarball did not list.
   */
  lemma RunKeepsExternalDependencies(ws: seq<Member>, pack: string -> PackResult, archivedOf: string -> Manifest,
                                     noVersion: bool, absolute: bool, i: nat)
    requires i < |ws|
    ensures RunOn(ws, pack, archivedOf, noVersion, absolute).Success? ==>
              var out := RunOn(ws, pack, archivedOf, noVersion, absolute).value;
              var before := archivedOf(pack(ws[i].dir).stdout).dependencies;
              var internal := InternalDeps(ws[i].packageJson, Names(ws));
              && i < |out|
              && (before.None? ==> out[i].manifest.dependencies.None?)
              && (before.Some? ==>
                    && out[i].manifest.dependencies.Some?
                    && out[i].manifest.dependencies.value.Keys == before.value.Keys + internal
                    && forall k :: k in before.value && k !in internal ==>
                         out[i].manifest.dependencies.value[k] == before.value[k])
  {
    if RunOn(ws, pack, archivedOf, noVersion, absolute).Failure? {
      return;
    }
    RunOutputAt(ws, pack, archivedOf, noVersion, absolute, i);
  }

  /**
   * When each tarball carries its workspace's own manifest, the rewrite adds
   * and removes no `dependencies` key.
   */
  lemma RunKeepsDependencyKeys(ws: seq<Member>, pack: string -> PackResult, archivedOf: string -> Manifest,
                               noVersion: bool, absolute: bool, i: nat)
    requires i < |ws|
    ensures RunOn(ws, pack, archivedOf, noVersion, absolute).Success? &&
            archivedOf(pack(ws[i].dir).stdout) == ws[i].packageJson ==>
              var out := RunOn(ws, pack, archivedOf, noVersion, absolute).value;
              && i < |out| && out[i].manifest.dependencies.Some? == ws[i].packageJson.dependencies.Some?
              && (out[i].manifest.dependencies.Some? ==>
                    out[i].manifest.dependencies.value.Keys == ws[i].packageJson.dependencies.value.Keys)
  {
    if RunOn(ws, pack, archivedOf, noVersion, absolute).Failure? {
      return;
    }
    RunKeepsExternalDependencies(ws, pack, archivedOf, noVersion, absolute, i);
  }

  /** The run succeeds exactly when every pack succeeds and every workspace with internal dependencies has a `dependencies` object in its tarball. */
  lemma RunSucceedsIff(ws: seq<Member>, pack: string -> PackResult, archivedOf: string -> Manifest,
                       noVersion: bool, absolute: bool)
    ensures RunOn(ws, pack, archivedOf, noVersion, absolute).Success? <==>
              && (forall j :: 0 <= j < |ws| ==> pack(ws[j].dir).success)
              && (forall j :: 0 <= j < |ws| && InternalDeps(ws[j].packageJson, Names(ws)) != {} ==>
                    archivedOf(pack(ws[j].dir).stdout).dependencies.Some?)
  {
    if PackFailureFrom(ws, pack, 0).None? {
      var tarballs := PackedPaths(ws, pack);
      var tasks := Tasks(ws, tarballs, archivedOf, noVersion, absolute);
      Collected(tasks);
      assert RunOn(ws, pack, archivedOf, noVersion, absolute) == CollectFrom(tasks, 0);
      forall j | 0 <= j < |ws|
        ensures tasks[j].Success? <==>
                  InternalDeps(ws[j].packageJson, Names(ws)) == {} || archivedOf(pack(ws[j].dir).stdout).dependencies.Some?
      {
        assert tasks[j] == Task(ws, tarballs, noVersion, absolute, j, archivedOf(tarballs[j]));
        assert tarballs[j] == pack(ws[j].dir).stdout;
        TaskSucceedsIff(ws, tarballs, noVersion, absolute, j, archivedOf(tarballs[j]));
      }
      assert CollectFrom(tasks, 0).Success? <==> forall j :: 0 <= j < |ws| ==> tasks[j].Success?;
    }
  }

  /**
   * A run ends only on a failed pack or on a workspace whose tarball has no
   * `dependencies` object; the missing-workspace exit is never reached,
   * since every edge names a workspace of the list.
   */
  lemma RunFailsOnlyOnPackOrAbsentDependencies(ws: seq<Member>, pack: string -> PackResult,
                                               archivedOf: string -> Manifest, noVersion: bool, absolute: bool)
    ensures var r := RunOn(ws, pack, archivedOf, noVersion, absolute);
            r.Failure? ==>
              || r.error.PackFailed?
              || exists j :: 0 <= j < |ws| && r.error == DependenciesAbsent(ws[j].packageJson.name)
  {
    var r := RunOn(ws, pack, archivedOf, noVersion, absolute);
    if r.Failure? && PackFailureFrom(ws, pack, 0).None? {
      var tarballs := PackedPaths(ws, pack);
      var tasks := Tasks(ws, tarballs, archivedOf, noVersion, absolute);
      CollectFailureIsTaskError(tasks, 0);
      var k :| 0 <= k < |tasks| && tasks[k] == Failure(r.error);
      assert tasks[k] == Task(ws, tarballs, noVersion, absolute, k, archivedOf(tarballs[k]));
      TaskSucceedsIff(ws, tarballs, noVersion, absolute, k, archivedOf(tarballs[k]));
    }
  }

  /** The pack phase from index `i` reports the first failing pack at or after `i`. */
  lemma {:induction false} PackFailureIsFirst(ws: seq<Member>, pack: string -> PackResult, i: nat, j: nat)
    requires i <= j < |ws| && !pack(ws[j].dir).success
    requires forall k :: i <= k < j ==> pack(ws[k].dir).success
    ensures PackFailureFrom(ws, pack, i) == Some(PackFailed(pack(ws[j].dir).stderr))
    decreases j - i
  {
    if i < j {
      PackFailureIsFirst(ws, pack, i + 1, j);
    }
  }

  /**
   * A failed pack stops the run before any tarball is rewritten; the error is
   * the diagnostics of the first workspace whose pack failed.
   */
  lemma PackFailureStopsRun(ws: seq<Member>, pack: string -> PackResult, archivedOf: string -> Manifest,
                            noVersion: bool, absolute: bool, j: nat)
    requires j < |ws| && !pack(ws[j].dir).success
    requires forall k :: 0 <= k < j ==> pack(ws[k].dir).success
    ensures RunOn(ws, pack, archivedOf, noVersion, absolute) == Failure(PackFailed(pack(ws[j].dir).stderr))
  {
    PackFailureIsFirst(ws, pack, 0, j);
  }
}
