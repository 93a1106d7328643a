# monopack: the workspace dependency rewrite, in Dafny

monopack packs every package of a monorepo into a tarball and rewrites each
tarball's `package.json` so that its dependencies on sibling workspaces point
at the sibling tarballs (`file:` references) instead of registry versions.
This project models the core of `main` in `src/cli.ts`:

- **Discovery** (first pass). The scanned workspace manifests become
  `Workspace` records. Private manifests are skipped, and scan order is kept.
- **Edge resolution** (second pass). Each record collects the keys of its
  `dependencies` that name a workspace of the completed list.
- **Pack.** Each record gets the tarball path that `pak.pack` reports, and
  the first failed pack ends the run.
- **Manifest rewrite.** For each edge the lookup finds the dependency's
  workspace. The target file name is computed, with `--no-version`
  stripping `-<version>.tgz`. `dependencies[dep]` becomes `file:<target>`
  (`--absolute`) or `file:./<basename>`, and `devDependencies` is deleted.
- **Rename** under `--no-version`, by the same stripping rule.

The project has four modules:

- `Paths` (`paths.dfy`) holds the string pieces:
  - `indexOf`;
  - `replace` with a string pattern, which replaces the first occurrence;
  - `path.basename`, as the suffix after the last `/`;
  - version stripping.
- `Manifests` (`manifests.dfy`) holds the values and a functional
  specification `RunSpec` of the whole run, with the lemmas about it.
- `Cli` (`cli.dfy`) is the imperative model. `Workspace` is a class whose
  `workspaceDependencies` and `tarball` fields the methods update in place.
  `Cli.Run` is proved to compute `Manifests.RunSpec`.
- `Wrappers` (`wrappers.dfy`) holds `Option`, `Result` and `Outcome`.

Two collaborators are parameters:

- `pack: string -> PackResult` is `pak.pack` for a workspace directory.
- `archivedOf: string -> Manifest` is the manifest found inside a produced
  tarball.

The three fatal exits the model keeps are values of `RunError` (the
rejections of the tar and file-system calls are left out, see below):

- a failed pack;
- a dependency that names no workspace;
- assigning into an absent `dependencies` object, which is a `TypeError` in
  JavaScript.

The program's only promise to its caller is a correct set of tarballs, so
the run's result is each workspace's rewritten manifest together with the
path its tarball ends up at.

Two behaviours of the code worth knowing:

- **Dependency keys.** The rewrite assigns `dependencies[dep]`, so it adds
  the key when the manifest inside the tarball lacks it. No key is added or
  removed when, for instance, the tarball holds the workspace's own manifest
  (`Manifests.RunKeepsDependencyKeys`).
- **Stripping twice.** Stripping an already-stripped name is the identity
  only when the name does not contain `-<version>.tgz` again.
  `Paths.StripVersionTwiceCanChangeName` shows this for every package named
  `<name>-<version>` with no other `-`: for `A-1` at version `1`, the
  stripped name `A-1.tgz` strips again to `A.tgz`. The code strips each
  name once, so the references and the renames still agree
  (`Manifests.RunLinksToFinalTarballs`).

## Model

| member | source | states |
|---|---|---|
| Paths.IndexOfFrom | src/cli.ts:128-131 | the result is the first index at or after `from` where the pattern occurs; `None` when there is none |
| Paths.IndexOf | src/cli.ts:128-131 | `indexOf`: `None` exactly when the pattern does not occur; otherwise the first occurrence |
| Paths.ReplaceFirst | src/cli.ts:128-131 | `replace` with a string pattern: the string is unchanged when the pattern is absent; otherwise its first occurrence is replaced and the rest is kept |
| Paths.Basename | src/cli.ts:136 | `path.basename`: a suffix of the path with no `/` in it, preceded by a `/` when shorter than the path |
| Paths.BasenameOfJoin | src/cli.ts:136 | the basename of `dir/file` is `file` |
| Paths.StripVersionIsIdentityIff | src/cli.ts:127-132 | stripping leaves a name unchanged if and only if `-<version>.tgz` does not occur in it |
| Paths.StripVersionWithoutHyphen | src/cli.ts:157-165 | a name without `-`, such as `A.tgz`, is left alone by the stripping |
| Paths.StripVersionOfVersionedName | src/cli.ts:157-165 | `<prefix>-<version>.tgz` strips to `<prefix>.tgz` whenever `-<version>.tgz` does not already start inside `<prefix>`, hyphens in the name included |
| Paths.StripVersionOfHyphenFreeName | src/cli.ts:157-165 | in particular `<prefix>-<version>.tgz` strips to `<prefix>.tgz` when `<prefix>` has no `-` |
| Paths.DoubleVersionHasOneSegment | src/cli.ts:127-132 | in `<name>-<version>-<version>.tgz`, with no `-` in name or version, the version segment does not start before the second version |
| Paths.StripVersionTwiceCanChangeName | src/cli.ts:160-163 | stripping is not idempotent: for a package named `<name>-<version>`, such as `A-1` at version `1`, the tarball `<name>-<version>-<version>.tgz` strips to `<name>-<version>.tgz`, which strips again to `<name>.tgz` |
| Manifests.DiscoveredIsFilter | src/cli.ts:43-59 | discovery keeps every non-private member and only non-private members, and no more than it scanned |
| Manifests.DiscoveredConcat | src/cli.ts:43-59 | discovery keeps scan order: it distributes over concatenation of the scanned members |
| Manifests.PrivateNeverInternal | src/cli.ts:43-72 | a name all of whose manifests are private is no workspace name and never an internal dependency of any manifest |
| Manifests.FirstIndex | src/cli.ts:120 | `find` by name: `None` exactly when no workspace has the name; otherwise the first index holding it |
| Manifests.EdgesDependOnlyOnNameSet | src/cli.ts:67 | the internal dependencies depend only on which names are in the list, not on their positions |
| Manifests.EdgesNeedCompleteList | src/cli.ts:61-72 | resolving against a list prefix loses the edges to workspaces scanned later; the complete list yields a superset |
| Manifests.FileRef | src/cli.ts:134-136 | every written reference starts with `file:` |
| Manifests.FileRefResolvesToTarget | src/cli.ts:134-136 | both reference forms, read from the output directory, lead back to the tarball in that directory |
| Manifests.References | src/cli.ts:119-136 | a reference is defined for exactly the workspace names |
| Manifests.RewriteSpec | src/cli.ts:119-139 | the rewrite fails exactly when there are edges and no `dependencies` object; otherwise `devDependencies` is gone, name, version and `private` are kept, the keys are the old keys plus the edges, each edge maps to its reference, and every other entry keeps its value |
| Manifests.RewriteSpecOfUpdatedMap | src/cli.ts:119-139 | any map that writes every edge's reference over the old entries and keeps the rest is the rewrite's result |
| Manifests.WriteEdge | src/cli.ts:120-136 | one edge: it succeeds exactly when the dependency names a workspace and `dependencies` exists, and then adds or overwrites only that key with the workspace's reference; otherwise it fails with the missing-workspace or absent-`dependencies` error |
| Manifests.FirstEdgeFailureUnique | src/cli.ts:119-137 | at most one edge index and error describe the first failing edge |
| Manifests.RewriteEdgesFailsAtFirst | src/cli.ts:119-137 | the edge loop succeeds exactly when every edge names a workspace and, if there is an edge, `dependencies` exists; a failure is that of the first failing edge: the missing-workspace error for an unknown name, or the absent-`dependencies` error at the first edge |
| Manifests.RewriteEdgesWrites | src/cli.ts:119-137 | after a successful edge loop `dependencies` is present exactly when it was; its keys are the old keys plus the edges, each edge holds its reference and every other entry keeps its value |
| Manifests.RewriteEdgesMeetsSpec | src/cli.ts:119-139 | when every edge names a workspace, the edge loop followed by deleting `devDependencies` is the rewrite specification |
| Manifests.PackFailureFrom | src/cli.ts:80-89 | no failure is reported exactly when every pack from index `i` succeeds; a reported failure carries the diagnostics of a failed pack |
| Manifests.PackFailureIsFirst | src/cli.ts:84-89 | the pack phase reports the diagnostics of the first failing pack |
| Manifests.Collected | src/cli.ts:170 | a phase succeeds exactly when every task does, and then holds each task's value at that task's index |
| Manifests.CollectFailureIsTaskError | src/cli.ts:170 | a failed phase fails with the error of one of its tasks |
| Manifests.CollectStopsAtFailure | src/cli.ts:170 | a phase whose earlier tasks succeed ends with the error of its first failing task |
| Manifests.TaskSucceedsIff | src/cli.ts:119-137 | a modify task fails exactly when the workspace has edges and its tarball's manifest has no `dependencies` object, and then the error names that workspace |
| Manifests.TaskLinks | src/cli.ts:119-136 | a successful task points every edge at the final path of the first workspace of that name |
| Manifests.RunOutputAt | src/cli.ts:77-170 | a successful run has one result per workspace, and result `k` is the modify task of workspace `k` on the manifest inside the tarball its own pack produced |
| Manifests.RunLinksToFinalTarballs | src/cli.ts:127-165 | in every rewritten manifest an edge `dep` holds the reference to the path `dep`'s own tarball ends up at: the packed path, stripped of its version exactly when `--no-version` renames it |
| Manifests.RunDropsDevDependencies | src/cli.ts:139 | no rewritten manifest has `devDependencies` |
| Manifests.RunKeepsExternalDependencies | src/cli.ts:119-137 | keys that are not edges keep their values, the keys grow only by the edges, and an absent `dependencies` stays absent |
| Manifests.RunKeepsDependencyKeys | src/cli.ts:119-137 | when a tarball holds its workspace's own manifest, the rewrite adds and removes no `dependencies` key |
| Manifests.RunSucceedsIff | src/cli.ts:77-170 | the run succeeds exactly when every pack succeeds and every workspace with edges has a `dependencies` object in its tarball |
| Manifests.RunFailsOnlyOnPackOrAbsentDependencies | src/cli.ts:77-170 | a failed run ends with a pack failure or with an absent `dependencies` object of some workspace; the missing-workspace exit is never reached |
| Manifests.PackFailureStopsRun | src/cli.ts:84-89 | when pack `j` is the first to fail, the run ends with its diagnostics and nothing is rewritten |
| Cli.Workspace.constructor | src/cli.ts:51-58 | a new record has the member's directory and manifest, no edges and no tarball yet |
| Cli.Discover | src/cli.ts:43-59 | the records are fresh, pairwise distinct and, in order, exactly the discovered members; none has edges or a tarball |
| Cli.IsOwnIff | src/cli.ts:67 | the `some` test holds exactly when the dependency is a workspace name |
| Cli.ResolveWorkspace | src/cli.ts:63-71 | the record's edges are extended by a duplicate-free list of exactly its dependency keys that name a workspace, empty when `dependencies` is absent; its tarball is untouched |
| Cli.ResolveWorkspaceDependencies | src/cli.ts:62-72 | after the pass over the complete list every record's edges are extended by exactly its internal dependencies; tarballs are untouched |
| Cli.PackAll | src/cli.ts:77-92 | the step fails exactly when some pack fails, with the first failure's diagnostics; otherwise each record holds the path its pack reported; edges are untouched |
| Cli.RewriteEdge | src/cli.ts:120-136 | the lookup and assignment for one edge on the records compute `Manifests.WriteEdge` over their names and final tarball paths |
| Cli.RewriteDependencies | src/cli.ts:119-137 | the loop over a record's edges computes `Manifests.RewriteEdges`, so it stops with the error of the first failing edge (`Manifests.RewriteEdgesFailsAtFirst`) and otherwise leaves the map `Manifests.RewriteEdgesWrites` describes |
| Cli.TaskOfRewrite | src/cli.ts:97-168 | for a resolved record the loop's result, with `devDependencies` deleted and the target file name, is the specified result of its modify task |
| Cli.ModifyWorkspace | src/cli.ts:97-168 | once every record is resolved, its result is the specified modify result for that workspace |
| Cli.ModifyAll | src/cli.ts:96-170 | the modify step's result is the collected specified task results |
| Cli.Run | src/cli.ts:19-173 | the imperative run computes `RunSpec` on the scanned members |

## Left out

- Tar extraction and creation, gzip, and the file-system reads, writes, removals and renames are not modelled, nor are their failures: a rejected manifest read, `tar.extract`, `readJSON`, `writeJSON`, `tar.create` or `rename` reaches the `.catch` handler at src/cli.ts:175-185, which exits with code 1. The model keeps the manifest going in (`archivedOf`) and out, and the final path of each tarball (`Rewritten.tarball`).
- `pak.workspaces()` is not modelled: the scanned members are a parameter. `pak.pack` is the function parameter `pack`, given the workspace directory. The `path.relative(pak.cwd, …)` argument and `targetDir` are not modelled.
- `p-queue` and `Promise.all` run in order, and the first failure in workspace order decides the run. The source starts every task when `.map(async …)` creates it, so which failing pack exits first depends on timing.
- `process.exit(1)` after a failed pack or a missing workspace is modelled as a `RunError` result. Logging to the console is not modelled.
- Argument parsing (`--target`, `--no-version`, `--absolute`) and the resolution of the output directory are not modelled. `noVersion` and `absolute` are parameters, and tarball paths are taken as `pack` reports them.
- Random names for the temporary directories and the cleanup in the `.catch` handler are not modelled.
- JSON formatting with `spaces: 2` is not modelled.
- Manifest fields other than `name`, `version`, `private`, `dependencies` and `devDependencies` are not modelled; the rewrite passes them through.
- `private` is a boolean: the flag's JavaScript truthiness, taken when the manifest is read.
- `Object.keys` order is an arbitrary choice (`:|`). The edge list is specified as a duplicate-free list with the right elements, not in key order.
- `path.basename` is the part after the last `/`. The model does not strip trailing separators and has no Windows separators.
- Cli.ModifyWorkspace: its result is stated only when every record is resolved, as the second pass leaves them. A record whose edges name no workspace gets only `Cli.RewriteDependencies`'s description of the missing-workspace error.
- eslint.config.mjs is configuration with no behaviour and is not part of this model.
