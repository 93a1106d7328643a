/**
 * String helpers used by the rewrite: `String.prototype.indexOf`,
 * `String.prototype.replace` with a string pattern (first occurrence only),
 * `path.basename`, and the `--no-version` stripping of tarball names.
 */
module Paths {
  import opened Wrappers

  /** `pat` occurs in `s` at index `i`. */
  predicate OccursAt(s: string, pat: string, i: nat) {
    i + |pat| <= |s| && s[i..i + |pat|] == pat
  }

  ghost predicate Contains(s: string, pat: string) {
    exists i: nat :: OccursAt(s, pat, i)
  }

  /** The first index at or after `from` where `pat` occurs. */
  function IndexOfFrom(s: string, pat: string, from: nat): (r: Option<nat>)
    decreases |s| - from
    ensures r.Some? ==> from <= r.value && OccursAt(s, pat, r.value)
    ensures forall j: nat :: from <= j && (r.None? || j < r.value) ==> !OccursAt(s, pat, j)
  {
    if |s| < from + |pat| then None
    else if OccursAt(s, pat, from) then Some(from)
    else IndexOfFrom(s, pat, from + 1)
  }

  /** `s.indexOf(pat)`, with `None` for -1. */
  function IndexOf(s: string, pat: string): (r: Option<nat>)
    ensures r.None? <==> !Contains(s, pat)
    ensures r.Some? ==> OccursAt(s, pat, r.value)
    ensures r.Some? ==> forall j: nat :: j < r.value ==> !OccursAt(s, pat, j)
  {
    IndexOfFrom(s, pat, 0)
  }

  /**
   * `s.replace(pat, rep)` for a string `pat`: the first occurrence is
   * replaced, and a string without an occurrence comes back unchanged.
   */
  function ReplaceFirst(s: string, pat: string, rep: string): (r: string)
    ensures !Contains(s, pat) ==> r == s
    ensures forall i: nat {:trigger OccursAt(s, pat, i)} ::
              OccursAt(s, pat, i) && (forall j: nat :: j < i ==> !OccursAt(s, pat, j)) ==>
                r == s[..i] + rep + s[i + |pat|..]
  {
    match IndexOf(s, pat)
    case None => s
    case Some(i) => s[..i] + rep + s[i + |pat|..]
  }

  /** `path.basename(p)`: the part of `p` after its last `/`. */
  function Basename(p: string): (r: string)
    ensures '/' !in r
    ensures |r| <= |p| && p[|p| - |r|..] == r
    ensures |r| < |p| ==> p[|p| - |r| - 1] == '/'
  {
    if p == [] then []
    else if p[|p| - 1] == '/' then []
    else Basename(p[..|p| - 1]) + [p[|p| - 1]]
  }

  /** The basename of a file placed in a directory is the file's own name. */
  lemma {:induction false} BasenameOfJoin(dir: string, file: string)
    requires '/' !in file
    ensures Basename(dir + "/" + file) == file
  {
    if file != [] {
      var last := |file| - 1;
      assert (dir + "/" + file)[..|dir + "/" + file| - 1] == dir + "/" + file[..last];
      BasenameOfJoin(dir, file[..last]);
      assert file[..last] + [file[last]] == file;
    }
  }

  /** The segment `-<version>.tgz` that `--no-version` removes. */
  function VersionSuffix(version: string): string {
    "-" + version + ".tgz"
  }

  /** `tarball.replace(`-${version}.tgz`, ".tgz")`. */
  function StripVersion(tarball: string, version: string): string {
    ReplaceFirst(tarball, VersionSuffix(version), ".tgz")
  }

  /** Stripping changes a name exactly when the name holds the version segment. */
  lemma StripVersionIsIdentityIff(tarball: string, version: string)
    ensures StripVersion(tarball, version) == tarball <==> !Contains(tarball, VersionSuffix(version))
  {
    var pat := VersionSuffix(version);
    match IndexOf(tarball, pat)
    case None =>
    case Some(i) =>
      assert OccursAt(tarball, pat, i);
      assert |StripVersion(tarball, version)| == |tarball| - |pat| + 4;
  }

  /** A name without any `-`, such as an already stripped `A.tgz`, is left alone. */
  lemma StripVersionWithoutHyphen(tarball: string, version: string)
    requires '-' !in tarball
    ensures StripVersion(tarball, version) == tarball
  {
    var pat := VersionSuffix(version);
    assert pat[0] == '-';
    forall i: nat
      ensures !OccursAt(tarball, pat, i)
    {
      if i + |pat| <= |tarball| {
        assert tarball[i..i + |pat|][0] == tarball[i];
        assert tarball[i] in tarball;
      }
    }
  }

  /**
   * The stripped name of a versioned tarball `<prefix>-<version>.tgz`, such
   * as `out/my-lib-1.0.0.tgz`: the version segment goes whenever it does not
   * already start inside `prefix`.
   */
  lemma StripVersionOfVersionedName(prefix: string, version: string)
    requires forall j: nat :: j < |prefix| ==> !OccursAt(prefix + VersionSuffix(version), VersionSuffix(version), j)
    ensures StripVersion(prefix + VersionSuffix(version), version) == prefix + ".tgz"
  {
    var pat := VersionSuffix(version);
    var s := prefix + pat;
    assert OccursAt(s, pat, |prefix|) by {
      assert s[|prefix|..|prefix| + |pat|] == pat;
    }
    assert s[..|prefix|] + ".tgz" + s[|prefix| + |pat|..] == prefix + ".tgz" by {
      assert s[..|prefix|] == prefix;
      assert s[|prefix| + |pat|..] == [];
    }
  }

  /** In particular, `<prefix>-<version>.tgz` strips to `<prefix>.tgz` when `<prefix>` has no `-`. */
  lemma StripVersionOfHyphenFreeName(prefix: string, version: string)
    requires '-' !in prefix
    ensures StripVersion(prefix + VersionSuffix(version), version) == prefix + ".tgz"
  {
    var pat := VersionSuffix(version);
    forall j: nat | j < |prefix|
      ensures !OccursAt(prefix + pat, pat, j)
    {
      assert (prefix + pat)[j] == prefix[j] && prefix[j] in prefix;
    }
    StripVersionOfVersionedName(prefix, version);
  }

  /** In `<name>-<version>-<version>.tgz` the version segment starts only after `<name>-<version>`. */
  lemma DoubleVersionHasOneSegment(name: string, version: string)
    requires '-' !in name && '-' !in version
    ensures var prefix := name + "-" + version;
            forall j: nat :: j < |prefix| ==> !OccursAt(prefix + VersionSuffix(version), VersionSuffix(version), j)
  {
    var pat := VersionSuffix(version);
    var prefix := name + "-" + version;
    var s := prefix + pat;
    forall j: nat | j < |prefix|
      ensures !OccursAt(s, pat, j)
    {
      if j < |name| {
        assert s[j] == name[j] && name[j] in name;
      } else if j > |name| {
        assert s[j] == version[j - |name| - 1] && version[j - |name| - 1] in version;
      } else if j + |pat| <= |s| {
        assert s[|prefix|] == '-';
        assert s[j..j + |pat|][1 + |version|] == s[|prefix|];
        assert pat[1 + |version|] == '.';
      }
    }
  }

  /**
   * Stripping is not idempotent in general: a package named `<name>-<version>`
   * (such as `A-1` at version `1`) packs to `<name>-<version>-<version>.tgz`,
   * which strips to `<name>-<version>.tgz`, which strips again to
   * `<name>.tgz`.
   */
  lemma StripVersionTwiceCanChangeName(name: string, version: string)
    requires '-' !in name && '-' !in version
    ensures StripVersion(name + "-" + version + VersionSuffix(version), version) == name + "-" + version + ".tgz"
    ensures StripVersion(name + "-" + version + ".tgz", version) == name + ".tgz"
  {
    DoubleVersionHasOneSegment(name, version);
    StripVersionOfVersionedName(name + "-" + version, version);
    assert name + "-" + version + ".tgz" == name + VersionSuffix(version);
    StripVersionOfHyphenFreeName(name, version);
  }
}
