/** The runtime variant of `versions_from_parentdir(parentdir_prefix, versionfile_source)`:
    the source root is found by walking up from the version file itself, one directory
    per component of `versionfile_source`, and its basename is checked for the prefix. */
module Parentdir {
  import opened Wrappers
  import opened Text
  import opened Paths
  import opened Py

  /** The source root: `dirname` applied to `here` once per `/`-separated component of
      `versionfile_source`; without `__file__`, the directory of `argv[0]`. */
  method FindRoot(file: Option<string>, argv0: string, versionfileSource: string)
    returns (root: string)
    ensures file.Some? ==> root == Ascend(file.value, |Split(versionfileSource, '/')|)
    ensures file.None? ==> root == Dirname(argv0)
  {
    if file.None? {
      return Dirname(argv0);
    }
    var here := file.value;
    root := here;
    var components := |Split(versionfileSource, '/')|;
    for i := 0 to components
      invariant root == Ascend(here, i)
    {
      root := Dirname(root);
    }
  }

  /** The prefix check on the root found: None unless its basename starts with the
      prefix, otherwise the rest of the basename as `version` and an empty `full`. */
  function PrefixCheck(parentdirPrefix: string, root: string): (r: Option<Dict>)
    ensures r.None? <==> !(parentdirPrefix <= Basename(root))
    ensures r.Some? ==>
      r.value.Keys == {"version", "full"} && r.value["full"] == Str("") &&
      r.value["version"].Str? && parentdirPrefix + r.value["version"].s == Basename(root)
  {
    var dirname := Basename(root);
    if !(parentdirPrefix <= dirname) then None
    else
      var version := DropPrefix(dirname, parentdirPrefix);
      Some(map["version" := Str(version), "full" := Str("")])
  }

  /** `versions_from_parentdir`: find the root, then check its basename. */
  method VersionsFromParentdir(parentdirPrefix: string, versionfileSource: string,
                               file: Option<string>, argv0: string)
    returns (r: Option<Dict>)
    ensures file.Some? ==>
      r == PrefixCheck(parentdirPrefix, Ascend(file.value, |Split(versionfileSource, '/')|))
    ensures file.None? ==> r == PrefixCheck(parentdirPrefix, Dirname(argv0))
  {
    var root := FindRoot(file, argv0, versionfileSource);
    r := PrefixCheck(parentdirPrefix, root);
  }

  /** The walk inverts the layout: when the version file really sits at
      `versionfile_source` below a directory `top`, the root found is `top`, so the
      version comes from the basename of `top`. */
  lemma RootOfInstalledFile(top: string, versionfileSource: string, parentdirPrefix: string)
    requires IsDirForm(top) && NonEmptyParts(Split(versionfileSource, '/'))
    ensures Ascend(Join(top, versionfileSource), |Split(versionfileSource, '/')|) == top
    ensures PrefixCheck(parentdirPrefix,
              Ascend(Join(top, versionfileSource), |Split(versionfileSource, '/')|))
         == PrefixCheck(parentdirPrefix, top)
  {
    AscendInvertsJoin(top, versionfileSource);
  }
}
