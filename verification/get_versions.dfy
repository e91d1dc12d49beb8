/** `get_versions()` of get_versions.py: after checking the configuration, the version
    is taken from the first of four sources that gives a truthy dictionary (expanded
    VCS keywords, the version file, the VCS command, the parent directory name), and a
    fixed "0+unknown" dictionary is returned when none does. */
module GetVersions {
  import opened Wrappers
  import opened Paths
  import opened Py
  import opened Text
  import FromParentdir
  import GitKeywords

  /** The `[versioneer]` settings the chain reads; an unset one is None. */
  datatype Config = Config(versionfileSource: Option<string>, tagPrefix: Option<string>,
                           parentdirPrefix: Option<string>, vcs: Option<string>)

  const VersionfileSourceUnset := "please set [versioneer] versionfile_source="
  const TagPrefixUnset := "please set [versioneer] tag_prefix="
  const ParentdirPrefixUnset := "please set [versioneer] parentdir_prefix="
  const VcsUnset := "please set [versioneer] VCS="

  const UnknownVersion := "0+unknown"
  const ComputeFailed := "unable to compute version"

  /** The dictionary returned when no source gives a version. */
  function Unknown(error: string): Dict {
    map["version" := Str(UnknownVersion), "full-revisionid" := Null,
        "dirty" := Null, "error" := Str(error)]
  }

  /** The VCS back ends this module can reach: the names it defines, and what the
      functions under those names return when called (the first argument names the
      VCS whose function is called). The keyword and VCS functions may raise, and
      what they raise escapes from `get_versions()`. The file reader is a parameter
      as well. */
  datatype Backends = Backends(
    defined: set<string>,
    getKeywords: (string, string) -> map<string, string>,
    versionsFromKeywords: (string, map<string, string>, string) -> Outcome<Dict>,
    versionsFromVcs: (string, string, string) -> Outcome<Dict>,
    versionsFromFile: string -> Option<Dict>)

  /** `vcs_function(vcs, suffix)`: the module attribute named `<vcs>_<suffix>`, or None
      when there is no such attribute. */
  function VcsFunction(defined: set<string>, vcs: string, suffix: string): (name: Option<string>)
    ensures name.Some? <==> vcs + "_" + suffix in defined
    ensures name.Some? ==> name.value == vcs + "_" + suffix
  {
    var name := vcs + "_" + suffix;
    if name in defined then Some(name) else None
  }

  /** `get_root()`: the directory of this file, or of `argv[0]` without `__file__`. */
  function GetRoot(file: Option<string>, argv0: string): string {
    Dirname(if file.Some? then file.value else argv0)
  }

  /** What one source gave: Ok(None) when it was not consulted or gave None, the
      dictionary it returned, or the exception it raised. */
  type SourceResult = Outcome<Option<Dict>>

  /** A source result ends the chain: it raised, or it is a truthy dictionary. */
  predicate Decides(r: SourceResult) {
    r.Raise? || TruthyDict(r.value)
  }

  /** What `get_versions()` does with a result that ends the chain. */
  function Settle(r: SourceResult): (v: Outcome<Dict>)
    requires Decides(r)
    ensures v.Raise? <==> r.Raise?
    ensures v.Raise? ==> v.exc == r.exc
    ensures v.Ok? ==> v.value != map[] && r == Ok(Some(v.value))
  {
    if r.Raise? then Raise(r.exc) else Ok(r.value.value)
  }

  /** The keyword source: consulted only when both keyword functions exist. */
  function KeywordSource(vcs: string, tagPrefix: string, versionfileAbs: string,
                         b: Backends): (r: SourceResult)
    ensures r == Ok(None) <==> !(VcsFunction(b.defined, vcs, "get_keywords").Some?
                                 && VcsFunction(b.defined, vcs, "versions_from_keywords").Some?)
    ensures r != Ok(None) ==>
      var v := b.versionsFromKeywords(vcs, b.getKeywords(vcs, versionfileAbs), tagPrefix);
      (r.Raise? <==> v.Raise?) && (r.Raise? ==> r.exc == v.exc) && (r.Ok? ==> r.value == Some(v.value))
  {
    if VcsFunction(b.defined, vcs, "get_keywords").Some?
       && VcsFunction(b.defined, vcs, "versions_from_keywords").Some?
    then
      match b.versionsFromKeywords(vcs, b.getKeywords(vcs, versionfileAbs), tagPrefix)
      case Raise(e) => Raise(e)
      case Ok(d) => Ok(Some(d))
    else Ok(None)
  }

  /** The VCS source: consulted only when the VCS function exists. */
  function VcsSource(vcs: string, tagPrefix: string, root: string, b: Backends): (r: SourceResult)
    ensures r == Ok(None) <==> VcsFunction(b.defined, vcs, "versions_from_vcs").None?
    ensures r != Ok(None) ==>
      var v := b.versionsFromVcs(vcs, tagPrefix, root);
      (r.Raise? <==> v.Raise?) && (r.Raise? ==> r.exc == v.exc) && (r.Ok? ==> r.value == Some(v.value))
  {
    if VcsFunction(b.defined, vcs, "versions_from_vcs").Some?
    then
      match b.versionsFromVcs(vcs, tagPrefix, root)
      case Raise(e) => Raise(e)
      case Ok(d) => Ok(Some(d))
    else Ok(None)
  }

  /** The position of the first result that ends the chain, or the length when
      there is none. */
  function FirstDecisive(results: seq<SourceResult>): (i: nat)
    ensures i <= |results|
    ensures forall j :: 0 <= j < i ==> !Decides(results[j])
    ensures i < |results| ==> Decides(results[i])
  {
    if results == [] then 0
    else if Decides(results[0]) then 0
    else 1 + FirstDecisive(results[1..])
  }

  /** What the first result that ends the chain gives, or `default` when there is none. */
  function Pick(results: seq<SourceResult>, default: Dict): Outcome<Dict> {
    var i := FirstDecisive(results);
    if i < |results| then Settle(results[i]) else Ok(default)
  }

  /** Picking from a list that starts with `x` settles `x` when it ends the chain and
      otherwise picks from the rest. */
  lemma PickCons(x: SourceResult, rest: seq<SourceResult>, default: Dict)
    ensures Pick([x] + rest, default) == if Decides(x) then Settle(x) else Pick(rest, default)
  {
    assert ([x] + rest)[1..] == rest;
  }

  /** The four sources in the order they are tried. */
  function Sources(vfs: string, tagPrefix: string, parentdirPrefix: string, vcs: string,
                   root: string, b: Backends): seq<SourceResult> {
    var versionfileAbs := Join(root, vfs);
    [KeywordSource(vcs, tagPrefix, versionfileAbs, b), Ok(b.versionsFromFile(versionfileAbs)),
     VcsSource(vcs, tagPrefix, root, b), Ok(FromParentdir.VersionsFromParentdir(parentdirPrefix, root))]
  }

  /** The early-return chain over the sources. */
  function Chain(vfs: string, tagPrefix: string, parentdirPrefix: string, vcs: string,
                 root: string, b: Backends): Outcome<Dict> {
    var versionfileAbs := Join(root, vfs);
    match KeywordSource(vcs, tagPrefix, versionfileAbs, b)
    case Raise(e) => Raise(e)
    case Ok(keywords) =>
      if TruthyDict(keywords) then Ok(keywords.value)
      else
        var file := b.versionsFromFile(versionfileAbs);
        if TruthyDict(file) then Ok(file.value)
        else
          match VcsSource(vcs, tagPrefix, root, b)
          case Raise(e) => Raise(e)
          case Ok(fromVcs) =>
            if TruthyDict(fromVcs) then Ok(fromVcs.value)
            else
              var parent := FromParentdir.VersionsFromParentdir(parentdirPrefix, root);
              if TruthyDict(parent) then Ok(parent.value)
              else Ok(Unknown(ComputeFailed))
  }

  /** The chain settles the first source that raises or gives a truthy dictionary,
      in the order keywords, file, VCS, parent directory, and gives the "unable to
      compute version" dictionary after them. */
  lemma ChainPicksFirstTruthy(vfs: string, tagPrefix: string, parentdirPrefix: string,
                              vcs: string, root: string, b: Backends)
    ensures Chain(vfs, tagPrefix, parentdirPrefix, vcs, root, b)
         == Pick(Sources(vfs, tagPrefix, parentdirPrefix, vcs, root, b), Unknown(ComputeFailed))
  {
    var s := Sources(vfs, tagPrefix, parentdirPrefix, vcs, root, b);
    var u := Unknown(ComputeFailed);
    assert s == [s[0]] + ([s[1]] + ([s[2]] + ([s[3]] + [])));
    PickCons(s[0], [s[1]] + ([s[2]] + ([s[3]] + [])), u);
    PickCons(s[1], [s[2]] + ([s[3]] + []), u);
    PickCons(s[2], [s[3]] + [], u);
    PickCons(s[3], [], u);
  }

  /** Only the keyword and VCS functions raise: an exception out of the chain is
      one of theirs, passed on unchanged. */
  lemma OnlyBackendsRaise(vfs: string, tagPrefix: string, parentdirPrefix: string,
                          vcs: string, root: string, b: Backends)
    requires Chain(vfs, tagPrefix, parentdirPrefix, vcs, root, b).Raise?
    ensures var e := Chain(vfs, tagPrefix, parentdirPrefix, vcs, root, b).exc;
      KeywordSource(vcs, tagPrefix, Join(root, vfs), b) == Raise(e)
      || VcsSource(vcs, tagPrefix, root, b) == Raise(e)
  {
  }

  /** When neither the keywords nor the file end the chain, an exception of the VCS
      function (the ValueError or KeyError of `svn_versions_from_vcs`, say) is what
      the chain gives. */
  lemma VcsErrorEscapes(vfs: string, tagPrefix: string, parentdirPrefix: string, vcs: string,
                        root: string, b: Backends)
    requires !Decides(KeywordSource(vcs, tagPrefix, Join(root, vfs), b))
    requires !TruthyDict(b.versionsFromFile(Join(root, vfs)))
    requires VcsSource(vcs, tagPrefix, root, b).Raise?
    ensures Chain(vfs, tagPrefix, parentdirPrefix, vcs, root, b) == Raise(VcsSource(vcs, tagPrefix, root, b).exc)
  {
  }

  /** `get_versions()`: the four configuration assertions in order, then the chain
      from the root found by `get_root()`. */
  function GetVersions(config: Config, file: Option<string>, argv0: string, b: Backends)
    : (r: Outcome<Dict>)
    ensures config.versionfileSource.None? ==> r == Raise(AssertionError(VersionfileSourceUnset))
    ensures config.versionfileSource.Some? && config.tagPrefix.None? ==>
      r == Raise(AssertionError(TagPrefixUnset))
    ensures config.versionfileSource.Some? && config.tagPrefix.Some? && config.parentdirPrefix.None? ==>
      r == Raise(AssertionError(ParentdirPrefixUnset))
    ensures (config.versionfileSource.Some? && config.tagPrefix.Some?
             && config.parentdirPrefix.Some? && config.vcs.None?) ==>
      r == Raise(AssertionError(VcsUnset))
    ensures (config.versionfileSource.Some? && config.tagPrefix.Some?
             && config.parentdirPrefix.Some? && config.vcs.Some?) ==>
      r == Pick(Sources(config.versionfileSource.value, config.tagPrefix.value,
                        config.parentdirPrefix.value, config.vcs.value, GetRoot(file, argv0), b),
                Unknown(ComputeFailed))
  {
    if config.versionfileSource.None? then Raise(AssertionError(VersionfileSourceUnset))
    else if config.tagPrefix.None? then Raise(AssertionError(TagPrefixUnset))
    else if config.parentdirPrefix.None? then Raise(AssertionError(ParentdirPrefixUnset))
    else if config.vcs.None? then Raise(AssertionError(VcsUnset))
    else
      ChainPicksFirstTruthy(config.versionfileSource.value, config.tagPrefix.value,
                            config.parentdirPrefix.value, config.vcs.value, GetRoot(file, argv0), b);
      Chain(config.versionfileSource.value, config.tagPrefix.value,
            config.parentdirPrefix.value, config.vcs.value, GetRoot(file, argv0), b)
  }

  /** A keyword result that ends the chain (a truthy dictionary or an exception) is
      what the chain gives: changing the file reader or the VCS function does not
      change the result. */
  lemma KeywordsWin(vfs: string, tagPrefix: string, parentdirPrefix: string, vcs: string,
                    root: string, b: Backends, readFile: string -> Option<Dict>,
                    fromVcs: (string, string, string) -> Outcome<Dict>)
    requires Decides(KeywordSource(vcs, tagPrefix, Join(root, vfs), b))
    ensures Chain(vfs, tagPrefix, parentdirPrefix, vcs, root, b)
         == Settle(KeywordSource(vcs, tagPrefix, Join(root, vfs), b))
    ensures Chain(vfs, tagPrefix, parentdirPrefix, vcs, root, b)
         == Chain(vfs, tagPrefix, parentdirPrefix, vcs, root,
                  b.(versionsFromFile := readFile, versionsFromVcs := fromVcs))
  {
  }

  /** Unless both keyword functions exist, the keyword functions are never called. */
  lemma KeywordsNeedBoth(vfs: string, tagPrefix: string, parentdirPrefix: string, vcs: string,
                         root: string, b: Backends, get: (string, string) -> map<string, string>,
                         versions: (string, map<string, string>, string) -> Outcome<Dict>)
    requires !(vcs + "_get_keywords" in b.defined && vcs + "_versions_from_keywords" in b.defined)
    ensures Chain(vfs, tagPrefix, parentdirPrefix, vcs, root, b)
         == Chain(vfs, tagPrefix, parentdirPrefix, vcs, root,
                  b.(getKeywords := get, versionsFromKeywords := versions))
  {
    assert vcs + "_" + "get_keywords" == vcs + "_get_keywords";
    assert vcs + "_" + "versions_from_keywords" == vcs + "_versions_from_keywords";
  }

  /** With every source empty or None and none raising, the result is the fixed
      sentinel. */
  lemma Exhausted(vfs: string, tagPrefix: string, parentdirPrefix: string, vcs: string,
                  root: string, b: Backends)
    requires forall i :: 0 <= i < 4 ==>
      !Decides(Sources(vfs, tagPrefix, parentdirPrefix, vcs, root, b)[i])
    ensures Chain(vfs, tagPrefix, parentdirPrefix, vcs, root, b) == Ok(Unknown(ComputeFailed))
    ensures Chain(vfs, tagPrefix, parentdirPrefix, vcs, root, b).value["version"] == Str(UnknownVersion)
  {
    var s := Sources(vfs, tagPrefix, parentdirPrefix, vcs, root, b);
    assert !Decides(s[0]) && !Decides(s[1]) && !Decides(s[2]) && !Decides(s[3]);
  }

  /** With the keyword function of from_keywords.py as the VCS's keyword back end,
      expanded refnames without a `full_revisionid` keyword make `get_versions()`
      raise KeyError: the error of the keyword function is not caught. */
  lemma KeywordErrorEscapes(config: Config, file: Option<string>, argv0: string, b: Backends)
    requires config.versionfileSource.Some? && config.tagPrefix.Some?
    requires config.parentdirPrefix.Some? && config.vcs.Some?
    requires var vcs := config.vcs.value;
      VcsFunction(b.defined, vcs, "get_keywords").Some?
      && VcsFunction(b.defined, vcs, "versions_from_keywords").Some?
      && forall k, p :: b.versionsFromKeywords(vcs, k, p) == GitKeywords.VersionsFromKeywords(k, p)
    requires var k := b.getKeywords(config.vcs.value, Join(GetRoot(file, argv0), config.versionfileSource.value));
      "refnames" in k && !("$Format" <= Strip(k["refnames"])) && "full_revisionid" !in k
    ensures GetVersions(config, file, argv0, b) == Raise(KeyError("full_revisionid"))
  {
    var root := GetRoot(file, argv0);
    var vfs := config.versionfileSource.value;
    KeywordSourceRaises(config.vcs.value, config.tagPrefix.value, Join(root, vfs), b);
    KeywordsWin(vfs, config.tagPrefix.value, config.parentdirPrefix.value, config.vcs.value, root, b,
                b.versionsFromFile, b.versionsFromVcs);
  }

  /** The keyword source passes on the KeyError of from_keywords.py for expanded
      refnames without `full_revisionid`. */
  lemma KeywordSourceRaises(vcs: string, tagPrefix: string, versionfileAbs: string, b: Backends)
    requires VcsFunction(b.defined, vcs, "get_keywords").Some?
    requires VcsFunction(b.defined, vcs, "versions_from_keywords").Some?
    requires forall k, p :: b.versionsFromKeywords(vcs, k, p) == GitKeywords.VersionsFromKeywords(k, p)
    requires var k := b.getKeywords(vcs, versionfileAbs);
      "refnames" in k && !("$Format" <= Strip(k["refnames"])) && "full_revisionid" !in k
    ensures KeywordSource(vcs, tagPrefix, versionfileAbs, b) == Raise(KeyError("full_revisionid"))
  {
    var k := b.getKeywords(vcs, versionfileAbs);
    GitKeywords.KeywordsMissing(k, tagPrefix);
  }

  /** `get_version()`: the "version" entry of `get_versions()`; a result without
      that key raises KeyError. */
  function GetVersion(config: Config, file: Option<string>, argv0: string, b: Backends)
    : (r: Outcome<Value>)
    ensures r.Ok? <==> GetVersions(config, file, argv0, b).Ok?
                       && "version" in GetVersions(config, file, argv0, b).value
    ensures r.Ok? ==> r.value == GetVersions(config, file, argv0, b).value["version"]
    ensures GetVersions(config, file, argv0, b).Raise? ==>
      r == Raise(GetVersions(config, file, argv0, b).exc)
    ensures GetVersions(config, file, argv0, b).Ok?
      && "version" !in GetVersions(config, file, argv0, b).value
      ==> r == Raise(KeyError("version"))
  {
    match GetVersions(config, file, argv0, b)
    case Raise(e) => Raise(e)
    case Ok(d) => if "version" in d then Ok(d["version"]) else Raise(KeyError("version"))
  }

  /** The parent-directory source of from_parentdir.py names its fields describe,
      long and pep440, so a version found only there makes `get_version()` raise
      KeyError("version"). */
  lemma ParentdirHasNoVersionKey(config: Config, file: Option<string>, argv0: string, b: Backends)
    requires config.versionfileSource.Some? && config.tagPrefix.Some?
    requires config.parentdirPrefix.Some? && config.vcs.Some?
    requires var s := Sources(config.versionfileSource.value, config.tagPrefix.value,
                              config.parentdirPrefix.value, config.vcs.value, GetRoot(file, argv0), b);
      !Decides(s[0]) && !Decides(s[1]) && !Decides(s[2])
    requires config.parentdirPrefix.value <= Basename(GetRoot(file, argv0))
    ensures GetVersion(config, file, argv0, b) == Raise(KeyError("version"))
  {
    var root := GetRoot(file, argv0);
    var parent := FromParentdir.VersionsFromParentdir(config.parentdirPrefix.value, root);
    assert parent.Some? && parent.value.Keys == {"describe", "long", "pep440"};
    assert "version" !in parent.value;
    assert TruthyDict(parent) by {
      assert "describe" in parent.value;
    }
    assert GetVersions(config, file, argv0, b) == Ok(parent.value);
  }
}
