/** `get_versions()` of git/long_get_versions.py, the copy placed in a project's
    `_version.py`: expanded keywords first; then, from the source root found by
    walking up from this file, `git describe` and the parent directory name; then
    the "0+unknown" dictionary. */
module GitLongGetVersions {
  import opened Wrappers
  import opened Text
  import opened Paths
  import opened Py
  import GetVersions
  import GitFromVcs
  import GitKeywords
  import FromParentdir

  const RootNotFound := "unable to find root of source tree"

  /** The settings this copy was generated with. */
  datatype Settings = Settings(tagPrefix: string, parentdirPrefix: string, versionfileSource: string)

  /** The keyword dictionary built from the two strings `git archive` expands. */
  function Keywords(gitRefnames: string, gitFull: string): (k: map<string, string>)
    ensures k.Keys == {"refnames", "full"}
    ensures k["refnames"] == gitRefnames && k["full"] == gitFull
  {
    map["refnames" := gitRefnames, "full" := gitFull]
  }

  /** `git_versions_from_vcs(...) or versions_from_parentdir(...) or {...}`. */
  function FromRoot(s: Settings, root: string, returnCode: (seq<string>, string) -> int,
                    run: Runner): Dict {
    var fromVcs := GitFromVcs.GitVersionsFromVcs(s.tagPrefix, root, returnCode, run);
    if fromVcs != map[] then fromVcs
    else
      var parent := FromParentdir.VersionsFromParentdir(s.parentdirPrefix, root);
      if TruthyDict(parent) then parent.value
      else GetVersions.Unknown(GetVersions.ComputeFailed)
  }

  /** What `get_versions()` returns, given what the keyword function returned or
      raised. */
  function LongVersions(keywordVersions: Outcome<Dict>, file: Option<string>, s: Settings,
                        returnCode: (seq<string>, string) -> int, run: Runner): Outcome<Dict> {
    match keywordVersions
    case Raise(e) => Raise(e)
    case Ok(ver) =>
      if ver != map[] then Ok(ver)
      else if file.None? then Ok(GetVersions.Unknown(RootNotFound))
      else Ok(FromRoot(s, Ascend(file.value, |Split(s.versionfileSource, '/')|), returnCode, run))
  }

  /** `get_versions()`. `versionsFromKeywords` stands for `git_versions_from_keywords`,
      and `file` for `__file__` (None when it is not defined). */
  method LongGetVersions(gitRefnames: string, gitFull: string,
                         versionsFromKeywords: (map<string, string>, string) -> Outcome<Dict>,
                         s: Settings, file: Option<string>,
                         returnCode: (seq<string>, string) -> int, run: Runner)
    returns (r: Outcome<Dict>)
    ensures r == LongVersions(versionsFromKeywords(Keywords(gitRefnames, gitFull), s.tagPrefix),
                              file, s, returnCode, run)
  {
    var ver := versionsFromKeywords(Keywords(gitRefnames, gitFull), s.tagPrefix);
    if ver.Raise? {
      return Raise(ver.exc);
    }
    if ver.value != map[] {
      return ver;
    }
    if file.None? {
      return Ok(GetVersions.Unknown(RootNotFound));
    }
    var root := file.value;
    var components := Split(s.versionfileSource, '/');
    for i := 0 to |components|
      invariant root == Ascend(file.value, i)
    {
      root := Dirname(root);
    }
    r := Ok(FromRoot(s, root, returnCode, run));
  }

  /** A truthy keyword result, or an exception of the keyword function, is the
      result before the root is looked for: the same whether or not `__file__` is
      defined. */
  lemma KeywordsBeforeRoot(keywordVersions: Outcome<Dict>, file: Option<string>, s: Settings,
                           returnCode: (seq<string>, string) -> int, run: Runner)
    requires keywordVersions.Raise? || keywordVersions.value != map[]
    ensures LongVersions(keywordVersions, file, s, returnCode, run) == keywordVersions
    ensures LongVersions(keywordVersions, file, s, returnCode, run)
         == LongVersions(keywordVersions, None, s, returnCode, run)
  {
  }

  /** Without keywords and without `__file__` the version is unknown because the
      root cannot be found. */
  lemma RootUnavailable(s: Settings, returnCode: (seq<string>, string) -> int, run: Runner)
    ensures LongVersions(Ok(map[]), None, s, returnCode, run) == Ok(GetVersions.Unknown(RootNotFound))
    ensures LongVersions(Ok(map[]), None, s, returnCode, run).value["version"] == Str(GetVersions.UnknownVersion)
  {
  }

  /** After the keywords, the VCS result and then the parent directory result are
      tried, the first truthy one wins, and "unable to compute version" follows. */
  lemma FromRootPicksFirstTruthy(s: Settings, root: string,
                                 returnCode: (seq<string>, string) -> int, run: Runner)
    ensures Ok(FromRoot(s, root, returnCode, run))
         == GetVersions.Pick([Ok(Some(GitFromVcs.GitVersionsFromVcs(s.tagPrefix, root, returnCode, run))),
                              Ok(FromParentdir.VersionsFromParentdir(s.parentdirPrefix, root))],
                             GetVersions.Unknown(GetVersions.ComputeFailed))
  {
    var vcs: GetVersions.SourceResult := Ok(Some(GitFromVcs.GitVersionsFromVcs(s.tagPrefix, root, returnCode, run)));
    var parent: GetVersions.SourceResult := Ok(FromParentdir.VersionsFromParentdir(s.parentdirPrefix, root));
    var u := GetVersions.Unknown(GetVersions.ComputeFailed);
    assert [vcs, parent] == [vcs] + ([parent] + []);
    GetVersions.PickCons(vcs, [parent] + [], u);
    GetVersions.PickCons(parent, [], u);
  }

  /** With `git_versions_from_keywords` of from_keywords.py as the keyword function,
      expanded refnames make `get_versions()` raise KeyError("full_revisionid"): the
      keyword dictionary built here names the full id `full`. */
  lemma FromKeywordsRaises(gitRefnames: string, gitFull: string, s: Settings, file: Option<string>,
                           returnCode: (seq<string>, string) -> int, run: Runner)
    requires !("$Format" <= Strip(gitRefnames))
    ensures LongVersions(GitKeywords.VersionsFromKeywords(Keywords(gitRefnames, gitFull), s.tagPrefix),
                         file, s, returnCode, run)
         == Raise(KeyError("full_revisionid"))
  {
    var k := Keywords(gitRefnames, gitFull);
    assert |"full_revisionid"| != |"full"|;
    GitKeywords.KeywordsMissing(k, s.tagPrefix);
  }

  /** When this file really sits at `versionfile_source` below `top`, the walk stops
      at `top`, so the later sources are asked about `top`. */
  lemma WalkFindsTop(top: string, s: Settings, returnCode: (seq<string>, string) -> int,
                     run: Runner)
    requires IsDirForm(top) && NonEmptyParts(Split(s.versionfileSource, '/'))
    ensures LongVersions(Ok(map[]), Some(Join(top, s.versionfileSource)), s, returnCode, run)
         == Ok(FromRoot(s, top, returnCode, run))
  {
    AscendInvertsJoin(top, s.versionfileSource);
  }
}
