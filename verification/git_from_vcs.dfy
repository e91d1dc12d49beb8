/** `git_versions_from_vcs` of git/from_vcs.py: `git describe` and `git rev-parse`
    run in a given root, after checking that the root is under git control. */
module GitFromVcs {
  import opened Wrappers
  import opened Py
  import opened Paths
  import opened Text
  import opened Describe
  import GitMiddle

  const GitDirArgs: seq<string> := ["git", "rev-parse", "--git-dir"]

  /** The exit status git reports for a directory outside any repository. */
  const NotARepository := 128

  /** `returnCode` stands for `run_command_for_return_code`. Status 128 from
      `rev-parse --git-dir` gives an empty result; otherwise the describe step
      decides: a non-empty result names a describe output with the prefix, and
      its full id is the stripped rev-parse output, marked `-dirty` with the
      version. */
  function GitVersionsFromVcs(tagPrefix: string, root: string,
                              returnCode: (seq<string>, string) -> int, run: Runner): (r: Dict)
    ensures returnCode(GitDirArgs, root) == NotARepository ==> r == map[]
    ensures r != map[] <==>
      returnCode(GitDirArgs, root) != NotARepository
      && run(DescribeArgs, root).Some? && tagPrefix <= run(DescribeArgs, root).value
      && run(RevParseArgs, root).Some?
    ensures r != map[] ==>
      returnCode(GitDirArgs, root) != NotARepository
      && r.Keys == {"version", "full"} && r["version"].Str?
      && run(DescribeArgs, root) == Some(tagPrefix + r["version"].s)
    ensures r != map[] ==>
      run(RevParseArgs, root).Some?
      && (EndsWith(r["version"].s, DirtySuffix) ==>
            r["full"] == Str(Strip(run(RevParseArgs, root).value) + DirtySuffix))
      && (!EndsWith(r["version"].s, DirtySuffix) ==>
            r["full"] == Str(Strip(run(RevParseArgs, root).value)))
  {
    if returnCode(GitDirArgs, root) == NotARepository then map[]
    else
      var r := DescribeVersions(tagPrefix, run, root);
      if r == map[] then r else DescribeFull(tagPrefix, run, root); r
  }

  /** Inside a repository, running from the directory of a file gives the same
      dictionary as the middle generation's `versions_from_vcs` for that file. */
  lemma AgreesWithMiddle(tagPrefix: string, file: string,
                         returnCode: (seq<string>, string) -> int, run: Runner)
    requires returnCode(GitDirArgs, Dirname(file)) != NotARepository
    ensures GitVersionsFromVcs(tagPrefix, Dirname(file), returnCode, run)
         == GitMiddle.VersionsFromVcs(tagPrefix, Some(file), run)
  {
  }
}
