/** The `git describe` step shared by `versions_from_vcs` in git/middle.py and
    `git_versions_from_vcs` in git/from_vcs.py: the describe output minus the tag
    prefix is the version, and the stripped `rev-parse HEAD` output is the full
    revision id, marked `-dirty` when the version is. */
module Describe {
  import opened Wrappers
  import opened Text
  import opened Py

  const DescribeArgs: seq<string> := ["git", "describe", "--tags", "--dirty", "--always"]
  const RevParseArgs: seq<string> := ["git", "rev-parse", "HEAD"]
  const DirtySuffix := "-dirty"

  /** The version dictionary from the two commands run in `cwd`: empty when either
      fails or the describe output does not start with the prefix; otherwise exactly
      the keys version and full, where the prefix followed by the version is the
      describe output. */
  function DescribeVersions(tagPrefix: string, run: Runner, cwd: string): (r: Dict)
    ensures r != map[] <==>
      run(DescribeArgs, cwd).Some? && tagPrefix <= run(DescribeArgs, cwd).value
      && run(RevParseArgs, cwd).Some?
    ensures r != map[] ==>
      r.Keys == {"version", "full"} && r["version"].Str?
      && run(DescribeArgs, cwd) == Some(tagPrefix + r["version"].s)
  {
    match run(DescribeArgs, cwd)
    case None => map[]
    case Some(out) =>
      if !(tagPrefix <= out) then map[]
      else
        var tag := out[|tagPrefix|..];
        assert tagPrefix + tag == out;
        match run(RevParseArgs, cwd)
        case None => map[]
        case Some(rev) =>
          var full := Strip(rev) + (if EndsWith(tag, DirtySuffix) then DirtySuffix else "");
          var r := map["version" := Str(tag), "full" := Str(full)];
          assert "version" in r;
          r
  }

  /** Each failure gives the empty dictionary: describe fails, its output lacks the
      prefix, or rev-parse fails. */
  lemma DescribeFailures(tagPrefix: string, run: Runner, cwd: string)
    ensures run(DescribeArgs, cwd).None? ==> DescribeVersions(tagPrefix, run, cwd) == map[]
    ensures run(DescribeArgs, cwd).Some? && !(tagPrefix <= run(DescribeArgs, cwd).value) ==>
      DescribeVersions(tagPrefix, run, cwd) == map[]
    ensures run(RevParseArgs, cwd).None? ==> DescribeVersions(tagPrefix, run, cwd) == map[]
  {
  }

  /** On success the full id is the stripped rev-parse output, followed by
      `-dirty` exactly when the version ends with `-dirty`; the version is the
      describe output minus the prefix. */
  lemma DescribeFull(tagPrefix: string, run: Runner, cwd: string)
    requires DescribeVersions(tagPrefix, run, cwd) != map[]
    ensures run(DescribeArgs, cwd).Some? && run(RevParseArgs, cwd).Some?
    ensures var r := DescribeVersions(tagPrefix, run, cwd);
      var rev := Strip(run(RevParseArgs, cwd).value);
      r["version"] == Str(run(DescribeArgs, cwd).value[|tagPrefix|..])
      && (EndsWith(r["version"].s, DirtySuffix) ==> r["full"] == Str(rev + DirtySuffix))
      && (!EndsWith(r["version"].s, DirtySuffix) ==> r["full"] == Str(rev))
  {
  }
}
