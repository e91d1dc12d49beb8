/** The middle generation of the git support (git/middle.py): reading the expanded
    variables from the version file, choosing the greatest matching ref, and asking
    `git describe` from the directory that holds this file. */
module GitMiddle {
  import opened Wrappers
  import opened Text
  import opened StrOrder
  import opened Py
  import opened KeywordScan
  import opened Refs
  import opened Paths
  import opened Describe

  const VariableTable: seq<Assignment> := [
    Assignment("git_refnames =", "refnames"),
    Assignment("git_full =", "full")
  ]

  /** Reads the variables from the lines of the version file; `None` stands for a
      file that could not be opened. */
  method GetExpandedVariables(file: Option<seq<string>>) returns (variables: map<string, string>)
    ensures file.None? ==> variables == map[]
    ensures file.Some? ==> variables == Scan(file.value, VariableTable)
  {
    variables := map[];
    if file.Some? {
      variables := ScanLines(file.value, VariableTable);
    }
  }

  /** The variable reader sets no key beyond the two it looks for. */
  lemma VariableKeys(lines: seq<string>, k: string)
    requires k in Scan(lines, VariableTable)
    ensures k == "refnames" || k == "full"
  {
    ScanKeys(lines, VariableTable, k);
  }

  /** `versions_from_expanded_variables(variables, tag_prefix)`: unexpanded refnames
      give an empty result, and otherwise the greatest ref with the prefix, other
      than HEAD and master, gives the version. */
  function VersionsFromExpandedVariables(variables: map<string, string>, tagPrefix: string): (r: Outcome<Dict>)
    ensures "refnames" !in variables ==> r == Raise(KeyError("refnames"))
    ensures r.Raise? ==> r.exc.KeyError?
  {
    if "refnames" !in variables then Raise(KeyError("refnames"))
    else
      var refnames := Strip(variables["refnames"]);
      if "$Format" <= refnames then Ok(map[])
      else
        match GreatestTag(DropBranches(RefList(refnames)), tagPrefix)
        case None => Ok(map[])
        case Some(version) =>
          if "full" !in variables then Raise(KeyError("full"))
          else Ok(map["version" := Str(version), "full" := Str(Strip(variables["full"]))])
  }

  /** Unexpanded refnames give an empty result. */
  lemma VariablesUnexpanded(variables: map<string, string>, tagPrefix: string)
    requires "refnames" in variables && "$Format" <= Strip(variables["refnames"])
    ensures VersionsFromExpandedVariables(variables, tagPrefix) == Ok(map[])
  {
  }

  /** With expanded refnames the result is empty exactly when no ref other than
      HEAD and master has the prefix (and then the full variable is never read). */
  lemma VariablesNoTag(variables: map<string, string>, tagPrefix: string)
    requires "refnames" in variables && !("$Format" <= Strip(variables["refnames"]))
    ensures var refs := RefList(Strip(variables["refnames"]));
      (forall c :: c in refs && c != "HEAD" && c != "master" ==> !(tagPrefix <= c))
      <==> VersionsFromExpandedVariables(variables, tagPrefix) == Ok(map[])
  {
    var refs := RefList(Strip(variables["refnames"]));
    var kept := DropBranches(refs);
    GreatestTagIsGreatest(kept, tagPrefix);
    assert (forall c :: c in refs && c != "HEAD" && c != "master" ==> !(tagPrefix <= c))
      <==> (forall c :: c in kept ==> !(tagPrefix <= c));
    var r := VersionsFromExpandedVariables(variables, tagPrefix);
    if GreatestTag(kept, tagPrefix).Some? {
      assert r.Raise? || "version" in r.value;
    }
  }

  /** When a version is chosen, it is the greatest ref other than HEAD and master
      that has the prefix, with the prefix removed, and full is the stripped full
      variable. */
  lemma VariablesTag(variables: map<string, string>, tagPrefix: string)
    requires "refnames" in variables && !("$Format" <= Strip(variables["refnames"]))
    requires VersionsFromExpandedVariables(variables, tagPrefix).Ok?
    requires VersionsFromExpandedVariables(variables, tagPrefix).value != map[]
    ensures var refs := RefList(Strip(variables["refnames"]));
      var d := VersionsFromExpandedVariables(variables, tagPrefix).value;
      "full" in variables && d.Keys == {"version", "full"} && d["version"].Str?
      && d["full"] == Str(Strip(variables["full"]))
      && var m := tagPrefix + d["version"].s;
      m in refs && m != "HEAD" && m != "master"
      && forall c :: c in refs && c != "HEAD" && c != "master" && tagPrefix <= c ==> c == m || Less(c, m)
  {
    var kept := DropBranches(RefList(Strip(variables["refnames"])));
    GreatestTagIsGreatest(kept, tagPrefix);
  }

  /** With expanded refnames and a chosen ref `tagPrefix + v` (the greatest ref other
      than HEAD and master that has the prefix), the result is that version with the
      stripped full variable, or KeyError('full') when the full variable is missing. */
  lemma VariablesTagged(variables: map<string, string>, tagPrefix: string, v: string)
    requires "refnames" in variables && !("$Format" <= Strip(variables["refnames"]))
    requires GreatestTag(DropBranches(RefList(Strip(variables["refnames"]))), tagPrefix) == Some(v)
    ensures VersionsFromExpandedVariables(variables, tagPrefix) ==
      if "full" in variables then Ok(map["version" := Str(v), "full" := Str(Strip(variables["full"]))])
      else Raise(KeyError("full"))
    ensures var refs := RefList(Strip(variables["refnames"]));
      var m := tagPrefix + v;
      m in refs && m != "HEAD" && m != "master"
      && forall c :: c in refs && c != "HEAD" && c != "master" && tagPrefix <= c ==> c == m || Less(c, m)
  {
    GreatestTagIsGreatest(DropBranches(RefList(Strip(variables["refnames"]))), tagPrefix);
  }

  /** HEAD and master are never selected. */
  lemma BranchesNeverSelected(variables: map<string, string>, tagPrefix: string)
    requires VersionsFromExpandedVariables(variables, tagPrefix).Ok?
    requires VersionsFromExpandedVariables(variables, tagPrefix).value != map[]
    ensures var v := VersionsFromExpandedVariables(variables, tagPrefix).value["version"];
      v.Str? && tagPrefix + v.s != "HEAD" && tagPrefix + v.s != "master"
  {
    var d := VersionsFromExpandedVariables(variables, tagPrefix).value;
    assert "refnames" in variables && !("$Format" <= Strip(variables["refnames"]));
    VariablesTag(variables, tagPrefix);
  }

  /** `versions_from_vcs(tag_prefix)`: git runs in the directory of this file; no
      `__file__` gives an empty result. The path is taken as already absolute. */
  function VersionsFromVcs(tagPrefix: string, file: Option<string>, run: Runner): (r: Dict)
    ensures file.None? ==> r == map[]
    ensures file.Some? ==> r == DescribeVersions(tagPrefix, run, Dirname(file.value))
  {
    match file
    case None => map[]
    case Some(f) => DescribeVersions(tagPrefix, run, Dirname(f))
  }
}
