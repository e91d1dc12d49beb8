/** `version_from_expanded_variable` of git/from-variable.py: the version named by
    an expanded `git_refnames` string, or, when it is unexpanded, the version from
    the checkout. */
module GitFromVariable {
  import opened Wrappers
  import opened Text
  import opened StrOrder
  import opened Py
  import opened Refs
  import GitFromCheckout

  const Unknown := "unknown"

  /** An unexpanded string (one that contains `$Format` anywhere) defers to the
      checkout, run from the current directory; otherwise the greatest ref other
      than HEAD and master with the prefix names the version, and "unknown" stands
      for no such ref. */
  function VersionFromExpandedVariable(s: string, tagPrefix: string, cwd: string,
                                       isDir: string -> bool, run: Runner): (r: Option<string>)
    ensures Contains(Strip(s), "$Format") ==>
      r == GitFromCheckout.VersionFromVcs(tagPrefix, None, cwd, isDir, run)
    ensures !Contains(Strip(s), "$Format") ==> r.Some?
  {
    var t := Strip(s);
    if Contains(t, "$Format") then GitFromCheckout.VersionFromVcs(tagPrefix, None, cwd, isDir, run)
    else Some(GreatestTag(DropBranches(RefList(t)), tagPrefix).GetOr(Unknown))
  }

  /** For an expanded string: the result is the greatest ref other than HEAD and
      master that has the prefix, minus the prefix; when no such ref exists it is
      "unknown". */
  lemma ExpandedVariableVersion(s: string, tagPrefix: string, cwd: string,
                                isDir: string -> bool, run: Runner)
    requires !Contains(Strip(s), "$Format")
    ensures var refs := RefList(Strip(s));
      var v := VersionFromExpandedVariable(s, tagPrefix, cwd, isDir, run).value;
      var tagged := exists c :: c in refs && c != "HEAD" && c != "master" && tagPrefix <= c;
      (!tagged ==> v == Unknown)
      && (tagged ==>
        var m := tagPrefix + v;
        m in refs && m != "HEAD" && m != "master"
        && forall c :: c in refs && c != "HEAD" && c != "master" && tagPrefix <= c ==> c == m || Less(c, m))
  {
    var refs := RefList(Strip(s));
    var kept := DropBranches(refs);
    GreatestTagIsGreatest(kept, tagPrefix);
    assert (exists c :: c in refs && c != "HEAD" && c != "master" && tagPrefix <= c)
      <==> (exists c :: c in kept && tagPrefix <= c);
  }
}
