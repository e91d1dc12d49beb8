/** `version_from_vcs` of git/from-checkout.py: from a checked-out tree, the output
    of `git describe` minus the tag prefix, or None. The file system test and the
    command runner are parameters. */
module GitFromCheckout {
  import opened Wrappers
  import opened Py
  import opened Paths
  import opened Describe

  /** The directory searched: the given source root when it is truthy, else the
      current directory. */
  function SourceRoot(sourceRoot: Option<string>, cwd: string): (root: string)
    ensures TruthyStr(sourceRoot) ==> root == sourceRoot.value
    ensures !TruthyStr(sourceRoot) ==> root == cwd
  {
    if TruthyStr(sourceRoot) then sourceRoot.value else cwd
  }

  /** No `.git` directory under the root, a describe command that fails, or an
      output without the prefix all give None; otherwise the version is the output
      with the prefix removed. */
  function VersionFromVcs(tagPrefix: string, sourceRoot: Option<string>, cwd: string,
                          isDir: string -> bool, run: Runner): (r: Option<string>)
    ensures var root := SourceRoot(sourceRoot, cwd);
      r.Some? <==> isDir(Join(root, ".git")) && run(DescribeArgs, root).Some?
                   && tagPrefix <= run(DescribeArgs, root).value
    ensures r.Some? ==> run(DescribeArgs, SourceRoot(sourceRoot, cwd)) == Some(tagPrefix + r.value)
  {
    var root := SourceRoot(sourceRoot, cwd);
    if !isDir(Join(root, ".git")) then None
    else
      match run(DescribeArgs, root)
      case None => None
      case Some(out) =>
        if !(tagPrefix <= out) then None
        else
          assert tagPrefix + out[|tagPrefix|..] == out;
          Some(out[|tagPrefix|..])
  }

  /** Without a `.git` directory no command is consulted: the result is None for
      every runner. */
  lemma NoRepositoryIgnoresRunner(tagPrefix: string, sourceRoot: Option<string>, cwd: string,
                                  isDir: string -> bool, run1: Runner, run2: Runner)
    requires !isDir(Join(SourceRoot(sourceRoot, cwd), ".git"))
    ensures VersionFromVcs(tagPrefix, sourceRoot, cwd, isDir, run1) == None
    ensures VersionFromVcs(tagPrefix, sourceRoot, cwd, isDir, run2) == None
  {
  }

  /** An empty source root is treated like a missing one. */
  lemma EmptyRootIsCwd(tagPrefix: string, cwd: string, isDir: string -> bool, run: Runner)
    ensures VersionFromVcs(tagPrefix, Some(""), cwd, isDir, run)
         == VersionFromVcs(tagPrefix, None, cwd, isDir, run)
  {
  }
}
