/** `versions_from_parentdir(parentdir_prefix, root)`: a source tarball conventionally
    unpacks into a directory named after the project and its version, so the last
    component of the root directory, minus a configured prefix, is taken as the version. */
module FromParentdir {
  import opened Wrappers
  import opened Text
  import opened Paths
  import opened Py

  /** None unless the basename of `root` starts with the prefix; otherwise the rest of
      the basename under the keys `describe`, `long` and `pep440`. */
  function VersionsFromParentdir(parentdirPrefix: string, root: string): (r: Option<Dict>)
    ensures r.None? <==> !(parentdirPrefix <= Basename(root))
    ensures r.Some? ==>
      r.value.Keys == {"describe", "long", "pep440"} && r.value["describe"].Str? &&
      parentdirPrefix + r.value["describe"].s == Basename(root) &&
      r.value["long"] == r.value["describe"] && r.value["pep440"] == r.value["describe"]
  {
    var dirname := Basename(root);
    if !(parentdirPrefix <= dirname) then None
    else
      var version := DropPrefix(dirname, parentdirPrefix);
      Some(map["describe" := Str(version), "long" := Str(version), "pep440" := Str(version)])
  }

  /** With an empty prefix every root matches and the version is its whole basename. */
  lemma EmptyPrefixWholeBasename(root: string)
    ensures VersionsFromParentdir("", root).Some?
    ensures VersionsFromParentdir("", root).value["describe"] == Str(Basename(root))
  {
  }

  /** Only the last component is inspected: the directories above it do not matter. */
  lemma OnlyBasename(parentdirPrefix: string, parent: string, name: string)
    requires '/' !in name
    ensures VersionsFromParentdir(parentdirPrefix, parent + "/" + name)
         == VersionsFromParentdir(parentdirPrefix, name)
  {
    AfterLastSlashTail(parent + "/", name);
    assert parent + "/" + name == (parent + "/") + name;
    AfterLastSlashTail([], name);
    assert [] + name == name;
  }
}
