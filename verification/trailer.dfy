/** The version lookup of trailer.py, the end of the generated `versioneer.py`: a
    version string is taken from the first of `git describe`, the `__version__`
    line of the version file, the parent directory name and a default that is not
    None; and `update_files` adds the `__version__` import to `__init__.py` once. */
module Trailer {
  import opened Wrappers
  import opened Text
  import opened Paths
  import opened Py

  /** What `re.match("__version__ = '([^']+)'", line)` must see at the start of a line. */
  const VersionAssign := "__version__ = '"

  /** The group captured from one line: the non-empty run of non-quote characters
      between `__version__ = '` at the start of the line and the next quote. */
  function LineVersion(line: string): (r: Option<string>)
    ensures r.Some? ==> r.value != [] && '\'' !in r.value && VersionAssign + r.value + "'" <= line
  {
    if !(VersionAssign <= line) then None
    else
      var rest := DropPrefix(line, VersionAssign);
      match IndexOfChar(rest, '\'')
      case None => None
      case Some(k) =>
        if k == 0 then None
        else
          assert rest[..k] + "'" == rest[..k + 1];
          Some(rest[..k])
  }

  /** Every line of that form is matched, and its capture is the version. */
  lemma LineVersionOfAssignment(line: string, v: string)
    requires v != [] && '\'' !in v && VersionAssign + v + "'" <= line
    ensures LineVersion(line) == Some(v)
  {
    var rest := DropPrefix(line, VersionAssign);
    assert v + "'" <= rest;
    assert rest[|v|] == '\'' && rest[..|v|] == v;
  }

  /** The capture of the first line that matches, or None when none does. */
  function FirstVersion(lines: seq<string>): (r: Option<string>)
    ensures r.None? <==> forall i :: 0 <= i < |lines| ==> LineVersion(lines[i]).None?
    ensures r.Some? ==> exists i :: 0 <= i < |lines| && LineVersion(lines[i]) == r
                          && forall j :: 0 <= j < i ==> LineVersion(lines[j]).None?
  {
    if lines == [] then None
    else if LineVersion(lines[0]).Some? then LineVersion(lines[0])
    else
      var r := FirstVersion(lines[1..]);
      assert forall i :: 1 <= i < |lines| ==> lines[i] == lines[1..][i - 1];
      assert r.Some? ==> exists i :: 1 <= i < |lines| && LineVersion(lines[i]) == r
                          && forall j :: 0 <= j < i ==> LineVersion(lines[j]).None?;
      r
  }

  /** `version_from_file(filename)`: `file` is the list of lines, or None when the
      file cannot be opened. */
  method VersionFromFile(file: Option<seq<string>>) returns (ver: Option<string>)
    ensures file.None? ==> ver.None?
    ensures file.Some? ==> ver == FirstVersion(file.value)
  {
    if file.None? {
      return None;
    }
    var lines := file.value;
    for i := 0 to |lines|
      invariant FirstVersion(lines[i..]) == FirstVersion(lines)
    {
      assert lines[i..][1..] == lines[i + 1..];
      var mo := LineVersion(lines[i]);
      if mo.Some? {
        return mo;
      }
    }
    assert lines[|lines|..] == [];
    return None;
  }

  /** The file result as the chain sees it. */
  function FileVersion(file: Option<seq<string>>): Option<string> {
    if file.None? then None else FirstVersion(file.value)
  }

  /** The script path: `__file__`, or `argv[0]` when it is not defined. */
  function Me(file: Option<string>, argv0: string): string {
    if file.Some? then file.value else argv0
  }

  /** `version_from_parentdir(tag_prefix, parentdir_prefix)`: the name of the
      directory holding the script, minus the prefix; None when it lacks the prefix.
      The tag prefix is accepted but never read, so it is not a parameter here. */
  function VersionFromParentdir(parentdirPrefix: string, file: Option<string>, argv0: string)
    : (r: Option<string>)
    ensures var dirname := Basename(Dirname(Me(file, argv0)));
      (r.None? <==> !(parentdirPrefix <= dirname))
      && (r.Some? ==> parentdirPrefix + r.value == dirname)
  {
    var dirname := Basename(Dirname(Me(file, argv0)));
    if !(parentdirPrefix <= dirname) then None
    else Some(DropPrefix(dirname, parentdirPrefix))
  }

  /** A script at `top/name` is judged by the name of `top`. */
  lemma ScriptInTop(parentdirPrefix: string, top: string, name: string, argv0: string)
    requires IsDirForm(top) && name != [] && '/' !in name
    ensures VersionFromParentdir(parentdirPrefix, Some(Join(top, name)), argv0)
         == (if parentdirPrefix <= Basename(top) then Some(DropPrefix(Basename(top), parentdirPrefix))
             else None)
  {
    DirnameOfJoin(top, name);
  }

  const NoVersionMessage := "Unable to compute version at all"

  /** The position of the first present value, or the length when there is none. */
  function FirstPresent(options: seq<Option<string>>): (i: nat)
    ensures i <= |options|
    ensures forall j :: 0 <= j < i ==> options[j].None?
    ensures i < |options| ==> options[i].Some?
  {
    if options == [] then 0
    else if options[0].Some? then 0
    else 1 + FirstPresent(options[1..])
  }

  /** `get_best_version(...)`: `vcsVersion` is what `version_from_vcs` returned. The
      first result that is not None wins; when all are None, NoVersionError. */
  function GetBestVersion(vcsVersion: Option<string>, versionfile: Option<seq<string>>,
                          parentdirPrefix: string, file: Option<string>, argv0: string,
                          default: Option<string>): (r: Outcome<string>)
    ensures r.Raise? ==> r.exc == NoVersionError(NoVersionMessage)
  {
    if vcsVersion.Some? then Ok(vcsVersion.value)
    else
      var fromFile := FileVersion(versionfile);
      if fromFile.Some? then Ok(fromFile.value)
      else
        var fromParent := VersionFromParentdir(parentdirPrefix, file, argv0);
        if fromParent.Some? then Ok(fromParent.value)
        else if default.Some? then Ok(default.value)
        else Raise(NoVersionError(NoVersionMessage))
  }

  /** The chain returns the first present value in the order VCS, file, parent
      directory, default, and raises exactly when all four are None. */
  lemma BestIsFirstPresent(vcsVersion: Option<string>, versionfile: Option<seq<string>>,
                           parentdirPrefix: string, file: Option<string>, argv0: string,
                           default: Option<string>)
    ensures var options := [vcsVersion, FileVersion(versionfile),
                            VersionFromParentdir(parentdirPrefix, file, argv0), default];
      var i := FirstPresent(options);
      GetBestVersion(vcsVersion, versionfile, parentdirPrefix, file, argv0, default)
        == if i < 4 then Ok(options[i].value) else Raise(NoVersionError(NoVersionMessage))
  {
    var options := [vcsVersion, FileVersion(versionfile),
                    VersionFromParentdir(parentdirPrefix, file, argv0), default];
    assert options[1..] == [options[1], options[2], options[3]];
    assert options[1..][1..] == [options[2], options[3]];
    assert options[1..][1..][1..] == [options[3]];
    assert options[1..][1..][1..][1..] == [];
  }

  /** Presence, not truthiness, decides: an empty version from the VCS is returned. */
  lemma EmptyVcsVersionWins(versionfile: Option<seq<string>>, parentdirPrefix: string,
                            file: Option<string>, argv0: string, default: Option<string>)
    ensures GetBestVersion(Some(""), versionfile, parentdirPrefix, file, argv0, default) == Ok("")
  {
  }

  const VersionfileSourceUnset := "please set versioneer.versionfile_source"
  const TagPrefixUnset := "please set versioneer.tag_prefix"
  const ParentdirPrefixUnset := "please set versioneer.parentdir_prefix"

  /** `get_version()`: the three module settings must be set; then the chain runs with
      no default. `vcs` gives the `version_from_vcs` result for a tag prefix, and
      `readLines` the lines of a file, or None when it cannot be opened. */
  function GetVersion(versionfileSource: Option<string>, tagPrefix: Option<string>,
                      parentdirPrefix: Option<string>, vcs: string -> Option<string>,
                      readLines: string -> Option<seq<string>>, file: Option<string>,
                      argv0: string): (r: Outcome<string>)
    ensures versionfileSource.None? ==> r == Raise(AssertionError(VersionfileSourceUnset))
    ensures versionfileSource.Some? && tagPrefix.None? ==> r == Raise(AssertionError(TagPrefixUnset))
    ensures versionfileSource.Some? && tagPrefix.Some? && parentdirPrefix.None? ==>
      r == Raise(AssertionError(ParentdirPrefixUnset))
    ensures r.Raise? && r.exc.NoVersionError? ==>
      versionfileSource.Some? && tagPrefix.Some? && parentdirPrefix.Some?
      && vcs(tagPrefix.value).None? && FileVersion(readLines(versionfileSource.value)).None?
    ensures versionfileSource.Some? && tagPrefix.Some? && parentdirPrefix.Some? ==>
      r == GetBestVersion(vcs(tagPrefix.value), readLines(versionfileSource.value),
                          parentdirPrefix.value, file, argv0, None)
    ensures versionfileSource.Some? && tagPrefix.Some? && parentdirPrefix.Some? ==>
      var options := [vcs(tagPrefix.value), FileVersion(readLines(versionfileSource.value)),
                      VersionFromParentdir(parentdirPrefix.value, file, argv0), None];
      var i := FirstPresent(options);
      r == if i < 4 then Ok(options[i].value) else Raise(NoVersionError(NoVersionMessage))
  {
    if versionfileSource.None? then Raise(AssertionError(VersionfileSourceUnset))
    else if tagPrefix.None? then Raise(AssertionError(TagPrefixUnset))
    else if parentdirPrefix.None? then Raise(AssertionError(ParentdirPrefixUnset))
    else
      BestIsFirstPresent(vcs(tagPrefix.value), readLines(versionfileSource.value),
                         parentdirPrefix.value, file, argv0, None);
      GetBestVersion(vcs(tagPrefix.value), readLines(versionfileSource.value),
                     parentdirPrefix.value, file, argv0, None)
  }

  /** The text `update_files` adds to `__init__.py`. */
  const InitPySnippet := "\nfrom ._version import __version__\n__version__ # hush pyflakes\n\n"

  /** The outcome for `__init__.py`: the new contents after an append, or unmodified. */
  datatype InitEdit = Appended(contents: string) | Unmodified

  /** The snippet check of `cmd_update_files.run`: `current` is what the file holds, or
      None when the file cannot be read (then it counts as empty). */
  function UpdateInit(current: Option<string>): (e: InitEdit)
    ensures e.Unmodified? <==> Contains(current.GetOr(""), InitPySnippet)
    ensures e.Appended? ==> e.contents == current.GetOr("") + InitPySnippet
  {
    var text := current.GetOr("");
    if !Contains(text, InitPySnippet) then Appended(text + InitPySnippet) else Unmodified
  }

  /** The contents of `__init__.py` after the step. */
  function AfterUpdate(current: Option<string>): string {
    match UpdateInit(current)
    case Appended(contents) => contents
    case Unmodified => current.GetOr("")
  }

  /** The step only appends, always leaves the snippet in the file, and a second run
      reports the file unmodified. */
  lemma UpdateInitIdempotent(current: Option<string>)
    ensures current.GetOr("") <= AfterUpdate(current)
    ensures Contains(AfterUpdate(current), InitPySnippet)
    ensures UpdateInit(Some(AfterUpdate(current))) == Unmodified
  {
    var text := current.GetOr("");
    if !Contains(text, InitPySnippet) {
      assert Contains(InitPySnippet, InitPySnippet);
      ContainsRight(text, InitPySnippet, InitPySnippet);
    }
  }
}
