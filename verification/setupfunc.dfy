/** The installer of setupfunc.py: `do_setup` (configuration check, then the
    `__init__.py` snippet edit and the VCS step), `scan_setup_py` (a validator of
    `setup.py` text) and `setup_command` (the exit status from both). Writing the
    version file and the messages printed are side effects outside this model. */
module SetupFunc {
  import opened Wrappers
  import opened Text
  import opened Paths

  /** The exceptions `get_config_from_root` can raise that `do_setup` handles. */
  datatype LoadError = OSError | NoSectionError | NoOptionError

  /** The configuration as loaded: its `versionfile_source`, or the load error. */
  datatype Loaded = Loaded(versionfileSource: string) | LoadFailed(error: LoadError)

  /** The boilerplate older releases put into `__init__.py`, and that text without
      its final line end. */
  const OldSnippet := OldSnippetBody + "\n"
  const OldSnippetBody := "\nfrom ._version import get_versions\n__version__ = get_versions()['version']\ndel get_versions"

  /** `INIT_PY_SNIPPET.format(module)` */
  function InitPySnippet(moduleName: string): (snippet: string)
    ensures snippet != [] && snippet[0] == '\n'
  {
    "\nfrom . import " + moduleName + "\n__version__ = " + moduleName + ".get_versions()['version']\n"
  }

  /** `os.path.splitext(os.path.basename(versionfile_source))[0]` */
  function ModuleName(vfs: string): string {
    Stem(Basename(vfs))
  }

  /** The module name of a version file `dir/name.ext` is `name`. */
  lemma ModuleNameOfVersionFile(dir: string, name: string, ext: string)
    requires '/' !in name && '/' !in ext && '.' !in ext
    requires exists i :: 0 <= i < |name| && name[i] != '.'
    ensures ModuleName(dir + "/" + name + "." + ext) == name
  {
    var file := name + "." + ext;
    assert '/' !in file by {
      assert forall i :: 0 <= i < |file| ==> file[i] == if i < |name| then name[i] else if i == |name| then '.' else ext[i - |name| - 1];
    }
    AfterLastSlashTail(dir + "/", file);
    assert dir + "/" + name + "." + ext == (dir + "/") + file;
    StemOfExtension(name, ext);
  }

  /** `os.path.join(os.path.dirname(versionfile_source), "__init__.py")` */
  function InitPath(vfs: string): string {
    Join(Dirname(vfs), "__init__.py")
  }

  /** The three outcomes of the snippet step, with the new contents of `__init__.py`. */
  datatype InitEdit = Replaced(contents: string) | Appended(contents: string) | Unmodified

  /** The snippet decision as written: the old boilerplate, wherever it occurs, is
      replaced by the snippet; otherwise a missing snippet is appended; otherwise the
      file is left alone. */
  function SnippetEditAsWritten(current: string, snippet: string): (e: InitEdit)
    ensures e.Replaced? <==> Contains(current, OldSnippet)
    ensures e.Appended? <==> !Contains(current, OldSnippet) && !Contains(current, snippet)
    ensures e.Replaced? ==> e.contents == ReplaceAll(current, OldSnippet, snippet)
    ensures e.Appended? ==> e.contents == current + snippet
    ensures e.Unmodified? ==> Contains(current, snippet)
  {
    if Contains(current, OldSnippet) then Replaced(ReplaceAll(current, OldSnippet, snippet))
    else if !Contains(current, snippet) then Appended(current + snippet)
    else Unmodified
  }

  /** After an edit the snippet is in the file; an unmodified file already held it. */
  lemma EditLeavesSnippet(current: string, snippet: string)
    requires snippet != []
    ensures SnippetEditAsWritten(current, snippet).Unmodified? ==> Contains(current, snippet)
    ensures !SnippetEditAsWritten(current, snippet).Unmodified? ==>
      Contains(SnippetEditAsWritten(current, snippet).contents, snippet)
  {
    if Contains(current, OldSnippet) {
      ReplaceAllInserts(current, OldSnippet, snippet);
    } else if !Contains(current, snippet) {
      assert Contains(snippet, snippet);
      ContainsRight(current, snippet, snippet);
    }
  }

  /** A rerun after an edit leaves the file unmodified, provided the edited text no
      longer holds the old boilerplate. */
  lemma RerunUnmodified(current: string, snippet: string)
    requires snippet != []
    requires !SnippetEditAsWritten(current, snippet).Unmodified?
    requires !Contains(SnippetEditAsWritten(current, snippet).contents, OldSnippet)
    ensures SnippetEditAsWritten(SnippetEditAsWritten(current, snippet).contents, snippet) == Unmodified
  {
    EditLeavesSnippet(current, snippet);
  }

  /** As written, an `__init__.py` that ends with the old boilerplate minus its final
      line end (and holds neither the whole boilerplate nor the snippet) first gets
      the snippet appended; the snippet's leading line end completes the boilerplate,
      so the second run replaces it instead of leaving the file unmodified. */
  lemma UnterminatedBoilerplateEditedTwice(prefix: string, moduleName: string)
    requires var t := prefix + OldSnippetBody;
      !Contains(t, OldSnippet) && !Contains(t, InitPySnippet(moduleName))
    ensures var t := prefix + OldSnippetBody;
      SnippetEditAsWritten(t, InitPySnippet(moduleName)) == Appended(t + InitPySnippet(moduleName))
      && SnippetEditAsWritten(t + InitPySnippet(moduleName), InitPySnippet(moduleName)).Replaced?
  {
    CompletedByLeadingBreak(prefix, OldSnippetBody, InitPySnippet(moduleName));
  }

  /** A text appended after `body` that starts with a line end completes `body + "\n"`. */
  lemma CompletedByLeadingBreak(prefix: string, body: string, snippet: string)
    requires snippet != [] && snippet[0] == '\n'
    ensures Contains(prefix + body + snippet, body + "\n")
  {
    var s := prefix + body + snippet;
    assert s[|prefix|..] == body + snippet;
    assert body + "\n" <= body + snippet;
    ContainsAt(s, body + "\n", |prefix|);
  }

  /** The evidently intended decision: a file that already holds the snippet is left
      alone; otherwise the boilerplate is replaced, or else the snippet appended. */
  function SnippetEdit(current: string, snippet: string): (e: InitEdit)
    ensures e.Unmodified? <==> Contains(current, snippet)
    ensures e.Replaced? <==> !Contains(current, snippet) && Contains(current, OldSnippet)
    ensures e.Appended? ==> e.contents == current + snippet
  {
    if Contains(current, snippet) then Unmodified
    else if Contains(current, OldSnippet) then Replaced(ReplaceAll(current, OldSnippet, snippet))
    else Appended(current + snippet)
  }

  /** Both agree whenever the file holds the snippet or lacks the boilerplate. */
  lemma SnippetEditAgrees(current: string, snippet: string)
    requires Contains(current, snippet) ==> !Contains(current, OldSnippet)
    ensures SnippetEdit(current, snippet) == SnippetEditAsWritten(current, snippet)
  {
  }

  /** With the intended decision every edit leaves the snippet in the file, so a
      rerun always leaves it unmodified. */
  lemma SnippetEditIdempotent(current: string, snippet: string)
    requires snippet != []
    ensures !SnippetEdit(current, snippet).Unmodified? ==>
      Contains(SnippetEdit(current, snippet).contents, snippet)
      && SnippetEdit(SnippetEdit(current, snippet).contents, snippet) == Unmodified
  {
    if !Contains(current, snippet) {
      if Contains(current, OldSnippet) {
        ReplaceAllInserts(current, OldSnippet, snippet);
      } else {
        assert Contains(snippet, snippet);
        ContainsRight(current, snippet, snippet);
      }
    }
  }

  /** What `do_setup` did: stopped on a configuration error (having appended the
      sample configuration or not), or went on with the `ipy` it passed to the VCS
      step and the edit it made to that file. */
  datatype Setup =
    | ConfigFailed(sampleAppended: bool)
    | Installed(ipy: Option<string>, edit: Option<InitEdit>)

  /** `do_setup()`: `pathExists` stands for `os.path.exists`, and `readInit` gives the
      contents of a file, or None when reading it raises OSError. */
  function DoSetup(loaded: Loaded, pathExists: string -> bool,
                   readInit: string -> Option<string>): (s: Setup)
    ensures s.ConfigFailed? <==> loaded.LoadFailed?
    ensures s.ConfigFailed? ==> (s.sampleAppended <==> loaded.error != NoOptionError)
    ensures s.Installed? ==>
      (s.ipy.Some? <==> pathExists(InitPath(loaded.versionfileSource)))
      && (s.ipy.Some? ==>
            s.ipy.value == InitPath(loaded.versionfileSource)
            && s.edit == Some(SnippetEditAsWritten(readInit(s.ipy.value).GetOr(""),
                                                   InitPySnippet(ModuleName(loaded.versionfileSource)))))
      && (s.ipy.None? ==> s.edit.None?)
  {
    match loaded
    case LoadFailed(error) => ConfigFailed(error == OSError || error == NoSectionError)
    case Loaded(vfs) =>
      var ipy := InitPath(vfs);
      if pathExists(ipy) then
        var current := readInit(ipy).GetOr("");
        Installed(Some(ipy), Some(SnippetEditAsWritten(current, InitPySnippet(ModuleName(vfs)))))
      else Installed(None, None)
  }

  /** `do_setup()` with the evidently intended decision differs from it as written
      only on an `__init__.py` that holds both the old boilerplate and the snippet:
      elsewhere the two make the same edit. */
  lemma DoSetupCorrectedAgrees(loaded: Loaded, pathExists: string -> bool,
                               readInit: string -> Option<string>)
    requires loaded.Loaded? && pathExists(InitPath(loaded.versionfileSource))
    requires var current := readInit(InitPath(loaded.versionfileSource)).GetOr("");
      Contains(current, InitPySnippet(ModuleName(loaded.versionfileSource))) ==> !Contains(current, OldSnippet)
    ensures DoSetup(loaded, pathExists, readInit).edit
         == Some(SnippetEdit(readInit(InitPath(loaded.versionfileSource)).GetOr(""),
                             InitPySnippet(ModuleName(loaded.versionfileSource))))
  {
    SnippetEditAgrees(readInit(InitPath(loaded.versionfileSource)).GetOr(""),
                      InitPySnippet(ModuleName(loaded.versionfileSource)));
  }

  /** The status `do_setup` returns: 1 after a configuration error, else 0. */
  function SetupStatus(s: Setup): (code: int)
    ensures code == 1 <==> s.ConfigFailed?
    ensures code == 0 <==> s.Installed?
  {
    if s.ConfigFailed? then 1 else 0
  }

  const ImportMarker := "import versioneer"
  const CmdclassMarker := "versioneer.get_cmdclass()"
  const GetVersionMarker := "versioneer.get_version()"
  const VcsSetter := "versioneer.VCS"
  const VersionfileSetter := "versioneer.versionfile_source"

  /** The names `scan_setup_py` records for the three required items. */
  const Items: set<string> := {"import", "cmdclass", "get_version"}

  /** Some line holds `marker`. */
  predicate Mentions(lines: seq<string>, marker: string) {
    exists i :: 0 <= i < |lines| && Contains(lines[i], marker)
  }

  /** One more line mentions `marker` exactly when it holds it or an earlier one did. */
  lemma MentionsExtend(lines: seq<string>, line: string, marker: string)
    ensures Mentions(lines + [line], marker) <==> Mentions(lines, marker) || Contains(line, marker)
  {
    var more := lines + [line];
    assert more[|lines|] == line;
    assert forall i :: 0 <= i < |lines| ==> more[i] == lines[i];
  }

  /** All three required items appear. */
  predicate HasItems(lines: seq<string>) {
    Mentions(lines, ImportMarker) && Mentions(lines, CmdclassMarker) && Mentions(lines, GetVersionMarker)
  }

  /** A legacy setter appears. */
  predicate HasSetters(lines: seq<string>) {
    Mentions(lines, VcsSetter) || Mentions(lines, VersionfileSetter)
  }

  /** The error count: one for missing items, one for legacy setters. */
  function ScanErrors(lines: seq<string>): (errors: int)
    ensures 0 <= errors <= 2
    ensures errors == 0 <==> HasItems(lines) && !HasSetters(lines)
  {
    (if HasItems(lines) then 0 else 1) + (if HasSetters(lines) then 1 else 0)
  }

  /** A subset of a finite set is no larger. */
  lemma {:induction false} SubsetNoLarger(a: set<string>, b: set<string>)
    requires a <= b
    ensures |a| <= |b|
    decreases |b|
  {
    if a != {} {
      var x :| x in a;
      SubsetNoLarger(a - {x}, b - {x});
    }
  }

  /** A subset of the three item names has three elements exactly when it is all of
      them. */
  lemma FoundAll(found: set<string>)
    requires found <= Items
    ensures |found| == 3 <==> found == Items
  {
    assert |Items| == 3;
    if found != Items {
      var x :| x in Items && x !in found;
      assert |Items - {x}| == 2;
      SubsetNoLarger(found, Items - {x});
    }
  }

  /** `scan_setup_py()` over the lines of `setup.py`. */
  method ScanSetupPy(lines: seq<string>) returns (errors: int)
    ensures errors == ScanErrors(lines)
  {
    var found: set<string> := {};
    var setters := false;
    errors := 0;
    for i := 0 to |lines|
      invariant found <= Items
      invariant "import" in found <==> Mentions(lines[..i], ImportMarker)
      invariant "cmdclass" in found <==> Mentions(lines[..i], CmdclassMarker)
      invariant "get_version" in found <==> Mentions(lines[..i], GetVersionMarker)
      invariant setters <==> HasSetters(lines[..i])
    {
      var line := lines[i];
      assert lines[..i + 1] == lines[..i] + [line];
      MentionsExtend(lines[..i], line, ImportMarker);
      MentionsExtend(lines[..i], line, CmdclassMarker);
      MentionsExtend(lines[..i], line, GetVersionMarker);
      MentionsExtend(lines[..i], line, VcsSetter);
      MentionsExtend(lines[..i], line, VersionfileSetter);
      if Contains(line, ImportMarker) {
        found := found + {"import"};
      }
      if Contains(line, CmdclassMarker) {
        found := found + {"cmdclass"};
      }
      if Contains(line, GetVersionMarker) {
        found := found + {"get_version"};
      }
      if Contains(line, VcsSetter) {
        setters := true;
      }
      if Contains(line, VersionfileSetter) {
        setters := true;
      }
    }
    assert lines[..|lines|] == lines;
    FoundAll(found);
    if |found| != 3 {
      errors := errors + 1;
    }
    if setters {
      errors := errors + 1;
    }
  }

  /** `setup_command()`: the exit status. */
  method SetupCommand(loaded: Loaded, pathExists: string -> bool,
                      readInit: string -> Option<string>, setupLines: seq<string>)
    returns (exit: int)
    ensures exit == (if SetupStatus(DoSetup(loaded, pathExists, readInit)) + ScanErrors(setupLines) != 0
                     then 1 else 0)
  {
    var errors := SetupStatus(DoSetup(loaded, pathExists, readInit));
    var scanned := ScanSetupPy(setupLines);
    errors := errors + scanned;
    exit := if errors != 0 then 1 else 0;
  }

  /** The command succeeds exactly when the configuration loads, `setup.py` has all
      three items and no legacy setter. */
  lemma SetupSucceedsIff(loaded: Loaded, pathExists: string -> bool,
                         readInit: string -> Option<string>, setupLines: seq<string>)
    ensures SetupStatus(DoSetup(loaded, pathExists, readInit)) + ScanErrors(setupLines) == 0
        <==> loaded.Loaded? && HasItems(setupLines) && !HasSetters(setupLines)
  {
  }
}
