/** `do_vcs_install(versionfile_source, ipy)` of git/install.py: `.gitattributes` must
    mark the version file `export-subst` so that `git archive` expands its keywords;
    the line is appended unless some line already marks it. The `git add` calls are
    side effects outside this model. */
module GitInstall {
  import opened Wrappers
  import opened Text

  const ExportSubst := "export-subst"

  /** The lines `readlines()` gives, without their line ends (which `strip()` drops). */
  function Lines(text: string): seq<string> {
    Split(text, '\n')
  }

  /** One line marks the file: its stripped text starts with `versionfile_source` and
      `export-subst` is one of its whitespace-separated tokens after the first. */
  predicate Marks(line: string, vfs: string) {
    var t := Strip(line);
    var tokens := SplitWs(t);
    vfs <= t && |tokens| > 1 && ExportSubst in tokens[1..]
  }

  /** Some line of `lines` marks the file. */
  predicate Marked(lines: seq<string>, vfs: string) {
    exists i :: 0 <= i < |lines| && Marks(lines[i], vfs)
  }

  /** One more line: marked exactly when it marks the file or an earlier one did. */
  lemma MarkedExtend(lines: seq<string>, line: string, vfs: string)
    ensures Marked(lines + [line], vfs) <==> Marked(lines, vfs) || Marks(line, vfs)
  {
    var more := lines + [line];
    assert more[|lines|] == line;
    assert forall i :: 0 <= i < |lines| ==> more[i] == lines[i];
  }

  /** The flag the scan computes; a missing `.gitattributes` (None) has no marking line. */
  predicate Present(attributes: Option<string>, vfs: string) {
    attributes.Some? && Marked(Lines(attributes.value), vfs)
  }

  /** The scan loop over the lines of `.gitattributes`. */
  method ScanAttributes(attributes: Option<string>, vfs: string) returns (present: bool)
    ensures present <==> Present(attributes, vfs)
  {
    present := false;
    if attributes.None? {
      return;
    }
    var lines := Lines(attributes.value);
    for i := 0 to |lines|
      invariant present <==> Marked(lines[..i], vfs)
    {
      assert lines[..i + 1] == lines[..i] + [lines[i]];
      MarkedExtend(lines[..i], lines[i], vfs);
      if Marks(lines[i], vfs) {
        present := true;
      }
    }
    assert lines[..|lines|] == lines;
  }

  /** The line appended for the version file. */
  function Entry(vfs: string): string {
    vfs + " " + ExportSubst + "\n"
  }

  /** The contents of `.gitattributes` after the step, as written: unchanged when
      present, otherwise the old contents (empty when missing) with the entry added. */
  function AfterInstall(attributes: Option<string>, vfs: string): string {
    if Present(attributes, vfs) then attributes.value else attributes.GetOr("") + Entry(vfs)
  }

  /** `do_vcs_install`: scan, then append when not present. The result is the new
      contents of `.gitattributes`. */
  method DoVcsInstall(attributes: Option<string>, vfs: string) returns (after: string)
    ensures after == AfterInstall(attributes, vfs)
  {
    var present := ScanAttributes(attributes, vfs);
    if present {
      after := attributes.value;
    } else {
      after := attributes.GetOr("") + Entry(vfs);
    }
  }

  /** The step only ever appends, and appends exactly one entry line or nothing. */
  lemma InstallAppendsOnly(attributes: Option<string>, vfs: string)
    ensures attributes.GetOr("") <= AfterInstall(attributes, vfs)
    ensures AfterInstall(attributes, vfs) == attributes.GetOr("")
         || AfterInstall(attributes, vfs) == attributes.GetOr("") + Entry(vfs)
    ensures Present(attributes, vfs) <==> AfterInstall(attributes, vfs) == attributes.GetOr("")
  {
  }

  lemma ExportSubstIsWord()
    ensures IsWord(ExportSubst)
  {
    forall i | 0 <= i < |ExportSubst|
      ensures !IsSpace(ExportSubst[i])
    {
    }
  }

  /** The tokens of an entry line: the path and `export-subst`. */
  lemma EntryTokens(path: string)
    requires IsWord(path)
    ensures SplitWs(path + " " + ExportSubst) == [path, ExportSubst]
  {
    ExportSubstIsWord();
    SplitWsFirst(path, ExportSubst);
    SplitWsLeadingSpace(ExportSubst);
    SplitWsWord(ExportSubst);
  }

  /** The test is a prefix test: a line for any path that starts with
      `versionfile_source` marks it. */
  lemma MarksPrefixedPath(path: string, vfs: string)
    requires IsWord(path) && vfs <= path
    ensures Marks(path + " " + ExportSubst, vfs)
  {
    var line := path + " " + ExportSubst;
    assert Strip(line) == line by {
      StripUnchanged(line);
    }
    EntryTokens(path);
    var tokens := SplitWs(Strip(line));
    assert tokens[1..] == [ExportSubst];
    assert vfs <= Strip(line);
  }

  /** Text without whitespace has no line end. */
  lemma WordHasNoBreak(w: string)
    requires NoSpace(w)
    ensures '\n' !in w
  {
    assert IsSpace('\n');
  }

  /** As written, the entry is glued to a last line that has no line end. When
      `.gitattributes` holds a single word `x` with no line end (say "x") and the
      version file `vfs` (say "v") starts with another character, the first run
      writes `x` followed directly by the entry, the glued line does not start with
      `vfs`, and the second run appends the entry again. That entry starts a line
      of its own, so the third run changes nothing. */
  lemma SecondRunAppendsAgain(x: string, vfs: string)
    requires IsWord(x) && IsWord(vfs) && x[0] != vfs[0]
    ensures AfterInstall(Some(x), vfs) == x + Entry(vfs)
    ensures !Present(Some(x + Entry(vfs)), vfs)
    ensures AfterInstall(Some(AfterInstall(Some(x), vfs)), vfs) == x + Entry(vfs) + Entry(vfs)
    ensures AfterInstall(Some(x + Entry(vfs) + Entry(vfs)), vfs) == x + Entry(vfs) + Entry(vfs)
  {
    FirstRunOnWord(x, vfs);
    GluedLineDoesNotMark(x, vfs);
    EntryAfterBreakMarks(x + Entry(vfs), vfs);
  }

  /** After text that is empty or ends with a line end, an appended entry marks
      the file. */
  lemma EntryAfterBreakMarks(text: string, vfs: string)
    requires IsWord(vfs) && (text == [] || text[|text| - 1] == '\n')
    ensures Present(Some(text + Entry(vfs)), vfs)
  {
    var e := vfs + " " + ExportSubst;
    assert '\n' !in e by {
      assert IsSpace('\n');
      assert forall i :: 0 <= i < |vfs| ==> e[i] == vfs[i];
    }
    var k := AppendedLine(text, e);
    assert text + Entry(vfs) == text + e + "\n";
    MarksPrefixedPath(vfs, vfs);
    assert Marks(Lines(text + Entry(vfs))[k], vfs);
  }

  lemma FirstRunOnWord(x: string, vfs: string)
    requires IsWord(x) && IsWord(vfs) && x[0] != vfs[0]
    ensures !Present(Some(x), vfs)
  {
    assert Lines(x) == [x] by {
      WordHasNoBreak(x);
      SplitNone(x, '\n');
    }
    assert Strip(x) == x by {
      StripUnchanged(x);
    }
    assert !(vfs <= x);
  }

  lemma GluedLineDoesNotMark(x: string, vfs: string)
    requires IsWord(x) && IsWord(vfs) && x[0] != vfs[0]
    ensures !Present(Some(x + Entry(vfs)), vfs)
  {
    var glued := x + vfs;
    var line := glued + " " + ExportSubst;
    assert x + Entry(vfs) == line + ['\n'] + "";
    assert '\n' !in line by {
      assert NoSpace(glued);
      WordHasNoBreak(glued);
      ExportSubstIsWord();
      WordHasNoBreak(ExportSubst);
    }
    assert Lines(x + Entry(vfs)) == [line, ""] by {
      SplitFirst(line, "", '\n');
    }
    assert Strip(line) == line by {
      ExportSubstIsWord();
      StripUnchanged(line);
    }
    assert !(vfs <= line) by {
      assert line[0] == x[0];
    }
    assert !Marks(line, vfs);
    assert !Marks("", vfs);
  }

  /** The old contents with a line end added when they stop in mid-line. */
  function Terminated(text: string): (t: string)
    ensures text <= t
    ensures t == [] || t[|t| - 1] == '\n'
  {
    if text == [] || text[|text| - 1] == '\n' then text else text + "\n"
  }

  /** The evidently intended step: the entry always starts a line of its own. */
  function AfterInstallSeparated(attributes: Option<string>, vfs: string): string {
    if Present(attributes, vfs) then attributes.value
    else Terminated(attributes.GetOr("")) + Entry(vfs)
  }

  /** When the old contents are missing, empty, or end with a line end, the step as
      written is the intended one. */
  lemma AsWrittenWhenTerminated(attributes: Option<string>, vfs: string)
    requires attributes.None? || attributes.value == []
             || attributes.value[|attributes.value| - 1] == '\n'
    ensures AfterInstall(attributes, vfs) == AfterInstallSeparated(attributes, vfs)
  {
  }

  /** A line appended after text that is empty or ends with a line end is one of
      the lines of the result. */
  lemma AppendedLine(text: string, line: string) returns (k: nat)
    requires '\n' !in line
    requires text == [] || text[|text| - 1] == '\n'
    ensures k < |Lines(text + line + "\n")| && Lines(text + line + "\n")[k] == line
  {
    SplitNone(line, '\n');
    if text == [] {
      assert text + line + "\n" == line + ['\n'] + "";
      SplitAppend(line, "", '\n');
      k := 0;
    } else {
      var t0 := text[..|text| - 1];
      assert text + line + "\n" == t0 + ['\n'] + (line + ['\n'] + "");
      SplitAppend(t0, line + ['\n'] + "", '\n');
      SplitAppend(line, "", '\n');
      k := |Split(t0, '\n')|;
    }
  }

  /** For a non-empty `versionfile_source` without whitespace, the intended step
      leaves the entry present, so a second run changes nothing. */
  lemma InstallIdempotent(attributes: Option<string>, vfs: string)
    requires IsWord(vfs)
    ensures Present(Some(AfterInstallSeparated(attributes, vfs)), vfs)
    ensures AfterInstallSeparated(Some(AfterInstallSeparated(attributes, vfs)), vfs)
         == AfterInstallSeparated(attributes, vfs)
  {
    if !Present(attributes, vfs) {
      EntryAfterBreakMarks(Terminated(attributes.GetOr("")), vfs);
    }
  }
}
