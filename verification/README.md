# Versioneer core in Dafny

This project models the version-computing core of python-versioneer: the logic
that derives a project's version string from several places. The sources are:

- the output of `git`, `hg` and `svn` commands;
- the keywords `git archive` substitutes into `_version.py`;
- a version line written into `_version.py`;
- a parent directory named like `proj-1.2`;
- an environment override and a configured fallback.

It also models the install-time edits of `.gitattributes` and `__init__.py`, and the
`setup.py` validator.

Every effect on the outside world is a parameter of the model:

- A command runner is a function from arguments and working directory to
  `Option<string>`. The `hg` runner returns the output and the return code.
- `os.path.isdir`/`os.path.exists` are predicates on paths.
- File contents are `Option<string>` or `Option<seq<string>>` (None: could not be opened).
- Environment variables and `__file__` are `Option<string>`.
- The other version sources of `get_versions` are the functions of a `Backends` record.

Python dictionaries are `map<string, Value>`. An escaping exception is the `Raise` arm of
`Outcome`. A dictionary that the source updates in place (`finalize`, `override_fallback_or_fail`)
is the `PyDict` class.

Modules, one per source file, plus shared helpers:

| module | source |
|---|---|
| `Render` | src/render.py |
| `KeywordScan`, `GitKeywords` | src/git/from_keywords.py (the line scan is shared with src/git/middle.py) |
| `Refs`, `StrOrder` | ref-name parsing and Python `str` ordering / `sorted(set(...))` |
| `GitMiddle`, `Describe` | src/git/middle.py (`Describe` is shared with src/git/from_vcs.py) |
| `GitFromVariable` | src/git/from-variable.py |
| `GitFromCheckout` | src/git/from-checkout.py |
| `GitFromVcs` | src/git/from_vcs.py |
| `HgFromVcs` | src/hg/from_vcs.py |
| `SvnFromVcs` | src/svn/from_vcs.py |
| `FromParentdir`, `Parentdir` | src/from_parentdir.py, src/parentdir.py |
| `GetVersions` | src/get_versions.py |
| `GitLongGetVersions` | src/git/long_get_versions.py |
| `Trailer` | src/trailer.py |
| `Finalize`, `Fallback` | src/finalize.py, src/fallback.py |
| `GitInstall` | src/git/install.py |
| `SetupFunc` | src/setupfunc.py |
| `Text`, `Paths`, `Py`, `Wrappers` | `str` methods, `posixpath`, Python values, Option |

## Model

| member | source | states |
|---|---|---|
| Render.RenderVersion | src/render.py:10-21 | a tagged version begins with the closest tag; an untagged one begins with `0+untagged.` |
| Render.RenderShapes | src/render.py:10-21 | tagged, distance 0 and clean gives exactly the tag; tagged with distance or dirt gives `TAG+N.gHEX`, with `.dirty` appended iff dirty; untagged (None or empty tag) gives `0+untagged.N.gHEX`, with `.dirty` appended iff dirty |
| Render.DirtyIsMarked | src/render.py:14-21 | a dirty build always ends with `.dirty` |
| Render.RenderPieces | src/render.py:23-24 | the result has exactly the keys version, full-revisionid, dirty and error; full-revisionid is the long id, dirty the dirty flag, error None |
| Render.RenderIgnoresError | src/render.py:23-24 | the pieces' own error field never changes the result |
| Render.LocalRoundTrip | src/render.py:13-15 | the local segment `N.gHEX[.dirty]` parses back to the distance, the short id and the dirty flag |
| Render.RenderRoundTrip | src/render.py:10-21 | parsing a rendered version recovers the tag (or its absence), the distance, the short id and the dirty flag; a clean build at a tag yields only its tag |
| KeywordScan.SearchFrom | src/git/from_keywords.py:18 | `re.search` finds the leftmost position where `=\s*"(.*)"` matches, or none when no position matches |
| KeywordScan.CaptureShape | src/git/from_keywords.py:18-20 | a capture is the text between two quotes on one line after the first matching `=` |
| KeywordScan.CaptureOfAssignment | src/git/from_keywords.py:18-20 | a line `name= "value"` captures exactly `value` |
| KeywordScan.StepKey | src/git/from_keywords.py:17-28 | one line sets key k exactly when a test naming k matches it, to the capture; other keys are unchanged |
| KeywordScan.ScanLines | src/git/from_keywords.py:16-28 | the loop over the lines computes the specified scan |
| KeywordScan.ApplyLine | src/git/from_keywords.py:17-28 | the tests of one line, in order, compute the specified step |
| KeywordScan.ScanKeys | src/git/from_keywords.py:13-28 | only keys named in the table are ever set |
| KeywordScan.ScanLastWins | src/git/from_keywords.py:16-28 | a key holds the capture of the last line that assigns it; later lines override earlier ones |
| KeywordScan.ScanUnset | src/git/from_keywords.py:13-28 | a key no line assigns stays absent |
| GitKeywords.GetKeywords | src/git/from_keywords.py:13-31 | an unreadable file gives an empty dict; otherwise the scan of its lines |
| GitKeywords.KeywordKeys | src/git/from_keywords.py:17-28 | only refnames, full_revisionid and short_revisionid are set |
| GitKeywords.MarkedTags | src/git/from_keywords.py:44-45 | the tags are exactly the `tag: ` refs with the marker removed |
| GitKeywords.DigitRefs | src/git/from_keywords.py:54 | the candidates are exactly the refs containing a decimal digit |
| GitKeywords.CandidatesAre | src/git/from_keywords.py:45-54 | with some `tag: ` ref the candidates are the marked names, otherwise the refs with a digit |
| GitKeywords.MarkedTagsEmpty | src/git/from_keywords.py:45-46 | there are no marked tags iff no ref starts with `tag: ` |
| GitKeywords.ShortestTagIsLeast | src/git/from_keywords.py:59-66 | the selected tag is absent iff no candidate has the prefix; otherwise it is the least candidate with the prefix, minus the prefix |
| GitKeywords.VersionsFromKeywords | src/git/from_keywords.py:33-36 | empty keywords give `{}`; the only exception is a KeyError |
| GitKeywords.KeywordsUnexpanded | src/git/from_keywords.py:36-40 | refnames that start with `$Format` after stripping give `{}` |
| GitKeywords.KeywordsMissing | src/git/from_keywords.py:36-69 | the KeyError names the first missing key in the order refnames, full_revisionid, short_revisionid |
| GitKeywords.KeywordsExpanded | src/git/from_keywords.py:41-82 | expanded keywords give the dictionary for the tag selected from the parsed refs |
| GitKeywords.KeywordVersionsFields | src/git/from_keywords.py:67-81 | dirty is False and dash_dirty empty; describe, long, default and pep440 agree; closest_tag is None iff no tag was found |
| Refs.RefList | src/git/from_keywords.py:41 | at least one ref, each without whitespace at either end |
| Refs.RefListOfDecoration | src/git/from_keywords.py:41 | names joined with `, ` inside parentheses parse back into the same names |
| Refs.DropBranches | src/git/middle.py:30 | a ref is kept iff it is neither HEAD nor master |
| Refs.GreatestTagIsGreatest | src/git/middle.py:31-35 | the selection is absent iff no ref has the prefix; otherwise it is the greatest ref with the prefix, minus the prefix |
| StrOrder.SortedSet | src/git/from_keywords.py:60 | `sorted(set(xs))` is strictly ascending and has the elements of xs |
| StrOrder.LessPrefix | src/git/from_keywords.py:61 | a string sorts before every longer string it begins (`2.0` before `2.0rc1`) |
| StrOrder.AscendingUnique | src/git/from_keywords.py:60 | an ascending sequence is determined by its elements |
| StrOrder.FirstIsLeast | src/git/from_keywords.py:60-66 | in an ascending sequence the first element with the prefix is the least one |
| StrOrder.FirstOfReversedIsGreatest | src/git/middle.py:31-32 | in a reversed ascending sequence the first element with the prefix is the greatest one |
| GitMiddle.GetExpandedVariables | src/git/middle.py:10-23 | an unreadable file gives `{}`; otherwise the scan of its lines for `git_refnames =` and `git_full =` |
| GitMiddle.VariableKeys | src/git/middle.py:13-20 | only refnames and full are set |
| GitMiddle.VersionsFromExpandedVariables | src/git/middle.py:25-26 | missing refnames raise KeyError("refnames"); KeyError is the only exception (the other outcomes are stated by the four lemmas below) |
| GitMiddle.VariablesUnexpanded | src/git/middle.py:26-28 | refnames starting with `$Format` after stripping give `{}` |
| GitMiddle.VariablesNoTag | src/git/middle.py:29-35 | the result is `{}` iff no ref other than HEAD and master has the prefix |
| GitMiddle.VariablesTag | src/git/middle.py:31-34 | a non-empty result has exactly version and full: version is the greatest such ref minus the prefix, and full is the stripped `full` variable |
| GitMiddle.VariablesTagged | src/git/middle.py:25-35 | with expanded refnames whose greatest non-branch ref with the prefix is `tag_prefix + v`, the result is exactly `{version: v, full: stripped full}`, or KeyError("full") when the full variable is missing |
| GitMiddle.BranchesNeverSelected | src/git/middle.py:30 | HEAD and master are never selected |
| GitMiddle.VersionsFromVcs | src/git/middle.py:48-56 | without `__file__` the result is `{}`; otherwise the describe step runs in the directory of the file |
| Describe.DescribeVersions | src/git/middle.py:53-69 | the result is non-empty iff describe succeeds with output starting with the prefix and rev-parse succeeds; a non-empty result has exactly version and full, and prefix + version is the describe output |
| Describe.DescribeFailures | src/git/middle.py:55-65 | a failing describe, an output without the prefix, or a failing rev-parse gives `{}` |
| Describe.DescribeFull | src/git/middle.py:62-69 | on success both commands ran, the version is the describe output minus the prefix, and full is exactly the stripped rev-parse output when the version does not end with `-dirty` and that output followed by `-dirty` when it does |
| GitFromVariable.VersionFromExpandedVariable | src/git/from-variable.py:2-4 | input containing `$Format` anywhere after stripping is delegated to the checkout lookup; otherwise there is always a result |
| GitFromVariable.ExpandedVariableVersion | src/git/from-variable.py:5-10 | the result is the greatest ref other than HEAD and master with the prefix, minus the prefix, or `unknown` when none exists; tag_prefix + result is a parsed ref |
| GitFromCheckout.SourceRoot | src/git/from-checkout.py:16-17 | an empty or missing source root is replaced by the current directory |
| GitFromCheckout.VersionFromVcs | src/git/from-checkout.py:18-31 | None without a `.git` directory, on a failing describe, or on output without the prefix; on success tag_prefix + result is the describe output |
| GitFromCheckout.NoRepositoryIgnoresRunner | src/git/from-checkout.py:18-21 | without `.git` the result is None whatever the runner does |
| GitFromCheckout.EmptyRootIsCwd | src/git/from-checkout.py:16-17 | an empty source root behaves like a missing one |
| GitFromVcs.GitVersionsFromVcs | src/git/from_vcs.py:11-32 | return code 128 gives `{}`; the result is non-empty iff the code is not 128, describe succeeds with the prefix and rev-parse succeeds; a non-empty result has exactly version and full, tag_prefix + version is the describe output, and full is the stripped rev-parse output, followed by `-dirty` exactly when the version ends with `-dirty` |
| GitFromVcs.AgreesWithMiddle | src/git/from_vcs.py:17-32 | inside a repository the result equals the middle generation's describe step from the same directory |
| HgFromVcs.ShortId | src/hg/from_vcs.py:35-38 | the short id is the stripped output, without the trailing `+` when there is one |
| HgFromVcs.IdStep | src/hg/from_vcs.py:33-42 | a nonzero return code raises NotThisMethod |
| HgFromVcs.LongStep | src/hg/from_vcs.py:45-49 | a nonzero return code raises NotThisMethod; with return code 0 the step raises iff the output is missing or has no token |
| HgFromVcs.AncestorStep | src/hg/from_vcs.py:52-72 | raises iff the command succeeded and its output is missing (exactly the AttributeError case) or is not exactly two tokens (ValueError); a failed command sets error instead |
| HgFromVcs.DistanceStep | src/hg/from_vcs.py:74-77 | raises iff the command succeeded with no output, and then AttributeError; a failed command leaves distance unset |
| HgFromVcs.DateStep | src/hg/from_vcs.py:79-80 | raises (AttributeError) iff the date command gave no output |
| HgFromVcs.HgPiecesFromVcs | src/hg/from_vcs.py:17-82 | the field-by-field updates compute the specified pieces |
| HgFromVcs.HgFailures | src/hg/from_vcs.py:33-49 | a failing `hg id -q`, then a failing `--debug` query, raise NotThisMethod with their messages |
| HgFromVcs.HgSucceeds | src/hg/from_vcs.py:30-82 | the pieces are computed iff every command answers: both id queries succeed with output (the long one with a token), a succeeding ancestor query gives two tokens, a succeeding log query gives output, and the date query gives output |
| HgFromVcs.HgPiecesRead | src/hg/from_vcs.py:30-82 | for every run that answers (see HgSucceeds): dirty iff the id ends with `+`; long is the first token; closest-tag or error from the ancestor; distance (the line count) present iff the log succeeded; the compacted date; no other key |
| HgFromVcs.ClosestTagHasPrefix | src/hg/from_vcs.py:59-66 | tag_prefix + closest-tag is the tag hg reported |
| HgFromVcs.TagOrError | src/hg/from_vcs.py:55-70 | exactly one of closest-tag and error is set |
| HgFromVcs.CompactIsoDate | src/hg/from_vcs.py:80 | `date time zone` becomes `dateTtimezone` |
| SvnFromVcs.ParseRow | src/svn/from_vcs.py:27-28 | a row fails iff it contains no `": "` |
| SvnFromVcs.ParseRowOfEntry | src/svn/from_vcs.py:27-28 | `key: value` is read back as the lower-cased key and the value |
| SvnFromVcs.SvnInfo | src/svn/from_vcs.py:24-28 | succeeds iff every row contains `": "`, and otherwise raises ValueError; on success a key is present iff some row has it as its lower-cased key |
| SvnFromVcs.ReadInfo | src/svn/from_vcs.py:26-28 | the loop over the rows computes the specified dictionary |
| SvnFromVcs.RowWithoutPivotRaises | src/svn/from_vcs.py:27 | any row without `": "`, the empty row included, raises ValueError |
| SvnFromVcs.LastRowWins | src/svn/from_vcs.py:26-28 | a key holds the value of the last row with that key |
| SvnFromVcs.SvnVersionsFromVcs | src/svn/from_vcs.py:11-30 | no `.svn` or a failing `svn info` gives `{}`; otherwise a row without `": "` raises ValueError, an output without a row whose lower-cased key is `revision` raises KeyError("revision") (via SvnInfo), and else the result is exactly `{'default': revision}`; no other exception escapes |
| Paths.Basename | src/from_parentdir.py:10 | the basename has no `/` and ends the path right after its last `/` |
| Paths.AscendInvertsJoin | src/parentdir.py:9-11 | one `dirname` per component of a relative path undoes joining it to a directory |
| Paths.StemOfExtension | src/setupfunc.py:90 | `splitext` removes exactly a final `.ext` |
| FromParentdir.VersionsFromParentdir | src/from_parentdir.py:10-20 | None iff the basename lacks the prefix; otherwise describe, long and pep440 are equal and prefix + version is the basename |
| FromParentdir.EmptyPrefixWholeBasename | src/from_parentdir.py:16 | an empty prefix yields the whole basename |
| FromParentdir.OnlyBasename | src/from_parentdir.py:10 | the ancestors of the root are never inspected |
| Parentdir.FindRoot | src/parentdir.py:3-20 | root is `__file__` with `dirname` applied once per component of versionfile_source, or the directory of argv[0] |
| Parentdir.PrefixCheck | src/parentdir.py:23-29 | None iff the basename lacks the prefix; otherwise `{"version": basename minus prefix, "full": ""}` |
| Parentdir.VersionsFromParentdir | src/parentdir.py:2-29 | the prefix check applied to the root found |
| Parentdir.RootOfInstalledFile | src/parentdir.py:9-11 | for a file at top/versionfile_source the root found is top |
| GetVersions.VcsFunction | src/get_versions.py:9-10 | the lookup finds `<vcs>_<suffix>` iff that name is defined |
| GetVersions.KeywordSource | src/get_versions.py:37-42 | keywords are tried iff both keyword functions exist; a tried source gives the dictionary or the exception of the keyword function |
| GetVersions.VcsSource | src/get_versions.py:54-56 | the VCS source is tried iff its function exists; a tried source gives the dictionary or the exception of the VCS function |
| GetVersions.Settle | src/get_versions.py:40-66 | a source that ends the chain gives its exception unchanged, or its non-empty dictionary |
| GetVersions.FirstDecisive | src/get_versions.py:40-66 | the index of the first result that raised or is truthy; every earlier result is empty or None |
| GetVersions.ChainPicksFirstTruthy | src/get_versions.py:37-72 | the early-return chain settles the first of keywords, file, VCS, parentdir that raises or is truthy, else gives the sentinel |
| GetVersions.OnlyBackendsRaise | src/get_versions.py:37-72 | an exception out of the chain is one raised by the keyword or the VCS function, unchanged |
| GetVersions.VcsErrorEscapes | src/get_versions.py:54-57 | after empty keyword and file results, an exception of the VCS function is what the chain gives |
| GetVersions.GetVersions | src/get_versions.py:13-72 | a None setting raises the AssertionError of the first None setting in the order of the asserts; with every setting present the result is the chain's pick, so a back-end exception escapes |
| GetVersions.KeywordsWin | src/get_versions.py:40-46 | a truthy keyword result, or an exception of the keyword function, is the result whatever the later sources give |
| GetVersions.KeywordsNeedBoth | src/get_versions.py:37-40 | without both keyword functions the chain starts at the file |
| GetVersions.Exhausted | src/get_versions.py:71-72 | when every source is empty and none raises the result is the `0+unknown` sentinel with error `unable to compute version` |
| GetVersions.KeywordSourceRaises | src/git/from_keywords.py:36-68 | with from_keywords.py's function as keyword back end, expanded refnames without `full_revisionid` make the keyword source raise KeyError("full_revisionid") |
| GetVersions.KeywordErrorEscapes | src/get_versions.py:37-42 | that KeyError is not caught: `get_versions()` raises it |
| GetVersions.GetVersion | src/get_versions.py:75-76 | succeeds iff get_versions succeeds with a `version` field, and then returns it; an exception from get_versions propagates unchanged, and a result without `version` raises KeyError("version") |
| GetVersions.ParentdirHasNoVersionKey | src/get_versions.py:62-76 | a version found only from the parent directory has no `version` key, so `get_version` raises KeyError |
| GitLongGetVersions.Keywords | src/git/long_get_versions.py:9 | the keywords are exactly refnames and full |
| GitLongGetVersions.LongGetVersions | src/git/long_get_versions.py:2-31 | the root walk and or-chain compute the specified result; an exception of the keyword function escapes |
| GitLongGetVersions.KeywordsBeforeRoot | src/git/long_get_versions.py:11-13 | a truthy keyword result, or an exception of the keyword function, is the result before any root computation |
| GitLongGetVersions.RootUnavailable | src/git/long_get_versions.py:22-25 | without `__file__` the result is `0+unknown` with error `unable to find root of source tree` |
| GitLongGetVersions.FromRootPicksFirstTruthy | src/git/long_get_versions.py:27-31 | the VCS source, then parentdir, then the sentinel; the first truthy wins |
| GitLongGetVersions.FromKeywordsRaises | src/git/long_get_versions.py:9-11 | with from_keywords.py's `git_versions_from_keywords`, expanded refnames raise KeyError("full_revisionid"), since the keywords built here name the full id `full` |
| GitLongGetVersions.WalkFindsTop | src/git/long_get_versions.py:16-21 | for a file at top/versionfile_source the walk reaches top |
| Trailer.LineVersion | src/trailer.py:8-10 | a match captures a non-empty text without quotes that follows `__version__ = '` at the start of the line and is closed by a quote |
| Trailer.LineVersionOfAssignment | src/trailer.py:8-10 | every such line matches with that capture |
| Trailer.FirstVersion | src/trailer.py:7-12 | None iff no line matches; otherwise the capture of a matching line, the first |
| Trailer.VersionFromFile | src/trailer.py:2-12 | an unopenable file gives None; otherwise the loop returns the first capture |
| Trailer.VersionFromParentdir | src/trailer.py:14-28 | the basename of the script's directory must start with the prefix; the result is what follows it |
| Trailer.ScriptInTop | src/trailer.py:21-22 | for a script in top the directory inspected is top |
| Trailer.FirstPresent | src/trailer.py:43-61 | the index of the first present value; every earlier one is None |
| Trailer.GetBestVersion | src/trailer.py:36-63 | the only exception is NoVersionError("Unable to compute version at all") |
| Trailer.BestIsFirstPresent | src/trailer.py:43-63 | vcs, file, parentdir, default: the first non-None wins, and NoVersionError iff all are None |
| Trailer.EmptyVcsVersionWins | src/trailer.py:43-46 | the test is `is not None`: an empty VCS version is returned |
| Trailer.GetVersion | src/trailer.py:65-70 | None settings raise their AssertionError in the order of the asserts; with the settings present the result is the first present of the VCS version, the version-file version and the parent-directory version, with no default, and NoVersionError when all are None |
| Trailer.UpdateInit | src/trailer.py:137-147 | unmodified iff the snippet is in the file (a missing file reads as empty); otherwise the snippet is appended |
| Trailer.UpdateInitIdempotent | src/trailer.py:141-147 | after the step the snippet is present and the old text is kept, so a second run is unmodified |
| Finalize.OverrideEntries | src/finalize.py:18 | the update sets version to the override, dirty to False and error to None |
| Finalize.Finalize | src/finalize.py:3-20 | the same dictionary object is returned, its entries updated with the override |
| Finalize.OverrideSets | src/finalize.py:14-18 | a non-empty override sets version, dirty False and error None |
| Finalize.NoOverrideNoChange | src/finalize.py:14 | an unset or empty override leaves the dictionary unchanged |
| Finalize.OverrideKeepsOthers | src/finalize.py:18 | keys other than version, dirty and error keep their presence and value |
| Finalize.OverrideIdempotent | src/finalize.py:13-18 | applying twice equals applying once |
| Fallback.FallbackEntries | src/fallback.py:30 | the update sets version to the fallback and error to None |
| Fallback.OverrideFallbackOrFail | src/fallback.py:3-32 | the same dictionary object is returned, updated by the override step and then the fallback step |
| Fallback.FallbackApplied | src/fallback.py:26-30 | with version None or `0+unknown` and a truthy fallback: version is the fallback, error None, dirty unchanged |
| Fallback.NoFallbackNoChange | src/fallback.py:26-27 | otherwise the fallback step changes nothing |
| Fallback.FinalizedKeepsOthers | src/fallback.py:23-30 | keys other than version, dirty and error keep their presence and value |
| Fallback.OverrideIsFinal | src/fallback.py:19-30 | with an override other than `0+unknown` the final version is the override |
| Py.Get | src/fallback.py:26 | `d.get(k)` is the stored value, or None when k is absent |
| Py.PyDict.Update | src/finalize.py:18 | keys of the update take their new values; every other key is kept |
| GitInstall.ScanAttributes | src/git/install.py:6-15 | present iff some line's stripped text starts with versionfile_source and `export-subst` is among its tokens after the first; a missing file is not present |
| GitInstall.DoVcsInstall | src/git/install.py:2-20 | the new contents of `.gitattributes` are the specified ones |
| GitInstall.InstallAppendsOnly | src/git/install.py:16-19 | the old contents are kept; unchanged iff present, otherwise exactly one entry line is appended |
| GitInstall.MarksPrefixedPath | src/git/install.py:10-11 | a line for any longer path that starts with versionfile_source also marks it |
| GitInstall.SecondRunAppendsAgain | src/git/install.py:16-19 | as written, after a last line without a line end the entry is glued to it, a second run appends it again, and a third run changes nothing |
| GitInstall.EntryAfterBreakMarks | src/git/install.py:8-19 | an entry appended after empty text or a line end marks the file |
| GitInstall.AsWrittenWhenTerminated | src/git/install.py:17-18 | for a missing, empty or newline-terminated file the corrected step equals the step as written |
| GitInstall.InstallIdempotent | src/git/install.py:6-20 | with the corrected step and a versionfile_source without whitespace the entry is present afterwards, so a second run changes nothing |
| SetupFunc.InitPySnippet | src/setupfunc.py:51-54 | the snippet is non-empty and starts with a line end |
| SetupFunc.ModuleNameOfVersionFile | src/setupfunc.py:90 | the module name is the basename of versionfile_source without its extension |
| SetupFunc.SnippetEditAsWritten | src/setupfunc.py:92-101 | replace iff the old boilerplate is present, every occurrence becoming the snippet; else append iff the snippet is absent; else unmodified |
| SetupFunc.EditLeavesSnippet | src/setupfunc.py:92-101 | after either edit the snippet is in the file |
| SetupFunc.RerunUnmodified | src/setupfunc.py:92-101 | a rerun is unmodified whenever the edited file no longer holds the old boilerplate |
| SetupFunc.UnterminatedBoilerplateEditedTwice | src/setupfunc.py:92-99 | as written, a file ending in the boilerplate minus its final line end gets the snippet appended, and the second run replaces |
| SetupFunc.SnippetEdit | src/setupfunc.py:92-101 | corrected: unmodified iff the snippet is present; replace iff it is absent and the boilerplate present; otherwise append |
| SetupFunc.SnippetEditAgrees | src/setupfunc.py:92-101 | the corrected decision equals the one as written unless the file holds both snippet and boilerplate |
| SetupFunc.SnippetEditIdempotent | src/setupfunc.py:92-101 | with the corrected decision every edit leaves the snippet, so a rerun is unmodified |
| SetupFunc.DoSetup | src/setupfunc.py:57-110 | a load failure stops before any edit, with the sample config appended iff the error is not NoOptionError; otherwise the `__init__.py` path is passed on iff it exists, with the edit as written |
| SetupFunc.DoSetupCorrectedAgrees | src/setupfunc.py:92-101 | with the corrected decision `do_setup` makes the same edit unless `__init__.py` holds both the old boilerplate and the snippet |
| SetupFunc.SetupStatus | src/setupfunc.py:69-110 | 1 iff the configuration failed, 0 iff installed |
| SetupFunc.ScanErrors | src/setupfunc.py:130-147 | 0 to 2 errors; 0 iff all three items appear and no legacy setter does |
| SetupFunc.ScanSetupPy | src/setupfunc.py:113-147 | the loop over the lines computes the specified error count |
| SetupFunc.SetupCommand | src/setupfunc.py:150-154 | exit status 1 iff the sum of the setup and scan errors is nonzero |
| SetupFunc.SetupSucceedsIff | src/setupfunc.py:150-154 | the sum is zero iff the configuration loaded and setup.py has the items and no setters |

## Left out

- Command spawning, file reading and writing, and `print`/`verbose` output. Command results, file contents, environment variables and `__file__` are inputs; the writes are the values the model returns.
- `os.path.abspath`/`os.path.realpath`: the model takes `__file__` and `argv[0]` as already absolute and resolved.
- `readlines()` and universal newlines: lines are split at `\n` only.
- Whitespace in `strip()`, `split()` and `\s` is the whitespace of Python 3 `str` (`str.isspace`, Unicode included).
- `Text.LowerChar`: `lower()` (src/svn/from_vcs.py:28) changes only the ASCII letters, as on a Python 2 byte `str`; Python 3 also lowers non-ASCII letters, which the model leaves unchanged.
- `Text.HasDigit`: `\d` (src/git/from_keywords.py:54) matches only the ASCII digits, as on a Python 2 byte `str`; Python 3 also matches other Unicode decimal digits, which the model does not.
- The `git add` calls in `do_vcs_install` and the Windows executable names in `git_versions_from_vcs` are side effects or platform detection.
- `get_root`, `get_config` and `get_config_from_root` (src/header.py) are not part of this model. The configuration arrives as a `Config` value, or as a `Loaded` value with its load error.
- The version-file write in `do_setup`, the `LONG_VERSION_PY` templates, `write_to_version_file` and the `cmd_*` command classes: file-writing templating.
- `versions_from_file` and the trailer's `version_from_vcs(tag_prefix, verbose)` are not among these sources. They are parameters: a backend function, or a given result.
- `GetVersions.VcsFunction`: the reflective `getattr` lookup is a lookup in a set of defined names.
- `GitLongGetVersions.LongGetVersions`: the keyword function is a parameter, since the generation of `git_versions_from_keywords` shipped beside this file is not among these sources. With from_keywords.py's function it raises KeyError (`GitLongGetVersions.FromKeywordsRaises`).
- `GitLongGetVersions.LongGetVersions`: configuration values are strings, not `Optional`; a None setting is not modelled there.
- `Trailer.VersionFromParentdir`: `tag_prefix` is not read by the source, so it is not a parameter.
- `SetupFunc.ScanSetupPy`: a missing `setup.py` raises in the source; the model takes its lines as given.
- `HgFromVcs.HgPiecesFromVcs`: the working directory of the injected runner is not an argument, as in the source.
- `Render.RenderVersion`: the pieces are a record with every field present, so a missing key (the hg back end leaves `distance` unset when the log fails) is not modelled; distance is a natural number and dirty a boolean.
- `Text.Strip`: its contract states only the ends of the result; the lemmas about it state the cases the model needs.
- The test suites' expectations of other generations (multi-style render, `git_pieces_from_vcs`, JSON version files, `2.0` from the expanded variables) describe code that is not among these sources. The model follows src/git/middle.py, which picks the greatest ref.

## Findings

| source | as written | input that shows it | evidently intended | confidence | as-written member | corrected member |
|---|---|---|---|---|---|---|
| src/git/install.py:16-19 | the entry is appended with mode `a+` directly after the old contents, so it is glued onto a last line that has no line end | `.gitattributes` holding `x` with no final newline, versionfile_source `v`: the file becomes `xv export-subst\n`, which does not mark `v` and has corrupted the user's last attribute line `x`; the second run appends the entry again (the third finds that line and changes nothing) | the entry starts a line of its own, so a second run finds it and changes nothing | not executed | GitInstall.SecondRunAppendsAgain | GitInstall.InstallIdempotent |
| src/setupfunc.py:92-101 | the old boilerplate is looked for before the new snippet, and the snippet starts with a line end | an `__init__.py` ending in the old boilerplate minus its final newline, versionfile_source `pkg/_version.py`: the first run appends the snippet, whose leading line end completes the boilerplate, and the second run replaces it instead of leaving the file unmodified | a file that already holds the snippet is left unmodified, so a rerun never edits it again | not executed | SetupFunc.UnterminatedBoilerplateEditedTwice | SetupFunc.SnippetEditIdempotent |
