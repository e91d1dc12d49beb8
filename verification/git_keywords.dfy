/** `git_get_keywords` and `git_versions_from_keywords`: the keywords `git archive`
    substituted into the version file, and the tag they select. */
module GitKeywords {
  import opened Wrappers
  import opened Text
  import opened StrOrder
  import opened Py
  import opened KeywordScan
  import opened Refs

  const KeywordTable: seq<Assignment> := [
    Assignment("git_refnames =", "refnames"),
    Assignment("git_full_revisionid =", "full_revisionid"),
    Assignment("git_short_revisionid =", "short_revisionid")
  ]

  /** Reads the keywords from the lines of the version file; `None` stands for a file
      that could not be opened. */
  method GetKeywords(file: Option<seq<string>>) returns (keywords: map<string, string>)
    ensures file.None? ==> keywords == map[]
    ensures file.Some? ==> keywords == Scan(file.value, KeywordTable)
  {
    keywords := map[];
    if file.Some? {
      keywords := ScanLines(file.value, KeywordTable);
    }
  }

  /** The keyword reader sets no key beyond the three it looks for. */
  lemma KeywordKeys(lines: seq<string>, k: string)
    requires k in Scan(lines, KeywordTable)
    ensures k == "refnames" || k == "full_revisionid" || k == "short_revisionid"
  {
    ScanKeys(lines, KeywordTable, k);
  }

  const TagMarker := "tag: "

  /** The names of the refs that carry the `tag: ` marker, with the marker removed. */
  function MarkedTags(refs: seq<string>): (tags: seq<string>)
    ensures forall t :: t in tags ==> TagMarker + t in refs
    ensures forall r :: r in refs && TagMarker <= r ==> r[|TagMarker|..] in tags
  {
    if refs == [] then []
    else
      var rest := MarkedTags(refs[1..]);
      var r := refs[0];
      if TagMarker <= r then
        assert TagMarker + r[|TagMarker|..] == r;
        [r[|TagMarker|..]] + rest
      else rest
  }

  /** The refs that contain a decimal digit. */
  function DigitRefs(refs: seq<string>): (tags: seq<string>)
    ensures forall t :: t in tags <==> t in refs && HasDigit(t)
  {
    if refs == [] then []
    else if HasDigit(refs[0]) then [refs[0]] + DigitRefs(refs[1..])
    else DigitRefs(refs[1..])
  }

  /** The tag candidates: the `tag: ` refs when there are any, otherwise the refs
      with a digit. */
  function Candidates(refs: seq<string>): seq<string> {
    var tags := MarkedTags(refs);
    if tags != [] then tags else DigitRefs(refs)
  }

  /** What the candidates are, in both cases. */
  lemma CandidatesAre(refs: seq<string>, t: string)
    ensures (exists r :: r in refs && TagMarker <= r) ==> (t in Candidates(refs) <==> TagMarker + t in refs)
    ensures (forall r :: r in refs ==> !(TagMarker <= r)) ==> (t in Candidates(refs) <==> t in refs && HasDigit(t))
  {
    MarkedTagsEmpty(refs);
    if TagMarker + t in refs {
      assert (TagMarker + t)[|TagMarker|..] == t;
    }
  }

  /** There are no marked tags exactly when no ref carries the marker. */
  lemma MarkedTagsEmpty(refs: seq<string>)
    ensures MarkedTags(refs) == [] <==> forall r :: r in refs ==> !(TagMarker <= r)
  {
    if MarkedTags(refs) != [] {
      var t := MarkedTags(refs)[0];
      assert TagMarker + t in refs;
      assert TagMarker <= TagMarker + t;
    }
  }

  /** The loop over `sorted(tags)`: the first tag that starts with the prefix, with
      the prefix removed. */
  function ShortestTag(tags: seq<string>, tagPrefix: string): Option<string> {
    var sorted := SortedSet(tags);
    match FirstWithPrefix(sorted, tagPrefix)
    case None => None
    case Some(k) => Some(sorted[k][|tagPrefix|..])
  }

  /** The selected tag is the least candidate that starts with the prefix ("2.0" is
      taken over "2.0rc1"); there is none exactly when no candidate has the prefix. */
  lemma ShortestTagIsLeast(tags: seq<string>, tagPrefix: string)
    ensures ShortestTag(tags, tagPrefix).None? <==> forall c :: c in tags ==> !(tagPrefix <= c)
    ensures ShortestTag(tags, tagPrefix).Some? ==>
      var m := tagPrefix + ShortestTag(tags, tagPrefix).value;
      m in tags && forall c :: c in tags && tagPrefix <= c ==> c == m || Less(m, c)
  {
    var sorted := SortedSet(tags);
    match FirstWithPrefix(sorted, tagPrefix)
    case None =>
      assert forall c :: c in tags ==> !(tagPrefix <= c) by {
        forall c | c in tags ensures !(tagPrefix <= c) {
          var i :| 0 <= i < |sorted| && sorted[i] == c;
        }
      }
    case Some(k) =>
      assert tagPrefix + sorted[k][|tagPrefix|..] == sorted[k];
      assert sorted[k] in tags;
      FirstIsLeast(sorted, tagPrefix);
  }

  /** Python truthiness of the selected tag: present and not empty. */
  predicate Found(tag: Option<string>) {
    tag.Some? && tag.value != ""
  }

  /** The dictionary built once the tag is known. */
  function KeywordVersions(full: string, short: string, shortest: Option<string>): Dict {
    var composite := if Found(shortest) then shortest.value else full;
    map[
      "full_revisionid" := Str(full),
      "short_revisionid" := Str(short),
      "dirty" := Bool(false),
      "dash_dirty" := Str(""),
      "closest_tag" := if shortest.Some? then Str(shortest.value) else Null,
      "closest_tag_or_zero" := Str(if Found(shortest) then shortest.value else "0"),
      "describe" := Str(composite),
      "long" := Str(composite),
      "default" := Str(composite),
      "pep440" := Str(composite)
    ]
  }

  /** `git_versions_from_keywords(keywords, tag_prefix)`. */
  function VersionsFromKeywords(keywords: map<string, string>, tagPrefix: string): (r: Outcome<Dict>)
    ensures keywords == map[] ==> r == Ok(map[])
    ensures r.Raise? ==> r.exc.KeyError?
  {
    if keywords == map[] then Ok(map[])
    else if "refnames" !in keywords then Raise(KeyError("refnames"))
    else
      var refnames := Strip(keywords["refnames"]);
      if "$Format" <= refnames then Ok(map[])
      else
        var shortest := ShortestTag(Candidates(RefList(refnames)), tagPrefix);
        if "full_revisionid" !in keywords then Raise(KeyError("full_revisionid"))
        else if "short_revisionid" !in keywords then Raise(KeyError("short_revisionid"))
        else
          Ok(KeywordVersions(Strip(keywords["full_revisionid"]), Strip(keywords["short_revisionid"]), shortest))
  }

  /** Keywords that were never expanded give an empty result. */
  lemma KeywordsUnexpanded(keywords: map<string, string>, tagPrefix: string)
    requires "refnames" in keywords && "$Format" <= Strip(keywords["refnames"])
    ensures VersionsFromKeywords(keywords, tagPrefix) == Ok(map[])
  {
  }

  /** Which key is missing decides the `KeyError`; refnames is read first. */
  lemma KeywordsMissing(keywords: map<string, string>, tagPrefix: string)
    requires keywords != map[]
    ensures "refnames" !in keywords ==> VersionsFromKeywords(keywords, tagPrefix) == Raise(KeyError("refnames"))
    ensures "refnames" in keywords && !("$Format" <= Strip(keywords["refnames"])) ==>
      ("full_revisionid" !in keywords ==> VersionsFromKeywords(keywords, tagPrefix) == Raise(KeyError("full_revisionid")))
      && ("full_revisionid" in keywords && "short_revisionid" !in keywords ==>
        VersionsFromKeywords(keywords, tagPrefix) == Raise(KeyError("short_revisionid")))
  {
  }

  /** With all three keywords expanded the result is the dictionary for the tag the
      refs select. */
  lemma KeywordsExpanded(keywords: map<string, string>, tagPrefix: string)
    requires "refnames" in keywords && "full_revisionid" in keywords && "short_revisionid" in keywords
    requires !("$Format" <= Strip(keywords["refnames"]))
    ensures VersionsFromKeywords(keywords, tagPrefix) == Ok(KeywordVersions(
      Strip(keywords["full_revisionid"]), Strip(keywords["short_revisionid"]),
      ShortestTag(Candidates(RefList(Strip(keywords["refnames"]))), tagPrefix)))
  {
  }

  /** The fields of that dictionary: never dirty; describe, long, default and pep440
      agree, and are the tag, or the full revision id when the tag is missing or
      empty, in which case closest_tag_or_zero is "0". */
  lemma KeywordVersionsFields(full: string, short: string, shortest: Option<string>)
    ensures var d := KeywordVersions(full, short, shortest);
      d["dirty"] == Bool(false) && d["dash_dirty"] == Str("")
      && d["full_revisionid"] == Str(full) && d["short_revisionid"] == Str(short)
      && d["describe"] == d["long"] == d["default"] == d["pep440"]
      && (d["closest_tag"] == Null <==> shortest.None?)
      && (Found(shortest) ==>
        d["closest_tag"] == Str(shortest.value) && d["describe"] == Str(shortest.value)
        && d["closest_tag_or_zero"] == Str(shortest.value))
      && (!Found(shortest) ==> d["describe"] == Str(full) && d["closest_tag_or_zero"] == Str("0"))
  {
  }
}
