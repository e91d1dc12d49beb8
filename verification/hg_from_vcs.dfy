/** `hg_pieces_from_vcs` of hg/from_vcs.py: the pieces of a Mercurial checkout,
    filled in one field at a time from five `hg` commands. The injected
    `run_command` is a parameter that maps the arguments after `hg` to the output
    and the return code. */
module HgFromVcs {
  import opened Wrappers
  import opened Text
  import opened Py

  /** What the injected `run_command` returns: the output and the return code,
      either of which may be None. */
  datatype Reply = Reply(out: Option<string>, rc: Option<int>)

  type HgRunner = seq<string> -> Reply

  const IdArgs: seq<string> := ["id", "-q"]
  const IdDebugArgs: seq<string> := ["id", "-q", "--debug"]
  const DateArgs: seq<string> := ["log", "-l1", "--template", "{date|isodate}"]
  const StatusFailed := "'hg status' returned error"
  const DebugFailed := "'hg id -q --debug' failed"

  /** The query for the nearest ancestor that carries a tag with the prefix. */
  function AncestorArgs(short: string, tagPrefix: string): seq<string> {
    ["id", "-r", "::parents(" + short + ") and tag(\"re:" + tagPrefix + ".+\")"]
  }

  /** The revision range from the ancestor to the working copy's parent. */
  function DistanceArgs(ancestor: string, short: string): seq<string> {
    ["log", "-q", "-r", ancestor + "::" + short]
  }

  function PrefixError(tag: string, tagPrefix: string): string {
    "tag '" + tag + "' doesn't start with prefix '" + tagPrefix + "'"
  }

  /** The short id: the stripped output without the `+` that marks a dirty copy. */
  function ShortId(out: string): (short: string)
    ensures EndsWith(Strip(out), "+") ==> short + "+" == Strip(out)
    ensures !EndsWith(Strip(out), "+") ==> short == Strip(out)
  {
    var s := Strip(out);
    if EndsWith(s, "+") then
      assert s[..|s| - 1] + "+" == s;
      s[..|s| - 1]
    else s
  }

  /** The ancestor revision the distance is counted from: the first token of a
      successful ancestor query, or revision 0 when there was none. */
  function AncestorSha(ancestor: Reply): string {
    if ancestor.rc == Some(0) && ancestor.out.Some? && |SplitWs(Strip(ancestor.out.value))| == 2
    then SplitWs(Strip(ancestor.out.value))[0]
    else "0"
  }

  /** `s.replace(" ", "T", 1).replace(" ", "", 1)` */
  function Compact(date: string): string {
    ReplaceFirstChar(ReplaceFirstChar(date, ' ', "T"), ' ', "")
  }

  /** The fields read from `hg id -q`. */
  predicate IdRead(d: Dict, id: Reply) {
    id.rc == Some(0) && id.out.Some?
    && "dirty" in d && d["dirty"] == Bool(EndsWith(Strip(id.out.value), "+"))
    && "short" in d && d["short"] == Str(ShortId(id.out.value))
  }

  /** The field read from `hg id -q --debug`: its first token. */
  predicate LongRead(d: Dict, long: Reply) {
    long.rc == Some(0) && long.out.Some? && SplitWs(Strip(long.out.value)) != []
    && "long" in d && d["long"] == Str(SplitWs(Strip(long.out.value))[0])
  }

  /** The fields decided by the ancestor query. */
  predicate AncestorRead(d: Dict, tagPrefix: string, ancestor: Reply) {
    if ancestor.rc == Some(0) then
      ancestor.out.Some? && |SplitWs(Strip(ancestor.out.value))| == 2
      && var tag := SplitWs(Strip(ancestor.out.value))[1];
      (tagPrefix <= tag ==> "closest-tag" in d && d["closest-tag"] == Str(tag[|tagPrefix|..]) && "error" !in d)
      && (!(tagPrefix <= tag) ==> "error" in d && d["error"] == Str(PrefixError(tag, tagPrefix)) && "closest-tag" !in d)
    else
      "closest-tag" in d && d["closest-tag"] == Null && "error" !in d
  }

  /** The distance, present exactly when the log command succeeded. */
  predicate DistanceRead(d: Dict, distance: Reply) {
    ("distance" in d <==> distance.rc == Some(0))
    && (distance.rc == Some(0) ==>
      distance.out.Some? && d["distance"] == Int(|SplitLines(Strip(distance.out.value))|))
  }

  predicate DateRead(d: Dict, date: Reply) {
    date.out.Some? && "date" in d && d["date"] == Str(Compact(Strip(date.out.value)))
  }

  /** Everything a successful run stores, and no other key. */
  predicate PiecesRead(d: Dict, tagPrefix: string, run: HgRunner) {
    IdRead(d, run(IdArgs)) && LongRead(d, run(IdDebugArgs))
    && var short := ShortId(run(IdArgs).out.value);
    var ancestor := run(AncestorArgs(short, tagPrefix));
    AncestorRead(d, tagPrefix, ancestor)
    && DistanceRead(d, run(DistanceArgs(AncestorSha(ancestor), short)))
    && DateRead(d, run(DateArgs))
    && d.Keys <= PieceKeys
  }

  const PieceKeys: set<string> := {"dirty", "short", "long", "closest-tag", "error", "distance", "date"}

  /** The step over `hg id -q`. */
  function IdStep(id: Reply): (r: Outcome<Dict>)
    ensures id.rc != Some(0) ==> r == Raise(NotThisMethod(StatusFailed))
    ensures id.rc == Some(0) ==> (r.Raise? <==> id.out.None?)
    ensures r.Raise? ==> r.exc.NotThisMethod? || r.exc == AttributeError
  {
    if id.rc != Some(0) then Raise(NotThisMethod(StatusFailed))
    else if id.out.None? then Raise(AttributeError)
    else Ok(map["dirty" := Bool(EndsWith(Strip(id.out.value), "+")), "short" := Str(ShortId(id.out.value))])
  }

  /** The step over `hg id -q --debug`. */
  function LongStep(d: Dict, long: Reply): (r: Outcome<Dict>)
    ensures long.rc != Some(0) ==> r == Raise(NotThisMethod(DebugFailed))
    ensures long.rc == Some(0) ==>
      (r.Raise? <==> long.out.None? || SplitWs(Strip(long.out.value)) == [])
    ensures r.Raise? ==> r.exc.NotThisMethod? || r.exc == AttributeError || r.exc == IndexError
  {
    if long.rc != Some(0) then Raise(NotThisMethod(DebugFailed))
    else if long.out.None? then Raise(AttributeError)
    else
      var tokens := SplitWs(Strip(long.out.value));
      if tokens == [] then Raise(IndexError)
      else Ok(d["long" := Str(tokens[0])])
  }

  /** The step over the ancestor query: a successful query must name exactly a
      revision and a tag; a tag with the prefix becomes closest-tag, any other tag
      an error message. With no ancestor, closest-tag is None. */
  function AncestorStep(d: Dict, tagPrefix: string, ancestor: Reply): (r: Outcome<Dict>)
    ensures r.Raise? ==> r.exc == AttributeError || r.exc == ValueError
    ensures r.Raise? <==>
      (ancestor.rc == Some(0) && (ancestor.out.None? || |SplitWs(Strip(ancestor.out.value))| != 2))
    ensures r == Raise(AttributeError) <==> ancestor.rc == Some(0) && ancestor.out.None?
  {
    if ancestor.rc == Some(0) then
      if ancestor.out.None? then Raise(AttributeError)
      else
        var parts := SplitWs(Strip(ancestor.out.value));
        if |parts| != 2 then Raise(ValueError)
        else if !(tagPrefix <= parts[1]) then Ok(d["error" := Str(PrefixError(parts[1], tagPrefix))])
        else Ok(d["closest-tag" := Str(parts[1][|tagPrefix|..])])
    else Ok(d["closest-tag" := Null])
  }

  /** The step over the log of the range from the ancestor. */
  function DistanceStep(d: Dict, distance: Reply): (r: Outcome<Dict>)
    ensures r.Raise? ==> r.exc == AttributeError
    ensures r.Raise? <==> distance.rc == Some(0) && distance.out.None?
  {
    if distance.rc != Some(0) then Ok(d)
    else if distance.out.None? then Raise(AttributeError)
    else Ok(d["distance" := Int(|SplitLines(Strip(distance.out.value))|)])
  }

  /** The step over the date of the last commit. */
  function DateStep(d: Dict, date: Reply): (r: Outcome<Dict>)
    ensures r.Raise? <==> date.out.None?
    ensures r.Raise? ==> r.exc == AttributeError
  {
    if date.out.None? then Raise(AttributeError)
    else Ok(d["date" := Str(Compact(Strip(date.out.value)))])
  }

  /** The pieces `hg_pieces_from_vcs` returns, or the exception it raises, as a
      function of what the five commands report. */
  function HgPieces(tagPrefix: string, run: HgRunner): Outcome<Dict> {
    match IdStep(run(IdArgs))
    case Raise(e) => Raise(e)
    case Ok(d1) =>
      match LongStep(d1, run(IdDebugArgs))
      case Raise(e) => Raise(e)
      case Ok(d2) =>
        var short := ShortId(run(IdArgs).out.value);
        var ancestor := run(AncestorArgs(short, tagPrefix));
        match AncestorStep(d2, tagPrefix, ancestor)
        case Raise(e) => Raise(e)
        case Ok(d3) =>
          match DistanceStep(d3, run(DistanceArgs(AncestorSha(ancestor), short)))
          case Raise(e) => Raise(e)
          case Ok(d4) => DateStep(d4, run(DateArgs))
  }

  /** The pieces are filled one field at a time, each from one command, in the
      order of the source. */
  method HgPiecesFromVcs(tagPrefix: string, root: string, run: HgRunner) returns (r: Outcome<Dict>)
    ensures r == HgPieces(tagPrefix, run)
  {
    var pieces: Dict := map[];

    // short id and dirtiness
    var id := run(IdArgs);
    if id.rc != Some(0) {
      return Raise(NotThisMethod(StatusFailed));
    }
    if id.out.None? {
      return Raise(AttributeError);
    }
    var stripped := Strip(id.out.value);
    var dirty := EndsWith(stripped, "+");
    pieces := pieces["dirty" := Bool(dirty)];
    var short := if dirty then stripped[..|stripped| - 1] else stripped;
    pieces := pieces["short" := Str(short)];

    // long id
    var long := run(IdDebugArgs);
    if long.rc != Some(0) {
      return Raise(NotThisMethod(DebugFailed));
    }
    if long.out.None? {
      return Raise(AttributeError);
    }
    var tokens := SplitWs(Strip(long.out.value));
    if tokens == [] {
      return Raise(IndexError);
    }
    pieces := pieces["long" := Str(tokens[0])];

    // most recent tagged ancestor
    var ancestor := run(AncestorArgs(short, tagPrefix));
    var ancestorSha: string;
    if ancestor.rc == Some(0) {
      if ancestor.out.None? {
        return Raise(AttributeError);
      }
      var parts := SplitWs(Strip(ancestor.out.value));
      if |parts| != 2 {
        return Raise(ValueError);
      }
      ancestorSha := parts[0];
      var fullTag := parts[1];
      if !(tagPrefix <= fullTag) {
        pieces := pieces["error" := Str(PrefixError(fullTag, tagPrefix))];
      } else {
        pieces := pieces["closest-tag" := Str(fullTag[|tagPrefix|..])];
      }
    } else {
      pieces := pieces["closest-tag" := Null];
      ancestorSha := "0";
    }

    // distance from the ancestor
    var distance := run(DistanceArgs(ancestorSha, short));
    if distance.rc == Some(0) {
      if distance.out.None? {
        return Raise(AttributeError);
      }
      pieces := pieces["distance" := Int(|SplitLines(Strip(distance.out.value))|)];
    }

    var date := run(DateArgs);
    if date.out.None? {
      return Raise(AttributeError);
    }
    pieces := pieces["date" := Str(Compact(Strip(date.out.value)))];
    return Ok(pieces);
  }

  /** A failing `hg id -q` raises NotThisMethod; so does a failing `--debug` query
      after it; every other failure is an exception of Python's own. */
  lemma HgFailures(tagPrefix: string, run: HgRunner)
    ensures run(IdArgs).rc != Some(0) ==> HgPieces(tagPrefix, run) == Raise(NotThisMethod(StatusFailed))
    ensures run(IdArgs).rc == Some(0) && run(IdArgs).out.Some? && run(IdDebugArgs).rc != Some(0) ==>
      HgPieces(tagPrefix, run) == Raise(NotThisMethod(DebugFailed))
    ensures var r := HgPieces(tagPrefix, run);
      r.Raise? ==> r.exc.NotThisMethod? || r.exc == AttributeError || r.exc == IndexError || r.exc == ValueError
  {
  }

  /** The replies a run can complete with: `hg id -q` and its `--debug` form
      succeed with output, the latter holding a token; a successful ancestor query
      names exactly a revision and a tag; a successful log of the range has output;
      and the date query has output. */
  predicate Answered(tagPrefix: string, run: HgRunner) {
    var id := run(IdArgs);
    var long := run(IdDebugArgs);
    id.rc == Some(0) && id.out.Some?
    && long.rc == Some(0) && long.out.Some? && SplitWs(Strip(long.out.value)) != []
    && var short := ShortId(id.out.value);
    var ancestor := run(AncestorArgs(short, tagPrefix));
    (ancestor.rc == Some(0) ==> ancestor.out.Some? && |SplitWs(Strip(ancestor.out.value))| == 2)
    && var distance := run(DistanceArgs(AncestorSha(ancestor), short));
    (distance.rc == Some(0) ==> distance.out.Some?)
    && run(DateArgs).out.Some?
  }

  /** A run gives pieces exactly when the commands answer as above. */
  lemma HgSucceeds(tagPrefix: string, run: HgRunner)
    ensures HgPieces(tagPrefix, run).Ok? <==> Answered(tagPrefix, run)
  {
  }

  /** Every field of a successful run is the one read from its command, and there
      are no other keys. */
  lemma HgPiecesRead(tagPrefix: string, run: HgRunner)
    requires HgPieces(tagPrefix, run).Ok?
    ensures PiecesRead(HgPieces(tagPrefix, run).value, tagPrefix, run)
  {
    var id, long := run(IdArgs), run(IdDebugArgs);
    var d1 := IdStep(id).value;
    var d2 := LongStep(d1, long).value;
    var short := ShortId(id.out.value);
    var ancestor := run(AncestorArgs(short, tagPrefix));
    var d3 := AncestorStep(d2, tagPrefix, ancestor).value;
    var distance := run(DistanceArgs(AncestorSha(ancestor), short));
    var d4 := DistanceStep(d3, distance).value;
    var d := DateStep(d4, run(DateArgs)).value;
    IdAndLongRead(id, long, d1, d2);
    AncestorFieldsRead(tagPrefix, id, long, ancestor, d2, d3);
    DistanceFieldRead(tagPrefix, id, long, ancestor, distance, d3, d4);
    DateFieldRead(tagPrefix, id, long, ancestor, distance, run(DateArgs), d4, d);
  }

  /** What a dictionary holds after the first two steps. */
  predicate AfterLong(d: Dict, id: Reply, long: Reply) {
    IdRead(d, id) && LongRead(d, long) && d.Keys <= PieceKeys
  }

  lemma IdAndLongRead(id: Reply, long: Reply, d1: Dict, d2: Dict)
    requires IdStep(id) == Ok(d1) && LongStep(d1, long) == Ok(d2)
    ensures AfterLong(d2, id, long)
    ensures "closest-tag" !in d2 && "error" !in d2 && "distance" !in d2 && "date" !in d2
  {
  }

  lemma AncestorFieldsRead(tagPrefix: string, id: Reply, long: Reply, ancestor: Reply, d2: Dict, d3: Dict)
    requires AfterLong(d2, id, long)
    requires "closest-tag" !in d2 && "error" !in d2 && "distance" !in d2 && "date" !in d2
    requires AncestorStep(d2, tagPrefix, ancestor) == Ok(d3)
    ensures AfterLong(d3, id, long) && AncestorRead(d3, tagPrefix, ancestor)
    ensures "distance" !in d3 && "date" !in d3
  {
  }

  lemma DistanceFieldRead(tagPrefix: string, id: Reply, long: Reply, ancestor: Reply, distance: Reply,
                          d3: Dict, d4: Dict)
    requires AfterLong(d3, id, long) && AncestorRead(d3, tagPrefix, ancestor)
    requires "distance" !in d3 && "date" !in d3
    requires DistanceStep(d3, distance) == Ok(d4)
    ensures AfterLong(d4, id, long) && AncestorRead(d4, tagPrefix, ancestor) && DistanceRead(d4, distance)
    ensures "date" !in d4
  {
  }

  lemma DateFieldRead(tagPrefix: string, id: Reply, long: Reply, ancestor: Reply, distance: Reply, date: Reply,
                      d4: Dict, d: Dict)
    requires AfterLong(d4, id, long) && AncestorRead(d4, tagPrefix, ancestor) && DistanceRead(d4, distance)
    requires "date" !in d4
    requires DateStep(d4, date) == Ok(d)
    ensures AfterLong(d, id, long) && AncestorRead(d, tagPrefix, ancestor) && DistanceRead(d, distance)
    ensures DateRead(d, date)
  {
  }

  /** On success with a tag, the prefix followed by the closest tag is the tag hg
      reported. */
  lemma ClosestTagHasPrefix(d: Dict, tagPrefix: string, run: HgRunner)
    requires PiecesRead(d, tagPrefix, run)
    requires "closest-tag" in d && d["closest-tag"].Str?
    ensures var ancestor := run(AncestorArgs(ShortId(run(IdArgs).out.value), tagPrefix));
      ancestor.rc == Some(0) && tagPrefix + d["closest-tag"].s == SplitWs(Strip(ancestor.out.value))[1]
  {
    var ancestor := run(AncestorArgs(ShortId(run(IdArgs).out.value), tagPrefix));
    var tag := SplitWs(Strip(ancestor.out.value))[1];
    assert tagPrefix + tag[|tagPrefix|..] == tag;
  }

  /** Exactly one of closest-tag and error is set. */
  lemma TagOrError(d: Dict, tagPrefix: string, run: HgRunner)
    requires PiecesRead(d, tagPrefix, run)
    ensures ("closest-tag" in d) != ("error" in d)
  {
  }

  /** An isodate `date time zone` becomes `dateTtimezone`. */
  lemma CompactIsoDate(date: string, time: string, zone: string)
    requires ' ' !in date && ' ' !in time
    ensures Compact(date + " " + time + " " + zone) == date + "T" + time + zone
  {
    var once := ReplaceFirstChar(date + " " + time + " " + zone, ' ', "T");
    assert once == (date + "T" + time) + [' '] + zone by {
      FirstSpace(date, time + " " + zone, date + " " + time + " " + zone);
    }
    assert ReplaceFirstChar(once, ' ', "") == date + "T" + time + zone by {
      assert ' ' !in date + "T" + time by {
        NoSpaceJoined(date, time);
      }
      ReplaceFirstCharAt(date + "T" + time, zone, ' ', "");
    }
  }

  lemma FirstSpace(date: string, rest: string, s: string)
    requires ' ' !in date && s == date + [' '] + rest
    ensures ReplaceFirstChar(s, ' ', "T") == date + "T" + rest
  {
    ReplaceFirstCharAt(date, rest, ' ', "T");
  }

  lemma NoSpaceJoined(date: string, time: string)
    requires ' ' !in date && ' ' !in time
    ensures ' ' !in date + "T" + time
  {
    var s := date + "T" + time;
    forall i | 0 <= i < |s|
      ensures s[i] != ' '
    {
      if i < |date| {
        assert s[i] == date[i];
      } else if i > |date| {
        assert s[i] == time[i - |date| - 1];
      }
    }
  }
}
