/** `svn_versions_from_vcs` of svn/from_vcs.py: the revision reported by
    `svn info` in the root of a Subversion working copy. The existence test and the
    command runner are parameters. */
module SvnFromVcs {
  import opened Wrappers
  import opened Text
  import opened Py
  import opened Paths

  const InfoArgs: seq<string> := ["svn", "info"]
  const Pivot := ": "

  /** One row of `svn info` output split at its first `": "` into the lower-cased
      key and the rest; None when the row has no `": "` (where `index` raises). */
  function ParseRow(row: string): (r: Option<(string, string)>)
    ensures r.None? <==> !Contains(row, Pivot)
  {
    match Find(row, Pivot)
    case None => None
    case Some(p) => Some((Lower(row[..p]), row[p + 2..]))
  }

  /** A row written as key, `": "`, value is read back as the lower-cased key and
      the value, as long as the key itself holds no `": "`. */
  lemma ParseRowOfEntry(key: string, value: string)
    requires !Contains(key, Pivot)
    ensures ParseRow(key + Pivot + value) == Some((Lower(key), value))
  {
    var row := key + Pivot + value;
    assert Find(row, Pivot) == Some(|key|) by {
      assert Pivot <= row[|key|..] by {
        assert row[|key|..] == Pivot + value;
      }
      ContainsAt(row, Pivot, |key|);
      var p := Find(row, Pivot).value;
      if p < |key| {
        NoPivotBefore(key, value, p);
      }
    }
    assert row[..|key|] == key && row[|key| + 2..] == value;
  }

  /** No `": "` starts inside the key. */
  lemma NoPivotBefore(key: string, value: string, p: nat)
    requires !Contains(key, Pivot) && p < |key|
    ensures !(Pivot <= (key + Pivot + value)[p..])
  {
    var row := key + Pivot + value;
    if p + 1 < |key| {
      if Pivot <= row[p..] {
        assert Pivot <= key[p..] by {
          assert key[p..][..2] == row[p..][..2];
        }
        ContainsAt(key, Pivot, p);
      }
    } else {
      assert row[p..][1] == ':';
    }
  }

  /** The `info` dictionary filled by the loop over the rows, or the ValueError
      raised by the first row without `": "`. */
  function SvnInfo(rows: seq<string>): (r: Outcome<map<string, string>>)
    ensures r.Raise? ==> r.exc == ValueError
    ensures r.Ok? <==> forall i :: 0 <= i < |rows| ==> Contains(rows[i], Pivot)
    ensures r.Ok? ==> forall k :: k in r.value <==> KeyOfSomeRow(rows, k)
  {
    if rows == [] then Ok(map[])
    else
      var init := rows[..|rows| - 1];
      assert forall i :: 0 <= i < |init| ==> init[i] == rows[i];
      match SvnInfo(init)
      case Raise(e) => Raise(e)
      case Ok(info) =>
        match ParseRow(rows[|rows| - 1])
        case None => Raise(ValueError)
        case Some(entry) =>
          KeyOfSomeRowExtend(rows);
          Ok(info[entry.0 := entry.1])
  }

  /** Some row parses to the key `k`. */
  predicate KeyOfSomeRow(rows: seq<string>, k: string) {
    exists i :: 0 <= i < |rows| && ParseRow(rows[i]).Some? && ParseRow(rows[i]).value.0 == k
  }

  /** A key of some row is a key of an earlier row or of the last one. */
  lemma KeyOfSomeRowExtend(rows: seq<string>)
    requires rows != [] && ParseRow(rows[|rows| - 1]).Some?
    ensures forall k :: KeyOfSomeRow(rows, k) <==>
      KeyOfSomeRow(rows[..|rows| - 1], k) || ParseRow(rows[|rows| - 1]).value.0 == k
  {
    var init := rows[..|rows| - 1];
    assert forall i :: 0 <= i < |init| ==> init[i] == rows[i];
  }

  /** The loop over the rows. */
  method ReadInfo(rows: seq<string>) returns (r: Outcome<map<string, string>>)
    ensures r == SvnInfo(rows)
  {
    var info := map[];
    for n := 0 to |rows|
      invariant SvnInfo(rows[..n]) == Ok(info)
    {
      assert rows[..n + 1][..n] == rows[..n];
      var row := rows[n];
      var pivot := Find(row, Pivot);
      if pivot.None? {
        assert SvnInfo(rows[..n + 1]) == Raise(ValueError);
        RaiseKeeps(rows, n + 1);
        return Raise(ValueError);
      }
      info := info[Lower(row[..pivot.value]) := row[pivot.value + 2..]];
    }
    assert rows[..|rows|] == rows;
    return Ok(info);
  }

  /** Once a prefix of the rows raises, so do all the rows. */
  lemma {:induction false} RaiseKeeps(rows: seq<string>, n: nat)
    requires n <= |rows| && SvnInfo(rows[..n]) == Raise(ValueError)
    ensures SvnInfo(rows) == Raise(ValueError)
    decreases |rows| - n
  {
    if n == |rows| {
      assert rows[..n] == rows;
    } else {
      assert rows[..n + 1][..n] == rows[..n];
      RaiseKeeps(rows, n + 1);
    }
  }

  /** A row without `": "` anywhere, the empty row included, makes the whole
      output raise ValueError. */
  lemma RowWithoutPivotRaises(rows: seq<string>, i: nat)
    requires i < |rows| && !Contains(rows[i], Pivot)
    ensures SvnInfo(rows) == Raise(ValueError)
  {
    assert rows[..i + 1][..i] == rows[..i];
    RaiseKeeps(rows, i + 1);
  }

  /** The value stored under a key is the one from the last row with that key:
      later rows overwrite earlier ones. */
  lemma {:induction false} LastRowWins(rows: seq<string>, i: nat)
    requires SvnInfo(rows).Ok? && i < |rows| && ParseRow(rows[i]).Some?
    requires forall j :: i < j < |rows| && ParseRow(rows[j]).Some? ==> ParseRow(rows[j]).value.0 != ParseRow(rows[i]).value.0
    ensures ParseRow(rows[i]).value.0 in SvnInfo(rows).value
    ensures SvnInfo(rows).value[ParseRow(rows[i]).value.0] == ParseRow(rows[i]).value.1
    decreases |rows|
  {
    var init := rows[..|rows| - 1];
    var last := ParseRow(rows[|rows| - 1]).value;
    assert SvnInfo(rows).value == SvnInfo(init).value[last.0 := last.1];
    if i < |rows| - 1 {
      var key := ParseRow(rows[i]).value.0;
      assert init[i] == rows[i];
      forall j | i < j < |init| && ParseRow(init[j]).Some?
        ensures ParseRow(init[j]).value.0 != key
      {
        assert init[j] == rows[j];
      }
      LastRowWins(init, i);
      assert last.0 != key;
    }
  }

  /** No `.svn` directory, or an `svn info` that fails, gives an empty result.
      Otherwise a row without `": "` raises ValueError, an output without a
      Revision row raises KeyError, and else the result is exactly the revision
      under the key default. */
  method SvnVersionsFromVcs(tagPrefix: string, root: string, pathExists: string -> bool, run: Runner)
    returns (r: Outcome<Dict>)
    ensures !pathExists(Join(root, ".svn")) ==> r == Ok(map[])
    ensures pathExists(Join(root, ".svn")) && run(InfoArgs, root).None? ==> r == Ok(map[])
    ensures r.Raise? ==> r.exc == ValueError || r.exc == KeyError("revision")
    ensures r.Ok? && r.value != map[] ==>
      run(InfoArgs, root).Some? && SvnInfo(Split(run(InfoArgs, root).value, '\n')).Ok?
      && var info := SvnInfo(Split(run(InfoArgs, root).value, '\n')).value;
      "revision" in info && r.value == map["default" := Str(info["revision"])]
    ensures run(InfoArgs, root).Some? && SvnInfo(Split(run(InfoArgs, root).value, '\n')).Ok?
      && pathExists(Join(root, ".svn")) && "revision" !in SvnInfo(Split(run(InfoArgs, root).value, '\n')).value
      ==> r == Raise(KeyError("revision"))
    ensures pathExists(Join(root, ".svn")) && run(InfoArgs, root).Some?
      && SvnInfo(Split(run(InfoArgs, root).value, '\n')).Raise?
      ==> r == Raise(ValueError)
    ensures pathExists(Join(root, ".svn")) && run(InfoArgs, root).Some?
      && SvnInfo(Split(run(InfoArgs, root).value, '\n')).Ok?
      && "revision" in SvnInfo(Split(run(InfoArgs, root).value, '\n')).value
      ==> r == Ok(map["default" := Str(SvnInfo(Split(run(InfoArgs, root).value, '\n')).value["revision"])])
  {
    if !pathExists(Join(root, ".svn")) {
      return Ok(map[]);
    }
    var infoRaw := run(InfoArgs, root);
    if infoRaw.None? {
      return Ok(map[]);
    }
    var rows := Split(infoRaw.value, '\n');
    var info := ReadInfo(rows);
    if info.Raise? {
      return Raise(info.exc);
    }
    if "revision" !in info.value {
      return Raise(KeyError("revision"));
    }
    return Ok(map["default" := Str(info.value["revision"])]);
  }
}
