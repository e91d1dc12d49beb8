/** `render(pieces)` of render.py, the "pep440" style: a version string of the form
    `TAG[+DISTANCE.gHEX[.dirty]]`, or `0+untagged.DISTANCE.gHEX[.dirty]` without a
    tag, following the local version identifiers of section 6 of PEP 440 ("Local
    version identifiers"), and a parser that reads those strings back. */
module Render {
  import opened Wrappers
  import opened Text
  import opened Py

  /** The pieces a VCS back end reports about the checked-out revision. */
  datatype Pieces = Pieces(closestTag: Option<string>, distance: nat, short: string,
                           long: string, dirty: bool, error: Option<string>)

  /** `if pieces["closest-tag"]:` (None and "" are false). */
  predicate Tagged(p: Pieces) {
    TruthyStr(p.closestTag)
  }

  const DirtyMark := ".dirty"
  const Untagged := "0+untagged."

  /** The local segment: `DISTANCE.gHEX[.dirty]`. */
  function LocalPart(distance: nat, short: string, dirty: bool): string {
    Decimal(distance) + ".g" + short + (if dirty then DirtyMark else "")
  }

  /** The version string `render` builds. */
  function RenderVersion(p: Pieces): (v: string)
    ensures Tagged(p) ==> p.closestTag.value <= v
    ensures !Tagged(p) ==> Untagged <= v
  {
    if Tagged(p) then
      var version := p.closestTag.value;
      if p.distance != 0 || p.dirty then
        version + "+" + LocalPart(p.distance, p.short, p.dirty)
      else version
    else Untagged + LocalPart(p.distance, p.short, p.dirty)
  }

  /** `render(pieces)`: the version dictionary. */
  function RenderPieces(p: Pieces): (d: Dict)
    ensures d.Keys == {"version", "full-revisionid", "dirty", "error"}
    ensures d["version"] == Str(RenderVersion(p)) && d["full-revisionid"] == Str(p.long)
    ensures d["dirty"] == Bool(p.dirty) && d["error"] == Null
  {
    map["version" := Str(RenderVersion(p)), "full-revisionid" := Str(p.long),
        "dirty" := Bool(p.dirty), "error" := Null]
  }

  /** The pieces' own error is never read. */
  lemma RenderIgnoresError(p: Pieces, error: Option<string>)
    ensures RenderPieces(p.(error := error)) == RenderPieces(p)
  {
  }

  /** The three shapes: a clean build at a tag is the tag itself; a tagged build
      after the tag or dirty adds `+DISTANCE.gHEX`, then `.dirty` when dirty; an
      untagged build is `0+untagged.DISTANCE.gHEX`, then `.dirty` when dirty. */
  lemma RenderShapes(p: Pieces)
    ensures Tagged(p) && p.distance == 0 && !p.dirty ==> RenderVersion(p) == p.closestTag.value
    ensures Tagged(p) && (p.distance != 0 || p.dirty) ==>
      RenderVersion(p) == p.closestTag.value + "+" + Decimal(p.distance) + ".g" + p.short
                          + (if p.dirty then DirtyMark else "")
    ensures !Tagged(p) ==>
      RenderVersion(p) == Untagged + Decimal(p.distance) + ".g" + p.short
                          + (if p.dirty then DirtyMark else "")
  {
  }

  /** A dirty build always ends with `.dirty`. */
  lemma DirtyIsMarked(p: Pieces)
    requires p.dirty
    ensures EndsWith(RenderVersion(p), DirtyMark)
  {
    var v := RenderVersion(p);
    assert v == v[..|v| - |DirtyMark|] + DirtyMark;
  }

  /** What can be read back from a rendered version. */
  datatype Description = Description(tag: Option<string>, distance: nat, short: string, dirty: bool)

  /** Reads a local segment `DISTANCE.gHEX[.dirty]`. */
  function ParseLocal(local: string): Option<(nat, string, bool)> {
    var parts := Split(local, '.');
    if (|parts| == 2 || (|parts| == 3 && parts[2] == "dirty"))
       && parts[0] != [] && AllDigits(parts[0]) && "g" <= parts[1]
    then Some((ParseDecimal(parts[0]), parts[1][1..], |parts| == 3))
    else None
  }

  /** Reads a rendered version back: a lone tag, `TAG+LOCAL` or `0+untagged.LOCAL`. */
  function ParseVersion(v: string): Option<Description> {
    var parts := Split(v, '+');
    if |parts| == 1 then Some(Description(Some(v), 0, "", false))
    else if |parts| != 2 then None
    else if parts[0] == "0" && "untagged." <= parts[1] then
      match ParseLocal(parts[1][9..])
      case None => None
      case Some(l) => Some(Description(None, l.0, l.1, l.2))
    else
      match ParseLocal(parts[1])
      case None => None
      case Some(l) => Some(Description(Some(parts[0]), l.0, l.1, l.2))
  }

  lemma DecimalHasNoSeparators(n: nat)
    ensures '.' !in Decimal(n) && '+' !in Decimal(n)
  {
    var s := Decimal(n);
    forall i | 0 <= i < |s|
      ensures s[i] != '.' && s[i] != '+'
    {
      assert IsDigit(s[i]);
    }
  }

  /** The hex part `gHEX`, then `.dirty` when dirty, splits at its one dot. */
  lemma SplitTail(short: string, dirty: bool)
    requires '.' !in short
    ensures Split("g" + short + (if dirty then DirtyMark else ""), '.')
            == ["g" + short] + (if dirty then ["dirty"] else [])
  {
    var hex := "g" + short;
    assert '.' !in hex;
    if dirty {
      assert hex + DirtyMark == hex + ['.'] + "dirty";
      SplitFirst(hex, "dirty", '.');
      SplitNone("dirty", '.');
    } else {
      assert hex + "" == hex;
      SplitNone(hex, '.');
    }
  }

  /** The local segment splits into the digits, the hex part and the dirty mark. */
  lemma SplitLocal(distance: nat, short: string, dirty: bool)
    requires '.' !in short
    ensures Split(LocalPart(distance, short, dirty), '.')
            == [Decimal(distance), "g" + short] + (if dirty then ["dirty"] else [])
  {
    var digits := Decimal(distance);
    var rest := "g" + short + (if dirty then DirtyMark else "");
    DecimalHasNoSeparators(distance);
    assert LocalPart(distance, short, dirty) == digits + ['.'] + rest;
    SplitFirst(digits, rest, '.');
    SplitTail(short, dirty);
  }

  /** The local segment reads back to the distance, the short id and the dirty flag. */
  lemma LocalRoundTrip(distance: nat, short: string, dirty: bool)
    requires '.' !in short
    ensures ParseLocal(LocalPart(distance, short, dirty)) == Some((distance, short, dirty))
  {
    SplitLocal(distance, short, dirty);
    var parts := Split(LocalPart(distance, short, dirty), '.');
    assert ("g" + short)[1..] == short;
    DecimalRoundTrip(distance);
    assert |parts| == 3 <==> dirty;
  }

  /** The local segment holds no `+`. */
  lemma LocalHasNoPlus(distance: nat, short: string, dirty: bool)
    requires '+' !in short
    ensures '+' !in LocalPart(distance, short, dirty)
  {
    DecimalHasNoSeparators(distance);
    var l := LocalPart(distance, short, dirty);
    forall i | 0 <= i < |l|
      ensures l[i] != '+'
    {
      var d := Decimal(distance);
      if i < |d| {
        assert l[i] == d[i];
      } else if i >= |d| + 2 && i < |d| + 2 + |short| {
        assert l[i] == short[i - |d| - 2];
      }
    }
  }

  /** `TAG+LOCAL` reads back to the tag and the local segment's parts. */
  lemma ParseTagged(tag: string, local: string)
    requires '+' !in tag && '+' !in local && local != [] && IsDigit(local[0])
    ensures ParseVersion(tag + "+" + local) == match ParseLocal(local)
      case None => None
      case Some(l) => Some(Description(Some(tag), l.0, l.1, l.2))
  {
    assert tag + "+" + local == tag + ['+'] + local;
    SplitFirst(tag, local, '+');
    SplitNone(local, '+');
    assert !("untagged." <= local);
  }

  /** `0+untagged.LOCAL` reads back to no tag and the local segment's parts. */
  lemma ParseUntagged(local: string)
    requires '+' !in local
    ensures ParseVersion(Untagged + local) == match ParseLocal(local)
      case None => None
      case Some(l) => Some(Description(None, l.0, l.1, l.2))
  {
    var rest := "untagged." + local;
    assert Untagged + local == "0" + ['+'] + rest;
    assert '+' !in rest;
    SplitFirst("0", rest, '+');
    SplitNone(rest, '+');
    assert rest[9..] == local;
  }

  /** Parsing a rendered version recovers the tag, the distance, the short id and
      the dirty flag; a clean build at a tag keeps only its tag. The tag and the short
      id must not contain the separators. */
  lemma RenderRoundTrip(p: Pieces)
    requires Tagged(p) ==> '+' !in p.closestTag.value
    requires '.' !in p.short && '+' !in p.short
    ensures Tagged(p) && p.distance == 0 && !p.dirty ==>
      ParseVersion(RenderVersion(p)) == Some(Description(p.closestTag, 0, "", false))
    ensures Tagged(p) && (p.distance != 0 || p.dirty) ==>
      ParseVersion(RenderVersion(p)) == Some(Description(p.closestTag, p.distance, p.short, p.dirty))
    ensures !Tagged(p) ==>
      ParseVersion(RenderVersion(p)) == Some(Description(None, p.distance, p.short, p.dirty))
  {
    var local := LocalPart(p.distance, p.short, p.dirty);
    LocalHasNoPlus(p.distance, p.short, p.dirty);
    LocalRoundTrip(p.distance, p.short, p.dirty);
    if Tagged(p) {
      var tag := p.closestTag.value;
      if p.distance != 0 || p.dirty {
        assert local[0] == Decimal(p.distance)[0];
        ParseTagged(tag, local);
      } else {
        SplitNone(tag, '+');
      }
    } else {
      ParseUntagged(local);
    }
  }
}
