/** The parsing of a `git log --format=%d` decoration, shared by all three
    keyword generations: outer parentheses stripped, split at `,`, each item
    trimmed. */
module Refs {
  import opened Wrappers
  import opened Text
  import opened StrOrder

  /** `[r.strip() for r in refnames.strip("()").split(",")]`; the callers wrap it in
      `set(...)`, so only membership matters to them. */
  function RefList(refnames: string): (refs: seq<string>)
    ensures |refs| >= 1
    ensures forall i :: 0 <= i < |refs| ==> refs[i] == [] || (!IsSpace(refs[i][0]) && !IsSpace(refs[i][|refs[i]| - 1]))
  {
    var parts := Split(StripChars(refnames, {'(', ')'}), ',');
    seq(|parts|, i requires 0 <= i < |parts| => Strip(parts[i]))
  }

  /** A name as it appears between the commas: not empty, no comma, and neither
      whitespace nor a parenthesis at either end. */
  predicate IsRefName(n: string) {
    n != [] && ',' !in n && !IsSpace(n[0]) && !IsSpace(n[|n| - 1])
    && n[0] != '(' && n[0] != ')' && n[|n| - 1] != '(' && n[|n| - 1] != ')'
  }

  /** Round trip: names joined with ", " inside parentheses parse back into the
      same names, as in `(HEAD, tag: 1.0, master)`. */
  lemma RefListOfDecoration(names: seq<string>)
    requires |names| >= 1 && forall i :: 0 <= i < |names| ==> IsRefName(names[i])
    ensures RefList("(" + Decoration(names) + ")") == names
  {
    var body := Decoration(names);
    assert StripChars("(" + body + ")", {'(', ')'}) == body by {
      DecorationEnds(names);
      StripParens(body);
    }
    RefListItems("(" + body + ")");
    SplitDecoration(names);
    StripItems(Split(body, ','), names);
  }

  /** The parsed refs are the stripped items between the commas. */
  lemma RefListItems(refnames: string)
    ensures var parts := Split(StripChars(refnames, {'(', ')'}), ',');
      |RefList(refnames)| == |parts|
      && forall i :: 0 <= i < |parts| ==> RefList(refnames)[i] == Strip(parts[i])
  {
  }

  /** Stripping the split items gives the names back. */
  lemma StripItems(parts: seq<string>, names: seq<string>)
    requires |parts| == |names| >= 1 && forall i :: 0 <= i < |names| ==> IsRefName(names[i])
    requires parts[0] == names[0] && forall i :: 1 <= i < |names| ==> parts[i] == " " + names[i]
    ensures forall i :: 0 <= i < |parts| ==> Strip(parts[i]) == names[i]
  {
    forall i | 0 <= i < |names|
      ensures Strip(parts[i]) == names[i]
    {
      if i == 0 {
        StripUnchanged(names[0]);
      } else {
        StripSpaced(names[i]);
      }
    }
  }

  lemma StripSpaced(n: string)
    requires IsRefName(n)
    ensures Strip(" " + n) == n
  {
    assert (" " + n)[1..] == n;
    assert LStrip(" " + n) == n;
  }

  /** `", ".join(names)` */
  function Decoration(names: seq<string>): string
    requires |names| >= 1
  {
    if |names| == 1 then names[0] else names[0] + ", " + Decoration(names[1..])
  }

  lemma {:induction false} DecorationEnds(names: seq<string>)
    requires |names| >= 1 && forall i :: 0 <= i < |names| ==> IsRefName(names[i])
    ensures var d := Decoration(names);
      d != [] && d[0] != '(' && d[0] != ')' && d[|d| - 1] != '(' && d[|d| - 1] != ')'

    decreases |names|
  {
    if |names| > 1 {
      DecorationEnds(names[1..]);
    }
  }

  /** Splitting a decoration at `,` leaves the names, each after the first with its
      leading space. */
  lemma {:induction false} SplitDecoration(names: seq<string>)
    requires |names| >= 1 && forall i :: 0 <= i < |names| ==> IsRefName(names[i])
    ensures var parts := Split(Decoration(names), ',');
      |parts| == |names| && parts[0] == names[0]
      && forall i :: 1 <= i < |names| ==> parts[i] == " " + names[i]
    decreases |names|
  {
    if |names| == 1 {
      SplitNone(names[0], ',');
    } else {
      var rest := Decoration(names[1..]);
      assert Decoration(names) == names[0] + [','] + (" " + rest);
      SplitFirst(names[0], " " + rest, ',');
      SplitDecoration(names[1..]);
      SplitNone(" " + names[1][..0], ',');
      SpacedSplit(rest);
    }
  }

  /** A leading space stays with the first part. */
  lemma SpacedSplit(s: string)
    ensures var a, b := Split(" " + s, ','), Split(s, ',');
      |a| == |b| && a[0] == " " + b[0] && a[1..] == b[1..]
  {
    assert (" " + s)[1..] == s;
  }

  /** Outer parentheses are stripped, and nothing more when the text does not
      itself begin or end with one. */
  lemma StripParens(body: string)
    requires body != [] && body[0] != '(' && body[0] != ')'
    requires body[|body| - 1] != '(' && body[|body| - 1] != ')'
    ensures StripChars("(" + body + ")", {'(', ')'}) == body
  {
    var s := "(" + body + ")";
    var parens := {'(', ')'};
    assert StripChars(body, parens) == body;
    assert (body + ")")[..|body|] == body;
    assert StripChars(body + ")", parens) == body;
    assert s[1..] == body + ")";
  }

  /** `refs.discard("HEAD"); refs.discard("master")` */
  function DropBranches(refs: seq<string>): (kept: seq<string>)
    ensures forall r :: r in kept <==> r in refs && r != "HEAD" && r != "master"
  {
    if refs == [] then []
    else if refs[0] == "HEAD" || refs[0] == "master" then DropBranches(refs[1..])
    else [refs[0]] + DropBranches(refs[1..])
  }

  /** The loop over `reversed(sorted(refs))`: the first ref that starts with the
      prefix, with the prefix removed. */
  function GreatestTag(refs: seq<string>, tagPrefix: string): Option<string> {
    var rev := Reverse(SortedSet(refs));
    match FirstWithPrefix(rev, tagPrefix)
    case None => None
    case Some(k) => Some(rev[k][|tagPrefix|..])
  }

  /** The selected ref is the greatest one that starts with the prefix; there is
      none exactly when no ref has the prefix. */
  lemma GreatestTagIsGreatest(refs: seq<string>, tagPrefix: string)
    ensures GreatestTag(refs, tagPrefix).None? <==> forall c :: c in refs ==> !(tagPrefix <= c)
    ensures GreatestTag(refs, tagPrefix).Some? ==>
      var m := tagPrefix + GreatestTag(refs, tagPrefix).value;
      m in refs && forall c :: c in refs && tagPrefix <= c ==> c == m || Less(c, m)
  {
    var sorted := SortedSet(refs);
    var rev := Reverse(sorted);
    match FirstWithPrefix(rev, tagPrefix)
    case None =>
      forall c | c in refs ensures !(tagPrefix <= c) {
        var i :| 0 <= i < |sorted| && sorted[i] == c;
        assert rev[|sorted| - 1 - i] == c;
      }
    case Some(k) =>
      assert tagPrefix + rev[k][|tagPrefix|..] == rev[k];
      assert rev[k] == sorted[|sorted| - 1 - k];
      assert rev[k] in refs;
      FirstOfReversedIsGreatest(sorted, tagPrefix);
  }
}
