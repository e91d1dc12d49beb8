/** The line scan shared by the two keyword readers: each line whose stripped text
    starts with `<name> =` assigns the text captured by the regular expression
    `=\s*"(.*)"` to a dictionary key, and later lines override earlier ones. */
module KeywordScan {
  import opened Wrappers
  import opened Text

  /** The first index at or after `j` that is not whitespace, or `|s|`. */
  function SkipSpace(s: string, j: nat): (k: nat)
    requires j <= |s|
    ensures j <= k <= |s| && AllSpace(s[j..k])
    ensures k < |s| ==> !IsSpace(s[k])
    decreases |s| - j
  {
    if j < |s| && IsSpace(s[j]) then SkipSpace(s, j + 1) else j
  }

  /** The first index at or after `j` holding a `\n`, or `|s|`: where `.*` stops. */
  function LineEnd(s: string, j: nat): (k: nat)
    requires j <= |s|
    ensures j <= k <= |s| && '\n' !in s[j..k]
    ensures k < |s| ==> s[k] == '\n'
    decreases |s| - j
  {
    if j < |s| && s[j] != '\n' then LineEnd(s, j + 1) else j
  }

  /** The last index in `[lo, hi)` holding a `"`. */
  function LastQuote(s: string, lo: nat, hi: nat): (r: Option<nat>)
    requires lo <= hi <= |s|
    ensures r.Some? ==> lo <= r.value < hi && s[r.value] == '"'
    ensures r.Some? ==> forall k :: r.value < k < hi ==> s[k] != '"'
    ensures r.None? ==> forall k :: lo <= k < hi ==> s[k] != '"'
    decreases hi - lo
  {
    if lo == hi then None
    else if s[hi - 1] == '"' then Some(hi - 1)
    else LastQuote(s, lo, hi - 1)
  }

  /** After position `i` come whitespace, then `value` between two `"`, all on one line. */
  predicate QuotedAfter(s: string, i: nat, value: string) {
    exists j, k :: i < j < k < |s| && AllSpace(s[i + 1..j]) && s[j] == '"' && s[k] == '"'
      && '\n' !in s[j + 1..k] && value == s[j + 1..k]
  }

  /** The rest of the pattern, `"(.*)"`, tried at position `j`: the greedy `.*`
      reaches the last `"` before the end of the line. */
  function QuotedAt(s: string, j: nat): Option<string>
    requires j <= |s|
  {
    if j < |s| && s[j] == '"' then
      match LastQuote(s, j + 1, LineEnd(s, j + 1))
      case None => None
      case Some(k) => Some(s[j + 1..k])
    else None
  }

  /** The pattern `=\s*"(.*)"` tried at position `i`: whitespace after the `=` is
      skipped before the quoted part. */
  function MatchAt(s: string, i: nat): Option<string>
    requires i < |s|
  {
    if s[i] != '=' then None else QuotedAt(s, SkipSpace(s, i + 1))
  }

  lemma NoNewlineBefore(s: string, a: nat, k: nat, e: nat)
    requires a <= k <= e <= |s| && '\n' !in s[a..e]
    ensures '\n' !in s[a..k]
  {
    assert s[a..k] == s[a..e][..k - a];
  }

  /** What a match at `i` consists of. */
  lemma MatchAtShape(s: string, i: nat)
    requires i < |s| && MatchAt(s, i).Some?
    ensures s[i] == '=' && QuotedAfter(s, i, MatchAt(s, i).value)
  {
    var j := SkipSpace(s, i + 1);
    assert QuotedAt(s, j).Some?;
    var e := LineEnd(s, j + 1);
    var k := LastQuote(s, j + 1, e).value;
    assert MatchAt(s, i).value == s[j + 1..k];
    NoNewlineBefore(s, j + 1, k, e);
    assert i < j < k < |s| && AllSpace(s[i + 1..j]) && s[j] == '"' && s[k] == '"';
  }

  /** `re.search(...)` from position `i`: the leftmost position where the pattern
      matches. */
  function SearchFrom(s: string, i: nat): (r: Option<nat>)
    requires i <= |s|
    ensures r.Some? ==> i <= r.value < |s| && MatchAt(s, r.value).Some?
    ensures r.Some? ==> forall p :: i <= p < r.value ==> MatchAt(s, p).None?
    ensures r.None? ==> forall p :: i <= p < |s| ==> MatchAt(s, p).None?
    decreases |s| - i
  {
    if i == |s| then None
    else if MatchAt(s, i).Some? then Some(i)
    else SearchFrom(s, i + 1)
  }

  /** `mo = re.search(r'=\s*"(.*)"', line)`, and `mo.group(1)` when it matched. */
  function Capture(line: string): Option<string> {
    match SearchFrom(line, 0)
    case None => None
    case Some(i) => MatchAt(line, i)
  }

  /** Position `i` holds an `=` and no match starts before it. */
  predicate FirstMatch(line: string, i: nat) {
    i < |line| && line[i] == '=' && forall p :: 0 <= p < i ==> MatchAt(line, p).None?
  }

  /** A capture is the text between two quotes on one line, after an `=` and
      whitespace, and no earlier `=` starts a match. */
  lemma CaptureShape(line: string)
    requires Capture(line).Some?
    ensures exists i :: FirstMatch(line, i) && QuotedAfter(line, i, Capture(line).value)
  {
    var i := SearchFrom(line, 0).value;
    MatchAtShape(line, i);
  }

  /** The matches tried before the first `=` all fail. */
  lemma {:induction false} SearchSkips(s: string, i: nat, p: nat)
    requires i <= p < |s|
    requires forall q :: i <= q < p ==> s[q] != '='
    ensures SearchFrom(s, i) == SearchFrom(s, p)
    decreases p - i
  {
    if i < p {
      assert MatchAt(s, i).None?;
      SearchSkips(s, i + 1, p);
    }
  }

  /** Round trip: the value written between the quotes of an assignment line is the
      value read back, whatever quotes it holds itself. */
  lemma CaptureOfAssignment(name: string, gap: string, value: string, rest: string)
    requires '=' !in name && AllSpace(gap) && '\n' !in value
    requires rest == [] || rest[0] == '\n'
    ensures Capture(name + "=" + gap + "\"" + value + "\"" + rest) == Some(value)
  {
    var s := name + "=" + gap + "\"" + value + "\"" + rest;
    var i := |name|;
    var j := i + 1 + |gap|;
    var k := j + 1 + |value|;
    assert s[..i] == name;
    assert s[i] == '=';
    assert s[i + 1..j] == gap;
    assert s[j] == '"' && s[k] == '"';
    assert s[j + 1..k] == value;
    assert s[k + 1..] == rest;
    SearchSkips(s, 0, i);
    MatchOfShape(s, i, j, k);
  }

  /** The match at an `=` followed by whitespace and a quoted value that ends its line. */
  lemma MatchOfShape(s: string, i: nat, j: nat, k: nat)
    requires i < j < k < |s| && s[i] == '=' && AllSpace(s[i + 1..j]) && !IsSpace(s[j])
    requires s[j] == '"' && s[k] == '"' && '\n' !in s[j + 1..k]
    requires k + 1 == |s| || s[k + 1] == '\n'
    ensures MatchAt(s, i) == Some(s[j + 1..k])
  {
    SkipSpaceOver(s, i + 1, j);
    assert '\n' !in s[j + 1..k + 1] by {
      assert s[j + 1..k + 1] == s[j + 1..k] + [s[k]];
    }
    LineEndOver(s, j + 1, k + 1);
    assert LastQuote(s, j + 1, k + 1) == Some(k);
  }

  lemma {:induction false} SkipSpaceOver(s: string, j: nat, k: nat)
    requires j <= k < |s| && AllSpace(s[j..k]) && !IsSpace(s[k])
    ensures SkipSpace(s, j) == k
    decreases k - j
  {
    if j < k {
      assert s[j] == s[j..k][0];
      assert s[j + 1..k] == s[j..k][1..];
      SkipSpaceOver(s, j + 1, k);
    }
  }

  lemma {:induction false} LineEndOver(s: string, j: nat, k: nat)
    requires j <= k <= |s| && '\n' !in s[j..k]
    requires k == |s| || s[k] == '\n'
    ensures LineEnd(s, j) == k
    decreases k - j
  {
    if j < k {
      assert s[j] == s[j..k][0];
      assert s[j + 1..k] == s[j..k][1..];
      LineEndOver(s, j + 1, k);
    }
  }

  /** One `if line.strip().startswith(prefix): ... keywords[key] = mo.group(1)`. */
  datatype Assignment = Assignment(prefix: string, key: string)

  /** Whether `line` assigns through entry `a`. */
  predicate Assigns(line: string, a: Assignment) {
    a.prefix <= Strip(line) && Capture(line).Some?
  }

  /** Whether some entry of the table with key `k` assigns through `line`. */
  predicate AssignsKey(line: string, table: seq<Assignment>, k: string) {
    table != [] && ((table[|table| - 1].key == k && Assigns(line, table[|table| - 1]))
      || AssignsKey(line, table[..|table| - 1], k))
  }

  /** The entries of the table applied to one line, in order. */
  function Step(d: map<string, string>, line: string, table: seq<Assignment>): map<string, string> {
    if table == [] then d
    else
      var a := table[|table| - 1];
      var prior := Step(d, line, table[..|table| - 1]);
      if Assigns(line, a) then prior[a.key := Capture(line).value] else prior
  }

  /** One line sets key `k` exactly when an entry naming `k` matches it, and then to
      the line's capture; every other key keeps its value. */
  lemma {:induction false} StepKey(d: map<string, string>, line: string, table: seq<Assignment>, k: string)
    ensures AssignsKey(line, table, k) ==>
      Capture(line).Some? && k in Step(d, line, table) && Step(d, line, table)[k] == Capture(line).value
    ensures !AssignsKey(line, table, k) ==>
      (k in Step(d, line, table) <==> k in d) && (k in d ==> Step(d, line, table)[k] == d[k])
    decreases |table|
  {
    if table != [] {
      StepKey(d, line, table[..|table| - 1], k);
    }
  }

  /** The dictionary after reading `lines` front to back. */
  function Scan(lines: seq<string>, table: seq<Assignment>): map<string, string> {
    if lines == [] then map[]
    else Step(Scan(lines[..|lines| - 1], table), lines[|lines| - 1], table)
  }

  /** The loop over the lines of the file. */
  method ScanLines(lines: seq<string>, table: seq<Assignment>) returns (d: map<string, string>)
    ensures d == Scan(lines, table)
  {
    d := map[];
    for n := 0 to |lines|
      invariant d == Scan(lines[..n], table)
    {
      d := ApplyLine(d, lines[n], table);
      assert lines[..n + 1][..n] == lines[..n];
    }
    assert lines[..|lines|] == lines;
  }

  /** The tests of one line against each entry, in order. */
  method ApplyLine(d0: map<string, string>, line: string, table: seq<Assignment>) returns (d: map<string, string>)
    ensures d == Step(d0, line, table)
  {
    d := d0;
    var stripped := Strip(line);
    for m := 0 to |table|
      invariant d == Step(d0, line, table[..m])
    {
      var a := table[m];
      if a.prefix <= stripped {
        var mo := Capture(line);
        if mo.Some? {
          d := d[a.key := mo.value];
        }
      }
      assert table[..m + 1][..m] == table[..m];
    }
    assert table[..|table|] == table;
  }

  /** Only keys named in the table are ever set. */
  lemma {:induction false} ScanKeys(lines: seq<string>, table: seq<Assignment>, k: string)
    requires k in Scan(lines, table)
    ensures exists i :: 0 <= i < |table| && table[i].key == k
    decreases |lines|
  {
    var init := lines[..|lines| - 1];
    StepKey(Scan(init, table), lines[|lines| - 1], table, k);
    if AssignsKey(lines[|lines| - 1], table, k) {
      AssignsKeyNamed(lines[|lines| - 1], table, k);
    } else {
      ScanKeys(init, table, k);
    }
  }

  lemma {:induction false} AssignsKeyNamed(line: string, table: seq<Assignment>, k: string)
    requires AssignsKey(line, table, k)
    ensures exists i :: 0 <= i < |table| && table[i].key == k
    decreases |table|
  {
    if table[|table| - 1].key != k {
      AssignsKeyNamed(line, table[..|table| - 1], k);
      var i :| 0 <= i < |table| - 1 && table[..|table| - 1][i].key == k;
      assert table[i].key == k;
    }
  }

  /** A key is set by the last line that assigns it: later lines override earlier
      ones. */
  lemma {:induction false} ScanLastWins(lines: seq<string>, table: seq<Assignment>, k: string, i: nat)
    requires i < |lines| && AssignsKey(lines[i], table, k)
    requires forall j :: i < j < |lines| ==> !AssignsKey(lines[j], table, k)
    ensures Capture(lines[i]).Some?
    ensures k in Scan(lines, table) && Scan(lines, table)[k] == Capture(lines[i]).value
    decreases |lines|
  {
    var init := lines[..|lines| - 1];
    StepKey(Scan(init, table), lines[|lines| - 1], table, k);
    if i < |lines| - 1 {
      assert forall j :: i < j < |init| ==> init[j] == lines[j];
      ScanLastWins(init, table, k, i);
    }
  }

  /** A key no line assigns stays absent. */
  lemma {:induction false} ScanUnset(lines: seq<string>, table: seq<Assignment>, k: string)
    requires forall j :: 0 <= j < |lines| ==> !AssignsKey(lines[j], table, k)
    ensures k !in Scan(lines, table)
    decreases |lines|
  {
    if lines != [] {
      var init := lines[..|lines| - 1];
      StepKey(Scan(init, table), lines[|lines| - 1], table, k);
      ScanUnset(init, table, k);
    }
  }
}
