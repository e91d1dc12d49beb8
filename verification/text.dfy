/** The Python `str` operations the version logic is built from, on `seq<char>`:
    `strip`, `split`, `splitlines`, `in`, `index`, `replace`, `lower`, `startswith`,
    `endswith` and `"%d"`. Each is written out with the edge cases Python gives it. */
module Text {
  import opened Wrappers

  /** `c.isspace()`: the characters Python treats as whitespace. */
  predicate IsSpace(c: char) {
    c == ' ' || ('\t' <= c <= '\r') || ('\U{1C}' <= c <= '\U{1F}')
    || c == '\U{85}' || c == '\U{A0}' || c == '\U{1680}' || ('\U{2000}' <= c <= '\U{200A}')
    || c == '\U{2028}' || c == '\U{2029}' || c == '\U{202F}' || c == '\U{205F}' || c == '\U{3000}'
  }

  predicate AllSpace(s: string) {
    forall i :: 0 <= i < |s| ==> IsSpace(s[i])
  }

  predicate NoSpace(s: string) {
    forall i :: 0 <= i < |s| ==> !IsSpace(s[i])
  }

  /** `s.endswith(suffix)` */
  predicate EndsWith(s: string, suffix: string) {
    |suffix| <= |s| && s[|s| - |suffix|..] == suffix
  }

  /** `s[len(prefix):]` after `s.startswith(prefix)`: what follows the prefix. */
  function DropPrefix(s: string, prefix: string): (rest: string)
    requires prefix <= s
    ensures prefix + rest == s
  {
    s[|prefix|..]
  }

  /** `s.lstrip()`: drops the leading whitespace. */
  function LStrip(s: string): (r: string)
    ensures |r| <= |s|
    ensures r == [] || !IsSpace(r[0])
    decreases |s|
  {
    if |s| > 0 && IsSpace(s[0]) then LStrip(s[1..]) else s
  }

  /** `s.rstrip()`: drops the trailing whitespace. */
  function RStrip(s: string): (r: string)
    ensures r <= s
    ensures r == [] || !IsSpace(r[|r| - 1])
    decreases |s|
  {
    if |s| > 0 && IsSpace(s[|s| - 1]) then RStrip(s[..|s| - 1]) else s
  }

  /** `s.strip()`: the result has no whitespace at either end. */
  function Strip(s: string): (r: string)
    ensures |r| <= |s|
    ensures r == [] || (!IsSpace(r[0]) && !IsSpace(r[|r| - 1]))
  {
    RStrip(LStrip(s))
  }

  /** `s.strip(chars)` for an explicit set of characters. */
  function StripChars(s: string, chars: set<char>): (r: string)
    ensures |r| <= |s|
    ensures r == [] || (r[0] !in chars && r[|r| - 1] !in chars)
    decreases |s|
  {
    if |s| > 0 && s[0] in chars then StripChars(s[1..], chars)
    else if |s| > 0 && s[|s| - 1] in chars then StripChars(s[..|s| - 1], chars)
    else s
  }

  /** A string with no whitespace at either end is its own `strip()`. */
  lemma StripUnchanged(s: string)
    requires s == [] || (!IsSpace(s[0]) && !IsSpace(s[|s| - 1]))
    ensures Strip(s) == s
  {
  }

  /** Trailing whitespace does not survive `strip()`. */
  lemma StripTrailing(s: string, t: string)
    requires s != [] && !IsSpace(s[0]) && !IsSpace(s[|s| - 1]) && AllSpace(t)
    ensures Strip(s + t) == s
  {
    assert LStrip(s + t) == s + t;
    RStripDropped(s, t);
  }

  /** `rstrip()` removes exactly a whitespace tail. */
  lemma {:induction false} RStripDropped(s: string, t: string)
    requires s != [] && !IsSpace(s[|s| - 1]) && AllSpace(t)
    ensures RStrip(s + t) == s
    decreases |t|
  {
    if t == [] {
      assert s + t == s;
    } else {
      assert (s + t)[..|s + t| - 1] == s + t[..|t| - 1];
      RStripDropped(s, t[..|t| - 1]);
    }
  }

  /** `s.split(sep)` for a one-character separator: never empty, no part holds the
      separator, and joining the parts back with the separator gives `s`. */
  function Split(s: string, sep: char): (parts: seq<string>)
    ensures |parts| >= 1
    ensures forall i :: 0 <= i < |parts| ==> sep !in parts[i]
    ensures JoinWith(parts, sep) == s
    decreases |s|
  {
    if |s| == 0 then [""]
    else
      var rest := Split(s[1..], sep);
      if s[0] == sep then
        assert ([""] + rest)[1..] == rest;
        [""] + rest
      else
        var parts := [[s[0]] + rest[0]] + rest[1..];
        assert parts[1..] == rest[1..];
        assert |rest| > 1 ==> JoinWith(rest, sep) == rest[0] + [sep] + JoinWith(rest[1..], sep);
        parts
  }

  /** `sep.join(parts)` */
  function JoinWith(parts: seq<string>, sep: char): string
    requires |parts| >= 1
  {
    if |parts| == 1 then parts[0] else parts[0] + [sep] + JoinWith(parts[1..], sep)
  }

  /** The index of the first occurrence of `c`, if any. */
  function IndexOfChar(s: string, c: char): (r: Option<nat>)
    ensures r.Some? ==> r.value < |s| && s[r.value] == c && c !in s[..r.value]
    ensures r.None? ==> c !in s
  {
    if |s| == 0 then None
    else if s[0] == c then Some(0)
    else
      var r := IndexOfChar(s[1..], c);
      assert r.Some? ==> s[..r.value + 1] == [s[0]] + s[1..][..r.value];
      assert r.None? ==> s == [s[0]] + s[1..];
      if r.Some? then Some(r.value + 1) else None
  }

  /** A first part that is not empty begins the joined text. */
  lemma JoinHead(parts: seq<string>, sep: char)
    requires |parts| >= 1 && parts[0] != [] && sep !in parts[0]
    ensures JoinWith(parts, sep) != [] && JoinWith(parts, sep)[0] == parts[0][0]
  {
  }

  /** A string without the separator splits into itself alone. */
  lemma {:induction false} SplitNone(s: string, sep: char)
    requires sep !in s
    ensures Split(s, sep) == [s]
    decreases |s|
  {
    if |s| > 0 {
      SplitNone(s[1..], sep);
      assert [s[0]] + s[1..] == s;
    }
  }

  /** The part before the first separator is split off first. */
  lemma {:induction false} SplitFirst(a: string, b: string, sep: char)
    requires sep !in a
    ensures Split(a + [sep] + b, sep) == [a] + Split(b, sep)
    decreases |a|
  {
    if |a| == 0 {
      assert a + [sep] + b == [sep] + b;
      assert ([sep] + b)[1..] == b;
    } else {
      assert (a + [sep] + b)[1..] == a[1..] + [sep] + b;
      SplitFirst(a[1..], b, sep);
      assert [a[0]] + a[1..] == a;
    }
  }

  /** Splitting at a separator between two texts splits each text on its own. */
  lemma {:induction false} SplitAppend(a: string, b: string, sep: char)
    ensures Split(a + [sep] + b, sep) == Split(a, sep) + Split(b, sep)
    decreases |a|
  {
    var s := a + [sep] + b;
    if |a| == 0 {
      assert s[0] == sep && s[1..] == b;
      assert Split(s, sep) == [""] + Split(b, sep);
    } else {
      assert s[0] == a[0] && s[1..] == a[1..] + [sep] + b;
      SplitAppend(a[1..], b, sep);
      var rest := Split(a[1..], sep);
      var tail := Split(b, sep);
      assert Split(s[1..], sep) == rest + tail;
      if a[0] == sep {
        assert Split(s, sep) == [""] + (rest + tail);
        assert Split(a, sep) == [""] + rest;
      } else {
        assert (rest + tail)[0] == rest[0] && (rest + tail)[1..] == rest[1..] + tail;
        assert Split(s, sep) == [[a[0]] + rest[0]] + (rest[1..] + tail);
        assert Split(a, sep) == [[a[0]] + rest[0]] + rest[1..];
      }
    }
  }

  /** A non-empty run of non-whitespace characters. */
  predicate IsWord(w: string) {
    w != [] && NoSpace(w)
  }

  /** `s.split()`: the maximal runs of non-whitespace characters. */
  function SplitWs(s: string): (tokens: seq<string>)
    ensures forall i :: 0 <= i < |tokens| ==> IsWord(tokens[i])
    decreases |s|
  {
    var t := LStrip(s);
    if t == [] then []
    else
      var n := TokenEnd(t);
      assert n > 0;
      [t[..n]] + SplitWs(t[n..])
  }

  /** Text that is not all whitespace has a first token: it is where the text starts
      after leading whitespace, and it runs up to the next whitespace character or to
      the end. */
  lemma SplitWsHead(s: string)
    requires LStrip(s) != []
    ensures SplitWs(s) != []
    ensures var t, w := LStrip(s), SplitWs(s)[0];
      t == w + t[|w|..] && (|w| == |t| || IsSpace(t[|w|]))
  {
    var t := LStrip(s);
    var n := TokenEnd(t);
    assert SplitWs(s)[0] == t[..n];
    assert t == t[..n] + t[n..];
  }

  /** The index of the first whitespace character, or `|s|`. */
  function TokenEnd(s: string): (n: nat)
    ensures n <= |s| && NoSpace(s[..n])
    ensures n < |s| ==> IsSpace(s[n])
  {
    if |s| == 0 || IsSpace(s[0]) then 0 else 1 + TokenEnd(s[1..])
  }

  /** A non-empty word followed by whitespace is the first token. */
  lemma SplitWsFirst(a: string, b: string)
    requires a != [] && NoSpace(a)
    ensures SplitWs(a + " " + b) == [a] + SplitWs(" " + b)
  {
    var s := a + " " + b;
    assert LStrip(s) == s;
    TokenEndWord(a, " " + b);
    assert s == a + (" " + b);
    assert s[|a|..] == " " + b;
  }

  lemma {:induction false} TokenEndWord(a: string, b: string)
    requires NoSpace(a) && |b| > 0 && IsSpace(b[0])
    ensures TokenEnd(a + b) == |a|
    decreases |a|
  {
    if |a| > 0 {
      assert (a + b)[1..] == a[1..] + b;
      TokenEndWord(a[1..], b);
    }
  }

  lemma {:induction false} TokenEndAll(a: string)
    requires NoSpace(a)
    ensures TokenEnd(a) == |a|
    decreases |a|
  {
    if |a| > 0 {
      TokenEndAll(a[1..]);
    }
  }

  /** Leading whitespace does not change the tokens. */
  lemma SplitWsLeadingSpace(b: string)
    ensures SplitWs(" " + b) == SplitWs(b)
  {
    assert (" " + b)[1..] == b;
  }

  /** A non-empty word with nothing after it is the only token. */
  lemma SplitWsWord(a: string)
    requires a != [] && NoSpace(a)
    ensures SplitWs(a) == [a]
  {
    assert LStrip(a) == a;
    TokenEndAll(a);
    assert a[..|a|] == a;
    assert a[|a|..] == [];
    assert LStrip([]) == [];
  }

  /** `sub in s` */
  predicate Contains(s: string, sub: string)
    decreases |s|
  {
    sub <= s || (|s| > 0 && Contains(s[1..], sub))
  }

  /** Occurrences in the right operand of a concatenation are occurrences in it. */
  lemma {:induction false} ContainsRight(a: string, b: string, sub: string)
    requires Contains(b, sub)
    ensures Contains(a + b, sub)
    decreases |a|
  {
    if |a| == 0 {
      assert a + b == b;
    } else {
      assert (a + b)[1..] == a[1..] + b;
      ContainsRight(a[1..], b, sub);
    }
  }

  /** Occurrences in the left operand of a concatenation are occurrences in it. */
  lemma {:induction false} ContainsLeft(a: string, b: string, sub: string)
    requires Contains(a, sub)
    ensures Contains(a + b, sub)
    decreases |a|
  {
    if sub <= a {
      assert sub <= a + b;
    } else {
      assert (a + b)[1..] == a[1..] + b;
      ContainsLeft(a[1..], b, sub);
    }
  }

  /** An occurrence at a known position is an occurrence. */
  lemma {:induction false} ContainsAt(s: string, sub: string, k: nat)
    requires k <= |s| && sub <= s[k..]
    ensures Contains(s, sub)
    decreases k
  {
    if k > 0 {
      assert s[1..][k - 1..] == s[k..];
      ContainsAt(s[1..], sub, k - 1);
    }
  }

  /** `s.index(sub)` without the exception: the first position where `sub` occurs. */
  function Find(s: string, sub: string): (r: Option<nat>)
    ensures r.Some? <==> Contains(s, sub)
    ensures r.Some? ==> r.value + |sub| <= |s| && s[r.value..r.value + |sub|] == sub
    ensures r.Some? ==> forall i :: 0 <= i < r.value ==> !(sub <= s[i..])
    decreases |s|
  {
    if sub <= s then Some(0)
    else if |s| == 0 then None
    else
      match Find(s[1..], sub)
      case None => None
      case Some(i) =>
        assert forall j :: 1 <= j <= i ==> s[j..] == s[1..][j - 1..];
        Some(i + 1)
  }

  /** `s.replace(pat, rep)`: every non-overlapping occurrence, left to right. */
  function ReplaceAll(s: string, pat: string, rep: string): string
    requires |pat| > 0
    decreases |s|
  {
    if |s| == 0 then []
    else if pat <= s then rep + ReplaceAll(s[|pat|..], pat, rep)
    else [s[0]] + ReplaceAll(s[1..], pat, rep)
  }

  /** Without an occurrence, `replace` changes nothing. */
  lemma {:induction false} ReplaceAllAbsent(s: string, pat: string, rep: string)
    requires |pat| > 0 && !Contains(s, pat)
    ensures ReplaceAll(s, pat, rep) == s
    decreases |s|
  {
    if |s| > 0 {
      ReplaceAllAbsent(s[1..], pat, rep);
      assert [s[0]] + s[1..] == s;
    }
  }

  /** With an occurrence, the replacement text is in the result. */
  lemma {:induction false} ReplaceAllInserts(s: string, pat: string, rep: string)
    requires |pat| > 0 && Contains(s, pat)
    ensures Contains(ReplaceAll(s, pat, rep), rep)
    decreases |s|
  {
    if pat <= s {
      assert rep <= rep + ReplaceAll(s[|pat|..], pat, rep);
    } else {
      ReplaceAllInserts(s[1..], pat, rep);
      ContainsRight([s[0]], ReplaceAll(s[1..], pat, rep), rep);
    }
  }

  /** `s.replace(c, rep, 1)` for a one-character pattern. */
  function ReplaceFirstChar(s: string, c: char, rep: string): (r: string)
    ensures c !in s ==> r == s
  {
    if |s| == 0 then []
    else if s[0] == c then rep + s[1..]
    else [s[0]] + ReplaceFirstChar(s[1..], c, rep)
  }

  /** Only the first occurrence is replaced. */
  lemma {:induction false} ReplaceFirstCharAt(a: string, b: string, c: char, rep: string)
    requires c !in a
    ensures ReplaceFirstChar(a + [c] + b, c, rep) == a + rep + b
    decreases |a|
  {
    if |a| == 0 {
      assert a + [c] + b == [c] + b;
      assert ([c] + b)[1..] == b;
    } else {
      var s := a + [c] + b;
      assert s[0] == a[0] && s[0] != c;
      assert s[1..] == a[1..] + [c] + b;
      assert ReplaceFirstChar(s, c, rep) == [a[0]] + ReplaceFirstChar(s[1..], c, rep);
      ReplaceFirstCharAt(a[1..], b, c, rep);
      assert [a[0]] + (a[1..] + rep + b) == a + rep + b;
    }
  }

  /** `c.lower()` on ASCII letters. */
  function LowerChar(c: char): char {
    if 'A' <= c <= 'Z' then (c as int + 32) as char else c
  }

  /** `s.lower()` */
  function Lower(s: string): (r: string)
    ensures |r| == |s|
    ensures forall i :: 0 <= i < |s| ==> r[i] == LowerChar(s[i])
  {
    seq(|s|, i requires 0 <= i < |s| => LowerChar(s[i]))
  }

  /** The characters at which `str.splitlines()` ends a line. */
  predicate IsLineBreak(c: char) {
    c == '\n' || c == '\r' || c == '\U{0B}' || c == '\U{0C}' || ('\U{1C}' <= c <= '\U{1E}')
    || c == '\U{85}' || c == '\U{2028}' || c == '\U{2029}'
  }

  /** The index of the first line break, or `|s|`. */
  function BreakIndex(s: string): (n: nat)
    ensures n <= |s|
    ensures forall i :: 0 <= i < n ==> !IsLineBreak(s[i])
    ensures n < |s| ==> IsLineBreak(s[n])
  {
    if |s| == 0 || IsLineBreak(s[0]) then 0 else 1 + BreakIndex(s[1..])
  }

  /** `s.splitlines()`: `"\r\n"` ends one line, and a final line break adds no empty line. */
  function SplitLines(s: string): (lines: seq<string>)
    ensures forall i :: 0 <= i < |lines| ==> forall j :: 0 <= j < |lines[i]| ==> !IsLineBreak(lines[i][j])
    ensures lines == [] <==> s == []
    decreases |s|
  {
    if |s| == 0 then []
    else
      var n := BreakIndex(s);
      if n == |s| then [s]
      else
        var w := if s[n] == '\r' && n + 1 < |s| && s[n + 1] == '\n' then 2 else 1;
        [s[..n]] + SplitLines(s[n + w..])
  }

  /** For text whose only line breaks are `"\n"` and that does not end with one,
      `splitlines()` agrees with `split("\n")`. */
  lemma {:induction false} SplitLinesIsSplit(s: string)
    requires s != [] && s[|s| - 1] != '\n'
    requires forall i :: 0 <= i < |s| && IsLineBreak(s[i]) ==> s[i] == '\n'
    ensures SplitLines(s) == Split(s, '\n')
    decreases |s|
  {
    var n := BreakIndex(s);
    if n == |s| {
      assert '\n' !in s;
      SplitNone(s, '\n');
    } else {
      var a, b := s[..n], s[n + 1..];
      assert s == a + ['\n'] + b;
      assert '\n' !in a;
      SplitFirst(a, b, '\n');
      assert n + 1 < |s|;
      SplitLinesIsSplit(b);
    }
  }

  predicate IsDigit(c: char) {
    '0' <= c <= '9'
  }

  predicate AllDigits(s: string) {
    forall i :: 0 <= i < |s| ==> IsDigit(s[i])
  }

  /** `re.search(r'\d', s)` for ASCII digits. */
  predicate HasDigit(s: string) {
    exists i :: 0 <= i < |s| && IsDigit(s[i])
  }

  function DigitChar(d: nat): (c: char)
    requires d < 10
    ensures IsDigit(c)
  {
    ('0' as int + d) as char
  }

  /** `"%d" % n` for a non-negative integer: its decimal digits, without leading zeros. */
  function Decimal(n: nat): (s: string)
    ensures |s| > 0 && AllDigits(s)
    ensures s[0] == '0' ==> n == 0
    decreases n
  {
    if n < 10 then [DigitChar(n)] else Decimal(n / 10) + [DigitChar(n % 10)]
  }

  /** `int(s)` for a string of ASCII digits. */
  function ParseDecimal(s: string): nat
    requires AllDigits(s)
    decreases |s|
  {
    if |s| == 0 then 0 else 10 * ParseDecimal(s[..|s| - 1]) + (s[|s| - 1] as int - '0' as int)
  }

  /** Reading the decimal rendering back gives the number. */
  lemma {:induction false} DecimalRoundTrip(n: nat)
    ensures ParseDecimal(Decimal(n)) == n
    decreases n
  {
    if n >= 10 {
      var s := Decimal(n);
      assert s[..|s| - 1] == Decimal(n / 10);
      DecimalRoundTrip(n / 10);
    }
  }
}
