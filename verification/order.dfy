/** Python's ordering of `str` values (code point by code point, a proper prefix
    first), `sorted(set(xs))`, `reversed(...)`, and the first-match search the tag
    selection loops perform over a sorted sequence. */
module StrOrder {
  import opened Wrappers

  /** `a < b` on Python strings. */
  predicate Less(a: string, b: string)
    decreases |a|
  {
    |b| > 0 && (|a| == 0 || a[0] < b[0] || (a[0] == b[0] && Less(a[1..], b[1..])))
  }

  lemma {:induction false} LessIrreflexive(a: string)
    ensures !Less(a, a)
    decreases |a|
  {
    if |a| > 0 {
      LessIrreflexive(a[1..]);
    }
  }

  lemma {:induction false} LessTransitive(a: string, b: string, c: string)
    requires Less(a, b) && Less(b, c)
    ensures Less(a, c)
    decreases |a|
  {
    if |a| > 0 && a[0] == b[0] && b[0] == c[0] {
      LessTransitive(a[1..], b[1..], c[1..]);
    }
  }

  /** Two different strings are ordered one way or the other. */
  lemma {:induction false} LessTotal(a: string, b: string)
    requires a != b
    ensures Less(a, b) || Less(b, a)
    decreases |a|
  {
    if |a| > 0 && |b| > 0 && a[0] == b[0] {
      assert a == [a[0]] + a[1..] && b == [b[0]] + b[1..];
      LessTotal(a[1..], b[1..]);
    }
  }

  lemma LessAsymmetric(a: string, b: string)
    requires Less(a, b)
    ensures !Less(b, a)
  {
    if Less(b, a) {
      LessTransitive(a, b, a);
      LessIrreflexive(a);
    }
  }

  /** A string sorts before every longer string it begins: "2.0" before "2.0rc1". */
  lemma {:induction false} LessPrefix(a: string, x: string)
    requires x != []
    ensures Less(a, a + x)
    decreases |a|
  {
    if |a| > 0 {
      assert (a + x)[1..] == a[1..] + x;
      LessPrefix(a[1..], x);
    }
  }

  /** Strictly ascending: sorted, without repeats. */
  predicate Ascending(xs: seq<string>) {
    forall i, j :: 0 <= i < j < |xs| ==> Less(xs[i], xs[j])
  }

  /** Adds `x` to an ascending sequence, keeping it ascending and repeat-free. */
  function Insert(x: string, xs: seq<string>): (r: seq<string>)
    requires Ascending(xs)
    ensures Ascending(r)
    ensures forall y :: y in r <==> (y == x || y in xs)
  {
    if xs == [] then [x]
    else if x == xs[0] then xs
    else if Less(x, xs[0]) then
      forall j | 0 < j < |xs| ensures Less(x, xs[j]) {
        LessTransitive(x, xs[0], xs[j]);
      }
      [x] + xs
    else
      LessTotal(x, xs[0]);
      var tail := Insert(x, xs[1..]);
      assert forall y :: y in xs[1..] ==> Less(xs[0], y);
      [xs[0]] + tail
  }

  /** `sorted(set(xs))`: the distinct elements of `xs`, ascending. */
  function SortedSet(xs: seq<string>): (r: seq<string>)
    ensures Ascending(r)
    ensures forall y :: y in r <==> y in xs
  {
    if xs == [] then [] else Insert(xs[|xs| - 1], SortedSet(xs[..|xs| - 1]))
  }

  /** An ascending sequence is determined by its elements, so `sorted(set(xs))` does
      not depend on the order or the repeats in `xs`. */
  lemma {:induction false} AscendingUnique(xs: seq<string>, ys: seq<string>)
    requires Ascending(xs) && Ascending(ys)
    requires forall y :: y in xs <==> y in ys
    ensures xs == ys
    decreases |xs|
  {
    SameElementsEmpty(xs, ys);
    if xs != [] {
      HeadIsLeast(xs, ys[0]);
      HeadIsLeast(ys, xs[0]);
      LessAntisymmetric(xs[0], ys[0]);
      forall y ensures y in xs[1..] <==> y in ys[1..] {
        if y in xs[1..] {
          HeadNotInTail(xs, y);
        }
        if y in ys[1..] {
          HeadNotInTail(ys, y);
        }
        assert y in xs <==> y == xs[0] || y in xs[1..];
        assert y in ys <==> y == ys[0] || y in ys[1..];
      }
      AscendingUnique(xs[1..], ys[1..]);
    }
  }

  lemma SameElementsEmpty(xs: seq<string>, ys: seq<string>)
    requires forall y :: y in xs <==> y in ys
    ensures xs == [] <==> ys == []
  {
    if xs != [] {
      assert xs[0] in ys;
    }
    if ys != [] {
      assert ys[0] in xs;
    }
  }

  lemma LessAntisymmetric(a: string, b: string)
    ensures !(Less(a, b) && Less(b, a))
  {
    if Less(a, b) {
      LessAsymmetric(a, b);
    }
  }

  lemma HeadIsLeast(xs: seq<string>, y: string)
    requires Ascending(xs) && y in xs
    ensures y == xs[0] || Less(xs[0], y)
  {
    var j :| 0 <= j < |xs| && xs[j] == y;
  }

  lemma HeadNotInTail(xs: seq<string>, y: string)
    requires Ascending(xs) && xs != [] && y in xs[1..]
    ensures y != xs[0]
  {
    var j :| 1 <= j < |xs| && xs[j] == y;
    LessIrreflexive(xs[0]);
  }

  /** `reversed(xs)` */
  function Reverse(xs: seq<string>): (r: seq<string>)
    ensures |r| == |xs|
    ensures forall i :: 0 <= i < |xs| ==> r[i] == xs[|xs| - 1 - i]
  {
    if xs == [] then [] else [xs[|xs| - 1]] + Reverse(xs[..|xs| - 1])
  }

  /** `for r in xs: if r.startswith(p): ...; break`: the index of the first element
      that starts with `p`. */
  function FirstWithPrefix(xs: seq<string>, p: string): (r: Option<nat>)
    ensures r.Some? ==> r.value < |xs| && p <= xs[r.value]
    ensures r.Some? ==> forall i :: 0 <= i < r.value ==> !(p <= xs[i])
    ensures r.None? ==> forall i :: 0 <= i < |xs| ==> !(p <= xs[i])
  {
    if xs == [] then None
    else if p <= xs[0] then Some(0)
    else
      match FirstWithPrefix(xs[1..], p)
      case None => None
      case Some(k) => Some(k + 1)
  }

  /** In an ascending sequence the first element with the prefix is the least one. */
  lemma FirstIsLeast(xs: seq<string>, p: string)
    requires Ascending(xs) && FirstWithPrefix(xs, p).Some?
    ensures var m := xs[FirstWithPrefix(xs, p).value];
      forall y :: y in xs && p <= y ==> y == m || Less(m, y)
  {
  }

  /** In a reversed ascending sequence the first element with the prefix is the
      greatest one. */
  lemma FirstOfReversedIsGreatest(xs: seq<string>, p: string)
    requires Ascending(xs) && FirstWithPrefix(Reverse(xs), p).Some?
    ensures var m := Reverse(xs)[FirstWithPrefix(Reverse(xs), p).value];
      forall y :: y in xs && p <= y ==> y == m || Less(y, m)
  {
    var r := Reverse(xs);
    var k := FirstWithPrefix(r, p).value;
    forall y | y in xs && p <= y
      ensures y == r[k] || Less(y, r[k])
    {
      var j :| 0 <= j < |xs| && xs[j] == y;
      assert r[|xs| - 1 - j] == y;
    }
  }
}
