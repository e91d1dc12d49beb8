/** The parts of `posixpath` the version logic uses: `basename`, `dirname`, `join` and
    `splitext`, on `/`-separated strings. */
module Paths {
  import opened Wrappers
  import opened Text

  predicate AllSlashes(s: string) {
    forall i :: 0 <= i < |s| ==> s[i] == '/'
  }

  /** The index just after the last `/`, or 0 when there is none. */
  function AfterLastSlash(p: string): (i: nat)
    ensures i <= |p|
    ensures forall j :: i <= j < |p| ==> p[j] != '/'
    ensures i > 0 ==> p[i - 1] == '/'
  {
    if |p| == 0 then 0 else if p[|p| - 1] == '/' then |p| else AfterLastSlash(p[..|p| - 1])
  }

  /** A tail without `/` does not move the last `/`. */
  lemma {:induction false} AfterLastSlashTail(x: string, c: string)
    requires x == [] || x[|x| - 1] == '/'
    requires '/' !in c
    ensures AfterLastSlash(x + c) == |x|
    decreases |c|
  {
    if c == [] {
      assert x + c == x;
    } else {
      assert (x + c)[..|x + c| - 1] == x + c[..|c| - 1];
      AfterLastSlashTail(x, c[..|c| - 1]);
    }
  }

  /** `os.path.basename(p)`: everything after the last `/`. */
  function Basename(p: string): (b: string)
    ensures '/' !in b
    ensures EndsWith(p, b)
    ensures |b| < |p| ==> p[|p| - |b| - 1] == '/'
  {
    p[AfterLastSlash(p)..]
  }

  /** Drops the trailing slashes. */
  function RStripSlashes(s: string): (r: string)
    ensures r <= s && AllSlashes(s[|r|..])
    ensures r == [] || r[|r| - 1] != '/'
  {
    if |s| > 0 && s[|s| - 1] == '/' then RStripSlashes(s[..|s| - 1]) else s
  }

  /** `os.path.dirname(p)`: everything up to the last `/`, with trailing slashes
      removed unless that part is nothing but slashes. */
  function Dirname(p: string): string {
    var head := p[..AfterLastSlash(p)];
    if head != [] && !AllSlashes(head) then RStripSlashes(head) else head
  }

  /** `os.path.join(a, b)` for two components. */
  function Join(a: string, b: string): string {
    if |b| > 0 && b[0] == '/' then b
    else if a == [] || a[|a| - 1] == '/' then a + b
    else a + "/" + b
  }

  /** The path after `n` applications of `dirname`. */
  function Ascend(p: string, n: nat): string {
    if n == 0 then p else Dirname(Ascend(p, n - 1))
  }

  /** A directory path that `dirname` could have produced: empty, all slashes, or
      not ending with a slash. */
  predicate IsDirForm(root: string) {
    root == [] || AllSlashes(root) || root[|root| - 1] != '/'
  }

  /** `dirname` undoes joining one component. */
  lemma DirnameOfJoin(root: string, c: string)
    requires IsDirForm(root)
    requires c != [] && '/' !in c
    ensures Dirname(Join(root, c)) == root
  {
    if root == [] {
      AfterLastSlashTail(root, c);
      assert root + c == c;
    } else if root[|root| - 1] == '/' {
      AfterLastSlashTail(root, c);
      assert (root + c)[..|root|] == root;
    } else {
      var x := root + "/";
      assert Join(root, c) == x + c;
      AfterLastSlashTail(x, c);
      assert (x + c)[..|x|] == x;
      assert !AllSlashes(x) by { assert x[|root| - 1] != '/'; }
      assert RStripSlashes(x) == RStripSlashes(root);
    }
  }

  /** Joining a path of several components is joining them one at a time. */
  lemma JoinAssoc(root: string, c: string, rest: string)
    requires IsDirForm(root)
    requires c != [] && '/' !in c && rest != [] && rest[0] != '/'
    ensures Join(root, c + "/" + rest) == Join(Join(root, c), rest)
    ensures IsDirForm(Join(root, c))
  {
    assert (c + "/" + rest)[0] == c[0];
  }

  /** Every component is non-empty: no doubled, leading or trailing `/`. */
  predicate NonEmptyParts(parts: seq<string>) {
    forall i :: 0 <= i < |parts| ==> parts[i] != []
  }

  /** One more `dirname` climbs over the first component. */
  lemma AscendOverComponent(root: string, rel: string, c: string, rest: string, n: nat)
    requires IsDirForm(root) && rel == c + "/" + rest
    requires c != [] && '/' !in c && rest != [] && rest[0] != '/'
    requires Ascend(Join(Join(root, c), rest), n) == Join(root, c)
    ensures Ascend(Join(root, rel), n + 1) == root
  {
    JoinAssoc(root, c, rest);
    DirnameOfJoin(root, c);
  }

  /** Applying `dirname` once per `/`-separated component of a relative path inverts
      joining that path onto a directory. */
  lemma {:induction false} AscendInvertsJoin(root: string, rel: string)
    requires IsDirForm(root) && NonEmptyParts(Split(rel, '/'))
    ensures Ascend(Join(root, rel), |Split(rel, '/')|) == root
    decreases |rel|, 1
  {
    match IndexOfChar(rel, '/')
    case None =>
      SplitNone(rel, '/');
      DirnameOfJoin(root, rel);
    case Some(k) =>
      AscendOverFirst(root, rel, k);
  }

  /** The inductive step: climb over the components after the first `/`, then over
      the first one. */
  lemma {:induction false} AscendOverFirst(root: string, rel: string, k: nat)
    requires IsDirForm(root) && NonEmptyParts(Split(rel, '/'))
    requires k < |rel| && rel[k] == '/' && '/' !in rel[..k]
    ensures Ascend(Join(root, rel), |Split(rel, '/')|) == root
    decreases |rel|, 0
  {
    var c, rest := rel[..k], rel[k + 1..];
    SplitAtSlash(rel, k);
    var n := |Split(rest, '/')|;
    var mid := Join(root, c);
    assert IsDirForm(mid) by {
      JoinAssoc(root, c, rest);
    }
    assert Ascend(Join(mid, rest), n) == mid by {
      AscendInvertsJoin(mid, rest);
    }
    assert Ascend(Join(root, rel), n + 1) == root by {
      AscendOverComponent(root, rel, c, rest, n);
    }
  }

  /** Splitting at the first `/` of a path whose components are all non-empty. */
  lemma SplitAtSlash(rel: string, k: nat)
    requires k < |rel| && rel[k] == '/' && '/' !in rel[..k]
    requires NonEmptyParts(Split(rel, '/'))
    ensures rel == rel[..k] + "/" + rel[k + 1..]
    ensures |Split(rel, '/')| == 1 + |Split(rel[k + 1..], '/')|
    ensures rel[..k] != [] && rel[k + 1..] != [] && rel[k + 1..][0] != '/'
    ensures NonEmptyParts(Split(rel[k + 1..], '/'))
  {
    var c, rest := rel[..k], rel[k + 1..];
    assert rel == c + "/" + rest;
    SplitFirst(c, rest, '/');
    var parts, restParts := Split(rel, '/'), Split(rest, '/');
    assert parts == [c] + restParts;
    assert parts[0] == c;
    assert forall i :: 0 <= i < |restParts| ==> restParts[i] == parts[i + 1];
    JoinHead(restParts, '/');
  }

  /** The index of the last `.`, if any. */
  function LastDot(p: string): (r: Option<nat>)
    ensures r.Some? ==> r.value < |p| && p[r.value] == '.' && '.' !in p[r.value + 1..]
    ensures r.None? ==> '.' !in p
  {
    if |p| == 0 then None
    else if p[|p| - 1] == '.' then Some(|p| - 1)
    else
      var r := LastDot(p[..|p| - 1]);
      assert r.Some? ==> p[r.value + 1..] == p[..|p| - 1][r.value + 1..] + [p[|p| - 1]];
      assert r.None? ==> p == p[..|p| - 1] + [p[|p| - 1]];
      r
  }

  /** `os.path.splitext(name)[0]` for a name without `/`: the text before the last
      `.`, unless only dots precede that `.`. */
  function Stem(name: string): string {
    match LastDot(name)
    case None => name
    case Some(d) => if exists i :: 0 <= i < d && name[i] != '.' then name[..d] else name
  }

  /** Removing a `.ext` extension gives back the name. */
  lemma StemOfExtension(name: string, ext: string)
    requires exists i :: 0 <= i < |name| && name[i] != '.'
    requires '.' !in ext
    ensures Stem(name + "." + ext) == name
  {
    var p := name + "." + ext;
    var d := LastDot(p);
    assert p[|name|] == '.';
    assert p[|name| + 1..] == ext;
    assert d.Some?;
    assert d.value == |name|;
    var i :| 0 <= i < |name| && name[i] != '.';
    assert p[i] == name[i];
    assert p[..|name|] == name;
  }
}
