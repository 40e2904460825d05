/** The POSIX path operations main.py relies on: `str.endswith`,
    `os.path.join` with two components, and the last component of a path
    (`os.path.basename`), which states where a joined name ends up. */
module Paths {

  const Sep: char := '/'

  predicate StartsWith(s: string, prefix: string) {
    |prefix| <= |s| && s[..|prefix|] == prefix
  }

  /** `s.endswith(suffix)`: exact and case-sensitive. */
  predicate EndsWith(s: string, suffix: string) {
    |suffix| <= |s| && s[|s| - |suffix|..] == suffix
  }

  /** A suffix of a suffix is a suffix. */
  lemma EndsWithTrans(s: string, t: string, u: string)
    requires EndsWith(s, t)
    ensures EndsWith(t, u) ==> EndsWith(s, u)
  {
    if EndsWith(t, u) {
      assert s[|s| - |u|..] == s[|s| - |t|..][|t| - |u|..];
    }
  }

  /** How many separators `os.path.join` puts after `a`. */
  function Gap(a: string): nat {
    if a == [] || a[|a| - 1] == Sep then 0 else 1
  }

  /** `os.path.join(a, b)`: an absolute `b` replaces `a`; otherwise `b` is
      appended, with a separator unless `a` is empty or already ends in one. */
  function Join(a: string, b: string): (r: string)
    ensures EndsWith(r, b)
    ensures !StartsWith(b, [Sep]) ==> StartsWith(r, a)
    ensures !StartsWith(b, [Sep]) ==> |r| == |a| + Gap(a) + |b|
    ensures !StartsWith(b, [Sep]) && Gap(a) == 1 ==> r[|a|] == Sep
    ensures StartsWith(b, [Sep]) ==> r == b
  {
    if StartsWith(b, [Sep]) then b
    else if Gap(a) == 0 then a + b
    else a + [Sep] + b
  }

  /** A relative `b` is copied, character by character, right after `a` and
      the separator `os.path.join` adds. */
  lemma JoinAt(a: string, b: string, i: nat)
    requires !StartsWith(b, [Sep]) && i < |b|
    ensures |Join(a, b)| == |a| + Gap(a) + |b|
    ensures Join(a, b)[|a| + Gap(a) + i] == b[i]
  {
    var r := Join(a, b);
    assert r[|r| - |b|..] == b;
    assert r[|r| - |b|..][i] == r[|a| + Gap(a) + i];
  }

  /** A name without separators is relative. */
  lemma PlainIsRelative(b: string)
    requires Sep !in b
    ensures !StartsWith(b, [Sep])
  {
    if b != [] {
      assert b[0] in b;
      assert b[..1] == [b[0]];
    }
  }

  /** `os.path.basename(p)`: the longest suffix of `p` without a separator. */
  function Basename(p: string): (r: string)
    ensures EndsWith(p, r) && Sep !in r
    ensures |r| < |p| ==> p[|p| - |r| - 1] == Sep
  {
    if p == [] || p[|p| - 1] == Sep then []
    else Basename(p[..|p| - 1]) + [p[|p| - 1]]
  }

  /** After a separator (or at the start) a plain name is the last component. */
  lemma {:induction false} BasenameAfterSep(x: string, b: string)
    requires x == [] || x[|x| - 1] == Sep
    requires Sep !in b
    ensures Basename(x + b) == b
  {
    if b == [] {
      assert x + b == x;
    } else {
      var c := b[|b| - 1];
      assert (x + b)[..|x + b| - 1] == x + b[..|b| - 1];
      BasenameAfterSep(x, b[..|b| - 1]);
      assert b == b[..|b| - 1] + [c];
    }
  }

  /** Joining a plain name (one without separators) onto a directory yields a
      path whose last component is that name. */
  lemma JoinBasename(a: string, b: string)
    requires Sep !in b
    ensures Basename(Join(a, b)) == b
  {
    PlainIsRelative(b);
    if Gap(a) == 0 {
      assert Join(a, b) == a + b;
      BasenameAfterSep(a, b);
    } else {
      var x := a + [Sep];
      assert Join(a, b) == x + b;
      assert x[|x| - 1] == Sep;
      BasenameAfterSep(x, b);
    }
  }
}
