/**
 * The parts of Python's `os.path` that the application uses to derive output
 * paths, in their POSIX form (`posixpath`): `join`, `basename`, `dirname` and
 * the stem that `splitext` leaves of a file name.
 */
module Paths {

  /** Index of the last '/' among the first `n` characters of `p`, or -1 when there is none. */
  function LastSlashBefore(p: string, n: nat): (r: int)
    requires n <= |p|
    ensures -1 <= r < n
    ensures r >= 0 ==> p[r] == '/'
    ensures forall k :: r < k < n ==> p[k] != '/'
  {
    if n == 0 then -1
    else if p[n - 1] == '/' then n - 1
    else LastSlashBefore(p, n - 1)
  }

  /** Index of the last '/' in `p`, or -1 when there is none. */
  function LastSlash(p: string): (r: int)
    ensures -1 <= r < |p|
  {
    LastSlashBefore(p, |p|)
  }

  /** `os.path.join(a, b)`: an absolute `b` wins; otherwise one '/' between the two. */
  function Join(a: string, b: string): string
  {
    if b != [] && b[0] == '/' then b
    else if a == [] || a[|a| - 1] == '/' then a + b
    else a + "/" + b
  }

  /** `os.path.basename(p)`: what follows the last '/'. */
  function Basename(p: string): (r: string)
    ensures '/' !in r
    ensures EndsWithPart(p, r)
  {
    p[LastSlash(p) + 1..]
  }

  predicate EndsWithPart(p: string, r: string) {
    |r| <= |p| && p[|p| - |r|..] == r
  }

  function RStripSlashes(h: string): (r: string)
    ensures |r| <= |h| && r == h[..|r|]
    ensures r == [] || r[|r| - 1] != '/'
  {
    if h != [] && h[|h| - 1] == '/' then RStripSlashes(h[..|h| - 1]) else h
  }

  predicate AllSlashes(h: string) {
    forall k :: 0 <= k < |h| ==> h[k] == '/'
  }

  /** `os.path.dirname(p)`: up to the last '/', trailing slashes removed unless all slashes. */
  function Dirname(p: string): string
  {
    var head := p[..LastSlash(p) + 1];
    if head != [] && !AllSlashes(head) then RStripSlashes(head) else head
  }

  /** Index of the last '.' among the first `n` characters of `name`, or -1. */
  function LastDotBefore(name: string, n: nat): (r: int)
    requires n <= |name|
    ensures -1 <= r < n
    ensures r >= 0 ==> name[r] == '.'
    ensures forall k :: r < k < n ==> name[k] != '.'
  {
    if n == 0 then -1
    else if name[n - 1] == '.' then n - 1
    else LastDotBefore(name, n - 1)
  }

  /** Index of the last '.' in `name`, or -1. */
  function LastDot(name: string): (r: int)
    ensures -1 <= r < |name|
    ensures r >= 0 ==> name[r] == '.'
    ensures forall k :: r < k < |name| ==> name[k] != '.'
  {
    LastDotBefore(name, |name|)
  }

  /**
   * `os.path.splitext(name)[0]` for a file name without '/': the name up to
   * its last '.', unless every character before that dot is itself a dot
   * (a hidden file such as ".bashrc" has no extension).
   */
  function Stem(name: string): (r: string)
    ensures |r| <= |name| && r == name[..|r|]
    ensures r != name ==> name[|r|] == '.' && '.' !in name[|r| + 1..]
  {
    var dot := LastDot(name);
    if dot > 0 && exists k | 0 <= k < dot :: name[k] != '.' then name[..dot] else name
  }

  /** The last '/' is determined by the characters up to it: it is the one before `n` when none follows. */
  lemma {:induction false} LastSlashSkips(p: string, n: nat, m: nat)
    requires n <= m <= |p|
    requires forall k :: n <= k < m ==> p[k] != '/'
    ensures LastSlashBefore(p, m) == LastSlashBefore(p, n)
    decreases m - n
  {
    if n < m {
      LastSlashSkips(p, n, m - 1);
    }
  }

  lemma {:induction false} LastSlashPrefix(p: string, q: string, n: nat)
    requires n <= |p| && n <= |q| && p[..n] == q[..n]
    ensures LastSlashBefore(p, n) == LastSlashBefore(q, n)
  {
    if n > 0 {
      assert p[n - 1] == p[..n][n - 1] == q[n - 1];
      assert p[..n - 1] == p[..n][..n - 1];
      assert q[..n - 1] == q[..n][..n - 1];
      LastSlashPrefix(p, q, n - 1);
    }
  }

  lemma LastSlashAppend(x: string, n: string)
    requires '/' !in n
    ensures LastSlash(x + n) == LastSlash(x)
  {
    var p := x + n;
    forall k | |x| <= k < |p| ensures p[k] != '/' {
      assert p[k] == n[k - |x|];
    }
    LastSlashSkips(p, |x|, |p|);
    assert p[..|x|] == x[..|x|];
    LastSlashPrefix(p, x, |x|);
  }

  /** Joining a directory with a plain file name, the base name is that file name. */
  lemma BasenameJoin(d: string, n: string)
    requires '/' !in n
    ensures Basename(Join(d, n)) == n
  {
    if n != [] {
      assert n[0] in n;
    }
    var prefix := if d == [] || d[|d| - 1] == '/' then d else d + "/";
    assert Join(d, n) == prefix + n;
    LastSlashAppend(prefix, n);
    assert LastSlash(prefix) == |prefix| - 1 by {
      if prefix != [] {
        assert prefix[|prefix| - 1] == '/';
      }
    }
    assert (prefix + n)[|prefix|..] == n;
  }

  /** Joining a directory (no trailing '/') with a plain file name, the directory name is that directory. */
  lemma DirnameJoin(d: string, n: string)
    requires '/' !in n
    requires d != [] && d[|d| - 1] != '/'
    ensures Dirname(Join(d, n)) == d
  {
    if n != [] {
      assert n[0] in n;
    }
    var p := d + "/" + n;
    assert Join(d, n) == p;
    LastSlashAppend(d + "/", n);
    assert p == (d + "/") + n;
    assert LastSlash(d + "/") == |d|;
    assert p[..|d| + 1] == d + "/";
    assert !AllSlashes(d + "/") by {
      assert (d + "/")[|d| - 1] != '/';
    }
    assert (d + "/")[..|d|] == d;
    assert RStripSlashes(d + "/") == RStripSlashes(d) == d;
  }

  /** A joined path always ends with the part that was joined on. */
  lemma JoinEndsWith(a: string, b: string)
    ensures EndsWithPart(Join(a, b), b)
  {
    if !(b != [] && b[0] == '/') {
      if a == [] || a[|a| - 1] == '/' {
        assert (a + b)[|a|..] == b;
      } else {
        assert (a + "/" + b)[|a| + 1..] == b;
      }
    }
  }

  /** Joined onto the same directory, two relative parts give the same path only when they are equal. */
  lemma JoinInjective(a: string, b1: string, b2: string)
    requires b1 != [] && b1[0] != '/' && b2 != [] && b2[0] != '/'
    requires Join(a, b1) == Join(a, b2)
    ensures b1 == b2
  {
    JoinEndsWith(a, b1);
    JoinEndsWith(a, b2);
    var p := Join(a, b1);
    var prefix := if a == [] || a[|a| - 1] == '/' then a else a + "/";
    assert Join(a, b1) == prefix + b1 && Join(a, b2) == prefix + b2;
    assert b1 == p[|prefix|..] == b2;
  }
}
