/** `os.path` on a POSIX system (Python's `posixpath`): `join` of two
    components, `dirname` and `basename`. */
module PosixPath {
  import opened Text

  /** The index just after the last `/` in `p`, or 0 when there is none
      (`p.rfind('/') + 1`). */
  function AfterLastSlash(p: string): (i: nat)
    ensures i <= |p|
    ensures i > 0 ==> p[i - 1] == '/'
    ensures forall k :: i <= k < |p| ==> p[k] != '/'
  {
    if p == [] then 0
    else if p[|p| - 1] == '/' then |p|
    else AfterLastSlash(p[..|p| - 1])
  }

  predicate AllSlashes(s: string) { forall k :: 0 <= k < |s| ==> s[k] == '/' }

  /** `str.rstrip('/')`. */
  function RStripSlashes(s: string): (r: string)
    ensures |r| <= |s| && r == s[..|r|]
    ensures r == [] || r[|r| - 1] != '/'
  {
    if s != [] && s[|s| - 1] == '/' then RStripSlashes(s[..|s| - 1]) else s
  }

  /** `os.path.join(a, b)`: an absolute `b` replaces `a`; otherwise `b` is appended,
      with a `/` in between unless `a` is empty or already ends in one. */
  function Join(a: string, b: string): (r: string)
    ensures StartsWith(b, "/") ==> r == b
    ensures !StartsWith(b, "/") ==> EndsWith(r, b) && StartsWith(r, a)
  {
    if StartsWith(b, "/") then b
    else if a == [] || a[|a| - 1] == '/' then a + b
    else a + "/" + b
  }

  /** `os.path.basename(p)`: the text after the last `/`. */
  function Basename(p: string): (r: string)
    ensures '/' !in r && IsSuffixOf(r, p)
  {
    var i := AfterLastSlash(p);
    assert forall k :: 0 <= k < |p[i..]| ==> p[i..][k] == p[i + k];
    p[i..]
  }

  /** `os.path.dirname(p)`: the text up to the last `/`, with trailing slashes
      removed unless it consists of slashes only. */
  function Dirname(p: string): (r: string)
    ensures |r| <= |p| && r == p[..|r|]
  {
    var head := p[..AfterLastSlash(p)];
    if head != [] && !AllSlashes(head) then RStripSlashes(head) else head
  }

  /** A relative component without `/` joined onto a directory that does not end
      in `/` splits back into the directory and the component. */
  lemma JoinSplits(d: string, n: string)
    requires '/' !in n && n != []
    requires d == [] || d[|d| - 1] != '/'
    ensures Basename(Join(d, n)) == n
    ensures Dirname(Join(d, n)) == d
  {
    var p := Join(d, n);
    assert n[0] != '/';
    if d == [] {
      assert p == n;
      assert AfterLastSlash(p) == 0;
    } else {
      assert p == d + "/" + n;
      var i := |d| + 1;
      assert p[i - 1] == '/';
      assert p[i..] == n;
      assert forall k :: i <= k < |p| ==> p[k] != '/' by {
        forall k | i <= k < |p| ensures p[k] != '/' { assert p[k] == p[i..][k - i]; }
      }
      LastSlashAt(p, i);
      assert p[..i] == d + "/";
      assert !AllSlashes(d + "/") by { assert (d + "/")[|d| - 1] == d[|d| - 1]; }
      assert RStripSlashes(d + "/") == RStripSlashes(d) by {
        assert (d + "/")[..|d|] == d;
      }
    }
  }

  /** The last `/` of `p` is at `i - 1`. */
  lemma {:induction false} LastSlashAt(p: string, i: nat)
    requires 0 < i <= |p| && p[i - 1] == '/'
    requires forall k :: i <= k < |p| ==> p[k] != '/'
    ensures AfterLastSlash(p) == i
    decreases |p|
  {
    if |p| > i {
      var q := p[..|p| - 1];
      assert forall k :: i <= k < |q| ==> q[k] == p[k];
      LastSlashAt(q, i);
    }
  }
}
