/**
 * Python's `os.path.basename` and `os.path.dirname` on POSIX paths, which
 * both catalogue builders use to split a group key into an image's name and
 * its directory.
 */
module Paths {

  /** Index just past the last `/` of `p`, 0 when there is none (`p.rfind('/') + 1`). */
  function AfterLastSlash(p: string): (i: nat)
    ensures i <= |p|
    ensures i > 0 ==> p[i - 1] == '/'
    ensures forall k :: i <= k < |p| ==> p[k] != '/'
  {
    if p == [] then 0
    else if p[|p| - 1] == '/' then |p|
    else AfterLastSlash(p[..|p| - 1])
  }

  /** `os.path.basename(p)`: everything after the last `/`. */
  function BaseName(p: string): string
  {
    p[AfterLastSlash(p)..]
  }

  predicate AllSlashes(s: string)
  {
    forall k :: 0 <= k < |s| ==> s[k] == '/'
  }

  /** `s.rstrip('/')`. */
  function RStripSlashes(s: string): (r: string)
    ensures r <= s
    ensures r == [] || r[|r| - 1] != '/'
    ensures forall k :: |r| <= k < |s| ==> s[k] == '/'
  {
    if s == [] || s[|s| - 1] != '/' then s else RStripSlashes(s[..|s| - 1])
  }

  /**
   * `os.path.dirname(p)`: everything up to the last `/`, with trailing
   * slashes removed unless the head is made of slashes only.
   */
  function DirName(p: string): string
  {
    var head := p[..AfterLastSlash(p)];
    if head != [] && !AllSlashes(head) then RStripSlashes(head) else head
  }

  lemma {:induction false} AfterLastSlashJoin(d: string, b: string)
    requires '/' !in b
    ensures AfterLastSlash(d + "/" + b) == |d| + 1
  {
    var p := d + "/" + b;
    if b != [] {
      assert p[|p| - 1] == b[|b| - 1];
      assert p[..|p| - 1] == d + "/" + b[..|b| - 1];
      AfterLastSlashJoin(d, b[..|b| - 1]);
    }
  }

  /** The last component of `d/b` is `b` when `b` holds no slash. */
  lemma BaseNameJoin(d: string, b: string)
    requires '/' !in b
    ensures BaseName(d + "/" + b) == b
  {
    AfterLastSlashJoin(d, b);
    assert (d + "/" + b)[|d| + 1..] == b;
  }

  /**
   * The directory of `d/b` is `d` when `b` holds no slash and `d` is a
   * non-empty path that does not end in a slash.
   */
  lemma DirNameJoin(d: string, b: string)
    requires '/' !in b
    requires d != [] && d[|d| - 1] != '/'
    ensures DirName(d + "/" + b) == d
  {
    AfterLastSlashJoin(d, b);
    var head := (d + "/" + b)[..|d| + 1];
    assert head == d + "/";
    assert !AllSlashes(head) by {
      assert head[|d| - 1] != '/';
    }
    assert RStripSlashes(head) == RStripSlashes(d);
  }
}
