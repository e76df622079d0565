/**
 * The POSIX flavour of `os.path` that the scripts call: `basename`, `dirname` and the
 * two-argument `join` (a longer `join` is the same function applied from the left).
 */
module Paths {

  import opened Text

  predicate AllSlashes(s: string) {
    forall i :: 0 <= i < |s| ==> s[i] == '/'
  }

  /** `p.rfind('/') + 1`: where the last component of `p` starts. */
  function ComponentStart(p: string): (i: nat)
    ensures i <= |p|
    ensures forall k :: i <= k < |p| ==> p[k] != '/'
    ensures i > 0 ==> p[i - 1] == '/'
  {
    if p == [] then 0 else if p[|p| - 1] == '/' then |p| else ComponentStart(p[..|p| - 1])
  }

  function Basename(p: string): string {
    p[ComponentStart(p)..]
  }

  /** The head before the last component, without trailing slashes unless it is all slashes. */
  function Dirname(p: string): string {
    var head := p[..ComponentStart(p)];
    if head != [] && !AllSlashes(head) then RStrip(head, {'/'}) else head
  }

  function Join(a: string, b: string): string {
    if |b| > 0 && b[0] == '/' then b
    else if a == [] || a[|a| - 1] == '/' then a + b
    else a + "/" + b
  }

  /** A directory name is empty, all slashes, or does not end with a slash. */
  lemma DirnameShape(p: string)
    ensures var d := Dirname(p); d == [] || AllSlashes(d) || d[|d| - 1] != '/'
  {
  }

  /** Appending a slash-free component after a slash (or to nothing) makes it the last component. */
  lemma ComponentStartAfter(x: string, b: string)
    requires forall i :: 0 <= i < |b| ==> b[i] != '/'
    requires x == [] || x[|x| - 1] == '/'
    ensures ComponentStart(x + b) == |x|
  {
    var i := ComponentStart(x + b);
    assert x != [] ==> (x + b)[|x| - 1] == '/';
    assert forall k :: |x| <= k < |x + b| ==> (x + b)[k] == b[k - |x|];
  }

  /**
   * Joining the directory of `p` with a plain name gives a path whose last component is
   * that name and whose directory is still the directory of `p`.
   */
  lemma {:induction false} JoinDirname(p: string, b: string)
    requires b != [] && forall i :: 0 <= i < |b| ==> b[i] != '/'
    ensures Basename(Join(Dirname(p), b)) == b
    ensures Dirname(Join(Dirname(p), b)) == Dirname(p)
  {
    var d := Dirname(p);
    DirnameShape(p);
    if d == [] || d[|d| - 1] == '/' {
      ComponentStartAfter(d, b);
      assert Join(d, b) == d + b;
      assert (d + b)[..|d|] == d;
      assert d != [] ==> AllSlashes(d);
    } else {
      var x := d + "/";
      ComponentStartAfter(x, b);
      assert Join(d, b) == x + b;
      assert (x + b)[..|x|] == x;
      assert x[..|x| - 1] == d;
      assert !AllSlashes(x) by { assert x[|d| - 1] != '/'; }
    }
  }

  /** `a` with a separator after it, unless it is empty or already ends with one. */
  function WithSep(a: string): string {
    if a == [] || a[|a| - 1] == '/' then a else a + "/"
  }

  /** Joining a relative name puts exactly one separator between the two, unless `a` is empty. */
  lemma JoinRelative(a: string, b: string)
    requires b != [] && b[0] != '/'
    ensures Join(a, b) == WithSep(a) + b
    ensures Join(a, b)[|Join(a, b)| - 1] == b[|b| - 1]
  {
  }
}
