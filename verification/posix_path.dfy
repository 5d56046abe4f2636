/** The two pieces of Python's `posixpath` the backup script relies on:
    two-argument `join` and `basename`. */
module PosixPath {

  const Sep: char := '/'

  /** `posixpath.join(a, b)`: an absolute `b` replaces `a`; otherwise a
      separator is inserted unless `a` is empty or already ends with one. */
  function Join(a: string, b: string): (r: string)
    ensures |b| > 0 && b[0] == Sep ==> r == b
    ensures !(|b| > 0 && b[0] == Sep) ==> |r| >= |b| && r[|r| - |b|..] == b
    ensures !(|b| > 0 && b[0] == Sep) ==>
      && (|r| == |a| + |b| || (|r| == |a| + |b| + 1 && r[|a|] == Sep))
      && r[..|a|] == a
    ensures !(|b| > 0 && b[0] == Sep) && a != [] ==> r[|r| - |b| - 1] == Sep
    ensures !(|b| > 0 && b[0] == Sep) ==> (|r| == |a| + |b| + 1 <==> a != [] && a[|a| - 1] != Sep)
  {
    if |b| > 0 && b[0] == Sep then b
    else if a == [] || a[|a| - 1] == Sep then a + b
    else a + [Sep] + b
  }

  /** `p.rfind(Sep)` restricted to the first `k` characters: the index of
      the last separator among them, or -1 when there is none. */
  function RFind(p: string, k: nat): (i: int)
    requires k <= |p|
    ensures -1 <= i < k
    ensures i >= 0 ==> p[i] == Sep
    ensures forall j :: i < j < k ==> p[j] != Sep
    decreases k
  {
    if k == 0 then -1 else if p[k - 1] == Sep then k - 1 else RFind(p, k - 1)
  }

  /** `posixpath.basename(p)`: `p[p.rfind(sep) + 1:]`, everything after the
      last separator. */
  function Basename(p: string): (r: string)
    ensures Sep !in r
    ensures |r| <= |p| && p[|p| - |r|..] == r
    ensures |r| < |p| ==> p[|p| - |r| - 1] == Sep
  {
    var r := p[RFind(p, |p|) + 1..];
    assert forall j :: 0 <= j < |r| ==> r[j] == p[RFind(p, |p|) + 1 + j];
    r
  }

  /** Joining a plain name onto any directory and taking the base name gives
      the name back. */
  lemma BasenameOfJoin(dir: string, name: string)
    requires name != [] && Sep !in name
    ensures Basename(Join(dir, name)) == name
  {
    var j := Join(dir, name);
    assert j[|j| - |name|..] == name;
    BasenameOfSuffix(j, |j| - |name|);
  }

  /** When the last `|p| - k` characters hold no separator and are preceded
      by one (or by nothing), they are the base name. */
  lemma BasenameOfSuffix(p: string, k: nat)
    requires k <= |p|
    requires Sep !in p[k..]
    requires k > 0 ==> p[k - 1] == Sep
    ensures Basename(p) == p[k..]
  {
    forall j | k <= j < |p| ensures p[j] != Sep {
      assert p[j] == p[k..][j - k];
    }
    RFindAfter(p, k, |p|);
  }

  /** The search from `m` downwards stops at the separator just before `k`
      when none lies between. */
  lemma {:induction false} RFindAfter(p: string, k: nat, m: nat)
    requires k <= m <= |p|
    requires forall j :: k <= j < |p| ==> p[j] != Sep
    requires k > 0 ==> p[k - 1] == Sep
    ensures RFind(p, m) == k - 1
    decreases m
  {
    if m > k {
      RFindAfter(p, k, m - 1);
    }
  }
}
