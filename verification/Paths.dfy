/**
 Path names. The kernel hands over clean absolute paths: no empty, "." or ".." component and
 no trailing slash, so that the parent of a path is what precedes its last slash. A backslash
 is a character like any other in a name, but not to the program.
 */
module Paths {
  import opened Prelude

  predicate NoEmptyName(p: string) {
    |p| < 2 || ((p[|p| - 1] != '/' || p[|p| - 2] != '/') && NoEmptyName(p[..|p| - 1]))
  }

  predicate IsPath(p: string) {
    p == "/" || (|p| >= 2 && p[0] == '/' && p[|p| - 1] != '/' && NoEmptyName(p))
  }

  function LastSlash(p: string): (i: nat)
    requires p != "" && p[0] == '/'
    ensures i < |p|
  {
    if p[|p| - 1] == '/' then |p| - 1 else LastSlash(p[..|p| - 1])
  }

  function Parent(p: string): string
    requires IsPath(p)
  {
    var i := LastSlash(p);
    if i == 0 then "/" else p[..i]
  }

  /** Every backslash made a slash, as for a path of another system. */
  function Slashed(p: string): (r: string)
    ensures |r| == |p| && '\\' !in r
    ensures forall i :: 0 <= i < |p| && p[i] != '\\' ==> r[i] == p[i]
    ensures forall i :: 0 <= i < |p| && p[i] == '\\' ==> r[i] == '/'
  {
    seq(|p|, i requires 0 <= i < |p| => if p[i] == '\\' then '/' else p[i])
  }

  /** What the program takes for the parent. */
  function GetDir(p: string): string
    requires IsPath(p)
  {
    Slashed(Parent(p))
  }

  /** It is the parent exactly when no folder on the way has a backslash in its name. */
  lemma GetDirExactly(p: string)
    requires IsPath(p)
    ensures GetDir(p) == Parent(p) <==> '\\' !in Parent(p)
  {
    if '\\' !in Parent(p) {
      assert forall i :: 0 <= i < |Parent(p)| ==> Slashed(Parent(p))[i] == Parent(p)[i];
    }
  }

  function Base(p: string): string
    requires IsPath(p)
  {
    if p == "/" then "/" else p[LastSlash(p) + 1..]
  }

  lemma {:induction false} LastSlashIs(p: string)
    requires p != "" && p[0] == '/'
    ensures p[LastSlash(p)] == '/' && '/' !in p[LastSlash(p) + 1..]
  {
    if p[|p| - 1] != '/' {
      var q := p[..|p| - 1];
      LastSlashIs(q);
      assert p[LastSlash(q) + 1..] == q[LastSlash(q) + 1..] + [p[|p| - 1]];
    }
  }

  lemma {:induction false} LastSlashAt(p: string, i: nat)
    requires i < |p| && p[0] == '/' && p[i] == '/' && forall k :: i < k < |p| ==> p[k] != '/'
    ensures LastSlash(p) == i
  {
    if i < |p| - 1 { LastSlashAt(p[..|p| - 1], i); }
  }

  lemma {:induction false} PrefixHasNoEmptyName(p: string, i: nat)
    requires NoEmptyName(p) && 1 <= i < |p| && p[i] == '/'
    ensures p[i - 1] != '/' && NoEmptyName(p[..i])
  {
    if i < |p| - 1 {
      var q := p[..|p| - 1];
      PrefixHasNoEmptyName(q, i);
      assert q[..i] == p[..i];
    }
  }

  /** A path below the root is its parent, a slash and its base. */
  lemma PathParts(p: string)
    requires IsPath(p) && p != "/"
    ensures IsPath(Parent(p)) && Parent(p) <= p && |Parent(p)| < |p|
    ensures p == (if Parent(p) == "/" then "" else Parent(p)) + "/" + Base(p)
    ensures Base(p) != "" && '/' !in Base(p)
  {
    LastSlashIs(p);
    var i := LastSlash(p);
    assert p == p[..i] + "/" + p[i + 1..];
    if i > 0 {
      PrefixHasNoEmptyName(p, i);
      assert p[..i][0] == '/' && p[..i][i - 1] == p[i - 1];
    } else {
      assert p[..0] == "" && p[0] == '/';
    }
  }

  lemma {:induction false} NoSlashNoEmptyName(p: string)
    requires forall k :: 1 <= k < |p| ==> p[k] != '/'
    ensures NoEmptyName(p)
  {
    if |p| >= 2 { NoSlashNoEmptyName(p[..|p| - 1]); }
  }

  lemma RootChild(name: string)
    requires name != "" && '/' !in name
    ensures IsPath("/" + name) && Parent("/" + name) == "/" && "/" + name != "/"
  {
    var p := "/" + name;
    assert forall k :: 1 <= k < |p| ==> p[k] == name[k - 1];
    NoSlashNoEmptyName(p);
    LastSlashAt(p, 0);
  }

  lemma {:induction false} AppendName(d: string, name: string)
    requires NoEmptyName(d) && d != "" && d[|d| - 1] != '/' && name != "" && '/' !in name
    ensures NoEmptyName(d + "/" + name)
  {
    var p := d + "/" + name;
    if |name| == 1 {
      assert p[..|p| - 1] == d + "/" && (d + "/")[..|d|] == d;
    } else {
      AppendName(d, name[..|name| - 1]);
      assert p[..|p| - 1] == d + "/" + name[..|name| - 1];
    }
  }

  lemma ChildPath(d: string, name: string)
    requires IsPath(d) && d != "/" && name != "" && '/' !in name
    ensures
      var p := d + "/" + name;
      IsPath(p) && p != "/" && Parent(p) == d && Base(p) == name
  {
    var p := d + "/" + name;
    AppendName(d, name);
    assert p[|p| - 1] == name[|name| - 1] && p[|d|] == '/';
    assert forall k :: |d| < k < |p| ==> p[k] == name[k - |d| - 1];
    LastSlashAt(p, |d|);
    assert p[..|d|] == d && p[|d| + 1..] == name;
  }

  lemma SlashNotAfterLast(p: string, i: nat)
    requires i < |p| && p[0] == '/' && p[i] == '/'
    ensures i <= LastSlash(p)
  {
    LastSlashIs(p);
    var last := LastSlash(p);
    assert forall k :: last < k < |p| ==> p[k] == p[last + 1..][k - last - 1];
  }

  /** Inside a folder, a path is its child or has its parent inside it. */
  lemma ParentInside(p: string, k: string)
    requires IsPath(p) && IsPath(k) && p != "/" && p + "/" <= k
    ensures k != "/" && (Parent(k) == p || p + "/" <= Parent(k))
  {
    assert k[|p|] == (p + "/")[|p|] == '/';
    SlashNotAfterLast(k, |p|);
    var i := LastSlash(k);
    assert Parent(k) == k[..i] && k[..|p| + 1] == p + "/" && k[..|p|] == p;
    if |p| < i {
      assert k[..i][..|p| + 1] == p + "/";
    }
  }

  /** Two children of a directory have different names. */
  lemma BaseInjective(p: string, q: string)
    requires IsPath(p) && IsPath(q) && p != "/" && q != "/"
    requires Parent(p) == Parent(q) && Base(p) == Base(q)
    ensures p == q
  {
    PathParts(p);
    PathParts(q);
  }
}
