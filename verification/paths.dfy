/** The two `os.path` operations the core uses, on POSIX paths. */
module Paths {
  import opened Strings
  import Sequences

  /** The `/`-separated components of a non-empty path, without the empty one
      a trailing `/` leaves. */
  function Components(p: string): (r: seq<string>)
  {
    var parts := Split(p, '/');
    if EndsWith(p, "/") then parts[..|parts| - 1] else parts
  }

  /** Appending slash-free text right after a trailing `/` adds it as one
      component. */
  lemma ComponentsAfterSlash(a: string, b: string)
    requires |a| > 0 && EndsWith(a, "/") && '/' !in b
    ensures Split(a + b, '/') == Components(a) + [b]
  {
    var a' := a[..|a| - 1];
    assert a == a' + ['/'] by { assert a[|a| - 1] == '/'; }
    assert a + b == a' + ['/'] + b;
    SplitAround(a', b, '/');
    assert a == a' + ['/'] + "";
    SplitAround(a', "", '/');
  }

  /** Appending a `/` and slash-free text adds the text as one component. */
  lemma ComponentsAfterJoin(a: string, b: string)
    requires |a| > 0 && !EndsWith(a, "/") && '/' !in b
    ensures Split(a + "/" + b, '/') == Components(a) + [b]
  {
    SplitAround(a, b, '/');
  }

  /** `os.path.join(a, b)`: an absolute `b` replaces `a`; otherwise `b` is
      appended, with a `/` in between unless `a` is empty or already ends
      in `/`. */
  function PathJoin(a: string, b: string): (r: string)
    ensures EndsWith(r, b)
    ensures (|b| == 0 || b[0] != '/') ==> a <= r
  {
    if |b| > 0 && b[0] == '/' then b
    else if |a| == 0 || a[|a| - 1] == '/' then a + b
    else a + "/" + b
  }

  /** For a non-empty `a` and a slash-free `b`, the components of
      `os.path.join(a, b)` are those of `a` followed by `b` and nothing else. */
  lemma PathJoinComponents(a: string, b: string)
    requires |a| > 0 && '/' !in b
    ensures Split(PathJoin(a, b), '/') == Components(a) + [b]
  {
    if a[|a| - 1] == '/' {
      ComponentsAfterSlash(a, b);
    } else {
      ComponentsAfterJoin(a, b);
    }
  }

  /** A component is non-empty and holds no `/`. */
  predicate IsComponent(s: string)
  {
    |s| > 0 && '/' !in s
  }

  /** `os.path.join(root, p1, p2, ...)`: the two-argument join folded from
      the left. */
  function PathJoinAll(root: string, parts: seq<string>): (r: string)
    ensures |parts| > 0 ==> EndsWith(r, parts[|parts| - 1])
    ensures (forall i :: 0 <= i < |parts| ==> |parts[i]| == 0 || parts[i][0] != '/') ==> root <= r
  {
    if |parts| == 0 then root
    else
      var r := PathJoinAll(root, parts[..|parts| - 1]);
      assert forall i :: 0 <= i < |parts| - 1 ==> parts[..|parts| - 1][i] == parts[i];
      PathJoin(r, parts[|parts| - 1])
  }

  /** Joining components onto a non-empty root yields a path whose components
      are the root's followed by exactly those given, so each one can be read
      back from the result. */
  lemma {:induction false} PathJoinAllComponents(root: string, parts: seq<string>)
    requires |root| > 0 && |parts| > 0
    requires forall i :: 0 <= i < |parts| ==> IsComponent(parts[i])
    ensures Split(PathJoinAll(root, parts), '/') == Components(root) + parts
    decreases |parts|
  {
    var init := parts[..|parts| - 1];
    var last := parts[|parts| - 1];
    var r := PathJoinAll(root, init);
    assert forall i :: 0 <= i < |init| ==> init[i] == parts[i];
    if |init| > 0 {
      PathJoinAllComponents(root, init);
      EndsWithComponent(r, init[|init| - 1]);
    }
    PathJoinAllUnfold(root, parts);
    JoinAllStep(root, init, last, r);
    Sequences.PrefixInitLast(Components(root), parts);
  }

  /** A path that ends with a component does not end in `/`. */
  lemma EndsWithComponent(r: string, l: string)
    requires IsComponent(l) && EndsWith(r, l)
    ensures |r| > 0 && r[|r| - 1] != '/'
  {
    assert r[|r| - 1] == r[|r| - |l|..][|l| - 1] == l[|l| - 1];
    assert l[|l| - 1] in l;
  }

  /** One step of `PathJoinAll`: joining a component onto a path whose
      components are known extends them by that component. */
  lemma JoinAllStep(root: string, init: seq<string>, last: string, r: string)
    requires |root| > 0 && IsComponent(last)
    requires |init| == 0 ==> r == root
    requires |init| > 0 ==> |r| > 0 && r[|r| - 1] != '/' && Split(r, '/') == Components(root) + init
    ensures Split(PathJoin(r, last), '/') == Components(root) + init + [last]
  {
    PathJoinComponents(r, last);
    if |init| > 0 {
      assert !EndsWith(r, "/") by {
        assert r[|r| - 1..][0] == r[|r| - 1];
      }
    } else {
      assert Components(root) + init == Components(root);
    }
  }

  /** The last step of `PathJoinAll`. */
  lemma PathJoinAllUnfold(root: string, parts: seq<string>)
    requires |parts| > 0
    ensures PathJoinAll(root, parts) == PathJoin(PathJoinAll(root, parts[..|parts| - 1]), parts[|parts| - 1])
  {
  }

  /** Joining a first component and then the rest is joining them all. */
  lemma {:induction false} PathJoinAllCons(root: string, x: string, p: seq<string>)
    ensures PathJoinAll(root, [x] + p) == PathJoinAll(PathJoin(root, x), p)
    decreases |p|
  {
    if |p| == 0 {
      assert [x] + p == [x] && [x][..0] == [];
      PathJoinAllUnfold(root, [x]);
    } else {
      var q := [x] + p;
      PathJoinAllCons(root, x, p[..|p| - 1]);
      Sequences.ConsInit(x, p);
      assert q[..|q| - 1] == [x] + p[..|p| - 1] && q[|q| - 1] == p[|p| - 1];
      PathJoinAllUnfold(root, q);
      PathJoinAllUnfold(PathJoin(root, x), p);
    }
  }

  /** `os.path.basename`: what follows the last `/`. */
  function Basename(p: string): (r: string)
    ensures '/' !in r
    ensures EndsWith(p, r)
    ensures '/' !in p ==> r == p
    ensures |r| < |p| ==> p[|p| - |r| - 1] == '/'
  {
    var parts := Split(p, '/');
    var last := parts[|parts| - 1];
    assert |parts| >= 2 ==> p == Join(parts[..|parts| - 1], '/') + ['/'] + last by {
      JoinSplit(p, '/');
      if |parts| >= 2 { JoinLast(parts, '/'); }
    }
    last
  }
}
