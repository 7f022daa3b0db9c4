/** Node names of a neuron tree and the sets of positions a perfect tree has.

    A node is reached from the root by a path of child indices; its name is
    "root" followed by one `_child_<i>` per step, as `f"{name}_child_{i}"`
    builds it. */
module Paths {
  import Decimal
  import opened Powers

  /** The name of child `i` of the node called `name`. */
  function ChildName(name: string, i: nat): (c: string)
    ensures |c| >= |name| + 8 && c[..|name|] == name
  {
    name + "_child_" + Decimal.FromNat(i)
  }

  /** A child name determines both the parent's name and the index. */
  lemma ChildNameInjective(a: string, i: nat, b: string, j: nat)
    requires ChildName(a, i) == ChildName(b, j)
    ensures a == b && i == j
  {
    var s := ChildName(a, i);
    var d, e := Decimal.FromNat(i), Decimal.FromNat(j);
    assert s == a + "_child_" + d == b + "_child_" + e;
    var n := |s|;
    assert forall k :: n - |d| <= k < n ==> s[k] == d[k - (n - |d|)];
    assert forall k :: n - |e| <= k < n ==> s[k] == e[k - (n - |e|)];
    // The last '_' of the name sits just before the index digits.
    assert s[n - |d| - 1] == '_' && s[n - |e| - 1] == '_';
    assert |d| == |e|;
    assert a == s[..|a|] && b == s[..|b|];
    assert d == s[n - |d|..] && e == s[n - |e|..];
    Decimal.FromNatInjective(i, j);
  }

  /** The name of the node at the end of path `p`. */
  function PathName(p: seq<nat>): (name: string)
    ensures |name| >= 4
  {
    if |p| == 0 then "root" else ChildName(PathName(p[..|p| - 1]), p[|p| - 1])
  }

  lemma PathNameOfChild(p: seq<nat>, i: nat)
    ensures PathName(p + [i]) == ChildName(PathName(p), i)
  {
    assert (p + [i])[..|p|] == p;
  }

  /** Distinct paths have distinct names, so a map keyed by name loses no node. */
  lemma {:induction false} PathNameInjective(p: seq<nat>, q: seq<nat>)
    requires PathName(p) == PathName(q)
    ensures p == q
    decreases |p|
  {
    if |p| > 0 && |q| > 0 {
      var p', q' := p[..|p| - 1], q[..|q| - 1];
      ChildNameInjective(PathName(p'), p[|p| - 1], PathName(q'), q[|q| - 1]);
      PathNameInjective(p', q');
      assert p == p' + [p[|p| - 1]] && q == q' + [q[|q| - 1]];
    }
  }

  lemma PathNamesInjective()
    ensures forall p: seq<nat>, q: seq<nat> :: PathName(p) == PathName(q) ==> p == q
  {
    forall p: seq<nat>, q: seq<nat> | PathName(p) == PathName(q)
      ensures p == q
    {
      PathNameInjective(p, q);
    }
  }

  /** A set of paths has as many names as it has members. */
  lemma NameImageSize(s: set<seq<nat>>)
    ensures |Image(s, PathName)| == |s|
  {
    forall p, q | p in s && q in s && PathName(p) == PathName(q)
      ensures p == q
    {
      PathNameInjective(p, q);
    }
    ImageSize(s, PathName);
  }

  /** Every step of `p` picks one of the first `pf` children. */
  predicate AllBelow(p: seq<nat>, pf: nat)
  {
    forall i :: 0 <= i < |p| ==> p[i] < pf
  }

  lemma AllBelowAppend(p: seq<nat>, i: nat, pf: nat)
    ensures AllBelow(p + [i], pf) <==> AllBelow(p, pf) && i < pf
  {
    assert forall j :: 0 <= j < |p| ==> (p + [i])[j] == p[j];
    assert (p + [i])[|p|] == i;
  }

  /** All paths `[i] + q` with `q` in `s`. */
  ghost function Extended(s: set<seq<nat>>, i: nat): set<seq<nat>>
  {
    set q | q in s :: [i] + q
  }

  /** All paths `[i] + q` with `i < width` and `q` in `s`. */
  ghost function Prefixed(s: set<seq<nat>>, width: nat): set<seq<nat>>
  {
    if width == 0 then {} else Prefixed(s, width - 1) + Extended(s, width - 1)
  }

  lemma {:induction false} PrefixedMembership(s: set<seq<nat>>, width: nat, p: seq<nat>)
    ensures p in Prefixed(s, width) <==> |p| > 0 && p[0] < width && p[1..] in s
  {
    if width > 0 {
      PrefixedMembership(s, width - 1, p);
      if |p| > 0 && p[0] == width - 1 && p[1..] in s {
        assert p == [width - 1] + p[1..];
      }
    }
  }

  /** The image of a set under a function. */
  ghost function Image<A, B>(s: set<A>, f: A -> B): set<B>
  {
    set x | x in s :: f(x)
  }

  lemma ImageAdd<A, B>(s: set<A>, x: A, f: A -> B)
    ensures Image(s + {x}, f) == Image(s, f) + {f(x)}
  {
  }

  /** The image under a function that is one-to-one on the set has the set's size. */
  lemma {:induction false} ImageSize<A, B>(s: set<A>, f: A -> B)
    requires forall x, y :: x in s && y in s && f(x) == f(y) ==> x == y
    ensures |Image(s, f)| == |s|
    decreases s
  {
    if s != {} {
      var x :| x in s;
      var rest := s - {x};
      ImageSize(rest, f);
      assert Image(s, f) == Image(rest, f) + {f(x)};
    }
  }

  lemma {:induction false} PrefixedSize(s: set<seq<nat>>, width: nat)
    ensures |Prefixed(s, width)| == width * |s|
  {
    if width > 0 {
      var w := width - 1;
      var before, added := Prefixed(s, w), Extended(s, w);
      PrefixedSize(s, w);
      AddedSize(s, w);
      PrefixedDisjoint(s, w);
      DisjointUnionSize(before, added);
      MulSucc(w, |s|);
    }
  }

  lemma MulSucc(a: int, b: int)
    ensures a * b + b == (a + 1) * b
  {
  }

  /** The paths starting with `w` are not among those starting below `w`. */
  lemma PrefixedDisjoint(s: set<seq<nat>>, w: nat)
    ensures Prefixed(s, w) !! Extended(s, w)
  {
    forall p | p in Prefixed(s, w)
      ensures p !in Extended(s, w)
    {
      PrefixedMembership(s, w, p);
    }
  }

  lemma DisjointUnionSize<T>(a: set<T>, b: set<T>)
    requires a !! b
    ensures |a + b| == |a| + |b|
  {
    assert a * b == {};
  }

  lemma AddedSize(s: set<seq<nat>>, w: nat)
    ensures |Extended(s, w)| == |s|
  {
    var extend: seq<nat> -> seq<nat> := q => [w] + q;
    forall x, y | extend(x) == extend(y)
      ensures x == y
    {
      assert x == extend(x)[1..] && y == extend(y)[1..];
    }
    ImageSize(s, extend);
    assert Extended(s, w) == Image(s, extend);
  }

  /** The paths of a perfect `pf`-ary tree of height `n`, relative to its root. */
  ghost function Nodes(pf: nat, n: nat): set<seq<nat>>
  {
    if n == 0 then {[]} else {[]} + Prefixed(Nodes(pf, n - 1), pf)
  }

  /** The paths of its leaves. */
  ghost function Leaves(pf: nat, n: nat): set<seq<nat>>
  {
    if n == 0 then {[]} else Prefixed(Leaves(pf, n - 1), pf)
  }

  lemma {:induction false} NodesMembership(pf: nat, n: nat, p: seq<nat>)
    ensures p in Nodes(pf, n) <==> |p| <= n && AllBelow(p, pf)
  {
    if n > 0 {
      PrefixedMembership(Nodes(pf, n - 1), pf, p);
      if |p| > 0 {
        NodesMembership(pf, n - 1, p[1..]);
        assert AllBelow(p, pf) <==> p[0] < pf && AllBelow(p[1..], pf) by {
          assert forall i :: 1 <= i < |p| ==> p[i] == p[1..][i - 1];
        }
      }
    }
  }

  lemma {:induction false} LeavesMembership(pf: nat, n: nat, p: seq<nat>)
    ensures p in Leaves(pf, n) <==> |p| == n && AllBelow(p, pf)
  {
    if n > 0 {
      PrefixedMembership(Leaves(pf, n - 1), pf, p);
      if |p| > 0 {
        LeavesMembership(pf, n - 1, p[1..]);
        assert AllBelow(p, pf) <==> p[0] < pf && AllBelow(p[1..], pf) by {
          assert forall i :: 1 <= i < |p| ==> p[i] == p[1..][i - 1];
        }
      }
    }
  }

  lemma {:induction false} NodesSize(pf: nat, n: nat)
    ensures |Nodes(pf, n)| == SubtreeSize(pf, n)
  {
    if n > 0 {
      var below := Nodes(pf, n - 1);
      var kids := Prefixed(below, pf);
      assert [] !in kids by {
        PrefixedMembership(below, pf, []);
      }
      assert |kids| == pf * SubtreeSize(pf, n - 1) by {
        NodesSize(pf, n - 1);
        PrefixedSize(below, pf);
      }
      DisjointUnionSize({[]}, kids);
    }
  }

  lemma {:induction false} LeavesSize(pf: nat, n: nat)
    ensures |Leaves(pf, n)| == Pow(pf, n)
  {
    if n > 0 {
      LeavesSize(pf, n - 1);
      PrefixedSize(Leaves(pf, n - 1), pf);
    }
  }
}
