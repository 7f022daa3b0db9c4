/** The agent table a network builds: which names it holds and which
    instructions each agent carries. */
module NeuronTree {
  import opened Powers
  import opened Paths

  /** The three texts that tell the reasoning network from the emotion network. */
  datatype Config = Config(leafInstructions: string, internalInstructions: string, header: string)

  /** A language-model agent: a name and its instructions. */
  datatype Agent = Agent(name: string, instructions: string)

  /** The instructions `create_agent` gives a node, chosen by its leaf flag. */
  function Instructions(cfg: Config, isLeaf: bool): string
  {
    if isLeaf then cfg.leafInstructions else cfg.internalInstructions
  }

  /** The agent created for the node at path `p`: its depth is `|p|`, and it
      gets the leaf instructions exactly when it passes the leaf test
      `size == pf ** depth`. */
  function Entry(cfg: Config, pf: int, size: int, p: seq<nat>): (agent: Agent)
    ensures agent.name == PathName(p)
    ensures agent.instructions == cfg.leafInstructions || agent.instructions == cfg.internalInstructions
    ensures cfg.leafInstructions != cfg.internalInstructions ==>
              (agent.instructions == cfg.leafInstructions <==> size == Pow(pf, |p|))
  {
    Agent(PathName(p), Instructions(cfg, size == Pow(pf, |p|)))
  }

  /** The agents of the nodes at the paths in `s`, keyed by name. */
  ghost function Table(cfg: Config, pf: int, size: int, s: set<seq<nat>>): (m: map<string, Agent>)
    ensures m.Keys == Image(s, PathName)
  {
    PathNamesInjective();
    map p | p in s :: PathName(p) := Entry(cfg, pf, size, p)
  }

  /** Each path of the set finds its own agent under its name. */
  lemma TableAt(cfg: Config, pf: int, size: int, s: set<seq<nat>>, p: seq<nat>)
    requires p in s
    ensures PathName(p) in Table(cfg, pf, size, s)
    ensures Table(cfg, pf, size, s)[PathName(p)] == Entry(cfg, pf, size, p)
  {
    PathNamesInjective();
  }

  /** The table a complete build produces: one agent per node of the perfect
      `pf`-ary tree of height `Height(pf, size)`. */
  ghost function Expected(cfg: Config, pf: int, size: int): map<string, Agent>
    requires ValidShape(pf, size)
  {
    Table(cfg, pf, size, Nodes(pf, Height(pf, size)))
  }

  /** Adding one path to the set adds its agent under its name. */
  lemma TableAdd(cfg: Config, pf: int, size: int, s: set<seq<nat>>, p: seq<nat>)
    ensures Table(cfg, pf, size, s + {p}) == Table(cfg, pf, size, s)[PathName(p) := Entry(cfg, pf, size, p)]
  {
    var before, after := Table(cfg, pf, size, s), Table(cfg, pf, size, s + {p});
    var updated := before[PathName(p) := Entry(cfg, pf, size, p)];
    assert after.Keys == updated.Keys by {
      ImageAdd(s, p, PathName);
    }
    forall k | k in after.Keys
      ensures after[k] == updated[k]
    {
      var q :| q in s + {p} && k == PathName(q);
      TableAddAt(cfg, pf, size, s, p, q);
    }
    SameMap(after, updated);
  }

  lemma SameMap<K, V>(a: map<K, V>, b: map<K, V>)
    requires a.Keys == b.Keys && forall k :: k in a ==> a[k] == b[k]
    ensures a == b
  {
  }

  lemma TableAddAt(cfg: Config, pf: int, size: int, s: set<seq<nat>>, p: seq<nat>, q: seq<nat>)
    requires q in s + {p}
    ensures PathName(q) in Table(cfg, pf, size, s)[PathName(p) := Entry(cfg, pf, size, p)]
    ensures Table(cfg, pf, size, s + {p})[PathName(q)] ==
              Table(cfg, pf, size, s)[PathName(p) := Entry(cfg, pf, size, p)][PathName(q)]
  {
    TableAt(cfg, pf, size, s + {p}, q);
    if PathName(q) == PathName(p) {
      PathNameInjective(q, p);
    } else {
      TableAt(cfg, pf, size, s, q);
    }
  }

  /** Python's `range(n)`: the integers 0 .. n-1 in order, none when n <= 0. */
  function Range(n: int): (r: seq<int>)
    ensures |r| == if n <= 0 then 0 else n
    ensures forall i :: 0 <= i < |r| ==> r[i] == i
  {
    if n <= 0 then [] else Range(n - 1) + [n - 1]
  }

  /** The number of children `range(processing_factor)` yields. */
  function Width(pf: int): (w: nat)
    ensures w == |Range(pf)|
  {
    if pf >= 1 then pf else 0
  }

  /** The breadth-first build stops: with a factor below one the root gets no
      children; otherwise the size must be a power of the factor, or some
      branch grows forever. */
  ghost predicate BuildTerminates(pf: int, size: int)
  {
    pf <= 0 || ValidShape(pf, size)
  }

  /** The depth of the deepest node the build creates. */
  ghost function BuildHeight(pf: int, size: int): nat
    requires BuildTerminates(pf, size)
  {
    if pf >= 1 then Height(pf, size) else 0
  }

  /** The table `init_network` adds: one agent per node of the tree it walks. */
  ghost function Built(cfg: Config, pf: int, size: int): map<string, Agent>
    requires BuildTerminates(pf, size)
  {
    Table(cfg, pf, size, Nodes(Width(pf), BuildHeight(pf, size)))
  }

  /** With a factor of at least one the build is the perfect tree; below one it
      is the root alone, a leaf exactly when `size == 1`. */
  lemma BuiltCases(cfg: Config, pf: int, size: int)
    requires BuildTerminates(pf, size)
    ensures pf >= 1 ==> Built(cfg, pf, size) == Expected(cfg, pf, size)
    ensures pf <= 0 ==> Built(cfg, pf, size) == map["root" := Agent("root", Instructions(cfg, size == 1))]
  {
    if pf <= 0 {
      var root: seq<nat> := [];
      assert Nodes(0, 0) == {root};
      assert Image({root}, PathName) == {"root"};
      TableAt(cfg, pf, size, {root}, root);
    }
  }

  /** Within the tree, the leaf test holds exactly at the full height. */
  lemma LeafAtFullHeight(pf: int, size: int, d: nat)
    requires ValidShape(pf, size) && d <= Height(pf, size)
    ensures size == Pow(pf, d) <==> d == Height(pf, size)
  {
    HeightSpec(pf, size);
  }

  /** The name of path `p` is in the table exactly when `p` is a node of the
      tree, and then it maps to the agent created at depth `|p|`. */
  lemma ExpectedAt(cfg: Config, pf: int, size: int, p: seq<nat>)
    requires ValidShape(pf, size)
    ensures PathName(p) in Expected(cfg, pf, size) <==> |p| <= Height(pf, size) && AllBelow(p, pf)
    ensures PathName(p) in Expected(cfg, pf, size) ==>
              Expected(cfg, pf, size)[PathName(p)] == Entry(cfg, pf, size, p)
  {
    var h := Height(pf, size);
    NodesMembership(pf, h, p);
    if PathName(p) in Expected(cfg, pf, size) {
      var q :| q in Nodes(pf, h) && PathName(q) == PathName(p);
      PathNameInjective(q, p);
      TableAt(cfg, pf, size, Nodes(pf, h), p);
    }
  }

  /** Every key of the table is the name of a node. */
  lemma ExpectedNames(cfg: Config, pf: int, size: int, k: string)
    requires ValidShape(pf, size)
    requires k in Expected(cfg, pf, size)
    ensures exists p :: |p| <= Height(pf, size) && AllBelow(p, pf) && k == PathName(p)
  {
    var p :| p in Nodes(pf, Height(pf, size)) && k == PathName(p);
    NodesMembership(pf, Height(pf, size), p);
  }

  /** The root is present and was created at depth 0, so it is a leaf exactly
      when `size == 1`. */
  lemma ExpectedRoot(cfg: Config, pf: int, size: int)
    requires ValidShape(pf, size)
    ensures "root" in Expected(cfg, pf, size)
    ensures Expected(cfg, pf, size)["root"] == Agent("root", Instructions(cfg, size == 1))
  {
    ExpectedAt(cfg, pf, size, []);
  }

  /** A node that fails the leaf test has children `_child_0` .. `_child_{pf-1}`
      one level down; a node that passes it has none. */
  lemma ExpectedChildren(cfg: Config, pf: int, size: int, p: seq<nat>, i: nat)
    requires ValidShape(pf, size)
    requires PathName(p) in Expected(cfg, pf, size)
    ensures ChildName(PathName(p), i) in Expected(cfg, pf, size) <==> i < pf && size != Pow(pf, |p|)
    ensures ChildName(PathName(p), i) in Expected(cfg, pf, size) ==>
              Expected(cfg, pf, size)[ChildName(PathName(p), i)] == Entry(cfg, pf, size, p + [i])
  {
    ExpectedAt(cfg, pf, size, p);
    ExpectedAt(cfg, pf, size, p + [i]);
    PathNameOfChild(p, i);
    LeafAtFullHeight(pf, size, |p|);
    AllBelowAppend(p, i, pf);
  }

  /** The evaluator's leaf test (`{name}_child_0` absent) holds exactly for the
      agents created with the leaf instructions. */
  lemma LeafTestMatchesFlag(cfg: Config, pf: int, size: int, k: string)
    requires ValidShape(pf, size)
    requires cfg.leafInstructions != cfg.internalInstructions
    requires k in Expected(cfg, pf, size)
    ensures ChildName(k, 0) !in Expected(cfg, pf, size) <==>
              Expected(cfg, pf, size)[k].instructions == cfg.leafInstructions
  {
    ExpectedNames(cfg, pf, size, k);
    var p :| |p| <= Height(pf, size) && AllBelow(p, pf) && k == PathName(p);
    ExpectedAt(cfg, pf, size, p);
    ExpectedChildren(cfg, pf, size, p, 0);
  }

  /** Under `name` the table holds a perfect `pf`-ary subtree of height `n`:
      its leaves carry the leaf instructions and lack a `_child_0`, every other
      node carries the internal instructions and has children `_child_0` ..
      `_child_{pf-1}`. */
  ghost predicate PerfectAt(m: map<string, Agent>, cfg: Config, pf: nat, name: string, n: nat)
    decreases n
  {
    && name in m
    && (n == 0 ==> ChildName(name, 0) !in m && m[name].instructions == cfg.leafInstructions)
    && (n > 0 ==> ChildName(name, 0) in m && m[name].instructions == cfg.internalInstructions &&
                  forall i: nat :: i < pf ==> PerfectAt(m, cfg, pf, ChildName(name, i), n - 1))
  }

  /** One step down from a node: the child's path is one longer, still picks
      children below `pf`, and names the child. */
  lemma ChildPath(p: seq<nat>, i: nat, pf: nat)
    requires AllBelow(p, pf) && i < pf
    ensures |p + [i]| == |p| + 1 && AllBelow(p + [i], pf)
    ensures PathName(p + [i]) == ChildName(PathName(p), i)
  {
    AllBelowAppend(p, i, pf);
    PathNameOfChild(p, i);
  }

  /** Node by node, `m` holds what a build of height `h` creates: every node
      up to height `h` is present with the instructions its depth calls for,
      and has a `_child_0` exactly when it is above the full height. */
  ghost predicate HoldsNodes(m: map<string, Agent>, cfg: Config, pf: nat, h: nat)
  {
    forall q :: |q| <= h && AllBelow(q, pf) ==>
      && PathName(q) in m
      && m[PathName(q)].instructions == Instructions(cfg, |q| == h)
      && (ChildName(PathName(q), 0) in m <==> |q| < h)
  }

  lemma ExpectedHoldsNodes(cfg: Config, pf: int, size: int)
    requires ValidShape(pf, size)
    ensures HoldsNodes(Expected(cfg, pf, size), cfg, pf, Height(pf, size))
  {
    var h := Height(pf, size);
    forall q | |q| <= h && AllBelow(q, pf)
      ensures PathName(q) in Expected(cfg, pf, size)
      ensures Expected(cfg, pf, size)[PathName(q)].instructions == Instructions(cfg, |q| == h)
      ensures ChildName(PathName(q), 0) in Expected(cfg, pf, size) <==> |q| < h
    {
      ExpectedAt(cfg, pf, size, q);
      ExpectedChildren(cfg, pf, size, q, 0);
      LeafAtFullHeight(pf, size, |q|);
    }
  }

  /** A table that holds every node is a perfect tree below every node: below
      the node at path `p` it has height `h - |p|`. */
  lemma {:induction false} PerfectBelow(m: map<string, Agent>, cfg: Config, pf: nat, h: nat,
                                        p: seq<nat>, name: string, n: nat)
    requires HoldsNodes(m, cfg, pf, h)
    requires |p| <= h && AllBelow(p, pf) && name == PathName(p) && n == h - |p|
    ensures PerfectAt(m, cfg, pf, name, n)
    decreases n
  {
    if n > 0 {
      forall i: nat | i < pf
        ensures PerfectAt(m, cfg, pf, ChildName(name, i), n - 1)
      {
        ChildPath(p, i, pf);
        PerfectBelow(m, cfg, pf, h, p + [i], ChildName(name, i), n - 1);
      }
    }
  }

  /** A complete build is a perfect tree under "root". */
  lemma ExpectedIsPerfect(cfg: Config, pf: int, size: int)
    requires ValidShape(pf, size)
    ensures PerfectAt(Expected(cfg, pf, size), cfg, pf, "root", Height(pf, size))
  {
    ExpectedHoldsNodes(cfg, pf, size);
    PerfectBelow(Expected(cfg, pf, size), cfg, pf, Height(pf, size), [], "root", Height(pf, size));
  }

  /** The names of the agents that carry the leaf instructions. */
  ghost function LeafNames(cfg: Config, m: map<string, Agent>): set<string>
  {
    set k | k in m && m[k].instructions == cfg.leafInstructions
  }

  /** A complete build holds one agent per node: 1 + pf + ... + pf^h agents,
      where h is the height (ExpectedSizeFormula gives the closed form); with
      a factor of one it holds the root alone. */
  lemma ExpectedSize(cfg: Config, pf: int, size: int)
    requires ValidShape(pf, size)
    ensures |Expected(cfg, pf, size)| == SubtreeSize(pf, Height(pf, size))
    ensures pf == 1 ==> |Expected(cfg, pf, size)| == 1
  {
    var h := Height(pf, size);
    var e := Expected(cfg, pf, size);
    assert |e| == SubtreeSize(pf, h) by {
      var nodes := Nodes(pf, h);
      NameImageSize(nodes);
      assert e.Keys == Image(nodes, PathName);
      assert |e| == |e.Keys|;
      NodesSize(pf, h);
    }
  }

  /** The node count in closed form, for a factor of at least two:
      (pf^(h+1) - 1) / (pf - 1) with pf^h == size. */
  lemma ExpectedSizeFormula(cfg: Config, pf: int, size: int)
    requires ValidShape(pf, size) && pf >= 2
    ensures |Expected(cfg, pf, size)| == (pf * size - 1) / (pf - 1)
  {
    var n := |Expected(cfg, pf, size)|;
    assert (pf - 1) * n == pf * size - 1 by {
      var h := Height(pf, size);
      ExpectedSize(cfg, pf, size);
      SubtreeSizeClosedForm(pf, h);
      HeightSpec(pf, size);
      assert Pow(pf, h + 1) == pf * size;
    }
    MulDiv(pf - 1, n);
  }

  /** Exactly `size` agents carry the leaf instructions, and they are the
      nodes at the full height. */
  lemma ExpectedLeaves(cfg: Config, pf: int, size: int)
    requires ValidShape(pf, size)
    requires cfg.leafInstructions != cfg.internalInstructions
    ensures LeafNames(cfg, Expected(cfg, pf, size)) == Image(Leaves(pf, Height(pf, size)), PathName)
    ensures |LeafNames(cfg, Expected(cfg, pf, size))| == size
  {
    var h := Height(pf, size);
    var e := Expected(cfg, pf, size);
    var leaves := Image(Leaves(pf, h), PathName);
    assert LeafNames(cfg, e) == leaves by {
      forall k | k in LeafNames(cfg, e)
        ensures k in leaves
      {
        ExpectedNames(cfg, pf, size, k);
        var p :| |p| <= h && AllBelow(p, pf) && k == PathName(p);
        ExpectedAt(cfg, pf, size, p);
        LeafAtFullHeight(pf, size, |p|);
        LeavesMembership(pf, h, p);
      }
      forall k | k in leaves
        ensures k in LeafNames(cfg, e)
      {
        var p :| p in Leaves(pf, h) && k == PathName(p);
        LeavesMembership(pf, h, p);
        ExpectedAt(cfg, pf, size, p);
        HeightSpec(pf, size);
      }
    }
    assert |leaves| == size by {
      NameImageSize(Leaves(pf, h));
      LeavesSize(pf, h);
      HeightSpec(pf, size);
    }
  }

  /** Factor 2 and size 4: seven agents, four of them leaves. */
  lemma TwoByFourCounts(cfg: Config)
    ensures ValidShape(2, 4)
    ensures |Expected(cfg, 2, 4)| == 7
    ensures cfg.leafInstructions != cfg.internalInstructions ==>
              |LeafNames(cfg, Expected(cfg, 2, 4))| == 4
  {
    assert ValidShape(2, 4) by {
      assert Pow(2, 2) == 4;
    }
    var n := |Expected(cfg, 2, 4)|;
    assert n == (2 * 4 - 1) / (2 - 1) by {
      ExpectedSizeFormula(cfg, 2, 4);
    }
    if cfg.leafInstructions != cfg.internalInstructions {
      ExpectedLeaves(cfg, 2, 4);
    }
  }
}
