/** A neuron network object: its agent table and the three operations that
    fill and evaluate it. One class serves both the reasoning and the emotion
    network; they differ only in the texts held in `cfg`. */
module NeuronNetwork {
  import opened Powers
  import opened Paths
  import opened NeuronTree
  import opened Evaluation

  /** A path still to be visited, within the tree of the given width and height. */
  ghost predicate IsNode(w: nat, h: nat, r: seq<nat>)
  {
    |r| <= h && AllBelow(r, w)
  }

  /** The paths of the first `n` children of `p`, in index order. */
  ghost function Children(p: seq<nat>, n: nat): (kids: seq<seq<nat>>)
    ensures |kids| == n && forall k :: 0 <= k < n ==> kids[k] == p + [k]
  {
    if n == 0 then [] else Children(p, n - 1) + [p + [n - 1]]
  }

  /** The queue entries `(name, depth)` are the names and depths of `pending`. */
  ghost predicate Tracks(queue: seq<(string, nat)>, pending: seq<seq<nat>>)
  {
    |queue| == |pending| &&
    forall j :: 0 <= j < |queue| ==> queue[j] == (PathName(pending[j]), |pending[j]|)
  }

  /** Every node of the tree is done or lies below a pending path. */
  ghost predicate Covered(w: nat, h: nat, done: set<seq<nat>>, pending: seq<seq<nat>>)
  {
    forall r :: IsNode(w, h, r) ==> r in done || exists j :: 0 <= j < |pending| && pending[j] <= r
  }

  /** The number of agents the subtree below `p` still needs. */
  ghost function Weight(w: nat, h: nat, p: seq<nat>): nat
  {
    if |p| <= h then SubtreeSize(w, h - |p|) else 0
  }

  /** The number of agents the build still creates from the queue. */
  ghost function Remaining(w: nat, h: nat, pending: seq<seq<nat>>): nat
  {
    if |pending| == 0 then 0 else Weight(w, h, pending[0]) + Remaining(w, h, pending[1..])
  }

  lemma {:induction false} RemainingAppend(w: nat, h: nat, a: seq<seq<nat>>, b: seq<seq<nat>>)
    ensures Remaining(w, h, a + b) == Remaining(w, h, a) + Remaining(w, h, b)
  {
    if |a| > 0 {
      assert (a + b)[1..] == a[1..] + b;
      RemainingAppend(w, h, a[1..], b);
    } else {
      assert a + b == b;
    }
  }

  lemma {:induction false} RemainingChildren(w: nat, h: nat, p: seq<nat>, n: nat)
    requires |p| < h
    ensures Remaining(w, h, Children(p, n)) == n * SubtreeSize(w, h - |p| - 1)
  {
    if n > 0 {
      var below := SubtreeSize(w, h - |p| - 1);
      var last := p + [n - 1];
      assert Remaining(w, h, [last]) == below by {
        assert [last][1..] == [];
      }
      assert Remaining(w, h, Children(p, n)) == Remaining(w, h, Children(p, n - 1)) + below by {
        RemainingAppend(w, h, Children(p, n - 1), [last]);
      }
      RemainingChildren(w, h, p, n - 1);
      MulSucc(n - 1, below);
    }
  }

  /** The queue entries for the first `n` children of `name`, one level below
      `depth`, in index order. */
  function ChildEntries(name: string, depth: nat, n: nat): (entries: seq<(string, nat)>)
    ensures |entries| == n
    ensures forall i :: 0 <= i < n ==> entries[i] == (ChildName(name, i), depth + 1)
  {
    if n == 0 then [] else ChildEntries(name, depth, n - 1) + [(ChildName(name, n - 1), depth + 1)]
  }

  /** The `for i in range(processing_factor)` loop of `init_network`: puts the
      children of `name` at the back of the queue, none for a factor below one. */
  method EnqueueChildren(queue: seq<(string, nat)>, name: string, depth: nat, pf: int)
    returns (queued: seq<(string, nat)>)
    ensures queued == queue + ChildEntries(name, depth, Width(pf))
  {
    queued := queue;
    var i := 0;
    while i < pf
      invariant 0 <= i <= Width(pf)
      invariant queued == queue + ChildEntries(name, depth, i)
    {
      queued := queued + [(ChildName(name, i), depth + 1)];
      i := i + 1;
    }
  }

  /** Taking the front of the queue takes the front path. */
  lemma TracksPop(queue: seq<(string, nat)>, pending: seq<seq<nat>>)
    requires Tracks(queue, pending) && |queue| > 0
    ensures queue[0] == (PathName(pending[0]), |pending[0]|)
    ensures Tracks(queue[1..], pending[1..]) && pending == [pending[0]] + pending[1..]
  {
    assert Tracks(queue[1..], pending[1..]) by {
      forall j | 0 <= j < |queue| - 1
        ensures queue[1..][j] == (PathName(pending[1..][j]), |pending[1..][j]|)
      {
        assert queue[1..][j] == queue[j + 1];
      }
    }
  }

  /** Queueing the children's entries queues the children's paths. */
  lemma TracksChildren(queue: seq<(string, nat)>, pending: seq<seq<nat>>, p: seq<nat>, n: nat)
    requires Tracks(queue, pending)
    ensures Tracks(queue + ChildEntries(PathName(p), |p|, n), pending + Children(p, n))
  {
    var q, r := queue + ChildEntries(PathName(p), |p|, n), pending + Children(p, n);
    forall j | 0 <= j < |q|
      ensures q[j] == (PathName(r[j]), |r[j]|)
    {
      if j >= |queue| {
        PathNameOfChild(p, j - |queue|);
      }
    }
  }

  /** Visiting a node and queueing its children (if any) removes exactly one
      agent from the work still to do. */
  lemma RemainingStep(w: nat, h: nat, p: seq<nat>, rest: seq<seq<nat>>)
    requires |p| <= h
    ensures Remaining(w, h, rest + (if |p| < h then Children(p, w) else [])) + 1 ==
            Remaining(w, h, [p] + rest)
  {
    assert ([p] + rest)[1..] == rest;
    if |p| < h {
      RemainingAppend(w, h, rest, Children(p, w));
      RemainingChildren(w, h, p, w);
    } else {
      assert rest + [] == rest;
    }
  }

  /** Visiting `p` keeps every node covered: `p` itself becomes done, and a
      node strictly below it lies below one of its children. */
  lemma CoverStep(w: nat, h: nat, done: set<seq<nat>>, p: seq<nat>, rest: seq<seq<nat>>)
    requires Covered(w, h, done, [p] + rest)
    ensures Covered(w, h, done + {p}, rest + (if |p| < h then Children(p, w) else []))
  {
    var kids := if |p| < h then Children(p, w) else [];
    var after := rest + kids;
    forall r | IsNode(w, h, r) && r !in done + {p}
      ensures exists j :: 0 <= j < |after| && after[j] <= r
    {
      var j :| 0 <= j < |[p] + rest| && ([p] + rest)[j] <= r;
      if j > 0 {
        assert after[j - 1] == rest[j - 1] == ([p] + rest)[j];
      } else {
        assert p <= r && p != r;
        var i := r[|p|];
        assert i < w;
        assert after[|rest| + i] == p + [i];
        assert p + [i] <= r;
      }
    }
  }

  /** One turn of the build loop keeps the walk inside the tree, keeps every
      node covered and shrinks the work still to do. */
  lemma VisitStep(w: nat, h: nat, done: set<seq<nat>>, p: seq<nat>, rest: seq<seq<nat>>)
    requires forall j :: 0 <= j < |[p] + rest| ==> IsNode(w, h, ([p] + rest)[j])
    requires Covered(w, h, done, [p] + rest)
    ensures var after := rest + (if |p| < h then Children(p, w) else []);
      && (forall j :: 0 <= j < |after| ==> IsNode(w, h, after[j]))
      && Covered(w, h, done + {p}, after)
      && Remaining(w, h, after) < Remaining(w, h, [p] + rest)
  {
    var after := rest + (if |p| < h then Children(p, w) else []);
    assert IsNode(w, h, ([p] + rest)[0]);
    forall j | 0 <= j < |after|
      ensures IsNode(w, h, after[j])
    {
      if j >= |rest| {
        AllBelowAppend(p, j - |rest|, w);
      } else {
        assert after[j] == ([p] + rest)[j + 1];
      }
    }
    CoverStep(w, h, done, p, rest);
    RemainingStep(w, h, p, rest);
  }

  /** When nothing is pending, the done set is the whole tree. */
  lemma AllDone(w: nat, h: nat, done: set<seq<nat>>)
    requires Covered(w, h, done, [])
    requires forall q :: q in done ==> IsNode(w, h, q)
    ensures done == Nodes(w, h)
  {
    forall r | r in Nodes(w, h)
      ensures r in done
    {
      NodesMembership(w, h, r);
    }
    forall r | r in done
      ensures r in Nodes(w, h)
    {
      NodesMembership(w, h, r);
    }
  }

  /** Updating a merged map updates its right-hand part. */
  lemma UpdateMerged<K, V>(a: map<K, V>, b: map<K, V>, k: K, v: V)
    ensures (a + b)[k := v] == a + b[k := v]
  {
  }

  /** Merging in a map that already covers the old one changes nothing. */
  lemma MergeIdle<K, V>(a: map<K, V>, b: map<K, V>)
    requires a.Keys <= b.Keys
    ensures a + b == b
  {
  }

  class Network {
    /** The instructions and the integration header of this kind of network. */
    const cfg: Config
    const processingFactor: int
    /** The number of leaves the tree is meant to have. */
    const size: int
    var agents: map<string, Agent>

    constructor (cfg: Config, processingFactor: int, size: int)
      ensures this.cfg == cfg && this.processingFactor == processingFactor && this.size == size
      ensures agents == map[]
    {
      this.cfg := cfg;
      this.processingFactor := processingFactor;
      this.size := size;
      agents := map[];
    }

    /** `create_agent`: registers an agent under `name`, replacing any agent
        already registered under it. */
    method CreateAgent(name: string, isLeaf: bool) returns (agent: Agent)
      modifies this
      ensures agent.name == name
      ensures agent.instructions == (if isLeaf then cfg.leafInstructions else cfg.internalInstructions)
      ensures agents == old(agents)[name := agent]
    {
      agent := Agent(name, Instructions(cfg, isLeaf));
      agents := agents[name := agent];
    }

    /** `init_network`: a breadth-first walk from ("root", 0) that creates one
        agent per node, a leaf where `size == processing_factor ** depth`, and
        queues `processing_factor` children below every other node. Agents
        registered before are kept unless a node's name replaces them. */
    method InitNetwork()
      requires BuildTerminates(processingFactor, size)
      modifies this
      ensures agents == old(agents) + Built(cfg, processingFactor, size)
    {
      ghost var w, h := Width(processingFactor), BuildHeight(processingFactor, size);
      var queue: seq<(string, nat)> := [("root", 0)];
      ghost var pending: seq<seq<nat>> := [[]];
      ghost var done: set<seq<nat>> := {};
      assert agents == old(agents) + Table(cfg, processingFactor, size, done);
      while |queue| > 0
        invariant Tracks(queue, pending)
        invariant forall j :: 0 <= j < |pending| ==> IsNode(w, h, pending[j])
        invariant forall q :: q in done ==> IsNode(w, h, q)
        invariant Covered(w, h, done, pending)
        invariant agents == old(agents) + Table(cfg, processingFactor, size, done)
        decreases Remaining(w, h, pending)
      {
        var (name, depth) := queue[0];
        ghost var p, rest := pending[0], pending[1..];
        TracksPop(queue, pending);
        queue := queue[1..];
        var isLeaf := size == Pow(processingFactor, depth);
        var agent := CreateAgent(name, isLeaf);
        assert agents == old(agents) + Table(cfg, processingFactor, size, done + {p}) by {
          assert agent == Entry(cfg, processingFactor, size, p);
          TableAdd(cfg, processingFactor, size, done, p);
          UpdateMerged(old(agents), Table(cfg, processingFactor, size, done), name, agent);
        }
        ghost var kids: seq<seq<nat>> := [];
        if !isLeaf {
          TracksChildren(queue, rest, p, w);
          queue := EnqueueChildren(queue, name, depth, processingFactor);
          kids := Children(p, w);
        }
        // The leaf test holds at the full height and nowhere above it.
        assert kids == (if |p| < h then Children(p, w) else []) by {
          if processingFactor >= 1 {
            LeafAtFullHeight(processingFactor, size, |p|);
          }
        }
        VisitStep(w, h, done, p, rest);
        done, pending := done + {p}, rest + kids;
      }
      AllDone(w, h, done);
    }

    /** `execute`: builds the network, then evaluates "root" on `input`. With
        a factor below one the root has no child list to index, so evaluation
        fails; on a fresh network (or one holding only agents of this build)
        the answer is the reference evaluation of the perfect tree. */
    method Execute(input: string, complete: Oracle) returns (output: Result<string>)
      requires BuildTerminates(processingFactor, size)
      modifies this
      ensures agents == old(agents) + Built(cfg, processingFactor, size)
      ensures output == TextOf(Process(agents, processingFactor, cfg.header, complete, "root", input))
      ensures processingFactor <= 0 ==> output == Err(IndexError)
      ensures processingFactor >= 1 && agents == Built(cfg, processingFactor, size) ==>
                output == Ok(Tower(cfg, processingFactor, complete, input, Height(processingFactor, size)))
    {
      InitNetwork();
      output := TextOf(Process(agents, processingFactor, cfg.header, complete, "root", input));
      BuiltCases(cfg, processingFactor, size);
      if processingFactor >= 1 && agents == Built(cfg, processingFactor, size) {
        EvaluateBuiltNetwork(cfg, processingFactor, size, complete, input);
      }
    }
  }

  /** A fresh network answers `execute` with the reference evaluation, and a
      second `execute` on the same object rebuilds the same table and gives
      the same answer. */
  method ExecuteTwice(cfg: Config, pf: int, size: int, input: string, complete: Oracle)
    returns (first: Result<string>, second: Result<string>)
    requires ValidShape(pf, size)
    ensures first == Ok(Tower(cfg, pf, complete, input, Height(pf, size)))
    ensures second == first
  {
    var net := new Network(cfg, pf, size);
    first := net.Execute(input, complete);
    MergeIdle(map[], Built(cfg, pf, size));
    second := net.Execute(input, complete);
    MergeIdle(Built(cfg, pf, size), Built(cfg, pf, size));
  }
}
