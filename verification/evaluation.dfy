/** The bottom-up evaluation of an agent table (`process_agent`), with the
    language-model call passed in as a function. */
module Evaluation {
  import Decimal
  import opened Powers
  import opened Paths
  import opened NeuronTree

  /** The model call: an agent's instructions and one user message in, the
      content of the last reply message out. */
  type Oracle = (string, string) -> string

  /** The exceptions `process_agent` can raise on its own: a name missing from
      the table, and `children[0]` on an empty child list. */
  datatype Error = KeyError(key: string) | IndexError

  datatype Result<T> = Ok(value: T) | Err(error: Error)

  /** A node's output text, with the number of model calls spent to produce it. */
  datatype Reply = Reply(text: string, modelCalls: nat)

  /** The numbered line for child `i`: `f"{i+1}. {output}"`, whose leading
      digits read back as `i + 1`. */
  function Line(i: nat, output: string): (line: string)
    ensures var n := Decimal.FromNat(i + 1);
            |line| == |n| + 2 + |output| && Decimal.IsDigits(line[..|n|]) &&
            Decimal.ToNat(line[..|n|]) == i + 1 && line[|n|..|n| + 2] == ". " && line[|n| + 2..] == output
  {
    var n := Decimal.FromNat(i + 1);
    Decimal.RoundTrip(i + 1);
    assert (n + ". " + output)[..|n|] == n;
    n + ". " + output
  }

  function NumberedLines(outputs: seq<string>): seq<string>
  {
    seq(|outputs|, i requires 0 <= i < |outputs| => Line(i, outputs[i]))
  }

  /** `"\n".join(lines)`: empty for no lines, otherwise it starts with the first. */
  function JoinLines(lines: seq<string>): (text: string)
    ensures |lines| == 0 ==> text == ""
    ensures |lines| > 0 ==> lines[0] <= text
  {
    if |lines| == 0 then ""
    else if |lines| == 1 then lines[0]
    else lines[0] + "\n" + JoinLines(lines[1..])
  }

  /** The child context an internal node embeds in its prompt: empty without
      children, otherwise it starts with the first child's line
      (ChildContextAppend gives how later lines follow). */
  function ChildContext(outputs: seq<string>): (context: string)
    ensures |outputs| == 0 ==> context == ""
    ensures |outputs| > 0 ==> Line(0, outputs[0]) <= context
  {
    JoinLines(NumberedLines(outputs))
  }

  /** Joining two non-empty blocks of lines puts one newline between them. */
  lemma {:induction false} JoinLinesAppend(a: seq<string>, b: seq<string>)
    requires |a| > 0 && |b| > 0
    ensures JoinLines(a + b) == JoinLines(a) + "\n" + JoinLines(b)
  {
    if |a| > 1 {
      assert (a + b)[1..] == a[1..] + b;
      JoinLinesAppend(a[1..], b);
    } else {
      assert (a + b)[1..] == b;
    }
  }

  /** Child outputs appear in index order: the output of the next child goes at
      the end, on its own line, numbered by its position from one. */
  lemma ChildContextAppend(outputs: seq<string>, output: string)
    requires |outputs| > 0
    ensures ChildContext(outputs + [output]) == ChildContext(outputs) + "\n" + Line(|outputs|, output)
  {
    var lines, last := NumberedLines(outputs), Line(|outputs|, output);
    var all := outputs + [output];
    assert NumberedLines(all) == lines + [last] by {
      assert |NumberedLines(all)| == |lines| + 1;
      forall i | 0 <= i < |all|
        ensures NumberedLines(all)[i] == (lines + [last])[i]
      {
        if i < |outputs| {
          assert all[i] == outputs[i];
        }
      }
    }
    JoinLinesAppend(lines, [last]);
    assert JoinLines([last]) == last;
  }

  /** With three children answering "A", "B" and "C", the context reads
      "1. A\n2. B\n3. C". */
  lemma ChildContextExample()
    ensures ChildContext(["A", "B", "C"]) == "1. A\n2. B\n3. C"
  {
    var lines := NumberedLines(["A", "B", "C"]);
    assert lines == ["1. A", "2. B", "3. C"] by {
      assert Decimal.FromNat(1) == "1" && Decimal.FromNat(2) == "2" && Decimal.FromNat(3) == "3";
      assert Line(0, "A") == "1. A" && Line(1, "B") == "2. B" && Line(2, "C") == "3. C";
    }
    assert JoinLines(lines[2..]) == "3. C";
    assert JoinLines(lines[1..]) == "2. B\n3. C" by {
      assert lines[1..][1..] == lines[2..];
    }
    assert JoinLines(lines) == "1. A\n" + "2. B\n3. C";
  }

  /** `asyncio.gather` over the children, in index order: all replies when
      every child succeeds, otherwise the first failure. */
  function Collect(results: seq<Result<Reply>>): (r: Result<seq<Reply>>)
    ensures r.Ok? <==> forall i :: 0 <= i < |results| ==> results[i].Ok?
    ensures r.Ok? ==> |r.value| == |results| &&
                      forall i :: 0 <= i < |results| ==> results[i] == Ok(r.value[i])
    ensures r.Err? ==> exists i :: 0 <= i < |results| && results[i] == Err(r.error) &&
                                   forall j :: 0 <= j < i ==> results[j].Ok?
  {
    if |results| == 0 then Ok([])
    else match results[0]
      case Err(e) => Err(e)
      case Ok(first) =>
        match Collect(results[1..])
        case Err(e) => Err(e)
        case Ok(rest) => Ok([first] + rest)
  }

  function Texts(replies: seq<Reply>): (texts: seq<string>)
  {
    seq(|replies|, i requires 0 <= i < |replies| => replies[i].text)
  }

  function TotalCalls(replies: seq<Reply>): nat
  {
    if |replies| == 0 then 0 else replies[0].modelCalls + TotalCalls(replies[1..])
  }

  /** The keys at least as long as `n`: the part of the table a node whose
      name has length `n` can still reach. */
  ghost function KeysFrom(agents: map<string, Agent>, n: nat): set<string>
  {
    set k | k in agents && |k| >= n
  }

  /** A child's name is longer than its parent's, so fewer keys remain in reach. */
  lemma KeysFromShrink(agents: map<string, Agent>, name: string)
    requires name in agents
    ensures forall i: nat :: KeysFrom(agents, |ChildName(name, i)|) < KeysFrom(agents, |name|)
  {
    forall i: nat
      ensures KeysFrom(agents, |ChildName(name, i)|) < KeysFrom(agents, |name|)
    {
      assert name !in KeysFrom(agents, |ChildName(name, i)|);
    }
  }

  /** `process_agent(name, input_str)` over the table `agents`. */
  function Process(agents: map<string, Agent>, pf: int, header: string, complete: Oracle,
                   name: string, input: string): (r: Result<Reply>)
    ensures name !in agents ==> r == Err(KeyError(name))
    ensures name in agents && pf <= 0 ==> r == Err(IndexError)
    ensures r.Ok? ==> name in agents && pf >= 1 && r.value.modelCalls >= 1
    decreases KeysFrom(agents, |name|)
  {
    if name !in agents then Err(KeyError(name))
    else if pf <= 0 then Err(IndexError)
    else if ChildName(name, 0) !in agents then
      Ok(Reply(complete(agents[name].instructions, input), 1))
    else
      KeysFromShrink(agents, name);
      var results := seq(pf, i requires 0 <= i < pf =>
                           Process(agents, pf, header, complete, ChildName(name, i), input));
      match Collect(results)
      case Err(e) => Err(e)
      case Ok(replies) =>
        Ok(Reply(complete(agents[name].instructions, header + ChildContext(Texts(replies))),
                 1 + TotalCalls(replies)))
  }

  /** The string `execute` returns, or the exception it raises. */
  function TextOf(r: Result<Reply>): Result<string>
  {
    match r
    case Ok(reply) => Ok(reply.text)
    case Err(e) => Err(e)
  }

  /** A leaf answers with one model call on the raw input, returned unchanged. */
  lemma ProcessLeaf(agents: map<string, Agent>, pf: int, header: string, complete: Oracle,
                    name: string, input: string)
    requires name in agents && pf >= 1 && ChildName(name, 0) !in agents
    ensures Process(agents, pf, header, complete, name, input) ==
              Ok(Reply(complete(agents[name].instructions, input), 1))
  {
  }

  /** An internal node evaluates every child on the same input, then makes one
      model call whose message is the header followed by the children's
      numbered outputs in index order. */
  lemma ProcessInternal(agents: map<string, Agent>, pf: int, header: string, complete: Oracle,
                        name: string, input: string, replies: seq<Reply>)
    requires name in agents && pf >= 1 && ChildName(name, 0) in agents
    requires |replies| == pf
    requires forall i :: 0 <= i < pf ==>
               Process(agents, pf, header, complete, ChildName(name, i), input) == Ok(replies[i])
    ensures Process(agents, pf, header, complete, name, input) ==
              Ok(Reply(complete(agents[name].instructions, header + ChildContext(Texts(replies))),
                       1 + TotalCalls(replies)))
  {
    var results := seq(pf, i requires 0 <= i < pf =>
                         Process(agents, pf, header, complete, ChildName(name, i), input));
    var c := Collect(results);
    assert c.Ok?;
    assert c.value == replies;
  }

  /** A failing child makes the parent's evaluation fail. */
  lemma ProcessChildFailure(agents: map<string, Agent>, pf: int, header: string, complete: Oracle,
                            name: string, input: string, i: nat)
    requires name in agents && ChildName(name, 0) in agents && i < pf
    requires Process(agents, pf, header, complete, ChildName(name, i), input).Err?
    ensures Process(agents, pf, header, complete, name, input).Err?
  {
    var results := seq(pf, j requires 0 <= j < pf =>
                         Process(agents, pf, header, complete, ChildName(name, j), input));
    assert results[i].Err?;
  }

  function Repeat(s: string, n: nat): (r: seq<string>)
    ensures |r| == n && forall i :: 0 <= i < n ==> r[i] == s
  {
    if n == 0 then [] else [s] + Repeat(s, n - 1)
  }

  /** Reference evaluation of a perfect tree: every leaf sees the same input, so
      every node at the same height gives the same answer. */
  function Tower(cfg: Config, pf: nat, complete: Oracle, input: string, n: nat): string
  {
    if n == 0 then complete(cfg.leafInstructions, input)
    else
      var below := Tower(cfg, pf, complete, input, n - 1);
      complete(cfg.internalInstructions, cfg.header + ChildContext(Repeat(below, pf)))
  }

  lemma {:induction false} TotalCallsUniform(replies: seq<Reply>, calls: nat)
    requires forall i :: 0 <= i < |replies| ==> replies[i].modelCalls == calls
    ensures TotalCalls(replies) == |replies| * calls
  {
    if |replies| > 0 {
      TotalCallsUniform(replies[1..], calls);
    }
  }

  /** An internal node whose children all give the same reply. */
  lemma ProcessUniformChildren(agents: map<string, Agent>, pf: int, header: string, complete: Oracle,
                               name: string, input: string, below: Reply)
    requires name in agents && pf >= 1 && ChildName(name, 0) in agents
    requires forall i :: 0 <= i < pf ==>
               Process(agents, pf, header, complete, ChildName(name, i), input) == Ok(below)
    ensures Process(agents, pf, header, complete, name, input) ==
              Ok(Reply(complete(agents[name].instructions, header + ChildContext(Repeat(below.text, pf))),
                       1 + pf * below.modelCalls))
  {
    var replies := seq(pf, i requires 0 <= i < pf => below);
    assert Texts(replies) == Repeat(below.text, pf);
    assert TotalCalls(replies) == pf * below.modelCalls by {
      TotalCallsUniform(replies, below.modelCalls);
    }
    ProcessInternal(agents, pf, header, complete, name, input, replies);
  }

  /** One level of a perfect subtree: an internal node whose children all give
      the reference answer one level down gives the reference answer. */
  lemma PerfectInternal(agents: map<string, Agent>, cfg: Config, pf: nat, complete: Oracle,
                        name: string, input: string, n: nat, below: Reply)
    requires pf >= 1 && n >= 1
    requires name in agents && ChildName(name, 0) in agents
    requires agents[name].instructions == cfg.internalInstructions
    requires below == Reply(Tower(cfg, pf, complete, input, n - 1), SubtreeSize(pf, n - 1))
    requires forall i :: 0 <= i < pf ==>
               Process(agents, pf, cfg.header, complete, ChildName(name, i), input) == Ok(below)
    ensures Process(agents, pf, cfg.header, complete, name, input) ==
              Ok(Reply(Tower(cfg, pf, complete, input, n), SubtreeSize(pf, n)))
  {
    ProcessUniformChildren(agents, pf, cfg.header, complete, name, input, below);
  }

  /** Evaluating a perfect subtree of height `n` gives the reference answer
      for that height and makes one model call per node of the subtree. */
  lemma {:induction false} ProcessPerfect(agents: map<string, Agent>, cfg: Config, pf: nat,
                                          complete: Oracle, name: string, input: string, n: nat)
    requires pf >= 1 && PerfectAt(agents, cfg, pf, name, n)
    ensures Process(agents, pf, cfg.header, complete, name, input) ==
              Ok(Reply(Tower(cfg, pf, complete, input, n), SubtreeSize(pf, n)))
    decreases n
  {
    if n == 0 {
      ProcessLeaf(agents, pf, cfg.header, complete, name, input);
    } else {
      var below := Reply(Tower(cfg, pf, complete, input, n - 1), SubtreeSize(pf, n - 1));
      forall i: nat | i < pf
        ensures Process(agents, pf, cfg.header, complete, ChildName(name, i), input) == Ok(below)
      {
        ProcessPerfect(agents, cfg, pf, complete, ChildName(name, i), input, n - 1);
      }
      PerfectInternal(agents, cfg, pf, complete, name, input, n, below);
    }
  }

  /** `process_agent("root", input)` on a complete build returns the reference
      answer and calls the model once per agent in the table. */
  lemma EvaluateBuiltNetwork(cfg: Config, pf: int, size: int, complete: Oracle, input: string)
    requires ValidShape(pf, size)
    ensures Process(Expected(cfg, pf, size), pf, cfg.header, complete, "root", input) ==
              Ok(Reply(Tower(cfg, pf, complete, input, Height(pf, size)), |Expected(cfg, pf, size)|))
  {
    var e := Expected(cfg, pf, size);
    var h := Height(pf, size);
    ExpectedIsPerfect(cfg, pf, size);
    ExpectedSize(cfg, pf, size);
    ProcessPerfect(e, cfg, pf, complete, "root", input, h);
  }

  /** Factor 2 and size 4: a tree of height two whose four leaves each call the
      model on the input, followed by two calls one level up and one at the
      root, seven calls in all. */
  lemma EvaluateTwoByFour(cfg: Config, complete: Oracle, input: string)
    ensures ValidShape(2, 4) && Height(2, 4) == 2
    ensures Process(Expected(cfg, 2, 4), 2, cfg.header, complete, "root", input) ==
              Ok(Reply(Tower(cfg, 2, complete, input, Height(2, 4)), 7))
  {
    TwoByFourCounts(cfg);
    EvaluateBuiltNetwork(cfg, 2, 4, complete, input);
    HeightOfFour();
  }
}
