/** The process engine: tokens overwritten and prepended in place. */
module BpmnEngine {
  import opened BpmnModel
  import opened BpmnFlow

  method EvaluateExclusive(outgoing: seq<Flow>) returns (selected: int)
    ensures selected == ExclusiveFrom(outgoing, 0)
    ensures outgoing == [] ==> selected == -1
    ensures outgoing != [] ==>
              && 0 <= selected < |outgoing|
              && (forall k :: 0 <= k < selected ==> !outgoing[k].isDefault && outgoing[k].condition == "")
              && (outgoing[selected].isDefault || outgoing[selected].condition != "" || selected == 0)
    ensures (exists f <- outgoing :: f.isDefault || f.condition != "") ==>
              selected >= 0 && (outgoing[selected].isDefault || outgoing[selected].condition != "")
  {
    for i := 0 to |outgoing|
      invariant forall k :: 0 <= k < i ==> !Selectable(outgoing[k])
    {
      if outgoing[i].isDefault || outgoing[i].condition != "" {
        ExclusiveAt(outgoing, i);
        return i;
      }
    }
    ExclusiveAt(outgoing, 0);
    selected := if |outgoing| > 0 then 0 else -1;
  }

  /** The choice is determined by its specification. */
  lemma ExclusiveAt(flows: seq<Flow>, c: int)
    requires c < |flows| || (flows == [] && c == 0)
    requires c >= 0 && forall k :: 0 <= k < c ==> !Selectable(flows[k])
    requires flows != [] && !Selectable(flows[c]) ==> c == 0 && forall k :: 0 <= k < |flows| ==> !Selectable(flows[k])
    ensures ExclusiveFrom(flows, 0) == if flows == [] then -1 else c
  {
    var e := ExclusiveFrom(flows, 0);
    assert ExclusiveChoice(flows, e);
  }

  method EvaluateParallel(outgoing: seq<Flow>) returns (flows: seq<Flow>)
    ensures flows == outgoing
  {
    flows := [];
    for i := 0 to |outgoing|
      invariant flows == outgoing[..i]
    {
      flows := flows + [outgoing[i]];
    }
  }

  method EvaluateInclusive(outgoing: seq<Flow>) returns (flows: seq<Flow>)
    ensures flows == outgoing[..InclusiveCount(outgoing)]
  {
    var count := 0;
    for i := 0 to |outgoing|
      invariant count == CountSelectable(outgoing[..i])
    {
      assert outgoing[..i + 1][..i] == outgoing[..i];
      if outgoing[i].condition != "" || outgoing[i].isDefault { count := count + 1; }
    }
    assert outgoing[..|outgoing|] == outgoing;
    if count == 0 { count := |outgoing|; }
    flows := [];
    var i := 0;
    while i < |outgoing| && |flows| < count
      invariant 0 <= i <= |outgoing| && i == |flows| <= count && flows == outgoing[..i]
    {
      flows := flows + [outgoing[i]];
      i := i + 1;
    }
  }

  class ProcessInstance {
    const nodes: seq<Node>
    var tokens: seq<Token>
    var tokenCount: int
    var isCompleted: bool
    var isTerminated: bool

    ghost function View(): State
      reads this
    {
      State(tokens, tokenCount, isCompleted, isTerminated)
    }

    constructor (nodes: seq<Node>, startNodeId: string)
      ensures this.nodes == nodes && View() == Start(nodes, startNodeId)
      ensures (exists n <- nodes :: n.kind.StartEvent?) ==>
                exists i :: 0 <= i < |nodes| && nodes[i].kind.StartEvent? && tokens == [Token(nodes[i].id, true)]
                            && forall k :: 0 <= k < i ==> !nodes[k].kind.StartEvent?
      ensures !(exists n <- nodes :: n.kind.StartEvent?) ==>
                tokens == if exists n <- nodes :: n.id == startNodeId then [Token(startNodeId, true)] else []
      ensures tokenCount == |tokens| && !isCompleted && !isTerminated
    {
      this.nodes := nodes;
      tokens, tokenCount, isCompleted, isTerminated := [], 0, false, false;
      new;
      var i := FirstStartEvent(nodes, 0);
      if i < 0 { i := Find(startNodeId); }
      if i >= 0 {
        tokens, tokenCount := [Token(nodes[i].id, true)], 1;
      }
    }

    method Find(id: string) returns (i: int)
      ensures i == FindNode(nodes, id)
    {
      i := 0;
      while i < |nodes|
        invariant 0 <= i <= |nodes| && forall k :: 0 <= k < i ==> nodes[k].id != id
      {
        if nodes[i].id == id {
          Found(nodes, i);
          return;
        }
        i := i + 1;
      }
      i := -1;
    }

    /** Sends the token at `pos` to the first flow and a new token to each other. */
    method Fork(pos: nat, flows: seq<Flow>)
      requires pos < |tokens|
      modifies this`tokens, this`tokenCount
      ensures flows == [] ==> tokens == old(tokens)
      ensures flows != [] ==>
                tokens == Prepended(Targets(flows)[1..])
                    + old(tokens)[pos := old(tokens)[pos].(nodeId := flows[0].target)]
      ensures tokenCount == old(tokenCount) + |tokens| - |old(tokens)|
      ensures Sent(old(tokens), pos, flows, tokens)
    {
      hide Prepended, Targets;
      if |flows| == 0 { return; }
      SentIs(tokens, pos, flows);
      hide Sent;
      tokens := tokens[pos := tokens[pos].(nodeId := flows[0].target)];
      ghost var moved, rest := tokens, Targets(flows)[1..];
      PrependedNone(rest);
      for i := 1 to |flows|
        invariant tokens == Prepended(rest[..i - 1]) + moved
        invariant tokenCount == old(tokenCount) + |tokens| - |old(tokens)|
      {
        PrependedOnto(rest, i - 1, moved);
        tokens := [Token(flows[i].target, true)] + tokens;
        tokenCount := tokenCount + 1;
      }
      assert rest[..|flows| - 1] == rest;
    }

    /** Executes the node an active token stands on. */
    method ExecuteNode(pos: nat) returns (rc: int)
      requires pos < |tokens| && tokens[pos].active
      modifies this`tokens, this`tokenCount, this`isCompleted
      ensures var t := old(tokens)[pos];
              var i := FindNode(nodes, t.nodeId);
              && (rc == if i < 0 then -1 else 0)
              && (i < 0 ==> tokens == old(tokens) && tokenCount == old(tokenCount) && isCompleted == old(isCompleted))
              && (i >= 0 ==>
                    var taken := Taken(nodes[i]);
                    && tokens == Forked(nodes, t)
                           + old(tokens)[pos := t.(nodeId := if taken == [] then t.nodeId else taken[0])]
                    && tokenCount == old(tokenCount) + |tokens| - |old(tokens)|
                    && isCompleted == (old(isCompleted) || EndsInstance(nodes[i])))
      ensures var i := FindNode(nodes, old(tokens)[pos].nodeId);
              i >= 0 ==>
                var flows := nodes[i].outgoing;
                match nodes[i].kind
                case ExclusiveGateway =>
                  if flows == [] then Sent(old(tokens), pos, [], tokens)
                  else exists c :: ExclusiveChoice(flows, c) && Sent(old(tokens), pos, [flows[c]], tokens)
                case ParallelGateway => Sent(old(tokens), pos, flows, tokens)
                case InclusiveGateway => Sent(old(tokens), pos, flows[..InclusiveCount(flows)], tokens)
                case IntermediateTimer => Sent(old(tokens), pos, [], tokens)
                case SubProcess => Sent(old(tokens), pos, [], tokens)
                case _ => Sent(old(tokens), pos, if flows == [] then [] else [flows[0]], tokens)
      ensures var i := FindNode(nodes, old(tokens)[pos].nodeId);
              isCompleted <==> old(isCompleted) || (i >= 0 && nodes[i].kind in {StartEvent, EndEvent}
                                                    && nodes[i].outgoing == [])
    {
      var i := Find(tokens[pos].nodeId);
      if i < 0 { return -1; }
      rc := 0;
      var outgoing := nodes[i].outgoing;
      match nodes[i].kind
      case StartEvent | EndEvent =>
        if |outgoing| > 0 { Move(pos, outgoing[0].target); } else { isCompleted := true; }
      case UserTask | ServiceTask | ScriptTask =>
        if |outgoing| > 0 { Move(pos, outgoing[0].target); }
      case ExclusiveGateway =>
        // With a flow to take, the evaluator always selects one.
        var selected := EvaluateExclusive(outgoing);
        if selected >= 0 { Move(pos, outgoing[selected].target); }
      case ParallelGateway =>
        var flows := EvaluateParallel(outgoing);
        Fork(pos, flows);
      case InclusiveGateway =>
        var flows := EvaluateInclusive(outgoing);
        Fork(pos, flows);
      case IntermediateTimer | SubProcess =>
    }

    method Move(pos: nat, target: string)
      requires pos < |tokens|
      modifies this`tokens
      ensures tokens == old(tokens)[pos := old(tokens)[pos].(nodeId := target)]
    {
      tokens := tokens[pos := tokens[pos].(nodeId := target)];
    }

    /**
     Executes token number `n` of the list `ts` the step began with, if it is
     active; `pos` is where that token has been pushed to by the new tokens.
     */
    method ExecuteToken(pos: nat, ghost ts: seq<Token>, ghost n: nat) returns (rc: int, pos': nat)
      requires n < |ts| && forall k :: 0 <= k < n ==> Executable(nodes, ts[k])
      requires tokens == After(nodes, ts, n) && pos == |News(nodes, ts, n)| + n
      modifies this`tokens, this`tokenCount, this`isCompleted
      ensures rc == if Executable(nodes, ts[n]) then 0 else -1
      ensures tokenCount == old(tokenCount) + |tokens| - |old(tokens)|
      ensures rc != 0 ==> tokens == old(tokens) && isCompleted == old(isCompleted)
      ensures rc == 0 ==>
                && tokens == After(nodes, ts, n + 1) && pos' == |News(nodes, ts, n + 1)| + n
                && isCompleted == (old(isCompleted) || Ends(nodes, ts[n]))
    {
      hide After, News, Front, Taken, FindNode, EndsInstance, Sent, ExclusiveChoice;
      AfterAt(nodes, ts, n);
      pos', rc := pos, 0;
      if !tokens[pos].active {
        AfterNext(nodes, ts, n);
        return;
      }
      var length := |tokens|;
      rc := ExecuteNode(pos);
      if rc != 0 { return; }
      pos' := pos + |tokens| - length;
      AfterNext(nodes, ts, n);
      var node := Find(tokens[pos'].nodeId);
      if node >= 0 && nodes[node].kind.EndEvent? {
        tokens := tokens[pos' := tokens[pos'].(active := false)];
      }
    }

    /** Walks the list, executing active tokens, until one stands on no node. */
    method ExecuteAll() returns (rc: int, ghost n: nat)
      requires !isCompleted
      modifies this`tokens, this`tokenCount, this`isCompleted
      ensures n <= |old(tokens)| && forall k :: 0 <= k < n ==> Executable(nodes, old(tokens)[k])
      ensures rc == if n < |old(tokens)| then -1 else 0
      ensures n < |old(tokens)| ==> !Executable(nodes, old(tokens)[n])
      ensures tokens == After(nodes, old(tokens), n) && isCompleted == AnyEnds(nodes, old(tokens), n)
      ensures tokenCount == old(tokenCount) + |tokens| - |old(tokens)|
    {
      hide After, News, Front, Executable, AnyEnds, Ends;
      n, rc := 0, 0;
      var pos := 0;
      AfterNone(nodes, tokens);
      while pos < |tokens|
        invariant n <= |old(tokens)| && forall k :: 0 <= k < n ==> Executable(nodes, old(tokens)[k])
        invariant tokens == After(nodes, old(tokens), n) && pos == |News(nodes, old(tokens), n)| + n
        invariant |tokens| == |News(nodes, old(tokens), n)| + |old(tokens)|
        invariant tokenCount == old(tokenCount) + |tokens| - |old(tokens)|
        invariant isCompleted == AnyEnds(nodes, old(tokens), n)
        decreases |old(tokens)| - n
      {
        rc, pos := ExecuteToken(pos, old(tokens), n);
        if rc != 0 { return; }
        AfterAt(nodes, old(tokens), n + 1);
        AnyEndsStep(nodes, old(tokens), n);
        pos := pos + 1;
        n := n + 1;
      }
      rc := 0;
    }

    method ExecuteStep() returns (rc: int)
      modifies this
      ensures rc == Step(nodes, old(View())).0
      ensures View() == Step(nodes, old(View())).1
      ensures old(isCompleted || isTerminated) ==> rc == -1 && View() == old(View())
      ensures rc == 0 <==> !old(isCompleted || isTerminated) && forall t <- old(tokens) :: Executable(nodes, t)
      ensures rc == 0 ==>
                (isCompleted <==> (exists t <- old(tokens) :: Ends(nodes, t))
                                  || (tokenCount > 0 && forall t <- tokens :: !t.active))
    {
      hide After, Executable, AnyEnds, AnyActive, Ends, Step;
      AnyIs(nodes, tokens);
      if isCompleted || isTerminated {
        StepOver(nodes, View());
        return -1;
      }
      ghost var n;
      rc, n := ExecuteAll();
      AnyIs(nodes, tokens);
      StepResult(nodes, old(View()), n);
      if rc != 0 { return; }
      var activeCount := CountActive();
      if activeCount == 0 && tokenCount > 0 { isCompleted := true; }
    }

    method CountActive() returns (count: nat)
      ensures count > 0 <==> AnyActive(tokens)
    {
      count := 0;
      for i := 0 to |tokens|
        invariant count > 0 <==> exists k :: 0 <= k < i && tokens[k].active
      {
        if tokens[i].active { count := count + 1; }
      }
    }

    method RunSteps(maxSteps: nat) returns (rc: int)
      modifies this
      ensures rc == Run(nodes, old(View()), maxSteps).0
      ensures View() == Run(nodes, old(View()), maxSteps).1
    {
      hide Step;
      for i := 0 to maxSteps
        invariant Run(nodes, old(View()), maxSteps) == Run(nodes, View(), maxSteps - i)
      {
        rc := ExecuteStep();
        if rc != 0 { return; }
        if isCompleted || isTerminated { return; }
      }
      rc := 0;
    }

    method Terminate()
      modifies this`isTerminated, this`isCompleted
      ensures View() == old(View()).(terminated := true, completed := true)
    {
      isTerminated := true;
      isCompleted := true;
    }
  }

  lemma AfterNone(nodes: seq<Node>, ts: seq<Token>)
    ensures After(nodes, ts, 0) == ts && News(nodes, ts, 0) == [] && !AnyEnds(nodes, ts, 0)
  {
  }

  lemma AfterAt(nodes: seq<Node>, ts: seq<Token>, n: nat)
    requires n <= |ts| && forall k :: 0 <= k < n ==> Executable(nodes, ts[k])
    ensures |After(nodes, ts, n)| == |News(nodes, ts, n)| + |ts|
    ensures n < |ts| ==> After(nodes, ts, n)[|News(nodes, ts, n)| + n] == ts[n]
  {
  }

  lemma AfterNext(nodes: seq<Node>, ts: seq<Token>, n: nat)
    requires n < |ts| && forall k :: 0 <= k <= n ==> Executable(nodes, ts[k])
    ensures |After(nodes, ts, n)| == |News(nodes, ts, n)| + |ts|
    ensures |News(nodes, ts, n + 1)| == |Forked(nodes, ts[n])| + |News(nodes, ts, n)|
    ensures After(nodes, ts, n + 1)
            == Forked(nodes, ts[n]) + After(nodes, ts, n)[|News(nodes, ts, n)| + n := Moved(nodes, ts[n])]
  {
    hide After, Forked, Moved, Front, News, Executable;
    FrontStep(nodes, ts, n + 1);
    AfterAt(nodes, ts, n);
    AfterParts(nodes, ts, n);
    Replaced(Forked(nodes, ts[n]), News(nodes, ts, n), Front(nodes, ts, n), ts[n], Moved(nodes, ts[n]), ts[n + 1..]);
  }

  lemma AfterParts(nodes: seq<Node>, ts: seq<Token>, n: nat)
    requires n < |ts| && forall k :: 0 <= k <= n ==> Executable(nodes, ts[k])
    ensures After(nodes, ts, n) == News(nodes, ts, n) + Front(nodes, ts, n) + ([ts[n]] + ts[n + 1..])
    ensures After(nodes, ts, n + 1) == News(nodes, ts, n + 1) + Front(nodes, ts, n + 1) + ts[n + 1..]
  {
    hide News, Front, Executable;
    assert ts[n..] == [ts[n]] + ts[n + 1..];
  }

  lemma Replaced<T>(k: seq<T>, w: seq<T>, f: seq<T>, t: T, m: T, rest: seq<T>)
    ensures (k + w) + (f + [m]) + rest == k + (w + f + ([t] + rest))[|w| + |f| := m]
  {
  }

  lemma AnyEndsStep(nodes: seq<Node>, ts: seq<Token>, n: nat)
    requires n < |ts|
    ensures AnyEnds(nodes, ts, n + 1) <==> AnyEnds(nodes, ts, n) || Ends(nodes, ts[n])
  {
    hide FindNode;
  }

  lemma AnyIs(nodes: seq<Node>, ts: seq<Token>)
    ensures AnyEnds(nodes, ts, |ts|) <==> exists t <- ts :: Ends(nodes, t)
    ensures AnyActive(ts) <==> exists t <- ts :: t.active
  {
    hide Ends;
  }

  lemma StepOver(nodes: seq<Node>, s: State)
    requires s.completed || s.terminated
    ensures Step(nodes, s) == (-1, s)
  {
  }

  lemma PrependedNone(ids: seq<string>)
    ensures Prepended(ids[..0]) == []
  {
  }

  lemma PrependedOnto(ids: seq<string>, i: nat, ts: seq<Token>)
    requires i < |ids|
    ensures [Token(ids[i], true)] + (Prepended(ids[..i]) + ts) == Prepended(ids[..i + 1]) + ts
  {
    hide Prepended;
    PrependedNext(ids, i);
  }

  lemma PrependedNext(ids: seq<string>, i: nat)
    requires i < |ids|
    ensures Prepended(ids[..i + 1]) == [Token(ids[i], true)] + Prepended(ids[..i])
  {
    assert ids[..i + 1] == ids[..i] + [ids[i]];
    PrependedLast(ids[..i], ids[i]);
  }

  lemma {:induction false} PrependedLast(ids: seq<string>, id: string)
    ensures Prepended(ids + [id]) == [Token(id, true)] + Prepended(ids)
  {
    if ids == [] {
      assert Prepended([id]) == Prepended([id][1..]) + [Token(id, true)];
      assert [] + [id] == [id];
    } else {
      assert (ids + [id])[1..] == ids[1..] + [id];
      PrependedLast(ids[1..], id);
    }
  }
}
