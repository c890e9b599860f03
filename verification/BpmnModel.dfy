/**
 Token flow through a BPMN process: one step as a function of the token list,
 and what every step keeps.
 */
module BpmnModel {

  datatype NodeType =
    | StartEvent | EndEvent | UserTask | ServiceTask | ScriptTask
    | ExclusiveGateway | ParallelGateway | InclusiveGateway | IntermediateTimer | SubProcess

  datatype Flow = Flow(target: string, condition: string, isDefault: bool)

  datatype Node = Node(id: string, kind: NodeType, outgoing: seq<Flow>)

  datatype Token = Token(nodeId: string, active: bool)

  /** The first node of that id, or -1. */
  function FindNode(nodes: seq<Node>, id: string): (i: int)
    ensures -1 <= i < |nodes|
    ensures i >= 0 ==> nodes[i].id == id && forall k :: 0 <= k < i ==> nodes[k].id != id
    ensures i < 0 ==> forall k :: 0 <= k < |nodes| ==> nodes[k].id != id
  {
    if nodes == [] then -1
    else
      var i := FindNode(nodes[..|nodes| - 1], id);
      if i >= 0 then i else if nodes[|nodes| - 1].id == id then |nodes| - 1 else -1
  }

  // -------------------------------------------------------- which flows a node takes

  predicate Selectable(f: Flow) {
    f.isDefault || f.condition != ""
  }

  /** Exclusive: the first selectable flow, else the first flow, -1 without flows. */
  ghost predicate ExclusiveChoice(flows: seq<Flow>, c: int) {
    && -1 <= c < |flows|
    && (c == -1 <==> flows == [])
    && ((forall k :: 0 <= k < |flows| ==> !Selectable(flows[k])) ==> c <= 0)
    && ((exists k :: 0 <= k < |flows| && Selectable(flows[k])) ==> c >= 0 && Selectable(flows[c]))
    && (forall k :: 0 <= k < c ==> !Selectable(flows[k]))
  }

  function ExclusiveFrom(flows: seq<Flow>, k: nat): (c: int)
    requires k <= |flows|
    requires forall m :: 0 <= m < k ==> !Selectable(flows[m])
    ensures ExclusiveChoice(flows, c)
    decreases |flows| - k
  {
    if k < |flows| then if Selectable(flows[k]) then k else ExclusiveFrom(flows, k + 1)
    else if flows == [] then -1 else 0
  }

  function CountSelectable(flows: seq<Flow>): (n: nat)
    ensures n <= |flows|
  {
    if flows == [] then 0
    else CountSelectable(flows[..|flows| - 1]) + if Selectable(flows[|flows| - 1]) then 1 else 0
  }

  /** Its plain meaning: the flows with a condition or the default mark, counted. */
  lemma {:induction false} CountsConditions(flows: seq<Flow>)
    ensures CountSelectable(flows)
            == |set i | 0 <= i < |flows| && (flows[i].isDefault || flows[i].condition != "")|
  {
    if flows != [] {
      var n := |flows| - 1;
      CountsConditions(flows[..n]);
      var before := set i | 0 <= i < n && (flows[..n][i].isDefault || flows[..n][i].condition != "");
      var all := set i | 0 <= i < |flows| && (flows[i].isDefault || flows[i].condition != "");
      assert all == before + if Selectable(flows[n]) then {n} else {};
    }
  }

  /** Inclusive: as many flows as are selectable, but always the first ones. */
  function InclusiveCount(flows: seq<Flow>): (n: nat)
    ensures n <= |flows| && (n == 0 <==> flows == [])
  {
    var n := CountSelectable(flows);
    if n == 0 then |flows| else n
  }

  function SelectableOf(flows: seq<Flow>): (r: seq<Flow>)
    ensures |r| == CountSelectable(flows) && forall f <- r :: Selectable(f)
  {
    if flows == [] then []
    else SelectableOf(flows[..|flows| - 1]) + if Selectable(flows[|flows| - 1]) then [flows[|flows| - 1]] else []
  }

  /** The first `n` flows are selectable and the others are not. */
  predicate SelectableFirst(flows: seq<Flow>, n: nat) {
    n <= |flows| && forall k :: 0 <= k < |flows| ==> (Selectable(flows[k]) <==> k < n)
  }

  /**
   An inclusive gateway takes exactly its selectable flows when these come first
   and there is one, or no flow at all.
   */
  lemma InclusiveTakesSelectableIff(flows: seq<Flow>)
    ensures flows[..InclusiveCount(flows)] == SelectableOf(flows)
       <==> flows == [] || exists n: nat :: n > 0 && SelectableFirst(flows, n)
  {
    var c := CountSelectable(flows);
    if flows[..InclusiveCount(flows)] == SelectableOf(flows) && flows != [] {
      assert forall k :: 0 <= k < c ==> flows[k] == SelectableOf(flows)[k];
      CountsPrefix(flows, c);
      assert SelectableFirst(flows, c);
    }
    if n: nat :| n > 0 && SelectableFirst(flows, n) {
      PrefixCounts(flows, n);
    }
  }

  lemma {:induction false} PrefixCounts(flows: seq<Flow>, n: nat)
    requires SelectableFirst(flows, n)
    ensures CountSelectable(flows) == n && SelectableOf(flows) == flows[..n]
  {
    if flows != [] {
      var m := |flows| - 1;
      PrefixCounts(flows[..m], if n > m then m else n);
    }
  }

  /** When the first flows are selectable and there are no more selectable ones, the others are not. */
  lemma {:induction false} CountsPrefix(flows: seq<Flow>, n: nat)
    requires n <= |flows| && forall k :: 0 <= k < n ==> Selectable(flows[k])
    ensures CountSelectable(flows) >= n
    ensures CountSelectable(flows) == n ==> SelectableFirst(flows, n)
  {
    if flows != [] {
      var m := |flows| - 1;
      CountsPrefix(flows[..m], if n > m then m else n);
    }
  }

  /** A gateway whose second flow alone is selectable takes the first. */
  lemma InclusiveTakesAnother()
    ensures var flows := [Flow("a", "", false), Flow("b", "c", false)];
            SelectableOf(flows) == [flows[1]] && flows[..InclusiveCount(flows)] == [flows[0]]
  {
    var flows := [Flow("a", "", false), Flow("b", "c", false)];
    assert flows[..1] == [flows[0]] && flows[..1][..0] == [];
    assert SelectableOf([]) == [];
    assert SelectableOf(flows[..1]) == SelectableOf(flows[..1][..0]);
    assert CountSelectable(flows[..1]) == 0;
    assert CountSelectable(flows) == 1;
  }

  /** The targets a token at this node goes to: the first itself, the rest as new tokens. */
  function Taken(n: Node): seq<string> {
    match n.kind
    case ExclusiveGateway =>
      var c := ExclusiveFrom(n.outgoing, 0);
      if c < 0 then [] else [n.outgoing[c].target]
    case ParallelGateway => Targets(n.outgoing)
    case InclusiveGateway => Targets(n.outgoing[..InclusiveCount(n.outgoing)])
    case IntermediateTimer => []
    case SubProcess => []
    case _ => if n.outgoing == [] then [] else [n.outgoing[0].target]
  }

  function Targets(flows: seq<Flow>): (t: seq<string>)
    ensures |t| == |flows| && forall i :: 0 <= i < |t| ==> t[i] == flows[i].target
  {
    if flows == [] then [] else [flows[0].target] + Targets(flows[1..])
  }

  /** Only these end the instance when they have nowhere to go. */
  predicate EndsInstance(n: Node) {
    (n.kind.StartEvent? || n.kind.EndEvent?) && n.outgoing == []
  }

  predicate IsEnd(nodes: seq<Node>, id: string) {
    var i := FindNode(nodes, id);
    i >= 0 && nodes[i].kind.EndEvent?
  }

  // ------------------------------------------------------------------- one step

  datatype State = State(tokens: seq<Token>, tokenCount: int, completed: bool, terminated: bool)

  /** A token the step can execute: an active one must stand on a node. */
  predicate Executable(nodes: seq<Node>, t: Token) {
    t.active ==> FindNode(nodes, t.nodeId) >= 0
  }

  /** Where an active token on an existing node ends up. */
  function Moved(nodes: seq<Node>, t: Token): Token
    requires Executable(nodes, t)
  {
    if !t.active then t
    else
      var taken := Taken(nodes[FindNode(nodes, t.nodeId)]);
      var id := if taken == [] then t.nodeId else taken[0];
      Token(id, !IsEnd(nodes, id))
  }

  /** The tokens it leaves behind, in the order in which they are prepended. */
  function Forked(nodes: seq<Node>, t: Token): seq<Token>
    requires Executable(nodes, t)
  {
    if !t.active then []
    else
      var taken := Taken(nodes[FindNode(nodes, t.nodeId)]);
      if taken == [] then [] else Prepended(taken[1..])
  }

  function Prepended(ids: seq<string>): seq<Token> {
    if ids == [] then [] else Prepended(ids[1..]) + [Token(ids[0], true)]
  }

  /**
   The token at `pos` goes to the first of these flows, and for each other one
   a new token is put in front of the list; without flows nothing moves.
   */
  ghost predicate Sent(before: seq<Token>, pos: nat, flows: seq<Flow>, after: seq<Token>)
    requires pos < |before|
  {
    if flows == [] then after == before
    else
      var m := |flows| - 1;
      && |after| == m + |before|
      && (forall k :: 0 < k <= m ==> after[m - k] == Token(flows[k].target, true))
      && after[m..] == before[pos := before[pos].(nodeId := flows[0].target)]
  }

  lemma {:induction false} PrependedAt(ids: seq<string>)
    ensures |Prepended(ids)| == |ids|
    ensures forall k :: 0 <= k < |ids| ==> Prepended(ids)[|ids| - 1 - k] == Token(ids[k], true)
  {
    if ids != [] {
      PrependedAt(ids[1..]);
    }
  }

  lemma SentIs(before: seq<Token>, pos: nat, flows: seq<Flow>)
    requires pos < |before| && flows != []
    ensures Sent(before, pos, flows,
                 Prepended(Targets(flows)[1..]) + before[pos := before[pos].(nodeId := flows[0].target)])
  {
    hide Prepended, Targets;
    var ids := Targets(flows)[1..];
    PrependedAt(ids);
    var m := |ids|;
    forall k | 0 < k <= m ensures Prepended(ids)[m - k] == Token(flows[k].target, true) {
      assert Prepended(ids)[m - 1 - (k - 1)] == Token(ids[k - 1], true);
    }
  }

  /** The token list once the first `n` tokens of `ts` have been executed. */
  function After(nodes: seq<Node>, ts: seq<Token>, n: nat): seq<Token>
    requires n <= |ts| && forall k :: 0 <= k < n ==> Executable(nodes, ts[k])
  {
    News(nodes, ts, n) + Front(nodes, ts, n) + ts[n..]
  }

  function Front(nodes: seq<Node>, ts: seq<Token>, n: nat): (r: seq<Token>)
    requires n <= |ts| && forall k :: 0 <= k < n ==> Executable(nodes, ts[k])
    ensures |r| == n
  {
    if n == 0 then []
    else Front(nodes, ts, n - 1) + [Moved(nodes, ts[n - 1])]
  }

  function News(nodes: seq<Node>, ts: seq<Token>, n: nat): seq<Token>
    requires n <= |ts| && forall k :: 0 <= k < n ==> Executable(nodes, ts[k])
  {
    if n == 0 then []
    else Forked(nodes, ts[n - 1]) + News(nodes, ts, n - 1)
  }

  /** Executing this token ends the instance. */
  predicate Ends(nodes: seq<Node>, t: Token) {
    t.active && FindNode(nodes, t.nodeId) >= 0 && EndsInstance(nodes[FindNode(nodes, t.nodeId)])
  }

  predicate AnyEnds(nodes: seq<Node>, ts: seq<Token>, n: nat)
    requires n <= |ts|
  {
    exists k :: 0 <= k < n && Ends(nodes, ts[k])
  }

  predicate AnyActive(ts: seq<Token>) {
    exists k :: 0 <= k < |ts| && ts[k].active
  }

  /** The first token that stands on no node, or the length of the list. */
  function FirstStuck(nodes: seq<Node>, ts: seq<Token>): (k: nat)
    ensures k <= |ts|
    ensures forall m :: 0 <= m < k ==> Executable(nodes, ts[m])
    ensures k < |ts| ==> !Executable(nodes, ts[k])
  {
    if ts == [] then 0
    else
      var k := FirstStuck(nodes, ts[..|ts| - 1]);
      if k < |ts| - 1 then assert !Executable(nodes, ts[k]); k
      else if Executable(nodes, ts[k]) then k + 1 else k
  }

  /** One execution step; the result code is -1 when it stops half way. */
  function Step(nodes: seq<Node>, s: State): (int, State) {
    if s.completed || s.terminated then (-1, s)
    else
      var n := FirstStuck(nodes, s.tokens);
      var ts := After(nodes, s.tokens, n);
      var count := s.tokenCount + |ts| - |s.tokens|;
      if n < |s.tokens| then
        (-1, State(ts, count, AnyEnds(nodes, s.tokens, n), s.terminated))
      else
        (0, State(ts, count, AnyEnds(nodes, s.tokens, n) || (!AnyActive(ts) && count > 0), s.terminated))
  }

  /** What a step returns when the walk over the tokens stops at token `n`. */
  lemma StepResult(nodes: seq<Node>, s: State, n: nat)
    requires n <= |s.tokens| && forall k :: 0 <= k < n ==> Executable(nodes, s.tokens[k])
    requires !s.completed && !s.terminated
    ensures n == |s.tokens| || !Executable(nodes, s.tokens[n]) ==>
              var ts := After(nodes, s.tokens, n);
              var count := s.tokenCount + |ts| - |s.tokens|;
              var ended := AnyEnds(nodes, s.tokens, n);
              Step(nodes, s) == if n < |s.tokens| then (-1, State(ts, count, ended, false))
                                else (0, State(ts, count, ended || (!AnyActive(ts) && count > 0), false))
  {
    hide Executable, AnyEnds, After, AnyActive;
    var k := FirstStuck(nodes, s.tokens);
    assert k < |s.tokens| ==> !Executable(nodes, s.tokens[k]);
  }

  function Run(nodes: seq<Node>, s: State, maxSteps: nat): (int, State)
    decreases maxSteps
  {
    if maxSteps == 0 then (0, s)
    else
      var (rc, s') := Step(nodes, s);
      if rc != 0 then (rc, s')
      else if s'.completed || s'.terminated then (0, s')
      else Run(nodes, s', maxSteps - 1)
  }

  /** Starting an instance: one active token on the start node, if there is one. */
  function Start(nodes: seq<Node>, startNodeId: string): State {
    var i := StartNode(nodes, startNodeId);
    if i < 0 then State([], 0, false, false) else State([Token(nodes[i].id, true)], 1, false, false)
  }

  /** The first start event, else the node set as start. */
  function StartNode(nodes: seq<Node>, startNodeId: string): (i: int)
    ensures -1 <= i < |nodes|
  {
    var i := FirstStartEvent(nodes, 0);
    if i >= 0 then i else FindNode(nodes, startNodeId)
  }

  function FirstStartEvent(nodes: seq<Node>, k: nat): (i: int)
    requires k <= |nodes|
    ensures i == -1 || k <= i < |nodes|
    ensures i >= 0 ==> nodes[i].kind.StartEvent?
    ensures forall m :: k <= m < (if i < 0 then |nodes| else i) ==> !nodes[m].kind.StartEvent?
    decreases |nodes| - k
  {
    if k == |nodes| then -1 else if nodes[k].kind.StartEvent? then k else FirstStartEvent(nodes, k + 1)
  }
}
