/**
 Whole runs of a process without cycles. Three numbers are read off the graph
 for each token: the tokens it will end as, the steps until all of them are
 inactive, and the steps until one of them ends the instance, whatever still
 runs. Each step conserves the first and counts the other two down, and the
 run completes when either of them is used up.
 */
module BpmnFlow {
  import opened BpmnModel

  // ------------------------------------------------------------- without cycles

  /** A number for each node on which an active token may stand, falling along the flows taken. */
  type Ranking = map<nat, nat>

  /** A target is a node of smaller rank, or an end event on which the token that moves comes to rest. */
  ghost predicate Downhill(nodes: seq<Node>, rank: Ranking, i: nat, target: string, moves: bool)
    requires i in rank
  {
    var j := FindNode(nodes, target);
    j >= 0 && ((moves && IsEnd(nodes, target)) || (j in rank && rank[j] < rank[i]))
  }

  ghost predicate NodeFlows(nodes: seq<Node>, rank: Ranking, i: nat)
    requires i < |nodes| && i in rank
  {
    var taken := Taken(nodes[i]);
    forall k :: 0 <= k < |taken| ==> Downhill(nodes, rank, i, taken[k], k == 0)
  }

  /** Every flow an active token can take leads downhill; nodes may have none. */
  ghost predicate Flows(nodes: seq<Node>, rank: Ranking) {
    forall i :: i in rank ==> i < |nodes| && NodeFlows(nodes, rank, i)
  }

  /** An active token stands on a ranked node, an inactive one on an end event. */
  ghost predicate OnGraph(nodes: seq<Node>, rank: Ranking, t: Token) {
    FindNode(nodes, t.nodeId) >= 0 && if t.active then FindNode(nodes, t.nodeId) in rank else IsEnd(nodes, t.nodeId)
  }

  ghost predicate AllOnGraph(nodes: seq<Node>, rank: Ranking, ts: seq<Token>) {
    forall t <- ts :: OnGraph(nodes, rank, t)
  }

  ghost function Level(nodes: seq<Node>, rank: Ranking, t: Token): nat
    requires OnGraph(nodes, rank, t)
  {
    if t.active then rank[FindNode(nodes, t.nodeId)] + 1 else 0
  }

  ghost function TopLevel(nodes: seq<Node>, rank: Ranking, ts: seq<Token>): (m: nat)
    requires AllOnGraph(nodes, rank, ts)
    ensures ts == [] ==> m == 0
  {
    if ts == [] then 0
    else
      var m, l := TopLevel(nodes, rank, ts[..|ts| - 1]), Level(nodes, rank, ts[|ts| - 1]);
      if l > m then l else m
  }

  /** What becomes of an active token in one step. */
  ghost function Successors(nodes: seq<Node>, t: Token): seq<Token>
    requires Executable(nodes, t)
  {
    Forked(nodes, t) + [Moved(nodes, t)]
  }

  ghost predicate Stays(nodes: seq<Node>, t: Token)
    requires t.active && Executable(nodes, t)
  {
    Taken(nodes[FindNode(nodes, t.nodeId)]) == []
  }

  lemma {:induction false} PrependedFall(nodes: seq<Node>, rank: Ranking, i: nat, ids: seq<string>)
    requires i in rank && forall k :: 0 <= k < |ids| ==> Downhill(nodes, rank, i, ids[k], false)
    ensures AllOnGraph(nodes, rank, Prepended(ids)) && TopLevel(nodes, rank, Prepended(ids)) <= rank[i]
  {
    if ids != [] {
      assert Downhill(nodes, rank, i, ids[0], false);
      PrependedFall(nodes, rank, i, ids[1..]);
      var t, rest := Token(ids[0], true), Prepended(ids[1..]);
      assert (rest + [t])[..|rest|] == rest;
      assert OnGraph(nodes, rank, t);
    }
  }

  lemma MovedFalls(nodes: seq<Node>, rank: Ranking, i: nat, target: string)
    requires i in rank && Downhill(nodes, rank, i, target, true)
    ensures var m := Token(target, !IsEnd(nodes, target));
            OnGraph(nodes, rank, m) && Level(nodes, rank, m) <= rank[i]
  {
  }

  lemma TakenFall(nodes: seq<Node>, rank: Ranking, i: nat)
    requires Flows(nodes, rank) && i in rank
    ensures i < |nodes|
    ensures var taken := Taken(nodes[i]);
            taken != [] ==> Downhill(nodes, rank, i, taken[0], true)
                            && forall k :: 0 <= k < |taken| - 1 ==> Downhill(nodes, rank, i, taken[1..][k], false)
  {
    hide Taken;
    assert NodeFlows(nodes, rank, i);
  }

  lemma SuccessorsFall(nodes: seq<Node>, rank: Ranking, t: Token)
    requires Flows(nodes, rank) && OnGraph(nodes, rank, t) && t.active && !Stays(nodes, t)
    ensures AllOnGraph(nodes, rank, Successors(nodes, t))
    ensures TopLevel(nodes, rank, Successors(nodes, t)) < Level(nodes, rank, t)
  {
    hide Flows, Taken, Prepended, Downhill, IsEnd;
    var i := FindNode(nodes, t.nodeId);
    var taken := Taken(nodes[i]);
    TakenFall(nodes, rank, i);
    PrependedFall(nodes, rank, i, taken[1..]);
    MovedFalls(nodes, rank, i, taken[0]);
    hide FindNode, OnGraph;
    TopLevelOf(nodes, rank, Forked(nodes, t), Moved(nodes, t));
  }

  lemma TopLevelOf(nodes: seq<Node>, rank: Ranking, f: seq<Token>, m: Token)
    requires AllOnGraph(nodes, rank, f) && OnGraph(nodes, rank, m)
    ensures AllOnGraph(nodes, rank, f + [m])
    ensures var a, b := TopLevel(nodes, rank, f), Level(nodes, rank, m);
            TopLevel(nodes, rank, f + [m]) == if b > a then b else a
  {
    hide OnGraph, Level;
    assert (f + [m])[..|f|] == f;
  }

  // ------------------------------------------------------------------ forecasts

  datatype Depth = Steps(n: nat) | Never

  predicate Within(d: Depth, n: int) {
    d.Steps? && d.n <= n
  }

  predicate Before(a: Depth, b: Depth) {
    a.Steps? && (b.Steps? ==> a.n < b.n)
  }

  function Later(a: Depth, b: Depth): Depth {
    if Before(a, b) then b else a
  }

  function Sooner(a: Depth, b: Depth): Depth {
    if Before(a, b) then a else b
  }

  function StepLater(d: Depth): Depth {
    if d.Steps? then Steps(d.n + 1) else Never
  }

  function StepSooner(d: Depth): Depth {
    if d.Steps? && d.n > 0 then Steps(d.n - 1) else d
  }

  /** The tokens a token ends as, the steps until they rest, and the steps until one of them ends the instance. */
  datatype Forecast = Forecast(weight: nat, height: Depth, early: Depth)

  const NOTHING := Forecast(0, Steps(0), Never)

  function Joined(a: Forecast, b: Forecast): Forecast {
    Forecast(a.weight + b.weight, Later(a.height, b.height), Sooner(a.early, b.early))
  }

  ghost function OfToken(nodes: seq<Node>, rank: Ranking, t: Token): (f: Forecast)
    requires Flows(nodes, rank) && OnGraph(nodes, rank, t)
    ensures (t.active <==> f.height != Steps(0)) && f.early != Steps(0)
    decreases Level(nodes, rank, t), 0, 0
  {
    if !t.active then Forecast(1, Steps(0), Never)
    else if Stays(nodes, t) then
      Forecast(1, if IsEnd(nodes, t.nodeId) then Steps(1) else Never,
               if EndsInstance(nodes[FindNode(nodes, t.nodeId)]) then Steps(1) else Never)
    else
      SuccessorsFall(nodes, rank, t);
      var f := OfAll(nodes, rank, Successors(nodes, t));
      Forecast(f.weight, StepLater(f.height), StepLater(f.early))
  }

  ghost function OfAll(nodes: seq<Node>, rank: Ranking, ts: seq<Token>): (f: Forecast)
    requires Flows(nodes, rank) && AllOnGraph(nodes, rank, ts)
    ensures f.early != Steps(0)
    decreases TopLevel(nodes, rank, ts), 1, |ts|
  {
    if ts == [] then NOTHING
    else Joined(OfAll(nodes, rank, ts[..|ts| - 1]), OfToken(nodes, rank, ts[|ts| - 1]))
  }

  lemma OnGraphTogether(nodes: seq<Node>, rank: Ranking, a: seq<Token>, b: seq<Token>)
    ensures AllOnGraph(nodes, rank, a + b) <==> AllOnGraph(nodes, rank, a) && AllOnGraph(nodes, rank, b)
  {
    hide OnGraph;
    assert forall t :: t in a + b <==> t in a || t in b;
  }

  lemma OfAllPush(nodes: seq<Node>, rank: Ranking, ts: seq<Token>, t: Token)
    requires Flows(nodes, rank) && AllOnGraph(nodes, rank, ts + [t])
    ensures AllOnGraph(nodes, rank, ts) && OnGraph(nodes, rank, t)
    ensures OfAll(nodes, rank, ts + [t]) == Joined(OfAll(nodes, rank, ts), OfToken(nodes, rank, t))
  {
    hide Flows, OnGraph, OfToken, Joined;
    OnGraphTogether(nodes, rank, ts, [t]);
    assert t in [t];
    assert (ts + [t])[..|ts|] == ts;
  }

  lemma OfNothing(nodes: seq<Node>, rank: Ranking)
    requires Flows(nodes, rank)
    ensures AllOnGraph(nodes, rank, []) && OfAll(nodes, rank, []) == NOTHING
    ensures forall f :: Joined(f, NOTHING) == f
  {
    hide Flows;
  }

  lemma JoinedAssociates(a: Forecast, b: Forecast, c: Forecast)
    ensures Joined(Joined(a, b), c) == Joined(a, Joined(b, c))
  {
  }

  lemma {:induction false} OfAllAppend(nodes: seq<Node>, rank: Ranking, a: seq<Token>, b: seq<Token>)
    requires Flows(nodes, rank) && AllOnGraph(nodes, rank, a) && AllOnGraph(nodes, rank, b)
    ensures AllOnGraph(nodes, rank, a + b)
    ensures OfAll(nodes, rank, a + b) == Joined(OfAll(nodes, rank, a), OfAll(nodes, rank, b))
  {
    hide Flows, OnGraph, AllOnGraph, OfToken, OfAll, Joined;
    OnGraphTogether(nodes, rank, a, b);
    if b == [] {
      OfNothing(nodes, rank);
      assert a + b == a;
    } else {
      var n := |b| - 1;
      assert b[..n] + [b[n]] == b && a + b[..n] + [b[n]] == a + b;
      OfAllPush(nodes, rank, b[..n], b[n]);
      OfAllAppend(nodes, rank, a, b[..n]);
      OfAllPush(nodes, rank, a + b[..n], b[n]);
      JoinedAssociates(OfAll(nodes, rank, a), OfAll(nodes, rank, b[..n]), OfToken(nodes, rank, b[n]));
    }
  }

  lemma OfOne(nodes: seq<Node>, rank: Ranking, t: Token)
    requires Flows(nodes, rank) && OnGraph(nodes, rank, t)
    ensures OfAll(nodes, rank, [t]) == OfToken(nodes, rank, t)
  {
    hide OfToken, OnGraph;
    assert [t][..0] == [];
    assert OfAll(nodes, rank, []) == NOTHING;
  }

  // ------------------------------------------------------------------- one step

  /** One step on: as many tokens, one step nearer to rest and to an early end, unless that has come. */
  ghost predicate OneStepOn(after: Forecast, before: Forecast) {
    && after.weight == before.weight
    && after.height == StepSooner(before.height)
    && (before.early != Steps(1) ==> after.early == StepSooner(before.early))
  }

  lemma JoinedStepOn(a': Forecast, a: Forecast, b': Forecast, b: Forecast)
    requires OneStepOn(a', a) && OneStepOn(b', b) && a.early != Steps(0) && b.early != Steps(0)
    ensures OneStepOn(Joined(a', b'), Joined(a, b))
  {
  }

  /** Executing one token: what it leaves is one step on. */
  lemma ExecuteToken(nodes: seq<Node>, rank: Ranking, t: Token)
    requires Flows(nodes, rank) && OnGraph(nodes, rank, t)
    ensures AllOnGraph(nodes, rank, Successors(nodes, t))
    ensures OneStepOn(OfAll(nodes, rank, Successors(nodes, t)), OfToken(nodes, rank, t))
  {
    CanExecute(nodes, rank, t);
    hide *;
    if t.active && !Stays(nodes, t) {
      TokenMoves(nodes, rank, t);
    } else {
      TokenStays(nodes, rank, t);
    }
  }

  lemma CanExecute(nodes: seq<Node>, rank: Ranking, t: Token)
    requires OnGraph(nodes, rank, t)
    ensures Executable(nodes, t)
  {
  }

  /** What a moving token leaves is what it was forecast from. */
  lemma TokenMoves(nodes: seq<Node>, rank: Ranking, t: Token)
    requires Flows(nodes, rank) && OnGraph(nodes, rank, t) && t.active && !Stays(nodes, t)
    ensures AllOnGraph(nodes, rank, Successors(nodes, t))
    ensures OneStepOn(OfAll(nodes, rank, Successors(nodes, t)), OfToken(nodes, rank, t))
  {
    hide Flows, Taken, Stays, OnGraph, Successors;
    SuccessorsFall(nodes, rank, t);
  }

  /** A token at rest or at a dead end forks nothing; an active one on an end event comes to rest. */
  lemma TokenStays(nodes: seq<Node>, rank: Ranking, t: Token)
    requires Flows(nodes, rank) && OnGraph(nodes, rank, t) && (t.active ==> Stays(nodes, t))
    ensures var m := Moved(nodes, t);
            && Successors(nodes, t) == [m] && OnGraph(nodes, rank, m) && AllOnGraph(nodes, rank, [m])
            && OneStepOn(OfAll(nodes, rank, [m]), OfToken(nodes, rank, t))
  {
    hide Flows, Taken, OfAll;
    OfOne(nodes, rank, Moved(nodes, t));
  }

  lemma {:induction false} FrontOn(nodes: seq<Node>, rank: Ranking, ts: seq<Token>, n: nat)
    requires Flows(nodes, rank) && AllOnGraph(nodes, rank, ts) && n <= |ts|
    ensures forall k :: 0 <= k < n ==> Executable(nodes, ts[k])
    ensures AllOnGraph(nodes, rank, Front(nodes, ts, n)) && AllOnGraph(nodes, rank, News(nodes, ts, n))
    ensures OneStepOn(Joined(OfAll(nodes, rank, News(nodes, ts, n)), OfAll(nodes, rank, Front(nodes, ts, n))),
                      OfAll(nodes, rank, ts[..n]))
  {
    hide Flows, OfToken, Moved, Forked, IsEnd, Joined, Front, News, OneStepOn;
    AllCanExecute(nodes, rank, ts);
    if n == 0 {
      FrontZero(nodes, rank, ts);
    } else {
      hide OnGraph, Executable;
      FrontOn(nodes, rank, ts, n - 1);
      var t := ts[n - 1];
      ExecuteToken(nodes, rank, t);
      FrontStep(nodes, ts, n);
      var f, w, m, k := Front(nodes, ts, n - 1), News(nodes, ts, n - 1), Moved(nodes, t), Forked(nodes, t);
      assert AllOnGraph(nodes, rank, k) && OnGraph(nodes, rank, m) by {
        assert forall j :: 0 <= j < |k| ==> (k + [m])[j] == k[j];
        assert (k + [m])[|k|] == m;
      }
      OfOne(nodes, rank, m);
      OfAllAppend(nodes, rank, k, [m]);
      OfAllAppend(nodes, rank, k, w);
      OfAllAppend(nodes, rank, f, [m]);
      assert ts[..n][..n - 1] == ts[..n - 1];
      var fw, ff, fk, fm := OfAll(nodes, rank, w), OfAll(nodes, rank, f), OfAll(nodes, rank, k),
                            OfToken(nodes, rank, m);
      JoinedStepOn(Joined(fw, ff), OfAll(nodes, rank, ts[..n - 1]), Joined(fk, fm), OfToken(nodes, rank, t));
      JoinedSwap(fk, fw, ff, fm);
    }
  }

  lemma JoinedSwap(k: Forecast, w: Forecast, f: Forecast, m: Forecast)
    ensures Joined(Joined(k, w), Joined(f, m)) == Joined(Joined(w, f), Joined(k, m))
  {
  }

  lemma AllCanExecute(nodes: seq<Node>, rank: Ranking, ts: seq<Token>)
    requires AllOnGraph(nodes, rank, ts)
    ensures forall k :: 0 <= k < |ts| ==> Executable(nodes, ts[k])
  {
    assert forall k :: 0 <= k < |ts| ==> OnGraph(nodes, rank, ts[k]);
  }

  lemma FrontZero(nodes: seq<Node>, rank: Ranking, ts: seq<Token>)
    requires Flows(nodes, rank) && AllOnGraph(nodes, rank, ts)
    ensures Front(nodes, ts, 0) == [] && News(nodes, ts, 0) == [] && ts[..0] == []
    ensures OfAll(nodes, rank, []) == NOTHING && OneStepOn(Joined(NOTHING, NOTHING), NOTHING)
  {
  }

  lemma FrontStep(nodes: seq<Node>, ts: seq<Token>, n: nat)
    requires 0 < n <= |ts| && forall k :: 0 <= k < n ==> Executable(nodes, ts[k])
    ensures Front(nodes, ts, n) == Front(nodes, ts, n - 1) + [Moved(nodes, ts[n - 1])]
    ensures News(nodes, ts, n) == Forked(nodes, ts[n - 1]) + News(nodes, ts, n - 1)
  {
  }

  lemma {:induction false} ActiveIffHigh(nodes: seq<Node>, rank: Ranking, ts: seq<Token>)
    requires Flows(nodes, rank) && AllOnGraph(nodes, rank, ts)
    ensures AnyActive(ts) <==> OfAll(nodes, rank, ts).height != Steps(0)
  {
    hide Flows, OfToken, OnGraph;
    if ts != [] {
      var n := |ts| - 1;
      ActiveIffHigh(nodes, rank, ts[..n]);
      assert AnyActive(ts) <==> AnyActive(ts[..n]) || ts[n].active by {
        assert forall k :: 0 <= k < n ==> ts[..n][k] == ts[k];
      }
    }
  }

  /** Some token ends the instance in the next step exactly when the early end is one step away. */
  lemma {:induction false} EndsIffEarly(nodes: seq<Node>, rank: Ranking, ts: seq<Token>)
    requires Flows(nodes, rank) && AllOnGraph(nodes, rank, ts)
    ensures AnyEnds(nodes, ts, |ts|) <==> OfAll(nodes, rank, ts).early == Steps(1)
  {
    hide Flows, OfToken, OnGraph, Ends;
    if ts != [] {
      var n := |ts| - 1;
      EndsIffEarly(nodes, rank, ts[..n]);
      EndsNext(nodes, rank, ts[n]);
      assert AnyEnds(nodes, ts, |ts|) <==> AnyEnds(nodes, ts[..n], n) || Ends(nodes, ts[n]) by {
        assert forall k :: 0 <= k < n ==> ts[..n][k] == ts[k];
      }
    }
  }

  lemma EndsNext(nodes: seq<Node>, rank: Ranking, t: Token)
    requires Flows(nodes, rank) && OnGraph(nodes, rank, t)
    ensures Ends(nodes, t) <==> OfToken(nodes, rank, t).early == Steps(1)
  {
  }

  /** The whole list of tokens after a step is one step on. */
  lemma AfterOn(nodes: seq<Node>, rank: Ranking, ts: seq<Token>)
    requires Flows(nodes, rank) && AllOnGraph(nodes, rank, ts)
    ensures forall k :: 0 <= k < |ts| ==> Executable(nodes, ts[k])
    ensures var after := After(nodes, ts, |ts|);
            && |after| >= |ts| && AllOnGraph(nodes, rank, after)
            && OneStepOn(OfAll(nodes, rank, after), OfAll(nodes, rank, ts))
  {
    hide Flows, OnGraph, AllOnGraph, Joined, OfAll, Executable, OneStepOn, News, Front;
    FrontOn(nodes, rank, ts, |ts|);
    var news, front := News(nodes, ts, |ts|), Front(nodes, ts, |ts|);
    assert ts[..|ts|] == ts && After(nodes, ts, |ts|) == news + front;
    OfAllAppend(nodes, rank, news, front);
  }

  /**
   What one step keeps, and what it brings nearer; it completes exactly when rest
   or an early end was one step away.
   */
  lemma StepConserves(nodes: seq<Node>, rank: Ranking, s: State)
    requires Flows(nodes, rank) && AllOnGraph(nodes, rank, s.tokens) && s.tokenCount == |s.tokens| > 0
    requires !s.completed && !s.terminated
    ensures var (rc, s') := Step(nodes, s);
            var f := OfAll(nodes, rank, s.tokens);
            && rc == 0 && AllOnGraph(nodes, rank, s'.tokens) && s'.tokenCount == |s'.tokens| > 0 && !s'.terminated
            && OneStepOn(OfAll(nodes, rank, s'.tokens), f)
            && (s'.completed <==> Within(f.height, 1) || f.early == Steps(1))
  {
    hide Flows, OnGraph, AllOnGraph, AnyEnds, OfAll, Step, After, AnyActive, Executable;
    var ts := s.tokens;
    AfterOn(nodes, rank, ts);
    EndsIffEarly(nodes, rank, ts);
    StepResult(nodes, s, |ts|);
    ActiveIffHigh(nodes, rank, After(nodes, ts, |ts|));
  }

  // ------------------------------------------------------------------ whole runs

  /**
   A run completes exactly when it is long enough for all tokens to come to
   rest or for one of them to end the instance, and it leaves every token at
   rest exactly when the end did not come early.
   */
  lemma {:induction false} RunCompletes(nodes: seq<Node>, rank: Ranking, s: State, maxSteps: nat)
    requires Flows(nodes, rank) && AllOnGraph(nodes, rank, s.tokens) && s.tokenCount == |s.tokens| > 0
    requires !s.completed && !s.terminated && AnyActive(s.tokens)
    ensures var (rc, s') := Run(nodes, s, maxSteps);
            var f := OfAll(nodes, rank, s.tokens);
            && rc == 0 && AllOnGraph(nodes, rank, s'.tokens) && s'.tokenCount == |s'.tokens| && !s'.terminated
            && OfAll(nodes, rank, s'.tokens).weight == f.weight
            && (s'.completed <==> Within(Sooner(f.height, f.early), maxSteps))
            && (!AnyActive(s'.tokens) <==> s'.completed && !Before(f.early, f.height))
    decreases maxSteps
  {
    hide Flows, OnGraph, Step, OfAll;
    ActiveIffHigh(nodes, rank, s.tokens);
    if maxSteps > 0 {
      StepConserves(nodes, rank, s);
      var s' := Step(nodes, s).1;
      ActiveIffHigh(nodes, rank, s'.tokens);
      if !s'.completed { RunCompletes(nodes, rank, s', maxSteps - 1); }
    }
  }

  lemma {:induction false} RestWeight(nodes: seq<Node>, rank: Ranking, ts: seq<Token>)
    requires Flows(nodes, rank) && AllOnGraph(nodes, rank, ts) && !AnyActive(ts)
    ensures OfAll(nodes, rank, ts).weight == |ts| && forall t <- ts :: !t.active && IsEnd(nodes, t.nodeId)
  {
    hide Flows;
    if ts != [] {
      var n := |ts| - 1;
      forall k | 0 <= k < n ensures !ts[..n][k].active { assert ts[..n][k] == ts[k]; }
      RestWeight(nodes, rank, ts[..n]);
      assert !ts[n].active && OnGraph(nodes, rank, ts[n]);
    }
  }

  /** The active token a process starts with. */
  ghost function StartToken(nodes: seq<Node>, startNodeId: string): Token
    requires StartNode(nodes, startNodeId) >= 0
  {
    Token(nodes[StartNode(nodes, startNodeId)].id, true)
  }

  /**
   From the start node of any process without cycles: the weight never
   changes; the run completes exactly when it takes at least as many steps as
   the smaller of the height and the early end; it then has every token at
   rest on an end event, as many as the start weighs, exactly when the early
   end is not below the height.
   */
  lemma ProcessRun(nodes: seq<Node>, rank: Ranking, startNodeId: string, maxSteps: nat)
    requires Flows(nodes, rank)
    requires StartNode(nodes, startNodeId) >= 0 && OnGraph(nodes, rank, StartToken(nodes, startNodeId))
    ensures var f := OfToken(nodes, rank, StartToken(nodes, startNodeId));
            var (rc, s) := Run(nodes, Start(nodes, startNodeId), maxSteps);
            && rc == 0 && AllOnGraph(nodes, rank, s.tokens) && s.tokenCount == |s.tokens|
            && OfAll(nodes, rank, s.tokens).weight == f.weight
            && (s.completed <==> Within(Sooner(f.height, f.early), maxSteps))
            && (!AnyActive(s.tokens) <==> s.completed && !Before(f.early, f.height))
            && (!AnyActive(s.tokens) ==> s.tokenCount == f.weight && forall t <- s.tokens :: IsEnd(nodes, t.nodeId))
  {
    hide Flows, OnGraph, OfAll, OfToken, Run;
    var s0, t := Start(nodes, startNodeId), StartToken(nodes, startNodeId);
    assert s0.tokens == [t] && s0.tokens[0].active;
    hide Start, StartToken;
    OfOne(nodes, rank, t);
    RunCompletes(nodes, rank, s0, maxSteps);
    var s := Run(nodes, s0, maxSteps).1;
    if !AnyActive(s.tokens) { RestWeight(nodes, rank, s.tokens); }
  }

  /** Where an active token always has a flow to take, nothing ends early and everything comes to rest. */
  lemma {:induction false} AllComeToRest(nodes: seq<Node>, rank: Ranking, ts: seq<Token>)
    requires Flows(nodes, rank) && AllOnGraph(nodes, rank, ts)
    requires forall i :: i in rank ==> Taken(nodes[i]) != []
    ensures OfAll(nodes, rank, ts).height.Steps? && OfAll(nodes, rank, ts).early == Never
    decreases TopLevel(nodes, rank, ts), |ts|
  {
    hide Flows, Taken;
    if ts != [] {
      var n := |ts| - 1;
      var t := ts[n];
      AllComeToRest(nodes, rank, ts[..n]);
      assert OnGraph(nodes, rank, t);
      if t.active {
        SuccessorsFall(nodes, rank, t);
        AllComeToRest(nodes, rank, Successors(nodes, t));
      }
    }
  }

  ghost function EarlyEnd(): seq<Node> {
    [Node("s", StartEvent, [Flow("g", "", false)]),
     Node("g", ParallelGateway, [Flow("t", "", false), Flow("e", "", false)]),
     Node("t", ServiceTask, [Flow("u", "", false)]),
     Node("u", ServiceTask, [Flow("e", "", false)]),
     Node("e", EndEvent, [])]
  }

  lemma EarlyIds()
    ensures var n := EarlyEnd();
            && FindNode(n, "s") == 0 && FindNode(n, "g") == 1 && FindNode(n, "t") == 2
            && FindNode(n, "u") == 3 && FindNode(n, "e") == 4
  {
    var n := EarlyEnd();
    Found(n, 0);
    Found(n, 1);
    Found(n, 2);
    Found(n, 3);
    Found(n, 4);
  }

  lemma Found(nodes: seq<Node>, i: nat)
    requires i < |nodes| && forall k :: 0 <= k < i ==> nodes[k].id != nodes[i].id
    ensures FindNode(nodes, nodes[i].id) == i
  {
    hide FindNode;
    assert FindNode(nodes, nodes[i].id) >= 0;
  }

  ghost function EarlyRank(): Ranking {
    map[0 := 4, 1 := 3, 2 := 2, 3 := 1, 4 := 0]
  }

  lemma TakenThere()
    ensures var n := EarlyEnd();
            && Taken(n[0]) == ["g"] && Taken(n[1]) == ["t", "e"] && Taken(n[2]) == ["u"] && Taken(n[3]) == ["e"]
            && Taken(n[4]) == []
  {
    var n := EarlyEnd();
    assert Targets(n[1].outgoing) == ["t", "e"];
  }

  lemma EarlyFlows()
    ensures Flows(EarlyEnd(), EarlyRank())
  {
    EarlyIds();
    TakenThere();
    hide FindNode, Taken;
    var n := EarlyEnd();
    forall i | i in EarlyRank() ensures i < |n| && NodeFlows(n, EarlyRank(), i) {
      assert i == 0 || i == 1 || i == 2 || i == 3 || i == 4;
    }
  }

  /** A token that one token comes of is one step behind it. */
  lemma OneSuccessor(nodes: seq<Node>, rank: Ranking, t: Token, u: Token)
    requires Flows(nodes, rank) && OnGraph(nodes, rank, t) && t.active && !Stays(nodes, t)
    requires Successors(nodes, t) == [u] && OnGraph(nodes, rank, u)
    ensures var f := OfToken(nodes, rank, u);
            OfToken(nodes, rank, t) == Forecast(f.weight, StepLater(f.height), StepLater(f.early))
  {
    hide Flows, OnGraph, Stays, Successors;
    OfOne(nodes, rank, u);
  }

  lemma SuccessorsThere()
    ensures FindNode(EarlyEnd(), "s") == 0 && FindNode(EarlyEnd(), "g") == 1
    ensures FindNode(EarlyEnd(), "t") == 2 && FindNode(EarlyEnd(), "u") == 3
    ensures var n := EarlyEnd();
            && Successors(n, Token("s", true)) == [Token("g", true)]
            && Successors(n, Token("g", true)) == [Token("e", true), Token("t", true)]
            && Successors(n, Token("t", true)) == [Token("u", true)]
            && Successors(n, Token("u", true)) == [Token("e", false)]
  {
    EarlyIds();
    TakenThere();
    hide FindNode, Taken;
    assert ["t", "e"][1..] == ["e"];
    assert Prepended(["e"]) == [Token("e", true)];
  }

  lemma EarlyForecast()
    ensures Flows(EarlyEnd(), EarlyRank()) && OnGraph(EarlyEnd(), EarlyRank(), Token("s", true))
    ensures OfToken(EarlyEnd(), EarlyRank(), Token("s", true)) == Forecast(2, Steps(4), Steps(3))
  {
    var n, rank := EarlyEnd(), EarlyRank();
    var s, g, t, u, e := Token("s", true), Token("g", true), Token("t", true), Token("u", true), Token("e", true);
    EarlyFlows();
    EarlyIds();
    TakenThere();
    SuccessorsThere();
    hide FindNode, Taken, Successors, Flows;
    assert OfToken(n, rank, e) == Forecast(1, Steps(1), Steps(1));
    OneSuccessor(n, rank, u, Token("e", false));
    OneSuccessor(n, rank, t, u);
    OfOne(n, rank, e);
    OfOne(n, rank, t);
    OfAllAppend(n, rank, [e], [t]);
    assert [e] + [t] == [e, t];
    assert OfAll(n, rank, [e, t]) == Forecast(2, Steps(2), Steps(1));
    assert OfToken(n, rank, g) == Forecast(2, Steps(3), Steps(2));
    OneSuccessor(n, rank, s, g);
  }

  /**
   A gateway forks a token onto an end event: the forecast has its early end
   below its height, and the instance ends while another token still runs.
   */
  lemma ForkOntoEndCompletesEarly(startNodeId: string)
    ensures StartNode(EarlyEnd(), startNodeId) == 0
    ensures Flows(EarlyEnd(), EarlyRank()) && OnGraph(EarlyEnd(), EarlyRank(), Token("s", true))
    ensures var f := OfToken(EarlyEnd(), EarlyRank(), Token("s", true)); Before(f.early, f.height)
    ensures var s := Run(EarlyEnd(), Start(EarlyEnd(), startNodeId), 3).1;
            s.completed && AnyActive(s.tokens)
  {
    assert StartNode(EarlyEnd(), startNodeId) == 0 && StartToken(EarlyEnd(), startNodeId) == Token("s", true);
    hide EarlyEnd, EarlyRank, StartNode, Run, Start, OfToken, Flows, OnGraph;
    EarlyForecast();
    ProcessRun(EarlyEnd(), EarlyRank(), startNodeId, 3);
  }
}
