/**
 The meaning of a flow without evaluating it: a value for every step, each one the meaning of its kind over the values
 of its inputs.
 */
module FlowMeaning {
  import opened Common
  import opened Graphs
  import opened FlowIR
  import opened CellMeaning

  /** These are the values of these steps, in order. */
  ghost predicate Values<V>(val: map<string, V>, ids: seq<string>, vs: seq<V>) {
    |vs| == |ids| && forall i :: 0 <= i < |ids| ==> ids[i] in val && val[ids[i]] == vs[i]
  }

  /** The step's value is what its kind makes of its parameters and its inputs' values. */
  ghost predicate Holds<V(!new)>(op: Operator<V>, val: map<string, V>, n: FlowNode) {
    n.id in val && exists vs :: Values(val, n.inputs, vs) && val[n.id] == op(n.kind, n.params, vs)
  }

  ghost predicate Solves<V(!new)>(op: Operator<V>, nodes: seq<FlowNode>, val: map<string, V>) {
    forall n :: n in nodes ==> Holds(op, val, n)
  }

  lemma {:induction false} SolutionIsValue<V(!new)>(op: Operator<V>, nodes: seq<FlowNode>, val: map<string, V>,
      id: string, fuel: nat)
    requires Solves(op, nodes, val) && EvalNode(op, ById(nodes), id, fuel).Some?
    ensures id in val && EvalNode(op, ById(nodes), id, fuel) == Some(val[id])
    decreases fuel, 0
  {
    var n := ById(nodes)[id];
    assert Holds(op, val, n);
    var vs :| Values(val, n.inputs, vs) && val[n.id] == op(n.kind, n.params, vs);
    SolutionIsValues(op, nodes, val, n.inputs, fuel - 1);
    assert EvalNodes(op, ById(nodes), n.inputs, fuel - 1).value == vs;
  }

  lemma {:induction false} SolutionIsValues<V(!new)>(op: Operator<V>, nodes: seq<FlowNode>, val: map<string, V>,
      ids: seq<string>, fuel: nat)
    requires Solves(op, nodes, val) && EvalNodes(op, ById(nodes), ids, fuel).Some?
    ensures Values(val, ids, EvalNodes(op, ById(nodes), ids, fuel).value)
    decreases fuel, 1 + |ids|
  {
    if ids != [] {
      SolutionIsValue(op, nodes, val, ids[0], fuel);
      SolutionIsValues(op, nodes, val, ids[1..], fuel);
      var vs := EvalNodes(op, ById(nodes), ids, fuel).value;
      forall i | 0 <= i < |ids|
        ensures ids[i] in val && val[ids[i]] == vs[i]
      {
        assert i > 0 ==> ids[1..][i - 1] == ids[i] && vs[1..][i - 1] == vs[i];
      }
    }
  }

  lemma {:induction false} EvaluatedValues<V>(op: Operator<V>, nodes: map<string, FlowNode>, ids: seq<string>,
      fuel: nat, val: map<string, V>)
    requires EvalNodes(op, nodes, ids, fuel).Some?
    requires forall id :: id in ids ==> id in val && EvalNode(op, nodes, id, fuel) == Some(val[id])
    ensures Values(val, ids, EvalNodes(op, nodes, ids, fuel).value)
  {
    if ids != [] {
      EvaluatedValues(op, nodes, ids[1..], fuel, val);
      var vs := EvalNodes(op, nodes, ids, fuel).value;
      forall i | 0 <= i < |ids|
        ensures ids[i] in val && val[ids[i]] == vs[i]
      {
        assert i > 0 ==> ids[1..][i - 1] == ids[i] && vs[1..][i - 1] == vs[i];
      }
    }
  }

  /** With enough fuel every step of a well-formed flow has a value. */
  lemma {:induction false} AllEvaluate<V>(op: Operator<V>, flow: FlowDef) returns (fuel: nat)
    requires WellFormed(flow.nodes, flow.terminal)
    ensures forall n :: n in flow.nodes ==> EvalNode(op, ById(flow.nodes), n.id, fuel).Some?
    ensures fuel > 0
  {
    var g, nodes := FlowGraph(flow.nodes), ById(flow.nodes);
    WalkCoversFlow(flow.nodes, flow.terminal);
    WalkExact(g, flow.terminal);
    var order := WalkFrom(g, flow.terminal).value.order;
    forall x | x in order
      ensures x in Ids(flow.nodes)
    {
      TerminalStaysInside(flow.nodes, flow.terminal, x);
    }
    TopologicalSchedules(flow.nodes, order);
    fuel := |order| + 1;
    forall n | n in flow.nodes
      ensures EvalNode(op, nodes, n.id, fuel).Some?
    {
      assert n.id in order;
      var i :| 0 <= i < |order| && order[i] == n.id;
      EvalAlong(op, nodes, order, i);
      EvalNodeMono(op, nodes, n.id, i + 1, fuel);
    }
  }

  /** Where every step has a value, the values solve the step's equation. */
  lemma {:induction false} EvaluatedHolds<V(!new)>(op: Operator<V>, nodes: map<string, FlowNode>, id: string,
      fuel: nat, val: map<string, V>)
    requires fuel > 0 && id in nodes && nodes[id].id == id && val.Keys == nodes.Keys
    requires forall x :: x in nodes ==> EvalNode(op, nodes, x, fuel) == Some(val[x])
    requires forall x :: x in nodes[id].inputs ==> x in nodes
    ensures Holds(op, val, nodes[id])
  {
    var inputs := nodes[id].inputs;
    assert EvalNodes(op, nodes, inputs, fuel - 1).Some? && EvalNode(op, nodes, id, fuel) == Some(val[id]);
    EvalNodesMono(op, nodes, inputs, fuel - 1, fuel);
    EvaluatedValues(op, nodes, inputs, fuel, val);
    assert Values(val, inputs, EvalNodes(op, nodes, inputs, fuel).value);
  }

  lemma {:induction false} Solution<V(!new)>(op: Operator<V>, flow: FlowDef) returns (val: map<string, V>)
    requires WellFormed(flow.nodes, flow.terminal)
    ensures Solves(op, flow.nodes, val) && flow.terminal in val
  {
    var nodes := ById(flow.nodes);
    var fuel := AllEvaluate(op, flow);
    hide EvalNode, Holds;
    forall id | id in nodes
      ensures EvalNode(op, nodes, id, fuel).Some?
    {
      assert nodes[id] in flow.nodes;
    }
    val := map id | id in nodes :: EvalNode(op, nodes, id, fuel).value;
    forall n | n in flow.nodes
      ensures Holds(op, val, n)
    {
      ByIdFinds(flow.nodes, n);
      EvaluatedHolds(op, nodes, n.id, fuel, val);
    }
  }

  /** The equations of a well-formed flow have one solution, and the flow's result is its value at the terminal. */
  lemma {:induction false} FlowMeansExactly<V(!new)>(op: Operator<V>, flow: FlowDef, v: V)
    requires WellFormed(flow.nodes, flow.terminal)
    ensures (exists val :: Solves(op, flow.nodes, val)) && forall val :: Solves(op, flow.nodes, val) ==>
              flow.terminal in val && (FlowMeans(op, flow, v) <==> val[flow.terminal] == v)
  {
    var some := Solution(op, flow);
    var w := FlowIsDefined(op, flow);
    forall val | Solves(op, flow.nodes, val)
      ensures flow.terminal in val && (FlowMeans(op, flow, v) <==> val[flow.terminal] == v)
    {
      var fuel: nat :| EvalNode(op, ById(flow.nodes), flow.terminal, fuel) == Some(w);
      SolutionIsValue(op, flow.nodes, val, flow.terminal, fuel);
      if FlowMeans(op, flow, v) {
        FlowMeaningUnique(op, flow, v, w);
      }
    }
  }
}
