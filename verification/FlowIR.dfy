/**
 Tier A: the one validator of a flow's node graph (`FlowDef.from_json` and `_validate_graph`), for nodes
 that are already objects with a text id and a list of text inputs, which is what the cell compiler emits.
 */
module FlowIR {
  import opened Common
  import opened Graphs

  datatype FlowNode = FlowNode(id: string, kind: string, inputs: seq<string>, params: string)

  datatype FlowDef = FlowDef(terminal: string, nodes: seq<FlowNode>)

  datatype FlowRefusal =
    | NoSteps
    | InvalidNodeId(id: string)
    | DuplicateNodeId(id: string)
    | UnknownKind(id: string)
    | WrongArity(id: string)
    | BadParams(id: string)
    | TerminalNotAStep(id: string)
    | UnresolvedInput(id: string, input: string)
    | SelfInput(id: string)
    | StepLoop(id: string)
    | Unreachable

  /** `_validate_params`: the normalised parameters of a step of this kind, or a refusal. */
  type ParamRule = (string, string) -> Option<string>

  function Arity(kind: string): Option<nat> {
    if kind == "source" then Some(0)
    else if kind == "join" then Some(2)
    else if kind in ["filter", "select", "rename", "derive", "cast", "aggregate", "dedupe", "sort"] then Some(1)
    else None
  }

  predicate IdChar(c: char) {
    'a' <= c <= 'z' || '0' <= c <= '9' || c == '_'
  }

  predicate NodeIdOk(id: string) {
    var s := DollarTrim(id);
    1 <= |s| <= 64 && forall c :: c in s ==> IdChar(c)
  }

  // ----- node by node -----

  predicate NodeOk(rule: ParamRule, n: FlowNode) {
    NodeIdOk(n.id) && Arity(n.kind) == Some(|n.inputs|) && rule(n.kind, n.params).Some?
  }

  function Normalised(rule: ParamRule, n: FlowNode): FlowNode {
    match rule(n.kind, n.params)
    case None => n
    case Some(p) => n.(params := p)
  }

  function Ids(nodes: seq<FlowNode>): set<string> {
    if nodes == [] then {} else Ids(nodes[..|nodes| - 1]) + {nodes[|nodes| - 1].id}
  }

  lemma {:induction false} IdsHas(nodes: seq<FlowNode>, n: FlowNode)
    requires n in nodes
    ensures n.id in Ids(nodes)
  {
    if n != nodes[|nodes| - 1] {
      IdsHas(nodes[..|nodes| - 1], n);
    }
  }

  lemma {:induction false} IdsOwner(nodes: seq<FlowNode>, id: string) returns (n: FlowNode)
    requires id in Ids(nodes)
    ensures n in nodes && n.id == id
  {
    if nodes[|nodes| - 1].id == id {
      n := nodes[|nodes| - 1];
    } else {
      n := IdsOwner(nodes[..|nodes| - 1], id);
    }
  }

  ghost predicate DistinctIds(nodes: seq<FlowNode>) {
    forall i, j :: 0 <= i < j < |nodes| ==> nodes[i].id != nodes[j].id
  }

  lemma DistinctAppend(a: seq<FlowNode>, b: seq<FlowNode>)
    requires DistinctIds(a + b)
    ensures DistinctIds(a) && DistinctIds(b)
    ensures forall m, n :: m in a && n in b ==> m.id != n.id
  {
    var all := a + b;
    assert forall i :: 0 <= i < |a| ==> all[i] == a[i];
    forall i, j | 0 <= i < j < |b|
      ensures b[i].id != b[j].id
    {
      assert b[i] == all[|a| + i] && b[j] == all[|a| + j];
    }
    forall m, n | m in a && n in b
      ensures m.id != n.id
    {
      var i :| 0 <= i < |a| && a[i] == m;
      var j :| 0 <= j < |b| && b[j] == n;
      assert all[i] == m && all[|a| + j] == n;
    }
  }

  function CheckNode(rule: ParamRule, n: FlowNode, seen: set<string>): Option<FlowRefusal> {
    if !NodeIdOk(n.id) then Some(InvalidNodeId(n.id))
    else if n.id in seen then Some(DuplicateNodeId(n.id))
    else if Arity(n.kind).None? then Some(UnknownKind(n.id))
    else if Arity(n.kind).value != |n.inputs| then Some(WrongArity(n.id))
    else if rule(n.kind, n.params).None? then Some(BadParams(n.id))
    else None
  }

  function CheckNodes(rule: ParamRule, nodes: seq<FlowNode>, seen: set<string>): Option<FlowRefusal> {
    if nodes == [] then None
    else
      var r := CheckNode(rule, nodes[0], seen);
      if r.Some? then r else CheckNodes(rule, nodes[1..], seen + {nodes[0].id})
  }

  lemma {:induction false} CheckNodesExact(rule: ParamRule, nodes: seq<FlowNode>, seen: set<string>)
    ensures CheckNodes(rule, nodes, seen).None? <==>
            && (forall n :: n in nodes ==> NodeOk(rule, n) && n.id !in seen)
            && DistinctIds(nodes)
  {
    if nodes != [] {
      CheckNodesExact(rule, nodes[1..], seen + {nodes[0].id});
      DistinctHead(nodes);
      assert nodes == [nodes[0]] + nodes[1..];
      assert CheckNode(rule, nodes[0], seen).None? <==> NodeOk(rule, nodes[0]) && nodes[0].id !in seen;
    }
  }

  lemma DistinctHead(nodes: seq<FlowNode>)
    requires nodes != []
    ensures DistinctIds(nodes) <==> DistinctIds(nodes[1..]) && forall n :: n in nodes[1..] ==> n.id != nodes[0].id
  {
    var tail := nodes[1..];
    assert forall i :: 0 <= i < |tail| ==> tail[i] == nodes[i + 1];
    if DistinctIds(tail) && forall n :: n in tail ==> n.id != nodes[0].id {
      forall i, j | 0 <= i < j < |nodes|
        ensures nodes[i].id != nodes[j].id
      {
        assert nodes[j] == tail[j - 1];
        if i > 0 {
          assert nodes[i] == tail[i - 1];
        }
      }
    }
  }

  // ----- the graph -----

  /** `{n.id: n for n in nodes}`: a later node would win, were ids not distinct. */
  function ById(nodes: seq<FlowNode>): (m: map<string, FlowNode>)
    ensures m.Keys == Ids(nodes)
    ensures forall k :: k in m ==> m[k] in nodes && m[k].id == k
  {
    if nodes == [] then map[]
    else
      var last := nodes[|nodes| - 1];
      assert nodes == nodes[..|nodes| - 1] + [last];
      ById(nodes[..|nodes| - 1])[last.id := last]
  }

  lemma {:induction false} ByIdFinds(nodes: seq<FlowNode>, n: FlowNode)
    requires DistinctIds(nodes) && n in nodes
    ensures n.id in ById(nodes) && ById(nodes)[n.id] == n
  {
    IdsHas(nodes, n);
    var m := ById(nodes)[n.id];
    var i :| 0 <= i < |nodes| && nodes[i] == n;
    var j :| 0 <= j < |nodes| && nodes[j] == m;
  }

  function FlowGraph(nodes: seq<FlowNode>): (g: Graph)
    ensures g.Keys == Ids(nodes)
  {
    var m := ById(nodes);
    map id | id in m :: m[id].inputs
  }

  function CheckEdges(nodes: seq<FlowNode>, ids: set<string>): Option<FlowRefusal> {
    if nodes == [] then None
    else
      var r := CheckInputs(nodes[0].id, nodes[0].inputs, ids);
      if r.Some? then r else CheckEdges(nodes[1..], ids)
  }

  function CheckInputs(id: string, inputs: seq<string>, ids: set<string>): Option<FlowRefusal> {
    if inputs == [] then None
    else if inputs[0] !in ids then Some(UnresolvedInput(id, inputs[0]))
    else if inputs[0] == id then Some(SelfInput(id))
    else CheckInputs(id, inputs[1..], ids)
  }

  lemma {:induction false} CheckInputsExact(id: string, inputs: seq<string>, ids: set<string>)
    ensures CheckInputs(id, inputs, ids).None? <==> forall i :: i in inputs ==> i in ids && i != id
  {
    if inputs != [] {
      CheckInputsExact(id, inputs[1..], ids);
      assert inputs == [inputs[0]] + inputs[1..];
    }
  }

  lemma {:induction false} CheckEdgesExact(nodes: seq<FlowNode>, ids: set<string>)
    ensures CheckEdges(nodes, ids).None? <==>
            forall n, i :: n in nodes && i in n.inputs ==> i in ids && i != n.id
  {
    if nodes != [] {
      CheckInputsExact(nodes[0].id, nodes[0].inputs, ids);
      CheckEdgesExact(nodes[1..], ids);
      assert nodes == [nodes[0]] + nodes[1..];
    }
  }

  function CheckShape(nodes: seq<FlowNode>, terminal: string): Option<FlowRefusal> {
    var edges := CheckEdges(nodes, Ids(nodes));
    if edges.Some? then edges
    else
      match WalkFrom(FlowGraph(nodes), terminal)
      case Err(stop) => Some(StepLoop(stop.id))
      case Ok(w) => if Ids(nodes) <= w.state.Keys then None else Some(Unreachable)
  }

  function Normal(rule: ParamRule, nodes: seq<FlowNode>): (r: seq<FlowNode>)
    ensures |r| == |nodes|
    ensures forall i :: 0 <= i < |nodes| ==> r[i] == Normalised(rule, nodes[i])
  {
    if nodes == [] then [] else [Normalised(rule, nodes[0])] + Normal(rule, nodes[1..])
  }

  function FromJson(rule: ParamRule, nodes: seq<FlowNode>, terminal: string): Result<FlowDef, FlowRefusal> {
    if nodes == [] then Err(NoSteps)
    else
      var bad := CheckNodes(rule, nodes, {});
      if bad.Some? then Err(bad.value)
      else if terminal !in Ids(nodes) then Err(TerminalNotAStep(terminal))
      else
        var shape := CheckShape(Normal(rule, nodes), terminal);
        if shape.Some? then Err(shape.value) else Ok(FlowDef(terminal, Normal(rule, nodes)))
  }

  /** A flow the compiler may be handed: distinct known steps, one acyclic graph hanging off the terminal. */
  ghost predicate WellFormed(nodes: seq<FlowNode>, terminal: string) {
    var g := FlowGraph(nodes);
    && DistinctIds(nodes)
    && terminal in Ids(nodes)
    && (forall n, i :: n in nodes && i in n.inputs ==> i in Ids(nodes))
    && Acyclic(g)
    && (forall n :: n in nodes ==> Reaches(g, terminal, n.id))
  }

  lemma {:induction false} NormalKeepsIds(rule: ParamRule, nodes: seq<FlowNode>)
    ensures Ids(Normal(rule, nodes)) == Ids(nodes)
  {
    if nodes != [] {
      var k := |nodes| - 1;
      NormalKeepsIds(rule, nodes[..k]);
      assert Normal(rule, nodes)[..k] == Normal(rule, nodes[..k]);
    }
  }

  lemma {:induction false} NormalKeepsDistinctness(rule: ParamRule, nodes: seq<FlowNode>)
    ensures DistinctIds(Normal(rule, nodes)) <==> DistinctIds(nodes)
  {
    var r := Normal(rule, nodes);
    assert forall i :: 0 <= i < |nodes| ==> r[i].id == nodes[i].id;
  }

  lemma AcyclicFromTerminal(nodes: seq<FlowNode>, terminal: string)
    requires var g := FlowGraph(nodes); !Flawed(g, terminal) && forall n :: n in nodes ==> Reaches(g, terminal, n.id)
    ensures Acyclic(FlowGraph(nodes))
  {
    var g := FlowGraph(nodes);
    forall u | u in g
      ensures !OnCycle(g, u)
    {
      var n := IdsOwner(nodes, u);
    }
  }

  /**
   Tier A accepts exactly the flows whose steps are individually valid and whose graph, hung from the
   terminal, is a connected DAG with distinct ids; what it returns is those steps, in order, with their
   parameters normalised.
   */
  lemma {:induction false} FromJsonExact(rule: ParamRule, nodes: seq<FlowNode>, terminal: string)
    ensures FromJson(rule, nodes, terminal).Ok? <==>
            (forall n :: n in nodes ==> NodeOk(rule, n)) && WellFormed(Normal(rule, nodes), terminal)
    ensures FromJson(rule, nodes, terminal).Ok? ==>
              FromJson(rule, nodes, terminal).value == FlowDef(terminal, Normal(rule, nodes))
  {
    var r := Normal(rule, nodes);
    NormalKeepsIds(rule, nodes);
    NormalKeepsDistinctness(rule, nodes);
    CheckNodesExact(rule, nodes, {});
    if DistinctIds(r) && terminal in Ids(r) {
      CheckShapeExact(r, terminal);
    }
  }

  lemma {:induction false} CheckShapeExact(nodes: seq<FlowNode>, terminal: string)
    requires DistinctIds(nodes) && terminal in Ids(nodes)
    ensures CheckShape(nodes, terminal).None? <==> WellFormed(nodes, terminal)
  {
    CheckEdgesExact(nodes, Ids(nodes));
    if CheckShape(nodes, terminal).None? {
      AcceptedShape(nodes, terminal);
    }
    if WellFormed(nodes, terminal) {
      forall n, i | n in nodes && i in n.inputs
        ensures i != n.id
      {
        NoSelfInput(nodes, n, i);
      }
      WalkCoversFlow(nodes, terminal);
    }
  }

  lemma {:induction false} AcceptedShape(nodes: seq<FlowNode>, terminal: string)
    requires WalkFrom(FlowGraph(nodes), terminal).Ok?
    requires Ids(nodes) <= WalkFrom(FlowGraph(nodes), terminal).value.state.Keys
    ensures Acyclic(FlowGraph(nodes))
    ensures forall n :: n in nodes ==> Reaches(FlowGraph(nodes), terminal, n.id)
  {
    var g := FlowGraph(nodes);
    WalkExact(g, terminal);
    forall n | n in nodes
      ensures Reaches(g, terminal, n.id)
    {
      IdsHas(nodes, n);
      assert n.id in WalkFrom(g, terminal).value.order;
    }
    AcyclicFromTerminal(nodes, terminal);
  }

  lemma {:induction false} WalkCoversFlow(nodes: seq<FlowNode>, terminal: string)
    requires WellFormed(nodes, terminal)
    ensures WalkFrom(FlowGraph(nodes), terminal).Ok?
    ensures Ids(nodes) <= WalkFrom(FlowGraph(nodes), terminal).value.state.Keys
  {
    var g := FlowGraph(nodes);
    WalkExact(g, terminal);
    forall x | Reaches(g, terminal, x)
      ensures x in g && !OnCycle(g, x)
    {
      TerminalStaysInside(nodes, terminal, x);
    }
    forall k | k in Ids(nodes)
      ensures Reaches(g, terminal, k)
    {
      var n := IdsOwner(nodes, k);
    }
  }

  lemma NoSelfInput(nodes: seq<FlowNode>, n: FlowNode, i: string)
    requires DistinctIds(nodes) && Acyclic(FlowGraph(nodes)) && n in nodes && i in n.inputs
    ensures i != n.id
  {
    ByIdFinds(nodes, n);
    if i == n.id {
      EdgeReaches(FlowGraph(nodes), i, i);
      assert OnCycle(FlowGraph(nodes), i);
    }
  }

  lemma TerminalStaysInside(nodes: seq<FlowNode>, terminal: string, x: string)
    requires WellFormed(nodes, terminal) && Reaches(FlowGraph(nodes), terminal, x)
    ensures x in FlowGraph(nodes)
  {
    var g := FlowGraph(nodes);
    forall u, v | u in g.Keys && Edge(g, u, v)
      ensures v in g.Keys
    {
      assert ById(nodes)[u] in nodes;
    }
    ClosedKeepsReach(g, g.Keys, terminal, x);
  }

  // ----- the validator as it runs: a pass over the steps, one over their edges, then the visitor -----

  lemma OneMoreNode(nodes: seq<FlowNode>, k: nat)
    requires k < |nodes|
    ensures Ids(nodes[..k + 1]) == Ids(nodes[..k]) + {nodes[k].id}
    ensures nodes[k..] == [nodes[k]] + nodes[k + 1..]
  {
    assert nodes[..k + 1][..k] == nodes[..k];
  }

  lemma {:induction false} CheckNodesStep(rule: ParamRule, n: FlowNode, rest: seq<FlowNode>, seen: set<string>)
    ensures CheckNodes(rule, [n] + rest, seen) ==
            if CheckNode(rule, n, seen).Some? then CheckNode(rule, n, seen) else CheckNodes(rule, rest, seen + {n.id})
  {
    assert ([n] + rest)[1..] == rest;
  }

  method ValidateNodes(rule: ParamRule, nodes: seq<FlowNode>)
    returns (bad: Option<FlowRefusal>, seen: set<string>, out: seq<FlowNode>)
    ensures bad == CheckNodes(rule, nodes, {})
    ensures bad.None? ==> seen == Ids(nodes) && out == Normal(rule, nodes)
  {
    seen, out := {}, [];
    assert nodes[0..] == nodes;
    for k := 0 to |nodes|
      invariant CheckNodes(rule, nodes, {}) == CheckNodes(rule, nodes[k..], seen)
      invariant seen == Ids(nodes[..k])
      invariant |out| == k && forall i :: 0 <= i < k ==> out[i] == Normalised(rule, nodes[i])
    {
      OneMoreNode(nodes, k);
      CheckNodesStep(rule, nodes[k], nodes[k + 1..], seen);
      bad := CheckNode(rule, nodes[k], seen);
      if bad.Some? {
        return;
      }
      seen := seen + {nodes[k].id};
      out := out + [Normalised(rule, nodes[k])];
    }
    bad := None;
    assert nodes[..|nodes|] == nodes && nodes[|nodes|..] == [];
    assert out == Normal(rule, nodes);
  }

  method ValidateEdges(nodes: seq<FlowNode>, ids: set<string>) returns (bad: Option<FlowRefusal>)
    ensures bad == CheckEdges(nodes, ids)
  {
    for k := 0 to |nodes|
      invariant CheckEdges(nodes, ids) == CheckEdges(nodes[k..], ids)
    {
      assert nodes[k..][1..] == nodes[k + 1..];
      var n := nodes[k];
      for m := 0 to |n.inputs|
        invariant CheckInputs(n.id, n.inputs, ids) == CheckInputs(n.id, n.inputs[m..], ids)
      {
        assert n.inputs[m..][1..] == n.inputs[m + 1..];
        if n.inputs[m] !in ids {
          return Some(UnresolvedInput(n.id, n.inputs[m]));
        }
        if n.inputs[m] == n.id {
          return Some(SelfInput(n.id));
        }
      }
    }
    return None;
  }

  method Validate(rule: ParamRule, nodes: seq<FlowNode>, terminal: string) returns (r: Result<FlowDef, FlowRefusal>)
    ensures r == FromJson(rule, nodes, terminal)
  {
    if nodes == [] {
      return Err(NoSteps);
    }
    var bad, seen, out := ValidateNodes(rule, nodes);
    if bad.Some? {
      return Err(bad.value);
    }
    if terminal !in seen {
      return Err(TerminalNotAStep(terminal));
    }
    NormalKeepsIds(rule, nodes);
    bad := ValidateEdges(out, seen);
    if bad.Some? {
      return Err(bad.value);
    }
    var walk := new DepthFirst(FlowGraph(out));
    var stop := walk.Explore(terminal, terminal);
    if stop.Some? {
      return Err(StepLoop(stop.value.id));
    }
    if !(seen <= walk.state.Keys) {
      return Err(Unreachable);
    }
    return Ok(FlowDef(terminal, out));
  }

  // ----- what is accepted, in the steps' own terms -----

  predicate PlainId(s: string) {
    1 <= |s| <= 64 && forall i :: 0 <= i < |s| ==> 'a' <= s[i] <= 'z' || '0' <= s[i] <= '9' || s[i] == '_'
  }

  /** How many inputs a step of a kind takes. */
  predicate Takes(kind: string, count: nat) {
    || (count == 0 && kind == "source")
    || (count == 1 && kind in {"filter", "select", "rename", "derive", "cast", "aggregate", "dedupe", "sort"})
    || (count == 2 && kind == "join")
  }

  /** A step as submitted and as accepted: the same but for its parameters, which the kind's rule has passed. */
  predicate Passed(rule: ParamRule, n: FlowNode, m: FlowNode) {
    && m.id == n.id && m.kind == n.kind && m.inputs == n.inputs && rule(n.kind, n.params) == Some(m.params)
    && (PlainId(n.id) || (|n.id| > 0 && n.id[|n.id| - 1] == '\n' && PlainId(n.id[..|n.id| - 1])))
    && Takes(n.kind, |n.inputs|)
  }

  ghost predicate Feeding(nodes: seq<FlowNode>, u: string, v: string) {
    exists i :: 0 <= i < |nodes| && nodes[i].id == u && v in nodes[i].inputs
  }

  /** Each step reads from the next. */
  ghost predicate Chain(nodes: seq<FlowNode>, p: seq<string>) {
    |p| > 0 && forall i :: 0 <= i < |p| - 1 ==> Feeding(nodes, p[i], p[i + 1])
  }

  ghost predicate ChainBetween(nodes: seq<FlowNode>, p: seq<string>, u: string, v: string) {
    Chain(nodes, p) && p[0] == u && p[|p| - 1] == v
  }

  predicate HasStep(nodes: seq<FlowNode>, id: string) {
    exists i :: 0 <= i < |nodes| && nodes[i].id == id
  }

  predicate InputsNamed(nodes: seq<FlowNode>, n: FlowNode) {
    forall input :: input in n.inputs ==> HasStep(nodes, input)
  }

  /** Distinct ids, known inputs, a known terminal, no way round, and every step read from the terminal on. */
  ghost predicate Hangs(nodes: seq<FlowNode>, terminal: string) {
    && (forall i, j :: 0 <= i < j < |nodes| ==> nodes[i].id != nodes[j].id)
    && HasStep(nodes, terminal)
    && (forall i :: 0 <= i < |nodes| ==> InputsNamed(nodes, nodes[i]))
    && (forall p :: Chain(nodes, p) && |p| > 1 ==> p[0] != p[|p| - 1])
    && forall i :: 0 <= i < |nodes| ==> IsReadFrom(nodes, terminal, nodes[i].id)
  }

  ghost predicate IsReadFrom(nodes: seq<FlowNode>, u: string, v: string) {
    exists p :: ChainBetween(nodes, p, u, v)
  }

  lemma {:induction false} HasStepExactly(nodes: seq<FlowNode>, id: string)
    ensures HasStep(nodes, id) <==> id in Ids(nodes)
  {
    if i :| 0 <= i < |nodes| && nodes[i].id == id {
      IdsHas(nodes, nodes[i]);
    }
    if id in Ids(nodes) {
      var n := IdsOwner(nodes, id);
      var i :| 0 <= i < |nodes| && nodes[i] == n;
    }
  }

  lemma {:induction false} FeedingExactly(nodes: seq<FlowNode>, u: string, v: string)
    requires DistinctIds(nodes)
    ensures Feeding(nodes, u, v) <==> Edge(FlowGraph(nodes), u, v)
  {
    if i :| 0 <= i < |nodes| && nodes[i].id == u && v in nodes[i].inputs {
      ByIdFinds(nodes, nodes[i]);
    }
    if u in FlowGraph(nodes) {
      var n := ById(nodes)[u];
      var i :| 0 <= i < |nodes| && nodes[i] == n;
    }
  }

  lemma {:induction false} ChainExactly(nodes: seq<FlowNode>, p: seq<string>)
    requires DistinctIds(nodes) && |p| > 0
    ensures Chain(nodes, p) <==> IsPath(FlowGraph(nodes), p)
  {
    var g := FlowGraph(nodes);
    PathExactly(g, p);
    hide DistinctIds, FlowGraph, Feeding;
    if Chain(nodes, p) {
      forall i | 0 <= i < |p| - 1
        ensures p[i] in g && p[i + 1] in g[p[i]]
      {
        FeedingExactly(nodes, p[i], p[i + 1]);
      }
    }
    if IsPath(g, p) {
      forall i | 0 <= i < |p| - 1
        ensures Feeding(nodes, p[i], p[i + 1])
      {
        FeedingExactly(nodes, p[i], p[i + 1]);
      }
    }
  }

  lemma {:induction false} NoWayRound(nodes: seq<FlowNode>)
    requires DistinctIds(nodes)
    ensures Acyclic(FlowGraph(nodes)) <==> forall p :: Chain(nodes, p) && |p| > 1 ==> p[0] != p[|p| - 1]
  {
    var g := FlowGraph(nodes);
    forall p | Chain(nodes, p) && |p| > 1 && p[0] == p[|p| - 1]
      ensures OnCycle(g, p[0])
    {
      ChainExactly(nodes, p);
      assert PathBetween(g, p[1..], p[1], p[0]);
    }
    forall u | OnCycle(g, u)
      ensures exists p :: Chain(nodes, p) && |p| > 1 && p[0] == p[|p| - 1]
    {
      var w :| Edge(g, u, w) && Reaches(g, w, u);
      var q :| PathBetween(g, q, w, u);
      var p := [u] + q;
      assert p[1..] == q;
      ChainExactly(nodes, p);
      assert Chain(nodes, p) && |p| > 1 && p[0] == p[|p| - 1];
    }
  }

  lemma {:induction false} ReadFrom(nodes: seq<FlowNode>, u: string, v: string)
    requires DistinctIds(nodes)
    ensures Reaches(FlowGraph(nodes), u, v) <==> IsReadFrom(nodes, u, v)
  {
    if p :| PathBetween(FlowGraph(nodes), p, u, v) {
      ChainExactly(nodes, p);
      assert ChainBetween(nodes, p, u, v);
    }
    if p :| ChainBetween(nodes, p, u, v) {
      ChainExactly(nodes, p);
      assert PathBetween(FlowGraph(nodes), p, u, v);
    }
  }

  lemma {:induction false} InputsKnown(nodes: seq<FlowNode>)
    ensures (forall i :: 0 <= i < |nodes| ==> InputsNamed(nodes, nodes[i]))
            <==> forall n, input :: n in nodes && input in n.inputs ==> input in Ids(nodes)
  {
    if forall i :: 0 <= i < |nodes| ==> InputsNamed(nodes, nodes[i]) {
      forall n, input | n in nodes && input in n.inputs
        ensures input in Ids(nodes)
      {
        var i :| 0 <= i < |nodes| && nodes[i] == n;
        assert InputsNamed(nodes, nodes[i]);
        HasStepExactly(nodes, input);
      }
    } else {
      var i :| 0 <= i < |nodes| && !InputsNamed(nodes, nodes[i]);
      var input :| input in nodes[i].inputs && !HasStep(nodes, input);
      HasStepExactly(nodes, input);
      assert nodes[i] in nodes && input in nodes[i].inputs && input !in Ids(nodes);
    }
  }

  lemma {:induction false} AllRead(nodes: seq<FlowNode>, terminal: string)
    requires DistinctIds(nodes)
    ensures (forall i :: 0 <= i < |nodes| ==> IsReadFrom(nodes, terminal, nodes[i].id))
            <==> forall n :: n in nodes ==> Reaches(FlowGraph(nodes), terminal, n.id)
  {
    hide IsReadFrom, Reaches, FlowGraph;
    forall i | 0 <= i < |nodes|
      ensures Reaches(FlowGraph(nodes), terminal, nodes[i].id) <==> IsReadFrom(nodes, terminal, nodes[i].id)
      ensures nodes[i] in nodes
    {
      ReadFrom(nodes, terminal, nodes[i].id);
    }
  }

  lemma {:induction false} HangsExactly(nodes: seq<FlowNode>, terminal: string)
    ensures Hangs(nodes, terminal) <==> WellFormed(nodes, terminal)
  {
    HasStepExactly(nodes, terminal);
    InputsKnown(nodes);
    if DistinctIds(nodes) {
      AllRead(nodes, terminal);
      NoWayRound(nodes);
    }
    hide HasStep, InputsNamed, Ids, Acyclic, Chain, IsReadFrom, Reaches, FlowGraph;
  }

  lemma {:induction false} PassedExactly(rule: ParamRule, n: FlowNode, m: FlowNode)
    ensures Passed(rule, n, m) <==> NodeOk(rule, n) && m == Normalised(rule, n)
  {
    var s := DollarTrim(n.id);
    if NodeIdOk(n.id) {
      forall i | 0 <= i < |s|
        ensures 'a' <= s[i] <= 'z' || '0' <= s[i] <= '9' || s[i] == '_'
      {
        assert IdChar(s[i]);
      }
    }
  }

  /**
   Tier A, in full: a flow is accepted if and only if every step is named, of a known kind with as many inputs as that
   kind takes and parameters its rule passes, and the steps hang from the terminal; and what is accepted is those
   steps, in order, with what the rule made of their parameters.
   */
  lemma {:induction false} FlowExactly(rule: ParamRule, nodes: seq<FlowNode>, terminal: string, flow: FlowDef)
    ensures FromJson(rule, nodes, terminal) == Ok(flow) <==>
            && flow.terminal == terminal && |flow.nodes| == |nodes|
            && (forall i :: 0 <= i < |nodes| ==> Passed(rule, nodes[i], flow.nodes[i]))
            && Hangs(flow.nodes, terminal)
  {
    FromJsonExact(rule, nodes, terminal);
    HangsExactly(flow.nodes, terminal);
    forall i | 0 <= i < |nodes| && |flow.nodes| == |nodes|
      ensures Passed(rule, nodes[i], flow.nodes[i]) <==>
              NodeOk(rule, nodes[i]) && flow.nodes[i] == Normalised(rule, nodes[i])
      ensures nodes[i] in nodes
    {
      PassedExactly(rule, nodes[i], flow.nodes[i]);
    }
    if |flow.nodes| == |nodes| && forall i :: 0 <= i < |nodes| ==> flow.nodes[i] == Normalised(rule, nodes[i]) {
      assert flow.nodes == Normal(rule, nodes);
    }
  }
}
