/**
 What a flow and a cell mean, for any meaning of the step kinds, and the theorem that compiling a cell into
 one flat flow preserves it.
 */
module CellMeaning {
  import opened Common
  import opened Graphs
  import opened FlowIR
  import opened Cells

  /** The meaning of a step kind: from its parameters and its input tables to its output table. */
  type Operator<!V> = (string, string, seq<V>) -> V

  // ----- flows -----

  function EvalNode<V>(op: Operator<V>, nodes: map<string, FlowNode>, id: string, fuel: nat): Option<V>
    decreases fuel, 0
  {
    if fuel == 0 || id !in nodes then None
    else
      match EvalNodes(op, nodes, nodes[id].inputs, fuel - 1)
      case None => None
      case Some(vs) => Some(op(nodes[id].kind, nodes[id].params, vs))
  }

  function EvalNodes<V>(op: Operator<V>, nodes: map<string, FlowNode>, ids: seq<string>, fuel: nat): Option<seq<V>>
    decreases fuel, 1 + |ids|
  {
    if ids == [] then Some([])
    else
      match EvalNode(op, nodes, ids[0], fuel)
      case None => None
      case Some(v) =>
        match EvalNodes(op, nodes, ids[1..], fuel)
        case None => None
        case Some(vs) => Some([v] + vs)
  }

  /** The flow's result is v: some finite evaluation of its terminal yields v. */
  ghost predicate FlowMeans<V>(op: Operator<V>, flow: FlowDef, v: V) {
    exists fuel: nat :: EvalNode(op, ById(flow.nodes), flow.terminal, fuel) == Some(v)
  }

  // ----- cells: a step reads its own cell's steps and, through `cell:`, another cell's result -----

  function FindStep(steps: seq<Step>, id: string): Option<Step> {
    if steps == [] then None
    else if steps[0].id == Some(id) then Some(steps[0])
    else FindStep(steps[1..], id)
  }

  function EvalCell<V>(op: Operator<V>, rule: ParamRule, book: Book, cell: string, fuel: nat): Option<V>
    decreases fuel, 1
  {
    if cell in book && CellFragment(book[cell]).Ok?
    then EvalStep(op, rule, book, cell, CellFragment(book[cell]).value.terminal, fuel)
    else None
  }

  function EvalStep<V>(op: Operator<V>, rule: ParamRule, book: Book, cell: string, step: string, fuel: nat): Option<V>
    decreases fuel, 0
  {
    if fuel == 0 then None
    else
      match FindStep(StepsOf(book, cell), step)
      case None => None
      case Some(s) =>
        if s.inputs.None? || rule(s.kind, s.params).None? then None
        else
          match EvalInputs(op, rule, book, cell, s.inputs.value, fuel - 1)
          case None => None
          case Some(vs) => Some(op(s.kind, rule(s.kind, s.params).value, vs))
  }

  function EvalInput<V>(op: Operator<V>, rule: ParamRule, book: Book, cell: string, input: string, fuel: nat): Option<V>
    decreases fuel, 2
  {
    if IsCellRef(input) then EvalCell(op, rule, book, RefOf(input), fuel)
    else EvalStep(op, rule, book, cell, input, fuel)
  }

  function EvalInputs<V>(op: Operator<V>, rule: ParamRule, book: Book, cell: string, inputs: seq<string>,
                         fuel: nat): Option<seq<V>>
    decreases fuel, 3 + |inputs|
  {
    if inputs == [] then Some([])
    else
      match EvalInput(op, rule, book, cell, inputs[0], fuel)
      case None => None
      case Some(v) =>
        match EvalInputs(op, rule, book, cell, inputs[1..], fuel)
        case None => None
        case Some(vs) => Some([v] + vs)
  }

  ghost predicate CellMeans<V>(op: Operator<V>, rule: ParamRule, book: Book, cell: string, v: V) {
    exists fuel: nat :: EvalCell(op, rule, book, cell, fuel) == Some(v)
  }

  /** The cell's terminal names one of its own steps. `_cell_fragment` does not check this. */
  predicate TerminalLocal(book: Book, cell: string) {
    && cell in book
    && CellFragment(book[cell]).Ok?
    && FindStep(StepsOf(book, cell), CellFragment(book[cell]).value.terminal).Some?
  }

  // ----- flat flows always have exactly one meaning -----

  lemma {:induction false} EvalNodeMono<V>(op: Operator<V>, nodes: map<string, FlowNode>, id: string, fuel: nat,
      more: nat)
    requires fuel <= more && EvalNode(op, nodes, id, fuel).Some?
    ensures EvalNode(op, nodes, id, more) == EvalNode(op, nodes, id, fuel)
    decreases fuel, 0
  {
    EvalNodesMono(op, nodes, nodes[id].inputs, fuel - 1, more - 1);
  }

  lemma {:induction false} EvalNodesMono<V>(op: Operator<V>, nodes: map<string, FlowNode>, ids: seq<string>,
      fuel: nat, more: nat)
    requires fuel <= more && EvalNodes(op, nodes, ids, fuel).Some?
    ensures EvalNodes(op, nodes, ids, more) == EvalNodes(op, nodes, ids, fuel)
    decreases fuel, 1 + |ids|
  {
    if ids != [] {
      EvalNodeMono(op, nodes, ids[0], fuel, more);
      EvalNodesMono(op, nodes, ids[1..], fuel, more);
    }
  }

  lemma FlowMeaningUnique<V>(op: Operator<V>, flow: FlowDef, v: V, w: V)
    requires FlowMeans(op, flow, v) && FlowMeans(op, flow, w)
    ensures v == w
  {
    var nodes := ById(flow.nodes);
    var j: nat :| EvalNode(op, nodes, flow.terminal, j) == Some(v);
    var k: nat :| EvalNode(op, nodes, flow.terminal, k) == Some(w);
    if j <= k {
      EvalNodeMono(op, nodes, flow.terminal, j, k);
    } else {
      EvalNodeMono(op, nodes, flow.terminal, k, j);
    }
  }

  /** Every scheduled node's inputs are scheduled before it. */
  ghost predicate Scheduled(nodes: map<string, FlowNode>, order: seq<string>) {
    forall k :: 0 <= k < |order| ==> order[k] in nodes && forall x :: x in nodes[order[k]].inputs ==> x in order[..k]
  }

  lemma {:induction false} TopologicalSchedules(nodes: seq<FlowNode>, order: seq<string>)
    requires Topological(FlowGraph(nodes), order) && forall x :: x in order ==> x in Ids(nodes)
    ensures Scheduled(ById(nodes), order)
  {
    forall k, x | 0 <= k < |order| && x in ById(nodes)[order[k]].inputs
      ensures x in order[..k]
    {
      assert Edge(FlowGraph(nodes), order[k], x);
    }
  }

  /** Along a schedule, the node at position i is defined with i + 1 units of fuel. */
  lemma {:induction false} EvalAlong<V>(op: Operator<V>, nodes: map<string, FlowNode>, order: seq<string>, i: nat)
    requires Scheduled(nodes, order) && i < |order|
    ensures EvalNode(op, nodes, order[i], i + 1).Some?
    decreases i
  {
    var inputs := nodes[order[i]].inputs;
    forall x | x in inputs
      ensures EvalNode(op, nodes, x, i).Some?
    {
      assert x in order[..i];
      var j :| 0 <= j < i && order[j] == x;
      EvalAlong(op, nodes, order, j);
      EvalNodeMono(op, nodes, x, j + 1, i);
    }
    EvalNodesDefined(op, nodes, inputs, i);
  }

  lemma {:induction false} EvalNodesDefined<V>(op: Operator<V>, nodes: map<string, FlowNode>, ids: seq<string>,
      fuel: nat)
    requires forall x :: x in ids ==> EvalNode(op, nodes, x, fuel).Some?
    ensures EvalNodes(op, nodes, ids, fuel).Some?
  {
    if ids != [] {
      EvalNodesDefined(op, nodes, ids[1..], fuel);
    }
  }

  lemma FlowIsDefined<V>(op: Operator<V>, flow: FlowDef) returns (v: V)
    requires WellFormed(flow.nodes, flow.terminal)
    ensures FlowMeans(op, flow, v)
  {
    var g := FlowGraph(flow.nodes);
    WalkCoversFlow(flow.nodes, flow.terminal);
    WalkExact(g, flow.terminal);
    var order := WalkFrom(g, flow.terminal).value.order;
    ReachesSelf(g, flow.terminal);
    forall x | x in order
      ensures x in Ids(flow.nodes)
    {
      TerminalStaysInside(flow.nodes, flow.terminal, x);
    }
    var i :| 0 <= i < |order| && order[i] == flow.terminal;
    TopologicalSchedules(flow.nodes, order);
    EvalAlong(op, ById(flow.nodes), order, i);
    v := EvalNode(op, ById(flow.nodes), flow.terminal, i + 1).value;
  }

  // ----- finding a cell's step in the flat flow -----

  lemma {:induction false} FindStepSound(steps: seq<Step>, id: string)
    ensures FindStep(steps, id).Some? ==> FindStep(steps, id).value in steps && FindStep(steps, id).value.id == Some(id)
  {
    if steps != [] {
      FindStepSound(steps[1..], id);
    }
  }

  lemma {:induction false} FindStepFinds(steps: seq<Step>, s: Step)
    requires s in steps && s.id.Some?
    ensures FindStep(steps, s.id.value).Some?
  {
    if steps[0].id != s.id {
      FindStepFinds(steps[1..], s);
    }
  }

  /** Every step of every listed cell is in the flat flow. */
  lemma {:induction false} FlattenHas(book: Book, order: seq<string>, cell: string, s: Step)
    requires cell in order && s in StepsOf(book, cell)
    ensures FlatStep(book, cell, s) in Flatten(book, order)
  {
    var head := FlatSteps(book, order[0], StepsOf(book, order[0]));
    if cell == order[0] {
      var i :| 0 <= i < |StepsOf(book, cell)| && StepsOf(book, cell)[i] == s;
      assert head[i] == FlatStep(book, cell, s);
    } else {
      FlattenHas(book, order[1..], cell, s);
    }
  }

  /** Everything in the flat flow is a step of some listed cell. */
  lemma {:induction false} FlattenOwner(book: Book, order: seq<string>, n: FlowNode) returns (cell: string, s: Step)
    requires n in Flatten(book, order)
    ensures cell in order && s in StepsOf(book, cell) && n == FlatStep(book, cell, s)
  {
    var head := FlatSteps(book, order[0], StepsOf(book, order[0]));
    if n in head {
      cell := order[0];
      var i :| 0 <= i < |head| && head[i] == n;
      s := StepsOf(book, cell)[i];
    } else {
      cell, s := FlattenOwner(book, order[1..], n);
    }
  }

  /** With distinct flat ids, a flat id determines the cell and the step it came from. */
  lemma {:induction false} FlattenInjective(book: Book, order: seq<string>, c: string, s: Step, d: string, t: Step)
    requires DistinctIds(Flatten(book, order))
    requires c in order && s in StepsOf(book, c) && d in order && t in StepsOf(book, d)
    requires FlatStep(book, c, s).id == FlatStep(book, d, t).id
    ensures c == d && s == t
  {
    var head := FlatSteps(book, order[0], StepsOf(book, order[0]));
    DistinctAppend(head, Flatten(book, order[1..]));
    var m, n := FlatStep(book, c, s), FlatStep(book, d, t);
    if c == order[0] {
      FlattenHead(book, order, s);
    } else {
      FlattenHas(book, order[1..], c, s);
    }
    if d == order[0] {
      FlattenHead(book, order, t);
    } else {
      FlattenHas(book, order[1..], d, t);
    }
    if c == order[0] && d == order[0] {
      OneCellInjective(book, c, s, t);
    } else if c != order[0] && d != order[0] {
      FlattenInjective(book, order[1..], c, s, d, t);
    }
  }

  lemma {:induction false} OneCellInjective(book: Book, c: string, s: Step, t: Step)
    requires s in StepsOf(book, c) && t in StepsOf(book, c)
    requires DistinctIds(FlatSteps(book, c, StepsOf(book, c)))
    requires FlatStep(book, c, s).id == FlatStep(book, c, t).id
    ensures s == t
  {
    var steps := StepsOf(book, c);
    var head := FlatSteps(book, c, steps);
    var i :| 0 <= i < |steps| && steps[i] == s;
    var j :| 0 <= j < |steps| && steps[j] == t;
    assert head[i].id == head[j].id;
  }

  lemma {:induction false} FlattenHead(book: Book, order: seq<string>, s: Step)
    requires order != [] && s in StepsOf(book, order[0])
    ensures FlatStep(book, order[0], s) in FlatSteps(book, order[0], StepsOf(book, order[0]))
  {
    var head := FlatSteps(book, order[0], StepsOf(book, order[0]));
    var i :| 0 <= i < |head| && StepsOf(book, order[0])[i] == s;
    assert head[i] == FlatStep(book, order[0], s);
  }

  // ----- a cell's step and its flat node compute the same thing -----

  /**
   The listed cells are sound, closed under their inputs, and flatten to nodes with distinct ids that Tier A accepts.
   */
  ghost predicate Compiled(rule: ParamRule, book: Book, order: seq<string>) {
    && (forall c :: c in order ==> c in book && book[c].id == c && CellSound(book, book[c]))
    && Closed(CellGraph(book), Elements(order))
    && DistinctIds(Flatten(book, order))
    && (forall n :: n in Flatten(book, order) ==> NodeOk(rule, n))
  }

  function FlatNodes(rule: ParamRule, book: Book, order: seq<string>): map<string, FlowNode> {
    ById(Normal(rule, Flatten(book, order)))
  }

  ghost predicate AllTerminalsLocal(book: Book, order: seq<string>) {
    forall c :: c in order ==> TerminalLocal(book, c)
  }

  lemma {:induction false} NormalFinds(rule: ParamRule, nodes: seq<FlowNode>, n: FlowNode)
    requires DistinctIds(nodes) && n in nodes && NodeOk(rule, n)
    ensures n.id in ById(Normal(rule, nodes)) && ById(Normal(rule, nodes))[n.id] == Normalised(rule, n)
  {
    NormalKeepsDistinctness(rule, nodes);
    var i :| 0 <= i < |nodes| && nodes[i] == n;
    assert Normal(rule, nodes)[i] == Normalised(rule, n);
    ByIdFinds(Normal(rule, nodes), Normalised(rule, n));
  }

  lemma StepNode(rule: ParamRule, book: Book, order: seq<string>, cell: string, s: Step)
    requires Compiled(rule, book, order) && cell in order && s in StepsOf(book, cell)
    ensures var n := FlatStep(book, cell, s);
            && n.id in FlatNodes(rule, book, order)
            && FlatNodes(rule, book, order)[n.id] == Normalised(rule, n)
            && rule(s.kind, s.params).Some?
  {
    var n := FlatStep(book, cell, s);
    var flat := Flatten(book, order);
    FlattenHas(book, order, cell, s);
    NormalFinds(rule, flat, n);
  }

  /** An input leads to a listed cell: its own, or an upstream one whose result is that cell's terminal. */
  ghost predicate Leads(book: Book, order: seq<string>, cell: string, input: string) {
    if IsCellRef(input) then
      var up := RefOf(input);
      && up in order && up in book && CellFragment(book[up]).Ok?
      && FlatRef(book, cell, input) == Namespaced(up, CellFragment(book[up]).value.terminal)
    else
      && FindStep(StepsOf(book, cell), input).Some?
      && FlatRef(book, cell, input) == Namespaced(cell, input)
  }

  lemma InputLeads(rule: ParamRule, book: Book, order: seq<string>, cell: string, s: Step, input: string)
    requires Compiled(rule, book, order) && cell in order && s in StepsOf(book, cell)
    requires s.inputs.Some? && input in s.inputs.value
    ensures Leads(book, order, cell, input)
  {
    var steps := StepsOf(book, cell);
    assert StepSound(book, book[cell], LocalIds(steps), s);
    assert InputSound(book, book[cell], LocalIds(steps), input);
    if IsCellRef(input) {
      assert Edge(CellGraph(book), cell, RefOf(input));
      assert cell in Elements(order);
    } else {
      var local :| local in steps && local.id.Some? && local.id.value == input;
      FindStepFinds(steps, local);
    }
  }

  /** The node under the step's flat id is that step: same kind, normalised parameters, redirected inputs. */
  ghost predicate NodeMirrors(rule: ParamRule, book: Book, order: seq<string>, nodes: map<string, FlowNode>,
                              cell: string, step: string)
    requires FindStep(StepsOf(book, cell), step).Some?
  {
    var s := FindStep(StepsOf(book, cell), step).value;
    var id := Namespaced(cell, step);
    && s.inputs.Some? && rule(s.kind, s.params).Some?
    && id in nodes
    && nodes[id] == FlowNode(id, s.kind, FlatRefs(book, cell, s.inputs.value), rule(s.kind, s.params).value)
    && forall i :: i in s.inputs.value ==> Leads(book, order, cell, i)
  }

  ghost predicate Mirrors(rule: ParamRule, book: Book, order: seq<string>, nodes: map<string, FlowNode>) {
    forall c, step :: c in order && FindStep(StepsOf(book, c), step).Some? ==>
      NodeMirrors(rule, book, order, nodes, c, step)
  }

  lemma CompiledMirrors(rule: ParamRule, book: Book, order: seq<string>)
    requires Compiled(rule, book, order)
    ensures Mirrors(rule, book, order, FlatNodes(rule, book, order))
  {
    forall c, step | c in order && FindStep(StepsOf(book, c), step).Some?
      ensures NodeMirrors(rule, book, order, FlatNodes(rule, book, order), c, step)
    {
      var s := FindStep(StepsOf(book, c), step).value;
      FindStepSound(StepsOf(book, c), step);
      assert StepSound(book, book[c], LocalIds(StepsOf(book, c)), s);
      StepNode(rule, book, order, c, s);
      forall i | i in s.inputs.value
        ensures Leads(book, order, c, i)
      {
        InputLeads(rule, book, order, c, s, i);
      }
    }
  }

  lemma {:induction false} StepSimulates<V>(op: Operator<V>, rule: ParamRule, book: Book, order: seq<string>,
      nodes: map<string, FlowNode>, cell: string, step: string, fuel: nat)
    requires Mirrors(rule, book, order, nodes) && cell in order && FindStep(StepsOf(book, cell), step).Some?
    ensures EvalStep(op, rule, book, cell, step, fuel).Some? || AllTerminalsLocal(book, order) ==>
              EvalStep(op, rule, book, cell, step, fuel) == EvalNode(op, nodes, Namespaced(cell, step), fuel)
    decreases fuel, 0
  {
    if fuel > 0 {
      assert NodeMirrors(rule, book, order, nodes, cell, step);
      var s := FindStep(StepsOf(book, cell), step).value;
      InputsSimulate(op, rule, book, order, nodes, cell, s.inputs.value, fuel - 1);
    }
  }

  lemma {:induction false} InputSimulates<V>(op: Operator<V>, rule: ParamRule, book: Book, order: seq<string>,
      nodes: map<string, FlowNode>, cell: string, input: string, fuel: nat)
    requires Mirrors(rule, book, order, nodes) && cell in order && Leads(book, order, cell, input)
    ensures EvalInput(op, rule, book, cell, input, fuel).Some? || AllTerminalsLocal(book, order) ==>
              EvalInput(op, rule, book, cell, input, fuel) == EvalNode(op, nodes, FlatRef(book, cell, input), fuel)
    decreases fuel, 1
  {
    if IsCellRef(input) {
      var up := RefOf(input);
      var terminal := CellFragment(book[up]).value.terminal;
      if FindStep(StepsOf(book, up), terminal).Some? {
        StepSimulates(op, rule, book, order, nodes, up, terminal, fuel);
      } else {
        assert EvalStep(op, rule, book, up, terminal, fuel).None?;
        assert !TerminalLocal(book, up);
      }
    } else {
      StepSimulates(op, rule, book, order, nodes, cell, input, fuel);
    }
  }

  lemma {:induction false} InputsSimulate<V>(op: Operator<V>, rule: ParamRule, book: Book, order: seq<string>,
      nodes: map<string, FlowNode>, cell: string, inputs: seq<string>, fuel: nat)
    requires Mirrors(rule, book, order, nodes) && cell in order
    requires forall i :: i in inputs ==> Leads(book, order, cell, i)
    ensures EvalInputs(op, rule, book, cell, inputs, fuel).Some? || AllTerminalsLocal(book, order) ==>
              EvalInputs(op, rule, book, cell, inputs, fuel) == EvalNodes(op, nodes, FlatRefs(book, cell, inputs), fuel)
    decreases fuel, 2 + |inputs|
  {
    if inputs != [] {
      InputSimulates(op, rule, book, order, nodes, cell, inputs[0], fuel);
      InputsSimulate(op, rule, book, order, nodes, cell, inputs[1..], fuel);
    }
  }

  // ----- a defined cell has only local terminals above it -----

  ghost predicate StepDefined<V>(op: Operator<V>, rule: ParamRule, book: Book, cell: string, step: string) {
    exists fuel: nat :: EvalStep(op, rule, book, cell, step, fuel).Some?
  }

  lemma {:induction false} EvalInputsEach<V>(op: Operator<V>, rule: ParamRule, book: Book, cell: string,
      inputs: seq<string>, input: string, fuel: nat)
    requires EvalInputs(op, rule, book, cell, inputs, fuel).Some? && input in inputs
    ensures EvalInput(op, rule, book, cell, input, fuel).Some?
  {
    if input != inputs[0] {
      EvalInputsEach(op, rule, book, cell, inputs[1..], input, fuel);
    }
  }

  /** A defined step evaluates each of its inputs; an upstream cell it reads has a local terminal. */
  lemma InputDefined<V>(op: Operator<V>, rule: ParamRule, book: Book, cell: string, s: Step, input: string)
    requires s.id.Some? && FindStep(StepsOf(book, cell), s.id.value) == Some(s)
    requires StepDefined(op, rule, book, cell, s.id.value)
    requires s.inputs.Some? && input in s.inputs.value
    ensures IsCellRef(input) ==>
              TerminalLocal(book, RefOf(input))
              && StepDefined(op, rule, book, RefOf(input), CellFragment(book[RefOf(input)]).value.terminal)
    ensures !IsCellRef(input) ==> StepDefined(op, rule, book, cell, input)
  {
    var fuel: nat :| EvalStep(op, rule, book, cell, s.id.value, fuel).Some?;
    EvalInputsEach(op, rule, book, cell, s.inputs.value, input, fuel - 1);
    assert EvalInput(op, rule, book, cell, input, fuel - 1).Some?;
    if IsCellRef(input) {
      assert EvalCell(op, rule, book, RefOf(input), fuel - 1).Some?;
      assert EvalStep(op, rule, book, RefOf(input), CellFragment(book[RefOf(input)]).value.terminal, fuel - 1).Some?;
    }
  }

  /** The unique step behind a flat id. */
  lemma FoundStep(rule: ParamRule, book: Book, order: seq<string>, cell: string, s: Step)
    requires Compiled(rule, book, order) && cell in order && s in StepsOf(book, cell)
    ensures s.id.Some? && s.inputs.Some? && FindStep(StepsOf(book, cell), s.id.value) == Some(s)
  {
    assert StepSound(book, book[cell], LocalIds(StepsOf(book, cell)), s);
    FindStepFinds(StepsOf(book, cell), s);
    FindStepSound(StepsOf(book, cell), s.id.value);
    FlattenInjective(book, order, cell, s, cell, FindStep(StepsOf(book, cell), s.id.value).value);
  }

  lemma EdgeDefined<V>(op: Operator<V>, rule: ParamRule, book: Book, order: seq<string>,
                       cell: string, s: Step, next: string) returns (d: string, t: Step)
    requires Compiled(rule, book, order) && cell in order && s in StepsOf(book, cell)
    requires Edge(FlowGraph(Normal(rule, Flatten(book, order))), FlatStep(book, cell, s).id, next)
    requires s.id.Some? && StepDefined(op, rule, book, cell, s.id.value)
    ensures d in order && t in StepsOf(book, d) && FlatStep(book, d, t).id == next
    ensures t.id.Some? && StepDefined(op, rule, book, d, t.id.value)
  {
    FoundStep(rule, book, order, cell, s);
    StepNode(rule, book, order, cell, s);
    var inputs := s.inputs.value;
    var refs := FlatRefs(book, cell, inputs);
    var i :| 0 <= i < |refs| && refs[i] == next;
    var input := inputs[i];
    InputLeads(rule, book, order, cell, s, input);
    InputDefined(op, rule, book, cell, s, input);
    d := if IsCellRef(input) then RefOf(input) else cell;
    var id := if IsCellRef(input) then CellFragment(book[d]).value.terminal else input;
    FindStepSound(StepsOf(book, d), id);
    t := FindStep(StepsOf(book, d), id).value;
  }

  /** A flat id whose step is defined. */
  ghost predicate IdDefined<V>(op: Operator<V>, rule: ParamRule, book: Book, order: seq<string>, id: string) {
    exists c, s :: c in order && s in StepsOf(book, c) && s.id.Some? && FlatStep(book, c, s).id == id
                   && StepDefined(op, rule, book, c, s.id.value)
  }

  /** Definedness travels along every path of the flat graph. */
  lemma {:induction false} ReachableDefined<V>(op: Operator<V>, rule: ParamRule, book: Book, order: seq<string>,
      from: string, id: string)
    requires Compiled(rule, book, order) && IdDefined(op, rule, book, order, from)
    requires Reaches(FlowGraph(Normal(rule, Flatten(book, order))), from, id)
    ensures IdDefined(op, rule, book, order, id)
  {
    var flat := Flatten(book, order);
    var g := FlowGraph(Normal(rule, flat));
    var defined := set x | x in Ids(flat) + {from} && IdDefined(op, rule, book, order, x);
    forall u, v | u in defined && Edge(g, u, v)
      ensures v in defined
    {
      var c, s :| c in order && s in StepsOf(book, c) && s.id.Some? && FlatStep(book, c, s).id == u
                  && StepDefined(op, rule, book, c, s.id.value);
      var d, t := EdgeDefined(op, rule, book, order, c, s, v);
      FlattenHas(book, order, d, t);
      IdsHas(flat, FlatStep(book, d, t));
    }
    ClosedKeepsReach(g, defined, from, id);
  }

  // ----- the theorem -----

  /** What a successful compilation establishes about the cells and the flow. */
  lemma {:induction false} ClosureCompiles(rule: ParamRule, cells: seq<Cell>, target: Cell)
    requires target.id in Index(cells) && Index(cells)[target.id] == target
    requires Closure(rule, cells, target).Ok?
    ensures var book := Index(cells);
            var order := Ancestors(book, target.id);
            var flow := Closure(rule, cells, target).value;
            && target.id in order
            && Compiled(rule, book, order)
            && WellFormed(flow.nodes, flow.terminal)
            && flow == FlowDef(TerminalId(target), Normal(rule, Flatten(book, order)))
  {
    var book := Index(cells);
    var g := CellGraph(book);
    var order := Ancestors(book, target.id);
    ClosureExact(rule, cells, target);
    AncestorsExact(book, target.id);
    TopologicalIsClosed(g, order);
    ReachesSelf(g, target.id);
    FromJsonExact(rule, Flatten(book, order), TerminalId(target));
    NormalKeepsDistinctness(rule, Flatten(book, order));
  }

  /** Every ancestor other than the target is read by a step of some ancestor. */
  lemma AncestorIsRead(book: Book, target: string, up: string) returns (c: string, s: Step, input: string)
    requires !Flawed(CellGraph(book), target) && SoundAbove(book, target)
    requires Reaches(CellGraph(book), target, up) && up != target
    ensures Reaches(CellGraph(book), target, c) && s in StepsOf(book, c)
    ensures s.inputs.Some? && input in s.inputs.value && IsCellRef(input) && RefOf(input) == up
  {
    c := Predecessor(CellGraph(book), target, up);
    assert CellSound(book, book[c]);
    assert up in Referenced(StepsOf(book, c));
    s, input :| s in StepsOf(book, c) && s.inputs.Some? && input in s.inputs.value && IsCellRef(input)
      && RefOf(input) == up;
  }

  lemma Predecessor(g: Graph, u: string, v: string) returns (w: string)
    requires Reaches(g, u, v) && u != v
    ensures Reaches(g, u, w) && Edge(g, w, v)
  {
    var p :| PathBetween(g, p, u, v);
    w := LastStep(g, p);
  }

  lemma {:induction false} LastStep(g: Graph, p: seq<string>) returns (w: string)
    requires IsPath(g, p) && |p| > 1
    ensures Reaches(g, p[0], w) && Edge(g, w, p[|p| - 1])
  {
    if |p| == 2 {
      w := p[0];
      ReachesSelf(g, w);
    } else {
      w := LastStep(g, p[1..]);
      EdgeThenReaches(g, p[0], p[1], w);
    }
  }

  /** A cell with a meaning has a local terminal, and so has every cell above it. */
  lemma {:induction false} MeaningNeedsLocalTerminals<V>(op: Operator<V>, rule: ParamRule, cells: seq<Cell>,
      target: Cell, v: V)
    requires target.id in Index(cells) && Index(cells)[target.id] == target
    requires Closure(rule, cells, target).Ok?
    requires CellMeans(op, rule, Index(cells), target.id, v)
    ensures AllTerminalsLocal(Index(cells), Ancestors(Index(cells), target.id))
  {
    var book := Index(cells);
    var order := Ancestors(book, target.id);
    ClosureCompiles(rule, cells, target);
    ClosureExact(rule, cells, target);
    AncestorsExact(book, target.id);
    TargetDefined(op, rule, book, order, target.id, v);
    forall up | up in order
      ensures TerminalLocal(book, up)
    {
      if up != target.id {
        var c, s, input := AncestorIsRead(book, target.id, up);
        ReadTerminalLocal(op, rule, book, order, TerminalId(target), c, s, input);
      }
    }
  }

  lemma TargetDefined<V>(op: Operator<V>, rule: ParamRule, book: Book, order: seq<string>, cell: string, v: V)
    requires CellMeans(op, rule, book, cell, v) && cell in order && book[cell].id == cell
    requires forall c :: c in order ==> c in book
    ensures TerminalLocal(book, cell) && IdDefined(op, rule, book, order, TerminalId(book[cell]))
  {
    var fuel: nat :| EvalCell(op, rule, book, cell, fuel) == Some(v);
    var terminal := CellFragment(book[cell]).value.terminal;
    assert EvalStep(op, rule, book, cell, terminal, fuel).Some?;
    FindStepSound(StepsOf(book, cell), terminal);
    var s := FindStep(StepsOf(book, cell), terminal).value;
    assert FlatStep(book, cell, s).id == TerminalId(book[cell]);
  }

  lemma {:induction false} ReadTerminalLocal<V>(op: Operator<V>, rule: ParamRule, book: Book, order: seq<string>,
      terminal: string, c: string, s: Step, input: string)
    requires Compiled(rule, book, order) && IdDefined(op, rule, book, order, terminal)
    requires WellFormed(Normal(rule, Flatten(book, order)), terminal)
    requires c in order && s in StepsOf(book, c) && s.inputs.Some? && input in s.inputs.value && IsCellRef(input)
    ensures TerminalLocal(book, RefOf(input))
  {
    ReadStepDefined(op, rule, book, order, terminal, c, s);
    FoundStep(rule, book, order, c, s);
    InputDefined(op, rule, book, c, s, input);
  }

  lemma {:induction false} ReadStepDefined<V>(op: Operator<V>, rule: ParamRule, book: Book, order: seq<string>,
      terminal: string, c: string, s: Step)
    requires Compiled(rule, book, order) && IdDefined(op, rule, book, order, terminal)
    requires WellFormed(Normal(rule, Flatten(book, order)), terminal)
    requires c in order && s in StepsOf(book, c)
    ensures s.id.Some? && StepDefined(op, rule, book, c, s.id.value)
  {
    var flat := Flatten(book, order);
    var id := FlatStep(book, c, s).id;
    FoundStep(rule, book, order, c, s);
    FlattenHas(book, order, c, s);
    IdsHas(flat, FlatStep(book, c, s));
    NormalKeepsIds(rule, flat);
    var n := IdsOwner(Normal(rule, flat), id);
    ReachableDefined(op, rule, book, order, terminal, id);
    var d, t :| d in order && t in StepsOf(book, d) && t.id.Some? && FlatStep(book, d, t).id == id
                && StepDefined(op, rule, book, d, t.id.value);
    FlattenInjective(book, order, c, s, d, t);
  }

  /**
   Flattening preserves meaning, for every meaning of the step kinds. When compilation succeeds the flow has
   exactly one result; evaluating the target by recursively evaluating its upstream cells gives that result;
   and it gives one at all exactly when every ancestor's terminal is one of its own steps.
   */
  lemma MeaningPreserved<V>(op: Operator<V>, rule: ParamRule, cells: seq<Cell>, target: Cell) returns (result: V)
    requires target.id in Index(cells) && Index(cells)[target.id] == target
    requires Closure(rule, cells, target).Ok?
    ensures FlowMeans(op, Closure(rule, cells, target).value, result)
    ensures forall w :: FlowMeans(op, Closure(rule, cells, target).value, w) ==> w == result
    ensures forall w :: CellMeans(op, rule, Index(cells), target.id, w) ==> w == result
    ensures CellMeans(op, rule, Index(cells), target.id, result) <==>
            AllTerminalsLocal(Index(cells), Ancestors(Index(cells), target.id))
  {
    var book := Index(cells);
    var order := Ancestors(book, target.id);
    var flow := Closure(rule, cells, target).value;
    ClosureCompiles(rule, cells, target);
    result := FlowIsDefined(op, flow);
    forall w | FlowMeans(op, flow, w)
      ensures w == result
    {
      FlowMeaningUnique(op, flow, w, result);
    }
    forall w | CellMeans(op, rule, book, target.id, w)
      ensures w == result && AllTerminalsLocal(book, order)
    {
      CellMeaningIsFlowMeaning(op, rule, cells, target, w);
      FlowMeaningUnique(op, flow, w, result);
      MeaningNeedsLocalTerminals(op, rule, cells, target, w);
    }
    if AllTerminalsLocal(book, order) {
      CompiledMirrors(rule, book, order);
      var fuel: nat :| EvalNode(op, ById(flow.nodes), flow.terminal, fuel) == Some(result);
      StepSimulates(op, rule, book, order, ById(flow.nodes), target.id, CellFragment(target).value.terminal, fuel);
      assert EvalCell(op, rule, book, target.id, fuel) == Some(result);
    }
  }

  lemma {:induction false} CellMeaningIsFlowMeaning<V>(op: Operator<V>, rule: ParamRule, cells: seq<Cell>,
      target: Cell, v: V)
    requires target.id in Index(cells) && Index(cells)[target.id] == target
    requires Closure(rule, cells, target).Ok?
    requires CellMeans(op, rule, Index(cells), target.id, v)
    ensures FlowMeans(op, Closure(rule, cells, target).value, v)
  {
    var book := Index(cells);
    var order := Ancestors(book, target.id);
    var flow := Closure(rule, cells, target).value;
    ClosureCompiles(rule, cells, target);
    CompiledMirrors(rule, book, order);
    var fuel: nat :| EvalCell(op, rule, book, target.id, fuel) == Some(v);
    CellAgrees(op, rule, book, order, ById(flow.nodes), target.id, fuel);
  }

  lemma {:induction false} CellAgrees<V>(op: Operator<V>, rule: ParamRule, book: Book, order: seq<string>,
      nodes: map<string, FlowNode>, cell: string, fuel: nat)
    requires Mirrors(rule, book, order, nodes) && cell in order && cell in book && book[cell].id == cell
    requires EvalCell(op, rule, book, cell, fuel).Some?
    ensures EvalNode(op, nodes, TerminalId(book[cell]), fuel) == EvalCell(op, rule, book, cell, fuel)
  {
    var terminal := CellFragment(book[cell]).value.terminal;
    assert EvalStep(op, rule, book, cell, terminal, fuel).Some?;
    StepSimulates(op, rule, book, order, nodes, cell, terminal, fuel);
  }
}
