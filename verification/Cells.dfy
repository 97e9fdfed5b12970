/**
 Analysis cells and the compiler that turns a cell and everything it refs into one flow
 (`_cell_fragment`, `_analysis_closure`).
 */
module Cells {
  import opened Common
  import opened Graphs
  import opened FlowIR

  /** A step as submitted: an id that may not be text, inputs that may not be a list of text. */
  datatype Step = Step(id: Option<string>, kind: string, inputs: Option<seq<string>>, params: string)

  /**
   A non-empty `flow` object: `nodes` may not be a list, an entry may not be an object, `terminal` may not be text.
   */
  datatype RawFlow = RawFlow(nodes: Option<seq<Option<Step>>>, terminal: Option<string>)

  datatype Cell = Cell(
    id: string, title: string, sql: string, flow: Option<RawFlow>, inputs: seq<string>,
    top: Option<int>, x: string, y: seq<string>, series: string)
  {
    predicate IsFlowCell() {
      flow.Some?
    }
  }

  type Book = map<string, Cell>

  datatype Refusal =
    | UnknownCell(id: string, wantedBy: string)
    | SqlCell(id: string, wantedBy: string)
    | OwnOutput(id: string)
    | CellLoop(id: string)
    | BadFragment(id: string)
    | InvalidStepId(id: string)
    | BadStepInputs(id: string, step: string)
    | UndeclaredInput(id: string, step: string, input: string)
    | UnknownInput(id: string, step: string, input: string)
    | UnusedInput(id: string)
    | TierA(reason: FlowRefusal)

  // ----- the cell graph -----

  /** `{c.id: c for c in cells}`. */
  function Index(cells: seq<Cell>): (b: Book)
    ensures forall k :: k in b ==> b[k].id == k && b[k] in cells
  {
    if cells == [] then map[]
    else
      var last := cells[|cells| - 1];
      assert cells == cells[..|cells| - 1] + [last];
      Index(cells[..|cells| - 1])[last.id := last]
  }

  /** Each shaping cell with its declared inputs; a SQL cell is not a node, so reading one is refused. */
  function CellGraph(book: Book): Graph {
    map id | id in book && book[id].IsFlowCell() :: book[id].inputs
  }

  function CellStop(book: Book, stop: Stop): Refusal {
    match stop
    case Missing(id, wantedBy) => if id in book then SqlCell(id, wantedBy) else UnknownCell(id, wantedBy)
    case Loop(id, wantedBy) => if id == wantedBy then OwnOutput(id) else CellLoop(id)
  }

  // ----- one cell -----

  function Objects(nodes: seq<Option<Step>>): Option<seq<Step>> {
    if nodes == [] then Some([])
    else if nodes[0].None? then None
    else
      match Objects(nodes[1..])
      case None => None
      case Some(rest) => Some([nodes[0].value] + rest)
  }

  datatype Fragment = Fragment(steps: seq<Step>, terminal: string)

  function CellFragment(cell: Cell): Result<Fragment, Refusal> {
    if cell.flow.None? || cell.flow.value.nodes.None? || cell.flow.value.nodes.value == []
       || Objects(cell.flow.value.nodes.value).None? || cell.flow.value.terminal.None?
    then Err(BadFragment(cell.id))
    else Ok(Fragment(Objects(cell.flow.value.nodes.value).value, cell.flow.value.terminal.value))
  }

  const CELL_REF := "cell:"

  predicate IsCellRef(input: string) {
    CELL_REF <= input
  }

  function RefOf(input: string): string
    requires IsCellRef(input)
  {
    input[|CELL_REF|..]
  }

  function Namespaced(cell: string, step: string): string {
    cell + "_" + step
  }

  predicate StepIdOk(id: string) {
    var s := DollarTrim(id);
    1 <= |s| <= 31 && forall c :: c in s ==> IdChar(c)
  }

  function LocalIds(steps: seq<Step>): set<string> {
    set s | s in steps && s.id.Some? :: s.id.value
  }

  function ResolveInput(book: Book, cell: Cell, locals: set<string>, step: string,
                        input: string): Result<string, Refusal>
  {
    if IsCellRef(input) then
      var up := RefOf(input);
      if up !in book || !book[up].IsFlowCell() || up !in cell.inputs then Err(UndeclaredInput(cell.id, step, input))
      else
        match CellFragment(book[up])
        case Err(e) => Err(e)
        case Ok(f) => Ok(Namespaced(up, f.terminal))
    else if input in locals then Ok(Namespaced(cell.id, input))
    else Err(UnknownInput(cell.id, step, input))
  }

  function ResolveInputs(book: Book, cell: Cell, locals: set<string>, step: string,
                         inputs: seq<string>): Result<seq<string>, Refusal>
  {
    if inputs == [] then Ok([])
    else
      match ResolveInput(book, cell, locals, step, inputs[0])
      case Err(e) => Err(e)
      case Ok(first) =>
        match ResolveInputs(book, cell, locals, step, inputs[1..])
        case Err(e) => Err(e)
        case Ok(rest) => Ok([first] + rest)
  }

  function EmitStep(book: Book, cell: Cell, locals: set<string>, s: Step): Result<FlowNode, Refusal> {
    if s.id.None? || !StepIdOk(s.id.value) then Err(InvalidStepId(cell.id))
    else if s.inputs.None? then Err(BadStepInputs(cell.id, s.id.value))
    else
      match ResolveInputs(book, cell, locals, s.id.value, s.inputs.value)
      case Err(e) => Err(e)
      case Ok(mapped) => Ok(FlowNode(Namespaced(cell.id, s.id.value), s.kind, mapped, s.params))
  }

  function EmitSteps(book: Book, cell: Cell, locals: set<string>, steps: seq<Step>): Result<seq<FlowNode>, Refusal> {
    if steps == [] then Ok([])
    else
      match EmitStep(book, cell, locals, steps[0])
      case Err(e) => Err(e)
      case Ok(first) =>
        match EmitSteps(book, cell, locals, steps[1..])
        case Err(e) => Err(e)
        case Ok(rest) => Ok([first] + rest)
  }

  /** The upstream cells that some step really refs. */
  function Referenced(steps: seq<Step>): set<string> {
    set s, i | s in steps && s.inputs.Some? && i in s.inputs.value && IsCellRef(i) :: RefOf(i)
  }

  function EmitCell(book: Book, cell: Cell): Result<seq<FlowNode>, Refusal> {
    match CellFragment(cell)
    case Err(e) => Err(e)
    case Ok(f) =>
      match EmitSteps(book, cell, LocalIds(f.steps), f.steps)
      case Err(e) => Err(e)
      case Ok(nodes) => if Referenced(f.steps) != Elements(cell.inputs) then Err(UnusedInput(cell.id)) else Ok(nodes)
  }

  function EmitCells(book: Book, order: seq<string>): Result<seq<FlowNode>, Refusal>
    requires forall c :: c in order ==> c in book
  {
    if order == [] then Ok([])
    else
      match EmitCell(book, book[order[0]])
      case Err(e) => Err(e)
      case Ok(first) =>
        match EmitCells(book, order[1..])
        case Err(e) => Err(e)
        case Ok(rest) => Ok(first + rest)
  }

  // ----- the closure -----

  function Closure(rule: ParamRule, cells: seq<Cell>, target: Cell): Result<FlowDef, Refusal> {
    var book := Index(cells);
    match WalkFrom(CellGraph(book), target.id)
    case Err(stop) => Err(CellStop(book, stop))
    case Ok(w) =>
      WalkStaysInBook(book, target.id);
      match EmitCells(book, w.order)
      case Err(e) => Err(e)
      case Ok(nodes) =>
        match CellFragment(target)
        case Err(e) => Err(e)
        case Ok(f) =>
          match FromJson(rule, nodes, Namespaced(target.id, f.terminal))
          case Err(reason) => Err(TierA(reason))
          case Ok(flow) => Ok(flow)
  }

  lemma WalkStaysInBook(book: Book, id: string)
    requires WalkFrom(CellGraph(book), id).Ok?
    ensures forall c :: c in WalkFrom(CellGraph(book), id).value.order ==> c in book && book[c].IsFlowCell()
  {
    var g := CellGraph(book);
    WalkExact(g, id);
    forall c | c in WalkFrom(g, id).value.order
      ensures c in g
    {
      assert Reaches(g, id, c);
    }
  }

  // ----- what a sound cell becomes -----

  predicate InputSound(book: Book, cell: Cell, locals: set<string>, input: string) {
    if IsCellRef(input) then
      var up := RefOf(input);
      up in cell.inputs && up in book && book[up].IsFlowCell() && CellFragment(book[up]).Ok?
    else input in locals
  }

  predicate StepSound(book: Book, cell: Cell, locals: set<string>, s: Step) {
    && s.id.Some? && StepIdOk(s.id.value)
    && s.inputs.Some? && forall i :: i in s.inputs.value ==> InputSound(book, cell, locals, i)
  }

  /** Readable fragment, valid steps, no undeclared and no unused input. */
  predicate CellSound(book: Book, cell: Cell) {
    && CellFragment(cell).Ok?
    && var steps := CellFragment(cell).value.steps;
       && (forall s :: s in steps ==> StepSound(book, cell, LocalIds(steps), s))
       && Referenced(steps) == Elements(cell.inputs)
  }

  /** The flat id an input stands for: the upstream cell's terminal, or a step of the same cell. */
  function FlatRef(book: Book, cell: string, input: string): string {
    if IsCellRef(input) then
      var up := RefOf(input);
      if up in book && CellFragment(book[up]).Ok? then Namespaced(up, CellFragment(book[up]).value.terminal) else ""
    else Namespaced(cell, input)
  }

  function FlatRefs(book: Book, cell: string, inputs: seq<string>): (r: seq<string>)
    ensures |r| == |inputs|
    ensures forall i :: 0 <= i < |inputs| ==> r[i] == FlatRef(book, cell, inputs[i])
  {
    if inputs == [] then [] else [FlatRef(book, cell, inputs[0])] + FlatRefs(book, cell, inputs[1..])
  }

  function FlatStep(book: Book, cell: string, s: Step): FlowNode {
    var id := if s.id.Some? then s.id.value else "";
    var inputs := if s.inputs.Some? then s.inputs.value else [];
    FlowNode(Namespaced(cell, id), s.kind, FlatRefs(book, cell, inputs), s.params)
  }

  function FlatSteps(book: Book, cell: string, steps: seq<Step>): (r: seq<FlowNode>)
    ensures |r| == |steps|
    ensures forall i :: 0 <= i < |steps| ==> r[i] == FlatStep(book, cell, steps[i])
  {
    if steps == [] then [] else [FlatStep(book, cell, steps[0])] + FlatSteps(book, cell, steps[1..])
  }

  function StepsOf(book: Book, cell: string): seq<Step> {
    if cell in book && CellFragment(book[cell]).Ok? then CellFragment(book[cell]).value.steps else []
  }

  /** The flat flow's steps: every step of every listed cell, cell by cell, ids namespaced and inputs redirected. */
  function Flatten(book: Book, order: seq<string>): seq<FlowNode> {
    if order == [] then [] else FlatSteps(book, order[0], StepsOf(book, order[0])) + Flatten(book, order[1..])
  }

  lemma {:induction false} ResolveInputsExact(book: Book, cell: Cell, locals: set<string>, step: string,
      inputs: seq<string>)
    ensures var r := ResolveInputs(book, cell, locals, step, inputs);
            && (r.Ok? <==> forall i :: i in inputs ==> InputSound(book, cell, locals, i))
            && (r.Ok? ==> r.value == FlatRefs(book, cell.id, inputs))
  {
    if inputs != [] {
      ResolveInputsExact(book, cell, locals, step, inputs[1..]);
      assert ResolveInput(book, cell, locals, step, inputs[0]).Ok? <==> InputSound(book, cell, locals, inputs[0]);
      assert forall i :: i in inputs <==> i == inputs[0] || i in inputs[1..];
    }
  }

  lemma EmitStepExact(book: Book, cell: Cell, locals: set<string>, s: Step)
    ensures var r := EmitStep(book, cell, locals, s);
            && (r.Ok? <==> StepSound(book, cell, locals, s))
            && (r.Ok? ==> r.value == FlatStep(book, cell.id, s))
  {
    if s.id.Some? && s.inputs.Some? {
      ResolveInputsExact(book, cell, locals, s.id.value, s.inputs.value);
    }
  }

  lemma {:induction false} EmitStepsExact(book: Book, cell: Cell, locals: set<string>, steps: seq<Step>)
    ensures var r := EmitSteps(book, cell, locals, steps);
            && (r.Ok? <==> forall s :: s in steps ==> StepSound(book, cell, locals, s))
            && (r.Ok? ==> r.value == FlatSteps(book, cell.id, steps))
  {
    if steps != [] {
      EmitStepExact(book, cell, locals, steps[0]);
      EmitStepsExact(book, cell, locals, steps[1..]);
      assert forall s :: s in steps <==> s == steps[0] || s in steps[1..];
    }
  }

  lemma {:induction false} EmitCellExact(book: Book, cell: string)
    requires cell in book && book[cell].id == cell
    ensures var r := EmitCell(book, book[cell]);
            && (r.Ok? <==> CellSound(book, book[cell]))
            && (r.Ok? ==> r.value == FlatSteps(book, cell, StepsOf(book, cell)))
  {
    var c := book[cell];
    if CellFragment(c).Ok? {
      var steps := CellFragment(c).value.steps;
      EmitStepsExact(book, c, LocalIds(steps), steps);
    }
  }

  lemma {:induction false} EmitCellsExact(book: Book, order: seq<string>)
    requires forall c :: c in order ==> c in book && book[c].id == c
    ensures EmitCells(book, order).Ok? <==> forall c :: c in order ==> CellSound(book, book[c])
    ensures EmitCells(book, order).Ok? ==> EmitCells(book, order).value == Flatten(book, order)
  {
    if order != [] {
      EmitCellExact(book, order[0]);
      EmitCellsExact(book, order[1..]);
      assert forall c :: c in order <==> c == order[0] || c in order[1..];
    }
  }

  /** The cells a target is compiled from, in the order the walk finishes them. */
  function Ancestors(book: Book, id: string): seq<string> {
    match WalkFrom(CellGraph(book), id)
    case Err(_) => []
    case Ok(w) => w.order
  }

  function TerminalId(cell: Cell): string {
    match CellFragment(cell)
    case Err(_) => ""
    case Ok(f) => Namespaced(cell.id, f.terminal)
  }

  ghost predicate SoundAbove(book: Book, id: string) {
    forall c :: Reaches(CellGraph(book), id, c) ==> c in book && CellSound(book, book[c])
  }

  /**
   The compiler refuses exactly when it should: it succeeds if and only if no missing cell, no SQL cell and
   no loop can be reached from the target, every reachable cell is sound, and Tier A accepts the result,
   which is the flattening of the target's ancestors.
   */
  lemma {:induction false} ClosureExact(rule: ParamRule, cells: seq<Cell>, target: Cell)
    requires target.id in Index(cells) && Index(cells)[target.id] == target
    ensures var book := Index(cells);
            var r := Closure(rule, cells, target);
            var flat := FromJson(rule, Flatten(book, Ancestors(book, target.id)), TerminalId(target));
            && (r.Ok? <==> !Flawed(CellGraph(book), target.id) && SoundAbove(book, target.id) && flat.Ok?)
            && (r.Ok? ==> r.value == flat.value)
  {
    var book := Index(cells);
    var g := CellGraph(book);
    WalkExact(g, target.id);
    if WalkFrom(g, target.id).Ok? {
      var order := WalkFrom(g, target.id).value.order;
      WalkStaysInBook(book, target.id);
      EmitCellsExact(book, order);
      AncestorsExact(book, target.id);
      ReachesSelf(g, target.id);
      assert target.id in order;
      assert SoundAbove(book, target.id) <==> forall c :: c in order ==> CellSound(book, book[c]);
    }
  }

  /** The emitted cells are exactly the target's ancestors, each once, every upstream cell first. */
  lemma AncestorsExact(book: Book, id: string)
    requires !Flawed(CellGraph(book), id)
    ensures var order := Ancestors(book, id);
            && Distinct(order)
            && Topological(CellGraph(book), order)
            && forall c :: c in order <==> Reaches(CellGraph(book), id, c)
  {
    WalkExact(CellGraph(book), id);
  }

  // ----- the compiler as it runs -----

  method EmitInto(book: Book, cell: Cell) returns (r: Result<seq<FlowNode>, Refusal>)
    ensures r == EmitCell(book, cell)
  {
    var fragment := CellFragment(cell);
    if fragment.Err? {
      return Err(fragment.error);
    }
    var steps := fragment.value.steps;
    var locals := LocalIds(steps);
    var referenced: set<string> := {};
    var out: seq<FlowNode> := [];
    assert steps[0..] == steps && forall tail: seq<FlowNode> :: out + tail == tail;
    for k := 0 to |steps|
      invariant referenced == Referenced(steps[..k])
      invariant EmitSteps(book, cell, locals, steps) ==
                match EmitSteps(book, cell, locals, steps[k..]) {
                  case Err(e) => Err(e)
                  case Ok(rest) => Ok(out + rest)
                }
    {
      var s := steps[k];
      ghost var rest := steps[k..];
      assert rest[0] == s && rest[1..] == steps[k + 1..];
      var node, refs := EmitOne(book, cell, locals, s);
      if node.Err? {
        return Err(node.error);
      }
      assert steps[..k + 1] == steps[..k] + [s];
      ReferencedSnoc(steps[..k], s);
      referenced := referenced + refs;
      ghost var was := out;
      out := out + [node.value];
      ghost var emitted := EmitSteps(book, cell, locals, steps[k + 1..]);
      if emitted.Ok? {
        Regroup(was, [node.value], emitted.value);
      }
    }
    assert steps[..|steps|] == steps && steps[|steps|..] == [] && out + [] == out;
    if referenced != Elements(cell.inputs) {
      return Err(UnusedInput(cell.id));
    }
    return Ok(out);
  }

  lemma ReferencedSnoc(steps: seq<Step>, s: Step)
    ensures Referenced(steps + [s]) == Referenced(steps) + Referenced([s])
  {
  }

  method EmitOne(book: Book, cell: Cell, locals: set<string>, s: Step)
    returns (r: Result<FlowNode, Refusal>, refs: set<string>)
    ensures r == EmitStep(book, cell, locals, s)
    ensures r.Ok? ==> refs == Referenced([s])
  {
    refs := {};
    if s.id.None? || !StepIdOk(s.id.value) {
      return Err(InvalidStepId(cell.id)), {};
    }
    if s.inputs.None? {
      return Err(BadStepInputs(cell.id, s.id.value)), {};
    }
    var inputs := s.inputs.value;
    var mapped: seq<string> := [];
    assert inputs[0..] == inputs && forall tail: seq<string> :: mapped + tail == tail;
    for k := 0 to |inputs|
      invariant refs == set i | i in inputs[..k] && IsCellRef(i) :: RefOf(i)
      invariant ResolveInputs(book, cell, locals, s.id.value, inputs) ==
                match ResolveInputs(book, cell, locals, s.id.value, inputs[k..]) {
                  case Err(e) => Err(e)
                  case Ok(rest) => Ok(mapped + rest)
                }
    {
      var input := inputs[k];
      ghost var rest := inputs[k..];
      assert rest[0] == input && rest[1..] == inputs[k + 1..];
      assert inputs[..k + 1] == inputs[..k] + [input];
      var flat := ResolveInput(book, cell, locals, s.id.value, input);
      if flat.Err? {
        return Err(flat.error), {};
      }
      if IsCellRef(input) {
        refs := refs + {RefOf(input)};
      }
      ghost var was := mapped;
      mapped := mapped + [flat.value];
      assert forall tail: seq<string> :: was + ([flat.value] + tail) == mapped + tail;
    }
    assert inputs[..|inputs|] == inputs && inputs[|inputs|..] == [] && mapped + [] == mapped;
    r := Ok(FlowNode(Namespaced(cell.id, s.id.value), s.kind, mapped, s.params));
    assert refs == Referenced([s]);
  }

  method EmitOrder(book: Book, order: seq<string>) returns (r: Result<seq<FlowNode>, Refusal>)
    requires forall c :: c in order ==> c in book
    ensures r == EmitCells(book, order)
  {
    var out: seq<FlowNode> := [];
    assert order[0..] == order && forall tail: seq<FlowNode> :: out + tail == tail;
    for k := 0 to |order|
      invariant EmitCells(book, order) ==
                match EmitCells(book, order[k..]) { case Err(e) => Err(e) case Ok(rest) => Ok(out + rest) }
    {
      ghost var rest := order[k..];
      assert rest[0] == order[k] && rest[1..] == order[k + 1..];
      var nodes := EmitInto(book, book[order[k]]);
      if nodes.Err? {
        return Err(nodes.error);
      }
      ghost var was := out;
      out := out + nodes.value;
      assert forall tail: seq<FlowNode> :: was + (nodes.value + tail) == out + tail;
    }
    assert order[|order|..] == [] && out + [] == out;
    return Ok(out);
  }

  method AnalysisClosure(rule: ParamRule, cells: seq<Cell>, target: Cell) returns (r: Result<FlowDef, Refusal>)
    ensures r == Closure(rule, cells, target)
  {
    var book := Index(cells);
    var walk := new DepthFirst(CellGraph(book));
    var stop := walk.Explore(target.id, target.id);
    if stop.Some? {
      return Err(CellStop(book, stop.value));
    }
    WalkStaysInBook(book, target.id);
    var nodes := EmitOrder(book, walk.order);
    if nodes.Err? {
      return Err(nodes.error);
    }
    var fragment := CellFragment(target);
    if fragment.Err? {
      return Err(fragment.error);
    }
    var flow := Validate(rule, nodes.value, Namespaced(target.id, fragment.value.terminal));
    return match flow { case Err(reason) => Err(TierA(reason)) case Ok(f) => Ok(f) };
  }
}
