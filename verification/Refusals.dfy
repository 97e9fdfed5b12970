/** What the cell compiler says when it refuses: the cell, the step and the input it names are the ones at fault. */
module Refusals {
  import opened Common
  import opened Graphs
  import opened FlowIR
  import opened Cells
  import opened CellMeaning
  import opened RawCells

  // ----- where a walk stops -----

  ghost predicate StopIsTrue(g: Graph, root: string, stop: Stop) {
    match stop
    case Missing(x, wanted) =>
      x !in g && ((x == root && wanted == root) || (Reaches(g, root, wanted) && Edge(g, wanted, x)))
    case Loop(x, wanted) => Reaches(g, root, wanted) && Edge(g, wanted, x) && Reaches(g, x, wanted)
  }

  lemma {:induction false} VisitStops(g: Graph, root: string, id: string, reader: string, w: Walk)
    requires WalkInv(g, w) && OpenNodesFeed(g, w, id)
    requires (id == root && reader == root && w.state == map[]) || (Reaches(g, root, reader) && Edge(g, reader, id))
    requires forall x :: x in w.state && w.state[x] == Visiting ==> Reaches(g, x, reader)
    ensures Visit(g, id, reader, w).Err? ==> StopIsTrue(g, root, Visit(g, id, reader, w).error)
    decreases g.Keys - w.state.Keys, 0
  {
    if id in g && id !in w.state {
      var w1 := w.(state := w.state[id := Visiting]);
      assert id in g.Keys - w.state.Keys;
      if id == root {
        ReachesSelf(g, root);
      } else {
        EdgeReaches(g, reader, id);
        ReachesTrans(g, root, reader, id);
      }
      assert forall x :: x in w1.state && w1.state[x] == Visiting ==> x == id || Feeds(g, x, id);
      VisitAllStops(g, root, g[id], id, w1);
    }
  }

  lemma {:induction false} VisitAllStops(g: Graph, root: string, ids: seq<string>, c: string, w: Walk)
    requires WalkInv(g, w) && Reaches(g, root, c)
    requires forall i :: i in ids ==> Edge(g, c, i)
    requires forall x :: x in w.state && w.state[x] == Visiting ==> x == c || Feeds(g, x, c)
    ensures VisitAll(g, ids, c, w).Err? ==> StopIsTrue(g, root, VisitAll(g, ids, c, w).error)
    decreases g.Keys - w.state.Keys, |ids|
  {
    if ids != [] {
      forall x | x in w.state && w.state[x] == Visiting
        ensures Feeds(g, x, ids[0]) && Reaches(g, x, c)
      {
        EdgeReaches(g, c, ids[0]);
        ReachesSelf(g, c);
        if x != c {
          FeedsReaches(g, x, c, ids[0]);
          var y :| Edge(g, x, y) && Reaches(g, y, c);
          EdgeThenReaches(g, x, y, c);
        }
      }
      VisitStops(g, root, ids[0], c, w);
      VisitMeets(g, ids[0], c, w);
      match Visit(g, ids[0], c, w)
      case Err(_) =>
      case Ok(w') =>
        assert g.Keys - w'.state.Keys <= g.Keys - w.state.Keys;
        VisitAllStops(g, root, ids[1..], c, w');
    }
  }

  lemma {:induction false} WalkStops(g: Graph, id: string)
    ensures WalkFrom(g, id).Err? ==> StopIsTrue(g, id, WalkFrom(g, id).error)
  {
    VisitStops(g, id, id, id, Walk(map[], []));
  }

  // ----- what each refusal says -----

  /** The cell is the target or one that a cell the target reads lists. */
  ghost predicate WantedBy(book: Book, target: string, id: string, reader: string) {
    || (id == target && reader == target)
    || (&& Reaches(CellGraph(book), target, reader) && reader in book && book[reader].flow.Some?
        && id in book[reader].inputs)
  }

  /** A step of the cell, as submitted. */
  ghost predicate HasSubmitted(cell: Cell, s: Step) {
    exists steps, t :: Submits(cell, steps, t) && s in steps
  }

  ghost predicate SaysTrue(rule: ParamRule, book: Book, target: Cell, e: Refusal) {
    var g := CellGraph(book);
    match e
    case UnknownCell(id, reader) => id !in book && WantedBy(book, target.id, id, reader)
    case SqlCell(id, reader) => id in book && book[id].flow.None? && WantedBy(book, target.id, id, reader)
    case OwnOutput(id) => Reaches(g, target.id, id) && id in book && id in book[id].inputs
    case CellLoop(id) => Reaches(g, target.id, id) && OnCycle(g, id)
    case BadFragment(id) => Reaches(g, target.id, id) && id in book && forall steps, t :: !Submits(book[id], steps, t)
    case InvalidStepId(id) =>
      && Reaches(g, target.id, id) && id in book
      && exists s :: HasSubmitted(book[id], s) && (s.id.None? || !StepName(s.id.value))
    case BadStepInputs(id, step) =>
      && Reaches(g, target.id, id) && id in book
      && exists s :: HasSubmitted(book[id], s) && s.id == Some(step) && s.inputs.None?
    case UndeclaredInput(id, step, input) =>
      && Reaches(g, target.id, id) && id in book
      && (exists s :: HasSubmitted(book[id], s) && s.id == Some(step) && s.inputs.Some? && input in s.inputs.value)
      && exists up :: input == "cell:" + up
                      && (up !in book || book[up].flow.None? || up !in book[id].inputs)
    case UnknownInput(id, step, input) =>
      && Reaches(g, target.id, id) && id in book
      && (exists s :: HasSubmitted(book[id], s) && s.id == Some(step) && s.inputs.Some? && input in s.inputs.value)
      && !("cell:" <= input) && forall s :: HasSubmitted(book[id], s) ==> s.id != Some(input)
    case UnusedInput(id) =>
      && Reaches(g, target.id, id) && id in book
      && exists up, steps, t :: up in book[id].inputs && Submits(book[id], steps, t) && !Uses(steps, up)
    case TierA(reason) =>
      FromJson(rule, Flatten(book, Ancestors(book, target.id)), TerminalId(target)) == Err(reason)
  }

  lemma {:induction false} BadFragmentSays(cell: Cell)
    requires CellFragment(cell).Err?
    ensures CellFragment(cell).error == BadFragment(cell.id)
    ensures forall steps, t :: !Submits(cell, steps, t)
  {
    forall steps, t
      ensures !Submits(cell, steps, t)
    {
      FragmentExactly(cell, steps, t);
    }
  }

  /** One input's refusal: an undeclared cell, an unreadable one, or no step of this name. */
  lemma {:induction false} InputSays(book: Book, cell: Cell, locals: set<string>, step: string, input: string)
    requires forall k :: k in book ==> book[k].id == k
    requires ResolveInput(book, cell, locals, step, input).Err?
    ensures var e := ResolveInput(book, cell, locals, step, input).error;
            || (e == UndeclaredInput(cell.id, step, input)
                && exists up :: input == "cell:" + up && (up !in book || book[up].flow.None? || up !in cell.inputs))
            || (e == UnknownInput(cell.id, step, input) && !("cell:" <= input) && input !in locals)
            || (e.BadFragment? && e.id in cell.inputs && e.id in book && book[e.id].flow.Some?
                && forall steps, t :: !Submits(book[e.id], steps, t))
  {
    if IsCellRef(input) {
      var up := RefOf(input);
      assert input == "cell:" + up;
      if up in book && CellFragment(book[up]).Err? {
        BadFragmentSays(book[up]);
      }
    }
  }

  lemma {:induction false} InputsSay(book: Book, cell: Cell, locals: set<string>, step: string, inputs: seq<string>)
    returns (input: string)
    requires ResolveInputs(book, cell, locals, step, inputs).Err?
    ensures input in inputs && ResolveInput(book, cell, locals, step, input).Err?
    ensures ResolveInputs(book, cell, locals, step, inputs).error
            == ResolveInput(book, cell, locals, step, input).error
  {
    if ResolveInput(book, cell, locals, step, inputs[0]).Err? {
      input := inputs[0];
    } else {
      input := InputsSay(book, cell, locals, step, inputs[1..]);
    }
  }

  lemma {:induction false} StepsSay(book: Book, cell: Cell, locals: set<string>, steps: seq<Step>) returns (s: Step)
    requires EmitSteps(book, cell, locals, steps).Err?
    ensures s in steps && EmitStep(book, cell, locals, s).Err?
    ensures EmitSteps(book, cell, locals, steps).error == EmitStep(book, cell, locals, s).error
  {
    if EmitStep(book, cell, locals, steps[0]).Err? {
      s := steps[0];
    } else {
      s := StepsSay(book, cell, locals, steps[1..]);
    }
  }

  lemma {:induction false} CellsSay(book: Book, order: seq<string>) returns (c: string)
    requires (forall x :: x in order ==> x in book) && EmitCells(book, order).Err?
    ensures c in order && EmitCell(book, book[c]).Err? && EmitCells(book, order).error == EmitCell(book, book[c]).error
  {
    if EmitCell(book, book[order[0]]).Err? {
      c := order[0];
    } else {
      c := CellsSay(book, order[1..]);
    }
  }

  /** A refused cell that the target reads: what is said of it is true. */
  lemma {:induction false} CellSays(rule: ParamRule, book: Book, target: Cell, c: string)
    requires (forall k :: k in book ==> book[k].id == k) && c in book && book[c].flow.Some?
    requires Reaches(CellGraph(book), target.id, c) && EmitCell(book, book[c]).Err?
    ensures SaysTrue(rule, book, target, EmitCell(book, book[c]).error)
  {
    var cell := book[c];
    if CellFragment(cell).Err? {
      BadFragmentSays(cell);
    } else {
      FragmentIsSubmitted(cell);
      var f := CellFragment(cell).value;
      if EmitSteps(book, cell, LocalIds(f.steps), f.steps).Err? {
        var s := StepsSay(book, cell, LocalIds(f.steps), f.steps);
        StepSays(rule, book, target, c, f, s);
      } else {
        UnusedSays(book, cell, f);
      }
    }
  }

  lemma {:induction false} UnusedSays(book: Book, cell: Cell, f: Fragment)
    requires CellFragment(cell) == Ok(f) && Submits(cell, f.steps, f.terminal)
    requires EmitSteps(book, cell, LocalIds(f.steps), f.steps).Ok? && Referenced(f.steps) != Elements(cell.inputs)
    ensures exists up, steps, t :: up in cell.inputs && Submits(cell, steps, t) && !Uses(steps, up)
  {
    EmitStepsExact(book, cell, LocalIds(f.steps), f.steps);
    forall up | up in Referenced(f.steps)
      ensures up in cell.inputs
    {
      var s, i :| s in f.steps && s.inputs.Some? && i in s.inputs.value && IsCellRef(i) && RefOf(i) == up;
      assert InputSound(book, cell, LocalIds(f.steps), i);
    }
    var up :| up in cell.inputs && up !in Referenced(f.steps);
    ReferencedExactly(f.steps, up);
    assert Submits(cell, f.steps, f.terminal) && !Uses(f.steps, up);
  }

  lemma {:induction false} StepSays(rule: ParamRule, book: Book, target: Cell, c: string, f: Fragment, s: Step)
    requires (forall k :: k in book ==> book[k].id == k) && c in book && book[c].flow.Some?
    requires Reaches(CellGraph(book), target.id, c) && CellFragment(book[c]) == Ok(f)
    requires Submits(book[c], f.steps, f.terminal) && s in f.steps
    requires EmitStep(book, book[c], LocalIds(f.steps), s).Err?
    ensures SaysTrue(rule, book, target, EmitStep(book, book[c], LocalIds(f.steps), s).error)
  {
    var cell, locals := book[c], LocalIds(f.steps);
    assert HasSubmitted(cell, s);
    if s.id.None? || !StepIdOk(s.id.value) {
      if s.id.Some? {
        StepNameExactly(s.id.value);
      }
    } else if s.inputs.Some? {
      var step := s.id.value;
      var input := InputsSay(book, cell, locals, step, s.inputs.value);
      InputSays(book, cell, locals, step, input);
      var e := ResolveInput(book, cell, locals, step, input).error;
      if e.UnknownInput? {
        forall other | HasSubmitted(cell, other)
          ensures other.id != Some(input)
        {
          SubmittedOnce(cell, f, other);
        }
      } else if e.BadFragment? {
        assert Edge(CellGraph(book), c, e.id);
        EdgeReaches(CellGraph(book), c, e.id);
        ReachesTrans(CellGraph(book), target.id, c, e.id);
      }
    }
  }

  lemma {:induction false} SubmittedOnce(cell: Cell, f: Fragment, s: Step)
    requires CellFragment(cell) == Ok(f) && HasSubmitted(cell, s)
    ensures s in f.steps
  {
    var steps, t :| Submits(cell, steps, t) && s in steps;
    FragmentExactly(cell, steps, t);
  }

  /**
   Whatever the compiler answers when it refuses is so: the cell, step and input it names have the fault it gives, and
   the cell is the target or one that the target reads.
   */
  lemma {:induction false} RefusalsAreTrue(rule: ParamRule, cells: seq<Cell>, target: Cell)
    requires target.id in Index(cells) && Index(cells)[target.id] == target && Closure(rule, cells, target).Err?
    ensures SaysTrue(rule, Index(cells), target, Closure(rule, cells, target).error)
  {
    var book := Index(cells);
    var g := CellGraph(book);
    WalkStops(g, target.id);
    WalkExact(g, target.id);
    match WalkFrom(g, target.id)
    case Err(stop) => StopSays(rule, book, target, stop);
    case Ok(w) =>
      WalkStaysInBook(book, target.id);
      if EmitCells(book, w.order).Err? {
        var c := CellsSay(book, w.order);
        CellSays(rule, book, target, c);
      } else {
        EmitCellsExact(book, w.order);
        ReachesSelf(g, target.id);
      }
  }

  lemma {:induction false} StopSays(rule: ParamRule, book: Book, target: Cell, stop: Stop)
    requires StopIsTrue(CellGraph(book), target.id, stop)
    ensures SaysTrue(rule, book, target, CellStop(book, stop))
  {
    var g := CellGraph(book);
    match stop
    case Missing(x, wanted) =>
    case Loop(x, wanted) =>
      EdgeReaches(g, wanted, x);
      ReachesTrans(g, target.id, wanted, x);
      if x != wanted {
        ReachesStep(g, x, wanted);
        FeedsReaches(g, x, wanted, x);
      }
  }

  // ----- what Tier A says -----

  predicate NamedPlainly(id: string) {
    PlainId(id) || (|id| > 0 && id[|id| - 1] == '\n' && PlainId(id[..|id| - 1]))
  }

  ghost predicate FlowSaysTrue(rule: ParamRule, nodes: seq<FlowNode>, terminal: string, e: FlowRefusal) {
    match e
    case NoSteps => nodes == []
    case InvalidNodeId(id) => HasStep(nodes, id) && !NamedPlainly(id)
    case DuplicateNodeId(id) => exists i, j :: 0 <= i < j < |nodes| && nodes[i].id == id && nodes[j].id == id
    case UnknownKind(id) => exists n :: n in nodes && n.id == id && forall k: nat :: !Takes(n.kind, k)
    case WrongArity(id) => exists n :: n in nodes && n.id == id && !Takes(n.kind, |n.inputs|)
    case BadParams(id) => exists n :: n in nodes && n.id == id && rule(n.kind, n.params) == None
    case TerminalNotAStep(id) => id == terminal && !HasStep(nodes, id)
    case UnresolvedInput(id, input) =>
      (exists n :: n in nodes && n.id == id && input in n.inputs) && !HasStep(nodes, input)
    case SelfInput(id) => exists n :: n in nodes && n.id == id && id in n.inputs
    case StepLoop(id) => exists p :: Chain(nodes, p) && |p| > 1 && p[0] == id && p[|p| - 1] == id
    case Unreachable => exists n :: n in nodes && !IsReadFrom(nodes, terminal, n.id)
  }

  lemma {:induction false} NextNode(nodes: seq<FlowNode>, i: nat)
    requires i < |nodes|
    ensures nodes[i..] != [] && nodes[i..][0] == nodes[i] && nodes[i..][1..] == nodes[i + 1..]
    ensures Ids(nodes[..i + 1]) == Ids(nodes[..i]) + {nodes[i].id}
  {
    assert nodes[..i + 1][..i] == nodes[..i];
  }

  /** The first step that fails, and what it fails over the ids before it. */
  lemma {:induction false} NodesSay(rule: ParamRule, nodes: seq<FlowNode>, i: nat) returns (k: nat)
    requires i <= |nodes| && CheckNodes(rule, nodes[i..], Ids(nodes[..i])).Some?
    ensures i <= k < |nodes|
    ensures CheckNode(rule, nodes[k], Ids(nodes[..k])) == CheckNodes(rule, nodes[i..], Ids(nodes[..i]))
    decreases |nodes| - i
  {
    hide Ids, CheckNode;
    NextNode(nodes, i);
    if CheckNode(rule, nodes[i], Ids(nodes[..i])).Some? {
      k := i;
    } else {
      k := NodesSay(rule, nodes, i + 1);
    }
  }

  lemma {:induction false} NodeSays(rule: ParamRule, nodes: seq<FlowNode>, terminal: string, k: nat)
    requires k < |nodes| && CheckNode(rule, nodes[k], Ids(nodes[..k])).Some?
    ensures FlowSaysTrue(rule, nodes, terminal, CheckNode(rule, nodes[k], Ids(nodes[..k])).value)
  {
    var n := nodes[k];
    assert n in nodes && HasStep(nodes, n.id);
    PassedExactly(rule, n, Normalised(rule, n));
    if NodeIdOk(n.id) && n.id in Ids(nodes[..k]) {
      HasStepExactly(nodes[..k], n.id);
      var i :| 0 <= i < k && nodes[..k][i].id == n.id;
      assert nodes[i].id == n.id && nodes[k].id == n.id;
    } else if !NodeIdOk(n.id) {
      PlainIdExactly(n.id);
    } else if Arity(n.kind).None? {
      assert forall m: nat :: !Takes(n.kind, m);
    }
  }

  lemma {:induction false} PlainIdExactly(id: string)
    ensures NodeIdOk(id) <==> NamedPlainly(id)
  {
    var s := DollarTrim(id);
    if NodeIdOk(id) {
      forall i | 0 <= i < |s|
        ensures 'a' <= s[i] <= 'z' || '0' <= s[i] <= '9' || s[i] == '_'
      {
        assert IdChar(s[i]);
      }
    }
  }

  lemma {:induction false} EdgesSay(nodes: seq<FlowNode>, ids: set<string>) returns (n: FlowNode)
    requires CheckEdges(nodes, ids).Some?
    ensures n in nodes && CheckEdges(nodes, ids) == CheckInputs(n.id, n.inputs, ids)
  {
    if CheckInputs(nodes[0].id, nodes[0].inputs, ids).Some? {
      n := nodes[0];
    } else {
      n := EdgesSay(nodes[1..], ids);
    }
  }

  lemma {:induction false} FlowInputsSay(id: string, inputs: seq<string>, ids: set<string>)
    requires CheckInputs(id, inputs, ids).Some?
    ensures match CheckInputs(id, inputs, ids).value
            case UnresolvedInput(x, input) => x == id && input in inputs && input !in ids
            case SelfInput(x) => x == id && id in inputs
            case _ => false
  {
    if inputs[0] in ids && inputs[0] != id {
      FlowInputsSay(id, inputs[1..], ids);
    }
  }

  lemma {:induction false} ShapeSays(rule: ParamRule, nodes: seq<FlowNode>, terminal: string)
    requires DistinctIds(nodes) && terminal in Ids(nodes) && CheckShape(nodes, terminal).Some?
    ensures FlowSaysTrue(rule, nodes, terminal, CheckShape(nodes, terminal).value)
  {
    var g := FlowGraph(nodes);
    if CheckEdges(nodes, Ids(nodes)).Some? {
      var n := EdgesSay(nodes, Ids(nodes));
      FlowInputsSay(n.id, n.inputs, Ids(nodes));
      match CheckInputs(n.id, n.inputs, Ids(nodes)).value {
        case UnresolvedInput(_, input) => HasStepExactly(nodes, input);
        case _ =>
      }
    } else {
      WalkStops(g, terminal);
      WalkExact(g, terminal);
      match WalkFrom(g, terminal)
      case Err(stop) => LoopSays(nodes, terminal, stop);
      case Ok(w) =>
        var id :| id in Ids(nodes) && id !in w.state.Keys;
        var n := IdsOwner(nodes, id);
        ReadFrom(nodes, terminal, id);
    }
  }

  lemma {:induction false} LoopSays(nodes: seq<FlowNode>, terminal: string, stop: Stop)
    requires DistinctIds(nodes) && terminal in Ids(nodes) && CheckEdges(nodes, Ids(nodes)).None?
    requires StopIsTrue(FlowGraph(nodes), terminal, stop)
    ensures exists p :: Chain(nodes, p) && |p| > 1 && p[0] == stop.id && p[|p| - 1] == stop.id
  {
    var g := FlowGraph(nodes);
    CheckEdgesExact(nodes, Ids(nodes));
    match stop
    case Missing(x, wanted) =>
    case Loop(x, wanted) =>
      hide FlowGraph, DistinctIds, Ids;
      var p := LoopPath(g, x, wanted);
      ChainExactly(nodes, p);
  }

  lemma {:induction false} LoopPath(g: Graph, x: string, wanted: string) returns (p: seq<string>)
    requires Edge(g, wanted, x) && Reaches(g, x, wanted)
    ensures IsPath(g, p) && |p| > 1 && p[0] == x && p[|p| - 1] == x
  {
    var q :| PathBetween(g, q, x, wanted);
    var edge := [wanted, x];
    assert edge[1..] == [x];
    PathAppend(g, q, edge);
    p := q + edge[1..];
  }

  /** Nothing that is said of the normalised steps depends on their parameters. */
  lemma {:induction false} SaidOfNormal(rule: ParamRule, nodes: seq<FlowNode>, terminal: string, e: FlowRefusal)
    requires FlowSaysTrue(rule, Normal(rule, nodes), terminal, e)
    requires e.UnresolvedInput? || e.SelfInput? || e.StepLoop? || e.Unreachable?
    ensures FlowSaysTrue(rule, nodes, terminal, e)
  {
    var r := Normal(rule, nodes);
    forall u, v
      ensures Feeding(r, u, v) <==> Feeding(nodes, u, v)
      ensures HasStep(r, u) <==> HasStep(nodes, u)
    {
      SameFeeding(rule, nodes, u, v);
    }
    if e.StepLoop? {
      var p :| Chain(r, p) && |p| > 1 && p[0] == e.id && p[|p| - 1] == e.id;
      assert Chain(nodes, p);
    } else {
      var n :| n in r && (if e.Unreachable? then !IsReadFrom(r, terminal, n.id)
                          else n.id == e.id && (if e.SelfInput? then e.id else e.input) in n.inputs);
      var i :| 0 <= i < |r| && r[i] == n;
      assert nodes[i] in nodes && nodes[i].id == n.id && nodes[i].inputs == n.inputs;
      if e.Unreachable? && IsReadFrom(nodes, terminal, n.id) {
        var p :| ChainBetween(nodes, p, terminal, n.id);
        assert ChainBetween(r, p, terminal, n.id);
      }
    }
  }

  lemma {:induction false} SameFeeding(rule: ParamRule, nodes: seq<FlowNode>, u: string, v: string)
    ensures Feeding(Normal(rule, nodes), u, v) <==> Feeding(nodes, u, v)
    ensures HasStep(Normal(rule, nodes), u) <==> HasStep(nodes, u)
  {
    var r := Normal(rule, nodes);
    assert forall i :: 0 <= i < |nodes| ==> r[i].id == nodes[i].id && r[i].inputs == nodes[i].inputs;
  }

  /** Whatever Tier A answers when it refuses is so of the steps as they were handed in. */
  lemma {:induction false} FlowRefusalsAreTrue(rule: ParamRule, nodes: seq<FlowNode>, terminal: string)
    requires FromJson(rule, nodes, terminal).Err?
    ensures FlowSaysTrue(rule, nodes, terminal, FromJson(rule, nodes, terminal).error)
  {
    if nodes != [] {
      if CheckNodes(rule, nodes, {}).Some? {
        assert nodes[0..] == nodes && nodes[..0] == [];
        var k := NodesSay(rule, nodes, 0);
        NodeSays(rule, nodes, terminal, k);
      } else if terminal !in Ids(nodes) {
        HasStepExactly(nodes, terminal);
      } else {
        ShapeRefusal(rule, nodes, terminal);
      }
    }
  }

  lemma {:induction false} ShapeRefusal(rule: ParamRule, nodes: seq<FlowNode>, terminal: string)
    requires CheckNodes(rule, nodes, {}).None? && terminal in Ids(nodes)
    requires CheckShape(Normal(rule, nodes), terminal).Some?
    ensures FlowSaysTrue(rule, nodes, terminal, CheckShape(Normal(rule, nodes), terminal).value)
  {
    var r := Normal(rule, nodes);
    NormalKeepsIds(rule, nodes);
    NormalKeepsDistinctness(rule, nodes);
    CheckNodesExact(rule, nodes, {});
    ShapeKinds(r, terminal);
    hide CheckShape, CheckNodes, FlowSaysTrue, Normal, Ids;
    ShapeSays(rule, r, terminal);
    SaidOfNormal(rule, nodes, terminal, CheckShape(r, terminal).value);
  }

  lemma {:induction false} ShapeKinds(nodes: seq<FlowNode>, terminal: string)
    requires CheckShape(nodes, terminal).Some?
    ensures var e := CheckShape(nodes, terminal).value;
            e.UnresolvedInput? || e.SelfInput? || e.StepLoop? || e.Unreachable?
  {
    if CheckEdges(nodes, Ids(nodes)).Some? {
      var n := EdgesSay(nodes, Ids(nodes));
      FlowInputsSay(n.id, n.inputs, Ids(nodes));
    }
  }
}
