/**
 What the cell compiler does with the cells as they were submitted: which it accepts, and what each node of the
 compiled flow carries of the step it came from.
 */
module RawCells {
  import opened Common
  import opened Graphs
  import opened FlowIR
  import opened Cells
  import opened CellMeaning

  // ----- the fragment is the submitted one -----

  /** A list of objects reads as itself, and any other list not at all. */
  lemma {:induction false} ObjectsExactly(nodes: seq<Option<Step>>, steps: seq<Step>)
    ensures Objects(nodes) == Some(steps) <==>
            |steps| == |nodes| && forall i :: 0 <= i < |nodes| ==> nodes[i] == Some(steps[i])
  {
    if nodes == [] {
    } else if steps == [] {
    } else {
      ObjectsExactly(nodes[1..], steps[1..]);
      assert steps == [steps[0]] + steps[1..];
      if |steps| == |nodes| && forall i :: 0 <= i < |nodes| ==> nodes[i] == Some(steps[i]) {
        assert forall i :: 0 <= i < |nodes[1..]| ==> nodes[1..][i] == nodes[i + 1] && steps[1..][i] == steps[i + 1];
      }
    }
  }

  /** The submitted flow has this many steps, all of them objects, and this terminal. */
  predicate Submits(cell: Cell, steps: seq<Step>, terminal: string) {
    && cell.flow.Some? && cell.flow.value.nodes.Some? && cell.flow.value.terminal == Some(terminal)
    && |steps| == |cell.flow.value.nodes.value| > 0
    && forall i :: 0 <= i < |steps| ==> cell.flow.value.nodes.value[i] == Some(steps[i])
  }

  /** A cell's fragment is exactly the steps and the terminal that were submitted. */
  lemma FragmentExactly(cell: Cell, steps: seq<Step>, terminal: string)
    ensures CellFragment(cell) == Ok(Fragment(steps, terminal)) <==> Submits(cell, steps, terminal)
  {
    if cell.flow.Some? && cell.flow.value.nodes.Some? {
      ObjectsExactly(cell.flow.value.nodes.value, steps);
    }
  }

  lemma FragmentIsSubmitted(cell: Cell)
    requires CellFragment(cell).Ok?
    ensures Submits(cell, CellFragment(cell).value.steps, CellFragment(cell).value.terminal)
  {
    var f := CellFragment(cell).value;
    FragmentExactly(cell, f.steps, f.terminal);
  }

  // ----- which cells are sound -----

  /** Lower-case letters, digits and underscores, one to 31 of them. */
  predicate PlainName(s: string) {
    1 <= |s| <= 31 && forall i :: 0 <= i < |s| ==> 'a' <= s[i] <= 'z' || '0' <= s[i] <= '9' || s[i] == '_'
  }

  /** A plain name, and perhaps one newline at the end that the pattern lets by. */
  predicate StepName(id: string) {
    PlainName(id) || (|id| > 0 && id[|id| - 1] == '\n' && PlainName(id[..|id| - 1]))
  }

  lemma {:induction false} StepNameExactly(id: string)
    ensures StepIdOk(id) <==> StepName(id)
  {
    var s := DollarTrim(id);
    if StepIdOk(id) {
      forall i | 0 <= i < |s|
        ensures 'a' <= s[i] <= 'z' || '0' <= s[i] <= '9' || s[i] == '_'
      {
        assert IdChar(s[i]);
      }
    }
  }

  /** An input of a step: another step of the same cell, or `cell:` and a declared, readable shaping cell. */
  ghost predicate InputReads(book: Book, cell: Cell, steps: seq<Step>, input: string) {
    if |input| >= 5 && input[..5] == "cell:" then
      var up := input[5..];
      up in cell.inputs && up in book && exists others, t :: Submits(book[up], others, t)
    else exists j :: 0 <= j < |steps| && steps[j].id == Some(input)
  }

  /** Some step lists `cell:` and this id. */
  predicate Uses(steps: seq<Step>, up: string) {
    exists i :: 0 <= i < |steps| && steps[i].inputs.Some? && "cell:" + up in steps[i].inputs.value
  }

  /** Every step is named and lists inputs it may read, and every declared cell is read by one of them. */
  ghost predicate SubmitsSound(book: Book, cell: Cell, steps: seq<Step>) {
    && (forall i :: 0 <= i < |steps| ==>
          && steps[i].id.Some? && StepName(steps[i].id.value) && steps[i].inputs.Some?
          && forall input :: input in steps[i].inputs.value ==> InputReads(book, cell, steps, input))
    && forall up :: up in cell.inputs ==> Uses(steps, up)
  }

  lemma InputReadsExactly(book: Book, cell: Cell, steps: seq<Step>, input: string)
    ensures InputSound(book, cell, LocalIds(steps), input) <==> InputReads(book, cell, steps, input)
  {
    assert IsCellRef(input) <==> |input| >= 5 && input[..5] == "cell:";
    if IsCellRef(input) {
      var up := RefOf(input);
      if up in book {
        if CellFragment(book[up]).Ok? {
          FragmentIsSubmitted(book[up]);
        }
        if others, t :| Submits(book[up], others, t) {
          FragmentExactly(book[up], others, t);
        }
      }
    } else {
      if input in LocalIds(steps) {
        var s :| s in steps && s.id == Some(input);
      }
      if j :| 0 <= j < |steps| && steps[j].id == Some(input) {
        assert steps[j] in steps;
      }
    }
  }

  lemma ReferencedExactly(steps: seq<Step>, up: string)
    ensures up in Referenced(steps) <==> Uses(steps, up)
  {
    if up in Referenced(steps) {
      var s, input :| s in steps && s.inputs.Some? && input in s.inputs.value && IsCellRef(input) && RefOf(input) == up;
      var i :| 0 <= i < |steps| && steps[i] == s;
      assert input == "cell:" + up;
    }
    if i :| 0 <= i < |steps| && steps[i].inputs.Some? && "cell:" + up in steps[i].inputs.value {
      var input := "cell:" + up;
      assert IsCellRef(input) && RefOf(input) == up;
      assert steps[i] in steps;
    }
  }

  lemma StepReadsExactly(book: Book, cell: Cell, steps: seq<Step>, s: Step)
    ensures StepSound(book, cell, LocalIds(steps), s) <==>
            && s.id.Some? && StepName(s.id.value) && s.inputs.Some?
            && forall input :: input in s.inputs.value ==> InputReads(book, cell, steps, input)
  {
    if s.id.Some? {
      StepNameExactly(s.id.value);
    }
    forall input: string
      ensures InputSound(book, cell, LocalIds(steps), input) <==> InputReads(book, cell, steps, input)
    {
      InputReadsExactly(book, cell, steps, input);
    }
  }

  /** References beyond the declared cells are already ruled out, so "used exactly" comes to "each one used". */
  lemma DeclaredAndUsed(book: Book, cell: Cell, steps: seq<Step>)
    requires forall s :: s in steps ==> StepSound(book, cell, LocalIds(steps), s)
    ensures Referenced(steps) == Elements(cell.inputs) <==>
            forall up :: up in cell.inputs ==> Uses(steps, up)
  {
    forall up: string
      ensures up in Referenced(steps) <==> Uses(steps, up)
    {
      ReferencedExactly(steps, up);
    }
    forall up | up in Referenced(steps)
      ensures up in Elements(cell.inputs)
    {
      var s, input :| s in steps && s.inputs.Some? && input in s.inputs.value && IsCellRef(input) && RefOf(input) == up;
      assert InputSound(book, cell, LocalIds(steps), input);
    }
    assert Elements(cell.inputs) <= Referenced(steps) <==> forall up :: up in cell.inputs ==> up in Referenced(steps);
  }

  /** A cell is sound exactly when what was submitted says so. */
  lemma CellSoundExactly(book: Book, cell: Cell)
    ensures CellSound(book, cell) <==> exists steps, t :: Submits(cell, steps, t) && SubmitsSound(book, cell, steps)
  {
    forall steps, t | Submits(cell, steps, t)
      ensures CellSound(book, cell) <==> SubmitsSound(book, cell, steps)
    {
      FragmentExactly(cell, steps, t);
      SoundAsSubmitted(book, cell, steps);
    }
    if CellSound(book, cell) {
      FragmentIsSubmitted(cell);
    }
  }

  lemma SoundAsSubmitted(book: Book, cell: Cell, steps: seq<Step>)
    ensures (forall s :: s in steps ==> StepSound(book, cell, LocalIds(steps), s))
            && Referenced(steps) == Elements(cell.inputs)
            <==> SubmitsSound(book, cell, steps)
  {
    forall s: Step
      ensures StepSound(book, cell, LocalIds(steps), s) <==>
              && s.id.Some? && StepName(s.id.value) && s.inputs.Some?
              && forall input :: input in s.inputs.value ==> InputReads(book, cell, steps, input)
    {
      StepReadsExactly(book, cell, steps, s);
    }
    assert (forall s :: s in steps ==> StepSound(book, cell, LocalIds(steps), s)) <==>
           forall i :: 0 <= i < |steps| ==> StepSound(book, cell, LocalIds(steps), steps[i]);
    if forall s :: s in steps ==> StepSound(book, cell, LocalIds(steps), s) {
      DeclaredAndUsed(book, cell, steps);
    }
  }

  // ----- what a compiled flow carries -----

  /** A submitted input after compilation: the upstream cell's submitted terminal, or the same cell's step. */
  ghost predicate ReadsAs(book: Book, cell: string, input: string, flat: string) {
    if |input| >= 5 && input[..5] == "cell:" then
      exists steps, t :: input[5..] in book && Submits(book[input[5..]], steps, t) && flat == input[5..] + "_" + t
    else flat == cell + "_" + input
  }

  /** The node is the step: its id behind the cell's, its own kind and normalised parameters, its inputs in order. */
  ghost predicate Carries(rule: ParamRule, book: Book, cell: string, s: Step, n: FlowNode) {
    && s.id.Some? && s.inputs.Some?
    && n.id == cell + "_" + s.id.value && n.kind == s.kind && rule(s.kind, s.params) == Some(n.params)
    && |n.inputs| == |s.inputs.value|
    && forall k :: 0 <= k < |n.inputs| ==> ReadsAs(book, cell, s.inputs.value[k], n.inputs[k])
  }

  lemma ReadsAsFlat(book: Book, cell: string, input: string)
    requires cell in book && InputSound(book, book[cell], LocalIds(StepsOf(book, cell)), input)
    ensures ReadsAs(book, cell, input, FlatRef(book, cell, input))
  {
    assert IsCellRef(input) <==> |input| >= 5 && input[..5] == "cell:";
    if IsCellRef(input) {
      FragmentIsSubmitted(book[RefOf(input)]);
    }
  }

  lemma CarriesStep(rule: ParamRule, book: Book, order: seq<string>, cell: string, s: Step)
    requires Compiled(rule, book, order) && cell in order && s in StepsOf(book, cell)
    ensures Carries(rule, book, cell, s, Normalised(rule, FlatStep(book, cell, s)))
  {
    StepNode(rule, book, order, cell, s);
    assert StepSound(book, book[cell], LocalIds(StepsOf(book, cell)), s);
    forall k | 0 <= k < |s.inputs.value|
      ensures ReadsAs(book, cell, s.inputs.value[k], FlatRefs(book, cell, s.inputs.value)[k])
    {
      assert InputSound(book, book[cell], LocalIds(StepsOf(book, cell)), s.inputs.value[k]);
      ReadsAsFlat(book, cell, s.inputs.value[k]);
    }
  }

  /** Step i of the cell, as submitted. */
  ghost predicate SubmittedStep(book: Book, cell: string, i: nat, s: Step) {
    && cell in book && book[cell].flow.Some? && book[cell].flow.value.nodes.Some?
    && i < |book[cell].flow.value.nodes.value| && book[cell].flow.value.nodes.value[i] == Some(s)
  }

  lemma SubmittedIsStep(book: Book, cell: string, i: nat, s: Step)
    requires cell in book && CellFragment(book[cell]).Ok? && SubmittedStep(book, cell, i, s)
    ensures s in StepsOf(book, cell)
  {
    FragmentIsSubmitted(book[cell]);
    assert StepsOf(book, cell)[i] == s;
  }

  lemma StepIsSubmitted(book: Book, cell: string, s: Step)
    requires s in StepsOf(book, cell)
    ensures exists i :: SubmittedStep(book, cell, i, s)
  {
    FragmentIsSubmitted(book[cell]);
    var i :| 0 <= i < |StepsOf(book, cell)| && StepsOf(book, cell)[i] == s;
    assert SubmittedStep(book, cell, i, s);
  }

  /** Every step of the cell and of everything it reads is one of the nodes. */
  ghost predicate StepsAreNodes(rule: ParamRule, book: Book, target: string, nodes: seq<FlowNode>) {
    forall cell, i, s :: Reaches(CellGraph(book), target, cell) && SubmittedStep(book, cell, i, s) ==>
      exists n :: n in nodes && Carries(rule, book, cell, s, n)
  }

  /** Every node is a step of the cell or of something it reads. */
  ghost predicate NodesAreSteps(rule: ParamRule, book: Book, target: string, nodes: seq<FlowNode>) {
    forall n :: n in nodes ==>
      exists cell, i, s ::
        Reaches(CellGraph(book), target, cell) && SubmittedStep(book, cell, i, s) && Carries(rule, book, cell, s, n)
  }

  /**
   What compiling does to the cells as they were submitted: every step of the target and of everything it reads is
   one node of the flow, carrying that step's own kind, parameters and inputs; the flow has no other node; and its
   terminal is the target's.
   */
  lemma {:induction false} CompiledExactly(rule: ParamRule, cells: seq<Cell>, target: Cell)
    requires target.id in Index(cells) && Index(cells)[target.id] == target && Closure(rule, cells, target).Ok?
    ensures var book, flow := Index(cells), Closure(rule, cells, target).value;
            && StepsAreNodes(rule, book, target.id, flow.nodes) && NodesAreSteps(rule, book, target.id, flow.nodes)
            && DistinctIds(flow.nodes)
            && exists steps, t :: Submits(target, steps, t) && flow.terminal == target.id + "_" + t
  {
    var book := Index(cells);
    var order := Ancestors(book, target.id);
    ClosureCompiles(rule, cells, target);
    ClosureExact(rule, cells, target);
    AncestorsExact(book, target.id);
    assert CellSound(book, target);
    FragmentIsSubmitted(target);
    hide StepsAreNodes, NodesAreSteps;
    CompiledSteps(rule, book, order, target.id);
  }

  lemma {:induction false} CompiledSteps(rule: ParamRule, book: Book, order: seq<string>, target: string)
    requires Compiled(rule, book, order)
    requires forall cell :: Reaches(CellGraph(book), target, cell) <==> cell in order
    ensures StepsAreNodes(rule, book, target, Normal(rule, Flatten(book, order)))
    ensures NodesAreSteps(rule, book, target, Normal(rule, Flatten(book, order)))
  {
    hide Compiled, Flatten, Normal, Reaches, SubmittedStep, Carries;
    var nodes := Normal(rule, Flatten(book, order));
    forall cell, i, s | Reaches(CellGraph(book), target, cell) && SubmittedStep(book, cell, i, s)
      ensures exists n :: n in nodes && Carries(rule, book, cell, s, n)
    {
      NodeOfStep(rule, book, order, cell, i, s);
    }
    forall n | n in nodes
      ensures exists cell, i, s :: && Reaches(CellGraph(book), target, cell) && SubmittedStep(book, cell, i, s)
                                   && Carries(rule, book, cell, s, n)
    {
      var cell, i, s := StepOfNode(rule, book, order, n);
    }
  }

  lemma {:induction false} NodeOfStep(rule: ParamRule, book: Book, order: seq<string>, cell: string, i: nat, s: Step)
    requires Compiled(rule, book, order) && cell in order && SubmittedStep(book, cell, i, s)
    ensures exists n :: n in Normal(rule, Flatten(book, order)) && Carries(rule, book, cell, s, n)
  {
    assert CellSound(book, book[cell]);
    SubmittedIsStep(book, cell, i, s);
    CarriesStep(rule, book, order, cell, s);
    FlattenHas(book, order, cell, s);
    var flat := Flatten(book, order);
    var k :| 0 <= k < |flat| && flat[k] == FlatStep(book, cell, s);
    assert Normal(rule, flat)[k] == Normalised(rule, FlatStep(book, cell, s));
  }

  lemma StepOfNode(rule: ParamRule, book: Book, order: seq<string>, n: FlowNode)
    returns (cell: string, i: nat, s: Step)
    requires Compiled(rule, book, order) && n in Normal(rule, Flatten(book, order))
    ensures cell in order && SubmittedStep(book, cell, i, s) && Carries(rule, book, cell, s, n)
  {
    var flat := Flatten(book, order);
    var k :| 0 <= k < |flat| && Normal(rule, flat)[k] == n;
    cell, s := FlattenOwner(book, order, flat[k]);
    StepIsSubmitted(book, cell, s);
    i :| SubmittedStep(book, cell, i, s);
    CarriesStep(rule, book, order, cell, s);
  }

  /**
   Acceptance, in the same terms: a cell compiles if and only if no missing cell, no SQL cell and no loop can be
   reached from it, everything it can reach was submitted sound, and Tier A accepts what comes of it.
   */
  lemma {:induction false} AcceptedExactly(rule: ParamRule, cells: seq<Cell>, target: Cell)
    requires target.id in Index(cells) && Index(cells)[target.id] == target
    ensures var book := Index(cells);
            var g := CellGraph(book);
            Closure(rule, cells, target).Ok? <==>
            && !Flawed(g, target.id)
            && (forall cell :: Reaches(g, target.id, cell) ==>
                  && cell in book
                  && exists steps, t :: Submits(book[cell], steps, t) && SubmitsSound(book, book[cell], steps))
            && FromJson(rule, Flatten(book, Ancestors(book, target.id)), TerminalId(target)).Ok?
  {
    var book := Index(cells);
    ClosureExact(rule, cells, target);
    forall cell | cell in book
      ensures CellSound(book, book[cell]) <==>
              exists steps, t :: Submits(book[cell], steps, t) && SubmitsSound(book, book[cell], steps)
    {
      CellSoundExactly(book, book[cell]);
    }
  }
}
