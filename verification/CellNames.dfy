/** When `{cell}_{step}` keeps steps apart, and what happens when a terminal is not local. */
module CellNames {
  import opened Common
  import opened Graphs
  import opened FlowIR
  import opened Cells
  import opened CellMeaning

  /** Server-assigned ids: `c1`, `c2`, ... */
  function ServerId(n: nat): string {
    Label("c", n)
  }

  /** Names made of an underscore-free prefix, an underscore and anything split only one way. */
  lemma {:induction false} SplitAtUnderscore(a: string, s: string, b: string, t: string)
    requires '_' !in a && '_' !in b && Namespaced(a, s) == Namespaced(b, t)
    ensures a == b && s == t
  {
    var x := Namespaced(a, s);
    assert x[|a|] == '_' && x[|b|] == '_';
    assert forall i :: 0 <= i < |a| ==> x[i] == a[i] && a[i] in a;
    assert forall i :: 0 <= i < |b| ==> x[i] == b[i] && b[i] in b;
    assert |a| == |b|;
    assert x[..|a|] == a && x[..|b|] == b;
    assert x[|a| + 1..] == s && x[|b| + 1..] == t;
  }

  lemma ServerIdHasNoUnderscore(n: nat)
    ensures '_' !in ServerId(n)
  {
    forall i | 0 <= i < |ServerId(n)|
      ensures ServerId(n)[i] != '_'
    {
      if i > 0 {
        assert IsDigit(NatText(n)[i - 1]);
      }
    }
  }

  /** The namespace is injective on server-assigned cell ids. */
  lemma ServerIdsNamespace(m: nat, s: string, n: nat, t: string)
    requires Namespaced(ServerId(m), s) == Namespaced(ServerId(n), t)
    ensures m == n && s == t
  {
    ServerIdHasNoUnderscore(m);
    ServerIdHasNoUnderscore(n);
    SplitAtUnderscore(ServerId(m), s, ServerId(n), t);
    assert ServerId(m)[1..] == NatText(m) && ServerId(n)[1..] == NatText(n);
    NatTextInjective(m, n);
  }

  ghost predicate StepIdsDistinct(steps: seq<Step>) {
    forall i, j :: 0 <= i < j < |steps| ==> steps[i].id.Some? && steps[j].id.Some? && steps[i].id != steps[j].id
  }

  /** So an analysis whose cells all carry server ids never trips Tier A's duplicate check across cells. */
  lemma {:induction false} ServerIdsNeverCollide(book: Book, order: seq<string>)
    requires Distinct(order)
    requires forall c :: c in order ==> '_' !in c && StepIdsDistinct(StepsOf(book, c))
    ensures DistinctIds(Flatten(book, order))
  {
    if order != [] {
      var c := order[0];
      var head := FlatSteps(book, c, StepsOf(book, c));
      var tail := Flatten(book, order[1..]);
      ServerIdsNeverCollide(book, order[1..]);
      forall i, j | 0 <= i < j < |head|
        ensures head[i].id != head[j].id
      {
        if head[i].id == head[j].id {
          SplitAtUnderscore(c, StepsOf(book, c)[i].id.value, c, StepsOf(book, c)[j].id.value);
        }
      }
      forall m, n | m in head && n in tail
        ensures m.id != n.id
      {
        HeadTailApart(book, order, m, n);
      }
      DistinctConcat(head, tail);
    }
  }

  lemma {:induction false} HeadTailApart(book: Book, order: seq<string>, m: FlowNode, n: FlowNode)
    requires order != [] && Distinct(order) && forall c :: c in order ==> '_' !in c
    requires m in FlatSteps(book, order[0], StepsOf(book, order[0])) && n in Flatten(book, order[1..])
    ensures m.id != n.id
  {
    var head := FlatSteps(book, order[0], StepsOf(book, order[0]));
    var i :| 0 <= i < |head| && head[i] == m;
    var d, t := FlattenOwner(book, order[1..], n);
    var s := StepsOf(book, order[0])[i];
    var j :| 0 <= j < |order[1..]| && order[1..][j] == d;
    assert order[0] != order[j + 1];
    if m.id == n.id {
      SplitAtUnderscore(order[0], if s.id.Some? then s.id.value else "", d, if t.id.Some? then t.id.value else "");
    }
  }

  lemma DistinctConcat(a: seq<FlowNode>, b: seq<FlowNode>)
    requires DistinctIds(a) && DistinctIds(b) && forall m, n :: m in a && n in b ==> m.id != n.id
    ensures DistinctIds(a + b)
  {
    var all := a + b;
    forall i, j | 0 <= i < j < |all|
      ensures all[i].id != all[j].id
    {
      if i >= |a| {
        assert all[i] == b[i - |a|] && all[j] == b[j - |a|];
      } else if j >= |a| {
        assert all[i] in a && all[j] in b;
      }
    }
  }

  // ----- terminals that cross -----

  function OneStepCell(id: string, step: Step, terminal: string, inputs: seq<string>): Cell {
    Cell(id, "", "", Some(RawFlow(Some([Some(step)]), Some(terminal))), inputs, None, "", [], "")
  }

  const STEP_A := Step(Some("b_t"), "source", Some([]), "left")
  const STEP_AB := Step(Some("n"), "source", Some([]), "right")
  const STEP_Z := Step(Some("s"), "join", Some(["cell:a", "cell:a_b"]), "on")
  const CELL_A := OneStepCell("a", STEP_A, "b_n", [])
  const CELL_AB := OneStepCell("a_b", STEP_AB, "t", [])
  const CELL_Z := OneStepCell("z", STEP_Z, "s", ["a", "a_b"])

  const ANY_PARAMS: ParamRule := (kind: string, params: string) => Some(params)

  const CELLS := [CELL_A, CELL_AB, CELL_Z]
  const NODES := [FlowNode("a_b_t", "source", [], "left"), FlowNode("a_b_n", "source", [], "right"),
                  FlowNode("z_s", "join", ["a_b_n", "a_b_t"], "on")]

  ghost predicate CrossedBook(book: Book) {
    && book.Keys == {"a", "a_b", "z"}
    && book["a"] == CELL_A && book["a_b"] == CELL_AB && book["z"] == CELL_Z
  }

  /**
   The compiler does not check that a terminal is local, and it matters: these three cells compile, yet
   cells `a` and `a_b` have no result of their own, and the join reads their two sources the other way round.
   */
  lemma TerminalsCanCross()
    ensures Closure(ANY_PARAMS, CELLS, CELL_Z) == Ok(FlowDef("z_s", NODES))
    ensures !TerminalLocal(Index(CELLS), "a") && !TerminalLocal(Index(CELLS), "a_b")
  {
    var book := Index(CELLS);
    CrossedIndex();
    CrossedFragments(book);
    CrossedCellGraph(book);
    CrossedWalk(CellGraph(book));
    CrossedEmission(book);
    CrossedTierA();
  }

  lemma CrossedIndex()
    ensures CrossedBook(Index(CELLS))
  {
    assert CELLS[..2] == [CELL_A, CELL_AB] && [CELL_A, CELL_AB][..1] == [CELL_A] && [CELL_A][..0] == [];
    assert Index([CELL_A]) == map["a" := CELL_A];
    assert Index([CELL_A, CELL_AB]) == map["a" := CELL_A, "a_b" := CELL_AB];
  }

  lemma CrossedCellGraph(book: Book)
    requires CrossedBook(book)
    ensures CellGraph(book) == map["a" := [], "a_b" := [], "z" := ["a", "a_b"]]
  {
  }

  lemma OneObject(s: Step)
    ensures Objects([Some(s)]) == Some([s])
  {
    assert [Some(s)][1..] == [] && [s] + [] == [s];
  }

  lemma CrossedFragments(book: Book)
    requires CrossedBook(book)
    ensures CellFragment(CELL_A) == Ok(Fragment([STEP_A], "b_n"))
    ensures CellFragment(CELL_AB) == Ok(Fragment([STEP_AB], "t"))
    ensures CellFragment(CELL_Z) == Ok(Fragment([STEP_Z], "s"))
    ensures !TerminalLocal(book, "a") && !TerminalLocal(book, "a_b")
    ensures TerminalId(CELL_Z) == "z_s"
  {
    OneObject(STEP_A);
    OneObject(STEP_AB);
    OneObject(STEP_Z);
    assert StepsOf(book, "a") == [STEP_A] && StepsOf(book, "a_b") == [STEP_AB];
    assert FindStep([STEP_A], "b_n").None? by { assert [STEP_A][1..] == []; }
    assert FindStep([STEP_AB], "t").None? by { assert [STEP_AB][1..] == []; }
    assert Namespaced("z", "s") == "z_s";
  }

  lemma CrossedWalk(g: Graph)
    requires g == map["a" := [], "a_b" := [], "z" := ["a", "a_b"]]
    ensures WalkFrom(g, "z").Ok? && WalkFrom(g, "z").value.order == ["a", "a_b", "z"]
  {
    var w0 := Walk(map["z" := Visiting], []);
    var w1 := Walk(w0.state["a" := Visiting]["a" := Done], ["a"]);
    var w2 := Walk(w1.state["a_b" := Visiting]["a_b" := Done], ["a", "a_b"]);
    assert Visit(g, "a", "z", w0) == Ok(w1) by {
      assert VisitAll(g, [], "a", w0.(state := w0.state["a" := Visiting]))
             == Ok(w0.(state := w0.state["a" := Visiting]));
      assert [] + ["a"] == ["a"];
    }
    assert Visit(g, "a_b", "z", w1) == Ok(w2) by {
      assert VisitAll(g, [], "a_b", w1.(state := w1.state["a_b" := Visiting]))
             == Ok(w1.(state := w1.state["a_b" := Visiting]));
      assert ["a"] + ["a_b"] == ["a", "a_b"];
    }
    assert ["a", "a_b"][1..] == ["a_b"] && ["a_b"][1..] == [];
    assert VisitAll(g, ["a_b"], "z", w1) == Ok(w2);
    assert VisitAll(g, ["a", "a_b"], "z", w0) == Ok(w2);
    assert map[]["z" := Visiting] == w0.state;
  }

  lemma OneStepEmits(book: Book, cell: Cell, s: Step, node: FlowNode)
    requires CellFragment(cell).Ok? && CellFragment(cell).value.steps == [s]
    requires EmitStep(book, cell, LocalIds([s]), s) == Ok(node) && Referenced([s]) == Elements(cell.inputs)
    ensures EmitCell(book, cell) == Ok([node])
  {
    assert [s][1..] == [] && [node] + [] == [node];
    assert EmitSteps(book, cell, LocalIds([s]), [s]) == Ok([node]);
  }

  lemma {:induction false} CrossedEmission(book: Book)
    requires CrossedBook(book)
    ensures EmitCells(book, ["a", "a_b", "z"]) == Ok(NODES)
  {
    CrossedFragments(book);
    assert Namespaced("a", "b_t") == "a_b_t" && Namespaced("a_b", "n") == "a_b_n";
    assert StepIdOk("b_t") && StepIdOk("n");
    OneStepEmits(book, CELL_A, STEP_A, NODES[0]);
    OneStepEmits(book, CELL_AB, STEP_AB, NODES[1]);
    CrossedJoin(book);
    assert ["a", "a_b", "z"][1..] == ["a_b", "z"] && ["a_b", "z"][1..] == ["z"] && ["z"][1..] == [];
    assert [NODES[2]] + [] == [NODES[2]] && [NODES[1]] + [NODES[2]] == [NODES[1], NODES[2]];
    assert [NODES[0]] + [NODES[1], NODES[2]] == NODES;
    assert EmitCells(book, ["z"]) == Ok([NODES[2]]);
    assert EmitCells(book, ["a_b", "z"]) == Ok([NODES[1], NODES[2]]);
  }

  lemma CrossedJoin(book: Book)
    requires CrossedBook(book)
    ensures EmitCell(book, CELL_Z) == Ok([NODES[2]])
  {
    CrossedFragments(book);
    var locals := LocalIds([STEP_Z]);
    var refs := ["cell:a", "cell:a_b"];
    assert "cell:a"[5..] == "a" && "cell:a_b"[5..] == "a_b";
    assert Namespaced("a", "b_n") == "a_b_n" && Namespaced("a_b", "t") == "a_b_t" && Namespaced("z", "s") == "z_s";
    assert ResolveInput(book, CELL_Z, locals, "s", "cell:a") == Ok("a_b_n");
    assert ResolveInput(book, CELL_Z, locals, "s", "cell:a_b") == Ok("a_b_t");
    assert refs[1..] == ["cell:a_b"] && ["cell:a_b"][1..] == [] && ["a_b_t"] + [] == ["a_b_t"];
    assert ["a_b_n"] + ["a_b_t"] == ["a_b_n", "a_b_t"];
    assert ResolveInputs(book, CELL_Z, locals, "s", ["cell:a_b"]) == Ok(["a_b_t"]);
    assert ResolveInputs(book, CELL_Z, locals, "s", refs) == Ok(["a_b_n", "a_b_t"]);
    assert StepIdOk("s");
    assert Referenced([STEP_Z]) == {"a", "a_b"} by {
      assert STEP_Z in [STEP_Z] && "cell:a" in refs && "cell:a_b" in refs;
    }
    assert Elements(["a", "a_b"]) == {"a", "a_b"};
    OneStepEmits(book, CELL_Z, STEP_Z, NODES[2]);
  }

  lemma CrossedTierA()
    ensures FromJson(ANY_PARAMS, NODES, "z_s") == Ok(FlowDef("z_s", NODES))
  {
    forall i | 0 <= i < |NODES|
      ensures NodeOk(ANY_PARAMS, NODES[i]) && Normalised(ANY_PARAMS, NODES[i]) == NODES[i]
    {
      assert NodeIdOk("a_b_t") && NodeIdOk("a_b_n") && NodeIdOk("z_s");
    }
    assert Normal(ANY_PARAMS, NODES) == NODES;
    CrossedWellFormed();
    FromJsonExact(ANY_PARAMS, NODES, "z_s");
  }

  lemma CrossedIds()
    ensures Ids(NODES) == {"a_b_t", "a_b_n", "z_s"}
    ensures FlowGraph(NODES) == map["a_b_t" := [], "a_b_n" := [], "z_s" := ["a_b_n", "a_b_t"]]
  {
    var two := [NODES[0], NODES[1]];
    assert NODES[..2] == two && two[..1] == [NODES[0]] && [NODES[0]][..0] == [];
    assert Ids([NODES[0]]) == {"a_b_t"};
    assert Ids(two) == {"a_b_t", "a_b_n"};
    assert ById([NODES[0]]) == map["a_b_t" := NODES[0]];
    assert ById(two) == map["a_b_t" := NODES[0], "a_b_n" := NODES[1]];
  }

  lemma CrossedAcyclic(g: Graph)
    requires g == map["a_b_t" := [], "a_b_n" := [], "z_s" := ["a_b_n", "a_b_t"]]
    ensures Acyclic(g)
    ensures forall id :: id in {"a_b_t", "a_b_n", "z_s"} ==> Reaches(g, "z_s", id)
  {
    var order := ["a_b_n", "a_b_t", "z_s"];
    assert order[..2] == ["a_b_n", "a_b_t"];
    assert Topological(g, order);
    forall u | u in g
      ensures !OnCycle(g, u)
    {
      TopologicalIsAcyclic(g, order, u);
    }
    ReachesSelf(g, "z_s");
    EdgeReaches(g, "z_s", "a_b_n");
    EdgeReaches(g, "z_s", "a_b_t");
  }

  predicate InsideThree(nodes: seq<FlowNode>) {
    && (forall n, i :: n in nodes && i in n.inputs ==> i in {"a_b_t", "a_b_n", "z_s"})
    && forall n :: n in nodes ==> n.id in {"a_b_t", "a_b_n", "z_s"}
  }

  lemma CrossedEdgesInside()
    ensures InsideThree(NODES)
    ensures DistinctIds(NODES)
  {
    assert NODES[0].id == "a_b_t" && NODES[1].id == "a_b_n" && NODES[2].id == "z_s";
    assert NODES[0].inputs == [] && NODES[1].inputs == [] && NODES[2].inputs == ["a_b_n", "a_b_t"];
  }

  lemma {:induction false} ThreeWellFormed(nodes: seq<FlowNode>, g: Graph)
    requires DistinctIds(nodes) && Ids(nodes) == {"a_b_t", "a_b_n", "z_s"} && FlowGraph(nodes) == g && Acyclic(g)
    requires InsideThree(nodes)
    requires forall id :: id in {"a_b_t", "a_b_n", "z_s"} ==> Reaches(g, "z_s", id)
    ensures WellFormed(nodes, "z_s")
  {
  }

  lemma CrossedWellFormed()
    ensures WellFormed(NODES, "z_s")
  {
    CrossedIds();
    var g := map["a_b_t" := [], "a_b_n" := [], "z_s" := ["a_b_n", "a_b_t"]];
    CrossedAcyclic(g);
    CrossedEdgesInside();
    ThreeWellFormed(NODES, g);
  }
}
