/**
 Save-time validation of an analysis (`_check_analysis_cells`): which cells an edit can affect, and why
 checking only those is as good as checking all.
 */
module Revalidation {
  import opened Common
  import opened Graphs
  import opened FlowIR
  import opened Cells

  /** Tier B for one caller and one schema: the columns a flow produces, or a refusal. */
  type Compiler = FlowDef -> Option<set<string>>

  predicate IdsDistinct(cells: seq<Cell>) {
    forall i, j :: 0 <= i < j < |cells| ==> cells[i].id != cells[j].id
  }

  lemma {:induction false} IndexFinds(cells: seq<Cell>, c: Cell)
    requires IdsDistinct(cells) && c in cells
    ensures c.id in Index(cells) && Index(cells)[c.id] == c
  {
    var k := |cells| - 1;
    if c != cells[k] {
      IndexFinds(cells[..k], c);
    }
  }

  predicate BindingsOk(cell: Cell, columns: set<string>) {
    && (cell.x != "" ==> cell.x in columns)
    && (cell.series != "" ==> cell.series in columns)
    && forall y :: y in cell.y && y != "" ==> y in columns
  }

  /** A shaping cell that still closes, compiles and binds its chart to columns it has. SQL cells are not checked. */
  predicate CellValid(rule: ParamRule, compile: Compiler, cells: seq<Cell>, cell: Cell) {
    cell.IsFlowCell() ==>
      && Closure(rule, cells, cell).Ok?
      && compile(Closure(rule, cells, cell).value).Some?
      && BindingsOk(cell, compile(Closure(rule, cells, cell).value).value)
  }

  predicate AllValid(rule: ParamRule, compile: Compiler, cells: seq<Cell>) {
    forall c {:trigger CellValid(rule, compile, cells, c)} :: c in cells ==> CellValid(rule, compile, cells, c)
  }

  /** Each cell with its declared inputs, shaping or not. */
  function Links(cells: seq<Cell>): Graph {
    var book := Index(cells);
    map id | id in book :: book[id].inputs
  }

  /** The cell is one of the changed ones or feeds, through any number of cells, on one. */
  ghost predicate DependsOn(cells: seq<Cell>, id: string, changed: set<string>) {
    exists ch :: ch in changed && Reaches(Links(cells), id, ch)
  }

  lemma DependsThroughInput(cells: seq<Cell>, c: Cell, i: string, changed: set<string>)
    requires IdsDistinct(cells) && c in cells && i in c.inputs && DependsOn(cells, i, changed)
    ensures DependsOn(cells, c.id, changed)
  {
    IndexFinds(cells, c);
    var ch :| ch in changed && Reaches(Links(cells), i, ch);
    EdgeThenReaches(Links(cells), c.id, i, ch);
  }

  /** Closed under "reads one of": nothing outside the set reads into it. */
  predicate Saturated(cells: seq<Cell>, s: set<string>) {
    forall c, i :: c in cells && i in c.inputs && i in s ==> c.id in s
  }

  lemma {:induction false} SaturatedKeepsPath(cells: seq<Cell>, s: set<string>, p: seq<string>)
    requires Saturated(cells, s) && IsPath(Links(cells), p) && p[|p| - 1] in s
    ensures p[0] in s
  {
    if |p| > 1 {
      SaturatedKeepsPath(cells, s, p[1..]);
      assert Index(cells)[p[0]] in cells;
    }
  }

  function IdSet(cells: seq<Cell>): set<string> {
    set c | c in cells :: c.id
  }

  /** One pass over the cells, adding each one that reads something already affected. */
  method GrowOnce(cells: seq<Cell>, ghost changed: set<string>, before: set<string>)
    returns (affected: set<string>, grew: bool)
    requires IdsDistinct(cells)
    requires forall id :: id in before ==> DependsOn(cells, id, changed)
    ensures before <= affected <= before + IdSet(cells)
    ensures forall id :: id in affected ==> DependsOn(cells, id, changed)
    ensures if grew then before < affected else affected == before && Saturated(cells, affected)
  {
    affected, grew := before, false;
    for k := 0 to |cells|
      invariant before <= affected <= before + IdSet(cells)
      invariant forall id :: id in affected ==> DependsOn(cells, id, changed)
      invariant if grew then before < affected else affected == before && Saturated(cells[..k], affected)
    {
      var cell := cells[k];
      assert cells[..k + 1] == cells[..k] + [cell];
      if cell.id in affected {
        continue;
      }
      if exists i :: i in cell.inputs && i in affected {
        ghost var i :| i in cell.inputs && i in affected;
        DependsThroughInput(cells, cell, i, changed);
        affected := affected + {cell.id};
        grew := true;
      }
    }
    assert cells[..|cells|] == cells;
  }

  lemma SaturatedHoldsDependents(cells: seq<Cell>, s: set<string>, changed: set<string>)
    requires Saturated(cells, s) && changed <= s
    ensures forall c :: c in cells && DependsOn(cells, c.id, changed) ==> c.id in s
  {
    forall c | c in cells && DependsOn(cells, c.id, changed)
      ensures c.id in s
    {
      var ch :| ch in changed && Reaches(Links(cells), c.id, ch);
      var p :| PathBetween(Links(cells), p, c.id, ch);
      SaturatedKeepsPath(cells, s, p);
    }
  }

  /** The growing loop computes exactly the transitive dependents of the change. */
  method AffectedCells(cells: seq<Cell>, changed: set<string>) returns (affected: set<string>)
    requires IdsDistinct(cells)
    ensures forall c :: c in cells ==> (c.id in affected <==> DependsOn(cells, c.id, changed))
    ensures affected <= changed + IdSet(cells)
  {
    affected := changed;
    forall id | id in changed
      ensures DependsOn(cells, id, changed)
    {
      ReachesSelf(Links(cells), id);
    }
    var grew := true;
    while grew
      invariant changed <= affected <= changed + IdSet(cells)
      invariant forall id :: id in affected ==> DependsOn(cells, id, changed)
      invariant !grew ==> Saturated(cells, affected)
      decreases changed + IdSet(cells) - affected, grew
    {
      affected, grew := GrowOnce(cells, changed, affected);
    }
    SaturatedHoldsDependents(cells, affected, changed);
  }

  /** What a save accepts: every cell, or every cell that depends on a changed one, is valid. */
  ghost predicate CheckPasses(rule: ParamRule, compile: Compiler, cells: seq<Cell>, changed: Option<set<string>>) {
    forall c :: c in cells && (changed.Some? ==> DependsOn(cells, c.id, changed.value)) ==>
      CellValid(rule, compile, cells, c)
  }

  method CheckAnalysisCells(rule: ParamRule, compile: Compiler, cells: seq<Cell>, changed: Option<set<string>>)
    returns (ok: bool)
    requires IdsDistinct(cells)
    ensures ok <==> CheckPasses(rule, compile, cells, changed)
  {
    var affected: set<string> := {};
    if changed.Some? {
      affected := AffectedCells(cells, changed.value);
    }
    for k := 0 to |cells|
      invariant forall c :: c in cells[..k] && (changed.Some? ==> c.id in affected) ==>
                  CellValid(rule, compile, cells, c)
    {
      var cell := cells[k];
      assert cells[..k + 1] == cells[..k] + [cell];
      if !cell.IsFlowCell() || (changed.Some? && cell.id !in affected) {
        continue;
      }
      var flow := AnalysisClosure(rule, cells, cell);
      if flow.Err? {
        return false;
      }
      var columns := compile(flow.value);
      if columns.None? || !BindingsOk(cell, columns.value) {
        return false;
      }
    }
    assert cells[..|cells|] == cells;
    return true;
  }

  // ----- a cell's validity looks only at what it can reach -----

  /** Everything about a cell but its title, which only refusals mention. */
  function Untitled(c: Cell): Cell {
    c.(title := "")
  }

  ghost predicate BooksAgree(b: Book, d: Book, s: set<string>) {
    forall x :: x in s ==> (x in b <==> x in d) && (x in b ==> Untitled(b[x]) == Untitled(d[x]))
  }

  lemma {:induction false} ResolveLocal(b: Book, d: Book, s: set<string>, cell: Cell, other: Cell,
      locals: set<string>, step: string, inputs: seq<string>)
    requires BooksAgree(b, d, s) && Untitled(cell) == Untitled(other) && forall i :: i in cell.inputs ==> i in s
    ensures ResolveInputs(b, cell, locals, step, inputs) == ResolveInputs(d, other, locals, step, inputs)
  {
    if inputs != [] {
      ResolveLocal(b, d, s, cell, other, locals, step, inputs[1..]);
    }
  }

  lemma {:induction false} EmitStepsLocal(b: Book, d: Book, s: set<string>, cell: Cell, other: Cell,
      locals: set<string>, steps: seq<Step>)
    requires BooksAgree(b, d, s) && Untitled(cell) == Untitled(other) && forall i :: i in cell.inputs ==> i in s
    ensures EmitSteps(b, cell, locals, steps) == EmitSteps(d, other, locals, steps)
  {
    if steps != [] {
      if steps[0].id.Some? && steps[0].inputs.Some? {
        ResolveLocal(b, d, s, cell, other, locals, steps[0].id.value, steps[0].inputs.value);
      }
      EmitStepsLocal(b, d, s, cell, other, locals, steps[1..]);
    }
  }

  lemma {:induction false} EmitCellsLocal(b: Book, d: Book, s: set<string>, order: seq<string>)
    requires BooksAgree(b, d, s)
    requires forall c :: c in order ==> c in s && c in b && c in d && forall i :: i in b[c].inputs ==> i in s
    ensures EmitCells(b, order) == EmitCells(d, order)
  {
    if order != [] {
      var cell, other := b[order[0]], d[order[0]];
      assert Untitled(cell) == Untitled(other);
      if CellFragment(cell).Ok? {
        var steps := CellFragment(cell).value.steps;
        EmitStepsLocal(b, d, s, cell, other, LocalIds(steps), steps);
      }
      EmitCellsLocal(b, d, s, order[1..]);
    }
  }

  lemma {:induction false} GraphsAgree(cells: seq<Cell>, others: seq<Cell>, s: set<string>)
    requires BooksAgree(Index(cells), Index(others), s) && Closed(Links(cells), s)
    ensures AgreeOn(CellGraph(Index(cells)), CellGraph(Index(others)), s)
    ensures forall u, v :: u in s && Edge(CellGraph(Index(cells)), u, v) ==> v in s
  {
    forall u, v | u in s && Edge(CellGraph(Index(cells)), u, v)
      ensures v in s
    {
      assert Edge(Links(cells), u, v);
    }
  }

  /** The cells a walk inside the closed set finishes, and their inputs, are inside the set. */
  lemma {:induction false} WalkedInside(cells: seq<Cell>, others: seq<Cell>, s: set<string>, start: string)
    requires BooksAgree(Index(cells), Index(others), s) && Closed(Links(cells), s) && start in s
    requires WalkFrom(CellGraph(Index(cells)), start).Ok?
    ensures forall c :: c in WalkFrom(CellGraph(Index(cells)), start).value.order ==>
              c in s && c in Index(cells) && forall i :: i in Index(cells)[c].inputs ==> i in s
  {
    var b := Index(cells);
    var g := CellGraph(b);
    GraphsAgree(cells, others, s);
    WalkStaysInBook(b, start);
    WalkExact(g, start);
    forall c | c in WalkFrom(g, start).value.order
      ensures c in s && forall i :: i in b[c].inputs ==> i in s
    {
      ClosedKeepsReach(g, s, start, c);
      assert forall i :: i in b[c].inputs ==> Edge(g, c, i);
    }
  }

  /** Two analyses that agree on a closed set of ids compile every cell of that set alike. */
  lemma {:induction false} ClosureLocal(rule: ParamRule, cells: seq<Cell>, others: seq<Cell>, s: set<string>,
      target: Cell, other: Cell)
    requires BooksAgree(Index(cells), Index(others), s) && Closed(Links(cells), s)
    requires target.id in s && Untitled(target) == Untitled(other)
    ensures Closure(rule, cells, target).Ok? <==> Closure(rule, others, other).Ok?
    ensures Closure(rule, cells, target).Ok? ==> Closure(rule, cells, target) == Closure(rule, others, other)
  {
    var b, d := Index(cells), Index(others);
    var g, h := CellGraph(b), CellGraph(d);
    GraphsAgree(cells, others, s);
    VisitLocal(g, h, s, target.id, target.id, Walk(map[], []));
    if WalkFrom(g, target.id).Ok? {
      WalkedInside(cells, others, s, target.id);
      WalkStaysInBook(b, target.id);
      WalkStaysInBook(d, target.id);
      EmitCellsLocal(b, d, s, WalkFrom(g, target.id).value.order);
    }
  }

  lemma {:induction false} ValidityLocal(rule: ParamRule, compile: Compiler, cells: seq<Cell>, others: seq<Cell>,
      s: set<string>, c: Cell, d: Cell)
    requires BooksAgree(Index(cells), Index(others), s) && Closed(Links(cells), s)
    requires c.id in s && Untitled(c) == Untitled(d)
    ensures CellValid(rule, compile, cells, c) <==> CellValid(rule, compile, others, d)
  {
    ClosureLocal(rule, cells, others, s, c, d);
  }

  // ----- incremental equals full -----

  function Universe(cells: seq<Cell>): set<string> {
    IdSet(cells) + (set c, i | c in cells && i in c.inputs :: i)
  }

  /** The two analyses hold the same cells under every id outside the change. */
  ghost predicate SameOutside(cells: seq<Cell>, others: seq<Cell>, changed: set<string>) {
    forall x :: x !in changed ==>
      && (x in Index(cells) <==> x in Index(others))
      && (x in Index(cells) ==> Untitled(Index(cells)[x]) == Untitled(Index(others)[x]))
  }

  /** A cell that does not depend on the change is exactly as valid after it as before. */
  lemma {:induction false} UnaffectedKeepsValidity(rule: ParamRule, compile: Compiler, cells: seq<Cell>,
      others: seq<Cell>, changed: set<string>, c: Cell)
    requires IdsDistinct(cells) && c in cells && SameOutside(cells, others, changed)
    requires !DependsOn(cells, c.id, changed)
    ensures c.id in Index(others)
    ensures CellValid(rule, compile, cells, c) <==> CellValid(rule, compile, others, Index(others)[c.id])
  {
    var g := Links(cells);
    IndexFinds(cells, c);
    var s := set x | x in Universe(cells) && !DependsOn(cells, x, changed);
    forall x | x in changed
      ensures DependsOn(cells, x, changed)
    {
      ReachesSelf(g, x);
    }
    forall u, v | u in s && Edge(g, u, v)
      ensures v in s
    {
      var cell := Index(cells)[u];
      assert cell in cells && v in cell.inputs;
      if DependsOn(cells, v, changed) {
        DependsThroughInput(cells, cell, v, changed);
      }
    }
    ValidityLocal(rule, compile, cells, others, s, c, Index(others)[c.id]);
  }

  /**
   Incremental revalidation equals full revalidation: starting from an analysis all of whose cells are valid,
   checking only what depends on the changed ids accepts exactly the edits that checking everything accepts.
   */
  lemma IncrementalIsFull(rule: ParamRule, compile: Compiler, before: seq<Cell>, after: seq<Cell>, changed: set<string>)
    requires IdsDistinct(before) && IdsDistinct(after)
    requires AllValid(rule, compile, before) && SameOutside(after, before, changed)
    ensures CheckPasses(rule, compile, after, Some(changed)) <==> AllValid(rule, compile, after)
  {
    forall c | c in after && !DependsOn(after, c.id, changed)
      ensures CellValid(rule, compile, after, c)
    {
      UnaffectedKeepsValidity(rule, compile, after, before, changed, c);
    }
  }
}
