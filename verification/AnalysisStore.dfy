/**
 A stored analysis and its four edits (whole PUT, add, update and delete a cell), and what every run of
 accepted edits keeps.
 */
module AnalysisStore {
  import opened Common
  import opened Graphs
  import opened FlowIR
  import opened Cells
  import opened CellNames
  import opened Revalidation

  const MAX_ANALYSIS_CELLS := 50

  /** A submitted cell: a field that is None was not sent. */
  datatype RawCell = RawCell(
    id: Option<string>, title: Option<string>, sql: Option<string>, flow: Option<Option<RawFlow>>,
    inputs: Option<seq<string>>, top: Option<Option<int>>, x: Option<string>, y: Option<seq<string>>,
    series: Option<string>)

  datatype Analysis = Analysis(cells: seq<Cell>, nextCell: nat)

  // ----- merging a submission over what is stored -----

  const DEFAULTS := Cell("", "", "", None, [], None, "", [], "")

  function Field<T>(sent: Option<T>, prior: T, truthy: bool, default: T): T {
    if sent.Some? then sent.value else if truthy then prior else default
  }

  function MergeCell(id: string, raw: RawCell, prior: Cell): Cell {
    Cell(id,
         Field(raw.title, prior.title, prior.title != "", ""),
         Field(raw.sql, prior.sql, prior.sql != "", ""),
         Field(raw.flow, prior.flow, prior.flow.Some?, None),
         Field(raw.inputs, prior.inputs, prior.inputs != [], []),
         Field(raw.top, prior.top, prior.top.Some? && prior.top != Some(0), None),
         Field(raw.x, prior.x, prior.x != "", ""),
         Field(raw.y, prior.y, prior.y != [], []),
         Field(raw.series, prior.series, prior.series != "", ""))
  }

  /** The model's own validation: exactly one of SQL and flow, no inputs or top-N beside SQL, top-N in range. */
  predicate CellAccepted(c: Cell) {
    var hasSql := Strip(c.sql) != "";
    && hasSql != c.flow.Some?
    && (hasSql ==> c.inputs == [] && c.top.None?)
    && (c.top.Some? ==> 1 <= c.top.value <= 10000)
  }

  /** Absence means "unchanged": re-sending nothing leaves a stored cell as it is. */
  lemma AbsenceMeansUnchanged(raw: RawCell, prior: Cell)
    requires CellAccepted(prior)
    ensures var m := MergeCell(prior.id, raw, prior);
            && (raw.title.None? ==> m.title == prior.title) && (raw.sql.None? ==> m.sql == prior.sql)
            && (raw.flow.None? ==> m.flow == prior.flow) && (raw.inputs.None? ==> m.inputs == prior.inputs)
            && (raw.top.None? ==> m.top == prior.top) && (raw.x.None? ==> m.x == prior.x)
            && (raw.y.None? ==> m.y == prior.y) && (raw.series.None? ==> m.series == prior.series)
  {
  }

  predicate CellIdOk(id: string) {
    var s := DollarTrim(id);
    1 <= |s| <= 32 && 'a' <= s[0] <= 'z' && forall c :: c in s ==> IdChar(c)
  }

  /** `c` followed by digits: the shape of a server-assigned id. */
  predicate Numbered(id: string) {
    |id| > 1 && id[0] == 'c' && forall i :: 1 <= i < |id| ==> IsDigit(id[i])
  }

  function NumberOf(id: string): nat
    requires Numbered(id)
  {
    assert forall i :: 0 <= i < |id[1..]| ==> id[1..][i] == id[i + 1];
    ParseNat(id[1..])
  }

  lemma ServerIdNumber(n: nat)
    ensures Numbered(ServerId(n)) && NumberOf(ServerId(n)) == n
  {
    assert ServerId(n)[1..] == NatText(n);
    ParseNatText(n);
  }

  /** One submitted cell of a whole PUT: its id (the next server id when it brings none), merged and validated. */
  function MergeOne(raw: RawCell, stored: Book, seen: set<string>, next: nat): Option<(Cell, nat)> {
    var unnamed := raw.id.None? || raw.id == Some("");
    var id := if unnamed then ServerId(next) else raw.id.value;
    var cell := MergeCell(id, raw, if id in stored then stored[id] else DEFAULTS);
    if (!unnamed && !CellIdOk(id)) || id in seen || !CellAccepted(cell) then None
    else Some((cell, if unnamed then next + 1 else next))
  }

  function Onto(front: seq<Cell>, r: Option<(seq<Cell>, nat)>): Option<(seq<Cell>, nat)> {
    if r.None? then None else Some((front + r.value.0, r.value.1))
  }

  /** The cells of a whole PUT, one after the other, and the counter they leave; None when one is refused. */
  function MergeFrom(raws: seq<RawCell>, stored: Book, seen: set<string>, next: nat): Option<(seq<Cell>, nat)> {
    if raws == [] then Some(([], next))
    else
      var one := MergeOne(raws[0], stored, seen, next);
      if one.None? then None
      else Onto([one.value.0], MergeFrom(raws[1..], stored, seen + {one.value.0.id}, one.value.1))
  }

  function AdvancePast(cells: seq<Cell>, next: nat): nat {
    if cells == [] then next
    else
      var n := AdvancePast(cells[..|cells| - 1], next);
      var id := cells[|cells| - 1].id;
      if Numbered(id) && n < NumberOf(id) + 1 then NumberOf(id) + 1 else n
  }

  function LabelFrom(cells: seq<Cell>, n: nat): (r: seq<Cell>)
    ensures |r| == |cells|
  {
    if cells == [] then []
    else
      [if Strip(cells[0].title) != "" then cells[0] else cells[0].(title := "Cell " + NatText(n))]
      + LabelFrom(cells[1..], n + 1)
  }

  predicate Titled(cells: seq<Cell>) {
    forall c {:trigger Strip(c.title)} :: c in cells ==> Strip(c.title) != ""
  }

  lemma {:induction false} LabelIsVisible(n: nat)
    ensures Strip("Cell " + NatText(n)) != ""
  {
    var s := "Cell " + NatText(n);
    assert IsDigit(NatText(n)[|NatText(n)| - 1]);
    StripTrimmed(s);
  }

  lemma {:induction false} LabelFromKeepsCells(cells: seq<Cell>, n: nat)
    ensures var r := LabelFrom(cells, n);
            forall i :: 0 <= i < |cells| ==> r[i].id == cells[i].id && Untitled(r[i]) == Untitled(cells[i])
  {
    if cells != [] {
      LabelFromKeepsCells(cells[1..], n + 1);
    }
  }

  lemma {:induction false} LabelFromIsVisible(cells: seq<Cell>, n: nat)
    ensures Titled(LabelFrom(cells, n))
  {
    if cells != [] {
      LabelIsVisible(n);
      LabelFromIsVisible(cells[1..], n + 1);
      var first, rest := LabelFrom(cells, n)[0], LabelFrom(cells[1..], n + 1);
      assert LabelFrom(cells, n) == [first] + rest;
      assert forall c :: c in [first] + rest <==> c == first || c in rest;
    }
  }

  /** The first free server id at or after n. */
  function NextFree(taken: set<string>, n: nat): nat {
    FirstFree("c", taken, n)
  }

  lemma NextFreeExact(taken: set<string>, n: nat)
    ensures var k := NextFree(taken, n);
            && k >= n && ServerId(k) !in taken
            && forall j :: n <= j < k ==> ServerId(j) in taken
  {
    FirstFreeExact("c", taken, n);
    assert forall j: nat :: Label("c", j) == ServerId(j);
  }

  // ----- the four edits -----

  datatype Edit =
    | Put(raws: seq<RawCell>)
    | Add(raw: RawCell)
    | Update(id: string, raw: RawCell)
    | Delete(id: string)

  function Save(cells: seq<Cell>, next: nat): Analysis {
    Analysis(LabelFrom(cells, 1), next)
  }

  function ReplaceCell(cells: seq<Cell>, id: string, updated: Cell): (r: seq<Cell>)
    ensures |r| == |cells|
    ensures forall i :: 0 <= i < |cells| ==> r[i] == if cells[i].id == id then updated else cells[i]
  {
    if cells == [] then [] else [if cells[0].id == id then updated else cells[0]] + ReplaceCell(cells[1..], id, updated)
  }

  function DropCell(cells: seq<Cell>, id: string): seq<Cell> {
    if cells == [] then [] else (if cells[0].id == id then [] else [cells[0]]) + DropCell(cells[1..], id)
  }

  function CellWith(cells: seq<Cell>, id: string): Option<Cell> {
    if cells == [] then None else if cells[0].id == id then Some(cells[0]) else CellWith(cells[1..], id)
  }

  ghost function Upserted(rule: ParamRule, compile: Compiler, now: Option<Analysis>,
                          raws: seq<RawCell>): Option<Analysis>
  {
    var stored := if now.Some? then Index(now.value.cells) else map[];
    var next := if now.Some? then now.value.nextCell else 1;
    var merged := MergeFrom(raws, stored, {}, next);
    if || |raws| > MAX_ANALYSIS_CELLS
       || merged.None?
       || !CheckPasses(rule, compile, LabelFrom(merged.value.0, 1), None)
    then None
    else Some(Save(merged.value.0, AdvancePast(merged.value.0, merged.value.1)))
  }

  ghost function Added(rule: ParamRule, compile: Compiler, a: Analysis, raw: RawCell): Option<Analysis> {
    var n := NextFree(IdSet(a.cells), a.nextCell);
    if |a.cells| >= MAX_ANALYSIS_CELLS then None
    else Appended(rule, compile, a.cells, MergeCell(ServerId(n), raw, DEFAULTS), n + 1)
  }

  ghost function Appended(rule: ParamRule, compile: Compiler, cells: seq<Cell>, cell: Cell,
                          next: nat): Option<Analysis>
  {
    if !CellAccepted(cell) || !CheckPasses(rule, compile, cells + [cell], Some({cell.id})) then None
    else Some(Save(cells + [cell], next))
  }

  ghost function Updated(rule: ParamRule, compile: Compiler, a: Analysis, id: string, raw: RawCell): Option<Analysis> {
    if CellWith(a.cells, id).None? then None
    else
      var cell := MergeCell(id, raw, CellWith(a.cells, id).value);
      var cells := ReplaceCell(a.cells, id, cell);
      if !CellAccepted(cell) || !CheckPasses(rule, compile, cells, Some({id})) then None
      else Some(Save(cells, a.nextCell))
  }

  ghost function Deleted(a: Analysis, id: string): Option<Analysis> {
    if CellWith(a.cells, id).None? || (exists c :: c in a.cells && id in c.inputs) then None
    else Some(Save(DropCell(a.cells, id), a.nextCell))
  }

  /** The edited record, or None when the edit is refused and nothing is saved. */
  ghost function Edited(rule: ParamRule, compile: Compiler, now: Option<Analysis>, edit: Edit): Option<Analysis> {
    match edit
    case Put(raws) => Upserted(rule, compile, now, raws)
    case Add(raw) => if now.None? then None else Added(rule, compile, now.value, raw)
    case Update(id, raw) => if now.None? then None else Updated(rule, compile, now.value, id, raw)
    case Delete(id) => if now.None? then None else Deleted(now.value, id)
  }

  // ----- what every accepted edit keeps -----

  /** Every server-shaped id is behind the counter. */
  predicate CounterAhead(cells: seq<Cell>, next: nat) {
    forall c {:trigger Numbered(c.id)} :: c in cells && Numbered(c.id) ==> NumberOf(c.id) < next
  }

  ghost predicate Sound(rule: ParamRule, compile: Compiler, a: Analysis) {
    && IdsDistinct(a.cells)
    && AllValid(rule, compile, a.cells)
    && CounterAhead(a.cells, a.nextCell)
    && Titled(a.cells)
  }

  lemma {:induction false} MergeFromKeepsDistinct(raws: seq<RawCell>, stored: Book, seen: set<string>, next: nat)
    requires MergeFrom(raws, stored, seen, next).Some?
    ensures var r := MergeFrom(raws, stored, seen, next).value;
            && IdsDistinct(r.0) && r.1 >= next && |r.0| == |raws|
            && forall c :: c in r.0 ==> c.id !in seen
  {
    if raws != [] {
      var one := MergeOne(raws[0], stored, seen, next).value;
      MergeFromKeepsDistinct(raws[1..], stored, seen + {one.0.id}, one.1);
      var rest := MergeFrom(raws[1..], stored, seen + {one.0.id}, one.1).value.0;
      var all := MergeFrom(raws, stored, seen, next).value.0;
      assert all == [one.0] + rest;
      PrependKeepsDistinct(one.0, rest);
      assert forall c :: c in all <==> c == one.0 || c in rest;
    }
  }

  lemma {:induction false} AdvancePastIsAhead(cells: seq<Cell>, next: nat)
    ensures AdvancePast(cells, next) >= next && CounterAhead(cells, AdvancePast(cells, next))
  {
    if cells != [] {
      var k := |cells| - 1;
      AdvancePastIsAhead(cells[..k], next);
      assert forall c :: c in cells <==> c in cells[..k] || c == cells[k];
    }
  }

  lemma {:induction false} SameTitlesAside(cells: seq<Cell>, r: seq<Cell>)
    requires |r| == |cells|
    requires forall i :: 0 <= i < |cells| ==> r[i].id == cells[i].id && Untitled(r[i]) == Untitled(cells[i])
    ensures Index(cells).Keys == Index(r).Keys
    ensures forall x :: x in Index(cells) ==> Untitled(Index(cells)[x]) == Untitled(Index(r)[x])
  {
    if cells != [] {
      var k := |cells| - 1;
      SameTitlesAside(cells[..k], r[..k]);
    }
  }

  lemma {:induction false} LabelAgrees(cells: seq<Cell>)
    ensures BooksAgree(Index(cells), Index(LabelFrom(cells, 1)), Universe(cells))
    ensures Closed(Links(cells), Universe(cells))
  {
    LabelFromKeepsCells(cells, 1);
    SameTitlesAside(cells, LabelFrom(cells, 1));
    var s := Universe(cells);
    forall u, v | u in s && Edge(Links(cells), u, v)
      ensures v in s
    {
      assert Index(cells)[u] in cells;
    }
  }

  lemma {:induction false} LabelKeepsValidity(rule: ParamRule, compile: Compiler, cells: seq<Cell>, i: nat)
    requires i < |cells|
    ensures var r := LabelFrom(cells, 1);
            CellValid(rule, compile, cells, cells[i]) <==> CellValid(rule, compile, r, r[i])
  {
    var r := LabelFrom(cells, 1);
    LabelFromKeepsCells(cells, 1);
    LabelAgrees(cells);
    assert cells[i] in cells;
    ValidityLocal(rule, compile, cells, r, Universe(cells), cells[i], r[i]);
  }

  /** Saving labels the cells, which changes no id, no instruction and no cell's validity. */
  lemma SaveKeepsSound(rule: ParamRule, compile: Compiler, cells: seq<Cell>, next: nat)
    requires IdsDistinct(cells) && AllValid(rule, compile, cells) && CounterAhead(cells, next)
    ensures Sound(rule, compile, Save(cells, next))
  {
    var r := LabelFrom(cells, 1);
    LabelFromKeepsCells(cells, 1);
    LabelFromIsVisible(cells, 1);
    forall i | 0 <= i < |r|
      ensures r[i].id == cells[i].id && cells[i] in cells && CellValid(rule, compile, r, r[i])
    {
      assert cells[i] in cells;
      LabelKeepsValidity(rule, compile, cells, i);
    }
  }

  // ----- the cells each edit leaves -----

  lemma {:induction false} IndexKeys(cells: seq<Cell>, x: string)
    ensures x in Index(cells) <==> exists c :: c in cells && c.id == x
  {
    if cells != [] {
      var k := |cells| - 1;
      IndexKeys(cells[..k], x);
      assert forall c :: c in cells <==> c in cells[..k] || c == cells[k];
    }
  }

  lemma SameOutsideById(after: seq<Cell>, before: seq<Cell>, changed: set<string>)
    requires IdsDistinct(after) && IdsDistinct(before)
    requires forall c: Cell :: c.id !in changed ==> (c in after <==> c in before)
    ensures SameOutside(after, before, changed)
  {
    forall x | x !in changed
      ensures x in Index(after) <==> x in Index(before)
      ensures x in Index(after) ==> Index(after)[x] == Index(before)[x]
    {
      IndexKeys(after, x);
      IndexKeys(before, x);
      if x in Index(after) {
        IndexFinds(before, Index(after)[x]);
      }
    }
  }

  lemma {:induction false} CellWithFinds(cells: seq<Cell>, id: string)
    ensures CellWith(cells, id).Some? <==> exists c :: c in cells && c.id == id
    ensures CellWith(cells, id).Some? ==> CellWith(cells, id).value in cells && CellWith(cells, id).value.id == id
  {
    if cells != [] {
      CellWithFinds(cells[1..], id);
      assert forall c :: c in cells <==> c == cells[0] || c in cells[1..];
    }
  }

  lemma FirstApart(cells: seq<Cell>)
    requires IdsDistinct(cells) && cells != []
    ensures forall c :: c in cells[1..] ==> c.id != cells[0].id
  {
  }

  lemma PrependKeepsDistinct(first: Cell, rest: seq<Cell>)
    requires IdsDistinct(rest) && forall c :: c in rest ==> c.id != first.id
    ensures IdsDistinct([first] + rest)
  {
    var r := [first] + rest;
    forall i, j | 0 <= i < j < |r|
      ensures r[i].id != r[j].id
    {
      assert r[j] == rest[j - 1] && r[j] in rest;
    }
  }

  lemma {:induction false} DropCellExact(cells: seq<Cell>, id: string)
    requires IdsDistinct(cells)
    ensures IdsDistinct(DropCell(cells, id))
    ensures forall c :: c in DropCell(cells, id) <==> c in cells && c.id != id
  {
    if cells != [] {
      assert forall i :: 0 <= i < |cells[1..]| ==> cells[1..][i] == cells[i + 1];
      DropCellExact(cells[1..], id);
      var rest := DropCell(cells[1..], id);
      assert forall c :: c in cells <==> c == cells[0] || c in cells[1..];
      if cells[0].id != id {
        FirstApart(cells);
        PrependKeepsDistinct(cells[0], rest);
      }
    }
  }

  lemma {:induction false} ReplaceCellExact(cells: seq<Cell>, id: string, updated: Cell)
    requires IdsDistinct(cells) && updated.id == id
    ensures var r := ReplaceCell(cells, id, updated);
            && IdsDistinct(r)
            && forall c: Cell :: c.id != id ==> (c in r <==> c in cells)
  {
    var r := ReplaceCell(cells, id, updated);
    assert forall i :: 0 <= i < |cells| ==> r[i].id == cells[i].id;
    forall c: Cell | c.id != id && c in cells
      ensures c in r
    {
      var i :| 0 <= i < |cells| && cells[i] == c;
      assert r[i] == c;
    }
  }

  // ----- every accepted edit keeps the analysis sound -----

  lemma AddKeepsSound(rule: ParamRule, compile: Compiler, a: Analysis, raw: RawCell)
    requires Sound(rule, compile, a) && Added(rule, compile, a, raw).Some?
    ensures Sound(rule, compile, Added(rule, compile, a, raw).value)
  {
    var taken := IdSet(a.cells);
    var n := NextFree(taken, a.nextCell);
    NextFreeExact(taken, a.nextCell);
    ServerIdNumber(n);
    var cell := MergeCell(ServerId(n), raw, DEFAULTS);
    var cells := a.cells + [cell];
    AppendKeepsDistinct(a.cells, cell);
    assert forall c :: c in cells <==> c in a.cells || c == cell;
    SameOutsideById(cells, a.cells, {cell.id});
    IncrementalIsFull(rule, compile, a.cells, cells, {cell.id});
    SaveKeepsSound(rule, compile, cells, n + 1);
  }

  lemma CounterNeedsOnlyIds(cells: seq<Cell>, others: seq<Cell>, next: nat)
    requires CounterAhead(cells, next)
    requires |others| == |cells| && forall i :: 0 <= i < |cells| ==> others[i].id == cells[i].id
    ensures CounterAhead(others, next)
  {
    forall c | c in others
      ensures Numbered(c.id) ==> NumberOf(c.id) < next
    {
      var i :| 0 <= i < |others| && others[i] == c;
      assert cells[i] in cells && cells[i].id == c.id;
    }
  }

  lemma UpdateKeepsSound(rule: ParamRule, compile: Compiler, a: Analysis, id: string, raw: RawCell)
    requires Sound(rule, compile, a) && Updated(rule, compile, a, id, raw).Some?
    ensures Sound(rule, compile, Updated(rule, compile, a, id, raw).value)
  {
    CellWithFinds(a.cells, id);
    var cell := MergeCell(id, raw, CellWith(a.cells, id).value);
    var cells := ReplaceCell(a.cells, id, cell);
    ReplaceCellExact(a.cells, id, cell);
    SameOutsideById(cells, a.cells, {id});
    IncrementalIsFull(rule, compile, a.cells, cells, {id});
    CounterNeedsOnlyIds(a.cells, cells, a.nextCell);
    SaveKeepsSound(rule, compile, cells, a.nextCell);
  }

  lemma DeleteKeepsSound(rule: ParamRule, compile: Compiler, a: Analysis, id: string)
    requires Sound(rule, compile, a) && Deleted(a, id).Some?
    ensures Sound(rule, compile, Deleted(a, id).value)
  {
    var cells := DropCell(a.cells, id);
    DropCellExact(a.cells, id);
    SameOutsideById(cells, a.cells, {id});
    forall c | c in cells
      ensures CellValid(rule, compile, cells, c)
    {
      NothingReadsIt(cells, id, c);
      UnaffectedKeepsValidity(rule, compile, cells, a.cells, {id}, c);
      IndexFinds(a.cells, c);
    }
    SaveKeepsSound(rule, compile, cells, a.nextCell);
  }

  lemma NothingReadsIt(cells: seq<Cell>, id: string, c: Cell)
    requires forall d :: d in cells ==> id !in d.inputs && d.id != id
    requires c in cells
    ensures !DependsOn(cells, c.id, {id})
  {
    assert Saturated(cells, {id});
    if DependsOn(cells, c.id, {id}) {
      var p :| PathBetween(Links(cells), p, c.id, id);
      SaturatedKeepsPath(cells, {id}, p);
    }
  }

  lemma AppendKeepsDistinct(cells: seq<Cell>, cell: Cell)
    requires IdsDistinct(cells) && cell.id !in IdSet(cells)
    ensures IdsDistinct(cells + [cell])
  {
    forall i | 0 <= i < |cells|
      ensures cells[i].id != cell.id
    {
      assert cells[i] in cells;
    }
  }

  lemma AddedKeepsDistinct(a: Analysis, cell: Cell)
    requires IdsDistinct(a.cells) && cell.id == ServerId(NextFree(IdSet(a.cells), a.nextCell))
    ensures IdsDistinct(a.cells + [cell])
  {
    NextFreeExact(IdSet(a.cells), a.nextCell);
    AppendKeepsDistinct(a.cells, cell);
  }

  lemma {:induction false} MergedIsDistinct(raws: seq<RawCell>, stored: Book, next: nat)
    requires MergeFrom(raws, stored, {}, next).Some?
    ensures IdsDistinct(LabelFrom(MergeFrom(raws, stored, {}, next).value.0, 1))
  {
    MergeFromKeepsDistinct(raws, stored, {}, next);
    LabelFromKeepsCells(MergeFrom(raws, stored, {}, next).value.0, 1);
  }

  lemma PutKeepsSound(rule: ParamRule, compile: Compiler, now: Option<Analysis>, raws: seq<RawCell>)
    requires Upserted(rule, compile, now, raws).Some?
    ensures Sound(rule, compile, Upserted(rule, compile, now, raws).value)
    ensures now.Some? ==> Upserted(rule, compile, now, raws).value.nextCell >= now.value.nextCell
  {
    var stored := if now.Some? then Index(now.value.cells) else map[];
    var next := if now.Some? then now.value.nextCell else 1;
    var merged := MergeFrom(raws, stored, {}, next).value;
    MergeFromKeepsDistinct(raws, stored, {}, next);
    AdvancePastIsAhead(merged.0, merged.1);
    forall i | 0 <= i < |merged.0|
      ensures CellValid(rule, compile, merged.0, merged.0[i])
    {
      LabelKeepsValidity(rule, compile, merged.0, i);
    }
    SaveKeepsSound(rule, compile, merged.0, AdvancePast(merged.0, merged.1));
  }

  /**
   Every accepted edit leaves an analysis whose ids are distinct, whose every shaping cell still closes,
   compiles and binds, and whose counter is past every server-shaped id; and the counter never falls.
   */
  lemma EditKeepsSound(rule: ParamRule, compile: Compiler, now: Option<Analysis>, edit: Edit)
    requires now.Some? ==> Sound(rule, compile, now.value)
    requires Edited(rule, compile, now, edit).Some?
    ensures Sound(rule, compile, Edited(rule, compile, now, edit).value)
    ensures now.Some? ==> Edited(rule, compile, now, edit).value.nextCell >= now.value.nextCell
  {
    match edit
    case Put(raws) => PutKeepsSound(rule, compile, now, raws);
    case Add(raw) =>
      AddKeepsSound(rule, compile, now.value, raw);
      NextFreeExact(IdSet(now.value.cells), now.value.nextCell);
    case Update(id, raw) => UpdateKeepsSound(rule, compile, now.value, id, raw);
    case Delete(id) => DeleteKeepsSound(rule, compile, now.value, id);
  }

  // ----- runs -----

  /** A run of submitted edits; a refused one changes nothing. */
  ghost function Run(rule: ParamRule, compile: Compiler, start: Option<Analysis>, edits: seq<Edit>): Option<Analysis> {
    if edits == [] then start
    else
      var now := Run(rule, compile, start, edits[..|edits| - 1]);
      var edited := Edited(rule, compile, now, edits[|edits| - 1]);
      if edited.Some? then edited else now
  }

  /** Along every run of edits, accepted or refused, the analysis is sound and its counter never falls. */
  lemma {:induction false} RunKeepsSound(rule: ParamRule, compile: Compiler, start: Option<Analysis>, edits: seq<Edit>)
    requires start.Some? ==> Sound(rule, compile, start.value)
    ensures var now := Run(rule, compile, start, edits);
            && (now.Some? ==> Sound(rule, compile, now.value))
            && (start.Some? ==> now.Some? && now.value.nextCell >= start.value.nextCell)
  {
    if edits != [] {
      var k := |edits| - 1;
      RunKeepsSound(rule, compile, start, edits[..k]);
      var now := Run(rule, compile, start, edits[..k]);
      if Edited(rule, compile, now, edits[k]).Some? {
        EditKeepsSound(rule, compile, now, edits[k]);
      }
    }
  }

  /** A server-assigned id was never the id of any cell at any earlier moment of the run, deleted or not. */
  lemma {:induction false} AddedIdIsNew(rule: ParamRule, compile: Compiler, start: Analysis, edits: seq<Edit>,
      raw: RawCell, c: Cell)
    requires Sound(rule, compile, start) && c in start.cells
    requires var now := Run(rule, compile, Some(start), edits); now.Some? && Edited(rule, compile, now, Add(raw)).Some?
    ensures var now := Run(rule, compile, Some(start), edits).value;
            c.id != ServerId(NextFree(IdSet(now.cells), now.nextCell))
  {
    RunKeepsSound(rule, compile, Some(start), edits);
    var now := Run(rule, compile, Some(start), edits).value;
    var n := NextFree(IdSet(now.cells), now.nextCell);
    NextFreeExact(IdSet(now.cells), now.nextCell);
    ServerIdNumber(n);
  }

  // ----- the routes as they run -----

  lemma OntoNothing(r: Option<(seq<Cell>, nat)>)
    ensures Onto([], r) == r
  {
    if r.Some? {
      assert [] + r.value.0 == r.value.0;
    }
  }

  lemma OntoTwice(front: seq<Cell>, c: Cell, r: Option<(seq<Cell>, nat)>)
    ensures Onto(front, Onto([c], r)) == Onto(front + [c], r)
  {
    if r.Some? {
      assert front + ([c] + r.value.0) == front + [c] + r.value.0;
    }
  }

  method MergeCells(raws: seq<RawCell>, existing: Option<Analysis>) returns (r: Option<(seq<Cell>, nat)>)
    ensures var stored := if existing.Some? then Index(existing.value.cells) else map[];
            var next := if existing.Some? then existing.value.nextCell else 1;
            var m := MergeFrom(raws, stored, {}, next);
            r == if m.None? then None else Some((LabelFrom(m.value.0, 1), AdvancePast(m.value.0, m.value.1)))
  {
    var stored := if existing.Some? then Index(existing.value.cells) else map[];
    var next: nat := if existing.Some? then existing.value.nextCell else 1;
    var seen: set<string> := {};
    var out: seq<Cell> := [];
    assert raws[0..] == raws;
    OntoNothing(MergeFrom(raws, stored, {}, next));
    ghost var whole := MergeFrom(raws, stored, {}, next);
    for k := 0 to |raws|
      invariant whole == Onto(out, MergeFrom(raws[k..], stored, seen, next))
    {
      ghost var rest := raws[k..];
      assert rest[0] == raws[k] && rest[1..] == raws[k + 1..];
      var one := MergeOne(raws[k], stored, seen, next);
      if one.None? {
        return None;
      }
      var (cell, at) := one.value;
      OntoTwice(out, cell, MergeFrom(raws[k + 1..], stored, seen + {cell.id}, at));
      seen, next, out := seen + {cell.id}, at, out + [cell];
    }
    assert raws[|raws|..] == [] && out + [] == out;
    next := AdvanceCounter(out, next);
    return Some((LabelFrom(out, 1), next));
  }

  method AdvanceCounter(cells: seq<Cell>, start: nat) returns (next: nat)
    ensures next == AdvancePast(cells, start)
  {
    next := start;
    for k := 0 to |cells|
      invariant next == AdvancePast(cells[..k], start)
    {
      assert cells[..k + 1][..k] == cells[..k];
      if Numbered(cells[k].id) && next < NumberOf(cells[k].id) + 1 {
        next := NumberOf(cells[k].id) + 1;
      }
    }
    assert cells[..|cells|] == cells;
  }

  method NextServerNumber(taken: set<string>, start: nat) returns (n: nat)
    ensures n == NextFree(taken, start)
  {
    n := start;
    ghost var left := taken;
    while ServerId(n) in taken
      invariant n >= start && left <= taken
      invariant forall j :: j >= n ==> (ServerId(j) in taken <==> ServerId(j) in left)
      invariant NextFree(taken, start) == NextFree(left, n)
      decreases left
    {
      forall j | j > n
        ensures ServerId(j) != ServerId(n)
      {
        ServerIdNumber(j);
        ServerIdNumber(n);
      }
      left := left - {ServerId(n)};
      n := n + 1;
    }
  }

  class AnalysisRoutes {
    const rule: ParamRule
    const compile: Compiler
    var saved: Option<Analysis>

    constructor (rule: ParamRule, compile: Compiler)
      ensures Valid() && saved.None? && this.rule == rule && this.compile == compile
    {
      this.rule, this.compile := rule, compile;
      saved := None;
    }

    ghost predicate Valid()
      reads this
    {
      saved.None? || Sound(rule, compile, saved.value)
    }

    method UpsertAnalysis(raws: seq<RawCell>) returns (ok: bool)
      requires Valid()
      modifies this
      ensures Valid()
      ensures var r := Edited(rule, compile, old(saved), Put(raws));
              ok == r.Some? && saved == if ok then r else old(saved)
    {
      if |raws| > MAX_ANALYSIS_CELLS {
        return false;
      }
      var merged := MergeCells(raws, saved);
      if merged.None? {
        return false;
      }
      ghost var stored := if saved.Some? then Index(saved.value.cells) else map[];
      ghost var next: nat := if saved.Some? then saved.value.nextCell else 1;
      MergedIsDistinct(raws, stored, next);
      ok := CheckAnalysisCells(rule, compile, merged.value.0, None);
      if ok {
        PutKeepsSound(rule, compile, saved, raws);
        saved := Some(Analysis(merged.value.0, merged.value.1));
      }
    }

    method AddCell(raw: RawCell) returns (ok: bool)
      requires Valid()
      modifies this
      ensures Valid()
      ensures var r := Edited(rule, compile, old(saved), Add(raw));
              ok == r.Some? && saved == if ok then r else old(saved)
    {
      if saved.None? || |saved.value.cells| >= MAX_ANALYSIS_CELLS {
        return false;
      }
      var a := saved.value;
      var n := NextServerNumber(IdSet(a.cells), a.nextCell);
      var edited := Append(a, MergeCell(ServerId(n), raw, DEFAULTS), n + 1);
      assert edited == Added(rule, compile, a, raw);
      if edited.None? {
        return false;
      }
      AddKeepsSound(rule, compile, a, raw);
      saved := edited;
      return true;
    }

    method Append(a: Analysis, cell: Cell, next: nat) returns (edited: Option<Analysis>)
      requires IdsDistinct(a.cells) && cell.id == ServerId(NextFree(IdSet(a.cells), a.nextCell))
      ensures edited == Appended(rule, compile, a.cells, cell, next)
    {
      if !CellAccepted(cell) {
        return None;
      }
      AddedKeepsDistinct(a, cell);
      var ok := CheckAnalysisCells(rule, compile, a.cells + [cell], Some({cell.id}));
      return if ok then Some(Save(a.cells + [cell], next)) else None;
    }

    method UpdateCell(id: string, raw: RawCell) returns (ok: bool)
      requires Valid()
      modifies this
      ensures Valid()
      ensures var r := Edited(rule, compile, old(saved), Update(id, raw));
              ok == r.Some? && saved == if ok then r else old(saved)
    {
      if saved.None? || CellWith(saved.value.cells, id).None? {
        return false;
      }
      var cell := MergeCell(id, raw, CellWith(saved.value.cells, id).value);
      if !CellAccepted(cell) {
        return false;
      }
      var cells := ReplaceCell(saved.value.cells, id, cell);
      ReplaceCellExact(saved.value.cells, id, cell);
      ok := CheckAnalysisCells(rule, compile, cells, Some({id}));
      if ok {
        UpdateKeepsSound(rule, compile, saved.value, id, raw);
        saved := Some(Save(cells, saved.value.nextCell));
      }
    }

    method DeleteCell(id: string) returns (ok: bool)
      requires Valid()
      modifies this
      ensures Valid()
      ensures var r := Edited(rule, compile, old(saved), Delete(id));
              ok == r.Some? && saved == if ok then r else old(saved)
    {
      if saved.None? || CellWith(saved.value.cells, id).None? || exists c :: c in saved.value.cells && id in c.inputs {
        return false;
      }
      DeleteKeepsSound(rule, compile, saved.value, id);
      saved := Some(Save(DropCell(saved.value.cells, id), saved.value.nextCell));
      return true;
    }
  }
}
