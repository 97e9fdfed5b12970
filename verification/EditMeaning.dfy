/**
 What the four edits of an analysis do with what was sent: which fields the stored cell then has, which edits are
 accepted, and that nothing else changes.
 */
module EditMeaning {
  import opened Common
  import opened FlowIR
  import opened Cells
  import opened CellNames
  import opened Revalidation
  import opened AnalysisStore

  // ----- one field, one cell -----

  predicate Visible(s: string) {
    exists i :: 0 <= i < |s| && !IsSpace(s[i])
  }

  lemma {:induction false} VisibleExactly(s: string)
    ensures Strip(s) != "" <==> Visible(s)
  {
    var from, to := StripExactly(s);
    if from < to {
      assert !IsSpace(s[from]);
    }
  }

  function Sent<T>(sent: Option<T>, before: T): T {
    if sent.Some? then sent.value else before
  }

  /** Every field is the one sent, or the stored one where none was; a title nobody can see becomes a label. */
  predicate Merged(raw: RawCell, prior: Cell, place: nat, c: Cell) {
    && c.title == (if Visible(Sent(raw.title, prior.title)) then Sent(raw.title, prior.title)
                   else "Cell " + NatText(place + 1))
    && c.sql == Sent(raw.sql, prior.sql) && c.flow == Sent(raw.flow, prior.flow)
    && c.inputs == Sent(raw.inputs, prior.inputs)
    && c.top == Sent(raw.top, if prior.top == Some(0) then None else prior.top)
    && c.x == Sent(raw.x, prior.x) && c.y == Sent(raw.y, prior.y) && c.series == Sent(raw.series, prior.series)
  }

  /** One kind of content, a flow's fields only beside a flow, and a top-N within its bounds. */
  predicate Shaped(c: Cell) {
    && (Visible(c.sql) <==> c.flow.None?)
    && (c.flow.None? ==> c.inputs == [] && c.top.None?)
    && (c.top.Some? ==> 1 <= c.top.value <= 10000)
  }

  lemma {:induction false} ShapedExactly(c: Cell)
    ensures CellAccepted(c) <==> Shaped(c)
  {
    VisibleExactly(c.sql);
  }

  const NOTHING := Cell("", "", "", None, [], None, "", [], "")

  /** A lower-case letter, then letters, digits and underscores, 32 at most. */
  predicate PlainName(s: string) {
    && 1 <= |s| <= 32 && 'a' <= s[0] <= 'z'
    && forall i :: 0 <= i < |s| ==> 'a' <= s[i] <= 'z' || '0' <= s[i] <= '9' || s[i] == '_'
  }

  /** The pattern also lets by one newline at the end. */
  lemma {:induction false} CellNameExactly(id: string)
    ensures CellIdOk(id) <==> PlainName(id) || (|id| > 0 && id[|id| - 1] == '\n' && PlainName(id[..|id| - 1]))
  {
    var s := DollarTrim(id);
    if CellIdOk(id) {
      forall i | 0 <= i < |s|
        ensures 'a' <= s[i] <= 'z' || '0' <= s[i] <= '9' || s[i] == '_'
      {
        assert IdChar(s[i]);
      }
    }
  }

  /** A shaping cell is valid when it compiles, its flow binds and every column its chart names is one it has. */
  lemma {:induction false} CellValidExactly(rule: ParamRule, compile: Compiler, cells: seq<Cell>, c: Cell)
    ensures CellValid(rule, compile, cells, c) <==>
            c.flow.None? || exists flow, columns ::
                              && Closure(rule, cells, c) == Ok(flow) && compile(flow) == Some(columns)
                              && forall name :: name in [c.x, c.series] + c.y ==> name == "" || name in columns
  {
    var names := [c.x, c.series] + c.y;
    assert names[0] == c.x && names[1] == c.series;
    assert forall name :: name in names <==> name == c.x || name == c.series || name in c.y;
    if CellValid(rule, compile, cells, c) && c.flow.Some? {
      assert compile(Closure(rule, cells, c).value) == Some(compile(Closure(rule, cells, c).value).value);
    }
  }

  // ----- what saving leaves -----

  lemma {:induction false} LabelledAt(cells: seq<Cell>, n: nat, i: nat)
    requires i < |cells|
    ensures LabelFrom(cells, n)[i]
            == if Visible(cells[i].title) then cells[i] else cells[i].(title := "Cell " + NatText(n + i))
  {
    VisibleExactly(cells[i].title);
    if i > 0 {
      LabelledAt(cells[1..], n + 1, i - 1);
    }
  }

  lemma {:induction false} TitledStays(cells: seq<Cell>)
    requires Titled(cells)
    ensures LabelFrom(cells, 1) == cells
  {
    forall i | 0 <= i < |cells|
      ensures LabelFrom(cells, 1)[i] == cells[i]
    {
      LabelledAt(cells, 1, i);
      assert cells[i] in cells;
      VisibleExactly(cells[i].title);
    }
  }

  lemma {:induction false} LabelKeepsAllValid(rule: ParamRule, compile: Compiler, cells: seq<Cell>)
    ensures AllValid(rule, compile, LabelFrom(cells, 1)) <==> AllValid(rule, compile, cells)
  {
    var r := LabelFrom(cells, 1);
    forall i | 0 <= i < |cells|
      ensures CellValid(rule, compile, cells, cells[i]) <==> CellValid(rule, compile, r, r[i])
    {
      LabelKeepsValidity(rule, compile, cells, i);
    }
    if AllValid(rule, compile, cells) {
      forall c | c in r
        ensures CellValid(rule, compile, r, c)
      {
        var i :| 0 <= i < |r| && r[i] == c;
        assert cells[i] in cells;
      }
    }
    if AllValid(rule, compile, r) {
      forall c | c in cells
        ensures CellValid(rule, compile, cells, c)
      {
        var i :| 0 <= i < |cells| && cells[i] == c;
        assert r[i] in r;
      }
    }
  }

  /** Labelling the merged cell gives the cell the edit is said to leave. */
  lemma {:induction false} MergedLabel(raw: RawCell, prior: Cell, place: nat, c: Cell)
    requires Merged(raw, prior, place, c)
    ensures var m := MergeCell(c.id, raw, prior);
            c == if Visible(m.title) then m else m.(title := "Cell " + NatText(1 + place))
    ensures CellAccepted(MergeCell(c.id, raw, prior)) <==> Shaped(c)
  {
    ShapedExactly(MergeCell(c.id, raw, prior));
  }

  // ----- update, add and delete -----

  lemma {:induction false} FoundAt(cells: seq<Cell>, k: nat, m: Cell)
    requires IdsDistinct(cells) && k < |cells|
    ensures CellWith(cells, cells[k].id) == Some(cells[k])
    ensures ReplaceCell(cells, cells[k].id, m) == cells[k := m]
  {
    hide CellWith, ReplaceCell;
    CellWithFinds(cells, cells[k].id);
    assert cells[k] in cells;
    var j :| 0 <= j < |cells| && cells[j] == CellWith(cells, cells[k].id).value;
    assert j == k;
    var r := ReplaceCell(cells, cells[k].id, m);
    forall i | 0 <= i < |cells|
      ensures r[i] == cells[k := m][i]
    {
      assert cells[i].id == cells[k].id <==> i == k;
    }
  }

  lemma {:induction false} ReplacedExactly(rule: ParamRule, compile: Compiler, a: Analysis, k: nat, m: Cell, c: Cell)
    requires Sound(rule, compile, a) && k < |a.cells| && m.id == a.cells[k].id
    requires c == if Visible(m.title) then m else m.(title := "Cell " + NatText(1 + k))
    ensures CheckPasses(rule, compile, a.cells[k := m], Some({m.id})) <==> AllValid(rule, compile, a.cells[k := c])
    ensures Save(a.cells[k := m], a.nextCell) == Analysis(a.cells[k := c], a.nextCell)
  {
    var cells := a.cells[k := m];
    FoundAt(a.cells, k, m);
    ReplaceCellExact(a.cells, m.id, m);
    SameOutsideById(cells, a.cells, {m.id});
    IncrementalIsFull(rule, compile, a.cells, cells, {m.id});
    PlaceLabels(a.cells, m, k, c);
    LabelKeepsAllValid(rule, compile, cells);
  }

  lemma {:induction false} PlaceLabels(cells: seq<Cell>, m: Cell, k: nat, c: Cell)
    requires Titled(cells) && k < |cells|
    requires c == if Visible(m.title) then m else m.(title := "Cell " + NatText(1 + k))
    ensures LabelFrom(cells[k := m], 1) == cells[k := c]
  {
    var labelled := LabelFrom(cells[k := m], 1);
    forall i | 0 <= i < |cells|
      ensures labelled[i] == cells[k := c][i]
    {
      LabelledAt(cells[k := m], 1, i);
      if i != k {
        assert cells[i] in cells;
        VisibleExactly(cells[i].title);
      }
    }
  }

  /**
   An update, in full: the cell with that id takes what was sent, in its place, and it is saved if and only if the
   result is well shaped and every cell of the analysis is valid with it; no other cell changes.
   */
  lemma {:induction false} UpdateExactly(rule: ParamRule, compile: Compiler, a: Analysis, k: nat, raw: RawCell, c: Cell)
    requires Sound(rule, compile, a) && k < |a.cells| && c.id == a.cells[k].id && Merged(raw, a.cells[k], k, c)
    ensures Edited(rule, compile, Some(a), Update(c.id, raw))
            == if Shaped(c) && AllValid(rule, compile, a.cells[k := c]) then Some(Analysis(a.cells[k := c], a.nextCell))
               else None
  {
    var m := MergeCell(c.id, raw, a.cells[k]);
    FoundAt(a.cells, k, m);
    MergedLabel(raw, a.cells[k], k, c);
    ReplacedExactly(rule, compile, a, k, m, c);
  }

  /** The number of the first free server id at or after a counter. */
  ghost predicate FirstFreeNumber(cells: seq<Cell>, from: nat, n: nat) {
    && n >= from && (forall d :: d in cells ==> d.id != "c" + NatText(n))
    && forall j: nat :: from <= j < n ==> HasId(cells, "c" + NatText(j))
  }

  predicate HasId(cells: seq<Cell>, id: string) {
    exists d :: d in cells && d.id == id
  }

  lemma {:induction false} FirstFreeNumberIs(cells: seq<Cell>, from: nat, n: nat)
    requires FirstFreeNumber(cells, from, n)
    ensures NextFree(IdSet(cells), from) == n
  {
    NextFreeExact(IdSet(cells), from);
    assert ServerId(n) !in IdSet(cells);
  }

  lemma {:induction false} AppendedExactly(rule: ParamRule, compile: Compiler, a: Analysis, next: nat, m: Cell, c: Cell)
    requires Sound(rule, compile, a) && m.id !in IdSet(a.cells)
    requires c == if Visible(m.title) then m else m.(title := "Cell " + NatText(1 + |a.cells|))
    ensures Appended(rule, compile, a.cells, m, next)
            == if CellAccepted(m) && AllValid(rule, compile, a.cells + [c]) then Some(Analysis(a.cells + [c], next))
               else None
  {
    var cells := a.cells + [m];
    AppendKeepsDistinct(a.cells, m);
    assert forall d :: d in cells <==> d in a.cells || d == m;
    SameOutsideById(cells, a.cells, {m.id});
    IncrementalIsFull(rule, compile, a.cells, cells, {m.id});
    LabelKeepsAllValid(rule, compile, cells);
    LastLabels(a.cells, m, c);
  }

  /**
   An add, in full: one cell more at the end, with the first free server id at or after the counter and what was
   sent, saved if and only if there was room, it is well shaped and every cell is valid; the counter moves past it.
   */
  lemma {:induction false} AddExactly(rule: ParamRule, compile: Compiler, a: Analysis, n: nat, raw: RawCell, c: Cell)
    requires Sound(rule, compile, a) && FirstFreeNumber(a.cells, a.nextCell, n)
    requires c.id == "c" + NatText(n) && Merged(raw, NOTHING, |a.cells|, c)
    ensures Edited(rule, compile, Some(a), Add(raw))
            == if |a.cells| < 50 && Shaped(c) && AllValid(rule, compile, a.cells + [c])
               then Some(Analysis(a.cells + [c], n + 1)) else None
  {
    hide CellAccepted, Shaped, AllValid, MergeCell, Merged, Appended, NextFree, Sound;
    FirstFreeNumberIs(a.cells, a.nextCell, n);
    NextFreeExact(IdSet(a.cells), a.nextCell);
    MergedLabel(raw, NOTHING, |a.cells|, c);
    AppendedExactly(rule, compile, a, n + 1, MergeCell(c.id, raw, DEFAULTS), c);
  }

  lemma {:induction false} LastLabels(cells: seq<Cell>, m: Cell, c: Cell)
    requires Titled(cells)
    requires c == if Visible(m.title) then m else m.(title := "Cell " + NatText(1 + |cells|))
    ensures LabelFrom(cells + [m], 1) == cells + [c]
  {
    var labelled := LabelFrom(cells + [m], 1);
    forall i | 0 <= i <= |cells|
      ensures labelled[i] == (cells + [c])[i]
    {
      LabelledAt(cells + [m], 1, i);
      if i < |cells| {
        assert cells[i] in cells;
        VisibleExactly(cells[i].title);
      }
    }
  }

  lemma {:induction false} DropAt(cells: seq<Cell>, k: nat)
    requires IdsDistinct(cells) && k < |cells|
    ensures DropCell(cells, cells[k].id) == cells[..k] + cells[k + 1..]
  {
    var rest, id := cells[1..], cells[k].id;
    assert forall i :: 0 <= i < |rest| ==> rest[i] == cells[i + 1];
    if k > 0 {
      DropAt(rest, k - 1);
      assert [cells[0]] + (rest[..k - 1] + rest[k..]) == cells[..k] + cells[k + 1..];
    } else {
      DropNothing(rest, id);
      assert [] + rest == cells[..0] + cells[1..];
    }
  }

  lemma {:induction false} DropNothing(cells: seq<Cell>, id: string)
    requires forall i :: 0 <= i < |cells| ==> cells[i].id != id
    ensures DropCell(cells, id) == cells
  {
    if cells != [] {
      var rest := cells[1..];
      assert forall i :: 0 <= i < |rest| ==> rest[i] == cells[i + 1];
      DropNothing(rest, id);
      assert cells == [cells[0]] + rest;
    }
  }

  lemma {:induction false} DeletedExactly(rule: ParamRule, compile: Compiler, a: Analysis, k: nat)
    requires Sound(rule, compile, a) && k < |a.cells|
    ensures Deleted(a, a.cells[k].id)
            == if exists i :: 0 <= i < |a.cells| && a.cells[k].id in a.cells[i].inputs then None
               else Some(Analysis(a.cells[..k] + a.cells[k + 1..], a.nextCell))
  {
    var id := a.cells[k].id;
    FoundAt(a.cells, k, a.cells[k]);
    DropAt(a.cells, k);
    DropCellExact(a.cells, id);
    TitledStays(DropCell(a.cells, id));
    ListedAt(a.cells, id);
  }

  lemma {:induction false} EditedAs(rule: ParamRule, compile: Compiler, now: Option<Analysis>)
    ensures forall raws :: Edited(rule, compile, now, Put(raws)) == Upserted(rule, compile, now, raws)
    ensures now.Some? ==> forall id :: Edited(rule, compile, now, Delete(id)) == Deleted(now.value, id)
  {
    hide Upserted, Deleted;
  }

  /** A delete, in full: it is refused while any cell lists the id, and otherwise takes exactly that cell out. */
  lemma {:induction false} DeleteExactly(rule: ParamRule, compile: Compiler, a: Analysis, k: nat)
    requires Sound(rule, compile, a) && k < |a.cells|
    ensures Edited(rule, compile, Some(a), Delete(a.cells[k].id))
            == if exists i :: 0 <= i < |a.cells| && a.cells[k].id in a.cells[i].inputs then None
               else Some(Analysis(a.cells[..k] + a.cells[k + 1..], a.nextCell))
  {
    hide *;
    EditedAs(rule, compile, Some(a));
    DeletedExactly(rule, compile, a, k);
  }

  lemma {:induction false} ListedAt(cells: seq<Cell>, id: string)
    ensures (exists c :: c in cells && id in c.inputs) <==> exists i :: 0 <= i < |cells| && id in cells[i].inputs
  {
    if c :| c in cells && id in c.inputs {
      var i :| 0 <= i < |cells| && cells[i] == c;
      assert id in cells[i].inputs;
    }
  }

  /** An id that no cell has, and an analysis that is not there, can only be refused. */
  lemma {:induction false} UnknownIsRefused(rule: ParamRule, compile: Compiler, now: Option<Analysis>, id: string,
      raw: RawCell)
    requires now.None? || forall i :: 0 <= i < |now.value.cells| ==> now.value.cells[i].id != id
    ensures Edited(rule, compile, now, Update(id, raw)) == None && Edited(rule, compile, now, Delete(id)) == None
    ensures now.None? ==> Edited(rule, compile, now, Add(raw)) == None
  {
    if now.Some? {
      CellWithFinds(now.value.cells, id);
    }
  }

  // ----- a whole PUT -----

  predicate Unnamed(raw: RawCell) {
    raw.id == None || raw.id == Some("")
  }

  /** How many of the first k cells bring no id. */
  function UnnamedBefore(raws: seq<RawCell>, k: nat): nat
    requires k <= |raws|
  {
    if k == 0 then 0 else UnnamedBefore(raws, k - 1) + (if Unnamed(raws[k - 1]) then 1 else 0)
  }

  /** A cell keeps the id it brings; one that brings none takes the next server id. */
  function IdOf(raw: RawCell, next: nat): string {
    if Unnamed(raw) then "c" + NatText(next) else raw.id.value
  }

  function IdAt(raws: seq<RawCell>, next: nat, k: nat): string
    requires k < |raws|
  {
    IdOf(raws[k], next + UnnamedBefore(raws, k))
  }

  function PriorIn(stored: Book, id: string): Cell {
    if id in stored then stored[id] else NOTHING
  }

  predicate MergedAt(raws: seq<RawCell>, stored: Book, next: nat, k: nat, m: Cell) {
    k < |raws| && m == MergeCell(IdAt(raws, next, k), raws[k], PriorIn(stored, IdAt(raws, next, k)))
  }

  /** From place k on, the cells as merged, before labels. */
  predicate MergedFrom(raws: seq<RawCell>, stored: Book, next: nat, ms: seq<Cell>, k: nat)
    requires |ms| == |raws| && k <= |ms|
    decreases |ms| - k
  {
    k == |ms| || (MergedAt(raws, stored, next, k, ms[k]) && MergedFrom(raws, stored, next, ms, k + 1))
  }

  lemma {:induction false} MergedFromAll(raws: seq<RawCell>, stored: Book, next: nat, ms: seq<Cell>, k: nat)
    requires |ms| == |raws| && k <= |ms|
    ensures MergedFrom(raws, stored, next, ms, k) <==>
            forall i :: k <= i < |ms| ==> MergedAt(raws, stored, next, i, ms[i])
    decreases |ms| - k
  {
    if k < |ms| {
      MergedFromAll(raws, stored, next, ms, k + 1);
    }
  }

  predicate Passes(raw: RawCell, m: Cell, seen: set<string>) {
    m.id !in seen && (Unnamed(raw) || CellIdOk(m.id)) && CellAccepted(m)
  }

  function SeenAt(ms: seq<Cell>, k: nat): set<string>
    requires k <= |ms|
  {
    set i | 0 <= i < k :: ms[i].id
  }

  /** Nothing from place k on is refused on its own: ids well formed and new, every cell well shaped. */
  predicate PassFrom(raws: seq<RawCell>, ms: seq<Cell>, k: nat)
    requires |ms| == |raws| && k <= |ms|
    decreases |ms| - k
  {
    k == |ms| || (Passes(raws[k], ms[k], SeenAt(ms, k)) && PassFrom(raws, ms, k + 1))
  }

  lemma {:induction false} PassFromExactly(raws: seq<RawCell>, ms: seq<Cell>, k: nat)
    requires |ms| == |raws| && k <= |ms|
    ensures PassFrom(raws, ms, k) <==> forall i :: k <= i < |ms| ==> Passes(raws[i], ms[i], SeenAt(ms, i))
    decreases |ms| - k
  {
    if k < |ms| {
      PassFromExactly(raws, ms, k + 1);
    }
  }

  lemma {:induction false} MergeStep(raws: seq<RawCell>, stored: Book, seen: set<string>, next: nat, m: Cell,
      rest: Option<(seq<Cell>, nat)>)
    requires raws != [] && m == MergeCell(IdOf(raws[0], next), raws[0], PriorIn(stored, IdOf(raws[0], next)))
    requires rest == MergeFrom(raws[1..], stored, seen + {m.id}, if Unnamed(raws[0]) then next + 1 else next)
    ensures MergeFrom(raws, stored, seen, next) == if Passes(raws[0], m, seen) then Onto([m], rest) else None
  {
  }

  lemma {:induction false} MergeNothing(raws: seq<RawCell>, stored: Book, seen: set<string>, next: nat)
    requires raws == []
    ensures MergeFrom(raws, stored, seen, next) == Some(([], next))
  {
  }

  lemma SplitAt<T>(s: seq<T>, k: nat)
    requires k < |s|
    ensures s[k..][0] == s[k] && s[k..][1..] == s[k + 1..] && [s[k]] + s[k + 1..] == s[k..]
  {
  }

  lemma {:induction false} MergeSuffix(raws: seq<RawCell>, stored: Book, next: nat, ms: seq<Cell>, k: nat)
    requires |ms| == |raws| && k <= |ms| && MergedFrom(raws, stored, next, ms, k)
    ensures MergeFrom(raws[k..], stored, SeenAt(ms, k), next + UnnamedBefore(raws, k))
            == if PassFrom(raws, ms, k) then Some((ms[k..], next + UnnamedBefore(raws, |raws|))) else None
    decreases |ms| - k
  {
    hide MergeOne, MergeCell, CellAccepted, Passes, MergeFrom;
    if k < |ms| {
      var now, seen := next + UnnamedBefore(raws, k), SeenAt(ms, k);
      SplitAt(raws, k);
      SplitAt(ms, k);
      assert SeenAt(ms, k + 1) == seen + {ms[k].id};
      MergeSuffix(raws, stored, next, ms, k + 1);
      var after := next + UnnamedBefore(raws, k + 1);
      assert after == if Unnamed(raws[k]) then now + 1 else now;
      MergeStep(raws[k..], stored, seen, now, ms[k], MergeFrom(raws[k + 1..], stored, SeenAt(ms, k + 1), after));
    } else {
      MergeNothing(raws[k..], stored, SeenAt(ms, k), next + UnnamedBefore(raws, k));
      assert raws[k..] == [] && ms[k..] == [];
    }
  }

  lemma {:induction false} MergeWhole(raws: seq<RawCell>, stored: Book, next: nat, ms: seq<Cell>)
    requires |ms| == |raws| && MergedFrom(raws, stored, next, ms, 0)
    ensures MergeFrom(raws, stored, {}, next)
            == if PassFrom(raws, ms, 0) then Some((ms, next + UnnamedBefore(raws, |raws|))) else None
  {
    hide MergeOne, MergeCell, CellAccepted;
    MergeSuffix(raws, stored, next, ms, 0);
    assert raws[0..] == raws && ms[0..] == ms && SeenAt(ms, 0) == {};
  }

  /** The counter after a PUT: past the ids it gave out and past every server-shaped id, and no further. */
  ghost predicate JustPast(cells: seq<Cell>, given: nat, after: nat) {
    && after >= given && CounterAhead(cells, after)
    && (after == given || exists c :: c in cells && Numbered(c.id) && NumberOf(c.id) + 1 == after)
  }

  lemma {:induction false} AdvancePastIsLeast(cells: seq<Cell>, given: nat)
    ensures JustPast(cells, given, AdvancePast(cells, given))
  {
    AdvancePastIsAhead(cells, given);
    if cells != [] {
      var k := |cells| - 1;
      var front := cells[..k];
      AdvancePastIsLeast(front, given);
      assert forall c :: c in cells <==> c in front || c == cells[k];
    }
  }

  lemma {:induction false} JustPastIsOne(cells: seq<Cell>, others: seq<Cell>, given: nat, after: nat)
    requires |cells| == |others| && forall k :: 0 <= k < |cells| ==> cells[k].id == others[k].id
    requires JustPast(cells, given, after)
    ensures AdvancePast(others, given) == after
  {
    AdvancePastIsLeast(others, given);
    CounterNeedsOnlyIds(others, cells, AdvancePast(others, given));
    CounterNeedsOnlyIds(cells, others, after);
  }

  /** The stored cell with an id, or nothing. */
  function PriorOf(stored: seq<Cell>, id: string): Cell {
    if stored == [] then NOTHING else if stored[0].id == id then stored[0] else PriorOf(stored[1..], id)
  }

  lemma {:induction false} PriorIsThat(stored: seq<Cell>, c: Cell)
    requires IdsDistinct(stored) && c in stored
    ensures PriorOf(stored, c.id) == c
  {
    if c != stored[0] {
      PriorIsThat(stored[1..], c);
    }
  }

  lemma {:induction false} PriorIsNothing(stored: seq<Cell>, id: string)
    requires forall c :: c in stored ==> c.id != id
    ensures PriorOf(stored, id) == NOTHING
  {
    if stored != [] {
      PriorIsNothing(stored[1..], id);
    }
  }

  lemma {:induction false} PriorOfFinds(stored: seq<Cell>, id: string)
    requires IdsDistinct(stored)
    ensures PriorOf(stored, id) == PriorIn(Index(stored), id)
  {
    IndexKeys(stored, id);
    if id in Index(stored) {
      PriorIsThat(stored, Index(stored)[id]);
    } else {
      PriorIsNothing(stored, id);
    }
  }

  ghost predicate BecomesAt(stored: seq<Cell>, raws: seq<RawCell>, next: nat, k: nat, c: Cell) {
    k < |raws| && c.id == IdAt(raws, next, k) && Merged(raws[k], PriorOf(stored, c.id), k, c)
  }

  /** What a whole submission becomes, in the order it came. */
  ghost predicate AllBecome(stored: seq<Cell>, raws: seq<RawCell>, next: nat, cells: seq<Cell>) {
    |cells| == |raws| && forall k :: 0 <= k < |cells| ==> BecomesAt(stored, raws, next, k, cells[k])
  }

  /** No id twice, each one that was brought well formed, and every cell well shaped. */
  ghost predicate WellFormedPut(raws: seq<RawCell>, cells: seq<Cell>) {
    && |cells| == |raws| && IdsDistinct(cells)
    && forall k :: 0 <= k < |cells| ==> Shaped(cells[k]) && (Unnamed(raws[k]) || CellIdOk(cells[k].id))
  }

  lemma {:induction false} PassingIsWellFormed(raws: seq<RawCell>, ms: seq<Cell>, cells: seq<Cell>)
    requires |ms| == |raws| == |cells|
    requires forall k :: 0 <= k < |ms| ==> ms[k].id == cells[k].id && (CellAccepted(ms[k]) <==> Shaped(cells[k]))
    ensures PassFrom(raws, ms, 0) <==> WellFormedPut(raws, cells)
  {
    PassFromExactly(raws, ms, 0);
    if PassFrom(raws, ms, 0) {
      forall i, j | 0 <= i < j < |cells|
        ensures cells[i].id != cells[j].id
      {
        assert Passes(raws[j], ms[j], SeenAt(ms, j)) && ms[i].id in SeenAt(ms, j);
      }
      forall k | 0 <= k < |cells|
        ensures Shaped(cells[k]) && (Unnamed(raws[k]) || CellIdOk(cells[k].id))
      {
        assert Passes(raws[k], ms[k], SeenAt(ms, k));
      }
    }
  }

  lemma {:induction false} MergedExist(raws: seq<RawCell>, stored: Book, next: nat) returns (ms: seq<Cell>)
    ensures |ms| == |raws| && MergedFrom(raws, stored, next, ms, 0)
  {
    ms := seq(|raws|, k requires 0 <= k < |raws| =>
            MergeCell(IdAt(raws, next, k), raws[k], PriorIn(stored, IdAt(raws, next, k))));
    MergedFromAll(raws, stored, next, ms, 0);
  }

  lemma {:induction false} PutLabelAt(stored: seq<Cell>, raws: seq<RawCell>, next: nat, k: nat, c: Cell, m: Cell)
    requires IdsDistinct(stored) && BecomesAt(stored, raws, next, k, c) && MergedAt(raws, Index(stored), next, k, m)
    ensures c.id == m.id && (CellAccepted(m) <==> Shaped(c))
    ensures c == if Visible(m.title) then m else m.(title := "Cell " + NatText(1 + k))
  {
    PriorOfFinds(stored, c.id);
    MergedLabel(raws[k], PriorIn(Index(stored), c.id), k, c);
  }

  lemma {:induction false} PutLabels(stored: seq<Cell>, raws: seq<RawCell>, next: nat, cells: seq<Cell>, ms: seq<Cell>)
    requires IdsDistinct(stored) && AllBecome(stored, raws, next, cells)
    requires |ms| == |raws| && MergedFrom(raws, Index(stored), next, ms, 0)
    ensures LabelFrom(ms, 1) == cells && forall k :: 0 <= k < |cells| ==> cells[k].id == ms[k].id
    ensures PassFrom(raws, ms, 0) <==> WellFormedPut(raws, cells)
  {
    var labelled := LabelFrom(ms, 1);
    MergedFromAll(raws, Index(stored), next, ms, 0);
    forall k | 0 <= k < |cells|
      ensures labelled[k] == cells[k] && cells[k].id == ms[k].id && (CellAccepted(ms[k]) <==> Shaped(cells[k]))
    {
      PutLabelAt(stored, raws, next, k, cells[k], ms[k]);
      LabelledAt(ms, 1, k);
    }
    PassingIsWellFormed(raws, ms, cells);
  }

  /** Merging and advancing the counter, as the whole submission. */
  lemma {:induction false} SubmissionExactly(stored: seq<Cell>, raws: seq<RawCell>, next: nat, cells: seq<Cell>,
      after: nat)
    requires IdsDistinct(stored) && AllBecome(stored, raws, next, cells)
    requires JustPast(cells, next + UnnamedBefore(raws, |raws|), after)
    ensures var merged := MergeFrom(raws, Index(stored), {}, next);
            && (merged.Some? <==> WellFormedPut(raws, cells))
            && (merged.Some? ==> LabelFrom(merged.value.0, 1) == cells
                                 && AdvancePast(merged.value.0, merged.value.1) == after)
  {
    hide *;
    var ms := MergedExist(raws, Index(stored), next);
    MergeWhole(raws, Index(stored), next, ms);
    PutLabels(stored, raws, next, cells, ms);
    JustPastIsOne(cells, ms, next + UnnamedBefore(raws, |raws|), after);
  }

  function StoredIn(now: Option<Analysis>): seq<Cell> {
    if now.Some? then now.value.cells else []
  }

  function NextIn(now: Option<Analysis>): nat {
    if now.Some? then now.value.nextCell else 1
  }

  lemma {:induction false} UpsertedIs(rule: ParamRule, compile: Compiler, now: Option<Analysis>, raws: seq<RawCell>)
    ensures var merged, r := MergeFrom(raws, Index(StoredIn(now)), {}, NextIn(now)), Upserted(rule, compile, now, raws);
            && (r.Some? <==> |raws| <= 50 && merged.Some? && AllValid(rule, compile, LabelFrom(merged.value.0, 1)))
            && (r.Some? ==> r.value.cells == LabelFrom(merged.value.0, 1)
                            && r.value.nextCell == AdvancePast(merged.value.0, merged.value.1))
  {
    hide MergeFrom, LabelFrom, AdvancePast, CheckPasses, AllValid;
    var merged := MergeFrom(raws, Index(StoredIn(now)), {}, NextIn(now));
    assert now.None? ==> Index(StoredIn(now)) == map[];
    if merged.Some? {
      FullCheck(rule, compile, LabelFrom(merged.value.0, 1));
    }
  }

  lemma {:induction false} StoredIsDistinct(rule: ParamRule, compile: Compiler, now: Option<Analysis>)
    requires now.Some? ==> Sound(rule, compile, now.value)
    ensures IdsDistinct(StoredIn(now))
  {
  }

  lemma {:induction false} FullCheck(rule: ParamRule, compile: Compiler, cells: seq<Cell>)
    ensures CheckPasses(rule, compile, cells, None) <==> AllValid(rule, compile, cells)
  {
    hide CellValid;
  }

  lemma {:induction false} UpsertedExactly(rule: ParamRule, compile: Compiler, now: Option<Analysis>,
      raws: seq<RawCell>, cells: seq<Cell>, after: nat)
    requires now.Some? ==> Sound(rule, compile, now.value)
    requires AllBecome(StoredIn(now), raws, NextIn(now), cells)
    requires JustPast(cells, NextIn(now) + UnnamedBefore(raws, |raws|), after)
    ensures var r := Upserted(rule, compile, now, raws);
            && (r.Some? <==> |raws| <= 50 && WellFormedPut(raws, cells) && AllValid(rule, compile, cells))
            && (r.Some? ==> r.value.cells == cells && r.value.nextCell == after)
  {
    hide *;
    UpsertedIs(rule, compile, now, raws);
    var merged := MergeFrom(raws, Index(StoredIn(now)), {}, NextIn(now));
    assert && (merged.Some? <==> WellFormedPut(raws, cells))
           && (merged.Some? ==> LabelFrom(merged.value.0, 1) == cells
                                && AdvancePast(merged.value.0, merged.value.1) == after) by {
      StoredIsDistinct(rule, compile, now);
      SubmissionExactly(StoredIn(now), raws, NextIn(now), cells, after);
    }
  }

  /**
   A whole PUT, in full: each cell takes what was sent over the stored cell with its id, or over nothing; it is saved
   if and only if there are at most fifty, no id comes twice, each is well formed and well shaped and every one is
   valid; and the counter is then just past every id in use or given out.
   */
  lemma {:induction false} PutExactly(rule: ParamRule, compile: Compiler, now: Option<Analysis>, raws: seq<RawCell>,
      cells: seq<Cell>, after: nat)
    requires now.Some? ==> Sound(rule, compile, now.value)
    requires AllBecome(StoredIn(now), raws, NextIn(now), cells)
    requires JustPast(cells, NextIn(now) + UnnamedBefore(raws, |raws|), after)
    ensures var r := Edited(rule, compile, now, Put(raws));
            && (r.Some? <==> |raws| <= 50 && WellFormedPut(raws, cells) && AllValid(rule, compile, cells))
            && (r.Some? ==> r.value.cells == cells && r.value.nextCell == after)
  {
    hide *;
    assert Edited(rule, compile, now, Put(raws)) == Upserted(rule, compile, now, raws) by {
      EditedAs(rule, compile, now);
    }
    UpsertedExactly(rule, compile, now, raws, cells, after);
  }

  /** A run is its edits one after the other: each is applied to what the ones before left, or leaves it as it is. */
  lemma {:induction false} RunGoesOn(rule: ParamRule, compile: Compiler, start: Option<Analysis>, edits: seq<Edit>,
      edit: Edit)
    ensures Run(rule, compile, start, []) == start
    ensures var now := Run(rule, compile, start, edits);
            Run(rule, compile, start, edits + [edit])
            == match Edited(rule, compile, now, edit)
               case None => now
               case Some(next) => Some(next)
  {
    hide Edited;
    assert (edits + [edit])[..|edits|] == edits;
  }
}
