/**
 An Iceberg-backed dataset: snapshots oldest first, named pointers into them, and the version rows that pin
 them. Branches merge by fast-forward only.
 */
module Iceberg {
  import opened Common

  type Row(==, !new)

  type Rows = seq<Row>

  /** Snapshot ids are positive: the code takes zero for no id at all. */
  type Id = n: nat | n > 0 witness 1

  datatype Snapshot = Snapshot(id: Id, parent: Option<Id>, rows: Rows)

  datatype Version = Version(snapshot: Option<Id>, rowCount: nat)

  datatype Table = Table(snapshots: seq<Snapshot>, refs: map<string, Id>, versions: seq<Version>)

  const MAIN := "main"

  datatype Failure = NoBranch | NoVersion | NoSnapshot | BadName | Exists | IsMain | Diverged

  // ----- the history -----

  predicate Listed(snapshots: seq<Snapshot>, id: Id) {
    exists s :: s in snapshots && s.id == id
  }

  /** tbl.metadata.snapshots as a dictionary. */
  function ById(snapshots: seq<Snapshot>, id: Id): (r: Option<Snapshot>)
    ensures r.Some? <==> Listed(snapshots, id)
    ensures r.Some? ==> r.value in snapshots && r.value.id == id
  {
    if snapshots == [] then None
    else
      var last := snapshots[|snapshots| - 1];
      if last.id == id then Some(last)
      else
        assert snapshots == snapshots[..|snapshots| - 1] + [last];
        ById(snapshots[..|snapshots| - 1], id)
  }

  predicate DistinctIds(snapshots: seq<Snapshot>) {
    forall i, j :: 0 <= i < j < |snapshots| ==> snapshots[i].id != snapshots[j].id
  }

  /** A parent that is still listed is listed before its child. */
  predicate OlderParents(snapshots: seq<Snapshot>) {
    forall i, j :: 0 <= i < |snapshots| && 0 <= j < |snapshots| && snapshots[i].parent == Some(snapshots[j].id) ==>
      j < i
  }

  /** A chain of listed snapshots, each the parent of the one before it. */
  predicate Chain(snapshots: seq<Snapshot>, c: seq<Id>) {
    && c != []
    && ById(snapshots, c[0]).Some?
    && (|c| > 1 ==> ById(snapshots, c[0]).value.parent == Some(c[1]) && Chain(snapshots, c[1..]))
  }

  ghost predicate ChainBetween(snapshots: seq<Snapshot>, c: seq<Id>, id: Id, ancestor: Id) {
    Chain(snapshots, c) && c[0] == id && c[|c| - 1] == ancestor
  }

  ghost predicate Descends(snapshots: seq<Snapshot>, id: Id, ancestor: Id) {
    exists c :: ChainBetween(snapshots, c, id, ancestor)
  }

  lemma DescendsSelf(snapshots: seq<Snapshot>, id: Id)
    requires Listed(snapshots, id)
    ensures Descends(snapshots, id, id)
  {
    assert ChainBetween(snapshots, [id], id, id);
  }

  lemma {:induction false} DescendsStep(snapshots: seq<Snapshot>, id: Id, ancestor: Id)
    ensures Descends(snapshots, id, ancestor) <==>
            var s := ById(snapshots, id);
            s.Some? && (id == ancestor || (s.value.parent.Some? && Descends(snapshots, s.value.parent.value, ancestor)))
  {
    var s := ById(snapshots, id);
    if Descends(snapshots, id, ancestor) && id != ancestor {
      var c :| ChainBetween(snapshots, c, id, ancestor);
      assert ChainBetween(snapshots, c[1..], c[1], ancestor);
    }
    if s.Some? && id == ancestor {
      DescendsSelf(snapshots, id);
    }
    if s.Some? && s.value.parent.Some? && Descends(snapshots, s.value.parent.value, ancestor) {
      var c :| ChainBetween(snapshots, c, s.value.parent.value, ancestor);
      assert ([id] + c)[1..] == c;
      assert ChainBetween(snapshots, [id] + c, id, ancestor);
    }
  }

  lemma {:induction false} ChainAppend(snapshots: seq<Snapshot>, c: seq<Id>, d: seq<Id>)
    requires Chain(snapshots, c) && Chain(snapshots, d) && c[|c| - 1] == d[0]
    ensures Chain(snapshots, c + d[1..])
  {
    if |c| == 1 {
      assert c + d[1..] == d;
    } else {
      ChainAppend(snapshots, c[1..], d);
      assert (c + d[1..])[1..] == c[1..] + d[1..];
    }
  }

  lemma DescendsTrans(snapshots: seq<Snapshot>, a: Id, b: Id, c: Id)
    requires Descends(snapshots, a, b) && Descends(snapshots, b, c)
    ensures Descends(snapshots, a, c)
  {
    var p :| ChainBetween(snapshots, p, a, b);
    var q :| ChainBetween(snapshots, q, b, c);
    ChainAppend(snapshots, p, q);
    assert ChainBetween(snapshots, p + q[1..], a, c);
  }

  function IndexOfId(snapshots: seq<Snapshot>, id: Id): (k: nat)
    requires Listed(snapshots, id)
    ensures k < |snapshots| && snapshots[k].id == id
  {
    if snapshots[0].id == id then 0
    else
      assert snapshots == [snapshots[0]] + snapshots[1..];
      1 + IndexOfId(snapshots[1..], id)
  }

  lemma {:induction false} ParentIsOlder(snapshots: seq<Snapshot>, id: Id)
    requires OlderParents(snapshots) && DistinctIds(snapshots) && Listed(snapshots, id)
    requires var p := ById(snapshots, id).value.parent; p.Some? && Listed(snapshots, p.value)
    ensures IndexOfId(snapshots, ById(snapshots, id).value.parent.value) < IndexOfId(snapshots, id)
  {
    var s := ById(snapshots, id).value;
    var i, j := IndexOfId(snapshots, id), IndexOfId(snapshots, s.parent.value);
    var k :| 0 <= k < |snapshots| && snapshots[k] == s;
    assert k == i;
  }

  /** `_descends_from`: the walk up the parents ends, and decides ancestry. */
  method DescendsFrom(snapshots: seq<Snapshot>, id: Id, ancestor: Id) returns (yes: bool)
    requires OlderParents(snapshots) && DistinctIds(snapshots)
    ensures yes <==> Descends(snapshots, id, ancestor)
  {
    var current := ById(snapshots, id);
    DescendsStep(snapshots, id, ancestor);
    while current.Some?
      invariant current.Some? ==> ById(snapshots, current.value.id) == current
      invariant Descends(snapshots, id, ancestor) <==>
                current.Some? && Descends(snapshots, current.value.id, ancestor)
      decreases if current.Some? then 1 + IndexOfId(snapshots, current.value.id) else 0
    {
      var here := current.value;
      DescendsStep(snapshots, here.id, ancestor);
      if here.id == ancestor {
        return true;
      }
      if here.parent.Some? {
        current := ById(snapshots, here.parent.value);
        DescendsStep(snapshots, here.parent.value, ancestor);
        if current.Some? {
          ParentIsOlder(snapshots, here.id);
        }
      } else {
        current := None;
      }
    }
    return false;
  }

  /** The n-th snapshot up the parents, if the walk gets that far. */
  function Climb(snapshots: seq<Snapshot>, id: Id, n: nat): Option<Snapshot> {
    if n == 0 then ById(snapshots, id)
    else
      var s := Climb(snapshots, id, n - 1);
      if s.Some? && s.value.parent.Some? then ById(snapshots, s.value.parent.value) else None
  }

  /** Why the order matters: two snapshots naming each other as parents are walked for ever. */
  lemma {:induction false} ParentLoopNeverEnds(n: nat, rows: Rows)
    ensures var loop := [Snapshot(1, Some(2), rows), Snapshot(2, Some(1), rows)];
            !OlderParents(loop) && Climb(loop, 1, n).Some? && Climb(loop, 1, n).value in loop
  {
    var loop := [Snapshot(1, Some(2), rows), Snapshot(2, Some(1), rows)];
    assert loop[0].parent == Some(loop[1].id);
    assert loop[0] in loop && loop[1] in loop;
    if n > 0 {
      ParentLoopNeverEnds(n - 1, rows);
    }
  }

  // ----- what always holds -----

  predicate ParentsListed(snapshots: seq<Snapshot>) {
    forall s :: s in snapshots && s.parent.Some? ==> Listed(snapshots, s.parent.value)
  }

  predicate Sound(t: Table) {
    && DistinctIds(t.snapshots) && OlderParents(t.snapshots) && ParentsListed(t.snapshots)
    && (forall r :: r in t.refs ==> Listed(t.snapshots, t.refs[r]))
    && (forall v :: v in t.versions && v.snapshot.Some? ==>
          Listed(t.snapshots, v.snapshot.value) && v.rowCount == |RowsAt(t, v.snapshot.value)|)
  }

  function RowsAt(t: Table, id: Id): Rows {
    var s := ById(t.snapshots, id);
    if s.Some? then s.value.rows else []
  }

  /** `read_iceberg`: a version's pinned rows; a version that pins nothing, or no version, reads main. */
  function Read(t: Table, version: Option<nat>): Result<Rows, Failure> {
    if version.Some? && version.value >= |t.versions| then Err(NoVersion)
    else
      var pinned := if version.Some? then t.versions[version.value].snapshot else None;
      if pinned.Some? then Ok(RowsAt(t, pinned.value))
      else Ok(if MAIN in t.refs then RowsAt(t, t.refs[MAIN]) else [])
  }

  // ----- the operations, on values -----

  datatype Mode = Append | Replace

  function Tip(t: Table, branch: string): Option<Id> {
    if branch in t.refs then Some(t.refs[branch]) else None
  }

  /** One more snapshot on a branch. */
  function Committed(t: Table, branch: string, id: Id, rows: Rows): Table {
    t.(snapshots := t.snapshots + [Snapshot(id, Tip(t, branch), rows)], refs := t.refs[branch := id])
  }

  function BranchRows(t: Table, branch: string): Rows {
    if branch in t.refs then RowsAt(t, t.refs[branch]) else []
  }

  /** An append is one snapshot; a replace is one, or a delete and an append. */
  function Written(t: Table, branch: string, mode: Mode, rows: Rows, id: Id, clearing: Option<Id>): Table {
    match mode
    case Append => Committed(t, branch, id, BranchRows(t, branch) + rows)
    case Replace =>
      var cleared := if clearing.Some? then Committed(t, branch, clearing.value, []) else t;
      Committed(cleared, branch, id, rows)
  }

  /** add_version: the next row names the snapshot the table is at. */
  function Recorded(t: Table, id: Id): Table {
    t.(versions := t.versions + [Version(Some(id), |RowsAt(t, id)|)])
  }

  function CreateBranch(t: Table, branch: string, nameOk: bool, fromVersion: Option<nat>): Result<Table, Failure> {
    if fromVersion.Some? && fromVersion.value >= |t.versions| then Err(NoVersion)
    else if branch == MAIN then Err(IsMain)
    else if !nameOk then Err(BadName)
    else if branch in t.refs then Err(Exists)
    else
      var pinned := if fromVersion.Some? then t.versions[fromVersion.value].snapshot else None;
      if pinned.Some? then Ok(t.(refs := t.refs[branch := pinned.value]))
      else if MAIN in t.refs then Ok(t.(refs := t.refs[branch := t.refs[MAIN]]))
      else Err(NoBranch)
  }

  function DeleteBranch(t: Table, branch: string): Result<Table, Failure> {
    if branch == MAIN then Err(IsMain)
    else if branch !in t.refs then Err(NoBranch)
    else Ok(t.(refs := t.refs - {branch}))
  }

  ghost function MergeBranch(t: Table, branch: string): Result<Table, Failure> {
    if branch !in t.refs || MAIN !in t.refs then Err(NoBranch)
    else if t.refs[branch] == t.refs[MAIN] then Ok(t)
    else if Descends(t.snapshots, t.refs[branch], t.refs[MAIN]) then Ok(t.(refs := t.refs[MAIN := t.refs[branch]]))
    else Err(Diverged)
  }

  datatype Step =
    | Write(branch: string, mode: Mode, rows: Rows, id: Id, clearing: Option<Id>, recorded: bool)
    | Branch(branch: string, nameOk: bool, fromVersion: Option<nat>)
    | Delete(branch: string)
    | Merge(branch: string, recorded: bool)

  /** The snapshot ids a write brings are new. */
  predicate NewIds(t: Table, id: Id, clearing: Option<Id>) {
    !Listed(t.snapshots, id) && (clearing.Some? ==> !Listed(t.snapshots, clearing.value) && clearing.value != id)
  }

  /** One step; a refused one changes nothing. A step on main may die before its version row is recorded. */
  ghost function After(t: Table, step: Step): Table {
    match step
    case Write(branch, mode, rows, id, clearing, recorded) =>
      if !NewIds(t, id, clearing) then t
      else
        var w := Written(t, branch, mode, rows, id, clearing);
        if recorded && branch == MAIN then Recorded(w, id) else w
    case Branch(branch, nameOk, fromVersion) =>
      var r := CreateBranch(t, branch, nameOk, fromVersion);
      if r.Ok? then r.value else t
    case Delete(branch) =>
      var r := DeleteBranch(t, branch);
      if r.Ok? then r.value else t
    case Merge(branch, recorded) =>
      var r := MergeBranch(t, branch);
      if r.Err? then t
      else if recorded then Recorded(r.value, r.value.refs[MAIN]) else r.value
  }

  ghost function AfterAll(t: Table, steps: seq<Step>): Table
    decreases |steps|
  {
    if steps == [] then t else AfterAll(After(t, steps[0]), steps[1..])
  }

  // ----- one step -----

  lemma {:induction false} ByIdGrows(snapshots: seq<Snapshot>, more: seq<Snapshot>, id: Id)
    requires Listed(snapshots, id) && DistinctIds(snapshots + more)
    ensures ById(snapshots + more, id) == ById(snapshots, id)
  {
    var all := snapshots + more;
    var a, b := ById(snapshots, id).value, ById(all, id).value;
    var i :| 0 <= i < |snapshots| && snapshots[i] == a;
    var j :| 0 <= j < |all| && all[j] == b;
    assert all[i].id == all[j].id;
  }

  lemma {:induction false} ChainGrows(snapshots: seq<Snapshot>, more: seq<Snapshot>, c: seq<Id>)
    requires Chain(snapshots, c) && DistinctIds(snapshots + more)
    ensures Chain(snapshots + more, c)
  {
    ByIdGrows(snapshots, more, c[0]);
    if |c| > 1 {
      ChainGrows(snapshots, more, c[1..]);
    }
  }

  lemma DescendsGrows(snapshots: seq<Snapshot>, more: seq<Snapshot>, id: Id, ancestor: Id)
    requires Descends(snapshots, id, ancestor) && DistinctIds(snapshots + more)
    ensures Descends(snapshots + more, id, ancestor)
  {
    var c :| ChainBetween(snapshots, c, id, ancestor);
    ChainGrows(snapshots, more, c);
    assert ChainBetween(snapshots + more, c, id, ancestor);
  }

  /** What every step keeps, and what main may only do. */
  ghost predicate Forward(t: Table, t': Table) {
    && Sound(t')
    && t.snapshots <= t'.snapshots && t.versions <= t'.versions
    && (MAIN in t.refs ==> MAIN in t'.refs && Descends(t'.snapshots, t'.refs[MAIN], t.refs[MAIN]))
  }

  lemma ForwardSelf(t: Table)
    requires Sound(t)
    ensures Forward(t, t)
  {
    if MAIN in t.refs {
      DescendsSelf(t.snapshots, t.refs[MAIN]);
    }
  }

  lemma ForwardTrans(a: Table, b: Table, c: Table)
    requires Forward(a, b) && Forward(b, c)
    ensures Forward(a, c)
  {
    if MAIN in a.refs {
      var more := c.snapshots[|b.snapshots|..];
      assert c.snapshots == b.snapshots + more;
      DescendsGrows(b.snapshots, more, b.refs[MAIN], a.refs[MAIN]);
      DescendsTrans(c.snapshots, c.refs[MAIN], b.refs[MAIN], a.refs[MAIN]);
    }
  }

  lemma ListedGrows(snapshots: seq<Snapshot>, s: Snapshot, id: Id)
    ensures Listed(snapshots + [s], id) <==> Listed(snapshots, id) || id == s.id
  {
    var all := snapshots + [s];
    assert all[|snapshots|] == s;
    if Listed(snapshots, id) {
      var x :| x in snapshots && x.id == id;
      assert x in all;
    }
    if Listed(all, id) && id != s.id {
      var x :| x in all && x.id == id;
      assert x in snapshots;
    }
  }

  lemma HistoryGrows(snapshots: seq<Snapshot>, s: Snapshot)
    requires DistinctIds(snapshots) && OlderParents(snapshots) && ParentsListed(snapshots) && !Listed(snapshots, s.id)
    requires s.parent.Some? ==> Listed(snapshots, s.parent.value)
    ensures DistinctIds(snapshots + [s]) && OlderParents(snapshots + [s]) && ParentsListed(snapshots + [s])
  {
    var all := snapshots + [s];
    forall i | 0 <= i < |snapshots|
      ensures all[i].id != s.id && all[i].parent != Some(s.id)
    {
      assert snapshots[i] in snapshots;
    }
    assert s.parent != Some(s.id);
    forall x | x in all && x.parent.Some?
      ensures Listed(all, x.parent.value)
    {
      ListedGrows(snapshots, s, x.parent.value);
      assert x in snapshots || x == s;
    }
  }

  lemma CommittedForward(t: Table, branch: string, id: Id, rows: Rows)
    requires Sound(t) && !Listed(t.snapshots, id)
    ensures Forward(t, Committed(t, branch, id, rows))
    ensures forall x :: Listed(Committed(t, branch, id, rows).snapshots, x) <==> Listed(t.snapshots, x) || x == id
    ensures RowsAt(Committed(t, branch, id, rows), id) == rows
  {
    var s := Snapshot(id, Tip(t, branch), rows);
    var t' := Committed(t, branch, id, rows);
    HistoryGrows(t.snapshots, s);
    assert t'.snapshots[..|t'.snapshots| - 1] == t.snapshots;
    assert ById(t'.snapshots, id) == Some(s);
    forall x
      ensures Listed(t'.snapshots, x) <==> Listed(t.snapshots, x) || x == id
    {
      ListedGrows(t.snapshots, s, x);
    }
    forall v | v in t.versions && v.snapshot.Some?
      ensures RowsAt(t', v.snapshot.value) == RowsAt(t, v.snapshot.value)
    {
      ByIdGrows(t.snapshots, [s], v.snapshot.value);
    }
    if MAIN in t.refs {
      CommittedMovesMain(t, branch, s);
    }
  }

  lemma CommittedMovesMain(t: Table, branch: string, s: Snapshot)
    requires MAIN in t.refs && Listed(t.snapshots, t.refs[MAIN]) && s.parent == Tip(t, branch)
    ensures var all := t.snapshots + [s];
            Descends(all, if branch == MAIN then s.id else t.refs[MAIN], t.refs[MAIN])
  {
    var all := t.snapshots + [s];
    ListedGrows(t.snapshots, s, t.refs[MAIN]);
    DescendsSelf(all, t.refs[MAIN]);
    assert all[..|all| - 1] == t.snapshots;
    DescendsStep(all, s.id, t.refs[MAIN]);
  }

  lemma WrittenForward(t: Table, branch: string, mode: Mode, rows: Rows, id: Id, clearing: Option<Id>)
    requires Sound(t) && NewIds(t, id, clearing)
    ensures var t' := Written(t, branch, mode, rows, id, clearing);
            && Forward(t, t') && Tip(t', branch) == Some(id) && t'.versions == t.versions && Listed(t'.snapshots, id)
            && RowsAt(t', id) == (match mode case Append => BranchRows(t, branch) + rows case Replace => rows)
  {
    if mode.Replace? && clearing.Some? {
      var cleared := Committed(t, branch, clearing.value, []);
      CommittedForward(t, branch, clearing.value, []);
      CommittedForward(cleared, branch, id, rows);
      ForwardTrans(t, cleared, Committed(cleared, branch, id, rows));
    } else {
      CommittedForward(t, branch, id, if mode.Append? then BranchRows(t, branch) + rows else rows);
    }
  }

  lemma RecordedForward(t: Table, id: Id)
    requires Sound(t) && Listed(t.snapshots, id)
    ensures Forward(t, Recorded(t, id))
  {
    ForwardSelf(t);
  }

  lemma CreateForward(t: Table, branch: string, nameOk: bool, fromVersion: Option<nat>)
    requires Sound(t) && CreateBranch(t, branch, nameOk, fromVersion).Ok?
    ensures Forward(t, CreateBranch(t, branch, nameOk, fromVersion).value)
  {
    ForwardSelf(t);
    if fromVersion.Some? {
      assert t.versions[fromVersion.value] in t.versions;
    }
  }

  lemma DeleteForward(t: Table, branch: string)
    requires Sound(t) && DeleteBranch(t, branch).Ok?
    ensures Forward(t, DeleteBranch(t, branch).value)
  {
    ForwardSelf(t);
  }

  lemma MergeForward(t: Table, branch: string)
    requires Sound(t) && MergeBranch(t, branch).Ok?
    ensures Forward(t, MergeBranch(t, branch).value)
    ensures MAIN in MergeBranch(t, branch).value.refs
  {
    ForwardSelf(t);
  }

  lemma StepForward(t: Table, step: Step)
    requires Sound(t)
    ensures Forward(t, After(t, step))
  {
    ForwardSelf(t);
    match step
    case Write(branch, mode, rows, id, clearing, recorded) =>
      if NewIds(t, id, clearing) {
        WrittenForward(t, branch, mode, rows, id, clearing);
        var w := Written(t, branch, mode, rows, id, clearing);
        RecordedForward(w, id);
        ForwardTrans(t, w, Recorded(w, id));
      }
    case Branch(branch, nameOk, fromVersion) =>
      if CreateBranch(t, branch, nameOk, fromVersion).Ok? {
        CreateForward(t, branch, nameOk, fromVersion);
      }
    case Delete(branch) =>
      if DeleteBranch(t, branch).Ok? {
        DeleteForward(t, branch);
      }
    case Merge(branch, recorded) =>
      if MergeBranch(t, branch).Ok? {
        MergeForward(t, branch);
        var m := MergeBranch(t, branch).value;
        RecordedForward(m, m.refs[MAIN]);
        ForwardTrans(t, m, Recorded(m, m.refs[MAIN]));
      }
  }

  // ----- whole runs -----

  /**
   Over any run of writes, branch cuts, branch deletes and merges, main's earlier tip stays an ancestor of its
   current one, no snapshot or version row is lost, and the table stays sound.
   */
  lemma {:induction false} MainOnlyMovesForward(t: Table, steps: seq<Step>)
    requires Sound(t)
    ensures Forward(t, AfterAll(t, steps))
    decreases |steps|
  {
    if steps == [] {
      ForwardSelf(t);
    } else {
      StepForward(t, steps[0]);
      MainOnlyMovesForward(After(t, steps[0]), steps[1..]);
      ForwardTrans(t, After(t, steps[0]), AfterAll(t, steps));
    }
  }

  /** A version that pins a snapshot reads the same rows for ever, and its row count is their number. */
  lemma {:induction false} PinnedReadsForEver(t: Table, steps: seq<Step>, v: nat)
    requires Sound(t) && v < |t.versions| && t.versions[v].snapshot.Some?
    ensures Read(AfterAll(t, steps), Some(v)) == Read(t, Some(v))
    ensures Read(t, Some(v)).Ok? && |Read(t, Some(v)).value| == t.versions[v].rowCount
  {
    var t' := AfterAll(t, steps);
    MainOnlyMovesForward(t, steps);
    assert t.versions[v] in t.versions;
    var more := t'.snapshots[|t.snapshots|..];
    assert t'.snapshots == t.snapshots + more;
    ByIdGrows(t.snapshots, more, t.versions[v].snapshot.value);
  }

  lemma OldHistoryKept(older: seq<Snapshot>, newer: seq<Snapshot>, tip: Id, next: Id, ancestor: Id)
    requires older <= newer && DistinctIds(newer) && Descends(older, tip, ancestor) && Descends(newer, next, tip)
    ensures Descends(newer, next, ancestor)
  {
    var more := newer[|older|..];
    assert newer == older + more;
    DescendsGrows(older, more, tip, ancestor);
    DescendsTrans(newer, next, tip, ancestor);
  }

  /** Everything main's history held, it still holds after a merge or any other step. */
  lemma {:induction false} HistoryIsKept(t: Table, steps: seq<Step>, ancestor: Id)
    requires Sound(t) && MAIN in t.refs && Descends(t.snapshots, t.refs[MAIN], ancestor)
    ensures var t' := AfterAll(t, steps); MAIN in t'.refs && Descends(t'.snapshots, t'.refs[MAIN], ancestor)
  {
    var t' := AfterAll(t, steps);
    MainOnlyMovesForward(t, steps);
    OldHistoryKept(t.snapshots, t'.snapshots, t.refs[MAIN], t'.refs[MAIN], ancestor);
  }

  lemma {:induction false} ChainIsOlder(snapshots: seq<Snapshot>, c: seq<Id>)
    requires OlderParents(snapshots) && DistinctIds(snapshots) && Chain(snapshots, c)
    ensures Listed(snapshots, c[|c| - 1]) && IndexOfId(snapshots, c[|c| - 1]) <= IndexOfId(snapshots, c[0])
    ensures |c| > 1 ==> IndexOfId(snapshots, c[|c| - 1]) < IndexOfId(snapshots, c[0])
  {
    if |c| > 1 {
      ChainIsOlder(snapshots, c[1..]);
      ParentIsOlder(snapshots, c[0]);
    }
  }

  /**
   Once main has moved past a branch's tip, by a write or another merge, merging that branch is refused: an
   older snapshot never becomes main again.
   */
  lemma StaleBranchIsRefused(t: Table, branch: string)
    requires Sound(t) && MAIN in t.refs && branch in t.refs
    requires t.refs[branch] != t.refs[MAIN] && Descends(t.snapshots, t.refs[MAIN], t.refs[branch])
    ensures MergeBranch(t, branch) == Err(Diverged)
  {
    if Descends(t.snapshots, t.refs[branch], t.refs[MAIN]) {
      var p :| ChainBetween(t.snapshots, p, t.refs[MAIN], t.refs[branch]);
      var q :| ChainBetween(t.snapshots, q, t.refs[branch], t.refs[MAIN]);
      ChainIsOlder(t.snapshots, p);
      ChainIsOlder(t.snapshots, q);
      assert false;
    }
  }

  /** A recorded write is read back as the version it recorded: the appended history, or the new rows alone. */
  lemma WriteReadsBack(t: Table, mode: Mode, rows: Rows, id: Id, clearing: Option<Id>)
    requires Sound(t) && NewIds(t, id, clearing)
    ensures Read(After(t, Write(MAIN, mode, rows, id, clearing, true)), Some(|t.versions|))
            == Ok(if mode == Append then BranchRows(t, MAIN) + rows else rows)
  {
    WrittenForward(t, MAIN, mode, rows, id, clearing);
  }

  // ----- what each operation does to what readers see -----

  /** A listed snapshot with this id holds these rows. */
  ghost predicate Holds(t: Table, id: Id, rows: Rows) {
    exists s :: s in t.snapshots && s.id == id && s.rows == rows
  }

  /** The rows a name points at; nothing where there is no such name. */
  ghost predicate Shows(t: Table, name: string, rows: Rows) {
    if name in t.refs then Holds(t, t.refs[name], rows) else rows == []
  }

  /** A read, exactly: of a version that pins a snapshot, that snapshot's rows; of any other, or of none, main's. */
  lemma ReadExactly(t: Table, version: Option<nat>, rows: Rows)
    requires Sound(t)
    ensures Read(t, version) == Ok(rows) <==>
            && (version.Some? ==> version.value < |t.versions|)
            && if version.Some? && t.versions[version.value].snapshot.Some?
               then Holds(t, t.versions[version.value].snapshot.value, rows)
               else Shows(t, MAIN, rows)
    ensures Read(t, version) == Err(NoVersion) <==> version.Some? && version.value >= |t.versions|
  {
    if version.Some? && version.value < |t.versions| {
      assert t.versions[version.value] in t.versions;
      if t.versions[version.value].snapshot.Some? {
        HoldsExactly(t, t.versions[version.value].snapshot.value, rows);
      }
    }
    ShowsExactly(t, MAIN, rows);
  }

  lemma HoldsExactly(t: Table, id: Id, rows: Rows)
    requires Sound(t) && Listed(t.snapshots, id)
    ensures Holds(t, id, rows) <==> RowsAt(t, id) == rows
  {
    var found := ById(t.snapshots, id).value;
    if s :| s in t.snapshots && s.id == id && s.rows == rows {
      var i :| 0 <= i < |t.snapshots| && t.snapshots[i] == s;
      var j :| 0 <= j < |t.snapshots| && t.snapshots[j] == found;
    }
  }

  lemma ShowsExactly(t: Table, name: string, rows: Rows)
    requires Sound(t)
    ensures Shows(t, name, rows) <==> BranchRows(t, name) == rows
  {
    if name in t.refs {
      HoldsExactly(t, t.refs[name], rows);
    }
  }

  /**
   A merge, exactly. It goes through if and only if both names exist and main's tip is on the branch's parent chain;
   then main is where the branch is, the branch and every other name stay, no snapshot is written, and both main and
   the version it records read what the branch read.
   */
  lemma {:induction false} MergeExactly(t: Table, branch: string, recorded: bool, rows: Rows)
    requires Sound(t) && Shows(t, branch, rows)
    ensures MergeBranch(t, branch).Ok? <==>
            branch in t.refs && MAIN in t.refs && Descends(t.snapshots, t.refs[branch], t.refs[MAIN])
    ensures MergeBranch(t, branch).Err? ==> After(t, Merge(branch, recorded)) == t
    ensures MergeBranch(t, branch).Ok? ==>
              var u := After(t, Merge(branch, recorded));
              && u.snapshots == t.snapshots && u.refs == t.refs[MAIN := t.refs[branch]]
              && u.versions == t.versions + (if recorded then [Version(Some(t.refs[branch]), |rows|)] else [])
              && Read(u, None) == Ok(rows) && Shows(u, branch, rows)
              && (recorded ==> Read(u, Some(|t.versions|)) == Ok(rows))
  {
    hide Sound;
    ShowsExactly(t, branch, rows);
    if branch in t.refs && MAIN in t.refs {
      if t.refs[branch] == t.refs[MAIN] {
        DescendsSelf(t.snapshots, t.refs[MAIN]);
      }
      if MergeBranch(t, branch).Ok? {
        StepForward(t, Merge(branch, recorded));
        var u := After(t, Merge(branch, recorded));
        assert RowsAt(u, t.refs[branch]) == RowsAt(t, t.refs[branch]);
        ShowsExactly(u, branch, rows);
        assert t.versions + [] == t.versions;
      }
    }
  }

  /** Where a new branch begins: the snapshot the version pins, or main's. */
  ghost predicate StartsAt(t: Table, fromVersion: Option<nat>, base: Id) {
    if fromVersion.Some? && fromVersion.value < |t.versions| && t.versions[fromVersion.value].snapshot.Some?
    then base == t.versions[fromVersion.value].snapshot.value
    else MAIN in t.refs && base == t.refs[MAIN]
  }

  /**
   Cutting a branch, exactly. It goes through if and only if the version exists, the name is fit, not main's and not
   taken, and there is a snapshot to begin at; then the new name points there, reads what that version reads, and
   nothing else is touched.
   */
  lemma BranchExactly(t: Table, branch: string, nameOk: bool, fromVersion: Option<nat>, base: Id)
    requires Sound(t)
    ensures CreateBranch(t, branch, nameOk, fromVersion).Ok? <==>
            && (fromVersion.Some? ==> fromVersion.value < |t.versions|)
            && branch != MAIN && nameOk && branch !in t.refs && exists b :: StartsAt(t, fromVersion, b)
    ensures CreateBranch(t, branch, nameOk, fromVersion).Err? ==> After(t, Branch(branch, nameOk, fromVersion)) == t
    ensures CreateBranch(t, branch, nameOk, fromVersion).Ok? && StartsAt(t, fromVersion, base) ==>
              var u := After(t, Branch(branch, nameOk, fromVersion));
              && u.snapshots == t.snapshots && u.versions == t.versions && u.refs == t.refs[branch := base]
              && Read(t, fromVersion).Ok? && Shows(u, branch, Read(t, fromVersion).value)
  {
    var r := CreateBranch(t, branch, nameOk, fromVersion);
    if r.Ok? {
      var u := r.value;
      assert StartsAt(t, fromVersion, u.refs[branch]);
      if fromVersion.Some? {
        assert t.versions[fromVersion.value] in t.versions;
      }
      StepForward(t, Branch(branch, nameOk, fromVersion));
      ReadExactly(t, fromVersion, Read(t, fromVersion).value);
      HoldsExactly(t, u.refs[branch], Read(t, fromVersion).value);
    }
  }

  /** Deleting a branch, exactly: any name but main's; it is gone, and nothing else is. */
  lemma DeleteExactly(t: Table, branch: string)
    ensures var u := After(t, Delete(branch));
            && (DeleteBranch(t, branch).Ok? <==> branch != MAIN && branch in t.refs)
            && u.snapshots == t.snapshots && u.versions == t.versions
            && forall name :: (name in u.refs <==> name in t.refs && (name != branch || name == MAIN))
                              && (name in u.refs ==> u.refs[name] == t.refs[name])
  {
  }

  /** What an operation answers when it refuses is so. */
  lemma {:induction false} FailuresAreTrue(t: Table, branch: string, nameOk: bool, fromVersion: Option<nat>)
    ensures CreateBranch(t, branch, nameOk, fromVersion).Err? ==>
              match CreateBranch(t, branch, nameOk, fromVersion).error
              case NoVersion => fromVersion.Some? && fromVersion.value >= |t.versions|
              case IsMain => branch == MAIN
              case BadName => !nameOk
              case Exists => branch in t.refs
              case NoBranch => forall base :: !StartsAt(t, fromVersion, base)
              case _ => false
    ensures DeleteBranch(t, branch).Err? ==>
              match DeleteBranch(t, branch).error
              case IsMain => branch == MAIN
              case NoBranch => branch !in t.refs
              case _ => false
    ensures MergeBranch(t, branch).Err? ==>
              match MergeBranch(t, branch).error
              case NoBranch => branch !in t.refs || MAIN !in t.refs
              case Diverged =>
                branch in t.refs && MAIN in t.refs && !Descends(t.snapshots, t.refs[branch], t.refs[MAIN])
              case _ => false
  {
  }

  /**
   A write, exactly: the branch reads the old rows and then the new, or the new alone; it points at the new snapshot,
   whose history goes on from the old one; every other name stays; and a recorded write to main pins the new snapshot.
   */
  lemma WriteExactly(t: Table, branch: string, mode: Mode, rows: Rows, id: Id, clearing: Option<Id>, recorded: bool,
                     before: Rows)
    requires Sound(t) && NewIds(t, id, clearing) && Shows(t, branch, before)
    ensures var u := After(t, Write(branch, mode, rows, id, clearing, recorded));
            var after := if mode == Append then before + rows else rows;
            && u.refs == t.refs[branch := id] && Shows(u, branch, after) && t.snapshots <= u.snapshots
            && (branch in t.refs ==> Descends(u.snapshots, id, t.refs[branch]))
            && u.versions == (if recorded && branch == MAIN then t.versions + [Version(Some(id), |after|)]
                              else t.versions)
  {
    WrittenExactly(t, branch, mode, rows, id, clearing, before);
    var w := Written(t, branch, mode, rows, id, clearing);
    var after := if mode == Append then before + rows else rows;
    hide Written, Sound, NewIds, RowsAt;
    var s :| s in w.snapshots && s.id == id && s.rows == after;
    assert Holds(After(t, Write(branch, mode, rows, id, clearing, recorded)), id, after);
  }

  lemma WrittenExactly(t: Table, branch: string, mode: Mode, rows: Rows, id: Id, clearing: Option<Id>, before: Rows)
    requires Sound(t) && NewIds(t, id, clearing) && Shows(t, branch, before)
    ensures var w := Written(t, branch, mode, rows, id, clearing);
            var after := if mode == Append then before + rows else rows;
            && w.refs == t.refs[branch := id] && Holds(w, id, after) && RowsAt(w, id) == after
            && t.snapshots <= w.snapshots && w.versions == t.versions
            && (branch in t.refs ==> Descends(w.snapshots, id, t.refs[branch]))
  {
    var w := Written(t, branch, mode, rows, id, clearing);
    ShowsExactly(t, branch, before);
    WrittenForward(t, branch, mode, rows, id, clearing);
    HoldsExactly(w, id, if mode == Append then before + rows else rows);
    RefsWritten(t, branch, mode, rows, id, clearing);
    if branch in t.refs {
      WrittenDescends(t, branch, mode, rows, id, clearing);
    }
  }

  lemma RefsWritten(t: Table, branch: string, mode: Mode, rows: Rows, id: Id, clearing: Option<Id>)
    ensures Written(t, branch, mode, rows, id, clearing).refs == t.refs[branch := id]
  {
  }

  lemma CommittedDescends(t: Table, branch: string, id: Id, rows: Rows)
    requires Sound(t) && !Listed(t.snapshots, id) && branch in t.refs
    ensures Descends(Committed(t, branch, id, rows).snapshots, id, t.refs[branch])
  {
    var s := Snapshot(id, Tip(t, branch), rows);
    var all := Committed(t, branch, id, rows).snapshots;
    ListedGrows(t.snapshots, s, t.refs[branch]);
    DescendsSelf(all, t.refs[branch]);
    assert all[..|all| - 1] == t.snapshots;
    DescendsStep(all, id, t.refs[branch]);
  }

  lemma WrittenDescends(t: Table, branch: string, mode: Mode, rows: Rows, id: Id, clearing: Option<Id>)
    requires Sound(t) && NewIds(t, id, clearing) && branch in t.refs
    ensures Descends(Written(t, branch, mode, rows, id, clearing).snapshots, id, t.refs[branch])
  {
    if mode.Replace? && clearing.Some? {
      var cleared := Committed(t, branch, clearing.value, []);
      CommittedForward(t, branch, clearing.value, []);
      CommittedDescends(t, branch, clearing.value, []);
      CommittedForward(cleared, branch, id, rows);
      CommittedDescends(cleared, branch, id, rows);
      OldHistoryKept(cleared.snapshots, Committed(cleared, branch, id, rows).snapshots, clearing.value, id,
                     t.refs[branch]);
    } else {
      CommittedDescends(t, branch, id, if mode.Append? then BranchRows(t, branch) + rows else rows);
    }
  }

  // ----- the service -----

  class IcebergDataset {
    var snapshots: seq<Snapshot>
    var refs: map<string, Id>
    var versions: seq<Version>

    constructor ()
      ensures Now() == Table([], map[], []) && Sound(Now())
    {
      snapshots, refs, versions := [], map[], [];
    }

    function Now(): Table
      reads this
    {
      Table(snapshots, refs, versions)
    }

    method Commit(branch: string, id: Id, rows: Rows)
      modifies `snapshots, `refs
      ensures Now() == Committed(old(Now()), branch, id, rows)
    {
      snapshots := snapshots + [Snapshot(id, if branch in refs then Some(refs[branch]) else None, rows)];
      refs := refs[branch := id];
    }

    /** `write_iceberg`: commit to main, then record the version. */
    method WriteMain(mode: Mode, rows: Rows, id: Id, clearing: Option<Id>)
      requires Sound(Now()) && NewIds(Now(), id, clearing)
      modifies this
      ensures Now() == old(After(Now(), Write(MAIN, mode, rows, id, clearing, true)))
      ensures Forward(old(Now()), Now())
      ensures Read(Now(), Some(old(|versions|)))
              == Ok(if mode == Append then old(BranchRows(Now(), MAIN)) + rows else rows)
    {
      StepForward(Now(), Write(MAIN, mode, rows, id, clearing, true));
      WriteReadsBack(Now(), mode, rows, id, clearing);
      if mode == Append {
        var base := if MAIN in refs then RowsAt(Now(), refs[MAIN]) else [];
        Commit(MAIN, id, base + rows);
      } else {
        if clearing.Some? {
          Commit(MAIN, clearing.value, []);
        }
        Commit(MAIN, id, rows);
      }
      versions := versions + [Version(Some(id), |RowsAt(Now(), id)|)];
    }

    /** `iceberg_branch`. */
    method CutBranch(branch: string, nameOk: bool, fromVersion: Option<nat>) returns (failure: Option<Failure>)
      requires Sound(Now())
      modifies `refs
      ensures failure.None? <==> CreateBranch(old(Now()), branch, nameOk, fromVersion).Ok?
      ensures Now() == old(After(Now(), Branch(branch, nameOk, fromVersion)))
      ensures failure.Some? ==> Err(failure.value) == CreateBranch(old(Now()), branch, nameOk, fromVersion)
      ensures Forward(old(Now()), Now())
    {
      StepForward(Now(), Branch(branch, nameOk, fromVersion));
      var base: Option<Id> := None;
      if fromVersion.Some? {
        if fromVersion.value >= |versions| {
          return Some(NoVersion);
        }
        base := versions[fromVersion.value].snapshot;
      }
      if branch == MAIN {
        return Some(IsMain);
      }
      if !nameOk {
        return Some(BadName);
      }
      if branch in refs {
        return Some(Exists);
      }
      if base.None? {
        if MAIN !in refs {
          return Some(NoBranch);
        }
        base := Some(refs[MAIN]);
      }
      refs := refs[branch := base.value];
      return None;
    }

    method DropBranch(branch: string) returns (failure: Option<Failure>)
      requires Sound(Now())
      modifies `refs
      ensures Now() == old(After(Now(), Delete(branch)))
      ensures failure.None? <==> DeleteBranch(old(Now()), branch).Ok?
      ensures Forward(old(Now()), Now())
    {
      StepForward(Now(), Delete(branch));
      if branch == MAIN {
        return Some(IsMain);
      }
      if branch !in refs {
        return Some(NoBranch);
      }
      refs := refs - {branch};
      return None;
    }

    /** `merge_iceberg_branch`: main moves to the branch's tip only along the branch's own history. */
    method Merge(branch: string) returns (failure: Option<Failure>)
      requires Sound(Now())
      modifies `refs, `versions
      ensures Now() == old(After(Now(), Step.Merge(branch, true)))
      ensures failure.None? <==> MergeBranch(old(Now()), branch).Ok?
      ensures failure == Some(Diverged) <==>
              && branch in old(refs) && MAIN in old(refs) && old(refs)[branch] != old(refs)[MAIN]
              && !Descends(snapshots, old(refs)[branch], old(refs)[MAIN])
      ensures Forward(old(Now()), Now())
    {
      StepForward(Now(), Step.Merge(branch, true));
      if branch !in refs || MAIN !in refs {
        return Some(NoBranch);
      }
      var tip, main := refs[branch], refs[MAIN];
      if tip != main {
        var forward := DescendsFrom(snapshots, tip, main);
        if !forward {
          return Some(Diverged);
        }
        refs := refs[MAIN := tip];
      }
      versions := versions + [Version(Some(tip), |RowsAt(Now(), tip)|)];
      return None;
    }
  }
}
