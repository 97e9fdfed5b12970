/**
 The version log of one dataset under any interleaving of writers. A writer writes its part under a unique
 key, reads the next version number, tries to insert its row, and on a collision retries with the next
 number or (compare-and-set) gives up; it may fail or crash between any two of these. The row insert is the
 only arbitration: it is refused exactly when the (dataset, version) primary key is taken.
 */
module VersionLog {
  import opened Common

  type Row(==, !new)
  type Table = seq<Row>
  type Key = nat

  datatype Version = Version(files: seq<Key>, rowCount: nat)

  datatype Op =
    | Write(table: Table, cas: Option<nat>)
    | Append(table: Table)
    | AppendBatches(table: Table)
    | Compact

  /**
   Where a writer is. Cleaning is the `except` block that deletes its part, Undoing the same block entered after the
   part was published; Wrote is also where a data-quality check runs; Trying(v) is about to insert row v.
   */
  datatype Stage = Start | Wrote | Trying(v: nat) | Committed(v: nat) | Cleaning | Undoing | Finished | Failed | Crashed

  type Positive = n: nat | n > 0 witness 1

  /** The auto-compaction setting: absent or not above zero, a number of parts, or text that is no number. */
  datatype Setting = Off | FromParts(parts: Positive) | Unreadable

  /** No compaction at this many parts. */
  predicate Rests(setting: Setting, parts: nat) {
    setting.Off? || (setting.FromParts? && parts < setting.parts)
  }

  /**
   One writer. `base` is the version whose manifest it inherits or rewrites (0 for none), `seen` the newest
   version when it read the next number, and `outer` the already published part that a nested compaction
   deletes too, should it raise inside `append`.
   */
  datatype Writer = Writer(
    stage: Stage, key: Key, table: Table, inherited: seq<Key>, baseCount: nat, base: nat,
    cas: Option<nat>, tidy: bool, mayCompact: bool, outer: Option<Key>, seen: nat)

  datatype State = State(versions: map<nat, Version>, parts: map<Key, Table>, nextKey: Key, writers: map<nat, Writer>)

  datatype Action =
    | Begin(w: nat, op: Op)
    | WritePart(w: nat)
    | WriteFails(w: nat, partial: Option<Table>)
    | ValidateFails(w: nat)
    | ReadNext(w: nat)
    | TryInsert(w: nat)
    | InsertFails(w: nat)
    | AfterCommit(w: nat)
    | CleanUp(w: nat)
    | Crash(w: nat)

  const EMPTY := State(map[], map[], 0, map[])

  // ----- reading -----

  lemma {:induction false} HasMax(versions: set<nat>)
    requires versions != {}
    ensures exists m :: m in versions && forall v :: v in versions ==> v <= m
  {
    var v :| v in versions;
    var rest := versions - {v};
    assert forall u :: u in versions ==> u == v || u in rest;
    if rest != {} {
      HasMax(rest);
      var m :| m in rest && forall u :: u in rest ==> u <= m;
      var top := if v > m then v else m;
      assert top in versions;
      forall u | u in versions
        ensures u <= top
      {
        assert u == v || u in rest;
      }
    }
  }

  /** SELECT MAX(version), or 0 when the dataset has none. */
  ghost function MaxVersion(versions: set<nat>): (m: nat)
    ensures forall v :: v in versions ==> v <= m
    ensures if versions == {} then m == 0 else m in versions
  {
    if versions == {} then 0
    else
      HasMax(versions);
      var m :| m in versions && forall v :: v in versions ==> v <= m;
      m
  }

  ghost function Latest(s: State): nat {
    MaxVersion(s.versions.Keys)
  }

  predicate Stored(parts: map<Key, Table>, files: seq<Key>) {
    forall f :: f in files ==> f in parts
  }

  function Rows(parts: map<Key, Table>, files: seq<Key>): Table
    requires Stored(parts, files)
  {
    if files == [] then [] else Rows(parts, files[..|files| - 1]) + parts[files[|files| - 1]]
  }

  // ----- one step of one writer -----

  ghost function BeginWith(s: State, op: Op): Option<Writer> {
    var n := Latest(s);
    match op
    case Write(t, e) => Some(Writer(Start, s.nextKey, t, [], 0, 0, e, true, false, None, 0))
    case Append(t) =>
      if n !in s.versions then Some(Writer(Start, s.nextKey, t, [], 0, 0, None, true, false, None, 0))
      else Some(Writer(Start, s.nextKey, t, s.versions[n].files, s.versions[n].rowCount, n, None, true, true, None, 0))
    case AppendBatches(t) =>
      if n !in s.versions then Some(Writer(Start, s.nextKey, t, [], 0, 0, None, true, false, None, 0))
      else Some(Writer(Start, s.nextKey, t, s.versions[n].files, s.versions[n].rowCount, n, None, false, true, None, 0))
    case Compact => CompactWith(s, None)
  }

  /** Compaction reads the newest version whole and writes it back as one part. */
  ghost function CompactWith(s: State, outer: Option<Key>): Option<Writer> {
    var n := Latest(s);
    if n !in s.versions || !Stored(s.parts, s.versions[n].files) then None
    else Some(Writer(Start, s.nextKey, Rows(s.parts, s.versions[n].files), [], 0, 0, None, true, false, outer, 0))
  }

  function At(s: State, w: nat, writer: Writer): State {
    s.(writers := s.writers[w := writer])
  }

  /** `_commit_version` after the parts exist: read the next number, refuse a stale compare-and-set. */
  ghost function ReadNumber(s: State, wr: Writer): Writer {
    var n := Latest(s);
    if wr.cas.Some? && n + 1 != wr.cas.value + 1 then wr.(stage := Cleaning)
    else wr.(stage := Trying(n + 1), seen := n)
  }

  function Manifest(wr: Writer): Version {
    Version(wr.inherited + [wr.key], wr.baseCount + |wr.table|)
  }

  function Insert(s: State, w: nat, wr: Writer): State
    requires wr.stage.Trying?
  {
    var v := wr.stage.v;
    if v !in s.versions then
      At(s, w, wr.(stage := Committed(v))).(versions := s.versions[v := Manifest(wr)])
    else if wr.cas.Some? then At(s, w, wr.(stage := Cleaning))
    else At(s, w, wr.(stage := Trying(v + 1)))
  }

  /**
   The system after an action, or None when the action is not possible there. `setting` is LAURELIN_AUTO_COMPACT_PARTS.
   */
  ghost function Next(setting: Setting, s: State, a: Action): Option<State> {
    match a
    case Begin(w, op) =>
      var wr := BeginWith(s, op);
      if w in s.writers || wr.None? then None else Some(At(s, w, wr.value).(nextKey := s.nextKey + 1))
    case _ =>
      if a.w !in s.writers then None else Move(setting, s, a, s.writers[a.w])
  }

  ghost function Move(setting: Setting, s: State, a: Action, wr: Writer): Option<State> {
    var w := a.w;
    match a
    case Begin(_, _) => None
    case WritePart(_) =>
      if wr.stage != Start then None
      // Nothing new: no version, the key is dropped.
      else if !wr.tidy && wr.table == [] then Some(At(s, w, wr.(stage := Finished)))
      else Some(At(s, w, wr.(stage := Wrote)).(parts := s.parts[wr.key := wr.table]))
    case WriteFails(_, partial) =>
      if wr.stage != Start then None
      else
        var parts := if partial.Some? then s.parts[wr.key := partial.value] else s.parts;
        Some(At(s, w, wr.(stage := Cleaning)).(parts := parts))
    case ValidateFails(_) =>
      if wr.stage != Wrote || !wr.tidy then None else Some(At(s, w, wr.(stage := Cleaning)))
    case ReadNext(_) =>
      if wr.stage != Wrote then None else Some(At(s, w, ReadNumber(s, wr)))
    case TryInsert(_) =>
      if !wr.stage.Trying? then None else Some(Insert(s, w, wr))
    case InsertFails(_) =>
      if !wr.stage.Trying? then None else Some(At(s, w, wr.(stage := if wr.tidy then Cleaning else Failed)))
    case AfterCommit(_) =>
      if !wr.stage.Committed? then None
      else if !wr.mayCompact || Rests(setting, |wr.inherited| + 1) then Some(At(s, w, wr.(stage := Finished)))
      else if setting.Unreadable? then Some(At(s, w, wr.(stage := if wr.tidy then Undoing else Failed)))
      else
        var nested := CompactWith(s, if wr.tidy then Some(wr.key) else None);
        if nested.None? then None else Some(At(s, w, nested.value).(nextKey := s.nextKey + 1))
    case CleanUp(_) =>
      if wr.stage != Cleaning && wr.stage != Undoing then None
      else
        Some(At(s, w, wr.(stage := Failed)).(parts := s.parts - Gone(wr)))
    case Crash(_) =>
      if wr.stage in {Finished, Failed, Crashed} then None else Some(At(s, w, wr.(stage := Crashed)))
  }

  lemma NextWrite(setting: Setting, s: State, w: nat)
    requires w in s.writers && s.writers[w].stage == Start && (s.writers[w].tidy || s.writers[w].table != [])
    ensures var wr := s.writers[w];
            Next(setting, s, WritePart(w)) == Some(At(s, w, wr.(stage := Wrote)).(parts := s.parts[wr.key := wr.table]))
  {
  }

  lemma NextRead(setting: Setting, s: State, w: nat)
    requires w in s.writers && s.writers[w].stage == Wrote
    ensures Next(setting, s, ReadNext(w)) == Some(At(s, w, ReadNumber(s, s.writers[w])))
  {
  }

  lemma NextTry(setting: Setting, s: State, w: nat)
    requires w in s.writers && s.writers[w].stage.Trying?
    ensures Next(setting, s, TryInsert(w)) == Some(Insert(s, w, s.writers[w]))
  {
  }

  lemma NextBegin(setting: Setting, s: State, w: nat, op: Op)
    requires w !in s.writers && BeginWith(s, op).Some?
    ensures Next(setting, s, Begin(w, op)) == Some(At(s, w, BeginWith(s, op).value).(nextKey := s.nextKey + 1))
  {
  }

  lemma NextValidateFails(setting: Setting, s: State, w: nat)
    requires w in s.writers && s.writers[w].stage == Wrote && s.writers[w].tidy
    ensures Next(setting, s, ValidateFails(w)) == Some(At(s, w, s.writers[w].(stage := Cleaning)))
  {
  }

  lemma NextWriteFails(setting: Setting, s: State, w: nat)
    requires w in s.writers && s.writers[w].stage == Start
    ensures Next(setting, s, WriteFails(w, None)) == Some(At(s, w, s.writers[w].(stage := Cleaning)))
  {
  }

  /** The keys a clean-up deletes. */
  function Gone(wr: Writer): set<Key> {
    {wr.key} + (if wr.outer.Some? then {wr.outer.value} else {})
  }

  lemma NextCleanUp(setting: Setting, s: State, w: nat)
    requires w in s.writers && (s.writers[w].stage == Cleaning || s.writers[w].stage == Undoing)
    ensures var wr := s.writers[w];
            Next(setting, s, CleanUp(w)) == Some(At(s, w, wr.(stage := Failed)).(parts := s.parts - Gone(wr)))
  {
  }

  lemma NextNested(setting: Setting, s: State, w: nat, nested: Writer)
    requires w in s.writers && s.writers[w].stage.Committed? && s.writers[w].mayCompact && s.writers[w].tidy
    requires setting.FromParts? && setting.parts <= |s.writers[w].inherited| + 1
    requires CompactWith(s, Some(s.writers[w].key)) == Some(nested)
    ensures Next(setting, s, AfterCommit(w)) == Some(At(s, w, nested).(nextKey := s.nextKey + 1))
  {
  }

  lemma NextUndo(s: State, w: nat)
    requires w in s.writers && s.writers[w].stage.Committed? && s.writers[w].mayCompact && s.writers[w].tidy
    ensures Next(Unreadable, s, AfterCommit(w)) == Some(At(s, w, s.writers[w].(stage := Undoing)))
  {
  }

  /** A step changes its own writer's record and no other; keys are only handed out. */
  lemma OneWriterMoves(setting: Setting, s: State, a: Action)
    requires Next(setting, s, a).Some?
    ensures var t := Next(setting, s, a).value;
            a.w in t.writers && t.writers == s.writers[a.w := t.writers[a.w]] && t.nextKey >= s.nextKey
  {
  }

  // ----- what can happen, and what it changes -----

  ghost predicate NewestReadable(s: State) {
    exists n :: n in s.versions && (forall v :: v in s.versions ==> v <= n) && Stored(s.parts, s.versions[n].files)
  }

  /** A publication is followed by a compaction. */
  predicate CompactionDue(setting: Setting, wr: Writer) {
    wr.mayCompact && setting.FromParts? && |wr.inherited| + 1 >= setting.parts
  }

  /** What is possible at any moment: an operation may begin, and a writer may take the step its stage is at. */
  lemma {:induction false} EnabledExactly(setting: Setting, s: State, a: Action)
    ensures Next(setting, s, a).Some? <==>
            if a.Begin? then a.w !in s.writers && (a.op.Compact? ==> NewestReadable(s))
            else
              && a.w in s.writers
              && var wr := s.writers[a.w];
                 match a
                 case WritePart(_) => wr.stage == Start
                 case WriteFails(_, _) => wr.stage == Start
                 case ValidateFails(_) => wr.stage == Wrote && wr.tidy
                 case ReadNext(_) => wr.stage == Wrote
                 case TryInsert(_) => wr.stage.Trying?
                 case InsertFails(_) => wr.stage.Trying?
                 case AfterCommit(_) => wr.stage.Committed? && (CompactionDue(setting, wr) ==> NewestReadable(s))
                 case CleanUp(_) => wr.stage == Cleaning || wr.stage == Undoing
                 case Crash(_) => wr.stage != Finished && wr.stage != Failed && wr.stage != Crashed
  {
    var n := Latest(s);
    if NewestReadable(s) {
      var m :| m in s.versions && (forall v :: v in s.versions ==> v <= m) && Stored(s.parts, s.versions[m].files);
      assert m == n;
    }
  }

  /** A number is in use, and none above it is; or there is none at all. */
  ghost predicate IsNewest(s: State, n: nat) {
    (n in s.versions || (n == 0 && s.versions == map[])) && forall v :: v in s.versions ==> v <= n
  }

  /**
   What a step changes. A version is registered by an insert whose number is free, with the inherited parts and then
   the writer's own, and by nothing else; a part is stored by a write and deleted by a clean-up, and by nothing else.
   */
  lemma {:induction false} StepChanges(setting: Setting, s: State, a: Action)
    requires Next(setting, s, a).Some?
    ensures var t := Next(setting, s, a).value;
            && (a.TryInsert? && s.writers[a.w].stage.v !in s.versions ==>
                  var wr := s.writers[a.w];
                  t.versions == s.versions[wr.stage.v := Version(wr.inherited + [wr.key], wr.baseCount + |wr.table|)])
            && (!(a.TryInsert? && s.writers[a.w].stage.v !in s.versions) ==> t.versions == s.versions)
            && (a.WritePart? && (s.writers[a.w].tidy || s.writers[a.w].table != []) ==>
                  t.parts == s.parts[s.writers[a.w].key := s.writers[a.w].table])
            && (a.WriteFails? && a.partial.Some? ==> t.parts == s.parts[s.writers[a.w].key := a.partial.value])
            && (a.CleanUp? ==> forall k :: (k in t.parts <==> k in s.parts && k != s.writers[a.w].key
                                                              && Some(k) != s.writers[a.w].outer)
                                           && (k in t.parts ==> t.parts[k] == s.parts[k]))
            && (!a.WritePart? && !a.WriteFails? && !a.CleanUp? ==> t.parts == s.parts)
            && (a.WritePart? && !s.writers[a.w].tidy && s.writers[a.w].table == [] ==> t.parts == s.parts)
            && (a.WriteFails? && a.partial.None? ==> t.parts == s.parts)
  {
  }

  /**
   Where a step takes its writer. Reading the number aims at the one after the newest, unless a compare-and-set over
   another version sends it to clean up; an insert commits where its number is free, and where it is taken it aims one
   further, or gives up under compare-and-set.
   */
  lemma {:induction false} StageExactly(setting: Setting, s: State, a: Action, n: nat)
    requires Next(setting, s, a).Some? && !a.Begin? && IsNewest(s, n)
    ensures var wr, x := s.writers[a.w], Next(setting, s, a).value.writers[a.w];
            match a
            case WritePart(_) => x == wr.(stage := if wr.tidy || wr.table != [] then Wrote else Finished)
            case WriteFails(_, _) => x == wr.(stage := Cleaning)
            case ValidateFails(_) => x == wr.(stage := Cleaning)
            case ReadNext(_) =>
              if wr.cas.Some? && wr.cas.value != n then x == wr.(stage := Cleaning)
              else x == wr.(stage := Trying(n + 1), seen := n)
            case TryInsert(_) =>
              if wr.stage.v !in s.versions then x == wr.(stage := Committed(wr.stage.v))
              else if wr.cas.Some? then x == wr.(stage := Cleaning)
              else x == wr.(stage := Trying(wr.stage.v + 1))
            case InsertFails(_) => x == wr.(stage := if wr.tidy then Cleaning else Failed)
            case AfterCommit(_) =>
              if wr.mayCompact && setting == Unreadable then x == wr.(stage := if wr.tidy then Undoing else Failed)
              else if !CompactionDue(setting, wr) then x == wr.(stage := Finished)
              else
                && n in s.versions && Stored(s.parts, s.versions[n].files)
                && x == Writer(Start, s.nextKey, Rows(s.parts, s.versions[n].files), [], 0, 0, None, true, false,
                               if wr.tidy then Some(wr.key) else None, 0)
            case CleanUp(_) => x == wr.(stage := Failed)
            case Crash(_) => x == wr.(stage := Crashed)
  {
    assert Latest(s) == n;
  }

  /**
   Where an operation begins: with a fresh key, over the newest version if it appends and there is one, over nothing if
   it writes, and with the newest rows if it compacts.
   */
  lemma {:induction false} BeginExactly(setting: Setting, s: State, w: nat, op: Op, n: nat)
    requires Next(setting, s, Begin(w, op)).Some? && IsNewest(s, n)
    ensures var t := Next(setting, s, Begin(w, op)).value;
            var x := t.writers[w];
            && t.nextKey == s.nextKey + 1 && x.key == s.nextKey && x.stage == Start && x.outer == None
            && match op
               case Write(rows, cas) =>
                 x.table == rows && x.inherited == [] && x.baseCount == 0 && x.cas == cas && x.tidy && !x.mayCompact
               case Compact =>
                 && n in s.versions && Stored(s.parts, s.versions[n].files)
                 && x.table == Rows(s.parts, s.versions[n].files) && x.inherited == [] && x.baseCount == 0
                 && x.cas == None && x.tidy && !x.mayCompact
               case _ =>
                 && x.table == op.table && x.cas == None && x.tidy == (op.Append? || n !in s.versions)
                 && x.mayCompact == (n in s.versions)
                 && x.inherited == (if n in s.versions then s.versions[n].files else [])
                 && x.baseCount == (if n in s.versions then s.versions[n].rowCount else 0)
                 && x.base == n
  {
    assert Latest(s) == n;
  }

  ghost function Run(setting: Setting, s: State, actions: seq<Action>): Option<State> {
    if actions == [] then Some(s)
    else
      var before := Run(setting, s, actions[..|actions| - 1]);
      if before.None? then None else Next(setting, before.value, actions[|actions| - 1])
  }

  ghost predicate Reachable(setting: Setting, s: State) {
    exists actions :: Run(setting, EMPTY, actions) == Some(s)
  }

  // ----- the invariant -----

  predicate Unpublished(wr: Writer) {
    wr.stage == Start || wr.stage == Wrote || wr.stage.Trying? || wr.stage == Cleaning
  }

  /** The versions are exactly 1..n. */
  ghost predicate Gapless(s: State) {
    forall v :: v in s.versions <==> 1 <= v <= |s.versions|
  }

  /** Every registered manifest is readable and its row count is the number of rows it reads. */
  ghost predicate Readable(s: State) {
    forall v :: v in s.versions ==>
      && Stored(s.parts, s.versions[v].files)
      && s.versions[v].rowCount == |Rows(s.parts, s.versions[v].files)|
  }

  /** A writer's candidate is never past the next number, and it retried at most once per version published since. */
  ghost predicate CandidateOk(s: State, wr: Writer) {
    wr.stage.Trying? ==> wr.seen + 1 <= wr.stage.v <= |s.versions| + 1
  }

  ghost predicate BaseOk(s: State, wr: Writer) {
    if wr.base == 0 then wr.inherited == [] && wr.baseCount == 0
    else wr.base in s.versions && s.versions[wr.base] == Version(wr.inherited, wr.baseCount)
  }

  ghost predicate WriterOk(s: State, wr: Writer) {
    && wr.key < s.nextKey
    && CandidateOk(s, wr)
    && BaseOk(s, wr)
    && (Unpublished(wr) ==> forall v :: v in s.versions ==> wr.key !in s.versions[v].files)
    && ((wr.stage == Wrote || wr.stage.Trying?) ==> wr.key in s.parts && s.parts[wr.key] == wr.table)
  }

  ghost predicate KeysApart(s: State) {
    && (forall v, f :: v in s.versions && f in s.versions[v].files ==> f < s.nextKey)
    && forall w, x :: w in s.writers && x in s.writers && w != x ==> s.writers[w].key != s.writers[x].key
  }

  ghost predicate Inv(s: State) {
    Gapless(s) && Readable(s) && KeysApart(s) && forall w :: w in s.writers ==> WriterOk(s, s.writers[w])
  }

  /** What raises inside `append` after publication, the setting or a nested compaction, takes the published part. */
  predicate DeletesPublished(s: State, a: Action) {
    a.CleanUp? && a.w in s.writers && (s.writers[a.w].outer.Some? || s.writers[a.w].stage == Undoing)
  }

  lemma LatestIsCount(s: State)
    requires Gapless(s)
    ensures Latest(s) == |s.versions|
    ensures s.versions != map[] ==> Latest(s) in s.versions
  {
    var m := MaxVersion(s.versions.Keys);
    if |s.versions| > 0 {
      assert |s.versions| in s.versions;
    } else {
      assert s.versions.Keys == {};
    }
  }

  // ----- frames: what changes in storage cannot reach a manifest -----

  lemma {:induction false} RowsFrame(parts: map<Key, Table>, others: map<Key, Table>, files: seq<Key>)
    requires Stored(parts, files)
    requires forall f :: f in files ==> f in others && others[f] == parts[f]
    ensures Stored(others, files) && Rows(others, files) == Rows(parts, files)
  {
    if files != [] {
      RowsFrame(parts, others, files[..|files| - 1]);
    }
  }

  /** A version a reader could read stays, with the same manifest and the same rows. */
  ghost predicate Keeps(s: State, t: State) {
    forall v :: v in s.versions && Stored(s.parts, s.versions[v].files) ==>
      && v in t.versions && t.versions[v] == s.versions[v]
      && Stored(t.parts, s.versions[v].files)
      && Rows(t.parts, s.versions[v].files) == Rows(s.parts, s.versions[v].files)
  }

  /** Only keys no manifest uses are written or deleted. */
  ghost predicate PartsFrame(s: State, t: State) {
    forall v, f :: v in s.versions && f in s.versions[v].files && f in s.parts ==>
      f in t.parts && t.parts[f] == s.parts[f]
  }

  lemma FrameKeeps(s: State, t: State)
    requires t.versions == s.versions && PartsFrame(s, t)
    ensures Keeps(s, t) && (Readable(s) ==> Readable(t))
  {
    forall v | v in s.versions && Stored(s.parts, s.versions[v].files)
      ensures Stored(t.parts, s.versions[v].files)
      ensures Rows(t.parts, s.versions[v].files) == Rows(s.parts, s.versions[v].files)
    {
      RowsFrame(s.parts, t.parts, s.versions[v].files);
    }
  }

  // ----- each action keeps the invariant -----

  /** A writer joining (or a finished one turning to compaction) under a new key. */
  lemma JoinKeeps(s: State, w: nat, wr: Writer)
    requires Inv(s) && wr.key == s.nextKey && wr.stage == Start && BaseOk(s, wr)
    ensures var t := At(s, w, wr).(nextKey := s.nextKey + 1);
            Inv(t) && Keeps(s, t)
  {
    var t := At(s, w, wr).(nextKey := s.nextKey + 1);
    FrameKeeps(s, t);
    forall x | x in t.writers
      ensures WriterOk(t, t.writers[x])
    {
      if x != w {
        assert WriterOk(s, s.writers[x]);
      }
    }
    forall x, y | x in t.writers && y in t.writers && x != y
      ensures t.writers[x].key != t.writers[y].key
    {
      if x != w {
        assert WriterOk(s, s.writers[x]);
      }
      if y != w {
        assert WriterOk(s, s.writers[y]);
      }
    }
  }

  lemma BeginKeeps(setting: Setting, s: State, a: Action)
    requires Inv(s) && a.Begin? && Next(setting, s, a).Some?
    ensures Inv(Next(setting, s, a).value) && Keeps(s, Next(setting, s, a).value)
  {
    LatestIsCount(s);
    JoinKeeps(s, a.w, BeginWith(s, a.op).value);
  }

  /** Replacing one writer's record, and nothing it shares, keeps the others' promises. */
  lemma MoveWriter(s: State, w: nat, wr: Writer)
    requires Inv(s) && w in s.writers && WriterOk(s, wr)
    requires wr.key == s.writers[w].key
    ensures Inv(At(s, w, wr)) && Keeps(s, At(s, w, wr))
  {
    var t := At(s, w, wr);
    FrameKeeps(s, t);
    forall x | x in t.writers
      ensures WriterOk(t, t.writers[x])
    {
      assert WriterOk(s, if x == w then wr else s.writers[x]);
    }
  }

  lemma PartKeeps(s: State, w: nat, wr: Writer, parts: map<Key, Table>)
    requires Inv(s) && w in s.writers && Unpublished(s.writers[w])
    requires wr.key == s.writers[w].key
    requires forall f :: f != wr.key ==> (f in parts <==> f in s.parts) && (f in s.parts ==> parts[f] == s.parts[f])
    requires WriterOk(s.(parts := parts), wr)
    ensures Inv(At(s, w, wr).(parts := parts)) && Keeps(s, At(s, w, wr).(parts := parts))
  {
    var t := At(s, w, wr).(parts := parts);
    assert WriterOk(s, s.writers[w]);
    assert PartsFrame(s, t);
    FrameKeeps(s, t);
    forall x | x in t.writers
      ensures WriterOk(t, t.writers[x])
    {
      if x != w {
        assert WriterOk(s, s.writers[x]) && s.writers[x].key != s.writers[w].key;
      }
    }
  }

  /** What a registered manifest reads: the base version's rows, if it inherits one, then the writer's own. */
  ghost predicate ReadsBaseThenOwn(s: State, t: State, wr: Writer) {
    var files := Manifest(wr).files;
    && Stored(t.parts, files)
    && (wr.base == 0 ==> Rows(t.parts, files) == wr.table)
    && (wr.base != 0 ==>
          && wr.base in s.versions && Stored(s.parts, s.versions[wr.base].files)
          && Rows(t.parts, files) == Rows(s.parts, s.versions[wr.base].files) + wr.table)
  }

  lemma ManifestReads(s: State, w: nat, wr: Writer)
    requires Inv(s) && w in s.writers && s.writers[w] == wr && wr.stage.Trying?
    ensures ReadsBaseThenOwn(s, s, wr)
    ensures |Rows(s.parts, Manifest(wr).files)| == Manifest(wr).rowCount
  {
    assert WriterOk(s, wr);
    var files := Manifest(wr).files;
    assert files[..|files| - 1] == wr.inherited;
    if wr.base == 0 {
      assert [] + wr.table == wr.table;
    }
  }

  /** The first free number is the next one. */
  lemma CandidateIsNext(s: State, w: nat, wr: Writer)
    requires Inv(s) && w in s.writers && s.writers[w] == wr && wr.stage.Trying? && wr.stage.v !in s.versions
    ensures wr.stage.v == |s.versions| + 1
  {
    assert WriterOk(s, wr);
  }

  lemma PublishGapless(versions: map<nat, Version>, m: Version)
    requires forall v :: v in versions <==> 1 <= v <= |versions|
    ensures var u := versions[|versions| + 1 := m];
            |u| == |versions| + 1 && forall v :: v in u <==> 1 <= v <= |u|
  {
    assert |versions[|versions| + 1 := m]| == |versions| + 1;
  }

  lemma PublishKeysApart(s: State, w: nat, wr: Writer)
    requires Inv(s) && w in s.writers && s.writers[w] == wr && wr.stage.Trying? && wr.stage.v !in s.versions
    ensures KeysApart(Insert(s, w, wr))
  {
    assert WriterOk(s, wr);
    forall f | f in Manifest(wr).files
      ensures f < s.nextKey
    {
      if f != wr.key {
        assert f in s.versions[wr.base].files;
      }
    }
  }

  /** The new manifest is readable, and the old ones are untouched. */
  lemma PublishReadable(s: State, t: State, m: Version)
    requires Readable(s) && |s.versions| + 1 !in s.versions
    requires t.versions == s.versions[|s.versions| + 1 := m] && t.parts == s.parts
    requires Stored(s.parts, m.files) && m.rowCount == |Rows(s.parts, m.files)|
    ensures Readable(t) && Keeps(s, t)
  {
  }

  lemma PublishWriters(s: State, w: nat, wr: Writer)
    requires Inv(s) && w in s.writers && s.writers[w] == wr && wr.stage.Trying? && wr.stage.v !in s.versions
    requires wr.stage.v == |s.versions| + 1
    ensures var t := Insert(s, w, wr); forall x :: x in t.writers ==> WriterOk(t, t.writers[x])
  {
    forall x | x in s.writers
      ensures var t := Insert(s, w, wr); WriterOk(t, t.writers[x])
    {
      OthersStayOk(s, w, wr, x);
    }
  }

  lemma PublishKeeps(s: State, w: nat, wr: Writer)
    requires Inv(s) && w in s.writers && s.writers[w] == wr && wr.stage.Trying? && wr.stage.v !in s.versions
    ensures wr.stage.v == |s.versions| + 1
    ensures Inv(Insert(s, w, wr)) && Keeps(s, Insert(s, w, wr))
  {
    CandidateIsNext(s, w, wr);
    PublishGapless(s.versions, Manifest(wr));
    PublishWriters(s, w, wr);
    PublishKeysApart(s, w, wr);
    assert Readable(Insert(s, w, wr)) && Keeps(s, Insert(s, w, wr)) by {
      ManifestReads(s, w, wr);
      PublishReadable(s, Insert(s, w, wr), Manifest(wr));
    }
  }

  lemma OthersStayOk(s: State, w: nat, wr: Writer, x: nat)
    requires Inv(s) && w in s.writers && s.writers[w] == wr && wr.stage.Trying? && wr.stage.v !in s.versions
    requires wr.stage.v == |s.versions| + 1 && x in s.writers
    ensures var t := Insert(s, w, wr); WriterOk(t, t.writers[x])
  {
    var t := Insert(s, w, wr);
    assert WriterOk(s, wr) && WriterOk(s, s.writers[x]);
    assert |t.versions| == |s.versions| + 1;
    if x != w && Unpublished(s.writers[x]) {
      assert s.writers[x].key != wr.key;
      assert s.writers[x].key !in wr.inherited;
    }
  }

  lemma RetryKeeps(s: State, w: nat, wr: Writer)
    requires Inv(s) && w in s.writers && s.writers[w] == wr && wr.stage.Trying? && wr.stage.v in s.versions
    ensures Inv(At(s, w, wr.(stage := Trying(wr.stage.v + 1))))
            && Keeps(s, At(s, w, wr.(stage := Trying(wr.stage.v + 1))))
  {
    assert WriterOk(s, wr);
    MoveWriter(s, w, wr.(stage := Trying(wr.stage.v + 1)));
  }

  lemma GiveUpKeeps(s: State, w: nat, wr: Writer)
    requires Inv(s) && w in s.writers && s.writers[w] == wr && wr.stage.Trying?
    ensures Inv(At(s, w, wr.(stage := Cleaning))) && Keeps(s, At(s, w, wr.(stage := Cleaning)))
  {
    assert WriterOk(s, wr);
    MoveWriter(s, w, wr.(stage := Cleaning));
  }

  lemma TryKeeps(s: State, w: nat, wr: Writer)
    requires Inv(s) && w in s.writers && s.writers[w] == wr && wr.stage.Trying?
    ensures Inv(Insert(s, w, wr)) && Keeps(s, Insert(s, w, wr))
  {
    if wr.stage.v !in s.versions {
      PublishKeeps(s, w, wr);
    } else if wr.cas.Some? {
      GiveUpKeeps(s, w, wr);
    } else {
      RetryKeeps(s, w, wr);
    }
  }

  lemma CleanUpKeeps(s: State, w: nat, wr: Writer)
    requires Inv(s) && w in s.writers && s.writers[w] == wr && wr.stage == Cleaning && wr.outer.None?
    ensures var t := At(s, w, wr.(stage := Failed)).(parts := s.parts - Gone(wr));
            Inv(t) && Keeps(s, t)
  {
    assert WriterOk(s, wr);
    PartKeeps(s, w, wr.(stage := Failed), s.parts - Gone(wr));
  }

  /** A published writer comes to rest, or is about to undo what it published. */
  lemma RestKeeps(s: State, w: nat, stage: Stage)
    requires Inv(s) && w in s.writers && s.writers[w].stage.Committed?
    requires stage == Finished || stage == Undoing || stage == Failed
    ensures var t := At(s, w, s.writers[w].(stage := stage)); Inv(t) && Keeps(s, t)
  {
    assert WriterOk(s, s.writers[w]);
    MoveWriter(s, w, s.writers[w].(stage := stage));
  }

  lemma NestedKeeps(s: State, w: nat, nested: Writer)
    requires Inv(s) && w in s.writers && s.writers[w].stage.Committed?
    requires CompactWith(s, if s.writers[w].tidy then Some(s.writers[w].key) else None) == Some(nested)
    ensures var t := At(s, w, nested).(nextKey := s.nextKey + 1); Inv(t) && Keeps(s, t)
  {
    JoinKeeps(s, w, nested);
  }

  lemma AfterCommitKeeps(setting: Setting, s: State, w: nat)
    requires Inv(s) && w in s.writers && Next(setting, s, AfterCommit(w)).Some?
    ensures var t := Next(setting, s, AfterCommit(w)).value; Inv(t) && Keeps(s, t)
  {
    hide Inv, Keeps, Stored, Rows;
    var wr := s.writers[w];
    if !wr.mayCompact || Rests(setting, |wr.inherited| + 1) {
      RestKeeps(s, w, Finished);
    } else if setting.Unreadable? {
      RestKeeps(s, w, if wr.tidy then Undoing else Failed);
    } else {
      NestedKeeps(s, w, CompactWith(s, if wr.tidy then Some(wr.key) else None).value);
    }
  }

  /** Writing, failing to write and cleaning up: only the writer's own keys are touched. */
  lemma StorageKeeps(setting: Setting, s: State, a: Action)
    requires Inv(s) && (a.WritePart? || a.WriteFails? || a.CleanUp?)
    requires Next(setting, s, a).Some? && !DeletesPublished(s, a)
    ensures Inv(Next(setting, s, a).value) && Keeps(s, Next(setting, s, a).value)
  {
    var wr := s.writers[a.w];
    assert WriterOk(s, wr);
    match a
    case WritePart(w) =>
      if !wr.tidy && wr.table == [] {
        MoveWriter(s, w, wr.(stage := Finished));
      } else {
        PartKeeps(s, w, wr.(stage := Wrote), s.parts[wr.key := wr.table]);
      }
    case WriteFails(w, partial) =>
      PartKeeps(s, w, wr.(stage := Cleaning), if partial.Some? then s.parts[wr.key := partial.value] else s.parts);
    case CleanUp(w) => CleanUpKeeps(s, w, wr);
  }

  /** The steps that only move their writer to another stage. */
  lemma StageKeeps(setting: Setting, s: State, a: Action)
    requires Inv(s) && (a.ValidateFails? || a.InsertFails? || a.Crash?) && Next(setting, s, a).Some?
    ensures Inv(Next(setting, s, a).value) && Keeps(s, Next(setting, s, a).value)
  {
    var wr := s.writers[a.w];
    assert WriterOk(s, wr);
    match a
    case ValidateFails(w) => MoveWriter(s, w, wr.(stage := Cleaning));
    case InsertFails(w) => MoveWriter(s, w, wr.(stage := if wr.tidy then Cleaning else Failed));
    case Crash(w) => MoveWriter(s, w, wr.(stage := Crashed));
  }

  lemma ReadKeeps(s: State, w: nat)
    requires Inv(s) && w in s.writers && s.writers[w].stage == Wrote
    ensures var t := At(s, w, ReadNumber(s, s.writers[w])); Inv(t) && Keeps(s, t)
  {
    assert WriterOk(s, s.writers[w]);
    LatestIsCount(s);
    MoveWriter(s, w, ReadNumber(s, s.writers[w]));
  }

  /**
   What every step keeps: the versions are exactly 1..n; every registered manifest's parts exist and its row
   count is the sum of its parts; no candidate is past the next number. And every version that could be read
   still reads the same rows. The one exception is the clean-up that deletes a published part.
   */
  lemma NextKeeps(setting: Setting, s: State, a: Action)
    requires Inv(s) && Next(setting, s, a).Some? && !DeletesPublished(s, a)
    ensures Inv(Next(setting, s, a).value) && Keeps(s, Next(setting, s, a).value)
  {
    match a
    case Begin(_, _) => BeginKeeps(setting, s, a);
    case ReadNext(w) => ReadKeeps(s, w);
    case TryInsert(w) => TryKeeps(s, w, s.writers[w]);
    case AfterCommit(w) => AfterCommitKeeps(setting, s, w);
    case ValidateFails(_) => StageKeeps(setting, s, a);
    case InsertFails(_) => StageKeeps(setting, s, a);
    case Crash(_) => StageKeeps(setting, s, a);
    case _ => StorageKeeps(setting, s, a);
  }
}
