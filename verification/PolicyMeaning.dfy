/**
 What a row and column policy lets one user see, row by row and cell by cell, in the words of the policy itself; and
 that both the read in memory and the statement of every engine return exactly that.
 */
module PolicyMeaning {
  import opened Common
  import opened PolicySql

  // ----- what the policy says -----

  /** Some rule for a subject the user matches lists this text. */
  ghost predicate GivenTo(rules: seq<RowRule>, matches: string -> bool, text: string) {
    exists r :: r in rules && matches(r.subject) && text in r.values
  }

  /** The row is shown: no row policy for this user, or a key that is not null and whose text is given to the user. */
  ghost predicate RowShown(ref: Reference, policy: Option<Policy>, user: User, rec: Record) {
    match user
    case Nobody => false
    case Admin => true
    case Member(matches) =>
      policy.None? || policy.value.rows.None?
      || exists j :: && 0 <= j < |rec| && rec[j].name == policy.value.rows.value.column && !rec[j].value.Null?
                     && GivenTo(policy.value.rows.value.rules, matches, ref.cast(rec[j].value))
  }

  /** The mask is for this column, and exempts nobody the user matches. */
  ghost predicate Covers(m: MaskRule, matches: string -> bool, name: string) {
    m.column == name && forall s :: s in m.exempt ==> !matches(s)
  }

  /** A value after the masks that cover its column, in policy order. */
  ghost function Seen(ref: Reference, masks: seq<MaskRule>, matches: string -> bool, name: string, v: Value): Value {
    if masks == [] then v
    else
      Seen(ref, masks[1..], matches, name,
           if Covers(masks[0], matches, name) then Covered(ref, masks[0].mode, v) else v)
  }

  ghost function Covered(ref: Reference, mode: MaskMode, v: Value): Value {
    match mode
    case NullMask => Null
    case Redact => Str("***")
    case Hash => if v.Null? then Null else Str(ref.digest(ref.str(v)))
  }

  ghost function CellShown(ref: Reference, policy: Option<Policy>, user: User, c: Cell): Cell {
    if !user.Member? || policy.None? then c
    else Cell(c.name, Seen(ref, policy.value.masks, user.matches, c.name, c.value))
  }

  /** A cell is left as it is where no mask covers its column, and covered where one does. */
  lemma {:induction false} SeenExactly(ref: Reference, masks: seq<MaskRule>, matches: string -> bool, name: string,
      v: Value)
    ensures (forall m :: m in masks ==> !Covers(m, matches, name)) ==> Seen(ref, masks, matches, name, v) == v
    ensures (exists m :: m in masks && Covers(m, matches, name)) ==>
              var w := Seen(ref, masks, matches, name, v);
              w == Null || w == Str("***") || exists text :: w == Str(ref.digest(text))
  {
    if masks != [] {
      assert forall m :: m in masks <==> m == masks[0] || m in masks[1..];
      var w := if Covers(masks[0], matches, name) then Covered(ref, masks[0].mode, v) else v;
      SeenExactly(ref, masks[1..], matches, name, w);
    }
  }

  // ----- the pieces of the read -----

  /** The allowlist holds a text exactly when some rule for a subject the user matches lists it. */
  lemma {:induction false} AllowedExactly(rules: seq<RowRule>, matches: string -> bool, text: string)
    ensures text in Allowed(rules, matches) <==> GivenTo(rules, matches, text)
  {
    if rules != [] {
      AllowedExactly(rules[1..], matches, text);
      assert forall r :: r in rules <==> r == rules[0] || r in rules[1..];
    }
  }

  /** The kept rows are named by their positions: each once, in table order. */
  ghost predicate Picks(ks: seq<nat>, size: nat) {
    && (forall i :: 0 <= i < |ks| ==> ks[i] < size)
    && forall i, j :: 0 <= i < j < |ks| ==> ks[i] < ks[j]
  }

  ghost predicate PickedRows(table: Table, ks: seq<nat>, rows: Table)
    requires Picks(ks, |table|)
  {
    |rows| == |ks| && forall i :: 0 <= i < |ks| ==> rows[i] == table[ks[i]]
  }

  lemma {:induction false} FilterLast(ref: Reference, column: string, allowed: set<string>, front: Table, last: Record)
    ensures FilterRows(ref, column, allowed, front + [last])
            == FilterRows(ref, column, allowed, front)
               + (if Admits(ref, allowed, Lookup(last, column)) then [last] else [])
  {
    var all := front + [last];
    if front == [] {
      assert all == [last] && all[1..] == [];
    } else {
      FilterLast(ref, column, allowed, front[1..], last);
      assert all[1..] == front[1..] + [last];
    }
  }

  lemma PickLast(ks: seq<nat>, front: Table, last: Record, rows: Table, admitted: bool)
    requires Picks(ks, |front|) && PickedRows(front, ks, rows)
    ensures var more := ks + (if admitted then [|front|] else []);
            && Picks(more, |front| + 1)
            && PickedRows(front + [last], more, rows + (if admitted then [last] else []))
            && (|front| in more <==> admitted)
  {
  }

  lemma {:induction false} FilterPicks(ref: Reference, column: string, allowed: set<string>, table: Table)
    returns (ks: seq<nat>)
    ensures Picks(ks, |table|) && PickedRows(table, ks, FilterRows(ref, column, allowed, table))
    ensures forall k :: 0 <= k < |table| ==> (k in ks <==> Admits(ref, allowed, Lookup(table[k], column)))
  {
    if table == [] {
      ks := [];
    } else {
      var n := |table| - 1;
      var front, last := table[..n], table[n];
      var before := FilterPicks(ref, column, allowed, front);
      var admitted := Admits(ref, allowed, Lookup(last, column));
      ks := before + if admitted then [n] else [];
      FilterLast(ref, column, allowed, front, last);
      PickLast(before, front, last, FilterRows(ref, column, allowed, front), admitted);
      assert front + [last] == table;
      forall k | 0 <= k < n
        ensures k in ks <==> Admits(ref, allowed, Lookup(table[k], column))
      {
        assert front[k] == table[k] && (k in ks <==> k in before);
      }
    }
  }

  /** A name of the record is looked up as its one cell; a name it does not have, as null. */
  lemma {:induction false} LookupExactly(rec: Record, name: string)
    requires forall i, j :: 0 <= i < j < |rec| ==> rec[i].name != rec[j].name
    ensures forall j :: 0 <= j < |rec| && rec[j].name == name ==> Lookup(rec, name) == rec[j].value
    ensures (forall j :: 0 <= j < |rec| ==> rec[j].name != name) ==> Lookup(rec, name).Null?
  {
    if rec != [] {
      LookupExactly(rec[1..], name);
      assert forall j :: 0 < j < |rec| ==> rec[j] == rec[1..][j - 1];
    }
  }

  predicate NamedIn(columns: seq<string>, table: Table) {
    forall k, i :: 0 <= k < |table| && 0 <= i < |table[k]| ==> table[k][i].name in columns
  }

  lemma {:induction false} MasksShow(ref: Reference, masks: seq<MaskRule>, columns: seq<string>,
      matches: string -> bool, table: Table)
    requires NamedIn(columns, table) && ApplyMasks(ref, masks, columns, matches, table).Ok?
    ensures var t := ApplyMasks(ref, masks, columns, matches, table).value;
            && |t| == |table|
            && forall k :: 0 <= k < |t| ==>
                 && |t[k]| == |table[k]|
                 && forall i :: 0 <= i < |t[k]| ==>
                      t[k][i] == Cell(table[k][i].name, Seen(ref, masks, matches, table[k][i].name, table[k][i].value))
  {
    if masks != [] {
      var m := masks[0];
      var skip := m.column !in columns || Exempt(m.exempt, matches);
      var first := if skip then table else MaskTable(ref, Mask(m.column, m.mode), table);
      MasksShow(ref, masks[1..], columns, matches, first);
      forall k, i | 0 <= k < |table| && 0 <= i < |table[k]|
        ensures first[k][i].name == table[k][i].name
        ensures Seen(ref, masks[1..], matches, first[k][i].name, first[k][i].value)
                == Seen(ref, masks, matches, table[k][i].name, table[k][i].value)
      {
        assert table[k][i].name in columns;
      }
    }
  }

  // ----- the read in memory, and every engine's -----

  /** The positions are exactly those of the rows the user is shown. */
  ghost predicate ShowsExactly(ref: Reference, policy: Option<Policy>, user: User, table: Table, ks: seq<nat>) {
    && Picks(ks, |table|)
    && forall k :: 0 <= k < |table| ==> (k in ks <==> RowShown(ref, policy, user, table[k]))
  }

  /** Row by row and cell by cell, what comes back is what the user is shown of those rows. */
  ghost predicate CellsShown(ref: Reference, policy: Option<Policy>, user: User, table: Table, ks: seq<nat>, out: Table)
    requires Picks(ks, |table|)
  {
    && |out| <= |ks|
    && forall i :: 0 <= i < |out| ==>
         && |out[i]| == |table[ks[i]]|
         && forall j :: 0 <= j < |out[i]| ==> out[i][j] == CellShown(ref, policy, user, table[ks[i]][j])
  }

  lemma EveryRow(table: Table) returns (ks: seq<nat>)
    ensures Picks(ks, |table|) && |ks| == |table| && forall k :: 0 <= k < |table| ==> ks[k] == k && k in ks
  {
    ks := seq(|table|, i requires 0 <= i < |table| => i);
    forall k | 0 <= k < |table|
      ensures ks[k] == k && k in ks
    {
      assert ks[k] == k;
    }
  }

  lemma RecordsNamed(schema: Schema, table: Table)
    requires AllFit(schema, table)
    ensures NamedIn(Names(schema), table)
  {
    forall k, i | 0 <= k < |table| && 0 <= i < |table[k]|
      ensures table[k][i].name in Names(schema)
    {
      assert Fits(schema, table[k]) && Names(schema)[i] == table[k][i].name;
    }
  }

  /** With distinct column names, being admitted by the allowlist is being shown. */
  lemma {:induction false} AdmittedIsShown(ref: Reference, policy: Policy, schema: Schema, user: User, rec: Record)
    requires Distinct(Names(schema)) && Fits(schema, rec) && user.Member? && policy.rows.Some?
    ensures var rp := policy.rows.value;
            Admits(ref, Allowed(rp.rules, user.matches), Lookup(rec, rp.column))
            <==> RowShown(ref, Some(policy), user, rec)
  {
    var rp := policy.rows.value;
    assert forall i :: 0 <= i < |rec| ==> Names(schema)[i] == rec[i].name;
    LookupExactly(rec, rp.column);
    AllowedExactly(rp.rules, user.matches, ref.cast(Lookup(rec, rp.column)));
  }

  /** Where rows are denied outright none is shown. */
  lemma DeniedShowsNone(ref: Reference, policy: Policy, schema: Schema, user: User, rec: Record)
    requires Distinct(Names(schema)) && Fits(schema, rec) && user.Member?
    requires RowsDenied(policy, Names(schema), user.matches)
    ensures !RowShown(ref, Some(policy), user, rec)
  {
    var rp := policy.rows.value;
    assert forall i :: 0 <= i < |rec| ==> Names(schema)[i] == rec[i].name;
    forall j | 0 <= j < |rec| && rec[j].name == rp.column
      ensures !GivenTo(rp.rules, user.matches, ref.cast(rec[j].value))
    {
      assert rec[j].name in Names(schema);
      AllowedExactly(rp.rules, user.matches, ref.cast(rec[j].value));
    }
  }

  /** The rows a member is left with before masking. */
  lemma KeptRows(ref: Reference, policy: Policy, schema: Schema, user: User, table: Table) returns (ks: seq<nat>)
    requires Distinct(Names(schema)) && AllFit(schema, table) && user.Member? && policy.rows.Some?
    ensures ShowsExactly(ref, Some(policy), user, table, ks)
    ensures var rp := policy.rows.value;
            PickedRows(table, ks, FilterRows(ref, rp.column, Allowed(rp.rules, user.matches), table))
    ensures RowsDenied(policy, Names(schema), user.matches) ==> ks == []
  {
    var rp := policy.rows.value;
    ks := FilterPicks(ref, rp.column, Allowed(rp.rules, user.matches), table);
    forall k | 0 <= k < |table|
      ensures k in ks <==> RowShown(ref, Some(policy), user, table[k])
      ensures RowsDenied(policy, Names(schema), user.matches) ==> k !in ks
    {
      AdmittedIsShown(ref, policy, schema, user, table[k]);
      if RowsDenied(policy, Names(schema), user.matches) {
        DeniedShowsNone(ref, policy, schema, user, table[k]);
      }
    }
    assert ks == [] || ks[0] in ks;
  }

  /** What a member's read leaves before masking: the rows at the positions shown. */
  lemma MemberRows(ref: Reference, policy: Policy, schema: Schema, user: User, table: Table)
    returns (ks: seq<nat>, kept: Table)
    requires Distinct(Names(schema)) && AllFit(schema, table) && user.Member?
    requires ApplyTablePolicy(ref, Some(policy), schema, user, table).Ok?
    ensures ShowsExactly(ref, Some(policy), user, table, ks) && PickedRows(table, ks, kept)
    ensures ApplyTablePolicy(ref, Some(policy), schema, user, table)
            == ApplyMasks(ref, policy.masks, Names(schema), user.matches, kept)
  {
    if policy.rows.Some? {
      var rp := policy.rows.value;
      ks := KeptRows(ref, policy, schema, user, table);
      kept := if RowsDenied(policy, Names(schema), user.matches) then []
              else FilterRows(ref, rp.column, Allowed(rp.rules, user.matches), table);
    } else {
      ks := EveryRow(table);
      kept := table;
    }
  }

  lemma PickedAreNamed(columns: seq<string>, table: Table, ks: seq<nat>, rows: Table)
    requires NamedIn(columns, table) && Picks(ks, |table|) && PickedRows(table, ks, rows)
    ensures NamedIn(columns, rows)
  {
    forall k, i | 0 <= k < |rows| && 0 <= i < |rows[k]|
      ensures rows[k][i].name in columns
    {
      assert rows[k] == table[ks[k]];
    }
  }

  /**
   A read in memory, exactly: it returns the rows the policy shows this user, those and no others, in table order, and
   of each row every cell as the policy shows it.
   */
  lemma MemoryReadExactly(ref: Reference, policy: Option<Policy>, schema: Schema, user: User, table: Table)
    returns (ks: seq<nat>)
    requires Distinct(Names(schema)) && AllFit(schema, table)
    requires ApplyTablePolicy(ref, policy, schema, user, table).Ok?
    ensures ShowsExactly(ref, policy, user, table, ks)
    ensures var out := ApplyTablePolicy(ref, policy, schema, user, table).value;
            |out| == |ks| && CellsShown(ref, policy, user, table, ks, out)
  {
    if user.Nobody? {
      ks := [];
    } else if user.Admin? || policy.None? {
      ks := EveryRow(table);
    } else {
      var kept;
      ks, kept := MemberRows(ref, policy.value, schema, user, table);
      RecordsNamed(schema, table);
      PickedAreNamed(Names(schema), table, ks, kept);
      hide ApplyMasks, ApplyTablePolicy, NamedIn, RowShown, Seen;
      MasksShow(ref, policy.value.masks, Names(schema), user.matches, kept);
    }
  }

  /** A decision that denies every row is for nobody, or for a member to whom no row is shown. */
  lemma DeniedDecision(ref: Reference, policy: Option<Policy>, schema: Schema, user: User, table: Table)
    requires Distinct(Names(schema)) && AllFit(schema, table)
    requires Decide(ref, policy, Names(schema), user) == Ok(DenyAll)
    ensures ShowsExactly(ref, policy, user, table, [])
  {
    if user.Member? {
      forall k | 0 <= k < |table|
        ensures !RowShown(ref, policy, user, table[k])
      {
        DeniedShowsNone(ref, policy.value, schema, user, table[k]);
      }
    }
  }

  lemma NothingShown(ref: Reference, policy: Option<Policy>, user: User, table: Table)
    ensures Picks([], |table|) && CellsShown(ref, policy, user, table, [], [])
  {
  }

  lemma TakenShown(ref: Reference, policy: Option<Policy>, user: User, table: Table, ks: seq<nat>, t: Table,
                   limit: Option<nat>)
    requires Picks(ks, |table|) && |t| == |ks| && CellsShown(ref, policy, user, table, ks, t)
    ensures var out := Take(limit, t);
            && |out| == (if limit.Some? && limit.value < |ks| then limit.value else |ks|)
            && CellsShown(ref, policy, user, table, ks, out)
  {
    hide CellShown;
    var out := Take(limit, t);
    forall i | 0 <= i < |out|
      ensures out[i] == t[i]
    {
    }
  }

  /**
   The same on every engine: what the statement returns are the first rows, up to the limit, of those the policy shows
   this user, in table order, every cell as the policy shows it. Also where memory would have refused the read.
   */
  lemma SourceReadExactly(ref: Reference, e: Engine, policy: Option<Policy>, schema: Schema, user: User,
                          limit: Option<nat>, table: Table) returns (ks: seq<nat>)
    requires Honest(ref, e) && (e.nests || e.resolution == InputColumns)
    requires Distinct(Names(schema)) && AllFit(schema, table)
    requires SourceTable(ref, e, policy, schema, user, limit, table).Ok?
    ensures ShowsExactly(ref, policy, user, table, ks)
    ensures var out := SourceTable(ref, e, policy, schema, user, limit, table).value;
            && |out| == (if limit.Some? && limit.value < |ks| then limit.value else |ks|)
            && CellsShown(ref, policy, user, table, ks, out)
  {
    SameOnEveryEngine(ref, e, policy, schema, user, limit, table);
    hide SourceTable, ApplyTablePolicy, RowShown, CellShown, CellsShown, Fits, AllFit, Honest, Take;
    if ApplyTablePolicy(ref, policy, schema, user, table).Ok? {
      ks := MemoryReadExactly(ref, policy, schema, user, table);
      TakenShown(ref, policy, user, table, ks, ApplyTablePolicy(ref, policy, schema, user, table).value, limit);
    } else {
      DeniedDecision(ref, policy, schema, user, table);
      ks := [];
      NothingShown(ref, policy, user, table);
    }
  }

  // ----- the scan that is handed out under a plan -----

  /** No plan, or one that keeps nothing, filters and projects while scanning, or masks the table that was read. */
  function Handed(ref: Reference, plan: Plan, policy: Option<Policy>, schema: Schema, user: User, table: Table)
    : Result<Table, Refusal>
  {
    match plan
    case Untouched => Ok(table)
    case Nothing => Ok([])
    case Lazy(_, _) => Ok(Scanned(ref, plan, table))
    case Exact => ApplyTablePolicy(ref, policy, schema, user, table)
  }

  /** A decision that lets something through, planned and handed out, is the policy applied in memory. */
  lemma {:induction false} PlanIsPolicy(ref: Reference, policy: Option<Policy>, schema: Schema, user: User,
      table: Table)
    requires Decide(ref, policy, Names(schema), user).Ok? && Decide(ref, policy, Names(schema), user).value.Decision?
    requires PlanFor(ref, Decide(ref, policy, Names(schema), user).value, schema).Ok?
    ensures var plan := PlanFor(ref, Decide(ref, policy, Names(schema), user).value, schema).value;
            && ApplyTablePolicy(ref, policy, schema, user, table).Ok?
            && Handed(ref, plan, policy, schema, user, table) == ApplyTablePolicy(ref, policy, schema, user, table)
  {
    if user.Member? && policy.Some? {
      var p, columns := policy.value, Names(schema);
      var d := Decide(ref, policy, columns, user).value;
      var kept := if d.row.None? then table else FilterRows(ref, d.row.value.0, d.row.value.1, table);
      DecideAppliesMasks(ref, p.masks, columns, user.matches, kept);
      assert MaskedTable(ref, [], table) == table;
      if PlanFor(ref, d, schema).value.Lazy? {
        PlanExactly(ref, d, schema, table);
      }
    }
  }

  /**
   A planned scan, exactly: whatever plan is made, what is handed out are the rows the policy shows this user, those and
   no others, in table order, every cell as the policy shows it.
   */
  lemma {:induction false} PlanReadExactly(ref: Reference, policy: Option<Policy>, schema: Schema, user: User,
      table: Table) returns (ks: seq<nat>)
    requires Distinct(Names(schema)) && AllFit(schema, table)
    requires Decide(ref, policy, Names(schema), user).Ok?
    requires PlanFor(ref, Decide(ref, policy, Names(schema), user).value, schema).Ok?
    ensures var plan := PlanFor(ref, Decide(ref, policy, Names(schema), user).value, schema).value;
            var out := Handed(ref, plan, policy, schema, user, table);
            && ShowsExactly(ref, policy, user, table, ks)
            && out.Ok? && |out.value| == |ks| && CellsShown(ref, policy, user, table, ks, out.value)
  {
    hide ApplyTablePolicy, RowShown, CellShown, CellsShown, Scanned;
    if Decide(ref, policy, Names(schema), user).value.DenyAll? {
      DeniedDecision(ref, policy, schema, user, table);
      ks := [];
      NothingShown(ref, policy, user, table);
    } else {
      PlanIsPolicy(ref, policy, schema, user, table);
      ks := MemoryReadExactly(ref, policy, schema, user, table);
    }
  }

  // ----- which reads are refused -----

  /** The first mask covering the column that puts in a value of its own is a hash. */
  ghost predicate HashedFirst(masks: seq<MaskRule>, matches: string -> bool, name: string) {
    exists i :: && 0 <= i < |masks| && Covers(masks[i], matches, name) && masks[i].mode == Hash
                && forall j :: 0 <= j < i && Covers(masks[j], matches, name) ==> masks[j].mode == NullMask
  }

  lemma HashedFirstStep(masks: seq<MaskRule>, matches: string -> bool, name: string)
    requires masks != []
    ensures HashedFirst(masks, matches, name) <==>
            if Covers(masks[0], matches, name) && masks[0].mode != NullMask then masks[0].mode == Hash
            else HashedFirst(masks[1..], matches, name)
  {
    var rest := masks[1..];
    assert forall j :: 0 < j < |masks| ==> masks[j] == rest[j - 1];
    if i :| && 0 <= i < |rest| && Covers(rest[i], matches, name) && rest[i].mode == Hash
            && forall j :: 0 <= j < i && Covers(rest[j], matches, name) ==> rest[j].mode == NullMask {
      assert masks[i + 1] == rest[i];
      if !(Covers(masks[0], matches, name) && masks[0].mode != NullMask) {
        assert forall j :: 0 <= j < i + 1 && Covers(masks[j], matches, name) ==> masks[j].mode == NullMask;
      }
    }
    if i :| && 0 <= i < |masks| && Covers(masks[i], matches, name) && masks[i].mode == Hash
            && forall j :: 0 <= j < i && Covers(masks[j], matches, name) ==> masks[j].mode == NullMask {
      if i > 0 {
        assert rest[i - 1] == masks[i];
        assert forall j :: 0 <= j < i - 1 ==> rest[j] == masks[j + 1];
      }
    }
  }

  lemma {:induction false} DecidedHashes(ref: Reference, masks: seq<MaskRule>, columns: seq<string>,
      matches: string -> bool, name: string)
    requires name in columns && DecideMasks(ref, masks, columns, matches).Ok?
    ensures FirstRewrite(ModesOf(DecideMasks(ref, masks, columns, matches).value, name)) == Some(Hash)
            <==> HashedFirst(masks, matches, name)
  {
    if masks != [] {
      var rest := DecideMasks(ref, masks[1..], columns, matches).value;
      DecidedHashes(ref, masks[1..], columns, matches, name);
      HashedFirstStep(masks, matches, name);
      var m := Mask(masks[0].column, masks[0].mode);
      assert ([m] + rest)[1..] == rest && [] + ModesOf(rest, name) == ModesOf(rest, name);
      assert ([m.mode] + ModesOf(rest, name))[1..] == ModesOf(rest, name);
    }
  }

  /** No row can be shown to the member: the key column is gone, or no rule for whom the member matches lists a text. */
  ghost predicate NothingGiven(policy: Policy, schema: Schema, matches: string -> bool) {
    && policy.rows.Some?
    && ((forall c :: c in schema ==> c.name != policy.rows.value.column)
        || forall text :: !GivenTo(policy.rows.value.rules, matches, text))
  }

  lemma NothingGivenExactly(policy: Policy, schema: Schema, matches: string -> bool)
    ensures NothingGiven(policy, schema, matches) <==> RowsDenied(policy, Names(schema), matches)
  {
    if policy.rows.Some? {
      var rp := policy.rows.value;
      forall text: string
        ensures text in Allowed(rp.rules, matches) <==> GivenTo(rp.rules, matches, text)
      {
        AllowedExactly(rp.rules, matches, text);
      }
      NamedExactly(schema, rp.column);
    }
  }

  /** No column has this name, but some column has it once both are folded. */
  ghost predicate Mistyped(ref: Reference, schema: Schema, name: string) {
    && (forall c :: c in schema ==> c.name != name)
    && exists c :: c in schema && ref.fold(c.name) == ref.fold(name)
  }

  lemma MistypedExactly(ref: Reference, schema: Schema, name: string)
    ensures IsNearMiss(ref, Names(schema), name) <==> Mistyped(ref, schema, name)
  {
    NamedExactly(schema, name);
    if c :| c in Names(schema) && ref.fold(c) == ref.fold(name) {
      NamedExactly(schema, c);
    }
    if c :| c in schema && ref.fold(c.name) == ref.fold(name) {
      NamedExactly(schema, c.name);
    }
  }

  lemma NamedExactly(schema: Schema, name: string)
    ensures name in Names(schema) <==> exists c :: c in schema && c.name == name
  {
    if name in Names(schema) {
      var i :| 0 <= i < |Names(schema)| && Names(schema)[i] == name;
      assert schema[i] in schema;
    }
    if c :| c in schema && c.name == name {
      var i :| 0 <= i < |schema| && schema[i] == c;
      assert Names(schema)[i] == name;
    }
  }

  lemma {:induction false} TypeOfExactly(schema: Schema, name: string)
    ensures TypeOf(schema, name).None? <==> forall c :: c in schema ==> c.name != name
    ensures TypeOf(schema, name).Some? ==> Column(name, TypeOf(schema, name).value) in schema
  {
    if schema != [] {
      TypeOfExactly(schema[1..], name);
      assert forall c :: c in schema <==> c == schema[0] || c in schema[1..];
    }
  }

  /**
   An engine refuses a read, exactly: of a table without columns; and for a member to whom rows can be shown, where a
   mask names a mistyped column, where the first thing to rewrite a column is a hash of text that the engine does not
   spell as the reference does, or where the row key is of a type whose text is not.
   */
  lemma SourceRefusesExactly(ref: Reference, e: Engine, policy: Option<Policy>, schema: Schema, user: User,
                             limit: Option<nat>, table: Table)
    requires e.hashText(STRING) && Distinct(Names(schema))
    ensures SourceTable(ref, e, policy, schema, user, limit, table).Err? <==>
            || schema == []
            || (&& user.Member? && policy.Some? && !NothingGiven(policy.value, schema, user.matches)
                && (|| (exists m :: m in policy.value.masks && Mistyped(ref, schema, m.column))
                    || (exists c :: && c in schema && !e.hashText(c.ty)
                                    && HashedFirst(policy.value.masks, user.matches, c.name))
                    || (policy.value.rows.Some?
                        && exists c :: c in schema && c.name == policy.value.rows.value.column && !e.rowKey(c.ty))))
  {
    if schema != [] {
      var columns := Names(schema);
      if user.Member? && policy.Some? {
        NothingGivenExactly(policy.value, schema, user.matches);
        DecideMasksRefuses(ref, policy.value.masks, columns, user.matches);
        forall m | m in policy.value.masks
          ensures IsNearMiss(ref, columns, m.column) <==> Mistyped(ref, schema, m.column)
        {
          MistypedExactly(ref, schema, m.column);
        }
        if !NothingGiven(policy.value, schema, user.matches) && Decide(ref, policy, columns, user).Ok? {
          MemberRefusals(ref, e, policy.value, schema, user);
        }
      } else if !user.Nobody? {
        RenderRefusesExactly(ref, e, Decision(None, []), schema);
      }
    }
  }

  lemma MemberRefusals(ref: Reference, e: Engine, policy: Policy, schema: Schema, user: User)
    requires schema != [] && e.hashText(STRING) && Distinct(Names(schema)) && user.Member?
    requires !NothingGiven(policy, schema, user.matches) && Decide(ref, Some(policy), Names(schema), user).Ok?
    ensures Render(ref, e, Decide(ref, Some(policy), Names(schema), user).value, schema).Err? <==>
            || (exists c :: c in schema && !e.hashText(c.ty) && HashedFirst(policy.masks, user.matches, c.name))
            || (policy.rows.Some?
                && exists c :: c in schema && c.name == policy.rows.value.column && !e.rowKey(c.ty))
  {
    var columns := Names(schema);
    var d := Decide(ref, Some(policy), columns, user).value;
    NothingGivenExactly(policy, schema, user.matches);
    DecideMasksRefuses(ref, policy.masks, columns, user.matches);
    RenderRefusesExactly(ref, e, d, schema);
    NoNearMissDecided(ref, policy.masks, columns, user.matches);
    forall c | c in schema
      ensures FirstRewrite(ModesOf(d.masks, c.name)) == Some(Hash) <==> HashedFirst(policy.masks, user.matches, c.name)
    {
      NamedExactly(schema, c.name);
      DecidedHashes(ref, policy.masks, columns, user.matches, c.name);
    }
    if policy.rows.Some? {
      RowKeyType(schema, policy.rows.value.column);
    }
  }

  lemma {:induction false} NoNearMissDecided(ref: Reference, masks: seq<MaskRule>, columns: seq<string>,
      matches: string -> bool)
    requires DecideMasks(ref, masks, columns, matches).Ok?
    ensures forall m :: m in DecideMasks(ref, masks, columns, matches).value ==> m.column in columns
  {
    if masks != [] {
      NoNearMissDecided(ref, masks[1..], columns, matches);
    }
  }

  lemma {:induction false} RowKeyType(schema: Schema, column: string)
    requires Distinct(Names(schema)) && exists c :: c in schema && c.name == column
    ensures TypeOf(schema, column).Some?
    ensures forall c :: c in schema && c.name == column ==> c.ty == TypeOf(schema, column).value
  {
    TypeOfExactly(schema, column);
    var key := Column(column, TypeOf(schema, column).value);
    var i :| 0 <= i < |schema| && schema[i] == key;
    forall c | c in schema && c.name == column
      ensures c == key
    {
      var j :| 0 <= j < |schema| && schema[j] == c;
      assert Names(schema)[i] == Names(schema)[j];
    }
  }

  /**
   And the read in memory, exactly: for a member, where a mask names a mistyped column, or where the row key is of a
   type without text and rows could be shown.
   */
  lemma MemoryRefusesExactly(ref: Reference, policy: Option<Policy>, schema: Schema, user: User, table: Table)
    requires Distinct(Names(schema))
    ensures ApplyTablePolicy(ref, policy, schema, user, table).Err? <==>
            && user.Member? && policy.Some?
            && (|| (exists m :: m in policy.value.masks && Mistyped(ref, schema, m.column))
                || (!NothingGiven(policy.value, schema, user.matches) && policy.value.rows.Some?
                    && exists c :: c in schema && c.name == policy.value.rows.value.column && ref.nested(c.ty)))
  {
    InMemoryRefusesExactly(ref, policy, schema, user, table);
    if user.Member? && policy.Some? {
      var p := policy.value;
      NothingGivenExactly(p, schema, user.matches);
      forall m | m in p.masks
        ensures IsNearMiss(ref, Names(schema), m.column) <==> Mistyped(ref, schema, m.column)
      {
        MistypedExactly(ref, schema, m.column);
      }
      if p.rows.Some? {
        TypeOfExactly(schema, p.rows.value.column);
        if exists c :: c in schema && c.name == p.rows.value.column {
          RowKeyType(schema, p.rows.value.column);
        }
      }
    }
  }

  /** A plan is refused exactly where rows could be shown to a member by a column whose type has no text. */
  lemma {:induction false} PlanRefusesExactly(ref: Reference, policy: Option<Policy>, schema: Schema, user: User)
    requires Distinct(Names(schema)) && Decide(ref, policy, Names(schema), user).Ok?
    ensures PlanFor(ref, Decide(ref, policy, Names(schema), user).value, schema).Err? <==>
            && user.Member? && policy.Some? && policy.value.rows.Some?
            && !NothingGiven(policy.value, schema, user.matches)
            && exists c :: c in schema && c.name == policy.value.rows.value.column && ref.nested(c.ty)
  {
    if user.Member? && policy.Some? && policy.value.rows.Some? {
      NothingGivenExactly(policy.value, schema, user.matches);
      TypeOfExactly(schema, policy.value.rows.value.column);
      if exists c :: c in schema && c.name == policy.value.rows.value.column {
        RowKeyType(schema, policy.value.rows.value.column);
      }
    }
  }

  // ----- what a refusal says -----

  /** Some mask names this column, and it is mistyped. */
  ghost predicate MistypedMask(ref: Reference, policy: Policy, schema: Schema, column: string) {
    (exists m :: m in policy.masks && m.column == column) && Mistyped(ref, schema, column)
  }

  lemma {:induction false} MasksSay(ref: Reference, masks: seq<MaskRule>, columns: seq<string>,
      matches: string -> bool, table: Table)
    requires ApplyMasks(ref, masks, columns, matches, table).Err?
    ensures exists m :: m in masks && IsNearMiss(ref, columns, m.column)
                        && ApplyMasks(ref, masks, columns, matches, table) == Err(NearMiss(m.column))
  {
    if IsNearMiss(ref, columns, masks[0].column) {
      assert masks[0] in masks;
    } else {
      var kept := if masks[0].column !in columns || Exempt(masks[0].exempt, matches) then table
                  else MaskTable(ref, Mask(masks[0].column, masks[0].mode), table);
      MasksSay(ref, masks[1..], columns, matches, kept);
      var m :| m in masks[1..] && IsNearMiss(ref, columns, m.column)
               && ApplyMasks(ref, masks[1..], columns, matches, kept) == Err(NearMiss(m.column));
      assert m in masks;
    }
  }

  lemma {:induction false} DecideSays(ref: Reference, masks: seq<MaskRule>, columns: seq<string>,
      matches: string -> bool)
    requires DecideMasks(ref, masks, columns, matches).Err?
    ensures exists m :: m in masks && IsNearMiss(ref, columns, m.column)
                        && DecideMasks(ref, masks, columns, matches) == Err(NearMiss(m.column))
  {
    if IsNearMiss(ref, columns, masks[0].column) {
      assert masks[0] in masks;
    } else {
      DecideSays(ref, masks[1..], columns, matches);
      var m :| m in masks[1..] && IsNearMiss(ref, columns, m.column)
               && DecideMasks(ref, masks[1..], columns, matches) == Err(NearMiss(m.column));
      assert m in masks;
    }
  }

  /** A read that is refused in memory names a mistyped mask, or the row column whose type has no text. */
  lemma {:induction false} MemoryRefusalIsTrue(ref: Reference, policy: Option<Policy>, schema: Schema, user: User,
      table: Table)
    requires Distinct(Names(schema)) && ApplyTablePolicy(ref, policy, schema, user, table).Err?
    ensures policy.Some?
            && match ApplyTablePolicy(ref, policy, schema, user, table).error
               case NearMiss(column) => MistypedMask(ref, policy.value, schema, column)
               case NoText(column) =>
                 && policy.value.rows.Some? && policy.value.rows.value.column == column
                 && exists c :: c in schema && c.name == column && ref.nested(c.ty)
               case NoColumns => false
  {
    var p, columns := policy.value, Names(schema);
    var r := ApplyTablePolicy(ref, policy, schema, user, table);
    if r.error.NoText? && p.rows.Some? && ApplyTablePolicy(ref, Some(p.(masks := [])), schema, user, table).Err? {
      TypeOfExactly(schema, p.rows.value.column);
      var key := Column(p.rows.value.column, TypeOf(schema, p.rows.value.column).value);
      assert key in schema;
    } else {
      var kept := if p.rows.None? then table
                  else if RowsDenied(p, columns, user.matches) then []
                  else FilterRows(ref, p.rows.value.column, Allowed(p.rows.value.rules, user.matches), table);
      MasksSay(ref, p.masks, columns, user.matches, kept);
      var m :| m in p.masks && IsNearMiss(ref, columns, m.column)
               && ApplyMasks(ref, p.masks, columns, user.matches, kept) == Err(NearMiss(m.column));
      MistypedExactly(ref, schema, m.column);
    }
  }

  lemma {:induction false} ItemsSay(e: Engine, schema: Schema, masks: seq<Mask>) returns (c: Column)
    requires RenderItems(e, schema, masks).Err?
    ensures c in schema && RenderItems(e, schema, masks) == Err(NoText(c.name))
    ensures !HashesPortable(e, c.ty, ModesOf(masks, c.name))
  {
    if !HashesPortable(e, schema[0].ty, ModesOf(masks, schema[0].name)) {
      c := schema[0];
    } else {
      c := ItemsSay(e, schema[1..], masks);
    }
  }

  /** No text for a column: a hash comes first on it, or it is the row column, and the engine spells it differently. */
  ghost predicate Unspelled(e: Engine, policy: Policy, schema: Schema, user: User, column: string)
    requires user.Member?
  {
    || (exists c :: && c in schema && c.name == column && !e.hashText(c.ty)
                    && HashedFirst(policy.masks, user.matches, column))
    || (&& policy.rows.Some? && policy.rows.value.column == column
        && exists c :: c in schema && c.name == column && !e.rowKey(c.ty))
  }

  lemma {:induction false} RenderSays(ref: Reference, e: Engine, policy: Policy, schema: Schema, user: User)
    requires schema != [] && e.hashText(STRING) && Distinct(Names(schema)) && user.Member?
    requires !RowsDenied(policy, Names(schema), user.matches) && Decide(ref, Some(policy), Names(schema), user).Ok?
    requires Render(ref, e, Decide(ref, Some(policy), Names(schema), user).value, schema).Err?
    ensures var x := Render(ref, e, Decide(ref, Some(policy), Names(schema), user).value, schema).error;
            x.NoText? && Unspelled(e, policy, schema, user, x.column)
  {
    var columns := Names(schema);
    var d := Decide(ref, Some(policy), columns, user).value;
    NoNearMissDecided(ref, policy.masks, columns, user.matches);
    FirstNearMissExactly(ref, columns, d.masks);
    if RenderItems(e, schema, d.masks).Err? {
      var c := ItemsSay(e, schema, d.masks);
      HashesPortableExactly(e, c.ty, ModesOf(d.masks, c.name));
      NamedExactly(schema, c.name);
      DecidedHashes(ref, policy.masks, columns, user.matches, c.name);
    } else {
      var column := policy.rows.value.column;
      NamedExactly(schema, column);
      TypeOfExactly(schema, column);
      assert Column(column, TypeOf(schema, column).value) in schema;
    }
  }

  /** A read that an engine refuses: of no columns, or for a member, with a mistyped mask or a column without text. */
  lemma {:induction false} SourceRefusalIsTrue(ref: Reference, e: Engine, policy: Option<Policy>, schema: Schema,
      user: User, limit: Option<nat>, table: Table)
    requires e.hashText(STRING) && Distinct(Names(schema))
    requires SourceTable(ref, e, policy, schema, user, limit, table).Err?
    ensures match SourceTable(ref, e, policy, schema, user, limit, table).error
            case NoColumns => schema == []
            case NearMiss(column) => user.Member? && policy.Some? && MistypedMask(ref, policy.value, schema, column)
            case NoText(column) => user.Member? && policy.Some? && Unspelled(e, policy.value, schema, user, column)
  {
    if schema != [] {
      var columns := Names(schema);
      if user.Member? && policy.Some? {
        if Decide(ref, policy, columns, user).Err? {
          DecideSays(ref, policy.value.masks, columns, user.matches);
          var m :| m in policy.value.masks && IsNearMiss(ref, columns, m.column)
                   && DecideMasks(ref, policy.value.masks, columns, user.matches) == Err(NearMiss(m.column));
          MistypedExactly(ref, schema, m.column);
        } else {
          RenderSays(ref, e, policy.value, schema, user);
        }
      } else if !user.Nobody? {
        RenderRefusesExactly(ref, e, Decision(None, []), schema);
      }
    }
  }
}
