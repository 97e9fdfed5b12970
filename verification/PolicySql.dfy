/**
 A row and column policy, twice: applied to a table in memory, and compiled to one SELECT for an engine that
 reads the table where it lies. The statement is modelled as a tree, with the two rules engines use to resolve
 a name in WHERE; what an engine's text of a value is stays abstract.
 */
module PolicySql {
  import opened Common

  // ----- tables -----

  const STRING := "string"

  datatype Value = Null | Str(text: string) | Of(ty: string, id: int)

  predicate HasType(v: Value, ty: string) {
    v.Null? || (v.Str? && ty == STRING) || (v.Of? && v.ty == ty)
  }

  datatype Cell = Cell(name: string, value: Value)

  type Record = seq<Cell>

  type Table = seq<Record>

  datatype Column = Column(name: string, ty: string)

  type Schema = seq<Column>

  predicate Fits(schema: Schema, rec: Record) {
    && |rec| == |schema|
    && forall i :: 0 <= i < |rec| ==> rec[i].name == schema[i].name && HasType(rec[i].value, schema[i].ty)
  }

  predicate AllFit(schema: Schema, table: Table) {
    forall k :: 0 <= k < |table| ==> Fits(schema, table[k])
  }

  function Names(schema: Schema): seq<string> {
    seq(|schema|, i requires 0 <= i < |schema| => schema[i].name)
  }

  function TypeOf(schema: Schema, name: string): Option<string> {
    if schema == [] then None
    else if schema[0].name == name then Some(schema[0].ty)
    else TypeOf(schema[1..], name)
  }

  function Lookup(rec: Record, name: string): Value {
    if rec == [] then Null else if rec[0].name == name then rec[0].value else Lookup(rec[1..], name)
  }

  function Take(limit: Option<nat>, table: Table): Table {
    if limit.Some? && limit.value < |table| then table[..limit.value] else table
  }

  // ----- policies and what they decide for one user -----

  datatype MaskMode = NullMask | Redact | Hash

  datatype Mask = Mask(column: string, mode: MaskMode)

  datatype MaskRule = MaskRule(column: string, mode: MaskMode, exempt: seq<string>)

  datatype RowRule = RowRule(subject: string, values: set<string>)

  datatype RowPolicy = RowPolicy(column: string, rules: seq<RowRule>)

  datatype Policy = Policy(rows: Option<RowPolicy>, masks: seq<MaskRule>)

  datatype User = Nobody | Admin | Member(matches: string -> bool)

  datatype Decision = DenyAll | Decision(row: Option<(string, set<string>)>, masks: seq<Mask>)

  datatype Refusal = NearMiss(column: string) | NoText(column: string) | NoColumns

  /** The in-memory side's text functions, and the fold under which two names are the same name mistyped. */
  datatype Reference = Reference(cast: Value -> string, str: Value -> string, digest: string -> string,
                                 nested: string -> bool, fold: string -> string)

  function Allowed(rules: seq<RowRule>, matches: string -> bool): set<string> {
    if rules == [] then {}
    else (if matches(rules[0].subject) then rules[0].values else {}) + Allowed(rules[1..], matches)
  }

  predicate Exempt(subjects: seq<string>, matches: string -> bool) {
    exists s :: s in subjects && matches(s)
  }

  predicate IsNearMiss(ref: Reference, columns: seq<string>, name: string) {
    name !in columns && exists c :: c in columns && ref.fold(c) == ref.fold(name)
  }

  function DecideMasks(ref: Reference, masks: seq<MaskRule>, columns: seq<string>, matches: string -> bool)
    : Result<seq<Mask>, Refusal>
  {
    if masks == [] then Ok([])
    else if IsNearMiss(ref, columns, masks[0].column) then Err(NearMiss(masks[0].column))
    else
      match DecideMasks(ref, masks[1..], columns, matches)
      case Err(e) => Err(e)
      case Ok(rest) =>
        if masks[0].column !in columns || Exempt(masks[0].exempt, matches) then Ok(rest)
        else Ok([Mask(masks[0].column, masks[0].mode)] + rest)
  }

  /** `decide`. */
  function Decide(ref: Reference, policy: Option<Policy>, columns: seq<string>, user: User): Result<Decision, Refusal> {
    if user.Nobody? then Ok(DenyAll)
    else if user.Admin? || policy.None? then Ok(Decision(None, []))
    else
      var p := policy.value;
      if p.rows.Some? && (p.rows.value.column !in columns || Allowed(p.rows.value.rules, user.matches) == {}) then
        Ok(DenyAll)
      else
        match DecideMasks(ref, p.masks, columns, user.matches)
        case Err(e) => Err(e)
        case Ok(masks) =>
          Ok(Decision(if p.rows.Some? then Some((p.rows.value.column, Allowed(p.rows.value.rules, user.matches)))
                      else None, masks))
  }

  // ----- the policy applied to a table in memory -----

  function MaskValue(ref: Reference, mode: MaskMode, v: Value): Value {
    match mode
    case NullMask => Null
    case Redact => Str("***")
    case Hash => if v.Null? then Null else Str(ref.digest(ref.str(v)))
  }

  function MaskRecord(ref: Reference, mask: Mask, rec: Record): (r: Record)
    ensures |r| == |rec|
  {
    seq(|rec|, i requires 0 <= i < |rec| =>
      if rec[i].name == mask.column then Cell(rec[i].name, MaskValue(ref, mask.mode, rec[i].value)) else rec[i])
  }

  function MaskTable(ref: Reference, mask: Mask, table: Table): (r: Table)
    ensures |r| == |table|
  {
    seq(|table|, k requires 0 <= k < |table| => MaskRecord(ref, mask, table[k]))
  }

  predicate Admits(ref: Reference, allowed: set<string>, v: Value) {
    !v.Null? && ref.cast(v) in allowed
  }

  function FilterRows(ref: Reference, column: string, allowed: set<string>, table: Table): Table {
    if table == [] then []
    else (if Admits(ref, allowed, Lookup(table[0], column)) then [table[0]] else [])
         + FilterRows(ref, column, allowed, table[1..])
  }

  function ApplyMasks(ref: Reference, masks: seq<MaskRule>, columns: seq<string>, matches: string -> bool, table: Table)
    : Result<Table, Refusal>
  {
    if masks == [] then Ok(table)
    else if IsNearMiss(ref, columns, masks[0].column) then Err(NearMiss(masks[0].column))
    else
      ApplyMasks(ref, masks[1..], columns, matches,
                 if masks[0].column !in columns || Exempt(masks[0].exempt, matches) then table
                 else MaskTable(ref, Mask(masks[0].column, masks[0].mode), table))
  }

  /** `apply_table_policy`: filter, then each mask in policy order over the whole table. */
  function ApplyTablePolicy(ref: Reference, policy: Option<Policy>, schema: Schema, user: User, table: Table)
    : Result<Table, Refusal>
  {
    if user.Nobody? then Ok([])
    else if user.Admin? || policy.None? then Ok(table)
    else
      var p := policy.value;
      var kept :=
        if p.rows.None? then Ok(table)
        else
          var rp := p.rows.value;
          var allowed := Allowed(rp.rules, user.matches);
          if rp.column !in Names(schema) || allowed == {} then Ok([])
          else if TypeOf(schema, rp.column).Some? && ref.nested(TypeOf(schema, rp.column).value) then
            Err(NoText(rp.column))
          else Ok(FilterRows(ref, rp.column, allowed, table));
      match kept
      case Err(e) => Err(e)
      case Ok(t) => ApplyMasks(ref, p.masks, Names(schema), user.matches, t)
  }

  // ----- statements -----

  datatype Expr = Field(name: string) | Nulled(e: Expr) | Redacted(e: Expr) | Hashed(e: Expr)

  datatype Item = Item(expr: Expr, name: string)

  datatype Projection = Star | Items(items: seq<Item>)

  datatype Filter = Always | Never | In(column: string, allowed: set<string>)

  datatype Source = Scan | Derived(select: Select)

  datatype Select = Select(projection: Projection, source: Source, filter: Filter, limit: Option<nat>)

  /** What a name in WHERE means: a column of the input, or first an alias of the same SELECT. */
  datatype Resolution = InputColumns | AliasFirst

  /** DuckDB: flat, input columns. ClickHouse: nested, alias first. StarRocks: nested, input columns. */
  datatype Engine = Engine(nests: bool, resolution: Resolution, text: Value -> string,
                           rowKey: string -> bool, hashText: string -> bool)

  function EvalExpr(ref: Reference, e: Engine, rec: Record, x: Expr): Value {
    match x
    case Field(name) => Lookup(rec, name)
    case Nulled(_) => Null
    case Redacted(_) => Str("***")
    case Hashed(y) =>
      var v := EvalExpr(ref, e, rec, y);
      if v.Null? then Null else Str(ref.digest(e.text(v)))
  }

  function Project(ref: Reference, e: Engine, projection: Projection, rec: Record): Record {
    match projection
    case Star => rec
    case Items(items) =>
      seq(|items|, i requires 0 <= i < |items| => Cell(items[i].name, EvalExpr(ref, e, rec, items[i].expr)))
  }

  function Resolve(ref: Reference, e: Engine, projection: Projection, rec: Record, name: string): Value {
    var out := Project(ref, e, projection, rec);
    if e.resolution == AliasFirst && exists c :: c in out && c.name == name then Lookup(out, name)
    else Lookup(rec, name)
  }

  predicate Holds(e: Engine, filter: Filter, v: Value) {
    match filter
    case Always => true
    case Never => false
    case In(_, allowed) => !v.Null? && e.text(v) in allowed
  }

  predicate Passes(ref: Reference, e: Engine, projection: Projection, filter: Filter, rec: Record) {
    Holds(e, filter, if filter.In? then Resolve(ref, e, projection, rec, filter.column) else Null)
  }

  function Rows(ref: Reference, e: Engine, projection: Projection, filter: Filter, table: Table): Table {
    if table == [] then []
    else (if Passes(ref, e, projection, filter, table[0]) then [Project(ref, e, projection, table[0])] else [])
         + Rows(ref, e, projection, filter, table[1..])
  }

  function Run(ref: Reference, e: Engine, select: Select, table: Table): Table {
    var input := if select.source.Scan? then table else Run(ref, e, select.source.select, table);
    Take(select.limit, Rows(ref, e, select.projection, select.filter, input))
  }

  // ----- rendering -----

  datatype SqlPolicy = SqlPolicy(projection: Projection, filter: Filter)

  function ModesOf(masks: seq<Mask>, name: string): seq<MaskMode> {
    if masks == [] then []
    else (if masks[0].column == name then [masks[0].mode] else []) + ModesOf(masks[1..], name)
  }

  function MaskExpr(mode: MaskMode, x: Expr): Expr {
    match mode
    case NullMask => Nulled(x)
    case Redact => Redacted(x)
    case Hash => Hashed(x)
  }

  function Wrap(x: Expr, modes: seq<MaskMode>): Expr
    decreases |modes|
  {
    if modes == [] then x else Wrap(MaskExpr(modes[0], x), modes[1..])
  }

  /** Whether every hash in the list digests text this engine spells as the reference does. */
  predicate HashesPortable(e: Engine, ty: string, modes: seq<MaskMode>)
    decreases |modes|
  {
    modes == []
    || match modes[0]
       case NullMask => HashesPortable(e, ty, modes[1..])
       case Redact => HashesPortable(e, STRING, modes[1..])
       case Hash => e.hashText(ty) && HashesPortable(e, STRING, modes[1..])
  }

  function FirstNearMiss(ref: Reference, columns: seq<string>, masks: seq<Mask>): Option<string> {
    if masks == [] then None
    else if IsNearMiss(ref, columns, masks[0].column) then Some(masks[0].column)
    else FirstNearMiss(ref, columns, masks[1..])
  }

  function RenderItems(e: Engine, schema: Schema, masks: seq<Mask>): Result<seq<Item>, Refusal> {
    if schema == [] then Ok([])
    else
      var modes := ModesOf(masks, schema[0].name);
      if !HashesPortable(e, schema[0].ty, modes) then Err(NoText(schema[0].name))
      else
        match RenderItems(e, schema[1..], masks)
        case Err(x) => Err(x)
        case Ok(rest) => Ok([Item(Wrap(Field(schema[0].name), modes), schema[0].name)] + rest)
  }

  function Render(ref: Reference, e: Engine, decision: Decision, schema: Schema): Result<SqlPolicy, Refusal> {
    if decision.DenyAll? then Ok(SqlPolicy(Star, Never))
    else if schema == [] then
      (if decision.row.Some? || decision.masks != [] then Err(NoColumns) else Ok(SqlPolicy(Star, Always)))
    else
      match FirstNearMiss(ref, Names(schema), decision.masks)
      case Some(c) => Err(NearMiss(c))
      case None =>
        match RenderItems(e, schema, decision.masks)
        case Err(x) => Err(x)
        case Ok(items) =>
          if decision.row.None? then Ok(SqlPolicy(Items(items), Always))
          else
            var ty := TypeOf(schema, decision.row.value.0);
            if ty.None? || !e.rowKey(ty.value) then Err(NoText(decision.row.value.0))
            else Ok(SqlPolicy(Items(items), In(decision.row.value.0, decision.row.value.1)))
  }

  /** `assemble`: flat for an engine that resolves against input columns, the filter strictly below otherwise. */
  function Assemble(e: Engine, policy: SqlPolicy, limit: Option<nat>): Select {
    if e.nests then Select(policy.projection, Derived(Select(Star, Scan, policy.filter, None)), Always, limit)
    else Select(policy.projection, Scan, policy.filter, limit)
  }

  /** `source_table`. */
  function SourceTable(ref: Reference, e: Engine, policy: Option<Policy>, schema: Schema, user: User,
                       limit: Option<nat>, table: Table): Result<Table, Refusal>
  {
    if schema == [] then Err(NoColumns)
    else
      match Decide(ref, policy, Names(schema), user)
      case Err(x) => Err(x)
      case Ok(decision) =>
        match Render(ref, e, decision, schema)
        case Err(x) => Err(x)
        case Ok(sql) => Ok(Run(ref, e, Assemble(e, sql, limit), table))
  }

  // ----- assembly: filter the raw rows, then mask, then limit -----

  function FilterThenMask(ref: Reference, e: Engine, policy: SqlPolicy, table: Table): Table {
    if table == [] then []
    else (if PassesRaw(e, policy.filter, table[0]) then [Project(ref, e, policy.projection, table[0])] else [])
         + FilterThenMask(ref, e, policy, table[1..])
  }

  predicate PassesRaw(e: Engine, filter: Filter, rec: Record) {
    Holds(e, filter, if filter.In? then Lookup(rec, filter.column) else Null)
  }

  lemma {:induction false} NestedRows(ref: Reference, e: Engine, policy: SqlPolicy, table: Table)
    ensures Rows(ref, e, policy.projection, Always, Rows(ref, e, Star, policy.filter, table))
            == FilterThenMask(ref, e, policy, table)
  {
    if table != [] {
      var inner := Rows(ref, e, Star, policy.filter, table);
      var rest := Rows(ref, e, Star, policy.filter, table[1..]);
      NestedRows(ref, e, policy, table[1..]);
      assert Passes(ref, e, Star, policy.filter, table[0]) == PassesRaw(e, policy.filter, table[0]);
      if PassesRaw(e, policy.filter, table[0]) {
        assert inner == [table[0]] + rest && inner[1..] == rest;
      } else {
        assert inner == rest;
      }
    }
  }

  lemma {:induction false} FlatRows(ref: Reference, e: Engine, policy: SqlPolicy, table: Table)
    requires forall rec :: rec in table ==>
               Passes(ref, e, policy.projection, policy.filter, rec) == PassesRaw(e, policy.filter, rec)
    ensures Rows(ref, e, policy.projection, policy.filter, table) == FilterThenMask(ref, e, policy, table)
  {
    if table != [] {
      assert table[0] in table;
      FlatRows(ref, e, policy, table[1..]);
    }
  }

  /** The nested statement is right under either resolution rule, the flat one under input-column resolution. */
  lemma {:induction false} AssembledExactly(ref: Reference, e: Engine, policy: SqlPolicy, limit: Option<nat>,
      table: Table)
    requires e.nests || e.resolution == InputColumns
    ensures Run(ref, e, Assemble(e, policy, limit), table) == Take(limit, FilterThenMask(ref, e, policy, table))
  {
    if e.nests {
      NestedRows(ref, e, policy, table);
      assert Run(ref, e, Select(Star, Scan, policy.filter, None), table) == Rows(ref, e, Star, policy.filter, table);
    } else {
      FlatRows(ref, e, policy, table);
    }
  }

  ghost predicate FlatIsRight(ref: Reference, e: Engine, policy: SqlPolicy, schema: Schema) {
    forall table, limit :: AllFit(schema, table) ==>
      Run(ref, e, Assemble(e, policy, limit), table) == Take(limit, FilterThenMask(ref, e, policy, table))
  }

  /**
   The flat statement on an alias-first engine: right on every table if and only if the masks never change
   what the row filter says about a row.
   */
  lemma FlatAliasFirstExactly(ref: Reference, e: Engine, policy: SqlPolicy, schema: Schema)
    requires !e.nests
    ensures FlatIsRight(ref, e, policy, schema) <==>
            forall rec :: Fits(schema, rec) ==>
              Passes(ref, e, policy.projection, policy.filter, rec) == PassesRaw(e, policy.filter, rec)
  {
    if FlatIsRight(ref, e, policy, schema) {
      forall rec | Fits(schema, rec)
        ensures Passes(ref, e, policy.projection, policy.filter, rec) == PassesRaw(e, policy.filter, rec)
      {
        var table := [rec];
        assert table[1..] == [];
        assert AllFit(schema, table);
        var got := Run(ref, e, Assemble(e, policy, None), table);
        assert got == Take(None, FilterThenMask(ref, e, policy, table));
        assert |got| == if Passes(ref, e, policy.projection, policy.filter, rec) then 1 else 0;
        assert |FilterThenMask(ref, e, policy, table)| == if PassesRaw(e, policy.filter, rec) then 1 else 0;
      }
    }
    if forall rec :: Fits(schema, rec) ==>
         Passes(ref, e, policy.projection, policy.filter, rec) == PassesRaw(e, policy.filter, rec)
    {
      forall table, limit | AllFit(schema, table)
        ensures Run(ref, e, Assemble(e, policy, limit), table) == Take(limit, FilterThenMask(ref, e, policy, table))
      {
        FlatRows(ref, e, policy, table);
      }
    }
  }

  /** A redacted column that is also the row key: the flat alias-first statement hands over a hidden row. */
  lemma {:induction false} FlatFailsOpen(ref: Reference, e: Engine)
    requires !e.nests && e.resolution == AliasFirst && e.text(Str("us")) == "us" && e.text(Str("***")) == "***"
    ensures var policy := SqlPolicy(Items([Item(Redacted(Field("region")), "region")]), In("region", {"***"}));
            var table := [[Cell("region", Str("us"))]];
            && |Run(ref, e, Assemble(e, policy, None), table)| == 1
            && FilterThenMask(ref, e, policy, table) == []
  {
    var policy := SqlPolicy(Items([Item(Redacted(Field("region")), "region")]), In("region", {"***"}));
    var rec := [Cell("region", Str("us"))];
    var out := Project(ref, e, policy.projection, rec);
    assert out[0] == Cell("region", Str("***")) && out[0] in out;
    assert [rec][1..] == [];
    assert Passes(ref, e, policy.projection, policy.filter, rec);
    assert !PassesRaw(e, policy.filter, rec);
    assert Rows(ref, e, policy.projection, policy.filter, [rec]) == [out] + [];
  }

  // ----- rendering: the statement does what the in-memory policy does -----

  /** What the portability tables claim: on the types they list, the engine spells a value as the reference does. */
  ghost predicate Honest(ref: Reference, e: Engine) {
    && (forall t, v :: e.rowKey(t) && HasType(v, t) && !v.Null? ==> e.text(v) == ref.cast(v))
    && (forall t, v :: e.hashText(t) && HasType(v, t) && !v.Null? ==> e.text(v) == ref.str(v))
    && (forall t :: e.rowKey(t) ==> !ref.nested(t))
  }

  function MaskedValue(ref: Reference, modes: seq<MaskMode>, v: Value): Value {
    if modes == [] then v else MaskedValue(ref, modes[1..], MaskValue(ref, modes[0], v))
  }

  function MaskedRecord(ref: Reference, masks: seq<Mask>, rec: Record): Record {
    if masks == [] then rec else MaskedRecord(ref, masks[1..], MaskRecord(ref, masks[0], rec))
  }

  function MaskedTable(ref: Reference, masks: seq<Mask>, table: Table): Table {
    if masks == [] then table else MaskedTable(ref, masks[1..], MaskTable(ref, masks[0], table))
  }

  lemma {:induction false} MaskedRecordAt(ref: Reference, masks: seq<Mask>, rec: Record, i: nat)
    requires i < |rec|
    ensures |MaskedRecord(ref, masks, rec)| == |rec|
    ensures MaskedRecord(ref, masks, rec)[i]
            == Cell(rec[i].name, MaskedValue(ref, ModesOf(masks, rec[i].name), rec[i].value))
  {
    if masks != [] {
      MaskedRecordAt(ref, masks[1..], MaskRecord(ref, masks[0], rec), i);
      var rest := ModesOf(masks[1..], rec[i].name);
      assert ([masks[0].mode] + rest)[1..] == rest;
      assert [] + rest == rest;
    }
  }

  lemma {:induction false} MaskedRecordLength(ref: Reference, masks: seq<Mask>, rec: Record)
    ensures |MaskedRecord(ref, masks, rec)| == |rec|
  {
    if masks != [] {
      MaskedRecordLength(ref, masks[1..], MaskRecord(ref, masks[0], rec));
    }
  }

  lemma {:induction false} MaskedTableAt(ref: Reference, masks: seq<Mask>, table: Table)
    ensures |MaskedTable(ref, masks, table)| == |table|
    ensures forall k :: 0 <= k < |table| ==> MaskedTable(ref, masks, table)[k] == MaskedRecord(ref, masks, table[k])
  {
    if masks != [] {
      MaskedTableAt(ref, masks[1..], MaskTable(ref, masks[0], table));
    }
  }

  /** A mask expression evaluates to the masks applied one after the other. */
  lemma {:induction false} WrapEvaluates(ref: Reference, e: Engine, rec: Record, x: Expr, ty: string,
      modes: seq<MaskMode>)
    requires Honest(ref, e) && HasType(EvalExpr(ref, e, rec, x), ty) && HashesPortable(e, ty, modes)
    ensures EvalExpr(ref, e, rec, Wrap(x, modes)) == MaskedValue(ref, modes, EvalExpr(ref, e, rec, x))
    decreases |modes|
  {
    if modes != [] {
      match modes[0]
      case NullMask => WrapEvaluates(ref, e, rec, Nulled(x), ty, modes[1..]);
      case Redact => WrapEvaluates(ref, e, rec, Redacted(x), STRING, modes[1..]);
      case Hash => WrapEvaluates(ref, e, rec, Hashed(x), STRING, modes[1..]);
    }
  }

  lemma {:induction false} RenderItemsAt(e: Engine, schema: Schema, masks: seq<Mask>)
    requires RenderItems(e, schema, masks).Ok?
    ensures var items := RenderItems(e, schema, masks).value;
            && |items| == |schema|
            && forall i :: 0 <= i < |schema| ==>
                 && items[i] == Item(Wrap(Field(schema[i].name), ModesOf(masks, schema[i].name)), schema[i].name)
                 && HashesPortable(e, schema[i].ty, ModesOf(masks, schema[i].name))
  {
    if schema != [] {
      RenderItemsAt(e, schema[1..], masks);
    }
  }

  lemma {:induction false} LookupAt(schema: Schema, rec: Record, i: nat)
    requires Fits(schema, rec) && Distinct(Names(schema)) && i < |rec|
    ensures Lookup(rec, rec[i].name) == rec[i].value
    ensures TypeOf(schema, rec[i].name) == Some(schema[i].ty)
  {
    if i > 0 {
      assert Names(schema)[0] != Names(schema)[i];
      DistinctTail(schema);
      LookupAt(schema[1..], rec[1..], i - 1);
    }
  }

  lemma DistinctTail(schema: Schema)
    requires schema != [] && Distinct(Names(schema))
    ensures Distinct(Names(schema[1..]))
  {
    assert Names(schema[1..]) == Names(schema)[1..];
  }

  lemma {:induction false} ProjectMasks(ref: Reference, e: Engine, schema: Schema, masks: seq<Mask>, rec: Record)
    requires Honest(ref, e) && Distinct(Names(schema)) && Fits(schema, rec)
    requires RenderItems(e, schema, masks).Ok?
    ensures Project(ref, e, Items(RenderItems(e, schema, masks).value), rec) == MaskedRecord(ref, masks, rec)
  {
    RenderItemsAt(e, schema, masks);
    MaskedRecordLength(ref, masks, rec);
    var items := RenderItems(e, schema, masks).value;
    var out := Project(ref, e, Items(items), rec);
    forall i | 0 <= i < |rec|
      ensures out[i] == MaskedRecord(ref, masks, rec)[i]
    {
      LookupAt(schema, rec, i);
      MaskedRecordAt(ref, masks, rec, i);
      WrapEvaluates(ref, e, rec, Field(schema[i].name), schema[i].ty, ModesOf(masks, schema[i].name));
    }
  }

  lemma {:induction false} DecideAppliesMasks(ref: Reference, masks: seq<MaskRule>, columns: seq<string>,
      matches: string -> bool, table: Table)
    ensures match DecideMasks(ref, masks, columns, matches)
            case Err(x) => ApplyMasks(ref, masks, columns, matches, table) == Err(x)
            case Ok(ms) => ApplyMasks(ref, masks, columns, matches, table) == Ok(MaskedTable(ref, ms, table))
  {
    if masks != [] && !IsNearMiss(ref, columns, masks[0].column) {
      var skip := masks[0].column !in columns || Exempt(masks[0].exempt, matches);
      var m := Mask(masks[0].column, masks[0].mode);
      DecideAppliesMasks(ref, masks[1..], columns, matches, if skip then table else MaskTable(ref, m, table));
      var rest := DecideMasks(ref, masks[1..], columns, matches);
      if rest.Ok? && !skip {
        assert ([m] + rest.value)[1..] == rest.value;
      }
    }
  }

  /** The reference's filter and masks over one table, against the engine's filter-then-mask. */
  lemma {:induction false} FilteredAndMasked(ref: Reference, e: Engine, schema: Schema, masks: seq<Mask>,
      column: string, allowed: set<string>, table: Table)
    requires Honest(ref, e) && Distinct(Names(schema)) && AllFit(schema, table)
    requires RenderItems(e, schema, masks).Ok?
    requires TypeOf(schema, column).Some? && e.rowKey(TypeOf(schema, column).value)
    ensures var policy := SqlPolicy(Items(RenderItems(e, schema, masks).value), In(column, allowed));
            FilterThenMask(ref, e, policy, table) == MaskedTable(ref, masks, FilterRows(ref, column, allowed, table))
  {
    var policy := SqlPolicy(Items(RenderItems(e, schema, masks).value), In(column, allowed));
    if table == [] {
      MaskedTableAt(ref, masks, []);
    } else {
      var rec := table[0];
      FilteredAndMasked(ref, e, schema, masks, column, allowed, table[1..]);
      LookupTyped(schema, rec, column);
      assert PassesRaw(e, policy.filter, rec) == Admits(ref, allowed, Lookup(rec, column));
      ProjectMasks(ref, e, schema, masks, rec);
      MaskedCons(ref, masks, rec, FilterRows(ref, column, allowed, table[1..]));
    }
  }

  lemma {:induction false} MaskedCons(ref: Reference, masks: seq<Mask>, rec: Record, rest: Table)
    ensures MaskedTable(ref, masks, [rec] + rest) == [MaskedRecord(ref, masks, rec)] + MaskedTable(ref, masks, rest)
    ensures MaskedTable(ref, masks, [] + rest) == [] + MaskedTable(ref, masks, rest)
  {
    MaskedTableAt(ref, masks, [rec] + rest);
    MaskedTableAt(ref, masks, rest);
    assert [] + rest == rest;
  }

  lemma {:induction false} LookupTyped(schema: Schema, rec: Record, column: string)
    requires Fits(schema, rec) && TypeOf(schema, column).Some?
    ensures HasType(Lookup(rec, column), TypeOf(schema, column).value)
  {
    if schema[0].name != column {
      LookupTyped(schema[1..], rec[1..], column);
    }
  }

  lemma {:induction false} MaskedOnly(ref: Reference, e: Engine, schema: Schema, masks: seq<Mask>, table: Table)
    requires Honest(ref, e) && Distinct(Names(schema)) && AllFit(schema, table)
    requires RenderItems(e, schema, masks).Ok?
    ensures var policy := SqlPolicy(Items(RenderItems(e, schema, masks).value), Always);
            FilterThenMask(ref, e, policy, table) == MaskedTable(ref, masks, table)
  {
    if table == [] {
      MaskedTableAt(ref, masks, []);
    } else {
      MaskedOnly(ref, e, schema, masks, table[1..]);
      ProjectMasks(ref, e, schema, masks, table[0]);
      MaskedCons(ref, masks, table[0], table[1..]);
      assert table == [table[0]] + table[1..];
    }
  }

  lemma {:induction false} NothingPasses(ref: Reference, e: Engine, table: Table)
    ensures FilterThenMask(ref, e, SqlPolicy(Star, Never), table) == []
  {
    if table != [] {
      NothingPasses(ref, e, table[1..]);
    }
  }

  /** A decision that denies nothing outright, rendered and run, against the filter and masks it stands for. */
  lemma {:induction false} RenderedExactly(ref: Reference, e: Engine, d: Decision, schema: Schema, limit: Option<nat>,
      table: Table)
    requires Honest(ref, e) && (e.nests || e.resolution == InputColumns)
    requires schema != [] && Distinct(Names(schema)) && AllFit(schema, table)
    requires d.Decision? && Render(ref, e, d, schema).Ok?
    ensures Run(ref, e, Assemble(e, Render(ref, e, d, schema).value, limit), table)
            == Take(limit, MaskedTable(ref, d.masks,
                             if d.row.None? then table else FilterRows(ref, d.row.value.0, d.row.value.1, table)))
  {
    var policy := Render(ref, e, d, schema).value;
    AssembledExactly(ref, e, policy, limit, table);
    if d.row.None? {
      MaskedOnly(ref, e, schema, d.masks, table);
    } else {
      FilteredAndMasked(ref, e, schema, d.masks, d.row.value.0, d.row.value.1, table);
    }
  }

  lemma {:induction false} TypeOfListed(schema: Schema, name: string)
    ensures TypeOf(schema, name).Some? <==> name in Names(schema)
  {
    if schema != [] {
      TypeOfListed(schema[1..], name);
      assert Names(schema) == [schema[0].name] + Names(schema[1..]);
    }
  }

  lemma {:induction false} ApplyMasksToNothing(ref: Reference, masks: seq<MaskRule>, columns: seq<string>,
      matches: string -> bool)
    ensures var r := ApplyMasks(ref, masks, columns, matches, []); r.Err? || r == Ok([])
  {
    DecideAppliesMasks(ref, masks, columns, matches, []);
    var d := DecideMasks(ref, masks, columns, matches);
    if d.Ok? {
      MaskedTableAt(ref, d.value, []);
    }
  }

  /**
   One policy, one meaning: whatever rows the statement returns are the rows the in-memory policy leaves, cut
   at the limit. The in-memory side refuses where the statement answers only when the user is denied every row.
   */
  lemma SameOnEveryEngine(ref: Reference, e: Engine, policy: Option<Policy>, schema: Schema, user: User,
                          limit: Option<nat>, table: Table)
    requires Honest(ref, e) && (e.nests || e.resolution == InputColumns)
    requires Distinct(Names(schema)) && AllFit(schema, table)
    requires SourceTable(ref, e, policy, schema, user, limit, table).Ok?
    ensures var got := SourceTable(ref, e, policy, schema, user, limit, table).value;
            match ApplyTablePolicy(ref, policy, schema, user, table)
            case Ok(t) => got == Take(limit, t)
            case Err(_) => got == [] && Decide(ref, policy, Names(schema), user) == Ok(DenyAll)
  {
    var columns := Names(schema);
    var d := Decide(ref, policy, columns, user).value;
    if d.DenyAll? {
      AssembledExactly(ref, e, SqlPolicy(Star, Never), limit, table);
      NothingPasses(ref, e, table);
      if user.Member? {
        ApplyMasksToNothing(ref, policy.value.masks, columns, user.matches);
      }
    } else {
      RenderedExactly(ref, e, d, schema, limit, table);
      if user.Member? && policy.Some? {
        var p := policy.value;
        if p.rows.Some? {
          TypeOfListed(schema, p.rows.value.column);
        }
        var kept := if d.row.None? then table else FilterRows(ref, d.row.value.0, d.row.value.1, table);
        DecideAppliesMasks(ref, p.masks, columns, user.matches, kept);
      }
    }
  }

  // ----- when the flat statement would do -----

  lemma {:induction false} WrapLast(x: Expr, modes: seq<MaskMode>) returns (y: Expr)
    requires modes != []
    ensures Wrap(x, modes) == MaskExpr(modes[|modes| - 1], y)
    decreases |modes|
  {
    var first, rest := modes[0], modes[1..];
    if rest == [] {
      y := x;
    } else {
      y := WrapLast(MaskExpr(first, x), rest);
    }
  }

  /** The last mask decides what an expression can be: nothing, three stars, or nothing and digests. */
  lemma LastMaskDecides(ref: Reference, e: Engine, rec: Record, x: Expr, modes: seq<MaskMode>)
    requires modes != []
    ensures var v := EvalExpr(ref, e, rec, Wrap(x, modes));
            match modes[|modes| - 1]
            case NullMask => v == Null
            case Redact => v == Str("***")
            case Hash => v == Null || exists t :: v == Str(ref.digest(t))
  {
    var y := WrapLast(x, modes);
    if modes[|modes| - 1] == Hash {
      var inner := EvalExpr(ref, e, rec, y);
      assert !inner.Null? ==> EvalExpr(ref, e, rec, Hashed(y)) == Str(ref.digest(e.text(inner)));
    }
  }

  lemma {:induction false} LookupNamed(names: seq<string>, rec: Record, i: nat)
    requires |rec| == |names| && Distinct(names) && i < |rec|
    requires forall k :: 0 <= k < |rec| ==> rec[k].name == names[k]
    ensures Lookup(rec, names[i]) == rec[i].value
  {
    if i > 0 {
      assert names[0] != names[i];
      LookupNamed(names[1..], rec[1..], i - 1);
    }
  }

  /** What an alias-first WHERE sees of the row column: its value after the masks. */
  lemma {:induction false} AliasSees(ref: Reference, e: Engine, schema: Schema, masks: seq<Mask>, rec: Record, j: nat)
    requires e.resolution == AliasFirst && Distinct(Names(schema)) && Fits(schema, rec) && j < |schema|
    requires RenderItems(e, schema, masks).Ok?
    ensures Resolve(ref, e, Items(RenderItems(e, schema, masks).value), rec, schema[j].name)
            == EvalExpr(ref, e, rec, Wrap(Field(schema[j].name), ModesOf(masks, schema[j].name)))
    ensures Lookup(rec, schema[j].name) == rec[j].value
  {
    RenderItemsAt(e, schema, masks);
    var out := Project(ref, e, Items(RenderItems(e, schema, masks).value), rec);
    assert out[j] in out && out[j].name == schema[j].name;
    LookupNamed(Names(schema), out, j);
    LookupNamed(Names(schema), rec, j);
  }

  /** A value the allowlist admits, of the row column's type. */
  ghost predicate AdmitsValue(e: Engine, ty: string, allowed: set<string>) {
    exists v :: HasType(v, ty) && !v.Null? && e.text(v) in allowed
  }

  /** No allowed value is a digest, and the text of a string is the string. */
  ghost predicate NoDigestAllowed(ref: Reference, e: Engine, allowed: set<string>) {
    (forall x :: ref.digest(x) !in allowed) && forall x :: e.text(Str(x)) == x
  }

  function OneValue(schema: Schema, j: nat, v: Value): Record {
    seq(|schema|, i requires 0 <= i < |schema| => Cell(schema[i].name, if i == j then v else Null))
  }

  /** The row filter sees a masked row column the same way in every row, or never admits it. */
  lemma {:induction false} MaskedKeySeenAlike(ref: Reference, e: Engine, column: string, modes: seq<MaskMode>,
      allowed: set<string>, shown: Record, hidden: Record)
    requires modes != [] && NoDigestAllowed(ref, e, allowed)
    ensures var f := In(column, allowed);
            var x := Wrap(Field(column), modes);
            Holds(e, f, EvalExpr(ref, e, shown, x)) ==> Holds(e, f, EvalExpr(ref, e, hidden, x))
  {
    LastMaskDecides(ref, e, shown, Field(column), modes);
    LastMaskDecides(ref, e, hidden, Field(column), modes);
  }

  ghost predicate Misleads(ref: Reference, e: Engine, policy: SqlPolicy, rec: Record) {
    Passes(ref, e, policy.projection, policy.filter, rec) != PassesRaw(e, policy.filter, rec)
  }

  lemma MaskedRowKeyMisleads(ref: Reference, e: Engine, schema: Schema, masks: seq<Mask>, j: nat, allowed: set<string>)
    returns (rec: Record)
    requires e.resolution == AliasFirst && Distinct(Names(schema)) && j < |schema|
    requires RenderItems(e, schema, masks).Ok? && ModesOf(masks, schema[j].name) != []
    requires AdmitsValue(e, schema[j].ty, allowed) && NoDigestAllowed(ref, e, allowed)
    ensures Fits(schema, rec)
    ensures Misleads(ref, e, SqlPolicy(Items(RenderItems(e, schema, masks).value), In(schema[j].name, allowed)), rec)
  {
    var v :| HasType(v, schema[j].ty) && !v.Null? && e.text(v) in allowed;
    var policy := SqlPolicy(Items(RenderItems(e, schema, masks).value), In(schema[j].name, allowed));
    var shown, hidden := OneValue(schema, j, v), OneValue(schema, j, Null);
    AliasSees(ref, e, schema, masks, shown, j);
    AliasSees(ref, e, schema, masks, hidden, j);
    MaskedKeySeenAlike(ref, e, schema[j].name, ModesOf(masks, schema[j].name), allowed, shown, hidden);
    rec := if Misleads(ref, e, policy, shown) then shown else hidden;
  }

  /**
   On an alias-first engine the flat statement is right on every table if and only if the policy filters by no
   allowlist or leaves the row column unmasked; for a list that admits some value and holds no digest.
   */
  lemma {:induction false} FlatIsRightExactly(ref: Reference, e: Engine, d: Decision, schema: Schema)
    requires !e.nests && e.resolution == AliasFirst && Distinct(Names(schema)) && schema != []
    requires d.Decision? && Render(ref, e, d, schema).Ok?
    requires d.row.Some? ==> AdmitsValue(e, TypeOf(schema, d.row.value.0).value, d.row.value.1)
                             && NoDigestAllowed(ref, e, d.row.value.1)
    ensures FlatIsRight(ref, e, Render(ref, e, d, schema).value, schema) <==>
            d.row.None? || ModesOf(d.masks, d.row.value.0) == []
  {
    var policy := Render(ref, e, d, schema).value;
    FlatAliasFirstExactly(ref, e, policy, schema);
    if d.row.Some? {
      var column := d.row.value.0;
      var j := ColumnAt(schema, column);
      if ModesOf(d.masks, column) == [] {
        forall rec | Fits(schema, rec)
          ensures Passes(ref, e, policy.projection, policy.filter, rec) == PassesRaw(e, policy.filter, rec)
        {
          AliasSees(ref, e, schema, d.masks, rec, j);
        }
      } else {
        var rec := MaskedRowKeyMisleads(ref, e, schema, d.masks, j, d.row.value.1);
      }
    }
  }

  lemma {:induction false} ColumnAt(schema: Schema, name: string) returns (j: nat)
    requires TypeOf(schema, name).Some?
    ensures j < |schema| && schema[j].name == name && TypeOf(schema, name) == Some(schema[j].ty)
  {
    if schema[0].name == name {
      j := 0;
    } else {
      j := ColumnAt(schema[1..], name);
      j := j + 1;
    }
  }

  // ----- where the two sides differ -----

  ghost predicate NamesNearMiss(ref: Reference, masks: seq<MaskRule>, columns: seq<string>) {
    exists m :: m in masks && IsNearMiss(ref, columns, m.column)
  }

  lemma {:induction false} DecideMasksRefuses(ref: Reference, masks: seq<MaskRule>, columns: seq<string>,
      matches: string -> bool)
    ensures DecideMasks(ref, masks, columns, matches).Err? <==> NamesNearMiss(ref, masks, columns)
  {
    if masks != [] {
      DecideMasksRefuses(ref, masks[1..], columns, matches);
      assert masks == [masks[0]] + masks[1..];
      assert masks[0] in masks;
    }
  }

  /** The user's rows are denied outright: the row policy's column is gone, or no rule admits the user. */
  predicate RowsDenied(policy: Policy, columns: seq<string>, matches: string -> bool) {
    policy.rows.Some?
    && (policy.rows.value.column !in columns || Allowed(policy.rows.value.rules, matches) == {})
  }

  /** The row policy reads a column that has no text form. */
  predicate RowsHaveNoText(ref: Reference, policy: Policy, schema: Schema) {
    policy.rows.Some?
    && TypeOf(schema, policy.rows.value.column).Some? && ref.nested(TypeOf(schema, policy.rows.value.column).value)
  }

  /**
   The in-memory side refuses a read if and only if it is for a member under a policy that names a mistyped
   column, or that filters on a column without text which is not denied first.
   */
  lemma InMemoryRefusesExactly(ref: Reference, policy: Option<Policy>, schema: Schema, user: User, table: Table)
    ensures ApplyTablePolicy(ref, policy, schema, user, table).Err? <==>
            && user.Member? && policy.Some?
            && (|| NamesNearMiss(ref, policy.value.masks, Names(schema))
                || (!RowsDenied(policy.value, Names(schema), user.matches)
                    && RowsHaveNoText(ref, policy.value, schema)))
  {
    if user.Member? && policy.Some? {
      var p := policy.value;
      var columns := Names(schema);
      DecideMasksRefuses(ref, p.masks, columns, user.matches);
      DecideAppliesMasks(ref, p.masks, columns, user.matches, table);
      DecideAppliesMasks(ref, p.masks, columns, user.matches, []);
      if p.rows.Some? {
        var rp := p.rows.value;
        DecideAppliesMasks(ref, p.masks, columns, user.matches,
                           FilterRows(ref, rp.column, Allowed(rp.rules, user.matches), table));
      }
    }
  }

  /**
   Exactly where the two sides differ on a read that the statement answers: the in-memory side refuses it if and
   only if the user is denied every row and a mask names a mistyped column.
   */
  lemma SidesDifferExactly(ref: Reference, e: Engine, policy: Option<Policy>, schema: Schema, user: User,
                           limit: Option<nat>, table: Table)
    requires Honest(ref, e) && (e.nests || e.resolution == InputColumns)
    requires Distinct(Names(schema)) && AllFit(schema, table)
    requires SourceTable(ref, e, policy, schema, user, limit, table).Ok?
    ensures ApplyTablePolicy(ref, policy, schema, user, table).Err? <==>
            && user.Member? && policy.Some?
            && RowsDenied(policy.value, Names(schema), user.matches)
            && NamesNearMiss(ref, policy.value.masks, Names(schema))
  {
    SameOnEveryEngine(ref, e, policy, schema, user, limit, table);
    InMemoryRefusesExactly(ref, policy, schema, user, table);
    if user.Member? && policy.Some? && !RowsDenied(policy.value, Names(schema), user.matches) {
      DecideMasksRefuses(ref, policy.value.masks, Names(schema), user.matches);
    }
  }

  const STRAY_POLICY := Policy(Some(RowPolicy("tenant", [])), [MaskRule("SSN", Redact, [])])

  const STRAY_SCHEMA := [Column("tenant", STRING), Column("ssn", STRING)]

  /** One such read: no rule admits the user, a mask says SSN for ssn; memory refuses, every engine answers no rows. */
  lemma DeniedReadDiffers(ref: Reference, e: Engine, table: Table, limit: Option<nat>)
    requires (e.nests || e.resolution == InputColumns) && ref.fold("SSN") == ref.fold("ssn")
    ensures var user := Member((_) => true);
            && ApplyTablePolicy(ref, Some(STRAY_POLICY), STRAY_SCHEMA, user, table) == Err(NearMiss("SSN"))
            && SourceTable(ref, e, Some(STRAY_POLICY), STRAY_SCHEMA, user, limit, table) == Ok([])
  {
    var columns := Names(STRAY_SCHEMA);
    assert columns == ["tenant", "ssn"] && columns[1] in columns;
    assert IsNearMiss(ref, columns, "SSN");
    AssembledExactly(ref, e, SqlPolicy(Star, Never), limit, table);
    NothingPasses(ref, e, table);
  }

  // ----- exactly what the renderer refuses -----

  /** The first mask that rewrites a column's value, if any: a null mask keeps the column's own type. */
  function FirstRewrite(modes: seq<MaskMode>): Option<MaskMode> {
    if modes == [] then None else if modes[0] == NullMask then FirstRewrite(modes[1..]) else Some(modes[0])
  }

  lemma {:induction false} HashesPortableExactly(e: Engine, ty: string, modes: seq<MaskMode>)
    requires e.hashText(STRING)
    ensures HashesPortable(e, ty, modes) <==> FirstRewrite(modes) == Some(Hash) ==> e.hashText(ty)
    decreases |modes|
  {
    if modes != [] {
      HashesPortableExactly(e, STRING, modes[1..]);
      HashesPortableExactly(e, ty, modes[1..]);
    }
  }

  lemma {:induction false} RenderItemsRefuses(e: Engine, schema: Schema, masks: seq<Mask>)
    ensures RenderItems(e, schema, masks).Err? <==>
            exists c :: c in schema && !HashesPortable(e, c.ty, ModesOf(masks, c.name))
  {
    if schema != [] {
      RenderItemsRefuses(e, schema[1..], masks);
      assert schema == [schema[0]] + schema[1..];
      assert schema[0] in schema;
    }
  }

  lemma {:induction false} FirstNearMissExactly(ref: Reference, columns: seq<string>, masks: seq<Mask>)
    ensures FirstNearMiss(ref, columns, masks).Some? <==> exists m :: m in masks && IsNearMiss(ref, columns, m.column)
  {
    if masks != [] {
      FirstNearMissExactly(ref, columns, masks[1..]);
      assert masks == [masks[0]] + masks[1..];
      assert masks[0] in masks;
    }
  }

  /**
   A decision is refused if and only if it names a mistyped column, hashes a column before anything else
   rewrote it on a type whose text is not portable, or filters on a column that is missing or of such a type.
   */
  lemma {:induction false} RenderRefusesExactly(ref: Reference, e: Engine, d: Decision, schema: Schema)
    requires e.hashText(STRING) && d.Decision?
    ensures schema == [] ==> (Render(ref, e, d, schema).Err? <==> d.row.Some? || d.masks != [])
    ensures schema != [] ==> (Render(ref, e, d, schema).Err? <==>
            || (exists m :: m in d.masks && IsNearMiss(ref, Names(schema), m.column))
            || (exists c :: c in schema && FirstRewrite(ModesOf(d.masks, c.name)) == Some(Hash) && !e.hashText(c.ty))
            || (d.row.Some? && (TypeOf(schema, d.row.value.0).None? || !e.rowKey(TypeOf(schema, d.row.value.0).value))))
  {
    FirstNearMissExactly(ref, Names(schema), d.masks);
    RenderItemsRefuses(e, schema, d.masks);
    forall c | c in schema
      ensures HashesPortable(e, c.ty, ModesOf(d.masks, c.name)) <==>
              (FirstRewrite(ModesOf(d.masks, c.name)) == Some(Hash) ==> e.hashText(c.ty))
    {
      HashesPortableExactly(e, c.ty, ModesOf(d.masks, c.name));
    }
  }

  // ----- the lazy plan: a filter and one constant per masked column -----

  datatype Plan = Untouched | Nothing | Lazy(filter: Option<(string, set<string>)>, projection: map<string, Value>)
                | Exact

  function Constant(mode: MaskMode): Value {
    if mode == NullMask then Null else Str("***")
  }

  /** The projection dictionary: a later mask on the same column overwrites an earlier one. */
  function PlanProjection(masks: seq<Mask>): map<string, Value> {
    if masks == [] then map[]
    else
      var m := masks[|masks| - 1];
      PlanProjection(masks[..|masks| - 1])[m.column := Constant(m.mode)]
  }

  /** `_plan`. */
  function PlanFor(ref: Reference, d: Decision, schema: Schema): Result<Plan, Refusal> {
    if d.DenyAll? then Ok(Nothing)
    else if d.row.None? && d.masks == [] then Ok(Untouched)
    else if d.row.Some? && TypeOf(schema, d.row.value.0).Some? && ref.nested(TypeOf(schema, d.row.value.0).value) then
      Err(NoText(d.row.value.0))
    else if exists m :: m in d.masks && m.mode == Hash then Ok(Exact)
    else Ok(Lazy(d.row, PlanProjection(d.masks)))
  }

  function PlanRecord(projection: map<string, Value>, rec: Record): Record {
    seq(|rec|, i requires 0 <= i < |rec| =>
      if rec[i].name in projection then Cell(rec[i].name, projection[rec[i].name]) else rec[i])
  }

  function Scanned(ref: Reference, plan: Plan, table: Table): Table
    requires plan.Lazy?
  {
    var kept := if plan.filter.None? then table else FilterRows(ref, plan.filter.value.0, plan.filter.value.1, table);
    seq(|kept|, k requires 0 <= k < |kept| => PlanRecord(plan.projection, kept[k]))
  }

  lemma {:induction false} ModesOfSnoc(masks: seq<Mask>, m: Mask, name: string)
    ensures ModesOf(masks + [m], name) == ModesOf(masks, name) + (if m.column == name then [m.mode] else [])
  {
    if masks == [] {
      assert masks + [m] == [m] && [m][1..] == [];
    } else {
      ModesOfSnoc(masks[1..], m, name);
      assert (masks + [m])[1..] == masks[1..] + [m];
      var first := if masks[0].column == name then [masks[0].mode] else [];
      var last := if m.column == name then [m.mode] else [];
      Regroup(first, ModesOf(masks[1..], name), last);
    }
  }

  lemma {:induction false} LastMaskWins(ref: Reference, modes: seq<MaskMode>, v: Value)
    requires modes != [] && Hash !in modes
    ensures MaskedValue(ref, modes, v) == Constant(modes[|modes| - 1])
  {
    if |modes| > 1 {
      LastMaskWins(ref, modes[1..], MaskValue(ref, modes[0], v));
    } else {
      assert modes == [modes[0]] && modes[1..] == [];
    }
  }

  lemma {:induction false} PlanProjectionAt(masks: seq<Mask>, name: string)
    ensures name in PlanProjection(masks) <==> ModesOf(masks, name) != []
    ensures var modes := ModesOf(masks, name);
            modes != [] ==> PlanProjection(masks)[name] == Constant(modes[|modes| - 1])
  {
    if masks != [] {
      var front, m := masks[..|masks| - 1], masks[|masks| - 1];
      assert masks == front + [m];
      PlanProjectionAt(front, name);
      ModesOfSnoc(front, m, name);
    }
  }

  lemma {:induction false} ModesComeFromMasks(masks: seq<Mask>, name: string)
    ensures Hash in ModesOf(masks, name) ==> exists m :: m in masks && m.mode == Hash
  {
    if masks != [] {
      ModesComeFromMasks(masks[1..], name);
    }
  }

  /** The pushed-down scan returns what the masks, applied one at a time in policy order, would have returned. */
  lemma {:induction false} PlanExactly(ref: Reference, d: Decision, schema: Schema, table: Table)
    requires d.Decision? && PlanFor(ref, d, schema).Ok? && PlanFor(ref, d, schema).value.Lazy?
    ensures Scanned(ref, PlanFor(ref, d, schema).value, table)
            == MaskedTable(ref, d.masks,
                           if d.row.None? then table else FilterRows(ref, d.row.value.0, d.row.value.1, table))
  {
    var kept := if d.row.None? then table else FilterRows(ref, d.row.value.0, d.row.value.1, table);
    MaskedTableAt(ref, d.masks, kept);
    forall k | 0 <= k < |kept|
      ensures PlanRecord(PlanProjection(d.masks), kept[k]) == MaskedRecord(ref, d.masks, kept[k])
    {
      PlanRecordExactly(ref, d.masks, kept[k]);
    }
  }

  lemma {:induction false} PlanRecordExactly(ref: Reference, masks: seq<Mask>, rec: Record)
    requires forall m :: m in masks ==> m.mode != Hash
    ensures PlanRecord(PlanProjection(masks), rec) == MaskedRecord(ref, masks, rec)
  {
    MaskedRecordLength(ref, masks, rec);
    forall i | 0 <= i < |rec|
      ensures PlanRecord(PlanProjection(masks), rec)[i] == MaskedRecord(ref, masks, rec)[i]
    {
      var modes := ModesOf(masks, rec[i].name);
      MaskedRecordAt(ref, masks, rec, i);
      PlanProjectionAt(masks, rec[i].name);
      ModesComeFromMasks(masks, rec[i].name);
      if modes != [] {
        LastMaskWins(ref, modes, rec[i].value);
      }
    }
  }
}
