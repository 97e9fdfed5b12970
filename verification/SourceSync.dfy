/**
 Incremental syncs of a table with a cursor column: each pulls the rows above a stored mark, appends them, and
 records a new mark. The mark is kept as text and compared as text; the upstream table compares values.
 */
module SourceSync {
  import opened Common

  type Payload(==, !new)

  datatype Row = Row(cursor: Option<int>, payload: Payload)

  type Rows = seq<Row>

  /** A cursor column: its values by their rank in the column's own order, and the text Python gives one. */
  datatype Column = Column(text: int -> string, parse: string -> int)

  ghost predicate Codec(c: Column) {
    forall v: int :: c.parse(c.text(v)) == v
  }

  // ----- the mark a stream of chunks leaves -----

  function Flatten(chunks: seq<Rows>): Rows {
    if chunks == [] then [] else Flatten(chunks[..|chunks| - 1]) + chunks[|chunks| - 1]
  }

  /** The greatest cursor value, nulls skipped. */
  function MaxOf(rows: Rows): (m: Option<int>)
    ensures m.None? <==> forall r :: r in rows ==> r.cursor.None?
    ensures m.Some? ==> (exists r :: r in rows && r.cursor == m) &&
                        forall r :: r in rows && r.cursor.Some? ==> r.cursor.value <= m.value
  {
    if rows == [] then None
    else
      var last := rows[|rows| - 1];
      var rest := MaxOf(rows[..|rows| - 1]);
      assert rows == rows[..|rows| - 1] + [last];
      if last.cursor.None? || (rest.Some? && last.cursor.value <= rest.value) then rest else last.cursor
  }

  /** `_max_cursor`. */
  function MaxCursor(c: Column, rows: Rows): Option<string> {
    var m := MaxOf(rows);
    if m.None? then None else Some(c.text(m.value))
  }

  /** The mark after a whole stream: the chunk maximum whose text sorts highest. */
  function MarkOf(c: Column, chunks: seq<Rows>): Option<string> {
    if chunks == [] then None
    else
      var before := MarkOf(c, chunks[..|chunks| - 1]);
      var seen := MaxCursor(c, chunks[|chunks| - 1]);
      if seen.Some? && (before.None? || Above(seen.value, before.value)) then seen else before
  }

  lemma {:induction false} MarkIsHighestText(c: Column, chunks: seq<Rows>)
    ensures var t := MarkOf(c, chunks);
            && (t.None? <==> forall k :: 0 <= k < |chunks| ==> MaxOf(chunks[k]).None?)
            && (t.Some? ==> (exists k :: 0 <= k < |chunks| && MaxCursor(c, chunks[k]) == t) &&
                            forall k :: 0 <= k < |chunks| && MaxOf(chunks[k]).Some? ==>
                              !Above(c.text(MaxOf(chunks[k]).value), t.value))
  {
    if chunks != [] {
      var n := |chunks| - 1;
      var front := chunks[..n];
      MarkIsHighestText(c, front);
      var before, seen, t := MarkOf(c, front), MaxCursor(c, chunks[n]), MarkOf(c, chunks);
      assert forall k :: 0 <= k < n ==> front[k] == chunks[k];
      if t.Some? {
        AboveStrict(t.value);
        forall k | 0 <= k < |chunks| && MaxOf(chunks[k]).Some?
          ensures !Above(c.text(MaxOf(chunks[k]).value), t.value)
        {
          var x := c.text(MaxOf(chunks[k]).value);
          if k < n && before.Some? && t != before && Above(x, t.value) {
            AboveTransitive(x, t.value, before.value);
          }
        }
      }
    }
  }

  lemma {:induction false} FlattenHas(chunks: seq<Rows>, r: Row)
    ensures r in Flatten(chunks) <==> exists k :: 0 <= k < |chunks| && r in chunks[k]
  {
    if chunks != [] {
      var n := |chunks| - 1;
      var front := chunks[..n];
      FlattenHas(front, r);
      assert forall k :: 0 <= k < n ==> front[k] == chunks[k];
    }
  }

  lemma {:induction false} MaxOfPart(rows: Rows, all: Rows, r: Row)
    requires r in rows && MaxOf(all).Some? && r.cursor == MaxOf(all)
    requires forall s :: s in rows ==> s in all
    ensures MaxOf(rows) == MaxOf(all)
  {
    hide MaxOf;
    var m := MaxOf(rows);
    assert m.Some?;
    var s :| s in rows && s.cursor == m;
  }

  lemma {:induction false} ChunkInStream(chunks: seq<Rows>, k: nat)
    requires k < |chunks|
    ensures forall r :: r in chunks[k] ==> r in Flatten(chunks)
  {
    forall r | r in chunks[k]
      ensures r in Flatten(chunks)
    {
      FlattenHas(chunks, r);
    }
  }

  /** The greatest value of the stream is the greatest value of one of its chunks. */
  lemma MaxIsAChunkMax(chunks: seq<Rows>) returns (k: nat)
    requires MaxOf(Flatten(chunks)).Some?
    ensures k < |chunks| && MaxOf(chunks[k]) == MaxOf(Flatten(chunks))
  {
    var r :| r in Flatten(chunks) && r.cursor == MaxOf(Flatten(chunks));
    FlattenHas(chunks, r);
    k :| 0 <= k < |chunks| && r in chunks[k];
    ChunkInStream(chunks, k);
    MaxOfPart(chunks[k], Flatten(chunks), r);
  }

  /** No chunk's maximum has text that sorts above the text of the greatest value. */
  ghost predicate TextAgrees(c: Column, chunks: seq<Rows>) {
    var m := MaxOf(Flatten(chunks));
    m.Some? ==> forall k :: 0 <= k < |chunks| && MaxOf(chunks[k]).Some? ==>
                  !Above(c.text(MaxOf(chunks[k]).value), c.text(m.value))
  }

  /** The mark is the text of the greatest value if and only if no chunk's maximum sorts above it. */
  lemma {:induction false} MarkIsMaxExactly(c: Column, chunks: seq<Rows>)
    ensures MarkOf(c, chunks) == MaxCursor(c, Flatten(chunks)) <==> TextAgrees(c, chunks)
  {
    MarkIsHighestText(c, chunks);
    var t, m := MarkOf(c, chunks), MaxOf(Flatten(chunks));
    if m.Some? {
      var k := MaxIsAChunkMax(chunks);
      assert !Above(c.text(m.value), t.value);
      if TextAgrees(c, chunks) {
        AboveTotal(t.value, c.text(m.value));
      }
    } else {
      forall k | 0 <= k < |chunks|
        ensures MaxOf(chunks[k]).None?
      {
        forall r | r in chunks[k]
          ensures r.cursor.None?
        {
          FlattenHas(chunks, r);
        }
      }
    }
  }

  lemma {:induction false} ChunkMaxAtMost(chunks: seq<Rows>, k: nat)
    requires k < |chunks| && MaxOf(chunks[k]).Some? && MaxOf(Flatten(chunks)).Some?
    ensures MaxOf(chunks[k]).value <= MaxOf(Flatten(chunks)).value
  {
    var s :| s in chunks[k] && s.cursor == MaxOf(chunks[k]);
    ChunkInStream(chunks, k);
  }

  lemma {:induction false} AboveOneWay(a: string, b: string)
    requires Above(a, b)
    ensures !Above(b, a)
  {
    if Above(b, a) {
      AboveTransitive(a, b, a);
      AboveStrict(a);
    }
  }

  /** Text that sorts as the values do is always right. */
  lemma MonotoneTextAgrees(c: Column, chunks: seq<Rows>)
    requires forall a: int, b: int :: a < b ==> Above(c.text(b), c.text(a))
    ensures TextAgrees(c, chunks)
  {
    var m := MaxOf(Flatten(chunks));
    forall k | m.Some? && 0 <= k < |chunks| && MaxOf(chunks[k]).Some?
      ensures !Above(c.text(MaxOf(chunks[k]).value), c.text(m.value))
    {
      ChunkMaxAtMost(chunks, k);
      var x := MaxOf(chunks[k]).value;
      if x == m.value {
        AboveStrict(c.text(x));
      } else {
        AboveOneWay(c.text(m.value), c.text(x));
      }
    }
  }

  /** So is a stream that comes in one piece, whatever its text looks like. */
  lemma OneChunkAgrees(c: Column, chunk: Rows)
    ensures TextAgrees(c, [chunk])
  {
    assert [chunk][..0] == [];
    assert Flatten([chunk]) == [] + chunk == chunk;
    var m := MaxOf(chunk);
    if m.Some? {
      AboveStrict(c.text(m.value));
    }
  }

  // ----- syncs -----

  datatype State = State(upstream: Rows, dataset: Rows, versions: nat, mark: Option<string>)

  /** What the generated query selects: everything, or the rows above the mark. */
  function Pull(c: Column, upstream: Rows, mark: Option<string>): Rows {
    if mark.None? then upstream else RowsAbove(upstream, c.parse(mark.value))
  }

  function RowsAbove(rows: Rows, v: int): Rows {
    if rows == [] then []
    else (if rows[0].cursor.Some? && rows[0].cursor.value > v then [rows[0]] else []) + RowsAbove(rows[1..], v)
  }

  function RowsUpTo(rows: Rows, v: int): Rows {
    if rows == [] then []
    else (if rows[0].cursor.Some? && rows[0].cursor.value <= v then [rows[0]] else []) + RowsUpTo(rows[1..], v)
  }

  /** A pull fails while streaming, or the process dies after the version is committed, or neither. */
  datatype Outcome = Succeeds | FailsInStream(after: nat) | DiesBeforeRecord

  datatype Step = Insert(rows: Rows) | Sync(chunks: seq<Rows>, outcome: Outcome)

  function Appended(s: State, rows: Rows): State {
    s.(dataset := s.dataset + rows, versions := if s.versions == 0 || rows != [] then s.versions + 1 else s.versions)
  }

  function After(c: Column, s: State, step: Step): State {
    match step
    case Insert(rows) => s.(upstream := s.upstream + rows)
    case Sync(chunks, outcome) =>
      match outcome
      case FailsInStream(_) => s
      case DiesBeforeRecord => Appended(s, Flatten(chunks))
      case Succeeds =>
        var mark := MarkOf(c, chunks);
        Appended(s, Flatten(chunks)).(mark := if mark.Some? then mark else s.mark)
  }

  /** New rows come with cursors above every earlier one; a sync streams what the query selects, in some order. */
  ghost predicate Allowed(c: Column, s: State, step: Step) {
    match step
    case Insert(rows) =>
      && (forall r :: r in rows ==> r.cursor.Some?)
      && forall r, q :: r in rows && q in s.upstream && q.cursor.Some? ==> q.cursor.value < r.cursor.value
    case Sync(chunks, _) => multiset(Flatten(chunks)) == multiset(Pull(c, s.upstream, s.mark))
  }

  function AfterAll(c: Column, s: State, steps: seq<Step>): State
    decreases |steps|
  {
    if steps == [] then s else AfterAll(c, After(c, s, steps[0]), steps[1..])
  }

  ghost predicate Run(c: Column, s: State, steps: seq<Step>)
    decreases |steps|
  {
    steps == [] || (Allowed(c, s, steps[0]) && Run(c, After(c, s, steps[0]), steps[1..]))
  }

  // ----- the sync itself -----

  class Source {
    const column: Column
    var dataset: Rows
    var versions: nat
    var mark: Option<string>

    constructor (column: Column)
      ensures this.column == column && dataset == [] && versions == 0 && mark == None
    {
      this.column := column;
      dataset, versions, mark := [], 0, None;
    }

    /** `sync_source`: the mark is tracked as chunks stream past into one part, then the version, then the mark. */
    method SyncOnce(ghost upstream: Rows, chunks: seq<Rows>, outcome: Outcome)
      modifies `dataset, `versions, `mark
      ensures var met := if outcome.FailsInStream? && outcome.after >= |chunks| then Succeeds else outcome;
              var next := After(column, State(upstream, old(dataset), old(versions), old(mark)), Sync(chunks, met));
              dataset == next.dataset && versions == next.versions && mark == next.mark
    {
      var newCursor: Option<string> := None;
      var part: Rows := [];
      for i := 0 to |chunks|
        invariant newCursor == MarkOf(column, chunks[..i])
        invariant part == Flatten(chunks[..i])
        invariant outcome.FailsInStream? ==> i <= outcome.after
        invariant dataset == old(dataset) && versions == old(versions) && mark == old(mark)
      {
        if outcome.FailsInStream? && outcome.after == i {
          return;
        }
        var chunk := chunks[i];
        assert chunks[..i + 1][..i] == chunks[..i];
        var seen := MaxCursor(column, chunk);
        if seen.Some? && (newCursor.None? || Above(seen.value, newCursor.value)) {
          newCursor := seen;
        }
        part := part + chunk;
      }
      assert chunks[..|chunks|] == chunks;
      if versions == 0 || part != [] {
        versions := versions + 1;
        dataset := dataset + part;
      }
      if outcome.DiesBeforeRecord? {
        return;
      }
      if newCursor.Some? {
        mark := newCursor;
      }
    }
  }

  // ----- what one step leaves, in the rows' own terms -----

  /** The rows are those of the chunks, the first chunk first, and nothing else. */
  predicate Laid(rows: Rows, chunks: seq<Rows>) {
    if chunks == [] then rows == []
    else |chunks[0]| <= |rows| && rows[..|chunks[0]|] == chunks[0] && Laid(rows[|chunks[0]|..], chunks[1..])
  }

  ghost predicate IsTop(rows: Rows, v: int) {
    (exists r :: r in rows && r.cursor == Some(v)) && forall r :: r in rows && r.cursor.Some? ==> r.cursor.value <= v
  }

  /** The new mark: the text of some chunk's greatest cursor, none of the others sorting above it. */
  ghost predicate MarkMoved(c: Column, chunks: seq<Rows>, mark: string) {
    && (exists k, v :: 0 <= k < |chunks| && IsTop(chunks[k], v) && mark == c.text(v))
    && forall k, v :: 0 <= k < |chunks| && IsTop(chunks[k], v) ==> !Above(c.text(v), mark)
  }

  ghost predicate NoCursors(chunks: seq<Rows>) {
    forall k :: 0 <= k < |chunks| ==> forall r :: r in chunks[k] ==> r.cursor.None?
  }

  ghost predicate Streamed(chunks: seq<Rows>) {
    exists k :: 0 <= k < |chunks| && chunks[k] != []
  }

  lemma {:induction false} StreamedExactly(chunks: seq<Rows>)
    ensures Streamed(chunks) <==> Flatten(chunks) != []
  {
    if chunks != [] {
      var n := |chunks| - 1;
      var front := chunks[..n];
      StreamedExactly(front);
      assert forall k :: 0 <= k < n ==> front[k] == chunks[k];
    }
  }

  lemma {:induction false} LaidMore(rows: Rows, chunks: seq<Rows>, chunk: Rows)
    requires Laid(rows, chunks)
    ensures Laid(rows + chunk, chunks + [chunk])
  {
    var more := chunks + [chunk];
    if chunks == [] {
      assert rows + chunk == chunk && more[1..] == [] && chunk[|chunk|..] == [];
    } else {
      var n := |chunks[0]|;
      LaidMore(rows[n..], chunks[1..], chunk);
      assert (rows + chunk)[n..] == rows[n..] + chunk && (rows + chunk)[..n] == rows[..n];
      assert more[1..] == chunks[1..] + [chunk];
    }
  }

  lemma {:induction false} FlattenIsLaid(chunks: seq<Rows>)
    ensures Laid(Flatten(chunks), chunks)
  {
    if chunks != [] {
      var n := |chunks| - 1;
      FlattenIsLaid(chunks[..n]);
      LaidMore(Flatten(chunks[..n]), chunks[..n], chunks[n]);
      assert chunks[..n] + [chunks[n]] == chunks;
    }
  }

  lemma {:induction false} TopIsMax(rows: Rows, v: int)
    ensures IsTop(rows, v) <==> MaxOf(rows) == Some(v)
  {
    if IsTop(rows, v) {
      var r :| r in rows && r.cursor == Some(v);
    }
  }

  lemma {:induction false} MarkMoves(c: Column, chunks: seq<Rows>)
    ensures MarkOf(c, chunks).None? <==> NoCursors(chunks)
    ensures MarkOf(c, chunks).Some? ==> MarkMoved(c, chunks, MarkOf(c, chunks).value)
  {
    MarkIsHighestText(c, chunks);
    var t := MarkOf(c, chunks);
    forall k, v | 0 <= k < |chunks|
      ensures IsTop(chunks[k], v) <==> MaxOf(chunks[k]) == Some(v)
    {
      TopIsMax(chunks[k], v);
    }
    if t.Some? {
      var k :| 0 <= k < |chunks| && MaxCursor(c, chunks[k]) == t;
      assert IsTop(chunks[k], MaxOf(chunks[k]).value);
    }
  }

  /**
   One sync, in full. A failure in the stream changes nothing. Otherwise the rows streamed follow the rows there were,
   chunk by chunk; there is a new version unless there is one already and nothing was streamed; and the mark moves
   only when the sync gets to record it and some row had a cursor.
   */
  lemma {:induction false} SyncExactly(c: Column, s: State, chunks: seq<Rows>, outcome: Outcome)
    ensures var t := After(c, s, Sync(chunks, outcome));
            && t.upstream == s.upstream
            && (outcome.FailsInStream? ==> t == s)
            && (!outcome.FailsInStream? ==>
                  && s.dataset <= t.dataset && Laid(t.dataset[|s.dataset|..], chunks)
                  && t.versions == s.versions + (if s.versions == 0 || Streamed(chunks) then 1 else 0))
            && (outcome.DiesBeforeRecord? || NoCursors(chunks) ==> t.mark == s.mark)
            && (outcome.Succeeds? && !NoCursors(chunks) ==> t.mark.Some? && MarkMoved(c, chunks, t.mark.value))
  {
    MarkMoves(c, chunks);
    FlattenIsLaid(chunks);
    StreamedExactly(chunks);
    assert (s.dataset + Flatten(chunks))[|s.dataset|..] == Flatten(chunks);
  }

  // ----- runs -----

  ghost predicate NonNull(rows: Rows) {
    forall r :: r in rows ==> r.cursor.Some?
  }

  lemma {:induction false} SplitByMark(rows: Rows, v: int)
    requires NonNull(rows)
    ensures multiset(rows) == multiset(RowsUpTo(rows, v)) + multiset(RowsAbove(rows, v))
  {
    if rows != [] {
      assert rows == [rows[0]] + rows[1..];
      SplitByMark(rows[1..], v);
      assert rows[0] in rows;
    }
  }

  lemma {:induction false} UpToIgnoresLater(rows: Rows, more: Rows, v: int)
    requires forall r :: r in more ==> r.cursor.Some? && r.cursor.value > v
    ensures RowsUpTo(rows + more, v) == RowsUpTo(rows, v)
  {
    if rows == [] {
      if more != [] {
        assert more[0] in more;
        UpToIgnoresLater([], more[1..], v);
        assert [] + more[1..] == more[1..] && [] + more == more;
      }
    } else {
      UpToIgnoresLater(rows[1..], more, v);
      assert (rows + more)[1..] == rows[1..] + more;
    }
  }

  lemma {:induction false} UpToAll(rows: Rows, v: int)
    requires forall r :: r in rows ==> r.cursor.Some? && r.cursor.value <= v
    ensures RowsUpTo(rows, v) == rows
  {
    if rows != [] {
      assert rows[0] in rows;
      UpToAll(rows[1..], v);
    }
  }

  lemma {:induction false} AboveIsOfRows(rows: Rows, v: int, r: Row)
    ensures r in RowsAbove(rows, v) <==> r in rows && r.cursor.Some? && r.cursor.value > v
  {
    if rows != [] {
      AboveIsOfRows(rows[1..], v, r);
      assert rows == [rows[0]] + rows[1..];
    }
  }

  lemma {:induction false} UpToIsPart(rows: Rows, v: int)
    ensures multiset(RowsUpTo(rows, v)) <= multiset(rows)
  {
    if rows != [] {
      UpToIsPart(rows[1..], v);
      assert rows == [rows[0]] + rows[1..];
    }
  }

  /** The mark is the text of a value, and some upstream row is at least that far. */
  ghost predicate MarkIsReached(c: Column, s: State) {
    s.mark.Some? ==> exists r :: r in s.upstream && r.cursor.Some? && c.parse(s.mark.value) <= r.cursor.value
  }

  /** Every upstream row up to the mark is in the dataset as often as it is upstream, and nothing else is. */
  ghost predicate ExactlyOnce(c: Column, s: State) {
    && NonNull(s.upstream) && MarkIsReached(c, s)
    && (s.mark.None? ==> s.dataset == [])
    && (s.mark.Some? ==> multiset(s.dataset) == multiset(RowsUpTo(s.upstream, c.parse(s.mark.value))))
  }

  /** Every upstream row up to the mark is in the dataset at least as often as it is upstream. */
  ghost predicate AtLeastOnce(c: Column, s: State) {
    && NonNull(s.upstream) && MarkIsReached(c, s)
    && (s.mark.Some? ==> multiset(RowsUpTo(s.upstream, c.parse(s.mark.value))) <= multiset(s.dataset))
    && (forall r :: r in s.dataset ==> r in s.upstream)
  }

  lemma InsertKeepsHeld(c: Column, s: State, rows: Rows)
    requires NonNull(s.upstream) && MarkIsReached(c, s) && Allowed(c, s, Insert(rows))
    ensures var s' := After(c, s, Insert(rows));
            && NonNull(s'.upstream) && MarkIsReached(c, s')
            && (s.mark.Some? ==>
                  RowsUpTo(s'.upstream, c.parse(s.mark.value)) == RowsUpTo(s.upstream, c.parse(s.mark.value)))
  {
    if s.mark.Some? {
      var v := c.parse(s.mark.value);
      var q :| q in s.upstream && q.cursor.Some? && v <= q.cursor.value;
      forall r | r in rows
        ensures r.cursor.Some? && r.cursor.value > v
      {
      }
      UpToIgnoresLater(s.upstream, rows, v);
      assert q in s.upstream + rows;
    }
  }

  /** What a sync streams: rows of the upstream table, all above the mark. */
  lemma {:induction false} StreamIsPulled(c: Column, s: State, chunks: seq<Rows>)
    requires NonNull(s.upstream) && Allowed(c, s, Sync(chunks, Succeeds))
    ensures forall r :: r in Flatten(chunks) ==>
              && r in s.upstream && r.cursor.Some?
              && (s.mark.Some? ==> r.cursor.value > c.parse(s.mark.value))
    ensures s.mark.Some? ==>
              multiset(s.upstream) == multiset(RowsUpTo(s.upstream, c.parse(s.mark.value))) + multiset(Flatten(chunks))
    ensures s.mark.None? ==> multiset(s.upstream) == multiset(Flatten(chunks))
  {
    forall r | r in Flatten(chunks)
      ensures r in s.upstream && r.cursor.Some? && (s.mark.Some? ==> r.cursor.value > c.parse(s.mark.value))
    {
      assert r in multiset(Flatten(chunks));
      assert r in Pull(c, s.upstream, s.mark);
      if s.mark.Some? {
        AboveIsOfRows(s.upstream, c.parse(s.mark.value), r);
      }
    }
    if s.mark.Some? {
      SplitByMark(s.upstream, c.parse(s.mark.value));
    }
  }

  lemma MarkComesFromARow(c: Column, chunks: seq<Rows>) returns (r: Row)
    requires Codec(c) && MarkOf(c, chunks).Some?
    ensures r in Flatten(chunks) && r.cursor == Some(c.parse(MarkOf(c, chunks).value))
  {
    MarkIsHighestText(c, chunks);
    var k :| 0 <= k < |chunks| && MaxCursor(c, chunks[k]) == MarkOf(c, chunks);
    r :| r in chunks[k] && r.cursor == MaxOf(chunks[k]);
    ChunkInStream(chunks, k);
  }

  lemma {:induction false} NoMarkMeansNoRows(c: Column, chunks: seq<Rows>)
    requires MarkOf(c, chunks).None? && NonNull(Flatten(chunks))
    ensures Flatten(chunks) == []
  {
    MarkIsHighestText(c, chunks);
    if Flatten(chunks) != [] {
      var r := Flatten(chunks)[0];
      FlattenHas(chunks, r);
    }
  }

  /** A sync whose mark is right: the dataset then holds the whole upstream table, row for row. */
  lemma SyncCatchesUp(c: Column, s: State, chunks: seq<Rows>)
    requires Codec(c) && ExactlyOnce(c, s) && Allowed(c, s, Sync(chunks, Succeeds)) && TextAgrees(c, chunks)
    ensures ExactlyOnce(c, After(c, s, Sync(chunks, Succeeds)))
    ensures multiset(After(c, s, Sync(chunks, Succeeds)).dataset) == multiset(s.upstream)
  {
    var s' := After(c, s, Sync(chunks, Succeeds));
    StreamIsPulled(c, s, chunks);
    MarkIsMaxExactly(c, chunks);
    if MarkOf(c, chunks).None? {
      NoMarkMeansNoRows(c, chunks);
      assert s.dataset + [] == s.dataset;
    } else {
      var top := MarkComesFromARow(c, chunks);
      var v := c.parse(s'.mark.value);
      forall r | r in s.upstream
        ensures r.cursor.Some? && r.cursor.value <= v
      {
        NoRowAbove(c, s, chunks, r);
      }
      UpToAll(s.upstream, v);
    }
  }

  /** Rows that arrive are taken by the next sync whose mark is right, along with all that was there. */
  lemma {:induction false} InsertThenSync(c: Column, s: State, rows: Rows, chunks: seq<Rows>)
    requires Codec(c) && ExactlyOnce(c, s) && Allowed(c, s, Insert(rows))
    requires Allowed(c, After(c, s, Insert(rows)), Sync(chunks, Succeeds)) && TextAgrees(c, chunks)
    ensures var t := After(c, After(c, s, Insert(rows)), Sync(chunks, Succeeds));
            multiset(t.dataset) == multiset(s.upstream + rows) && ExactlyOnce(c, t)
  {
    InsertKeepsHeld(c, s, rows);
    SyncCatchesUp(c, After(c, s, Insert(rows)), chunks);
  }

  lemma {:induction false} NoRowAbove(c: Column, s: State, chunks: seq<Rows>, r: Row)
    requires Codec(c) && NonNull(s.upstream) && Allowed(c, s, Sync(chunks, Succeeds)) && TextAgrees(c, chunks)
    requires MarkOf(c, chunks).Some? && r in s.upstream
    ensures r.cursor.value <= c.parse(MarkOf(c, chunks).value)
  {
    StreamIsPulled(c, s, chunks);
    MarkIsMaxExactly(c, chunks);
    var top := MarkComesFromARow(c, chunks);
    if s.mark.None? || r.cursor.value > c.parse(s.mark.value) {
      if s.mark.Some? {
        AboveIsOfRows(s.upstream, c.parse(s.mark.value), r);
      }
      assert r in multiset(Pull(c, s.upstream, s.mark));
      assert r in Flatten(chunks);
    }
  }

  // ----- exactly when a run is exactly once -----

  lemma {:induction false} UpToIsOfRows(rows: Rows, v: int, r: Row)
    ensures r in RowsUpTo(rows, v) <==> r in rows && r.cursor.Some? && r.cursor.value <= v
  {
    if rows != [] {
      UpToIsOfRows(rows[1..], v, r);
      assert rows == [rows[0]] + rows[1..];
    }
  }

  /** The mark is the text of the value it stands for. */
  lemma {:induction false} MarkIsOwnText(c: Column, chunks: seq<Rows>)
    requires Codec(c) && MarkOf(c, chunks).Some?
    ensures MarkOf(c, chunks) == Some(c.text(c.parse(MarkOf(c, chunks).value)))
  {
    MarkIsHighestText(c, chunks);
  }

  /** A sync that ends exactly once has a mark no row it streamed lies beyond. */
  lemma {:induction false} ExactMarkCoversStream(c: Column, s: State, chunks: seq<Rows>, r: Row)
    requires Codec(c) && ExactlyOnce(c, s) && Allowed(c, s, Sync(chunks, Succeeds))
    requires ExactlyOnce(c, After(c, s, Sync(chunks, Succeeds))) && MarkOf(c, chunks).Some?
    requires r in Flatten(chunks) && r.cursor.Some?
    ensures r.cursor.value <= c.parse(MarkOf(c, chunks).value)
  {
    var s' := After(c, s, Sync(chunks, Succeeds));
    assert r in s'.dataset;
    assert r in multiset(s'.dataset);
    UpToIsOfRows(s.upstream, c.parse(s'.mark.value), r);
  }

  lemma {:induction false} MarkAtMaxAgrees(c: Column, chunks: seq<Rows>)
    requires Codec(c) && MaxOf(Flatten(chunks)).Some? && MarkOf(c, chunks).Some?
    requires MaxOf(Flatten(chunks)).value <= c.parse(MarkOf(c, chunks).value)
    ensures TextAgrees(c, chunks)
  {
    MarkIsMax(c, chunks);
    MarkIsMaxExactly(c, chunks);
  }

  lemma {:induction false} MarkIsMax(c: Column, chunks: seq<Rows>)
    requires Codec(c) && MaxOf(Flatten(chunks)).Some? && MarkOf(c, chunks).Some?
    requires MaxOf(Flatten(chunks)).value <= c.parse(MarkOf(c, chunks).value)
    ensures MarkOf(c, chunks) == MaxCursor(c, Flatten(chunks))
  {
    var m := MaxOf(Flatten(chunks)).value;
    assert c.parse(MarkOf(c, chunks).value) == m by {
      var top := MarkComesFromARow(c, chunks);
      RowAtMostMax(Flatten(chunks), top);
    }
    MarkIsOwnText(c, chunks);
  }

  lemma {:induction false} RowAtMostMax(rows: Rows, r: Row)
    requires r in rows && r.cursor.Some?
    ensures MaxOf(rows).Some? && r.cursor.value <= MaxOf(rows).value
  {
  }

  lemma {:induction false} RowsMeanAMark(c: Column, chunks: seq<Rows>)
    requires MaxOf(Flatten(chunks)).Some?
    ensures MarkOf(c, chunks).Some?
  {
    var k := MaxIsAChunkMax(chunks);
    MarkIsHighestText(c, chunks);
  }

  lemma ExactSyncAgrees(c: Column, s: State, chunks: seq<Rows>)
    requires Codec(c) && ExactlyOnce(c, s) && Allowed(c, s, Sync(chunks, Succeeds))
    requires ExactlyOnce(c, After(c, s, Sync(chunks, Succeeds)))
    ensures TextAgrees(c, chunks)
  {
    if MaxOf(Flatten(chunks)).Some? {
      RowsMeanAMark(c, chunks);
      var big :| big in Flatten(chunks) && big.cursor == MaxOf(Flatten(chunks));
      ExactMarkCoversStream(c, s, chunks, big);
      MarkAtMaxAgrees(c, chunks);
    }
  }

  /** One sync, exactly: from a state that is exactly once, the next one is if and only if the chunks' text agrees. */
  lemma SyncIsExactlyOnceExactly(c: Column, s: State, chunks: seq<Rows>)
    requires Codec(c) && ExactlyOnce(c, s) && Allowed(c, s, Sync(chunks, Succeeds))
    ensures ExactlyOnce(c, After(c, s, Sync(chunks, Succeeds))) <==> TextAgrees(c, chunks)
  {
    if TextAgrees(c, chunks) {
      SyncCatchesUp(c, s, chunks);
    } else if ExactlyOnce(c, After(c, s, Sync(chunks, Succeeds))) {
      ExactSyncAgrees(c, s, chunks);
    }
  }

  /** A crash after the commit is harmless exactly when it streamed nothing. */
  lemma {:induction false} CrashIsExactlyOnceExactly(c: Column, s: State, chunks: seq<Rows>)
    requires ExactlyOnce(c, s)
    ensures ExactlyOnce(c, After(c, s, Sync(chunks, DiesBeforeRecord))) <==> Flatten(chunks) == []
  {
    var pulled := Flatten(chunks);
    assert multiset(s.dataset + pulled) == multiset(s.dataset) + multiset(pulled);
    if pulled == [] {
      assert s.dataset + pulled == s.dataset;
    } else {
      assert pulled[0] in multiset(pulled);
      assert (s.dataset + pulled)[|s.dataset|] == pulled[0];
    }
  }

  /** What keeps exactly-once: a sync that succeeds has text that agrees, one that dies streamed nothing. */
  ghost predicate CleanStep(c: Column, step: Step) {
    match step
    case Insert(_) => true
    case Sync(chunks, outcome) =>
      match outcome
      case FailsInStream(_) => true
      case DiesBeforeRecord => Flatten(chunks) == []
      case Succeeds => TextAgrees(c, chunks)
  }

  lemma StepIsExactlyOnceExactly(c: Column, s: State, step: Step)
    requires Codec(c) && ExactlyOnce(c, s) && Allowed(c, s, step)
    ensures ExactlyOnce(c, After(c, s, step)) <==> CleanStep(c, step)
  {
    match step
    case Insert(rows) => InsertKeepsHeld(c, s, rows);
    case Sync(chunks, outcome) =>
      match outcome
      case FailsInStream(_) =>
      case DiesBeforeRecord => CrashIsExactlyOnceExactly(c, s, chunks);
      case Succeeds => SyncIsExactlyOnceExactly(c, s, chunks);
  }

  /** What the dataset should hold: the upstream rows up to the mark, or nothing without one. */
  function Due(c: Column, s: State): Rows {
    if s.mark.None? then [] else RowsUpTo(s.upstream, c.parse(s.mark.value))
  }

  /** Some row is in the dataset more often than it should be. */
  ghost predicate Excess(c: Column, s: State) {
    exists r :: multiset(s.dataset)[r] > multiset(Due(c, s))[r]
  }

  lemma EmptyHasNoExcess(rows: Rows)
    ensures (forall r :: multiset(rows)[r] <= 0) <==> rows == []
  {
    if rows != [] {
      assert rows[0] in multiset(rows);
    }
  }

  /** Exactly once is at least once without excess. */
  lemma ExactlyIsAtLeastWithoutExcess(c: Column, s: State)
    ensures ExactlyOnce(c, s) <==> AtLeastOnce(c, s) && !Excess(c, s)
  {
    if s.mark.None? {
      EmptyHasNoExcess(s.dataset);
    } else {
      var due := RowsUpTo(s.upstream, c.parse(s.mark.value));
      if ExactlyOnce(c, s) {
        forall r | r in s.dataset
          ensures r in s.upstream
        {
          assert r in multiset(s.dataset);
          UpToIsOfRows(s.upstream, c.parse(s.mark.value), r);
        }
      }
      if AtLeastOnce(c, s) && !Excess(c, s) {
        assert forall r :: multiset(s.dataset)[r] == multiset(due)[r];
      }
    }
  }

  /** An excess is never made good: the dataset only grows, and by no less than the mark moves. */
  lemma ExcessStays(c: Column, s: State, step: Step)
    requires Codec(c) && AtLeastOnce(c, s) && Allowed(c, s, step) && Excess(c, s)
    ensures Excess(c, After(c, s, step))
  {
    var s' := After(c, s, step);
    var r :| multiset(s.dataset)[r] > multiset(Due(c, s))[r];
    match step
    case Insert(rows) => InsertKeepsHeld(c, s, rows);
    case Sync(chunks, outcome) =>
      var pulled := Flatten(chunks);
      assert multiset(s.dataset + pulled) == multiset(s.dataset) + multiset(pulled);
      if outcome == Succeeds && MarkOf(c, chunks).Some? {
        StreamIsPulled(c, s, chunks);
        UpToIsPart(s.upstream, c.parse(s'.mark.value));
        assert multiset(Due(c, s'))[r] <= multiset(s.upstream)[r];
        assert multiset(s.upstream)[r] == multiset(Due(c, s))[r] + multiset(pulled)[r];
      }
      assert multiset(s'.dataset)[r] > multiset(Due(c, s'))[r];
  }

  ghost predicate CleanRun(c: Column, s: State, steps: seq<Step>)
    decreases |steps|
  {
    steps == [] || (CleanStep(c, steps[0]) && CleanRun(c, After(c, s, steps[0]), steps[1..]))
  }

  lemma {:induction false} ExcessStaysOverRuns(c: Column, s: State, steps: seq<Step>)
    requires Codec(c) && AtLeastOnce(c, s) && Run(c, s, steps) && Excess(c, s)
    ensures Excess(c, AfterAll(c, s, steps)) && AtLeastOnce(c, AfterAll(c, s, steps))
    decreases |steps|
  {
    if steps != [] {
      ExcessStays(c, s, steps[0]);
      StepIsAtLeastOnce(c, s, steps[0]);
      ExcessStaysOverRuns(c, After(c, s, steps[0]), steps[1..]);
    }
  }

  /**
   Exactly once, over runs of inserts and of syncs that succeed, fail or die: the dataset holds each upstream row
   up to the stored mark exactly as often as it is upstream if and only if every step of the run was clean. One
   unclean step is never made good.
   */
  lemma {:induction false} RunIsExactlyOnceExactly(c: Column, s: State, steps: seq<Step>)
    requires Codec(c) && ExactlyOnce(c, s) && Run(c, s, steps)
    ensures ExactlyOnce(c, AfterAll(c, s, steps)) <==> CleanRun(c, s, steps)
    decreases |steps|
  {
    if steps != [] {
      var t := After(c, s, steps[0]);
      StepIsExactlyOnceExactly(c, s, steps[0]);
      if CleanStep(c, steps[0]) {
        RunIsExactlyOnceExactly(c, t, steps[1..]);
      } else {
        ExactlyIsAtLeastWithoutExcess(c, s);
        StepIsAtLeastOnce(c, s, steps[0]);
        ExactlyIsAtLeastWithoutExcess(c, t);
        ExcessStaysOverRuns(c, t, steps[1..]);
        ExactlyIsAtLeastWithoutExcess(c, AfterAll(c, s, steps));
      }
    }
  }

  // ----- a condition on the rows alone -----

  /** No row's cursor has text that sorts above the text of the greatest cursor. */
  ghost predicate NoTextAbove(c: Column, rows: Rows) {
    var m := MaxOf(rows);
    m.Some? ==> forall r :: r in rows && r.cursor.Some? ==> !Above(c.text(r.cursor.value), c.text(m.value))
  }

  /** One row a chunk, as a batch size of one streams them. */
  function Singles(rows: Rows): seq<Rows> {
    if rows == [] then [] else Singles(rows[..|rows| - 1]) + [[rows[|rows| - 1]]]
  }

  lemma {:induction false} SinglesFlatten(rows: Rows)
    ensures Flatten(Singles(rows)) == rows
    ensures |Singles(rows)| == |rows| && forall k :: 0 <= k < |rows| ==> Singles(rows)[k] == [rows[k]]
  {
    if rows != [] {
      var front, last := rows[..|rows| - 1], rows[|rows| - 1];
      SinglesFlatten(front);
      assert Singles(rows)[..|rows| - 1] == Singles(front);
      assert rows == front + [last];
    }
  }

  lemma {:induction false} SameRowsSameMax(a: Rows, b: Rows)
    requires multiset(a) == multiset(b)
    ensures MaxOf(a) == MaxOf(b) && forall r :: r in a <==> r in b
  {
    assert forall r :: r in a <==> r in multiset(a);
    assert forall r :: r in b <==> r in multiset(b);
    MaxOfMore(a, b);
    MaxOfMore(b, a);
  }

  lemma {:induction false} MaxOfMore(a: Rows, b: Rows)
    requires forall r :: r in a ==> r in b
    ensures MaxOf(a).Some? ==> MaxOf(b).Some? && MaxOf(a).value <= MaxOf(b).value
  {
    if MaxOf(a).Some? {
      var r :| r in a && r.cursor == MaxOf(a);
      assert r in b;
    }
  }

  lemma {:induction false} RowsDecideAgreement(c: Column, rows: Rows, chunks: seq<Rows>)
    requires NoTextAbove(c, rows) && multiset(Flatten(chunks)) == multiset(rows)
    ensures TextAgrees(c, chunks)
  {
    SameRowsSameMax(Flatten(chunks), rows);
    var m := MaxOf(rows);
    forall k | m.Some? && 0 <= k < |chunks| && MaxOf(chunks[k]).Some?
      ensures !Above(c.text(MaxOf(chunks[k]).value), c.text(m.value))
    {
      var r :| r in chunks[k] && r.cursor == MaxOf(chunks[k]);
      ChunkInStream(chunks, k);
    }
  }

  lemma {:induction false} SinglesAgreeExactly(c: Column, rows: Rows)
    ensures TextAgrees(c, Singles(rows)) <==> NoTextAbove(c, rows)
  {
    SinglesFlatten(rows);
    if TextAgrees(c, Singles(rows)) && MaxOf(rows).Some? {
      forall r | r in rows && r.cursor.Some?
        ensures !Above(c.text(r.cursor.value), c.text(MaxOf(rows).value))
      {
        var k :| 0 <= k < |rows| && rows[k] == r;
        MaxOfOne(r);
        assert MaxOf(Singles(rows)[k]) == r.cursor;
      }
    }
    if NoTextAbove(c, rows) {
      RowsDecideAgreement(c, rows, Singles(rows));
    }
  }

  /**
   What a caller can check on the data before a sync: however the rows are cut into chunks the sync stays exactly
   once, if and only if no row above the mark has cursor text that sorts above the text of the greatest cursor.
   */
  lemma EveryChunkingExactly(c: Column, s: State)
    requires Codec(c) && ExactlyOnce(c, s)
    ensures (forall chunks :: Allowed(c, s, Sync(chunks, Succeeds)) ==>
               ExactlyOnce(c, After(c, s, Sync(chunks, Succeeds))))
            <==> NoTextAbove(c, Pull(c, s.upstream, s.mark))
  {
    var rows := Pull(c, s.upstream, s.mark);
    if NoTextAbove(c, rows) {
      forall chunks | Allowed(c, s, Sync(chunks, Succeeds))
        ensures ExactlyOnce(c, After(c, s, Sync(chunks, Succeeds)))
      {
        RowsDecideAgreement(c, rows, chunks);
        SyncIsExactlyOnceExactly(c, s, chunks);
      }
    } else {
      SinglesFlatten(rows);
      SinglesAgreeExactly(c, rows);
      assert Allowed(c, s, Sync(Singles(rows), Succeeds));
      SyncIsExactlyOnceExactly(c, s, Singles(rows));
    }
  }

  lemma SyncIsAtLeastOnce(c: Column, s: State, chunks: seq<Rows>, outcome: Outcome)
    requires Codec(c) && AtLeastOnce(c, s) && Allowed(c, s, Sync(chunks, outcome))
    ensures AtLeastOnce(c, After(c, s, Sync(chunks, outcome)))
  {
    var s' := After(c, s, Sync(chunks, outcome));
    StreamIsPulled(c, s, chunks);
    if s.mark.Some? {
      assert multiset(s.dataset + Flatten(chunks)) == multiset(s.dataset) + multiset(Flatten(chunks));
    }
    if outcome == Succeeds && MarkOf(c, chunks).Some? {
      var top := MarkComesFromARow(c, chunks);
      var v := c.parse(s'.mark.value);
      UpToIsPart(s.upstream, v);
      assert multiset(s'.dataset) == multiset(s.dataset) + multiset(Flatten(chunks));
      assert multiset(s.upstream) <= multiset(s'.dataset);
    }
  }

  lemma StepIsAtLeastOnce(c: Column, s: State, step: Step)
    requires Codec(c) && AtLeastOnce(c, s) && Allowed(c, s, step)
    ensures AtLeastOnce(c, After(c, s, step))
  {
    match step
    case Insert(rows) =>
      InsertKeepsHeld(c, s, rows);
      assert forall r :: r in s.upstream ==> r in s.upstream + rows;
    case Sync(chunks, outcome) => SyncIsAtLeastOnce(c, s, chunks, outcome);
  }

  /**
   At least once, over every run: a crash before the mark is recorded and a mark that lags repeat rows, never lose one.
   */
  lemma {:induction false} RunIsAtLeastOnce(c: Column, s: State, steps: seq<Step>)
    requires Codec(c) && AtLeastOnce(c, s) && Run(c, s, steps)
    ensures AtLeastOnce(c, AfterAll(c, s, steps))
    decreases |steps|
  {
    if steps != [] {
      StepIsAtLeastOnce(c, s, steps[0]);
      RunIsAtLeastOnce(c, After(c, s, steps[0]), steps[1..]);
    }
  }

  // ----- rows that come late -----

  /** A run whose inserts may bring any rows, null cursors and old ones included. */
  ghost predicate AnyRun(c: Column, s: State, steps: seq<Step>)
    decreases |steps|
  {
    steps == [] ||
    ((steps[0].Sync? ==> Allowed(c, s, steps[0])) && AnyRun(c, After(c, s, steps[0]), steps[1..]))
  }

  /** The query behind a mark never selects this row. */
  predicate Behind(c: Column, mark: Option<string>, r: Row) {
    mark.Some? && (r.cursor.None? || r.cursor.value <= c.parse(mark.value))
  }

  lemma {:induction false} BehindIsNotAbove(rows: Rows, v: int, r: Row)
    requires r.cursor.None? || r.cursor.value <= v
    ensures r !in RowsAbove(rows, v)
    ensures forall q :: q in RowsAbove(rows, v) ==> q.cursor.Some? && q.cursor.value > v
  {
    if rows != [] {
      BehindIsNotAbove(rows[1..], v, r);
    }
  }

  /** A sync behind a mark takes no row that is behind it, and the mark only moves up. */
  lemma SyncLeavesBehind(c: Column, s: State, step: Step, r: Row)
    requires Codec(c) && Behind(c, s.mark, r) && step.Sync? && Allowed(c, s, step)
    ensures var t := After(c, s, step);
            Behind(c, t.mark, r) && multiset(t.dataset)[r] == multiset(s.dataset)[r]
  {
    var stream := Flatten(step.chunks);
    BehindIsNotAbove(s.upstream, c.parse(s.mark.value), r);
    assert forall q :: q in stream <==> q in multiset(Pull(c, s.upstream, s.mark));
    assert multiset(stream)[r] == 0;
    assert multiset(s.dataset + stream) == multiset(s.dataset) + multiset(stream);
    if step.outcome == Succeeds && MarkOf(c, step.chunks).Some? {
      var top := MarkComesFromARow(c, step.chunks);
      assert top in multiset(Pull(c, s.upstream, s.mark));
    }
  }

  /**
   A row that comes late is lost: once there is a mark, a row with a null cursor, or with one not above the mark, is
   never taken by any later sync, over any run of any inserts and of syncs that succeed, fail or die.
   */
  lemma {:induction false} LateRowsAreNeverSynced(c: Column, s: State, steps: seq<Step>, r: Row)
    requires Codec(c) && Behind(c, s.mark, r) && AnyRun(c, s, steps)
    ensures var t := AfterAll(c, s, steps);
            Behind(c, t.mark, r) && multiset(t.dataset)[r] == multiset(s.dataset)[r]
    decreases |steps|
  {
    if steps != [] {
      if steps[0].Sync? {
        SyncLeavesBehind(c, s, steps[0], r);
      }
      LateRowsAreNeverSynced(c, After(c, s, steps[0]), steps[1..], r);
    }
  }

  // ----- where exactly once stops -----

  function SignedText(v: int): string {
    if v < 0 then "-" + NatText(-v) else NatText(v)
  }

  function SignedValue(s: string): int {
    if s != [] && s[0] == '-' && (forall i :: 1 <= i < |s| ==> IsDigit(s[i])) then
      assert forall i :: 0 <= i < |s[1..]| ==> s[1..][i] == s[i + 1];
      -(ParseNat(s[1..]) as int)
    else if forall i :: 0 <= i < |s| ==> IsDigit(s[i]) then ParseNat(s)
    else 0
  }

  /** An integer column: str() of its values, and the server's reading of that text. */
  function IntegerColumn(): Column {
    Column(SignedText, SignedValue)
  }

  lemma IntegerColumnIsACodec()
    ensures Codec(IntegerColumn())
  {
    forall v: int
      ensures SignedValue(SignedText(v)) == v
    {
      if v < 0 {
        ParseNatText(-v);
        assert SignedText(v)[1..] == NatText(-v);
      } else {
        ParseNatText(v);
        assert IsDigit(NatText(v)[0]);
      }
    }
  }

  function Fresh(rows: Rows): State {
    State(rows, [], 0, None)
  }

  lemma TwoChunks(x: Rows, y: Rows)
    ensures Flatten([x]) == x && Flatten([x, y]) == x + y
  {
    assert [x][..0] == [] && [x, y][..1] == [x];
    assert Flatten([x]) == Flatten([]) + x;
  }

  lemma MaxOfOne(r: Row)
    ensures MaxOf([r]) == r.cursor
  {
    assert [r][..0] == [];
  }

  lemma TextOfNineAndTen()
    ensures NatText(9) == "9" && NatText(10) == "10" && !Above("10", "9")
  {
    assert NatText(1) == "1" && NatText(0) == "0";
    assert "1" + ['0'] == "10";
  }

  lemma {:induction false} TwoSteps(c: Column, s: State, first: Step, second: Step)
    ensures AfterAll(c, s, [first, second]) == After(c, After(c, s, first), second)
    ensures Run(c, s, [first, second]) <==> Allowed(c, s, first) && Allowed(c, After(c, s, first), second)
  {
    assert [first, second][1..] == [second] && [second][1..] == [];
    assert AfterAll(c, After(c, s, first), [second]) == After(c, After(c, s, first), second);
    assert Run(c, After(c, s, first), [second]) <==> Allowed(c, After(c, s, first), second);
  }

  /** Two chunks of one row each, the second greater in value and not in text. */
  lemma MarkStaysBehind(nine: Row, ten: Row)
    requires nine.cursor == Some(9) && ten.cursor == Some(10)
    ensures MarkOf(IntegerColumn(), [[nine], [ten]]) == Some("9")
    ensures Flatten([[nine], [ten]]) == [nine, ten] && MaxOf([nine, ten]) == Some(10)
  {
    var c, chunks := IntegerColumn(), [[nine], [ten]];
    TwoChunks([nine], [ten]);
    MaxOfOne(nine);
    MaxOfOne(ten);
    TextOfNineAndTen();
    assert chunks[..1] == [[nine]] && [[nine]][..0] == [];
    assert MarkOf(c, [[nine]]) == Some("9");
    assert [nine, ten][..1] == [nine];
  }

  lemma TenIsAboveNine(nine: Row, ten: Row)
    requires nine.cursor == Some(9) && ten.cursor == Some(10)
    ensures Pull(IntegerColumn(), [nine, ten], Some("9")) == [ten]
  {
    TextOfNineAndTen();
    ParseNatText(9);
    assert IsDigit("9"[0]);
    assert SignedValue("9") == 9;
    assert [nine, ten][1..] == [ten] && [ten][1..] == [];
    assert RowsAbove([], 9) == [] && RowsAbove([ten], 9) == [ten] + [];
  }

  lemma AfterNineAndTen(nine: Row, ten: Row)
    requires nine.cursor == Some(9) && ten.cursor == Some(10)
    ensures After(IntegerColumn(), Fresh([nine, ten]), Sync([[nine], [ten]], Succeeds))
            == State([nine, ten], [nine, ten], 1, Some("9"))
  {
    MarkStaysBehind(nine, ten);
    assert [] + [nine, ten] == [nine, ten];
  }

  lemma NineAndTenDisagree(nine: Row, ten: Row)
    requires nine.cursor == Some(9) && ten.cursor == Some(10)
    ensures !TextAgrees(IntegerColumn(), [[nine], [ten]])
  {
    MarkStaysBehind(nine, ten);
    MarkIsMaxExactly(IntegerColumn(), [[nine], [ten]]);
    TextOfNineAndTen();
  }

  lemma {:induction false} SyncAfterSync(c: Column, s: State, t: State, first: seq<Rows>, second: seq<Rows>)
    requires Allowed(c, s, Sync(first, Succeeds)) && After(c, s, Sync(first, Succeeds)) == t
    requires Flatten(second) == Pull(c, t.upstream, t.mark)
    ensures var steps := [Sync(first, Succeeds), Sync(second, Succeeds)];
            Run(c, s, steps) && AfterAll(c, s, steps).dataset == t.dataset + Flatten(second)
  {
    TwoSteps(c, s, Sync(first, Succeeds), Sync(second, Succeeds));
  }

  /** Integers 9 and 10 in two chunks: the mark stays at "9" and the next sync takes 10 a second time. */
  lemma TextOrderRepeatsRows(nine: Row, ten: Row)
    requires nine.cursor == Some(9) && ten.cursor == Some(10)
    ensures Codec(IntegerColumn()) && !TextAgrees(IntegerColumn(), [[nine], [ten]])
    ensures var steps := [Sync([[nine], [ten]], Succeeds), Sync([[ten]], Succeeds)];
            && Run(IntegerColumn(), Fresh([nine, ten]), steps)
            && AfterAll(IntegerColumn(), Fresh([nine, ten]), steps).dataset == [nine, ten] + [ten]
  {
    IntegerColumnIsACodec();
    AfterNineAndTen(nine, ten);
    NineAndTenDisagree(nine, ten);
    TenIsAboveNine(nine, ten);
    TwoChunks([nine], [ten]);
    TwoChunks([ten], []);
    assert [nine] + [ten] == [nine, ten];
    SyncAfterSync(IntegerColumn(), Fresh([nine, ten]), State([nine, ten], [nine, ten], 1, Some("9")),
                  [[nine], [ten]], [[ten]]);
  }

  // ----- syncs that leave the mark where it was -----

  /** A sync that takes rows and records no mark: it dies before the record, or it saw no cursor value. */
  ghost predicate Stuck(c: Column, s: State, step: Step) {
    && step.Sync? && Allowed(c, s, step)
    && (step.outcome == DiesBeforeRecord || (step.outcome == Succeeds && MarkOf(c, step.chunks).None?))
  }

  lemma StuckStep(c: Column, s: State, step: Step)
    requires Stuck(c, s, step)
    ensures var t := After(c, s, step);
            && t.upstream == s.upstream && t.mark == s.mark
            && multiset(t.dataset) == multiset(s.dataset) + multiset(Pull(c, s.upstream, s.mark))
  {
    assert multiset(s.dataset + Flatten(step.chunks)) == multiset(s.dataset) + multiset(Flatten(step.chunks));
  }

  /** Every such sync takes the same rows again: after n of them each pulled row is there n times more. */
  lemma {:induction false} StuckSyncsRepeatRows(c: Column, s: State, steps: seq<Step>)
    requires forall step :: step in steps ==> Stuck(c, s, step)
    ensures Run(c, s, steps)
    ensures var t := AfterAll(c, s, steps);
            && t.upstream == s.upstream && t.mark == s.mark
            && forall r ::
                 multiset(t.dataset)[r] == multiset(s.dataset)[r] + |steps| * multiset(Pull(c, s.upstream, s.mark))[r]
    decreases |steps|
  {
    if steps != [] {
      var t := After(c, s, steps[0]);
      assert steps[0] in steps;
      StuckStep(c, s, steps[0]);
      forall step | step in steps[1..]
        ensures Stuck(c, t, step)
      {
        assert step in steps;
      }
      StuckSyncsRepeatRows(c, t, steps[1..]);
      var u := AfterAll(c, s, steps);
      var pulled := multiset(Pull(c, s.upstream, s.mark));
      forall r
        ensures multiset(u.dataset)[r] == multiset(s.dataset)[r] + |steps| * pulled[r]
      {
        OneMoreTime(|steps|, pulled[r]);
        assert multiset(u.dataset)[r] == multiset(t.dataset)[r] + (|steps| - 1) * pulled[r];
      }
    }
  }

  lemma OneMoreTime(n: nat, k: nat)
    requires n > 0
    ensures n * k == k + (n - 1) * k
  {
  }

  lemma {:induction false} RunThenStep(c: Column, s: State, steps: seq<Step>, last: Step)
    requires Run(c, s, steps)
    ensures AfterAll(c, s, steps + [last]) == After(c, AfterAll(c, s, steps), last)
    ensures Run(c, s, steps + [last]) <==> Allowed(c, AfterAll(c, s, steps), last)
    decreases |steps|
  {
    if steps == [] {
      assert [] + [last] == [last] && [last][1..] == [];
      assert AfterAll(c, After(c, s, last), []) == After(c, s, last);
    } else {
      assert (steps + [last])[1..] == steps[1..] + [last];
      RunThenStep(c, After(c, s, steps[0]), steps[1..], last);
    }
  }

  /**
   Crashes between the commit and the mark, from any state: n of them and then a sync that succeeds leave every
   row above the old mark n times more than once.
   */
  lemma {:induction false} CrashesRepeatRows(c: Column, s: State, crashes: seq<Step>, chunks: seq<Rows>)
    requires forall step :: step in crashes ==> Stuck(c, s, step) && step.outcome == DiesBeforeRecord
    requires Allowed(c, s, Sync(chunks, Succeeds))
    ensures Run(c, s, crashes + [Sync(chunks, Succeeds)])
    ensures var t := AfterAll(c, s, crashes + [Sync(chunks, Succeeds)]);
            forall r :: multiset(t.dataset)[r]
                        == multiset(s.dataset)[r] + (|crashes| + 1) * multiset(Pull(c, s.upstream, s.mark))[r]
  {
    StuckSyncsRepeatRows(c, s, crashes);
    RunThenStep(c, s, crashes, Sync(chunks, Succeeds));
    var u := AfterAll(c, s, crashes);
    var pulled := multiset(Pull(c, s.upstream, s.mark));
    assert multiset(u.dataset + Flatten(chunks)) == multiset(u.dataset) + multiset(Flatten(chunks));
    var t := After(c, u, Sync(chunks, Succeeds));
    forall r
      ensures multiset(t.dataset)[r] == multiset(s.dataset)[r] + (|crashes| + 1) * pulled[r]
    {
      OneMoreTime(|crashes| + 1, pulled[r]);
    }
  }

  /** The first sync leaves no mark if and only if no upstream cursor has a value. */
  lemma FirstMarkExactly(c: Column, s: State, chunks: seq<Rows>)
    requires s.mark.None? && Allowed(c, s, Sync(chunks, Succeeds))
    ensures After(c, s, Sync(chunks, Succeeds)).mark.None? <==> MaxOf(s.upstream).None?
  {
    SameRowsSameMax(Flatten(chunks), s.upstream);
    MarkIsMaxOrNone(c, chunks);
  }

  lemma {:induction false} MarkIsMaxOrNone(c: Column, chunks: seq<Rows>)
    ensures MarkOf(c, chunks).None? <==> MaxOf(Flatten(chunks)).None?
  {
    MarkIsHighestText(c, chunks);
    if MaxOf(Flatten(chunks)).Some? {
      RowsMeanAMark(c, chunks);
    } else {
      forall k | 0 <= k < |chunks|
        ensures MaxOf(chunks[k]).None?
      {
        ChunkInStream(chunks, k);
      }
    }
  }

  /**
   A table whose cursors are all null, of any size: every sync takes it whole, so after n syncs each of its rows is
   there n times more, and there is still no mark.
   */
  lemma {:induction false} NullCursorsRepeatRows(c: Column, s: State, steps: seq<Step>)
    requires s.mark.None? && MaxOf(s.upstream).None?
    requires forall step :: step in steps ==> step.Sync? && Allowed(c, s, step) && step.outcome == Succeeds
    ensures Run(c, s, steps)
    ensures var t := AfterAll(c, s, steps);
            && t.mark.None?
            && forall r :: multiset(t.dataset)[r] == multiset(s.dataset)[r] + |steps| * multiset(s.upstream)[r]
  {
    forall step | step in steps
      ensures Stuck(c, s, step)
    {
      SameRowsSameMax(Flatten(step.chunks), s.upstream);
      MarkIsMaxOrNone(c, step.chunks);
    }
    StuckSyncsRepeatRows(c, s, steps);
  }
}
