/**
 The catalog as one process runs it: parts in storage, version rows in the store, and the writing methods that
 update both in place. What they compute is stated on the history, the table each version reads.
 */
module Catalog {
  import opened Common
  import opened VersionLog

  datatype Refusal = StaleBase | Invalid | NoData | BadChunk | NoVersions

  /** The tables versions 1..n read. */
  function HistoryUpTo(versions: map<nat, Version>, parts: map<Key, Table>, n: nat): (h: seq<Table>)
    ensures |h| == n
  {
    if n == 0 then []
    else
      HistoryUpTo(versions, parts, n - 1)
      + [if n in versions && Stored(parts, versions[n].files) then Rows(parts, versions[n].files) else []]
  }

  lemma {:induction false} HistoryFrame(versions: map<nat, Version>, others: map<nat, Version>, parts: map<Key,
      Table>, stored: map<Key, Table>, n: nat)
    requires forall v :: 1 <= v <= n ==>
               v in versions && v in others && others[v] == versions[v] && Stored(parts, versions[v].files)
    requires forall v, f :: 1 <= v <= n && f in versions[v].files && f in parts ==> f in stored && stored[f] == parts[f]
    ensures HistoryUpTo(others, stored, n) == HistoryUpTo(versions, parts, n)
  {
    if n > 0 {
      HistoryFrame(versions, others, parts, stored, n - 1);
      RowsFrame(parts, stored, versions[n].files);
    }
  }

  lemma {:induction false} OnePart(parts: map<Key, Table>, key: Key)
    requires key in parts
    ensures Stored(parts, [key]) && Rows(parts, [key]) == parts[key]
  {
    assert [key][..0] == [] && [] + parts[key] == parts[key];
  }

  lemma {:induction false} HistoryGrows(versions: map<nat, Version>, parts: map<Key, Table>, m: Version)
    requires forall v :: v in versions <==> 1 <= v <= |versions|
    requires forall v :: v in versions ==> Stored(parts, versions[v].files)
    requires Stored(parts, m.files)
    ensures var n := |versions|;
            HistoryUpTo(versions[n + 1 := m], parts, n + 1) == HistoryUpTo(versions, parts, n) + [Rows(parts, m.files)]
  {
    HistoryFrame(versions, versions[|versions| + 1 := m], parts, parts, |versions|);
  }

  lemma {:induction false} HistoryAt(versions: map<nat, Version>, parts: map<Key, Table>, n: nat, v: nat)
    requires 1 <= v <= n && v in versions && Stored(parts, versions[v].files)
    ensures HistoryUpTo(versions, parts, n)[v - 1] == Rows(parts, versions[v].files)
  {
    if v < n {
      HistoryAt(versions, parts, n - 1, v);
    }
  }

  /** All chunks readable: the rows a stream delivers. */
  function Streamed(chunks: seq<Option<Table>>): Option<Table> {
    if chunks == [] then Some([])
    else
      var front := Streamed(chunks[..|chunks| - 1]);
      var last := chunks[|chunks| - 1];
      if front.None? || last.None? then None else Some(front.value + last.value)
  }

  lemma {:induction false} BrokenStream(chunks: seq<Option<Table>>, k: nat)
    requires k < |chunks| && chunks[k].None?
    ensures Streamed(chunks).None?
  {
    if k < |chunks| - 1 {
      BrokenStream(chunks[..|chunks| - 1], k);
    }
  }

  /** A stream delivers its chunks' rows one after the other, and nothing once a chunk cannot be read. */
  lemma {:induction false} StreamedConcat(a: seq<Option<Table>>, b: seq<Option<Table>>)
    ensures Streamed([]) == Some([]) && forall t: Table :: Streamed([Some(t)]) == Some(t)
    ensures Streamed(a + b) == if Streamed(a).None? || Streamed(b).None? then None
                               else Some(Streamed(a).value + Streamed(b).value)
    ensures (exists k :: 0 <= k < |a| && a[k].None?) ==> Streamed(a).None?
  {
    forall t: Table
      ensures Streamed([Some(t)]) == Some(t)
    {
      assert [Some(t)][..0] == [] && [] + t == t;
    }
    if k :| 0 <= k < |a| && a[k].None? {
      BrokenStream(a, k);
    }
    if b == [] {
      assert a + b == a;
      assert Streamed(a).Some? ==> Streamed(a).value + [] == Streamed(a).value;
    } else {
      var k := |b| - 1;
      assert (a + b)[..|a + b| - 1] == a + b[..k];
      StreamedConcat(a, b[..k]);
      if Streamed(a).Some? && Streamed(b[..k]).Some? && b[k].Some? {
        Regroup(Streamed(a).value, Streamed(b[..k]).value, b[k].value);
      }
    }
  }

  /** What rivals publish before ours gets through: one before each of our inserts, until a turn nobody takes. */
  function Overtaking(rivals: seq<Option<Table>>): (others: seq<Table>)
    ensures |others| <= |rivals| && forall i :: 0 <= i < |others| ==> rivals[i] == Some(others[i])
    ensures |others| < |rivals| ==> rivals[|others|].None?
  {
    if rivals == [] || rivals[0].None? then [] else [rivals[0].value] + Overtaking(rivals[1..])
  }

  /**
   How a commit over n versions ends. Without compare-and-set it is refused only by its own check, and takes the number
   after everything that overtook it; with one it goes through if and only if the base is the newest version and
   nobody publishes first.
   */
  ghost predicate Settled(n: nat, passes: bool, cas: Option<nat>, rivals: seq<Option<Table>>, r: Result<nat, Refusal>,
                          others: seq<Table>)
  {
    if !passes then r == Err(Invalid) && others == []
    else if cas.None? then r.Ok? && r.value == n + |others| + 1 && others == Overtaking(rivals)
    else if cas.value != n then r == Err(StaleBase) && others == []
    else if rivals == [] || rivals[0].None? then r.Ok? && r.value == n + 1 && others == []
    else r == Err(StaleBase) && others == [rivals[0].value]
  }

  /** Whether a rival takes our turn, given that the ones before all did. */
  lemma {:induction false} OvertakingTurn(rivals: seq<Option<Table>>, k: nat)
    requires k <= |Overtaking(rivals)|
    ensures var all := Overtaking(rivals);
            if k == |rivals| || rivals[k].None? then all[..k] == all
            else k < |all| && all[..k + 1] == all[..k] + [rivals[k].value]
  {
    hide Overtaking;
    var all := Overtaking(rivals);
    if k < |all| {
      assert rivals[k] == Some(all[k]);
    }
  }

  /** One more readable version: the numbers stay gapless, every version readable, and the history grows by it. */
  lemma AnotherVersion(versions: map<nat, Version>, parts: map<Key, Table>, m: Version)
    requires forall v :: v in versions <==> 1 <= v <= |versions|
    requires forall v :: v in versions ==>
               Stored(parts, versions[v].files) && versions[v].rowCount == |Rows(parts, versions[v].files)|
    requires Stored(parts, m.files) && m.rowCount == |Rows(parts, m.files)|
    ensures var u := versions[|versions| + 1 := m];
            && |u| == |versions| + 1 && (forall v :: v in u <==> 1 <= v <= |u|)
            && (forall v :: v in u ==> Stored(parts, u[v].files) && u[v].rowCount == |Rows(parts, u[v].files)|)
            && HistoryUpTo(u, parts, |u|) == HistoryUpTo(versions, parts, |versions|) + [Rows(parts, m.files)]
  {
    PublishGapless(versions, m);
    HistoryGrows(versions, parts, m);
  }

  lemma StoredThenDropped(parts: map<Key, Table>, key: Key, table: Table)
    requires key !in parts
    ensures parts[key := table] - {key} == parts
  {
  }

  class DatasetCatalog {
    var versions: map<nat, Version>
    var parts: map<Key, Table>
    var nextKey: Key

    constructor ()
      ensures Valid() && History() == []
    {
      versions, parts, nextKey := map[], map[], 0;
    }

    ghost predicate Valid()
      reads this
    {
      && (forall v :: v in versions <==> 1 <= v <= |versions|)
      && (forall v :: v in versions ==>
            Stored(parts, versions[v].files) && versions[v].rowCount == |Rows(parts, versions[v].files)|)
      && forall k :: k in parts ==> k < nextKey
    }

    ghost function History(): seq<Table>
      reads this
    {
      HistoryUpTo(versions, parts, |versions|)
    }

    /** The newest version's number; 0 when there is none. */
    function Newest(): nat
      reads this
    {
      |versions|
    }

    predicate Unreferenced(key: Key)
      reads this
    {
      forall v :: v in versions ==> key !in versions[v].files
    }

    /** Adding a part under an unused key, or dropping one no version uses, changes no version. */
    lemma {:induction false} PartIsInvisible(others: map<Key, Table>, key: Key)
      requires Valid() && Unreferenced(key)
      requires forall k :: k in parts && k != key ==> k in others && others[k] == parts[k]
      ensures HistoryUpTo(versions, others, |versions|) == History()
      ensures forall v :: v in versions ==>
                Stored(others, versions[v].files) && Rows(others, versions[v].files) == Rows(parts, versions[v].files)
    {
      HistoryFrame(versions, versions, parts, others, |versions|);
      forall v | v in versions
        ensures Stored(others, versions[v].files) && Rows(others, versions[v].files) == Rows(parts, versions[v].files)
      {
        RowsFrame(parts, others, versions[v].files);
      }
    }

    /** Write one part under a key nobody has used. */
    method StorePart(table: Table) returns (key: Key)
      requires Valid()
      modifies `parts, `nextKey
      ensures Valid() && History() == old(History()) && Unreferenced(key)
      ensures key == old(nextKey) && nextKey == key + 1 && key !in old(parts) && parts == old(parts)[key := table]
      ensures forall v :: v in versions ==> Rows(parts, versions[v].files) == old(Rows(parts, versions[v].files))
    {
      key := nextKey;
      PartIsInvisible(parts[key := table], key);
      parts, nextKey := parts[key := table], key + 1;
    }

    /** The `except` block: delete the part, which no version uses. */
    method DropPart(key: Key)
      requires Valid() && Unreferenced(key)
      modifies `parts
      ensures Valid() && History() == old(History()) && parts == old(parts) - {key}
    {
      PartIsInvisible(parts - {key}, key);
      parts := parts - {key};
    }

    /** The row insert: the commit point. */
    method AddVersion(v: nat, m: Version) returns (taken: bool)
      requires Valid() && 1 <= v <= Newest() + 1
      requires Stored(parts, m.files) && m.rowCount == |Rows(parts, m.files)|
      modifies `versions
      ensures Valid() && taken == (v <= old(Newest()))
      ensures taken ==> versions == old(versions)
      ensures !taken ==> versions == old(versions)[v := m] && History() == old(History()) + [Rows(parts, m.files)]
    {
      hide HistoryUpTo, Rows, Stored;
      taken := v in versions;
      if !taken {
        AnotherVersion(versions, parts, m);
        versions := versions[v := m];
      }
    }

    /** Another writer's publication, landing between two of ours. */
    method Rival(table: Table, ghost key: Key)
      requires Valid() && Unreferenced(key) && key < nextKey
      modifies this
      ensures Valid() && Newest() == old(Newest()) + 1 && nextKey == old(nextKey) + 1
      ensures History() == old(History()) + [table]
      ensures parts == old(parts)[old(nextKey) := table] && old(nextKey) !in old(parts)
      ensures Unreferenced(key)
    {
      var mine := StorePart(table);
      OnePart(parts, mine);
      var v := |versions| + 1;
      var taken := AddVersion(v, Version([mine], |table|));
    }

    /**
     `_commit_version`: validate, read the next number, then insert and retry. `rivals[i]`, if any, is what
     others publish just before our i-th insert; `others` is what they did publish.
     */
    method CommitVersion(key: Key, table: Table, inherited: seq<Key>, baseCount: nat, passes: bool, cas: Option<nat>,
                         rivals: seq<Option<Table>>)
      returns (r: Result<nat, Refusal>, ghost others: seq<Table>)
      requires Valid() && key in parts && parts[key] == table && Unreferenced(key)
      requires Stored(parts, inherited) && baseCount == |Rows(parts, inherited)|
      modifies this
      ensures Valid()
      ensures others == [] ==> parts == old(parts) && nextKey == old(nextKey)
      ensures r.Ok? ==> History() == old(History()) + others + [old(Rows(parts, inherited)) + table]
      ensures r.Ok? ==> r.value == Newest() && versions[r.value].files == inherited + [key]
      ensures r.Err? ==> History() == old(History()) + others && Unreferenced(key)
      ensures r.Err? && others == [] ==> versions == old(versions)
      ensures key in parts && nextKey >= old(nextKey)
      ensures Settled(old(Newest()), passes, cas, rivals, r, others)
    {
      others := [];
      assert History() + others == History();
      if !passes {
        return Err(Invalid), others;
      }
      if cas.Some? && Newest() + 1 != cas.value + 1 {
        return Err(StaleBase), others;
      }
      r, others := Claim(key, table, inherited, baseCount, cas, rivals);
    }

    /** The insert loop: the next number, and on a collision the one after, unless a compare-and-set forbids it. */
    method Claim(key: Key, table: Table, inherited: seq<Key>, baseCount: nat, cas: Option<nat>,
                 rivals: seq<Option<Table>>)
      returns (r: Result<nat, Refusal>, ghost others: seq<Table>)
      requires Valid() && key in parts && parts[key] == table && Unreferenced(key)
      requires Stored(parts, inherited) && baseCount == |Rows(parts, inherited)|
      requires cas.Some? ==> cas.value == Newest()
      modifies this
      ensures Valid() && key in parts && nextKey >= old(nextKey)
      ensures others == [] ==> parts == old(parts) && nextKey == old(nextKey)
      ensures r.Ok? ==> History() == old(History()) + others + [old(Rows(parts, inherited)) + table]
      ensures r.Ok? ==> r.value == Newest() && versions[r.value].files == inherited + [key]
      ensures r.Err? ==> History() == old(History()) + others && Unreferenced(key)
      ensures cas.None? ==> others == Overtaking(rivals) && r.Ok? && r.value == old(Newest()) + |others| + 1
      ensures cas.Some? ==>
                if rivals == [] || rivals[0].None? then r.Ok? && r.value == cas.value + 1 && others == []
                else r == Err(StaleBase) && others == [rivals[0].value]
    {
      hide HistoryUpTo, Rows, Stored, Overtaking;
      others := [];
      ghost var overtaking := Overtaking(rivals);
      assert History() + others == History();
      var version, attempt := Newest() + 1, 0;
      while true
        invariant Valid() && Unreferenced(key) && key < nextKey && key in parts && parts[key] == table
        invariant Stored(parts, inherited) && Rows(parts, inherited) == old(Rows(parts, inherited))
        invariant attempt <= |overtaking| <= |rivals| && others == overtaking[..attempt]
        invariant version == old(Newest()) + attempt + 1 == Newest() + 1
        invariant History() == old(History()) + others && nextKey >= old(nextKey)
        invariant cas.Some? ==> attempt == 0
        invariant attempt == 0 ==> parts == old(parts) && nextKey == old(nextKey)
        decreases |rivals| - attempt
      {
        var rival := if attempt < |rivals| then rivals[attempt] else None;
        var taken := Attempt(version, rival, key, table, inherited, baseCount);
        OvertakingTurn(rivals, attempt);
        if !taken {
          return Ok(version), others;
        }
        Regroup(old(History()), others, [rival.value]);
        others := others + [rival.value];
        if cas.Some? {
          return Err(StaleBase), others;
        }
        version, attempt := version + 1, attempt + 1;
      }
    }

    /** One turn of the loop: whatever a rival does first, then our insert of this number. */
    method Attempt(version: nat, rival: Option<Table>, key: Key, table: Table, inherited: seq<Key>, baseCount: nat)
      returns (taken: bool)
      requires Valid() && key in parts && parts[key] == table && Unreferenced(key) && key < nextKey
      requires Stored(parts, inherited) && baseCount == |Rows(parts, inherited)| && version == Newest() + 1
      modifies this
      ensures Valid() && key < nextKey && key in parts && parts[key] == table && Stored(parts, inherited)
      ensures Rows(parts, inherited) == old(Rows(parts, inherited))
      ensures taken == rival.Some? && Newest() == old(Newest()) + 1 && nextKey >= old(nextKey)
      ensures taken ==> History() == old(History()) + [rival.value] && Unreferenced(key)
      ensures !taken ==> History() == old(History()) + [Rows(parts, inherited) + table]
      ensures !taken ==> versions[version].files == inherited + [key] && parts == old(parts) && nextKey == old(nextKey)
    {
      if rival.Some? {
        RowsFrame(parts, parts[nextKey := rival.value], inherited);
        Rival(rival.value, key);
      }
      assert (inherited + [key])[..|inherited|] == inherited;
      taken := AddVersion(version, Version(inherited + [key], baseCount + |table|));
    }

    /** A fresh part, committed with the inherited ones, and dropped again when the commit is refused. */
    method Publish(table: Table, inherited: seq<Key>, baseCount: nat, passes: bool, cas: Option<nat>,
                   rivals: seq<Option<Table>>)
      returns (r: Result<nat, Refusal>, ghost others: seq<Table>)
      requires Valid() && Stored(parts, inherited) && baseCount == |Rows(parts, inherited)|
      modifies this
      ensures Valid()
      ensures r.Ok? ==>
                History() == old(History()) + others + [old(Rows(parts, inherited)) + table] && r.value == Newest()
      ensures r.Ok? ==> versions[r.value].files == inherited + [old(nextKey)]
      ensures r.Err? ==> History() == old(History()) + others
      ensures r.Err? && others == [] ==> versions == old(versions) && parts == old(parts)
      ensures r.Err? ==> old(nextKey) !in parts
      ensures Settled(old(Newest()), passes, cas, rivals, r, others)
    {
      RowsFrame(parts, parts[nextKey := table], inherited);
      var key := StorePart(table);
      r, others := CommitVersion(key, table, inherited, baseCount, passes, cas, rivals);
      if r.Err? {
        DropPart(key);
        StoredThenDropped(old(parts), key, table);
      }
    }

    /** A full write: the new version reads exactly the written table; a refused one leaves no trace. */
    method Write(table: Table, passes: bool, cas: Option<nat>, rivals: seq<Option<Table>>)
      returns (r: Result<nat, Refusal>, ghost others: seq<Table>)
      requires Valid()
      modifies this
      ensures Valid()
      ensures History() == old(History()) + others + if r.Ok? then [table] else []
      ensures r.Ok? ==> r.value == Newest() && |versions[r.value].files| == 1
      ensures r.Err? && others == [] ==> versions == old(versions) && parts == old(parts)
      ensures r.Err? ==> old(nextKey) !in parts
      ensures Settled(old(Newest()), passes, cas, rivals, r, others)
    {
      r, others := Publish(table, [], 0, passes, cas, rivals);
      assert [] + table == table;
      if r.Err? {
        assert History() + [] == History();
      }
    }

    /** Drain a stream chunk by chunk; a chunk that cannot be read or cast stops it. */
    method Drain(chunks: seq<Option<Table>>) returns (rows: Option<Table>)
      ensures rows == Streamed(chunks)
    {
      var sofar: Table := [];
      for k := 0 to |chunks|
        invariant Streamed(chunks[..k]) == Some(sofar)
      {
        assert chunks[..k + 1][..k] == chunks[..k];
        if chunks[k].None? {
          BrokenStream(chunks, k);
          return None;
        }
        sofar := sofar + chunks[k].value;
      }
      assert chunks[..|chunks|] == chunks;
      return Some(sofar);
    }

    /** A streamed write; no chunk at all is an error. */
    method WriteBatches(chunks: seq<Option<Table>>, passes: bool, rivals: seq<Option<Table>>)
      returns (r: Result<nat, Refusal>, ghost others: seq<Table>)
      requires Valid()
      modifies this
      ensures Valid()
      ensures r.Ok? ==>
                && chunks != [] && Streamed(chunks).Some?
                && History() == old(History()) + others + [Streamed(chunks).value]
      ensures r.Err? ==> History() == old(History()) + others
      ensures r.Err? && others == [] ==> versions == old(versions) && parts == old(parts)
      ensures Streamed(chunks).None? ==> r == Err(BadChunk) && others == []
      ensures chunks == [] ==> r == Err(NoData) && others == []
      ensures chunks != [] && Streamed(chunks).Some? ==> Settled(old(Newest()), passes, None, rivals, r, others)
    {
      others := [];
      assert History() + others == History();
      var rows := Drain(chunks);
      if rows.None? {
        return Err(BadChunk), others;
      }
      if chunks == [] {
        return Err(NoData), others;
      }
      r, others := Write(rows.value, passes, None, rivals);
      if r.Err? {
        assert History() + [] == History();
      }
    }

    /** The rows appended to: those of the version that was newest when the append began. */
    ghost function NewestRows(): Table
      requires Valid()
      reads this
    {
      if Newest() == 0 then [] else Rows(parts, versions[Newest()].files)
    }

    /** An append: the base's rows, then the delta, and only the delta is written. */
    method Append(delta: Option<Table>, passes: bool, rivals: seq<Option<Table>>)
      returns (r: Result<nat, Refusal>, ghost others: seq<Table>)
      requires Valid()
      modifies this
      ensures Valid()
      ensures r.Ok? ==> delta.Some? && History() == old(History()) + others + [old(NewestRows()) + delta.value]
      ensures r.Ok? ==> r.value in versions
      ensures r.Ok? && old(Newest()) > 0 ==> versions[r.value].files == old(versions[Newest()].files) + [old(nextKey)]
      ensures r.Err? ==> History() == old(History()) + others
      ensures r.Err? && others == [] ==> versions == old(versions) && parts == old(parts)
      ensures delta.None? ==> r == Err(BadChunk) && others == []
      ensures delta.Some? ==> Settled(old(Newest()), passes, None, rivals, r, others)
    {
      others := [];
      assert History() + others == History();
      if delta.None? {
        return Err(BadChunk), others;
      }
      if Newest() == 0 {
        r, others := Write(delta.value, passes, None, rivals);
        assert [] + delta.value == delta.value;
        if r.Err? {
          assert History() + [] == History();
        }
        return;
      }
      var previous := versions[Newest()];
      r, others := Publish(delta.value, previous.files, previous.rowCount, passes, None, rivals);
    }

    /** A streamed append: with nothing new it is a no-op that returns the current version. */
    method AppendBatches(chunks: seq<Option<Table>>, rivals: seq<Option<Table>>)
      returns (r: Result<nat, Refusal>, ghost others: seq<Table>)
      requires Valid()
      modifies this
      ensures Valid()
      ensures Streamed(chunks).None? ==> r == Err(BadChunk) && others == []
      ensures old(Newest()) == 0 && chunks == [] ==> r == Err(NoData) && others == []
      ensures old(Newest()) > 0 && Streamed(chunks) == Some([]) ==>
                r == Ok(old(Newest())) && versions == old(versions) && parts == old(parts) && others == []
      ensures chunks != [] && Streamed(chunks).Some? && (old(Newest()) == 0 || Streamed(chunks) != Some([])) ==>
                Settled(old(Newest()), true, None, rivals, r, others)
      ensures r.Ok? && (old(Newest()) == 0 || Streamed(chunks) != Some([])) ==>
                && Streamed(chunks).Some?
                && History() == old(History()) + others + [old(NewestRows()) + Streamed(chunks).value]
      ensures r.Err? ==> History() == old(History()) + others
      ensures r.Err? && others == [] ==> versions == old(versions) && parts == old(parts)
    {
      others := [];
      assert History() + others == History();
      if Newest() == 0 {
        r, others := WriteBatches(chunks, true, rivals);
        if r.Ok? {
          assert [] + Streamed(chunks).value == Streamed(chunks).value;
        }
        return;
      }
      var rows := Drain(chunks);
      if rows.None? {
        return Err(BadChunk), others;
      }
      if rows.value == [] {
        return Ok(Newest()), others;
      }
      r, others := Append(rows, true, rivals);
    }

    /** Read one version; a number that was never published has nothing to read. */
    method Read(version: Option<nat>) returns (r: Result<Table, Refusal>)
      requires Valid()
      ensures var v := if version.Some? then version.value else Newest();
              r == if 1 <= v <= Newest() then Ok(History()[v - 1]) else Err(NoVersions)
    {
      var v := if version.Some? then version.value else Newest();
      if v !in versions {
        return Err(NoVersions);
      }
      HistoryAt(versions, parts, Newest(), v);
      return Ok(Rows(parts, versions[v].files));
    }

    /** Compaction publishes the newest version's rows again, as one part. */
    method Compact(rivals: seq<Option<Table>>) returns (r: Result<nat, Refusal>, ghost others: seq<Table>)
      requires Valid()
      modifies this
      ensures Valid()
      ensures old(Newest()) == 0 ==> r == Err(NoVersions) && versions == old(versions) && parts == old(parts)
      ensures old(Newest()) > 0 ==> Settled(old(Newest()), true, None, rivals, r, others)
      ensures r.Ok? ==> History() == old(History()) + others + [old(NewestRows())]
      ensures r.Ok? ==> r.value in versions && |versions[r.value].files| == 1
    {
      others := [];
      var table := Read(None);
      if table.Err? {
        return Err(NoVersions), others;
      }
      HistoryAt(versions, parts, Newest(), Newest());
      r, others := Write(table.value, true, None, rivals);
    }
  }
}
