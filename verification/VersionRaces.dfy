/**
 Writers racing, under any compaction setting: how often a writer retries, and exactly when an append keeps what
 others publish. What holds here needs no part to exist, so it holds even where published parts are deleted.
 */
module VersionRaces {
  import opened Common
  import opened VersionLog
  import opened VersionRuns

  // ----- the invariant of the rows alone -----

  /** Each version's last part is in no older version. */
  ghost predicate Stamped(versions: map<nat, Version>) {
    forall v :: v in versions ==>
      && versions[v].files != []
      && forall u :: u in versions && u < v ==> versions[v].files[|versions[v].files| - 1] !in versions[u].files
  }

  /** So two versions never share a manifest. */
  lemma ManifestsDiffer(versions: map<nat, Version>, u: nat, v: nat)
    requires Stamped(versions) && u in versions && v in versions && u < v
    ensures versions[u].files != versions[v].files
  {
  }

  ghost predicate Placed(s: State, wr: Writer) {
    && wr.key < s.nextKey && (wr.outer.Some? ==> wr.outer.value < s.nextKey) && CandidateOk(s, wr) && BaseOk(s, wr)
    && (Unpublished(wr) ==> forall v :: v in s.versions ==> wr.key !in s.versions[v].files)
  }

  ghost predicate Logged(s: State) {
    && Gapless(s) && KeysApart(s) && Stamped(s.versions)
    && forall w :: w in s.writers ==> Placed(s, s.writers[w])
  }

  /** A writer moved on; what is stored does not matter. */
  lemma LoggedMove(s: State, t: State, w: nat, wr: Writer)
    requires Logged(s) && w in s.writers && wr.key == s.writers[w].key && Placed(s, wr)
    requires t.versions == s.versions && t.nextKey == s.nextKey && t.writers == s.writers[w := wr]
    ensures Logged(t)
  {
    forall x | x in t.writers
      ensures Placed(t, t.writers[x])
    {
      assert Placed(s, t.writers[x]);
    }
  }

  lemma LoggedJoin(s: State, t: State, w: nat, wr: Writer)
    requires Logged(s) && wr.key == s.nextKey && wr.stage == Start && BaseOk(s, wr)
    requires wr.outer.Some? ==> wr.outer.value < s.nextKey
    requires t.versions == s.versions && t.nextKey == s.nextKey + 1 && t.writers == s.writers[w := wr]
    ensures Logged(t)
  {
    forall x | x in t.writers
      ensures Placed(t, t.writers[x])
    {
      assert x != w ==> Placed(s, s.writers[x]);
    }
    forall x, y | x in t.writers && y in t.writers && x != y
      ensures t.writers[x].key != t.writers[y].key
    {
      assert x != w ==> Placed(s, s.writers[x]);
      assert y != w ==> Placed(s, s.writers[y]);
    }
  }

  lemma StampedGrows(versions: map<nat, Version>, files: seq<Key>, key: Key, rowCount: nat)
    requires Stamped(versions) && forall v :: v in versions <==> 1 <= v <= |versions|
    requires forall v :: v in versions ==> key !in versions[v].files
    ensures Stamped(versions[|versions| + 1 := Version(files + [key], rowCount)])
  {
  }

  /** What a publication puts in the log, and the other writers beside it. */
  lemma PublishedPlaced(s: State, w: nat, wr: Writer, x: nat)
    requires Logged(s) && w in s.writers && s.writers[w] == wr && wr.stage.Trying? && x in s.writers
    requires wr.stage.v == |s.versions| + 1 && wr.stage.v !in s.versions
    ensures var t := Insert(s, w, wr); Placed(t, t.writers[x])
  {
    var t := Insert(s, w, wr);
    assert Placed(s, wr) && Placed(s, s.writers[x]);
    PublishGapless(s.versions, Manifest(wr));
    if x != w && Unpublished(s.writers[x]) {
      assert s.writers[x].key != wr.key;
      assert s.writers[x].key !in wr.inherited;
    }
  }

  lemma PublishedApart(s: State, w: nat, wr: Writer)
    requires Logged(s) && w in s.writers && s.writers[w] == wr && wr.stage.Trying? && wr.stage.v !in s.versions
    ensures KeysApart(Insert(s, w, wr))
  {
    assert Placed(s, wr);
    forall f | f in Manifest(wr).files
      ensures f < s.nextKey
    {
      if f != wr.key {
        assert f in s.versions[wr.base].files;
      }
    }
  }

  lemma LoggedPublish(s: State, w: nat, wr: Writer)
    requires Logged(s) && w in s.writers && s.writers[w] == wr && wr.stage.Trying? && wr.stage.v !in s.versions
    ensures wr.stage.v == |s.versions| + 1 && Logged(Insert(s, w, wr))
  {
    assert Placed(s, wr);
    var t := Insert(s, w, wr);
    PublishGapless(s.versions, Manifest(wr));
    StampedGrows(s.versions, wr.inherited, wr.key, wr.baseCount + |wr.table|);
    PublishedApart(s, w, wr);
    forall x | x in t.writers
      ensures Placed(t, t.writers[x])
    {
      PublishedPlaced(s, w, wr, x);
    }
  }

  lemma LoggedTry(s: State, w: nat, wr: Writer)
    requires Logged(s) && w in s.writers && s.writers[w] == wr && wr.stage.Trying?
    ensures Logged(Insert(s, w, wr))
  {
    assert Placed(s, wr);
    var t := Insert(s, w, wr);
    if wr.stage.v !in s.versions {
      LoggedPublish(s, w, wr);
    } else {
      LoggedMove(s, t, w, t.writers[w]);
    }
  }

  lemma LoggedRead(s: State, w: nat, wr: Writer)
    requires Logged(s) && w in s.writers && s.writers[w] == wr && wr.stage == Wrote
    ensures Logged(At(s, w, ReadNumber(s, wr)))
  {
    assert Placed(s, wr);
    LatestIsCount(s);
    LoggedMove(s, At(s, w, ReadNumber(s, wr)), w, ReadNumber(s, wr));
  }

  lemma LoggedBegin(setting: Setting, s: State, w: nat, op: Op)
    requires Logged(s) && Next(setting, s, Begin(w, op)).Some?
    ensures Logged(Next(setting, s, Begin(w, op)).value)
  {
    LatestIsCount(s);
    LoggedJoin(s, Next(setting, s, Begin(w, op)).value, w, BeginWith(s, op).value);
  }

  lemma LoggedAfterCommit(setting: Setting, s: State, w: nat)
    requires Logged(s) && Next(setting, s, AfterCommit(w)).Some?
    ensures Logged(Next(setting, s, AfterCommit(w)).value)
  {
    var t := Next(setting, s, AfterCommit(w)).value;
    assert Placed(s, s.writers[w]);
    hide Logged, Stored, Rows;
    if t.nextKey == s.nextKey {
      LoggedMove(s, t, w, t.writers[w]);
    } else {
      LoggedJoin(s, t, w, t.writers[w]);
    }
  }

  /** A step that only moves its writer to another stage. */
  predicate Moves(a: Action) {
    a.WritePart? || a.WriteFails? || a.ValidateFails? || a.InsertFails? || a.CleanUp? || a.Crash?
  }

  lemma StageMoves(setting: Setting, s: State, a: Action)
    requires Moves(a) && Next(setting, s, a).Some?
    ensures var t := Next(setting, s, a).value;
            && a.w in s.writers && a.w in t.writers && t.versions == s.versions && t.nextKey == s.nextKey
            && t.writers == s.writers[a.w := s.writers[a.w].(stage := t.writers[a.w].stage)]
            && !t.writers[a.w].stage.Trying? && (Unpublished(t.writers[a.w]) ==> Unpublished(s.writers[a.w]))
  {
  }

  lemma LoggedStage(setting: Setting, s: State, a: Action)
    requires Logged(s) && Moves(a) && Next(setting, s, a).Some?
    ensures Logged(Next(setting, s, a).value)
  {
    StageMoves(setting, s, a);
    var t := Next(setting, s, a).value;
    var wr := t.writers[a.w];
    assert Placed(s, wr) by {
      assert Placed(s, s.writers[a.w]);
    }
    LoggedMove(s, t, a.w, wr);
  }

  /** Every step of every writer, under every setting, keeps the log in order. */
  lemma LoggedStep(setting: Setting, s: State, a: Action)
    requires Logged(s) && Next(setting, s, a).Some?
    ensures Logged(Next(setting, s, a).value)
  {
    match a
    case Begin(w, op) => LoggedBegin(setting, s, w, op);
    case ReadNext(w) => LoggedRead(s, w, s.writers[w]);
    case TryInsert(w) => LoggedTry(s, w, s.writers[w]);
    case AfterCommit(w) => LoggedAfterCommit(setting, s, w);
    case _ => LoggedStage(setting, s, a);
  }

  lemma {:induction false} LoggedRun(setting: Setting, s: State, actions: seq<Action>)
    requires Logged(s) && Run(setting, s, actions).Some?
    ensures Logged(Run(setting, s, actions).value)
  {
    if actions != [] {
      var k := |actions| - 1;
      LoggedRun(setting, s, actions[..k]);
      LoggedStep(setting, Run(setting, s, actions[..k]).value, actions[k]);
    }
  }

  lemma ReachableIsLogged(setting: Setting, s: State)
    requires Reachable(setting, s)
    ensures Logged(s)
  {
    var actions :| Run(setting, EMPTY, actions) == Some(s);
    LoggedRun(setting, EMPTY, actions);
  }

  /** In every state that can be reached, no two versions have the same parts. */
  lemma ReachableManifestsDiffer(setting: Setting, s: State, u: nat, v: nat)
    requires Reachable(setting, s) && u in s.versions && v in s.versions && u != v
    ensures s.versions[u].files != s.versions[v].files
  {
    ReachableIsLogged(setting, s);
    ManifestsDiffer(s.versions, if u < v then u else v, if u < v then v else u);
  }

  // ----- retries -----

  predicate Collides(s: State, a: Action, w: nat) {
    a == TryInsert(w) && w in s.writers && s.writers[w].stage.Trying? && s.writers[w].stage.v in s.versions
  }

  /** How often w's insert met a taken number along a run. */
  ghost function Collisions(setting: Setting, s: State, actions: seq<Action>, w: nat): nat {
    if actions == [] then 0
    else
      var k := |actions| - 1;
      var before := Run(setting, s, actions[..k]);
      Collisions(setting, s, actions[..k], w) + if before.Some? && Collides(before.value, actions[k], w) then 1 else 0
  }

  /** The writer is still at the attempt it started with, having moved its candidate once per collision. */
  ghost predicate SameAttempt(t: State, w: nat, key: Key, from: nat, collisions: nat) {
    && w in t.writers
    && (t.writers[w].key == key ==> t.writers[w].stage != Start && t.writers[w].stage != Wrote)
    && (t.writers[w].key == key && t.writers[w].stage.Trying? ==> t.writers[w].stage.v == from + collisions)
    && key < t.nextKey
  }

  lemma AttemptStep(setting: Setting, s: State, a: Action, w: nat, key: Key, from: nat, collisions: nat)
    requires SameAttempt(s, w, key, from, collisions) && Next(setting, s, a).Some?
    ensures SameAttempt(Next(setting, s, a).value, w, key, from, collisions + if Collides(s, a, w) then 1 else 0)
  {
    if a.w != w {
      OneWriterMoves(setting, s, a);
    } else if a.TryInsert? {
      NextTry(setting, s, w);
    }
  }

  lemma {:induction false} AttemptTracks(setting: Setting, s: State, actions: seq<Action>, w: nat)
    requires Logged(s) && w in s.writers && s.writers[w].stage.Trying? && Run(setting, s, actions).Some?
    ensures SameAttempt(Run(setting, s, actions).value, w, s.writers[w].key, s.writers[w].stage.v,
                        Collisions(setting, s, actions, w))
  {
    assert Placed(s, s.writers[w]);
    if actions != [] {
      var k := |actions| - 1;
      AttemptTracks(setting, s, actions[..k], w);
      AttemptStep(setting, Run(setting, s, actions[..k]).value, actions[k], w, s.writers[w].key, s.writers[w].stage.v,
                  Collisions(setting, s, actions[..k], w));
    }
  }

  /**
   The retry loop is bounded by the competition, under any setting: a writer that has just read the next number has,
   while it is still trying, collided at most as often as other writers have published since.
   */
  lemma {:induction false} RetriesBounded(setting: Setting, s: State, actions: seq<Action>, w: nat)
    requires Logged(s) && w in s.writers && s.writers[w].stage == Trying(|s.versions| + 1)
    requires Run(setting, s, actions).Some?
    requires var t := Run(setting, s, actions).value;
             w in t.writers && t.writers[w].stage.Trying? && t.writers[w].key == s.writers[w].key
    ensures var t := Run(setting, s, actions).value;
            var collisions := Collisions(setting, s, actions, w);
            && collisions <= |t.versions| - |s.versions|
            && (collisions == |t.versions| - |s.versions| <==> t.writers[w].stage.v !in t.versions)
  {
    AttemptTracks(setting, s, actions, w);
    LoggedRun(setting, s, actions);
    var t := Run(setting, s, actions).value;
    assert Placed(t, t.writers[w]);
  }

  // ----- compare-and-set, over runs -----

  lemma {:induction false} RunStaysAimed(setting: Setting, s: State, actions: seq<Action>)
    requires CasAimed(s) && Run(setting, s, actions).Some?
    ensures CasAimed(Run(setting, s, actions).value)
  {
    if actions != [] {
      var k := |actions| - 1;
      RunStaysAimed(setting, s, actions[..k]);
      CasStaysAimed(setting, Run(setting, s, actions[..k]).value, actions[k]);
    }
  }

  /** What the insert of a compare-and-set writer does. */
  ghost function CasInsert(s: State, w: nat): State
    requires w in s.writers && s.writers[w].cas.Some?
  {
    var wr := s.writers[w];
    var e := wr.cas.value;
    if Latest(s) == e then At(s, w, wr.(stage := Committed(e + 1))).(versions := s.versions[e + 1 := Manifest(wr)])
    else At(s, w, wr.(stage := Cleaning))
  }

  lemma AimedInsert(s: State, w: nat)
    requires Gapless(s) && w in s.writers && s.writers[w].cas.Some? && CandidateOk(s, s.writers[w])
    requires s.writers[w].stage == Trying(s.writers[w].cas.value + 1)
    ensures Insert(s, w, s.writers[w]) == CasInsert(s, w)
  {
    LatestIsCount(s);
  }

  /**
   In every state that can be reached, under every setting: a compare-and-set writer over base e that inserts now
   publishes e + 1 if and only if e is the newest version, and otherwise publishes nothing and cleans up.
   */
  lemma ReachableCompareAndSet(setting: Setting, s: State, w: nat)
    requires Reachable(setting, s) && w in s.writers && s.writers[w].cas.Some? && s.writers[w].stage.Trying?
    ensures Next(setting, s, TryInsert(w)) == Some(CasInsert(s, w))
  {
    var actions :| Run(setting, EMPTY, actions) == Some(s);
    LoggedRun(setting, EMPTY, actions);
    RunStaysAimed(setting, EMPTY, actions);
    assert Placed(s, s.writers[w]);
    AimedInsert(s, w);
    NextTry(setting, s, w);
  }

  // ----- what a writer's version holds, whatever others do in between -----

  /** The newest version's parts. */
  function NewestFiles(s: State): seq<Key> {
    if |s.versions| in s.versions then s.versions[|s.versions|].files else []
  }

  /** The next version extends the newest one by the writer's part exactly when the newest is the writer's base. */
  lemma PublicationExtendsExactly(setting: Setting, s: State, w: nat)
    requires Logged(s) && w in s.writers && s.writers[w].stage.Trying? && s.writers[w].stage.v !in s.versions
    ensures var n := |s.versions|;
            var wr := s.writers[w];
            var t := Next(setting, s, TryInsert(w)).value;
            && n + 1 in t.versions
            && (t.versions[n + 1].files == NewestFiles(s) + [wr.key] <==> wr.base == n)
  {
    var n, wr := |s.versions|, s.writers[w];
    assert Placed(s, wr);
    NextTry(setting, s, w);
    LoggedPublish(s, w, wr);
    if wr.base != 0 && wr.base < n {
      ManifestsDiffer(s.versions, wr.base, n);
    }
    SameEnd(wr.inherited, NewestFiles(s), wr.key);
  }

  lemma SameEnd(a: seq<Key>, b: seq<Key>, key: Key)
    ensures a + [key] == b + [key] <==> a == b
  {
    assert (a + [key])[..|a|] == a && (b + [key])[..|b|] == b;
  }

  /**
   While a writer is at the attempt it began, its base, its rows and its key are what they were, its part is stored
   from the writing on, and nobody else would delete it.
   */
  ghost predicate SameWriter(t: State, w: nat, key: Key, base: nat, table: Table) {
    && w in t.writers && key < t.nextKey && (t.writers[w].key == key ==> OwnAttempt(t, t.writers[w], base, table))
    && forall x :: x in t.writers && x != w ==> t.writers[x].key != key && t.writers[x].outer != Some(key)
  }

  ghost predicate OwnAttempt(t: State, wr: Writer, base: nat, table: Table) {
    && wr.base == base && wr.table == table && wr.outer != Some(wr.key)
    && ((wr.stage == Wrote || wr.stage.Trying?) ==> wr.key in t.parts && t.parts[wr.key] == table)
  }

  lemma OwnStep(setting: Setting, s: State, a: Action, key: Key, base: nat, table: Table)
    requires a.w in s.writers && key < s.nextKey && Next(setting, s, a).Some?
    requires s.writers[a.w].key == key ==> OwnAttempt(s, s.writers[a.w], base, table)
    ensures var t := Next(setting, s, a).value;
            t.writers[a.w].key == key ==> s.writers[a.w].key == key && OwnAttempt(t, t.writers[a.w], base, table)
  {
  }

  /** What another writer's step deletes or overwrites is under its own keys. */
  lemma OthersStep(setting: Setting, s: State, a: Action, key: Key)
    requires key < s.nextKey && Next(setting, s, a).Some?
    requires a.w in s.writers ==> s.writers[a.w].key != key && s.writers[a.w].outer != Some(key)
    ensures var t := Next(setting, s, a).value;
            && t.writers[a.w].key != key && t.writers[a.w].outer != Some(key)
            && (key in s.parts ==> key in t.parts && t.parts[key] == s.parts[key])
  {
  }

  lemma SameWriterStep(setting: Setting, s: State, a: Action, w: nat, key: Key, base: nat, table: Table)
    requires SameWriter(s, w, key, base, table) && Next(setting, s, a).Some?
    ensures SameWriter(Next(setting, s, a).value, w, key, base, table)
  {
    OneWriterMoves(setting, s, a);
    if a.w == w {
      OwnStep(setting, s, a, key, base, table);
    } else {
      OthersStep(setting, s, a, key);
    }
  }

  lemma {:induction false} SameWriterRun(setting: Setting, s: State, actions: seq<Action>, w: nat, key: Key,
      base: nat, table: Table)
    requires SameWriter(s, w, key, base, table) && Run(setting, s, actions).Some?
    ensures SameWriter(Run(setting, s, actions).value, w, key, base, table)
  {
    if actions != [] {
      var k := |actions| - 1;
      SameWriterRun(setting, s, actions[..k], w, key, base, table);
      SameWriterStep(setting, Run(setting, s, actions[..k]).value, actions[k], w, key, base, table);
    }
  }

  /** The state in which an operation has just begun. */
  ghost function Begun(s: State, w: nat, op: Op): State
    requires BeginWith(s, op).Some?
  {
    At(s, w, BeginWith(s, op).value).(nextKey := s.nextKey + 1)
  }

  /** The operation, begun in s, is about to publish in t, whatever steps came between. */
  ghost predicate AboutToPublish(setting: Setting, s: State, w: nat, op: Op, actions: seq<Action>, t: State) {
    && w !in s.writers && BeginWith(s, op).Some? && Run(setting, Begun(s, w, op), actions) == Some(t)
    && w in t.writers && t.writers[w].key == s.nextKey
    && t.writers[w].stage.Trying? && t.writers[w].stage.v !in t.versions
  }

  lemma BegunLogged(setting: Setting, s: State, w: nat, op: Op)
    requires Logged(s) && w !in s.writers && BeginWith(s, op).Some?
    ensures Logged(Begun(s, w, op))
    ensures SameWriter(Begun(s, w, op), w, s.nextKey, BeginWith(s, op).value.base, BeginWith(s, op).value.table)
  {
    NextBegin(setting, s, w, op);
    LoggedBegin(setting, s, w, op);
    forall x | x in s.writers
      ensures s.writers[x].key != s.nextKey && s.writers[x].outer != Some(s.nextKey)
    {
      assert Placed(s, s.writers[x]);
    }
  }

  /** What is about to be published is what was begun, over the base it began with, and its part is there. */
  lemma PublishesWhatBegan(setting: Setting, s: State, w: nat, op: Op, actions: seq<Action>, t: State)
    requires Logged(s) && AboutToPublish(setting, s, w, op, actions, t)
    ensures Logged(t) && OwnAttempt(t, t.writers[w], BeginWith(s, op).value.base, BeginWith(s, op).value.table)
  {
    var b, wr := Begun(s, w, op), BeginWith(s, op).value;
    BegunLogged(setting, s, w, op);
    LoggedRun(setting, b, actions);
    SameWriterRun(setting, b, actions, w, s.nextKey, wr.base, wr.table);
  }

  // ----- exactly when an append loses nothing -----

  lemma AppendBegins(s: State, op: Op)
    requires Gapless(s) && (op.Append? || op.AppendBatches?)
    ensures BeginWith(s, op).Some?
    ensures BeginWith(s, op).value.base == |s.versions| && BeginWith(s, op).value.table == op.table
  {
    LatestIsCount(s);
  }

  /**
   An append loses nothing, exactly: begun in s and publishing later in t, whatever others did in between, its version
   extends the newest one of t, if there is one, if and only if nobody published since it began. Two first appends to
   an empty dataset are no exception: the second to publish holds its own part alone.
   */
  lemma AppendLosesNothingExactly(setting: Setting, s: State, w: nat, op: Op, actions: seq<Action>, t: State)
    requires Logged(s) && (op.Append? || op.AppendBatches?) && AboutToPublish(setting, s, w, op, actions, t)
    ensures var n := |t.versions|;
            var u := Next(setting, t, TryInsert(w)).value;
            && n + 1 in u.versions
            && (u.versions[n + 1].files == NewestFiles(t) + [s.nextKey] <==> n == |s.versions|)
  {
    AppendBegins(s, op);
    PublishesWhatBegan(setting, s, w, op, actions, t);
    PublicationExtendsExactly(setting, t, w);
  }

  /** While parts are kept, the version over the newest base reads as the newest one followed by the writer's rows. */
  lemma ExtendedReads(setting: Setting, t: State, w: nat)
    requires Inv(t) && w in t.writers && t.writers[w].stage.Trying? && t.writers[w].stage.v !in t.versions
    requires t.writers[w].base == |t.versions|
    ensures Current(Next(setting, t, TryInsert(w)).value) == Current(t) + t.writers[w].table
  {
    Publication(setting, t, w);
    PublishGapless(t.versions, Manifest(t.writers[w]));
    NothingInFront(t.writers[w].table);
  }

  lemma BaseThenOwn(s: State, t: State, w: nat)
    requires Inv(s) && Inv(t) && Keeps(s, t)
    requires w in t.writers && t.writers[w].stage.Trying? && t.writers[w].stage.v !in t.versions
    requires t.writers[w].base == |s.versions|
    ensures Current(Next(Off, t, TryInsert(w)).value) == Current(s) + t.writers[w].table
  {
    Publication(Off, t, w);
    PublishGapless(t.versions, Manifest(t.writers[w]));
    NothingInFront(t.writers[w].table);
  }

  /**
   What the rows come to, with auto-compaction off: the append's version reads as the rows it began over and then its
   own, so what others published in between is not in it; and as the newest rows and its own if nobody published.
   */
  lemma AppendReads(s: State, w: nat, op: Op, actions: seq<Action>, t: State)
    requires Reachable(Off, s) && (op.Append? || op.AppendBatches?) && AboutToPublish(Off, s, w, op, actions, t)
    ensures var u := Next(Off, t, TryInsert(w)).value;
            && Current(u) == Current(s) + op.table
            && (|t.versions| == |s.versions| ==> Current(u) == Current(t) + op.table)
  {
    ReachableIsLogged(Off, s);
    ReachableIsSafe(s);
    AppendBegins(s, op);
    PublishesWhatBegan(Off, s, w, op, actions, t);
    BegunKeeps(s, w, op, actions, t);
    BaseThenOwn(s, t, w);
    if |t.versions| == |s.versions| {
      ExtendedReads(Off, t, w);
    }
  }

  lemma BegunKeeps(s: State, w: nat, op: Op, actions: seq<Action>, t: State)
    requires Reachable(Off, s) && AboutToPublish(Off, s, w, op, actions, t)
    ensures Inv(t) && Keeps(s, t)
  {
    var b := Begun(s, w, op);
    EmptyIsSafe();
    var before :| Run(Off, EMPTY, before) == Some(s);
    RunKeeps(EMPTY, before);
    NextBegin(Off, s, w, op);
    NextKeeps(Off, s, Begin(w, op));
    NoOuterStep(s, Begin(w, op));
    RunKeeps(b, actions);
    KeepsTrans(s, b, t);
  }

  // ----- a compaction under a race -----

  /**
   A compaction rewrites its base without compare-and-set: begun in s and publishing in t, under every setting and
   whatever others published in between, it leaves the dataset reading as it did in s, in one part.
   */
  lemma CompactionRestoresItsBase(setting: Setting, s: State, w: nat, actions: seq<Action>, t: State)
    requires Logged(s) && AboutToPublish(setting, s, w, Compact, actions, t)
    ensures var u := Next(setting, t, TryInsert(w)).value;
            && |u.versions| == |t.versions| + 1 && NewestFiles(u) == [s.nextKey]
            && Current(u) == Current(s)
  {
    var wr := BeginWith(s, Compact).value;
    LatestIsCount(s);
    PublishesWhatBegan(setting, s, w, Compact, actions, t);
    OwnPartPublished(setting, t, w);
    NothingInFront(wr.table);
  }

  /** A writer with no base publishes its own part alone. */
  lemma OwnPartPublished(setting: Setting, t: State, w: nat)
    requires Logged(t) && w in t.writers && t.writers[w].stage.Trying? && t.writers[w].stage.v !in t.versions
    requires t.writers[w].base == 0 && t.writers[w].key in t.parts
    ensures var u := Next(setting, t, TryInsert(w)).value;
            && |u.versions| == |t.versions| + 1 && NewestFiles(u) == [t.writers[w].key]
            && Current(u) == [] + t.parts[t.writers[w].key]
  {
    var wr := t.writers[w];
    assert Placed(t, wr);
    NextTry(setting, t, w);
    LoggedPublish(t, w, wr);
    PublishGapless(t.versions, Manifest(wr));
    NothingInFront([wr.key]);
    OnePart(t.parts, wr.key);
  }

  lemma {:induction false} OnePart(parts: map<Key, Table>, key: Key)
    requires key in parts
    ensures Rows(parts, [key]) == [] + parts[key]
  {
    var files := [key];
    assert files[..|files| - 1] == [];
  }
}
