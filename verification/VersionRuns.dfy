/** Whole runs of the version log: safety, stability of history, compare-and-set, retries, and what is lost when. */
module VersionRuns {
  import opened Common
  import opened VersionLog

  // ----- safety over every run -----

  lemma KeepsTrans(s: State, t: State, u: State)
    requires Keeps(s, t) && Keeps(t, u)
    ensures Keeps(s, u)
  {
    forall v | v in s.versions && Stored(s.parts, s.versions[v].files)
      ensures v in u.versions && u.versions[v] == s.versions[v] && Stored(u.parts, s.versions[v].files)
      ensures Rows(u.parts, s.versions[v].files) == Rows(s.parts, s.versions[v].files)
    {
      assert v in t.versions && t.versions[v] == s.versions[v];
    }
  }

  /** No writer is about to delete a published part, or would by failing. */
  ghost predicate NoOuter(s: State) {
    forall w :: w in s.writers ==> s.writers[w].outer.None? && s.writers[w].stage != Undoing
  }

  lemma NoOuterStep(s: State, a: Action)
    requires NoOuter(s) && Next(Off, s, a).Some?
    ensures NoOuter(Next(Off, s, a).value) && !DeletesPublished(s, a)
  {
    OneWriterMoves(Off, s, a);
  }

  /**
   With auto-compaction off, along every run of any writers, failures and crashes included: the invariant
   holds, and every version ever registered reads the same rows from then on.
   */
  lemma {:induction false} RunKeeps(s: State, actions: seq<Action>)
    requires Inv(s) && NoOuter(s) && Run(Off, s, actions).Some?
    ensures var t := Run(Off, s, actions).value; Inv(t) && NoOuter(t) && Keeps(s, t)
  {
    if actions != [] {
      var k := |actions| - 1;
      RunKeeps(s, actions[..k]);
      var t := Run(Off, s, actions[..k]).value;
      NoOuterStep(t, actions[k]);
      NextKeeps(Off, t, actions[k]);
      KeepsTrans(s, t, Run(Off, s, actions).value);
    }
  }

  lemma EmptyIsSafe()
    ensures Inv(EMPTY) && NoOuter(EMPTY)
  {
  }

  lemma ReachableIsSafe(s: State)
    requires Reachable(Off, s)
    ensures Inv(s)
  {
    EmptyIsSafe();
    var actions :| Run(Off, EMPTY, actions) == Some(s);
    RunKeeps(EMPTY, actions);
  }

  // ----- compare-and-set -----

  /**
   A compare-and-set writer that publishes over base e publishes e + 1, and e was the newest version at that
   very step, so it rewrites nothing it has not read.
   */
  lemma CompareAndSet(setting: Setting, s: State, w: nat)
    requires Inv(s) && w in s.writers && s.writers[w].cas.Some? && s.writers[w].stage.Trying?
    requires s.writers[w].stage.v == s.writers[w].cas.value + 1
    ensures var wr := s.writers[w];
            var t := Next(setting, s, TryInsert(w)).value;
            && (t.versions != s.versions <==> Latest(s) == wr.cas.value)
            && (t.versions != s.versions ==> t.versions == s.versions[wr.cas.value + 1 := Manifest(wr)])
            && (t.versions == s.versions ==> t.writers[w].stage == Cleaning)
  {
    var wr := s.writers[w];
    assert WriterOk(s, wr);
    LatestIsCount(s);
    assert wr.stage.v !in s.versions ==> s.versions[wr.stage.v := Manifest(wr)] != s.versions;
  }

  /** A compare-and-set writer only ever tries the number after its base. */
  ghost predicate CasAimed(s: State) {
    forall w :: w in s.writers && s.writers[w].cas.Some? && s.writers[w].stage.Trying? ==>
      s.writers[w].stage.v == s.writers[w].cas.value + 1
  }

  lemma CasStaysAimed(setting: Setting, s: State, a: Action)
    requires CasAimed(s) && Next(setting, s, a).Some?
    ensures CasAimed(Next(setting, s, a).value)
  {
    OneWriterMoves(setting, s, a);
  }

  // ----- what a publication contains -----

  /** Publishing adds exactly one version, the next one, reading the base's rows and then the writer's own. */
  lemma Publication(setting: Setting, s: State, w: nat)
    requires Inv(s) && w in s.writers && s.writers[w].stage.Trying? && s.writers[w].stage.v !in s.versions
    ensures var wr := s.writers[w];
            var t := Next(setting, s, TryInsert(w)).value;
            && wr.stage.v == |s.versions| + 1
            && t.versions == s.versions[|s.versions| + 1 := Manifest(wr)]
            && t.parts == s.parts
            && ReadsBaseThenOwn(s, t, wr)
  {
    NextTry(setting, s, w);
    CandidateIsNext(s, w, s.writers[w]);
    ManifestReads(s, w, s.writers[w]);
    SamePartsReadTheSame(s, Insert(s, w, s.writers[w]), s.writers[w]);
  }

  lemma SamePartsReadTheSame(s: State, t: State, wr: Writer)
    requires t.parts == s.parts && ReadsBaseThenOwn(s, s, wr)
    ensures ReadsBaseThenOwn(s, t, wr)
  {
  }

  /** A writer's steps with nobody else moving, up to and including its publication. */
  function Alone(w: nat, op: Op): seq<Action> {
    Preparing(w, op) + [TryInsert(w)]
  }

  // ----- one writer's steps, one at a time -----

  /** The newest version's rows. */
  ghost function Current(s: State): Table {
    var n := |s.versions|;
    if n in s.versions && Stored(s.parts, s.versions[n].files) then Rows(s.parts, s.versions[n].files) else []
  }

  /** The state in which writer w, begun in s, has written its part and read the next number. */
  ghost function AtFirstAttempt(s: State, w: nat, wr: Writer): State {
    State(s.versions, s.parts[s.nextKey := wr.table], s.nextKey + 1,
          s.writers[w := wr.(stage := Trying(|s.versions| + 1), seen := |s.versions|)])
  }

  ghost function AfterPublishing(s: State, w: nat): State
    requires w in s.writers
  {
    State(s.versions[|s.versions| + 1 := Manifest(s.writers[w])], s.parts, s.nextKey,
          s.writers[w := s.writers[w].(stage := Committed(|s.versions| + 1))])
  }

  lemma {:induction false} RunSnoc(setting: Setting, s: State, actions: seq<Action>, a: Action)
    ensures Run(setting, s, actions + [a]) ==
            if Run(setting, s, actions).None? then None else Next(setting, Run(setting, s, actions).value, a)
  {
    assert (actions + [a])[..|actions|] == actions;
  }

  /** Begin, write the part, read the number. */
  function Preparing(w: nat, op: Op): seq<Action> {
    [Begin(w, op)] + [WritePart(w)] + [ReadNext(w)]
  }

  predicate PlainWriter(wr: Option<Writer>, key: Key) {
    wr.Some? && wr.value.tidy && wr.value.cas.None? && wr.value.key == key && wr.value.stage == Start
  }

  ghost function WithPart(s: State, w: nat, wr: Writer): State {
    State(s.versions, s.parts[s.nextKey := wr.table], s.nextKey + 1, s.writers[w := wr.(stage := Wrote)])
  }

  lemma {:induction false} BeginsAndWrites(setting: Setting, s0: State, actions: seq<Action>, s: State, w: nat, op: Op)
    requires Run(setting, s0, actions) == Some(s)
    requires w !in s.writers && PlainWriter(BeginWith(s, op), s.nextKey)
    ensures Run(setting, s0, actions + [Begin(w, op)] + [WritePart(w)]) == Some(WithPart(s, w, BeginWith(s, op).value))
  {
    var wr := BeginWith(s, op).value;
    RunSnoc(setting, s0, actions, Begin(w, op));
    var s1 := At(s, w, wr).(nextKey := s.nextKey + 1);
    NextWrite(setting, s1, w);
    RunSnoc(setting, s0, actions + [Begin(w, op)], WritePart(w));
    assert s1.writers[w := wr.(stage := Wrote)] == s.writers[w := wr.(stage := Wrote)];
  }

  lemma {:induction false} ReadsNumber(setting: Setting, s0: State, actions: seq<Action>, s: State, w: nat, wr: Writer)
    requires Run(setting, s0, actions) == Some(WithPart(s, w, wr)) && Gapless(s) && wr.cas.None?
    ensures Run(setting, s0, actions + [ReadNext(w)]) == Some(AtFirstAttempt(s, w, wr))
  {
    NumberIsNext(s, w, wr);
    NextRead(setting, WithPart(s, w, wr), w);
    RunSnoc(setting, s0, actions, ReadNext(w));
  }

  lemma NumberIsNext(s: State, w: nat, wr: Writer)
    requires Gapless(s) && wr.cas.None?
    ensures var s2 := WithPart(s, w, wr); At(s2, w, ReadNumber(s2, s2.writers[w])) == AtFirstAttempt(s, w, wr)
  {
    LatestIsCount(WithPart(s, w, wr));
    UpdateTwice(s.writers, w, WithPart(s, w, wr).writers[w], AtFirstAttempt(s, w, wr).writers[w]);
  }

  lemma {:induction false} Prepares(setting: Setting, s0: State, actions: seq<Action>, s: State, w: nat, op: Op)
    requires Run(setting, s0, actions) == Some(s) && Gapless(s)
    requires w !in s.writers && PlainWriter(BeginWith(s, op), s.nextKey)
    ensures Run(setting, s0, actions + Preparing(w, op)) == Some(AtFirstAttempt(s, w, BeginWith(s, op).value))
  {
    var two := actions + [Begin(w, op)] + [WritePart(w)];
    BeginsAndWrites(setting, s0, actions, s, w, op);
    ReadsNumber(setting, s0, two, s, w, BeginWith(s, op).value);
    assert actions + Preparing(w, op) == two + [ReadNext(w)];
  }

  lemma {:induction false} Publishes(setting: Setting, s0: State, actions: seq<Action>, s: State, w: nat)
    requires Run(setting, s0, actions) == Some(s) && Gapless(s)
    requires w in s.writers && s.writers[w].stage == Trying(|s.versions| + 1)
    ensures Run(setting, s0, actions + [TryInsert(w)]) == Some(AfterPublishing(s, w))
    ensures Gapless(AfterPublishing(s, w)) && |AfterPublishing(s, w).versions| == |s.versions| + 1
  {
    assert |s.versions| + 1 !in s.versions;
    NextTry(setting, s, w);
    RunSnoc(setting, s0, actions, TryInsert(w));
    PublishGapless(s.versions, Manifest(s.writers[w]));
  }

  /** Without clean-ups a run keeps the invariant whatever the compaction setting. */
  lemma {:induction false} CleanRunKeeps(setting: Setting, s: State, actions: seq<Action>)
    requires Inv(s) && Run(setting, s, actions).Some? && forall a :: a in actions ==> !a.CleanUp?
    ensures Inv(Run(setting, s, actions).value) && Keeps(s, Run(setting, s, actions).value)
  {
    if actions != [] {
      var k := |actions| - 1;
      CleanRunKeeps(setting, s, actions[..k]);
      var t := Run(setting, s, actions[..k]).value;
      NextKeeps(setting, t, actions[k]);
      KeepsTrans(s, t, Run(setting, s, actions).value);
    }
  }

  /** What the published manifest reads, given that its base could be read before. */
  lemma PublishedRows(parts: map<Key, Table>, files: seq<Key>, key: Key, table: Table)
    requires Stored(parts, files) && key !in files
    ensures Stored(parts[key := table], files + [key])
    ensures Rows(parts[key := table], files + [key]) == Rows(parts, files) + table
  {
    RowsFrame(parts, parts[key := table], files);
    assert (files + [key])[..|files|] == files;
  }

  ghost function Published(s: State, w: nat, wr: Writer): State {
    State(s.versions[|s.versions| + 1 := Manifest(wr)], s.parts[s.nextKey := wr.table], s.nextKey + 1,
          s.writers[w := wr.(stage := Committed(|s.versions| + 1), seen := |s.versions|)])
  }

  lemma UpdateTwice(m: map<nat, Writer>, w: nat, a: Writer, b: Writer)
    ensures m[w := a][w := b] == m[w := b]
  {
  }

  lemma {:induction false} RunsAlone(setting: Setting, s: State, w: nat, op: Op)
    requires Gapless(s) && w !in s.writers && PlainWriter(BeginWith(s, op), s.nextKey)
    ensures Run(setting, s, Alone(w, op)) == Some(Published(s, w, BeginWith(s, op).value))
  {
    var wr := BeginWith(s, op).value;
    Prepares(setting, s, [], s, w, op);
    assert [] + Preparing(w, op) == Preparing(w, op);
    FirstAttemptPublishes(s, w, wr);
    Publishes(setting, s, Preparing(w, op), AtFirstAttempt(s, w, wr), w);
  }

  lemma FirstAttemptPublishes(s: State, w: nat, wr: Writer)
    requires Gapless(s)
    ensures var p := AtFirstAttempt(s, w, wr);
            && Gapless(p) && p.writers[w].stage == Trying(|p.versions| + 1)
            && AfterPublishing(p, w) == Published(s, w, wr)
  {
    UpdateTwice(s.writers, w, AtFirstAttempt(s, w, wr).writers[w], Published(s, w, wr).writers[w]);
  }

  /** Uninterrupted, a writer publishes the next version: the rows it inherits, then its own. */
  lemma {:induction false} PublishedAlone(setting: Setting, s: State, w: nat, op: Op)
    requires Gapless(s) && w !in s.writers && PlainWriter(BeginWith(s, op), s.nextKey)
    requires var wr := BeginWith(s, op).value; Stored(s.parts, wr.inherited) && s.nextKey !in wr.inherited
    ensures var wr := BeginWith(s, op).value;
            var t := Published(s, w, wr);
            && Run(setting, s, Alone(w, op)) == Some(t)
            && |t.versions| == |s.versions| + 1 && |t.versions| in t.versions
            && Current(t) == Rows(s.parts, wr.inherited) + wr.table
  {
    var wr := BeginWith(s, op).value;
    RunsAlone(setting, s, w, op);
    PublishGapless(s.versions, Manifest(wr));
    PublishedRows(s.parts, wr.inherited, s.nextKey, wr.table);
  }

  lemma NewestExists(s: State)
    requires Inv(s) && s.versions != map[]
    ensures Latest(s) == |s.versions| && |s.versions| in s.versions && |s.versions| != 0
    ensures Stored(s.parts, s.versions[|s.versions|].files)
  {
    LatestIsCount(s);
  }

  lemma NewKeyIsUnused(s: State)
    requires Inv(s) && s.versions != map[]
    ensures |s.versions| in s.versions && s.nextKey !in s.versions[|s.versions|].files
  {
    NewestExists(s);
  }

  lemma AloneNeedsNoCleanUp(w: nat, op: Op)
    ensures forall a :: a in Alone(w, op) ==> !a.CleanUp?
  {
  }

  /**
   Sequentially, an append publishes the newest version's rows followed by the delta; on an empty dataset, the delta.
   */
  lemma AppendAlone(setting: Setting, s: State, w: nat, delta: Table) returns (t: State)
    requires Inv(s) && w !in s.writers
    ensures Run(setting, s, Alone(w, Append(delta))) == Some(t) && Inv(t) && Keeps(s, t)
    ensures |t.versions| == |s.versions| + 1 && Current(t) == Current(s) + delta
    ensures BeginWith(s, Append(delta)).Some? && t == Published(s, w, BeginWith(s, Append(delta)).value)
  {
    LatestIsCount(s);
    if s.versions != map[] {
      NewKeyIsUnused(s);
    } else {
      assert |s.versions| == 0;
    }
    PublishedAlone(setting, s, w, Append(delta));
    t := Published(s, w, BeginWith(s, Append(delta)).value);
    AloneNeedsNoCleanUp(w, Append(delta));
    CleanRunKeeps(setting, s, Alone(w, Append(delta)));
  }

  /** Sequentially, a compaction publishes the same rows as one part. */
  lemma CompactAlone(setting: Setting, s: State, w: nat) returns (t: State)
    requires Inv(s) && s.versions != map[] && w !in s.writers
    ensures Run(setting, s, Alone(w, Compact)) == Some(t) && Inv(t) && Keeps(s, t)
    ensures |t.versions| == |s.versions| + 1 && Current(t) == Current(s)
    ensures |t.versions| in t.versions && t.versions[|t.versions|].files == [s.nextKey]
  {
    NewestExists(s);
    PublishedAlone(setting, s, w, Compact);
    t := Published(s, w, BeginWith(s, Compact).value);
    AloneNeedsNoCleanUp(w, Compact);
    CleanRunKeeps(setting, s, Alone(w, Compact));
    NothingInFront(Current(s));
    NothingInFront([s.nextKey]);
  }

  /** A write publishes its own rows and nothing else. */
  lemma WriteAlone(setting: Setting, s: State, w: nat, table: Table) returns (t: State)
    requires Inv(s) && w !in s.writers
    ensures Run(setting, s, Alone(w, Write(table, None))) == Some(t) && Inv(t) && Keeps(s, t)
    ensures |t.versions| == |s.versions| + 1 && Current(t) == table
    ensures |t.versions| in t.versions && t.versions[|t.versions|].files == [s.nextKey]
    ensures t.writers.Keys == s.writers.Keys + {w}
  {
    var op := Write(table, None);
    PublishedAlone(setting, s, w, op);
    t := Published(s, w, BeginWith(s, op).value);
    AloneNeedsNoCleanUp(w, op);
    CleanRunKeeps(setting, s, Alone(w, op));
    NothingInFront(table);
    NothingInFront([s.nextKey]);
  }

  lemma NothingInFront<T>(s: seq<T>)
    ensures [] + s == s
  {
  }

  lemma {:induction false} FourSteps(setting: Setting, s: State, a: Action, b: Action, c: Action, d: Action,
      s1: State, s2: State, s3: State, s4: State)
    requires Next(setting, s, a) == Some(s1) && Next(setting, s1, b) == Some(s2)
    requires Next(setting, s2, c) == Some(s3) && Next(setting, s3, d) == Some(s4)
    ensures Run(setting, s, [a] + [b] + [c] + [d]) == Some(s4)
  {
    NothingInFront([a]);
    RunSnoc(setting, s, [], a);
    RunSnoc(setting, s, [a], b);
    RunSnoc(setting, s, [a] + [b], c);
    RunSnoc(setting, s, [a] + [b] + [c], d);
  }

  /** A write whose validation fails leaves the versions and the stored parts exactly as they were. */
  lemma {:induction false} FailedValidationLeavesNothing(setting: Setting, s: State, w: nat, table: Table,
      cas: Option<nat>)
    requires Inv(s) && w !in s.writers && s.nextKey !in s.parts
    ensures var actions := [Begin(w, Write(table, cas))] + [WritePart(w)] + [ValidateFails(w)] + [CleanUp(w)];
            var t := Run(setting, s, actions);
            t.Some? && t.value.versions == s.versions && t.value.parts == s.parts && t.value.writers[w].stage == Failed
  {
    hide Inv, Run, Next, Move;
    var op := Write(table, cas);
    var wr := BeginWith(s, op).value;
    var s1 := At(s, w, wr).(nextKey := s.nextKey + 1);
    var s2 := At(s1, w, wr.(stage := Wrote)).(parts := s.parts[s.nextKey := table]);
    var s3 := At(s2, w, wr.(stage := Cleaning));
    var s4 := At(s3, w, wr.(stage := Failed)).(parts := s.parts[s.nextKey := table] - Gone(wr));
    NextBegin(setting, s, w, op);
    NextWrite(setting, s1, w);
    NextValidateFails(setting, s2, w);
    NextCleanUp(setting, s3, w);
    FourSteps(setting, s, Begin(w, op), WritePart(w), ValidateFails(w), CleanUp(w), s1, s2, s3, s4);
    assert s4.parts == s.parts;
  }

  // ----- what concurrency loses -----

  lemma {:induction false} CollidesOnce(setting: Setting, s0: State, actions: seq<Action>, s: State, w: nat)
    requires Run(setting, s0, actions) == Some(s)
    requires w in s.writers && s.writers[w].stage.Trying? && s.writers[w].stage.v in s.versions
             && s.writers[w].cas.None?
    ensures Run(setting, s0, actions + [TryInsert(w)]) ==
            Some(s.(writers := s.writers[w := s.writers[w].(stage := Trying(s.writers[w].stage.v + 1))]))
  {
    NextTry(setting, s, w);
    RunSnoc(setting, s0, actions, TryInsert(w));
  }

  /** Two writers at their first attempt: one publishes, the other collides, retries and publishes. */
  lemma Race(s0: State, actions: seq<Action>, s: State, w: nat, x: nat) returns (t: State)
    requires Run(Off, s0, actions) == Some(s) && Gapless(s) && w != x && w in s.writers && x in s.writers
    requires s.writers[w].stage == Trying(|s.versions| + 1) && s.writers[x].stage == Trying(|s.versions| + 1)
    requires s.writers[x].cas.None?
    ensures Run(Off, s0, actions + [TryInsert(w)] + [TryInsert(x)] + [TryInsert(x)]) == Some(t)
    ensures t.parts == s.parts && |t.versions| == |s.versions| + 2
    ensures var n := |s.versions|;
            t.versions == s.versions[n + 1 := Manifest(s.writers[w])][n + 2 := Manifest(s.writers[x])]
  {
    Publishes(Off, s0, actions, s, w);
    var c1 := AfterPublishing(s, w);
    CollidesOnce(Off, s0, actions + [TryInsert(w)], c1, x);
    var c2 := c1.(writers := c1.writers[x := c1.writers[x].(stage := Trying(|s.versions| + 2))]);
    Publishes(Off, s0, actions + [TryInsert(w)] + [TryInsert(x)], c2, x);
    t := AfterPublishing(c2, x);
  }

  /**
   Appends are not compare-and-set. From any state with a version, two appends that both inherit from it may
   publish one after the other; the second collides once, retries, and its version does not hold the first's rows.
   */
  lemma ConcurrentAppendsLose(s: State, w: nat, x: nat, first: Table, second: Table)
    returns (actions: seq<Action>, t: State)
    requires Inv(s) && s.versions != map[] && w != x && w !in s.writers && x !in s.writers
    ensures Run(Off, s, actions) == Some(t)
    ensures |t.versions| == |s.versions| + 2
    ensures Current(t) == Current(s) + second
  {
    NewestExists(s);
    var a, b := BothPrepare(s, w, x, first, second);
    var both := [] + Preparing(w, Append(first)) + Preparing(x, Append(second));
    t := Race(s, both, b, w, x);
    actions := both + [TryInsert(w)] + [TryInsert(x)] + [TryInsert(x)];
    SecondReads(s, t, first, second);
  }

  /** A version that extends the newest of s by the part after the next reads as that version and the part. */
  lemma SecondReads(s: State, t: State, first: Table, second: Table)
    requires Inv(s) && |s.versions| in s.versions && |t.versions| in t.versions
    requires t.versions[|t.versions|].files == s.versions[|s.versions|].files + [s.nextKey + 1]
    requires t.parts == s.parts[s.nextKey := first][s.nextKey + 1 := second]
    ensures Current(t) == Current(s) + second
  {
    var files := s.versions[|s.versions|].files;
    NewKeysAreUnused(s);
    RowsFrame(s.parts, s.parts[s.nextKey := first], files);
    PublishedRows(s.parts[s.nextKey := first], files, s.nextKey + 1, second);
  }

  lemma BothPrepare(s: State, w: nat, x: nat, first: Table, second: Table) returns (a: State, b: State)
    requires Gapless(s) && Latest(s) == |s.versions| && |s.versions| in s.versions && |s.versions| != 0
    requires w != x && w !in s.writers && x !in s.writers
    ensures var both := [] + Preparing(w, Append(first)) + Preparing(x, Append(second));
            Run(Off, s, both) == Some(b)
    ensures a.parts == s.parts[s.nextKey := first] && b.parts == a.parts[s.nextKey + 1 := second]
            && b.versions == s.versions
    ensures w in b.writers && x in b.writers
    ensures b.writers[w].stage == Trying(|s.versions| + 1) && b.writers[x].stage == Trying(|s.versions| + 1)
    ensures b.writers[x].cas.None? && Manifest(b.writers[x]).files == s.versions[|s.versions|].files + [s.nextKey + 1]
  {
    Prepares(Off, s, [], s, w, Append(first));
    a := AtFirstAttempt(s, w, BeginWith(s, Append(first)).value);
    assert Latest(a) == Latest(s);
    Prepares(Off, s, [] + Preparing(w, Append(first)), a, x, Append(second));
    b := AtFirstAttempt(a, x, BeginWith(a, Append(second)).value);
  }

  lemma NewKeysAreUnused(s: State)
    requires Inv(s) && s.versions != map[]
    ensures |s.versions| in s.versions
    ensures s.nextKey !in s.versions[|s.versions|].files && s.nextKey + 1 !in s.versions[|s.versions|].files
  {
    NewestExists(s);
  }

  // ----- what a raising compaction breaks -----

  lemma {:induction false} RunConcat(setting: Setting, s: State, a: seq<Action>, b: seq<Action>)
    requires Run(setting, s, a).Some?
    ensures Run(setting, s, a + b) == Run(setting, Run(setting, s, a).value, b)
  {
    if b == [] {
      assert a + b == a;
    } else {
      var k := |b| - 1;
      RunConcat(setting, s, a, b[..k]);
      assert a + b == (a + b[..k]) + [b[k]];
      RunSnoc(setting, s, a + b[..k], b[k]);
    }
  }

  lemma {:induction false} ReachableOnward(setting: Setting, s: State, more: seq<Action>, t: State)
    requires Reachable(setting, s) && Run(setting, s, more) == Some(t)
    ensures Reachable(setting, t)
  {
    var actions :| Run(setting, EMPTY, actions) == Some(s);
    RunConcat(setting, EMPTY, actions, more);
  }

  ghost predicate Grown(setting: Setting, m: nat, s: State) {
    && Reachable(setting, s) && Inv(s)
    && |s.versions| in s.versions && |s.versions[|s.versions|].files| == m
    && forall w :: w in s.writers ==> w < m
  }

  lemma GrowFirst(setting: Setting) returns (s: State)
    ensures Grown(setting, 1, s)
  {
    EmptyIsSafe();
    assert Run(setting, EMPTY, []) == Some(EMPTY);
    s := WriteAlone(setting, EMPTY, 0, []);
    ReachableOnward(setting, EMPTY, Alone(0, Write([], None)), s);
  }

  lemma GrowOnce(setting: Setting, m: nat, s: State) returns (t: State)
    requires Grown(setting, m, s) && m > 0
    ensures Grown(setting, m + 1, t)
    ensures m in t.writers && t.writers[m].stage.Committed? && t.writers[m].mayCompact && t.writers[m].tidy
    ensures |t.writers[m].inherited| == m && t.writers[m].key in t.versions[|t.versions|].files
  {
    NewestExists(s);
    t := AppendAlone(setting, s, m, []);
    ReachableOnward(setting, s, Alone(m, Append([])), t);
    var wr := BeginWith(s, Append([])).value;
    PublishGapless(s.versions, Manifest(wr));
    assert t.versions[|t.versions|] == Manifest(wr);
    assert Manifest(wr).files[m] == wr.key;
  }

  /** A newest version of any number of parts can be reached by one write and then appends. */
  lemma {:induction false} GrowParts(setting: Setting, m: nat) returns (s: State)
    requires m > 0
    ensures Grown(setting, m, s)
  {
    if m == 1 {
      s := GrowFirst(setting);
    } else {
      var before := GrowParts(setting, m - 1);
      s := GrowOnce(setting, m - 1, before);
    }
  }

  /** The three steps that leave a registered version unreadable: compaction starts, raises, and is cleaned up. */
  lemma {:induction false} CompactionTakesPart(parts: Positive, s: State, w: nat, nested: Writer)
    requires w in s.writers && s.writers[w].stage.Committed? && s.writers[w].mayCompact && s.writers[w].tidy
    requires parts <= |s.writers[w].inherited| + 1
    requires CompactWith(s, Some(s.writers[w].key)) == Some(nested)
    ensures var t := Run(FromParts(parts), s, [AfterCommit(w)] + [WriteFails(w, None)] + [CleanUp(w)]);
            t.Some? && t.value.versions == s.versions && s.writers[w].key !in t.value.parts
  {
    var setting := FromParts(parts);
    RunSnoc(setting, s, [], AfterCommit(w));
    NothingInFront([AfterCommit(w)]);
    RunSnoc(setting, s, [AfterCommit(w)], WriteFails(w, None));
    RunSnoc(setting, s, [AfterCommit(w)] + [WriteFails(w, None)], CleanUp(w));
    NextNested(setting, s, w, nested);
    var s1 := At(s, w, nested).(nextKey := s.nextKey + 1);
    NextWriteFails(setting, s1, w);
    NextCleanUp(setting, At(s1, w, nested.(stage := Cleaning)), w);
  }

  /** A setting that is no number raises right after publication, and the same clean-up follows. */
  lemma {:induction false} SettingTakesPart(s: State, w: nat)
    requires w in s.writers && s.writers[w].stage.Committed? && s.writers[w].mayCompact && s.writers[w].tidy
    ensures var t := Run(Unreadable, s, [AfterCommit(w)] + [CleanUp(w)]);
            t.Some? && t.value.versions == s.versions && s.writers[w].key !in t.value.parts
  {
    RunSnoc(Unreadable, s, [], AfterCommit(w));
    NothingInFront([AfterCommit(w)]);
    RunSnoc(Unreadable, s, [AfterCommit(w)], CleanUp(w));
    NextUndo(s, w);
    NextCleanUp(Unreadable, At(s, w, s.writers[w].(stage := Undoing)), w);
  }

  lemma DanglingIsReachable(setting: Setting) returns (t: State)
    requires !setting.Off?
    ensures Reachable(setting, t) && !Readable(t)
  {
    var m: nat := if setting.FromParts? then setting.parts else 1;
    var before := GrowParts(setting, m);
    var s := GrowOnce(setting, m, before);
    NewestExists(s);
    var wr := s.writers[m];
    if setting.FromParts? {
      CompactionTakesPart(m, s, m, CompactWith(s, Some(wr.key)).value);
      t := Run(setting, s, [AfterCommit(m)] + [WriteFails(m, None)] + [CleanUp(m)]).value;
      ReachableOnward(setting, s, [AfterCommit(m)] + [WriteFails(m, None)] + [CleanUp(m)], t);
    } else {
      SettingTakesPart(s, m);
      t := Run(setting, s, [AfterCommit(m)] + [CleanUp(m)]).value;
      ReachableOnward(setting, s, [AfterCommit(m)] + [CleanUp(m)], t);
    }
    assert |s.versions| in t.versions;
  }

  /**
   "A registered version is never missing" holds over all runs exactly when auto-compaction is off: with any number
   of parts there is a run in which a compaction that raises inside `append` deletes a published part, and with a
   setting that is no number every append that publishes can do so.
   */
  lemma NoDanglingIffCompactionOff(setting: Setting)
    ensures (forall s :: Reachable(setting, s) ==> Readable(s)) <==> setting.Off?
  {
    if setting.Off? {
      forall s | Reachable(setting, s)
        ensures Readable(s)
      {
        ReachableIsSafe(s);
      }
    } else {
      var t := DanglingIsReachable(setting);
    }
  }
}
