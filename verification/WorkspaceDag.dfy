/**
 Saving a flow into a workspace of transforms: the name checks, and the walk that refuses a flow whose result
 would feed back into itself.
 */
module WorkspaceDag {
  import opened Common
  import opened Graphs

  datatype Kind = Flow | Code

  datatype Transform = Transform(name: string, kind: Kind, sources: seq<string>)

  /** The transforms of a workspace by the dataset each one produces. */
  type Registry = map<string, Transform>

  datatype Refusal = NameTaken | FeedsItself

  /** What collecting the transforms demands: one name each, and a flow is named after its output. */
  ghost predicate Collects(reg: Registry) {
    && (forall d, d' :: d in reg && d' in reg && reg[d].name == reg[d'].name ==> d == d')
    && (forall d :: d in reg && reg[d].kind == Flow ==> reg[d].name == d)
  }

  /** Dataset to the datasets it is built from. */
  function Dag(reg: Registry): Graph {
    map d | d in reg :: reg[d].sources
  }

  // ----- the walk -----

  /** Walk one dataset's producer; None is the refusal. `reg` already holds the new flow in place of the old. */
  function Search(reg: Registry, target: string, name: string, seen: set<string>): (r: Option<set<string>>)
    ensures r.Some? ==> seen <= r.value
    decreases ProducerNames(reg) - seen, 0
  {
    if name !in reg || reg[name].name in seen then Some(seen)
    else
      assert reg[name].name in ProducerNames(reg) - seen;
      SearchSources(reg, target, reg[name].sources, seen + {reg[name].name})
  }

  function SearchSources(reg: Registry, target: string, sources: seq<string>,
                         seen: set<string>): (r: Option<set<string>>)
    ensures r.Some? ==> seen <= r.value
    decreases ProducerNames(reg) - seen, 1 + |sources|
  {
    if sources == [] then Some(seen)
    else if sources[0] == target then None
    else
      match Search(reg, target, sources[0], seen)
      case None => None
      case Some(seen') =>
        assert ProducerNames(reg) - seen' <= ProducerNames(reg) - seen;
        SearchSources(reg, target, sources[1..], seen')
  }

  function ProducerNames(reg: Registry): set<string> {
    set d | d in reg :: reg[d].name
  }

  lemma {:induction false} RefusalIsACycle(reg: Registry, target: string, name: string, seen: set<string>)
    requires Reaches(Dag(reg), target, name)
    ensures Search(reg, target, name, seen).None? ==> OnCycle(Dag(reg), target)
    decreases ProducerNames(reg) - seen, 0
  {
    if name in reg && reg[name].name !in seen {
      assert reg[name].name in ProducerNames(reg) - seen;
      SourcesRefusalIsACycle(reg, target, name, reg[name].sources, seen + {reg[name].name});
    }
  }

  lemma {:induction false} SourcesRefusalIsACycle(reg: Registry, target: string, name: string, sources: seq<string>,
      seen: set<string>)
    requires Reaches(Dag(reg), target, name)
    requires forall s :: s in sources ==> Edge(Dag(reg), name, s)
    ensures SearchSources(reg, target, sources, seen).None? ==> OnCycle(Dag(reg), target)
    decreases ProducerNames(reg) - seen, 1 + |sources|
  {
    if sources != [] {
      var g, s := Dag(reg), sources[0];
      EdgeReaches(g, name, s);
      if s == target {
        ReachesFeeds(g, target, name, target);
      } else {
        ReachesTrans(g, target, name, s);
        RefusalIsACycle(reg, target, s, seen);
        match Search(reg, target, s, seen)
        case None =>
        case Some(seen') =>
          assert ProducerNames(reg) - seen' <= ProducerNames(reg) - seen;
          SourcesRefusalIsACycle(reg, target, name, sources[1..], seen');
      }
    }
  }

  /** A dataset with no producer, or one whose producer has been walked. */
  ghost predicate Settled(reg: Registry, d: string, seen: set<string>) {
    d !in reg || reg[d].name in seen
  }

  ghost predicate AllSettled(reg: Registry, target: string, sources: seq<string>, seen: set<string>) {
    forall s :: s in sources ==> s != target && Settled(reg, s, seen)
  }

  /** Everything walked between `before` and `after` has sources that are settled and are not the target. */
  ghost predicate Explored(reg: Registry, target: string, before: set<string>, after: set<string>) {
    forall d :: d in reg && reg[d].name in after && reg[d].name !in before ==>
      AllSettled(reg, target, reg[d].sources, after)
  }

  lemma {:induction false} SearchExplores(reg: Registry, target: string, name: string, seen: set<string>)
    requires Collects(reg)
    ensures var r := Search(reg, target, name, seen);
            r.Some? ==> Explored(reg, target, seen, r.value) && Settled(reg, name, r.value)
    decreases ProducerNames(reg) - seen, 0
  {
    if name in reg && reg[name].name !in seen {
      assert reg[name].name in ProducerNames(reg) - seen;
      SearchSourcesExplores(reg, target, reg[name].sources, seen + {reg[name].name});
      var r := Search(reg, target, name, seen);
      if r.Some? {
        forall d | d in reg && reg[d].name in r.value && reg[d].name !in seen
          ensures AllSettled(reg, target, reg[d].sources, r.value)
        {
          if reg[d].name == reg[name].name {
            assert d == name;
          }
        }
      }
    }
  }

  lemma {:induction false} SearchSourcesExplores(reg: Registry, target: string, sources: seq<string>, seen: set<string>)
    requires Collects(reg)
    ensures var r := SearchSources(reg, target, sources, seen);
            r.Some? ==> Explored(reg, target, seen, r.value) && AllSettled(reg, target, sources, r.value)
    decreases ProducerNames(reg) - seen, 1 + |sources|
  {
    if sources != [] && sources[0] != target {
      SearchExplores(reg, target, sources[0], seen);
      match Search(reg, target, sources[0], seen)
      case None =>
      case Some(seen') =>
        assert ProducerNames(reg) - seen' <= ProducerNames(reg) - seen;
        SearchSourcesExplores(reg, target, sources[1..], seen');
        var r := SearchSources(reg, target, sources[1..], seen');
        if r.Some? {
          SettledStays(reg, target, sources, seen, seen', r.value);
        }
    }
  }

  lemma SettledStays(reg: Registry, target: string, sources: seq<string>, s0: set<string>, s1: set<string>,
                     s2: set<string>)
    requires sources != [] && sources[0] != target && s0 <= s1 <= s2 && Settled(reg, sources[0], s1)
    requires Explored(reg, target, s0, s1) && Explored(reg, target, s1, s2)
    requires AllSettled(reg, target, sources[1..], s2)
    ensures Explored(reg, target, s0, s2) && AllSettled(reg, target, sources, s2)
  {
    forall s | s in sources
      ensures s != target && Settled(reg, s, s2)
    {
      assert s == sources[0] || s in sources[1..];
    }
    forall d | d in reg && reg[d].name in s2 && reg[d].name !in s0
      ensures AllSettled(reg, target, reg[d].sources, s2)
    {
      if reg[d].name in s1 {
        assert AllSettled(reg, target, reg[d].sources, s1);
      }
    }
  }

  lemma {:induction false} ExploredPathAvoids(reg: Registry, target: string, seen: set<string>, p: seq<string>)
    requires Explored(reg, target, {}, seen) && IsPath(Dag(reg), p) && |p| > 1 && Settled(reg, p[0], seen)
    ensures p[|p| - 1] != target
  {
    assert Edge(Dag(reg), p[0], p[1]);
    assert p[1] in reg[p[0]].sources;
    assert AllSettled(reg, target, reg[p[0]].sources, seen);
    if |p| > 2 {
      ExploredPathAvoids(reg, target, seen, p[1..]);
    }
  }

  /** The refusal is exact: it comes if and only if the flow's output can reach itself through producers. */
  lemma {:induction false} RefusalExact(reg: Registry, target: string)
    requires Collects(reg)
    ensures Search(reg, target, target, {}).None? <==> OnCycle(Dag(reg), target)
  {
    var g := Dag(reg);
    ReachesSelf(g, target);
    RefusalIsACycle(reg, target, target, {});
    var r := Search(reg, target, target, {});
    if r.Some? && OnCycle(g, target) {
      SearchExplores(reg, target, target, {});
      var w :| Edge(g, target, w) && Reaches(g, w, target);
      var p :| PathBetween(g, p, w, target);
      assert ([target] + p)[1..] == p;
      ExploredPathAvoids(reg, target, r.value, [target] + p);
    }
  }

  /** The nested visitor as the source runs it: one shared set of producer names, grown as the walk goes. */
  class CycleCheck {
    const reg: Registry
    const target: string
    var seen: set<string>

    constructor (reg: Registry, target: string)
      ensures this.reg == reg && this.target == target && seen == {}
    {
      this.reg := reg;
      this.target := target;
      seen := {};
    }

    method Visit(name: string) returns (refused: bool)
      modifies this
      ensures refused <==> Search(reg, target, name, old(seen)).None?
      ensures !refused ==> Search(reg, target, name, old(seen)) == Some(seen)
      decreases ProducerNames(reg) - seen
    {
      if name !in reg {
        return false;
      }
      var producer := reg[name];
      if producer.name in seen {
        return false;
      }
      assert producer.name in ProducerNames(reg) - seen;
      seen := seen + {producer.name};
      ghost var started := seen;
      var i := 0;
      while i < |producer.sources|
        invariant 0 <= i <= |producer.sources|
        invariant started <= seen
        invariant SearchSources(reg, target, producer.sources, started)
                  == SearchSources(reg, target, producer.sources[i..], seen)
      {
        var source := producer.sources[i];
        assert producer.sources[i..][1..] == producer.sources[i + 1..];
        if source == target {
          return true;
        }
        var hit := Visit(source);
        if hit {
          return true;
        }
        i := i + 1;
      }
      return false;
    }
  }

  // ----- saving and deleting flows -----

  /** Whether a save may go where `existing` stands: nothing there, or the flow it replaces. */
  predicate MayReplace(reg: Registry, name: string) {
    if name in reg then reg[name].kind == Flow && reg[name].name == name
    else forall d :: d in reg && reg[d].name == name ==> reg[d].kind == Flow
  }

  function Saved(reg: Registry, name: string, sources: seq<string>): Registry {
    reg[name := Transform(name, Flow, sources)]
  }

  function SaveFlow(reg: Registry, name: string, sources: seq<string>): Result<Registry, Refusal> {
    if !MayReplace(reg, name) then Err(NameTaken)
    else if Search(Saved(reg, name, sources), name, name, {}).None? then Err(FeedsItself)
    else Ok(Saved(reg, name, sources))
  }

  /** Takes away the flow at that output, if there is one, and nothing else. */
  function DeleteFlow(reg: Registry, name: string): (r: Registry)
    ensures forall d :: d in r <==> d in reg && !(d == name && reg[d].kind == Flow)
    ensures forall d :: d in r ==> r[d] == reg[d]
  {
    if name in reg && reg[name].kind == Flow then reg - {name} else reg
  }

  lemma SavedCollects(reg: Registry, name: string, sources: seq<string>)
    requires Collects(reg) && MayReplace(reg, name)
    ensures Collects(Saved(reg, name, sources))
  {
    forall d | d in reg && reg[d].name == name
      ensures d == name
    {
    }
  }

  /** Splitting a closed walk at one of its nodes: that node is on a cycle too. */
  lemma {:induction false} PathThrough(g: Graph, p: seq<string>, k: nat)
    requires IsPath(g, p) && k < |p|
    ensures Reaches(g, p[0], p[k]) && Reaches(g, p[k], p[|p| - 1])
  {
    if k == 0 {
      ReachesSelf(g, p[0]);
      assert PathBetween(g, p, p[0], p[|p| - 1]);
    } else {
      PathThrough(g, p[1..], k - 1);
      EdgeThenReaches(g, p[0], p[1], p[k]);
    }
  }

  lemma {:induction false} PathElsewhere(g: Graph, h: Graph, t: string, p: seq<string>)
    requires IsPath(h, p) && t !in p
    requires forall u, v :: u != t && Edge(h, u, v) ==> Edge(g, u, v)
    ensures IsPath(g, p)
  {
    if |p| > 1 {
      PathElsewhere(g, h, t, p[1..]);
    }
  }

  lemma CycleFound(g: Graph, u: string, w: string)
    requires Edge(g, u, w) && Reaches(g, w, u)
    ensures OnCycle(g, u)
  {
  }

  /** Only the edges out of one node changed and that node is on no cycle: no cycle is new. */
  lemma NoNewCycle(g: Graph, h: Graph, t: string)
    requires Acyclic(g) && !OnCycle(h, t)
    requires forall u, v :: u != t && Edge(h, u, v) ==> Edge(g, u, v)
    ensures Acyclic(h)
  {
    forall u
      ensures !OnCycle(h, u)
    {
      if OnCycle(h, u) {
        var w :| Edge(h, u, w) && Reaches(h, w, u);
        var p :| PathBetween(h, p, w, u);
        if t in p {
          var k :| 0 <= k < |p| && p[k] == t;
          PathThrough(h, p, k);
          EdgeThenReaches(h, u, w, t);
          EdgeReaches(h, u, w);
          FeedsReaches(h, u, w, t);
          ReachesFeeds(h, t, u, t);
          assert false;
        } else {
          PathElsewhere(g, h, t, p);
          assert u in p;
          assert PathBetween(g, p, w, u);
          CycleFound(g, u, w);
          assert false;
        }
      }
    }
  }

  /**
   An accepted save keeps the registry collectable and the workspace free of cycles; a save past the name check
   is refused exactly when the new flow closes one.
   */
  lemma SaveKeepsDag(reg: Registry, name: string, sources: seq<string>)
    requires Collects(reg) && Acyclic(Dag(reg)) && MayReplace(reg, name)
    ensures Collects(Saved(reg, name, sources))
    ensures SaveFlow(reg, name, sources).Ok? <==> Acyclic(Dag(Saved(reg, name, sources)))
  {
    SavedCollects(reg, name, sources);
    var reg' := Saved(reg, name, sources);
    RefusalExact(reg', name);
    if SaveFlow(reg, name, sources).Ok? {
      NoNewCycle(Dag(reg), Dag(reg'), name);
    } else {
      assert OnCycle(Dag(reg'), name);
    }
  }

  lemma DeleteKeepsDag(reg: Registry, name: string)
    requires Collects(reg) && Acyclic(Dag(reg))
    ensures Collects(DeleteFlow(reg, name)) && Acyclic(Dag(DeleteFlow(reg, name)))
  {
    var h := Dag(DeleteFlow(reg, name));
    if h != Dag(reg) {
      assert forall v :: !Edge(h, name, v);
      assert !OnCycle(h, name);
      NoNewCycle(Dag(reg), h, name);
    }
  }

  // ----- one request, in the registry's own terms -----

  /** A way round: every dataset on it is built, and from the next one. */
  ghost predicate Round(reg: Registry, p: seq<string>) {
    && |p| > 1 && p[0] == p[|p| - 1]
    && forall i :: 0 <= i < |p| - 1 ==> p[i] in reg && p[i + 1] in reg[p[i]].sources
  }

  lemma {:induction false} AcyclicHasNoRound(reg: Registry)
    ensures Acyclic(Dag(reg)) <==> forall p :: !Round(reg, p)
  {
    var g := Dag(reg);
    forall p | Round(reg, p)
      ensures OnCycle(g, p[0])
    {
      PathExactly(g, p);
      assert PathBetween(g, p[1..], p[1], p[0]);
    }
    forall u | OnCycle(g, u)
      ensures exists p :: Round(reg, p)
    {
      var w :| Edge(g, u, w) && Reaches(g, w, u);
      var q :| PathBetween(g, q, w, u);
      assert ([u] + q)[1..] == q;
      PathExactly(g, [u] + q);
      assert Round(reg, [u] + q);
    }
  }

  /** Whatever stands at the output or has the name is the very flow that is saved. */
  ghost predicate Free(reg: Registry, name: string) {
    forall d :: d in reg && (d == name || reg[d].name == name) ==> d == name && reg[d].kind == Flow
  }

  /**
   A save, in full: refused by name unless the output and the name are free or the flow's own; refused as a cycle
   exactly when the workspace with the flow in it would hold one; otherwise the flow stands at its output and
   nothing else changed.
   */
  lemma {:induction false} SaveExactly(reg: Registry, name: string, sources: seq<string>, next: Registry)
    requires Collects(reg) && Acyclic(Dag(reg))
    requires next.Keys == reg.Keys + {name} && next[name] == Transform(name, Flow, sources)
    requires forall d :: d in reg && d != name ==> next[d] == reg[d]
    ensures SaveFlow(reg, name, sources)
            == if !Free(reg, name) then Err(NameTaken)
               else if exists p :: Round(next, p) then Err(FeedsItself)
               else Ok(next)
  {
    assert next == Saved(reg, name, sources);
    assert Free(reg, name) <==> MayReplace(reg, name);
    AcyclicHasNoRound(next);
    if MayReplace(reg, name) {
      SaveKeepsDag(reg, name, sources);
    }
  }

  datatype Request = Put(name: string, sources: seq<string>) | Delete(name: string)

  function After(reg: Registry, requests: seq<Request>): Registry
    decreases |requests|
  {
    if requests == [] then reg
    else
      After(match requests[0]
            case Put(name, sources) => var r := SaveFlow(reg, name, sources); if r.Ok? then r.value else reg
            case Delete(name) => DeleteFlow(reg, name),
            requests[1..])
  }

  /** However many flows are saved, replaced and deleted, the workspace stays buildable. */
  lemma {:induction false} RunKeepsDag(reg: Registry, requests: seq<Request>)
    requires Collects(reg) && Acyclic(Dag(reg))
    ensures Collects(After(reg, requests)) && Acyclic(Dag(After(reg, requests)))
    decreases |requests|
  {
    if requests != [] {
      match requests[0]
      case Put(name, sources) =>
        if SaveFlow(reg, name, sources).Ok? {
          SaveKeepsDag(reg, name, sources);
          RunKeepsDag(Saved(reg, name, sources), requests[1..]);
        } else {
          RunKeepsDag(reg, requests[1..]);
        }
      case Delete(name) =>
        DeleteKeepsDag(reg, name);
        RunKeepsDag(DeleteFlow(reg, name), requests[1..]);
    }
  }

  /**
   Why the name check must come first: with a code transform of the flow's name elsewhere, the walk takes that
   transform for the flow already seen and lets a cycle through.
   */
  lemma SharedNameHidesACycle()
    ensures var reg: Registry := map["f" := Transform("f", Flow, ["a"]), "a" := Transform("f", Code, ["f"])];
            OnCycle(Dag(reg), "f") && Search(reg, "f", "f", {}).Some?
  {
    var reg: Registry := map["f" := Transform("f", Flow, ["a"]), "a" := Transform("f", Code, ["f"])];
    var g := Dag(reg);
    assert Edge(g, "f", "a") && Edge(g, "a", "f");
    EdgeReaches(g, "a", "f");
    assert Feeds(g, "f", "f");
    assert SearchSources(reg, "f", ["a"], {"f"}) == Some({"f"}) by {
      assert ["a"][1..] == [];
    }
    assert {} + {"f"} == {"f"};
  }
}
