/**
 Directed graphs as adjacency lists, and the three-colour depth-first walk that both the cell compiler
 and the flow validator run. The walk is written twice: as the class whose methods recolour nodes in
 place, and as the function that says what those methods compute.
 */
module Graphs {
  import opened Common

  type Graph = map<string, seq<string>>

  ghost predicate Edge(g: Graph, u: string, v: string) {
    u in g && v in g[u]
  }

  ghost predicate IsPath(g: Graph, p: seq<string>) {
    |p| > 0 && (|p| > 1 ==> Edge(g, p[0], p[1]) && IsPath(g, p[1..]))
  }

  ghost predicate PathBetween(g: Graph, p: seq<string>, u: string, v: string) {
    IsPath(g, p) && p[0] == u && p[|p| - 1] == v
  }

  /** v can be reached from u in zero or more steps. */
  ghost predicate Reaches(g: Graph, u: string, v: string) {
    exists p :: PathBetween(g, p, u, v)
  }

  /** v can be reached from u in one or more steps. */
  ghost predicate Feeds(g: Graph, u: string, v: string) {
    exists w :: Edge(g, u, w) && Reaches(g, w, v)
  }

  ghost predicate OnCycle(g: Graph, u: string) {
    Feeds(g, u, u)
  }

  ghost predicate Acyclic(g: Graph) {
    forall u :: !OnCycle(g, u)
  }

  // ----- paths -----

  lemma ReachesSelf(g: Graph, u: string)
    ensures Reaches(g, u, u)
  {
    assert PathBetween(g, [u], u, u);
  }

  lemma {:induction false} PathExactly(g: Graph, p: seq<string>)
    requires |p| > 0
    ensures IsPath(g, p) <==> forall i :: 0 <= i < |p| - 1 ==> p[i] in g && p[i + 1] in g[p[i]]
  {
    if |p| > 1 {
      var rest := p[1..];
      PathExactly(g, rest);
      if IsPath(g, p) {
        forall i | 0 <= i < |p| - 1
          ensures p[i] in g && p[i + 1] in g[p[i]]
        {
          if i > 0 {
            assert rest[i - 1] in g && rest[i] in g[rest[i - 1]];
          }
        }
      } else if Edge(g, p[0], p[1]) {
        var i :| 0 <= i < |rest| - 1 && !(rest[i] in g && rest[i + 1] in g[rest[i]]);
        assert rest[i] == p[i + 1] && rest[i + 1] == p[i + 2];
      }
    }
  }

  lemma {:induction false} PathAppend(g: Graph, p: seq<string>, q: seq<string>)
    requires IsPath(g, p) && IsPath(g, q) && p[|p| - 1] == q[0]
    ensures IsPath(g, p + q[1..])
  {
    if |p| == 1 {
      assert p + q[1..] == q;
    } else {
      PathAppend(g, p[1..], q);
      assert (p + q[1..])[1..] == p[1..] + q[1..];
    }
  }

  lemma ReachesTrans(g: Graph, u: string, v: string, w: string)
    requires Reaches(g, u, v) && Reaches(g, v, w)
    ensures Reaches(g, u, w)
  {
    var p :| PathBetween(g, p, u, v);
    var q :| PathBetween(g, q, v, w);
    PathAppend(g, p, q);
    assert PathBetween(g, p + q[1..], u, w);
  }

  lemma EdgeReaches(g: Graph, u: string, v: string)
    requires Edge(g, u, v)
    ensures Reaches(g, u, v)
    ensures Feeds(g, u, v)
  {
    ReachesSelf(g, v);
    assert [u, v][1..] == [v];
    assert PathBetween(g, [u, v], u, v);
  }

  lemma EdgeThenReaches(g: Graph, u: string, v: string, w: string)
    requires Edge(g, u, v) && Reaches(g, v, w)
    ensures Reaches(g, u, w)
  {
    EdgeReaches(g, u, v);
    ReachesTrans(g, u, v, w);
  }

  /** A path of two or more nodes starts with an edge. */
  lemma ReachesStep(g: Graph, u: string, v: string)
    requires Reaches(g, u, v) && u != v
    ensures Feeds(g, u, v)
  {
    var p :| PathBetween(g, p, u, v);
    assert PathBetween(g, p[1..], p[1], v);
  }

  lemma FeedsReaches(g: Graph, u: string, v: string, w: string)
    requires Feeds(g, u, v) && Reaches(g, v, w)
    ensures Feeds(g, u, w)
  {
    var x :| Edge(g, u, x) && Reaches(g, x, v);
    ReachesTrans(g, x, v, w);
  }

  lemma ReachesFeeds(g: Graph, u: string, v: string, w: string)
    requires Reaches(g, u, v) && Feeds(g, v, w)
    ensures Feeds(g, u, w)
  {
    if u != v {
      ReachesStep(g, u, v);
      var x :| Edge(g, v, x) && Reaches(g, x, w);
      EdgeThenReaches(g, v, x, w);
      FeedsReaches(g, u, v, w);
    }
  }

  // ----- closed sets and topological orders -----

  ghost predicate Closed(g: Graph, s: set<string>) {
    forall u, v :: u in s && Edge(g, u, v) ==> v in s
  }

  lemma {:induction false} ClosedKeepsPath(g: Graph, s: set<string>, p: seq<string>)
    requires Closed(g, s) && IsPath(g, p) && p[0] in s
    ensures p[|p| - 1] in s
  {
    if |p| > 1 {
      ClosedKeepsPath(g, s, p[1..]);
    }
  }

  lemma ClosedKeepsReach(g: Graph, s: set<string>, u: string, v: string)
    requires Closed(g, s) && u in s && Reaches(g, u, v)
    ensures v in s
  {
    var p :| PathBetween(g, p, u, v);
    ClosedKeepsPath(g, s, p);
  }

  function Elements(s: seq<string>): set<string> {
    set x | x in s
  }

  /** Every successor of a listed node is listed before it. */
  ghost predicate Topological(g: Graph, order: seq<string>) {
    forall i, v :: 0 <= i < |order| && Edge(g, order[i], v) ==> v in order[..i]
  }

  lemma TopologicalIsClosed(g: Graph, order: seq<string>)
    requires Topological(g, order)
    ensures Closed(g, Elements(order))
  {
    forall u, v | u in Elements(order) && Edge(g, u, v)
      ensures v in Elements(order)
    {
      var i :| 0 <= i < |order| && order[i] == u;
      assert v in order[..i];
    }
  }

  lemma {:induction false} PathDescends(g: Graph, order: seq<string>, p: seq<string>, i: nat) returns (j: nat)
    requires Topological(g, order) && IsPath(g, p) && i < |order| && order[i] == p[0]
    ensures j <= i && order[j] == p[|p| - 1]
    ensures |p| > 1 ==> j < i
  {
    if |p| == 1 {
      j := i;
    } else {
      assert Edge(g, order[i], p[1]);
      var k :| 0 <= k < i && order[k] == p[1];
      j := PathDescends(g, order, p[1..], k);
    }
  }

  lemma TopologicalIsAcyclic(g: Graph, order: seq<string>, u: string)
    requires Topological(g, order) && Distinct(order) && u in order
    ensures !OnCycle(g, u)
  {
    if OnCycle(g, u) {
      var v :| Edge(g, u, v) && Reaches(g, v, u);
      var p :| PathBetween(g, p, v, u);
      var i :| 0 <= i < |order| && order[i] == u;
      assert ([u] + p)[1..] == p;
      var j := PathDescends(g, order, [u] + p, i);
      assert false;
    }
  }

  // ----- the depth-first walk -----

  datatype Colour = Visiting | Done

  datatype Walk = Walk(state: map<string, Colour>, order: seq<string>)

  /** Why a walk stopped: an id that is no node of the graph, or a node met again while still being visited. */
  datatype Stop = Missing(id: string, wantedBy: string) | Loop(id: string, wantedBy: string)

  function Visit(g: Graph, id: string, wantedBy: string, w: Walk): (r: Result<Walk, Stop>)
    ensures r.Ok? ==> w.state.Keys <= r.value.state.Keys
    decreases g.Keys - w.state.Keys, 0
  {
    if id !in g then Err(Missing(id, wantedBy))
    else if id in w.state then
      (if w.state[id] == Done then Ok(w) else Err(Loop(id, wantedBy)))
    else
      assert id in g.Keys - w.state.Keys;
      match VisitAll(g, g[id], id, w.(state := w.state[id := Visiting]))
      case Err(e) => Err(e)
      case Ok(w') => Ok(Walk(w'.state[id := Done], w'.order + [id]))
  }

  function VisitAll(g: Graph, ids: seq<string>, wantedBy: string, w: Walk): (r: Result<Walk, Stop>)
    ensures r.Ok? ==> w.state.Keys <= r.value.state.Keys
    decreases g.Keys - w.state.Keys, |ids|
  {
    if ids == [] then Ok(w)
    else
      match Visit(g, ids[0], wantedBy, w)
      case Err(e) => Err(e)
      case Ok(w') =>
        assert g.Keys - w'.state.Keys <= g.Keys - w.state.Keys;
        VisitAll(g, ids[1..], wantedBy, w')
  }

  /** The walk from one node, nothing coloured yet. */
  function WalkFrom(g: Graph, id: string): Result<Walk, Stop> {
    Visit(g, id, id, Walk(map[], []))
  }

  /** What every reachable configuration of the walk satisfies. */
  ghost predicate WalkInv(g: Graph, w: Walk) {
    && w.state.Keys <= g.Keys
    && (forall x :: x in w.order <==> x in w.state && w.state[x] == Done)
    && Distinct(w.order)
    && Topological(g, w.order)
  }

  /** Every node still being visited leads to id, so meeting one of them again closes a loop. */
  ghost predicate OpenNodesFeed(g: Graph, w: Walk, id: string) {
    forall x :: x in w.state && w.state[x] == Visiting ==> Feeds(g, x, id)
  }

  ghost predicate Advances(g: Graph, w: Walk, w': Walk) {
    && WalkInv(g, w')
    && w.order <= w'.order
    && (forall x :: (x in w.state && w.state[x] == Visiting) <==> (x in w'.state && w'.state[x] == Visiting))
  }

  /** Something a walk must refuse: a reachable id with no node, or a reachable node on a cycle. */
  ghost predicate Flawed(g: Graph, id: string) {
    exists x :: Reaches(g, id, x) && (x !in g || OnCycle(g, x))
  }

  lemma FlawedThroughEdge(g: Graph, u: string, v: string)
    requires Edge(g, u, v) && Flawed(g, v)
    ensures Flawed(g, u)
  {
    var x :| Reaches(g, v, x) && (x !in g || OnCycle(g, x));
    EdgeThenReaches(g, u, v, x);
  }

  lemma {:induction false} VisitMeets(g: Graph, id: string, wantedBy: string, w: Walk)
    requires WalkInv(g, w) && OpenNodesFeed(g, w, id)
    ensures var r := Visit(g, id, wantedBy, w);
            && (r.Ok? ==> && Advances(g, w, r.value)
                          && id in r.value.order
                          && forall x :: x in r.value.order ==> x in w.order || Reaches(g, id, x))
            && (r.Err? ==> Flawed(g, id))
    decreases g.Keys - w.state.Keys, 0
  {
    ReachesSelf(g, id);
    if id in g && id !in w.state {
      var w1 := w.(state := w.state[id := Visiting]);
      assert id in g.Keys - w.state.Keys;
      forall x | x in w1.state && w1.state[x] == Visiting
        ensures x == id || Feeds(g, x, id)
      {
      }
      VisitAllMeets(g, g[id], id, w1);
      if VisitAll(g, g[id], id, w1).Ok? {
        VisitAdvances(g, id, w, VisitAll(g, g[id], id, w1).value);
      }
    }
  }

  /** All successors done: closing the node advances the walk by what can be reached from it. */
  lemma VisitAdvances(g: Graph, id: string, w: Walk, w2: Walk)
    requires id in g && id !in w.state
    requires var w1 := w.(state := w.state[id := Visiting]);
             && Advances(g, w1, w2)
             && (forall i :: i in g[id] ==> i in w2.order)
             && forall x :: x in w2.order ==> x in w1.order || exists i :: i in g[id] && Reaches(g, i, x)
    ensures var w3 := Walk(w2.state[id := Done], w2.order + [id]);
            Advances(g, w, w3) && forall x :: x in w3.order ==> x in w.order || Reaches(g, id, x)
  {
    var w1 := w.(state := w.state[id := Visiting]);
    assert w2.state[id] == Visiting by { assert id in w1.state && w1.state[id] == Visiting; }
    var w3 := Walk(w2.state[id := Done], w2.order + [id]);
    VisitClosesNode(g, id, w2);
    ReachesSelf(g, id);
    forall x | x in w3.order
      ensures x in w.order || Reaches(g, id, x)
    {
      if x != id && x !in w.order {
        var i :| i in g[id] && Reaches(g, i, x);
        EdgeThenReaches(g, id, i, x);
      }
    }
  }

  lemma VisitClosesNode(g: Graph, id: string, w: Walk)
    requires WalkInv(g, w) && id in g && id in w.state && w.state[id] == Visiting
    requires forall i :: i in g[id] ==> i in w.order
    ensures WalkInv(g, Walk(w.state[id := Done], w.order + [id]))
  {
    var w' := Walk(w.state[id := Done], w.order + [id]);
    forall i, v | 0 <= i < |w'.order| && Edge(g, w'.order[i], v)
      ensures v in w'.order[..i]
    {
      if i < |w.order| {
        assert v in w.order[..i];
        assert w'.order[..i] == w.order[..i];
      } else {
        assert w'.order[..i] == w.order;
      }
    }
    forall x
      ensures x in w'.order <==> x in w'.state && w'.state[x] == Done
    {
      assert x in w'.order <==> x in w.order || x == id;
    }
  }

  lemma {:induction false} VisitAllMeets(g: Graph, ids: seq<string>, c: string, w: Walk)
    requires WalkInv(g, w)
    requires forall i :: i in ids ==> Edge(g, c, i)
    requires forall x :: x in w.state && w.state[x] == Visiting ==> x == c || Feeds(g, x, c)
    ensures var r := VisitAll(g, ids, c, w);
            && (r.Ok? ==> && Advances(g, w, r.value)
                          && (forall i :: i in ids ==> i in r.value.order)
                          && forall x :: x in r.value.order ==>
                               x in w.order || exists i :: i in ids && Reaches(g, i, x))
            && (r.Err? ==> Flawed(g, c))
    decreases g.Keys - w.state.Keys, |ids|
  {
    if ids != [] {
      forall x | x in w.state && w.state[x] == Visiting
        ensures Feeds(g, x, ids[0])
      {
        EdgeReaches(g, c, ids[0]);
        if x != c {
          FeedsReaches(g, x, c, ids[0]);
        }
      }
      VisitMeets(g, ids[0], c, w);
      match Visit(g, ids[0], c, w)
      case Err(_) =>
        FlawedThroughEdge(g, c, ids[0]);
      case Ok(w') =>
        assert g.Keys - w'.state.Keys <= g.Keys - w.state.Keys;
        VisitAllMeets(g, ids[1..], c, w');
        var r := VisitAll(g, ids[1..], c, w');
        if r.Ok? {
          forall x | x in r.value.order
            ensures x in w.order || exists i :: i in ids && Reaches(g, i, x)
          {
            if x !in w'.order {
              var i :| i in ids[1..] && Reaches(g, i, x);
              assert i in ids;
            } else if x !in w.order {
              assert ids[0] in ids && Reaches(g, ids[0], x);
            }
          }
        }
    }
  }

  /**
   The walk is exact. It fails exactly when a missing node or a cycle can be reached; when it succeeds it
   lists what can be reached from the start, nothing else, each node once and after all its successors.
   */
  lemma WalkExact(g: Graph, id: string)
    ensures WalkFrom(g, id).Err? <==> Flawed(g, id)
    ensures WalkFrom(g, id).Ok? ==>
              var w := WalkFrom(g, id).value;
              && Distinct(w.order) && Topological(g, w.order)
              && (forall x :: x in w.order <==> Reaches(g, id, x))
              && w.state.Keys == Elements(w.order)
  {
    var w0 := Walk(map[], []);
    VisitMeets(g, id, id, w0);
    var r := WalkFrom(g, id);
    if r.Ok? {
      var w := r.value;
      TopologicalIsClosed(g, w.order);
      forall x | Reaches(g, id, x)
        ensures x in w.order && !OnCycle(g, x)
      {
        ClosedKeepsReach(g, Elements(w.order), id, x);
        TopologicalIsAcyclic(g, w.order, x);
      }
      forall x | x in w.state
        ensures x in w.order
      {
        assert x !in w0.state;
      }
    }
  }

  // ----- a walk looks only at what it can reach -----

  ghost predicate AgreeOn(g: Graph, h: Graph, s: set<string>) {
    forall x :: x in s ==> (x in g <==> x in h) && (x in g ==> g[x] == h[x])
  }

  lemma {:induction false} VisitLocal(g: Graph, h: Graph, s: set<string>, id: string, wantedBy: string, w: Walk)
    requires AgreeOn(g, h, s) && Closed(g, s) && id in s
    ensures Visit(g, id, wantedBy, w) == Visit(h, id, wantedBy, w)
    decreases g.Keys - w.state.Keys, 0
  {
    if id in g && id !in w.state {
      assert id in g.Keys - w.state.Keys;
      assert forall i :: i in g[id] ==> Edge(g, id, i);
      VisitAllLocal(g, h, s, g[id], id, w.(state := w.state[id := Visiting]));
    }
  }

  lemma {:induction false} VisitAllLocal(g: Graph, h: Graph, s: set<string>, ids: seq<string>, c: string, w: Walk)
    requires AgreeOn(g, h, s) && Closed(g, s) && forall i :: i in ids ==> i in s
    ensures VisitAll(g, ids, c, w) == VisitAll(h, ids, c, w)
    decreases g.Keys - w.state.Keys, |ids|
  {
    if ids != [] {
      VisitLocal(g, h, s, ids[0], c, w);
      match Visit(g, ids[0], c, w)
      case Err(_) =>
      case Ok(w') =>
        assert g.Keys - w'.state.Keys <= g.Keys - w.state.Keys;
        VisitAllLocal(g, h, s, ids[1..], c, w');
    }
  }

  /** The recursive visitor as the source runs it: colours and order are shared state, updated in place. */
  class DepthFirst {
    const g: Graph
    var state: map<string, Colour>
    var order: seq<string>

    constructor (g: Graph)
      ensures this.g == g && Now() == Walk(map[], [])
    {
      this.g := g;
      state := map[];
      order := [];
    }

    function Now(): Walk
      reads this
    {
      Walk(state, order)
    }

    method Explore(id: string, wantedBy: string) returns (stop: Option<Stop>)
      modifies this
      ensures stop.None? ==> Visit(g, id, wantedBy, old(Now())) == Ok(Now())
      ensures stop.Some? ==> Visit(g, id, wantedBy, old(Now())) == Err(stop.value)
      decreases g.Keys - state.Keys
    {
      if id !in g {
        return Some(Missing(id, wantedBy));
      }
      if id in state {
        return if state[id] == Done then None else Some(Loop(id, wantedBy));
      }
      ghost var before := Now();
      assert id in g.Keys - state.Keys;
      state := state[id := Visiting];
      ghost var started := Now();
      var i := 0;
      while i < |g[id]|
        invariant 0 <= i <= |g[id]|
        invariant started.state.Keys <= state.Keys
        invariant VisitAll(g, g[id], id, started) == VisitAll(g, g[id][i..], id, Now())
      {
        var upstream := g[id][i];
        ghost var here := Now();
        assert g[id][i..][1..] == g[id][i + 1..];
        var s := Explore(upstream, id);
        if s.Some? {
          return s;
        }
        i := i + 1;
      }
      state := state[id := Done];
      order := order + [id];
      return None;
    }
  }
}
