/**
 The lineage graph as one reader may see it: hidden nodes are cut out, and what remains of each says only
 whether something next to it was cut, never how much.
 */
module Lineage {
  import opened Common

  datatype Edge = Edge(upstream: string, transform: string, downstream: string)

  datatype Kind = Dataset | Transform

  datatype Node = Node(name: string, kind: Kind)

  datatype View = View(id: string, kind: Kind, hiddenUpstream: bool, hiddenDownstream: bool)

  datatype Link = Link(from: Node, to: Node)

  function Up(e: Edge): Node { Node(e.upstream, Dataset) }

  function Via(e: Edge): Node { Node(e.transform, Transform) }

  function Down(e: Edge): Node { Node(e.downstream, Dataset) }

  function LinksOf(e: Edge): seq<Link> {
    [Link(Up(e), Via(e)), Link(Via(e), Down(e))]
  }

  // ----- what the projection is, as functions of the edges and of what the reader may see -----

  function Links(raw: seq<Edge>): seq<Link> {
    if raw == [] then [] else Links(raw[..|raw| - 1]) + LinksOf(raw[|raw| - 1])
  }

  /** The dataset a transform was last recorded as producing. */
  function OutputOf(raw: seq<Edge>, transform: string): Option<string> {
    if raw == [] then None
    else if raw[|raw| - 1].transform == transform then Some(raw[|raw| - 1].downstream)
    else OutputOf(raw[..|raw| - 1], transform)
  }

  /** The name a node is judged by: a dataset's own, a transform's output. */
  function JudgedBy(raw: seq<Edge>, n: Node): Option<string> {
    if n.kind == Dataset then Some(n.name) else OutputOf(raw, n.name)
  }

  predicate Sees(raw: seq<Edge>, visible: set<string>, n: Node) {
    JudgedBy(raw, n).Some? && JudgedBy(raw, n).value in visible
  }

  function Insert<T(==)>(xs: seq<T>, x: T): seq<T> {
    if x in xs then xs else xs + [x]
  }

  /** Every node, in order of first mention. */
  function Nodes(raw: seq<Edge>): seq<Node> {
    if raw == [] then []
    else
      var e := raw[|raw| - 1];
      Insert(Insert(Insert(Nodes(raw[..|raw| - 1]), Up(e)), Via(e)), Down(e))
  }

  predicate HiddenUpstream(raw: seq<Edge>, visible: set<string>, n: Node) {
    exists l :: l in Links(raw) && l.to == n && !Sees(raw, visible, l.from)
  }

  predicate HiddenDownstream(raw: seq<Edge>, visible: set<string>, n: Node) {
    exists l :: l in Links(raw) && l.from == n && !Sees(raw, visible, l.to)
  }

  function ViewOf(raw: seq<Edge>, visible: set<string>, n: Node): View {
    View(n.name, n.kind, HiddenUpstream(raw, visible, n), HiddenDownstream(raw, visible, n))
  }

  function ShownNodes(raw: seq<Edge>, visible: set<string>, nodes: seq<Node>): seq<View> {
    if nodes == [] then []
    else
      var n := nodes[|nodes| - 1];
      ShownNodes(raw, visible, nodes[..|nodes| - 1])
      + if Sees(raw, visible, n) then [ViewOf(raw, visible, n)] else []
  }

  function ShownEdges(raw: seq<Edge>, visible: set<string>, links: seq<Link>): seq<(string, string)> {
    if links == [] then []
    else
      var l := links[|links| - 1];
      var front := ShownEdges(raw, visible, links[..|links| - 1]);
      if Sees(raw, visible, l.from) && Sees(raw, visible, l.to) then Insert(front, (l.from.name, l.to.name)) else front
  }

  datatype Response = Response(nodes: seq<View>, edges: seq<(string, string)>)

  function Projection(raw: seq<Edge>, visible: set<string>): Response {
    Response(ShownNodes(raw, visible, Nodes(raw)), ShownEdges(raw, visible, Links(raw)))
  }

  // ----- the route -----

  predicate Mentions(links: seq<Link>, n: Node) {
    exists l :: l in links && (l.from == n || l.to == n)
  }

  lemma InsertIn(nodes: seq<Node>, x: Node)
    requires Distinct(nodes)
    ensures Distinct(Insert(nodes, x))
    ensures forall n :: n in Insert(nodes, x) <==> n in nodes || n == x
  {
  }

  lemma MentionsMore(links: seq<Link>, e: Edge, n: Node)
    ensures Mentions(links + LinksOf(e), n) <==> Mentions(links, n) || n == Up(e) || n == Via(e) || n == Down(e)
  {
    var more := links + LinksOf(e);
    assert more[|links|] == LinksOf(e)[0] && more[|links| + 1] == LinksOf(e)[1];
    assert LinksOf(e)[0] in more && LinksOf(e)[1] in more;
    if Mentions(links, n) {
      var l :| l in links && (l.from == n || l.to == n);
      assert l in more;
    }
    if Mentions(more, n) {
      var l :| l in more && (l.from == n || l.to == n);
      assert l in links || l == LinksOf(e)[0] || l == LinksOf(e)[1];
    }
  }

  /** The node list holds the ends of the links, each once. */
  lemma {:induction false} MentionedOnce(raw: seq<Edge>)
    ensures Distinct(Nodes(raw))
    ensures forall n :: n in Nodes(raw) <==> Mentions(Links(raw), n)
  {
    if raw != [] {
      var front, e := raw[..|raw| - 1], raw[|raw| - 1];
      MentionedOnce(front);
      InsertIn(Nodes(front), Up(e));
      InsertIn(Insert(Nodes(front), Up(e)), Via(e));
      InsertIn(Insert(Insert(Nodes(front), Up(e)), Via(e)), Down(e));
      forall n
        ensures n in Nodes(raw) <==> Mentions(Links(raw), n)
      {
        MentionsMore(Links(front), e, n);
      }
    }
  }

  lemma {:induction false} LinkEndsListed(raw: seq<Edge>, l: Link)
    requires l in Links(raw)
    ensures l.from in Nodes(raw) && l.to in Nodes(raw)
  {
    MentionedOnce(raw);
    assert Mentions(Links(raw), l.from) && Mentions(Links(raw), l.to);
  }

  ghost predicate Judged(raw: seq<Edge>, output: map<Node, string>) {
    forall n :: (n in output <==> n in Nodes(raw)) && (n in output ==> JudgedBy(raw, n) == Some(output[n]))
  }

  /** One more edge. */
  lemma {:induction false} EdgeStep(front: seq<Edge>, e: Edge)
    ensures Links(front + [e]) == Links(front) + LinksOf(e)
    ensures Nodes(front + [e]) == Insert(Insert(Insert(Nodes(front), Up(e)), Via(e)), Down(e))
    ensures forall t :: OutputOf(front + [e], t) == if e.transform == t then Some(e.downstream) else OutputOf(front, t)
  {
    var raw := front + [e];
    assert raw[..|raw| - 1] == front && raw[|raw| - 1] == e;
  }

  lemma {:induction false} LinksStep(front: seq<Edge>, e: Edge)
    ensures Links(front + [e]) == Links(front) + LinksOf(e)
  {
    EdgeStep(front, e);
  }

  lemma {:induction false} NodesGrow(front: seq<Edge>, e: Edge, n: Node)
    ensures n in Nodes(front + [e]) <==> n in Nodes(front) || n == Up(e) || n == Via(e) || n == Down(e)
  {
    EdgeStep(front, e);
    assert n in Insert(Nodes(front), Up(e)) <==> n in Nodes(front) || n == Up(e);
    assert n in Insert(Insert(Nodes(front), Up(e)), Via(e)) <==> n in Insert(Nodes(front), Up(e)) || n == Via(e);
  }

  lemma JudgedStep(front: seq<Edge>, e: Edge, output: map<Node, string>)
    requires Judged(front, output)
    ensures Judged(front + [e], output[Up(e) := e.upstream][Via(e) := e.downstream][Down(e) := e.downstream])
  {
    var output' := output[Up(e) := e.upstream][Via(e) := e.downstream][Down(e) := e.downstream];
    forall n
      ensures n in output' <==> n in Nodes(front + [e])
      ensures n in output' ==> JudgedBy(front + [e], n) == Some(output'[n])
    {
      NodesGrow(front, e, n);
      JudgedByStep(front, e, n);
      assert n in output <==> n in Nodes(front);
    }
  }

  lemma JudgedByStep(front: seq<Edge>, e: Edge, n: Node)
    ensures JudgedBy(front + [e], n) == if n == Via(e) then Some(e.downstream) else JudgedBy(front, n)
  {
    EdgeStep(front, e);
  }

  method Collect(raw: seq<Edge>) returns (order: seq<Node>, output: map<Node, string>, links: seq<Link>)
    ensures order == Nodes(raw) && links == Links(raw) && Judged(raw, output)
  {
    order, output, links := [], map[], [];
    for i := 0 to |raw|
      invariant order == Nodes(raw[..i]) && links == Links(raw[..i]) && Judged(raw[..i], output)
    {
      var e := raw[i];
      EdgeStep(raw[..i], e);
      JudgedStep(raw[..i], e, output);
      assert raw[..i + 1] == raw[..i] + [e];
      order := Insert(Insert(Insert(order, Up(e)), Via(e)), Down(e));
      output := output[Up(e) := e.upstream][Via(e) := e.downstream][Down(e) := e.downstream];
      links := links + LinksOf(e);
    }
    assert raw[..|raw|] == raw;
  }

  ghost predicate UpIs(links: seq<Link>, up: map<Node, seq<Node>>) {
    forall n, m :: n in up && m in up[n] <==> Link(m, n) in links
  }

  ghost predicate DownIs(links: seq<Link>, down: map<Node, seq<Node>>) {
    forall n, m :: n in down && m in down[n] <==> Link(n, m) in links
  }

  function Added(m: map<Node, seq<Node>>, key: Node, x: Node): map<Node, seq<Node>> {
    m[key := (if key in m then m[key] else []) + [x]]
  }

  lemma UpStep(links: seq<Link>, up: map<Node, seq<Node>>, l: Link)
    requires UpIs(links, up)
    ensures UpIs(links + [l], Added(up, l.to, l.from))
  {
    var up' := Added(up, l.to, l.from);
    forall n, m
      ensures n in up' && m in up'[n] <==> Link(m, n) in links + [l]
    {
      assert Link(m, n) in links + [l] <==> Link(m, n) in links || Link(m, n) == l;
      assert n in up && m in up[n] <==> Link(m, n) in links;
    }
  }

  lemma DownStep(links: seq<Link>, down: map<Node, seq<Node>>, l: Link)
    requires DownIs(links, down)
    ensures DownIs(links + [l], Added(down, l.from, l.to))
  {
    var down' := Added(down, l.from, l.to);
    forall n, m
      ensures n in down' && m in down'[n] <==> Link(n, m) in links + [l]
    {
      assert Link(n, m) in links + [l] <==> Link(n, m) in links || Link(n, m) == l;
      assert n in down && m in down[n] <==> Link(n, m) in links;
    }
  }

  method Neighbours(links: seq<Link>) returns (up: map<Node, seq<Node>>, down: map<Node, seq<Node>>)
    ensures UpIs(links, up) && DownIs(links, down)
  {
    up, down := map[], map[];
    for i := 0 to |links|
      invariant UpIs(links[..i], up) && DownIs(links[..i], down)
    {
      var l := links[i];
      UpStep(links[..i], up, l);
      DownStep(links[..i], down, l);
      assert links[..i + 1] == links[..i] + [l];
      down := Added(down, l.from, l.to);
      up := Added(up, l.to, l.from);
    }
    assert links[..|links|] == links;
  }

  ghost predicate KeptIs(raw: seq<Edge>, visible: set<string>, kept: set<Node>) {
    forall n :: n in Nodes(raw) ==> (n in kept <==> Sees(raw, visible, n))
  }

  /** any(n not in kept for n in neighbours.get(key, [])). */
  predicate AnyHidden(neighbours: map<Node, seq<Node>>, n: Node, kept: set<Node>) {
    n in neighbours && exists m :: m in neighbours[n] && m !in kept
  }

  lemma {:induction false} UpFlagAgrees(raw: seq<Edge>, visible: set<string>, n: Node, kept: set<Node>, up: map<Node,
      seq<Node>>)
    requires UpIs(Links(raw), up) && KeptIs(raw, visible, kept)
    ensures AnyHidden(up, n, kept) == HiddenUpstream(raw, visible, n)
  {
    if AnyHidden(up, n, kept) {
      var m :| m in up[n] && m !in kept;
      assert Link(m, n) in Links(raw);
      LinkEndsListed(raw, Link(m, n));
    }
    if HiddenUpstream(raw, visible, n) {
      var l :| l in Links(raw) && l.to == n && !Sees(raw, visible, l.from);
      LinkEndsListed(raw, l);
      assert l == Link(l.from, n);
      assert l.from in up[n] && l.from !in kept;
    }
  }

  lemma {:induction false} DownFlagAgrees(raw: seq<Edge>, visible: set<string>, n: Node, kept: set<Node>,
      down: map<Node, seq<Node>>)
    requires DownIs(Links(raw), down) && KeptIs(raw, visible, kept)
    ensures AnyHidden(down, n, kept) == HiddenDownstream(raw, visible, n)
  {
    if AnyHidden(down, n, kept) {
      var m :| m in down[n] && m !in kept;
      assert Link(n, m) in Links(raw);
      LinkEndsListed(raw, Link(n, m));
    }
    if HiddenDownstream(raw, visible, n) {
      var l :| l in Links(raw) && l.from == n && !Sees(raw, visible, l.to);
      LinkEndsListed(raw, l);
      assert l == Link(n, l.to);
      assert l.to in down[n] && l.to !in kept;
    }
  }

  lemma {:induction false} ShownNodesStep(raw: seq<Edge>, visible: set<string>, front: seq<Node>, n: Node)
    ensures ShownNodes(raw, visible, front + [n])
            == ShownNodes(raw, visible, front) + if Sees(raw, visible, n) then [ViewOf(raw, visible, n)] else []
  {
    assert (front + [n])[..|front|] == front;
  }

  lemma {:induction false} ShownEdgesStep(raw: seq<Edge>, visible: set<string>, front: seq<Link>, l: Link)
    ensures ShownEdges(raw, visible, front + [l])
            == var shown := ShownEdges(raw, visible, front);
               if Sees(raw, visible, l.from) && Sees(raw, visible, l.to) then Insert(shown, (l.from.name, l.to.name))
               else shown
  {
    assert (front + [l])[..|front|] == front;
  }

  ghost predicate ViewIs(raw: seq<Edge>, visible: set<string>, n: Node, kept: set<Node>,
                         up: map<Node, seq<Node>>, down: map<Node, seq<Node>>)
  {
    && (n in kept <==> Sees(raw, visible, n))
    && View(n.name, n.kind, AnyHidden(up, n, kept), AnyHidden(down, n, kept)) == ViewOf(raw, visible, n)
  }

  lemma {:induction false} ViewsAgree(raw: seq<Edge>, visible: set<string>, kept: set<Node>, up: map<Node, seq<Node>>,
      down: map<Node, seq<Node>>)
    requires UpIs(Links(raw), up) && DownIs(Links(raw), down) && KeptIs(raw, visible, kept)
    ensures forall n :: n in Nodes(raw) ==> ViewIs(raw, visible, n, kept, up, down)
  {
    forall n | n in Nodes(raw)
      ensures ViewIs(raw, visible, n, kept, up, down)
    {
      UpFlagAgrees(raw, visible, n, kept, up);
      DownFlagAgrees(raw, visible, n, kept, down);
    }
  }

  method ShowNodes(ghost raw: seq<Edge>, ghost visible: set<string>, order: seq<Node>, kept: set<Node>,
                   up: map<Node, seq<Node>>, down: map<Node, seq<Node>>) returns (nodes: seq<View>)
    requires forall n :: n in order ==> ViewIs(raw, visible, n, kept, up, down)
    ensures nodes == ShownNodes(raw, visible, order)
  {
    nodes := [];
    for i := 0 to |order|
      invariant nodes == ShownNodes(raw, visible, order[..i])
    {
      var n := order[i];
      ShownNodesStep(raw, visible, order[..i], n);
      assert order[..i + 1] == order[..i] + [n] && n in order;
      assert ViewIs(raw, visible, n, kept, up, down);
      if n in kept {
        nodes := nodes + [View(n.name, n.kind, AnyHidden(up, n, kept), AnyHidden(down, n, kept))];
      }
    }
    assert order[..|order|] == order;
  }

  /** The pairs of names the edge loop lists, once each. */
  function KeptEdges(links: seq<Link>, kept: set<Node>): seq<(string, string)> {
    if links == [] then []
    else
      var l := links[|links| - 1];
      var front := KeptEdges(links[..|links| - 1], kept);
      if l.from in kept && l.to in kept then Insert(front, (l.from.name, l.to.name)) else front
  }

  lemma {:induction false} KeptEdgesAreShown(raw: seq<Edge>, visible: set<string>, links: seq<Link>, kept: set<Node>)
    requires KeptIs(raw, visible, kept) && forall l :: l in links ==> l in Links(raw)
    ensures KeptEdges(links, kept) == ShownEdges(raw, visible, links)
  {
    if links != [] {
      var front, last := links[..|links| - 1], links[|links| - 1];
      assert links == front + [last];
      KeptEdgesAreShown(raw, visible, front, kept);
      LinkEndsListed(raw, last);
    }
  }

  method ShowEdges(ghost raw: seq<Edge>, ghost visible: set<string>, links: seq<Link>, kept: set<Node>)
    returns (edges: seq<(string, string)>)
    requires links == Links(raw) && KeptIs(raw, visible, kept)
    ensures edges == ShownEdges(raw, visible, links)
  {
    edges := ListEdges(links, kept);
    KeptEdgesAreShown(raw, visible, links, kept);
  }

  method ListEdges(links: seq<Link>, kept: set<Node>) returns (edges: seq<(string, string)>)
    ensures edges == KeptEdges(links, kept)
  {
    edges := [];
    var seen: set<(string, string)> := {};
    for i := 0 to |links|
      invariant edges == KeptEdges(links[..i], kept)
      invariant forall p :: p in seen <==> p in edges
    {
      var l := links[i];
      assert links[..i + 1][..i] == links[..i];
      var pair := (l.from.name, l.to.name);
      if l.from in kept && l.to in kept && pair !in seen {
        seen := seen + {pair};
        edges := edges + [pair];
      }
    }
    assert links[..|links|] == links;
  }

  /** `get_lineage`: dictionaries and lists filled in one pass, then the projection in two more. */
  method GetLineage(raw: seq<Edge>, visible: set<string>) returns (response: Response)
    ensures response == Projection(raw, visible)
  {
    var order, output, links := Collect(raw);
    var up, down := Neighbours(links);
    var kept := set n | n in output && output[n] in visible;
    assert KeptIs(raw, visible, kept);
    ViewsAgree(raw, visible, kept, up, down);
    var nodes := ShowNodes(raw, visible, order, kept, up, down);
    var edges := ShowEdges(raw, visible, links, kept);
    return Response(nodes, edges);
  }

  // ----- what a reader can read off the projection -----

  lemma {:induction false} ShownNodesExactly(raw: seq<Edge>, visible: set<string>, nodes: seq<Node>, n: Node)
    ensures (exists v :: v in ShownNodes(raw, visible, nodes) && v.id == n.name && v.kind == n.kind)
            <==> n in nodes && Sees(raw, visible, n)
    ensures forall v :: v in ShownNodes(raw, visible, nodes) && v.id == n.name && v.kind == n.kind ==>
              v == ViewOf(raw, visible, n)
  {
    if nodes != [] {
      var front, last := nodes[..|nodes| - 1], nodes[|nodes| - 1];
      assert nodes == front + [last];
      ShownNodesExactly(raw, visible, front, n);
      ShownNodesStep(raw, visible, front, last);
      var shown := ShownNodes(raw, visible, nodes);
      var before := ShownNodes(raw, visible, front);
      assert forall v :: v in shown <==> v in before || (Sees(raw, visible, last) && v == ViewOf(raw, visible, last));
      assert n in nodes <==> n in front || n == last;
      if n == last && Sees(raw, visible, last) {
        assert ViewOf(raw, visible, last) in shown;
      }
    }
  }

  lemma {:induction false} ShownEdgesExactly(raw: seq<Edge>, visible: set<string>, links: seq<Link>)
    ensures forall p :: p in ShownEdges(raw, visible, links) <==>
              exists l :: l in links && Sees(raw, visible, l.from) && Sees(raw, visible, l.to)
                && p == (l.from.name, l.to.name)
    ensures forall i, j :: 0 <= i < j < |ShownEdges(raw, visible, links)| ==>
              ShownEdges(raw, visible, links)[i] != ShownEdges(raw, visible, links)[j]
  {
    if links != [] {
      var front, last := links[..|links| - 1], links[|links| - 1];
      assert links == front + [last];
      ShownEdgesExactly(raw, visible, front);
      ShownEdgesStep(raw, visible, front, last);
      var before := ShownEdges(raw, visible, front);
      var pair := (last.from.name, last.to.name);
      assert forall p :: p in Insert(before, pair) <==> p in before || p == pair;
      assert forall l :: l in links <==> l in front || l == last;
    }
  }

  /**
   The projection is exact: a node is listed if and only if it is mentioned and seen, with flags that say
   exactly whether a neighbour on that side was cut; an edge if and only if both its ends are seen, once a pair.
   */
  lemma {:induction false} ProjectionExact(raw: seq<Edge>, visible: set<string>, n: Node)
    ensures (exists v :: v in Projection(raw, visible).nodes && v.id == n.name && v.kind == n.kind)
            <==> Mentions(Links(raw), n) && Sees(raw, visible, n)
    ensures forall v :: v in Projection(raw, visible).nodes && v.id == n.name && v.kind == n.kind ==>
              && (v.hiddenUpstream <==> exists l :: l in Links(raw) && l.to == n && !Sees(raw, visible, l.from))
              && (v.hiddenDownstream <==> exists l :: l in Links(raw) && l.from == n && !Sees(raw, visible, l.to))
    ensures forall p :: p in Projection(raw, visible).edges <==>
              exists l :: l in Links(raw) && Sees(raw, visible, l.from) && Sees(raw, visible, l.to)
                          && p == (l.from.name, l.to.name)
  {
    MentionedOnce(raw);
    ShownNodesExactly(raw, visible, Nodes(raw), n);
    ShownEdgesExactly(raw, visible, Links(raw));
  }

  // ----- what is shown, in the recorded edges' own terms -----

  /** The reader may see the dataset that the transform was last recorded as producing. */
  ghost predicate OutputSeen(raw: seq<Edge>, visible: set<string>, t: string) {
    exists i :: && 0 <= i < |raw| && raw[i].transform == t && raw[i].downstream in visible
                && forall j :: i < j < |raw| ==> raw[j].transform != t
  }

  lemma {:induction false} OutputSeenExactly(raw: seq<Edge>, visible: set<string>, t: string)
    ensures Sees(raw, visible, Node(t, Transform)) <==> OutputSeen(raw, visible, t)
  {
    if raw != [] {
      var k := |raw| - 1;
      var front := raw[..k];
      OutputSeenExactly(front, visible, t);
      if raw[k].transform != t {
        if OutputSeen(front, visible, t) {
          var i :| && 0 <= i < |front| && front[i].transform == t && front[i].downstream in visible
                   && forall j :: i < j < |front| ==> front[j].transform != t;
          assert raw[i] == front[i] && forall j :: i < j < |raw| ==> j == k || raw[j] == front[j];
        }
        if OutputSeen(raw, visible, t) {
          var i :| && 0 <= i < |raw| && raw[i].transform == t && raw[i].downstream in visible
                   && forall j :: i < j < |raw| ==> raw[j].transform != t;
          assert i < k && front[i] == raw[i] && forall j :: i < j < |front| ==> front[j] == raw[j];
        }
      }
    }
  }

  lemma {:induction false} LinkIsOfAnEdge(raw: seq<Edge>, l: Link)
    ensures l in Links(raw) <==> exists e :: e in raw && (l == Link(Up(e), Via(e)) || l == Link(Via(e), Down(e)))
  {
    if raw != [] {
      var front, last := raw[..|raw| - 1], raw[|raw| - 1];
      LinkIsOfAnEdge(front, l);
      assert raw == front + [last];
      assert forall e :: e in raw <==> e in front || e == last;
    }
  }

  /** Either side of a dataset or a transform. */
  lemma {:induction false} SidesExactly(raw: seq<Edge>, visible: set<string>, name: string)
    ensures HiddenUpstream(raw, visible, Node(name, Dataset)) <==>
            exists e :: e in raw && e.downstream == name && !OutputSeen(raw, visible, e.transform)
    ensures HiddenDownstream(raw, visible, Node(name, Dataset)) <==>
            exists e :: e in raw && e.upstream == name && !OutputSeen(raw, visible, e.transform)
    ensures HiddenUpstream(raw, visible, Node(name, Transform)) <==>
            exists e :: e in raw && e.transform == name && e.upstream !in visible
    ensures HiddenDownstream(raw, visible, Node(name, Transform)) <==>
            exists e :: e in raw && e.transform == name && e.downstream !in visible
  {
    forall l: Link
      ensures l in Links(raw) <==> exists e :: e in raw && (l == Link(Up(e), Via(e)) || l == Link(Via(e), Down(e)))
    {
      LinkIsOfAnEdge(raw, l);
    }
    forall e | e in raw
      ensures Link(Up(e), Via(e)) in Links(raw) && Link(Via(e), Down(e)) in Links(raw)
      ensures Sees(raw, visible, Via(e)) <==> OutputSeen(raw, visible, e.transform)
      ensures Sees(raw, visible, Up(e)) <==> e.upstream in visible
      ensures Sees(raw, visible, Down(e)) <==> e.downstream in visible
    {
      OutputSeenExactly(raw, visible, e.transform);
    }
  }

  ghost predicate Listed(r: Response, name: string, kind: Kind) {
    exists v :: v in r.nodes && v.id == name && v.kind == kind
  }

  /**
   A dataset is listed if and only if some edge names it and the reader may see it; it is flagged on a side exactly when
   a transform on that side produces something the reader may not see.
   */
  lemma {:induction false} DatasetExactly(raw: seq<Edge>, visible: set<string>, d: string)
    ensures var r := Projection(raw, visible);
            && (Listed(r, d, Dataset) <==>
                  d in visible && exists e :: e in raw && (e.upstream == d || e.downstream == d))
            && forall v :: v in r.nodes && v.id == d && v.kind == Dataset ==>
                 && (v.hiddenUpstream <==>
                       exists e :: e in raw && e.downstream == d && !OutputSeen(raw, visible, e.transform))
                 && (v.hiddenDownstream <==>
                       exists e :: e in raw && e.upstream == d && !OutputSeen(raw, visible, e.transform))
  {
    var n := Node(d, Dataset);
    ProjectionExact(raw, visible, n);
    SidesExactly(raw, visible, d);
    MentionedExactly(raw, n);
  }

  lemma {:induction false} MentionedExactly(raw: seq<Edge>, n: Node)
    ensures Mentions(Links(raw), n) <==> exists e :: e in raw && (n == Up(e) || n == Via(e) || n == Down(e))
  {
    if l :| l in Links(raw) && (l.from == n || l.to == n) {
      LinkIsOfAnEdge(raw, l);
    }
    if e :| e in raw && (n == Up(e) || n == Via(e) || n == Down(e)) {
      LinkIsOfAnEdge(raw, Link(Up(e), Via(e)));
      LinkIsOfAnEdge(raw, Link(Via(e), Down(e)));
    }
  }

  /**
   A transform is listed if and only if the reader may see what it was last recorded as producing; it is flagged on a
   side exactly when a dataset on that side may not be seen.
   */
  lemma {:induction false} TransformExactly(raw: seq<Edge>, visible: set<string>, t: string)
    ensures var r := Projection(raw, visible);
            && (Listed(r, t, Transform) <==> OutputSeen(raw, visible, t))
            && forall v :: v in r.nodes && v.id == t && v.kind == Transform ==>
                 && (v.hiddenUpstream <==> exists e :: e in raw && e.transform == t && e.upstream !in visible)
                 && (v.hiddenDownstream <==> exists e :: e in raw && e.transform == t && e.downstream !in visible)
  {
    var n := Node(t, Transform);
    ProjectionExact(raw, visible, n);
    SidesExactly(raw, visible, t);
    MentionedExactly(raw, n);
    OutputSeenExactly(raw, visible, t);
    if i :| 0 <= i < |raw| && raw[i].transform == t && raw[i].downstream in visible {
      assert raw[i] in raw && n == Via(raw[i]);
    }
  }

  /** An edge is listed if and only if it is one side of a recorded edge and the reader may see both its ends. */
  lemma {:induction false} EdgesExactly(raw: seq<Edge>, visible: set<string>, p: (string, string))
    ensures p in Projection(raw, visible).edges <==>
            exists e :: && e in raw && OutputSeen(raw, visible, e.transform)
                        && (|| (p == (e.upstream, e.transform) && e.upstream in visible)
                            || (p == (e.transform, e.downstream) && e.downstream in visible))
  {
    ShownEdgesExactly(raw, visible, Links(raw));
    if l :| l in Links(raw) && Sees(raw, visible, l.from) && Sees(raw, visible, l.to)
            && p == (l.from.name, l.to.name) {
      LinkIsOfAnEdge(raw, l);
      var e :| e in raw && (l == Link(Up(e), Via(e)) || l == Link(Via(e), Down(e)));
      OutputSeenExactly(raw, visible, e.transform);
    }
    if e :| && e in raw && OutputSeen(raw, visible, e.transform)
            && (|| (p == (e.upstream, e.transform) && e.upstream in visible)
                || (p == (e.transform, e.downstream) && e.downstream in visible)) {
      OutputSeenExactly(raw, visible, e.transform);
      var first, second := Link(Up(e), Via(e)), Link(Via(e), Down(e));
      LinkIsOfAnEdge(raw, first);
      LinkIsOfAnEdge(raw, second);
      assert Sees(raw, visible, Via(e));
      if e.upstream in visible && p == (e.upstream, e.transform) {
        assert Sees(raw, visible, first.from) && p == (first.from.name, first.to.name);
      } else {
        assert Sees(raw, visible, second.to) && p == (second.from.name, second.to.name);
      }
    }
  }

  // ----- it counts nothing -----

  predicate OneOutput(raw: seq<Edge>) {
    forall i, j :: 0 <= i < |raw| && 0 <= j < |raw| && raw[i].transform == raw[j].transform ==>
      raw[i].downstream == raw[j].downstream
  }

  lemma {:induction false} OutputIs(raw: seq<Edge>, e: Edge)
    requires OneOutput(raw) && e in raw
    ensures OutputOf(raw, e.transform) == Some(e.downstream)
  {
    var front, last := raw[..|raw| - 1], raw[|raw| - 1];
    assert raw == front + [last];
    if last.transform != e.transform {
      assert e in front;
      OutputIs(front, e);
    } else {
      var i :| 0 <= i < |raw| && raw[i] == e;
      assert raw[|raw| - 1].downstream == raw[i].downstream;
    }
  }

  lemma {:induction false} OutputAbsent(raw: seq<Edge>, t: string)
    requires forall e :: e in raw ==> e.transform != t
    ensures OutputOf(raw, t) == None
  {
    if raw != [] {
      assert raw[|raw| - 1] in raw;
      OutputAbsent(raw[..|raw| - 1], t);
    }
  }

  /** The edges with one more put in after the first k. */
  function WithEdge(raw: seq<Edge>, k: nat, e: Edge): seq<Edge>
    requires k <= |raw|
  {
    raw[..k] + [e] + raw[k..]
  }

  /** An edge that shows the reader nothing new where it is put: no seen node, no shown pair, no flag. */
  ghost predicate AddsNothing(raw: seq<Edge>, k: nat, e: Edge, visible: set<string>)
    requires k <= |raw|
  {
    var raw' := WithEdge(raw, k, e);
    && (Sees(raw', visible, Up(e)) ==> Up(e) in Nodes(raw[..k]))
    && (Sees(raw', visible, Via(e)) ==> Via(e) in Nodes(raw[..k]))
    && (Sees(raw', visible, Down(e)) ==> Down(e) in Nodes(raw[..k]))
    && LinkAddsNothing(raw, raw', k, LinksOf(e)[0], visible)
    && LinkAddsNothing(raw, raw', k, LinksOf(e)[1], visible)
  }

  ghost predicate LinkAddsNothing(raw: seq<Edge>, raw': seq<Edge>, k: nat, l: Link, visible: set<string>)
    requires k <= |raw|
  {
    var from, to := Sees(raw', visible, l.from), Sees(raw', visible, l.to);
    && (from && to ==> l in Links(raw[..k]))
    && (to && !from ==> HiddenUpstream(raw, visible, l.to))
    && (from && !to ==> HiddenDownstream(raw, visible, l.from))
  }

  ghost predicate SameEyes(raw: seq<Edge>, raw': seq<Edge>, visible: set<string>) {
    forall n :: Sees(raw, visible, n) == Sees(raw', visible, n)
  }

  lemma {:induction false} TransformHasEdge(raw: seq<Edge>, n: Node)
    requires n in Nodes(raw) && n.kind == Transform
    ensures exists e :: e in raw && e.transform == n.name
  {
    var front, last := raw[..|raw| - 1], raw[|raw| - 1];
    if last.transform == n.name {
      assert last in raw;
    } else {
      assert raw == front + [last];
      NodesGrow(front, last, n);
      TransformHasEdge(front, n);
      var e :| e in front && e.transform == n.name;
      assert e in raw;
    }
  }

  lemma SeesTheSame(raw: seq<Edge>, k: nat, e: Edge, visible: set<string>)
    requires k <= |raw| && OneOutput(WithEdge(raw, k, e))
    requires Sees(WithEdge(raw, k, e), visible, Via(e)) ==> Via(e) in Nodes(raw[..k])
    ensures SameEyes(raw, WithEdge(raw, k, e), visible)
  {
    var raw' := WithEdge(raw, k, e);
    assert raw == raw[..k] + raw[k..];
    assert forall x :: x in raw' <==> x in raw || x == e;
    OneOutputBefore(raw, k, e);
    forall n
      ensures Sees(raw, visible, n) == Sees(raw', visible, n)
    {
      if n.kind == Transform {
        if x :| x in raw && x.transform == n.name {
          OutputIs(raw, x);
          OutputIs(raw', x);
        } else {
          OutputAbsent(raw, n.name);
          if n == Via(e) {
            if Sees(raw', visible, n) {
              TransformHasEdge(raw[..k], n);
              assert false;
            }
          } else {
            OutputAbsent(raw', n.name);
          }
        }
      }
    }
  }

  lemma OneOutputBefore(raw: seq<Edge>, k: nat, e: Edge)
    requires k <= |raw| && OneOutput(WithEdge(raw, k, e))
    ensures OneOutput(raw)
  {
    var raw' := WithEdge(raw, k, e);
    forall i, j | 0 <= i < |raw| && 0 <= j < |raw| && raw[i].transform == raw[j].transform
      ensures raw[i].downstream == raw[j].downstream
    {
      var i', j' := if i < k then i else i + 1, if j < k then j else j + 1;
      assert raw'[i'] == raw[i] && raw'[j'] == raw[j];
    }
  }

  lemma AppendLast<T>(a: seq<T>, b: seq<T>)
    requires b != []
    ensures b == b[..|b| - 1] + [b[|b| - 1]]
    ensures a + b == (a + b[..|b| - 1]) + [b[|b| - 1]]
  {
  }

  lemma {:induction false} LinksConcat(a: seq<Edge>, b: seq<Edge>)
    ensures Links(a + b) == Links(a) + Links(b)
  {
    if b == [] {
      assert a + b == a;
    } else {
      var front, last := b[..|b| - 1], b[|b| - 1];
      LinksConcat(a, front);
      AppendLast(a, b);
      LinksStep(a + front, last);
      LinksStep(front, last);
      Regroup(Links(a), Links(front), LinksOf(last));
    }
  }

  lemma {:induction false} LinksWith(raw: seq<Edge>, k: nat, e: Edge)
    requires k <= |raw|
    ensures forall l :: l in Links(WithEdge(raw, k, e)) <==> l in Links(raw) || l == LinksOf(e)[0] || l == LinksOf(e)[1]
  {
    LinksConcat(raw[..k], raw[k..]);
    assert raw == raw[..k] + raw[k..];
    LinksConcat(raw[..k] + [e], raw[k..]);
    LinksStep(raw[..k], e);
    assert forall l :: l in LinksOf(e) <==> l == LinksOf(e)[0] || l == LinksOf(e)[1];
  }

  lemma FlagsStay(raw: seq<Edge>, k: nat, e: Edge, visible: set<string>, n: Node)
    requires k <= |raw| && AddsNothing(raw, k, e, visible) && SameEyes(raw, WithEdge(raw, k, e), visible)
    requires Sees(raw, visible, n)
    ensures ViewOf(raw, visible, n) == ViewOf(WithEdge(raw, k, e), visible, n)
  {
    var raw' := WithEdge(raw, k, e);
    LinksWith(raw, k, e);
    if HiddenUpstream(raw, visible, n) {
      var l :| l in Links(raw) && l.to == n && !Sees(raw, visible, l.from);
      assert l in Links(raw');
    }
    if HiddenUpstream(raw', visible, n) {
      var l :| l in Links(raw') && l.to == n && !Sees(raw', visible, l.from);
      assert HiddenUpstream(raw, visible, n);
    }
    if HiddenDownstream(raw, visible, n) {
      var l :| l in Links(raw) && l.from == n && !Sees(raw, visible, l.to);
      assert l in Links(raw');
    }
    if HiddenDownstream(raw', visible, n) {
      var l :| l in Links(raw') && l.from == n && !Sees(raw', visible, l.to);
      assert HiddenDownstream(raw, visible, n);
    }
  }

  /** The seen nodes among some, in order. */
  function Seen(raw: seq<Edge>, visible: set<string>, nodes: seq<Node>): seq<Node> {
    if nodes == [] then []
    else
      Seen(raw, visible, nodes[..|nodes| - 1])
      + if Sees(raw, visible, nodes[|nodes| - 1]) then [nodes[|nodes| - 1]] else []
  }

  lemma {:induction false} SeenIn(raw: seq<Edge>, visible: set<string>, nodes: seq<Node>, n: Node)
    ensures n in Seen(raw, visible, nodes) <==> n in nodes && Sees(raw, visible, n)
  {
    if nodes != [] {
      SeenIn(raw, visible, nodes[..|nodes| - 1], n);
      assert nodes == nodes[..|nodes| - 1] + [nodes[|nodes| - 1]];
    }
  }

  function InsertSeen(raw: seq<Edge>, visible: set<string>, nodes: seq<Node>, n: Node): seq<Node> {
    if Sees(raw, visible, n) then Insert(nodes, n) else nodes
  }

  lemma {:induction false} SeenInsert(raw: seq<Edge>, visible: set<string>, nodes: seq<Node>, n: Node)
    ensures Seen(raw, visible, Insert(nodes, n)) == InsertSeen(raw, visible, Seen(raw, visible, nodes), n)
  {
    SeenIn(raw, visible, nodes, n);
    assert (nodes + [n])[..|nodes|] == nodes;
  }

  function InsertEdge(raw: seq<Edge>, visible: set<string>, nodes: seq<Node>, e: Edge): seq<Node> {
    InsertSeen(raw, visible, InsertSeen(raw, visible, InsertSeen(raw, visible, nodes, Up(e)), Via(e)), Down(e))
  }

  lemma {:induction false} SeenStep(raw: seq<Edge>, visible: set<string>, a: seq<Edge>, e: Edge)
    ensures Seen(raw, visible, Nodes(a + [e])) == InsertEdge(raw, visible, Seen(raw, visible, Nodes(a)), e)
  {
    EdgeStep(a, e);
    SeenInsert(raw, visible, Nodes(a), Up(e));
    SeenInsert(raw, visible, Insert(Nodes(a), Up(e)), Via(e));
    SeenInsert(raw, visible, Insert(Insert(Nodes(a), Up(e)), Via(e)), Down(e));
  }

  lemma {:induction false} SeenAfter(raw: seq<Edge>, visible: set<string>, a: seq<Edge>, a': seq<Edge>, b: seq<Edge>)
    requires Seen(raw, visible, Nodes(a)) == Seen(raw, visible, Nodes(a'))
    ensures Seen(raw, visible, Nodes(a + b)) == Seen(raw, visible, Nodes(a' + b))
  {
    if b == [] {
      assert a + b == a && a' + b == a';
    } else {
      var front, last := b[..|b| - 1], b[|b| - 1];
      SeenAfter(raw, visible, a, a', front);
      SeenStep(raw, visible, a + front, last);
      SeenStep(raw, visible, a' + front, last);
      AppendLast(a, b);
      AppendLast(a', b);
    }
  }

  lemma {:induction false} EdgesAfter(raw: seq<Edge>, visible: set<string>, a: seq<Link>, a': seq<Link>, b: seq<Link>)
    requires ShownEdges(raw, visible, a) == ShownEdges(raw, visible, a')
    ensures ShownEdges(raw, visible, a + b) == ShownEdges(raw, visible, a' + b)
  {
    if b == [] {
      assert a + b == a && a' + b == a';
    } else {
      var front, last := b[..|b| - 1], b[|b| - 1];
      EdgesAfter(raw, visible, a, a', front);
      ShownEdgesStep(raw, visible, a + front, last);
      ShownEdgesStep(raw, visible, a' + front, last);
      AppendLast(a, b);
      AppendLast(a', b);
    }
  }

  /** Two edge lists seen with the same eyes, with the same seen nodes and the same views of them. */
  lemma {:induction false} SameViews(raw: seq<Edge>, raw': seq<Edge>, visible: set<string>, nodes: seq<Node>,
      nodes': seq<Node>)
    requires SameEyes(raw, raw', visible)
    requires forall n :: Sees(raw, visible, n) ==> ViewOf(raw, visible, n) == ViewOf(raw', visible, n)
    requires Seen(raw, visible, nodes) == Seen(raw, visible, nodes')
    ensures ShownNodes(raw, visible, nodes) == ShownNodes(raw', visible, nodes')
    decreases |nodes| + |nodes'|
  {
    if nodes != [] && !Sees(raw, visible, nodes[|nodes| - 1]) {
      SameViews(raw, raw', visible, nodes[..|nodes| - 1], nodes');
    } else if nodes' != [] && !Sees(raw, visible, nodes'[|nodes'| - 1]) {
      SameViews(raw, raw', visible, nodes, nodes'[..|nodes'| - 1]);
    } else if nodes != [] && nodes' != [] {
      var s, s' := Seen(raw, visible, nodes), Seen(raw, visible, nodes');
      var n, n' := nodes[|nodes| - 1], nodes'[|nodes'| - 1];
      assert s[|s| - 1] == n && s'[|s'| - 1] == n';
      assert s[..|s| - 1] == Seen(raw, visible, nodes[..|nodes| - 1]);
      assert s'[..|s'| - 1] == Seen(raw, visible, nodes'[..|nodes'| - 1]);
      SameViews(raw, raw', visible, nodes[..|nodes| - 1], nodes'[..|nodes'| - 1]);
      assert Sees(raw, visible, n);
    }
  }

  lemma {:induction false} SameEdges(raw: seq<Edge>, raw': seq<Edge>, visible: set<string>, links: seq<Link>)
    requires SameEyes(raw, raw', visible)
    ensures ShownEdges(raw, visible, links) == ShownEdges(raw', visible, links)
  {
    if links != [] {
      SameEdges(raw, raw', visible, links[..|links| - 1]);
    }
  }

  lemma {:induction false} EdgeUnshown(raw: seq<Edge>, visible: set<string>, links: seq<Link>, l: Link)
    requires Sees(raw, visible, l.from) && Sees(raw, visible, l.to) ==> l in links
    ensures ShownEdges(raw, visible, links + [l]) == ShownEdges(raw, visible, links)
  {
    ShownEdgesStep(raw, visible, links, l);
    ShownEdgesExactly(raw, visible, links);
  }

  lemma {:induction false} SeenAlready(raw: seq<Edge>, visible: set<string>, nodes: seq<Node>, n: Node)
    requires Sees(raw, visible, n) ==> n in nodes
    ensures InsertSeen(raw, visible, Seen(raw, visible, nodes), n) == Seen(raw, visible, nodes)
  {
    SeenIn(raw, visible, nodes, n);
  }

  lemma {:induction false} SeenUnchanged(raw: seq<Edge>, visible: set<string>, a: seq<Edge>, e: Edge)
    requires Sees(raw, visible, Up(e)) ==> Up(e) in Nodes(a)
    requires Sees(raw, visible, Via(e)) ==> Via(e) in Nodes(a)
    requires Sees(raw, visible, Down(e)) ==> Down(e) in Nodes(a)
    ensures Seen(raw, visible, Nodes(a)) == Seen(raw, visible, Nodes(a + [e]))
  {
    SeenStep(raw, visible, a, e);
    SeenAlready(raw, visible, Nodes(a), Up(e));
    SeenAlready(raw, visible, Nodes(a), Via(e));
    SeenAlready(raw, visible, Nodes(a), Down(e));
  }

  lemma {:induction false} NodesUnchanged(raw: seq<Edge>, k: nat, e: Edge, visible: set<string>)
    requires k <= |raw| && AddsNothing(raw, k, e, visible) && SameEyes(raw, WithEdge(raw, k, e), visible)
    ensures Seen(raw, visible, Nodes(raw)) == Seen(raw, visible, Nodes(WithEdge(raw, k, e)))
  {
    SeenUnchanged(raw, visible, raw[..k], e);
    SeenAfter(raw, visible, raw[..k], raw[..k] + [e], raw[k..]);
    SplitAt(raw, k);
  }

  lemma SplitAt<T>(s: seq<T>, k: nat)
    requires k <= |s|
    ensures s == s[..k] + s[k..]
  {
  }

  lemma {:induction false} EdgesUnchanged(raw: seq<Edge>, k: nat, e: Edge, visible: set<string>)
    requires k <= |raw| && AddsNothing(raw, k, e, visible) && SameEyes(raw, WithEdge(raw, k, e), visible)
    ensures ShownEdges(raw, visible, Links(raw)) == ShownEdges(raw, visible, Links(WithEdge(raw, k, e)))
  {
    var a := raw[..k];
    assert ShownEdges(raw, visible, Links(a)) == ShownEdges(raw, visible, Links(a + [e])) by {
      var l0, l1 := LinksOf(e)[0], LinksOf(e)[1];
      EdgeUnshown(raw, visible, Links(a), l0);
      EdgeUnshown(raw, visible, Links(a) + [l0], l1);
      assert Links(a) + [l0] + [l1] == Links(a) + LinksOf(e);
      LinksStep(a, e);
    }
    EdgesAfter(raw, visible, Links(a), Links(a + [e]), Links(raw[k..]));
    LinksConcat(a, raw[k..]);
    LinksConcat(a + [e], raw[k..]);
    SplitAt(raw, k);
  }

  /** An edge that shows nothing new leaves the whole response as it was. */
  lemma NothingAdded(raw: seq<Edge>, k: nat, e: Edge, visible: set<string>)
    requires k <= |raw| && OneOutput(WithEdge(raw, k, e)) && AddsNothing(raw, k, e, visible)
    ensures Projection(WithEdge(raw, k, e), visible) == Projection(raw, visible)
  {
    var raw' := WithEdge(raw, k, e);
    SeesTheSame(raw, k, e, visible);
    NodesUnchanged(raw, k, e, visible);
    EdgesUnchanged(raw, k, e, visible);
    forall n | Sees(raw, visible, n)
      ensures ViewOf(raw, visible, n) == ViewOf(raw', visible, n)
    {
      FlagsStay(raw, k, e, visible, n);
    }
    SameViews(raw, raw', visible, Nodes(raw), Nodes(raw'));
    SameEdges(raw, raw', visible, Links(raw'));
  }

  lemma InsertedOutput(raw: seq<Edge>, k: nat, e: Edge)
    requires k <= |raw| && OneOutput(WithEdge(raw, k, e))
    ensures OutputOf(WithEdge(raw, k, e), e.transform) == Some(e.downstream)
  {
    assert WithEdge(raw, k, e)[k] == e;
    OutputIs(WithEdge(raw, k, e), e);
  }

  /** A lineage edge between two hidden datasets, wherever it is stored, leaves no trace. */
  lemma HiddenEdgeLeavesNoTrace(raw: seq<Edge>, k: nat, e: Edge, visible: set<string>)
    requires k <= |raw| && OneOutput(WithEdge(raw, k, e))
    requires e.upstream !in visible && e.downstream !in visible
    ensures Projection(WithEdge(raw, k, e), visible) == Projection(raw, visible)
  {
    InsertedOutput(raw, k, e);
    NothingAdded(raw, k, e, visible);
  }

  /** A second hidden input of a transform already flagged as having one leaves no trace. */
  lemma AnotherHiddenInputLeavesNoTrace(raw: seq<Edge>, k: nat, e: Edge, visible: set<string>)
    requires k <= |raw| && OneOutput(WithEdge(raw, k, e))
    requires e.upstream !in visible && Link(Via(e), Down(e)) in Links(raw[..k])
    requires HiddenUpstream(raw, visible, Via(e))
    ensures Projection(WithEdge(raw, k, e), visible) == Projection(raw, visible)
  {
    InsertedOutput(raw, k, e);
    LinkEndsListed(raw[..k], Link(Via(e), Down(e)));
    NothingAdded(raw, k, e, visible);
  }

  /** A further hidden consumer of a dataset already flagged as having one leaves no trace. */
  lemma AnotherHiddenConsumerLeavesNoTrace(raw: seq<Edge>, k: nat, e: Edge, visible: set<string>)
    requires k <= |raw| && OneOutput(WithEdge(raw, k, e))
    requires e.downstream !in visible && Up(e) in Nodes(raw[..k])
    requires HiddenDownstream(raw, visible, Up(e))
    ensures Projection(WithEdge(raw, k, e), visible) == Projection(raw, visible)
  {
    InsertedOutput(raw, k, e);
    NothingAdded(raw, k, e, visible);
  }
}
