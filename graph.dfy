/**
 * The directed graph the editor works on, with the behaviour of the graph library it
 * uses: nodes are kept in insertion order, each node keeps its successors in insertion
 * order, and edges are listed source by source in node order, then by successor order.
 * A graph is a value: snapshots for undo are copies, so later edits never reach them.
 */
module Graphs {
  import opened Wrappers
  import opened Geometry
  import Config

  type NodeId = int

  datatype NodeType = Function | Resource

  /**
   * The attributes of a node (`caption` is the node's label). `agent` is optional because a graph read from a file may
   * lack it; `layer` is optional because nodes of older files carry none.
   */
  datatype Node = Node(typ: NodeType, caption: string, agent: Option<string>, pos: Point, layer: Option<string>)

  type Edge = (NodeId, NodeId)

  datatype Graph = Graph(order: seq<NodeId>, nodes: map<NodeId, Node>, succ: map<NodeId, seq<NodeId>>)

  predicate NoDup<T(==)>(s: seq<T>) {
    forall i, j :: 0 <= i < j < |s| ==> s[i] != s[j]
  }

  /** The invariant the graph library keeps between its node list, attributes and adjacency. */
  ghost predicate Valid(g: Graph) {
    && NoDup(g.order)
    && (forall v :: v in g.order <==> v in g.nodes)
    && g.succ.Keys == g.nodes.Keys
    && (forall u :: u in g.succ ==> NoDup(g.succ[u]))
    && (forall u, v :: u in g.succ && v in g.succ[u] ==> v in g.nodes)
  }

  const Empty: Graph := Graph([], map[], map[])

  lemma EmptyIsValid()
    ensures Valid(Empty) && |Empty.order| == 0
  {
  }

  predicate HasEdge(g: Graph, u: NodeId, v: NodeId) {
    u in g.succ && v in g.succ[u]
  }

  // ---------------------------------------------------------------- edge listing

  function OutEdges(u: NodeId, vs: seq<NodeId>): (es: seq<Edge>)
    ensures |es| == |vs|
    ensures forall i :: 0 <= i < |vs| ==> es[i] == (u, vs[i])
  {
    if vs == [] then [] else [(u, vs[0])] + OutEdges(u, vs[1..])
  }

  function EdgesFrom(us: seq<NodeId>, succ: map<NodeId, seq<NodeId>>): seq<Edge> {
    if us == [] then []
    else (if us[0] in succ then OutEdges(us[0], succ[us[0]]) else []) + EdgesFrom(us[1..], succ)
  }

  /** All edges, in the order the library iterates them. */
  function Edges(g: Graph): seq<Edge> {
    EdgesFrom(g.order, g.succ)
  }

  lemma {:induction false} EdgesFromMembership(us: seq<NodeId>, succ: map<NodeId, seq<NodeId>>, e: Edge)
    ensures e in EdgesFrom(us, succ) <==> e.0 in us && e.0 in succ && e.1 in succ[e.0]
  {
    if us != [] {
      EdgesFromMembership(us[1..], succ, e);
      assert us == [us[0]] + us[1..];
      if us[0] in succ && e.0 == us[0] && e.1 in succ[us[0]] {
        var i :| 0 <= i < |succ[us[0]]| && succ[us[0]][i] == e.1;
        assert OutEdges(us[0], succ[us[0]])[i] == e;
      }
    }
  }

  /** An edge is listed exactly when the adjacency holds it. */
  lemma EdgesMembership(g: Graph, e: Edge)
    requires Valid(g)
    ensures e in Edges(g) <==> HasEdge(g, e.0, e.1)
  {
    EdgesFromMembership(g.order, g.succ, e);
  }

  lemma {:induction false} EdgesFromNoDup(us: seq<NodeId>, succ: map<NodeId, seq<NodeId>>)
    requires NoDup(us)
    requires forall u :: u in succ ==> NoDup(succ[u])
    ensures NoDup(EdgesFrom(us, succ))
  {
    if us != [] {
      var head := if us[0] in succ then OutEdges(us[0], succ[us[0]]) else [];
      var tail := EdgesFrom(us[1..], succ);
      EdgesFromNoDup(us[1..], succ);
      forall i, j | 0 <= i < |head| && 0 <= j < |tail|
        ensures head[i] != tail[j]
      {
        EdgesFromMembership(us[1..], succ, tail[j]);
        assert tail[j] in tail;
      }
      assert NoDup(head + tail) by {
        forall i, j | 0 <= i < j < |head + tail|
          ensures (head + tail)[i] != (head + tail)[j]
        {
          if j < |head| {
          } else if i >= |head| {
            assert (head + tail)[i] == tail[i - |head|];
          } else {
            assert (head + tail)[j] == tail[j - |head|];
          }
        }
      }
    }
  }

  /** No edge is listed twice. */
  lemma EdgesNoDup(g: Graph)
    requires Valid(g)
    ensures NoDup(Edges(g))
  {
    EdgesFromNoDup(g.order, g.succ);
  }

  // ---------------------------------------------------------------- degrees

  /** Number of listed edges whose target is `v`. */
  function CountInto(es: seq<Edge>, v: NodeId): nat {
    if es == [] then 0 else (if es[0].1 == v then 1 else 0) + CountInto(es[1..], v)
  }

  function OutDegree(g: Graph, v: NodeId): nat {
    if v in g.succ then |g.succ[v]| else 0
  }

  function InDegree(g: Graph, v: NodeId): nat {
    CountInto(Edges(g), v)
  }

  /** In-degree plus out-degree, the degree of a node of a directed graph. */
  function Degree(g: Graph, v: NodeId): nat {
    InDegree(g, v) + OutDegree(g, v)
  }

  function SumOut(us: seq<NodeId>, succ: map<NodeId, seq<NodeId>>): nat {
    if us == [] then 0 else (if us[0] in succ then |succ[us[0]]| else 0) + SumOut(us[1..], succ)
  }

  function SumInto(vs: seq<NodeId>, es: seq<Edge>): nat {
    if vs == [] then 0 else CountInto(es, vs[0]) + SumInto(vs[1..], es)
  }

  function Occurrences(vs: seq<NodeId>, x: NodeId): nat {
    if vs == [] then 0 else (if vs[0] == x then 1 else 0) + Occurrences(vs[1..], x)
  }

  /** Sum of the degrees of the nodes `vs`. */
  function SumDegrees(g: Graph, vs: seq<NodeId>): nat {
    if vs == [] then 0 else Degree(g, vs[0]) + SumDegrees(g, vs[1..])
  }

  lemma {:induction false} SumOutCountsEdges(us: seq<NodeId>, succ: map<NodeId, seq<NodeId>>)
    ensures SumOut(us, succ) == |EdgesFrom(us, succ)|
  {
    if us != [] {
      SumOutCountsEdges(us[1..], succ);
    }
  }

  lemma {:induction false} SumIntoCons(vs: seq<NodeId>, e: Edge, es: seq<Edge>)
    ensures SumInto(vs, [e] + es) == Occurrences(vs, e.1) + SumInto(vs, es)
  {
    if vs != [] {
      SumIntoCons(vs[1..], e, es);
      assert ([e] + es)[1..] == es;
    }
  }

  lemma {:induction false} OccurrencesOfDistinct(vs: seq<NodeId>, x: NodeId)
    requires NoDup(vs) && x in vs
    ensures Occurrences(vs, x) == 1
  {
    if vs[0] == x {
      OccurrencesAbsent(vs[1..], x);
    } else {
      OccurrencesOfDistinct(vs[1..], x);
    }
  }

  lemma {:induction false} OccurrencesAbsent(vs: seq<NodeId>, x: NodeId)
    requires x !in vs
    ensures Occurrences(vs, x) == 0
  {
    if vs != [] {
      OccurrencesAbsent(vs[1..], x);
    }
  }

  /** Each edge whose target is among distinct nodes `vs` is counted once in their in-degrees. */
  lemma {:induction false} SumIntoCountsEdges(vs: seq<NodeId>, es: seq<Edge>)
    requires NoDup(vs)
    requires forall e :: e in es ==> e.1 in vs
    ensures SumInto(vs, es) == |es|
  {
    if es == [] {
      SumIntoEmpty(vs);
    } else {
      assert es == [es[0]] + es[1..];
      SumIntoCons(vs, es[0], es[1..]);
      OccurrencesOfDistinct(vs, es[0].1);
      SumIntoCountsEdges(vs, es[1..]);
    }
  }

  lemma {:induction false} SumIntoEmpty(vs: seq<NodeId>)
    ensures SumInto(vs, []) == 0
  {
    if vs != [] {
      SumIntoEmpty(vs[1..]);
    }
  }

  lemma {:induction false} SumDegreesSplit(g: Graph, vs: seq<NodeId>)
    ensures SumDegrees(g, vs) == SumInto(vs, Edges(g)) + SumOut(vs, g.succ)
  {
    if vs != [] {
      SumDegreesSplit(g, vs[1..]);
    }
  }

  /** The handshake rule: the degrees of all nodes add up to twice the number of edges. */
  lemma DegreeSumIsTwiceEdges(g: Graph)
    requires Valid(g)
    ensures SumDegrees(g, g.order) == 2 * |Edges(g)|
  {
    SumDegreesSplit(g, g.order);
    SumOutCountsEdges(g.order, g.succ);
    forall e | e in Edges(g)
      ensures e.1 in g.order
    {
      EdgesMembership(g, e);
    }
    SumIntoCountsEdges(g.order, Edges(g));
  }

  // ---------------------------------------------------------------- node ids

  function MaxId(ids: seq<NodeId>): (m: NodeId)
    requires ids != []
    ensures m in ids
    ensures forall i :: i in ids ==> i <= m
  {
    if |ids| == 1 then ids[0]
    else
      var rest := MaxId(ids[1..]);
      assert forall i :: i in ids ==> i == ids[0] || i in ids[1..];
      if ids[0] < rest then rest else ids[0]
  }

  /** `max(ids) + 1`, or 0 for a graph without nodes: larger than every id in use. */
  function NextId(g: Graph): (id: NodeId)
    ensures forall v :: v in g.order ==> v < id
    ensures g.order == [] ==> id == 0
    ensures g.order != [] ==> id - 1 in g.order
  {
    if g.order == [] then 0 else MaxId(g.order) + 1
  }

  lemma NextIdIsFresh(g: Graph)
    requires Valid(g)
    ensures NextId(g) !in g.nodes
  {
  }

  // ---------------------------------------------------------------- structural edits

  /** Adds a node with no edges at the end of the node order. */
  function AddNode(g: Graph, id: NodeId, n: Node): (r: Graph)
    requires id !in g.nodes
    ensures Valid(g) ==> Valid(r)
    ensures r.order == g.order + [id] && r.nodes == g.nodes[id := n]
    ensures Valid(g) ==> forall u, v :: HasEdge(r, u, v) <==> HasEdge(g, u, v)
  {
    var r := Graph(g.order + [id], g.nodes[id := n], g.succ[id := []]);
    assert Valid(g) ==> Valid(r) by {
      if Valid(g) {
        forall i, j | 0 <= i < j < |r.order|
          ensures r.order[i] != r.order[j]
        {
          assert r.order[i] == g.order[i] && g.order[i] in g.order;
        }
        assert forall v :: v in r.order <==> v in g.order || v == id;
      }
    }
    r
  }

  /** `s` without the element `x`, order kept. */
  function Without(s: seq<NodeId>, x: NodeId): (r: seq<NodeId>)
    ensures forall y :: y in r <==> y in s && y != x
    ensures |r| <= |s|
    ensures NoDup(s) ==> NoDup(r)
  {
    if s == [] then []
    else
      var rest := Without(s[1..], x);
      if s[0] == x then rest
      else
        assert NoDup(s) ==> NoDup(s[1..]) && s[0] !in s[1..] by {
          assert forall k :: 0 <= k < |s[1..]| ==> s[1..][k] == s[k + 1];
        }
        if NoDup(s) then NoDupCons(s[0], rest); [s[0]] + rest else [s[0]] + rest
  }

  lemma NoDupCons(x: NodeId, t: seq<NodeId>)
    requires NoDup(t) && x !in t
    ensures NoDup([x] + t)
  {
    forall i, j | 0 <= i < j < |[x] + t|
      ensures ([x] + t)[i] != ([x] + t)[j]
    {
      assert ([x] + t)[j] == t[j - 1];
      if i > 0 {
        assert ([x] + t)[i] == t[i - 1];
      }
    }
  }

  /** Removes a node and every edge that enters or leaves it. */
  function RemoveNode(g: Graph, id: NodeId): (r: Graph)
    ensures Valid(g) ==> Valid(r)
    ensures r.nodes == g.nodes - {id}
    ensures forall v :: v in r.order <==> v in g.order && v != id
    ensures forall u, v :: HasEdge(r, u, v) <==> HasEdge(g, u, v) && u != id && v != id
  {
    var succ := map u | u in g.succ && u != id :: Without(g.succ[u], id);
    Graph(Without(g.order, id), g.nodes - {id}, succ)
  }

  /** Adds the edge `(u, v)` unless it is already there; both nodes must exist. */
  function AddEdge(g: Graph, u: NodeId, v: NodeId): (r: Graph)
    requires u in g.nodes && v in g.nodes
    ensures Valid(g) ==> Valid(r)
    ensures r.order == g.order && r.nodes == g.nodes
    ensures forall a, b :: HasEdge(r, a, b) <==> HasEdge(g, a, b) || (a, b) == (u, v)
  {
    var out := if u in g.succ then g.succ[u] else [];
    if v in out then g
    else
      var r := g.(succ := g.succ[u := out + [v]]);
      assert Valid(g) ==> NoDup(out + [v]) by {
        if Valid(g) {
          forall i, j | 0 <= i < j < |out + [v]|
            ensures (out + [v])[i] != (out + [v])[j]
          {
            if j == |out| {
              assert (out + [v])[i] == out[i];
            }
          }
        }
      }
      r
  }

  /** Removes the edge `(u, v)` (a graph without it is returned unchanged). */
  function RemoveEdge(g: Graph, u: NodeId, v: NodeId): (r: Graph)
    ensures Valid(g) ==> Valid(r)
    ensures r.order == g.order && r.nodes == g.nodes
    ensures forall a, b :: HasEdge(r, a, b) <==> HasEdge(g, a, b) && (a, b) != (u, v)
  {
    if u in g.succ then g.(succ := g.succ[u := Without(g.succ[u], v)]) else g
  }

  /** Replaces the attributes of an existing node. */
  function SetNode(g: Graph, id: NodeId, n: Node): (r: Graph)
    requires id in g.nodes
    ensures Valid(g) ==> Valid(r)
    ensures r.order == g.order && r.succ == g.succ && r.nodes == g.nodes[id := n]
  {
    g.(nodes := g.nodes[id := n])
  }

  function SetPos(g: Graph, id: NodeId, p: Point): (r: Graph)
    requires id in g.nodes
    ensures Valid(g) ==> Valid(r)
    ensures r.order == g.order && r.succ == g.succ && r.nodes == g.nodes[id := g.nodes[id].(pos := p)]
  {
    SetNode(g, id, g.nodes[id].(pos := p))
  }

  function SetAgent(g: Graph, id: NodeId, a: string): (r: Graph)
    requires id in g.nodes
    ensures Valid(g) ==> Valid(r)
    ensures r.order == g.order && r.succ == g.succ && r.nodes == g.nodes[id := g.nodes[id].(agent := Some(a))]
  {
    SetNode(g, id, g.nodes[id].(agent := Some(a)))
  }

  // ---------------------------------------------------------------- the connect rule

  /** Every edge joins a Function and a Resource. */
  ghost predicate Alternating(g: Graph) {
    forall u, v :: HasEdge(g, u, v) ==> u in g.nodes && v in g.nodes && g.nodes[u].typ != g.nodes[v].typ
  }

  /** Whether connecting `u` to `v` is allowed: the two ends must differ in type. */
  predicate MayConnect(g: Graph, u: NodeId, v: NodeId)
    requires u in g.nodes && v in g.nodes
  {
    g.nodes[u].typ != g.nodes[v].typ
  }

  /** An edge added only when the connect rule allows it keeps every edge alternating. */
  lemma ConnectKeepsAlternation(g: Graph, u: NodeId, v: NodeId)
    requires u in g.nodes && v in g.nodes
    requires Alternating(g) && MayConnect(g, u, v)
    ensures Alternating(AddEdge(g, u, v))
  {
  }

  /** Removing a node keeps every remaining edge alternating. */
  lemma RemoveNodeKeepsAlternation(g: Graph, id: NodeId)
    requires Alternating(g)
    ensures Alternating(RemoveNode(g, id))
  {
  }

  /** So do removing an edge and adding a node without edges. */
  lemma RemoveEdgeKeepsAlternation(g: Graph, u: NodeId, v: NodeId)
    requires Alternating(g)
    ensures Alternating(RemoveEdge(g, u, v))
  {
  }

  lemma AddNodeKeepsAlternation(g: Graph, id: NodeId, n: Node)
    requires Valid(g) && id !in g.nodes && Alternating(g)
    ensures Alternating(AddNode(g, id, n))
  {
  }

  /** An edit that changes attributes but no node's type and no edge keeps the edges alternating. */
  lemma AttributeEditKeepsAlternation(g: Graph, r: Graph)
    requires Alternating(g)
    requires r.succ == g.succ && r.nodes.Keys == g.nodes.Keys
    requires forall v :: v in g.nodes ==> r.nodes[v].typ == g.nodes[v].typ
    ensures Alternating(r)
  {
    forall u, v | HasEdge(r, u, v)
      ensures u in r.nodes && v in r.nodes && r.nodes[u].typ != r.nodes[v].typ
    {
      assert HasEdge(g, u, v);
    }
  }

  // ---------------------------------------------------------------- agents

  /**
   * The effect of assigning agent `a` to node `id`: the node takes the agent and, when it
   * is a Function, so does each of its direct successors; nothing else changes.
   */
  function AssignAgent(g: Graph, id: NodeId, a: string): (r: Graph)
    requires id in g.nodes
    ensures Valid(g) ==> Valid(r)
    ensures r.order == g.order && r.succ == g.succ && r.nodes.Keys == g.nodes.Keys
  {
    var spread := g.nodes[id].typ == Function;
    g.(nodes := map v | v in g.nodes ::
                  if v == id || (spread && HasEdge(g, id, v)) then g.nodes[v].(agent := Some(a)) else g.nodes[v])
  }

  /** Which nodes an assignment reaches: the node itself, and its successors if it is a Function. */
  lemma AssignAgentReach(g: Graph, id: NodeId, a: string, v: NodeId)
    requires id in g.nodes && v in g.nodes
    ensures var n := AssignAgent(g, id, a).nodes[v];
      && n.(agent := g.nodes[v].agent) == g.nodes[v]
      && (n.agent == Some(a) <==> (v == id || (g.nodes[id].typ == Function && HasEdge(g, id, v)) || g.nodes[v].agent == Some(a)))
      && (v != id && !(g.nodes[id].typ == Function && HasEdge(g, id, v)) ==> n == g.nodes[v])
  {
  }

  /**
   * Propagation is one hop: a node two edges away, or a node pointing at the assigned
   * one, keeps its agent unless it is also a direct successor.
   */
  lemma AssignAgentIsOneHop(g: Graph, id: NodeId, a: string, mid: NodeId, far: NodeId)
    requires id in g.nodes && far in g.nodes
    requires HasEdge(g, id, mid) && HasEdge(g, mid, far) && far != id && !HasEdge(g, id, far)
    ensures AssignAgent(g, id, a).nodes[far] == g.nodes[far]
  {
  }

  /** A Resource passes its agent to nobody. */
  lemma AssignAgentToResourceIsLocal(g: Graph, id: NodeId, a: string, v: NodeId)
    requires id in g.nodes && v in g.nodes && v != id
    requires g.nodes[id].typ == Resource
    ensures AssignAgent(g, id, a).nodes[v] == g.nodes[v]
  {
  }
  /** The assignment as the editor runs it: the node first, then its successors one by one. */
  method SpreadAgent(g: Graph, id: NodeId, a: string) returns (r: Graph)
    requires Valid(g) && id in g.nodes
    ensures r == AssignAgent(g, id, a)
  {
    r := SetAgent(g, id, a);
    if r.nodes[id].typ == Function {
      r := SetAgents(r, r.succ[id], a);
    }
    forall v | v in g.nodes
      ensures r.nodes[v] == AssignAgent(g, id, a).nodes[v]
    {
    }
  }

  /** The loop over the successors: each node of `ids` takes agent `a`, one after another. */
  method SetAgents(g: Graph, ids: seq<NodeId>, a: string) returns (r: Graph)
    requires forall v :: v in ids ==> v in g.nodes
    ensures r.order == g.order && r.succ == g.succ && r.nodes.Keys == g.nodes.Keys
    ensures forall v :: v in r.nodes ==> r.nodes[v] == if v in ids then g.nodes[v].(agent := Some(a)) else g.nodes[v]
  {
    r := g;
    var i := 0;
    while i < |ids|
      invariant 0 <= i <= |ids|
      invariant r.order == g.order && r.succ == g.succ && r.nodes.Keys == g.nodes.Keys
      invariant forall v :: v in r.nodes ==> r.nodes[v] == if v in ids[..i] then g.nodes[v].(agent := Some(a)) else g.nodes[v]
    {
      assert ids[..i + 1] == ids[..i] + [ids[i]];
      r := SetAgent(r, ids[i], a);
      i := i + 1;
    }
    assert ids[..i] == ids;
  }


  /** Moves every node holding agent `from` to agent `to`. */
  function RenameAgent(g: Graph, from: string, to: string): (r: Graph)
    ensures Valid(g) ==> Valid(r)
    ensures r.order == g.order && r.succ == g.succ && r.nodes.Keys == g.nodes.Keys
  {
    g.(nodes := map v | v in g.nodes ::
                  if g.nodes[v].agent == Some(from) then g.nodes[v].(agent := Some(to)) else g.nodes[v])
  }

  /** After a rename no node holds the old name, and nodes of other agents are untouched. */
  lemma RenameAgentEffect(g: Graph, from: string, to: string, v: NodeId)
    requires v in g.nodes
    ensures var n := RenameAgent(g, from, to).nodes[v];
      && (from != to ==> n.agent != Some(from))
      && (g.nodes[v].agent == Some(from) ==> n == g.nodes[v].(agent := Some(to)))
      && (g.nodes[v].agent != Some(from) ==> n == g.nodes[v])
  {
  }

  /** Renaming to a name no node holds, and back again, restores the graph. */
  lemma RenameAgentRoundTrip(g: Graph, from: string, to: string)
    requires forall v :: v in g.nodes ==> g.nodes[v].agent != Some(to)
    ensures RenameAgent(RenameAgent(g, from, to), to, from) == g
  {
    var r := RenameAgent(RenameAgent(g, from, to), to, from);
    forall v | v in g.nodes
      ensures r.nodes[v] == g.nodes[v]
    {
    }
    assert r.nodes == g.nodes;
  }

  /** The rename as the editor runs it: every node, in order, holding `from` gets `to`. */
  method RetagAgent(g: Graph, from: string, to: string) returns (r: Graph)
    requires Valid(g)
    ensures r == RenameAgent(g, from, to)
  {
    r := g;
    var ids := g.order;
    var i := 0;
    while i < |ids|
      invariant 0 <= i <= |ids|
      invariant r.order == g.order && r.succ == g.succ && r.nodes.Keys == g.nodes.Keys
      invariant forall v :: v in r.nodes ==>
        r.nodes[v] == if v in ids[..i] && g.nodes[v].agent == Some(from) then g.nodes[v].(agent := Some(to)) else g.nodes[v]
    {
      var v := ids[i];
      assert v !in ids[..i];
      assert ids[..i + 1] == ids[..i] + [v];
      if r.nodes[v].agent == Some(from) {
        r := SetAgent(r, v, to);
      }
      i := i + 1;
    }
    assert ids[..i] == ids;
    forall v | v in g.nodes
      ensures r.nodes[v] == RenameAgent(g, from, to).nodes[v]
    {
      assert v in ids;
    }
  }
}
