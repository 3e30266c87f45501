/**
 * The highlight groups the comparison window draws over a graph: one group per cycle, the
 * edges that cross agent boundaries, and one group per community with the edges inside it.
 * The cycles and communities themselves are found by the graph library; here they are inputs,
 * in the order the library returns them.
 */
module Highlights {
  import opened Wrappers
  import opened Graphs
  import Config

  /** One highlight group: nodes to halo, edges to underline, a colour and a stroke width. */
  datatype Highlight = Highlight(nodes: seq<NodeId>, edges: seq<Edge>, color: string, width: real)

  /** The neon palette of the all-cycles view. */
  const NeonColors: seq<string> := ["#FF1493", "#00FF00", "#00FFFF", "#FFD700", "#FF4500", "#9400D3", "#32CD32", "#1E90FF"]

  /** The single-cycle view's palette: the same, but with three entries made readable on white. */
  const SingleCycleColors: seq<string> := ["#FF1493", "#00C000", "#DE52D0", "#FFD700", "#FF4500", "#9400D3", "#32CD32", "#060C12"]

  const CommunityColors: seq<string> := ["#FF6B6B", "#4ECDC4", "#45B7D1", "#FFA07A", "#98D8C8", "#F7DC6F", "#BB8FCE", "#B2BABB"]

  const CrossColor: string := "#FF0000"

  /** Every palette has 8 different colours. */
  predicate Palette(colors: seq<string>) {
    |colors| == 8 && forall i, j :: 0 <= i < j < 8 ==> colors[i] != colors[j]
  }

  lemma PalettesAreDistinct()
    ensures Palette(NeonColors) && Palette(SingleCycleColors) && Palette(CommunityColors)
  {
  }

  // ---------------------------------------------------------------- cycles

  /** The closed edge list of a cycle path: each node to the next, and the last back to the first. */
  function CycleEdges(path: seq<NodeId>): (es: seq<Edge>)
    ensures |es| == |path|
  {
    seq(|path|, j requires 0 <= j < |path| => (path[j], path[(j + 1) % |path|]))
  }

  /**
   * The list is a closed walk: it starts and ends at the first node, each edge starts where
   * the previous one ends, and the edge sources are the path itself.
   */
  lemma CycleEdgesClose(path: seq<NodeId>)
    requires |path| > 0
    ensures var es := CycleEdges(path);
      && es[0].0 == path[0] && es[|es| - 1].1 == path[0]
      && (forall j :: 0 <= j < |es| - 1 ==> es[j].1 == es[j + 1].0)
      && (forall j :: 0 <= j < |es| ==> es[j].0 == path[j])
  {
    var es := CycleEdges(path);
    var n := |path|;
    assert es[n - 1] == (path[n - 1], path[(n - 1 + 1) % n]);
    assert (n - 1 + 1) % n == 0;
    forall j | 0 <= j < n - 1
      ensures es[j].1 == es[j + 1].0
    {
      assert es[j] == (path[j], path[(j + 1) % n]);
      assert (j + 1) % n == j + 1;
    }
    forall j | 0 <= j < n
      ensures es[j].0 == path[j]
    {
      assert es[j] == (path[j], path[(j + 1) % n]);
    }
  }

  /** The edge loop of both cycle builders. */
  method BuildCycleEdges(path: seq<NodeId>) returns (es: seq<Edge>)
    ensures es == CycleEdges(path)
  {
    es := [];
    var j := 0;
    while j < |path|
      invariant 0 <= j <= |path|
      invariant |es| == j
      invariant forall k :: 0 <= k < j ==> es[k] == (path[k], path[(k + 1) % |path|])
    {
      var u := path[j];
      var v := path[(j + 1) % |path|];
      es := es + [(u, v)];
      j := j + 1;
    }
  }

  /** `get_cycle_highlights`: cycle `i` in palette colour `i % 8`, width 8. */
  function CycleHighlights(cycles: seq<seq<NodeId>>): seq<Highlight> {
    seq(|cycles|, i requires 0 <= i < |cycles| => Highlight(cycles[i], CycleEdges(cycles[i]), NeonColors[i % 8], 8.0))
  }

  method GetCycleHighlights(cycles: seq<seq<NodeId>>) returns (hs: seq<Highlight>)
    ensures hs == CycleHighlights(cycles)
  {
    hs := [];
    var i := 0;
    while i < |cycles|
      invariant 0 <= i <= |cycles|
      invariant hs == CycleHighlights(cycles[..i])
    {
      var es := BuildCycleEdges(cycles[i]);
      hs := hs + [Highlight(cycles[i], es, NeonColors[i % 8], 8.0)];
      i := i + 1;
    }
    assert cycles[..i] == cycles;
  }

  /** Two cycles get the same colour exactly when their indices agree modulo 8. */
  lemma CycleColorsRepeat(cycles: seq<seq<NodeId>>, i: nat, j: nat)
    requires i < |cycles| && j < |cycles|
    ensures var hs := CycleHighlights(cycles);
      hs[i].color == hs[j].color <==> i % 8 == j % 8
  {
    PalettesAreDistinct();
    var a, b := i % 8, j % 8;
    assert a != b ==> NeonColors[a] != NeonColors[b];
  }

  /**
   * `get_single_cycle_highlight`: nothing for an index out of range; otherwise that one
   * cycle, width 10, in the single-cycle palette's colour `index % 8`.
   */
  function SingleCycleHighlight(cycles: seq<seq<NodeId>>, index: int): (hs: seq<Highlight>)
    ensures hs == [] <==> index < 0 || index >= |cycles|
    ensures |hs| <= 1
  {
    if index < 0 || index >= |cycles| then []
    else [Highlight(cycles[index], CycleEdges(cycles[index]), SingleCycleColors[index % 8], 10.0)]
  }

  method GetSingleCycleHighlight(cycles: seq<seq<NodeId>>, index: int) returns (hs: seq<Highlight>)
    ensures hs == SingleCycleHighlight(cycles, index)
  {
    if index < 0 || index >= |cycles| {
      return [];
    }
    var path := cycles[index];
    var es := BuildCycleEdges(path);
    hs := [Highlight(path, es, SingleCycleColors[index % 8], 10.0)];
  }

  /**
   * The single-cycle view shows the same nodes and edges as the all-cycles view does for
   * that cycle; only the width differs, and the colour does too for indices 1, 2 and 7 mod 8.
   */
  lemma SingleCycleMatchesFullView(cycles: seq<seq<NodeId>>, index: nat)
    requires index < |cycles|
    ensures var one, all := SingleCycleHighlight(cycles, index)[0], CycleHighlights(cycles)[index];
      && one.nodes == all.nodes && one.edges == all.edges
      && one.width == 10.0 && all.width == 8.0
      && (one.color == all.color <==> index % 8 !in {1, 2, 7})
  {
  }

  // ---------------------------------------------------------------- interdependence

  /** A node's agent, "Unassigned" when it has none. */
  function AgentOf(n: Node): string {
    n.agent.GetOr(Config.Unassigned)
  }

  /** An edge between nodes of different agents. */
  predicate Crosses(g: Graph, e: Edge) {
    e.0 in g.nodes && e.1 in g.nodes && AgentOf(g.nodes[e.0]) != AgentOf(g.nodes[e.1])
  }

  /** The crossing edges among `es`, in order. */
  function CrossEdges(g: Graph, es: seq<Edge>): seq<Edge> {
    if es == [] then []
    else CrossEdges(g, es[..|es| - 1]) + (if Crosses(g, es[|es| - 1]) then [es[|es| - 1]] else [])
  }

  lemma {:induction false} CrossEdgesMembership(g: Graph, es: seq<Edge>, e: Edge)
    ensures e in CrossEdges(g, es) <==> e in es && Crosses(g, e)
  {
    if es != [] {
      CrossEdgesMembership(g, es[..|es| - 1], e);
      assert es == es[..|es| - 1] + [es[|es| - 1]];
    }
  }

  /** Adds `v` unless it is there already. */
  function AddOnce(vs: seq<NodeId>, v: NodeId): seq<NodeId> {
    if v in vs then vs else vs + [v]
  }

  /**
   * The endpoints of `es`, each once, in order of first appearance (the source collects them
   * in a set, whose order is not specified; this fixes one).
   */
  function Involved(es: seq<Edge>): seq<NodeId> {
    if es == [] then []
    else var e := es[|es| - 1]; AddOnce(AddOnce(Involved(es[..|es| - 1]), e.0), e.1)
  }

  lemma {:induction false} InvolvedMembership(es: seq<Edge>, v: NodeId)
    ensures v in Involved(es) <==> exists e :: e in es && (v == e.0 || v == e.1)
    ensures NoDup(Involved(es))
  {
    if es != [] {
      var init := es[..|es| - 1];
      InvolvedMembership(init, v);
      assert es == init + [es[|es| - 1]];
      if v in Involved(init) {
        var e :| e in init && (v == e.0 || v == e.1);
        assert e in es;
      }
      forall x | x in Involved(init)
        ensures x in Involved(es)
      {
      }
    }
  }

  /**
   * `get_interdependence_highlights`: nothing when no edge crosses agents; otherwise one red
   * group, width 8, of the crossing edges in edge order and their endpoints.
   */
  function InterdependenceHighlights(g: Graph): seq<Highlight> {
    var cross := CrossEdges(g, Edges(g));
    if cross == [] then [] else [Highlight(Involved(cross), cross, CrossColor, 8.0)]
  }

  /**
   * The group holds exactly the edges whose endpoints have different agents, and exactly the
   * nodes at the end of such an edge; there is no group exactly when there is no such edge.
   */
  lemma InterdependenceIsExact(g: Graph)
    requires Valid(g)
    ensures var hs := InterdependenceHighlights(g);
      && (hs == [] <==> forall u, v :: HasEdge(g, u, v) ==> !Crosses(g, (u, v)))
      && (hs != [] ==>
            && |hs| == 1 && hs[0].color == CrossColor && hs[0].width == 8.0
            && (forall u, v :: (u, v) in hs[0].edges <==> HasEdge(g, u, v) && Crosses(g, (u, v)))
            && (forall v :: v in hs[0].nodes <==> CrossNeighbour(g, v))
            && NoDup(hs[0].nodes))
  {
    var cross := CrossEdges(g, Edges(g));
    CrossEdgesOfGraph(g);
    if cross != [] {
      assert cross[0] in cross;
      forall v
        ensures v in Involved(cross) <==> CrossNeighbour(g, v)
      {
        InvolvedOfCross(g, v);
      }
      InvolvedMembership(cross, 0);
    } else {
      forall u, v | HasEdge(g, u, v)
        ensures !Crosses(g, (u, v))
      {
        assert (u, v) !in cross;
      }
    }
  }

  /** Node `v` is at one end of an edge that crosses agents. */
  ghost predicate CrossNeighbour(g: Graph, v: NodeId) {
    exists u :: (HasEdge(g, u, v) && Crosses(g, (u, v))) || (HasEdge(g, v, u) && Crosses(g, (v, u)))
  }

  lemma CrossEdgesOfGraph(g: Graph)
    requires Valid(g)
    ensures forall u, v :: (u, v) in CrossEdges(g, Edges(g)) <==> HasEdge(g, u, v) && Crosses(g, (u, v))
  {
    forall u, v
      ensures (u, v) in CrossEdges(g, Edges(g)) <==> HasEdge(g, u, v) && Crosses(g, (u, v))
    {
      CrossEdgesMembership(g, Edges(g), (u, v));
      EdgesMembership(g, (u, v));
    }
  }

  lemma InvolvedOfCross(g: Graph, v: NodeId)
    requires Valid(g)
    ensures v in Involved(CrossEdges(g, Edges(g))) <==> CrossNeighbour(g, v)
  {
    var cross := CrossEdges(g, Edges(g));
    CrossEdgesOfGraph(g);
    InvolvedMembership(cross, v);
    if v in Involved(cross) {
      var e :| e in cross && (v == e.0 || v == e.1);
      assert (e.0, e.1) in cross;
      if v == e.1 {
        assert HasEdge(g, e.0, v) && Crosses(g, (e.0, v));
      } else {
        assert HasEdge(g, v, e.1) && Crosses(g, (v, e.1));
      }
    }
    if CrossNeighbour(g, v) {
      var u :| (HasEdge(g, u, v) && Crosses(g, (u, v))) || (HasEdge(g, v, u) && Crosses(g, (v, u)));
      var e := if HasEdge(g, u, v) && Crosses(g, (u, v)) then (u, v) else (v, u);
      assert e in cross && (v == e.0 || v == e.1);
    }
  }

  /** The loop of `get_interdependence_highlights` over the graph's edges. */
  method GetInterdependenceHighlights(g: Graph) returns (hs: seq<Highlight>)
    ensures hs == InterdependenceHighlights(g)
  {
    var es := Edges(g);
    var cross: seq<Edge> := [];
    var involved: seq<NodeId> := [];
    var i := 0;
    while i < |es|
      invariant 0 <= i <= |es|
      invariant cross == CrossEdges(g, es[..i])
      invariant involved == Involved(cross)
    {
      var (u, v) := es[i];
      assert es[..i + 1][..i] == es[..i];
      if u in g.nodes && v in g.nodes && AgentOf(g.nodes[u]) != AgentOf(g.nodes[v]) {
        cross := cross + [(u, v)];
        assert cross[..|cross| - 1] == CrossEdges(g, es[..i]);
        if u !in involved {
          involved := involved + [u];
        }
        if v !in involved {
          involved := involved + [v];
        }
      }
      i := i + 1;
    }
    assert es[..i] == es;
    if cross == [] {
      return [];
    }
    hs := [Highlight(involved, cross, CrossColor, 8.0)];
  }

  // ---------------------------------------------------------------- communities

  /** The edges from `u` to the nodes of `vs`, in the order of `vs`. */
  function Row(g: Graph, u: NodeId, vs: seq<NodeId>): seq<Edge> {
    if vs == [] then []
    else Row(g, u, vs[..|vs| - 1]) + (if HasEdge(g, u, vs[|vs| - 1]) then [(u, vs[|vs| - 1])] else [])
  }

  /** The edges from a node of `us` to a node of `vs`, row by row. */
  function Intra(g: Graph, us: seq<NodeId>, vs: seq<NodeId>): seq<Edge> {
    if us == [] then []
    else Intra(g, us[..|us| - 1], vs) + Row(g, us[|us| - 1], vs)
  }

  lemma {:induction false} RowMembership(g: Graph, u: NodeId, vs: seq<NodeId>, e: Edge)
    ensures e in Row(g, u, vs) <==> e.0 == u && e.1 in vs && HasEdge(g, u, e.1)
  {
    if vs != [] {
      RowMembership(g, u, vs[..|vs| - 1], e);
      assert vs == vs[..|vs| - 1] + [vs[|vs| - 1]];
    }
  }

  /** The intra-community edges are exactly the graph's edges with both ends in the community. */
  lemma {:induction false} IntraMembership(g: Graph, us: seq<NodeId>, vs: seq<NodeId>, e: Edge)
    ensures e in Intra(g, us, vs) <==> e.0 in us && e.1 in vs && HasEdge(g, e.0, e.1)
  {
    if us != [] {
      IntraMembership(g, us[..|us| - 1], vs, e);
      RowMembership(g, us[|us| - 1], vs, e);
      assert us == us[..|us| - 1] + [us[|us| - 1]];
    }
  }

  /** The nested loop over a community's nodes that collects the edges inside it. */
  method IntraCommunityEdges(g: Graph, c: seq<NodeId>) returns (es: seq<Edge>)
    ensures es == Intra(g, c, c)
  {
    es := [];
    var i := 0;
    while i < |c|
      invariant 0 <= i <= |c|
      invariant es == Intra(g, c[..i], c)
    {
      var u := c[i];
      ghost var before := es;
      var j := 0;
      while j < |c|
        invariant 0 <= j <= |c|
        invariant es == before + Row(g, u, c[..j])
      {
        var v := c[j];
        assert c[..j + 1][..j] == c[..j];
        if HasEdge(g, u, v) {
          es := es + [(u, v)];
        }
        j := j + 1;
      }
      assert c[..j] == c;
      assert c[..i + 1][..i] == c[..i];
      i := i + 1;
    }
    assert c[..i] == c;
  }

  /** `get_modularity_highlights`: community `i` with its inner edges, colour `i % 8`, width 10. */
  function ModularityHighlights(g: Graph, communities: seq<seq<NodeId>>): seq<Highlight> {
    seq(|communities|, i requires 0 <= i < |communities| =>
      Highlight(communities[i], Intra(g, communities[i], communities[i]), CommunityColors[i % 8], 10.0))
  }

  method GetModularityHighlights(g: Graph, communities: seq<seq<NodeId>>) returns (hs: seq<Highlight>)
    ensures hs == ModularityHighlights(g, communities)
  {
    hs := [];
    var i := 0;
    while i < |communities|
      invariant 0 <= i <= |communities|
      invariant hs == ModularityHighlights(g, communities[..i])
    {
      var es := IntraCommunityEdges(g, communities[i]);
      hs := hs + [Highlight(communities[i], es, CommunityColors[i % 8], 10.0)];
      i := i + 1;
    }
    assert communities[..i] == communities;
  }

  /** Puts `c` after every community at least as large, before the first smaller one. */
  function Insert(c: seq<NodeId>, sorted: seq<seq<NodeId>>): (r: seq<seq<NodeId>>)
    ensures multiset(r) == multiset(sorted) + multiset{c}
    ensures |r| == |sorted| + 1
  {
    if sorted == [] then [c]
    else if |c| > |sorted[0]| then [c] + sorted
    else
      assert sorted == [sorted[0]] + sorted[1..];
      [sorted[0]] + Insert(c, sorted[1..])
  }

  /** `communities.sort(key=len, reverse=True)`: a stable sort, largest first. */
  function SortBySize(cs: seq<seq<NodeId>>): (r: seq<seq<NodeId>>)
    ensures multiset(r) == multiset(cs)
    ensures |r| == |cs|
  {
    if cs == [] then []
    else
      assert cs == cs[..|cs| - 1] + [cs[|cs| - 1]];
      Insert(cs[|cs| - 1], SortBySize(cs[..|cs| - 1]))
  }

  predicate LargestFirst(cs: seq<seq<NodeId>>) {
    forall i, j :: 0 <= i < j < |cs| ==> |cs[i]| >= |cs[j]|
  }

  lemma {:induction false} InsertKeepsOrder(c: seq<NodeId>, sorted: seq<seq<NodeId>>)
    requires LargestFirst(sorted)
    ensures LargestFirst(Insert(c, sorted))
  {
    if sorted != [] && |c| <= |sorted[0]| {
      InsertKeepsOrder(c, sorted[1..]);
      var r := Insert(c, sorted[1..]);
      forall x | x in r
        ensures |x| <= |sorted[0]|
      {
        assert x in multiset(r);
        assert x in multiset(sorted[1..]) + multiset{c};
      }
      forall i, j | 0 <= i < j < |[sorted[0]] + r|
        ensures |([sorted[0]] + r)[i]| >= |([sorted[0]] + r)[j]|
      {
        if i == 0 {
          assert ([sorted[0]] + r)[j] in r;
        }
      }
    }
  }

  /** The sorted list is ordered by size, largest first, and holds the same communities. */
  lemma {:induction false} SortBySizeSorts(cs: seq<seq<NodeId>>)
    ensures LargestFirst(SortBySize(cs))
  {
    if cs != [] {
      SortBySizeSorts(cs[..|cs| - 1]);
      InsertKeepsOrder(cs[|cs| - 1], SortBySize(cs[..|cs| - 1]));
    }
  }

  /** The communities of exactly `k` members, in the order they appear. */
  function OfSize(s: seq<seq<NodeId>>, k: nat): (r: seq<seq<NodeId>>)
    ensures |r| <= |s|
  {
    if s == [] then []
    else (if |s[0]| == k then [s[0]] else []) + OfSize(s[1..], k)
  }

  lemma {:induction false} OfSizeAppend(a: seq<seq<NodeId>>, b: seq<seq<NodeId>>, k: nat)
    ensures OfSize(a + b, k) == OfSize(a, k) + OfSize(b, k)
  {
    if a == [] {
      assert a + b == b;
    } else {
      var head := if |a[0]| == k then [a[0]] else [];
      assert (a + b)[0] == a[0];
      assert (a + b)[1..] == a[1..] + b;
      OfSizeAppend(a[1..], b, k);
      assert OfSize(a + b, k) == head + (OfSize(a[1..], k) + OfSize(b, k));
    }
  }

  lemma OfSizeSnoc(s: seq<seq<NodeId>>, c: seq<NodeId>, k: nat)
    ensures OfSize(s + [c], k) == OfSize(s, k) + (if |c| == k then [c] else [])
  {
    OfSizeAppend(s, [c], k);
    assert [c][1..] == [];
  }

  lemma LargestFirstTail(sorted: seq<seq<NodeId>>)
    requires LargestFirst(sorted) && sorted != []
    ensures LargestFirst(sorted[1..])
  {
    forall i, j | 0 <= i < j < |sorted[1..]|
      ensures |sorted[1..][i]| >= |sorted[1..][j]|
    {
      assert sorted[1..][i] == sorted[i + 1] && sorted[1..][j] == sorted[j + 1];
    }
  }

  /** Stability: inserting `c` into a largest-first list keeps the same-size communities in order, `c` last. */
  lemma {:induction false} InsertIsStable(c: seq<NodeId>, sorted: seq<seq<NodeId>>, k: nat)
    requires LargestFirst(sorted)
    ensures OfSize(Insert(c, sorted), k) == OfSize(sorted, k) + (if |c| == k then [c] else [])
  {
    if sorted == [] {
      assert Insert(c, sorted) == [c];
      assert [c][1..] == [];
    } else if |c| > |sorted[0]| {
      assert Insert(c, sorted) == [c] + sorted;
      if |c| == k {
        SmallerHeadNone(sorted, k);
      }
      assert ([c] + sorted)[0] == c;
      assert ([c] + sorted)[1..] == sorted;
    } else {
      var rest := Insert(c, sorted[1..]);
      assert Insert(c, sorted) == [sorted[0]] + rest;
      LargestFirstTail(sorted);
      InsertIsStable(c, sorted[1..], k);
      assert ([sorted[0]] + rest)[0] == sorted[0];
      assert ([sorted[0]] + rest)[1..] == rest;
    }
  }

  /** A largest-first list headed by a community smaller than `k` has none of `k` members. */
  lemma SmallerHeadNone(sorted: seq<seq<NodeId>>, k: nat)
    requires LargestFirst(sorted) && sorted != [] && |sorted[0]| < k
    ensures OfSize(sorted, k) == []
  {
    forall i | 0 <= i < |sorted|
      ensures |sorted[i]| != k
    {
      assert i == 0 || |sorted[0]| >= |sorted[i]|;
    }
    OfSizeNone(sorted, k);
  }

  /** A list with no community of `k` members keeps none of them. */
  lemma {:induction false} OfSizeNone(s: seq<seq<NodeId>>, k: nat)
    requires forall i :: 0 <= i < |s| ==> |s[i]| != k
    ensures OfSize(s, k) == []
  {
    if s != [] {
      OfSizeNone(s[1..], k);
    }
  }

  /**
   * `communities.sort(key=len, reverse=True)` is stable: the communities of any one size
   * keep their input order.
   */
  lemma {:induction false} SortBySizeIsStable(cs: seq<seq<NodeId>>, k: nat)
    ensures OfSize(SortBySize(cs), k) == OfSize(cs, k)
  {
    if cs != [] {
      var init, last := cs[..|cs| - 1], cs[|cs| - 1];
      assert cs == init + [last];
      SortBySizeIsStable(init, k);
      SortBySizeSorts(init);
      InsertIsStable(last, SortBySize(init), k);
      OfSizeSnoc(init, last, k);
    }
  }

  /**
   * `get_single_modularity_highlight`: the communities largest first; nothing for an index
   * out of range; otherwise that community with its inner edges, colour `index % 8`, width 10.
   */
  function SingleModularityHighlight(g: Graph, communities: seq<seq<NodeId>>, index: int): (hs: seq<Highlight>)
    ensures hs == [] <==> index < 0 || index >= |communities|
    ensures |hs| <= 1
  {
    var sorted := SortBySize(communities);
    if index < 0 || index >= |sorted| then []
    else [Highlight(sorted[index], Intra(g, sorted[index], sorted[index]), CommunityColors[index % 8], 10.0)]
  }

  /**
   * Index 0 shows a largest community, and a group of index `k` is one of the communities,
   * no larger than any shown at a smaller index, with exactly its inner edges.
   */
  lemma SingleModularityPicksBySize(g: Graph, communities: seq<seq<NodeId>>, k: nat)
    requires k < |communities|
    ensures var h := SingleModularityHighlight(g, communities, k)[0];
      && h.nodes in communities
      && (k == 0 ==> forall c :: c in communities ==> |c| <= |h.nodes|)
      && (forall i :: 0 <= i < k ==> |SingleModularityHighlight(g, communities, i)[0].nodes| >= |h.nodes|)
      && (forall e :: e in h.edges <==> e.0 in h.nodes && e.1 in h.nodes && HasEdge(g, e.0, e.1))
  {
    var sorted := SortBySize(communities);
    SortBySizeSorts(communities);
    assert sorted[k] in multiset(sorted);
    forall e
      ensures e in Intra(g, sorted[k], sorted[k]) <==> e.0 in sorted[k] && e.1 in sorted[k] && HasEdge(g, e.0, e.1)
    {
      IntraMembership(g, sorted[k], sorted[k], e);
    }
    if k == 0 {
      forall c | c in communities
        ensures |c| <= |sorted[0]|
      {
        assert c in multiset(sorted);
        var j :| 0 <= j < |sorted| && sorted[j] == c;
      }
    }
  }

  method GetSingleModularityHighlight(g: Graph, communities: seq<seq<NodeId>>, index: int) returns (hs: seq<Highlight>)
    ensures hs == SingleModularityHighlight(g, communities, index)
  {
    var sorted := SortBySize(communities);
    if index < 0 || index >= |sorted| {
      return [];
    }
    var target := sorted[index];
    var es := IntraCommunityEdges(g, target);
    hs := [Highlight(target, es, CommunityColors[index % 8], 10.0)];
  }
}
