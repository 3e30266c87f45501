/**
 * The JSAT layer engine: which layer a node belongs to, where it is drawn in each view
 * mode, which layer a vertical position snaps to, and the layer baked into a node before
 * a graph is written out.
 */
module Layers {
  import opened Wrappers
  import opened Geometry
  import opened Graphs
  import Config

  datatype ViewMode = Free | Jsat

  /** The layer a node of type `t` gets when it has no valid stored layer. */
  function DefaultLayer(t: NodeType): (name: string)
    ensures Config.IsLayer(name)
  {
    Config.LayerKeysFollowOrder();
    if t == Resource then "Base Environment" else "Distributed Work"
  }

  predicate HasValidLayer(n: Node) {
    n.layer.Some? && Config.IsLayer(n.layer.value)
  }

  /** The layer a node is drawn on: its stored layer when that names a layer, else by type. */
  function NodeLayer(n: Node): (name: string)
    ensures Config.IsLayer(name)
    ensures HasValidLayer(n) ==> name == n.layer.value
  {
    if HasValidLayer(n) then n.layer.value else DefaultLayer(n.typ)
  }

  /** Without a valid stored layer, resources sit on the bottom layer and functions on "Distributed Work". */
  lemma NodeLayerFallback(n: Node)
    requires !HasValidLayer(n)
    ensures n.typ == Resource ==> NodeLayer(n) == Config.LayerOrder[|Config.LayerOrder| - 1]
    ensures n.typ == Function ==> NodeLayer(n) == Config.LayerOrder[2]
  {
  }

  predicate StartsWith(s: string, prefix: string) {
    |prefix| <= |s| && s[..|prefix|] == prefix
  }

  /**
   * The earlier revision's rule: a valid stored layer wins, then the label prefixes
   * "Confirming" and "Confirmation" pick the two upper layers, then the type decides.
   */
  function LegacyNodeLayer(n: Node): (name: string)
    ensures Config.IsLayer(name)
    ensures HasValidLayer(n) ==> name == n.layer.value
  {
    Config.LayerKeysFollowOrder();
    if HasValidLayer(n) then n.layer.value
    else if StartsWith(n.caption, "Confirming") then "Synchronicity Functions"
    else if StartsWith(n.caption, "Confirmation") then "Coordination Grounding"
    else if n.typ == Function then "Distributed Work"
    else "Base Environment"
  }

  /** The two rules differ only on nodes without a valid layer whose label carries one of the prefixes. */
  lemma LegacyLayerAgreesWithoutPrefix(n: Node)
    requires !StartsWith(n.caption, "Confirming") && !StartsWith(n.caption, "Confirmation")
    ensures LegacyNodeLayer(n) == NodeLayer(n)
  {
  }

  lemma LegacyPrefixesPickUpperLayers(n: Node)
    requires !HasValidLayer(n)
    ensures StartsWith(n.caption, "Confirming") ==> LegacyNodeLayer(n) == Config.LayerOrder[0]
    ensures (!StartsWith(n.caption, "Confirming") && StartsWith(n.caption, "Confirmation"))
      ==> LegacyNodeLayer(n) == Config.LayerOrder[1]
  {
  }

  /**
   * World position a node is drawn at, given the layer it belongs to: its stored position,
   * except in the layered view where the height is that of its layer, unless the node is
   * being dragged at that moment.
   */
  function DrawPos(pos: Point, layer: string, beingDragged: bool, vm: ViewMode): (p: Point)
    requires Config.IsLayer(layer)
    ensures p.x == pos.x
    ensures (vm == Free || beingDragged) ==> p == pos
    ensures (vm == Jsat && !beingDragged) ==> p.y == Config.LayerY(layer)
  {
    if vm == Jsat && beingDragged then pos
    else if vm == Free then pos
    else
      assert vm == Jsat && !beingDragged;
      Point(pos.x, Config.LayerY(layer))
  }

  // ---------------------------------------------------------------- nearest layer

  /** `abs(y - ly)`. */
  function Distance(y: real, ly: real): (d: real)
    ensures d >= 0.0 && (d == y - ly || d == ly - y)
  {
    if y - ly < 0.0 then ly - y else y - ly
  }

  /** The starting value of the running minimum. */
  const Sentinel: real := 9999.0

  /**
   * The running minimum over the entries of `t`, in order: the index of the entry chosen so
   * far (none while every entry is at least the sentinel away) and the distance recorded.
   * Entries replace the choice only when strictly closer, so among equally close entries
   * the first one wins.
   */
  function Scan(t: seq<(string, real)>, y: real): (r: (Option<nat>, real))
    ensures r.0.None? ==> r.1 == Sentinel && forall j :: 0 <= j < |t| ==> Distance(y, t[j].1) >= Sentinel
    ensures r.0.Some? ==>
      && r.0.value < |t| && r.1 == Distance(y, t[r.0.value].1) < Sentinel
      && (forall j :: 0 <= j < |t| ==> r.1 <= Distance(y, t[j].1))
      && (forall j :: 0 <= j < r.0.value ==> r.1 < Distance(y, t[j].1))
  {
    if t == [] then (None, Sentinel)
    else
      var prev := Scan(t[..|t| - 1], y);
      var d := Distance(y, t[|t| - 1].1);
      if d < prev.1 then (Some(|t| - 1), d) else prev
  }

  /** The layer name a world height snaps to, or none when every layer is too far. */
  function NearestLayer(y: real): (r: Option<string>)
    ensures r.Some? ==> Config.IsLayer(r.value)
  {
    var r := Scan(Config.JsatLayers, y);
    if r.0.Some? then Config.LayerIndexOfEntry(r.0.value); Some(Config.JsatLayers[r.0.value].0) else None
  }

  /**
   * A snap picks a layer at least as close as every other layer, and strictly closer than
   * every layer before it in order; no snap happens only when every layer is 9999 or more away.
   */
  lemma NearestLayerIsNearest(y: real)
    ensures NearestLayer(y).None? <==> forall name :: name in Config.LayerOrder ==> Distance(y, Config.LayerY(name)) >= Sentinel
    ensures NearestLayer(y).Some? ==>
      var best := NearestLayer(y).value;
      && best in Config.LayerOrder
      && (forall name :: name in Config.LayerOrder ==> Distance(y, Config.LayerY(best)) <= Distance(y, Config.LayerY(name)))
      && (forall i, k :: 0 <= i < k < |Config.LayerOrder| && Config.LayerOrder[k] == best
            ==> Distance(y, Config.LayerY(best)) < Distance(y, Config.LayerY(Config.LayerOrder[i])))
  {
    Config.LayerKeysFollowOrder();
    var r := Scan(Config.JsatLayers, y);
    assert NearestLayer(y) == if r.0.Some? then Some(Config.JsatLayers[r.0.value].0) else None;
    forall k | 0 <= k < |Config.JsatLayers|
      ensures Config.LayerOrder[k] == Config.JsatLayers[k].0
      ensures Config.LayerY(Config.LayerOrder[k]) == Config.JsatLayers[k].1
    {
      Config.LayerIndexOfEntry(k);
    }
    if r.0.None? {
      forall name | name in Config.LayerOrder
        ensures Distance(y, Config.LayerY(name)) >= Sentinel
      {
        var k :| 0 <= k < |Config.LayerOrder| && Config.LayerOrder[k] == name;
      }
    } else {
      var best := Config.JsatLayers[r.0.value].0;
      assert best == Config.LayerOrder[r.0.value];
      forall name | name in Config.LayerOrder
        ensures Distance(y, Config.LayerY(best)) <= Distance(y, Config.LayerY(name))
      {
        var k :| 0 <= k < |Config.LayerOrder| && Config.LayerOrder[k] == name;
      }
      forall i, k | 0 <= i < k < |Config.LayerOrder| && Config.LayerOrder[k] == best
        ensures Distance(y, Config.LayerY(best)) < Distance(y, Config.LayerY(Config.LayerOrder[i]))
      {
        Config.LayerIndexOfEntry(k);
        Config.LayerIndexOfEntry(r.0.value);
      }
      assert Distance(y, Config.LayerY(best)) < Sentinel;
    }
  }

  /** The same search, as the loop over the layer table that the editor runs. */
  method LayerFromY(y: real) returns (closest: Option<string>)
    ensures closest == NearestLayer(y)
  {
    var t := Config.JsatLayers;
    closest := None;
    var minDist := Sentinel;
    ghost var chosen: Option<nat> := None;
    var i := 0;
    while i < |t|
      invariant 0 <= i <= |t|
      invariant (chosen, minDist) == Scan(t[..i], y)
      invariant chosen.Some? ==> chosen.value < i && closest == Some(t[chosen.value].0)
      invariant chosen.None? ==> closest == None
    {
      var (name, ly) := t[i];
      var dist := Distance(y, ly);
      assert t[..i + 1][..i] == t[..i];
      if dist < minDist {
        minDist := dist;
        closest := Some(name);
        chosen := Some(i);
      }
      i := i + 1;
    }
    assert t[..i] == t;
  }

  // ---------------------------------------------------------------- new nodes and baking

  /** The node the editor adds: label "F" or "R", no agent but "Unassigned", the default layer stored. */
  function NewNode(t: NodeType, p: Point): (n: Node)
    ensures n.typ == t && n.pos == p && n.agent == Some(Config.Unassigned)
    ensures HasValidLayer(n) && NodeLayer(n) == n.layer.value
  {
    Node(t, if t == Function then "F" else "R", Some(Config.Unassigned), p, Some(DefaultLayer(t)))
  }

  /** The earlier revision's new node: the same, but with no layer stored. */
  function LegacyNewNode(t: NodeType, p: Point): (n: Node)
    ensures n.typ == t && n.pos == p && n.agent == Some(Config.Unassigned) && n.layer == None
  {
    Node(t, if t == Function then "F" else "R", Some(Config.Unassigned), p, None)
  }

  /** Both revisions place a freshly added node on the same layer. */
  lemma NewNodesShareLayer(t: NodeType, p: Point)
    ensures LegacyNodeLayer(LegacyNewNode(t, p)) == NodeLayer(NewNode(t, p))
  {
    var n := LegacyNewNode(t, p);
    assert !StartsWith(n.caption, "Confirming") && !StartsWith(n.caption, "Confirmation");
  }

  /** A node with its current layer written into it, when it had none stored. */
  function Baked(n: Node): Node {
    if n.layer.None? then n.(layer := Some(NodeLayer(n))) else n
  }

  /** Every node without a stored layer gets the layer it is drawn on. */
  function BakeLayers(g: Graph): (r: Graph)
    ensures Valid(g) ==> Valid(r)
    ensures r.order == g.order && r.succ == g.succ && r.nodes.Keys == g.nodes.Keys
  {
    g.(nodes := map v | v in g.nodes :: Baked(g.nodes[v]))
  }

  /**
   * Baking changes no node's displayed layer, leaves every node with a stored layer, touches
   * nothing but the layer, and a second bake changes nothing.
   */
  lemma BakingKeepsLayers(g: Graph, v: NodeId)
    requires v in g.nodes
    ensures var n := BakeLayers(g).nodes[v];
      && n.layer.Some? && NodeLayer(n) == NodeLayer(g.nodes[v])
      && n.(layer := g.nodes[v].layer) == g.nodes[v]
      && (g.nodes[v].layer.Some? ==> n == g.nodes[v])
  {
  }

  lemma BakingIsIdempotent(g: Graph)
    ensures BakeLayers(BakeLayers(g)) == BakeLayers(g)
  {
    var once := BakeLayers(g);
    forall v | v in once.nodes
      ensures BakeLayers(once).nodes[v] == once.nodes[v]
    {
    }
    assert BakeLayers(once).nodes == once.nodes;
  }

  /** The bake as the editor runs it before writing a file: a pass over the nodes in order. */
  method BakeAll(g: Graph) returns (r: Graph)
    requires Valid(g)
    ensures r == BakeLayers(g)
  {
    r := g;
    var ids := g.order;
    var i := 0;
    while i < |ids|
      invariant 0 <= i <= |ids|
      invariant r.order == g.order && r.succ == g.succ && r.nodes.Keys == g.nodes.Keys
      invariant forall v :: v in r.nodes ==> r.nodes[v] == if v in ids[..i] then Baked(g.nodes[v]) else g.nodes[v]
    {
      var v := ids[i];
      assert v !in ids[..i];
      assert ids[..i + 1] == ids[..i] + [v];
      if r.nodes[v].layer.None? {
        r := SetNode(r, v, r.nodes[v].(layer := Some(NodeLayer(r.nodes[v]))));
      }
      i := i + 1;
    }
    assert ids[..i] == ids;
    forall v | v in g.nodes
      ensures r.nodes[v] == BakeLayers(g).nodes[v]
    {
      assert v in ids;
    }
  }
}
