/**
 * The constants of the editor: node radius, history depth, the default agent table
 * and the table of JSAT layers with their fixed world-space Y coordinates.
 */
module Config {

  /** Radius of a node, in world units (scaled by the zoom factor on screen). */
  const NodeRadius: real := 20.0

  /** Maximum number of snapshots on the undo stack. */
  const HistoryLimit: nat := 40

  /** The agent every node starts with; it can never be deleted. */
  const Unassigned: string := "Unassigned"

  /** Agent name to colour, as the editor starts. */
  const DefaultAgents: map<string, string> := map[Unassigned := "white"]

  const DefaultCurrentAgent: string := Unassigned

  /**
   * The layer table, a dictionary from layer name to world Y, written as its entries in
   * insertion order (the order in which the dictionary is iterated).
   */
  const JsatLayers: seq<(string, real)> := [
    ("Synchronicity Functions", 100.0),
    ("Coordination Grounding", 250.0),
    ("Distributed Work", 400.0),
    ("Base Environment", 550.0)
  ]

  /** The order in which layers are shown, top to bottom. */
  const LayerOrder: seq<string> := [
    "Synchronicity Functions",
    "Coordination Grounding",
    "Distributed Work",
    "Base Environment"
  ]

  /** The keys of a table, in iteration order. */
  function Keys(t: seq<(string, real)>): (ks: seq<string>)
    ensures |ks| == |t|
    ensures forall i :: 0 <= i < |t| ==> ks[i] == t[i].0
  {
    if t == [] then [] else [t[0].0] + Keys(t[1..])
  }

  /** Whether `name` is a key of the layer table. */
  predicate IsLayer(name: string) {
    name in Keys(JsatLayers)
  }

  /** Index of the first entry of `t` whose key is `name`. */
  function IndexOf(t: seq<(string, real)>, name: string): (i: nat)
    requires name in Keys(t)
    ensures i < |t| && t[i].0 == name
    ensures forall j :: 0 <= j < i ==> t[j].0 != name
  {
    if t[0].0 == name then 0 else IndexOf(t[1..], name) + 1
  }

  /** The world Y of a layer: the lookup `JSAT_LAYERS[name]`. */
  function LayerY(name: string): real
    requires IsLayer(name)
  {
    JsatLayers[IndexOf(JsatLayers, name)].1
  }

  /** The dictionary keys are exactly the display order, entry for entry. */
  lemma LayerKeysFollowOrder()
    ensures Keys(JsatLayers) == LayerOrder
  {
  }

  /** Layer Y values strictly increase down the display order, so no two layers share a Y. */
  lemma LayerYStrictlyIncreasing()
    ensures forall i, j :: 0 <= i < j < |JsatLayers| ==> JsatLayers[i].1 < JsatLayers[j].1
  {
  }

  /** Indexing an entry by its key gives that entry back: the keys are distinct. */
  lemma LayerIndexOfEntry(k: nat)
    requires k < |JsatLayers|
    ensures IsLayer(JsatLayers[k].0) && IndexOf(JsatLayers, JsatLayers[k].0) == k
    ensures LayerY(JsatLayers[k].0) == JsatLayers[k].1
  {
  }

  /** The remaining configuration facts the editor relies on. */
  lemma ConfigurationIsSane()
    ensures HistoryLimit > 0 && NodeRadius > 0.0
    ensures Unassigned in DefaultAgents && DefaultCurrentAgent in DefaultAgents
    ensures forall name :: name in LayerOrder ==> IsLayer(name)
  {
    LayerKeysFollowOrder();
  }
}
