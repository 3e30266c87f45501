/**
 * The earlier single-file revision of the editor (`All_in_one_main.py`). It keeps the same
 * graph and the same click rules as the current editor, with these differences: at most 6
 * snapshots of history; no pan and no zoom, so pointer positions are world positions; a press
 * on the background in an add mode adds the node at once; a press on the background never
 * deletes an edge, since there is no edge hit test; the layer fallback looks at label
 * prefixes; during a drag in the layered view the node stays on its layer's height; new
 * nodes store no layer; a refused connect shows an "Error" box; creating an agent needs a
 * colour and then selects the agent, which enters assign mode; agents can be renamed but
 * not deleted.
 *
 * The modes, outcomes, graph soundness and drag threshold are the current editor's.
 */
module Legacy {
  import opened Wrappers
  import opened Geometry
  import opened Graphs
  import opened Layers
  import Editor
  import History
  import Config

  /** `history_limit`. */
  const HistoryLimit: nat := 6

  /** `node_radius`, in world units, which are also screen units here. */
  const NodeRadius: real := 20.0

  /** The editor's fields; there is no view transform and no pan. */
  datatype Session = Session(
    g: Graph, undoStack: seq<Graph>, redoStack: seq<Graph>,
    selectedNode: Option<NodeId>, inspectedNode: Option<NodeId>,
    dragNode: Option<NodeId>, dragStartPos: Option<Point>, isDragging: bool, preDragGraph: Option<Graph>,
    mode: Editor.Mode, viewMode: ViewMode, agents: map<string, string>, currentAgent: string)

  const Initial: Session := Session(Empty, [], [], None, None, None, None, false, None,
                                    Editor.SelectMode, Free, map[Config.Unassigned := "white"], Config.Unassigned)

  function TimelineOf(s: Session): History.Timeline<Graph> {
    History.Timeline(s.undoStack, s.g, s.redoStack)
  }

  /**
   * What holds between events: the graph and every snapshot are sound, the two history lists
   * hold at most 6 snapshots together, and a node drag has its press point and its snapshot.
   */
  ghost predicate Inv(s: Session) {
    && Editor.Sound(s.g)
    && Editor.AllSound(s.undoStack)
    && Editor.AllSound(s.redoStack)
    && (s.preDragGraph.Some? ==> Editor.Sound(s.preDragGraph.value))
    && History.Bounded(TimelineOf(s), HistoryLimit)
    && (s.dragNode.Some? ==> s.dragStartPos.Some? && s.preDragGraph.Some?)
  }

  lemma InitialIsValid()
    ensures Inv(Initial)
  {
    EmptyIsValid();
  }

  // ---------------------------------------------------------------- hit testing

  /** `get_draw_pos`, with the prefix-aware layer rule. */
  function DrawPoint(s: Session, id: NodeId): Point
    requires id in s.g.nodes
  {
    var n := s.g.nodes[id];
    DrawPos(n.pos, LegacyNodeLayer(n), s.dragNode == Some(id) && s.isDragging, s.viewMode)
  }

  /** A press at `p` is on node `id`: within the node radius of where the node is drawn. */
  predicate NodeHit(s: Session, id: NodeId, p: Point) {
    id in s.g.nodes && SqDist(p, DrawPoint(s, id)) <= Sq(NodeRadius)
  }

  /** The first of `ids` that a press at `p` is on. */
  function FirstNodeHit(s: Session, ids: seq<NodeId>, p: Point): Option<NodeId> {
    if ids == [] then None
    else if NodeHit(s, ids[0], p) then Some(ids[0])
    else FirstNodeHit(s, ids[1..], p)
  }

  /** No hit means the press is on none of `ids`; a hit is on the press, and no earlier id is. */
  lemma {:induction false} FirstNodeHitIsFirst(s: Session, ids: seq<NodeId>, p: Point)
    ensures var r := FirstNodeHit(s, ids, p);
      && (r.None? <==> forall j :: 0 <= j < |ids| ==> !NodeHit(s, ids[j], p))
      && (r.Some? ==> exists k :: 0 <= k < |ids| && ids[k] == r.value && NodeHit(s, ids[k], p)
                                  && forall j :: 0 <= j < k ==> !NodeHit(s, ids[j], p))
  {
    if ids != [] && !NodeHit(s, ids[0], p) {
      FirstNodeHitIsFirst(s, ids[1..], p);
      assert forall j :: 1 <= j < |ids| ==> ids[1..][j - 1] == ids[j];
      var r := FirstNodeHit(s, ids[1..], p);
      if r.Some? {
        var k :| 0 <= k < |ids[1..]| && ids[1..][k] == r.value && NodeHit(s, ids[1..][k], p)
                 && forall j :: 0 <= j < k ==> !NodeHit(s, ids[1..][j], p);
        assert ids[k + 1] == r.value && forall j :: 0 <= j < k + 1 ==> !NodeHit(s, ids[j], p);
      }
    }
  }

  /** The node loop of `on_mouse_down`: the first node, in node order, under the pointer. */
  method NodeUnderPress(s: Session, p: Point) returns (clicked: Option<NodeId>)
    requires Valid(s.g)
    ensures clicked == FirstNodeHit(s, s.g.order, p)
  {
    var ids := s.g.order;
    var i := 0;
    while i < |ids|
      invariant 0 <= i <= |ids|
      invariant FirstNodeHit(s, ids[i..], p) == FirstNodeHit(s, ids, p)
    {
      var n := ids[i];
      if SqDist(p, DrawPoint(s, n)) <= Sq(NodeRadius) {
        return Some(n);
      }
      assert ids[i..][1..] == ids[i + 1..];
      i := i + 1;
    }
    return None;
  }

  /** A point within the node radius of where node `id` is stored, whatever the view. */
  predicate StoredHit(g: Graph, id: NodeId, p: Point) {
    id in g.nodes && SqDist(p, g.nodes[id].pos) <= Sq(NodeRadius)
  }

  function FirstStoredHit(g: Graph, ids: seq<NodeId>, p: Point): Option<NodeId> {
    if ids == [] then None
    else if StoredHit(g, ids[0], p) then Some(ids[0])
    else FirstStoredHit(g, ids[1..], p)
  }

  lemma {:induction false} FirstStoredHitIsFirst(g: Graph, ids: seq<NodeId>, p: Point)
    ensures var r := FirstStoredHit(g, ids, p);
      && (r.None? <==> forall j :: 0 <= j < |ids| ==> !StoredHit(g, ids[j], p))
      && (r.Some? ==> exists k :: 0 <= k < |ids| && ids[k] == r.value && StoredHit(g, ids[k], p)
                                  && forall j :: 0 <= j < k ==> !StoredHit(g, ids[j], p))
  {
    if ids != [] && !StoredHit(g, ids[0], p) {
      FirstStoredHitIsFirst(g, ids[1..], p);
      assert forall j :: 1 <= j < |ids| ==> ids[1..][j - 1] == ids[j];
      var r := FirstStoredHit(g, ids[1..], p);
      if r.Some? {
        var k :| 0 <= k < |ids[1..]| && ids[1..][k] == r.value && StoredHit(g, ids[1..][k], p)
                 && forall j :: 0 <= j < k ==> !StoredHit(g, ids[1..][j], p);
        assert ids[k + 1] == r.value && forall j :: 0 <= j < k + 1 ==> !StoredHit(g, ids[j], p);
      }
    }
  }

  /**
   * `find_node_at`, used by the double-click editor: the first node whose stored position
   * is within the node radius, ignoring where the layered view draws it.
   */
  method FindNodeAt(g: Graph, p: Point) returns (found: Option<NodeId>)
    requires Valid(g)
    ensures found == FirstStoredHit(g, g.order, p)
  {
    var ids := g.order;
    var i := 0;
    while i < |ids|
      invariant 0 <= i <= |ids|
      invariant FirstStoredHit(g, ids[i..], p) == FirstStoredHit(g, ids, p)
    {
      var n := ids[i];
      if SqDist(p, g.nodes[n].pos) <= Sq(NodeRadius) {
        return Some(n);
      }
      assert ids[i..][1..] == ids[i + 1..];
      i := i + 1;
    }
    return None;
  }

  /** In the free view both searches test the same points, so they find the same node. */
  lemma {:induction false} SearchesAgreeInFreeView(s: Session, ids: seq<NodeId>, p: Point)
    requires s.viewMode == Free
    ensures FirstNodeHit(s, ids, p) == FirstStoredHit(s.g, ids, p)
  {
    if ids != [] {
      SearchesAgreeInFreeView(s, ids[1..], p);
    }
  }

  // ---------------------------------------------------------------- handlers as functions

  /** `save_state` with the limit of 6. */
  function Save(s: Session): (r: Session)
    ensures TimelineOf(r) == History.Save(TimelineOf(s), HistoryLimit)
    ensures r.(undoStack := s.undoStack, redoStack := s.redoStack) == s
  {
    s.(undoStack := History.Push(s.undoStack, s.g, HistoryLimit), redoStack := [])
  }

  function ClickDelete(s: Session, id: NodeId): (Session, Editor.Outcome) {
    var s := Save(s);
    if id !in s.g.nodes then (s, Editor.Raised("NetworkXError"))
    else (s.(g := RemoveNode(s.g, id), inspectedNode := None), Editor.Done)
  }

  /** Connecting: a same-type pair is refused with an "Error" box (its message is "Bipartite Rule"). */
  function ClickConnect(s: Session, id: NodeId): (Session, Editor.Outcome) {
    if !Editor.Pending(s.selectedNode) then (s.(selectedNode := Some(id)), Editor.Done)
    else
      var u := s.selectedNode.value;
      if u == id then (s.(selectedNode := None), Editor.Done)
      else if u !in s.g.nodes || id !in s.g.nodes then (s, Editor.Raised("KeyError"))
      else if !MayConnect(s.g, u, id) then (s.(selectedNode := None), Editor.Alert("Error"))
      else (Save(s).(g := AddEdge(s.g, u, id), selectedNode := None), Editor.Done)
  }

  function ClickAssign(s: Session, id: NodeId): (Session, Editor.Outcome) {
    if id !in s.g.nodes || s.g.nodes[id].agent.None? then (s, Editor.Raised("KeyError"))
    else if s.g.nodes[id].agent == Some(s.currentAgent) then (s, Editor.Done)
    else (Save(s).(g := AssignAgent(s.g, id, s.currentAgent)), Editor.Done)
  }

  /** `handle_click`. */
  function Click(s: Session, id: NodeId): (Session, Editor.Outcome) {
    var s := s.(inspectedNode := Some(id));
    if s.mode == Editor.DeleteMode then ClickDelete(s, id)
    else if s.mode == Editor.AddEdgeMode then ClickConnect(s, id)
    else if s.mode == Editor.AssignAgentMode then ClickAssign(s, id)
    else (s, Editor.Done)
  }

  /** `add_node` at point `p`: the next free id, a node of the mode's kind with no layer stored. */
  function AddNodeAt(s: Session, p: Point): Session
    requires Valid(s.g)
  {
    NextIdIsFresh(s.g);
    var typ := if s.mode == Editor.AddFuncMode then Function else Resource;
    s.(g := Graphs.AddNode(s.g, NextId(s.g), LegacyNewNode(typ, p)))
  }

  /** What a press does once the node under the pointer is known. */
  function Press(s: Session, p: Point, hit: Option<NodeId>): Session
    requires Valid(s.g)
  {
    if hit.Some? then s.(preDragGraph := Some(s.g), dragNode := hit, dragStartPos := Some(p), isDragging := false)
    else
      var s := s.(inspectedNode := None);
      if s.mode == Editor.AddFuncMode || s.mode == Editor.AddResMode then AddNodeAt(Save(s), p) else s
  }

  /** `on_mouse_down`: grab the first node under the pointer, or else, in an add mode, add one there. */
  function MouseDown(s: Session, p: Point): Session
    requires Valid(s.g)
  {
    Press(s, p, FirstNodeHit(s, s.g.order, p))
  }

  /** Past the threshold the grabbed node follows the pointer, but in the layered view keeps its layer's height. */
  function MouseDrag(s: Session, p: Point): (Session, Editor.Outcome)
    requires s.dragNode.Some? ==> s.dragStartPos.Some?
  {
    if s.dragNode.None? || !Editor.BeyondThreshold(p, s.dragStartPos.value) then (s, Editor.Done)
    else
      var s := s.(isDragging := true);
      var id := s.dragNode.value;
      if id !in s.g.nodes then (s, Editor.Raised("KeyError"))
      else if s.viewMode == Free then (s.(g := SetPos(s.g, id, p)), Editor.Done)
      else (s.(g := SetPos(s.g, id, Point(p.x, Config.LayerY(LegacyNodeLayer(s.g.nodes[id]))))), Editor.Done)
  }

  /** The layered-view snap on release: node `id` moves onto the layer nearest the pointer's height. */
  function Snap(s: Session, id: NodeId, p: Point): (Session, Editor.Outcome) {
    match NearestLayer(p.y)
    case None => (s, Editor.Done)
    case Some(layer) =>
      if id !in s.g.nodes then (s, Editor.Raised("KeyError"))
      else (s.(g := SetNode(s.g, id, s.g.nodes[id].(layer := Some(layer), pos := Point(p.x, Config.LayerY(layer))))), Editor.Done)
  }

  function RecordDrag(s: Session): (r: Session)
    requires s.preDragGraph.Some?
  {
    s.(undoStack := History.Push(s.undoStack, s.preDragGraph.value, HistoryLimit), redoStack := [])
  }

  function DropNode(s: Session, p: Point): (Session, Editor.Outcome)
    requires s.dragNode.Some? && s.preDragGraph.Some?
  {
    var s := RecordDrag(s);
    if s.viewMode == Jsat then Snap(s, s.dragNode.value, p) else (s, Editor.Done)
  }

  /** `on_mouse_up`: end a drag (recorded, and snapped in the layered view) or treat the press as a click. */
  function MouseUp(s: Session, p: Point): (Session, Editor.Outcome)
    requires s.dragNode.Some? ==> s.preDragGraph.Some?
  {
    if s.dragNode.None? then (s, Editor.Done)
    else
      var (r, out) := if s.isDragging then DropNode(s, p) else Click(s, s.dragNode.value);
      if out.Raised? then (r, out) else (r.(dragNode := None, isDragging := false), out)
  }

  // ---------------------------------------------------------------- the invariant is kept

  lemma SaveKeepsInv(s: Session)
    requires Inv(s)
    ensures Inv(Save(s))
  {
    History.RecordKeepsBound(TimelineOf(s), s.g, HistoryLimit);
  }

  lemma NewGraphKeepsInv(s: Session, h: Graph)
    requires Inv(s) && Editor.Sound(h)
    ensures Inv(s.(g := h))
  {
  }

  lemma ClickDeleteKeepsInv(s: Session, id: NodeId)
    requires Inv(s)
    ensures Inv(ClickDelete(s, id).0)
  {
    SaveKeepsInv(s);
    if id in s.g.nodes {
      RemoveNodeKeepsAlternation(s.g, id);
      NewGraphKeepsInv(Save(s), RemoveNode(s.g, id));
    }
  }

  lemma ClickConnectKeepsInv(s: Session, id: NodeId)
    requires Inv(s)
    ensures Inv(ClickConnect(s, id).0)
  {
    if Editor.Pending(s.selectedNode) && s.selectedNode.value != id && s.selectedNode.value in s.g.nodes
       && id in s.g.nodes && MayConnect(s.g, s.selectedNode.value, id) {
      var u := s.selectedNode.value;
      SaveKeepsInv(s);
      ConnectKeepsAlternation(s.g, u, id);
      NewGraphKeepsInv(Save(s), AddEdge(s.g, u, id));
    }
  }

  lemma ClickAssignKeepsInv(s: Session, id: NodeId)
    requires Inv(s)
    ensures Inv(ClickAssign(s, id).0)
  {
    if id in s.g.nodes && s.g.nodes[id].agent.Some? && s.g.nodes[id].agent != Some(s.currentAgent) {
      SaveKeepsInv(s);
      AttributeEditKeepsAlternation(s.g, AssignAgent(s.g, id, s.currentAgent));
      NewGraphKeepsInv(Save(s), AssignAgent(s.g, id, s.currentAgent));
    }
  }

  lemma ClickKeepsInv(s: Session, id: NodeId)
    requires Inv(s)
    ensures Inv(Click(s, id).0)
  {
    var t := s.(inspectedNode := Some(id));
    assert Inv(t);
    if t.mode == Editor.DeleteMode {
      ClickDeleteKeepsInv(t, id);
    } else if t.mode == Editor.AddEdgeMode {
      ClickConnectKeepsInv(t, id);
    } else if t.mode == Editor.AssignAgentMode {
      ClickAssignKeepsInv(t, id);
    }
  }

  lemma AddNodeAtKeepsInv(s: Session, p: Point)
    requires Inv(s)
    ensures Inv(AddNodeAt(s, p))
  {
    NextIdIsFresh(s.g);
    var typ := if s.mode == Editor.AddFuncMode then Function else Resource;
    AddNodeKeepsAlternation(s.g, NextId(s.g), LegacyNewNode(typ, p));
    NewGraphKeepsInv(s, AddNodeAt(s, p).g);
  }

  lemma MouseDownKeepsInv(s: Session, p: Point)
    requires Inv(s)
    ensures Inv(MouseDown(s, p))
  {
    var t := s.(inspectedNode := None);
    if FirstNodeHit(s, s.g.order, p).None? && (s.mode == Editor.AddFuncMode || s.mode == Editor.AddResMode) {
      SaveKeepsInv(t);
      AddNodeAtKeepsInv(Save(t), p);
    }
  }

  lemma MouseDragKeepsInv(s: Session, p: Point)
    requires Inv(s)
    ensures Inv(MouseDrag(s, p).0)
  {
    if s.dragNode.Some? && s.dragNode.value in s.g.nodes {
      var id := s.dragNode.value;
      var y := if s.viewMode == Free then p.y else Config.LayerY(LegacyNodeLayer(s.g.nodes[id]));
      var q := if s.viewMode == Free then p else Point(p.x, y);
      AttributeEditKeepsAlternation(s.g, SetPos(s.g, id, q));
    }
  }

  lemma SnapKeepsInv(s: Session, id: NodeId, p: Point)
    requires Inv(s)
    ensures Inv(Snap(s, id, p).0)
  {
    var layer := NearestLayer(p.y);
    if layer.Some? && id in s.g.nodes {
      var n := s.g.nodes[id].(layer := layer, pos := Point(p.x, Config.LayerY(layer.value)));
      AttributeEditKeepsAlternation(s.g, SetNode(s.g, id, n));
      NewGraphKeepsInv(s, SetNode(s.g, id, n));
    }
  }

  lemma DropNodeKeepsInv(s: Session, p: Point)
    requires Inv(s) && s.dragNode.Some?
    ensures Inv(DropNode(s, p).0)
  {
    History.RecordKeepsBound(TimelineOf(s), s.preDragGraph.value, HistoryLimit);
    var t := RecordDrag(s);
    assert Inv(t);
    if t.viewMode == Jsat {
      SnapKeepsInv(t, t.dragNode.value, p);
    }
  }

  lemma MouseUpKeepsInv(s: Session, p: Point)
    requires Inv(s)
    ensures Inv(MouseUp(s, p).0)
  {
    if s.dragNode.Some? {
      if s.isDragging {
        DropNodeKeepsInv(s, p);
      } else {
        ClickKeepsInv(s, s.dragNode.value);
      }
    }
  }

  // ---------------------------------------------------------------- what the earlier rules do

  /**
   * A press on the background in an add mode adds the node at once, at the pointer, after a
   * snapshot: the next free id, the mode's kind, no stored layer, drawn on its type's layer.
   */
  lemma BackgroundPressAddsNode(s: Session, p: Point)
    requires Inv(s) && FirstNodeHit(s, s.g.order, p).None?
    requires s.mode == Editor.AddFuncMode || s.mode == Editor.AddResMode
    ensures var r := MouseDown(s, p); var id := NextId(s.g);
      && id !in s.g.nodes && id in r.g.nodes
      && r.g.nodes == s.g.nodes[id := r.g.nodes[id]]
      && r.g.nodes[id].pos == p && r.g.nodes[id].layer == None
      && r.g.nodes[id].typ == (if s.mode == Editor.AddFuncMode then Function else Resource)
      && LegacyNodeLayer(r.g.nodes[id]) == DefaultLayer(r.g.nodes[id].typ)
      && r.undoStack == History.Push(s.undoStack, s.g, HistoryLimit) && r.redoStack == []
      && r.inspectedNode == None && r.dragNode == s.dragNode
  {
    NextIdIsFresh(s.g);
    var typ := if s.mode == Editor.AddFuncMode then Function else Resource;
    var n := LegacyNewNode(typ, p);
    assert !StartsWith(n.caption, "Confirming") && !StartsWith(n.caption, "Confirmation");
  }

  /** Elsewhere, a press on the background only clears the inspected node. */
  lemma BackgroundPressElsewhere(s: Session, p: Point)
    requires Valid(s.g) && FirstNodeHit(s, s.g.order, p).None?
    requires s.mode != Editor.AddFuncMode && s.mode != Editor.AddResMode
    ensures MouseDown(s, p) == s.(inspectedNode := None)
  {
  }

  /**
   * A drag past the threshold in the layered view moves the node only sideways: its stored
   * height becomes its layer's height, and the layer it belongs to does not change.
   */
  lemma LayeredDragKeepsHeight(s: Session, p: Point)
    requires s.dragNode.Some? && s.dragStartPos.Some? && s.dragNode.value in s.g.nodes
    requires s.viewMode == Jsat && Editor.BeyondThreshold(p, s.dragStartPos.value)
    ensures var (r, out) := MouseDrag(s, p); var id := s.dragNode.value; var n := s.g.nodes[id];
      && out == Editor.Done && r.isDragging
      && r.g.nodes[id] == n.(pos := Point(p.x, Config.LayerY(LegacyNodeLayer(n))))
      && LegacyNodeLayer(r.g.nodes[id]) == LegacyNodeLayer(n)
      && DrawPoint(r, id) == Point(p.x, Config.LayerY(LegacyNodeLayer(n)))
  {
    var id, n := s.dragNode.value, s.g.nodes[s.dragNode.value];
    var q := Point(p.x, Config.LayerY(LegacyNodeLayer(n)));
    var r := s.(isDragging := true, g := SetPos(s.g, id, q));
    assert MouseDrag(s, p) == (r, Editor.Done);
    LegacyLayerIgnoresPosition(n, q);
  }

  lemma LegacyLayerIgnoresPosition(n: Node, q: Point)
    ensures LegacyNodeLayer(n.(pos := q)) == LegacyNodeLayer(n)
  {
    var m := n.(pos := q);
    assert m.caption == n.caption && m.layer == n.layer && m.typ == n.typ;
    assert HasValidLayer(m) == HasValidLayer(n);
  }

  /** In the free view the node follows the raw pointer. */
  lemma FreeDragFollowsPointer(s: Session, p: Point)
    requires s.dragNode.Some? && s.dragStartPos.Some? && s.dragNode.value in s.g.nodes
    requires s.viewMode == Free && Editor.BeyondThreshold(p, s.dragStartPos.value)
    ensures var (r, out) := MouseDrag(s, p); var id := s.dragNode.value;
      out == Editor.Done && r.isDragging && r.g.nodes[id].pos == p && DrawPoint(r, id) == p
  {
  }

  /** Within the threshold a motion changes nothing. */
  lemma SmallMotionChangesNothing(s: Session, p: Point)
    requires s.dragNode.Some? ==> s.dragStartPos.Some?
    requires s.dragNode.Some? ==> !Editor.BeyondThreshold(p, s.dragStartPos.value)
    ensures MouseDrag(s, p) == (s, Editor.Done)
  {
  }

  /**
   * Releasing a drag in the layered view records the pre-drag graph as one undo entry, clears
   * redo, and puts the node on the layer nearest the pointer's height, at that layer's height.
   */
  lemma ReleaseSnapsToNearestLayer(s: Session, p: Point)
    requires s.dragNode.Some? && s.preDragGraph.Some? && s.isDragging && s.viewMode == Jsat
    requires s.dragNode.value in s.g.nodes && NearestLayer(p.y).Some?
    ensures var (r, out) := MouseUp(s, p); var id := s.dragNode.value; var layer := NearestLayer(p.y).value;
      && out == Editor.Done && r.dragNode == None && !r.isDragging
      && r.g.nodes[id] == s.g.nodes[id].(layer := Some(layer), pos := Point(p.x, Config.LayerY(layer)))
      && LegacyNodeLayer(r.g.nodes[id]) == layer
      && (forall name :: name in Config.LayerOrder ==> Distance(p.y, Config.LayerY(layer)) <= Distance(p.y, Config.LayerY(name)))
      && r.undoStack == History.Push(s.undoStack, s.preDragGraph.value, HistoryLimit) && r.redoStack == []
  {
    NearestLayerIsNearest(p.y);
  }

  /** A full history holds 6 snapshots, and a seventh evicts the oldest. */
  lemma SaveAtLimitEvictsOldest(s: Session)
    requires |s.undoStack| == HistoryLimit
    ensures Save(s).undoStack == s.undoStack[1..] + [s.g]
    ensures |Save(s).undoStack| == 6
  {
    History.RecordEvictsOldest(TimelineOf(s), s.g, HistoryLimit);
  }

  /** The connect rule is the current editor's, with an "Error" box in place of "Connection Error". */
  lemma ConnectRule(s: Session, id: NodeId)
    requires s.mode == Editor.AddEdgeMode && Editor.Pending(s.selectedNode)
    requires s.selectedNode.value in s.g.nodes && id in s.g.nodes && s.selectedNode.value != id
    ensures var (r, out) := Click(s, id); var u := s.selectedNode.value;
      && r.selectedNode == None && r.inspectedNode == Some(id)
      && (out == Editor.Done <==> MayConnect(s.g, u, id))
      && (MayConnect(s.g, u, id) ==>
            r.g == AddEdge(s.g, u, id) && r.undoStack == History.Push(s.undoStack, s.g, HistoryLimit) && r.redoStack == [])
      && (!MayConnect(s.g, u, id) ==>
            r.g == s.g && r.undoStack == s.undoStack && r.redoStack == s.redoStack && out == Editor.Alert("Error"))
  {
  }

  // ---------------------------------------------------------------- the editor object

  class GraphBuilderApp {
    var g: Graph
    var undoStack: seq<Graph>
    var redoStack: seq<Graph>
    var selectedNode: Option<NodeId>
    var inspectedNode: Option<NodeId>
    var dragNode: Option<NodeId>
    var dragStartPos: Option<Point>
    var isDragging: bool
    var preDragGraph: Option<Graph>
    var mode: Editor.Mode
    var viewMode: ViewMode
    var agents: map<string, string>
    var currentAgent: string

    function State(): Session
      reads this
    {
      Session(g, undoStack, redoStack, selectedNode, inspectedNode, dragNode, dragStartPos, isDragging,
              preDragGraph, mode, viewMode, agents, currentAgent)
    }

    ghost predicate Valid()
      reads this
    {
      Inv(State())
    }

    constructor()
      ensures Valid()
      ensures State() == Initial
    {
      g := Empty;
      undoStack, redoStack := [], [];
      selectedNode, inspectedNode := None, None;
      dragNode, dragStartPos, isDragging, preDragGraph := None, None, false, None;
      mode, viewMode := Editor.SelectMode, Free;
      agents, currentAgent := map[Config.Unassigned := "white"], Config.Unassigned;
      InitialIsValid();
    }

    // -------------------------------------------------------------- history

    method SaveState()
      requires Valid()
      modifies this
      ensures Valid()
      ensures State() == Save(old(State()))
    {
      SaveKeepsInv(State());
      undoStack := undoStack + [g];
      if |undoStack| > HistoryLimit {
        undoStack := undoStack[1..];
      }
      redoStack := [];
    }

    method Undo()
      requires Valid()
      modifies this
      ensures Valid()
      ensures TimelineOf(State()) == History.Undo(TimelineOf(old(State())))
      ensures State() == old(State()).(g := g, undoStack := undoStack, redoStack := redoStack)
    {
      History.UndoRedoKeepBound(TimelineOf(State()), HistoryLimit);
      if undoStack != [] {
        redoStack := redoStack + [g];
        g := undoStack[|undoStack| - 1];
        undoStack := undoStack[..|undoStack| - 1];
      }
    }

    method Redo()
      requires Valid()
      modifies this
      ensures Valid()
      ensures TimelineOf(State()) == History.Redo(TimelineOf(old(State())))
      ensures State() == old(State()).(g := g, undoStack := undoStack, redoStack := redoStack)
    {
      History.UndoRedoKeepBound(TimelineOf(State()), HistoryLimit);
      if redoStack != [] {
        undoStack := undoStack + [g];
        g := redoStack[|redoStack| - 1];
        redoStack := redoStack[..|redoStack| - 1];
      }
    }

    // -------------------------------------------------------------- modes

    method ToggleView()
      requires Valid()
      modifies this
      ensures Valid()
      ensures State() == old(State()).(viewMode := if old(viewMode) == Free then Jsat else Free)
    {
      if viewMode == Free {
        viewMode := Jsat;
      } else {
        viewMode := Free;
      }
    }

    method SetMode(m: Editor.Mode)
      requires Valid()
      modifies this
      ensures Valid()
      ensures State() == old(State()).(mode := m, selectedNode := None)
    {
      mode := m;
      selectedNode := None;
    }

    /** `select_agent`: the agent becomes current and assign mode is entered. */
    method SelectAgent(name: string)
      requires Valid()
      modifies this
      ensures Valid()
      ensures State() == old(State()).(currentAgent := name, mode := Editor.AssignAgentMode, selectedNode := None)
    {
      currentAgent := name;
      SetMode(Editor.AssignAgentMode);
    }

    // -------------------------------------------------------------- canvas events

    method OnMouseDown(p: Point)
      requires Valid()
      modifies this
      ensures Valid()
      ensures State() == MouseDown(old(State()), p)
    {
      MouseDownKeepsInv(State(), p);
      var clicked := NodeUnderPress(State(), p);
      ApplyPress(p, clicked);
    }

    /** The second half of `on_mouse_down`: grab the node found, or add one in an add mode. */
    method ApplyPress(p: Point, clicked: Option<NodeId>)
      requires Valid()
      modifies this
      ensures State() == Press(old(State()), p, clicked)
    {
      if clicked.Some? {
        preDragGraph, dragNode, dragStartPos, isDragging := Some(g), clicked, Some(p), false;
      } else {
        inspectedNode := None;
        if mode == Editor.AddFuncMode || mode == Editor.AddResMode {
          SaveState();
          AddNode(p);
        }
      }
    }

    method OnMouseDrag(p: Point) returns (outcome: Editor.Outcome)
      requires Valid()
      modifies this
      ensures Valid()
      ensures (State(), outcome) == MouseDrag(old(State()), p)
    {
      MouseDragKeepsInv(State(), p);
      outcome := Editor.Done;
      if dragNode.None? || SqDist(p, dragStartPos.value) <= 25.0 {
        return;
      }
      isDragging := true;
      var id := dragNode.value;
      if id !in g.nodes {
        return Editor.Raised("KeyError");
      }
      if viewMode == Free {
        g := SetPos(g, id, p);
      } else {
        var layerY := Config.LayerY(LegacyNodeLayer(g.nodes[id]));
        g := SetPos(g, id, Point(p.x, layerY));
      }
    }

    method OnMouseUp(p: Point) returns (outcome: Editor.Outcome)
      requires Valid()
      modifies this
      ensures Valid()
      ensures (State(), outcome) == MouseUp(old(State()), p)
    {
      MouseUpKeepsInv(State(), p);
      outcome := Editor.Done;
      if dragNode.None? {
        return;
      }
      if isDragging {
        outcome := DropDraggedNode(p);
      } else {
        outcome := HandleClick(dragNode.value);
      }
      if outcome.Raised? {
        return;
      }
      dragNode, isDragging := None, false;
    }

    /** The drag branch of `on_mouse_up`: the pre-drag graph joins the history, then the layered-view snap. */
    method DropDraggedNode(p: Point) returns (outcome: Editor.Outcome)
      requires Valid() && dragNode.Some?
      modifies this
      ensures (State(), outcome) == DropNode(old(State()), p)
    {
      undoStack := undoStack + [preDragGraph.value];
      if |undoStack| > HistoryLimit {
        undoStack := undoStack[1..];
      }
      redoStack := [];
      outcome := Editor.Done;
      if viewMode == Jsat {
        outcome := SnapToLayer(dragNode.value, p);
      }
    }

    method SnapToLayer(id: NodeId, p: Point) returns (outcome: Editor.Outcome)
      modifies this
      ensures (State(), outcome) == Snap(old(State()), id, p)
    {
      var newLayer := LayerFromY(p.y);
      outcome := Editor.Done;
      if newLayer.Some? {
        if id !in g.nodes {
          return Editor.Raised("KeyError");
        }
        var n := g.nodes[id];
        g := SetNode(g, id, n.(layer := newLayer, pos := Point(p.x, Config.LayerY(newLayer.value))));
      }
    }

    /** `handle_click`. */
    method HandleClick(id: NodeId) returns (outcome: Editor.Outcome)
      requires Valid()
      modifies this
      ensures Valid()
      ensures (State(), outcome) == Click(old(State()), id)
    {
      ClickKeepsInv(State(), id);
      inspectedNode := Some(id);
      outcome := Editor.Done;
      if mode == Editor.DeleteMode {
        outcome := DeleteClicked(id);
      } else if mode == Editor.AddEdgeMode {
        outcome := ConnectClicked(id);
      } else if mode == Editor.AssignAgentMode {
        outcome := AssignClicked(id);
      }
    }

    method DeleteClicked(id: NodeId) returns (outcome: Editor.Outcome)
      requires Valid()
      modifies this
      ensures (State(), outcome) == ClickDelete(old(State()), id)
    {
      SaveState();
      if id !in g.nodes {
        return Editor.Raised("NetworkXError");
      }
      g, inspectedNode := RemoveNode(g, id), None;
      outcome := Editor.Done;
    }

    method ConnectClicked(id: NodeId) returns (outcome: Editor.Outcome)
      requires Valid()
      modifies this
      ensures (State(), outcome) == ClickConnect(old(State()), id)
    {
      outcome := Editor.Done;
      if !Editor.Pending(selectedNode) {
        selectedNode := Some(id);
      } else {
        var u := selectedNode.value;
        if u != id {
          if u !in g.nodes || id !in g.nodes {
            return Editor.Raised("KeyError");
          }
          if g.nodes[u].typ != g.nodes[id].typ {
            SaveState();
            g := AddEdge(g, u, id);
          } else {
            outcome := Editor.Alert("Error");
          }
        }
        selectedNode := None;
      }
    }

    method AssignClicked(id: NodeId) returns (outcome: Editor.Outcome)
      requires Valid()
      modifies this
      ensures (State(), outcome) == ClickAssign(old(State()), id)
    {
      if id !in g.nodes || g.nodes[id].agent.None? {
        return Editor.Raised("KeyError");
      }
      outcome := Editor.Done;
      if g.nodes[id].agent != Some(currentAgent) {
        SaveState();
        AssignAgentLogic(id, currentAgent);
      }
    }

    // -------------------------------------------------------------- graph edits

    /** `assign_agent_logic`: the node takes the agent, and so do its successors when it is a Function. */
    method AssignAgentLogic(id: NodeId, agent: string)
      requires Valid() && id in g.nodes
      modifies this
      ensures Valid()
      ensures State() == old(State()).(g := AssignAgent(old(g), id, agent))
    {
      var h := SpreadAgent(g, id, agent);
      AttributeEditKeepsAlternation(g, h);
      NewGraphKeepsInv(State(), h);
      g := h;
    }

    /** `add_node` at point `p`. */
    method AddNode(p: Point)
      requires Valid()
      modifies this
      ensures Valid()
      ensures State() == AddNodeAt(old(State()), p)
    {
      AddNodeAtKeepsInv(State(), p);
      var nid := NextId(g);
      var typ := if mode == Editor.AddFuncMode then Function else Resource;
      NextIdIsFresh(g);
      g := Graphs.AddNode(g, nid, LegacyNewNode(typ, p));
    }

    /** The node editor's save: a snapshot, then the new label. */
    method EditLabel(id: NodeId, text: string) returns (outcome: Editor.Outcome)
      requires Valid()
      modifies this
      ensures Valid()
      ensures id !in old(g).nodes ==> State() == Save(old(State())) && outcome == Editor.Raised("KeyError")
      ensures id in old(g).nodes ==>
        State() == Save(old(State())).(g := SetNode(old(g), id, old(g).nodes[id].(caption := text))) && outcome == Editor.Done
    {
      SaveState();
      if id !in g.nodes {
        return Editor.Raised("KeyError");
      }
      var h := SetNode(g, id, g.nodes[id].(caption := text));
      AttributeEditKeepsAlternation(g, h);
      NewGraphKeepsInv(State(), h);
      g := h;
      outcome := Editor.Done;
    }

    // -------------------------------------------------------------- agents

    /**
     * `create_agent`: a new, non-empty name with a non-empty colour is added and becomes the
     * current agent, in assign mode; anything else changes nothing.
     */
    method CreateAgent(name: Option<string>, color: Option<string>)
      requires Valid()
      modifies this
      ensures Valid()
      ensures name.Some? && name.value != "" && name.value !in old(agents) && color.Some? && color.value != "" ==>
        State() == old(State()).(agents := old(agents)[name.value := color.value], currentAgent := name.value,
                                 mode := Editor.AssignAgentMode, selectedNode := None)
      ensures !(name.Some? && name.value != "" && name.value !in old(agents) && color.Some? && color.value != "") ==>
        State() == old(State())
    {
      if name.Some? && name.value != "" && name.value !in agents {
        if color.Some? && color.value != "" {
          agents := agents[name.value := color.value];
          SelectAgent(name.value);
        }
      }
    }

    /**
     * The agent editor's save: with both fields filled, a snapshot, the old name's entry
     * replaced by the new name and colour, and every node of the old name moved to the new.
     */
    method EditAgentSave(oldName: string, newName: string, newColor: string) returns (outcome: Editor.Outcome)
      requires Valid()
      modifies this
      ensures Valid()
      ensures newName == "" || newColor == "" ==> State() == old(State()) && outcome == Editor.Done
      ensures newName != "" && newColor != "" && oldName !in old(agents) ==>
        State() == Save(old(State())) && outcome == Editor.Raised("KeyError")
      ensures newName != "" && newColor != "" && oldName in old(agents) ==>
        && State() == Save(old(State())).(agents := (old(agents) - {oldName})[newName := newColor],
                                          g := RenameAgent(old(g), oldName, newName))
        && outcome == Editor.Done
    {
      outcome := Editor.Done;
      if newName != "" && newColor != "" {
        SaveState();
        if oldName !in agents {
          return Editor.Raised("KeyError");
        }
        agents := (agents - {oldName})[newName := newColor];
        var h := RetagAgent(g, oldName, newName);
        AttributeEditKeepsAlternation(g, h);
        NewGraphKeepsInv(State(), h);
        g := h;
      }
    }
  }
}
