/**
 * The editor's session state and what each canvas event does to it, as functions of the
 * state before the event. The class `GraphBuilderApp` in `editor_app.dfy` runs the same
 * handlers as methods on mutable fields and is proved to produce exactly these states.
 */
module Editor {
  import opened Wrappers
  import opened Geometry
  import opened Graphs
  import opened Layers
  import History
  import Config

  datatype Mode = SelectMode | AddFuncMode | AddResMode | AddEdgeMode | DeleteMode | AssignAgentMode

  /**
   * How a handler ended: normally, after showing a message box (which returns, so the
   * handler goes on), or by an exception that skips the rest of the handler while keeping
   * every change made before it.
   */
  datatype Outcome = Done | Alert(title: string) | Raised(error: string)

  // ---------------------------------------------------------------- hit testing

  /** What the canvas shows: the graph, the view transform, and the node being dragged, if any. */
  datatype Scene = Scene(g: Graph, view: View, dragNode: Option<NodeId>, isDragging: bool, vm: ViewMode)

  /** `get_draw_pos`: the world point a node is drawn at. */
  function DrawPoint(sc: Scene, id: NodeId): Point
    requires id in sc.g.nodes
  {
    var n := sc.g.nodes[id];
    DrawPos(n.pos, NodeLayer(n), sc.dragNode == Some(id) && sc.isDragging, sc.vm)
  }

  function ScreenPoint(sc: Scene, id: NodeId): Point
    requires id in sc.g.nodes
  {
    ToScreen(sc.view, DrawPoint(sc, id))
  }

  /** A press at screen point `p` is on node `id`: within `NODE_RADIUS * zoom` of its drawn centre. */
  predicate NodeHit(sc: Scene, id: NodeId, p: Point) {
    id in sc.g.nodes && SqDist(p, ScreenPoint(sc, id)) <= Sq(Config.NodeRadius * sc.view.zoom)
  }

  /** The first of `ids` that a press at `p` is on. */
  function FirstNodeHit(sc: Scene, ids: seq<NodeId>, p: Point): Option<NodeId> {
    if ids == [] then None
    else if NodeHit(sc, ids[0], p) then Some(ids[0])
    else FirstNodeHit(sc, ids[1..], p)
  }

  /** No hit means the press is on none of `ids`; a hit is on the press, and no earlier id is. */
  lemma {:induction false} FirstNodeHitIsFirst(sc: Scene, ids: seq<NodeId>, p: Point)
    ensures var r := FirstNodeHit(sc, ids, p);
      && (r.None? <==> forall j :: 0 <= j < |ids| ==> !NodeHit(sc, ids[j], p))
      && (r.Some? ==> exists k :: 0 <= k < |ids| && ids[k] == r.value && NodeHit(sc, ids[k], p)
                                  && forall j :: 0 <= j < k ==> !NodeHit(sc, ids[j], p))
  {
    if ids != [] && !NodeHit(sc, ids[0], p) {
      FirstNodeHitIsFirst(sc, ids[1..], p);
      assert forall j :: 1 <= j < |ids| ==> ids[1..][j - 1] == ids[j];
      var r := FirstNodeHit(sc, ids[1..], p);
      if r.Some? {
        var k :| 0 <= k < |ids[1..]| && ids[1..][k] == r.value && NodeHit(sc, ids[1..][k], p)
                 && forall j :: 0 <= j < k ==> !NodeHit(sc, ids[1..][j], p);
        assert ids[k + 1] == r.value && forall j :: 0 <= j < k + 1 ==> !NodeHit(sc, ids[j], p);
      }
    }
  }

  /** A press at `p` is on edge `e`: closer than 8 screen units to the segment between the drawn ends. */
  predicate EdgeHit(sc: Scene, e: Edge, p: Point) {
    e.0 in sc.g.nodes && e.1 in sc.g.nodes && SqDistToSegment(p, ScreenPoint(sc, e.0), ScreenPoint(sc, e.1)) < 64.0
  }

  /** The first of `es` that a press at `p` is on. */
  function FirstEdgeHit(sc: Scene, es: seq<Edge>, p: Point): Option<Edge> {
    if es == [] then None
    else if EdgeHit(sc, es[0], p) then Some(es[0])
    else FirstEdgeHit(sc, es[1..], p)
  }

  /** No hit means the press is on none of `es`; a hit is on the press, and no earlier edge is. */
  lemma {:induction false} FirstEdgeHitIsFirst(sc: Scene, es: seq<Edge>, p: Point)
    ensures var r := FirstEdgeHit(sc, es, p);
      && (r.None? <==> forall j :: 0 <= j < |es| ==> !EdgeHit(sc, es[j], p))
      && (r.Some? ==> exists k :: 0 <= k < |es| && es[k] == r.value && EdgeHit(sc, es[k], p)
                                  && forall j :: 0 <= j < k ==> !EdgeHit(sc, es[j], p))
  {
    if es != [] && !EdgeHit(sc, es[0], p) {
      FirstEdgeHitIsFirst(sc, es[1..], p);
      assert forall j :: 1 <= j < |es| ==> es[1..][j - 1] == es[j];
      var r := FirstEdgeHit(sc, es[1..], p);
      if r.Some? {
        var k :| 0 <= k < |es[1..]| && es[1..][k] == r.value && EdgeHit(sc, es[1..][k], p)
                 && forall j :: 0 <= j < k ==> !EdgeHit(sc, es[1..][j], p);
        assert es[k + 1] == r.value && forall j :: 0 <= j < k + 1 ==> !EdgeHit(sc, es[j], p);
      }
    }
  }

  /** The node-hit loop of `on_mouse_down`: the first node, in node order, under the pointer. */
  method FindNodeAt(sc: Scene, p: Point) returns (clicked: Option<NodeId>)
    requires Valid(sc.g)
    ensures clicked == FirstNodeHit(sc, sc.g.order, p)
  {
    var ids := sc.g.order;
    var i := 0;
    while i < |ids|
      invariant 0 <= i <= |ids|
      invariant FirstNodeHit(sc, ids[i..], p) == FirstNodeHit(sc, ids, p)
    {
      var n := ids[i];
      var c := ToScreen(sc.view, DrawPoint(sc, n));
      if SqDist(p, c) <= Sq(Config.NodeRadius * sc.view.zoom) {
        return Some(n);
      }
      assert ids[i..][1..] == ids[i + 1..];
      i := i + 1;
    }
    return None;
  }

  /** `find_edge_at`: the first edge, in the graph's edge order, closer than 8 to the pointer. */
  method FindEdgeAt(sc: Scene, p: Point) returns (clicked: Option<Edge>)
    requires Valid(sc.g)
    ensures clicked == FirstEdgeHit(sc, Edges(sc.g), p)
  {
    var es := Edges(sc.g);
    var i := 0;
    while i < |es|
      invariant 0 <= i <= |es|
      invariant FirstEdgeHit(sc, es[i..], p) == FirstEdgeHit(sc, es, p)
    {
      var (u, v) := es[i];
      EdgesMembership(sc.g, es[i]);
      var dist := SqDistToSegment(p, ToScreen(sc.view, DrawPoint(sc, u)), ToScreen(sc.view, DrawPoint(sc, v)));
      if dist < 64.0 {
        return Some((u, v));
      }
      assert es[i..][1..] == es[i + 1..];
      i := i + 1;
    }
    return None;
  }

  /**
   * The edge test means what it says: a press is on an edge exactly when some point of the
   * drawn segment is closer than 8 screen units.
   */
  lemma EdgeHitIsNearSegment(sc: Scene, u: NodeId, v: NodeId, p: Point)
    requires u in sc.g.nodes && v in sc.g.nodes
    ensures var a, b := ScreenPoint(sc, u), ScreenPoint(sc, v);
      EdgeHit(sc, (u, v), p) <==> exists t :: 0.0 <= t <= 1.0 && SqDist(p, Lerp(a, b, t)) < 64.0
  {
    var a, b := ScreenPoint(sc, u), ScreenPoint(sc, v);
    SegmentDistanceIsAttained(p, a, b);
    forall t | 0.0 <= t <= 1.0 && SqDist(p, Lerp(a, b, t)) < 64.0
      ensures EdgeHit(sc, (u, v), p)
    {
      SegmentDistanceIsMinimal(p, a, b, t);
    }
  }

  // ---------------------------------------------------------------- session state

  /** The editor's fields; `pan_start` and the drag fields describe the gesture in progress. */
  datatype AppState = AppState(
    g: Graph, undoStack: seq<Graph>, redoStack: seq<Graph>,
    selectedNode: Option<NodeId>, inspectedNode: Option<NodeId>,
    dragNode: Option<NodeId>, dragStartPos: Option<Point>, isDragging: bool, preDragGraph: Option<Graph>,
    zoom: real, offsetX: real, offsetY: real, panStart: Option<Point>,
    mode: Mode, viewMode: ViewMode, agents: map<string, string>, currentAgent: string,
    sidebarDragData: Option<NodeId>)

  const Initial: AppState := AppState(Empty, [], [], None, None, None, None, false, None, 1.0, 0.0, 0.0, None,
                                      SelectMode, Free, Config.DefaultAgents, Config.DefaultCurrentAgent, None)

  function ViewOf(s: AppState): View {
    View(s.zoom, s.offsetX, s.offsetY)
  }

  function Canvas(s: AppState): Scene {
    Scene(s.g, ViewOf(s), s.dragNode, s.isDragging, s.viewMode)
  }

  function TimelineOf(s: AppState): History.Timeline<Graph> {
    History.Timeline(s.undoStack, s.g, s.redoStack)
  }

  /** A graph the editor can hold: consistent, and every edge joins a Function and a Resource. */
  ghost predicate Sound(g: Graph) {
    Valid(g) && Alternating(g)
  }

  /**
   * What holds between events: a positive zoom; the graph and every snapshot are sound;
   * the two history lists hold at most `HISTORY_LIMIT` snapshots together; a node drag has
   * its press point and its pre-drag snapshot.
   */
  ghost predicate Inv(s: AppState) {
    && s.zoom > 0.0
    && Sound(s.g)
    && AllSound(s.undoStack)
    && AllSound(s.redoStack)
    && (s.preDragGraph.Some? ==> Sound(s.preDragGraph.value))
    && History.Bounded(TimelineOf(s), Config.HistoryLimit)
    && (s.dragNode.Some? ==> s.dragStartPos.Some? && s.preDragGraph.Some?)
  }

  ghost predicate AllSound(gs: seq<Graph>) {
    forall h :: h in gs ==> Sound(h)
  }

  lemma InitialIsValid()
    ensures Inv(Initial)
  {
    EmptyIsValid();
  }

  // ---------------------------------------------------------------- handlers as functions

  /** `save_state`: the current graph becomes the newest undo entry and the redo list is cleared. */
  function Save(s: AppState): (r: AppState)
    ensures TimelineOf(r) == History.Save(TimelineOf(s), Config.HistoryLimit)
    ensures r.(undoStack := s.undoStack, redoStack := s.redoStack) == s
  {
    s.(undoStack := History.Push(s.undoStack, s.g, Config.HistoryLimit), redoStack := [])
  }

  /** The pending connect source, tested for truth: neither no node nor node 0 counts as one. */
  predicate Pending(sel: Option<NodeId>) {
    sel.Some? && sel.value != 0
  }

  /** A click in delete mode: a snapshot, then the node goes with its edges. */
  function ClickDelete(s: AppState, id: NodeId): (AppState, Outcome) {
    var s := Save(s);
    if id !in s.g.nodes then (s, Raised("NetworkXError"))
    else (s.(g := RemoveNode(s.g, id), inspectedNode := None), Done)
  }

  /** A click in connect mode: pick the source, or connect the pending source to `id`. */
  function ClickConnect(s: AppState, id: NodeId): (AppState, Outcome) {
    if !Pending(s.selectedNode) then (s.(selectedNode := Some(id)), Done)
    else
      var u := s.selectedNode.value;
      if u == id then (s.(selectedNode := None), Done)
      else if u !in s.g.nodes || id !in s.g.nodes then (s, Raised("KeyError"))
      else if !MayConnect(s.g, u, id) then (s.(selectedNode := None), Alert("Connection Error"))
      else (Save(s).(g := AddEdge(s.g, u, id), selectedNode := None), Done)
  }

  /**
   * A click in assign mode: the current agent goes to the node, unless it already has it.
   * The current editor's interface never enters this mode; its agents are assigned by a
   * sidebar drop instead (`EditorApp.GraphBuilderApp.OnSidebarNodeRelease`).
   */
  function ClickAssign(s: AppState, id: NodeId): (AppState, Outcome) {
    if id !in s.g.nodes || s.g.nodes[id].agent.None? then (s, Raised("KeyError"))
    else if s.g.nodes[id].agent == Some(s.currentAgent) then (s, Done)
    else (Save(s).(g := AssignAgent(s.g, id, s.currentAgent)), Done)
  }

  /** `handle_click`: what a click on node `id` does in the current mode. */
  function Click(s: AppState, id: NodeId): (AppState, Outcome) {
    var s := s.(inspectedNode := Some(id));
    match s.mode
    case DeleteMode => ClickDelete(s, id)
    case AddEdgeMode => ClickConnect(s, id)
    case AssignAgentMode => ClickAssign(s, id)
    case _ => (s, Done)
  }

  /** What a press does once the node and the edge under the pointer are known. */
  function Press(s: AppState, p: Point, hit: Option<NodeId>, edge: Option<Edge>): AppState {
    if hit.Some? then s.(preDragGraph := Some(s.g), dragNode := hit, dragStartPos := Some(p), isDragging := false)
    else if edge.Some? then Save(s).(g := RemoveEdge(s.g, edge.value.0, edge.value.1))
    else s.(inspectedNode := None, panStart := Some(p), isDragging := false)
  }

  /**
   * `on_mouse_down`: grab the first node under the pointer; failing that, in delete mode,
   * delete the first edge under it; failing that, start a pan.
   */
  function MouseDown(s: AppState, p: Point): AppState {
    var hit := FirstNodeHit(Canvas(s), s.g.order, p);
    var edge := if hit.None? && s.mode == DeleteMode then FirstEdgeHit(Canvas(s), Edges(s.g), p) else None;
    Press(s, p, hit, edge)
  }

  /** The pointer has moved more than 5 screen units from `q`. */
  predicate BeyondThreshold(p: Point, q: Point) {
    SqDist(p, q) > 25.0
  }

  /** Moving the grabbed node: past the threshold it follows the pointer. */
  function DragStep(s: AppState, p: Point): (AppState, Outcome)
    requires s.dragNode.Some? && s.dragStartPos.Some? && s.zoom > 0.0
  {
    if BeyondThreshold(p, s.dragStartPos.value) then
      var s := s.(isDragging := true);
      var id := s.dragNode.value;
      if id !in s.g.nodes then (s, Raised("KeyError"))
      else (s.(g := SetPos(s.g, id, ToWorld(ViewOf(s), p))), Done)
    else (s, Done)
  }

  /** Panning: past the threshold the offsets move by the pointer's motion and the anchor follows. */
  function PanStep(s: AppState, p: Point): AppState
    requires s.panStart.Some?
  {
    var q := s.panStart.value;
    if BeyondThreshold(p, q) then
      s.(isDragging := true, offsetX := s.offsetX + (p.x - q.x), offsetY := s.offsetY + (p.y - q.y), panStart := Some(p))
    else s
  }

  /** `on_mouse_drag`: past the threshold, move the grabbed node to the pointer or pan the view. */
  function MouseDrag(s: AppState, p: Point): (AppState, Outcome)
    requires Inv(s)
  {
    if s.dragNode.Some? then DragStep(s, p)
    else if s.panStart.Some? then (PanStep(s, p), Done)
    else (s, Done)
  }

  /** The layered-view snap after a drag: node `id` moves onto the layer nearest world point `w`. */
  function Snap(s: AppState, id: NodeId, w: Point): (AppState, Outcome) {
    match NearestLayer(w.y)
    case None => (s, Done)
    case Some(layer) =>
      if id !in s.g.nodes then (s, Raised("KeyError"))
      else (s.(g := SetNode(s.g, id, s.g.nodes[id].(layer := Some(layer), pos := Point(w.x, Config.LayerY(layer))))), Done)
  }

  /** `add_node` at world point `w`: the next free id, and the kind the mode names. */
  function AddNodeAt(s: AppState, w: Point): AppState
    requires Valid(s.g)
  {
    NextIdIsFresh(s.g);
    var typ := if s.mode == AddFuncMode then Function else Resource;
    s.(g := Graphs.AddNode(s.g, NextId(s.g), NewNode(typ, w)))
  }

  /** A finished drag is recorded: the pre-drag snapshot joins the undo list and the redo list is cleared. */
  function RecordDrag(s: AppState): (r: AppState)
    requires s.preDragGraph.Some?
  {
    s.(undoStack := History.Push(s.undoStack, s.preDragGraph.value, Config.HistoryLimit), redoStack := [])
  }

  /** The end of a node drag: the drag is recorded, and in the layered view the node snaps to a layer. */
  function DropNode(s: AppState, p: Point): (AppState, Outcome)
    requires s.dragNode.Some? && s.preDragGraph.Some? && s.zoom > 0.0
  {
    var s := RecordDrag(s);
    if s.viewMode == Jsat then Snap(s, s.dragNode.value, ToWorld(ViewOf(s), p)) else (s, Done)
  }

  /** The end of a press on the background: in an add mode, a click adds a node there. */
  function EndPan(s: AppState, p: Point): AppState
    requires Valid(s.g) && s.zoom > 0.0
  {
    var r := if !s.isDragging && (s.mode == AddFuncMode || s.mode == AddResMode)
             then AddNodeAt(Save(s), ToWorld(ViewOf(s), p)) else s;
    r.(panStart := None, isDragging := false)
  }

  /** `on_mouse_up`: end a node drag (snapping in the layered view), a click, or a pan (adding a node). */
  function MouseUp(s: AppState, p: Point): (AppState, Outcome)
    requires Inv(s)
  {
    if s.dragNode.Some? then
      var (r, out) := if s.isDragging then DropNode(s, p) else Click(s, s.dragNode.value);
      if out.Raised? then (r, out) else (r.(dragNode := None, isDragging := false), out)
    else if s.panStart.Some? then (EndPan(s, p), Done)
    else (s, Done)
  }

  /** A run of motion events, each handled in turn whatever the previous one's outcome. */
  function DragAll(s: AppState, ps: seq<Point>): (r: AppState)
    requires Inv(s)
    ensures Inv(r)
    decreases |ps|
  {
    if ps == [] then s
    else
      MouseDragKeepsInv(s, ps[0]);
      DragAll(MouseDrag(s, ps[0]).0, ps[1..])
  }

  // ---------------------------------------------------------------- the invariant is kept

  lemma PushKeepsSound(gs: seq<Graph>, h: Graph)
    requires AllSound(gs) && Sound(h)
    ensures AllSound(History.Push(gs, h, Config.HistoryLimit))
  {
  }

  lemma SaveKeepsInv(s: AppState)
    requires Inv(s)
    ensures Inv(Save(s))
  {
    History.RecordKeepsBound(TimelineOf(s), s.g, Config.HistoryLimit);
    PushKeepsSound(s.undoStack, s.g);
  }

  /** Replacing the graph by a sound one keeps the invariant. */
  lemma NewGraphKeepsInv(s: AppState, h: Graph)
    requires Inv(s) && Sound(h)
    ensures Inv(s.(g := h))
  {
  }

  lemma ClickDeleteKeepsInv(s: AppState, id: NodeId)
    requires Inv(s)
    ensures Inv(ClickDelete(s, id).0)
  {
    SaveKeepsInv(s);
    if id in s.g.nodes {
      RemoveNodeKeepsAlternation(s.g, id);
      NewGraphKeepsInv(Save(s), RemoveNode(s.g, id));
    }
  }

  lemma ClickConnectKeepsInv(s: AppState, id: NodeId)
    requires Inv(s)
    ensures Inv(ClickConnect(s, id).0)
  {
    if Pending(s.selectedNode) && s.selectedNode.value != id && s.selectedNode.value in s.g.nodes
       && id in s.g.nodes && MayConnect(s.g, s.selectedNode.value, id) {
      var u := s.selectedNode.value;
      SaveKeepsInv(s);
      ConnectKeepsAlternation(s.g, u, id);
      NewGraphKeepsInv(Save(s), AddEdge(s.g, u, id));
    }
  }

  lemma ClickAssignKeepsInv(s: AppState, id: NodeId)
    requires Inv(s)
    ensures Inv(ClickAssign(s, id).0)
  {
    if id in s.g.nodes && s.g.nodes[id].agent.Some? && s.g.nodes[id].agent != Some(s.currentAgent) {
      SaveKeepsInv(s);
      AttributeEditKeepsAlternation(s.g, AssignAgent(s.g, id, s.currentAgent));
      NewGraphKeepsInv(Save(s), AssignAgent(s.g, id, s.currentAgent));
    }
  }

  lemma ClickKeepsInv(s: AppState, id: NodeId)
    requires Inv(s)
    ensures Inv(Click(s, id).0)
  {
    var t := s.(inspectedNode := Some(id));
    assert Inv(t);
    match t.mode
    case DeleteMode => ClickDeleteKeepsInv(t, id);
    case AddEdgeMode => ClickConnectKeepsInv(t, id);
    case AssignAgentMode => ClickAssignKeepsInv(t, id);
    case _ =>
  }

  lemma MouseDownKeepsInv(s: AppState, p: Point)
    requires Inv(s)
    ensures Inv(MouseDown(s, p))
  {
    var hit := FirstNodeHit(Canvas(s), s.g.order, p);
    var edge := if s.mode == DeleteMode then FirstEdgeHit(Canvas(s), Edges(s.g), p) else None;
    if hit.None? && edge.Some? {
      SaveKeepsInv(s);
      RemoveEdgeKeepsAlternation(s.g, edge.value.0, edge.value.1);
      NewGraphKeepsInv(Save(s), RemoveEdge(s.g, edge.value.0, edge.value.1));
    }
  }
  lemma MouseDragKeepsInv(s: AppState, p: Point)
    requires Inv(s)
    ensures Inv(MouseDrag(s, p).0)
  {
    if s.dragNode.Some? && s.dragNode.value in s.g.nodes {
      var id := s.dragNode.value;
      AttributeEditKeepsAlternation(s.g, SetPos(s.g, id, ToWorld(ViewOf(s), p)));
    }
  }

  lemma RecordDragKeepsInv(s: AppState)
    requires Inv(s) && s.preDragGraph.Some?
    ensures Inv(RecordDrag(s))
  {
    History.RecordKeepsBound(TimelineOf(s), s.preDragGraph.value, Config.HistoryLimit);
    PushKeepsSound(s.undoStack, s.preDragGraph.value);
  }

  lemma SnapKeepsInv(s: AppState, id: NodeId, w: Point)
    requires Inv(s)
    ensures Inv(Snap(s, id, w).0)
  {
    var layer := NearestLayer(w.y);
    if layer.Some? && id in s.g.nodes {
      var n := s.g.nodes[id].(layer := layer, pos := Point(w.x, Config.LayerY(layer.value)));
      AttributeEditKeepsAlternation(s.g, SetNode(s.g, id, n));
      NewGraphKeepsInv(s, SetNode(s.g, id, n));
    }
  }

  lemma DropNodeKeepsInv(s: AppState, p: Point)
    requires Inv(s) && s.dragNode.Some? && s.preDragGraph.Some?
    ensures Inv(DropNode(s, p).0)
  {
    RecordDragKeepsInv(s);
    var t := RecordDrag(s);
    if t.viewMode == Jsat {
      SnapKeepsInv(t, t.dragNode.value, ToWorld(ViewOf(t), p));
    }
  }

  lemma EndPanKeepsInv(s: AppState, p: Point)
    requires Inv(s)
    ensures Inv(EndPan(s, p))
  {
    if !s.isDragging && (s.mode == AddFuncMode || s.mode == AddResMode) {
      var t := Save(s);
      SaveKeepsInv(s);
      NextIdIsFresh(t.g);
      var typ := if t.mode == AddFuncMode then Function else Resource;
      AddNodeKeepsAlternation(t.g, NextId(t.g), NewNode(typ, ToWorld(ViewOf(t), p)));
      NewGraphKeepsInv(t, AddNodeAt(t, ToWorld(ViewOf(t), p)).g);
    }
  }

  lemma MouseUpKeepsInv(s: AppState, p: Point)
    requires Inv(s)
    ensures Inv(MouseUp(s, p).0)
  {
    if s.dragNode.Some? {
      if s.isDragging {
        DropNodeKeepsInv(s, p);
      } else {
        ClickKeepsInv(s, s.dragNode.value);
      }
    } else if s.panStart.Some? {
      EndPanKeepsInv(s, p);
    }
  }

  // ---------------------------------------------------------------- what a click does

  /**
   * The connect rule: with a pending source `u` and a click on another existing node, the
   * edge `(u, id)` is added, after a snapshot, exactly when the two differ in type; otherwise
   * an error is shown and graph and history stay as they were. The source is cleared either way.
   */
  lemma ConnectRule(s: AppState, id: NodeId)
    requires s.mode == AddEdgeMode && Pending(s.selectedNode)
    requires s.selectedNode.value in s.g.nodes && id in s.g.nodes && s.selectedNode.value != id
    ensures var (r, out) := Click(s, id); var u := s.selectedNode.value;
      && r.selectedNode == None && r.inspectedNode == Some(id)
      && (out == Done <==> MayConnect(s.g, u, id))
      && (forall a, b :: HasEdge(r.g, a, b) <==> HasEdge(s.g, a, b) || (MayConnect(s.g, u, id) && a == u && b == id))
      && (MayConnect(s.g, u, id) ==> r.undoStack == History.Push(s.undoStack, s.g, Config.HistoryLimit) && r.redoStack == [])
      && (!MayConnect(s.g, u, id) ==>
            r.g == s.g && r.undoStack == s.undoStack && r.redoStack == s.redoStack && out == Alert("Connection Error"))
  {
  }

  /**
   * Because the pending source is tested for truth, node 0 is never a source: a click never
   * adds an edge leaving node 0, and a click while node 0 is pending just makes the clicked
   * node the pending one.
   */
  lemma NoClickConnectsFromNodeZero(s: AppState, id: NodeId, v: NodeId)
    ensures HasEdge(Click(s, id).0.g, 0, v) ==> HasEdge(s.g, 0, v)
    ensures s.mode == AddEdgeMode && s.selectedNode == Some(0) ==>
      Click(s, id) == (s.(inspectedNode := Some(id), selectedNode := Some(id)), Done)
  {
    var r := Click(s, id).0;
    if s.mode == AddEdgeMode && Pending(s.selectedNode) && s.selectedNode.value != id
       && s.selectedNode.value in s.g.nodes && id in s.g.nodes && MayConnect(s.g, s.selectedNode.value, id) {
      assert r.g == AddEdge(s.g, s.selectedNode.value, id);
    }
  }

  /** A delete click on an existing node snapshots, then removes the node and every edge touching it. */
  lemma DeleteClickRemovesNode(s: AppState, id: NodeId)
    requires s.mode == DeleteMode && id in s.g.nodes
    ensures var (r, out) := Click(s, id);
      && out == Done && r.inspectedNode == None
      && r.g.nodes == s.g.nodes - {id}
      && (forall a, b :: HasEdge(r.g, a, b) <==> HasEdge(s.g, a, b) && a != id && b != id)
      && r.undoStack == History.Push(s.undoStack, s.g, Config.HistoryLimit) && r.redoStack == []
  {
  }

  /**
   * An assign click with the current agent: nothing happens (not even a snapshot) when the
   * node already has that agent; otherwise, after a snapshot, exactly the node and, for a
   * Function, its direct successors gain the agent, and nothing else about any node changes.
   */
  lemma AssignClick(s: AppState, id: NodeId)
    requires s.mode == AssignAgentMode && id in s.g.nodes && s.g.nodes[id].agent.Some?
    ensures var (r, out) := Click(s, id); var a := s.currentAgent;
      && out == Done
      && (s.g.nodes[id].agent == Some(a) ==> r == s.(inspectedNode := Some(id)))
      && (s.g.nodes[id].agent != Some(a) ==>
            && r.undoStack == History.Push(s.undoStack, s.g, Config.HistoryLimit) && r.redoStack == []
            && r.g.order == s.g.order && r.g.succ == s.g.succ && r.g.nodes.Keys == s.g.nodes.Keys
            && forall v :: v in s.g.nodes ==>
                 && r.g.nodes[v].(agent := s.g.nodes[v].agent) == s.g.nodes[v]
                 && (r.g.nodes[v].agent == Some(a) <==>
                       v == id || (s.g.nodes[id].typ == Function && HasEdge(s.g, id, v)) || s.g.nodes[v].agent == Some(a)))
  {
    if s.g.nodes[id].agent != Some(s.currentAgent) {
      forall v | v in s.g.nodes {
        AssignAgentReach(s.g, id, s.currentAgent, v);
      }
    }
  }

  // ---------------------------------------------------------------- gestures

  /** Motions within 5 units of the press (or of the pan anchor) change nothing at all. */
  lemma SmallMotionChangesNothing(s: AppState, p: Point)
    requires Inv(s)
    requires s.dragNode.Some? ==> !BeyondThreshold(p, s.dragStartPos.value)
    requires s.dragNode.None? && s.panStart.Some? ==> !BeyondThreshold(p, s.panStart.value)
    ensures MouseDrag(s, p) == (s, Done)
  {
  }

  lemma {:induction false} ShortMotionsLeaveStateAlone(s: AppState, ps: seq<Point>)
    requires Inv(s) && s.dragNode.Some?
    requires forall i :: 0 <= i < |ps| ==> !BeyondThreshold(ps[i], s.dragStartPos.value)
    ensures DragAll(s, ps) == s
  {
    if ps != [] {
      SmallMotionChangesNothing(s, ps[0]);
      ShortMotionsLeaveStateAlone(s, ps[1..]);
    }
  }

  /** A click never moves a node, and never brings a node in. */
  lemma ClickMovesNoNode(s: AppState, id: NodeId)
    ensures var c := Click(s, id).0;
      forall v :: v in c.g.nodes ==> v in s.g.nodes && c.g.nodes[v].pos == s.g.nodes[v].pos
  {
    var c := Click(s, id).0;
    forall v | v in c.g.nodes
      ensures v in s.g.nodes && c.g.nodes[v].pos == s.g.nodes[v].pos
    {
      if s.mode == AssignAgentMode && id in s.g.nodes && s.g.nodes[id].agent.Some? &&
         s.g.nodes[id].agent != Some(s.currentAgent) {
        AssignAgentReach(s.g, id, s.currentAgent, v);
      }
    }
  }

  /**
   * Click versus drag: a press on a node, any motions that stay within 5 units of the press,
   * and a release, do exactly what a click on that node does; in particular no node moves.
   */
  lemma ClickGesture(s: AppState, p0: Point, ps: seq<Point>, p1: Point)
    requires Inv(s)
    requires FirstNodeHit(Canvas(s), s.g.order, p0).Some?
    requires forall i :: 0 <= i < |ps| ==> !BeyondThreshold(ps[i], p0)
    ensures var down := MouseDown(s, p0);
      && Inv(down)
      && down.dragNode == FirstNodeHit(Canvas(s), s.g.order, p0)
      && DragAll(down, ps) == down
      && var c := Click(down, down.dragNode.value);
      && MouseUp(DragAll(down, ps), p1) == (if c.1.Raised? then c else (c.0.(dragNode := None, isDragging := false), c.1))
      && forall v :: v in c.0.g.nodes ==> v in s.g.nodes && c.0.g.nodes[v].pos == s.g.nodes[v].pos
  {
    var down := MouseDown(s, p0);
    MouseDownKeepsInv(s, p0);
    assert down.g == s.g && down.dragStartPos == Some(p0) && !down.isDragging;
    ShortMotionsLeaveStateAlone(down, ps);
    ClickMovesNoNode(down, down.dragNode.value);
  }

  /** Past the threshold the grabbed node moves so that it is drawn right under the pointer. */
  lemma DragMovesNodeToPointer(s: AppState, p: Point)
    requires Inv(s) && s.dragNode.Some? && s.dragNode.value in s.g.nodes
    requires BeyondThreshold(p, s.dragStartPos.value)
    ensures var (r, out) := MouseDrag(s, p); var id := s.dragNode.value;
      && out == Done && r.isDragging
      && r.g.nodes[id] == s.g.nodes[id].(pos := ToWorld(ViewOf(s), p))
      && ScreenPoint(Canvas(r), id) == p
      && r.g.order == s.g.order && r.g.succ == s.g.succ
      && forall v :: v in s.g.nodes && v != id ==> r.g.nodes[v] == s.g.nodes[v]
  {
    var r := MouseDrag(s, p).0;
    var id := s.dragNode.value;
    assert DrawPoint(Canvas(r), id) == ToWorld(ViewOf(s), p);
    ScreenWorldRoundTrip(ViewOf(s), p);
  }

  /** Past the threshold a pan moves the view so that the world point first grabbed stays under the pointer. */
  lemma PanKeepsGrabbedPoint(s: AppState, p: Point)
    requires Inv(s) && s.dragNode.None? && s.panStart.Some?
    requires BeyondThreshold(p, s.panStart.value)
    ensures var r := MouseDrag(s, p).0;
      && r.panStart == Some(p) && r.isDragging && r.g == s.g && r.zoom == s.zoom
      && ToScreen(ViewOf(r), ToWorld(ViewOf(s), s.panStart.value)) == p
  {
    var q := s.panStart.value;
    var w := ToWorld(ViewOf(s), q);
    ScreenWorldRoundTrip(ViewOf(s), q);
    assert w.x * s.zoom + s.offsetX == q.x;
    assert w.y * s.zoom + s.offsetY == q.y;
  }

  /** Over any run of motions in a pan, the offset moves exactly as far as the anchor has moved. */
  lemma {:induction false} PanOffsetFollowsAnchor(s: AppState, ps: seq<Point>)
    requires Inv(s) && s.dragNode.None? && s.panStart.Some?
    decreases |ps|
    ensures var r := DragAll(s, ps);
      && r.dragNode.None? && r.panStart.Some? && r.g == s.g && r.zoom == s.zoom
      && r.offsetX - s.offsetX == r.panStart.value.x - s.panStart.value.x
      && r.offsetY - s.offsetY == r.panStart.value.y - s.panStart.value.y
  {
    if ps != [] {
      var t := MouseDrag(s, ps[0]).0;
      MouseDragKeepsInv(s, ps[0]);
      PanOffsetFollowsAnchor(t, ps[1..]);
    }
  }

  // ---------------------------------------------------------------- release

  /**
   * Releasing a dragged node in the layered view: one undo entry (the graph from before the
   * drag) is pushed and redo is cleared; the node joins the layer nearest the release height,
   * with its stored height set to that layer's, so it is drawn where it is stored; no other
   * node changes.
   */
  lemma ReleaseSnapsToNearestLayer(s: AppState, p: Point)
    requires Inv(s) && s.dragNode.Some? && s.isDragging && s.viewMode == Jsat
    requires s.dragNode.value in s.g.nodes
    ensures var (r, out) := MouseUp(s, p); var id := s.dragNode.value; var w := ToWorld(ViewOf(s), p);
      && out == Done && r.dragNode == None && !r.isDragging
      && r.undoStack == History.Push(s.undoStack, s.preDragGraph.value, Config.HistoryLimit) && r.redoStack == []
      && id in r.g.nodes
      && (NearestLayer(w.y).Some? ==>
            && r.g.nodes[id].layer == NearestLayer(w.y)
            && NodeLayer(r.g.nodes[id]) == NearestLayer(w.y).value
            && r.g.nodes[id].pos == Point(w.x, Config.LayerY(NearestLayer(w.y).value))
            && DrawPoint(Canvas(r), id) == r.g.nodes[id].pos)
      && (NearestLayer(w.y).None? ==> r.g == s.g)
      && r.g.order == s.g.order && r.g.succ == s.g.succ
      && forall v :: v in s.g.nodes && v != id ==> r.g.nodes[v] == s.g.nodes[v]
  {
  }

  /** In the free view a release after a drag only records the pre-drag graph; the graph stays where the drag left it. */
  lemma ReleaseInFreeViewKeepsPosition(s: AppState, p: Point)
    requires Inv(s) && s.dragNode.Some? && s.isDragging && s.viewMode == Free
    ensures var (r, out) := MouseUp(s, p);
      && out == Done && r.g == s.g && r.dragNode == None
      && r.undoStack == History.Push(s.undoStack, s.preDragGraph.value, Config.HistoryLimit) && r.redoStack == []
  {
  }

  /**
   * A background press and release without a pan, in an add mode: after a snapshot, a node
   * with an id above every id in use is added at the world point under the pointer.
   */
  lemma BackgroundClickAddsNode(s: AppState, p: Point)
    requires Inv(s) && s.dragNode.None? && s.panStart.Some? && !s.isDragging
    requires s.mode == AddFuncMode || s.mode == AddResMode
    ensures var r := MouseUp(s, p).0; var id := NextId(s.g); var w := ToWorld(ViewOf(s), p);
      && id !in s.g.nodes && (forall v :: v in s.g.nodes ==> v < id)
      && r.g.order == s.g.order + [id]
      && r.g.nodes == s.g.nodes[id := NewNode(if s.mode == AddFuncMode then Function else Resource, w)]
      && ToScreen(ViewOf(r), w) == p
      && r.undoStack == History.Push(s.undoStack, s.g, Config.HistoryLimit) && r.redoStack == []
      && r.panStart == None
  {
    NextIdIsFresh(s.g);
    ScreenWorldRoundTrip(ViewOf(s), p);
  }
}
