/**
 * The main editor window's logic: the fields the handlers update in place, and one method
 * per handler. Each method is proved to leave the fields in exactly the state the matching
 * function of module `Editor` describes, and to keep the editor invariant.
 */
module EditorApp {
  import opened Wrappers
  import opened Geometry
  import opened Graphs
  import opened Layers
  import opened Editor
  import History
  import Config

  class GraphBuilderApp {
    var g: Graph
    var undoStack: seq<Graph>
    var redoStack: seq<Graph>
    var selectedNode: Option<NodeId>
    var inspectedNode: Option<NodeId>
    var dragNode: Option<NodeId>
    var dragStartPos: Option<Point>
    var isDragging: bool
    var preDragGraph: Option<Graph>
    var zoom: real
    var offsetX: real
    var offsetY: real
    var panStart: Option<Point>
    var mode: Mode
    var viewMode: ViewMode
    var agents: map<string, string>
    var currentAgent: string
    var sidebarDragData: Option<NodeId>

    ghost function State(): AppState
      reads this
    {
      AppState(g, undoStack, redoStack, selectedNode, inspectedNode, dragNode, dragStartPos, isDragging,
               preDragGraph, zoom, offsetX, offsetY, panStart, mode, viewMode, agents, currentAgent, sidebarDragData)
    }

    ghost predicate Valid()
      reads this
    {
      Inv(State())
    }

    /** What the canvas shows now. */
    function Shown(): (sc: Scene)
      reads this
      ensures sc == Canvas(State())
    {
      Scene(g, View(zoom, offsetX, offsetY), dragNode, isDragging, viewMode)
    }

    constructor()
      ensures Valid()
      ensures State() == Initial
    {
      g := Empty;
      undoStack, redoStack := [], [];
      selectedNode, inspectedNode := None, None;
      dragNode, dragStartPos, isDragging, preDragGraph := None, None, false, None;
      zoom, offsetX, offsetY, panStart := 1.0, 0.0, 0.0, None;
      mode, viewMode := SelectMode, Free;
      agents, currentAgent := Config.DefaultAgents, Config.DefaultCurrentAgent;
      sidebarDragData := None;
      InitialIsValid();
    }

    // -------------------------------------------------------------- history

    /** `save_state`. */
    method SaveState()
      requires Valid()
      modifies this
      ensures Valid()
      ensures State() == Save(old(State()))
    {
      SaveKeepsInv(State());
      undoStack := undoStack + [g];
      if |undoStack| > Config.HistoryLimit {
        undoStack := undoStack[1..];
      }
      redoStack := [];
    }

    method Undo()
      requires Valid()
      modifies this
      ensures Valid()
      ensures TimelineOf(State()) == History.Undo(TimelineOf(old(State())))
      ensures State() == old(State()).(g := g, undoStack := undoStack, redoStack := redoStack)
    {
      History.UndoRedoKeepBound(TimelineOf(State()), Config.HistoryLimit);
      if undoStack != [] {
        redoStack := redoStack + [g];
        g := undoStack[|undoStack| - 1];
        undoStack := undoStack[..|undoStack| - 1];
      }
    }

    method Redo()
      requires Valid()
      modifies this
      ensures Valid()
      ensures TimelineOf(State()) == History.Redo(TimelineOf(old(State())))
      ensures State() == old(State()).(g := g, undoStack := undoStack, redoStack := redoStack)
    {
      History.UndoRedoKeepBound(TimelineOf(State()), Config.HistoryLimit);
      if redoStack != [] {
        undoStack := undoStack + [g];
        g := redoStack[|redoStack| - 1];
        redoStack := redoStack[..|redoStack| - 1];
      }
    }

    // -------------------------------------------------------------- view

    method OnZoom(direction: int)
      requires Valid()
      modifies this
      ensures Valid()
      ensures State() == old(State()).(zoom := old(zoom) * ZoomFactor(direction))
    {
      zoom := zoom * ZoomFactor(direction);
    }

    method ToggleView()
      requires Valid()
      modifies this
      ensures Valid()
      ensures State() == old(State()).(viewMode := if old(viewMode) == Free then Jsat else Free)
    {
      if viewMode == Free {
        viewMode := Jsat;
      } else {
        viewMode := Free;
      }
    }

    /** Choosing a mode also forgets a pending connect source. */
    method SetMode(m: Mode)
      requires Valid()
      modifies this
      ensures Valid()
      ensures State() == old(State()).(mode := m, selectedNode := None)
    {
      mode := m;
      selectedNode := None;
    }

    // -------------------------------------------------------------- canvas events

    method OnMouseDown(p: Point)
      requires Valid()
      modifies this
      ensures Valid()
      ensures State() == MouseDown(old(State()), p)
    {
      ghost var s := State();
      MouseDownKeepsInv(s, p);
      var clicked := FindNodeAt(Shown(), p);
      var edge: Option<Edge> := None;
      if clicked.None? && mode == DeleteMode {
        edge := FindEdgeAt(Shown(), p);
      }
      assert MouseDown(s, p) == Press(s, p, clicked, edge);
      ApplyPress(p, clicked, edge);
    }

    /** The second half of `on_mouse_down`: grab the node found, or delete the edge found, or start a pan. */
    method ApplyPress(p: Point, clicked: Option<NodeId>, edge: Option<Edge>)
      requires Valid()
      modifies this
      ensures State() == Press(old(State()), p, clicked, edge)
    {
      if clicked.Some? {
        preDragGraph, dragNode, dragStartPos, isDragging := Some(g), clicked, Some(p), false;
      } else if edge.Some? {
        DeleteEdge(edge.value.0, edge.value.1);
      } else {
        inspectedNode, panStart, isDragging := None, Some(p), false;
      }
    }

    /** The edge deletion in `on_mouse_down`: a snapshot, then the edge goes. */
    method DeleteEdge(u: NodeId, v: NodeId)
      requires Valid()
      modifies this
      ensures State() == Save(old(State())).(g := RemoveEdge(old(g), u, v))
    {
      SaveState();
      g := RemoveEdge(g, u, v);
    }

    method OnMouseDrag(p: Point) returns (outcome: Outcome)
      requires Valid()
      modifies this
      ensures Valid()
      ensures (State(), outcome) == MouseDrag(old(State()), p)
    {
      MouseDragKeepsInv(State(), p);
      outcome := Done;
      if dragNode.Some? {
        outcome := DragTo(p);
      } else if panStart.Some? {
        PanTo(p);
      }
    }

    /** The node branch of `on_mouse_drag`. */
    method DragTo(p: Point) returns (outcome: Outcome)
      requires Valid() && dragNode.Some?
      modifies this
      ensures (State(), outcome) == DragStep(old(State()), p)
    {
      outcome := Done;
      if SqDist(p, dragStartPos.value) > 25.0 {
        isDragging := true;
        var w := ToWorld(View(zoom, offsetX, offsetY), p);
        if dragNode.value !in g.nodes {
          return Raised("KeyError");
        }
        g := SetPos(g, dragNode.value, w);
      }
    }

    /** The pan branch of `on_mouse_drag`. */
    method PanTo(p: Point)
      requires Valid() && panStart.Some?
      modifies this
      ensures State() == PanStep(old(State()), p)
    {
      if SqDist(p, panStart.value) > 25.0 {
        isDragging := true;
        var dx := p.x - panStart.value.x;
        var dy := p.y - panStart.value.y;
        offsetX := offsetX + dx;
        offsetY := offsetY + dy;
        panStart := Some(p);
      }
    }

    method OnMouseUp(p: Point) returns (outcome: Outcome)
      requires Valid()
      modifies this
      ensures Valid()
      ensures (State(), outcome) == MouseUp(old(State()), p)
    {
      ghost var s := State();
      MouseUpKeepsInv(s, p);
      outcome := Done;
      if dragNode.Some? {
        if isDragging {
          outcome := DropDraggedNode(p);
        } else {
          outcome := HandleClick(dragNode.value);
        }
        if outcome.Raised? {
          return;
        }
        dragNode, isDragging := None, false;
      } else if panStart.Some? {
        FinishPan(p);
      }
    }

    /** The drag branch of `on_mouse_up`: record the pre-drag snapshot, then snap in the layered view. */
    method DropDraggedNode(p: Point) returns (outcome: Outcome)
      requires Valid() && dragNode.Some? && isDragging
      modifies this
      ensures (State(), outcome) == DropNode(old(State()), p)
    {
      RecordPreDrag();
      outcome := Done;
      if viewMode == Jsat {
        var w := ToWorld(View(zoom, offsetX, offsetY), p);
        outcome := SnapToLayer(dragNode.value, w);
      }
    }

    /** The history step of a finished drag: the graph from before the drag becomes the newest snapshot. */
    method RecordPreDrag()
      requires Valid() && dragNode.Some?
      modifies this
      ensures Valid()
      ensures State() == RecordDrag(old(State()))
    {
      RecordDragKeepsInv(State());
      undoStack := undoStack + [preDragGraph.value];
      if |undoStack| > Config.HistoryLimit {
        undoStack := undoStack[1..];
      }
      redoStack := [];
    }

    /** The layered-view snap of a released node. */
    method SnapToLayer(id: NodeId, w: Point) returns (outcome: Outcome)
      requires Valid()
      modifies this
      ensures (State(), outcome) == Snap(old(State()), id, w)
    {
      var newLayer := LayerFromY(w.y);
      outcome := Done;
      if newLayer.Some? {
        if id !in g.nodes {
          return Raised("KeyError");
        }
        var n := g.nodes[id];
        g := SetNode(g, id, n.(layer := newLayer, pos := Point(w.x, Config.LayerY(newLayer.value))));
      }
    }

    /** The background branch of `on_mouse_up`: a click in an add mode adds a node at the pointer. */
    method FinishPan(p: Point)
      requires Valid()
      modifies this
      ensures State() == EndPan(old(State()), p)
    {
      if !isDragging && (mode == AddFuncMode || mode == AddResMode) {
        SaveState();
        var w := ToWorld(View(zoom, offsetX, offsetY), p);
        AddNode(w);
      }
      panStart, isDragging := None, false;
    }

    /** `handle_click`. */
    method HandleClick(id: NodeId) returns (outcome: Outcome)
      requires Valid()
      modifies this
      ensures Valid()
      ensures (State(), outcome) == Click(old(State()), id)
    {
      ClickKeepsInv(State(), id);
      inspectedNode := Some(id);
      outcome := Done;
      match mode {
        case DeleteMode => outcome := DeleteClicked(id);
        case AddEdgeMode => outcome := ConnectClicked(id);
        case AssignAgentMode => outcome := AssignClicked(id);
        case _ =>
      }
    }

    method DeleteClicked(id: NodeId) returns (outcome: Outcome)
      requires Valid()
      modifies this
      ensures (State(), outcome) == ClickDelete(old(State()), id)
    {
      SaveState();
      if id !in g.nodes {
        return Raised("NetworkXError");
      }
      g, inspectedNode := RemoveNode(g, id), None;
      outcome := Done;
    }

    method ConnectClicked(id: NodeId) returns (outcome: Outcome)
      requires Valid()
      modifies this
      ensures (State(), outcome) == ClickConnect(old(State()), id)
    {
      outcome := Done;
      if !Pending(selectedNode) {
        selectedNode := Some(id);
      } else {
        var u := selectedNode.value;
        if u != id {
          if u !in g.nodes || id !in g.nodes {
            return Raised("KeyError");
          }
          if g.nodes[u].typ == g.nodes[id].typ {
            outcome := Alert("Connection Error");
          } else {
            SaveState();
            g := AddEdge(g, u, id);
          }
        }
        selectedNode := None;
      }
    }

    method AssignClicked(id: NodeId) returns (outcome: Outcome)
      requires Valid()
      modifies this
      ensures (State(), outcome) == ClickAssign(old(State()), id)
    {
      if id !in g.nodes || g.nodes[id].agent.None? {
        return Raised("KeyError");
      }
      outcome := Done;
      if g.nodes[id].agent != Some(currentAgent) {
        SaveState();
        AssignAgentLogic(id, currentAgent);
      }
    }

    // -------------------------------------------------------------- graph edits

    /** `assign_agent_logic`: the node takes the agent, and so do its successors when it is a Function. */
    method AssignAgentLogic(id: NodeId, agent: string)
      requires Valid() && id in g.nodes
      modifies this
      ensures Valid()
      ensures State() == old(State()).(g := AssignAgent(old(g), id, agent))
    {
      var h := SpreadAgent(g, id, agent);
      AttributeEditKeepsAlternation(g, h);
      NewGraphKeepsInv(State(), h);
      g := h;
    }

    /** `add_node` at world point `w`. */
    method AddNode(w: Point)
      requires Valid()
      modifies this
      ensures Valid()
      ensures State() == AddNodeAt(old(State()), w)
    {
      var nid := NextId(g);
      var typ := if mode == AddFuncMode then Function else Resource;
      NextIdIsFresh(g);
      var n := NewNode(typ, w);
      AddNodeKeepsAlternation(g, nid, n);
      NewGraphKeepsInv(State(), Graphs.AddNode(g, nid, n));
      g := Graphs.AddNode(g, nid, n);
    }

    /** `on_layer_change` in the inspector: the inspected node is put on the chosen layer. */
    method ChangeLayer(name: string)
      requires Valid() && Config.IsLayer(name)
      requires inspectedNode.Some? && inspectedNode.value in g.nodes
      modifies this
      ensures Valid()
      ensures var id := old(inspectedNode).value;
        State() == Save(old(State())).(g := SetNode(old(g), id, old(g).nodes[id].(layer := Some(name))))
    {
      SaveState();
      var id := inspectedNode.value;
      var h := SetNode(g, id, g.nodes[id].(layer := Some(name)));
      AttributeEditKeepsAlternation(g, h);
      NewGraphKeepsInv(State(), h);
      g := h;
    }

    /** The node editor's save: a snapshot, then the new label (the node may have gone meanwhile). */
    method EditLabel(id: NodeId, text: string) returns (outcome: Outcome)
      requires Valid()
      modifies this
      ensures Valid()
      ensures id !in old(g).nodes ==> State() == Save(old(State())) && outcome == Raised("KeyError")
      ensures id in old(g).nodes ==>
        State() == Save(old(State())).(g := SetNode(old(g), id, old(g).nodes[id].(caption := text))) && outcome == Done
    {
      SaveState();
      if id !in g.nodes {
        return Raised("KeyError");
      }
      var h := SetNode(g, id, g.nodes[id].(caption := text));
      AttributeEditKeepsAlternation(g, h);
      NewGraphKeepsInv(State(), h);
      g := h;
      outcome := Done;
    }

    /** `finalize_json_save`'s first loop: every node without a layer gets the one it is drawn on. */
    method BakeLayersForSave()
      requires Valid()
      modifies this
      ensures Valid()
      ensures State() == old(State()).(g := BakeLayers(old(g)))
    {
      var h := BakeAll(g);
      AttributeEditKeepsAlternation(g, h);
      NewGraphKeepsInv(State(), h);
      g := h;
    }

    // -------------------------------------------------------------- agents

    /** The node loop shared by agent rename and agent delete: every node holding `from` gets `to`. */
    method RetagNodes(from: string, to: string)
      requires Valid()
      modifies this
      ensures Valid()
      ensures State() == old(State()).(g := RenameAgent(old(g), from, to))
    {
      var h := RetagAgent(g, from, to);
      AttributeEditKeepsAlternation(g, h);
      NewGraphKeepsInv(State(), h);
      g := h;
    }

    /** `create_agent`: a new, non-empty name gets the colour given, or grey. */
    method CreateAgent(name: Option<string>, color: Option<string>)
      requires Valid()
      modifies this
      ensures Valid()
      ensures name.Some? && name.value != "" && name.value !in old(agents) ==>
        State() == old(State()).(agents := old(agents)[name.value := if color.Some? && color.value != "" then color.value else "grey"])
      ensures !(name.Some? && name.value != "" && name.value !in old(agents)) ==> State() == old(State())
    {
      if name.Some? && name.value != "" && name.value !in agents {
        var c := if color.Some? && color.value != "" then color.value else "grey";
        agents := agents[name.value := c];
      }
    }

    /**
     * The agent editor's save: with both fields filled, a snapshot, the old name's entry
     * replaced by the new name and colour, and every node of the old name moved to the new.
     */
    method EditAgentSave(oldName: string, newName: string, newColor: string) returns (outcome: Outcome)
      requires Valid()
      modifies this
      ensures Valid()
      ensures newName == "" || newColor == "" ==> State() == old(State()) && outcome == Done
      ensures newName != "" && newColor != "" && oldName !in old(agents) ==>
        State() == Save(old(State())) && outcome == Raised("KeyError")
      ensures newName != "" && newColor != "" && oldName in old(agents) ==>
        && State() == Save(old(State())).(agents := (old(agents) - {oldName})[newName := newColor],
                                          g := RenameAgent(old(g), oldName, newName))
        && outcome == Done
    {
      outcome := Done;
      if newName != "" && newColor != "" {
        SaveState();
        if oldName !in agents {
          return Raised("KeyError");
        }
        agents := agents - {oldName};
        agents := agents[newName := newColor];
        RetagNodes(oldName, newName);
      }
    }

    /**
     * `delete_this_agent`: refused for "Unassigned"; otherwise, once confirmed, a snapshot,
     * every node of the agent back to "Unassigned", and the agent's entry removed.
     */
    method DeleteAgent(name: string, confirmed: bool) returns (outcome: Outcome)
      requires Valid()
      modifies this
      ensures Valid()
      ensures name == Config.Unassigned ==> State() == old(State()) && outcome == Alert("Restricted")
      ensures name != Config.Unassigned && !confirmed ==> State() == old(State()) && outcome == Done
      ensures name != Config.Unassigned && confirmed ==>
        var s := Save(old(State())).(g := RenameAgent(old(g), name, Config.Unassigned));
        if name in old(agents) then State() == s.(agents := old(agents) - {name}) && outcome == Done
        else State() == s && outcome == Raised("KeyError")
    {
      if name == Config.Unassigned {
        return Alert("Restricted");
      }
      outcome := Done;
      if confirmed {
        SaveState();
        RetagNodes(name, Config.Unassigned);
        if name !in agents {
          return Raised("KeyError");
        }
        agents := agents - {name};
      }
    }

    method OnSidebarNodePress(id: NodeId)
      requires Valid()
      modifies this
      ensures Valid()
      ensures State() == old(State()).(sidebarDragData := Some(id))
    {
      sidebarDragData := Some(id);
    }

    /**
     * Dropping a node from the sidebar on an agent's entry (`found`): a snapshot and the
     * assignment, propagation included; the press is forgotten afterwards.
     */
    method OnSidebarNodeRelease(found: Option<string>) returns (outcome: Outcome)
      requires Valid()
      modifies this
      ensures Valid()
      ensures old(sidebarDragData).None? ==> State() == old(State()) && outcome == Done
      ensures old(sidebarDragData).Some? && !(found.Some? && found.value != "") ==>
        State() == old(State()).(sidebarDragData := None) && outcome == Done
      ensures old(sidebarDragData).Some? && found.Some? && found.value != "" ==>
        var id := old(sidebarDragData).value;
        if id in old(g).nodes
        then State() == Save(old(State())).(g := AssignAgent(old(g), id, found.value), sidebarDragData := None) && outcome == Done
        else State() == Save(old(State())) && outcome == Raised("KeyError")
    {
      outcome := Done;
      if sidebarDragData.None? {
        return;
      }
      if found.Some? && found.value != "" {
        SaveState();
        if sidebarDragData.value !in g.nodes {
          return Raised("KeyError");
        }
        AssignAgentLogic(sidebarDragData.value, found.value);
      }
      sidebarDragData := None;
    }
  }
}
