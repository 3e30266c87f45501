# Interactive JSAT — a verified model of the editor core

Interactive JSAT is a desktop editor for Joint System Architecture Task diagrams. A diagram is a
directed graph whose nodes are *Functions* or *Resources*. Every edge joins a Function and a
Resource. Each node is owned by an *agent* (drawn in the agent's colour) and sits on one of four
horizontal *layers*. The editor has two views: a free view, where nodes sit where they were put,
and a layered view, where each node is drawn at its layer's height. Its toolbar offers select,
add-Function, add-Resource, connect and delete modes (Code/app.py:468-472). It also has agent
management, undo and redo, and a comparison window. An agent is given to a node by dropping the
node's sidebar entry on the agent (Code/app.py:808-827). The comparison
window shows several diagrams side by side, with their metrics and with highlight overlays
(cycles, cross-agent edges, communities).

This project models the logic under the widgets:

| module | file | what it holds |
|---|---|---|
| `Wrappers` | `wrappers.dfy` | `Option` |
| `Config` | `config.dfy` | the configuration constants: layer table and order, history limit, node radius, default agents |
| `Geometry` | `geometry.dfy` | points, the world/screen transform, zoom factors, the point-to-segment distance |
| `History` | `history.dfy` | the bounded undo/redo timeline |
| `Graphs` | `graph.dfy` | the graph value as the graph library keeps it (node order, attributes, successor lists), its edits, the bipartite rule and agent propagation |
| `Layers` | `layers.dfy` | layer resolution for both revisions, the layered draw position, the nearest-layer search, layer baking before save |
| `Editor` | `editor.dfy` | the main window's session state and each canvas event as a function of the state before it, with hit testing and the editor invariant |
| `EditorApp` | `editor_app.dfy` | class `GraphBuilderApp`: the same handlers as methods that update fields in place, proved to reach exactly the states of `Editor` |
| `Legacy` | `legacy.dfy` | the earlier all-in-one revision of the editor, as state functions and a class, with its different rules |
| `Highlights` | `highlights.dfy` | the highlight-group builders of the comparison window |
| `Panel` | `panel.dfy` | class `InteractiveComparisonPanel`: its own view, centring, pan and node drag, and the stacked highlight drawing |
| `Metrics` | `metrics.dfy` | the metric dispatch of the comparison table |

Numbers are `real`. Distances are compared by their squares, so `hypot(dx, dy) <= r` becomes
`dx*dx + dy*dy <= r*r`. A graph is a value, so an undo snapshot is a copy that later edits cannot
reach. Where a handler can raise (a `KeyError` on a node that has gone, say), the handler returns
`Raised(..)`. Every field change made before the raise is kept, and the rest of the handler is
skipped, as in Python. A message box is `Alert(title)`. The graph-library algorithms (simple
cycles, communities, clustering) are inputs.

The click handler of the current editor still has an assign-agent branch (Code/app.py:268-272),
and the model keeps it. Nothing in the current editor's interface enters that mode: no button
sets it, and the current agent is set only at start-up (Code/app.py:45). Only the earlier
revision enters it, when an agent is selected.

The earlier revision differs from the current editor in these rules:

- Its history limit is 6, not 40.
- A node whose stored layer is missing falls back by label prefix first ("Confirming…",
  "Confirmation…"), then by type.
- A press on the background in an add mode adds the node at once, at the raw pointer. There is
  no pan or zoom in that revision.
- A press on the background in delete mode deletes no edge: that revision has no edge hit test
  (Code/History/All_in_one_main.py:550-553).
- During a layered drag, the node's stored height stays pinned to its layer.
- New nodes store no layer (Code/History/All_in_one_main.py:635-638).
- A refused connect shows a box titled "Error", not "Connection Error"
  (Code/History/All_in_one_main.py:595).
- Creating an agent adds nothing when no colour is given, instead of defaulting to "grey".
  Otherwise the new agent becomes the current one and assign mode is entered
  (Code/History/All_in_one_main.py:622-626, 634). Selecting an agent does the same.
- Agents can be renamed but not deleted.

## Model

| member | source | states |
|---|---|---|
| `Config.LayerKeysFollowOrder` | Code/config.py:19-32 | the layer table's names are exactly the layer order, in the same order |
| `Config.LayerYStrictlyIncreasing` | Code/config.py:20-23 | layer heights strictly increase down the table |
| `Config.LayerIndexOfEntry` | Code/config.py:19-24 | looking up a table entry's name finds that entry and its height |
| `Config.ConfigurationIsSane` | Code/config.py:6-11 | the history limit and the node radius are positive; "Unassigned" and the default current agent are known agents; every ordered layer is in the table |
| `Geometry.ScreenWorldRoundTrip` | Code/app.py:131-139 | for a non-zero zoom, world→screen and screen→world are mutually inverse |
| `Geometry.ZoomFactor` | Code/app.py:141-146 | the wheel factor is positive, and it enlarges exactly when the wheel turns up |
| `Geometry.ZoomInOutDrifts` | Code/app.py:141-146 | zooming in and then out does not return to the old zoom: it leaves 0.99 of it |
| `Geometry.Clamp01` | Code/app.py:836 | the segment parameter is clamped into [0, 1]: unchanged inside, 0 below, 1 above |
| `Geometry.SegmentDistanceIsMinimal` | Code/app.py:829-840 | the computed point-to-segment distance is at most the distance to any point of the segment (degenerate segments included) |
| `Geometry.SegmentDistanceIsAttained` | Code/app.py:829-840 | the computed distance is the distance to some point of the segment, so it is the true minimum |
| `History.Push` | Code/app.py:618-622 | the snapshot becomes the top; below the limit the list just grows; at the limit the oldest entry is dropped; the length never exceeds the limit; nothing else enters |
| `History.Record` | Code/app.py:205-208 | recording a snapshot pushes it onto the undo list, clears redo and keeps the current graph |
| `History.RecordKeepsBound` | Code/app.py:618-622 | recording keeps the total of undo and redo entries within the limit |
| `History.RecordEvictsOldest` | Code/app.py:618-622 | at the limit, recording drops exactly the oldest snapshot and keeps the length at the limit |
| `History.Undo` | Code/app.py:624-628 | undo on an empty undo list changes nothing; otherwise it moves one graph between the lists, keeping their total |
| `History.Redo` | Code/app.py:630-634 | redo on an empty redo list changes nothing; otherwise it moves one graph between the lists, keeping their total |
| `History.UndoRedoKeepBound` | Code/app.py:624-634 | undo and redo keep the history bound |
| `History.RedoUndoesUndo` | Code/app.py:624-634 | redo right after an undo restores the whole timeline |
| `History.UndoUndoesRedo` | Code/app.py:624-634 | undo right after a redo restores the whole timeline |
| `History.UndoRevertsEdit` | Code/app.py:618-634 | after snapshot-then-edit, undo gives back the graph before the edit with the edited graph on the redo list, and redo brings the edit back |
| `History.UndoWalksBack` | Code/app.py:624-628 | k undos in a row reach the k-th newest snapshot and shorten the undo list by k |
| `Graphs.EdgesMembership` | Code/app.py:844 | the edge listing holds exactly the graph's edges |
| `Graphs.EdgesNoDup` | Code/utils.py:19 | the edge listing holds each edge once, so its length is the edge count |
| `Graphs.DegreeSumIsTwiceEdges` | Code/utils.py:27-29 | the sum of in- plus out-degrees over all nodes is twice the edge count |
| `Graphs.NextId` | Code/app.py:553 | the minted id is above every existing id: 0 for an empty graph, else one more than the largest |
| `Graphs.NextIdIsFresh` | Code/app.py:553 | the minted id is not already a node |
| `Graphs.AddNode` | Code/app.py:557-562 | a node added with a fresh id goes at the end of the node order with its attributes; edges are unchanged; the graph stays consistent |
| `Graphs.RemoveNode` | Code/app.py:244 | removing a node drops it and exactly the edges that touch it; the graph stays consistent |
| `Graphs.AddEdge` | Code/app.py:263 | adding an edge between existing nodes adds exactly that edge |
| `Graphs.RemoveEdge` | Code/app.py:172 | removing an edge drops exactly that edge and keeps the nodes |
| `Graphs.SetNode` | Code/app.py:546 | an attribute edit replaces one node's record and changes nothing else |
| `Graphs.SetPos` | Code/app.py:188 | moving a node changes only that node's position |
| `Graphs.SetAgent` | Code/app.py:515 | setting an agent changes only that node's agent |
| `Graphs.ConnectKeepsAlternation` | Code/app.py:253-263 | connecting a Function and a Resource keeps every edge between a Function and a Resource |
| `Graphs.RemoveNodeKeepsAlternation` | Code/app.py:244 | deleting a node keeps every edge between a Function and a Resource |
| `Graphs.RemoveEdgeKeepsAlternation` | Code/app.py:172 | deleting an edge keeps every edge between a Function and a Resource |
| `Graphs.AddNodeKeepsAlternation` | Code/app.py:552-563 | adding an unconnected node keeps every edge between a Function and a Resource |
| `Graphs.AttributeEditKeepsAlternation` | Code/app.py:514-519 | edits that keep edges and node kinds (agent, label, layer, position) keep every edge between a Function and a Resource |
| `Graphs.AssignAgent` | Code/app.py:514-519 | assigning an agent keeps the node order, the edges and the node set |
| `Graphs.AssignAgentReach` | Code/app.py:514-519 | after an assignment, a node holds the agent iff it is the clicked node, a direct successor of a clicked Function, or already held it; only the agent field can change, and other nodes are untouched |
| `Graphs.AssignAgentIsOneHop` | Code/app.py:518-519 | a node two hops away that is not a direct successor keeps its record |
| `Graphs.AssignAgentToResourceIsLocal` | Code/app.py:517 | assigning to a Resource changes no other node |
| `Graphs.SpreadAgent` | Code/app.py:514-519 | the loop over the successors computes exactly the one-hop assignment |
| `Graphs.SetAgents` | Code/app.py:518-519 | the listed nodes get the agent and every other node keeps its record |
| `Graphs.RenameAgent` | Code/app.py:591-593 | renaming an agent keeps the node order, the edges and the node set |
| `Graphs.RenameAgentEffect` | Code/app.py:591-593 | after a rename no node holds the old name; holders of the old name now hold the new one, and nothing else changes |
| `Graphs.RenameAgentRoundTrip` | Code/app.py:591-593 | renaming to a name no node holds and back restores the graph |
| `Graphs.RetagAgent` | Code/app.py:591-593 | the loop over the nodes computes exactly the rename |
| `Layers.DefaultLayer` | Code/app.py:109-112 | the default layer of either kind is a table layer |
| `Layers.NodeLayer` | Code/app.py:103-112 | a node's layer is always a table layer, and a stored layer in the table wins |
| `Layers.NodeLayerFallback` | Code/app.py:109-112 | without a valid stored layer, a Resource goes to the last layer and a Function to the third |
| `Layers.LegacyNodeLayer` | Code/History/All_in_one_main.py:305-310 | the earlier revision's layer is always a table layer, and a valid stored layer wins |
| `Layers.LegacyLayerAgreesWithoutPrefix` | Code/History/All_in_one_main.py:305-310 | for labels without the two prefixes, the earlier revision resolves layers as the current one does |
| `Layers.LegacyPrefixesPickUpperLayers` | Code/History/All_in_one_main.py:308-309 | with no valid stored layer, "Confirming" picks the first layer and "Confirmation" the second |
| `Layers.DrawPos` | Code/app.py:114-127 | x is never changed; the free view and the node being dragged use the stored point; otherwise y is the layer's height |
| `Layers.NearestLayer` | Code/app.py:793-802 | a layer the search returns is a table layer |
| `Layers.NearestLayerIsNearest` | Code/app.py:793-802 | no layer is found iff all are at least 9999 away; otherwise the result is a nearest layer and strictly nearer than every earlier one, so ties go to the first |
| `Layers.LayerFromY` | Code/app.py:793-802 | the running-minimum loop returns exactly the nearest layer |
| `Layers.NewNode` | Code/app.py:552-562 | a new node has the kind and point given, the "Unassigned" agent, and a stored layer that is valid |
| `Layers.LegacyNewNode` | Code/History/All_in_one_main.py:635-638 | the earlier revision's new node has the kind and point given, the "Unassigned" agent and no stored layer |
| `Layers.NewNodesShareLayer` | Code/app.py:552-562 | a new node resolves to the same layer in both revisions |
| `Layers.BakeLayers` | Code/app.py:641-644 | baking keeps the node order, edges and node set |
| `Layers.BakingKeepsLayers` | Code/app.py:641-644 | after baking, every node stores a layer, resolves to the layer it had, and changes no other field; a stored layer is kept |
| `Layers.BakingIsIdempotent` | Code/app.py:641-644 | baking twice is baking once |
| `Layers.BakeAll` | Code/app.py:641-644 | the loop over the nodes computes exactly the baked graph |
| `Editor.FirstNodeHitIsFirst` | Code/app.py:154-159 | the press search finds nothing iff no node is within the radius at its drawn point; otherwise the first such node in node order |
| `Editor.FindNodeAt` | Code/app.py:151-159 | the loop over the nodes returns exactly the first hit |
| `Editor.FirstEdgeHitIsFirst` | Code/app.py:842-853 | the edge search finds nothing iff no edge is near; otherwise the first near edge in edge order |
| `Editor.FindEdgeAt` | Code/app.py:842-853 | the loop over the edges returns exactly the first near edge |
| `Editor.EdgeHitIsNearSegment` | Code/app.py:829-851 | an edge is hit iff some point of its on-screen segment is less than 8 units from the pointer |
| `Editor.InitialIsValid` | Code/app.py:13-48 | the start state satisfies the editor invariant (positive zoom, sound graph and snapshots, bounded history) |
| `Editor.Save` | Code/app.py:618-622 | a snapshot acts on the timeline exactly as the history's save and changes nothing else |
| `Editor.DragAll` | Code/app.py:182-199 | a run of motion events keeps the editor invariant |
| `Editor.PushKeepsSound` | Code/app.py:618-622 | pushing a sound graph keeps every snapshot sound |
| `Editor.SaveKeepsInv` | Code/app.py:618-622 | a snapshot keeps the editor invariant |
| `Editor.NewGraphKeepsInv` | Code/app.py:624-634 | replacing the graph by a sound one (undo, redo) keeps the invariant |
| `Editor.ClickDeleteKeepsInv` | Code/app.py:242-246 | a delete click keeps the invariant |
| `Editor.ClickConnectKeepsInv` | Code/app.py:248-266 | a connect click keeps the invariant, in particular the Function/Resource rule |
| `Editor.ClickAssignKeepsInv` | Code/app.py:268-272 | an assign click keeps the invariant |
| `Editor.ClickKeepsInv` | Code/app.py:236-272 | every click keeps the invariant |
| `Editor.MouseDownKeepsInv` | Code/app.py:151-180 | a press keeps the invariant |
| `Editor.MouseDragKeepsInv` | Code/app.py:182-199 | a motion event keeps the invariant |
| `Editor.RecordDragKeepsInv` | Code/app.py:203-208 | recording a finished drag keeps the invariant |
| `Editor.SnapKeepsInv` | Code/app.py:210-218 | the layer snap keeps the invariant |
| `Editor.DropNodeKeepsInv` | Code/app.py:202-218 | the end of a node drag keeps the invariant |
| `Editor.EndPanKeepsInv` | Code/app.py:226-234 | the end of a pan (maybe adding a node) keeps the invariant |
| `Editor.MouseUpKeepsInv` | Code/app.py:201-234 | a release keeps the invariant |
| `Editor.ConnectRule` | Code/app.py:248-266 | with a pending source and a different target, the selection clears; the edge is added iff the kinds differ, after a snapshot; otherwise nothing else changes and "Connection Error" is shown |
| `Editor.NoClickConnectsFromNodeZero` | Code/app.py:249-250 | no click ever adds an edge out of node 0; with node 0 selected, the next click only selects the new node |
| `Editor.DeleteClickRemovesNode` | Code/app.py:242-246 | a delete click snapshots, then removes the node and exactly its edges, and clears the inspector |
| `Editor.AssignClick` | Code/app.py:268-272 | an assign click on a node already holding the agent only inspects it; otherwise it snapshots and assigns with one-hop propagation |
| `Editor.SmallMotionChangesNothing` | Code/app.py:182-199 | a motion within 5 units of the press point changes nothing |
| `Editor.ShortMotionsLeaveStateAlone` | Code/app.py:183-189 | any run of motions within 5 units of the press leaves the state as it was |
| `Editor.ClickMovesNoNode` | Code/app.py:236-272 | a click never moves a node |
| `Editor.ClickGesture` | Code/app.py:151-224 | press on a node, small motions and release: the node under the press is clicked, with no node moved |
| `Editor.DragMovesNodeToPointer` | Code/app.py:183-189 | past the threshold, the grabbed node's world point becomes the pointer's, so it is drawn under the pointer; nothing else changes |
| `Editor.PanKeepsGrabbedPoint` | Code/app.py:191-198 | a pan step keeps the grabbed world point under the pointer |
| `Editor.PanOffsetFollowsAnchor` | Code/app.py:191-198 | over any run of pan motions, the offsets move by exactly the anchor's total displacement |
| `Editor.ReleaseSnapsToNearestLayer` | Code/app.py:201-218 | after a layered drag, one undo entry (the pre-drag graph) is recorded; the node takes the layer nearest the release point, sits exactly at its height and is drawn there; no other node changes |
| `Editor.ReleaseInFreeViewKeepsPosition` | Code/app.py:201-211 | after a free-view drag, the graph stays where the drag left it and the pre-drag graph is recorded |
| `Editor.BackgroundClickAddsNode` | Code/app.py:226-234 | a background click in an add mode snapshots, then adds a node with a fresh id that is drawn under the pointer |
| `EditorApp.GraphBuilderApp.constructor` | Code/app.py:13-48 | the window starts in the initial state, which satisfies the invariant |
| `EditorApp.GraphBuilderApp.SaveState` | Code/app.py:618-622 | the fields take the snapshot's state; the invariant holds |
| `EditorApp.GraphBuilderApp.Undo` | Code/app.py:624-628 | the graph and the lists move as the history's undo; the invariant holds |
| `EditorApp.GraphBuilderApp.Redo` | Code/app.py:630-634 | the graph and the lists move as the history's redo; the invariant holds |
| `EditorApp.GraphBuilderApp.OnZoom` | Code/app.py:141-147 | only the zoom changes, by the wheel factor |
| `EditorApp.GraphBuilderApp.ToggleView` | Code/app.py:445-452 | only the view mode flips |
| `EditorApp.GraphBuilderApp.SetMode` | Code/app.py:493-498 | the mode is set and the pending source cleared |
| `EditorApp.GraphBuilderApp.OnMouseDown` | Code/app.py:151-180 | the fields take the press state; the invariant holds |
| `EditorApp.GraphBuilderApp.ApplyPress` | Code/app.py:161-180 | grabs the node, deletes the edge, or starts a pan |
| `EditorApp.GraphBuilderApp.DeleteEdge` | Code/app.py:168-174 | snapshots, then removes the one edge |
| `EditorApp.GraphBuilderApp.OnMouseDrag` | Code/app.py:182-199 | the fields take the motion state and outcome; the invariant holds |
| `EditorApp.GraphBuilderApp.DragTo` | Code/app.py:183-189 | a node drag step |
| `EditorApp.GraphBuilderApp.PanTo` | Code/app.py:191-199 | a pan step |
| `EditorApp.GraphBuilderApp.OnMouseUp` | Code/app.py:201-234 | the fields take the release state and outcome; the invariant holds |
| `EditorApp.GraphBuilderApp.DropDraggedNode` | Code/app.py:203-218 | records the drag and snaps in the layered view |
| `EditorApp.GraphBuilderApp.RecordPreDrag` | Code/app.py:205-208 | pushes the pre-drag graph and clears redo |
| `EditorApp.GraphBuilderApp.SnapToLayer` | Code/app.py:210-218 | moves the node onto the nearest layer, if any |
| `EditorApp.GraphBuilderApp.FinishPan` | Code/app.py:226-234 | ends the pan, adding a node on a click in an add mode |
| `EditorApp.GraphBuilderApp.HandleClick` | Code/app.py:236-272 | the fields take the click state and outcome; the invariant holds |
| `EditorApp.GraphBuilderApp.DeleteClicked` | Code/app.py:242-246 | the delete branch |
| `EditorApp.GraphBuilderApp.ConnectClicked` | Code/app.py:248-266 | the connect branch |
| `EditorApp.GraphBuilderApp.AssignClicked` | Code/app.py:268-272 | the assign branch |
| `EditorApp.GraphBuilderApp.AssignAgentLogic` | Code/app.py:514-519 | only the graph changes, by one-hop assignment |
| `EditorApp.GraphBuilderApp.AddNode` | Code/app.py:552-563 | adds the new node at the fresh id |
| `EditorApp.GraphBuilderApp.ChangeLayer` | Code/app.py:417-420 | snapshots, then stores the chosen layer on the inspected node |
| `EditorApp.GraphBuilderApp.EditLabel` | Code/app.py:544-548 | snapshots, then sets the label, or raises `KeyError` for a node that has gone |
| `EditorApp.GraphBuilderApp.BakeLayersForSave` | Code/app.py:639-644 | only the graph changes, to its baked form |
| `EditorApp.GraphBuilderApp.RetagNodes` | Code/app.py:591-593 | only the graph changes, by the rename |
| `EditorApp.GraphBuilderApp.CreateAgent` | Code/app.py:565-570 | a new non-empty name is added with its colour, or "grey" if none is given; otherwise nothing changes |
| `EditorApp.GraphBuilderApp.EditAgentSave` | Code/app.py:583-596 | with both fields filled, snapshots, re-keys the agent and renames it on every node (`KeyError` if the old name has gone); otherwise nothing changes |
| `EditorApp.GraphBuilderApp.DeleteAgent` | Code/app.py:598-611 | "Unassigned" is refused with no change; on confirmation, snapshots, resets the agent's nodes to "Unassigned" and removes the agent |
| `EditorApp.GraphBuilderApp.OnSidebarNodePress` | Code/app.py:804-806 | remembers the pressed node |
| `EditorApp.GraphBuilderApp.OnSidebarNodeRelease` | Code/app.py:808-827 | dropped on an agent, snapshots and assigns that agent; the remembered node is cleared |
| `Legacy.InitialIsValid` | Code/History/All_in_one_main.py:179-200 | the earlier revision's start state satisfies its invariant |
| `Legacy.FirstNodeHitIsFirst` | Code/History/All_in_one_main.py:540-544 | the press search finds the first node within the radius at its drawn point, or none iff there is none |
| `Legacy.NodeUnderPress` | Code/History/All_in_one_main.py:538-544 | the loop returns exactly that first hit |
| `Legacy.FirstStoredHitIsFirst` | Code/History/All_in_one_main.py:651-655 | the double-click search finds the first node within the radius at its stored point, or none iff there is none |
| `Legacy.FindNodeAt` | Code/History/All_in_one_main.py:651-655 | the loop returns exactly that first hit |
| `Legacy.SearchesAgreeInFreeView` | Code/History/All_in_one_main.py:322-331 | in the free view, the press search and the double-click search agree |
| `Legacy.Save` | Code/History/All_in_one_main.py:639-642 | a snapshot acts on the timeline as the history's save with limit 6 and changes nothing else |
| `Legacy.SaveKeepsInv` | Code/History/All_in_one_main.py:639-642 | a snapshot keeps the invariant |
| `Legacy.NewGraphKeepsInv` | Code/History/All_in_one_main.py:643-646 | undo and redo keep the invariant |
| `Legacy.ClickDeleteKeepsInv` | Code/History/All_in_one_main.py:588 | a delete click keeps the invariant |
| `Legacy.ClickConnectKeepsInv` | Code/History/All_in_one_main.py:589-596 | a connect click keeps the invariant |
| `Legacy.ClickAssignKeepsInv` | Code/History/All_in_one_main.py:597-599 | an assign click keeps the invariant |
| `Legacy.ClickKeepsInv` | Code/History/All_in_one_main.py:585-599 | every click keeps the invariant |
| `Legacy.AddNodeAtKeepsInv` | Code/History/All_in_one_main.py:635-638 | adding a node keeps the invariant |
| `Legacy.MouseDownKeepsInv` | Code/History/All_in_one_main.py:538-554 | a press keeps the invariant |
| `Legacy.MouseDragKeepsInv` | Code/History/All_in_one_main.py:556-565 | a motion keeps the invariant |
| `Legacy.SnapKeepsInv` | Code/History/All_in_one_main.py:574-579 | the layer snap keeps the invariant |
| `Legacy.DropNodeKeepsInv` | Code/History/All_in_one_main.py:569-579 | the end of a drag keeps the invariant |
| `Legacy.MouseUpKeepsInv` | Code/History/All_in_one_main.py:567-582 | a release keeps the invariant |
| `Legacy.BackgroundPressAddsNode` | Code/History/All_in_one_main.py:551-553 | a background press in an add mode snapshots and adds a node with a fresh id at the raw pointer, with no stored layer, placed on its kind's default layer |
| `Legacy.BackgroundPressElsewhere` | Code/History/All_in_one_main.py:551-554 | in other modes a background press only clears the inspector |
| `Legacy.LayeredDragKeepsHeight` | Code/History/All_in_one_main.py:556-565 | a layered drag moves the node along x and keeps it at its layer's height, in store and on screen |
| `Legacy.LegacyLayerIgnoresPosition` | Code/History/All_in_one_main.py:305-310 | a node's layer does not depend on its position |
| `Legacy.FreeDragFollowsPointer` | Code/History/All_in_one_main.py:558-561 | a free drag puts the node at the pointer |
| `Legacy.SmallMotionChangesNothing` | Code/History/All_in_one_main.py:556-558 | a motion within 5 units of the press changes nothing |
| `Legacy.ReleaseSnapsToNearestLayer` | Code/History/All_in_one_main.py:567-579 | after a layered drag, the node takes the layer nearest the raw release y and sits at its height; the pre-drag graph is recorded |
| `Legacy.SaveAtLimitEvictsOldest` | Code/History/All_in_one_main.py:639-642 | with 6 snapshots, a save drops the oldest and stays at 6 |
| `Legacy.ConnectRule` | Code/History/All_in_one_main.py:589-596 | a connect adds the edge iff the kinds differ, after a snapshot; otherwise an "Error" box is shown and nothing else changes |
| `Legacy.GraphBuilderApp.constructor` | Code/History/All_in_one_main.py:179-200 | the window starts in the initial state |
| `Legacy.GraphBuilderApp.SaveState` | Code/History/All_in_one_main.py:639-642 | the fields take the snapshot's state |
| `Legacy.GraphBuilderApp.Undo` | Code/History/All_in_one_main.py:643-644 | the graph and the lists move as the history's undo |
| `Legacy.GraphBuilderApp.Redo` | Code/History/All_in_one_main.py:645-646 | the graph and the lists move as the history's redo |
| `Legacy.GraphBuilderApp.ToggleView` | Code/History/All_in_one_main.py:296-303 | only the view mode flips |
| `Legacy.GraphBuilderApp.SetMode` | Code/History/All_in_one_main.py:647-650 | the mode is set and the pending source cleared |
| `Legacy.GraphBuilderApp.SelectAgent` | Code/History/All_in_one_main.py:634 | the agent becomes current and the mode becomes assign |
| `Legacy.GraphBuilderApp.OnMouseDown` | Code/History/All_in_one_main.py:538-554 | the fields take the press state |
| `Legacy.GraphBuilderApp.ApplyPress` | Code/History/All_in_one_main.py:546-554 | grabs the node, or handles the background press |
| `Legacy.GraphBuilderApp.OnMouseDrag` | Code/History/All_in_one_main.py:556-565 | the fields take the motion state |
| `Legacy.GraphBuilderApp.OnMouseUp` | Code/History/All_in_one_main.py:567-582 | the fields take the release state |
| `Legacy.GraphBuilderApp.DropDraggedNode` | Code/History/All_in_one_main.py:569-579 | records the drag and snaps in the layered view |
| `Legacy.GraphBuilderApp.SnapToLayer` | Code/History/All_in_one_main.py:574-579 | moves the node onto the nearest layer, if any |
| `Legacy.GraphBuilderApp.HandleClick` | Code/History/All_in_one_main.py:585-599 | the fields take the click state |
| `Legacy.GraphBuilderApp.DeleteClicked` | Code/History/All_in_one_main.py:588 | the delete branch |
| `Legacy.GraphBuilderApp.ConnectClicked` | Code/History/All_in_one_main.py:589-596 | the connect branch |
| `Legacy.GraphBuilderApp.AssignClicked` | Code/History/All_in_one_main.py:597-599 | the assign branch |
| `Legacy.GraphBuilderApp.AssignAgentLogic` | Code/History/All_in_one_main.py:601-605 | only the graph changes, by one-hop assignment |
| `Legacy.GraphBuilderApp.AddNode` | Code/History/All_in_one_main.py:635-638 | adds the new node at the fresh id |
| `Legacy.GraphBuilderApp.EditLabel` | Code/History/All_in_one_main.py:618-619 | snapshots, then sets the label, or raises `KeyError` for a node that has gone |
| `Legacy.GraphBuilderApp.CreateAgent` | Code/History/All_in_one_main.py:622-626 | a new name with a colour is added and becomes the current agent in assign mode; otherwise nothing changes |
| `Legacy.GraphBuilderApp.EditAgentSave` | Code/History/All_in_one_main.py:661-667 | with both fields filled, snapshots, re-keys the agent and renames it on every node; otherwise nothing changes |
| `Highlights.PalettesAreDistinct` | Code/metric_visualizations.py:16-25 | each palette holds 8 distinct colours |
| `Highlights.CycleEdgesClose` | Code/metric_visualizations.py:31-35 | a cycle's edge list starts at its first node, chains head to tail and closes back to the first node |
| `Highlights.BuildCycleEdges` | Code/metric_visualizations.py:31-35 | the loop builds exactly the closed edge list |
| `Highlights.GetCycleHighlights` | Code/metric_visualizations.py:27-44 | the loop builds one group per cycle |
| `Highlights.CycleColorsRepeat` | Code/metric_visualizations.py:28 | two cycle groups share a colour iff their indices agree mod 8 |
| `Highlights.SingleCycleHighlight` | Code/metric_visualizations.py:56-57 | the single-cycle view is empty iff the index is out of range, and holds at most one group |
| `Highlights.GetSingleCycleHighlight` | Code/metric_visualizations.py:49-91 | the method returns exactly that view |
| `Highlights.SingleCycleMatchesFullView` | Code/metric_visualizations.py:62-86 | the single view shows the same nodes and edges as the full view, wider (10 against 8), and the same colour except at indices 1, 2 and 7 mod 8 |
| `Highlights.CrossEdgesMembership` | Code/metric_visualizations.py:100-105 | an edge is a cross edge iff it is listed and its endpoints' agents differ |
| `Highlights.InvolvedMembership` | Code/metric_visualizations.py:106-107 | the involved nodes are exactly the endpoints of the cross edges, each once |
| `Highlights.InterdependenceIsExact` | Code/metric_visualizations.py:97-117 | empty iff no edge crosses agents; otherwise one red group of width 8 holding exactly the crossing edges and their endpoints |
| `Highlights.CrossEdgesOfGraph` | Code/metric_visualizations.py:100-105 | the cross edges of the graph's edge listing are exactly its crossing edges |
| `Highlights.InvolvedOfCross` | Code/metric_visualizations.py:106-113 | a node is involved iff it ends a crossing edge |
| `Highlights.GetInterdependenceHighlights` | Code/metric_visualizations.py:93-117 | the loop returns exactly the interdependence view |
| `Highlights.IntraMembership` | Code/metric_visualizations.py:148-153 | the nested loop yields exactly the graph's edges from the first set to the second |
| `Highlights.IntraCommunityEdges` | Code/metric_visualizations.py:149-153 | the method returns exactly the community's internal edges |
| `Highlights.GetModularityHighlights` | Code/metric_visualizations.py:144-163 | the loop builds one group per community |
| `Highlights.Insert` | Code/metric_visualizations.py:178 | insertion adds exactly one community |
| `Highlights.SortBySize` | Code/metric_visualizations.py:178 | sorting is a permutation of the communities |
| `Highlights.InsertKeepsOrder` | Code/metric_visualizations.py:178 | inserting into a largest-first list keeps it largest-first |
| `Highlights.SortBySizeSorts` | Code/metric_visualizations.py:178 | the sorted list is largest-first |
| `Highlights.InsertIsStable` | Code/metric_visualizations.py:178 | inserting into a largest-first list puts the new community after every earlier one of its size |
| `Highlights.SortBySizeIsStable` | Code/metric_visualizations.py:178 | the sort is stable: the communities of each size keep their input order |
| `Highlights.SingleModularityHighlight` | Code/metric_visualizations.py:180-181 | the single-community view is empty iff the index is out of range, and holds at most one group |
| `Highlights.SingleModularityPicksBySize` | Code/metric_visualizations.py:175-204 | the k-th group is a community no larger than any before it (index 0 is a largest) and holds exactly its internal edges |
| `Highlights.GetSingleModularityHighlight` | Code/metric_visualizations.py:169-208 | the method returns exactly that view |
| `Panel.FirstPanelHit` | Code/components.py:168-172 | a node the panel's press search returns is a node within the zoomed radius |
| `Panel.FirstPanelHitIsFirst` | Code/components.py:168-172 | the press search finds nothing iff no node is within the zoomed radius; otherwise the first in node order |
| `Panel.FindPanelNode` | Code/components.py:164-172 | the loop returns exactly that first hit |
| `Panel.PanTotalIsDisplacement` | Code/components.py:188-192 | over any run of pan motions, the offsets move by the total pointer displacement |
| `Panel.PanKeepsGrabbedPoint` | Code/components.py:188-192 | a pan step keeps the grabbed world point under the pointer |
| `Panel.NodeDragFollowsPointer` | Code/components.py:183-185 | a dragged node is drawn exactly under the pointer |
| `Panel.Min` | Code/components.py:66-67 | the minimum is an element and below every element |
| `Panel.Max` | Code/components.py:66-67 | the maximum is an element and above every element |
| `Panel.Coords` | Code/components.py:62-63 | the coordinate lists hold each node's x (or y), in node order |
| `Panel.BoxCentreIsInside` | Code/components.py:62-69 | every node and the box centre lie inside the bounding box |
| `Panel.CentredOn` | Code/components.py:71-72 | the chosen offsets put the centre point in the middle of the canvas |
| `Panel.PairKey` | Code/components.py:105 | the key is the pair in ascending order |
| `Panel.PairKeyIgnoresDirection` | Code/components.py:105 | an edge and its reverse share a key |
| `Panel.BandsFollowCounter` | Code/components.py:104-119 | each non-degenerate stroke is drawn with the offset of the counter for its pair at that point of the pass |
| `Panel.CountGrows` | Code/components.py:104-107 | the counter for a pair grows by at least one past each of its strokes |
| `Panel.RepeatsAreSpreadOut` | Code/components.py:104-110 | a later stroke of the same pair and width gets a strictly larger offset |
| `Panel.OffsetGrows` | Code/components.py:109-110 | a larger count gives a larger offset |
| `Panel.ExtendBands` | Code/components.py:104-119 | one more stroke adds one band (none for a zero-length edge) and bumps only its pair's counter |
| `Panel.DrawHighlights` | Code/components.py:89-126 | drawing succeeds iff every highlighted node and edge end is in the graph, and then yields exactly the halos and the stacked bands |
| `Panel.DrawHalos` | Code/components.py:96-101 | one group's halos, or failure on an unknown node |
| `Panel.DrawBands` | Code/components.py:103-126 | one group's bands, keeping the counters in step |
| `Panel.DrawBand` | Code/components.py:104-119 | one edge's band and counter update |
| `Panel.InteractiveComparisonPanel.constructor` | Code/components.py:13-27 | given a positive node radius (every caller passes `NODE_RADIUS`, 20), the panel starts with the given graph, zoom 1, zero offsets, no gesture, not centred, no highlights |
| `Panel.InteractiveComparisonPanel.SetHighlights` | Code/components.py:49-52 | only the highlight list changes |
| `Panel.InteractiveComparisonPanel.OnResize` | Code/components.py:54-58 | the first resize centres the view on a non-empty graph; later ones keep it |
| `Panel.InteractiveComparisonPanel.CenterView` | Code/components.py:60-72 | the bounding-box centre lands in the middle of the canvas; an empty graph keeps the view |
| `Panel.InteractiveComparisonPanel.OnZoom` | Code/components.py:156-162 | only the zoom changes, by the wheel factor |
| `Panel.InteractiveComparisonPanel.OnMouseDown` | Code/components.py:164-179 | a press on a node starts a node drag and reports its label; otherwise it starts a pan from the press point |
| `Panel.InteractiveComparisonPanel.OnMouseDrag` | Code/components.py:181-193 | a node drag puts the node at the pointer's world point; a pan moves the offsets and the anchor |
| `Panel.InteractiveComparisonPanel.OnMouseUp` | Code/components.py:195-196 | the gesture ends and nothing else changes |
| `Panel.InteractiveComparisonPanel.RedrawHighlights` | Code/components.py:84-126 | the highlight pass of a redraw, as `Panel.DrawHighlights` for the panel's graph, view and highlights |
| `Metrics.Density` | Code/utils.py:24-25 | the density is non-negative, and zero for a graph without edges |
| `Metrics.CalculateMetric` | Code/utils.py:7-41 | "Nodes" and "Edges" give counts even when empty; any other name on an empty graph gives "0"; an unknown name gives ""; "Err" exactly when clustering fails |
| `Metrics.AvgDegreeIsTwiceEdgesPerNode` | Code/utils.py:27-29 | the average degree is twice the edge count over the node count |

The earlier revision's `calculate_metric` (Code/History/All_in_one_main.py:703-713) has the same
branches as Code/utils.py:7-41 and is covered by `Metrics.CalculateMetric`.

## Left out

- The Tk widgets, layout, toolbar, dashboards, dialogs, tooltips and redraw callbacks. A dialog's answer is a parameter (`CreateAgent`'s name and colour, `DeleteAgent`'s confirmation). A message box is the `Alert` outcome.
- File I/O: JSON load and save, and the saved-architectures store. Only the pure layer-baking step before a save is modelled.
- The graph-library algorithms: simple cycles, greedy modularity communities and average clustering. Cycles and communities are input lists. Clustering is an `Option<real>` parameter, where `None` stands for the call raising.
- Floating point. Numbers are `real`, `hypot` comparisons are made on squares, and the `.3f`/`.2f` text formatting is left as a value with its number of places (`Metrics.MetricValue.Figure`).
- The unit perpendicular vector of a highlight band (Code/components.py:121-126). A band keeps its offset and width but not its screen coordinates.
- Node ids are integers. String ids appear only after loading a file, which is not part of this model.
- Attribute defaults from `.get`: a node always has a position, a highlight always has a colour and width, and a node always has a label. Only a missing `agent` is modelled (as `None`).
- Python set order. The involved-node list keeps first-appearance order, and the order of a community's nodes is taken as given.
- The sidebar's widget-tree walk (Code/app.py:813-822). The agent it finds is a parameter of `OnSidebarNodeRelease`.
- The earlier revision's comparison panel (Code/History/All_in_one_main.py:10-171) is not modelled. Its drag and release handlers use fields that class never sets. The current panel in Code/components.py is modelled instead.
- The earlier revision's sidebar drag handlers (Code/History/All_in_one_main.py:369-392). They match the current editor's, which are modelled.
- The panel's click callback is assumed present. Its `drag_mode` and `drag_data` pair is merged into one `Gesture` value.
- Panel.DrawHighlights: on an unknown node the source raises partway through a redraw. The model reports only the failure, not the halos and bands drawn before it.
- Panel.DrawHighlights: the halos and the bands come back as two lists. The canvas order is not stated: the source draws each group's halos and then its bands, group after group (Code/components.py:92-126), and that order decides which item covers which.
- Metrics.Density: not proved to be at most 1, because that needs the edge count bounded by n(n-1), which the graph invariant does not state.
