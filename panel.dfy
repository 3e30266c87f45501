/**
 * The comparison window's panel (`InteractiveComparisonPanel`): one graph drawn with its own
 * pan and zoom, where nodes can be dragged, the view can be panned, and highlight groups are
 * drawn under the graph. Repeated highlights of the same edge are stacked side by side: a
 * counter per unordered node pair, shared by all groups of one drawing pass, gives each
 * repeat a larger perpendicular offset.
 */
module Panel {
  import opened Wrappers
  import opened Geometry
  import opened Graphs
  import opened Highlights

  /** `drag_mode` with its `drag_data`: nothing, the node being moved, or the last pan point. */
  datatype Gesture = Idle | MovingNode(id: NodeId) | Panning(last: Point)

  // ---------------------------------------------------------------- pressing a node

  /** A press at screen point `p` is on node `id`: within `node_radius * zoom` of its drawn centre. */
  predicate PanelHit(g: Graph, v: View, radius: real, id: NodeId, p: Point) {
    id in g.nodes && SqDist(p, ToScreen(v, g.nodes[id].pos)) <= Sq(radius * v.zoom)
  }

  function FirstPanelHit(g: Graph, v: View, radius: real, ids: seq<NodeId>, p: Point): (r: Option<NodeId>)
    ensures r.Some? ==> r.value in ids && PanelHit(g, v, radius, r.value, p)
  {
    if ids == [] then None
    else if PanelHit(g, v, radius, ids[0], p) then Some(ids[0])
    else FirstPanelHit(g, v, radius, ids[1..], p)
  }

  /** No hit means the press is on none of `ids`; a hit is on the press, and no earlier id is. */
  lemma {:induction false} FirstPanelHitIsFirst(g: Graph, v: View, radius: real, ids: seq<NodeId>, p: Point)
    ensures var r := FirstPanelHit(g, v, radius, ids, p);
      && (r.None? <==> forall j :: 0 <= j < |ids| ==> !PanelHit(g, v, radius, ids[j], p))
      && (r.Some? ==> exists k :: 0 <= k < |ids| && ids[k] == r.value && PanelHit(g, v, radius, ids[k], p)
                                  && forall j :: 0 <= j < k ==> !PanelHit(g, v, radius, ids[j], p))
  {
    if ids != [] && !PanelHit(g, v, radius, ids[0], p) {
      FirstPanelHitIsFirst(g, v, radius, ids[1..], p);
      assert forall j :: 1 <= j < |ids| ==> ids[1..][j - 1] == ids[j];
      var r := FirstPanelHit(g, v, radius, ids[1..], p);
      if r.Some? {
        var k :| 0 <= k < |ids[1..]| && ids[1..][k] == r.value && PanelHit(g, v, radius, ids[1..][k], p)
                 && forall j :: 0 <= j < k ==> !PanelHit(g, v, radius, ids[1..][j], p);
        assert ids[k + 1] == r.value && forall j :: 0 <= j < k + 1 ==> !PanelHit(g, v, radius, ids[j], p);
      }
    }
  }

  /** The node loop of the panel's `on_mouse_down`. */
  method FindPanelNode(g: Graph, v: View, radius: real, p: Point) returns (clicked: Option<NodeId>)
    requires Valid(g)
    ensures clicked == FirstPanelHit(g, v, radius, g.order, p)
  {
    var ids := g.order;
    var i := 0;
    while i < |ids|
      invariant 0 <= i <= |ids|
      invariant FirstPanelHit(g, v, radius, ids[i..], p) == FirstPanelHit(g, v, radius, ids, p)
    {
      var n := ids[i];
      assert ids[i..][0] == n && ids[i..][1..] == ids[i + 1..];
      if PanelHit(g, v, radius, n, p) {
        return Some(n);
      }
      i := i + 1;
    }
    return None;
  }

  // ---------------------------------------------------------------- panning and centring

  /** One accepted pan motion from `q` to `p`: the offsets move by the pointer's displacement. */
  function PanBy(v: View, q: Point, p: Point): View {
    View(v.zoom, v.offsetX + (p.x - q.x), v.offsetY + (p.y - q.y))
  }

  /** A run of pan motions, each measured from the previous pointer position. */
  function PanAlong(v: View, q: Point, ps: seq<Point>): View
    decreases |ps|
  {
    if ps == [] then v else PanAlong(PanBy(v, q, ps[0]), ps[0], ps[1..])
  }

  /** However the pointer wanders, the offsets end up moved by its total displacement. */
  lemma {:induction false} PanTotalIsDisplacement(v: View, q: Point, ps: seq<Point>)
    requires ps != []
    decreases |ps|
    ensures var last := ps[|ps| - 1];
      PanAlong(v, q, ps) == View(v.zoom, v.offsetX + (last.x - q.x), v.offsetY + (last.y - q.y))
  {
    if |ps| > 1 {
      PanTotalIsDisplacement(PanBy(v, q, ps[0]), ps[0], ps[1..]);
    }
  }

  /** The world point under the pointer stays under it while panning. */
  lemma PanKeepsGrabbedPoint(v: View, q: Point, p: Point)
    requires v.zoom != 0.0
    ensures ToWorld(PanBy(v, q, p), p) == ToWorld(v, q)
  {
    var w := PanBy(v, q, p);
    assert p.x - w.offsetX == q.x - v.offsetX;
    assert p.y - w.offsetY == q.y - v.offsetY;
  }

  /** The node dragged to screen point `p` is drawn exactly under the pointer. */
  lemma NodeDragFollowsPointer(v: View, p: Point)
    requires v.zoom != 0.0
    ensures ToScreen(v, ToWorld(v, p)) == p
  {
    ScreenWorldRoundTrip(v, p);
  }

  /** The least of a non-empty list of numbers (`min`). */
  function Min(xs: seq<real>): (m: real)
    requires xs != []
    ensures m in xs && forall x :: x in xs ==> m <= x
  {
    if |xs| == 1 then xs[0]
    else
      var rest := Min(xs[1..]);
      assert forall x :: x in xs ==> x == xs[0] || x in xs[1..];
      if xs[0] <= rest then xs[0] else rest
  }

  /** The greatest of a non-empty list of numbers (`max`). */
  function Max(xs: seq<real>): (m: real)
    requires xs != []
    ensures m in xs && forall x :: x in xs ==> x <= m
  {
    if |xs| == 1 then xs[0]
    else
      var rest := Max(xs[1..]);
      assert forall x :: x in xs ==> x == xs[0] || x in xs[1..];
      if xs[0] >= rest then xs[0] else rest
  }

  /** The x (or y) coordinates of the nodes `ids`, in order. */
  function Coords(g: Graph, ids: seq<NodeId>, horizontal: bool): (cs: seq<real>)
    requires forall i :: 0 <= i < |ids| ==> ids[i] in g.nodes
    ensures |cs| == |ids|
    ensures forall i :: 0 <= i < |ids| ==> cs[i] == if horizontal then g.nodes[ids[i]].pos.x else g.nodes[ids[i]].pos.y
  {
    if ids == [] then []
    else
      var p := g.nodes[ids[0]].pos;
      [if horizontal then p.x else p.y] + Coords(g, ids[1..], horizontal)
  }

  lemma OrderIsKnown(g: Graph)
    requires Valid(g)
    ensures forall i :: 0 <= i < |g.order| ==> g.order[i] in g.nodes
  {
    forall i | 0 <= i < |g.order| ensures g.order[i] in g.nodes {
      var id := g.order[i];
      assert id in g.order;
      assert id in g.order <==> id in g.nodes;
    }
  }

  function Xs(g: Graph): (xs: seq<real>)
    requires Valid(g)
    ensures |xs| == |g.order|
  {
    OrderIsKnown(g);
    Coords(g, g.order, true)
  }

  function Ys(g: Graph): (ys: seq<real>)
    requires Valid(g)
    ensures |ys| == |g.order|
  {
    OrderIsKnown(g);
    Coords(g, g.order, false)
  }

  /** The centre of the nodes' bounding box. */
  function BoxCentre(g: Graph): Point
    requires Valid(g) && g.order != []
  {
    Point((Min(Xs(g)) + Max(Xs(g))) / 2.0, (Min(Ys(g)) + Max(Ys(g))) / 2.0)
  }

  /** The centre lies inside the box: between the leftmost and rightmost, topmost and lowest node. */
  lemma BoxCentreIsInside(g: Graph)
    requires Valid(g) && g.order != []
    ensures forall id :: id in g.nodes ==>
      Min(Xs(g)) <= g.nodes[id].pos.x <= Max(Xs(g)) && Min(Ys(g)) <= g.nodes[id].pos.y <= Max(Ys(g))
    ensures Min(Xs(g)) <= BoxCentre(g).x <= Max(Xs(g)) && Min(Ys(g)) <= BoxCentre(g).y <= Max(Ys(g))
  {
    forall id | id in g.nodes
      ensures Min(Xs(g)) <= g.nodes[id].pos.x <= Max(Xs(g)) && Min(Ys(g)) <= g.nodes[id].pos.y <= Max(Ys(g))
    {
      var i :| 0 <= i < |g.order| && g.order[i] == id;
      assert Xs(g)[i] == g.nodes[id].pos.x && Xs(g)[i] in Xs(g);
      assert Ys(g)[i] == g.nodes[id].pos.y && Ys(g)[i] in Ys(g);
    }
  }

  /** The offsets that put world point `c` at the centre of a `width` by `height` canvas. */
  function CentredOn(zoom: real, c: Point, width: real, height: real): (v: View)
    ensures ToScreen(v, c) == Point(width / 2.0, height / 2.0)
    ensures v.zoom == zoom
  {
    View(zoom, width / 2.0 - c.x * zoom, height / 2.0 - c.y * zoom)
  }

  // ---------------------------------------------------------------- highlight stacking

  /** The key of an edge's counter: its ends in ascending order, so both directions share it. */
  function PairKey(e: Edge): (k: Edge)
    ensures k.0 <= k.1
    ensures k == e || k == (e.1, e.0)
  {
    if e.0 <= e.1 then e else (e.1, e.0)
  }

  lemma PairKeyIgnoresDirection(u: NodeId, v: NodeId)
    ensures PairKey((u, v)) == PairKey((v, u))
  {
  }

  /** One highlighted edge as the drawing pass meets it, with its group's colour and zoomed width. */
  datatype Stroke = Stroke(edge: Edge, color: string, width: real)

  /** A drawn band: the edge, its perpendicular offset, its width and colour (all on screen). */
  datatype Band = Band(edge: Edge, offset: real, width: real, color: string)

  /** A drawn halo around a node: screen centre, radius and colour. */
  datatype Halo = Halo(node: NodeId, center: Point, radius: real, color: string)

  /** The strokes of one group, in its edge order. */
  function GroupStrokes(h: Highlight, zoom: real): (ss: seq<Stroke>)
    ensures |ss| == |h.edges|
  {
    seq(|h.edges|, j requires 0 <= j < |h.edges| => Stroke(h.edges[j], h.color, h.width * zoom))
  }

  /** The strokes of all groups, in drawing order. */
  function Strokes(hs: seq<Highlight>, zoom: real): seq<Stroke> {
    if hs == [] then [] else Strokes(hs[..|hs| - 1], zoom) + GroupStrokes(hs[|hs| - 1], zoom)
  }

  /** How many of the strokes `ss` are on the pair `k`. */
  function CountPair(ss: seq<Stroke>, k: Edge): nat {
    if ss == [] then 0
    else CountPair(ss[..|ss| - 1], k) + (if PairKey(ss[|ss| - 1].edge) == k then 1 else 0)
  }

  /** The offset of the `k`-th repeat (from 0) of a pair drawn `w` wide. */
  function StackOffset(k: nat, w: real): real {
    k as real * w - w / 2.0
  }

  predicate EndsPresent(g: Graph, e: Edge) {
    e.0 in g.nodes && e.1 in g.nodes
  }

  predicate StrokesPresent(g: Graph, ss: seq<Stroke>) {
    forall j :: 0 <= j < |ss| ==> EndsPresent(g, ss[j].edge)
  }

  /** An edge whose two ends are drawn at the same screen point; it gets no band. */
  predicate ZeroLength(g: Graph, v: View, e: Edge)
    requires EndsPresent(g, e)
  {
    ToScreen(v, g.nodes[e.0].pos) == ToScreen(v, g.nodes[e.1].pos)
  }

  /**
   * The bands a pass draws for `ss`: each stroke, unless its edge has zero length, offset by
   * the number of earlier strokes on the same pair (skipped ones included).
   */
  function Bands(g: Graph, v: View, ss: seq<Stroke>): seq<Band>
    requires StrokesPresent(g, ss)
  {
    if ss == [] then []
    else
      var init, s := ss[..|ss| - 1], ss[|ss| - 1];
      assert StrokesPresent(g, init);
      Bands(g, v, init) +
        (if ZeroLength(g, v, s.edge) then [] else [Band(s.edge, StackOffset(CountPair(init, PairKey(s.edge)), s.width), s.width, s.color)])
  }

  /**
   * The stacking rule: the stroke at position `j` that is drawn gets the offset of the
   * repeat number equal to the count of earlier strokes on its pair.
   */
  lemma {:induction false} BandsFollowCounter(g: Graph, v: View, ss: seq<Stroke>, j: nat)
    requires StrokesPresent(g, ss) && j < |ss| && !ZeroLength(g, v, ss[j].edge)
    ensures Band(ss[j].edge, StackOffset(CountPair(ss[..j], PairKey(ss[j].edge)), ss[j].width), ss[j].width, ss[j].color)
            in Bands(g, v, ss)
  {
    var init := ss[..|ss| - 1];
    assert StrokesPresent(g, init);
    if j < |ss| - 1 {
      BandsFollowCounter(g, v, init, j);
      assert init[..j] == ss[..j];
    }
  }

  /** Counting a longer prefix finds every stroke on the pair the shorter one did, and `ss[j]` too. */
  lemma {:induction false} CountGrows(ss: seq<Stroke>, i: nat, j: nat)
    requires i < j <= |ss|
    ensures CountPair(ss[..j], PairKey(ss[i].edge)) >= CountPair(ss[..i], PairKey(ss[i].edge)) + 1
  {
    var k := PairKey(ss[i].edge);
    if j == i + 1 {
      assert ss[..j][..i] == ss[..i];
    } else {
      CountGrows(ss, i, j - 1);
      assert ss[..j][..j - 1] == ss[..j - 1];
    }
  }

  /**
   * Repeats do not overlap: two strokes of the same width on the same pair, in either
   * direction, get different offsets, the later one further along.
   */
  lemma RepeatsAreSpreadOut(ss: seq<Stroke>, i: nat, j: nat)
    requires i < j < |ss| && PairKey(ss[i].edge) == PairKey(ss[j].edge)
    requires ss[i].width == ss[j].width > 0.0
    ensures StackOffset(CountPair(ss[..i], PairKey(ss[i].edge)), ss[i].width)
          < StackOffset(CountPair(ss[..j], PairKey(ss[j].edge)), ss[j].width)
  {
    CountGrows(ss, i, j);
    OffsetGrows(CountPair(ss[..i], PairKey(ss[i].edge)), CountPair(ss[..j], PairKey(ss[j].edge)), ss[i].width);
  }

  lemma OffsetGrows(a: nat, b: nat, w: real)
    requires a < b && w > 0.0
    ensures StackOffset(a, w) < StackOffset(b, w)
  {
    ProductPositive(b as real - a as real, w);
  }

  /** The halo radius of a node in a group of width `w`: the drawn node radius plus half the zoomed width. */
  function HaloRadius(radius: real, zoom: real, w: real): real {
    radius * zoom + (w * zoom) / 2.0
  }

  predicate GroupPresent(g: Graph, h: Highlight) {
    && (forall a :: 0 <= a < |h.nodes| ==> h.nodes[a] in g.nodes)
    && (forall b :: 0 <= b < |h.edges| ==> EndsPresent(g, h.edges[b]))
  }

  predicate AllPresent(g: Graph, hs: seq<Highlight>) {
    forall i :: 0 <= i < |hs| ==> GroupPresent(g, hs[i])
  }

  function GroupHalos(g: Graph, v: View, radius: real, h: Highlight): seq<Halo>
    requires GroupPresent(g, h)
  {
    seq(|h.nodes|, a requires 0 <= a < |h.nodes| =>
      Halo(h.nodes[a], ToScreen(v, g.nodes[h.nodes[a]].pos), HaloRadius(radius, v.zoom, h.width), h.color))
  }

  /** The halos of all groups, in drawing order. */
  function Halos(g: Graph, v: View, radius: real, hs: seq<Highlight>): seq<Halo>
    requires AllPresent(g, hs)
  {
    if hs == [] then []
    else Halos(g, v, radius, hs[..|hs| - 1]) + GroupHalos(g, v, radius, hs[|hs| - 1])
  }

  lemma {:induction false} StrokesPresentFromGroups(g: Graph, hs: seq<Highlight>, zoom: real)
    requires AllPresent(g, hs)
    ensures StrokesPresent(g, Strokes(hs, zoom))
  {
    if hs != [] {
      StrokesPresentFromGroups(g, hs[..|hs| - 1], zoom);
      var gs := GroupStrokes(hs[|hs| - 1], zoom);
      assert forall j :: 0 <= j < |gs| ==> gs[j].edge == hs[|hs| - 1].edges[j];
    }
  }

  /**
   * What a drawing pass has produced after the strokes `drawn`: their bands, and a counter
   * per pair holding the number of strokes on it (no entry meaning none).
   */
  ghost predicate Tally(g: Graph, v: View, drawn: seq<Stroke>, bands: seq<Band>, counts: map<Edge, nat>) {
    && StrokesPresent(g, drawn)
    && bands == Bands(g, v, drawn)
    && forall k :: CountPair(drawn, k) == if k in counts then counts[k] else 0
  }

  /** One more stroke: its band (if drawn) goes last, and only its pair's count grows. */
  lemma ExtendBands(g: Graph, v: View, prefix: seq<Stroke>, s: Stroke)
    requires StrokesPresent(g, prefix) && EndsPresent(g, s.edge)
    ensures StrokesPresent(g, prefix + [s])
    ensures Bands(g, v, prefix + [s]) == Bands(g, v, prefix) +
      (if ZeroLength(g, v, s.edge) then [] else [Band(s.edge, StackOffset(CountPair(prefix, PairKey(s.edge)), s.width), s.width, s.color)])
    ensures forall k :: CountPair(prefix + [s], k) == CountPair(prefix, k) + (if PairKey(s.edge) == k then 1 else 0)
  {
    assert (prefix + [s])[..|prefix|] == prefix;
  }

  /**
   * The highlight part of `redraw`: for each group, a halo per node, then a band per edge,
   * counting repeats per pair across the whole pass. A node or edge end missing from the
   * graph raises a KeyError and ends the pass (`ok` false).
   */
  method DrawHighlights(g: Graph, v: View, radius: real, hs: seq<Highlight>)
    returns (ok: bool, halos: seq<Halo>, bands: seq<Band>)
    ensures ok <==> AllPresent(g, hs)
    ensures ok ==> StrokesPresent(g, Strokes(hs, v.zoom))
    ensures ok ==> halos == Halos(g, v, radius, hs) && bands == Bands(g, v, Strokes(hs, v.zoom))
  {
    var counts: map<Edge, nat> := map[];
    halos, bands := [], [];
    var i := 0;
    while i < |hs|
      invariant 0 <= i <= |hs|
      invariant AllPresent(g, hs[..i])
      invariant halos == Halos(g, v, radius, hs[..i])
      invariant Tally(g, v, Strokes(hs[..i], v.zoom), bands, counts)
    {
      var h := hs[i];
      assert hs[..i + 1][..i] == hs[..i];
      var ok1, groupHalos := DrawHalos(g, v, radius, h);
      if !ok1 {
        assert !AllPresent(g, hs) by { assert hs[i] == h; }
        return false, halos, bands;
      }
      ghost var done := Strokes(hs[..i], v.zoom);
      var ok2;
      ok2, bands, counts := DrawBands(g, v, h, done, bands, counts);
      if !ok2 {
        assert !AllPresent(g, hs) by { assert hs[i] == h; }
        return false, halos, bands;
      }
      halos := halos + groupHalos;
      assert AllPresent(g, hs[..i + 1]);
      i := i + 1;
    }
    assert hs[..i] == hs;
    ok := true;
  }

  /** The node loop of one group: a halo per node, or a KeyError for a missing node. */
  method DrawHalos(g: Graph, v: View, radius: real, h: Highlight) returns (ok: bool, halos: seq<Halo>)
    ensures ok <==> forall a :: 0 <= a < |h.nodes| ==> h.nodes[a] in g.nodes
    ensures ok ==> GroupPresent(g, h) ==> halos == GroupHalos(g, v, radius, h)
  {
    var rad := HaloRadius(radius, v.zoom, h.width);
    halos := [];
    var a := 0;
    while a < |h.nodes|
      invariant 0 <= a <= |h.nodes|
      invariant forall b :: 0 <= b < a ==> h.nodes[b] in g.nodes
      invariant |halos| == a
      invariant forall b :: 0 <= b < a ==>
        halos[b] == Halo(h.nodes[b], ToScreen(v, g.nodes[h.nodes[b]].pos), rad, h.color)
    {
      var n := h.nodes[a];
      if n !in g.nodes {
        return false, halos;
      }
      halos := halos + [Halo(n, ToScreen(v, g.nodes[n].pos), rad, h.color)];
      a := a + 1;
    }
    ok := true;
  }

  /**
   * The edge loop of one group: each edge's counter is read and incremented, then the band
   * is drawn unless the edge has zero length. `done` are the strokes of the earlier groups.
   */
  method DrawBands(g: Graph, v: View, h: Highlight, ghost done: seq<Stroke>,
                   bands0: seq<Band>, counts0: map<Edge, nat>)
    returns (ok: bool, bands: seq<Band>, counts: map<Edge, nat>)
    requires Tally(g, v, done, bands0, counts0)
    ensures ok <==> forall b :: 0 <= b < |h.edges| ==> EndsPresent(g, h.edges[b])
    ensures ok ==> Tally(g, v, done + GroupStrokes(h, v.zoom), bands, counts)
  {
    var strokes := GroupStrokes(h, v.zoom);
    bands, counts := bands0, counts0;
    ghost var drawn := done;
    var b := 0;
    while b < |h.edges|
      invariant 0 <= b <= |h.edges|
      invariant drawn == done + strokes[..b]
      invariant forall c :: 0 <= c < b ==> EndsPresent(g, h.edges[c])
      invariant Tally(g, v, drawn, bands, counts)
    {
      var e := h.edges[b];
      if e.0 !in g.nodes || e.1 !in g.nodes {
        return false, bands, counts;
      }
      assert strokes[b].edge == e;
      bands, counts := DrawBand(g, v, strokes[b], drawn, bands, counts);
      assert strokes[..b + 1] == strokes[..b] + [strokes[b]];
      assert done + strokes[..b + 1] == drawn + [strokes[b]];
      drawn := drawn + [strokes[b]];
      b := b + 1;
    }
    assert strokes[..b] == strokes;
    ok := true;
  }

  /** One edge of the loop: read and bump the pair's counter, then draw the band unless it has zero length. */
  method DrawBand(g: Graph, v: View, s: Stroke, ghost drawn: seq<Stroke>,
                  bands0: seq<Band>, counts0: map<Edge, nat>)
    returns (bands: seq<Band>, counts: map<Edge, nat>)
    requires Tally(g, v, drawn, bands0, counts0) && EndsPresent(g, s.edge)
    ensures Tally(g, v, drawn + [s], bands, counts)
  {
    var key := PairKey(s.edge);
    var count := if key in counts0 then counts0[key] else 0;
    counts := counts0[key := count + 1];
    ExtendBands(g, v, drawn, s);
    if ZeroLength(g, v, s.edge) {
      bands := bands0;
    } else {
      bands := bands0 + [Band(s.edge, StackOffset(count, s.width), s.width, s.color)];
    }
  }

  // ---------------------------------------------------------------- the panel object

  class InteractiveComparisonPanel {
    var g: Graph
    // Set once by the constructor and never reassigned.
    const name: string
    const nodeRadius: real
    const agents: map<string, string>
    var zoom: real
    var offsetX: real
    var offsetY: real
    var drag: Gesture
    var initialized: bool
    var highlights: seq<Highlight>

    /** The zoom and the node radius stay positive, and a node being moved is in the graph. */
    ghost predicate Valid()
      reads this
    {
      zoom > 0.0 && nodeRadius > 0.0 && Graphs.Valid(g) && (drag.MovingNode? ==> drag.id in g.nodes)
    }

    function ViewNow(): View
      reads this
    {
      View(zoom, offsetX, offsetY)
    }

    constructor(graph: Graph, title: string, radius: real, agentsMap: map<string, string>)
      requires Graphs.Valid(graph) && radius > 0.0
      ensures Valid()
      ensures g == graph && name == title && nodeRadius == radius && agents == agentsMap
      ensures zoom == 1.0 && offsetX == 0.0 && offsetY == 0.0
      ensures drag == Idle && !initialized && highlights == []
    {
      name, nodeRadius, agents := title, radius, agentsMap;
      g := graph;
      zoom, offsetX, offsetY := 1.0, 0.0, 0.0;
      drag, initialized, highlights := Idle, false, [];
    }

    /** `set_highlights`. */
    method SetHighlights(hs: seq<Highlight>)
      requires Valid()
      modifies this
      ensures Valid()
      ensures highlights == hs
      ensures g == old(g) && ViewNow() == old(ViewNow()) && drag == old(drag) && initialized == old(initialized)
    {
      highlights := hs;
    }

    /** `on_resize`: the first resize centres the graph; later ones leave the view alone. */
    method OnResize(width: real, height: real)
      requires Valid()
      modifies this
      ensures Valid()
      ensures initialized
      ensures old(initialized) ==> ViewNow() == old(ViewNow())
      ensures !old(initialized) && g.order != [] ==> ViewNow() == CentredOn(zoom, BoxCentre(g), width, height)
      ensures !old(initialized) && g.order == [] ==> ViewNow() == old(ViewNow())
      ensures g == old(g) && zoom == old(zoom) && drag == old(drag) && highlights == old(highlights)
    {
      if !initialized {
        CenterView(width, height);
        initialized := true;
      }
    }

    /**
     * `center_view`: on a non-empty graph, the offsets that put the centre of the nodes'
     * bounding box at the middle of the canvas; an empty graph leaves the view as it was.
     */
    method CenterView(width: real, height: real)
      requires Valid()
      modifies this
      ensures Valid()
      ensures g.order != [] ==> ViewNow() == CentredOn(zoom, BoxCentre(g), width, height)
      ensures g.order != [] ==> ToScreen(ViewNow(), BoxCentre(g)) == Point(width / 2.0, height / 2.0)
      ensures g.order == [] ==> ViewNow() == old(ViewNow())
      ensures g == old(g) && zoom == old(zoom) && drag == old(drag)
      ensures initialized == old(initialized) && highlights == old(highlights)
    {
      if |g.order| == 0 {
        return;
      }
      var centred := CentredOn(zoom, BoxCentre(g), width, height);
      offsetX, offsetY := centred.offsetX, centred.offsetY;
    }

    /** `on_zoom`: one wheel tick multiplies the zoom by 1.1 or 0.9. */
    method OnZoom(direction: int)
      requires Valid()
      modifies this
      ensures Valid()
      ensures zoom == old(zoom) * ZoomFactor(direction)
      ensures g == old(g) && offsetX == old(offsetX) && offsetY == old(offsetY) && drag == old(drag)
      ensures initialized == old(initialized) && highlights == old(highlights)
    {
      zoom := zoom * ZoomFactor(direction);
    }

    /**
     * `on_mouse_down`: grab the first node under the pointer and report its label to the
     * inspector; on the background, start a pan from the pointer.
     */
    method OnMouseDown(p: Point) returns (reported: Option<string>)
      requires Valid()
      modifies this
      ensures Valid()
      ensures var hit := FirstPanelHit(g, ViewNow(), nodeRadius, g.order, p);
        && (hit.Some? ==> drag == MovingNode(hit.value) && reported == Some(g.nodes[hit.value].caption))
        && (hit.None? ==> drag == Panning(p) && reported == None)
      ensures g == old(g) && ViewNow() == old(ViewNow())
      ensures initialized == old(initialized) && highlights == old(highlights)
    {
      var clicked := FindPanelNode(g, ViewNow(), nodeRadius, p);
      if clicked.Some? {
        drag := MovingNode(clicked.value);
        reported := Some(g.nodes[clicked.value].caption);
      } else {
        drag := Panning(p);
        reported := None;
      }
    }

    /**
     * `on_mouse_drag`, with no threshold: a grabbed node moves to the world point under the
     * pointer; a pan moves the offsets by the pointer's motion and the anchor follows.
     */
    method OnMouseDrag(p: Point)
      requires Valid()
      modifies this
      ensures Valid()
      ensures old(drag).MovingNode? ==>
        g == SetPos(old(g), old(drag).id, ToWorld(old(ViewNow()), p)) && ViewNow() == old(ViewNow()) && drag == old(drag)
      ensures old(drag).Panning? ==>
        ViewNow() == PanBy(old(ViewNow()), old(drag).last, p) && drag == Panning(p) && g == old(g)
      ensures old(drag).Idle? ==> g == old(g) && ViewNow() == old(ViewNow()) && drag == old(drag)
      ensures initialized == old(initialized) && highlights == old(highlights)
    {
      match drag {
        case MovingNode(id) =>
          g := SetPos(g, id, ToWorld(ViewNow(), p));
        case Panning(q) =>
          offsetX := offsetX + (p.x - q.x);
          offsetY := offsetY + (p.y - q.y);
          drag := Panning(p);
        case Idle =>
      }
    }

    /** `on_mouse_up`. */
    method OnMouseUp()
      requires Valid()
      modifies this
      ensures Valid()
      ensures drag == Idle
      ensures g == old(g) && ViewNow() == old(ViewNow())
      ensures initialized == old(initialized) && highlights == old(highlights)
    {
      drag := Idle;
    }

    /** The highlight layer of `redraw` for the panel's current graph, view and groups. */
    method RedrawHighlights() returns (ok: bool, halos: seq<Halo>, bands: seq<Band>)
      requires Valid()
      ensures ok <==> AllPresent(g, highlights)
      ensures ok ==> StrokesPresent(g, Strokes(highlights, zoom))
      ensures ok ==> halos == Halos(g, ViewNow(), nodeRadius, highlights)
      ensures ok ==> bands == Bands(g, ViewNow(), Strokes(highlights, zoom))
    {
      ok, halos, bands := DrawHighlights(g, ViewNow(), nodeRadius, highlights);
    }
  }
}
