/**
 * The metric dispatch shared by the comparison table and the inspector: a metric name picks a
 * node or edge count, a density, an average degree or an average clustering coefficient. The
 * clustering coefficient comes from the graph library and is a parameter here; `None` stands
 * for that call raising, which the dispatch turns into "Err".
 */
module Metrics {
  import opened Wrappers
  import opened Graphs

  /** A count is returned as a number; every other metric as text, or as a value to be printed with `places` decimals. */
  datatype MetricValue = Count(n: nat) | Figure(value: real, places: nat) | Text(s: string)

  /** The graph library's density of a directed graph: edges over ordered pairs of distinct nodes. */
  function Density(g: Graph): (d: real)
    ensures d >= 0.0
    ensures |Edges(g)| == 0 ==> d == 0.0
  {
    var n, m := |g.order|, |Edges(g)|;
    if m == 0 || n <= 1 then 0.0 else m as real / (n * (n - 1)) as real
  }

  /** `calculate_metric`. */
  function CalculateMetric(g: Graph, name: string, clustering: Option<real>): (r: MetricValue)
    ensures r.Count? <==> name == "Nodes" || name == "Edges"
    ensures name == "Nodes" ==> r == Count(|g.order|)
    ensures name == "Edges" ==> r == Count(|Edges(g)|)
    ensures |g.order| == 0 ==> (r == Text("0") <==> name != "Nodes" && name != "Edges")
    ensures |g.order| != 0 ==> (r == Text("") <==> name !in {"Nodes", "Edges", "Density", "Avg Degree", "Avg Clustering"})
    ensures r == Text("Err") <==> name == "Avg Clustering" && |g.order| != 0 && clustering.None?
  {
    var n := |g.order|;
    if name == "Nodes" then Count(n)
    else if name == "Edges" then Count(|Edges(g)|)
    else if n == 0 then Text("0")
    else if name == "Density" then Figure(Density(g), 3)
    else if name == "Avg Degree" then Figure(SumDegrees(g, g.order) as real / n as real, 2)
    else if name == "Avg Clustering" then
      (match clustering
       case Some(c) => Figure(c, 3)
       case None => Text("Err"))
    else Text("")
  }

  /** The average degree (in plus out) is twice the edge count over the node count. */
  lemma AvgDegreeIsTwiceEdgesPerNode(g: Graph, clustering: Option<real>)
    requires Valid(g) && |g.order| != 0
    ensures CalculateMetric(g, "Avg Degree", clustering) == Figure((2 * |Edges(g)|) as real / |g.order| as real, 2)
  {
    DegreeSumIsTwiceEdges(g);
  }
}
