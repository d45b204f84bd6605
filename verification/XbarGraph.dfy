/** Crossbar graphs (xbar.py, item.py): nodes, edges, and what inserting a node does to them. */
module XbarGraph {

  datatype NodeType = HOST | DEVICE | ASYNC_FIFO | SOCKET_1N | SOCKET_M1

  /** The clocks of a node: one, or two of a FIFO, the one of its upstream side first. */
  type Clocks = c: seq<string> | c != [] witness [""]

  /**
   * The Node and Edge objects of a crossbar, each known by its place in xbar.nodes or xbar.edges:
   * nodes have a type, clocks and lists of edges on either side; edges have two end nodes.
   */
  datatype Graph = Graph(kind: seq<NodeType>, clock: seq<Clocks>,
                         us: seq<seq<nat>>, ds: seq<seq<nat>>,
                         up: seq<nat>, dn: seq<nat>)

  predicate Sized(g: Graph) {
    |g.clock| == |g.us| == |g.ds| == |g.kind| && |g.dn| == |g.up|
  }

  predicate Distinct(s: seq<nat>) { forall i, j :: 0 <= i < j < |s| ==> s[i] != s[j] }

  /** The edge lists of the nodes and the end nodes of the edges agree. */
  ghost predicate Consistent(g: Graph) {
    && Sized(g)
    && (forall n :: 0 <= n < |g.ds| ==> Lists(g.ds[n], g.up, n))
    && (forall n :: 0 <= n < |g.us| ==> Lists(g.us[n], g.dn, n))
    && (forall e :: 0 <= e < |g.up| ==> g.up[e] < |g.kind| && g.dn[e] < |g.kind|)
  }

  /** The list s holds exactly the edges whose end is n. */
  ghost predicate Lists(s: seq<nat>, end: seq<nat>, n: nat) {
    Distinct(s) && forall e: nat :: e in s <==> e < |end| && end[e] == n
  }

  // ---------------------------------------------------------------- inserting a node

  /** The list ends with every edge of s moved to n. */
  ghost function Moved(end: seq<nat>, s: seq<nat>, n: nat): (r: seq<nat>)
    ensures |r| == |end|
  {
    seq(|end|, e requires 0 <= e < |end| => if e in s then n else end[e])
  }

  /** A new node below b takes over its downstream edges. */
  ghost function InsertDown(g: Graph, b: nat, kind: NodeType, clock: Clocks): Graph
    requires Sized(g) && b < |g.kind|
  {
    var n, x := |g.kind|, |g.up|;
    Graph(g.kind + [kind], g.clock + [clock],
          g.us + [[x]], g.ds[b := [x]] + [g.ds[b]],
          Moved(g.up, g.ds[b], n) + [b], g.dn + [n])
  }

  /** A new node above t takes over its upstream edges. */
  ghost function InsertUp(g: Graph, t: nat, kind: NodeType, clock: Clocks): Graph
    requires Sized(g) && t < |g.kind|
  {
    var n, x := |g.kind|, |g.up|;
    Graph(g.kind + [kind], g.clock + [clock],
          g.us[t := [x]] + [g.us[t]], g.ds + [[x]],
          g.up + [n], Moved(g.dn, g.us[t], n) + [t])
  }

  /** One side of an insertion: the lists of b and of the new node after it took over b's edges. */
  lemma TakenOver(lists: seq<seq<nat>>, end: seq<nat>, b: nat, n: nat, k: nat)
    requires n == |lists| && b < n && k < n && Lists(lists[b], end, b) && Lists(lists[k], end, k)
    requires forall e :: 0 <= e < |end| ==> end[e] < n
    ensures var end' := Moved(end, lists[b], n) + [b];
      Lists(lists[b], end', n) && Lists(if k == b then [|end|] else lists[k], end', k)
  {
  }

  /** The other side: one more edge that ends at the new node. */
  lemma OneMore(lists: seq<seq<nat>>, end: seq<nat>, n: nat, k: nat)
    requires n == |lists| && k < n && Lists(lists[k], end, k)
    requires forall e :: 0 <= e < |end| ==> end[e] < n
    ensures Lists([|end|], end + [n], n) && Lists(lists[k], end + [n], k)
  {
  }

  lemma DownConsistent(g: Graph, b: nat, kind: NodeType, clock: Clocks)
    requires Consistent(g) && b < |g.kind|
    ensures Consistent(InsertDown(g, b, kind, clock))
  {
    var h := InsertDown(g, b, kind, clock);
    var n := |g.kind|;
    forall k | 0 <= k < n + 1 ensures Lists(h.ds[k], h.up, k) && Lists(h.us[k], h.dn, k) {
      if k < n {
        TakenOver(g.ds, g.up, b, n, k);
        OneMore(g.us, g.dn, n, k);
      } else {
        TakenOver(g.ds, g.up, b, n, b);
        OneMore(g.us, g.dn, n, b);
      }
    }
  }

  /** The graph seen from below. */
  function Flip(g: Graph): Graph { Graph(g.kind, g.clock, g.ds, g.us, g.dn, g.up) }

  lemma UpIsDownFlipped(g: Graph, t: nat, kind: NodeType, clock: Clocks)
    requires Sized(g) && t < |g.kind|
    ensures InsertUp(g, t, kind, clock) == Flip(InsertDown(Flip(g), t, kind, clock))
  {}

  lemma UpConsistent(g: Graph, t: nat, kind: NodeType, clock: Clocks)
    requires Consistent(g) && t < |g.kind|
    ensures Consistent(InsertUp(g, t, kind, clock))
  {
    UpIsDownFlipped(g, t, kind, clock);
    DownConsistent(Flip(g), t, kind, clock);
  }
}
