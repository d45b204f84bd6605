/** What elaboration keeps: every host and device of the original graph heads or ends a chain of inserted nodes. */
module XbarPlan {
  import opened XbarGraph

  /** The chains, by original node, each from upstream to downstream, and whose chain a node is in. */
  datatype Plan = Plan(chain: seq<seq<nat>>, owner: seq<nat>)

  function First(c: seq<nat>): nat { if c == [] then 0 else c[0] }
  function Last(c: seq<nat>): nat { if c == [] then 0 else c[|c| - 1] }

  /** The one edge downstream of a is the one edge upstream of b. */
  predicate Link(g: Graph, a: nat, b: nat) {
    a < |g.ds| && b < |g.us| && |g.ds[a]| == 1 && g.us[b] == g.ds[a]
  }

  predicate Linked(g: Graph, c: seq<nat>) {
    |c| < 2 || (Link(g, c[0], c[1]) && Linked(g, c[1..]))
  }

  /** A graph as the user describes it: edges lead from hosts to devices, at most one for each pair. */
  ghost predicate Original(o: Graph) {
    && Consistent(o)
    && (forall n :: 0 <= n < |o.kind| ==> o.kind[n] in {HOST, DEVICE})
    && (forall e :: 0 <= e < |o.up| ==> o.kind[o.up[e]] == HOST && o.kind[o.dn[e]] == DEVICE)
    && (forall e, f :: 0 <= e < f < |o.up| ==> o.up[e] != o.up[f] || o.dn[e] != o.dn[f])
  }

  /** A host's chain starts at it and ends with its ports; a device's chain starts with its inputs and ends at it. */
  ghost predicate Ends(o: Graph, g: Graph, c: seq<nat>, r: nat)
    requires c != [] && Sized(o) && Sized(g) && r < |o.kind|
  {
    c[0] < |g.kind| && Last(c) < |g.kind| &&
    if o.kind[r] == HOST then c[0] == r && g.ds[Last(c)] == o.ds[r] && g.us[r] == []
    else Last(c) == r && g.us[c[0]] == o.us[r] && g.ds[r] == []
  }

  ghost predicate ChainOk(o: Graph, g: Graph, p: Plan, r: nat)
    requires Sized(o) && Sized(g) && r < |o.kind| == |p.chain|
  {
    var c := p.chain[r];
    (c != [] && Distinct(c) && Linked(g, c) && Ends(o, g, c, r)
    && (forall n :: n in c ==> n < |p.owner| && p.owner[n] == r)) == true  // kept whole in proofs
  }

  ghost predicate Owned(p: Plan) {
    forall n :: 0 <= n < |p.owner| ==> p.owner[n] < |p.chain| && n in p.chain[p.owner[n]]
  }

  /** g is o with chains of new nodes grown at its nodes. */
  ghost predicate Grown(o: Graph, g: Graph, p: Plan) {
    && Original(o) && Consistent(g)
    && o.kind <= g.kind && o.clock <= g.clock
    && |p.chain| == |o.kind| && |p.owner| == |g.kind|
    && Owned(p)
    && forall r :: 0 <= r < |o.kind| ==> ChainOk(o, g, p, r)
  }

  // ---------------------------------------------------------------- growing a chain

  function GrowDown(p: Plan, r: nat): Plan
    requires r < |p.chain|
  {
    Plan(p.chain[r := p.chain[r] + [|p.owner|]], p.owner + [r])
  }

  function GrowUp(p: Plan, r: nat): Plan
    requires r < |p.chain|
  {
    Plan(p.chain[r := [|p.owner|] + p.chain[r]], p.owner + [r])
  }

  lemma {:induction false} LinkedDown(g: Graph, b: nat, kind: NodeType, clock: Clocks, c: seq<nat>)
    requires Sized(g) && b < |g.kind| && Linked(g, c) && (forall i :: 0 <= i < |c| - 1 ==> c[i] != b)
    ensures Linked(InsertDown(g, b, kind, clock), c)
  {
    if |c| >= 2 { LinkedDown(g, b, kind, clock, c[1..]); }
  }

  lemma {:induction false} LinkedUp(g: Graph, t: nat, kind: NodeType, clock: Clocks, c: seq<nat>)
    requires Sized(g) && t < |g.kind| && Linked(g, c) && (forall i :: 1 <= i < |c| ==> c[i] != t)
    ensures Linked(InsertUp(g, t, kind, clock), c)
  {
    if |c| >= 2 { LinkedUp(g, t, kind, clock, c[1..]); }
  }

  lemma {:induction false} LinkedEnd(g: Graph, c: seq<nat>, n: nat)
    requires c != [] && Linked(g, c) && Link(g, Last(c), n)
    ensures Linked(g, c + [n])
  {
    if |c| >= 2 {
      LinkedEnd(g, c[1..], n);
      assert (c + [n])[1..] == c[1..] + [n];
    } else {
      assert (c + [n])[1..] == [n];
    }
  }

  lemma LinkedFront(g: Graph, n: nat, c: seq<nat>)
    requires c != [] && Linked(g, c) && Link(g, n, c[0])
    ensures Linked(g, [n] + c)
  {
    assert ([n] + c)[1..] == c;
  }

  lemma DistinctAdd(c: seq<nat>, n: nat)
    requires Distinct(c) && n !in c
    ensures Distinct(c + [n]) && Distinct([n] + c)
  {
    assert forall i :: 0 <= i < |c| ==> c[i] in c;
  }

  /** Inserting below the end of a host's chain makes that chain longer. */
  lemma DownOwnChain(o: Graph, g: Graph, p: Plan, r: nat, kind: NodeType, clock: Clocks)
    requires Grown(o, g, p) && r < |o.kind| && o.kind[r] == HOST
    ensures var b := Last(p.chain[r]);
      b < |g.kind| && ChainOk(o, InsertDown(g, b, kind, clock), GrowDown(p, r), r)
  {
    var c := p.chain[r];
    assert ChainOk(o, g, p, r);
    var b := Last(c);
    LinkedDown(g, b, kind, clock, c);
    LinkedEnd(InsertDown(g, b, kind, clock), c, |g.kind|);
    DistinctAdd(c, |g.kind|);
  }

  /** The other chains stay. */
  lemma DownOtherChain(o: Graph, g: Graph, p: Plan, r: nat, kind: NodeType, clock: Clocks, k: nat)
    requires Grown(o, g, p) && r < |o.kind| && o.kind[r] == HOST && k < |o.kind| && k != r
    requires var b := Last(p.chain[r]); b < |g.kind| && p.owner[b] == r
    ensures ChainOk(o, InsertDown(g, Last(p.chain[r]), kind, clock), GrowDown(p, r), k)
  {
    assert ChainOk(o, g, p, k);
    LinkedDown(g, Last(p.chain[r]), kind, clock, p.chain[k]);
  }

  lemma DownOwned(p: Plan, r: nat)
    requires Owned(p) && r < |p.chain|
    ensures Owned(GrowDown(p, r)) && Owned(GrowUp(p, r))
  {
  }

  lemma DownGrown(o: Graph, g: Graph, p: Plan, r: nat, kind: NodeType, clock: Clocks)
    requires Grown(o, g, p) && r < |o.kind| && o.kind[r] == HOST
    ensures var b := Last(p.chain[r]); b < |g.kind| && Grown(o, InsertDown(g, b, kind, clock), GrowDown(p, r))
  {
    DownOwnChain(o, g, p, r, kind, clock);
    var b := Last(p.chain[r]);
    assert ChainOk(o, g, p, r);
    DownConsistent(g, b, kind, clock);
    forall k | 0 <= k < |o.kind| && k != r ensures ChainOk(o, InsertDown(g, b, kind, clock), GrowDown(p, r), k) {
      DownOtherChain(o, g, p, r, kind, clock, k);
    }
    DownOwned(p, r);
  }

  /** Inserting above the start of a device's chain makes that chain longer. */
  lemma UpOwnChain(o: Graph, g: Graph, p: Plan, r: nat, kind: NodeType, clock: Clocks)
    requires Grown(o, g, p) && r < |o.kind| && o.kind[r] == DEVICE
    ensures var t := First(p.chain[r]);
      t < |g.kind| && ChainOk(o, InsertUp(g, t, kind, clock), GrowUp(p, r), r)
  {
    var c := p.chain[r];
    assert ChainOk(o, g, p, r);
    var t := First(c);
    LinkedUp(g, t, kind, clock, c);
    LinkedFront(InsertUp(g, t, kind, clock), |g.kind|, c);
    DistinctAdd(c, |g.kind|);
  }

  lemma UpOtherChain(o: Graph, g: Graph, p: Plan, r: nat, kind: NodeType, clock: Clocks, k: nat)
    requires Grown(o, g, p) && r < |o.kind| && o.kind[r] == DEVICE && k < |o.kind| && k != r
    requires var t := First(p.chain[r]); t < |g.kind| && p.owner[t] == r
    ensures ChainOk(o, InsertUp(g, First(p.chain[r]), kind, clock), GrowUp(p, r), k)
  {
    assert ChainOk(o, g, p, k);
    LinkedUp(g, First(p.chain[r]), kind, clock, p.chain[k]);
  }

  lemma UpGrown(o: Graph, g: Graph, p: Plan, r: nat, kind: NodeType, clock: Clocks)
    requires Grown(o, g, p) && r < |o.kind| && o.kind[r] == DEVICE
    ensures var t := First(p.chain[r]); t < |g.kind| && Grown(o, InsertUp(g, t, kind, clock), GrowUp(p, r))
  {
    UpOwnChain(o, g, p, r, kind, clock);
    var t := First(p.chain[r]);
    assert ChainOk(o, g, p, r);
    UpConsistent(g, t, kind, clock);
    forall k | 0 <= k < |o.kind| && k != r ensures ChainOk(o, InsertUp(g, t, kind, clock), GrowUp(p, r), k) {
      UpOtherChain(o, g, p, r, kind, clock, k);
    }
    DownOwned(p, r);
  }
}
