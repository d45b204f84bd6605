/** Building and elaborating a crossbar (xbar.py:133-209, elaborate.py:12-111). */
module Crossbar {
  import opened XbarGraph
  import opened XbarPlan
  import opened XbarReach
  import opened XbarShape

  // ---------------------------------------------------------------- chains in progress

  /** The shape that processing gives to the chain of r. */
  function FullShape(o: Graph, main: string, r: nat): seq<NodeType>
    requires Sized(o) && r < |o.kind|
  {
    if o.kind[r] == HOST then HostShape(o, main, r) else DeviceShape(o, main, r)
  }

  /** n is the node of the chain of r where processing goes on. */
  ghost predicate Ready(o: Graph, g: Graph, p: Plan, main: string, r: nat, n: nat)
    requires Sized(o) && r < |o.kind| == |p.chain|
  {
    var k := Kinds(g.kind, p.chain[r]);
    if o.kind[r] == HOST then
      n == Last(p.chain[r]) && (k == [HOST] || (k == [HOST, ASYNC_FIFO] && o.clock[r][0] != main))
    else
      n == First(p.chain[r]) &&
      (k == [DEVICE] || (k == [ASYNC_FIFO, DEVICE] && o.clock[r][0] != main) || k == DeviceShape(o, main, r))
  }

  /** Bounds the recursion. */
  function Rank(k: NodeType, side: NodeType): nat {
    match k
    case HOST => 6
    case DEVICE => 3
    case SOCKET_M1 => 1
    case SOCKET_1N => 0
    case ASYNC_FIFO => if side == HOST then 5 else 2
  }

  lemma KindsKeep(k: seq<NodeType>, k': seq<NodeType>, c: seq<nat>)
    requires k <= k' && forall n :: n in c ==> n < |k|
    ensures Kinds(k', c) == Kinds(k, c)
  {
    forall i | 0 <= i < |c| ensures Kinds(k', c)[i] == Kinds(k, c)[i] { assert c[i] in c; }
  }

  lemma KindsJoin(k: seq<NodeType>, c: seq<nat>, d: seq<nat>)
    ensures Kinds(k, c + d) == Kinds(k, c) + Kinds(k, d)
  {}

  /** The types along the chains after a node of type kind was added to one of them. */
  lemma KindsGrow(o: Graph, g: Graph, p: Plan, r: nat, kind: NodeType, k: nat)
    requires Grown(o, g, p) && r < |o.kind| && k < |o.kind|
    ensures Kinds(g.kind + [kind], GrowDown(p, r).chain[k]) == Kinds(g.kind, p.chain[k]) + (if k == r then [kind] else [])
    ensures Kinds(g.kind + [kind], GrowUp(p, r).chain[k]) == (if k == r then [kind] else []) + Kinds(g.kind, p.chain[k])
  {
    Unfold(o, g, p, k);
    KindsKeep(g.kind, g.kind + [kind], p.chain[k]);
    var n := [|p.owner|];
    assert Kinds(g.kind + [kind], n) == [kind];
    KindsJoin(g.kind + [kind], p.chain[k], n);
    KindsJoin(g.kind + [kind], n, p.chain[k]);
  }

  /** Whether some host of the list, with more than one port, leads to d. */
  ghost predicate ServedAmong(o: Graph, d: nat, hosts: seq<nat>) {
    exists e: nat :: ServedBy(o, d, e) && o.up[e] in hosts
  }

  /** One more edge, from u to d. */
  ghost function Connected(g: Graph, u: nat, d: nat): Graph
    requires Sized(g) && u < |g.kind| && d < |g.kind|
  {
    g.(us := g.us[d := g.us[d] + [|g.up|]], ds := g.ds[u := g.ds[u] + [|g.up|]], up := g.up + [u], dn := g.dn + [d])
  }

  lemma LongerList(s: seq<nat>, end: seq<nat>, n: nat, u: nat)
    requires Lists(s, end, n)
    ensures Lists(if n == u then s + [|end|] else s, end + [u], n)
  {
    assert forall i :: 0 <= i < |s| ==> s[i] in s;
    forall e: nat ensures e in s + [|end|] <==> e in s || e == |end| {}
  }

  lemma ConnectedOriginal(g: Graph, u: nat, d: nat)
    requires Original(g) && u < |g.kind| && d < |g.kind| && g.kind[u] == HOST && g.kind[d] == DEVICE
    requires forall e :: 0 <= e < |g.up| ==> g.up[e] != u || g.dn[e] != d
    ensures Original(Connected(g, u, d))
  {
    var h := Connected(g, u, d);
    forall n | 0 <= n < |h.kind| ensures Lists(h.ds[n], h.up, n) && Lists(h.us[n], h.dn, n) {
      LongerList(g.ds[n], g.up, n, u);
      LongerList(g.us[n], g.dn, n, d);
    }
  }

  /** Where a node of type k goes: above devices, below hosts; sockets on their own side; hosts and devices nowhere. */
  ghost function Inserted(g: Graph, k: NodeType, c: Clocks, node: nat): Graph
    requires Sized(g) && node < |g.kind|
  {
    if k == SOCKET_1N || (k == ASYNC_FIFO && g.kind[node] == HOST) then InsertDown(g, node, k, c)
    else if k == SOCKET_M1 || (k == ASYNC_FIFO && g.kind[node] == DEVICE) then InsertUp(g, node, k, c)
    else g
  }

  // ---------------------------------------------------------------- one step of processing

  ghost predicate Working(o: Graph, g: Graph, p: Plan, main: string) {
    (Grown(o, g, p) && Clocked(o, g, p, main)) == true  // kept whole in proofs
  }

  /** Not processed, or processed completely. */
  ghost predicate Settled(o: Graph, g: Graph, p: Plan, main: string, r: nat)
    requires Sized(o) && r < |o.kind| == |p.chain|
  {
    Kinds(g.kind, p.chain[r]) in {[o.kind[r]], FullShape(o, main, r)}
  }

  ghost predicate Processed(o: Graph, g: Graph, p: Plan, main: string, r: nat)
    requires Sized(o) && r < |o.kind| == |p.chain|
  {
    Kinds(g.kind, p.chain[r]) == FullShape(o, main, r)
  }

  ghost predicate PortOf(o: Graph, h: nat, d: nat) {
    h < |o.ds| && exists e :: e in o.ds[h] && e < |o.dn| && o.dn[e] == d
  }

  /** The part of the graph at a node where processing goes on. */
  lemma ReadyNode(o: Graph, g: Graph, p: Plan, main: string, r: nat, n: nat)
    requires Working(o, g, p, main) && r < |o.kind| && Ready(o, g, p, main, r, n)
    ensures n < |g.kind| && p.owner[n] == r
    ensures if o.kind[r] == HOST then g.ds[n] == o.ds[r] && |g.us[n]| <= 1 else g.us[n] == o.us[r] && |g.ds[n]| <= 1
    ensures g.kind[n] in {SOCKET_M1, SOCKET_1N} ==> g.clock[n] == [main]
    ensures g.kind[n] in {HOST, DEVICE} ==> n == r && g.clock[n] == o.clock[r]
    ensures var k := Kinds(g.kind, p.chain[r]);
      g.kind[n] == if o.kind[r] == HOST then k[|k| - 1] else k[0]
  {
    var c := p.chain[r];
    Unfold(o, g, p, r);
    assert c[0] in c && c[|c| - 1] in c;
    if |c| > 1 {
      InsideChain(o, g, p, r, |c| - 2);
      LinkedAt(g, c, |c| - 2);
      InsideChain(o, g, p, r, 0);
    }
  }

  /** Growing the chain of r leaves the shapes of the others. */
  lemma OthersKeep(o: Graph, g: Graph, p: Plan, g': Graph, p': Plan, main: string, k: nat)
    requires Grown(o, g, p) && k < |o.kind| && |p'.chain| == |o.kind| && p'.chain[k] == p.chain[k] && g.kind <= g'.kind
    ensures Kinds(g'.kind, p'.chain[k]) == Kinds(g.kind, p.chain[k])
  {
    Unfold(o, g, p, k);
    KindsKeep(g.kind, g'.kind, p.chain[k]);
  }

  /** All settled devices stay so while the chain of r grows. */
  lemma StaySettled(o: Graph, g: Graph, p: Plan, g': Graph, p': Plan, main: string, r: nat)
    requires Grown(o, g, p) && r < |o.kind| && p' in {GrowDown(p, r), GrowUp(p, r)} && g.kind <= g'.kind
    requires forall k :: 0 <= k < |o.kind| && k != r ==> Settled(o, g, p, main, k)
    ensures forall k :: 0 <= k < |o.kind| && k != r ==> Settled(o, g', p', main, k)
  {
    forall k | 0 <= k < |o.kind| && k != r ensures Settled(o, g', p', main, k) {
      assert Settled(o, g, p, main, k);
      OthersKeep(o, g, p, g', p', main, k);
    }
  }

  /** The node that insert_node adds for a node where processing goes on. */
  lemma Grows(o: Graph, g: Graph, p: Plan, main: string, r: nat, n: nat, k: NodeType, c: Clocks)
    requires Working(o, g, p, main) && r < |o.kind| && Ready(o, g, p, main, r, n) && n < |g.kind|
    requires forall i :: 0 <= i < |o.kind| && i != r ==> Settled(o, g, p, main, i)
    requires c == NewClocks(k, o.kind[r], o.clock[r], main)
    requires if k == ASYNC_FIFO then n == r else k == if o.kind[r] == HOST then SOCKET_1N else SOCKET_M1
    ensures var g', p' := Inserted(g, k, c, n), if o.kind[r] == HOST then GrowDown(p, r) else GrowUp(p, r);
      Working(o, g', p', main) && g.kind <= g'.kind && |g'.kind| == |g.kind| + 1 && g'.kind[|g.kind|] == k
      && forall i :: 0 <= i < |o.kind| && i != r ==> Settled(o, g', p', main, i)
  {
    ReadyNode(o, g, p, main, r, n);
    if o.kind[r] == HOST {
      DownGrown(o, g, p, r, k, c);
      StaySettled(o, g, p, InsertDown(g, n, k, c), GrowDown(p, r), main, r);
    } else {
      UpGrown(o, g, p, r, k, c);
      StaySettled(o, g, p, InsertUp(g, n, k, c), GrowUp(p, r), main, r);
    }
  }

  /** After a FIFO, processing goes on at it. */
  lemma FifoReady(o: Graph, g: Graph, p: Plan, main: string, r: nat, c: Clocks)
    requires Working(o, g, p, main) && r < |o.kind| && r < |g.kind| && Ready(o, g, p, main, r, r) && o.clock[r][0] != main
    ensures var g', p' := Inserted(g, ASYNC_FIFO, c, r), if o.kind[r] == HOST then GrowDown(p, r) else GrowUp(p, r);
      Ready(o, g', p', main, r, |g.kind|)
  {
    ReadyNode(o, g, p, main, r, r);
    KindsGrow(o, g, p, r, ASYNC_FIFO, r);
    Alone(o, g, p, main, r);
  }

  /** A host or device with a clock of its own where processing goes on is alone in its chain. */
  lemma Alone(o: Graph, g: Graph, p: Plan, main: string, r: nat)
    requires Working(o, g, p, main) && r < |o.kind| && Ready(o, g, p, main, r, r) && o.clock[r][0] != main
    ensures Kinds(g.kind, p.chain[r]) == [o.kind[r]]
  {
    ReadyNode(o, g, p, main, r, r);
  }

  /** After a socket for several inputs a device's chain is complete. */
  lemma InputSocket(o: Graph, g: Graph, p: Plan, main: string, r: nat, n: nat)
    requires Working(o, g, p, main) && r < |o.kind| && Ready(o, g, p, main, r, n) && n < |g.kind|
    requires o.kind[r] == DEVICE && g.kind[n] != SOCKET_M1 && |o.us[r]| > 1 && (n == r ==> o.clock[r][0] == main)
    ensures var g', p' := Inserted(g, SOCKET_M1, [main], n), GrowUp(p, r);
      Processed(o, g', p', main, r) && Ready(o, g', p', main, r, |g.kind|)
  {
    ReadyNode(o, g, p, main, r, n);
    KindsGrow(o, g, p, r, SOCKET_M1, r);
  }

  /** After a socket for several ports a host's chain is complete. */
  lemma PortSocket(o: Graph, g: Graph, p: Plan, main: string, r: nat, n: nat)
    requires Working(o, g, p, main) && r < |o.kind| && Ready(o, g, p, main, r, n) && n < |g.kind|
    requires o.kind[r] == HOST && |o.ds[r]| > 1 && (n == r ==> o.clock[r][0] == main)
    ensures var g', p' := Inserted(g, SOCKET_1N, [main], n), GrowDown(p, r);
      Processed(o, g', p', main, r)
  {
    ReadyNode(o, g, p, main, r, n);
    KindsGrow(o, g, p, r, SOCKET_1N, r);
  }

  /** Where nothing is inserted the chain is complete. */
  lemma NothingToInsert(o: Graph, g: Graph, p: Plan, main: string, r: nat, n: nat)
    requires Working(o, g, p, main) && r < |o.kind| && Ready(o, g, p, main, r, n) && n < |g.kind|
    requires g.kind[n] == ASYNC_FIFO || g.clock[n][0] == main
    requires (g.kind[n] == SOCKET_M1 || |g.us[n]| <= 1) && |g.ds[n]| <= 1
    ensures Processed(o, g, p, main, r)
  {
    ReadyNode(o, g, p, main, r, n);
  }

  /** A settled device can be processed from the top of its chain. */
  lemma SettledReady(o: Graph, g: Graph, p: Plan, main: string, h: nat, e: nat)
    requires Working(o, g, p, main) && h < |o.kind| && o.kind[h] == HOST && e in o.ds[h] && e < |o.dn| && o.dn[e] < |o.kind|
    requires Settled(o, g, p, main, o.dn[e])
    ensures o.kind[o.dn[e]] == DEVICE && e < |g.dn| && Ready(o, g, p, main, o.dn[e], g.dn[e])
  {
    AtPorts(o, g, p, h, e);
  }

  /** What processing from a node of the chain of r does: it completes that chain, and those behind several ports. */
  ghost predicate Completes(o: Graph, g: Graph, p: Plan, g': Graph, p': Plan, main: string, r: nat)
    requires Sized(o) && r < |o.kind| == |p.chain|
  {
    && Working(o, g', p', main) && g.kind <= g'.kind && Processed(o, g', p', main, r)
    && forall k :: 0 <= k < |o.kind| && k != r ==>
         if o.kind[r] == HOST && |o.ds[r]| > 1 && PortOf(o, r, k) then Processed(o, g', p', main, k)
         else p'.chain[k] == p.chain[k]
  }

  lemma AfterGrowing(o: Graph, g: Graph, p: Plan, p1: Plan, g1: Graph, g': Graph, p': Plan, main: string, r: nat)
    requires Sized(o) && r < |o.kind| == |p.chain| && p1 in {GrowDown(p, r), GrowUp(p, r)} && g.kind <= g1.kind
    requires Completes(o, g1, p1, g', p', main, r)
    ensures Completes(o, g, p, g', p', main, r)
  {}

  /** What the ports es of a host have been processed to, and what is as before. */
  ghost predicate PortsDone(o: Graph, g: Graph, p: Plan, g': Graph, p': Plan, main: string, r: nat, es: seq<nat>)
    requires Sized(o) && r < |o.kind| == |p.chain|
  {
    && Working(o, g', p', main) && g.kind <= g'.kind && p'.chain[r] == p.chain[r]
    && forall k :: 0 <= k < |o.kind| && k != r ==>
         if exists e :: e in es && e < |o.dn| && o.dn[e] == k then Processed(o, g', p', main, k) else p'.chain[k] == p.chain[k]
  }

  lemma OnePortMore(o: Graph, g: Graph, p: Plan, g1: Graph, p1: Plan, g2: Graph, p2: Plan, main: string, r: nat,
                    es: seq<nat>, e: nat)
    requires Sized(o) && r < |o.kind| == |p.chain| && PortsDone(o, g, p, g1, p1, main, r, es)
    requires e < |o.dn| && o.dn[e] < |o.kind| && o.dn[e] != r && o.kind[o.dn[e]] == DEVICE
    requires Completes(o, g1, p1, g2, p2, main, o.dn[e])
    ensures PortsDone(o, g, p, g2, p2, main, r, es + [e])
  {
    forall k | 0 <= k < |o.kind| && k != r
      ensures if exists f :: f in es + [e] && f < |o.dn| && o.dn[f] == k then Processed(o, g2, p2, main, k)
        else p2.chain[k] == p.chain[k]
    {
      if k != o.dn[e] {
        OthersKeep(o, g1, p1, g2, p2, main, k);
        if f :| f in es + [e] && f < |o.dn| && o.dn[f] == k { assert f in es; }
      } else {
        assert e in es + [e];
      }
      if f :| f in es && f < |o.dn| && o.dn[f] == k { assert f in es + [e]; }
    }
  }

  /** A device not processed yet in this loop is settled. */
  lemma PortsSettled(o: Graph, g: Graph, p: Plan, g': Graph, p': Plan, main: string, r: nat, es: seq<nat>, k: nat)
    requires Grown(o, g, p) && r < |o.kind| && PortsDone(o, g, p, g', p', main, r, es) && k < |o.kind| && k != r
    requires Settled(o, g, p, main, k)
    ensures Settled(o, g', p', main, k)
  {
    if p'.chain[k] == p.chain[k] { OthersKeep(o, g, p, g', p', main, k); }
  }

  // ---------------------------------------------------------------- all hosts

  /** The chains once the hosts done have been processed. */
  ghost predicate HostsDone(o: Graph, g: Graph, p: Plan, main: string, done: seq<nat>) {
    && Working(o, g, p, main)
    && forall k :: 0 <= k < |o.kind| ==>
         Kinds(g.kind, p.chain[k]) == if WasProcessed(o, k, done) then FullShape(o, main, k) else [o.kind[k]]
  }

  ghost predicate WasProcessed(o: Graph, k: nat, done: seq<nat>)
    requires k < |o.kind|
  {
    if o.kind[k] == HOST then k in done else ServedAmong(o, k, done)
  }

  /** One host more also processes the devices behind its ports, if it has several. */
  lemma MoreProcessed(o: Graph, k: nat, done: seq<nat>, h: nat)
    requires Original(o) && k < |o.kind| && h < |o.kind| && o.kind[h] == HOST
    ensures WasProcessed(o, k, done + [h]) <==>
      WasProcessed(o, k, done) || k == h || (o.kind[k] == DEVICE && |o.ds[h]| > 1 && PortOf(o, h, k))
  {
    assert Lists(o.ds[h], o.up, h);
    if o.kind[k] == DEVICE {
      if ServedAmong(o, k, done) {
        var e: nat :| ServedBy(o, k, e) && o.up[e] in done;
        assert ServedBy(o, k, e) && o.up[e] in done + [h];
      }
      if |o.ds[h]| > 1 && PortOf(o, h, k) {
        var e :| e in o.ds[h] && e < |o.dn| && o.dn[e] == k;
        assert ServedBy(o, k, e) && o.up[e] in done + [h];
      }
    }
  }

  lemma OneHostChain(o: Graph, g: Graph, p: Plan, g': Graph, p': Plan, main: string, done: seq<nat>, h: nat, k: nat)
    requires HostsDone(o, g, p, main, done) && h < |o.kind| && o.kind[h] == HOST
    requires Completes(o, g, p, g', p', main, h) && k < |o.kind| && k != h
    ensures Kinds(g'.kind, p'.chain[k]) == if WasProcessed(o, k, done + [h]) then FullShape(o, main, k) else [o.kind[k]]
  {
    MoreProcessed(o, k, done, h);
    if PortOf(o, h, k) { PortIsDevice(o, h, k); }
    if p'.chain[k] == p.chain[k] { OthersKeep(o, g, p, g', p', main, k); }
  }

  lemma PortIsDevice(o: Graph, h: nat, k: nat)
    requires Original(o) && k < |o.kind| && PortOf(o, h, k)
    ensures o.kind[k] == DEVICE
  {
    assert Lists(o.ds[h], o.up, h);
  }

  lemma OneHostMore(o: Graph, g: Graph, p: Plan, g': Graph, p': Plan, main: string, done: seq<nat>, h: nat)
    requires HostsDone(o, g, p, main, done) && h < |o.kind| && o.kind[h] == HOST
    requires Completes(o, g, p, g', p', main, h)
    ensures HostsDone(o, g', p', main, done + [h])
  {
    forall k | 0 <= k < |o.kind|
      ensures Kinds(g'.kind, p'.chain[k]) == if WasProcessed(o, k, done + [h]) then FullShape(o, main, k) else [o.kind[k]]
    {
      if k != h { OneHostChain(o, g, p, g', p', main, done, h, k); }
    }
  }

  /** A host that was not processed is alone in its chain. */
  lemma HostReady(o: Graph, g: Graph, p: Plan, main: string, done: seq<nat>, h: nat)
    requires HostsDone(o, g, p, main, done) && h < |o.kind| && o.kind[h] == HOST && h !in done
    ensures Ready(o, g, p, main, h, h) && g.kind[h] == HOST
    ensures forall k :: 0 <= k < |o.kind| ==> Settled(o, g, p, main, k)
  {
    Unfold(o, g, p, h);
    assert |Kinds(g.kind, p.chain[h])| == 1;
  }

  function StartPlan(n: nat): Plan { Plan(seq(n, r requires 0 <= r < n => [r]), seq(n, r requires 0 <= r < n => r)) }

  /** At first every node is alone in its chain. */
  lemma StartDone(o: Graph, main: string)
    requires Original(o)
    ensures HostsDone(o, o, StartPlan(|o.kind|), main, [])
  {
    var p := StartPlan(|o.kind|);
    forall r | 0 <= r < |o.kind| ensures ChainOk(o, o, p, r) {
      assert Lists(o.us[r], o.dn, r) && Lists(o.ds[r], o.up, r);
      assert o.us[r] != [] ==> o.us[r][0] in o.us[r];
      assert o.ds[r] != [] ==> o.ds[r][0] in o.ds[r];
    }
  }

  /** When all hosts are done, so is the crossbar. */
  lemma AllDone(o: Graph, g: Graph, p: Plan, main: string, done: seq<nat>)
    requires HostsDone(o, g, p, main, done) && forall h :: 0 <= h < |o.kind| ==> (h in done <==> o.kind[h] == HOST)
    ensures Elaborated(o, g, p, main)
  {
    forall r | 0 <= r < |o.kind| ensures Shaped(o, g, p, main, r) {
      if o.kind[r] == DEVICE {
        if e: nat :| ServedBy(o, r, e) { assert o.up[e] in done; }
      }
    }
  }

  class Xbar {
    // The nodes: their types, clocks and edges on either side.
    var kind: seq<NodeType>
    var clocks: seq<Clocks>
    var us: seq<seq<nat>>
    var ds: seq<seq<nat>>
    // The edges: their end nodes.
    var up: seq<nat>
    var dn: seq<nat>
    const clock: string
    ghost var plan: Plan

    function State(): Graph
      reads this
    {
      Graph(kind, clocks, us, ds, up, dn)
    }

    constructor (main: string)
      ensures clock == main && State() == Graph([], [], [], [], [], []) && Consistent(State())
    {
      clock := main;
      kind, clocks, us, ds, up, dn, plan := [], [], [], [], [], [], Plan([], []);
    }

    /** A host or device as read from the configuration, without edges yet. */
    method AddNode(k: NodeType, c: string)
      requires k in {HOST, DEVICE} && Original(State())
      modifies this`kind, this`clocks, this`us, this`ds
      ensures var g := old(State());
        State() == Graph(g.kind + [k], g.clock + [[c]], g.us + [[]], g.ds + [[]], g.up, g.dn)
      ensures Original(State())
    {
      kind, clocks, us, ds := kind + [k], clocks + [[c]], us + [[]], ds + [[]];
    }

    /** connect_nodes: false, and no change, if the two are connected already. */
    method ConnectNodes(u: nat, d: nat) returns (ok: bool)
      requires Original(State()) && u < |kind| && d < |kind| && kind[u] == HOST && kind[d] == DEVICE
      modifies this`us, this`ds, this`up, this`dn
      ensures Original(State())
      ensures ok == !exists e: nat :: e < |old(up)| && old(up[e]) == u && old(dn[e]) == d
      ensures State() == if ok then Connected(old(State()), u, d) else old(State())
    {
      var e := 0;
      while e < |up|
        invariant e <= |up| && forall i :: 0 <= i < e ==> up[i] != u || dn[i] != d
      {
        if up[e] == u && dn[e] == d { return false; }
        e := e + 1;
      }
      up, dn := up + [u], dn + [d];
      ds := ds[u := ds[u] + [e]];
      us := us[d := us[d] + [e]];
      ConnectedOriginal(old(State()), u, d);
      return true;
    }

    /** insert_node; false where the source raises. */
    method InsertNode(k: NodeType, c: Clocks, node: nat) returns (ok: bool)
      requires Consistent(State()) && node < |kind|
      modifies this`kind, this`clocks, this`us, this`ds, this`up, this`dn
      ensures State() == Inserted(old(State()), k, c, node)
      ensures ok <==> k != ASYNC_FIFO || old(kind[node]) in {HOST, DEVICE}
      ensures Consistent(State())
    {
      ok := true;
      if k == ASYNC_FIFO {
        if kind[node] == HOST {
          InsertBelow(k, c, node);
        } else if kind[node] == DEVICE {
          InsertAbove(k, c, node);
        } else {
          ok := false;
        }
      } else if k == SOCKET_M1 {
        InsertAbove(k, c, node);
      } else if k == SOCKET_1N {
        InsertBelow(k, c, node);
      }
    }

    method InsertBelow(k: NodeType, c: Clocks, node: nat)
      requires Consistent(State()) && node < |kind|
      modifies this`kind, this`clocks, this`us, this`ds, this`up, this`dn
      ensures State() == InsertDown(old(State()), node, k, c) && Consistent(State())
    {
      ghost var g := State();
      DownConsistent(g, node, k, c);
      var n, x := |kind|, |up|;
      var moved := ds[node];
      assert Lists(g.ds[node], g.up, node);
      ds := ds[node := [x]] + [moved];
      us := us + [[x]];
      kind, clocks := kind + [k], clocks + [c];
      up, dn := up + [node], dn + [n];
      var i := 0;
      while i < |moved|
        modifies this`up
        invariant i <= |moved| && |up| == x + 1
        invariant forall e :: 0 <= e <= x ==> up[e] == if e == x then node else if e in moved[..i] then n else g.up[e]
      {
        assert moved[i] in moved;
        up := up[moved[i] := n];
        assert moved[..i + 1] == moved[..i] + [moved[i]];
        i := i + 1;
      }
      assert moved[..i] == moved;
      assert up == Moved(g.up, moved, n) + [node];
    }

    method InsertAbove(k: NodeType, c: Clocks, node: nat)
      requires Consistent(State()) && node < |kind|
      modifies this`kind, this`clocks, this`us, this`ds, this`up, this`dn
      ensures State() == InsertUp(old(State()), node, k, c) && Consistent(State())
    {
      ghost var g := State();
      UpConsistent(g, node, k, c);
      var n, x := |kind|, |up|;
      var moved := us[node];
      assert Lists(g.us[node], g.dn, node);
      us := us[node := [x]] + [moved];
      ds := ds + [[x]];
      kind, clocks := kind + [k], clocks + [c];
      up, dn := up + [n], dn + [node];
      var i := 0;
      while i < |moved|
        modifies this`dn
        invariant i <= |moved| && |dn| == x + 1
        invariant forall e :: 0 <= e <= x ==> dn[e] == if e == x then node else if e in moved[..i] then n else g.dn[e]
      {
        assert moved[i] in moved;
        dn := dn[moved[i] := n];
        assert moved[..i + 1] == moved[..i] + [moved[i]];
        i := i + 1;
      }
      assert moved[..i] == moved;
      assert dn == Moved(g.dn, moved, n) + [node];
    }

    /** Insert a node where processing goes on; the chain of r has it too. */
    method Grow(k: NodeType, c: Clocks, node: nat, ghost o: Graph, ghost r: nat)
      requires Working(o, State(), plan, clock) && r < |o.kind| && node < |kind| && Ready(o, State(), plan, clock, r, node)
      requires forall i :: 0 <= i < |o.kind| && i != r ==> Settled(o, State(), plan, clock, i)
      requires c == NewClocks(k, o.kind[r], o.clock[r], clock)
      requires if k == ASYNC_FIFO then node == r else k == if o.kind[r] == HOST then SOCKET_1N else SOCKET_M1
      modifies this`kind, this`clocks, this`us, this`ds, this`up, this`dn, this`plan
      ensures State() == Inserted(old(State()), k, c, node)
      ensures plan == if o.kind[r] == HOST then GrowDown(old(plan), r) else GrowUp(old(plan), r)
      ensures Working(o, State(), plan, clock) && r < |plan.chain|
      ensures old(kind) <= kind && |kind| == old(|kind|) + 1 && kind[old(|kind|)] == k
      ensures o.kind[r] == HOST ==> Last(plan.chain[r]) == old(|kind|)
      ensures forall i :: 0 <= i < |o.kind| && i != r ==> Settled(o, State(), plan, clock, i)
    {
      ghost var g, p := State(), plan;
      ReadyNode(o, g, p, clock, r, node);
      Grows(o, g, p, clock, r, node, k, c);
      var ok := InsertNode(k, c, node);
      plan := if o.kind[r] == HOST then GrowDown(p, r) else GrowUp(p, r);
    }

    /** process_node */
    method ProcessNode(node: nat, ghost o: Graph, ghost r: nat, ghost rank: nat)
      requires Working(o, State(), plan, clock) && r < |o.kind| && node < |kind|
      requires Ready(o, State(), plan, clock, r, node) && rank == Rank(kind[node], o.kind[r])
      requires forall k :: 0 <= k < |o.kind| && k != r ==> Settled(o, State(), plan, clock, k)
      modifies this`kind, this`clocks, this`us, this`ds, this`up, this`dn, this`plan
      ensures Completes(o, old(State()), old(plan), State(), plan, clock, r)
      decreases rank, 1
    {
      hide Inserted, GrowDown, GrowUp, Settled, Clocked, FullShape;
      ghost var g, p := State(), plan;
      ReadyNode(o, g, p, clock, r, node);
      if kind[node] != ASYNC_FIFO && clocks[node][0] != clock {
        var n := |kind|;
        var c: Clocks := [clock];
        c := if kind[node] == HOST then [clocks[node][0]] + c else c + [clocks[node][0]];
        FifoReady(o, g, p, clock, r, c);
        Grow(ASYNC_FIFO, c, node, o, r);
        ghost var g1, p1 := State(), plan;
        ProcessNode(n, o, r, Rank(kind[n], o.kind[r]));
        AfterGrowing(o, g, p, p1, g1, State(), plan, clock, r);
      } else if kind[node] != SOCKET_M1 && |us[node]| > 1 {
        var n := |kind|;
        InputSocket(o, g, p, clock, r, node);
        Grow(SOCKET_M1, [clock], node, o, r);
        ghost var g1, p1 := State(), plan;
        ProcessNode(n, o, r, Rank(kind[n], o.kind[r]));
        AfterGrowing(o, g, p, p1, g1, State(), plan, clock, r);
      } else if kind[node] != SOCKET_1N && |ds[node]| > 1 {
        var n := |kind|;
        PortSocket(o, g, p, clock, r, node);
        Grow(SOCKET_1N, [clock], node, o, r);
        ghost var g1, p1 := State(), plan;
        ProcessPorts(n, o, r, rank);
        AfterGrowing(o, g, p, p1, g1, State(), plan, clock, r);
      } else {
        NothingToInsert(o, g, p, clock, r, node);
      }
    }

    /** The loop of process_node over the ports of a new socket. */
    method ProcessPorts(node: nat, ghost o: Graph, ghost r: nat, ghost rank: nat)
      requires Working(o, State(), plan, clock) && r < |o.kind| && o.kind[r] == HOST && |o.ds[r]| > 1 && rank > 3
      requires Processed(o, State(), plan, clock, r) && node == Last(plan.chain[r])
      requires forall k :: 0 <= k < |o.kind| && k != r ==> Settled(o, State(), plan, clock, k)
      modifies this`kind, this`clocks, this`us, this`ds, this`up, this`dn, this`plan
      ensures Completes(o, old(State()), old(plan), State(), plan, clock, r)
      decreases rank, 0
    {
      hide Kinds, ChainOk, Ends, Linked, Clocked, NewClocks;
      ghost var g, p := State(), plan;
      ghost var es := o.ds[r];
      Unfold(o, g, p, r);
      var i := 0;
      while i < |ds[node]|
        invariant i <= |es| && node < |ds| && ds[node] == es
        invariant PortsDone(o, g, p, State(), plan, clock, r, es[..i])
      {
        var e := ds[node][i];
        assert e in es;
        ghost var g1, p1 := State(), plan;
        AtPorts(o, g1, p1, r, e);
        ghost var d := o.dn[e];
        forall k | 0 <= k < |o.kind| ensures Settled(o, g1, p1, clock, k) {
          if k != r { PortsSettled(o, g, p, g1, p1, clock, r, es[..i], k); } else { OthersKeep(o, g, p, g1, p1, clock, r); }
        }
        SettledReady(o, g1, p1, clock, r, e);
        ReadyNode(o, g1, p1, clock, d, dn[e]);
        ProcessNode(dn[e], o, d, Rank(kind[dn[e]], DEVICE));
        OnePortMore(o, g, p, g1, p1, State(), plan, clock, r, es[..i], e);
        assert es[..i + 1] == es[..i] + [e];
        Unfold(o, State(), plan, r);
        i := i + 1;
      }
      assert es[..i] == es;
      OthersKeep(o, g, p, State(), plan, clock, r);
    }

    /** The hosts, in the order of the nodes. */
    method Hosts() returns (hosts: seq<nat>)
      ensures Distinct(hosts) && forall h: nat :: h in hosts <==> h < |kind| && kind[h] == HOST
    {
      hosts := [];
      var n := 0;
      while n < |kind|
        invariant n <= |kind| && Distinct(hosts)
        invariant forall h: nat :: h in hosts <==> h < n && kind[h] == HOST
      {
        if kind[n] == HOST {
          DistinctAdd(hosts, n);
          hosts := hosts + [n];
        }
        n := n + 1;
      }
    }

    /** One turn of the loop of elaborate. */
    method ProcessHost(h: nat, ghost o: Graph, ghost done: seq<nat>)
      requires HostsDone(o, State(), plan, clock, done) && h < |o.kind| && o.kind[h] == HOST && h !in done
      modifies this`kind, this`clocks, this`us, this`ds, this`up, this`dn, this`plan
      ensures HostsDone(o, State(), plan, clock, done + [h])
    {
      ghost var g, p := State(), plan;
      HostReady(o, g, p, clock, done, h);
      ProcessNode(h, o, h, 6);
      OneHostMore(o, g, p, State(), plan, clock, done, h);
    }

    /** elaborate, up to the pipeline pass: the one result that Elaborated describes, or no change and false. */
    method Elaborate() returns (ok: bool)
      requires Original(State())
      modifies this`kind, this`clocks, this`us, this`ds, this`up, this`dn, this`plan
      ensures ok <==> old(|kind|) > 1 && old(|up|) != 0
      ensures if ok then Elaborated(old(State()), State(), plan, clock) else State() == old(State())
    {
      hide HostsDone, Elaborated, Original;
      if |kind| <= 1 || |up| == 0 { return false; }
      ghost var o := State();
      plan := StartPlan(|kind|);
      StartDone(o, clock);
      var hosts := Hosts();
      var i := 0;
      while i < |hosts|
        invariant i <= |hosts| && HostsDone(o, State(), plan, clock, hosts[..i])
      {
        assert hosts[i] in hosts && hosts[i] !in hosts[..i];
        ProcessHost(hosts[i], o, hosts[..i]);
        assert hosts[..i + 1] == hosts[..i] + [hosts[i]];
        i := i + 1;
      }
      assert hosts[..i] == hosts;
      AllDone(o, State(), plan, clock, hosts);
      return true;
    }
  }
}
