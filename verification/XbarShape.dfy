/** The chains elaboration builds (elaborate.py), and what the lookups of xbar.py find in the result. */
module XbarShape {
  import opened XbarGraph
  import opened XbarPlan
  import opened XbarReach

  datatype Option<T> = None | Some(value: T)

  // ---------------------------------------------------------------- shapes

  function Part(b: bool, k: NodeType): seq<NodeType> { if b then [k] else [] }

  /** A host, a FIFO if it has a clock of its own, a socket if it has several ports. */
  function HostShape(o: Graph, main: string, h: nat): seq<NodeType>
    requires Sized(o) && h < |o.kind|
  {
    [HOST] + Part(o.clock[h][0] != main, ASYNC_FIFO) + Part(|o.ds[h]| > 1, SOCKET_1N)
  }

  /** A socket if a device has several inputs, a FIFO if it has a clock of its own, the device. */
  function DeviceShape(o: Graph, main: string, d: nat): seq<NodeType>
    requires Sized(o) && d < |o.kind|
  {
    Part(|o.us[d]| > 1, SOCKET_M1) + Part(o.clock[d][0] != main, ASYNC_FIFO) + [DEVICE]
  }

  /** The types of the nodes of a chain. */
  function Kinds(kind: seq<NodeType>, c: seq<nat>): (k: seq<NodeType>)
    ensures |k| == |c| && forall i :: 0 <= i < |c| && c[i] < |kind| ==> k[i] == kind[c[i]]
  {
    seq(|c|, i requires 0 <= i < |c| => if c[i] < |kind| then kind[c[i]] else HOST)
  }

  /** Some host with more than one port leads to d. */
  ghost predicate Served(o: Graph, d: nat) {
    exists e: nat :: ServedBy(o, d, e)
  }

  ghost predicate ServedBy(o: Graph, d: nat, e: nat) {
    e < |o.up| && e < |o.dn| && o.up[e] < |o.ds| && o.dn[e] == d && |o.ds[o.up[e]]| > 1
  }

  /** What elaboration makes of node r. */
  ghost predicate Shaped(o: Graph, g: Graph, p: Plan, main: string, r: nat)
    requires Sized(o) && r < |o.kind| == |p.chain|
  {
    Kinds(g.kind, p.chain[r]) ==
      if o.kind[r] == HOST then HostShape(o, main, r)
      else if Served(o, r) then DeviceShape(o, main, r) else [DEVICE]
  }

  /** The clocks of the new nodes: a FIFO leads from its host's clock to the main one, or from the main one to its device's. */
  ghost predicate Clocked(o: Graph, g: Graph, p: Plan, main: string) {
    forall n :: |o.kind| <= n < |g.kind| && n < |g.clock| && n < |p.owner| && p.owner[n] < |o.kind| && p.owner[n] < |o.clock| ==>
      g.clock[n] == NewClocks(g.kind[n], o.kind[p.owner[n]], o.clock[p.owner[n]], main)
  }

  function NewClocks(kind: NodeType, side: NodeType, own: Clocks, main: string): Clocks {
    if kind != ASYNC_FIFO then [main] else if side == HOST then [own[0], main] else [main, own[0]]
  }

  /** The result of elaboration, completely: the chains, what they are made of, how they are joined, and the clocks. */
  ghost predicate Elaborated(o: Graph, g: Graph, p: Plan, main: string) {
    Grown(o, g, p) && Clocked(o, g, p, main) && forall r :: 0 <= r < |o.kind| ==> Shaped(o, g, p, main, r)
  }

  // ---------------------------------------------------------------- heights

  /** Edges lead downwards. */
  ghost predicate Descends(g: Graph, height: seq<nat>) {
    |height| == |g.kind| &&
    forall e ::
      0 <= e < |g.up| && e < |g.dn| && g.up[e] < |height| && g.dn[e] < |height| ==> height[g.up[e]] > height[g.dn[e]]
  }

  function Height(k: NodeType, side: NodeType): nat {
    match k
    case HOST => 6
    case SOCKET_1N => 4
    case SOCKET_M1 => 3
    case DEVICE => 1
    case ASYNC_FIFO => if side == HOST then 5 else 2
  }

  ghost function Heights(o: Graph, g: Graph, p: Plan): seq<nat>
    requires Grown(o, g, p)
  {
    seq(|g.kind|, n requires 0 <= n < |g.kind| => Height(g.kind[n], o.kind[p.owner[n]]))
  }

  /** Along a chain the heights fall, on either side of the line between hosts and devices. */
  lemma ShapeFalls(o: Graph, main: string, r: nat, k: seq<NodeType>, i: nat)
    requires Sized(o) && r < |o.kind| && i < |k|
    requires k == if o.kind[r] == HOST then HostShape(o, main, r) else DeviceShape(o, main, r)
    ensures i + 1 < |k| ==> Height(k[i], o.kind[r]) > Height(k[i + 1], o.kind[r])
    ensures o.kind[r] == HOST <==> Height(k[i], o.kind[r]) > 3
  {}

  lemma KindsFall(o: Graph, g: Graph, p: Plan, main: string, r: nat, i: nat)
    requires Elaborated(o, g, p, main) && r < |o.kind| && i < |p.chain[r]|
    ensures p.chain[r][i] < |g.kind| && p.owner[p.chain[r][i]] == r
    ensures o.kind[r] == HOST <==> Height(g.kind[p.chain[r][i]], o.kind[r]) > 3
    ensures i + 1 < |p.chain[r]| ==>
      p.chain[r][i + 1] < |g.kind| &&
      Height(g.kind[p.chain[r][i]], o.kind[r]) > Height(g.kind[p.chain[r][i + 1]], o.kind[r])
  {
    var c := p.chain[r];
    Unfold(o, g, p, r);
    assert c[i] in c && (i + 1 < |c| ==> c[i + 1] in c);
    assert Shaped(o, g, p, main, r);
    var k := Kinds(g.kind, c);
    if k != [DEVICE] { ShapeFalls(o, main, r, k, i); }
  }

  /** The elaborated crossbar has no cycles. */
  lemma Acyclic(o: Graph, g: Graph, p: Plan, main: string)
    requires Elaborated(o, g, p, main)
    ensures Descends(g, Heights(o, g, p))
  {
    var h := Heights(o, g, p);
    forall e | 0 <= e < |g.up| ensures h[g.up[e]] > h[g.dn[e]] {
      EdgeFalls(o, g, p, main, e);
    }
  }

  lemma EdgeFalls(o: Graph, g: Graph, p: Plan, main: string, e: nat)
    requires Elaborated(o, g, p, main) && e < |g.up|
    ensures Heights(o, g, p)[g.up[e]] > Heights(o, g, p)[g.dn[e]]
  {
    var n := g.up[e];
    assert Lists(g.ds[n], g.up, n);
    var r, i := Leads(o, g, p, n, e);
    KindsFall(o, g, p, main, r, i);
    if i + 1 < |p.chain[r]| {
      KindsFall(o, g, p, main, r, i + 1);
    } else {
      AtPorts(o, g, p, r, e);
      Unfold(o, g, p, o.dn[e]);
      KindsFall(o, g, p, main, o.dn[e], 0);
    }
  }

  // ---------------------------------------------------------------- the lookups of xbar.py

  /** get_downstream_device; None where it runs out of edges. The heights only show that it ends. */
  function DownstreamDevice(g: Graph, n: nat, ghost height: seq<nat>): Option<nat>
    requires Consistent(g) && Descends(g, height) && n < |g.kind|
    decreases height[n]
  {
    if g.kind[n] == DEVICE then Some(n)
    else if g.ds[n] == [] then None
    else
      assert Lists(g.ds[n], g.up, n) && g.ds[n][0] in g.ds[n];
      DownstreamDevice(g, g.dn[g.ds[n][0]], height)
  }

  /** get_s1n_if_exist */
  function S1nIfExist(g: Graph, n: nat, ghost height: seq<nat>): (r: Option<nat>)
    requires Consistent(g) && Descends(g, height) && n < |g.kind|
    ensures r.Some? ==> r.value < |g.kind|
    decreases height[n]
  {
    if g.kind[n] == DEVICE || g.kind[n] == SOCKET_1N then Some(n)
    else if g.ds[n] == [] then None
    else
      assert Lists(g.ds[n], g.up, n) && g.ds[n][0] in g.ds[n];
      S1nIfExist(g, g.dn[g.ds[n][0]], height)
  }

  /** The devices below a list of edges of one node. */
  function DevicesBelow(g: Graph, n: nat, es: seq<nat>, ghost height: seq<nat>): Option<seq<nat>>
    requires Consistent(g) && Descends(g, height) && n < |g.kind| && forall e :: e in es ==> e in g.ds[n]
  {
    if es == [] then Some([])
    else
      assert Lists(g.ds[n], g.up, n) && es[0] in es;
      match DownstreamDevice(g, g.dn[es[0]], height)
      case None => None
      case Some(d) =>
        match DevicesBelow(g, n, es[1..], height)
        case None => None
        case Some(ds) => Some([d] + ds)
  }

  /** get_devices_from_host */
  function DevicesFromHost(g: Graph, h: nat, ghost height: seq<nat>): Option<seq<nat>>
    requires Consistent(g) && Descends(g, height) && h < |g.kind|
  {
    match S1nIfExist(g, h, height)
    case None => None
    case Some(s) => DevicesBelow(g, s, g.ds[s], height)
  }

  /** The devices of a list of original edges. */
  function Devices(o: Graph, es: seq<nat>): seq<nat> {
    if es == [] then [] else [if es[0] < |o.dn| then o.dn[es[0]] else 0] + Devices(o, es[1..])
  }

  lemma DeviceLast(o: Graph, main: string, d: nat, k: seq<NodeType>, i: nat)
    requires Sized(o) && d < |o.kind| && i < |k| && (k == DeviceShape(o, main, d) || k == [DEVICE])
    ensures k[i] != SOCKET_1N && (k[i] == DEVICE <==> i + 1 == |k|)
  {}

  lemma HostLast(o: Graph, main: string, h: nat, k: seq<NodeType>, i: nat)
    requires Sized(o) && h < |o.kind| && i < |k| && k == HostShape(o, main, h)
    ensures k[i] != DEVICE && (k[i] == SOCKET_1N <==> i + 1 == |k| && |o.ds[h]| > 1)
  {}

  /** A walk down a device's chain finds that device, and no socket on the way. */
  lemma {:induction false} WalkDevice(o: Graph, g: Graph, p: Plan, main: string, d: nat, i: nat, height: seq<nat>)
    requires Elaborated(o, g, p, main) && Descends(g, height)
    requires d < |o.kind| && o.kind[d] == DEVICE && i < |p.chain[d]| && p.chain[d][i] < |g.kind|
    ensures DownstreamDevice(g, p.chain[d][i], height) == Some(d) && S1nIfExist(g, p.chain[d][i], height) == Some(d)
    decreases |p.chain[d]| - i
  {
    var c := p.chain[d];
    Unfold(o, g, p, d);
    assert Shaped(o, g, p, main, d);
    DeviceLast(o, main, d, Kinds(g.kind, c), i);
    if i + 1 < |c| {
      InsideChain(o, g, p, d, i);
      WalkDevice(o, g, p, main, d, i + 1, height);
    }
  }

  /** A walk down a host's chain finds its socket, or goes on at its first port. */
  lemma {:induction false} WalkHost(o: Graph, g: Graph, p: Plan, main: string, h: nat, i: nat, height: seq<nat>)
    requires Elaborated(o, g, p, main) && Descends(g, height)
    requires h < |o.kind| && o.kind[h] == HOST && i < |p.chain[h]| && p.chain[h][i] < |g.kind|
    ensures S1nIfExist(g, p.chain[h][i], height) ==
      if |o.ds[h]| > 1 then Some(Last(p.chain[h]))
      else if o.ds[h] == [] then None else Some(Devices(o, o.ds[h])[0])
    decreases |p.chain[h]| - i
  {
    var c := p.chain[h];
    Unfold(o, g, p, h);
    assert Shaped(o, g, p, main, h);
    HostLast(o, main, h, Kinds(g.kind, c), i);
    if i + 1 < |c| {
      InsideChain(o, g, p, h, i);
      WalkHost(o, g, p, main, h, i + 1, height);
    } else if |o.ds[h]| == 1 {
      var e := o.ds[h][0];
      AtPorts(o, g, p, h, e);
      Unfold(o, g, p, o.dn[e]);
      WalkDevice(o, g, p, main, o.dn[e], 0, height);
    }
  }

  lemma {:induction false} BelowPorts(o: Graph, g: Graph, p: Plan, main: string, h: nat, es: seq<nat>, height: seq<nat>)
    requires Elaborated(o, g, p, main) && Descends(g, height) && h < |o.kind| && o.kind[h] == HOST
    requires Last(p.chain[h]) < |g.kind| && forall e :: e in es ==> e in o.ds[h] && e in g.ds[Last(p.chain[h])]
    ensures DevicesBelow(g, Last(p.chain[h]), es, height) == Some(Devices(o, es))
  {
    if es != [] {
      assert es[0] in es;
      AtPorts(o, g, p, h, es[0]);
      var d := o.dn[es[0]];
      Unfold(o, g, p, d);
      WalkDevice(o, g, p, main, d, 0, height);
      BelowPorts(o, g, p, main, h, es[1..], height);
    }
  }

  /** What get_devices_from_host finds: all devices of a host with several, none for a host with one. */
  lemma FoundDevices(o: Graph, g: Graph, p: Plan, main: string, h: nat, height: seq<nat>)
    requires Elaborated(o, g, p, main) && Descends(g, height) && h < |o.kind| && o.kind[h] == HOST
    ensures DevicesFromHost(g, h, height) ==
      if |o.ds[h]| > 1 then Some(Devices(o, o.ds[h])) else if o.ds[h] == [] then None else Some([])
  {
    Unfold(o, g, p, h);
    WalkHost(o, g, p, main, h, 0, height);
    if |o.ds[h]| > 1 {
      BelowPorts(o, g, p, main, h, o.ds[h], height);
    } else if |o.ds[h]| == 1 {
      AtPorts(o, g, p, h, o.ds[h][0]);
      Unfold(o, g, p, o.dn[o.ds[h][0]]);
    }
  }

  /** get_devices_from_host returns the original devices in port order exactly for the hosts that have more than one. */
  lemma FindsDevicesIff(o: Graph, g: Graph, p: Plan, main: string, h: nat, height: seq<nat>)
    requires Elaborated(o, g, p, main) && Descends(g, height) && h < |o.kind| && o.kind[h] == HOST
    ensures DevicesFromHost(g, h, height) == Some(Devices(o, o.ds[h])) <==> |o.ds[h]| > 1
  {
    FoundDevices(o, g, p, main, h, height);
  }
}
