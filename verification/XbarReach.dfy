/** Which host reaches which device, and what the lookups of xbar.py find, once a crossbar is elaborated. */
module XbarReach {
  import opened XbarGraph
  import opened XbarPlan

  // ---------------------------------------------------------------- where an edge leads

  lemma {:induction false} LinkedAt(g: Graph, c: seq<nat>, i: nat)
    requires Linked(g, c) && i + 1 < |c|
    ensures Link(g, c[i], c[i + 1])
  {
    if i > 0 { LinkedAt(g, c[1..], i - 1); }
  }

  lemma Unfold(o: Graph, g: Graph, p: Plan, r: nat)
    requires Grown(o, g, p) && r < |o.kind|
    ensures var c := p.chain[r]; c != [] && Linked(g, c) && Ends(o, g, c, r) && Distinct(c)
    ensures forall n :: n in p.chain[r] ==> n < |g.kind| && p.owner[n] == r
  {
    assert ChainOk(o, g, p, r);
  }

  /** Inside a chain there is one way: to the next node. */
  lemma InsideChain(o: Graph, g: Graph, p: Plan, r: nat, i: nat)
    requires Grown(o, g, p) && r < |o.kind| && i + 1 < |p.chain[r]|
    ensures var c := p.chain[r]; c[i] < |g.kind| && c[i + 1] < |g.kind| && |g.ds[c[i]]| == 1
    ensures var e := g.ds[p.chain[r][i]][0]; e < |g.dn| && g.dn[e] == p.chain[r][i + 1]
  {
    var c := p.chain[r];
    Unfold(o, g, p, r);
    LinkedAt(g, c, i);
    assert c[i] in c && c[i + 1] in c;
    var e := g.ds[c[i]][0];
    assert e in g.ds[c[i]] && e in g.us[c[i + 1]];
    assert Lists(g.ds[c[i]], g.up, c[i]) && Lists(g.us[c[i + 1]], g.dn, c[i + 1]);
  }

  /** At the end of a host's chain the ports lead to the chains of the original devices. */
  lemma AtPorts(o: Graph, g: Graph, p: Plan, h: nat, e: nat)
    requires Grown(o, g, p) && h < |o.kind| && o.kind[h] == HOST && e in o.ds[h]
    ensures e < |o.dn| && o.up[e] == h && o.dn[e] < |o.kind| && o.kind[o.dn[e]] == DEVICE
    ensures e < |g.dn| && g.dn[e] == First(p.chain[o.dn[e]])
  {
    Unfold(o, g, p, h);
    assert Lists(o.ds[h], o.up, h) && Lists(g.ds[Last(p.chain[h])], g.up, Last(p.chain[h]));
    var d := o.dn[e];
    Unfold(o, g, p, d);
    assert Lists(o.us[d], o.dn, d);
    var t := First(p.chain[d]);
    assert Lists(g.us[t], g.dn, t);
  }

  /** Where the edge e out of n leads: along the chain of n, or from the end of a host's chain into a device's. */
  lemma Leads(o: Graph, g: Graph, p: Plan, n: nat, e: nat) returns (r: nat, i: nat)
    requires Grown(o, g, p) && n < |g.kind| && e in g.ds[n]
    ensures r < |o.kind| && i < |p.chain[r]| && p.chain[r][i] == n && e < |g.dn|
    ensures if i + 1 < |p.chain[r]| then g.dn[e] == p.chain[r][i + 1]
      else o.kind[r] == HOST && e in o.ds[r] && e < |o.dn| && o.dn[e] < |o.kind| && g.dn[e] == First(p.chain[o.dn[e]])
  {
    r := p.owner[n];
    var c := p.chain[r];
    Unfold(o, g, p, r);
    assert Lists(g.ds[n], g.up, n);
    i :| 0 <= i < |c| && c[i] == n;
    if i + 1 < |c| {
      InsideChain(o, g, p, r, i);
    } else {
      if o.kind[r] == HOST { AtPorts(o, g, p, r, e); }
    }
  }

  // ---------------------------------------------------------------- reachability

  /** The edges s lead from a to b. */
  ghost predicate Path(g: Graph, s: seq<nat>, a: nat, b: nat) {
    a < |g.ds| && if s == [] then a == b else s[0] in g.ds[a] && s[0] < |g.dn| && Path(g, s[1..], g.dn[s[0]], b)
  }

  ghost predicate Reaches(g: Graph, a: nat, b: nat) { exists s :: Path(g, s, a, b) }

  /** From inside a device's chain only that device can be reached. */
  lemma {:induction false} StaysInDevice(o: Graph, g: Graph, p: Plan, d: nat, s: seq<nat>, a: nat, b: nat)
    requires Grown(o, g, p) && d < |o.kind| && o.kind[d] == DEVICE && a in p.chain[d] && Path(g, s, a, b)
    ensures b in p.chain[d]
  {
    if s != [] {
      Unfold(o, g, p, d);
      var r, i := Leads(o, g, p, a, s[0]);
      Unfold(o, g, p, r);
      assert r == d;
      StaysInDevice(o, g, p, d, s[1..], g.dn[s[0]], b);
    }
  }

  /** From inside a host's chain one stays in it, or leaves by one of the host's own edges. */
  lemma {:induction false} LeavesByPort(o: Graph, g: Graph, p: Plan, h: nat, s: seq<nat>, a: nat, b: nat)
    requires Grown(o, g, p) && h < |o.kind| && o.kind[h] == HOST && a in p.chain[h] && Path(g, s, a, b)
    ensures b in p.chain[h] || exists e :: e in o.ds[h] && e < |o.dn| && o.dn[e] < |o.kind| && b in p.chain[o.dn[e]]
  {
    if s != [] {
      Unfold(o, g, p, h);
      var r, i := Leads(o, g, p, a, s[0]);
      Unfold(o, g, p, r);
      assert r == h;
      var e := s[0];
      if i + 1 < |p.chain[h]| {
        LeavesByPort(o, g, p, h, s[1..], g.dn[e], b);
      } else {
        AtPorts(o, g, p, h, e);
        Unfold(o, g, p, o.dn[e]);
        StaysInDevice(o, g, p, o.dn[e], s[1..], g.dn[e], b);
      }
    }
  }

  lemma {:induction false} PathJoin(g: Graph, s: seq<nat>, t: seq<nat>, a: nat, b: nat, c: nat)
    requires Path(g, s, a, b) && Path(g, t, b, c)
    ensures Path(g, s + t, a, c)
  {
    if s == [] {
      assert s + t == t;
    } else {
      PathJoin(g, s[1..], t, g.dn[s[0]], b, c);
      assert (s + t)[1..] == s[1..] + t;
    }
  }

  /** A chain can be walked from its i-th node to its end. */
  lemma {:induction false} ChainPath(o: Graph, g: Graph, p: Plan, r: nat, i: nat) returns (s: seq<nat>)
    requires Grown(o, g, p) && r < |o.kind| && i < |p.chain[r]|
    ensures Path(g, s, p.chain[r][i], Last(p.chain[r]))
    decreases |p.chain[r]| - i
  {
    var c := p.chain[r];
    Unfold(o, g, p, r);
    assert c[i] in c;
    if i + 1 < |c| {
      InsideChain(o, g, p, r, i);
      var t := ChainPath(o, g, p, r, i + 1);
      var e := g.ds[c[i]][0];
      s := [e] + t;
      assert s[1..] == t;
    } else {
      s := [];
    }
  }

  lemma PortPath(o: Graph, g: Graph, p: Plan, h: nat, e: nat) returns (s: seq<nat>)
    requires Grown(o, g, p) && h < |o.kind| && o.kind[h] == HOST && e in o.ds[h] && e < |o.dn|
    ensures Path(g, s, h, o.dn[e])
  {
    Unfold(o, g, p, h);
    AtPorts(o, g, p, h, e);
    var d := o.dn[e];
    Unfold(o, g, p, d);
    var s1 := ChainPath(o, g, p, h, 0);
    var s2 := ChainPath(o, g, p, d, 0);
    assert ([e] + s2)[1..] == s2;
    PathJoin(g, s1, [e] + s2, h, Last(p.chain[h]), d);
    s := s1 + ([e] + s2);
  }

  /** Growing chains changes nothing about who reaches whom: a host reaches exactly its original devices. */
  lemma ReachesOriginal(o: Graph, g: Graph, p: Plan, h: nat, d: nat)
    requires Grown(o, g, p) && h < |o.kind| && d < |o.kind| && o.kind[h] == HOST && o.kind[d] == DEVICE
    ensures Reaches(g, h, d) <==> exists e: nat :: e < |o.up| && o.up[e] == h && o.dn[e] == d
  {
    Unfold(o, g, p, h);
    Unfold(o, g, p, d);
    if Reaches(g, h, d) {
      var s :| Path(g, s, h, d);
      LeavesByPort(o, g, p, h, s, h, d);
      var e :| e in o.ds[h] && e < |o.dn| && o.dn[e] < |o.kind| && d in p.chain[o.dn[e]];
      Unfold(o, g, p, o.dn[e]);
      assert Lists(o.ds[h], o.up, h);
    }
    if e: nat :| e < |o.up| && o.up[e] == h && o.dn[e] == d {
      assert Lists(o.ds[h], o.up, h);
      var s := PortPath(o, g, p, h, e);
    }
  }
}
