/** Runs of a bottom-up merge, over things that have a key and a place in the original order. */
module StableRuns {

  /** Keys first, then original places: the order a stable sort must produce. */
  ghost predicate Before<T>(key: map<T, int>, pos: map<T, int>, a: T, b: T) {
    a in key && b in key && a in pos && b in pos && (key[a] < key[b] || (key[a] == key[b] && pos[a] < pos[b]))
  }

  ghost predicate AllBefore<T>(key: map<T, int>, pos: map<T, int>, a: seq<T>, b: seq<T>) {
    forall x, y :: x in a && y in b ==> Before(key, pos, x, y)
  }

  /** All of a came before all of b originally. */
  ghost predicate Earlier<T>(pos: map<T, int>, a: seq<T>, b: seq<T>) {
    forall x, y :: x in a && y in b ==> x in pos && y in pos && pos[x] < pos[y]
  }

  ghost predicate Sorted<T>(key: map<T, int>, pos: map<T, int>, s: seq<T>) {
    s != [] ==> (forall y :: y in s[1..] ==> Before(key, pos, s[0], y)) && Sorted(key, pos, s[1..])
  }

  ghost predicate Within<T>(s: seq<T>, touched: set<T>) {
    forall x :: x in s ==> x in touched
  }

  /** A sorted run; the members of a run of more than one have all been compared. */
  ghost predicate Run<T>(key: map<T, int>, pos: map<T, int>, touched: set<T>, s: seq<T>) {
    Sorted(key, pos, s) && (|s| <= 1 || Within(s, touched))
  }

  /** s is cut into runs of k elements, the last one possibly shorter, in original order. */
  ghost predicate Runs<T>(key: map<T, int>, pos: map<T, int>, touched: set<T>, s: seq<T>, k: nat)
    decreases |s|
  {
    if k == 0 || |s| <= k then Run(key, pos, touched, s)
    else Run(key, pos, touched, s[..k]) && Earlier(pos, s[..k], s[k..]) && Runs(key, pos, touched, s[k..], k)
  }

  /** The same with no shorter run at the end. */
  ghost predicate FullRuns<T>(key: map<T, int>, pos: map<T, int>, touched: set<T>, s: seq<T>, k: nat)
    decreases |s|
  {
    s == [] || (0 < k <= |s| && Run(key, pos, touched, s[..k]) && Earlier(pos, s[..k], s[k..]) && FullRuns(key, pos, touched, s[k..], k))
  }

  lemma {:induction false} SortedConcat<T>(key: map<T, int>, pos: map<T, int>, a: seq<T>, b: seq<T>)
    ensures Sorted(key, pos, a + b) <==> Sorted(key, pos, a) && Sorted(key, pos, b) && AllBefore(key, pos, a, b)
  {
    if a == [] {
      assert a + b == b;
    } else {
      assert (a + b)[0] == a[0] && (a + b)[1..] == a[1..] + b;
      assert a == [a[0]] + a[1..];
      SortedConcat(key, pos, a[1..], b);
    }
  }

  lemma {:induction false} RunsGrow<T>(key: map<T, int>, pos: map<T, int>, t: set<T>, t': set<T>, s: seq<T>, k: nat)
    requires Runs(key, pos, t, s, k) && t <= t'
    ensures Runs(key, pos, t', s, k)
    decreases |s|
  {
    if 0 < k < |s| { RunsGrow(key, pos, t, t', s[k..], k); }
  }

  lemma {:induction false} FullRunsGrow<T>(key: map<T, int>, pos: map<T, int>, t: set<T>, t': set<T>, s: seq<T>, k: nat)
    requires FullRuns(key, pos, t, s, k) && t <= t'
    ensures FullRuns(key, pos, t', s, k)
    decreases |s|
  {
    if s != [] { FullRunsGrow(key, pos, t, t', s[k..], k); }
  }

  /** The first run of s and the rest. */
  lemma FirstRun<T>(key: map<T, int>, pos: map<T, int>, t: set<T>, s: seq<T>, k: nat, p: seq<T>, u: seq<T>)
    requires Runs(key, pos, t, s, k) && k > 0 && s == p + u && |p| == if |s| < k then |s| else k
    ensures Run(key, pos, t, p) && Earlier(pos, p, u) && Runs(key, pos, t, u, k)
  {
    assert s[..|p|] == p && s[|p|..] == u;
    if |s| <= k { assert u == [] && p == s; }
  }

  lemma EarlierJoin<T>(pos: map<T, int>, p: seq<T>, q: seq<T>, r: seq<T>)
    requires Earlier(pos, p, q + r) && Earlier(pos, q, r)
    ensures Earlier(pos, p, q) && Earlier(pos, p + q, r)
  {
    assert forall x :: x in q ==> x in q + r;
    assert forall x :: x in r ==> x in q + r;
  }

  /** The first two runs of s and what is left. */
  lemma SplitRuns<T>(key: map<T, int>, pos: map<T, int>, t: set<T>, s: seq<T>, k: nat, p: seq<T>, q: seq<T>, r: seq<T>)
    requires Runs(key, pos, t, s, k) && k > 0 && s == p + (q + r)
    requires |p| == (if |s| < k then |s| else k) && |q| == if |q + r| < k then |q + r| else k
    ensures Run(key, pos, t, p) && Run(key, pos, t, q) && Runs(key, pos, t, r, k)
    ensures Earlier(pos, p, q) && Earlier(pos, p + q, r)
  {
    FirstRun(key, pos, t, s, k, p, q + r);
    FirstRun(key, pos, t, q + r, k, q, r);
    EarlierJoin(pos, p, q, r);
  }

  /** Appending a run behind full runs. */
  lemma {:induction false} AppendRun<T>(key: map<T, int>, pos: map<T, int>, t: set<T>, a: seq<T>, m: seq<T>, k: nat)
    requires FullRuns(key, pos, t, a, k) && Run(key, pos, t, m) && 0 < |m| <= k && Earlier(pos, a, m)
    ensures Runs(key, pos, t, a + m, k)
    ensures |m| == k ==> FullRuns(key, pos, t, a + m, k)
    decreases |a|
  {
    hide Run, Sorted;
    if a == [] {
      assert a + m == m;
      assert |m| == k ==> m[..k] == m && m[k..] == [];
    } else {
      var a1, a2 := a[..k], a[k..];
      assert (a + m)[..k] == a1 && (a + m)[k..] == a2 + m;
      EarlierParts(pos, a1, a2, m, a);
      AppendRun(key, pos, t, a2, m, k);
    }
  }

  lemma EarlierParts<T>(pos: map<T, int>, a1: seq<T>, a2: seq<T>, m: seq<T>, a: seq<T>)
    requires a == a1 + a2 && Earlier(pos, a, m) && Earlier(pos, a1, a2)
    ensures Earlier(pos, a2, m) && Earlier(pos, a1, a2 + m)
  {
    assert forall x :: x in a <==> x in a1 || x in a2;
  }

  // ---------------------------------------------------------------- merging two runs

  /** m is merged, p and q are to come; whatever could be compared with something has been. */
  ghost predicate Tame<T>(t: set<T>, m: seq<T>, p: seq<T>, q: seq<T>) {
    || (Within(m, t) && Within(p, t) && Within(q, t))
    || (m == [] && (|p| <= 1 || Within(p, t)) && (|q| <= 1 || Within(q, t)))
    || (q == [] && |m| + |p| <= 1)
  }

  ghost predicate Merging<T>(key: map<T, int>, pos: map<T, int>, t: set<T>, m: seq<T>, p: seq<T>, q: seq<T>) {
    && Sorted(key, pos, m) && Sorted(key, pos, p) && Sorted(key, pos, q)
    && AllBefore(key, pos, m, p) && AllBefore(key, pos, m, q) && Earlier(pos, p, q)
    && Tame(t, m, p, q)
  }

  lemma MergingStarts<T>(key: map<T, int>, pos: map<T, int>, t: set<T>, p: seq<T>, q: seq<T>)
    requires Run(key, pos, t, p) && Run(key, pos, t, q) && Earlier(pos, p, q)
    ensures Merging(key, pos, t, [], p, q)
  {}

  lemma MergingEnds<T>(key: map<T, int>, pos: map<T, int>, t: set<T>, m: seq<T>)
    requires Merging(key, pos, t, m, [], [])
    ensures Run(key, pos, t, m)
  {}

  lemma SortedSnoc<T>(key: map<T, int>, pos: map<T, int>, m: seq<T>, e: T)
    requires Sorted(key, pos, m) && AllBefore(key, pos, m, [e])
    ensures Sorted(key, pos, m + [e])
  {
    SortedConcat(key, pos, m, [e]);
  }

  /** The head of p is next: it is known not to come after the head of q. */
  ghost predicate LeadsP<T>(key: map<T, int>, t: set<T>, m: seq<T>, p: seq<T>, q: seq<T>) {
    p != [] && (q != [] ==> Within(p, t) && Within(q, t) && Within(m, t) && p[0] in key && q[0] in key && key[p[0]] <= key[q[0]])
  }

  /** The head of q is next. */
  ghost predicate LeadsQ<T>(key: map<T, int>, t: set<T>, m: seq<T>, p: seq<T>, q: seq<T>) {
    q != [] && Within(q, t) && Within(m, t) && (p != [] ==> Within(p, t) && p[0] in key && q[0] in key && key[p[0]] > key[q[0]])
  }

  lemma TakeP<T>(key: map<T, int>, pos: map<T, int>, t: set<T>, m: seq<T>, p: seq<T>, q: seq<T>)
    requires Merging(key, pos, t, m, p, q) && LeadsP(key, t, m, p, q)
    ensures Merging(key, pos, t, m + [p[0]], p[1..], q)
  {
    assert p[0] in p && p == [p[0]] + p[1..];
    SortedSnoc(key, pos, m, p[0]);
    if q != [] {
      assert q[0] in q && q == [q[0]] + q[1..];
      assert p[0] in pos && q[0] in pos;
      assert Before(key, pos, p[0], q[0]);
    }
  }

  lemma TakeQ<T>(key: map<T, int>, pos: map<T, int>, t: set<T>, m: seq<T>, p: seq<T>, q: seq<T>)
    requires Merging(key, pos, t, m, p, q) && LeadsQ(key, t, m, p, q)
    ensures Merging(key, pos, t, m + [q[0]], p, q[1..])
  {
    assert q[0] in q && q == [q[0]] + q[1..];
    SortedSnoc(key, pos, m, q[0]);
    if p != [] {
      assert p[0] in p && p == [p[0]] + p[1..];
      assert p[0] in pos && q[0] in pos;
      assert Before(key, pos, q[0], p[0]);
    }
  }

  /** Comparing the two heads leaves nothing uncompared. */
  lemma HeadsCompared<T>(key: map<T, int>, pos: map<T, int>, t: set<T>, m: seq<T>, p: seq<T>, q: seq<T>)
    requires Merging(key, pos, t, m, p, q) && p != [] && q != []
    ensures var t' := t + {p[0], q[0]};
      Merging(key, pos, t', m, p, q) && Within(m, t') && Within(p, t') && Within(q, t')
  {
    assert p == [p[0]] + p[1..] && q == [q[0]] + q[1..];
  }

  // ---------------------------------------------------------------- a pass

  /** A pass under way: out is merged into runs of 2k, rest is still in runs of k. */
  ghost predicate Passing<T>(key: map<T, int>, pos: map<T, int>, t: set<T>, out: seq<T>, rest: seq<T>, k: nat, nmerges: int) {
    ( && Runs(key, pos, t, out, 2 * k) && (rest != [] ==> FullRuns(key, pos, t, out, 2 * k))
      && Runs(key, pos, t, rest, k) && Earlier(pos, out, rest)
      && nmerges >= 0 && (nmerges == 0 ==> out == []) && (nmerges == 1 ==> Run(key, pos, t, out))
      && (nmerges > 0 ==> out != []) && (nmerges > 1 ==> |out| > 2 * k)
    ) == true  // kept whole in proofs
  }

  lemma SameMembers<T>(a: seq<T>, b: seq<T>)
    requires multiset(a) == multiset(b)
    ensures |a| == |b| && forall x :: x in a <==> x in b
  {
    forall x ensures x in a <==> x in b {
      assert x in a <==> x in multiset(a);
      assert x in b <==> x in multiset(b);
    }
    assert |a| == |multiset(a)| == |multiset(b)| == |b|;
  }

  lemma EarlierStep<T>(pos: map<T, int>, out: seq<T>, s: seq<T>, r: seq<T>, m: seq<T>)
    requires Earlier(pos, out, s + r) && Earlier(pos, s, r) && forall x :: x in m <==> x in s
    ensures Earlier(pos, out, m) && Earlier(pos, out + m, r)
  {
    assert forall x :: x in s + r <==> x in s || x in r;
    assert forall x :: x in out + m <==> x in out || x in m;
  }

  lemma FullRunsLong<T>(key: map<T, int>, pos: map<T, int>, t: set<T>, s: seq<T>, k: nat)
    requires FullRuns(key, pos, t, s, k) && s != []
    ensures |s| >= k
  {}

  /** What one merge of a pass does: the first two runs p, q of the rest become one run m behind out. */
  lemma PassStep<T>(key: map<T, int>, pos: map<T, int>, t0: set<T>, t: set<T>, out: seq<T>, k: nat, nmerges: int,
                    p: seq<T>, q: seq<T>, r: seq<T>, m: seq<T>)
    requires k > 0 && Passing(key, pos, t0, out, p + (q + r), k, nmerges) && p != [] && t0 <= t
    requires |p| == (if |p + (q + r)| < k then |p + (q + r)| else k) && |q| == if |q + r| < k then |q + r| else k
    requires multiset(m) == multiset(p) + multiset(q) && Run(key, pos, t, m)
    ensures Passing(key, pos, t, out + m, r, k, nmerges + 1)
  {
    var rest := p + (q + r);
    SplitRuns(key, pos, t0, rest, k, p, q, r);
    assert multiset(m) == multiset(p + q);
    SameMembers(m, p + q);
    RunsGrow(key, pos, t0, t, r, k);
    FullRunsGrow(key, pos, t0, t, out, 2 * k);
    assert rest == p + q + r;
    EarlierStep(pos, out, p + q, r, m);
    AppendRun(key, pos, t, out, m, 2 * k);
    if out == [] { assert out + m == m; }
    if nmerges > 0 { FullRunsLong(key, pos, t, out, 2 * k); }
  }

  /** Single elements in original order are runs of one. */
  lemma {:induction false} SingleRuns<T>(key: map<T, int>, pos: map<T, int>, t: set<T>, s: seq<T>)
    requires forall x :: x in s ==> x in key && x in pos
    requires forall i, j :: 0 <= i < j < |s| ==> pos[s[i]] < pos[s[j]]
    ensures Runs(key, pos, t, s, 1)
  {
    if |s| > 1 {
      var u := s[1..];
      assert s == [s[0]] + u;
      forall i, j | 0 <= i < j < |u| ensures pos[u[i]] < pos[u[j]] { assert u[i] == s[i+1] && u[j] == s[j+1]; }
      forall y | y in u ensures pos[s[0]] < pos[y] {
        var j :| 0 <= j < |u| && u[j] == y;
        assert y == s[j+1];
      }
      SingleRuns(key, pos, t, u);
    }
  }

  lemma {:induction false} SortedAt<T>(key: map<T, int>, pos: map<T, int>, s: seq<T>, i: nat, j: nat)
    requires Sorted(key, pos, s) && i < j < |s|
    ensures Before(key, pos, s[i], s[j])
  {
    assert s[j] == s[1..][j-1];
    if i > 0 {
      assert s[i] == s[1..][i-1];
      SortedAt(key, pos, s[1..], i - 1, j - 1);
    }
  }

  ghost predicate Increasing<T>(key: map<T, int>, s: seq<T>) {
    (forall x :: x in s ==> x in key) && forall i, j :: 0 <= i < j < |s| ==> key[s[i]] < key[s[j]]
  }

  /** Strictly increasing keys leave one way to arrange the same things. */
  lemma {:induction false} OneArrangement<T>(key: map<T, int>, a: seq<T>, b: seq<T>)
    requires Increasing(key, a) && Increasing(key, b) && multiset(a) == multiset(b)
    ensures a == b
  {
    SameMembers(a, b);
    if a != [] {
      LeastFirst(key, a, b);
      assert a == [a[0]] + a[1..] && b == [b[0]] + b[1..];
      assert multiset(a[1..]) == multiset(a) - multiset{a[0]} == multiset(b[1..]);
      IncreasingTail(key, a);
      IncreasingTail(key, b);
      OneArrangement(key, a[1..], b[1..]);
    }
  }

  lemma LeastFirst<T>(key: map<T, int>, a: seq<T>, b: seq<T>)
    requires Increasing(key, a) && Increasing(key, b) && a != [] && |a| == |b| && forall x :: x in a <==> x in b
    ensures a[0] == b[0]
  {
    assert a[0] in a && b[0] in b;
    var i :| 0 <= i < |b| && b[i] == a[0];
    var j :| 0 <= j < |a| && a[j] == b[0];
  }

  lemma IncreasingTail<T>(key: map<T, int>, a: seq<T>)
    requires Increasing(key, a) && a != []
    ensures Increasing(key, a[1..])
  {
    var u := a[1..];
    forall i, j | 0 <= i < j < |u| ensures key[u[i]] < key[u[j]] { assert u[i] == a[i+1] && u[j] == a[j+1]; }
  }
}
