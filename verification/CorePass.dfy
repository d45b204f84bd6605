/** core_bench_list as a whole: rounds of searching, a sort by value, a removal and its undoing, a sort by index, and the result. */
module CorePass {
  import opened StableRuns
  import opened CoreList
  import opened CoreBench
  import CoreCrc

  // ---------------------------------------------------------------- the rounds

  /** The next index to look for: an ee_s16 that is counted up while it is not negative. */
  function NextIndex(idx: int): int {
    if idx < 0 then idx else if idx + 1 == 0x8000 then -0x8000 else idx + 1
  }

  /** The index looked for in round n. */
  function IndexAfter(idx: int, n: nat): int {
    if n == 0 then idx else NextIndex(IndexAfter(idx, n - 1))
  }

  lemma {:induction false} IndexAfterIs(idx: int, n: nat)
    requires idx < 0x8000
    ensures IndexAfter(idx, n) == if idx < 0 then idx else if idx + n < 0x8000 then idx + n else -0x8000
  {
    if n > 0 { IndexAfterIs(idx, n - 1); }
  }

  /** The order after a round that found cell k: all is turned round, and the cell before the found one is second. */
  ghost function Turned(s: seq<ListHead>, k: nat): seq<ListHead> {
    if 0 < k < |s| then Reversed(s[..k-1] + s[k..|s|-1] + [s[k-1], s[|s|-1]]) else Reversed(s)
  }

  lemma {:induction false} ReversedConcat(a: seq<ListHead>, b: seq<ListHead>)
    ensures Reversed(a + b) == Reversed(b) + Reversed(a)
  {
    if a == [] {
      assert a + b == b;
    } else {
      assert (a + b)[1..] == a[1..] + b;
      ReversedConcat(a[1..], b);
    }
  }

  /** That is the reversed list with the cell behind the found one moved to second place. */
  lemma TurnedIs(s: seq<ListHead>, k: nat)
    requires 0 < k < |s|
    ensures |Reversed(s)| == |s| && Cached1(Reversed(s), |s| - 1 - k) == Turned(s, k)
  {
    hide Reversed, Cached1;
    var A, p, B, e := s[..k-1], [s[k-1]], s[k..|s|-1], [s[|s|-1]];
    assert s == A + (p + (B + e));
    assert A + B + [s[k-1], s[|s|-1]] == A + (B + (p + e)) by { assert [s[k-1], s[|s|-1]] == p + e; }
    TurnedParts(A, p, B, e);
    ReversedMembers(s);
  }

  lemma TurnedParts(A: seq<ListHead>, p: seq<ListHead>, B: seq<ListHead>, e: seq<ListHead>)
    requires |p| == |e| == 1
    ensures var r := Reversed(A + (p + (B + e)));
      |B| + 1 < |r| && Cached1(r, |B|) == Reversed(A + (B + (p + e)))
  {
    hide Reversed;
    ReversedFour(A, p, B, e);
    ReversedFour(A, B, p, e);
    ReversedOne(p[0]);
    ReversedOne(e[0]);
    assert p == [p[0]] && e == [e[0]];
    ReversedMembers(B);
    Moved(e, Reversed(B), p, Reversed(A));
  }

  lemma ReversedOne(x: ListHead)
    ensures Reversed([x]) == [x]
  {}

  lemma ReversedFour(a: seq<ListHead>, b: seq<ListHead>, c: seq<ListHead>, d: seq<ListHead>)
    ensures Reversed(a + (b + (c + d))) == Reversed(d) + Reversed(c) + Reversed(b) + Reversed(a)
  {
    ReversedConcat(a, b + (c + d));
    ReversedConcat(b, c + d);
    ReversedConcat(c, d);
  }

  lemma Moved(e: seq<ListHead>, b: seq<ListHead>, p: seq<ListHead>, a: seq<ListHead>)
    requires |e| == |p| == 1
    ensures Cached1(e + b + p + a, |b|) == e + p + b + a
  {
    var r := e + b + p + a;
    assert r[0] == e[0] && r[|b| + 1] == p[0] && r[1..|b| + 1] == b && r[|b| + 2..] == a;
    assert [e[0], p[0]] == e + p;
  }

  lemma TurnedMembers(s: seq<ListHead>, k: nat)
    requires Distinct(s)
    ensures multiset(Turned(s, k)) == multiset(s) && Distinct(Turned(s, k)) && |Turned(s, k)| == |s|
  {
    ReversedMembers(s);
    ReversedDistinct(s);
    if 0 < k < |s| {
      TurnedIs(s, k);
      Cached1Members(Reversed(s), |s| - 1 - k);
    }
  }

  ghost predicate In(E: map<ListHead, Entry>, s: seq<ListHead>) { forall n :: n in s ==> n in E }

  /** The order after a round. */
  ghost function Round(E: map<ListHead, Entry>, s: seq<ListHead>, idx: int, data16: int): (u: seq<ListHead>)
    requires Distinct(s) && In(E, s)
    ensures multiset(u) == multiset(s) && Distinct(u) && |u| == |s| && In(E, u)
  {
    var k := FirstMatch(idx, data16, Entries(E, s));
    TurnedStays(E, s, k);
    Turned(s, k)
  }

  lemma TurnedStays(E: map<ListHead, Entry>, s: seq<ListHead>, k: nat)
    requires Distinct(s) && In(E, s)
    ensures var u := Turned(s, k); multiset(u) == multiset(s) && Distinct(u) && |u| == |s| && In(E, u)
  {
    hide Turned, Distinct;
    TurnedMembers(s, k);
    var u := Turned(s, k);
    forall n | n in u ensures n in E { assert n in multiset(u) && n in multiset(s); }
  }

  /** The order after n rounds: each looks for the next index, or else for the number of the round. */
  ghost function Rounds(E: map<ListHead, Entry>, s: seq<ListHead>, idx: int, n: nat): (u: seq<ListHead>)
    requires Distinct(s) && In(E, s)
    ensures multiset(u) == multiset(s) && Distinct(u) && |u| == |s| && In(E, u)
  {
    if n == 0 then s
    else Round(E, Rounds(E, s, idx, n - 1), IndexAfter(idx, n - 1), (n - 1) % 256)
  }

  /** What a round that found entry k adds to the result: 4, and bit 9 of an odd value; or 1 less than bit 8 of the entry that
      comes second. */
  function RoundScore(es: seq<Entry>, k: nat): int {
    if k < |es| then 4 + if es[k].word % 2 == 1 then es[k].word / 512 % 2 else 0
    else if |es| < 2 then 0
    else es[|es|-2].word / 256 % 2 - 1
  }

  /** What n rounds add. */
  ghost function Score(E: map<ListHead, Entry>, s: seq<ListHead>, idx: int, n: nat): int
    requires Distinct(s) && In(E, s)
  {
    if n == 0 then 0
    else
      var es := Entries(E, Rounds(E, s, idx, n - 1));
      Score(E, s, idx, n - 1) + RoundScore(es, FirstMatch(IndexAfter(idx, n - 1), (n - 1) % 256, es))
  }

  lemma RoundsNext(E: map<ListHead, Entry>, s: seq<ListHead>, idx: int, n: nat)
    requires Distinct(s) && In(E, s)
    ensures Rounds(E, s, idx, 0) == s && Score(E, s, idx, 0) == 0
    ensures var t := Rounds(E, s, idx, n);
      var k := FirstMatch(IndexAfter(idx, n), n % 256, Entries(E, t));
      Rounds(E, s, idx, n + 1) == Turned(t, k) && Score(E, s, idx, n + 1) == Score(E, s, idx, n) + RoundScore(Entries(E, t), k)
  {}

  /** One round: find a value, reverse the list, and cache the cell behind the found one. */
  method FindRound(list0: ListHead, idx: int, data16: int, ghost E: map<ListHead, Entry>, ghost s: seq<ListHead>)
      returns (list: ListHead, hit: bool, bit: nat, ghost u: seq<ListHead>)
    requires IsList(list0, s) && Distinct(s) && |s| > 1 && Hold(E, s)
    modifies (set n | n in s)`next
    ensures var k := FirstMatch(idx, data16, Entries(E, s));
      u == Turned(s, k) && RoundScore(Entries(E, s), k) == if hit then 4 + bit else bit - 1
    ensures IsList(list, u) && Hold(E, s)
  {
    hide Reversed, Distinct, FirstMatch, Cached1, Matches, Entries, Chain, Turned;
    var thisFind; ghost var k;
    thisFind, k := Find(list0, idx, data16, E, s);
    ReversedMembers(s);
    list := Reverse(list0, s);
    u := Reversed(s);
    AfterReversal(s, k);
    hit := thisFind != null;
    if thisFind == null {
      bit := list.next.info.data16 / 256 % 2;
    } else {
      bit := if thisFind.info.data16 % 2 == 1 then thisFind.info.data16 / 512 % 2 else 0;
      if thisFind.next != null {
        CacheNext(thisFind, list, u, |s| - 1 - k);
        u := Cached1(u, |s| - 1 - k);
      }
    }
  }

  /** The reversed list: its first cells, the found one and the one behind it. */
  lemma AfterReversal(s: seq<ListHead>, k: nat)
    requires Distinct(s) && |s| > 1 && Chain(Reversed(s), null) && k <= |s|
    ensures var u := Reversed(s);
      && |u| == |s| && Distinct(u) && u[0] == s[|s| - 1] && u[0].next == s[|s| - 2]
      && (k < |s| ==> u[|s| - 1 - k] == s[k] && s[k].next == if k > 0 then s[k - 1] else null)
      && Turned(s, k) == if 0 < k < |s| then Cached1(u, |s| - 1 - k) else u
    ensures forall n :: n in Reversed(s) <==> n in s
  {
    hide Reversed, Distinct, Cached1;
    var u := Reversed(s);
    ReversedMembers(s);
    ReversedDistinct(s);
    SameMembers(u, s);
    ChainIsChainAt(u);
    ReversedAt(s, |s| - 1);
    ReversedAt(s, |s| - 2);
    if k < |s| { ReversedAt(s, k); }
    if 0 < k < |s| {
      ReversedAt(s, k - 1);
      TurnedIs(s, k);
    }
  }

  /** The value of an ee_u16. */
  function U16(v: int): Word { v % 0x1_0000 }

  lemma U16Period(v: int, q: int)
    ensures U16(v + q * 0x1_0000) == U16(v)
  {}

  lemma U16Adds(x: int, y: int)
    ensures U16(U16(x) + y) == U16(x + y) && U16(y - U16(x)) == U16(y - x) && U16(4 * U16(x) + y) == U16(4 * x + y)
  {
    hide U16;
    var q := U16Quotient(x);
    U16Period(x + y, -q);
    U16Period(y - x, q);
    U16Period(4 * x + y, -4 * q);
  }

  lemma U16Quotient(x: int) returns (q: int)
    ensures U16(x) == x - q * 0x1_0000
  {
    q := x / 0x1_0000;
  }

  /** One round more in the counters, each of 16 bits. */
  lemma Counted(retval: Word, found: Word, missed: Word, hit: bool, bit: nat, score: int, next: int)
    requires U16(retval + 4 * found - missed) == U16(score) && next == score + if hit then 4 + bit else bit - 1
    ensures var f, m := if hit then U16(found + 1) else found, if hit then missed else U16(missed + 1);
      U16(U16(retval + bit) + 4 * f - m) == U16(next)
  {
    hide U16;
    var f, m := if hit then U16(found + 1) else found, if hit then missed else U16(missed + 1);
    U16Adds(retval + bit, 4 * f - m);
    if hit { U16Adds(found + 1, retval + bit - m); } else { U16Adds(missed + 1, retval + bit + 4 * f); }
    U16Adds(retval + 4 * found - missed, next - score);
    U16Adds(score, next - score);
  }

  /** The rounds one after the other, with the next index and value each time, and what they add to the result. */
  method FindPhase(list0: ListHead, finderIdx: int, findNum: int, ghost E: map<ListHead, Entry>, ghost s: seq<ListHead>)
      returns (list: ListHead, idx: int, data16: int, retval: Word, ghost u: seq<ListHead>)
    requires IsList(list0, s) && Distinct(s) && |s| > 1 && Hold(E, s)
    modifies (set n | n in s)`next
    ensures var n := Times(findNum);
      && u == Rounds(E, s, finderIdx, n) && idx == IndexAfter(finderIdx, n) && data16 == LastValue(n)
      && retval == U16(Score(E, s, finderIdx, n))
    ensures IsList(list, u) && Hold(E, s)
  {
    hide Rounds, Score, RoundScore, NextIndex, Turned, FirstMatch, Distinct, IsList, U16, Entries;
    list, idx, data16, u := list0, finderIdx, 0, s;
    RoundsNext(E, s, finderIdx, 0);
    var found: Word, missed: Word := 0, 0;
    retval := 0;
    var i := 0;
    while i < findNum
      invariant 0 <= i <= Times(findNum) && IsList(list, u) && u == Rounds(E, s, finderIdx, i) && Hold(E, s)
      invariant idx == IndexAfter(finderIdx, i) && data16 == LastValue(i)
      invariant U16(retval + 4 * found - missed) == U16(Score(E, s, finderIdx, i))
    {
      SameItems(u, s);
      data16 := i % 256;
      var hit, bit;
      list, hit, bit, u := FindRound(list, idx, data16, E, u);
      RoundsNext(E, s, finderIdx, i);
      Counted(retval, found, missed, hit, bit, Score(E, s, finderIdx, i), Score(E, s, finderIdx, i + 1));
      if hit {
        found := U16(found + 1);
      } else {
        missed := U16(missed + 1);
      }
      retval := U16(retval + bit);
      idx := NextIndex(idx);
      i := i + 1;
    }
    retval := U16(retval + 4 * found - missed);
  }

  function Times(findNum: int): nat { if findNum > 0 then findNum else 0 }

  /** The value looked for last. */
  function LastValue(n: nat): nat { if n > 0 then (n - 1) % 256 else 0 }

  // ---------------------------------------------------------------- the CRCs

  /** crc16 of one word. */
  function Crc(newval: Word, crc: Word): Word { CoreCrc.Crc16(newval as bv16, crc as bv16) as nat }

  method Crc16(newval: Word, crc0: Word) returns (crc: Word)
    ensures crc == Crc(newval, crc0)
  {
    var c := CoreCrc.CrcU16(newval as bv16, crc0 as bv16);
    crc := c as nat;
  }

  /** The same word n times. */
  function Repeated(w: Word, n: nat, crc: Word): Word {
    if n == 0 then crc else Crc(w, Repeated(w, n - 1, crc))
  }

  /** The CRC loops: once for each cell from finder on, and each time of the first cell's data. */
  method HeadCrc(finder0: ListHead?, list: ListHead, crc0: Word, ghost t: seq<ListHead>) returns (crc: Word)
    requires IsList(finder0, t)
    ensures crc == Repeated(list.info.data16, |t|, crc0)
  {
    hide Crc;
    crc := crc0;
    var finder := finder0;
    ghost var k := 0;
    while finder != null
      invariant k <= |t| && IsList(finder, t[k..]) && crc == Repeated(list.info.data16, k, crc0)
      decreases |t| - k
    {
      assert t[k..][1..] == t[k+1..];
      crc := Crc16(list.info.data16, crc);
      finder := finder.next;
      k := k + 1;
    }
  }

  /** With the second entry removed: the CRC over the entries from the first match on, or from the second on. */
  function RemovedCrc(es: seq<Entry>, idx: int, data16: int, crc: Word): Word
    requires |es| > 2
  {
    var rest := [es[0]] + es[2..];
    var k := FirstMatch(idx, data16, rest);
    Repeated(es[0].word, if k < |rest| then |rest| - k else |rest| - 1, crc)
  }

  /** After the removal the second cell has the third one's item. */
  lemma RestEntries(E: map<ListHead, Entry>, F: map<ListHead, Entry>, s: seq<ListHead>)
    requires |s| > 2 && Distinct(s) && In(E, s) && F == E[s[1] := E[s[2]]]
    ensures In(F, [s[0], s[1]] + s[3..]) && Entries(F, [s[0], s[1]] + s[3..]) == [Entries(E, s)[0]] + Entries(E, s)[2..]
  {
    var r, q := [s[0], s[1]] + s[3..], [Entries(E, s)[0]] + Entries(E, s)[2..];
    forall i | 0 <= i < |r| ensures r[i] in F && F[r[i]] == q[i] {
      if i > 1 { assert r[i] == s[i + 1] && q[i] == E[s[i + 1]]; }
    }
    assert In(F, r);
    assert Entries(F, r) == q;
  }

  lemma RemovedCrcIs(es: seq<Entry>, idx: int, data16: int, crc: Word, k: nat)
    requires |es| > 2 && k == FirstMatch(idx, data16, [es[0]] + es[2..])
    ensures RemovedCrc(es, idx, data16, crc) == Repeated(es[0].word, if k < |es| - 1 then |es| - 1 - k else |es| - 2, crc)
  {
    hide Repeated, FirstMatch;
  }

  lemma FirstThree(s: seq<ListHead>)
    requires |s| > 2 && Distinct(s)
    ensures s[0] != s[1] && s[0] != s[2] && s[1] != s[2]
  {}

  /** Remove one cell, look for a value, take the CRC from there on, and undo the removal. */
  method RemoveAndUndo(list: ListHead, idx: int, data16: int, crc0: Word, ghost E: map<ListHead, Entry>, ghost s: seq<ListHead>)
      returns (crc: Word)
    requires IsList(list, s) && Distinct(s) && |s| > 2 && Hold(E, s)
    modifies (set n | n in s)`next, (set n | n in s)`info
    ensures IsList(list, s) && Hold(E, s) && forall n :: n in s ==> n.info == old(n.info)
    ensures crc == RemovedCrc(Entries(E, s), idx, data16, crc0)
  {
    hide Repeated, RemovedCrc, FirstMatch, Entries, Distinct, Chain;
    FirstLinks(s);
    FirstThree(s);
    ghost var es := Entries(E, s);
    var remover := Remove(list.next, s);
    ghost var rest, F := [s[0], s[1]] + s[3..], E[s[1] := E[s[2]]];
    RestEntries(E, F, s);
    RestHolds(E, F, s);
    FirstLinks(rest);
    var finder; ghost var k;
    finder, k := Find(list, idx, data16, F, rest);
    RemovedCrcIs(es, idx, data16, crc0, k);
    if finder == null {
      finder := list.next;
      k := 1;
    }
    ChainSuffix(rest, k);
    crc := HeadCrc(finder, list, crc0, rest[k..]);
    remover := UndoRemove(remover, list.next, s);
  }

  lemma RestHolds(E: map<ListHead, Entry>, F: map<ListHead, Entry>, s: seq<ListHead>)
    requires |s| > 2 && Distinct(s) && In(E, s) && F == E[s[1] := E[s[2]]]
    requires E[s[2]] == Entry(s[1].info, s[1].info.idx, s[1].info.data16)
    requires forall n :: n in s && n != s[1] && n != s[2] ==> E[n] == Entry(n.info, n.info.idx, n.info.data16)
    ensures Hold(F, [s[0], s[1]] + s[3..])
  {
    var r := [s[0], s[1]] + s[3..];
    forall n | n in r ensures n in F && F[n] == Entry(n.info, n.info.idx, n.info.data16) {
      var i :| 0 <= i < |r| && r[i] == n;
      assert n == if i < 2 then s[i] else s[i + 1];
    }
  }

  lemma FirstLinks(s: seq<ListHead>)
    requires Chain(s, null) && |s| > 1
    ensures s[0].next == s[1]
  {}

  lemma {:induction false} ChainSuffix(s: seq<ListHead>, k: nat)
    requires Chain(s, null) && k <= |s|
    ensures Chain(s[k..], null)
  {
    if k > 0 {
      ChainSuffix(s[1..], k - 1);
      assert s[1..][k-1..] == s[k..];
    } else {
      assert s[k..] == s;
    }
  }

  // ---------------------------------------------------------------- the sorts

  /** The cells of u by increasing key, and in the order of u where keys are equal. */
  ghost predicate StablySorted(key: map<ListHead, int>, u: seq<ListHead>, v: seq<ListHead>) {
    && multiset(v) == multiset(u) && (forall n :: n in v ==> n in key)
    && forall i, j :: 0 <= i < j < |v| ==>
         v[i] in key && v[j] in key && (key[v[i]] < key[v[j]] || (key[v[i]] == key[v[j]] && Place(u, v[i]) < Place(u, v[j])))
  }

  ghost function Values(E: map<ListHead, Entry>, kernel: Kernel): map<ListHead, int> {
    map n | n in E :: Value(kernel, E[n].item, E[n].word) as int
  }

  ghost function Indices(E: map<ListHead, Entry>): map<ListHead, int> { map n | n in E :: E[n].idx }

  /** The entries once their values have been computed and cached. */
  ghost function Settled(E: map<ListHead, Entry>, kernel: Kernel): (F: map<ListHead, Entry>)
    ensures F.Keys == E.Keys
  {
    map n | n in E :: E[n].(word := 256 * Backup(E[n].word) + 128 + Value(kernel, E[n].item, E[n].word))
  }

  ghost function Restored(E: map<ListHead, Entry>): map<ListHead, Entry> {
    map n | n in E :: E[n].(word := 256 * Backup(E[n].word) + Backup(E[n].word))
  }

  lemma {:induction false} PlaceBelow(u: seq<ListHead>, x: ListHead)
    requires x in u
    ensures Place(u, x) < |u|
  {
    if u[0] != x { PlaceBelow(u[1..], x); }
  }

  /** There is only one such order. */
  lemma OneOrder(key: map<ListHead, int>, u: seq<ListHead>, a: seq<ListHead>, b: seq<ListHead>)
    requires StablySorted(key, u, a) && StablySorted(key, u, b)
    ensures a == b
  {
    SameMembers(a, u);
    SameMembers(b, u);
    var rank := map n | n in u && n in key :: Rank(key[n], Place(u, n), |u|);
    RanksIncrease(key, rank, u, a);
    RanksIncrease(key, rank, u, b);
    OneArrangement(rank, a, b);
  }

  function Rank(k: int, place: int, size: int): int { k * size + place }

  lemma RanksIncrease(key: map<ListHead, int>, rank: map<ListHead, int>, u: seq<ListHead>, a: seq<ListHead>)
    requires StablySorted(key, u, a) && forall n :: n in u && n in key ==> n in rank && rank[n] == Rank(key[n], Place(u, n), |u|)
    ensures Increasing(rank, a)
  {
    SameMembers(a, u);
    forall i, j | 0 <= i < j < |a| ensures a[i] in rank && a[j] in rank && rank[a[i]] < rank[a[j]] {
      assert a[i] in u && a[j] in u;
      PlaceBelow(u, a[i]);
      RankLess(key[a[i]], key[a[j]], Place(u, a[i]), Place(u, a[j]), |u|);
    }
  }

  lemma RankLess(k: int, l: int, p: int, q: int, size: int)
    requires 0 <= p < size && 0 <= q && (k < l || (k == l && p < q))
    ensures Rank(k, p, size) < Rank(l, q, size)
  {
    if k < l { assert (l - k - 1) * size >= 0; assert l * size == k * size + size + (l - k - 1) * size; }
  }

  /** Cells of a list with different indices, in the order of the indices, can be sorted in no other way. */
  lemma StrictIsStable(key: map<ListHead, int>, v: seq<ListHead>, s: seq<ListHead>)
    requires multiset(s) == multiset(v)
    requires (forall n :: n in s ==> n in key) && forall i, j :: 0 <= i < j < |s| ==> key[s[i]] < key[s[j]]
    ensures StablySorted(key, v, s)
  {}

  lemma SortedSo(cmp: Cmp, kernel: Kernel, key: map<ListHead, int>, u: seq<ListHead>, v: seq<ListHead>)
    requires multiset(v) == multiset(u) && forall n :: n in u ==> n in key && key[n] == Key(cmp, kernel, n.info)
    requires forall i, j :: 0 <= i < j < |v| ==> InOrder(cmp, kernel, u, v[i], v[j])
    ensures StablySorted(key, u, v)
  {
    SameMembers(v, u);
    forall i, j | 0 <= i < j < |v|
      ensures v[i] in key && v[j] in key && (key[v[i]] < key[v[j]] || (key[v[i]] == key[v[j]] && Place(u, v[i]) < Place(u, v[j])))
    {
      assert v[i] in v && v[j] in v && InOrder(cmp, kernel, u, v[i], v[j]);
    }
  }

  /** The sort by value: every item's value is computed and cached. */
  method SortByValue(list0: ListHead, kernel: Kernel, ghost E: map<ListHead, Entry>, ghost u: seq<ListHead>)
      returns (list: ListHead, ghost v: seq<ListHead>)
    requires IsList(list0, u) && |u| > 2 && Distinct(u) && Hold(E, u)
    modifies (set n | n in u)`next, (set n | n in u :: n.info)`data16
    ensures IsList(list, v) && StablySorted(Values(E, kernel), u, v) && Hold(Settled(E, kernel), u)
  {
    hide Distinct, StablySorted, Settled, Cached, Value, Backup;
    Keys(E, kernel, u);
    list, v := Mergesort(list0, CmpComplex, kernel, u);
    SortedSo(CmpComplex, kernel, Values(E, kernel), u, v);
    SettledNow(E, kernel, u);
  }

  /** What the items are compared by. */
  lemma Keys(E: map<ListHead, Entry>, kernel: Kernel, u: seq<ListHead>)
    requires Hold(E, u)
    ensures forall n :: n in u ==> Key(CmpComplex, kernel, n.info) == Value(kernel, E[n].item, E[n].word) && Key(CmpIdx, kernel, n.info) == E[n].idx
  {}

  /** The item is the one of the entry, with its backup byte. */
  ghost predicate Same(E: map<ListHead, Entry>, n: ListHead)
    reads n, n.info
  {
    n in E && n.info == E[n].item && n.info.idx == E[n].idx && Backup(n.info.data16) == Backup(E[n].word)
  }

  lemma SettledNow(E: map<ListHead, Entry>, kernel: Kernel, u: seq<ListHead>)
    requires forall n :: n in u ==> Same(E, n) && Done(CmpComplex, n.info) && Key(CmpComplex, kernel, n.info) == Value(kernel, E[n].item, E[n].word)
    ensures Hold(Settled(E, kernel), u)
  {
    forall n | n in u ensures n.info.data16 == 256 * Backup(E[n].word) + 128 + Value(kernel, E[n].item, E[n].word) {
      var w := n.info.data16;
      assert w % 128 == Value(kernel, E[n].item, E[n].word) && w / 128 % 2 == 1;
    }
  }

  /** The sort by index: every low byte becomes its backup. */
  method SortByIndex(list0: ListHead, kernel: Kernel, ghost E: map<ListHead, Entry>, ghost v: seq<ListHead>)
      returns (list: ListHead, ghost out: seq<ListHead>)
    requires IsList(list0, v) && |v| > 2 && Distinct(v) && Hold(E, v)
    modifies (set n | n in v)`next, (set n | n in v :: n.info)`data16
    ensures IsList(list, out) && StablySorted(Indices(E), v, out) && Hold(Restored(E), v)
  {
    hide Distinct, StablySorted, Restored, Backup;
    Keys(E, kernel, v);
    list, out := Mergesort(list0, CmpIdx, kernel, v);
    SortedSo(CmpIdx, kernel, Indices(E), v, out);
    RestoredNow(E, v);
  }

  lemma RestoredNow(E: map<ListHead, Entry>, v: seq<ListHead>)
    requires forall n :: n in v ==> Same(E, n) && Done(CmpIdx, n.info)
    ensures Hold(Restored(E), v)
  {}

  /** If the index looked for at first was positive, the sort by value, otherwise order and data stay; then the removal. */
  method SortAndRemove(list0: ListHead, finderIdx: int, idx: int, data16: int, crc0: Word, kernel: Kernel,
                       ghost E: map<ListHead, Entry>, ghost u: seq<ListHead>)
      returns (list: ListHead, crc: Word, ghost F: map<ListHead, Entry>, ghost v: seq<ListHead>)
    requires IsList(list0, u) && |u| > 2 && Distinct(u) && Hold(E, u)
    modifies (set n | n in u)`next, (set n | n in u)`info, (set n | n in u :: n.info)`data16
    ensures if finderIdx > 0 then F == Settled(E, kernel) && StablySorted(Values(E, kernel), u, v) else F == E && v == u
    ensures multiset(v) == multiset(u) && |v| == |u| && Distinct(v) && In(F, v)
    ensures IsList(list, v) && Hold(F, v) && forall n :: n in u ==> n.info == old(n.info)
    ensures crc == RemovedCrc(Entries(F, v), idx, data16, crc0)
  {
    hide StablySorted, RemovedCrc, Settled, Values, Chain, Entries, Distinct;
    list, v, F := list0, u, E;
    if finderIdx > 0 {
      list, v := SortByValue(list, kernel, E, u);
      F := Settled(E, kernel);
      SortedCells(Values(E, kernel), E, u, v);
    }
    SameCells(F, v, u);
    crc := RemoveAndUndo(list, idx, data16, crc0, F, v);
  }

  /** The sort by index, and the last CRC. */
  method SortBack(list0: ListHead, crc0: Word, kernel: Kernel, ghost E: map<ListHead, Entry>, ghost v: seq<ListHead>)
      returns (list: ListHead, crc: Word, ghost out: seq<ListHead>)
    requires IsList(list0, v) && |v| > 2 && Distinct(v) && Hold(E, v)
    modifies (set n | n in v)`next, (set n | n in v :: n.info)`data16
    ensures IsList(list, out) && StablySorted(Indices(E), v, out) && Hold(Restored(E), v)
    ensures |out| == |v| && In(E, out) && out[0] in Restored(E) && crc == Repeated(Restored(E)[out[0]].word, |v| - 1, crc0)
  {
    hide StablySorted, Repeated, Restored, Indices, Chain, Distinct;
    list, out := SortByIndex(list0, kernel, E, v);
    SortedCells(Indices(E), E, v, out);
    SameCells(E, out, v);
    SameCells(Restored(E), out, v);
    FirstLinks(out);
    ChainSuffix(out, 1);
    crc := HeadCrc(list.next, list, crc0, out[1..]);
  }

  // ---------------------------------------------------------------- the pass

  /** What a pass over the list s with entries E leads to: v is the order after the sort by value, out the one at the end. */
  ghost predicate Passed(E: map<ListHead, Entry>, s: seq<ListHead>, finderIdx: int, n: nat, kernel: Kernel,
                         v: seq<ListHead>, out: seq<ListHead>, retval: Word)
    requires Distinct(s) && In(E, s) && |s| > 2
  {
    var u := Rounds(E, s, finderIdx, n);
    var F := if finderIdx > 0 then Settled(E, kernel) else E;
    && (if finderIdx > 0 then StablySorted(Values(E, kernel), u, v) else v == u)
    && StablySorted(Indices(E), v, out) && |out| == |v| == |s| && In(E, v) && In(E, out)
    && retval == Repeated(Restored(E)[out[0]].word, |s| - 1,
                   RemovedCrc(Entries(F, v), IndexAfter(finderIdx, n), LastValue(n), U16(Score(E, s, finderIdx, n))))
  }

  /** core_bench_list, with what the kernels answer left open. The result is what the rounds add, and two CRCs on top of it.
      The list ends by increasing index, equal indices in the order of v, and every low byte is its backup: so it is the list
      of the start exactly if that order is the one of the start, which it is if all indices differ. */
  method BenchList(list0: ListHead, finderIdx: int, findNum: int, kernel: Kernel, ghost E: map<ListHead, Entry>,
                   ghost s: seq<ListHead>)
      returns (list: ListHead, retval: Word, ghost v: seq<ListHead>, ghost out: seq<ListHead>)
    requires IsList(list0, s) && |s| > 2 && Distinct(s) && Hold(E, s)
    modifies s, (set n | n in s :: n.info)`data16
    ensures Passed(E, s, finderIdx, Times(findNum), kernel, v, out, retval)
    ensures IsList(list, out) && Hold(Restored(E), s)
    ensures out == s <==> StablySorted(Indices(E), v, s)
    ensures (forall i, j :: 0 <= i < j < |s| ==> E[s[i]].idx < E[s[j]].idx) ==> out == s && list == list0
  {
    hide Rounds, Score, StablySorted, RemovedCrc, Repeated, Settled, Restored, Indices, Values, Chain, Entries, Distinct, U16, Passed;
    var idx, data16; ghost var u, F;
    list, idx, data16, retval, u := FindPhase(list0, finderIdx, findNum, E, s);
    ghost var r1 := retval;
    SameCells(E, u, s);
    list, retval, F, v := SortAndRemove(list, finderIdx, idx, data16, retval, kernel, E, u);
    ghost var r2 := retval;
    SameCells(E, v, s);
    SettledStays(E, kernel);
    list, retval, out := SortBack(list, retval, kernel, F, v);
    SameCells(Restored(E), v, s);
    PassEnds(E, s, finderIdx, Times(findNum), kernel, F, u, v, out, Restored(E)[out[0]].word, r1, r2, retval);
  }

  lemma SameCells(E: map<ListHead, Entry>, u: seq<ListHead>, s: seq<ListHead>)
    requires multiset(u) == multiset(s) && In(E, s)
    ensures In(E, u) && |u| == |s| && (forall n :: n in u <==> n in s) && (set n | n in u) == (set n | n in s)
    ensures (set n | n in u :: n.info) == (set n | n in s :: n.info)
    ensures Hold(E, u) <==> Hold(E, s)
  {
    SameItems(u, s);
    SameMembers(u, s);
  }

  lemma SortedCells(key: map<ListHead, int>, E: map<ListHead, Entry>, u: seq<ListHead>, v: seq<ListHead>)
    requires StablySorted(key, u, v) && Distinct(u)
    ensures multiset(v) == multiset(u) && Distinct(v)
  {
    DistinctAgain(v, u);
  }

  /** Caching the values keeps indices and backup bytes. */
  lemma SettledStays(E: map<ListHead, Entry>, kernel: Kernel)
    ensures Restored(Settled(E, kernel)) == Restored(E) && Indices(Settled(E, kernel)) == Indices(E)
    ensures Restored(E).Keys == E.Keys == Settled(E, kernel).Keys
  {
    hide Value, Backup;
    var F := Settled(E, kernel);
    forall n | n in E ensures Backup(F[n].word) == Backup(E[n].word) { BackupKept(E[n].word, Value(kernel, E[n].item, E[n].word)); }
    assert Restored(F) == Restored(E);
    assert Indices(F) == Indices(E);
  }

  lemma BackupKept(w: Word, x: nat)
    requires x < 128
    ensures 256 * Backup(w) + 128 + x < 0x1_0000 && Backup(256 * Backup(w) + 128 + x) == Backup(w)
  {}

  lemma PassEnds(E: map<ListHead, Entry>, s: seq<ListHead>, finderIdx: int, n: nat, kernel: Kernel, F: map<ListHead, Entry>,
                 u: seq<ListHead>, v: seq<ListHead>, out: seq<ListHead>, w: Word, r1: Word, r2: Word, retval: Word)
    requires Distinct(s) && In(E, s) && |s| > 2 && multiset(v) == multiset(s) && |v| == |s| && In(E, v) && In(F, v)
    requires u == Rounds(E, s, finderIdx, n) && r1 == U16(Score(E, s, finderIdx, n))
    requires if finderIdx > 0 then F == Settled(E, kernel) && StablySorted(Values(E, kernel), u, v) else F == E && v == u
    requires r2 == RemovedCrc(Entries(F, v), IndexAfter(finderIdx, n), LastValue(n), r1)
    requires StablySorted(Indices(E), v, out) && |out| == |s| && In(E, out)
    requires Restored(E)[out[0]].word == w && retval == Repeated(w, |s| - 1, r2)
    ensures Passed(E, s, finderIdx, n, kernel, v, out, retval)
    ensures out == s <==> StablySorted(Indices(E), v, s)
    ensures (forall i, j :: 0 <= i < j < |s| ==> E[s[i]].idx < E[s[j]].idx) ==> out == s
  {
    hide Rounds, Score, RemovedCrc, Repeated, Entries, U16;
    if StablySorted(Indices(E), v, s) { OneOrder(Indices(E), v, out, s); }
    if forall i, j :: 0 <= i < j < |s| ==> E[s[i]].idx < E[s[j]].idx {
      StrictIsStable(Indices(E), v, s);
      OneOrder(Indices(E), v, out, s);
    }
  }
}
