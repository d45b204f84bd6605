/** What core_bench_list does with a list: searching and reversing it, moving a cell, removing one and undoing that. */
module CoreBench {
  import opened StableRuns
  import opened CoreList

  // ---------------------------------------------------------------- search, reversal

  /** An item and what it holds. */
  datatype Entry = Entry(item: ListData, idx: int, word: Word)

  /** What the cells' items hold. */
  ghost predicate Hold(E: map<ListHead, Entry>, s: seq<ListHead>)
    reads s, set n | n in s :: n.info
  {
    forall n :: n in s ==> n in E && E[n] == Entry(n.info, n.info.idx, n.info.data16)
  }

  /** The entries in the order of s. */
  ghost function Entries(E: map<ListHead, Entry>, s: seq<ListHead>): (es: seq<Entry>)
    requires forall n :: n in s ==> n in E
    ensures |es| == |s| && forall i :: 0 <= i < |s| ==> es[i] == E[s[i]]
  {
    if s == [] then [] else [E[s[0]]] + Entries(E, s[1..])
  }

  /** What core_list_find looks for: an index, or with a negative index a value in the low byte. */
  predicate Matches(idx: int, data16: int, e: Entry) {
    if idx >= 0 then e.idx == idx else e.word % 256 == data16
  }

  /** The place of the first entry that matches, or the end. */
  function FirstMatch(idx: int, data16: int, es: seq<Entry>): (k: nat)
    ensures k <= |es| && forall i :: 0 <= i < k ==> if idx >= 0 then es[i].idx != idx else es[i].word - 256 * Backup(es[i].word) != data16
    ensures k < |es| ==> if idx >= 0 then es[k].idx == idx else es[k].word - 256 * Backup(es[k].word) == data16
  {
    if es == [] || Matches(idx, data16, es[0]) then 0 else 1 + FirstMatch(idx, data16, es[1..])
  }

  lemma {:induction false} FirstAt(idx: int, data16: int, es: seq<Entry>, k: nat)
    requires k <= |es| && (forall i :: 0 <= i < k ==> !Matches(idx, data16, es[i])) && (k < |es| ==> Matches(idx, data16, es[k]))
    ensures FirstMatch(idx, data16, es) == k
  {
    if k > 0 {
      assert forall i :: 0 <= i < k - 1 ==> es[1..][i] == es[i + 1];
      FirstAt(idx, data16, es[1..], k - 1);
    }
  }

  /** core_list_find: the first cell that matches, k cells along. */
  method Find(list: ListHead?, idx: int, data16: int, ghost E: map<ListHead, Entry>, ghost s: seq<ListHead>)
      returns (found: ListHead?, ghost k: nat)
    requires IsList(list, s) && Hold(E, s)
    ensures k == FirstMatch(idx, data16, Entries(E, s)) && found == First(s[k..])
  {
    hide Entries, FirstMatch, Matches;
    found, k := list, 0;
    while found != null && !Matches(idx, data16, Entry(found.info, found.info.idx, found.info.data16))
      invariant k <= |s| && found == First(s[k..]) && Chain(s[k..], null)
      invariant forall i :: 0 <= i < k ==> !Matches(idx, data16, Entries(E, s)[i])
      decreases |s| - k
    {
      assert s[k..][1..] == s[k+1..];
      found := found.next;
      k := k + 1;
    }
    FirstAt(idx, data16, Entries(E, s), k);
  }

  function Reversed(s: seq<ListHead>): seq<ListHead> {
    if s == [] then [] else Reversed(s[1..]) + [s[0]]
  }

  lemma {:induction false} ReversedSnoc(s: seq<ListHead>, x: ListHead)
    ensures Reversed(s + [x]) == [x] + Reversed(s)
  {
    if s == [] {
      assert s + [x] == [x];
    } else {
      assert (s + [x])[1..] == s[1..] + [x];
      ReversedSnoc(s[1..], x);
    }
  }

  lemma {:induction false} ReversedMembers(s: seq<ListHead>)
    ensures multiset(Reversed(s)) == multiset(s) && |Reversed(s)| == |s|
  {
    if s != [] {
      assert s == [s[0]] + s[1..];
      ReversedMembers(s[1..]);
    }
  }

  /** core_list_reverse */
  method Reverse(list0: ListHead?, ghost s: seq<ListHead>) returns (next: ListHead?)
    requires IsList(list0, s) && Distinct(s)
    modifies (set n | n in s)`next
    ensures IsList(next, Reversed(s))
  {
    next := null;
    var list: ListHead? := list0;
    ghost var done, rest := [], s;
    while list != null
      invariant s == done + rest && IsList(list, rest) && IsList(next, Reversed(done))
      decreases |rest|
    {
      ghost var x: ListHead := rest[0];
      ReversedMembers(done);
      SameMembers(Reversed(done), done);
      HeadApart(s, done, rest);
      var tmp := list.next;
      list.next := next;
      next := list;
      list := tmp;
      ReversedSnoc(done, x);
      ReversedNext(done, x, next);
      done, rest := done + [x], rest[1..];
    }
    assert done == s;
  }

  lemma HeadApart(s: seq<ListHead>, done: seq<ListHead>, rest: seq<ListHead>)
    requires Distinct(s) && s == done + rest && rest != []
    ensures rest[0] !in done && rest[0] !in rest[1..] && s == (done + [rest[0]]) + rest[1..]
  {
    forall i | 0 <= i < |done| ensures done[i] != rest[0] { assert s[i] == done[i] && s[|done|] == rest[0]; }
    forall i | 0 <= i < |rest[1..]| ensures rest[1..][i] != rest[0] { assert s[|done| + 1 + i] == rest[1..][i] && s[|done|] == rest[0]; }
  }

  lemma ReversedNext(done: seq<ListHead>, x: ListHead, next: ListHead?)
    requires next == x && x.next == First(Reversed(done)) && Chain(Reversed(done), null)
    ensures IsList(next, [x] + Reversed(done))
  {
    assert ([x] + Reversed(done))[1..] == Reversed(done);
  }

  // ---------------------------------------------------------------- caching a found item's neighbour

  /** The cell behind cell k comes to stand behind the head. */
  function Cached1(s: seq<ListHead>, k: nat): seq<ListHead>
    requires k + 1 < |s|
  {
    [s[0], s[k+1]] + s[1..k+1] + s[k+2..]
  }

  lemma Cached1Members(s: seq<ListHead>, k: nat)
    requires k + 1 < |s| && Distinct(s)
    ensures multiset(Cached1(s, k)) == multiset(s) && Distinct(Cached1(s, k)) && |Cached1(s, k)| == |s|
  {
    assert s == [s[0]] + s[1..k+1] + [s[k+1]] + s[k+2..];
    DistinctAgain(Cached1(s, k), s);
  }

  ghost predicate ChainAt(s: seq<ListHead>)
    reads (set n | n in s)`next
  {
    && (forall i, j :: 0 <= i < |s| && j == i + 1 && j < |s| ==> s[i].next == s[j])
    && (s != [] ==> s[|s|-1].next == null)
  }

  lemma {:induction false} ChainIsChainAt(s: seq<ListHead>)
    ensures Chain(s, null) <==> ChainAt(s)
  {
    if |s| > 1 {
      var u := s[1..];
      ChainIsChainAt(u);
      assert u[|u|-1] == s[|s|-1];
      if ChainAt(s) {
        forall i, j | 0 <= i < |u| && j == i + 1 && j < |u| ensures u[i].next == u[j] {
          assert u[i] == s[i+1] && u[j] == s[j+1];
        }
      }
      if Chain(s, null) {
        forall i, j | 0 <= i < |s| && j == i + 1 && j < |s| ensures s[i].next == s[j] {
          if i > 0 { assert s[i] == u[i-1] && s[j] == u[j-1]; }
        }
      }
    }
  }

  /** Move the cell behind the found one to second place. */
  method CacheNext(thisFind: ListHead, list: ListHead, ghost s: seq<ListHead>, ghost k: nat)
    requires IsList(list, s) && Distinct(s) && k + 1 < |s| && thisFind == s[k]
    modifies (set n | n in s)`next
    ensures IsList(list, Cached1(s, k))
  {
    ChainIsChainAt(s);
    ghost var u := Cached1(s, k);
    var finder := thisFind.next;
    thisFind.next := finder.next;
    finder.next := list.next;
    list.next := finder;
    assert forall i :: 0 <= i < |u| ==> u[i] == if i == 0 then s[0] else if i == 1 then s[k+1] else if i < k + 2 then s[i-1] else s[i];
    assert ChainAt(u);
    ChainIsChainAt(u);
  }

  // ---------------------------------------------------------------- remove and undo

  /** core_list_remove: unlink the cell behind item, moving its data into item. */
  method Remove(item: ListHead, ghost s: seq<ListHead>) returns (ret: ListHead)
    requires Chain(s, null) && Distinct(s) && |s| > 2 && item == s[1]
    modifies (set n | n in s)`next, (set n | n in s)`info
    ensures ret == s[2] && ret.next == null && Chain([s[0], s[1]] + s[3..], null)
    ensures s[1].info == old(s[2].info) && s[2].info == old(s[1].info)
    ensures forall n :: n in s && n != s[1] && n != s[2] ==> n.info == old(n.info)
  {
    ChainIsChainAt(s);
    ghost var u := [s[0], s[1]] + s[3..];
    ret := item.next;
    var tmp := item.info;
    item.info := ret.info;
    ret.info := tmp;
    item.next := item.next.next;
    ret.next := null;
    assert forall i :: 0 <= i < |u| ==> u[i] == if i < 2 then s[i] else s[i+1];
    assert ChainAt(u);
    ChainIsChainAt(u);
  }

  /** core_list_undo_remove */
  method UndoRemove(removed: ListHead, modified: ListHead, ghost s: seq<ListHead>) returns (r: ListHead)
    requires Distinct(s) && |s| > 2 && modified == s[1] && removed == s[2] && Chain([s[0], s[1]] + s[3..], null)
    modifies (set n | n in s)`next, (set n | n in s)`info
    ensures Chain(s, null)
    ensures s[1].info == old(s[2].info) && s[2].info == old(s[1].info)
    ensures forall n :: n in s && n != s[1] && n != s[2] ==> n.info == old(n.info)
  {
    ghost var u := [s[0], s[1]] + s[3..];
    ChainIsChainAt(u);
    assert forall i :: 0 <= i < |u| ==> u[i] == if i < 2 then s[i] else s[i+1];
    var tmp := removed.info;
    removed.info := modified.info;
    modified.info := tmp;
    removed.next := modified.next;
    modified.next := removed;
    forall i, j | 0 <= i < |s| && j == i + 1 && j < |s| ensures s[i].next == s[j] {
      if i > 2 { assert s[i] == u[i-1] && s[j] == u[j-1]; }
    }
    assert |s| > 3 ==> s[|s|-1] == u[|u|-1] && s[3] == u[2];
    ChainIsChainAt(s);
    return removed;
  }

  // ---------------------------------------------------------------- reversed lists

  lemma {:induction false} ReversedAt(s: seq<ListHead>, i: nat)
    requires i < |s|
    ensures |Reversed(s)| == |s| && Reversed(s)[|s| - 1 - i] == s[i]
  {
    ReversedMembers(s);
    ReversedMembers(s[1..]);
    if i > 0 { ReversedAt(s[1..], i - 1); }
  }

  lemma ReversedDistinct(s: seq<ListHead>)
    requires Distinct(s)
    ensures Distinct(Reversed(s))
  {
    ReversedMembers(s);
    var r := Reversed(s);
    forall i, j | 0 <= i < j < |r| ensures r[i] != r[j] {
      ReversedAt(s, |s| - 1 - i);
      ReversedAt(s, |s| - 1 - j);
    }
  }

  lemma SameItems(u: seq<ListHead>, s: seq<ListHead>)
    requires multiset(u) == multiset(s)
    ensures (set n | n in u) == (set n | n in s)
    ensures (set n | n in u :: n.info) == (set n | n in s :: n.info)
    ensures forall n :: n in u <==> n in s
  {
    SameMembers(u, s);
  }

  lemma DistinctAgain(v: seq<ListHead>, u: seq<ListHead>)
    requires multiset(v) == multiset(u) && Distinct(u)
    ensures Distinct(v)
  {
    DistinctOnce(u);
    forall i, j | 0 <= i < j < |v| ensures v[i] != v[j] {
      assert v == v[..j] + [v[j]] + v[j+1..];
      OnceApart(multiset(u), [v[j]], v[..j]);
      assert v[i] == v[..j][i];
    }
  }
}
