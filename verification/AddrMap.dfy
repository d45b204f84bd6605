/** Address compaction of the crossbar generator (flow/tools/tlgen/lib.py). */
module AddrMap {
  import opened Bits
  import opened Arith

  const SPACE: int := 0x1_0000_0000
  const MIN_SIZE: int := 0x1000

  /** An entry of addr_range: base_addr and size_byte. */
  datatype Range = Range(base: nat, size: nat)

  function End(r: Range): nat { r.base + r.size }

  predicate Apart(r: Range, s: Range) { End(r) <= s.base || End(s) <= r.base }

  /** All of s lies in r. */
  predicate Contains(r: Range, s: Range) { r.base <= s.base && End(s) <= End(r) }

  predicate Holds(r: Range, a: int) { r.base <= a < End(r) }

  /** Ranges of at least 4 kB in the address space. */
  ghost predicate Sound(rs: seq<Range>) { forall r :: r in rs ==> r.size >= MIN_SIZE && End(r) <= SPACE }

  ghost predicate AllApart(rs: seq<Range>, ss: seq<Range>) { forall r, s :: r in rs && s in ss ==> Apart(r, s) }

  /** In ascending order, without overlaps. */
  ghost predicate Ascending(rs: seq<Range>) { forall i, j :: 0 <= i < j < |rs| ==> End(rs[i]) <= rs[j].base }

  ghost predicate Covered(r: Range, ss: seq<Range>) { exists s :: s in ss && Contains(s, r) }

  // ---------------------------------------------------------------- the helpers

  /** no_device_in_range: no range of another device overlaps the gap between f and t. */
  predicate GapFree(others: seq<Range>, f: Range, t: Range) {
    others == [] || ((End(others[0]) <= End(f) || others[0].base >= t.base) && GapFree(others[1..], f, t))
  }

  lemma {:induction false} GapFreeMeans(others: seq<Range>, f: Range, t: Range)
    ensures GapFree(others, f, t) <==> forall o :: o in others ==> End(o) <= End(f) || o.base >= t.base
  {
    if others != [] {
      GapFreeMeans(others[1..], f, t);
      assert forall o :: o in others <==> o == others[0] || o in others[1..];
    }
  }

  /** get_next_base_addr: the least base of another device above a; the end of the address space if there is none. */
  function NextBase(others: seq<Range>, a: int): int {
    if others == [] then SPACE
    else
      var n := NextBase(others[1..], a);
      if a < others[0].base < n then others[0].base else n
  }

  lemma {:induction false} NextBaseIs(others: seq<Range>, a: int)
    requires Sound(others)
    ensures NextBase(others, a) <= SPACE && (forall o :: o in others && o.base > a ==> NextBase(others, a) <= o.base)
    ensures NextBase(others, a) == SPACE || exists o :: o in others && o.base > a && o.base == NextBase(others, a)
  {
    if others != [] {
      NextBaseIs(others[1..], a);
      assert others[0] in others;
    }
  }

  /** i is a power of two that divides base. */
  ghost predicate PowerDivides(i: int, base: int) { exists j: nat :: Pow2(j) == i && Divides(j, base) }

  /** 2^j divides base. */
  predicate Divides(j: nat, base: int) { base % Pow2(j) == 0 }

  /** The same without a division. */
  ghost predicate Multiple(base: int, j: nat) { exists q: int :: base == Left(q, j) }

  lemma MultipleMeans(base: int, j: nat)
    ensures Multiple(base, j) <==> Divides(j, base)
  {
    var p := Pow2(j);
    if Multiple(base, j) {
      var q: int :| base == Left(q, j);
      LeftTimes(q, j);
      DivUnique(base, p, q, 0);
    }
    if Divides(j, base) {
      var q := base / p;
      LeftTimes(q, j);
      assert base == q * p;
      assert base == Left(q, j);
    }
  }

  /** The least one bit of base, for base != 0: the largest power of two that divides it. */
  method LeastOne(base: nat) returns (one: nat, ghost k: nat)
    requires base > 0
    ensures one == Pow2(k) && forall j: nat :: Divides(j, base) <==> j <= k
  {
    one, k := 1, 0;
    ghost var q: nat := base;
    assert base == Left(base, 0);
    QuotientOf(base, q, k);
    while base / one % 2 == 0                  // base & leading_one
      invariant one == Pow2(k) && base == Left(q, k) && q > 0 && base / one == q
      decreases q
    {
      LeftTwice(q / 2, k);
      q, k := q / 2, k + 1;
      one := 2 * one;
      QuotientOf(base, q, k);
    }
    OddQuotient(base, q, k);
  }

  lemma EvenQuotient(p: int, j: nat, q: int, k: nat)
    requires Left(p, j) == Left(q, k) && k < j
    ensures q % 2 == 0
  {
    var h := Left(p, j - k - 1);
    LeftLeft(p, j - k, k);
    SameLeft(q, 2 * h, k);
  }

  lemma SameLeft(a: int, b: int, k: nat)
    requires Left(a, k) == Left(b, k)
    ensures a == b
  {
    LeftMono(a, b, k);
  }

  lemma OddQuotient(base: nat, q: nat, k: nat)
    requires base == Left(q, k) && q % 2 == 1
    ensures forall j: nat :: Divides(j, base) <==> j <= k
  {
    forall j: nat ensures Divides(j, base) <==> j <= k {
      MultipleMeans(base, j);
      if j <= k {
        Pow2Mono(j, k);
        DividesToo(base, j, k);
      } else if Multiple(base, j) {
        var p: int :| base == Left(p, j);
        EvenQuotient(p, j, q, k);
      }
    }
  }

  lemma QuotientOf(base: nat, q: nat, k: nat)
    requires base == Left(q, k)
    ensures base / Pow2(k) == q
  {
    LeftTimes(q, k);
    DivUnique(base, Pow2(k), q, 0);
  }

  /** A smaller power of two divides what a larger one does. */
  lemma DividesToo(base: int, j: nat, k: nat)
    requires Multiple(base, k) && Pow2(j) <= Pow2(k)
    ensures Multiple(base, j)
  {
    if j > k { Pow2Mono(k + 1, j); }
    var q: int :| base == Left(q, k);
    LeftLeft(q, k - j, j);
    assert base == Left(Left(q, k - j), j);
  }

  /** 2^j is the least power of two, from 2 on, that holds least bytes. */
  ghost predicate LeastPower(j: nat, least: nat) { j > 0 && least <= Pow2(j) && (j == 1 || Pow2(j) < 2 * least) }

  ghost function LeastExponent(least: nat): (j: nat)
    ensures LeastPower(j, least)
  {
    if least <= 2 then 1 else 1 + LeastExponent((least + 1) / 2)
  }

  lemma OneLeastPower(j: nat, k: nat, least: nat)
    requires LeastPower(j, least) && LeastPower(k, least)
    ensures j == k
  {
    if j < k { Pow2Mono(j + 1, k); }
    if k < j { Pow2Mono(k + 1, j); }
  }

  ghost function Chosen(r: Range, j: nat, least: nat, next: int): nat {
    if r.base + Pow2(j) <= next && Divides(j, r.base) then Pow2(j) else least
  }

  /** find_pow2_size: the least power of two that holds least bytes, if it divides the base and ends before next; else least.
      The source's assertion fails exactly for a size below 4 kB. */
  method FindPow2Size(r: Range, least: nat, next: int) returns (i: nat, asserted: bool)
    ensures i == Chosen(r, LeastExponent(least), least, next)
    ensures asserted == (i >= MIN_SIZE)
  {
    var diff := next - r.base;
    ghost var k: nat := 0;
    if r.base != 0 {
      var one;
      one, k := LeastOne(r.base);
      if one <= diff { diff := one; }
    }
    i := 2;
    ghost var j: nat := 1;
    while i < least
      invariant j > 0 && i == Pow2(j) && i > 0 && (j == 1 || i < 2 * least)
      decreases least - i
    {
      i, j := 2 * i, j + 1;
    }
    assert LeastPower(j, least);
    OneLeastPower(j, LeastExponent(least), least);
    Dividing(r.base, j, k);
    if i > diff {
      i := least;
    }
    asserted := i >= MIN_SIZE;
  }

  lemma Dividing(base: nat, j: nat, k: nat)
    requires base > 0 ==> forall l: nat :: Divides(l, base) <==> l <= k
    ensures Divides(j, base) <==> base == 0 || Pow2(j) <= Pow2(k)
  {
    if base > 0 {
      if j <= k {
        Pow2Mono(j, k);
      } else {
        Pow2Mono(k + 1, j);
      }
    }
  }

  // ---------------------------------------------------------------- sorting

  function Insert(r: Range, s: seq<Range>): (t: seq<Range>)
    ensures |t| == |s| + 1 && forall x :: x in t <==> x == r || x in s
  {
    if s == [] || r.base < s[0].base then [r] + s else [s[0]] + Insert(r, s[1..])
  }

  /** sorted(addrs, key = base_addr) */
  function ByBase(s: seq<Range>): (t: seq<Range>)
    ensures |t| == |s| && forall x :: x in t <==> x in s
  {
    if s == [] then [] else Insert(s[0], ByBase(s[1..]))
  }

  ghost predicate PairwiseApart(s: seq<Range>) { forall i, j :: 0 <= i < j < |s| ==> Apart(s[i], s[j]) }

  lemma {:induction false} InsertAscending(r: Range, s: seq<Range>)
    requires Ascending(s) && r.size > 0 && (forall x :: x in s ==> x.size > 0 && Apart(r, x))
    ensures Ascending(Insert(r, s))
  {
    if s != [] {
      assert s[0] in s;
      if r.base >= s[0].base {
        InsertAscending(r, s[1..]);
        var t := Insert(r, s[1..]);
        forall j | 0 <= j < |t| ensures End(s[0]) <= t[j].base { assert t[j] in t; }
      } else {
        forall j | 0 <= j < |s| ensures End(r) <= s[j].base { assert s[j] in s && (j > 0 ==> End(s[0]) <= s[j].base); }
      }
    }
  }

  lemma {:induction false} ByBaseAscending(s: seq<Range>)
    requires PairwiseApart(s) && forall x :: x in s ==> x.size > 0
    ensures Ascending(ByBase(s))
  {
    if s != [] {
      ByBaseAscending(s[1..]);
      forall x | x in ByBase(s[1..]) ensures x.size > 0 && Apart(s[0], x) {
        var k :| 0 <= k < |s[1..]| && s[1..][k] == x;
        assert s[k + 1] == x;
      }
      assert s[0] in s;
      InsertAscending(s[0], ByBase(s[1..]));
    }
  }

  // ---------------------------------------------------------------- simplify_addr

  /** Every entry begins with one of the ranges and ends with one, or has a power of two that divides its base as size. */
  ghost predicate WellSized(result: seq<Range>, own: seq<Range>) {
    forall s :: s in result ==>
      (exists r :: r in own && r.base == s.base) && ((exists r :: r in own && End(r) == End(s)) || PowerDivides(s.size, s.base))
  }

  /** Another device has a range between r and s. */
  ghost predicate Between(others: seq<Range>, r: Range, s: Range) {
    exists o :: o in others && End(r) <= o.base && End(o) <= s.base
  }

  /** No two neighbours could be one entry. */
  ghost predicate Separated(result: seq<Range>, others: seq<Range>) {
    forall i, j :: 0 <= i && j == i + 1 && j < |result| ==> Between(others, result[i], result[j])
  }

  /** The entries so far, for the ranges before the n-th. */
  ghost predicate Simplified(result: seq<Range>, es: seq<Range>, n: nat, others: seq<Range>) {
    n <= |es| && Separated(result, others) && Ascending(result) && Sound(result) && AllApart(result, others) && WellSized(result, es)
    && (forall k :: 0 <= k < n ==> Covered(es[k], result))
    && (n > 0 ==> result != [] && Contains(result[|result| - 1], es[n - 1]))
  }

  /** What a range may be replaced by: it holds the next one too, and nothing of the others. */
  ghost predicate Grown(last: Range, r: Range, e: Range, es: seq<Range>, others: seq<Range>) {
    && r.base == last.base && r.size >= MIN_SIZE && End(e) <= End(r) <= SPACE
    && (forall o :: o in others ==> Apart(r, o))
    && ((exists x :: x in es && End(x) == End(r)) || PowerDivides(r.size, r.base))
  }

  lemma ReplacedEntries(result: seq<Range>, es: seq<Range>, others: seq<Range>, r: Range)
    requires result != [] && Ascending(result) && Sound(result) && AllApart(result, others) && WellSized(result, es)
    requires r.base == result[|result| - 1].base && r.size >= MIN_SIZE && End(r) <= SPACE && forall o :: o in others ==> Apart(r, o)
    requires (exists x :: x in es && End(x) == End(r)) || PowerDivides(r.size, r.base)
    ensures var t := result[|result| - 1 := r]; Ascending(t) && Sound(t) && AllApart(t, others) && WellSized(t, es)
  {
    var m := |result| - 1;
    var t := result[m := r];
    assert result[m] in result;
    assert exists x :: x in es && x.base == r.base;
    forall s | s in t && s != r ensures s in result {}
  }

  lemma ReplacedSeparated(result: seq<Range>, others: seq<Range>, r: Range)
    requires Separated(result, others) && result != [] && r.base == result[|result| - 1].base
    ensures Separated(result[|result| - 1 := r], others)
  {
    var t := result[|result| - 1 := r];
    forall i, j | 0 <= i && j == i + 1 && j < |t| ensures Between(others, t[i], t[j]) {
      assert Between(others, result[i], result[j]);
    }
  }

  lemma ReplaceLast(result: seq<Range>, es: seq<Range>, n: nat, others: seq<Range>, r: Range)
    requires Simplified(result, es, n, others) && 0 < n < |es| && Ascending(es)
    requires Grown(result[|result| - 1], r, es[n], es, others)
    ensures Simplified(result[|result| - 1 := r], es, n + 1, others)
  {
    var t := result[|result| - 1 := r];
    ReplacedEntries(result, es, others, r);
    ReplacedSeparated(result, others, r);
    forall k | 0 <= k < n + 1 ensures Covered(es[k], t) { CoverKept(result, es, n, others, r, k); }
    assert result[|result| - 1].base <= es[n - 1].base && End(es[n - 1]) <= es[n].base;
  }

  lemma CoverKept(result: seq<Range>, es: seq<Range>, n: nat, others: seq<Range>, r: Range, k: nat)
    requires Simplified(result, es, n, others) && 0 < n < |es| && k <= n && Ascending(es)
    requires Grown(result[|result| - 1], r, es[n], es, others)
    ensures Covered(es[k], result[|result| - 1 := r])
  {
    var m := |result| - 1;
    var t := result[m := r];
    assert t[m] == r;
    assert result[m].base <= es[n - 1].base && End(es[n - 1]) <= es[n].base;
    if k == n {
      assert Contains(r, es[n]);
    } else {
      var s :| s in result && Contains(s, es[k]);
      var j :| 0 <= j < |result| && result[j] == s;
      if j == m { assert Contains(r, es[k]); } else { assert t[j] == s; }
    }
  }

  /** The three cases of the loop body give a range that may replace the last one, or one that may be added. */
  lemma Contiguous(last: Range, e: Range, es: seq<Range>, others: seq<Range>)
    requires End(last) == e.base && last.size >= MIN_SIZE && e.size >= MIN_SIZE && End(e) <= SPACE && e in es
    requires forall o :: o in others ==> Apart(last, o) && Apart(e, o) && o.size > 0
    ensures Grown(last, Range(last.base, last.size + e.size), e, es, others)
  {}

  lemma Bridged(last: Range, e: Range, es: seq<Range>, others: seq<Range>, i: nat)
    requires last.base <= e.base && e.size >= MIN_SIZE && End(e) <= SPACE && e in es && Sound(others)
    requires forall o :: o in others ==> Apart(last, o) && Apart(e, o)
    requires GapFree(others, last, e)
    requires i == End(e) - last.base || (i >= End(e) - last.base && last.base + i <= NextBase(others, e.base) && PowerDivides(i, last.base))
    ensures Grown(last, Range(last.base, i), e, es, others)
  {
    GapFreeMeans(others, last, e);
    NextBaseIs(others, e.base);
  }

  lemma Separate(result: seq<Range>, es: seq<Range>, n: nat, others: seq<Range>)
    requires Simplified(result, es, n, others) && 0 < n < |es| && Ascending(es) && Sound(es) && Sound(others)
    requires AllApart(es, others) && !GapFree(others, result[|result| - 1], es[n])
    ensures Simplified(result + [es[n]], es, n + 1, others)
  {
    var last, e := result[|result| - 1], es[n];
    GapFreeMeans(others, last, e);
    assert last in result && e in es;
    var o :| o in others && End(o) > End(last) && o.base < e.base;
    assert Apart(last, o) && Apart(e, o) && End(last) <= e.base;
    Appended(result, es, n, others);
  }

  lemma AscendingSnoc(result: seq<Range>, e: Range, others: seq<Range>)
    requires Ascending(result) && Sound(result) && Separated(result, others)
    requires result == [] || (End(result[|result| - 1]) <= e.base && Between(others, result[|result| - 1], e))
    ensures Ascending(result + [e]) && Separated(result + [e], others)
  {
    var t := result + [e];
    forall i, j | 0 <= i < j < |t| ensures End(t[i]) <= t[j].base {
      if j == |result| && i < |result| - 1 {
        assert result[|result| - 1] in result && End(result[i]) <= result[|result| - 1].base;
      }
    }
  }

  lemma WellSizedSnoc(result: seq<Range>, e: Range, es: seq<Range>, others: seq<Range>)
    requires WellSized(result, es) && Sound(result) && AllApart(result, others)
    requires e in es && Sound(es) && AllApart(es, others)
    ensures WellSized(result + [e], es) && Sound(result + [e]) && AllApart(result + [e], others)
  {
    assert forall s :: s in result + [e] <==> s in result || s == e;
  }

  lemma Appended(result: seq<Range>, es: seq<Range>, n: nat, others: seq<Range>)
    requires Simplified(result, es, n, others) && n < |es| && Sound(es) && AllApart(es, others)
    requires result == [] || (End(result[|result| - 1]) <= es[n].base && Between(others, result[|result| - 1], es[n]))
    ensures Simplified(result + [es[n]], es, n + 1, others)
  {
    var e, t := es[n], result + [es[n]];
    AscendingSnoc(result, e, others);
    WellSizedSnoc(result, e, es, others);
    assert e in t && t[|t| - 1] == e && Contains(e, e);
    forall k | 0 <= k < n + 1 ensures Covered(es[k], t) {
      if k < n { var s :| s in result && Contains(s, es[k]); assert s in t; }
    }
  }

  lemma BeforeAll(own: seq<Range>, others: seq<Range>)
    requires PairwiseApart(own) && Sound(own) && AllApart(own, others)
    ensures var es := ByBase(own); Ascending(es) && Sound(es) && AllApart(es, others) && Simplified([], es, 0, others)
  {
    ByBaseAscending(own);
  }

  lemma AfterAll(result: seq<Range>, own: seq<Range>, others: seq<Range>)
    requires var es := ByBase(own); Simplified(result, es, |es|, others)
    ensures Ascending(result) && Sound(result) && AllApart(result, others) && WellSized(result, own) && Separated(result, others)
    ensures forall r :: r in own ==> Covered(r, result)
  {
    hide Ascending, Sound, AllApart, Separated, WellSized, Covered, ByBase;
    var es := ByBase(own);
    SameWellSized(result, es, own);
    forall r | r in own ensures Covered(r, result) {
      assert r in es;
      var k :| 0 <= k < |es| && es[k] == r;
    }
  }

  lemma SameWellSized(result: seq<Range>, es: seq<Range>, own: seq<Range>)
    requires WellSized(result, es) && forall r :: r in es ==> r in own
    ensures WellSized(result, own)
  {
    hide PowerDivides;
    forall s | s in result
      ensures (exists r :: r in own && r.base == s.base) && ((exists r :: r in own && End(r) == End(s)) || PowerDivides(s.size, s.base))
    {
      var r :| r in es && r.base == s.base;
      assert r in own;
      if q :| q in es && End(q) == End(s) { assert q in own; }
    }
  }

  /** The bytes from the start of r to the end of e. */
  function Span(r: Range, e: Range): nat { if End(e) > r.base then End(e) - r.base else 0 }

  /** The entries with one range more. A range right behind the last entry is added to it; one behind a gap without other
      devices too, and the entry then has the least power of two that holds both as its size, if that divides its base
      and ends before the next device. Any other range is an entry of its own. */
  ghost function WithRange(result: seq<Range>, e: Range, others: seq<Range>): seq<Range> {
    if result == [] then [e]
    else
      var m, last := |result| - 1, result[|result| - 1];
      if End(last) == e.base then result[m := Range(last.base, last.size + e.size)]
      else if forall o :: o in others ==> End(o) <= End(last) || o.base >= e.base then
        var least := Span(last, e);
        result[m := Range(last.base, Chosen(last, LeastExponent(least), least, NextBase(others, e.base)))]
      else result + [e]
  }

  /** The entries for the first n ranges. */
  ghost function Compacted(es: seq<Range>, n: nat, others: seq<Range>): seq<Range>
    requires n <= |es|
  {
    if n == 0 then [] else WithRange(Compacted(es, n - 1, others), es[n - 1], others)
  }

  /** Two ranges with a gap, where the comment in the source expects the size 0x9_0000. */
  lemma BridgedExample()
    ensures Compacted([Range(0x4000_0000, 0x1_0000), Range(0x4008_0000, 0x1_0000)], 2, []) == [Range(0x4000_0000, 0x10_0000)]
  {
    var r, e := Range(0x4000_0000, 0x1_0000), Range(0x4008_0000, 0x1_0000);
    assert Compacted([r, e], 1, []) == WithRange(Compacted([r, e], 0, []), r, []) == [r];
    Pow2At20();
    OneLeastPower(20, LeastExponent(0x9_0000), 0x9_0000);
  }

  lemma Pow2At20()
    ensures Pow2(20) == 0x10_0000
  {
    assert Pow2(10) == 1024;
  }

  /** simplify_addr: entries that cover the device's ranges, in order, and take nothing from other devices;
      neighbouring entries are kept apart only by another device. */
  method SimplifyAddr(own: seq<Range>, others: seq<Range>) returns (result: seq<Range>)
    requires PairwiseApart(own) && Sound(own) && Sound(others) && AllApart(own, others)
    ensures Ascending(result) && Sound(result) && AllApart(result, others) && WellSized(result, own)
    ensures Separated(result, others)
    ensures forall r :: r in own ==> Covered(r, result)
    ensures result == Compacted(ByBase(own), |own|, others)
  {
    hide Simplified, ByBase, WithRange;
    var es := ByBase(own);
    BeforeAll(own, others);
    result := [];
    var n := 0;
    while n < |es|
      invariant n <= |es| && Simplified(result, es, n, others) && (n == 0 <==> result == [])
      invariant result == Compacted(es, n, others)
    {
      var e := es[n];
      if |result| == 0 {
        Appended(result, es, n, others);
        FirstEntry(e, others);
        result := result + [e];
      } else {
        result := NextEntry(result, es, n, others);
      }
      n := n + 1;
    }
    AfterAll(result, own, others);
  }

  lemma JoinedEntry(result: seq<Range>, e: Range, others: seq<Range>)
    requires result != [] && End(result[|result| - 1]) == e.base
    ensures var m, last := |result| - 1, result[|result| - 1];
      WithRange(result, e, others) == result[m := Range(last.base, last.size + e.size)]
  {}

  lemma BridgedEntry(result: seq<Range>, e: Range, others: seq<Range>, size: nat)
    requires result != [] && End(result[|result| - 1]) != e.base && GapFree(others, result[|result| - 1], e)
    requires var last, least := result[|result| - 1], Span(result[|result| - 1], e);
      size == Chosen(last, LeastExponent(least), least, NextBase(others, e.base))
    ensures var m, last := |result| - 1, result[|result| - 1];
      WithRange(result, e, others) == result[m := Range(last.base, size)]
  {
    GapFreeMeans(others, result[|result| - 1], e);
  }

  lemma OwnEntry(result: seq<Range>, e: Range, others: seq<Range>)
    requires result != [] && End(result[|result| - 1]) != e.base && !GapFree(others, result[|result| - 1], e)
    ensures WithRange(result, e, others) == result + [e]
  {
    GapFreeMeans(others, result[|result| - 1], e);
  }

  lemma FirstEntry(e: Range, others: seq<Range>)
    ensures WithRange([], e, others) == [e]
  {}

  /** The loop body, once there is an entry. */
  method NextEntry(result: seq<Range>, es: seq<Range>, n: nat, others: seq<Range>) returns (next: seq<Range>)
    requires Simplified(result, es, n, others) && 0 < n < |es| && Ascending(es) && Sound(es) && Sound(others) && AllApart(es, others)
    ensures Simplified(next, es, n + 1, others) && next != [] && next == WithRange(result, es[n], others)
  {
    hide Simplified, Ascending, Sound, AllApart, Grown, WithRange, Chosen, LeastPower;
    LastEntry(result, es, n, others);
    var m, e := |result| - 1, es[n];
    var last := result[m];
    if e.base == End(last) {
      Contiguous(last, e, es, others);
      ReplaceLast(result, es, n, others, Range(last.base, last.size + e.size));
      JoinedEntry(result, e, others);
      return result[m := Range(last.base, last.size + e.size)];
    }
    if GapFree(others, last, e) {
      var size := Bridge(last, e, es, others);
      ReplaceLast(result, es, n, others, Range(last.base, size));
      BridgedEntry(result, e, others, size);
      return result[m := Range(last.base, size)];
    }
    Separate(result, es, n, others);
    OwnEntry(result, e, others);
    return result + [e];
  }

  lemma LastEntry(result: seq<Range>, es: seq<Range>, n: nat, others: seq<Range>)
    requires Simplified(result, es, n, others) && 0 < n < |es| && Ascending(es) && Sound(es) && Sound(others) && AllApart(es, others)
    ensures result != []
    ensures var last, e := result[|result| - 1], es[n];
      && last.base <= e.base && last.size >= MIN_SIZE && e.size >= MIN_SIZE && End(e) <= SPACE && e in es
      && forall o :: o in others ==> Apart(last, o) && Apart(e, o) && o.size > 0
  {
    var last, e := result[|result| - 1], es[n];
    assert last in result && e in es;
    assert last.base <= es[n - 1].base && End(es[n - 1]) <= e.base;
  }

  /** The size of an entry that also holds a range behind a gap. */
  method Bridge(last: Range, e: Range, es: seq<Range>, others: seq<Range>) returns (size: nat)
    requires last.base <= e.base && e.size >= MIN_SIZE && End(e) <= SPACE && e in es && Sound(others) && GapFree(others, last, e)
    requires forall o :: o in others ==> Apart(last, o) && Apart(e, o)
    ensures Grown(last, Range(last.base, size), e, es, others)
    ensures var least := Span(last, e); size == Chosen(last, LeastExponent(least), least, NextBase(others, e.base))
  {
    var asserted;
    size, asserted := FindPow2Size(last, End(e) - last.base, NextBase(others, e.base));
    assert asserted;
    Bridged(last, e, es, others, size);
  }

  // ---------------------------------------------------------------- all devices

  /** Ranges of device d do not overlap those of any other. */
  ghost predicate DevicesApart(devs: seq<seq<Range>>) {
    forall d, e :: 0 <= d < e < |devs| ==> AllApart(devs[d], devs[e])
  }

  /** The ranges of all devices but d. */
  function Others(devs: seq<seq<Range>>, d: nat): seq<Range>
    requires d < |devs|
  {
    Flat(devs[..d]) + Flat(devs[d + 1..])
  }

  function Flat(devs: seq<seq<Range>>): seq<Range> { if devs == [] then [] else devs[0] + Flat(devs[1..]) }

  lemma {:induction false} FlatHas(devs: seq<seq<Range>>, r: Range)
    ensures r in Flat(devs) <==> exists d :: 0 <= d < |devs| && r in devs[d]
  {
    if devs != [] {
      FlatHas(devs[1..], r);
      if d :| 0 <= d < |devs| && r in devs[d] {
        if d > 0 { assert devs[1..][d - 1] == devs[d]; }
      }
      if d :| 0 <= d < |devs[1..]| && r in devs[1..][d] { assert devs[d + 1] == devs[1..][d]; }
    }
  }

  lemma OthersHas(devs: seq<seq<Range>>, d: nat, r: Range)
    requires d < |devs|
    ensures r in Others(devs, d) <==> exists e :: 0 <= e < |devs| && e != d && r in devs[e]
  {
    FlatHas(devs[..d], r);
    var tail := devs[d + 1..];
    FlatHas(tail, r);
    if e :| 0 <= e < |devs| && e != d && r in devs[e] {
      if e < d { assert devs[..d][e] == devs[e]; } else { assert tail[e - d - 1] == devs[e]; }
    }
    if e :| 0 <= e < |tail| && r in tail[e] { assert devs[d + 1 + e] == tail[e]; }
  }

  /** Another device's ranges, as they are when device d is compacted. */
  lemma OthersApart(devs: seq<seq<Range>>, d: nat)
    requires d < |devs| && DevicesApart(devs) && forall e :: 0 <= e < |devs| ==> Sound(devs[e])
    ensures AllApart(devs[d], Others(devs, d)) && Sound(Others(devs, d))
  {
    forall o | o in Others(devs, d) ensures o.size >= MIN_SIZE && End(o) <= SPACE && forall r :: r in devs[d] ==> Apart(r, o) {
      OthersHas(devs, d, o);
    }
  }

  lemma CompactedApart(devs: seq<seq<Range>>, d: nat, ranges: seq<Range>)
    requires d < |devs| && DevicesApart(devs) && AllApart(ranges, Others(devs, d))
    ensures DevicesApart(devs[d := ranges])
  {
    forall e, r, s | 0 <= e < |devs| && e != d && r in ranges && s in devs[e] ensures Apart(r, s) { OthersHas(devs, d, s); }
  }

  /** Address a selects device d, and no other. */
  ghost predicate Selects(devs: seq<seq<Range>>, a: int, d: nat) {
    && d < |devs| && (exists s :: s in devs[d] && Holds(s, a))
    && forall e, s :: 0 <= e < |devs| && e != d && s in devs[e] ==> !Holds(s, a)
  }

  /** Device d compacted when the devices before it have become those of out. */
  ghost function CompactedAt(devs: seq<seq<Range>>, out: seq<seq<Range>>, d: nat): seq<Range>
    requires d < |devs| && d <= |out|
  {
    Compacted(ByBase(devs[d]), |devs[d]|, Flat(out[..d]) + Flat(devs[d + 1..]))
  }

  lemma SameBefore(devs: seq<seq<Range>>, out: seq<seq<Range>>, d: nat, ranges: seq<Range>)
    requires d < |devs| == |out| && forall e :: d <= e < |devs| ==> out[e] == devs[e]
    ensures Compacted(ByBase(out[d]), |out[d]|, Others(out, d)) == CompactedAt(devs, out[d := ranges], d)
    ensures forall e :: 0 <= e < d ==> CompactedAt(devs, out[d := ranges], e) == CompactedAt(devs, out, e)
  {
    hide Compacted, ByBase, Flat;
    var next := out[d := ranges];
    assert out[d + 1..] == devs[d + 1..] && next[..d] == out[..d];
    forall e | 0 <= e < d ensures CompactedAt(devs, next, e) == CompactedAt(devs, out, e) { assert next[..e] == out[..e]; }
  }

  /** The loop of validate.py: every device that is marked as a crossbar is compacted, against the others as they are by then.
      The devices stay apart, the others stay as they are, and every address of a device still selects it and no other. */
  method SimplifyAll(devs: seq<seq<Range>>, marked: seq<bool>) returns (out: seq<seq<Range>>)
    requires DevicesApart(devs) && |marked| == |devs| && forall d :: 0 <= d < |devs| ==> Sound(devs[d]) && PairwiseApart(devs[d])
    ensures |out| == |devs| && DevicesApart(out)
    ensures forall d :: 0 <= d < |devs| ==> out[d] == if marked[d] then CompactedAt(devs, out, d) else devs[d]
    ensures forall d, r, a :: 0 <= d < |devs| && r in devs[d] && Holds(r, a) ==> Selects(out, a, d)
  {
    hide CompactedAt, Compacted, ByBase, Others, Sound, Ascending, AllApart, PairwiseApart, DevicesApart;
    out := devs;
    var d := 0;
    while d < |devs|
      invariant d <= |devs| == |out| && DevicesApart(out) && forall e :: 0 <= e < |devs| ==> Sound(out[e])
      invariant forall e :: d <= e < |devs| ==> out[e] == devs[e]
      invariant forall e :: 0 <= e < d ==> out[e] == if marked[e] then CompactedAt(devs, out, e) else devs[e]
      invariant forall e :: 0 <= e < |devs| ==> AllCovered(devs[e], out[e])
    {
      if marked[d] {
        OthersApart(out, d);
        var ranges := SimplifyAddr(out[d], Others(out, d));
        CompactedApart(out, d, ranges);
        SameBefore(devs, out, d, ranges);
        out := out[d := ranges];
      }
      d := d + 1;
    }
    forall d, r, a | 0 <= d < |devs| && r in devs[d] && Holds(r, a) ensures Selects(out, a, d) { Decodes(devs, out, d, r, a); }
  }

  ghost predicate AllCovered(rs: seq<Range>, ss: seq<Range>) { forall r :: r in rs ==> Covered(r, ss) }

  /** Covered and apart is enough to be selected. */
  lemma Decodes(devs: seq<seq<Range>>, out: seq<seq<Range>>, d: nat, r: Range, a: int)
    requires d < |devs| == |out| && DevicesApart(out) && AllCovered(devs[d], out[d]) && r in devs[d] && Holds(r, a)
    ensures Selects(out, a, d)
  {
    var s :| s in out[d] && Contains(s, r);
    assert Holds(s, a);
    forall e, t | 0 <= e < |out| && e != d && t in out[e] ensures !Holds(t, a) {
      assert if d < e then AllApart(out[d], out[e]) else AllApart(out[e], out[d]);
    }
  }
}
