/** Machine words: what 32 and 64 bits hold, shifts of signed words, and the clamp to 14-bit activations. */
module Words {
  import opened Bits

  predicate Int32(v: int) { -0x8000_0000 <= v < 0x8000_0000 }

  /** The value of an unsigned word of 32 or 64 bits. */
  function U32(v: int): nat { v % 0x1_0000_0000 }
  function U64(v: int): nat { v % 0x1_0000_0000_0000_0000 }

  /** The value a 32-bit accumulator holds. */
  function I32(v: int): int { (v + 0x8000_0000) % 0x1_0000_0000 - 0x8000_0000 }

  lemma I32Add(x: int, y: int)
    ensures I32(I32(x) + y) == I32(x + y) && I32(x + I32(y)) == I32(x + y)
  {
    var q, r := (x + 0x8000_0000) / 0x1_0000_0000, (y + 0x8000_0000) / 0x1_0000_0000;
    assert I32(x) == x - q * 0x1_0000_0000 && I32(y) == y - r * 0x1_0000_0000;
    I32Period(x + y, -q);
    I32Period(x + y, -r);
  }

  lemma I32Period(x: int, q: int)
    ensures I32(x + q * 0x1_0000_0000) == I32(x)
  {
    var z := x + 0x8000_0000;
    assert (z + q * 0x1_0000_0000) % 0x1_0000_0000 == z % 0x1_0000_0000;
  }

  lemma U32Period(x: int, q: int)
    ensures U32(x + q * 0x1_0000_0000) == U32(x)
  {}

  /** Adding to the low 32 bits gives the low 32 bits of the sum. */
  lemma AddedAfter(x: nat, y: nat)
    ensures U32(U32(x) + y) == U32(x + y)
  {
    var q: int := x / 0x1_0000_0000;
    assert U32(x) == x - q * 0x1_0000_0000;
    U32Period(x + y, -q);
  }

  /** v >> s, towards minus infinity */
  function Asr(v: int, s: nat): int
    decreases s
  {
    if s == 0 then v else Asr(v / 2, s - 1)
  }

  lemma {:induction false} AsrJoin(v: int, a: nat, b: nat)
    ensures Asr(v, a + b) == Asr(Asr(v, a), b)
    decreases a
  {
    if a > 0 { AsrJoin(v / 2, a - 1, b); }
  }

  lemma {:induction false} AsrMono(v: int, w: int, s: nat)
    requires v <= w
    ensures Asr(v, s) <= Asr(w, s)
    decreases s
  {
    if s > 0 { AsrMono(v / 2, w / 2, s - 1); }
  }

  /** Whole units pass through. */
  lemma {:induction false} AsrUnits(v: int, k: int, s: nat)
    ensures Asr(v + Left(k, s), s) == Asr(v, s) + k
    decreases s
  {
    if s > 0 {
      assert (v + 2 * Left(k, s - 1)) / 2 == v / 2 + Left(k, s - 1);
      AsrUnits(v / 2, k, s - 1);
    }
  }

  lemma {:induction false} AsrRange(v: int, s: nat)
    ensures Left(Asr(v, s), s) <= v < Left(Asr(v, s), s) + Pow2(s)
    decreases s
  {
    if s > 0 { AsrRange(v / 2, s - 1); }
  }

  lemma {:induction false} AsrSmall(l: nat, s: nat)
    requires l < Pow2(s)
    ensures Asr(l, s) == 0
    decreases s
  {
    if s > 0 { AsrSmall(l / 2, s - 1); }
  }

  lemma {:induction false} AsrBetween(v: int, s: nat)
    ensures v >= 0 ==> 0 <= Asr(v, s) <= v
    ensures v < 0 ==> v <= Asr(v, s) < 0
    decreases s
  {
    if s > 0 { AsrBetween(v / 2, s - 1); }
  }

  /** sat_act */
  function Sat(v: int): int { if v > 8191 then 8191 else if v < -8191 then -8191 else v }
}
