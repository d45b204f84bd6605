/** The CRC of CoreMark (core_util.c): bit by bit in the source, the register of CRC-16 byte by byte in the specification. */
module CoreCrc {

  const POLYNOMIAL: bv16 := 0xA001         // x^16 + x^15 + x^2 + 1, bits reversed

  function Feedback(c: bv16): bv16 { if c & 1 == 1 then POLYNOMIAL else 0 }

  /** One shift of the register. */
  function Shift(c: bv16): bv16 { (c >> 1) ^ Feedback(c) }

  function Shifts(c: bv16, n: nat): bv16
    decreases n
  {
    if n == 0 then c else Shifts(Shift(c), n - 1)
  }

  /** A byte is added to the register, which is then shifted eight times. */
  function Crc8(data: bv16, crc: bv16): bv16 { Shifts(crc ^ data, 8) }

  /** The low byte, then the high one. */
  function Crc16(newval: bv16, crc: bv16): bv16 { Crc8(newval >> 8, Crc8(newval & 0xff, crc)) }

  // ---------------------------------------------------------------- bits

  lemma HalfAdds(a: bv16, b: bv16)
    ensures (a ^ b) >> 1 == (a >> 1) ^ (b >> 1)
  {}

  lemma LowAdds(a: bv16, b: bv16)
    ensures (a ^ b) & 1 == (a & 1) ^ (b & 1)
  {}

  lemma LowBit(a: bv16)
    ensures a & 1 == 0 || a & 1 == 1
  {}

  lemma Regroup(a: bv16, b: bv16, c: bv16, d: bv16)
    ensures (a ^ b) ^ (c ^ d) == (a ^ c) ^ (b ^ d)
  {}

  lemma Cancel(a: bv16, b: bv16, c: bv16)
    ensures a ^ c == b ^ c ==> a == b
  {}

  lemma FeedbackAdds(a: bv16, b: bv16)
    ensures Feedback(a ^ b) == Feedback(a) ^ Feedback(b)
  {
    LowAdds(a, b);
    LowBit(a);
    LowBit(b);
  }

  /** Addition of polynomials. */
  function Add(a: bv16, b: bv16): bv16 { a ^ b }

  lemma ShiftAdds(a: bv16, b: bv16)
    ensures Shift(Add(a, b)) == Add(Shift(a), Shift(b))
  {
    hide Feedback;
    HalfAdds(a, b);
    FeedbackAdds(a, b);
    Regroup(a >> 1, b >> 1, Feedback(a), Feedback(b));
  }

  lemma {:induction false} ShiftsAdd(a: bv16, b: bv16, n: nat)
    ensures Shifts(Add(a, b), n) == Add(Shifts(a, n), Shifts(b, n))
    decreases n
  {
    hide Shift, Add;
    if n > 0 {
      ShiftAdds(a, b);
      ShiftsAdd(Shift(a), Shift(b), n - 1);
    }
  }

  /** The shift loses nothing: the top bit tells whether the polynomial was added. */
  lemma ShiftOnce(a: bv16, b: bv16)
    ensures Shift(a) == Shift(b) ==> a == b
  {
  }

  lemma {:induction false} ShiftsOnce(a: bv16, b: bv16, n: nat)
    requires Shifts(a, n) == Shifts(b, n)
    ensures a == b
    decreases n
  {
    hide Shift;
    if n > 0 {
      ShiftsOnce(Shift(a), Shift(b), n - 1);
      ShiftOnce(a, b);
    }
  }

  // ---------------------------------------------------------------- crcu8

  /** data has n bits. */
  predicate Bits(data: bv16, n: int) {
    data <= if n >= 8 then 255 else if n == 7 then 127 else if n == 6 then 63 else if n == 5 then 31
            else if n == 4 then 15 else if n == 3 then 7 else if n == 2 then 3 else if n == 1 then 1 else 0
  }

  lemma BitsNext(data: bv16, n: int)
    requires 0 < n <= 8 && Bits(data, n)
    ensures Bits(data >> 1, n - 1)
  {}

  function Half(c: bv16): bv16 { c >> 1 }

  function Low(c: bv16): bv16 { c & 1 }

  /** The bits of a byte that are still to come may be shifted later. */
  lemma ShiftLater(data: bv16, crc: bv16)
    ensures Shift(Add(crc, data)) == Add(Shift(Add(crc, Low(data))), Half(data))
  {
    hide Feedback, Shift, Add, Half, Low;
    Parted(crc, data);
    SameFeedback(crc, data);
    ShiftIs(Add(crc, data));
    ShiftIs(Add(crc, Low(data)));
    Later(Half(crc), Half(data), Feedback(Add(crc, Low(data))));
  }

  lemma ShiftIs(c: bv16)
    ensures Shift(c) == Add(Half(c), Feedback(c))
  {}

  lemma Parted(crc: bv16, data: bv16)
    ensures Half(Add(crc, data)) == Add(Half(crc), Half(data)) && Half(Add(crc, Low(data))) == Half(crc)
  {}

  lemma SameFeedback(crc: bv16, data: bv16)
    ensures Feedback(Add(crc, data)) == Feedback(Add(crc, Low(data)))
  {
    assert (crc ^ data) & 1 == (crc ^ (data & 1)) & 1;
  }

  lemma Later(a: bv16, b: bv16, f: bv16)
    ensures Add(Add(a, b), f) == Add(Add(a, f), b)
  {}

  /** What a turn of the loop of crcu8 makes of the register. */
  function Turned(data: bv16, crc: bv16): bv16 {
    if (data & 1) ^ (crc & 1) == 1 then ((crc ^ 0x4002) >> 1) | 0x8000 else (crc >> 1) & 0x7fff
  }

  /** A bit that differs takes the polynomial in: before the shift as the source has it, or behind it. */
  lemma TakenIn(data: bv16, crc: bv16)
    ensures Shift(Add(crc, Low(data))) == Turned(data, crc)
  {
    hide Shift;
    if (data & 1) ^ (crc & 1) == 1 { Differs(data, crc); } else { Agrees(data, crc); }
  }

  lemma Differs(data: bv16, crc: bv16)
    requires (data & 1) ^ (crc & 1) == 1
    ensures ((crc ^ 0x4002) >> 1) | 0x8000 == Shift(Add(crc, Low(data)))
  {}

  lemma Agrees(data: bv16, crc: bv16)
    requires (data & 1) ^ (crc & 1) != 1
    ensures (crc >> 1) & 0x7fff == Shift(Add(crc, Low(data)))
  {}

  lemma NextTurn(data: bv16, crc: bv16, n: nat)
    requires n > 0
    ensures Shifts(Add(Turned(data, crc), Half(data)), n - 1) == Shifts(Add(crc, data), n)
  {
    hide Shift, Add, Feedback, Turned, Half, Low;
    ShiftLater(data, crc);
    TakenIn(data, crc);
  }

  /** The turn itself. */
  method TurnBit(data: bv16, crc0: bv16) returns (crc: bv16)
    ensures crc == Turned(data, crc0)
  {
    hide Turned;
    TurnedIs(data, crc0);
    crc := crc0;
    var x16 := (data & 1) ^ (crc & 1);
    if x16 == 1 {
      crc := crc ^ 0x4002;
      crc := crc >> 1;
      crc := crc | 0x8000;
    } else {
      crc := crc >> 1;
      crc := crc & 0x7fff;
    }
  }

  lemma TurnedIs(data: bv16, crc: bv16)
    ensures (data & 1) ^ (crc & 1) == 1 ==> Turned(data, crc) == ((crc ^ 0x4002) >> 1) | 0x8000
    ensures (data & 1) ^ (crc & 1) != 1 ==> Turned(data, crc) == (crc >> 1) & 0x7fff
  {}

  /** crcu8 */
  method CrcU8(data0: bv16, crc0: bv16) returns (crc: bv16)
    requires data0 <= 255
    ensures crc == Crc8(data0, crc0)
  {
    hide Shift, Add, Shifts, Bits, Crc8, Turned;
    var data := data0;
    crc := crc0;
    Begins(crc, data);
    var i := 0;
    while i < 8
      invariant 0 <= i <= 8 && Bits(data, 8 - i) && Shifts(Add(crc, data), 8 - i) == Crc8(data0, crc0)
    {
      BitsNext(data, 8 - i);
      NextTurn(data, crc, 8 - i);
      crc := TurnBit(data, crc);
      data := data >> 1;
      i := i + 1;
    }
    Ends(crc, data);
  }

  lemma Begins(crc: bv16, data: bv16)
    ensures Shifts(Add(crc, data), 8) == Crc8(data, crc) && (data <= 255 ==> Bits(data, 8))
  {}

  lemma Ends(crc: bv16, data: bv16)
    requires Bits(data, 0)
    ensures Shifts(Add(crc, data), 0) == crc
  {}

  /** crcu16 and crc16 */
  method CrcU16(newval: bv16, crc0: bv16) returns (crc: bv16)
    ensures crc == Crc16(newval, crc0)
  {
    Bytes(newval);
    crc := CrcU8(newval & 0xff, crc0);
    crc := CrcU8(newval >> 8, crc);
  }

  lemma Bytes(v: bv16)
    ensures v & 0xff <= 255 && v >> 8 <= 255
  {}

  // ---------------------------------------------------------------- what a CRC tells

  lemma Crc8Linear(v: bv16, w: bv16, c: bv16, d: bv16)
    ensures Crc8(Add(v, w), Add(c, d)) == Add(Crc8(v, c), Crc8(w, d))
  {
    Regroup(c, d, v, w);
    ShiftsAdd(c ^ v, d ^ w, 8);
  }

  /** The CRC of a sum is the sum of the CRCs. */
  lemma Linear(v: bv16, w: bv16, c: bv16, d: bv16)
    ensures Crc16(v ^ w, c ^ d) == Crc16(v, c) ^ Crc16(w, d)
  {
    hide Crc8;
    BytesAdd(v, w);
    Crc8Linear(v & 0xff, w & 0xff, c, d);
    Crc8Linear(v >> 8, w >> 8, Crc8(v & 0xff, c), Crc8(w & 0xff, d));
  }

  lemma BytesAdd(v: bv16, w: bv16)
    ensures (v ^ w) & 0xff == Add(v & 0xff, w & 0xff) && (v ^ w) >> 8 == Add(v >> 8, w >> 8)
  {}

  lemma Crc8Once(data: bv16, c: bv16, d: bv16)
    requires Crc8(data, c) == Crc8(data, d)
    ensures c == d
  {
    ShiftsOnce(c ^ data, d ^ data, 8);
    Cancel(c, d, data);
  }

  /** Registers that differ stay different: a later word never makes up for an error. */
  lemma RegistersApart(v: bv16, c: bv16, d: bv16)
    ensures Crc16(v, c) == Crc16(v, d) ==> c == d
  {
    hide Crc8;
    if Crc16(v, c) == Crc16(v, d) {
      Crc8Once(v >> 8, Crc8(v & 0xff, c), Crc8(v & 0xff, d));
      Crc8Once(v & 0xff, c, d);
    }
  }
}
