/** Numbers as text: printing (tinyprintf.c:108-134, 172-219) and parsing (strntoumax.c) undo each other. */
module Text {
  import opened Arith
  import opened Words

  // ---------------------------------------------------------------- digits

  function DigitChar(d: nat, upper: bool): char
    requires d < 16
  {
    if d < 10 then '0' + d as char else (if upper then 'A' else 'a') + (d - 10) as char
  }

  /** digitval */
  function DigitVal(c: char): int {
    if '0' <= c <= '9' then c as int - '0' as int
    else if 'A' <= c <= 'Z' then c as int - 'A' as int + 10
    else if 'a' <= c <= 'z' then c as int - 'a' as int + 10
    else -1
  }

  lemma DigitBack(d: nat, upper: bool)
    requires d < 16
    ensures DigitVal(DigitChar(d, upper)) == d && DigitChar(d, upper) != '\0'
  {}

  predicate Base(b: nat) { b == 8 || b == 10 || b == 16 }

  function Div(a: nat, b: nat): nat
    requires b > 0
  {
    a / b
  }

  function Mod(a: nat, b: nat): nat
    requires b > 0
  {
    a % b
  }

  lemma QuotientSmaller(v: nat, b: nat)
    requires b > 1
    ensures Mod(v, b) < b && v == Div(v, b) * b + Mod(v, b) && (v >= b ==> Div(v, b) < v)
  {
    var q := v / b;
    assert v == q * b + v % b;
    Below(2, b, q);
  }

  /** The digits of v, most significant first. */
  function Digits(v: nat, b: nat, upper: bool): seq<char>
    requires Base(b)
    decreases v
  {
    QuotientSmaller(v, b);
    (if v < b then [] else Digits(Div(v, b), b, upper)) + [DigitChar(Mod(v, b), upper)]
  }

  /** The digits of v without a leading zero: none for 0. */
  function Significant(v: nat, b: nat, upper: bool): seq<char>
    requires Base(b)
  {
    if v == 0 then [] else Digits(v, b, upper)
  }

  lemma NextDigit(q: nat, d: nat, b: nat, upper: bool)
    requires Base(b) && d < b && (q > 0 || d > 0)
    ensures Significant(q * b + d, b, upper) == Significant(q, b, upper) + [DigitChar(d, upper)]
  {
    DivUnique(q * b + d, b, q, d);
  }

  function Power(b: nat, k: nat): (p: nat)
    requires b > 0
    ensures p > 0
  {
    if k == 0 then 1 else b * Power(b, k - 1)
  }

  lemma {:induction false} PowerGrows(b: nat, k: nat)
    requires b >= 8
    ensures Power(b, k) >= Power(8, k)
  {
    if k > 0 {
      PowerGrows(b, k - 1);
      Below(8, b, Power(b, k - 1));
      Below(Power(8, k - 1), Power(b, k - 1), 8);
    }
  }

  /** A 32-bit number has at most 11 digits. */
  lemma FewDigits(b: nat, k: nat)
    requires Base(b) && Power(b, k) < 0x1_0000_0000
    ensures k <= 10
  {
    PowerGrows(b, k);
    EightTo11();
    if k >= 11 { PowerMono(11, k); }
  }

  lemma EightTo11()
    ensures Power(8, 11) == 0x2_0000_0000
  {
    assert Power(8, 5) == 32768;
    assert Power(8, 8) == 512 * Power(8, 5);
  }

  lemma {:induction false} PowerMono(j: nat, k: nat)
    requires j <= k
    ensures Power(8, j) <= Power(8, k)
    decreases k
  {
    if j < k { PowerMono(j, k - 1); }
  }

  // ---------------------------------------------------------------- ui2a

  /** The highest power of the base that is not above num. */
  method HighestPower(num: nat, b: nat) returns (d: nat, ghost k: nat)
    requires Base(b) && num < 0x1_0000_0000
    ensures d == Power(b, k) && num < d * b && (d <= num || k == 0) && k <= 10
  {
    d, k := 1, 0;
    while num / d >= b
      invariant d == Power(b, k) && (d <= num || k == 0)
      decreases num / d
    {
      var q := num / d;
      assert q * d <= num;
      Below(b, q, d);
      Quotients(num, d, b);
      d, k := d * b, k + 1;
    }
    Remainder(num, d, b);
    if k > 0 { FewDigits(b, k); }
  }

  lemma Quotients(num: nat, d: nat, b: nat)
    requires d > 0 && b > 1 && num / d >= b
    ensures num / (d * b) < num / d && d * b > 0
  {
    var q := num / (d * b);
    Below(1, d, b);
    assert q * (d * b) <= num;
    assert q * (d * b) == (q * b) * d;
    if num / d < q * b { Below(num / d + 1, q * b, d); }
    assert q * b <= num / d;
    Below(2, b, q);
  }

  lemma Remainder(num: nat, d: nat, b: nat)
    requires d > 0 && num / d < b
    ensures num < d * b
  {
    Below(num / d + 1, b, d);
    assert num < (num / d + 1) * d;
  }

  /** One step of the second loop: the leading digit of what is left. */
  lemma Leading(num: nat, q: nat, left: nat, d: nat, b: nat)
    requires d > 0 && b > 0 && num == q * (d * b) + left && left < d * b
    ensures Div(left, d) < b && num == (q * b + Div(left, d)) * d + Mod(left, d) && Mod(left, d) < d
  {
    var g := left / d;
    if g >= b { Below(b, g, d); }
    assert q * (d * b) == q * b * d;
    assert (q * b + g) * d == q * b * d + g * d;
  }

  /** The second loop at the power d = b^j, with the digits of q written. */
  ghost predicate Writing(num: nat, b: nat, upper: bool, q: nat, left: nat, d: nat, j: int, k: nat, text: seq<char>)
    requires Base(b)
  {
    (|text| == k - j
    && (d == 0 ==> j == -1 && text == Digits(num, b, upper))
    && (d > 0 ==> 0 <= j <= k && d == Power(b, j) && num == q * (d * b) + left && left < d * b)
    && (d > 0 ==> text == Significant(q, b, upper) && (j < k ==> q > 0) && (j == k > 0 ==> d <= left))) == true  // kept whole in proofs
  }

  /** One more digit g, and the next lower power. */
  lemma WriteDigit(num: nat, b: nat, upper: bool, q: nat, left: nat, d: nat, j: int, k: nat, text: seq<char>,
                   g: nat, rest: nat, lower: nat)
    returns (more: nat)
    requires Base(b) && d > 0 && Writing(num, b, upper, q, left, d, j, k, text)
    requires g == Div(left, d) && rest == Mod(left, d) && lower == Div(d, b)
    ensures g < b && (text != [] || g > 0 || lower == 0)
    ensures Writing(num, b, upper, more, rest, lower, j - 1, k, text + [DigitChar(g, upper)])
  {
    Leading(num, q, left, d, b);
    more := q * b + g;
    LowerPower(b, j);
    if j == k > 0 { LeadingPositive(left, d); }
    if q > 0 || g > 0 { NextDigit(q, g, b, upper); }
    LastDigit(num, more, rest, d, j, b);
  }

  /** When the power is 1 all digits are written. */
  lemma LastDigit(num: nat, q: nat, rest: nat, d: nat, j: nat, b: nat)
    requires Base(b) && d == Power(b, j) && num == q * d + rest && rest < d
    ensures j == 0 ==> num == q && rest == 0
  {}

  lemma LeadingPositive(left: nat, d: nat)
    requires 0 < d <= left
    ensures Div(left, d) > 0
  {
    assert left < (left / d + 1) * d;
  }

  lemma LowerPower(b: nat, j: nat)
    requires b > 1
    ensures Div(Power(b, j), b) == if j == 0 then 0 else Power(b, j - 1)
    ensures j > 0 ==> Power(b, j) == Power(b, j - 1) * b
  {
    if j > 0 { DivUnique(Power(b, j), b, Power(b, j - 1), 0); }
  }

  /** ui2a: the digits and a terminating zero, in a buffer of 12 characters. */
  method UnsignedToText(num: nat, b: nat, upper: bool, bf: array<char>) returns (n: nat)
    requires Base(b) && num < 0x1_0000_0000 && bf.Length == 12
    modifies bf
    ensures n < 12 && bf[..n] == Digits(num, b, upper) && bf[n] == '\0'
  {
    var d: nat, k := HighestPower(num, b);
    var left: nat := num;
    ghost var q: nat, j: int := 0, k;
    n := 0;
    while d != 0
      invariant n <= k + 1 <= 11 && Writing(num, b, upper, q, left, d, j, k, bf[..n]) && j >= -1
      decreases j
    {
      var dgt, rest, lower := Div(left, d), Mod(left, d), Div(d, b);
      q := WriteDigit(num, b, upper, q, left, d, j, k, bf[..n], dgt, rest, lower);
      ghost var text := bf[..n];
      left, d, j := rest, lower, j - 1;
      if n > 0 || dgt > 0 || d == 0 {
        bf[n] := DigitChar(dgt, upper);
        n := n + 1;
        assert bf[..n] == text + [DigitChar(dgt, upper)];
      }
    }
    bf[n] := '\0';
  }

  // ---------------------------------------------------------------- putchw

  /** How a number is to be shown; sign is '-' or none. */
  datatype Style = Style(width: int, zeros: bool, minus: bool, alt: bool, base: nat, upper: bool)

  function Repeat(c: char, n: int): (r: seq<char>)
    ensures |r| == (if n < 0 then 0 else n) && forall i :: 0 <= i < |r| ==> r[i] == c
  {
    seq(if n < 0 then 0 else n, i => c)
  }

  function SignText(p: Style): seq<char> { if p.minus then "-" else "" }

  function AltText(p: Style): seq<char> {
    if p.alt && p.base == 16 then (if p.upper then "0X" else "0x") else if p.alt && p.base == 8 then "0" else ""
  }

  /** The number without filling. */
  function Natural(p: Style, digits: seq<char>): seq<char> { SignText(p) + AltText(p) + digits }

  /** The number as shown: filled with spaces before it, or with zeros after sign and prefix. */
  function Shown(p: Style, digits: seq<char>): seq<char> {
    var fill := p.width - |Natural(p, digits)|;
    if p.zeros then SignText(p) + AltText(p) + Repeat('0', fill) + digits
    else Repeat(' ', fill) + Natural(p, digits)
  }

  lemma ShownLength(p: Style, digits: seq<char>)
    ensures |Shown(p, digits)| == if p.width > |Natural(p, digits)| then p.width else |Natural(p, digits)|
  {}

  /** The buffer holds len characters and a terminating zero. */
  ghost predicate Holds(bf: array<char>, len: nat)
    reads bf
  {
    len < bf.Length && bf[len] == '\0' && forall i :: 0 <= i < len ==> bf[i] != '\0'
  }

  /** The number of filling characters, if positive. */
  method FillCount(p: Style, bf: array<char>, ghost len: nat) returns (n: int)
    requires Holds(bf, len)
    ensures var fill := p.width - |Natural(p, bf[..len])|; n == fill || (n <= 0 && fill <= 0)
  {
    var i := 0;
    n := p.width;
    while bf[i] != '\0' && n > 0
      invariant i <= len && n == p.width - i && (i > 0 ==> n >= 0)
      decreases len - i
    {
      n, i := n - 1, i + 1;
    }
    if p.minus { n := n - 1; }
    if p.alt && p.base == 16 { n := n - 2; } else if p.alt && p.base == 8 { n := n - 1; }
  }

  /** Filling, sign and prefix. */
  method Lead(p: Style, n: int) returns (out: seq<char>)
    ensures out == (if p.zeros then [] else Repeat(' ', n)) + SignText(p) + AltText(p) + if p.zeros then Repeat('0', n) else []
  {
    out := [];
    if !p.zeros { out := Repeat(' ', n); }
    if p.minus { out := out + ['-']; }
    if p.alt && p.base == 16 {
      out := out + ['0'];
      out := out + [if p.upper then 'X' else 'x'];
    } else if p.alt && p.base == 8 {
      out := out + ['0'];
    }
    if p.zeros { out := out + Repeat('0', n); }
  }

  /** putchw: what is written for the digits in the buffer. */
  method Put(p: Style, bf: array<char>, ghost len: nat) returns (out: seq<char>, written: nat)
    requires Holds(bf, len)
    ensures out == Shown(p, bf[..len]) && written == |out|
  {
    var n := FillCount(p, bf, len);
    out := Lead(p, n);
    FillIs(p, bf[..len], n, out);
    ghost var before := out;
    var i := 0;
    while bf[i] != '\0'
      invariant i <= len && out == before + bf[..i]
      decreases len - i
    {
      out := out + [bf[i]];
      i := i + 1;
    }
    written := |out|;
  }

  /** What precedes the digits. */
  lemma FillIs(p: Style, digits: seq<char>, n: int, out: seq<char>)
    requires var fill := p.width - |Natural(p, digits)|; n == fill || (n <= 0 && fill <= 0)
    requires out == (if p.zeros then [] else Repeat(' ', n)) + SignText(p) + AltText(p) + if p.zeros then Repeat('0', n) else []
    ensures out + digits == Shown(p, digits)
  {
    var fill := p.width - |Natural(p, digits)|;
    assert Repeat('0', n) == Repeat('0', fill) && Repeat(' ', n) == Repeat(' ', fill);
  }

  // ---------------------------------------------------------------- strntoumax

  predicate IsSpace(c: char) { c == ' ' || '\t' <= c <= '\r' }

  function DropSpaces(t: seq<char>): seq<char> { if t != [] && IsSpace(t[0]) then DropSpaces(t[1..]) else t }

  function HasSign(t: seq<char>): bool { t != [] && (t[0] == '-' || t[0] == '+') }

  function HasHex(t: seq<char>): bool { |t| >= 2 && t[0] == '0' && (t[1] == 'x' || t[1] == 'X') }

  /** The base that is read and the text after its prefix. */
  function AfterPrefix(t: seq<char>, base: nat): (nat, seq<char>) {
    if base == 0 then
      if HasHex(t) then (16, t[2..]) else if t != [] && t[0] == '0' then (8, t[1..]) else (10, t)
    else if base == 16 && HasHex(t) then (16, t[2..])
    else (base, t)
  }

  predicate IsDigit(c: char, b: nat) { 0 <= DigitVal(c) < b }

  /** The value of the leading digits, after acc. */
  function Horner(t: seq<char>, b: nat, acc: nat): nat
    decreases |t|
  {
    if t != [] && IsDigit(t[0], b) then Horner(t[1..], b, acc * b + DigitVal(t[0])) else acc
  }

  /** What is left behind the leading digits. */
  function AfterDigits(t: seq<char>, b: nat): seq<char> {
    if t != [] && IsDigit(t[0], b) then AfterDigits(t[1..], b) else t
  }

  /** The sign, the base and the text from the digits on (section 7.8.2.3 of ISO/IEC 9899:1999). */
  function Scan(t: seq<char>, base: nat): (bool, nat, seq<char>) {
    var t1 := DropSpaces(t);
    var (b, t2) := AfterPrefix(if HasSign(t1) then t1[1..] else t1, base);
    (HasSign(t1) && t1[0] == '-', b, t2)
  }

  /** What the text means, in 64 bits. */
  function Parsed(t: seq<char>, base: nat): nat {
    var (minus, b, digits) := Scan(t, base);
    U64(if minus then 0 - Horner(digits, b, 0) else Horner(digits, b, 0))
  }

  /** What is not read. */
  function Remaining(t: seq<char>, base: nat): seq<char> {
    var (_, b, digits) := Scan(t, base);
    AfterDigits(digits, b)
  }

  lemma U64Step(x: nat, b: nat, d: nat)
    ensures U64(U64(x) * b + d) == U64(x * b + d)
  {
    var W := 0x1_0000_0000_0000_0000;
    var q := x / W;
    assert x == q * W + U64(x);
    var p := q * b;
    assert x * b + d == U64(x) * b + d + p * W;
    U64Period(U64(x) * b + d, p);
  }

  lemma U64Period(x: int, q: int)
    ensures U64(x + q * 0x1_0000_0000_0000_0000) == U64(x)
  {}

  /** The first loop of strntoumax. */
  method SkipSpaces(s: seq<char>, n: nat) returns (i: nat)
    requires n <= |s|
    ensures i <= n && DropSpaces(s[..n]) == s[..n][i..]
  {
    ghost var t := s[..n];
    i := 0;
    while i < n && IsSpace(s[i])
      invariant i <= n && DropSpaces(t) == DropSpaces(t[i..])
    {
      assert t[i..][1..] == t[i + 1..];
      i := i + 1;
    }
  }

  /** The prefix that gives or confirms the base. */
  method SkipPrefix(s: seq<char>, base: nat, n: nat, i0: nat) returns (i: nat, b: nat)
    requires i0 <= n <= |s|
    ensures i0 <= i <= n && AfterPrefix(s[..n][i0..], base) == (b, s[..n][i..])
  {
    i, b := i0, base;
    if base == 0 {
      if n - i >= 2 && s[i] == '0' && (s[i + 1] == 'x' || s[i + 1] == 'X') {
        i, b := i + 2, 16;
      } else if n - i >= 1 && s[i] == '0' {
        i, b := i + 1, 8;
      } else {
        b := 10;
      }
    } else if base == 16 {
      if n - i >= 2 && s[i] == '0' && (s[i + 1] == 'x' || s[i + 1] == 'X') { i := i + 2; }
    }
  }

  lemma NoneRead()
    ensures U64(0) == 0
  {}

  lemma OneRead(t: seq<char>, k: nat, b: nat, x: nat)
    requires k < |t| && IsDigit(t[k], b)
    ensures Horner(t[k..], b, x) == Horner(t[k + 1..], b, x * b + DigitVal(t[k]))
    ensures AfterDigits(t[k..], b) == AfterDigits(t[k + 1..], b)
  {
    assert t[k..][1..] == t[k + 1..];
  }

  lemma LastRead(t: seq<char>, k: nat, b: nat, x: nat)
    requires k <= |t| && (k == |t| || !IsDigit(t[k], b))
    ensures Horner(t[k..], b, x) == x && AfterDigits(t[k..], b) == t[k..]
  {}

  /** The last loop. */
  method ReadDigits(s: seq<char>, b: nat, n: nat, i0: nat) returns (v: nat, end: nat)
    requires i0 <= n <= |s|
    ensures v == U64(Horner(s[..n][i0..], b, 0)) && i0 <= end <= n && AfterDigits(s[..n][i0..], b) == s[..n][end..]
  {
    hide U64, Horner, AfterDigits;
    ghost var t, x: nat := s[..n], 0;
    NoneRead();
    v, end := 0, i0;
    while end < n && DigitVal(s[end]) >= 0 && DigitVal(s[end]) < b
      invariant i0 <= end <= n && v == U64(x) && Horner(t[i0..], b, 0) == Horner(t[end..], b, x)
      invariant AfterDigits(t[i0..], b) == AfterDigits(t[end..], b)
    {
      var d := DigitVal(s[end]);
      OneRead(t, end, b, x);
      U64Step(x, b, d);
      v, x := U64(v * b + d), x * b + d;
      end := end + 1;
    }
    LastRead(t, end, b, x);
  }

  /** strntoumax over n characters of s. */
  method StrToUMax(s: seq<char>, base: nat, n: nat) returns (v: nat, end: nat)
    requires n <= |s|
    ensures v == Parsed(s[..n], base) && end <= n && Remaining(s[..n], base) == s[..n][end..]
  {
    ghost var t := s[..n];
    var i := SkipSpaces(s, n);
    var minus := false;
    if i < n && (s[i] == '-' || s[i] == '+') {
      minus := s[i] == '-';
      assert t[i..][1..] == t[i + 1..];
      i := i + 1;
    }
    var b;
    i, b := SkipPrefix(s, base, n, i);
    v, end := ReadDigits(s, b, n, i);
    if minus {
      U64Negate(Horner(t[i..], b, 0));
      v := U64(0 - v);
    }
  }

  lemma U64Negate(x: nat)
    ensures U64(0 - U64(x)) == U64(0 - x)
  {
    var q: int := x / 0x1_0000_0000_0000_0000;
    U64Period(0 - U64(x), 0 - q);
  }

  // ---------------------------------------------------------------- the round trip

  predicate AllDigits(t: seq<char>, b: nat) { forall i :: 0 <= i < |t| ==> IsDigit(t[i], b) }

  lemma {:induction false} HornerJoin(x: seq<char>, y: seq<char>, b: nat, acc: nat)
    requires AllDigits(x, b)
    ensures Horner(x + y, b, acc) == Horner(y, b, Horner(x, b, acc))
    decreases |x|
  {
    if x == [] {
      assert x + y == y;
    } else {
      assert (x + y)[1..] == x[1..] + y;
      assert IsDigit(x[0], b);
      HornerJoin(x[1..], y, b, acc * b + DigitVal(x[0]));
    }
  }

  /** The digits of v read back as v. */
  lemma {:induction false} DigitsBack(v: nat, b: nat, upper: bool)
    requires Base(b)
    ensures AllDigits(Digits(v, b, upper), b) && Horner(Digits(v, b, upper), b, 0) == v
    decreases v
  {
    QuotientSmaller(v, b);
    var d := DigitChar(Mod(v, b), upper);
    DigitBack(Mod(v, b), upper);
    if v < b {
      OneDigit(d, b, 0);
      assert Digits(v, b, upper) == [d];
    } else {
      DigitsBack(Div(v, b), b, upper);
      HornerJoin(Digits(Div(v, b), b, upper), [d], b, 0);
      OneDigit(d, b, Div(v, b));
    }
  }

  lemma {:induction false} AllRead(t: seq<char>, b: nat)
    requires AllDigits(t, b)
    ensures AfterDigits(t, b) == []
  {
    if t != [] {
      assert IsDigit(t[0], b);
      AllRead(t[1..], b);
    }
  }

  lemma OneDigit(c: char, b: nat, acc: nat)
    requires IsDigit(c, b)
    ensures Horner([c], b, acc) == acc * b + DigitVal(c)
  {
    assert [c][1..] == [];
  }

  lemma {:induction false} ZerosRead(n: nat, b: nat)
    requires b > 0
    ensures AllDigits(Repeat('0', n), b) && Horner(Repeat('0', n), b, 0) == 0
  {
    if n > 0 {
      assert Repeat('0', n)[1..] == Repeat('0', n - 1);
      ZerosRead(n - 1, b);
    }
  }

  /** Zeros and digits, without sign or prefix. */
  lemma Magnitude(v: nat, b: nat, upper: bool, zeros: int)
    requires Base(b)
    ensures var t := Repeat('0', zeros) + Digits(v, b, upper); AllDigits(t, b) && t != [] && Horner(t, b, 0) == v
  {
    DigitsBack(v, b, upper);
    ZerosRead(|Repeat('0', zeros)|, b);
    assert Repeat('0', |Repeat('0', zeros)|) == Repeat('0', zeros);
    HornerJoin(Repeat('0', zeros), Digits(v, b, upper), b, 0);
  }

  /** With its prefix, if it has one, in the matching base. */
  lemma Prefixed(p: Style, t: seq<char>)
    requires Base(p.base) && AllDigits(t, p.base) && t != []
    ensures AfterPrefix(AltText(p) + t, p.base) == (p.base, if p.alt && p.base == 8 then "0" + t else t)
    ensures !IsSpace((AltText(p) + t)[0]) && !HasSign(AltText(p) + t)
  {
    assert IsDigit(t[0], p.base) && (|t| > 1 ==> IsDigit(t[1], p.base));
    if p.alt && p.base == 16 {
      assert (AltText(p) + t)[2..] == t;
    } else if !(p.alt && p.base == 8) {
      assert AltText(p) + t == t;
    }
  }

  lemma {:induction false} SpacesDropped(n: nat, t: seq<char>)
    requires t != [] && !IsSpace(t[0])
    ensures DropSpaces(Repeat(' ', n) + t) == t
  {
    if n > 0 {
      assert (Repeat(' ', n) + t)[1..] == Repeat(' ', n - 1) + t;
      SpacesDropped(n - 1, t);
    } else {
      assert Repeat(' ', n) + t == t;
    }
  }

  /** What follows the spaces: a sign perhaps, a prefix perhaps, and digits. */
  lemma Scanned(p: Style, t: seq<char>, spaces: nat)
    requires Base(p.base) && AllDigits(t, p.base) && t != []
    ensures Scan(Repeat(' ', spaces) + (SignText(p) + (AltText(p) + t)), p.base)
      == (p.minus, p.base, if p.alt && p.base == 8 then "0" + t else t)
  {
    Prefixed(p, t);
    var t2 := AltText(p) + t;
    var t1 := SignText(p) + t2;
    assert t1 == if p.minus then ['-'] + t2 else t2;
    assert p.minus ==> t1[1..] == t2;
    SpacesDropped(spaces, t1);
  }

  lemma ReadsBack(p: Style, v: nat, zeros: int, spaces: nat)
    requires Base(p.base)
    ensures var t := Repeat(' ', spaces) + (SignText(p) + (AltText(p) + (Repeat('0', zeros) + Digits(v, p.base, p.upper))));
      Parsed(t, p.base) == U64(if p.minus then 0 - v else v) && Remaining(t, p.base) == []
  {
    var t := Repeat('0', zeros) + Digits(v, p.base, p.upper);
    Magnitude(v, p.base, p.upper, zeros);
    Scanned(p, t, spaces);
    LeadingZero(t, p.base);
    AllRead(t, p.base);
  }

  lemma LeadingZero(t: seq<char>, b: nat)
    requires b > 0
    ensures Horner("0" + t, b, 0) == Horner(t, b, 0) && AfterDigits("0" + t, b) == AfterDigits(t, b)
  {
    assert ("0" + t)[1..] == t && ("0" + t)[0] == '0';
  }

  /** The parts of what is shown. */
  lemma ShownParts(p: Style, digits: seq<char>) returns (spaces: nat, zeros: int)
    ensures Shown(p, digits) == Repeat(' ', spaces) + (SignText(p) + (AltText(p) + (Repeat('0', zeros) + digits)))
  {
    var fill := p.width - |Natural(p, digits)|;
    var s, a := SignText(p), AltText(p);
    if p.zeros {
      spaces, zeros := 0, fill;
      var z := Repeat('0', fill);
      assert s + a + z + digits == Repeat(' ', 0) + (s + (a + (z + digits)));
    } else {
      spaces, zeros := |Repeat(' ', fill)|, 0;
      var b := Repeat(' ', fill);
      assert Repeat(' ', spaces) == b;
      assert b + (s + a + digits) == b + (s + (a + (Repeat('0', 0) + digits)));
    }
  }

  /** Printing and parsing in the matching base gives the number back, for every width, filling and prefix. */
  lemma RoundTrip(p: Style, v: nat)
    requires Base(p.base)
    ensures Parsed(Shown(p, Digits(v, p.base, p.upper)), p.base) == U64(if p.minus then 0 - v else v)
    ensures Remaining(Shown(p, Digits(v, p.base, p.upper)), p.base) == []
  {
    var spaces, zeros := ShownParts(p, Digits(v, p.base, p.upper));
    ReadsBack(p, v, zeros, spaces);
  }

  /** Spaces and a plus sign change nothing, a minus sign negates. */
  lemma SignsAndSpaces(t: seq<char>, base: nat, c: char)
    requires IsSpace(c)
    ensures Parsed([c] + t, base) == Parsed(t, base) && Remaining([c] + t, base) == Remaining(t, base)
    ensures t == [] || !(IsSpace(t[0]) || HasSign(t)) ==>
      && Parsed(['+'] + t, base) == Parsed(t, base) && Remaining(['+'] + t, base) == Remaining(t, base)
      && Parsed(['-'] + t, base) == U64(0 - Parsed(t, base)) && Remaining(['-'] + t, base) == Remaining(t, base)
  {
    assert ([c] + t)[1..] == t && (['+'] + t)[1..] == t && (['-'] + t)[1..] == t;
    var (minus, b, digits) := Scan(t, base);
    U64Negate(Horner(digits, b, 0));
  }

  lemma {:induction false} FirstDigit(v: nat, b: nat, upper: bool)
    requires Base(b) && v > 0
    ensures Digits(v, b, upper) != [] && Digits(v, b, upper)[0] != '0'
    decreases v
  {
    QuotientSmaller(v, b);
    if v >= b {
      FirstDigit(Div(v, b), b, upper);
    }
  }

  /** Without a base the text decides: 0x or 0X stands for 16, any other leading 0 for 8, and no leading 0 for 10. */
  lemma BaseDetected(v: nat, upper: bool, x: char)
    requires x == 'x' || x == 'X'
    ensures Parsed(Digits(v, 10, upper), 0) == U64(v) && Remaining(Digits(v, 10, upper), 0) == []
    ensures Parsed(['0'] + Digits(v, 8, upper), 0) == U64(v) && Remaining(['0'] + Digits(v, 8, upper), 0) == []
    ensures Parsed(['0', x] + Digits(v, 16, upper), 0) == U64(v) && Remaining(['0', x] + Digits(v, 16, upper), 0) == []
  {
    DecimalDetected(v, upper);
    OctalDetected(v, upper);
    var t := Digits(v, 16, upper);
    DigitsBack(v, 16, upper);
    AllRead(t, 16);
    assert (['0', x] + t)[2..] == t;
  }

  lemma DecimalDetected(v: nat, upper: bool)
    ensures Parsed(Digits(v, 10, upper), 0) == U64(v) && Remaining(Digits(v, 10, upper), 0) == []
  {
    var t := Digits(v, 10, upper);
    DigitsBack(v, 10, upper);
    AllRead(t, 10);
    assert IsDigit(t[0], 10);
    if v > 0 {
      FirstDigit(v, 10, upper);
    } else {
      assert t == ['0'];
      assert t[1..] == [];
    }
  }

  lemma OctalDetected(v: nat, upper: bool)
    ensures Parsed(['0'] + Digits(v, 8, upper), 0) == U64(v) && Remaining(['0'] + Digits(v, 8, upper), 0) == []
  {
    var t := Digits(v, 8, upper);
    DigitsBack(v, 8, upper);
    AllRead(t, 8);
    assert (['0'] + t)[1..] == t && IsDigit(t[0], 8);
  }

  /** i2a and putchw for %d: a negative number is shown by its magnitude (in 32 bits) and a sign. */
  method Printed(num: int, p: Style) returns (out: seq<char>)
    requires Base(p.base) && -0x8000_0000 <= num < 0x1_0000_0000 && !p.minus
    ensures Parsed(out, p.base) == U64(num) && Remaining(out, p.base) == []
    ensures out == Shown(p.(minus := num < 0), Digits(if num < 0 then -num else num, p.base, p.upper))
  {
    var bf := new char[12];
    var q, v: nat := p.(minus := num < 0), if num < 0 then -num else num;
    var n := UnsignedToText(v, p.base, p.upper, bf);
    DigitsNotZero(v, p.base, p.upper);
    assert forall i :: 0 <= i < n ==> bf[i] == bf[..n][i];
    var written;
    out, written := Put(q, bf, n);
    RoundTrip(q, v);
  }

  lemma {:induction false} DigitsNotZero(v: nat, b: nat, upper: bool)
    requires Base(b)
    ensures forall i :: 0 <= i < |Digits(v, b, upper)| ==> Digits(v, b, upper)[i] != '\0'
    decreases v
  {
    QuotientSmaller(v, b);
    DigitBack(Mod(v, b), upper);
    if v >= b { DigitsNotZero(Div(v, b), b, upper); }
  }
}
