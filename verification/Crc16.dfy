/** crc16.h: the checksum behind hash slots, "CRC-16/XMODEM": remainders of division by x^16 + x^12 + x^5 + 1. */
module Crc16 {
  import opened Options

  // ---- the reference: polynomials over GF(2) as bits, highest power first ----

  const POLY: bv16 := 0x1021

  /** x * r modulo the polynomial */
  function TimesX(r: bv16): bv16 {
    if r & 0x8000 == 0 then r << 1 else (r << 1) ^ POLY
  }

  function Xor(a: bv16, b: bv16): bv16 {
    a ^ b
  }

  function Unit(b: bool): bv16 {
    if b then 1 else 0
  }

  /** Long division, one bit at a time: what is left of p * x + b is x times what is left of p, plus b. */
  function Remainder(p: seq<bool>): bv16 {
    if p == [] then 0 else Xor(TimesX(Remainder(p[..|p| - 1])), Unit(p[|p| - 1]))
  }

  function ByteBits(b: bv8): (p: seq<bool>)
    ensures |p| == 8
  {
    [b & 128 != 0, b & 64 != 0, b & 32 != 0, b & 16 != 0, b & 8 != 0, b & 4 != 0, b & 2 != 0, b & 1 != 0]
  }

  function Bits(s: Bytes): (p: seq<bool>)
    ensures |p| == 8 * |s|
  {
    if s == [] then [] else Bits(s[..|s| - 1]) + ByteBits(s[|s| - 1])
  }

  function Zeros(n: nat): seq<bool> {
    seq(n, _ => false)
  }

  // ---- the table of the source, eight entries a row ----

  function Times8(r: bv16): bv16 {
    TimesX(TimesX(TimesX(TimesX(TimesX(TimesX(TimesX(TimesX(r))))))))
  }

  function Rows0(r: bv16): (s: seq<bv16>)
    ensures |s| == 8
  {
    if r == 0 then [0x0000, 0x1021, 0x2042, 0x3063, 0x4084, 0x50a5, 0x60c6, 0x70e7]
    else if r == 1 then [0x8108, 0x9129, 0xa14a, 0xb16b, 0xc18c, 0xd1ad, 0xe1ce, 0xf1ef]
    else if r == 2 then [0x1231, 0x0210, 0x3273, 0x2252, 0x52b5, 0x4294, 0x72f7, 0x62d6]
    else if r == 3 then [0x9339, 0x8318, 0xb37b, 0xa35a, 0xd3bd, 0xc39c, 0xf3ff, 0xe3de]
    else if r == 4 then [0x2462, 0x3443, 0x0420, 0x1401, 0x64e6, 0x74c7, 0x44a4, 0x5485]
    else if r == 5 then [0xa56a, 0xb54b, 0x8528, 0x9509, 0xe5ee, 0xf5cf, 0xc5ac, 0xd58d]
    else if r == 6 then [0x3653, 0x2672, 0x1611, 0x0630, 0x76d7, 0x66f6, 0x5695, 0x46b4]
    else [0xb75b, 0xa77a, 0x9719, 0x8738, 0xf7df, 0xe7fe, 0xd79d, 0xc7bc]
  }

  function Rows8(r: bv16): (s: seq<bv16>)
    ensures |s| == 8
  {
    if r == 8 then [0x48c4, 0x58e5, 0x6886, 0x78a7, 0x0840, 0x1861, 0x2802, 0x3823]
    else if r == 9 then [0xc9cc, 0xd9ed, 0xe98e, 0xf9af, 0x8948, 0x9969, 0xa90a, 0xb92b]
    else if r == 10 then [0x5af5, 0x4ad4, 0x7ab7, 0x6a96, 0x1a71, 0x0a50, 0x3a33, 0x2a12]
    else if r == 11 then [0xdbfd, 0xcbdc, 0xfbbf, 0xeb9e, 0x9b79, 0x8b58, 0xbb3b, 0xab1a]
    else if r == 12 then [0x6ca6, 0x7c87, 0x4ce4, 0x5cc5, 0x2c22, 0x3c03, 0x0c60, 0x1c41]
    else if r == 13 then [0xedae, 0xfd8f, 0xcdec, 0xddcd, 0xad2a, 0xbd0b, 0x8d68, 0x9d49]
    else if r == 14 then [0x7e97, 0x6eb6, 0x5ed5, 0x4ef4, 0x3e13, 0x2e32, 0x1e51, 0x0e70]
    else [0xff9f, 0xefbe, 0xdfdd, 0xcffc, 0xbf1b, 0xaf3a, 0x9f59, 0x8f78]
  }

  function Rows16(r: bv16): (s: seq<bv16>)
    ensures |s| == 8
  {
    if r == 16 then [0x9188, 0x81a9, 0xb1ca, 0xa1eb, 0xd10c, 0xc12d, 0xf14e, 0xe16f]
    else if r == 17 then [0x1080, 0x00a1, 0x30c2, 0x20e3, 0x5004, 0x4025, 0x7046, 0x6067]
    else if r == 18 then [0x83b9, 0x9398, 0xa3fb, 0xb3da, 0xc33d, 0xd31c, 0xe37f, 0xf35e]
    else if r == 19 then [0x02b1, 0x1290, 0x22f3, 0x32d2, 0x4235, 0x5214, 0x6277, 0x7256]
    else if r == 20 then [0xb5ea, 0xa5cb, 0x95a8, 0x8589, 0xf56e, 0xe54f, 0xd52c, 0xc50d]
    else if r == 21 then [0x34e2, 0x24c3, 0x14a0, 0x0481, 0x7466, 0x6447, 0x5424, 0x4405]
    else if r == 22 then [0xa7db, 0xb7fa, 0x8799, 0x97b8, 0xe75f, 0xf77e, 0xc71d, 0xd73c]
    else [0x26d3, 0x36f2, 0x0691, 0x16b0, 0x6657, 0x7676, 0x4615, 0x5634]
  }

  function Rows24(r: bv16): (s: seq<bv16>)
    ensures |s| == 8
  {
    if r == 24 then [0xd94c, 0xc96d, 0xf90e, 0xe92f, 0x99c8, 0x89e9, 0xb98a, 0xa9ab]
    else if r == 25 then [0x5844, 0x4865, 0x7806, 0x6827, 0x18c0, 0x08e1, 0x3882, 0x28a3]
    else if r == 26 then [0xcb7d, 0xdb5c, 0xeb3f, 0xfb1e, 0x8bf9, 0x9bd8, 0xabbb, 0xbb9a]
    else if r == 27 then [0x4a75, 0x5a54, 0x6a37, 0x7a16, 0x0af1, 0x1ad0, 0x2ab3, 0x3a92]
    else if r == 28 then [0xfd2e, 0xed0f, 0xdd6c, 0xcd4d, 0xbdaa, 0xad8b, 0x9de8, 0x8dc9]
    else if r == 29 then [0x7c26, 0x6c07, 0x5c64, 0x4c45, 0x3ca2, 0x2c83, 0x1ce0, 0x0cc1]
    else if r == 30 then [0xef1f, 0xff3e, 0xcf5d, 0xdf7c, 0xaf9b, 0xbfba, 0x8fd9, 0x9ff8]
    else [0x6e17, 0x7e36, 0x4e55, 0x5e74, 0x2e93, 0x3eb2, 0x0ed1, 0x1ef0]
  }

  function Table(i: bv16): bv16 {
    var r := i >> 3;
    (if r < 8 then Rows0(r) else if r < 16 then Rows8(r) else if r < 24 then Rows16(r) else Rows24(r))[(i & 7) as int]
  }

  lemma Rows0AreRemainders(i: bv16)
    requires 0 <= i < 64
    ensures Rows0(i >> 3)[(i & 7) as int] == Times8(i << 8)
  {
    var r := i >> 3;
    assert r == 0 || r == 1 || r == 2 || r == 3 || r == 4 || r == 5 || r == 6 || r == 7;
  }

  lemma Rows8AreRemainders(i: bv16)
    requires 64 <= i < 128
    ensures Rows8(i >> 3)[(i & 7) as int] == Times8(i << 8)
  {
    var r := i >> 3;
    assert r == 8 || r == 9 || r == 10 || r == 11 || r == 12 || r == 13 || r == 14 || r == 15;
  }

  lemma Rows16AreRemainders(i: bv16)
    requires 128 <= i < 192
    ensures Rows16(i >> 3)[(i & 7) as int] == Times8(i << 8)
  {
    var r := i >> 3;
    assert r == 16 || r == 17 || r == 18 || r == 19 || r == 20 || r == 21 || r == 22 || r == 23;
  }

  lemma Rows24AreRemainders(i: bv16)
    requires 192 <= i < 256
    ensures Rows24(i >> 3)[(i & 7) as int] == Times8(i << 8)
  {
    var r := i >> 3;
    assert r == 24 || r == 25 || r == 26 || r == 27 || r == 28 || r == 29 || r == 30 || r == 31;
  }

  /** Every entry is the remainder of its index, seen as the high byte of a register. */
  lemma TableIsRemainders(i: bv16)
    requires i < 256
    ensures Table(i) == Times8(i << 8)
  {
    if i < 64 {
      Rows0AreRemainders(i);
    } else if i < 128 {
      Rows8AreRemainders(i);
    } else if i < 192 {
      Rows16AreRemainders(i);
    } else {
      Rows24AreRemainders(i);
    }
    hide Rows0, Rows8, Rows16, Rows24, Times8;
  }

  // ---- one byte ----

  /** The body of the loop. */
  function Step(crc: bv16, b: bv8): bv16 {
    Xor(crc << 8, Table(Xor(crc >> 8, b as bv16) & 0xff))
  }

  lemma TimesXShifts(r: bv16)
    ensures var t := r >> 15;
            TimesX(r) == (r << 1) ^ (t << 12) ^ (t << 5) ^ t
  {
    assert r >> 15 == 0 || r >> 15 == 1;
  }

  lemma TimesXLinear(a: bv16, b: bv16)
    ensures TimesX(Xor(a, b)) == Xor(TimesX(a), TimesX(b))
  {
    TimesXShifts(a);
    TimesXShifts(b);
    TimesXShifts(a ^ b);
    hide TimesX;
    Distribute(a, b);
  }

  lemma Distribute(a: bv16, b: bv16)
    ensures var s, t, u := a >> 15, b >> 15, (a ^ b) >> 15;
            ((a ^ b) << 1) ^ (u << 12) ^ (u << 5) ^ u
            == ((a << 1) ^ (s << 12) ^ (s << 5) ^ s) ^ ((b << 1) ^ (t << 12) ^ (t << 5) ^ t)
  {
  }

  lemma Times8Linear(a: bv16, b: bv16)
    ensures Times8(Xor(a, b)) == Xor(Times8(a), Times8(b))
  {
    hide TimesX, Xor;
    var a1, b1 := TimesX(a), TimesX(b);
    var a2, b2 := TimesX(a1), TimesX(b1);
    var a3, b3 := TimesX(a2), TimesX(b2);
    var a4, b4 := TimesX(a3), TimesX(b3);
    var a5, b5 := TimesX(a4), TimesX(b4);
    var a6, b6 := TimesX(a5), TimesX(b5);
    var a7, b7 := TimesX(a6), TimesX(b6);
    TimesXLinear(a, b);
    TimesXLinear(a1, b1);
    TimesXLinear(a2, b2);
    TimesXLinear(a3, b3);
    TimesXLinear(a4, b4);
    TimesXLinear(a5, b5);
    TimesXLinear(a6, b6);
    TimesXLinear(a7, b7);
  }

  lemma Times8Low(a: bv16)
    requires a < 256
    ensures Times8(a) == a << 8
  {
  }

  /** The two halves of a register and a byte to come. */
  lemma Halves(crc: bv16, b: bv16) returns (low: bv16, high: bv16)
    requires b < 256
    ensures low < 256 && high < 256 && high == Xor(crc >> 8, b) & 0xff
    ensures Xor(crc, b << 8) == Xor(low, high << 8) && low << 8 == crc << 8
  {
    low, high := crc & 0xff, Xor(crc >> 8, b) & 0xff;
  }

  lemma StepIsTimes8(crc: bv16, b: bv8)
    ensures Step(crc, b) == Times8(Xor(crc, (b as bv16) << 8))
  {
    hide Times8, Table, Xor;
    var low, high := Halves(crc, b as bv16);
    TableIsRemainders(high);
    Times8Linear(low, high << 8);
    Times8Low(low);
  }

  // ---- the whole checksum ----

  function CrcFrom(crc: bv16, s: Bytes): bv16 {
    if s == [] then crc else Step(CrcFrom(crc, s[..|s| - 1]), s[|s| - 1])
  }

  function Crc(s: Bytes): bv16 {
    CrcFrom(0, s)
  }

  lemma CrcMore(s: Bytes, n: nat)
    requires n <= |s|
    ensures Crc(s[..n]) == if n == 0 then 0 else Step(Crc(s[..n - 1]), s[n - 1])
  {
    if n > 0 {
      assert s[..n][..n - 1] == s[..n - 1];
    }
  }

  /** `crc16` computes the remainder of the message followed by sixteen zeros. */
  method Crc16(buf: Bytes) returns (crc: bv16)
    ensures crc == Crc(buf)
    ensures crc == Remainder(Bits(buf) + Zeros(16))
  {
    hide Xor, Table, Remainder, Bits, CrcFrom;
    CrcMore(buf, 0);
    crc := 0;
    for counter := 0 to |buf|
      invariant crc == Crc(buf[..counter])
    {
      CrcMore(buf, counter + 1);
      crc := Xor(crc << 8, Table(Xor(crc >> 8, buf[counter] as bv16) & 0xff));
    }
    assert buf[..|buf|] == buf;
    CrcIsRemainder(buf);
  }

  /** One more bit to a register whose low bits, less than eight, are message bits that nothing was divided from. */
  lemma NextBit(a: bv16, low: bv16, bit: bool)
    requires low < 128
    ensures Xor(TimesX(Xor(a, low)), Unit(bit)) == Xor(TimesX(a), Push(low, bit))
  {
    TimesXLinear(a, low);
    TimesXSmall(low);
    Merge(TimesX(a), low, bit);
    hide TimesX, Xor, Push;
  }

  lemma Merge(x: bv16, low: bv16, bit: bool)
    ensures Xor(Xor(x, low << 1), Unit(bit)) == Xor(x, Push(low, bit))
  {
    hide Xor;
    XorOr(low, Unit(bit));
    XorAssoc(x, low << 1, Unit(bit));
  }

  lemma XorOr(low: bv16, u: bv16)
    requires u == 0 || u == 1
    ensures Xor(low << 1, u) == (low << 1) | u
  {
  }

  lemma XorAssoc(a: bv16, b: bv16, c: bv16)
    ensures Xor(Xor(a, b), c) == Xor(a, Xor(b, c))
  {
  }

  lemma TimesXSmall(low: bv16)
    requires low < 128
    ensures TimesX(low) == low << 1
  {
  }

  lemma RemainderMore(p: seq<bool>, bit: bool)
    ensures Remainder(p + [bit]) == Xor(TimesX(Remainder(p)), Unit(bit))
  {
    assert (p + [bit])[..|p|] == p;
  }

  function Push(v: bv16, bit: bool): bv16 {
    (v << 1) | Unit(bit)
  }

  function Value(q: seq<bool>): bv16 {
    if q == [] then 0 else Push(Value(q[..|q| - 1]), q[|q| - 1])
  }

  function Power(r: bv16, n: nat): bv16 {
    if n == 0 then r else TimesX(Power(r, n - 1))
  }

  predicate Short(v: bv16, n: nat) {
    if n == 0 then v < 1 else if n == 1 then v < 2 else if n == 2 then v < 4 else if n == 3 then v < 8
    else if n == 4 then v < 16 else if n == 5 then v < 32 else if n == 6 then v < 64 else n == 7 && v < 128
  }

  lemma {:induction false} ValueShort(q: seq<bool>)
    requires |q| < 8
    ensures Short(Value(q), |q|) && Value(q) < 128
  {
    if q != [] {
      ValueShort(q[..|q| - 1]);
    }
  }

  lemma ValueOfByte(b: bv8)
    ensures Value(ByteBits(b)) == b as bv16
  {
    var q := ByteBits(b);
    Assemble(b);
    hide ByteBits, Unit, Push;
    ValueMore(q, 0);
    ValueMore(q, 1);
    ValueMore(q, 2);
    ValueMore(q, 3);
    ValueMore(q, 4);
    ValueMore(q, 5);
    ValueMore(q, 6);
    ValueMore(q, 7);
    hide Value;
    assert q[..8] == q;
  }

  lemma Assemble(b: bv8)
    ensures var q := ByteBits(b);
            var high := Push(Push(Push(Push(0, q[0]), q[1]), q[2]), q[3]);
            Push(Push(Push(Push(high, q[4]), q[5]), q[6]), q[7]) == b as bv16
  {
  }

  lemma ValueMore(q: seq<bool>, n: nat)
    requires n < |q|
    ensures Value(q[..n + 1]) == Push(if n == 0 then 0 else Value(q[..n]), q[n])
  {
    assert q[..n + 1][..n] == q[..n];
  }

  lemma {:induction false} RemainderBits(p: seq<bool>, q: seq<bool>)
    requires |q| <= 8
    ensures Remainder(p + q) == Xor(Power(Remainder(p), |q|), Value(q))
  {
    if q == [] {
      assert p + q == p;
    } else {
      var init, bit := q[..|q| - 1], q[|q| - 1];
      RemainderBits(p, init);
      assert p + q == p + init + [bit];
      RemainderMore(p + init, bit);
      ValueShort(init);
      NextBit(Power(Remainder(p), |init|), Value(init), bit);
    }
  }

  /** A byte appended to the dividend. */
  lemma RemainderByte(p: seq<bool>, b: bv8)
    ensures Remainder(p + ByteBits(b)) == Xor(Times8(Remainder(p)), b as bv16)
  {
    RemainderBits(p, ByteBits(b));
    ValueOfByte(b);
    var r := Remainder(p);
    hide TimesX, Xor, ByteBits, Remainder;
    assert Power(r, 1) == TimesX(r);
    assert Power(r, 2) == TimesX(TimesX(r));
    assert Power(r, 4) == TimesX(TimesX(Power(r, 2)));
    assert Power(r, 6) == TimesX(TimesX(Power(r, 4)));
    assert Power(r, 8) == TimesX(TimesX(Power(r, 6)));
  }

  lemma BitsMore(s: Bytes, b: bv8)
    ensures Bits(s + [b]) == Bits(s) + ByteBits(b)
  {
    assert (s + [b])[..|s|] == s;
  }

  lemma XorZero(a: bv16)
    ensures Xor(a, 0) == a
  {
  }

  lemma RemainderZeros(p: seq<bool>)
    ensures Remainder(p + Zeros(16)) == Times8(Times8(Remainder(p)))
  {
    assert ByteBits(0) == Zeros(8);
    RemainderByte(p, 0);
    RemainderByte(p + Zeros(8), 0);
    assert p + Zeros(8) + Zeros(8) == p + Zeros(16);
    XorZero(Times8(Remainder(p)));
    XorZero(Times8(Times8(Remainder(p))));
  }

  lemma {:induction false} CrcIsRemainder(s: Bytes)
    ensures Crc(s) == Remainder(Bits(s) + Zeros(16))
  {
    RemainderZeros(Bits(s));
    if s == [] {
      assert Remainder([]) == 0;
    } else {
      var init, b := s[..|s| - 1], s[|s| - 1];
      CrcIsRemainder(init);
      assert s == init + [b];
      BitsMore(init, b);
      RemainderByte(Bits(init), b);
      var r := Remainder(Bits(init));
      RemainderZeros(Bits(init));
      StepIsTimes8(Crc(init), b);
      hide Times8, Xor, Remainder, Bits, ByteBits;
      Times8Linear(Times8(r), b as bv16);
      Times8Linear(Times8(Times8(r)), Times8(b as bv16));
      Times8Linear(Crc(init), (b as bv16) << 8);
      Times8Low(b as bv16);
    }
  }

  // ---- laws ----

  function XorByte(a: bv8, b: bv8): bv8 {
    a ^ b
  }

  function XorBytes(s: Bytes, t: Bytes): (u: Bytes)
    requires |s| == |t|
    ensures |u| == |s|
  {
    seq(|s|, i requires 0 <= i < |s| => XorByte(s[i], t[i]))
  }

  lemma XorPairs(c: bv16, d: bv16, a: bv8, b: bv8)
    ensures Xor(Xor(c, d), (XorByte(a, b) as bv16) << 8) == Xor(Xor(c, (a as bv16) << 8), Xor(d, (b as bv16) << 8))
  {
  }

  lemma StepLinear(c: bv16, d: bv16, a: bv8, b: bv8)
    ensures Step(Xor(c, d), XorByte(a, b)) == Xor(Step(c, a), Step(d, b))
  {
    StepIsTimes8(c, a);
    StepIsTimes8(d, b);
    StepIsTimes8(Xor(c, d), XorByte(a, b));
    XorPairs(c, d, a, b);
    Times8Linear(Xor(c, (a as bv16) << 8), Xor(d, (b as bv16) << 8));
    hide *;
  }

  /** Checksums of equal lengths add up. */
  lemma {:induction false} CrcLinear(c: bv16, d: bv16, s: Bytes, t: Bytes)
    requires |s| == |t|
    ensures CrcFrom(Xor(c, d), XorBytes(s, t)) == Xor(CrcFrom(c, s), CrcFrom(d, t))
  {
    hide Xor, XorByte, Step;
    if s != [] {
      var n := |s| - 1;
      CrcLinear(c, d, s[..n], t[..n]);
      assert XorBytes(s, t)[..n] == XorBytes(s[..n], t[..n]);
      StepLinear(CrcFrom(c, s[..n]), CrcFrom(d, t[..n]), s[n], t[n]);
    }
  }

  lemma {:induction false} CrcSplits(c: bv16, s: Bytes, t: Bytes)
    ensures CrcFrom(c, s + t) == CrcFrom(CrcFrom(c, s), t)
  {
    if t == [] {
      assert s + t == s;
    } else {
      assert (s + t)[..|s + t| - 1] == s + t[..|t| - 1];
      CrcSplits(c, s, t[..|t| - 1]);
    }
  }

  /** The checksum of a concatenation from those of its parts. */
  lemma CrcOfConcatenation(s: Bytes, t: Bytes)
    ensures Crc(s + t) == Xor(Crc(s + seq(|t|, _ => 0)), Crc(t))
  {
    var zeros: Bytes := seq(|t|, _ => 0);
    CrcSplits(0, s, t);
    CrcSplits(0, s, zeros);
    CrcLinear(Crc(s), 0, zeros, t);
    XorZero(Crc(s));
    forall i | 0 <= i < |t| ensures XorByte(zeros[i], t[i]) == t[i] {
    }
    hide Xor, XorByte, Step;
    assert XorBytes(zeros, t) == t;
  }

  function High(c: bv16): bv8 {
    ((c >> 8) & 0xff) as bv8
  }

  function Low(c: bv16): bv8 {
    (c & 0xff) as bv8
  }

  lemma Cancel(c: bv16)
    ensures Xor(c, (High(c) as bv16) << 8) == Low(c) as bv16
    ensures (Low(c) as bv16) < 256 && Xor((Low(c) as bv16) << 8, (Low(c) as bv16) << 8) == 0
  {
  }

  lemma StepsToZero(c: bv16)
    ensures Step(Step(c, High(c)), Low(c)) == 0
  {
    var low := Low(c) as bv16;
    Cancel(c);
    hide Xor, High, Low, Times8;
    StepIsTimes8(c, High(c));
    Times8Low(low);
    StepIsTimes8(low << 8, Low(c));
    Times8Low(0);
    hide Step;
  }

  /** A message followed by its own checksum, high byte first, has checksum 0. */
  lemma CrcAppended(s: Bytes)
    ensures Crc(s + [High(Crc(s)), Low(Crc(s))]) == 0
  {
    hide Step, High, Low;
    var c := Crc(s);
    var t := [High(c), Low(c)];
    CrcSplits(0, s, t);
    assert t[..1] == [High(c)] && [High(c)][..0] == [];
    assert CrcFrom(c, t[..1]) == Step(c, High(c));
    StepsToZero(c);
  }
}
