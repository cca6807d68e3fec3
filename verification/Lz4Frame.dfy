/** library.c: values compressed with LZ4 carry a header of one checksum byte and the length as a 32-bit integer in
    little-endian order. The codec itself is abstract. */
module Lz4Frame {
  import opened Options
  import Decimal
  import Crc16

  const INT_MAX := Decimal.INT_MAX

  const HDR_SIZE := 5

  // ---- crc8 ----

  function Shift(crc: bv8): bv8 {
    if crc & 0x80 != 0 then (crc << 1) ^ 0x31 else crc << 1
  }

  function Shifts(crc: bv8, n: nat): bv8
    decreases n
  {
    if n == 0 then crc else Shifts(Shift(crc), n - 1)
  }

  function Mix(crc: bv8, b: bv8): bv8 {
    crc ^ b
  }

  function Crc8From(crc: bv8, s: Bytes): bv8
    decreases |s|
  {
    if s == [] then crc else Crc8From(Shifts(Mix(crc, s[0]), 8), s[1..])
  }

  method Crc8(input: Bytes) returns (crc: bv8)
    ensures crc == Crc8From(0xff, input)
  {
    hide Mix, Shift;
    crc := 0xff;
    var pos, len := 0, |input|;
    while len > 0
      invariant pos + len == |input| && len >= 0 && pos >= 0
      invariant Crc8From(crc, input[pos..]) == Crc8From(0xff, input)
    {
      ghost var before := crc;
      assert input[pos..][1..] == input[pos + 1..];
      len := len - 1;
      crc := Mix(crc, input[pos]);
      pos := pos + 1;
      for i := 0 to 8
        invariant Shifts(crc, 8 - i) == Shifts(Mix(before, input[pos - 1]), 8)
      {
        crc := Shift(crc);
      }
    }
  }

  lemma ShiftInjective(a: bv8, b: bv8)
    ensures Shift(a) == Shift(b) ==> a == b
  {
  }

  lemma {:induction false} ShiftsInjective(a: bv8, b: bv8, n: nat)
    ensures Shifts(a, n) == Shifts(b, n) ==> a == b
    decreases n
  {
    if n > 0 {
      ShiftInjective(a, b);
      ShiftsInjective(Shift(a), Shift(b), n - 1);
    }
  }

  lemma MixInjective(a: bv8, b: bv8, x: bv8, y: bv8)
    ensures Mix(a, x) == Mix(b, x) ==> a == b
    ensures Mix(a, x) == Mix(a, y) ==> x == y
  {
  }

  /** Every byte step is a bijection of the register: different registers stay different. */
  lemma {:induction false} Crc8KeepsApart(a: bv8, b: bv8, s: Bytes)
    requires a != b
    ensures Crc8From(a, s) != Crc8From(b, s)
    decreases |s|
  {
    hide Mix, Shift;
    if s != [] {
      MixInjective(a, b, s[0], s[0]);
      ShiftsInjective(Mix(a, s[0]), Mix(b, s[0]), 8);
      Crc8KeepsApart(Shifts(Mix(a, s[0]), 8), Shifts(Mix(b, s[0]), 8), s[1..]);
    }
  }

  /** So one changed byte always changes the checksum. */
  lemma {:induction false} Crc8SeesOneByte(crc: bv8, s: Bytes, i: nat, v: bv8)
    requires i < |s| && v != s[i]
    ensures Crc8From(crc, s[i := v]) != Crc8From(crc, s)
    decreases |s|
  {
    hide Mix, Shift;
    if i == 0 {
      MixInjective(crc, crc, s[0], v);
      ShiftsInjective(Mix(crc, s[0]), Mix(crc, v), 8);
      assert s[0 := v][1..] == s[1..];
      Crc8KeepsApart(Shifts(Mix(crc, s[0]), 8), Shifts(Mix(crc, v), 8), s[1..]);
    } else {
      assert s[i := v][1..] == s[1..][i - 1 := v];
      Crc8SeesOneByte(Shifts(Mix(crc, s[0]), 8), s[1..], i - 1, v);
    }
  }

  // ---- what the checksum is ----

  /** x^5 + x^4 + 1, what is left of x^8 after division. */
  const POLY8: bv8 := 0x31

  function Unit(bit: bool): bv8 {
    if bit then 1 else 0
  }

  /** One bit more at the low end. */
  function Take(low: bv8, bit: bool): bv8 {
    (low << 1) | Unit(bit)
  }

  /** One step of long division by x^8 + x^5 + x^4 + 1. */
  function Push(r: bv8, bit: bool): bv8 {
    if r < 0x80 then Take(r, bit) else Mix(Take(r, bit), POLY8)
  }

  function Divide(r: bv8, p: seq<bool>): bv8
    decreases |p|
  {
    if p == [] then r else Divide(Push(r, p[0]), p[1..])
  }

  predicate Low(v: bv8) {
    v < 0x80
  }

  lemma TopBit(r: bv8, low: bv8)
    requires Low(low)
    ensures Mix(r, low) < 0x80 <==> r & 0x80 == 0
  {
  }

  lemma TakeMixed(r: bv8, low: bv8, bit: bool)
    ensures Take(Mix(r, low), bit) == Mix(r << 1, Take(low, bit))
  {
  }

  lemma MixSwaps(a: bv8, b: bv8, c: bv8)
    ensures Mix(Mix(a, b), c) == Mix(Mix(a, c), b)
  {
  }

  lemma PushIsShift(r: bv8, low: bv8, bit: bool)
    requires Low(low)
    ensures Push(Mix(r, low), bit) == Mix(Shift(r), Take(low, bit))
  {
    TopBit(r, low);
    TakeMixed(r, low, bit);
    MixSwaps(r << 1, Take(low, bit), POLY8);
    ShiftIsMix(r);
    hide Shift, Take, Mix;
  }

  lemma ShiftIsMix(r: bv8)
    ensures Shift(r) == if r & 0x80 == 0 then r << 1 else Mix(r << 1, POLY8)
  {
  }

  /** The highest 8 - n bits of a byte, as a number. */
  function Top(b: bv8, n: nat): bv8
    requires n <= 8
  {
    b >> n
  }

  lemma TopBits(b: bv8)
    ensures var q := Crc16.ByteBits(b);
            && Top(b, 7) == Take(0, q[0]) && Top(b, 6) == Take(Top(b, 7), q[1])
            && Top(b, 5) == Take(Top(b, 6), q[2]) && Top(b, 4) == Take(Top(b, 5), q[3])
            && Top(b, 3) == Take(Top(b, 4), q[4]) && Top(b, 2) == Take(Top(b, 3), q[5])
            && Top(b, 1) == Take(Top(b, 2), q[6]) && b == Take(Top(b, 1), q[7])
    ensures Low(0) && Low(Top(b, 7)) && Low(Top(b, 6)) && Low(Top(b, 5)) && Low(Top(b, 4))
    ensures Low(Top(b, 3)) && Low(Top(b, 2)) && Low(Top(b, 1))
  {
  }

  lemma MixZero(r: bv8)
    ensures Mix(r, 0) == r
  {
  }

  /** The register is r behind the message bits `low`, and takes in one more. */
  lemma PushStep(r: bv8, low: bv8, p: seq<bool>, next: bv8)
    requires Low(low) && p != [] && next == Take(low, p[0])
    ensures Divide(Mix(r, low), p) == Divide(Mix(Shift(r), next), p[1..])
  {
    PushIsShift(r, low, p[0]);
    hide Shift, Take, Mix, Push;
  }

  /** Pushing a byte moves the register on by eight places and the byte in. */
  lemma PushByte(r: bv8, p: seq<bool>, b: bv8)
    requires |p| >= 8 && p[..8] == Crc16.ByteBits(b)
    ensures Divide(r, p) == Divide(Mix(Shifts(r, 8), b), p[8..])
  {
    TopBits(b);
    MixZero(r);
    ShiftsMore(r);
    hide Push, Mix, Shift, Shifts, Divide, Take, Top, Low, Crc16.ByteBits;
    assert forall i | 0 <= i < 8 :: p[i] == Crc16.ByteBits(b)[i];
    PushStep(r, 0, p, Top(b, 7));
    PushStep(Shifts(r, 1), Top(b, 7), p[1..], Top(b, 6));
    PushStep(Shifts(r, 2), Top(b, 6), p[2..], Top(b, 5));
    PushStep(Shifts(r, 3), Top(b, 5), p[3..], Top(b, 4));
    PushStep(Shifts(r, 4), Top(b, 4), p[4..], Top(b, 3));
    PushStep(Shifts(r, 5), Top(b, 3), p[5..], Top(b, 2));
    PushStep(Shifts(r, 6), Top(b, 2), p[6..], Top(b, 1));
    PushStep(Shifts(r, 7), Top(b, 1), p[7..], b);
    assert p[1..][1..] == p[2..] && p[2..][1..] == p[3..] && p[3..][1..] == p[4..] && p[4..][1..] == p[5..];
    assert p[5..][1..] == p[6..] && p[6..][1..] == p[7..] && p[7..][1..] == p[8..];
  }

  lemma ShiftsMore(r: bv8)
    ensures Shifts(r, 1) == Shift(r) && Shifts(r, 2) == Shift(Shifts(r, 1))
    ensures Shifts(r, 3) == Shift(Shifts(r, 2)) && Shifts(r, 4) == Shift(Shifts(r, 3))
    ensures Shifts(r, 5) == Shift(Shifts(r, 4)) && Shifts(r, 6) == Shift(Shifts(r, 5))
    ensures Shifts(r, 7) == Shift(Shifts(r, 6)) && Shifts(r, 8) == Shift(Shifts(r, 7))
  {
    hide Shift;
  }

  lemma {:induction false} BitsPrepend(b: bv8, s: Bytes)
    ensures Crc16.Bits([b] + s) == Crc16.ByteBits(b) + Crc16.Bits(s)
    decreases |s|
  {
    if s == [] {
      assert ([b] + s)[..0] == [];
    } else {
      assert ([b] + s)[..|s|] == [b] + s[..|s| - 1];
      BitsPrepend(b, s[..|s| - 1]);
    }
  }

  /** The checksum from a register that held r eight places ago. */
  lemma {:induction false} CrcIsDivision(r: bv8, s: Bytes)
    ensures Crc8From(Shifts(r, 8), s) == Divide(r, Crc16.Bits(s) + Crc16.ByteBits(0))
    decreases |s|
  {
    hide Push, Mix, Shift, Shifts, Divide, Crc16.ByteBits;
    if s == [] {
      var p := Crc16.Bits(s) + Crc16.ByteBits(0);
      assert p[..8] == Crc16.ByteBits(0) && p[8..] == [];
      PushByte(r, p, 0);
      MixZero(Shifts(r, 8));
      NothingToDivide(Shifts(r, 8));
    } else {
      var rest := Crc16.Bits(s[1..]) + Crc16.ByteBits(0);
      BitsPrepend(s[0], s[1..]);
      assert s == [s[0]] + s[1..];
      var p := Crc16.Bits(s) + Crc16.ByteBits(0);
      assert p[..8] == Crc16.ByteBits(s[0]) && p[8..] == rest;
      PushByte(r, p, s[0]);
      CrcIsDivision(Mix(Shifts(r, 8), s[0]), s[1..]);
    }
  }

  lemma NothingToDivide(r: bv8)
    ensures Divide(r, []) == r
  {
  }

  /** `crc8` is the remainder of the input, its first byte complemented, followed by eight zeros. */
  lemma Crc8IsRemainder(s: Bytes)
    requires s != []
    ensures Crc8From(0xff, s) == Divide(0, Crc16.Bits([s[0] ^ 0xff] + s[1..]) + Crc16.Zeros(8))
  {
    var t := [s[0] ^ 0xff] + s[1..];
    Complement(s[0]);
    hide Push, Mix, Shift, Divide;
    CrcIsDivision(0, t);
    assert t[1..] == s[1..];
    assert Crc16.ByteBits(0) == Crc16.Zeros(8);
  }

  lemma Complement(b: bv8)
    ensures Shifts(0, 8) == 0 && Mix(0, b ^ 0xff) == Mix(0xff, b)
  {
    hide Shifts;
    ShiftsMore(0);
  }

  // ---- the frame ----

  function Pack(b0: bool, b1: bool, b2: bool, b3: bool, b4: bool, b5: bool, b6: bool, b7: bool): bv8 {
    (if b0 then 1 else 0) | (if b1 then 2 else 0) | (if b2 then 4 else 0) | (if b3 then 8 else 0)
    | (if b4 then 16 else 0) | (if b5 then 32 else 0) | (if b6 then 64 else 0) | (if b7 then 128 else 0)
  }

  lemma PackBits(b0: bool, b1: bool, b2: bool, b3: bool, b4: bool, b5: bool, b6: bool, b7: bool)
    ensures var b := Pack(b0, b1, b2, b3, b4, b5, b6, b7);
            && (b & 1 != 0 <==> b0) && (b & 2 != 0 <==> b1) && (b & 4 != 0 <==> b2) && (b & 8 != 0 <==> b3)
            && (b & 16 != 0 <==> b4) && (b & 32 != 0 <==> b5) && (b & 64 != 0 <==> b6) && (b & 128 != 0 <==> b7)
  {
  }

  predicate Odd(n: nat) {
    n % 2 == 1
  }

  /** The byte of value n, lowest bit first. */
  function ToByte(n: nat): bv8
    requires n < 256
  {
    var n1 := n / 2;
    var n2 := n1 / 2;
    var n3 := n2 / 2;
    var n4 := n3 / 2;
    var n5 := n4 / 2;
    var n6 := n5 / 2;
    Pack(Odd(n), Odd(n1), Odd(n2), Odd(n3), Odd(n4), Odd(n5), Odd(n6), Odd(n6 / 2))
  }

  function Twice(bit: bool, rest: nat): nat {
    2 * rest + if bit then 1 else 0
  }

  function OfByte(b: bv8): nat {
    Twice(b & 1 != 0, Twice(b & 2 != 0, Twice(b & 4 != 0, Twice(b & 8 != 0,
    Twice(b & 16 != 0, Twice(b & 32 != 0, Twice(b & 64 != 0, Twice(b & 128 != 0, 0))))))))
  }

  lemma Halve(n: nat)
    ensures Twice(Odd(n), n / 2) == n
  {
  }

  lemma ByteRoundTrip(n: nat)
    requires n < 256
    ensures OfByte(ToByte(n)) == n
  {
    var n1 := n / 2;
    var n2 := n1 / 2;
    var n3 := n2 / 2;
    var n4 := n3 / 2;
    var n5 := n4 / 2;
    var n6 := n5 / 2;
    PackBits(Odd(n), Odd(n1), Odd(n2), Odd(n3), Odd(n4), Odd(n5), Odd(n6), Odd(n6 / 2));
    Halve(n);
    Halve(n1);
    Halve(n2);
    Halve(n3);
    Halve(n4);
    Halve(n5);
    Halve(n6);
    Halve(n6 / 2);
    assert n6 / 2 / 2 == 0;
    hide Pack, Odd, Twice;
  }

  /** The bytes of an `int`. */
  function IntBytes(n: nat): (s: Bytes)
    requires n <= INT_MAX
    ensures |s| == 4
  {
    var (a, b, c) := (n / 256, n / 256 / 256, n / 256 / 256 / 256);
    [ToByte(n % 256), ToByte(a % 256), ToByte(b % 256), ToByte(c)]
  }

  function IntOf(s: Bytes): int
    requires |s| == 4
  {
    var n := OfByte(s[0]) + 256 * (OfByte(s[1]) + 256 * (OfByte(s[2]) + 256 * OfByte(s[3])));
    if n > INT_MAX then n - 0x1_0000_0000 else n
  }

  lemma IntRoundTrip(n: nat)
    requires n <= INT_MAX
    ensures IntOf(IntBytes(n)) == n
  {
    hide ToByte, OfByte;
    var (a, b, c) := (n / 256, n / 256 / 256, n / 256 / 256 / 256);
    ByteRoundTrip(n % 256);
    ByteRoundTrip(a % 256);
    ByteRoundTrip(b % 256);
    ByteRoundTrip(c);
  }

  lemma ByteBound(b: bv8)
    ensures OfByte(b) < 256
  {
    hide Twice;
    TwiceBound(b & 128 != 0, 0, 0);
    TwiceBound(b & 64 != 0, Twice(b & 128 != 0, 0), 1);
    var b2 := Twice(b & 64 != 0, Twice(b & 128 != 0, 0));
    TwiceBound(b & 32 != 0, b2, 3);
    var b3 := Twice(b & 32 != 0, b2);
    TwiceBound(b & 16 != 0, b3, 7);
    var b4 := Twice(b & 16 != 0, b3);
    TwiceBound(b & 8 != 0, b4, 15);
    var b5 := Twice(b & 8 != 0, b4);
    TwiceBound(b & 4 != 0, b5, 31);
    var b6 := Twice(b & 4 != 0, b5);
    TwiceBound(b & 2 != 0, b6, 63);
    TwiceBound(b & 1 != 0, Twice(b & 2 != 0, b6), 127);
  }

  lemma TwiceBound(bit: bool, rest: nat, n: nat)
    requires rest <= n
    ensures Twice(bit, rest) <= 2 * n + 1
  {
  }

  /** Four bytes are a 32-bit integer in two's complement, the lowest byte first. */
  lemma IntOfIsSigned(s: Bytes)
    requires |s| == 4
    ensures -INT_MAX - 1 <= IntOf(s) <= INT_MAX
    ensures (IntOf(s) - OfByte(s[0]) - 256 * OfByte(s[1]) - 65536 * OfByte(s[2]) - 0x100_0000 * OfByte(s[3]))
            % 0x1_0000_0000 == 0
  {
    hide OfByte;
    ByteBound(s[0]);
    ByteBound(s[1]);
    ByteBound(s[2]);
    ByteBound(s[3]);
    var n := OfByte(s[0]) + 256 * (OfByte(s[1]) + 256 * (OfByte(s[2]) + 256 * OfByte(s[3])));
    assert IntOf(s) - n == 0 || IntOf(s) - n == -0x1_0000_0000;
  }

  /** LZ4: compression may fail; decompression is told how many bytes to expect at most. */
  datatype Codec = Codec(compress: Bytes -> Maybe<Bytes>, decompress: (Bytes, nat) -> Maybe<Bytes>)

  ghost predicate Inverse(c: Codec) {
    forall x: Bytes | c.compress(x).Just? ::
      var y := c.compress(x).value;
      1 <= |y| <= INT_MAX && c.decompress(y, |x|) == Just(x)
  }

  function Header(n: nat): (h: Bytes)
    requires n <= INT_MAX
    ensures |h| == HDR_SIZE
  {
    [Crc8From(0xff, IntBytes(n))] + IntBytes(n)
  }

  /** `redis_compress`: a frame, or nothing and the value is stored as it is. */
  function Compress(c: Codec, buf: Bytes): (frame: Maybe<Bytes>) {
    if |buf| < 1 || |buf| > INT_MAX then Nothing
    else
      var lz4 := c.compress(buf);
      if lz4.Nothing? || lz4.value == [] then Nothing else Just(Header(|buf|) + lz4.value)
  }

  /** `redis_uncompress`: the value of a frame; anything else is returned as it is. */
  function Uncompress(c: Codec, src: Bytes): (value: Maybe<Bytes>) {
    if |src| < HDR_SIZE || |src| > INT_MAX + HDR_SIZE then Nothing
    else
      var datalen := IntOf(src[1..5]);
      if datalen <= 0 || Crc8From(0xff, src[1..5]) != src[0] then Nothing
      else
        var data := c.decompress(src[5..], datalen);
        if data.Just? && |data.value| == datalen then data else Nothing
  }

  /** What is stored, and what is read from that. */
  function Stored(c: Codec, buf: Bytes): Bytes {
    var frame := Compress(c, buf);
    if frame.Just? then frame.value else buf
  }

  function Loaded(c: Codec, src: Bytes): Bytes {
    var value := Uncompress(c, src);
    if value.Just? then value.value else src
  }

  /** A value is framed exactly if it is not empty and an `int` can hold its length, unless the codec gives up. The
      frame is the checksum of the length, the length with the lowest byte first, and what the codec made of it. */
  lemma FrameLayout(c: Codec, buf: Bytes)
    ensures Compress(c, buf).Just? <==>
              1 <= |buf| <= INT_MAX && c.compress(buf).Just? && |c.compress(buf).value| > 0
    ensures Compress(c, buf).Just? ==>
              var f := Compress(c, buf).value;
              && |f| >= 5 && f[5..] == c.compress(buf).value
              && f[0] == Crc8From(0xff, [f[1], f[2], f[3], f[4]])
              && OfByte(f[1]) + 256 * OfByte(f[2]) + 65536 * OfByte(f[3]) + 0x100_0000 * OfByte(f[4]) == |buf|
  {
    if Compress(c, buf).Just? {
      var f := Compress(c, buf).value;
      assert f[5..] == c.compress(buf).value && f[1..5] == IntBytes(|buf|);
      assert f[1..5] == [f[1], f[2], f[3], f[4]];
      hide Crc8From, OfByte, IntBytes;
      BytesOfInt(|buf|, f[1..5]);
    }
  }

  lemma BytesOfInt(n: nat, s: Bytes)
    requires n <= INT_MAX && s == IntBytes(n)
    ensures OfByte(s[0]) + 256 * OfByte(s[1]) + 65536 * OfByte(s[2]) + 0x100_0000 * OfByte(s[3]) == n
  {
    hide ToByte, OfByte;
    ByteRoundTrip(n % 256);
    ByteRoundTrip(n / 256 % 256);
    ByteRoundTrip(n / 256 / 256 % 256);
    ByteRoundTrip(n / 256 / 256 / 256);
  }

  /** A frame is restored exactly. */
  lemma FrameRoundTrip(c: Codec, buf: Bytes)
    requires Inverse(c) && Compress(c, buf).Just?
    ensures Uncompress(c, Compress(c, buf).value) == Just(buf)
  {
    var lz4 := c.compress(buf).value;
    var frame := Compress(c, buf).value;
    IntRoundTrip(|buf|);
    assert frame[1..5] == IntBytes(|buf|);
    assert frame[5..] == lz4;
  }

  /** A value that reads as a frame: long enough, with a positive length and its checksum in front, and a body that
      decompresses to that length. */
  predicate LooksLikeFrame(c: Codec, src: Bytes) {
    && HDR_SIZE <= |src| <= INT_MAX + HDR_SIZE
    && 0 < IntOf(src[1..5])
    && src[0] == Crc8From(0xff, src[1..5])
    && c.decompress(src[5..], IntOf(src[1..5])).Just?
    && |c.decompress(src[5..], IntOf(src[1..5])).value| == IntOf(src[1..5])
  }

  /** Any value read back is the value stored, except one that was not compressed and looks like a frame: that one is
      read as what the frame holds. */
  lemma StoredIsLoaded(c: Codec, buf: Bytes)
    requires Inverse(c)
    ensures Loaded(c, Stored(c, buf))
         == if Compress(c, buf).Just? || !LooksLikeFrame(c, buf) then buf
            else c.decompress(buf[5..], IntOf(buf[1..5])).value
  {
    if Compress(c, buf).Just? {
      FrameRoundTrip(c, buf);
    }
  }

  lemma BareHeader(c: Codec, held: Bytes)
    requires 1 <= |held| <= INT_MAX && c.decompress([], |held|) == Just(held)
    ensures LooksLikeFrame(c, Header(|held|))
    ensures c.decompress(Header(|held|)[5..], IntOf(Header(|held|)[1..5])) == Just(held)
  {
    var buf := Header(|held|);
    IntRoundTrip(|held|);
    assert buf[1..5] == IntBytes(|held|);
    assert buf[5..] == [];
    hide IntBytes, IntOf, Crc8From;
  }

  /** Compression fails, and everything decompresses to the same bytes. */
  function Failing(held: Bytes): Codec {
    Codec(_ => Nothing, (_, _) => Just(held))
  }

  /** Such a value is misread: a bare header where compression fails. */
  lemma Misread(held: Bytes)
    requires 1 <= |held| <= INT_MAX && |held| != HDR_SIZE
    ensures Inverse(Failing(held))
    ensures Loaded(Failing(held), Stored(Failing(held), Header(|held|))) == held != Header(|held|)
  {
    var c := Failing(held);
    BareHeader(c, held);
    hide LooksLikeFrame, Header, IntOf;
    StoredIsLoaded(c, Header(|held|));
  }

  /** One changed byte in the header, and the frame is not taken for one. */
  lemma HeaderByteChanged(c: Codec, buf: Bytes, i: nat, v: bv8)
    requires Compress(c, buf).Just? && i < HDR_SIZE && v != Compress(c, buf).value[i]
    ensures Uncompress(c, Compress(c, buf).value[i := v]) == Nothing
  {
    var frame := Compress(c, buf).value;
    var changed := frame[i := v];
    assert frame[1..5] == IntBytes(|buf|);
    if i == 0 {
      assert changed[1..5] == frame[1..5];
    } else {
      assert changed[1..5] == frame[1..5][i - 1 := v];
      Crc8SeesOneByte(0xff, frame[1..5], i - 1, v);
    }
  }
}
