/** The bitwise CRC-32 of src/util.c (reflected polynomial of RFC 1952, section 8). */
module Crc32 {
  import opened Words

  const UTIL_CRC32_POLY: bv32 := 0xEDB88320
  const UTIL_CRC32_INIT: bv32 := 0
  const ALL_ONES: bv32 := 0xffff_ffff

  // Bit operations are named so that their bits are looked at only where needed.
  function Xor(a: bv32, b: bv32): bv32 { a ^ b }
  function Shl1(a: bv32): bv32 { a << 1 }
  function Shr1(a: bv32): bv32 { a >> 1 }
  function ShlEight(a: bv32): bv32 { a << 8 }
  function Low(a: bv32): bv32 { a & 1 }

  function Parity(b: nat): bv32 {
    if b % 2 == 1 then 1 else 0
  }

  /** The low `n` binary digits of `b` as bits. */
  function Digits(b: nat, n: nat): bv32
    decreases n
  {
    if n == 0 then 0 else Xor(Shl1(Digits(b / 2, n - 1)), Parity(b))
  }

  /** `(uint32_t)*p`. */
  function ByteBits(b: Byte): bv32 {
    Digits(b, 8)
  }

  /** One bit: `crc & 1 ? (crc >> 1) ^ POLY : crc >> 1`. */
  function BitStep(c: bv32): bv32 {
    if Low(c) != 0 then Xor(Shr1(c), UTIL_CRC32_POLY) else Shr1(c)
  }

  function BitSteps(c: bv32, n: nat): bv32
    decreases n
  {
    if n == 0 then c else BitSteps(BitStep(c), n - 1)
  }

  function ByteStep(c: bv32, b: Byte): bv32 {
    BitSteps(Xor(c, ByteBits(b)), 8)
  }

  /** The register after `data`, without the complements at both ends. */
  function Register(c: bv32, data: Memory): bv32
    decreases |data|
  {
    if data == [] then c else Register(ByteStep(c, data[0]), data[1..])
  }

  function Crc(data: Memory, crc: bv32): bv32 {
    Xor(Register(Xor(crc, ALL_ONES), data), ALL_ONES)
  }

  /** `crc32(buf, size, crc)`. */
  method ComputeCrc(data: Memory, crc0: bv32) returns (crc: bv32)
    ensures crc == Crc(data, crc0)
  {
    hide Xor, BitStep, ByteBits;
    crc := Xor(crc0, ALL_ONES);
    var p: nat := 0;
    assert data[0..] == data;
    while p < |data|
      invariant p <= |data| && Register(Xor(crc0, ALL_ONES), data) == Register(crc, data[p..])
    {
      ghost var before := crc;
      crc := Xor(crc, ByteBits(data[p]));
      var i: nat := 8;
      while i > 0
        invariant i <= 8 && BitSteps(crc, i) == ByteStep(before, data[p])
      {
        crc := BitStep(crc);
        i := i - 1;
      }
      assert data[p..][1..] == data[p + 1..];
      p := p + 1;
    }
    crc := Xor(crc, ALL_ONES);
  }

  // ----- streaming -----

  lemma {:induction false} RegisterConcat(c: bv32, a: Memory, b: Memory)
    ensures Register(c, a + b) == Register(Register(c, a), b)
    decreases |a|
  {
    if a == [] {
      assert a + b == b;
    } else {
      assert (a + b)[1..] == a[1..] + b;
      RegisterConcat(ByteStep(c, a[0]), a[1..], b);
    }
  }

  lemma XorTwice(a: bv32, b: bv32)
    ensures Xor(Xor(a, b), b) == a
  {
  }

  /** The CRC of data that arrives in two pieces. */
  lemma CrcConcat(a: Memory, b: Memory, c: bv32)
    ensures Crc(a + b, c) == Crc(b, Crc(a, c))
  {
    RegisterConcat(Xor(c, ALL_ONES), a, b);
    XorTwice(Register(Xor(c, ALL_ONES), a), ALL_ONES);
  }

  // ----- detection -----

  lemma BitStepInjective(a: bv32, b: bv32)
    requires BitStep(a) == BitStep(b)
    ensures a == b
  {
  }

  lemma {:induction false} BitStepsInjective(a: bv32, b: bv32, n: nat)
    requires BitSteps(a, n) == BitSteps(b, n)
    ensures a == b
    decreases n
  {
    if n > 0 {
      BitStepsInjective(BitStep(a), BitStep(b), n - 1);
      BitStepInjective(a, b);
    }
  }

  lemma XorInjective(a: bv32, b: bv32, c: bv32)
    requires Xor(a, c) == Xor(b, c) || Xor(c, a) == Xor(c, b)
    ensures a == b
  {
  }

  /** Different registers stay different whatever data follows. */
  lemma {:induction false} RegisterInjective(a: bv32, b: bv32, data: Memory)
    requires Register(a, data) == Register(b, data)
    ensures a == b
    decreases |data|
  {
    if data != [] {
      RegisterInjective(ByteStep(a, data[0]), ByteStep(b, data[0]), data[1..]);
      BitStepsInjective(Xor(a, ByteBits(data[0])), Xor(b, ByteBits(data[0])), 8);
      XorInjective(a, b, ByteBits(data[0]));
    }
  }

  lemma ShiftBits(x: bv32, y: bv32)
    requires y < 0x8000_0000
    ensures Low(Xor(x, Shl1(y))) == Low(x)
    ensures Shr1(Xor(x, Shl1(y))) == Xor(Shr1(x), y)
  {
  }

  lemma XorSwap(a: bv32, b: bv32, c: bv32)
    ensures Xor(Xor(a, b), c) == Xor(Xor(a, c), b)
  {
    XorAssoc(a, b, c);
    XorAssoc(a, c, b);
    XorComm(b, c);
    hide Xor;
  }

  lemma XorComm(a: bv32, b: bv32)
    ensures Xor(a, b) == Xor(b, a)
  {
  }

  /** A bit that has not reached the low end passes through a step unchanged. */
  lemma BitStepShift(x: bv32, y: bv32)
    requires y < 0x8000_0000
    ensures BitStep(Xor(x, Shl1(y))) == Xor(BitStep(x), y)
  {
    ShiftBits(x, y);
    XorSwap(Shr1(x), y, UTIL_CRC32_POLY);
    hide Xor, Shl1, Shr1, Low;
  }

  function Shl(y: bv32, n: nat): bv32 {
    if n == 0 then y else Shl1(Shl(y, n - 1))
  }

  lemma Shl1Bound(y: bv32)
    ensures y < 0x0100_0000 ==> Shl1(y) < 0x0200_0000
    ensures y < 0x0200_0000 ==> Shl1(y) < 0x0400_0000
    ensures y < 0x0400_0000 ==> Shl1(y) < 0x0800_0000
    ensures y < 0x0800_0000 ==> Shl1(y) < 0x1000_0000
    ensures y < 0x1000_0000 ==> Shl1(y) < 0x2000_0000
    ensures y < 0x2000_0000 ==> Shl1(y) < 0x4000_0000
    ensures y < 0x4000_0000 ==> Shl1(y) < 0x8000_0000
  {
  }

  function Bound(n: nat): bv32 {
    match n
    case 0 => 0x0100_0000
    case 1 => 0x0200_0000
    case 2 => 0x0400_0000
    case 3 => 0x0800_0000
    case 4 => 0x1000_0000
    case 5 => 0x2000_0000
    case 6 => 0x4000_0000
    case _ => 0x8000_0000
  }

  lemma {:induction false} ShlBound(y: bv32, n: nat)
    requires y < 0x100_0000 && n <= 7
    ensures Shl(y, n) < Bound(n)
    decreases n
  {
    if n > 0 {
      ShlBound(y, n - 1);
      Shl1Bound(Shl(y, n - 1));
    }
  }

  lemma BoundTop(n: nat, y: bv32)
    requires n <= 7 && y < Bound(n)
    ensures y < 0x8000_0000
  {
  }

  /** `n` steps bring what waits `n` bits up to the low end. */
  lemma {:induction false} StepsShift(x: bv32, y: bv32, n: nat)
    requires y < 0x100_0000 && n <= 8
    ensures BitSteps(Xor(x, Shl(y, n)), n) == Xor(BitSteps(x, n), y)
    decreases n
  {
    if n > 0 {
      ShlBound(y, n - 1);
      BoundTop(n - 1, Shl(y, n - 1));
      BitStepShift(x, Shl(y, n - 1));
      StepsShift(BitStep(x), y, n - 1);
    }
  }

  lemma ShlNext(y: bv32, n: nat)
    ensures Shl(y, n + 1) == Shl1(Shl(y, n))
  {
  }

  lemma EightShifts(y: bv32)
    ensures Shl1(Shl1(Shl1(Shl1(Shl1(Shl1(Shl1(Shl1(y)))))))) == ShlEight(y)
  {
  }

  lemma ShlIsShift(y: bv32)
    ensures Shl(y, 8) == ShlEight(y)
  {
    ShlNext(y, 0);
    ShlNext(y, 1);
    ShlNext(y, 2);
    ShlNext(y, 3);
    ShlNext(y, 4);
    ShlNext(y, 5);
    ShlNext(y, 6);
    ShlNext(y, 7);
    EightShifts(y);
    hide Shl1;
  }

  /** Up to four bytes as one little-endian word. */
  function Packed(w: Memory): bv32
    requires |w| <= 4
  {
    if w == [] then 0 else Xor(ByteBits(w[0]), Shl(Packed(w[1..]), 8))
  }

  lemma PackBits(b: bv32, y: bv32)
    ensures b < 0x100 && y == 0 ==> Xor(b, ShlEight(y)) < 0x100
    ensures b < 0x100 && y < 0x100 ==> Xor(b, ShlEight(y)) < 0x1_0000
    ensures b < 0x100 && y < 0x1_0000 ==> Xor(b, ShlEight(y)) < 0x100_0000
  {
  }

  lemma PackStep(b: bv32, y: bv32)
    ensures b < 0x100 && y == 0 ==> Xor(b, Shl(y, 8)) < 0x100
    ensures b < 0x100 && y < 0x100 ==> Xor(b, Shl(y, 8)) < 0x1_0000
    ensures b < 0x100 && y < 0x1_0000 ==> Xor(b, Shl(y, 8)) < 0x100_0000
  {
    PackBits(b, y);
    ShlIsShift(y);
    hide Xor, ShlEight;
  }

  function Pow2(n: nat): bv32 {
    match n
    case 0 => 1
    case 1 => 2
    case 2 => 4
    case 3 => 8
    case 4 => 0x10
    case 5 => 0x20
    case 6 => 0x40
    case 7 => 0x80
    case _ => 0x100
  }

  lemma DigitBound(y: bv32, e: bv32)
    requires e == 0 || e == 1
    ensures y == 0 ==> Xor(Shl1(y), e) < 2
    ensures y < 2 ==> Xor(Shl1(y), e) < 4
    ensures y < 4 ==> Xor(Shl1(y), e) < 8
    ensures y < 8 ==> Xor(Shl1(y), e) < 0x10
    ensures y < 0x10 ==> Xor(Shl1(y), e) < 0x20
    ensures y < 0x20 ==> Xor(Shl1(y), e) < 0x40
    ensures y < 0x40 ==> Xor(Shl1(y), e) < 0x80
    ensures y < 0x80 ==> Xor(Shl1(y), e) < 0x100
  {
  }

  lemma {:induction false} DigitsBound(b: nat, n: nat)
    requires n <= 8
    ensures Digits(b, n) < Pow2(n)
    decreases n
  {
    hide Xor, Shl1;
    if n > 0 {
      DigitsBound(b / 2, n - 1);
      DigitBound(Digits(b / 2, n - 1), Parity(b));
    }
  }

  lemma DigitParts(u: bv32, e: bv32)
    requires u < 0x8000_0000 && (e == 0 || e == 1)
    ensures Low(Xor(Shl1(u), e)) == e && Shr1(Xor(Shl1(u), e)) == u
  {
  }

  lemma Pow2Top(n: nat, y: bv32)
    requires y < Pow2(n)
    ensures y < 0x8000_0000 && y < 0x200
  {
  }

  function PowNat(n: nat): nat {
    if n == 0 then 1 else 2 * PowNat(n - 1)
  }

  lemma DigitsSplit(a: nat, n: nat)
    requires 0 < n <= 8
    ensures Low(Digits(a, n)) == Parity(a) && Shr1(Digits(a, n)) == Digits(a / 2, n - 1)
  {
    DigitsBound(a / 2, n - 1);
    Pow2Top(n - 1, Digits(a / 2, n - 1));
    DigitParts(Digits(a / 2, n - 1), Parity(a));
    hide Xor, Shl1, Shr1, Low, Pow2;
  }

  lemma ParityTells(a: nat, b: nat)
    requires Parity(a) == Parity(b)
    ensures a % 2 == b % 2
  {
  }

  lemma {:induction false} DigitsInjective(a: nat, b: nat, n: nat)
    requires n <= 8 && a < PowNat(n) && b < PowNat(n) && Digits(a, n) == Digits(b, n)
    ensures a == b
    decreases n
  {
    if n > 0 {
      DigitsSplit(a, n);
      DigitsSplit(b, n);
      ParityTells(a, b);
      hide Digits, Parity, Low, Shr1;
      DigitsInjective(a / 2, b / 2, n - 1);
    }
  }

  lemma ByteBitsInjective(a: Byte, b: Byte)
    requires ByteBits(a) == ByteBits(b)
    ensures a == b
  {
    assert PowNat(4) == 16;
    assert PowNat(8) == 16 * PowNat(4);
    DigitsInjective(a, b, 8);
  }

  lemma ByteBitsSmall(b: Byte)
    ensures ByteBits(b) < 0x100
  {
    DigitsBound(b, 8);
  }

  lemma PackedSmall(w: Memory)
    requires |w| <= 3
    ensures Packed(w) < 0x100_0000
  {
    if |w| >= 1 {
      ByteBitsSmall(w[0]);
      PackStep(ByteBits(w[0]), Packed(w[1..]));
      if |w| >= 2 {
        ByteBitsSmall(w[1]);
        PackStep(ByteBits(w[1]), Packed(w[1..][1..]));
        if |w| == 3 {
          ByteBitsSmall(w[2]);
          PackStep(ByteBits(w[2]), Packed(w[1..][1..][1..]));
        }
      }
    }
  }

  lemma XorAssoc(a: bv32, b: bv32, c: bv32)
    ensures Xor(Xor(a, b), c) == Xor(a, Xor(b, c))
  {
  }

  lemma {:induction false} BitStepsAdd(c: bv32, m: nat, n: nat)
    ensures BitSteps(BitSteps(c, m), n) == BitSteps(c, m + n)
    decreases m
  {
    if m > 0 {
      BitStepsAdd(BitStep(c), m - 1, n);
    }
  }

  lemma XorZero(c: bv32)
    ensures Xor(c, 0) == c
  {
  }

  /** Feeding up to four bytes is one xor with their word, then the bit steps. */
  lemma {:induction false} RegisterPacked(c: bv32, w: Memory)
    requires |w| <= 4
    ensures Register(c, w) == BitSteps(Xor(c, Packed(w)), 8 * |w|)
    decreases |w|
  {
    if w == [] {
      XorZero(c);
    } else {
      var b, y := ByteBits(w[0]), Packed(w[1..]);
      PackedSmall(w[1..]);
      RegisterPacked(ByteStep(c, w[0]), w[1..]);
      StepsShift(Xor(c, b), y, 8);
      XorAssoc(c, b, Shl(y, 8));
      BitStepsAdd(Xor(c, Packed(w)), 8, 8 * |w[1..]|);
    }
  }

  lemma LowByteBits(x: bv32, y: bv32, u: bv32, v: bv32)
    requires Xor(x, ShlEight(u)) == Xor(y, ShlEight(v)) && u < 0x100_0000 && v < 0x100_0000 && x < 0x100 && y < 0x100
    ensures x == y && u == v
  {
  }

  lemma LowByte(x: bv32, y: bv32, u: bv32, v: bv32)
    requires Xor(x, Shl(u, 8)) == Xor(y, Shl(v, 8)) && u < 0x100_0000 && v < 0x100_0000 && x < 0x100 && y < 0x100
    ensures x == y && u == v
  {
    ShlIsShift(u);
    ShlIsShift(v);
    hide Xor, ShlEight;
    LowByteBits(x, y, u, v);
  }

  lemma {:induction false} PackedInjective(w: Memory, z: Memory)
    requires |w| == |z| <= 4 && Packed(w) == Packed(z)
    ensures w == z
  {
    if w != [] {
      PackedSmall(w[1..]);
      PackedSmall(z[1..]);
      ByteBitsSmall(w[0]);
      ByteBitsSmall(z[0]);
      LowByte(ByteBits(w[0]), ByteBits(z[0]), Packed(w[1..]), Packed(z[1..]));
      ByteBitsInjective(w[0], z[0]);
      PackedInjective(w[1..], z[1..]);
    }
  }

  /** Two images of the same length that differ only within four consecutive bytes
      have different CRCs. */
  lemma FourByteChangeDetected(m: Memory, n: Memory, k: nat, len: nat, c: bv32)
    requires |m| == |n| && len <= 4 && k + len <= |m| && m != n
    requires m[..k] == n[..k] && m[k + len..] == n[k + len..]
    ensures Crc(m, c) != Crc(n, c)
  {
    var s := Xor(c, ALL_ONES);
    var p, t := m[..k], m[k + len..];
    var w, z := m[k..k + len], n[k..k + len];
    assert m == p + (w + t);
    assert n == p + (z + t);
    RegisterConcat(s, p, w + t);
    RegisterConcat(s, p, z + t);
    var q := Register(s, p);
    RegisterConcat(q, w, t);
    RegisterConcat(q, z, t);
    if Crc(m, c) == Crc(n, c) {
      XorInjective(Register(s, m), Register(s, n), ALL_ONES);
      RegisterInjective(Register(q, w), Register(q, z), t);
      RegisterPacked(q, w);
      RegisterPacked(q, z);
      BitStepsInjective(Xor(q, Packed(w)), Xor(q, Packed(z)), 8 * len);
      XorInjective(Packed(w), Packed(z), q);
      PackedInjective(w, z);
      assert false;
    }
  }
}
