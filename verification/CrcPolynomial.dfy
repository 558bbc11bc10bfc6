/** The CRC as section 8 of RFC 1952 defines it: a remainder of polynomials with
    coefficients 0 and 1, given here by the exponents of the generator and long division,
    without the reflected constant of src/util.c. */
module CrcPolynomial {
  import opened Words
  import opened Crc32

  /** The generator is x^32 and these powers of x. */
  const POWERS: set<nat> := {26, 23, 22, 16, 12, 11, 10, 8, 7, 5, 4, 2, 1, 0}

  /** A polynomial is the list of its coefficients, from the highest power down. */
  type Poly = seq<bool>

  /** The generator without x^32. */
  function Generator(): (g: Poly)
    ensures |g| == 32
  {
    seq(32, i requires 0 <= i < 32 => 31 - i in POWERS)
  }

  /** `b`, times the power of x that lines up the highest coefficients, is added to `a`. */
  function Plus(a: Poly, b: Poly): (r: Poly)
    requires |b| <= |a|
    ensures |r| == |a| && forall i :: 0 <= i < |r| ==> r[i] == if i < |b| then a[i] != b[i] else a[i]
  {
    seq(|a|, i requires 0 <= i < |a| => if i < |b| then a[i] != b[i] else a[i])
  }

  /** The remainder of `p` by the generator, by long division. */
  function Remainder(p: Poly): (r: Poly)
    requires |p| >= 32
    ensures |r| == 32
    decreases |p|
  {
    if |p| == 32 then p else Remainder(if p[0] then Plus(p[1..], Generator()) else p[1..])
  }

  /** The `n` binary digits of `v`, the lowest first. */
  function BitsOf(v: nat, n: nat): (s: seq<bool>)
    ensures |s| == n
    decreases n
  {
    if n == 0 then [] else [v % 2 == 1] + BitsOf(v / 2, n - 1)
  }

  /** The message: byte after byte, the lowest bit of each first. */
  function MessageBits(data: Memory): (s: seq<bool>)
    ensures |s| == 8 * |data|
    decreases |data|
  {
    if data == [] then [] else BitsOf(data[0], 8) + MessageBits(data[1..])
  }

  function Coeffs(n: nat, c: bool): (s: Poly)
    ensures |s| == n && forall i :: 0 <= i < n ==> s[i] == c
  {
    seq(n, _ => c)
  }

  // ----- the register as a list of bits -----

  function IntOf(x: bv32): nat { x as int }

  lemma Doubled(y: bv32)
    requires y < 0x8000_0000
    ensures (y << 1) as int == 2 * (y as int) && ((y << 1) | 1) as int == 2 * (y as int) + 1
  {
  }

  lemma DoubledIs(y: bv32)
    requires y < 0x8000_0000
    ensures IntOf(y << 1) == 2 * IntOf(y) && IntOf((y << 1) | 1) == 2 * IntOf(y) + 1
  {
    Doubled(y);
  }

  lemma LowBit(x: bv32)
    ensures Shr1(x) < 0x8000_0000 && x == if Low(x) != 0 then (Shr1(x) << 1) | 1 else Shr1(x) << 1
  {
  }

  /** The low bit of a word is its parity, and a shift to the right halves it. */
  lemma Half(x: bv32)
    ensures IntOf(x) == 2 * IntOf(Shr1(x)) + if Low(x) != 0 then 1 else 0
  {
    LowBit(x);
    hide *;
    DoubledIs(Shr1(x));
  }

  lemma ZeroAsInt(x: bv32)
    ensures IntOf(x) == 0 <==> x == 0
  {
  }

  lemma HalfBits(x: bv32, n: nat)
    ensures BitsOf(IntOf(x), n + 1) == [Low(x) != 0] + BitsOf(IntOf(Shr1(x)), n)
  {
    hide *;
    Half(x);
    BitsNext(IntOf(x), IntOf(Shr1(x)), Low(x) != 0, n);
  }

  lemma BitsNext(v: nat, h: nat, odd: bool, n: nat)
    requires v == 2 * h + if odd then 1 else 0
    ensures BitsOf(v, n + 1) == [odd] + BitsOf(h, n)
  {
    assert v / 2 == h && (v % 2 == 1) == odd;
  }

  lemma XorParts(x: bv32, y: bv32)
    ensures Shr1(Xor(x, y)) == Xor(Shr1(x), Shr1(y))
    ensures Low(Xor(x, y)) != 0 <==> (Low(x) != 0) != (Low(y) != 0)
  {
  }

  /** Exclusive or of words adds the polynomials of their bits. */
  lemma {:induction false} XorIsPlus(x: bv32, y: bv32, n: nat)
    ensures BitsOf(IntOf(Xor(x, y)), n) == Plus(BitsOf(IntOf(x), n), BitsOf(IntOf(y), n))
    decreases n
  {
    hide Xor, Shr1, Low, IntOf, BitsOf;
    if n == 0 {
      NoBits(IntOf(x));
      NoBits(IntOf(y));
      NoBits(IntOf(Xor(x, y)));
    } else {
      HalfBits(x, n - 1);
      HalfBits(y, n - 1);
      HalfBits(Xor(x, y), n - 1);
      XorParts(x, y);
      XorIsPlus(Shr1(x), Shr1(y), n - 1);
    }
  }

  lemma NoBits(v: nat)
    ensures BitsOf(v, 0) == []
  {
  }

  /** The bits of a number that `n` bits are enough for. */
  lemma {:induction false} TopIsClear(v: nat, n: nat)
    requires v < PowNat(n)
    ensures BitsOf(v, n + 1) == BitsOf(v, n) + [false]
    decreases n
  {
    if n > 0 {
      TopIsClear(v / 2, n - 1);
    } else {
      assert BitsOf(0, 1) == [false] + BitsOf(0, 0);
    }
  }

  lemma Pow31()
    ensures PowNat(31) == 0x8000_0000
  {
    assert PowNat(8) == 2 * PowNat(7) && PowNat(7) == 2 * PowNat(6) && PowNat(6) == 64;
    assert PowNat(16) == 0x1_0000 by { PowAdds(8, 8); }
    assert PowNat(24) == 0x100_0000 by { PowAdds(16, 8); }
    assert PowNat(31) == 0x8000_0000 by { PowAdds(24, 7); }
  }

  lemma {:induction false} PowAdds(m: nat, n: nat)
    ensures PowNat(m + n) == PowNat(m) * PowNat(n)
    decreases n
  {
    if n > 0 {
      PowAdds(m, n - 1);
    }
  }

  /** The bits of the register, and so its coefficients from x^31 down. */
  function Register32(c: bv32): (p: Poly)
    ensures |p| == 32
  {
    BitsOf(IntOf(c), 32)
  }

  lemma HalfInRange(c: bv32)
    ensures IntOf(Shr1(c)) < 0x8000_0000
  {
    hide *;
    Half(c);
    WordRange(c);
  }

  lemma WordRange(c: bv32)
    ensures IntOf(c) < 0x1_0000_0000
  {
  }

  /** A shift to the right multiplies by x and drops x^32. */
  lemma ShiftedRegister(c: bv32)
    ensures Register32(c)[0] == (Low(c) != 0)
    ensures Register32(Shr1(c)) == Register32(c)[1..] + [false]
  {
    hide Shr1, Low, IntOf, BitsOf;
    HalfBits(c, 31);
    HalfInRange(c);
    Pow31();
    TopIsClear(IntOf(Shr1(c)), 31);
  }

  /** The bits of `w` below those of `q`. */
  lemma {:induction false} BitsJoin(w: nat, q: nat, m: nat, n: nat)
    requires w < PowNat(m)
    ensures BitsOf(w + PowNat(m) * q, m + n) == BitsOf(w, m) + BitsOf(q, n)
    decreases m
  {
    if m > 0 {
      var p := PowNat(m - 1);
      Halved(w, p, q);
      BitsJoin(w / 2, q, m - 1, n);
    } else {
      assert BitsOf(w, 0) == [];
    }
  }

  lemma Halved(w: nat, p: nat, q: nat)
    ensures (w + 2 * p * q) / 2 == w / 2 + p * q && (w + 2 * p * q) % 2 == w % 2
  {
    var t := p * q;
    assert w + 2 * p * q == w + 2 * t;
  }

  /** The constant of the code is the generator, the other way round. */
  lemma PolyIsGenerator()
    ensures Register32(UTIL_CRC32_POLY) == Generator()
  {
    hide *;
    PolyBitsAre();
    GeneratorBits();
  }

  /** The four bits of a hexadecimal digit. */
  function Nibble(v: nat): seq<bool> {
    [v % 2 == 1, v / 2 % 2 == 1, v / 4 % 2 == 1, v / 8 % 2 == 1]
  }

  lemma NibbleBits(v: nat)
    ensures BitsOf(v, 4) == Nibble(v)
  {
    assert v / 2 / 2 == v / 4 && v / 4 / 2 == v / 8;
    assert BitsOf(v / 8, 1) == [v / 8 % 2 == 1] + BitsOf(v / 8 / 2, 0);
  }

  lemma NibbleFirst(d: nat, q: nat, n: nat)
    requires d < 16
    ensures BitsOf(16 * q + d, 4 + n) == Nibble(d) + BitsOf(q, n)
  {
    assert PowNat(4) == 16;
    NibbleBits(d);
    BitsJoin(d, q, 4, n);
  }

  lemma PolyValue()
    ensures Register32(UTIL_CRC32_POLY) == BitsOf(0xEDB88320, 32)
  {
    assert IntOf(UTIL_CRC32_POLY) == 0xEDB88320 by {
      hide BitsOf, Register32;
    }
    hide BitsOf;
  }

  lemma PolyBitsAre()
    ensures Register32(UTIL_CRC32_POLY) == Nibble(0x0) + (Nibble(0x2) + (Nibble(0x3) + (Nibble(0x8) + (Nibble(0x8) + (Nibble(0xB) + (Nibble(0xD) + (Nibble(0xE))))))))
  {
    hide *;
    PolyValue();
    NibbleFirst(0x0, 0xEDB8832, 28);
    NibbleFirst(0x2, 0xEDB883, 24);
    NibbleFirst(0x3, 0xEDB88, 20);
    NibbleFirst(0x8, 0xEDB8, 16);
    NibbleFirst(0x8, 0xEDB, 12);
    NibbleFirst(0xB, 0xED, 8);
    NibbleFirst(0xD, 0xE, 4);
    NibbleBits(0xE);
  }

  lemma GeneratorBits()
    ensures Generator() == Nibble(0x0) + (Nibble(0x2) + (Nibble(0x3) + (Nibble(0x8) + (Nibble(0x8) + (Nibble(0xB) + (Nibble(0xD) + (Nibble(0xE))))))))
  {
  }

  // ----- the loop divides -----

  lemma PlusAssoc(a: Poly, b: Poly, c: Poly)
    requires |b| == |c| <= |a|
    ensures Plus(Plus(a, b), c) == Plus(a, Plus(b, c))
  {
  }

  lemma PlusTail(a: Poly, b: Poly)
    requires 0 < |b| <= |a|
    ensures Plus(a, b)[0] == (a[0] != b[0])
    ensures |b| <= |a[1..]| ==> Plus(a, b)[1..] == Plus(a[1..], b[1..] + [false])
  {
  }

  lemma BitStepIs(c: bv32)
    ensures BitStep(c) == if Low(c) != 0 then Xor(Shr1(c), UTIL_CRC32_POLY) else Shr1(c)
  {
  }

  /** One step of the register is one step of the division. */
  lemma StepDivides(q: Poly, c: bv32)
    requires |q| >= 32
    ensures Remainder(Plus([false] + q, Register32(c))) == Remainder(Plus(q, Register32(BitStep(c))))
  {
    hide BitStep, Xor, Shr1, Low, Register32, Plus, Remainder, Generator;
    var p := Plus([false] + q, Register32(c));
    assert ([false] + q)[1..] == q;
    PlusTail([false] + q, Register32(c));
    ShiftedRegister(c);
    BitStepIs(c);
    DivideOnce(p);
    if Low(c) != 0 {
      PolyIsGenerator();
      XorRegisters(Shr1(c), UTIL_CRC32_POLY);
      PlusAssoc(q, Register32(Shr1(c)), Generator());
    }
  }

  lemma XorRegisters(x: bv32, y: bv32)
    ensures Register32(Xor(x, y)) == Plus(Register32(x), Register32(y))
  {
    hide Xor, IntOf, BitsOf;
    XorIsPlus(x, y, 32);
  }

  lemma DivideOnce(p: Poly)
    requires |p| > 32
    ensures Remainder(p) == Remainder(if p[0] then Plus(p[1..], Generator()) else p[1..])
  {
    hide Generator, Plus;
  }

  lemma {:induction false} StepsDivide(q: Poly, c: bv32, n: nat)
    requires |q| >= 32
    ensures Remainder(Plus(Coeffs(n, false) + q, Register32(c))) == Remainder(Plus(q, Register32(BitSteps(c, n))))
    decreases n
  {
    hide BitStep, Register32, Plus, Remainder, Generator;
    if n == 0 {
      assert Coeffs(0, false) + q == q;
    } else {
      assert Coeffs(n, false) + q == [false] + (Coeffs(n - 1, false) + q);
      StepDivides(Coeffs(n - 1, false) + q, c);
      StepsDivide(q, BitStep(c), n - 1);
    }
  }

  lemma DigitsNext(b: nat, n: nat)
    requires 0 < n <= 8
    ensures IntOf(Digits(b, n)) == 2 * IntOf(Digits(b / 2, n - 1)) + b % 2
  {
    DigitsSplit(b, n);
    Half(Digits(b, n));
    hide Digits, Shr1, Low, IntOf;
  }

  lemma {:induction false} DigitsAreBits(b: nat, n: nat)
    requires n <= 8 && b < PowNat(n)
    ensures IntOf(Digits(b, n)) == b
    decreases n
  {
    hide IntOf;
    if n > 0 {
      DigitsNext(b, n);
      hide Digits;
      DigitsAreBits(b / 2, n - 1);
    } else {
      ZeroAsInt(0);
    }
  }

  lemma {:induction false} ClearBits(n: nat)
    ensures BitsOf(0, n) == Coeffs(n, false)
    decreases n
  {
    if n > 0 {
      ClearBits(n - 1);
    }
  }

  /** A byte as a word: its bits, and zeros. */
  lemma ByteRegister(b: Byte)
    ensures Register32(ByteBits(b)) == BitsOf(b, 8) + Coeffs(24, false)
  {
    assert PowNat(4) == 16;
    assert PowNat(8) == 0x100;
    DigitsAreBits(b, 8);
    hide Digits, IntOf, BitsOf, PowNat;
    BitsJoin(b, 0, 8, 24);
    ClearBits(24);
  }

  lemma PlusByte(s: Poly, q: Poly, r: Poly)
    requires |s| == 8 && |r| == 32 && |q| >= 32
    ensures Plus(s + q, r) == Plus(Coeffs(8, false) + q, Plus(r, s + Coeffs(24, false)))
  {
  }

  /** The register takes in a byte: eight steps of the division. */
  lemma ByteDivides(q: Poly, c: bv32, b: Byte)
    requires |q| >= 32
    ensures Remainder(Plus(BitsOf(b, 8) + q, Register32(c))) == Remainder(Plus(q, Register32(ByteStep(c, b))))
  {
    hide *;
    PlusByte(BitsOf(b, 8), q, Register32(c));
    ByteRegister(b);
    XorRegisters(c, ByteBits(b));
    StepsDivide(q, Xor(c, ByteBits(b)), 8);
    ByteStepIs(c, b);
  }

  lemma ByteStepIs(c: bv32, b: Byte)
    ensures ByteStep(c, b) == BitSteps(Xor(c, ByteBits(b)), 8)
  {
    hide BitSteps, Xor, ByteBits;
  }

  /** The register after the data is the remainder of the data, followed by 32 zeros and
      with the register before it added at its front. */
  lemma {:induction false} RegisterDivides(c: bv32, data: Memory)
    ensures Register32(Register(c, data)) == Remainder(Plus(MessageBits(data) + Coeffs(32, false), Register32(c)))
    decreases |data|
  {
    hide ByteStep, Register32, Remainder, Plus, BitsOf;
    if data == [] {
      AtTheEnd(Register32(c));
    } else {
      var q := MessageBits(data[1..]) + Coeffs(32, false);
      assert MessageBits(data) + Coeffs(32, false) == BitsOf(data[0], 8) + q;
      ByteDivides(q, c, data[0]);
      RegisterDivides(ByteStep(c, data[0]), data[1..]);
    }
  }

  lemma AtTheEnd(r: Poly)
    requires |r| == 32
    ensures Remainder(Plus([] + Coeffs(32, false), r)) == r
  {
    assert Plus([] + Coeffs(32, false), r) == r;
  }

  lemma AllOnesBits()
    ensures Register32(ALL_ONES) == Coeffs(32, true)
  {
    hide *;
    OnesValue();
    OnesBits(0xffff_ffff, 32);
  }

  lemma OnesValue()
    ensures Register32(ALL_ONES) == BitsOf(0xffff_ffff, 32) && PowNat(32) == 0x1_0000_0000
  {
    Pow31();
    assert PowNat(32) == 2 * PowNat(31);
    assert IntOf(ALL_ONES) == 0xffff_ffff by {
      hide BitsOf, Register32, PowNat;
    }
    hide BitsOf;
  }

  lemma {:induction false} OnesBits(v: nat, n: nat)
    requires v == PowNat(n) - 1
    ensures BitsOf(v, n) == Coeffs(n, true)
    decreases n
  {
    if n > 0 {
      OnesBits(v / 2, n - 1);
    }
  }

  /** The CRC of a message, continued from `c`, is the complemented remainder of the message
      times x^32, with the complement of `c` added to its first 32 coefficients; for a new
      message, when `c` is 0, these are complemented. */
  lemma CrcIsRemainder(data: Memory, c: bv32)
    ensures BitsOf(Crc(data, c) as int, 32) ==
              Plus(Remainder(Plus(MessageBits(data) + Coeffs(32, false), Plus(BitsOf(c as int, 32), Coeffs(32, true)))), Coeffs(32, true))
  {
    CrcAsRegister(data, c);
    hide *;
    RegisterDivides(Xor(c, ALL_ONES), data);
    XorRegisters(c, ALL_ONES);
    XorRegisters(Register(Xor(c, ALL_ONES), data), ALL_ONES);
    AllOnesBits();
  }

  lemma CrcAsRegister(data: Memory, c: bv32)
    ensures BitsOf(Crc(data, c) as int, 32) == Register32(Xor(Register(Xor(c, ALL_ONES), data), ALL_ONES))
    ensures BitsOf(c as int, 32) == Register32(c)
  {
    hide Register, Xor, BitsOf;
  }

  /** The published check value of this CRC: the one of the digits 1 to 9. */
  lemma CheckValue()
    ensures Crc([0x31, 0x32, 0x33, 0x34, 0x35, 0x36, 0x37, 0x38, 0x39], UTIL_CRC32_INIT) == 0xCBF43926
  {
    CheckSteps1();
    CheckSteps2();
    CheckSteps3();
    hide ByteStep;
  }

  lemma {:induction false} SameNumber(x: bv32, y: bv32)
    requires IntOf(x) == IntOf(y)
    ensures x == y
    decreases IntOf(x)
  {
    hide *;
    ZeroAsInt(x);
    ZeroAsInt(y);
    if x != 0 {
      Half(x);
      Half(y);
      SameNumber(Shr1(x), Shr1(y));
      LowBit(x);
      LowBit(y);
    }
  }

  lemma ByteIs(b: Byte, w: bv32)
    requires IntOf(w) == b
    ensures ByteBits(b) == w
  {
    assert PowNat(4) == 16;
    assert PowNat(8) == 0x100;
    DigitsAreBits(b, 8);
    hide Digits, IntOf, PowNat;
    SameNumber(Digits(b, 8), w);
  }

  lemma CheckBytes()
    ensures ByteBits(0x31) == 0x31 && ByteBits(0x32) == 0x32 && ByteBits(0x33) == 0x33
    ensures ByteBits(0x34) == 0x34 && ByteBits(0x35) == 0x35 && ByteBits(0x36) == 0x36
    ensures ByteBits(0x37) == 0x37 && ByteBits(0x38) == 0x38 && ByteBits(0x39) == 0x39
  {
    DigitCodes();
    hide *;
    ByteIs(0x31, 0x31);
    ByteIs(0x32, 0x32);
    ByteIs(0x33, 0x33);
    ByteIs(0x34, 0x34);
    ByteIs(0x35, 0x35);
    ByteIs(0x36, 0x36);
    ByteIs(0x37, 0x37);
    ByteIs(0x38, 0x38);
    ByteIs(0x39, 0x39);
  }

  lemma DigitCodes()
    ensures IntOf(0x31) == 0x31 && IntOf(0x32) == 0x32 && IntOf(0x33) == 0x33 && IntOf(0x34) == 0x34 && IntOf(0x35) == 0x35 && IntOf(0x36) == 0x36 && IntOf(0x37) == 0x37 && IntOf(0x38) == 0x38 && IntOf(0x39) == 0x39
  {
  }

  lemma CheckSteps1()
    ensures ByteStep(0xffffffff, 0x31) == 0x7c231048 && ByteStep(0x7c231048, 0x32) == 0xb0acbb32 && ByteStep(0xb0acbb32, 0x33) == 0x77b79c2d
  {
    CheckBytes();
    hide ByteBits;
    assert BitSteps(0xffffffce, 8) == 0x7c231048;
    assert BitSteps(0x7c23107a, 8) == 0xb0acbb32;
    assert BitSteps(0xb0acbb01, 8) == 0x77b79c2d;
  }

  lemma CheckSteps2()
    ensures ByteStep(0x77b79c2d, 0x34) == 0x641c1f5c && ByteStep(0x641c1f5c, 0x35) == 0x340ac5e3 && ByteStep(0x340ac5e3, 0x36) == 0xf68d2c9e
  {
    CheckBytes();
    hide ByteBits;
    assert BitSteps(0x77b79c19, 8) == 0x641c1f5c;
    assert BitSteps(0x641c1f69, 8) == 0x340ac5e3;
    assert BitSteps(0x340ac5d5, 8) == 0xf68d2c9e;
  }

  lemma CheckSteps3()
    ensures ByteStep(0xf68d2c9e, 0x37) == 0xaffc9660 && ByteStep(0xaffc9660, 0x38) == 0x651f2550 && ByteStep(0x651f2550, 0x39) == 0x340bc6d9
  {
    CheckBytes();
    hide ByteBits;
    assert BitSteps(0xf68d2ca9, 8) == 0xaffc9660;
    assert BitSteps(0xaffc9658, 8) == 0x651f2550;
    assert BitSteps(0x651f2569, 8) == 0x340bc6d9;
  }
}
