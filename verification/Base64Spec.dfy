/** The encoding of section 4 of RFC 4648, its inverse, and the characters that a
    byte-by-byte encoder has put out at any time. */
module Base64Spec {
  import opened Words
  import opened Options

  const PAD: Byte := 61

  /** The character for six bits. */
  function CharOf(v: nat): Byte
    requires v < 64
  {
    if v < 26 then 65 + v else if v < 52 then 97 + (v - 26) else if v < 62 then 48 + (v - 52) else if v == 62 then 43 else 47
  }

  function ValueOf(c: Byte): Option<nat> {
    if 65 <= c < 91 then Some(c - 65)
    else if 97 <= c < 123 then Some(c - 97 + 26)
    else if 48 <= c < 58 then Some(c - 48 + 52)
    else if c == 43 then Some(62)
    else if c == 47 then Some(63)
    else None
  }

  const UPPER: string := "ABCDEFGHIJKLMNOPQRSTUVWXYZ"
  const LOWER: string := "abcdefghijklmnopqrstuvwxyz"
  const OTHERS: string := "0123456789+/"

  /** `base64_char`, the alphabet of table 1 of RFC 4648. */
  const BASE64_CHAR: string := UPPER + LOWER + OTHERS

  lemma UpperChars(v: nat)
    requires v < 26
    ensures UPPER[v] as int == CharOf(0 + v)
  {
    assert v == 0 || v == 1 || v == 2 || v == 3 || v == 4 || v == 5 || v == 6 || v == 7 || v == 8 || v == 9 || v == 10 || v == 11 ||
           v == 12 || v == 13 || v == 14 || v == 15 || v == 16 || v == 17 || v == 18 || v == 19 || v == 20 || v == 21 || v == 22 ||
           v == 23 || v == 24 || v == 25;
  }

  lemma LowerChars(v: nat)
    requires v < 26
    ensures LOWER[v] as int == CharOf(26 + v)
  {
    assert v == 0 || v == 1 || v == 2 || v == 3 || v == 4 || v == 5 || v == 6 || v == 7 || v == 8 || v == 9 || v == 10 || v == 11 ||
           v == 12 || v == 13 || v == 14 || v == 15 || v == 16 || v == 17 || v == 18 || v == 19 || v == 20 || v == 21 || v == 22 ||
           v == 23 || v == 24 || v == 25;
  }

  lemma OtherChars(v: nat)
    requires v < 12
    ensures OTHERS[v] as int == CharOf(52 + v)
  {
    assert v == 0 || v == 1 || v == 2 || v == 3 || v == 4 || v == 5 || v == 6 || v == 7 || v == 8 || v == 9 || v == 10 || v == 11;
  }

  lemma TableChars(v: nat)
    requires v < 64
    ensures |BASE64_CHAR| == 64 && BASE64_CHAR[v] as int == CharOf(v)
  {
    TableParts(v);
    hide CharOf;
    if v < 26 {
      UpperChars(v);
    } else if v < 52 {
      LowerChars(v - 26);
    } else {
      OtherChars(v - 52);
    }
  }

  lemma TableParts(v: nat)
    requires v < 64
    ensures |BASE64_CHAR| == 64 && |UPPER| == |LOWER| == 26 && |OTHERS| == 12
    ensures BASE64_CHAR[v] == if v < 26 then UPPER[v] else if v < 52 then LOWER[v - 26] else OTHERS[v - 52]
  {
  }

  /** `base64_char[v]`. */
  method CharAt(v: nat) returns (c: Byte)
    requires v < 64
    ensures c == CharOf(v)
  {
    TableChars(v);
    return BASE64_CHAR[v] as int;
  }

  lemma CharRoundTrip(v: nat)
    requires v < 64
    ensures ValueOf(CharOf(v)) == Some(v) && CharOf(v) != PAD
  {
  }

  // ----- the standard -----

  /** Four characters for a 24-bit group. */
  function Quad(b0: Byte, b1: Byte, b2: Byte): (q: seq<Byte>)
    ensures |q| == 4
  {
    var v: int := 0x1_0000 * b0 as int + 0x100 * b1 as int + b2;
    [CharOf(v / 0x4_0000), CharOf(v / 0x1000 % 64), CharOf(v / 64 % 64), CharOf(v % 64)]
  }

  /** A last group of 8 or 16 bits is filled up with zero bits and padded. */
  function Encode(s: seq<Byte>): (t: seq<Byte>)
    decreases |s|
  {
    if s == [] then []
    else if |s| == 1 then
      var v: int := 0x10 * s[0] as int;
      [CharOf(v / 64), CharOf(v % 64), PAD, PAD]
    else if |s| == 2 then
      var v: int := 0x400 * s[0] as int + 4 * s[1] as int;
      [CharOf(v / 0x1000), CharOf(v / 64 % 64), CharOf(v % 64), PAD]
    else Quad(s[0], s[1], s[2]) + Encode(s[3..])
  }

  /** Test vectors of section 10 of RFC 4648: "f", "fo", "foo" are "Zg==", "Zm8=", "Zm9v". */
  lemma Rfc4648Vectors()
    ensures Encode([102]) == [90, 103, 61, 61] && Encode([102, 111]) == [90, 109, 56, 61] && Encode([102, 111, 111]) == [90, 109, 57, 118]
  {
    assert Encode([102, 111, 111]) == Quad(102, 111, 111) + Encode([]);
  }

  /** None for text that is not an encoding. */
  function Decode(t: seq<Byte>): Option<seq<Byte>>
    decreases |t|
  {
    if t == [] then Some([])
    else if |t| < 4 then None
    else
      match (ValueOf(t[0]), ValueOf(t[1]), ValueOf(t[2]), ValueOf(t[3]))
      case (Some(a), Some(b), Some(c), Some(d)) =>
        var v := 0x4_0000 * a + 0x1000 * b + 64 * c + d;
        (match Decode(t[4..])
         case Some(rest) => Some([v / 0x1_0000 % 0x100, v / 0x100 % 0x100, v % 0x100] + rest)
         case None => None)
      case (Some(a), Some(b), Some(c), None) =>
        if t[3] == PAD && |t| == 4 && c % 4 == 0 then Some([(64 * a + b) / 16 % 0x100, (64 * b + c) / 4 % 0x100]) else None
      case (Some(a), Some(b), None, None) =>
        if t[2] == PAD && t[3] == PAD && |t| == 4 && b % 16 == 0 then Some([(64 * a + b) / 16 % 0x100]) else None
      case _ => None
  }

  lemma QuadBytes(b0: int, b1: int, b2: int)
    requires 0 <= b0 < 0x100 && 0 <= b1 < 0x100 && 0 <= b2 < 0x100
    ensures var v := 0x1_0000 * b0 + 0x100 * b1 + b2;
            v / 0x1_0000 % 0x100 == b0 && v / 0x100 % 0x100 == b1 && v % 0x100 == b2
  {
    HighByte(b0, 0x100 * b1 + b2);
    LowBytes(0x100 * b0 + b1, b2);
    MiddleByte(b0, b1);
  }

  lemma HighByte(hi: int, lo: int)
    requires 0 <= lo < 0x1_0000
    ensures (0x1_0000 * hi + lo) / 0x1_0000 == hi
  {
  }

  lemma LowBytes(hi: int, lo: int)
    requires 0 <= lo < 0x100
    ensures (0x100 * hi + lo) / 0x100 == hi && (0x100 * hi + lo) % 0x100 == lo
  {
  }

  lemma MiddleByte(hi: int, lo: int)
    requires 0 <= lo < 0x100
    ensures (0x100 * hi + lo) % 0x100 == lo
  {
  }

  // The four sextets of three bytes, one quotient at a time.

  lemma FirstSextet(b0: int, rest: int)
    requires 0 <= rest < 0x1_0000
    ensures (0x1_0000 * b0 + rest) / 0x4_0000 == b0 / 4
  {
    var q, r := b0 / 4, b0 % 4;
    assert 0x1_0000 * b0 + rest == 0x4_0000 * q + (0x1_0000 * r + rest);
  }

  lemma SecondSextet(b0: int, b1: int, b2: int)
    requires 0 <= b1 < 0x100 && 0 <= b2 < 0x100
    ensures (0x1_0000 * b0 + 0x100 * b1 + b2) / 0x1000 == 16 * b0 + b1 / 16
  {
    var q, r := b1 / 16, b1 % 16;
    assert 0x1_0000 * b0 + 0x100 * b1 + b2 == 0x1000 * (16 * b0 + q) + (0x100 * r + b2);
  }

  lemma ThirdSextet(b0: int, b1: int, b2: int)
    requires 0 <= b2 < 0x100
    ensures var v := 0x1_0000 * b0 + 0x100 * b1 + b2; v / 64 == 1024 * b0 + 4 * b1 + b2 / 64 && v % 64 == b2 % 64
  {
    var q, r := b2 / 64, b2 % 64;
    assert 0x1_0000 * b0 + 0x100 * b1 + b2 == 64 * (1024 * b0 + 4 * b1 + q) + r;
  }

  lemma SecondMod(b: int, rest: int)
    requires 0 <= rest < 16
    ensures (16 * b + rest) % 64 == b % 4 * 16 + rest
  {
    var q, r := b / 4, b % 4;
    assert 16 * b + rest == 64 * q + (16 * r + rest);
  }

  lemma ThirdMod(b0: int, b1: int, rest: int)
    requires 0 <= rest < 4
    ensures (1024 * b0 + 4 * b1 + rest) % 64 == b1 % 16 * 4 + rest
  {
    var q, r := b1 / 16, b1 % 16;
    assert 1024 * b0 + 4 * b1 + rest == 64 * (16 * b0 + q) + (4 * r + rest);
  }

  lemma QuadParts(b0: int, b1: int, b2: int)
    requires 0 <= b0 < 0x100 && 0 <= b1 < 0x100 && 0 <= b2 < 0x100
    ensures var v := 0x1_0000 * b0 + 0x100 * b1 + b2;
            && v / 0x4_0000 == b0 / 4 && v / 0x1000 % 64 == b0 % 4 * 16 + b1 / 16
            && v / 64 % 64 == b1 % 16 * 4 + b2 / 64 && v % 64 == b2 % 64
  {
    FirstSextet(b0, 0x100 * b1 + b2);
    SecondSextet(b0, b1, b2);
    ThirdSextet(b0, b1, b2);
    SecondMod(b0, b1 / 16);
    ThirdMod(b0, b1, b2 / 64);
  }

  lemma SextetsJoin(v: int)
    requires 0 <= v < 0x100_0000
    ensures 0x4_0000 * (v / 0x4_0000) + 0x1000 * (v / 0x1000 % 64) + 64 * (v / 64 % 64) + v % 64 == v
  {
    assert v / 64 == 64 * (v / 0x1000) + v / 64 % 64;
    assert v / 0x1000 == 64 * (v / 0x4_0000) + v / 0x1000 % 64;
  }

  /** Decoding gives back what was encoded. */
  lemma {:induction false} DecodeEncode(s: seq<Byte>)
    ensures Decode(Encode(s)) == Some(s)
    decreases |s|
  {
    hide CharOf, ValueOf;
    if |s| >= 3 {
      DecodeEncode(s[3..]);
      DecodeQuad(s);
    } else if |s| == 2 {
      DecodePair(s);
    } else if |s| == 1 {
      DecodeSingle(s);
    }
  }

  /** The bytes of a group of four characters. */
  function Triple(v: int): seq<Byte> {
    [v / 0x1_0000 % 0x100, v / 0x100 % 0x100, v % 0x100]
  }

  lemma {:induction false} DecodeGroup(t: seq<Byte>, v: int, rest: seq<Byte>)
    requires |t| >= 4 && 0 <= v < 0x100_0000 && Decode(t[4..]) == Some(rest)
    requires ValueOf(t[0]) == Some(v / 0x4_0000) && ValueOf(t[1]) == Some(v / 0x1000 % 64)
    requires ValueOf(t[2]) == Some(v / 64 % 64) && ValueOf(t[3]) == Some(v % 64)
    ensures Decode(t) == Some(Triple(v) + rest)
  {
    hide ValueOf;
    SextetsJoin(v);
  }

  lemma {:induction false} DecodeQuad(s: seq<Byte>)
    requires |s| >= 3 && Decode(Encode(s[3..])) == Some(s[3..])
    ensures Decode(Encode(s)) == Some(s)
  {
    hide CharOf, ValueOf, Decode;
    var v: int := 0x1_0000 * s[0] as int + 0x100 * s[1] as int + s[2];
    CharRoundTrip(v / 0x4_0000);
    CharRoundTrip(v / 0x1000 % 64);
    CharRoundTrip(v / 64 % 64);
    CharRoundTrip(v % 64);
    assert Encode(s)[4..] == Encode(s[3..]);
    DecodeGroup(Encode(s), v, s[3..]);
    QuadBytes(s[0], s[1], s[2]);
    assert s == [s[0], s[1], s[2]] + s[3..];
  }

  lemma {:induction false} DecodePair(s: seq<Byte>)
    requires |s| == 2
    ensures Decode(Encode(s)) == Some(s)
  {
    hide CharOf;
    var v: int := 0x400 * s[0] as int + 4 * s[1] as int;
    CharRoundTrip(v / 0x1000);
    CharRoundTrip(v / 64 % 64);
    CharRoundTrip(v % 64);
    PairParts(s[0], s[1]);
    assert s == [s[0], s[1]];
  }

  lemma PairSextets(b0: int, b1: int)
    requires 0 <= b0 < 0x100 && 0 <= b1 < 0x100
    ensures var v := 0x400 * b0 + 4 * b1;
            v / 0x1000 == b0 / 4 && v / 64 % 64 == b0 % 4 * 16 + b1 / 16 && v % 64 == b1 % 16 * 4
  {
    var v := 0x400 * b0 + 4 * b1;
    assert v / 64 == 16 * b0 + b1 / 16;
  }

  lemma PairBytes(q0: int, r0: int, q1: int, r1: int)
    requires 0 <= q0 < 64 && 0 <= r0 < 4 && 0 <= q1 < 16 && 0 <= r1 < 16
    ensures (64 * q0 + (16 * r0 + q1)) / 16 % 0x100 == 4 * q0 + r0
    ensures (64 * (16 * r0 + q1) + 4 * r1) / 4 % 0x100 == 16 * q1 + r1
  {
    assert (64 * q0 + (16 * r0 + q1)) / 16 == 4 * q0 + r0;
    assert (64 * (16 * r0 + q1) + 4 * r1) / 4 == 0x100 * r0 + (16 * q1 + r1);
  }

  lemma PairParts(b0: int, b1: int)
    requires 0 <= b0 < 0x100 && 0 <= b1 < 0x100
    ensures var v := 0x400 * b0 + 4 * b1;
            var a, b, c := v / 0x1000, v / 64 % 64, v % 64;
            c % 4 == 0 && (64 * a + b) / 16 % 0x100 == b0 && (64 * b + c) / 4 % 0x100 == b1
  {
    PairSextets(b0, b1);
    PairBytes(b0 / 4, b0 % 4, b1 / 16, b1 % 16);
  }

  lemma {:induction false} DecodeSingle(s: seq<Byte>)
    requires |s| == 1
    ensures Decode(Encode(s)) == Some(s)
  {
    hide CharOf;
    var v: int := 0x10 * s[0] as int;
    CharRoundTrip(v / 64);
    CharRoundTrip(v % 64);
    assert s == [s[0]];
  }

  // ----- byte by byte -----

  /** The bits of the bytes so far that have not been put out. */
  function Rem(s: seq<Byte>): (r: nat)
    ensures r < 16 && (|s| % 3 == 1 ==> r < 4)
  {
    if |s| % 3 == 0 then 0 else if |s| % 3 == 1 then s[|s| - 1] % 4 else s[|s| - 1] % 16
  }

  /** What one more byte puts out. */
  function StepChars(len: nat, rem: nat, b: Byte): (t: seq<Byte>)
    requires len < 3 && rem < 16 && (len == 1 ==> rem < 4)
    ensures |t| == if len == 2 then 2 else 1
  {
    var w: int := b;
    if len == 0 then [CharOf(w / 4)]
    else if len == 1 then [CharOf(rem * 16 + w / 16)]
    else [CharOf(rem * 4 + w / 64), CharOf(w % 64)]
  }

  /** The characters put out after the bytes `s`. */
  function Emitted(s: seq<Byte>): seq<Byte>
    decreases |s|
  {
    if s == [] then []
    else
      var n := |s| - 1;
      Emitted(s[..n]) + StepChars(n % 3, Rem(s[..n]), s[n])
  }

  /** What the end adds. */
  function Tail(s: seq<Byte>): seq<Byte> {
    if |s| % 3 == 0 then []
    else if |s| % 3 == 1 then [CharOf(Rem(s) * 16), PAD, PAD]
    else [CharOf(Rem(s) * 4), PAD]
  }

  lemma {:induction false} EmittedLength(s: seq<Byte>)
    ensures |Emitted(s)| == |s| + |s| / 3
    decreases |s|
  {
    hide CharOf;
    if s != [] {
      EmittedLength(s[..|s| - 1]);
    }
  }

  lemma {:induction false} EmittedTriple(s: seq<Byte>)
    requires |s| == 3
    ensures Emitted(s) == Quad(s[0], s[1], s[2])
  {
    hide CharOf;
    QuadParts(s[0], s[1], s[2]);
    assert s[..2][..1] == [s[0]] && s[..2][..1][..0] == [];
    assert Emitted([s[0]]) == Emitted([]) + StepChars(0, 0, s[0]);
    assert Emitted(s[..2]) == Emitted([s[0]]) + StepChars(1, Rem([s[0]]), s[1]);
    assert Emitted(s) == Emitted(s[..2]) + StepChars(2, Rem(s[..2]), s[2]);
  }

  lemma {:induction false} EmittedFront(s: seq<Byte>)
    requires |s| >= 3
    ensures Emitted(s) == Quad(s[0], s[1], s[2]) + Emitted(s[3..])
    decreases |s|
  {
    hide Quad, StepChars;
    var n := |s| - 1;
    if n == 2 {
      EmittedTriple(s);
      assert s[3..] == [];
    } else {
      var t := s[..n];
      EmittedFront(t);
      EmittedNext(s);
      EmittedNext(s[3..]);
      SamePhase(s);
      hide *;
      assert t[3..] == s[3..][..n - 3];
      assert Emitted(s) == Quad(s[0], s[1], s[2]) + (Emitted(t[3..]) + StepChars(n % 3, Rem(t), s[n]));
    }
  }

  lemma EmittedNext(s: seq<Byte>)
    requires s != []
    ensures var n := |s| - 1; Emitted(s) == Emitted(s[..n]) + StepChars(n % 3, Rem(s[..n]), s[n])
  {
  }

  /** Three bytes more in front change neither the phase nor the bits left over. */
  lemma SamePhase(s: seq<Byte>)
    requires |s| > 3
    ensures var n := |s| - 1; n % 3 == (n - 3) % 3 && s[3..][n - 3] == s[n] && Rem(s[..n]) == Rem(s[3..][..n - 3])
  {
  }

  lemma {:induction false} EncodeFront(s: seq<Byte>)
    requires |s| >= 3
    ensures Encode(s) == Quad(s[0], s[1], s[2]) + Encode(s[3..]) && Tail(s) == Tail(s[3..])
  {
    hide Quad, CharOf;
    assert |s| > 3 ==> s[3..][|s| - 4] == s[|s| - 1];
  }

  /** Putting out byte by byte and then the end is the encoding. */
  lemma {:induction false} EmittedIsEncode(s: seq<Byte>)
    ensures Encode(s) == Emitted(s) + Tail(s)
    decreases |s|
  {
    if |s| >= 3 {
      hide *;
      EmittedIsEncode(s[3..]);
      EmittedFront(s);
      EncodeFront(s);
    } else if |s| == 2 {
      EmittedPair(s);
    } else if |s| == 1 {
      EmittedSingle(s);
    }
  }

  lemma {:induction false} EmittedSingle(s: seq<Byte>)
    requires |s| == 1
    ensures Encode(s) == Emitted(s) + Tail(s)
  {
    hide CharOf;
    assert s[..0] == [];
    assert Emitted(s) == StepChars(0, 0, s[0]);
    SingleSextets(s[0]);
  }

  lemma SingleSextets(b: int)
    requires 0 <= b < 0x100
    ensures 0x10 * b / 64 == b / 4 && 0x10 * b % 64 == b % 4 * 16
  {
  }

  lemma {:induction false} EmittedPair(s: seq<Byte>)
    requires |s| == 2
    ensures Encode(s) == Emitted(s) + Tail(s)
  {
    hide CharOf;
    assert s[..1] == [s[0]] && s[..1][..0] == [];
    assert Emitted([s[0]]) == Emitted([]) + StepChars(0, 0, s[0]);
    assert Emitted(s) == Emitted([s[0]]) + StepChars(1, Rem([s[0]]), s[1]);
    PairSextets(s[0], s[1]);
  }
}
