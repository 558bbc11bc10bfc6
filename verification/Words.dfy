/** Bytes, 32-bit words and the little-endian view of memory that every part of
    the linker works on.  A memory is a sequence of bytes indexed by address. */
module Words {
  const WORD_LIMIT := 0x1_0000_0000

  type Byte = b: int | 0 <= b < 0x100
  type HalfWord = h: int | 0 <= h < 0x1_0000
  type Word = w: int | 0 <= w < 0x1_0000_0000
  type Memory = seq<Byte>

  /** An operation of the target ends normally, returns the C error code, or
      reaches a trap: `swbkpt()`, a fault on an address outside memory, or the use
      of an indeterminate pointer.  Nothing is claimed about what follows a trap. */
  datatype Outcome<+T> = Done(value: T) | Failed(code: int) | Trapped

  function Wrap(x: int): (w: Word) {
    x % WORD_LIMIT
  }

  /** A 32-bit difference or size read as a signed number. */
  function Signed(x: int): int {
    var w := x % WORD_LIMIT;
    if w < 0x8000_0000 then w else w - WORD_LIMIT
  }

  lemma SignedSmall(x: int)
    requires -0x8000_0000 <= x < 0x8000_0000
    ensures Signed(x) == x
  {
  }

  function AlignUp(x: nat, bits: nat): (r: nat)
    requires bits == 2 || bits == 3
    ensures x <= r
  {
    var unit := if bits == 2 then 4 else 8;
    (x + unit - 1) / unit * unit
  }

  lemma AlignUpLeast(x: nat, bits: nat)
    requires bits == 2 || bits == 3
    ensures var unit := if bits == 2 then 4 else 8;
            AlignUp(x, bits) % unit == 0 && AlignUp(x, bits) < x + unit &&
            (x % unit == 0 ==> AlignUp(x, bits) == x)
  {
  }

  lemma AlignUpBy4(x: nat)
    ensures AlignUp(x, 2) == 4 * ((x + 3) / 4)
  {
  }

  lemma AlignUpBy8(x: nat)
    ensures AlignUp(x, 3) == 8 * ((x + 7) / 8)
  {
  }

  lemma Below4(x: nat, p: nat)
    requires x <= 4 * p
    ensures 4 * ((x + 3) / 4) <= 4 * p
  {
    var q := (x + 3) / 4;
    assert 4 * q <= x + 3;
  }

  lemma Below8(x: nat, p: nat)
    requires x <= 8 * p
    ensures 8 * ((x + 7) / 8) <= 8 * p
  {
    var q := (x + 7) / 8;
    assert 8 * q <= x + 7;
  }

  lemma AlignUpWithin(x: nat, bits: nat, n: nat)
    requires (bits == 2 || bits == 3) && x <= n && n % 8 == 0
    ensures AlignUp(x, bits) <= n
  {
    hide AlignUp;
    var p := n / 8;
    assert n == 8 * p;
    if bits == 2 {
      AlignUpBy4(x);
      Below4(x, 2 * p);
    } else {
      AlignUpBy8(x);
      Below8(x, p);
    }
  }

  function ByteOf(w: Word, i: nat): (b: Byte)
    requires i < 4
  {
    if i == 0 then w % 0x100
    else if i == 1 then w / 0x100 % 0x100
    else if i == 2 then w / 0x1_0000 % 0x100
    else w / 0x100_0000
  }

  function Join(b0: Byte, b1: Byte, b2: Byte, b3: Byte): (w: Word) {
    var i0: int, i1: int, i2: int, i3: int := b0, b1, b2, b3;
    i0 + 0x100 * i1 + 0x1_0000 * i2 + 0x100_0000 * i3
  }

  lemma JoinSplit(b0: Byte, b1: Byte, b2: Byte, b3: Byte)
    ensures var w := Join(b0, b1, b2, b3);
            ByteOf(w, 0) == b0 && ByteOf(w, 1) == b1 && ByteOf(w, 2) == b2 && ByteOf(w, 3) == b3
  {
    var i1: int, i2: int, i3: int := b1, b2, b3;
    var w := Join(b0, b1, b2, b3);
    assert w / 0x100 == i1 + 0x100 * i2 + 0x1_0000 * i3;
    assert w / 0x1_0000 == i2 + 0x100 * i3;
  }

  lemma SplitJoin(w: Word)
    ensures Join(ByteOf(w, 0), ByteOf(w, 1), ByteOf(w, 2), ByteOf(w, 3)) == w
  {
    var q1, q2 := w / 0x100, w / 0x1_0000;
    assert w == 0x100 * q1 + w % 0x100;
    assert q1 == 0x100 * q2 + q1 % 0x100;
    assert q2 == 0x100 * (w / 0x100_0000) + q2 % 0x100;
  }

  function LoadWord(m: Memory, a: nat): (w: Word)
    requires a + 4 <= |m|
  {
    Join(m[a], m[a + 1], m[a + 2], m[a + 3])
  }

  function StoreWord(m: Memory, a: nat, w: Word): (r: Memory)
    requires a + 4 <= |m|
    ensures |r| == |m|
  {
    m[a := ByteOf(w, 0)][a + 1 := ByteOf(w, 1)][a + 2 := ByteOf(w, 2)][a + 3 := ByteOf(w, 3)]
  }

  /** `m` and `n` hold the same bytes at `[lo, hi)`. */
  ghost predicate SameBytes(m: Memory, n: Memory, lo: int, hi: int) {
    |m| == |n| && forall x :: lo <= x < hi && 0 <= x < |m| ==> m[x] == n[x]
  }

  /** Nothing outside `[b, b + size)` differs. */
  ghost predicate SameOutside(m: Memory, m1: Memory, b: int, size: int) {
    |m1| == |m| && forall x :: 0 <= x < |m| && !(b <= x < b + size) ==> m1[x] == m[x]
  }

  lemma SameOutsideTrans(m: Memory, m1: Memory, m2: Memory, b: int, size: int)
    requires SameOutside(m, m1, b, size) && SameOutside(m1, m2, b, size)
    ensures SameOutside(m, m2, b, size)
  {
  }

  /** `[a, a + m)` and `[b, b + n)` do not overlap. */
  predicate Apart(a: int, m: int, b: int, n: int) {
    a + m <= b || b + n <= a
  }

  lemma LoadStored(m: Memory, a: nat, w: Word)
    requires a + 4 <= |m|
    ensures LoadWord(StoreWord(m, a, w), a) == w
  {
    SplitJoin(w);
    var r := StoreWord(m, a, w);
    assert r[a] == ByteOf(w, 0) && r[a + 1] == ByteOf(w, 1) && r[a + 2] == ByteOf(w, 2) && r[a + 3] == ByteOf(w, 3);
  }

  /** Four bytes are determined by the word they spell, and the other way round. */
  lemma StoreLoaded(m: Memory, a: nat)
    requires a + 4 <= |m|
    ensures StoreWord(m, a, LoadWord(m, a)) == m
  {
    JoinSplit(m[a], m[a + 1], m[a + 2], m[a + 3]);
  }

  lemma StoreElsewhere(m: Memory, a: nat, w: Word)
    requires a + 4 <= |m|
    ensures SameBytes(m, StoreWord(m, a, w), 0, a)
    ensures SameBytes(m, StoreWord(m, a, w), a + 4, |m|)
  {
  }

  lemma LoadSame(m: Memory, n: Memory, a: nat)
    requires a + 4 <= |m| && SameBytes(m, n, a, a + 4)
    ensures LoadWord(m, a) == LoadWord(n, a)
  {
  }

  /** `memset(ptr, 0, size)`. */
  function ZeroFill(m: Memory, a: nat, size: nat): (r: Memory)
    requires a + size <= |m|
    ensures |r| == |m|
    ensures forall x :: 0 <= x < |m| ==> r[x] == if a <= x < a + size then 0 else m[x]
  {
    m[..a] + seq(size, _ => 0) + m[a + size..]
  }

  method PutWord(mem: array<Byte>, a: nat, w: Word)
    requires a + 4 <= mem.Length
    modifies mem
    ensures mem[..] == StoreWord(old(mem[..]), a, w)
  {
    mem[a] := w % 0x100;
    mem[a + 1] := w / 0x100 % 0x100;
    mem[a + 2] := w / 0x1_0000 % 0x100;
    mem[a + 3] := w / 0x100_0000;
  }

  method GetWord(mem: array<Byte>, a: nat) returns (w: Word)
    requires a + 4 <= mem.Length
    ensures w == LoadWord(mem[..], a)
  {
    w := Join(mem[a], mem[a + 1], mem[a + 2], mem[a + 3]);
  }

  method Zero(mem: array<Byte>, a: nat, size: nat)
    requires a + size <= mem.Length
    modifies mem
    ensures mem[..] == ZeroFill(old(mem[..]), a, size)
  {
    forall x | a <= x < a + size {
      mem[x] := 0;
    }
  }
}
