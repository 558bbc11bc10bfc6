/** The hash of a symbol name (src/uld_dyn.c), in 32-bit arithmetic on numbers, and what it
    comes to. */
module NameHash {
  import opened Words

  /** Exclusive or of the binary digits of two numbers. */
  function XorNat(a: nat, b: nat): nat
    decreases a + b
  {
    if a == 0 && b == 0 then 0 else 2 * XorNat(a / 2, b / 2) + (a + b) % 2
  }

  /** The hash after one more character with code `c`: shifted up by four bits and added,
      with what goes beyond 28 bits folded onto bits 4 to 7. */
  function HashNext(h: Word, c: Byte): nat {
    var t := Wrap(16 * h + c);
    XorNat(t % 0x1000_0000, 16 * (t / 0x1000_0000))
  }

  function ElfHash(name: string): (h: Word)
    ensures h < 0x1000_0000
  {
    if name == "" then 0
    else
      HashBound(ElfHash(name[..|name| - 1]), name[|name| - 1] as int % 0x100);
      HashNext(ElfHash(name[..|name| - 1]), name[|name| - 1] as int % 0x100)
  }

  function Pow2(n: nat): nat {
    if n == 0 then 1 else 2 * Pow2(n - 1)
  }

  lemma {:induction false} XorBelow(a: nat, b: nat, n: nat)
    requires a < Pow2(n) && b < Pow2(n)
    ensures XorNat(a, b) < Pow2(n)
    decreases n
  {
    if n > 0 {
      XorBelow(a / 2, b / 2, n - 1);
    }
  }

  lemma Pow28()
    ensures Pow2(28) == 0x1000_0000 && Pow2(8) == 0x100
  {
    assert Pow2(8) == 0x100;
    assert Pow2(16) == 0x1_0000;
    assert Pow2(24) == 0x100_0000;
  }

  lemma HashBound(h: Word, c: Byte)
    ensures HashNext(h, c) < 0x1000_0000
  {
    Pow28();
    var t := Wrap(16 * h + c);
    hide XorNat, Pow2, Wrap;
    XorBelow(t % 0x1000_0000, 16 * (t / 0x1000_0000), 28);
  }

  /** Exclusive or of the upper and of the lower digits. */
  lemma {:induction false} XorJoin(a: nat, b: nat, p: nat, q: nat, n: nat)
    requires a < Pow2(n) && b < Pow2(n)
    ensures XorNat(Pow2(n) * p + a, Pow2(n) * q + b) == Pow2(n) * XorNat(p, q) + XorNat(a, b)
    decreases n
  {
    hide XorNat;
    XorNatOf(0, 0, 0, 0);
    if n > 0 {
      var m := Pow2(n - 1);
      XorJoin(a / 2, b / 2, p, q, n - 1);
      var u, v := m * p + a / 2, m * q + b / 2;
      Doubled(m, p, a);
      Doubled(m, q, b);
      XorNatOf(u, v, a % 2, b % 2);
      XorNatOf(a / 2, b / 2, a % 2, b % 2);
      Twice(m, XorNat(p, q));
    }
  }

  lemma Twice(m: nat, x: nat)
    ensures 2 * m * x == 2 * (m * x)
  {
  }

  lemma Doubled(m: nat, p: nat, a: nat)
    ensures 2 * m * p + a == 2 * (m * p + a / 2) + a % 2
  {
    Twice(m, p);
  }

  lemma {:induction false} XorNatOf(p: nat, q: nat, e: nat, f: nat)
    requires e <= 1 && f <= 1
    ensures XorNat(2 * p + e, 2 * q + f) == 2 * XorNat(p, q) + (e + f) % 2
    ensures XorNat(0, 0) == 0
  {
    assert (2 * p + e) / 2 == p && (2 * q + f) / 2 == q;
    assert (2 * p + e + (2 * q + f)) % 2 == (e + f) % 2;
  }

  lemma {:induction false} XorNothing(a: nat)
    ensures XorNat(a, 0) == a
    decreases a
  {
    if a > 0 {
      XorNothing(a / 2);
    }
  }

  /** Folding the overflow down leaves it in place, and does to the rest what the sum asks. */
  lemma Fold(o: nat, l: nat)
    requires o < 16 && l < 0x1000_0000
    ensures XorNat(0x1000_0000 * o + l, 16 * o) == 0x1000_0000 * o + XorNat(l, 16 * o)
    ensures XorNat(l, 0) == l && XorNat(l, 16 * o) < 0x1000_0000
  {
    Pow28();
    hide XorNat, Pow2;
    XorBelow(l, 16 * o, 28);
    XorJoin(l, 16 * o, o, 0, 28);
    XorNothing(o);
    XorNothing(l);
  }

  /** `uld_dyn_elf_hash`.  `h & 0xf0000000` is the top nibble in its place, and clearing
      these bits leaves the 28 below. */
  method ComputeElfHash(name: string) returns (h: Word)
    ensures h == ElfHash(name)
  {
    hide XorNat, Wrap;
    h := 0;
    var i := 0;
    while i < |name|
      invariant i <= |name| && h == ElfHash(name[..i])
    {
      h := Wrap(16 * h + name[i] as int % 0x100);
      Fold(h / 0x1000_0000, h % 0x1000_0000);
      var g := h / 0x1000_0000 * 0x1000_0000;
      if g != 0 {
        h := XorNat(h, g / 0x100_0000);
      }
      h := h - g;
      assert name[..i + 1][..i] == name[..i];
      i := i + 1;
    }
    assert name[..i] == name;
  }

  // ----- what the hash comes to -----

  lemma HashOfMore(name: string, c: char)
    ensures ElfHash(name + [c]) == HashNext(ElfHash(name), c as int % 0x100)
  {
    hide HashNext;
    assert (name + [c])[..|name|] == name;
  }

  /** Only bits 4 to 7 of the sum are changed, by the nibble that does not fit. */
  lemma HashFolds(name: string, c: char)
    ensures var t := (16 * ElfHash(name) + c as int % 0x100) % 0x1_0000_0000;
            var l, o := t % 0x1000_0000, t / 0x1000_0000;
            ElfHash(name + [c]) == 0x100 * (l / 0x100) + 16 * XorNat(l / 16 % 16, o) + l % 16
  {
    HashOfMore(name, c);
    hide XorNat, ElfHash;
    var t := (16 * ElfHash(name) + c as int % 0x100) % 0x1_0000_0000;
    FoldedParts(t % 0x1000_0000, t / 0x1000_0000);
  }

  lemma XorJoin16(a: nat, b: nat, p: nat, q: nat)
    requires a < 16 && b < 16
    ensures XorNat(16 * p + a, 16 * q + b) == 16 * XorNat(p, q) + XorNat(a, b)
  {
    assert Pow2(4) == 16;
    hide XorNat, Pow2;
    XorJoin(a, b, p, q, 4);
  }

  lemma FoldedParts(l: nat, o: nat)
    requires o < 16
    ensures XorNat(l, 16 * o) == 0x100 * (l / 0x100) + 16 * XorNat(l / 16 % 16, o) + l % 16
  {
    hide *;
    Nibbles(l);
    FoldedNibbles(l / 0x100, l / 16 % 16, l % 16, o);
  }

  lemma FoldedNibbles(a: nat, n: nat, k: nat, o: nat)
    requires o < 16 && n < 16 && k < 16
    ensures XorNat(16 * (16 * a + n) + k, 16 * o) == 0x100 * a + 16 * XorNat(n, o) + k
  {
    hide *;
    XorJoin16(k, 0, 16 * a + n, o);
    XorJoin16(n, o, a, 0);
    XorNothing(a);
    XorNothing(k);
  }

  lemma Nibbles(l: nat)
    ensures l == 16 * (l / 16) + l % 16 && l / 16 == 16 * (l / 0x100) + l / 16 % 16
  {
  }

  /** The number that the character codes are the digits of, to base 16. */
  function Base16(name: string): nat {
    if name == "" then 0 else 16 * Base16(name[..|name| - 1]) + name[|name| - 1] as int % 0x100
  }

  /** As long as that number has at most 28 bits, it is the hash. */
  lemma {:induction false} HashIsBase16(name: string)
    requires Base16(name) < 0x1000_0000
    ensures ElfHash(name) == Base16(name)
    decreases |name|
  {
    hide HashNext, ElfHash;
    NoName();
    if name != "" {
      var front, c := name[..|name| - 1], name[|name| - 1];
      assert front + [c] == name;
      HashIsBase16(front);
      HashOfMore(front, c);
      NoOverflow(Base16(front), c as int % 0x100);
    }
  }

  lemma NoOverflow(h: Word, c: Byte)
    requires 16 * h + c < 0x1000_0000
    ensures HashNext(h, c) == 16 * h + c
  {
    hide XorNat;
    XorNothing(16 * h + c);
    var t := 16 * h + c;
    assert Wrap(t) == t && t % 0x1000_0000 == t && t / 0x1000_0000 == 0;
    hide Wrap;
  }

  /** So it is for every name of up to six 7-bit characters. */
  lemma ShortNames(name: string)
    requires |name| <= 6 && forall i :: 0 <= i < |name| ==> name[i] as int < 0x80
    ensures ElfHash(name) == Base16(name)
  {
    Base16Below(name);
    HashIsBase16(name);
  }

  lemma {:induction false} Base16Below(name: string)
    requires forall i :: 0 <= i < |name| ==> name[i] as int < 0x80
    ensures 15 * Base16(name) <= 0x7f * (Pow16(|name|) - 1)
    ensures |name| <= 6 ==> Base16(name) < 0x1000_0000
    decreases |name|
  {
    assert Pow16(6) == 0x100_0000;
    if name != "" {
      Base16Below(name[..|name| - 1]);
      if |name| <= 6 {
        PowGrows(|name|, 6);
      }
    }
  }

  function Pow16(n: nat): nat {
    if n == 0 then 1 else 16 * Pow16(n - 1)
  }

  lemma {:induction false} PowGrows(m: nat, n: nat)
    requires m <= n
    ensures Pow16(m) <= Pow16(n)
    decreases n
  {
    if m < n {
      PowGrows(m, n - 1);
    }
  }

  lemma NoName()
    ensures ElfHash("") == 0 && Base16("") == 0
  {
  }

  /** One step with numbers at hand. */
  lemma Step(h: Word, c: Byte, l: nat, o: nat)
    requires 16 * h + c == 0x1000_0000 * o + l && l < 0x1000_0000 && o < 16
    ensures HashNext(h, c) == 0x100 * (l / 0x100) + 16 * XorNat(l / 16 % 16, o) + l % 16
  {
    hide XorNat;
    FoldedParts(l, o);
  }

  lemma OneMore(s: string, k: nat, h: Word)
    requires k < |s| && ElfHash(s[..k]) == h
    ensures ElfHash(s[..k + 1]) == HashNext(h, s[k] as int % 0x100)
  {
    hide HashNext, ElfHash;
    assert s[..k + 1] == s[..k] + [s[k]];
    HashOfMore(s[..k], s[k]);
  }

  lemma OneXor()
    ensures XorNat(2, 7) == 5
  {
  }

  /** A name that wraps around, with its known hash. */
  lemma KnownHash()
    ensures ElfHash("syscall") == 0xb09985c
  {
    OneXor();
    hide HashNext, ElfHash, XorNat;
    var s := "syscall";
    NoName();
    assert s[..0] == "";
    OneMore(s, 0, 0x0);
    NoOverflow(0x0, 0x73);
    OneMore(s, 1, 0x73);
    NoOverflow(0x73, 0x79);
    OneMore(s, 2, 0x7a9);
    NoOverflow(0x7a9, 0x73);
    OneMore(s, 3, 0x7b03);
    NoOverflow(0x7b03, 0x63);
    OneMore(s, 4, 0x7b093);
    NoOverflow(0x7b093, 0x61);
    OneMore(s, 5, 0x7b0991);
    NoOverflow(0x7b0991, 0x6c);
    OneMore(s, 6, 0x7b0997c);
    Step(0x7b0997c, 0x6c, 0xb09982c, 7);
    assert s[..7] == s;
  }
}
