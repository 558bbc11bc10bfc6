/** Memory for the sections of a file: sections one behind the other, contents copied
    or zeroed (uld_load_get_next_membase and uld_load_alloc_mem_sections in
    src/uld_load.c). */
module MemLoad {
  import opened Words
  import opened Sections

  const ULD_LOAD_MEMBASE_ALIGNMENT := 3

  /** `uld_load_get_next_membase`; `bssEnd` is the address of `__bss_end__`. */
  function NextMembase(bssEnd: nat, last: nat, lastSize: nat): Word {
    Wrap(AlignUp(Wrap(if last >= bssEnd then last + lastSize else bssEnd), ULD_LOAD_MEMBASE_ALIGNMENT))
  }

  /** The next base with no end to the address space. */
  function NextBase(bssEnd: nat, last: nat, lastSize: nat): nat {
    AlignUp(if last >= bssEnd then last + lastSize else bssEnd, ULD_LOAD_MEMBASE_ALIGNMENT)
  }

  lemma NextMembaseIs(bssEnd: nat, last: nat, lastSize: nat)
    requires NextBase(bssEnd, last, lastSize) < WORD_LIMIT
    ensures NextMembase(bssEnd, last, lastSize) == NextBase(bssEnd, last, lastSize)
  {
  }

  /** What a section of the list takes; other than memory sections are passed over. */
  function MemSize(s: Section): nat {
    if s.ty == MemType then s.size else 0
  }

  function SizeBefore(list: seq<Section>, k: nat): nat
    requires k <= |list|
    decreases k
  {
    if k == 0 then 0 else SizeBefore(list, k - 1) + MemSize(list[k - 1])
  }

  function Total(list: seq<Section>): nat {
    SizeBefore(list, |list|)
  }

  /** Unused bytes of the image between section `i` and the one before it. */
  function Gap(list: seq<Section>, i: nat): int
    requires i < |list|
  {
    if i == 0 || list[i].ty != MemType || list[i - 1].shType == SHT_NOBITS then 0
    else Signed(list[i].offset - list[i - 1].offset - list[i - 1].size)
  }

  function GapsBefore(list: seq<Section>, k: nat): int
    requires k <= |list|
    decreases k
  {
    if k == 0 then 0 else GapsBefore(list, k - 1) + Gap(list, k - 1)
  }

  /** Section `i` stops the run: it is in another segment than the first, or overlaps
      the one before it. */
  predicate Refused(list: seq<Section>, i: nat)
    requires i < |list|
  {
    list[i].ty == MemType && (list[i].phidx != list[0].phidx || Gap(list, i) < 0)
  }

  function PlacedSection(list: seq<Section>, base: nat, k: nat): Section
    requires k < |list|
  {
    if list[k].ty == MemType then list[k].(adjVma := Wrap(base + SizeBefore(list, k)), loaded := true) else list[k]
  }

  /** The list with its run addresses. */
  function PlacedList(list: seq<Section>, base: nat): (r: seq<Section>)
    ensures |r| == |list| && forall k :: 0 <= k < |r| ==> r[k] == PlacedSection(list, base, k)
  {
    seq(|list|, k requires 0 <= k < |list| => PlacedSection(list, base, k))
  }

  // ----- contents -----

  /** Byte `o` of a section as it is loaded: from flash, or zero. */
  function InitByte(m0: Memory, s: Section, o: nat): Byte {
    if s.shType == SHT_NOBITS || s.adjLma + o >= |m0| then 0 else m0[s.adjLma + o]
  }

  ghost predicate Filled(m0: Memory, m: Memory, s: Section, at: nat) {
    at + s.size <= |m| && forall x :: at <= x < at + s.size ==> m[x] == InitByte(m0, s, x - at)
  }

  /** The first `n` sections are in memory from `base` on. */
  ghost predicate Contents(m0: Memory, m: Memory, list: seq<Section>, base: nat, n: nat)
    requires n <= |list|
  {
    forall k :: 0 <= k < n && list[k].ty == MemType ==> Filled(m0, m, list[k], base + SizeBefore(list, k))
  }

  lemma {:induction false} SizeGrows(list: seq<Section>, j: nat, k: nat)
    requires j <= k <= |list|
    ensures SizeBefore(list, j) <= SizeBefore(list, k)
    decreases k
  {
    if j < k {
      SizeGrows(list, j, k - 1);
    }
  }

  lemma SizeNext(list: seq<Section>, k: nat)
    requires k < |list|
    ensures SizeBefore(list, k + 1) == SizeBefore(list, k) + MemSize(list[k])
  {
  }

  lemma {:induction false} SectionInside(list: seq<Section>, k: nat, n: nat)
    requires k < n <= |list|
    ensures SizeBefore(list, k) + MemSize(list[k]) <= SizeBefore(list, n)
  {
    SizeNext(list, k);
    hide SizeBefore, MemSize;
    SizeGrows(list, k + 1, n);
  }

  lemma StillFilled(m0: Memory, m: Memory, m1: Memory, s: Section, at: nat, b: nat, size: nat)
    requires Filled(m0, m, s, at) && SameOutside(m, m1, b, size) && Apart(at, s.size, b, size)
    ensures Filled(m0, m1, s, at)
  {
  }

  lemma {:induction false} ContentsNext(m0: Memory, m: Memory, m1: Memory, list: seq<Section>, base: nat, n: nat)
    requires n < |list| && Contents(m0, m, list, base, n)
    requires SameOutside(m, m1, base + SizeBefore(list, n), MemSize(list[n]))
    requires list[n].ty == MemType ==> Filled(m0, m1, list[n], base + SizeBefore(list, n))
    ensures Contents(m0, m1, list, base, n + 1)
  {
    hide SizeBefore;
    forall k | 0 <= k < n && list[k].ty == MemType
      ensures Filled(m0, m1, list[k], base + SizeBefore(list, k))
    {
      SectionInside(list, k, n);
      assert Filled(m0, m, list[k], base + SizeBefore(list, k));
      StillFilled(m0, m, m1, list[k], base + SizeBefore(list, k), base + SizeBefore(list, n), MemSize(list[n]));
    }
  }

  lemma {:induction false} GrowsOutside(m0: Memory, m: Memory, m1: Memory, list: seq<Section>, base: nat, n: nat)
    requires n < |list| && SameOutside(m0, m, base, SizeBefore(list, n))
    requires SameOutside(m, m1, base + SizeBefore(list, n), MemSize(list[n]))
    ensures SameOutside(m0, m1, base, SizeBefore(list, n + 1))
  {
  }

  /** The flash bytes of the section exist and are not where memory is allocated. */
  predicate SourceOk(s: Section, base: nat, total: nat, len: nat) {
    s.ty == MemType && s.shType != SHT_NOBITS ==> s.adjLma + s.size <= len && Apart(s.adjLma, s.size, base, total)
  }

  /** `memcpy` or `memset` of one section. */
  method FillSection(mem: array<Byte>, s: Section, ptr: nat, ghost m0: Memory, ghost base: nat, ghost total: nat)
    requires s.ty == MemType && ptr + s.size <= mem.Length && base <= ptr && ptr + s.size <= base + total
    requires SourceOk(s, base, total, mem.Length) && SameOutside(m0, mem[..], base, total)
    modifies mem
    ensures Filled(m0, mem[..], s, ptr) && SameOutside(old(mem[..]), mem[..], ptr, s.size)
  {
    if s.shType != SHT_NOBITS {
      var from := s.adjLma;
      forall x | ptr <= x < ptr + s.size {
        mem[x] := mem[from + (x - ptr)];
      }
    } else {
      Zero(mem, ptr, s.size);
    }
  }

  /** The list while the first `n` sections have been placed. */
  function PartlyPlaced(list: seq<Section>, base: nat, n: nat): (r: seq<Section>)
    requires n <= |list|
    ensures |r| == |list|
  {
    PlacedList(list, base)[..n] + list[n..]
  }

  lemma PlacedNext(list: seq<Section>, base: nat, n: nat)
    requires n < |list|
    ensures PartlyPlaced(list, base, n)[n] == list[n] && PartlyPlaced(list, base, n)[0].phidx == list[0].phidx
    ensures n > 0 ==> SameHeader(PartlyPlaced(list, base, n)[n - 1], list[n - 1])
    ensures PartlyPlaced(list, base, n)[n := PlacedSection(list, base, n)] == PartlyPlaced(list, base, n + 1)
  {
  }

  predicate SameHeader(s: Section, t: Section) {
    s.shType == t.shType && s.offset == t.offset && s.size == t.size
  }

  /** The list that one turn of the loop works on, and the gap it sees. */
  method GapAt(secs: array<Section>, from: nat, i: nat, ghost list: seq<Section>, ghost base: nat) returns (gap: int)
    requires i < |list| && from + |list| <= secs.Length && list[i].ty == MemType
    requires secs[from..from + |list|] == PartlyPlaced(list, base, i)
    ensures gap == Gap(list, i)
  {
    gap := 0;
    if i > 0 {
      PlacedNext(list, base, i);
      ghost var now := secs[from..from + |list|];
      assert secs[from + i - 1] == now[i - 1] && secs[from + i] == now[i];
      hide PartlyPlaced;
      if secs[from + i - 1].shType != SHT_NOBITS {
        gap := Signed(secs[from + i].offset - secs[from + i - 1].offset - secs[from + i - 1].size);
      }
    }
  }

  /** What the caller gives: memory for all sections, away from their flash contents. */
  ghost predicate RoomFor(list: seq<Section>, base: nat, len: nat) {
    && base + Total(list) <= len && base + Total(list) < WORD_LIMIT
    && forall k :: 0 <= k < |list| ==> SourceOk(list[k], base, Total(list), len)
  }

  /** The first `n` sections are placed and filled. */
  ghost predicate State(m0: Memory, m: Memory, now: seq<Section>, list: seq<Section>, base: nat, n: nat) {
    && n <= |list| && now == PartlyPlaced(list, base, n)
    && Contents(m0, m, list, base, n) && SameOutside(m0, m, base, SizeBefore(list, n))
  }

  lemma PassOver(m0: Memory, m: Memory, list: seq<Section>, base: nat, n: nat)
    requires n < |list| && list[n].ty != MemType && State(m0, m, PartlyPlaced(list, base, n), list, base, n)
    ensures State(m0, m, PartlyPlaced(list, base, n), list, base, n + 1) && Gap(list, n) == 0 && !Refused(list, n) && MemSize(list[n]) == 0
  {
    PlacedNext(list, base, n);
    assert PlacedSection(list, base, n) == list[n];
    SizeNext(list, n);
    hide SizeBefore, PartlyPlaced;
  }

  /** Contents, run address and status of one memory section. */
  method FillOne(mem: array<Byte>, secs: array<Section>, from: nat, mnum: nat, i: nat, ptr: nat,
                 ghost list: seq<Section>, ghost base: nat, ghost m0: Memory)
    requires i < mnum == |list| && from + mnum <= secs.Length && RoomFor(list, base, mem.Length)
    requires State(m0, mem[..], secs[from..from + mnum], list, base, i) && list[i].ty == MemType && ptr == base + SizeBefore(list, i)
    modifies mem, secs
    ensures State(m0, mem[..], secs[from..from + mnum], list, base, i + 1)
    ensures forall k :: 0 <= k < secs.Length && !(from <= k < from + mnum) ==> secs[k] == old(secs[k])
  {
    ghost var now, m := secs[from..from + mnum], mem[..];
    PlacedNext(list, base, i);
    assert secs[from + i] == now[i];
    SectionInside(list, i, |list|);
    SizeNext(list, i);
    Widen(m0, m, base, SizeBefore(list, i), Total(list));
    assert SourceOk(list[i], base, Total(list), mem.Length);
    hide PartlyPlaced, Contents, SameOutside, Filled, SizeBefore, SourceOk, RoomFor;
    FillSection(mem, secs[from + i], ptr, m0, base, Total(list));
    ContentsNext(m0, m, mem[..], list, base, i);
    GrowsOutside(m0, m, mem[..], list, base, i);
    secs[from + i] := secs[from + i].(adjVma := Wrap(ptr), loaded := true);
    assert secs[from..from + mnum] == now[i := PlacedSection(list, base, i)];
  }

  lemma Widen(m0: Memory, m: Memory, base: nat, n: nat, total: nat)
    requires SameOutside(m0, m, base, n) && n <= total
    ensures SameOutside(m0, m, base, total)
  {
  }

  /** One turn of the loop: refused, or placed with the gap before it and its size. */
  method PlaceOne(mem: array<Byte>, secs: array<Section>, from: nat, mnum: nat, i: nat, ptr: nat,
                  ghost list: seq<Section>, ghost base: nat, ghost m0: Memory)
    returns (refused: bool, gap: int, size: nat)
    requires i < mnum == |list| && from + mnum <= secs.Length && RoomFor(list, base, mem.Length)
    requires State(m0, mem[..], secs[from..from + mnum], list, base, i) && ptr == base + SizeBefore(list, i)
    modifies mem, secs
    ensures refused <==> Refused(list, i)
    ensures !refused ==> State(m0, mem[..], secs[from..from + mnum], list, base, i + 1) && gap == Gap(list, i) && size == MemSize(list[i])
    ensures forall k :: 0 <= k < secs.Length && !(from <= k < from + mnum) ==> secs[k] == old(secs[k])
  {
    ghost var now := secs[from..from + mnum];
    PlacedNext(list, base, i);
    assert secs[from + i] == now[i] && secs[from] == now[0];
    hide PartlyPlaced, Contents, SameOutside, RoomFor, SizeBefore, Gap;
    if secs[from + i].ty != MemType {
      PassOver(m0, mem[..], list, base, i);
      return false, 0, 0;
    }
    size := secs[from + i].size;
    gap := GapAt(secs, from, i, list, base);
    refused := secs[from + i].phidx != secs[from].phidx || gap < 0;
    if !refused {
      FillOne(mem, secs, from, mnum, i, ptr, list, base, m0);
    }
  }

  /** `uld_load_alloc_mem_sections` for the `mnum` sections from `from` on.  A gap in
      the image is taken off the size that is reported, not left free in memory. */
  method AllocMemSections(mem: array<Byte>, secs: array<Section>, from: nat, mnum: nat, membase: Word, ghost list: seq<Section>)
    returns (r: Outcome<Word>)
    requires from + mnum <= secs.Length && secs[from..from + mnum] == list && RoomFor(list, membase, mem.Length)
    modifies mem, secs
    ensures membase == 0 || mnum == 0 ==> r == Failed(-1)
    ensures membase != 0 && mnum != 0 ==> r == if AnyRefused(list, |list|) then Trapped else Done(Wrap(Total(list) - GapsBefore(list, |list|)))
    ensures r.Done? ==> Contents(old(mem[..]), mem[..], list, membase, |list|) && SameOutside(old(mem[..]), mem[..], membase, Total(list))
    ensures r.Done? ==> secs[from..from + mnum] == PlacedList(list, membase)
    ensures r.Failed? ==> mem[..] == old(mem[..]) && secs[..] == old(secs[..])
    ensures forall k :: 0 <= k < secs.Length && !(from <= k < from + mnum) ==> secs[k] == old(secs[k])
  {
    hide *;
    if membase == 0 || mnum == 0 {
      return Failed(-1);
    }
    ghost var m0 := mem[..];
    var ptr: nat, gaps: int, i: nat := membase, 0, 0;
    StartPlacing(m0, list, membase);
    while i < mnum
      invariant i <= mnum && ptr == membase + SizeBefore(list, i) && gaps == GapsBefore(list, i)
      invariant !AnyRefused(list, i)
      invariant State(m0, mem[..], secs[from..from + mnum], list, membase, i)
      invariant forall k :: 0 <= k < secs.Length && !(from <= k < from + mnum) ==> secs[k] == old(secs[k])
    {
      var refused, gap, size := PlaceOne(mem, secs, from, mnum, i, ptr, list, membase, m0);
      Next(list, i);
      if refused {
        return Trapped;
      }
      gaps := gaps + gap;
      ptr := ptr + size;
      i := i + 1;
    }
    AllPlaced(m0, mem[..], secs[from..from + mnum], list, membase);
    return Done(Wrap(ptr - (membase + gaps)));
  }

  /** With the size that `uld_load_alloc_mem_sections` reports, the base of the next file is
      at or above the end of this one's memory if and only if the gaps are lost in the
      rounding, or are so large that the 32-bit sum comes out above it again; and what
      follows the last file, without rounding, only if there are no gaps or such large ones. */
  lemma {:induction false} GapExact(list: seq<Section>, bssEnd: nat, base: nat)
    requires 0 < bssEnd <= base && base % 8 == 0 && base + Total(list) + 8 <= WORD_LIMIT
    ensures var total, gaps := Total(list), Wrap(GapsBefore(list, |list|));
            NextMembase(bssEnd, base, Wrap(total - GapsBefore(list, |list|))) >= base + total <==>
              gaps <= (total + 7) % 8 || gaps >= base + total + 8
    ensures var total, gaps := Total(list), Wrap(GapsBefore(list, |list|));
            Wrap(base + Wrap(total - GapsBefore(list, |list|))) >= base + total <==> gaps == 0 || gaps > base + total
  {
    var total, g := Total(list), GapsBefore(list, |list|);
    var gaps, size := Wrap(g), Wrap(total - g);
    AlignUpWithin(base + total, 3, WORD_LIMIT - 8);
    hide SizeBefore, GapsBefore, Total, NextMembase, NextBase, AlignUp, Wrap;
    WrapOfDifference(total, g);
    if gaps <= base + total {
      LowSum(bssEnd, base, total, gaps, size);
      RoundedDown(base, total, gaps);
    } else {
      HighSum(bssEnd, base, total, gaps, size);
    }
  }

  lemma {:induction false} RoundedDown(base: nat, total: nat, gaps: nat)
    requires base % 8 == 0 && gaps <= base + total
    ensures AlignUp(base + total - gaps, 3) >= base + total <==> gaps <= (total + 7) % 8
  {
    var x := base + total - gaps;
    AlignUpBy8(x);
    AlignUpLeast(x, 3);
    hide AlignUp;
    var p, q, r := base / 8, (x + 7) / 8, (total + 7) / 8;
    assert base == 8 * p && total + 7 == 8 * r + (total + 7) % 8;
    assert AlignUp(x, 3) == 8 * q;
  }

  lemma {:induction false} LowSum(bssEnd: nat, base: nat, total: nat, gaps: nat, size: Word)
    requires bssEnd <= base && gaps <= base + total && AlignUp(base + total, 3) < WORD_LIMIT
    requires size == if gaps <= total then total - gaps else WORD_LIMIT + total - gaps
    ensures NextMembase(bssEnd, base, size) == AlignUp(base + total - gaps, 3) && Wrap(base + size) == base + total - gaps
  {
    assert Wrap(base + size) == base + total - gaps;
    AlignUpGrows(base + total - gaps, base + total);
    hide AlignUp;
  }

  lemma {:induction false} HighSum(bssEnd: nat, base: nat, total: nat, gaps: Word, size: Word)
    requires 0 < bssEnd <= base && gaps > base + total
    requires size == WORD_LIMIT + total - gaps
    ensures NextMembase(bssEnd, base, size) >= base + total <==> gaps >= base + total + 8
    ensures Wrap(base + size) == base + size >= base + total
  {
    AlignUpLeast(base + size, 3);
    AlignUpBy8(base + size);
    hide AlignUp;
    assert WORD_LIMIT == 8 * 0x2000_0000;
  }

  lemma AlignUpGrows(x: nat, y: nat)
    requires x <= y
    ensures AlignUp(x, 3) <= AlignUp(y, 3)
  {
    AlignUpBy8(x);
    AlignUpBy8(y);
  }

  lemma WrapOfDifference(total: nat, g: int)
    requires total < WORD_LIMIT
    ensures Wrap(total - g) == if Wrap(g) <= total then total - Wrap(g) else WORD_LIMIT + total - Wrap(g)
  {
    assert g == WORD_LIMIT * (g / WORD_LIMIT) + Wrap(g);
  }

  ghost predicate AnyRefused(list: seq<Section>, n: nat)
    requires n <= |list|
  {
    exists i :: 0 <= i < n && Refused(list, i)
  }

  lemma {:induction false} Next(list: seq<Section>, k: nat)
    requires k < |list|
    ensures SizeBefore(list, k + 1) == SizeBefore(list, k) + MemSize(list[k])
    ensures GapsBefore(list, k + 1) == GapsBefore(list, k) + Gap(list, k)
    ensures Refused(list, k) ==> AnyRefused(list, |list|)
    ensures AnyRefused(list, k + 1) <==> AnyRefused(list, k) || Refused(list, k)
  {
  }

  lemma StartPlacing(m0: Memory, list: seq<Section>, base: nat)
    ensures State(m0, m0, list, list, base, 0) && SizeBefore(list, 0) == 0 && GapsBefore(list, 0) == 0 && !AnyRefused(list, 0)
  {
  }

  lemma AllPlaced(m0: Memory, m: Memory, now: seq<Section>, list: seq<Section>, base: nat)
    requires State(m0, m, now, list, base, |list|)
    ensures now == PlacedList(list, base) && Contents(m0, m, list, base, |list|) && SameOutside(m0, m, base, Total(list))
    ensures Total(list) == SizeBefore(list, |list|)
  {
  }
}
