/** When the memory of a file is one constant shift of its link addresses: the load
    puts the memory sections side by side (src/uld_load.c), their link addresses come
    from the headers (src/elf.c). */
module LoadShift {
  import opened Words
  import opened Options
  import opened Sections
  import opened ElfImage
  import opened MemLoad
  import opened MemFixups
  import opened FileLoad
  import opened DepLoad

  /** Section `s` comes from header `i` of the image, in segment `seg`, at the place in
      the segment that its file offset says, and nothing wraps around. */
  ghost predicate FromHeader(img: Image, seg: nat, s: Section, i: nat)
    requires seg < |img.phdrs|
  {
    && i < |img.shdrs| && TypeOf(img.shdrs[i]).Some? && s == MakeSection(img, i)
    && SegmentOf(img, img.shdrs[i]) == Some(seg) && Congruent(img, i)
    && s.addr + s.size < WORD_LIMIT && s.offset + s.size < WORD_LIMIT
    && s.addr - img.phdrs[seg].vaddr + img.phdrs[seg].paddr < WORD_LIMIT
  }

  ghost predicate InSegment(img: Image, seg: nat, s: Section) {
    seg < |img.phdrs| && exists i: nat :: FromHeader(img, seg, s, i)
  }

  ghost predicate OneSegment(img: Image, seg: nat, list: seq<Section>) {
    forall k :: 0 <= k < |list| ==> list[k].ty == MemType && InSegment(img, seg, list[k])
  }

  lemma LmaIsAddr(img: Image, seg: nat, s: Section)
    requires InSegment(img, seg, s)
    ensures seg < |img.phdrs| && s.lma == s.addr - img.phdrs[seg].vaddr + img.phdrs[seg].paddr
    ensures s.shType != SHT_NOBITS ==> Wrap(s.offset - img.phdrs[seg].offset) == s.addr - img.phdrs[seg].vaddr
    ensures s.addr + s.size < WORD_LIMIT && s.offset + s.size < WORD_LIMIT
  {
    hide SegmentOf, LmaIn, TypeOf, Wrap;
    var i: nat :| FromHeader(img, seg, s, i);
    LmaFollowsAddr(img, i);
    AddrInSegment(img, img.shdrs[i]);
    SmallWrap(s.addr - img.phdrs[seg].vaddr + img.phdrs[seg].paddr);
  }

  lemma SmallWrap(x: int)
    requires 0 <= x < WORD_LIMIT
    ensures Wrap(x) == x
  {
  }

  /** Two sections with contents and no gap between them in the file have none between
      their addresses. */
  lemma NoGapInAddrs(img: Image, seg: nat, s: Section, t: Section)
    requires InSegment(img, seg, s) && InSegment(img, seg, t) && s.shType != SHT_NOBITS && t.shType != SHT_NOBITS
    requires Signed(t.offset - s.offset - s.size) == 0
    ensures t.addr == s.addr + s.size
  {
    hide Wrap, InSegment, Signed;
    LmaIsAddr(img, seg, s);
    LmaIsAddr(img, seg, t);
    OffsetsFollow(t.offset, s.offset, s.size);
    WrapFollows(s.offset - img.phdrs[seg].offset, s.size);
  }

  lemma OffsetsFollow(a: Word, b: Word, n: Word)
    requires b + n < WORD_LIMIT && Signed(a - b - n) == 0
    ensures a == b + n
  {
  }

  lemma WrapFollows(a: int, n: Word)
    ensures Wrap(a) + n < WORD_LIMIT ==> Wrap(a + n) == Wrap(a) + n
  {
  }

  /** Some section at or before `k` has no contents in the file. */
  predicate AfterNobits(list: seq<Section>, k: nat)
    requires k < |list|
  {
    exists j :: 0 <= j <= k && list[j].shType == SHT_NOBITS
  }

  /** From the first section without contents on, header addresses follow one another
      without holes, as those of the memory that is allocated do. */
  predicate BssFollows(list: seq<Section>) {
    forall k :: 0 <= k < |list| && list[k].size > 0 && AfterNobits(list, k) ==> list[k].addr == list[0].addr + SizeBefore(list, k)
  }

  lemma {:induction false} ContentsFollow(img: Image, seg: nat, list: seq<Section>, k: nat)
    requires OneSegment(img, seg, list) && NoGaps(list) && k < |list| && !AfterNobits(list, k)
    ensures list[k].addr == list[0].addr + SizeBefore(list, k)
    decreases k
  {
    hide InSegment;
    if k > 0 {
      assert forall j :: 0 <= j <= k ==> list[j].shType != SHT_NOBITS;
      ContentsFollow(img, seg, list, k - 1);
      assert Gap(list, k) == 0;
      NoGapInAddrs(img, seg, list[k - 1], list[k]);
    }
  }

  /** For sections that the load accepts without a gap, link addresses are side by side
      just when .bss follows the sections with contents without a hole: the gap test
      looks at file offsets, which .bss does not take part in. */
  lemma {:induction false} AdjacentExact(img: Image, seg: nat, list: seq<Section>)
    requires OneSegment(img, seg, list) && NoGaps(list)
    ensures Adjacent(list) <==> BssFollows(list)
  {
    hide SizeBefore, InSegment;
    forall k | 0 <= k < |list|
      ensures list[k].lma - list[0].lma == list[k].addr - list[0].addr
    {
      LmaIsAddr(img, seg, list[0]);
      LmaIsAddr(img, seg, list[k]);
    }
    forall k | 0 <= k < |list| && !AfterNobits(list, k)
      ensures list[k].addr == list[0].addr + SizeBefore(list, k)
    {
      ContentsFollow(img, seg, list, k);
    }
  }

  lemma {:induction false} MemListTypes(img: Image)
    ensures forall k :: 0 <= k < |ListsOf(img).mem| ==> ListsOf(img).mem[k].ty == MemType
  {
    hide FullList;
    FullListTypes(img, {MemType}, |img.shdrs|);
    var list := ListsOf(img).mem;
    forall k | 0 <= k < |list|
      ensures list[k].ty == MemType
    {
      assert list[k] in FullList(img, {MemType}, |img.shdrs|);
    }
  }
}
