/** The headers of an ELF image and what is read from them: the type, the segment
    and the link address of a section (src/elf.c, src/uld_sal.c, src/uld_load.c). */
module ElfImage {
  import opened Words
  import opened Options
  import opened Sections
  import opened Fixups

  const PT_LOAD := 1
  const ELF_SEC_HAS_NO_SEGMENT := -1

  datatype Shdr = Shdr(name: string, shType: nat, alloc: bool, addr: Word, offset: Word, size: Word)

  datatype Phdr = Phdr(pType: nat, offset: Word, vaddr: Word, paddr: Word, filesz: Word, memsz: Word)

  /** An image in flash at `base`.  Section header 0 is the null header. */
  datatype Image = Image(base: Word, shdrs: seq<Shdr>, phdrs: seq<Phdr>)

  /** `uld_section_mem_name_list`; the first three of them have memory fixups. */
  const MEM_NAMES: seq<string> := [".got", ".got.plt", ".data", ".bss"]

  /** `str_in_list`. */
  method StrInList(list: seq<string>, name: string) returns (found: bool)
    ensures found <==> name in list
  {
    for i := 0 to |list|
      invariant name !in list[..i]
    {
      if list[i] == name {
        return true;
      }
    }
    return false;
  }

  /** What a section is, by its name and the number of its type (chapter 4 of the System V
      gABI): memory, flash, or not allocated.  Dynamic sections have the flag of flash
      sections; None is the trap on an allocated section of a type that is not known. */
  function TypeOf(s: Shdr): Option<SecType> {
    if !s.alloc then Some(OtherType)
    else if s.name in {".got", ".got.plt", ".data", ".bss"} then Some(MemType)
    else if s.shType in {1, 3, 4, 5, 6, 8, 9, 11, 14, 15, 16} then Some(FlashType)
    else None
  }

  /** `uld_section_get_type`. */
  method SectionGetType(s: Shdr) returns (r: Option<SecType>)
    ensures r == TypeOf(s)
  {
    if s.alloc {
      var mem := StrInList(MEM_NAMES, s.name);
      if mem {
        return Some(MemType);
      }
      var t := s.shType;
      if t == SHT_PROGBITS || t == SHT_NOBITS || t == SHT_INIT_ARRAY || t == SHT_FINI_ARRAY || t == SHT_PREINIT_ARRAY {
        return Some(FlashType);
      }
      if t == SHT_STRTAB || t == SHT_RELA || t == SHT_HASH || t == SHT_DYNAMIC || t == SHT_REL || t == SHT_DYNSYM {
        return Some(FlashType);
      }
      return None;
    }
    return Some(OtherType);
  }

  /** The sections of these names have fixups in memory. */
  predicate HasMemFixups(name: string) {
    name in {".got", ".got.plt", ".data"}
  }

  /** The test of `elf32_get_segment_by_section`: a section with contents is refused
      only when it begins before the segment's file part and also ends behind it. */
  predicate Holds(p: Phdr, s: Shdr) {
    && p.pType == PT_LOAD
    && p.vaddr <= s.addr && Wrap(s.addr + s.size) <= Wrap(p.vaddr + p.memsz)
    && (s.shType == SHT_NOBITS || p.offset <= s.offset || Wrap(s.offset + s.size) <= Wrap(p.offset + p.filesz))
  }

  function FirstHolding(ps: seq<Phdr>, s: Shdr): (r: Option<nat>)
    ensures r.Some? ==> r.value < |ps| && Holds(ps[r.value], s) && forall k :: 0 <= k < r.value ==> !Holds(ps[k], s)
    ensures r.None? ==> forall k :: 0 <= k < |ps| ==> !Holds(ps[k], s)
  {
    FirstWhere(ps, (p: Phdr) => Holds(p, s))
  }

  function SegmentOf(img: Image, s: Shdr): Option<nat> {
    if s.alloc then FirstHolding(img.phdrs, s) else None
  }

  method GetSegmentBySection(img: Image, s: Shdr) returns (r: Option<nat>)
    ensures r == SegmentOf(img, s)
  {
    if s.alloc {
      var idx := 0;
      while idx < |img.phdrs|
        invariant idx <= |img.phdrs| && forall k :: 0 <= k < idx ==> !Holds(img.phdrs[k], s)
      {
        var pos := img.phdrs[idx];
        if && pos.pType == 1
           && !(s.addr < pos.vaddr || Wrap(s.addr + s.size) > Wrap(pos.vaddr + pos.memsz))
           && !(s.shType != 8 && s.offset < pos.offset && Wrap(s.offset + s.size) > Wrap(pos.offset + pos.filesz)) {
          return Some(idx);
        }
        idx := idx + 1;
      }
    }
    return None;
  }

  method GetSectionLma(img: Image, s: Shdr) returns (lma: Word, phidx: Option<nat>)
    ensures phidx == SegmentOf(img, s) && lma == LmaIn(img, s, phidx)
  {
    phidx := GetSegmentBySection(img, s);
    if phidx.None? {
      return s.addr, phidx;
    }
    var phdr := img.phdrs[phidx.value];
    lma := if s.shType != 8 then Wrap(s.offset - phdr.offset + phdr.paddr) else Wrap(s.addr - phdr.vaddr + phdr.paddr);
  }

  /** `elf32_get_section_lma`, given the segment. */
  function LmaIn(img: Image, s: Shdr, seg: Option<nat>): Word
    requires seg.Some? ==> seg.value < |img.phdrs|
  {
    match seg
    case Some(k) =>
      if s.shType != SHT_NOBITS then Wrap(s.offset - img.phdrs[k].offset + img.phdrs[k].paddr)
      else Wrap(s.addr - img.phdrs[k].vaddr + img.phdrs[k].paddr)
    case None => s.addr
  }

  /** `uld_load_create_section` for section header `idx`. */
  function MakeSection(img: Image, idx: nat): Section
    requires idx < |img.shdrs| && TypeOf(img.shdrs[idx]).Some?
  {
    var s := img.shdrs[idx];
    var seg := SegmentOf(img, s);
    var raw := Section(s.name, s.shType, s.alloc, s.addr, s.offset, s.size, idx,
                       if seg.Some? then seg.value else ELF_SEC_HAS_NO_SEGMENT, LmaIn(img, s, seg), 0, Wrap(img.base + s.offset),
                       TypeOf(s).value, false, HasMemFixups(s.name), false);
    raw.(adjLma := AdjustLma(raw, img.base))
  }

  method CreateSection(img: Image, idx: nat) returns (s: Section)
    requires idx < |img.shdrs| && TypeOf(img.shdrs[idx]).Some?
    ensures s == MakeSection(img, idx)
  {
    var shdr := img.shdrs[idx];
    var lma, seg := GetSectionLma(img, shdr);
    var ty := SectionGetType(shdr);
    var fixup := StrInList(MEM_NAMES[..3], shdr.name);
    assert MEM_NAMES[..3] == [".got", ".got.plt", ".data"];
    s := Section(shdr.name, shdr.shType, shdr.alloc, shdr.addr, shdr.offset, shdr.size, idx,
                 if seg.Some? then seg.value else ELF_SEC_HAS_NO_SEGMENT, lma,
                 if shdr.shType != 8 && shdr.alloc then Wrap(img.base + shdr.offset) else 0, Wrap(img.base + shdr.offset),
                 ty.value, false, fixup, false);
  }

  /** File offset and address of section `i` are equally far into its segment, or the
      section has no part in the file. */
  predicate Congruent(img: Image, i: nat)
    requires i < |img.shdrs|
  {
    var s := img.shdrs[i];
    match SegmentOf(img, s)
    case Some(k) => s.shType == SHT_NOBITS || Wrap(s.offset - img.phdrs[k].offset) == s.addr - img.phdrs[k].vaddr
    case None => true
  }

  /** The link address of a section is its header address, moved as its segment is from
      virtual to physical address, just when file offset and address agree. */
  lemma LmaFollowsAddr(img: Image, i: nat)
    requires i < |img.shdrs| && TypeOf(img.shdrs[i]).Some? && SegmentOf(img, img.shdrs[i]).Some?
    ensures var s, p := img.shdrs[i], img.phdrs[SegmentOf(img, img.shdrs[i]).value];
            MakeSection(img, i).lma == Wrap(s.addr - p.vaddr + p.paddr) <==> Congruent(img, i)
  {
    var s, p := img.shdrs[i], img.phdrs[SegmentOf(img, img.shdrs[i]).value];
    AddrInSegment(img, s);
    hide Wrap, Holds, SegmentOf;
    SameMove(s.offset - p.offset, s.addr - p.vaddr, p.paddr);
  }

  lemma AddrInSegment(img: Image, s: Shdr)
    requires SegmentOf(img, s).Some?
    ensures var p := img.phdrs[SegmentOf(img, s).value]; p.vaddr <= s.addr && Wrap(s.addr - p.vaddr) == s.addr - p.vaddr
  {
  }

  lemma SameMove(a: int, b: int, c: int)
    ensures Wrap(a + c) == Wrap(b + c) <==> Wrap(a) == Wrap(b)
  {
    var p, q, r, t := a / WORD_LIMIT, b / WORD_LIMIT, (a + c) / WORD_LIMIT, (b + c) / WORD_LIMIT;
    assert a - b == Wrap(a) - Wrap(b) + WORD_LIMIT * (p - q);
    assert a - b == Wrap(a + c) - Wrap(b + c) + WORD_LIMIT * (r - t);
  }

  /** The bytes of a section with contents run where they are stored: the place of byte
      `o` of the image's section `i` is the flash address of that byte, whether it is
      looked for by link address or by flash address. */
  lemma {:induction false} RunsInPlace(img: Image, i: nat, o: nat)
    requires i < |img.shdrs| && TypeOf(img.shdrs[i]).Some? && img.shdrs[i].alloc && img.shdrs[i].shType != SHT_NOBITS
    requires o < img.shdrs[i].size && img.base + img.shdrs[i].offset + img.shdrs[i].size < WORD_LIMIT
    requires var lma := MakeSection(img, i).lma; 0 < lma + o && lma + img.shdrs[i].size < WORD_LIMIT
    ensures var s := MakeSection(img, i);
            && SectionRunAddr(s, s.lma + o) == img.base + img.shdrs[i].offset + o
            && Hit(s, ByLma, AnySection, s.lma + o) && Hit(s, ByAdjLma, AnySection, img.base + img.shdrs[i].offset + o)
            && SectionRunAddr(s, s.lma + o) == s.adjLma + o
  {
    hide LmaIn;
  }
}
