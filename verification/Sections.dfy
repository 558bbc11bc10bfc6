/** Sections of a loaded or stored file, the search through a section list and
    the translation of link addresses to run addresses
    (src/uld_sal.c, src/uld_file.c). */
module Sections {
  import opened Words
  import opened Options
  import opened SymbolTable

  const SHT_PROGBITS := 1
  const SHT_STRTAB := 3
  const SHT_RELA := 4
  const SHT_HASH := 5
  const SHT_DYNAMIC := 6
  const SHT_NOBITS := 8
  const SHT_REL := 9
  const SHT_DYNSYM := 11
  const SHT_INIT_ARRAY := 14
  const SHT_FINI_ARRAY := 15
  const SHT_PREINIT_ARRAY := 16

  datatype SecType = FlashType | MemType | OtherType

  /** `struct uld_section` with the fields of its section header.  `addr`,
      `offset` and `size` are the header's; `lma` is the link address. */
  datatype Section = Section(
    name: string, shType: nat, alloc: bool, addr: Word, offset: Word, size: Word,
    shidx: nat, phidx: int, lma: Word, adjLma: Word, adjVma: Word,
    ty: SecType, loaded: bool, memFixup: bool, flashFixup: bool)

  /** Which address of a section `uld_section_find_in_list` compares with. */
  datatype Key = ByLma | ByAdjLma

  /** The flag mask of the search. */
  datatype Need = AnySection | NeedsMemFixup | NeedsFlashFixup

  function StartOf(s: Section, key: Key): Word {
    match key
    case ByLma => s.lma
    case ByAdjLma => s.adjLma
  }

  predicate HasFlag(s: Section, need: Need) {
    match need
    case AnySection => true
    case NeedsMemFixup => s.memFixup
    case NeedsFlashFixup => s.flashFixup
  }

  predicate Hit(s: Section, key: Key, need: Need, a: Word) {
    HasFlag(s, need) && StartOf(s, key) <= a < StartOf(s, key) + s.size
  }

  /** Index of the first section of the list that contains `a`. */
  function FindSection(secs: seq<Section>, key: Key, need: Need, a: Word): (r: Option<nat>)
    ensures r.Some? ==> r.value < |secs| && Hit(secs[r.value], key, need, a) &&
                        forall k :: 0 <= k < r.value ==> !Hit(secs[k], key, need, a)
    ensures r.None? ==> forall k :: 0 <= k < |secs| ==> !Hit(secs[k], key, need, a)
  {
    FirstWhere(secs, (s: Section) => Hit(s, key, need, a))
  }

  method FindInList(secs: seq<Section>, key: Key, need: Need, a: Word) returns (r: Option<nat>)
    ensures r == FindSection(secs, key, need, a)
  {
    r := FindWhere(secs, (s: Section) => Hit(s, key, need, a));
  }

  /** `uld_section_lma_to_adjusted_vma`; 0 is the NULL of the original. */
  function SectionRunAddr(s: Section, a: Word): Word {
    if a == 0 || !(s.lma <= a < s.lma + s.size) then 0
    else if s.shType == SHT_NOBITS && !s.loaded then 0
    else Wrap(a - s.lma + s.adjVma)
  }

  datatype RelKind = Abs32 | Relative | GlobDat | FuncDesc | FuncDescValue | OtherRel

  datatype Rel = Rel(offset: Word, sym: nat, kind: RelKind)

  /** `struct uld_file`: the three section lists, the base of the file's memory
      (0 when it has none) and its dynamic tables.  .dynsym and .dynstr are always
      required together, so one option covers both. */
  datatype File = File(
    flash: seq<Section>, mem: seq<Section>, other: seq<Section>, membase: Word,
    hash: Option<HashTable>, syms: Option<seq<Sym>>, rels: Option<seq<Rel>>)

  function SectionAt(f: File, a: Word): (r: Option<Section>) {
    match FindSection(f.flash, ByLma, AnySection, a)
    case Some(k) => Some(f.flash[k])
    case None =>
      match FindSection(f.mem, ByLma, AnySection, a)
      case Some(k) => Some(f.mem[k])
      case None =>
        match FindSection(f.other, ByLma, AnySection, a)
        case Some(k) => Some(f.other[k])
        case None => None
  }

  /** `uld_file_lma_to_adjusted_vma`. */
  function RunAddr(f: File, a: Word): Word {
    match SectionAt(f, a)
    case Some(s) => SectionRunAddr(s, a)
    case None => 0
  }

  /** `uld_section_lma_to_adjusted_vma`: NULL for NULL, for an address that is not in the
      section, and for a section that has no bytes in the image and no memory either. */
  method SectionLmaToAdjustedVma(s: Section, a: Word) returns (w: Word)
    ensures w == SectionRunAddr(s, a)
  {
    if a == 0 || a < s.lma || a >= s.lma + s.size {
      return 0;
    }
    if s.shType == 8 && !s.loaded {
      return 0;
    }
    return Wrap(s.adjVma + (a - s.lma));
  }

  method FileLmaToAdjustedVma(f: File, a: Word) returns (w: Word)
    ensures w == RunAddr(f, a)
  {
    var k := FindInList(f.flash, ByLma, AnySection, a);
    if k.Some? {
      w := SectionLmaToAdjustedVma(f.flash[k.value], a);
      return;
    }
    k := FindInList(f.mem, ByLma, AnySection, a);
    if k.Some? {
      w := SectionLmaToAdjustedVma(f.mem[k.value], a);
      return;
    }
    k := FindInList(f.other, ByLma, AnySection, a);
    if k.Some? {
      w := SectionLmaToAdjustedVma(f.other[k.value], a);
      return;
    }
    return 0;
  }

  /** `uld_file_get_sec_by_index` over all section types. */
  function SectionWithIndex(secs: seq<Section>, shidx: nat): (r: Option<nat>)
    ensures r.Some? ==> r.value < |secs| && secs[r.value].shidx == shidx &&
                        forall k :: 0 <= k < r.value ==> secs[k].shidx != shidx
    ensures r.None? ==> forall k :: 0 <= k < |secs| ==> secs[k].shidx != shidx
  {
    FirstWhere(secs, (s: Section) => s.shidx == shidx)
  }

  function AllSections(f: File): seq<Section> {
    f.flash + f.mem + f.other
  }

  /** The lists are searched one after the other. */
  method GetSecByIndex(f: File, shidx: nat) returns (r: Option<Section>)
    ensures var x := SectionWithIndex(AllSections(f), shidx);
            r == if x.Some? then Some(AllSections(f)[x.value]) else None
    ensures r.Some? <==> exists s :: (s in f.flash || s in f.mem || s in f.other) && s.shidx == shidx
  {
    ghost var all := AllSections(f);
    var k := FindWhere(f.flash, (s: Section) => s.shidx == shidx);
    if k.Some? {
      assert all[k.value] == f.flash[k.value];
      return Some(f.flash[k.value]);
    }
    k := FindWhere(f.mem, (s: Section) => s.shidx == shidx);
    if k.Some? {
      assert all[|f.flash| + k.value] == f.mem[k.value];
      return Some(f.mem[k.value]);
    }
    k := FindWhere(f.other, (s: Section) => s.shidx == shidx);
    if k.Some? {
      assert all[|f.flash| + |f.mem| + k.value] == f.other[k.value];
      return Some(f.other[k.value]);
    }
    return None;
  }
}
