/** The memory layout that the loader makes is one that the linker can work on. */
module LoadLink {
  import opened Words
  import opened Options
  import opened Sections
  import opened ElfImage
  import opened MemLoad
  import opened MemFixups
  import opened FileLoad
  import opened LoadRun
  import opened DepLoad
  import opened LoadShift
  import opened SymbolTable
  import opened SectionList
  import opened LinkSpec
  import opened LinkMeaning

  /** `f` is file `i` as the loader leaves it. */
  ghost predicate FromLoader(f: File, imgs: seq<Image>, bssEnd: nat, start: nat, i: nat)
    requires i < |imgs|
  {
    var l, base := ListsOf(imgs[i]), BaseOf(bssEnd, imgs, start, i);
    f.flash == l.flash && f.mem == PlacedList(l.mem, base) && f.membase == if l.mem == [] then 0 else base
  }

  /** The dynamic tables of a file. */
  datatype Dyn = Dyn(hash: Option<HashTable>, syms: Option<seq<Sym>>, rels: Option<seq<Rel>>)

  /** `struct uld_file` and its part of the section array as the linker reads them. */
  function FileOf(u: UFile, secs: seq<Section>, d: Dyn): File
    requires u.secAt + u.counts.mem + u.counts.flash <= |secs|
  {
    var at, end := u.secAt + u.counts.mem, u.secAt + u.counts.mem + u.counts.flash;
    File(secs[at..end], secs[u.secAt..at], [], u.membase, d.hash, d.syms, d.rels)
  }

  /** The relocation is made in memory, inside one section. */
  predicate RelFits(l: Lists, rel: Rel) {
    var x := FindSection(l.mem, ByLma, AnySection, rel.offset);
    && FindSection(l.flash, ByLma, AnySection, rel.offset).None?
    && x.Some? && rel.offset + SlotSize(rel.kind) <= l.mem[x.value].lma + l.mem[x.value].size
  }

  predicate OffsetsApart(p: Rel, q: Rel) {
    Apart(p.offset, SlotSize(p.kind), q.offset, SlotSize(q.kind))
  }

  /** The relocations of a file are made in its memory and do not overlap, as link
      addresses. */
  predicate RelsFit(l: Lists, rels: seq<Rel>) {
    && (forall r :: 0 <= r < |rels| ==> RelFits(l, rels[r]))
    && (forall r, s :: 0 <= r < |rels| && 0 <= s < |rels| && r != s ==> OffsetsApart(rels[r], rels[s]))
  }

  /** What the headers of an image say of its memory: one segment, in which .bss follows
      without a hole, and no section at the ends of the address space. */
  ghost predicate OneBlock(img: Image) {
    var list := ListsOf(img).mem;
    (exists seg: nat :: OneSegment(img, seg, list)) && BssFollows(list) && forall k :: 0 <= k < |list| ==> LoadableSection(list[k])
  }

  /** After the load, `files` is what the linker is called with, for images whose memory
      is one block and whose relocations lie in it. */
  ghost predicate HandedOver(m0: Memory, m: Memory, imgs: seq<Image>, bssEnd: nat, start: nat, us: seq<UFile>, secs: seq<Section>,
                             dyns: seq<Dyn>, files: seq<File>)
  {
    && FilesReady(m0, imgs, bssEnd, start) && |files| == |dyns| == |imgs| <= |us|
    && forall i :: 0 <= i < |imgs| ==> HandedOverAt(m0, m, imgs, bssEnd, start, us[i], secs, dyns[i], files[i], i)
  }

  ghost predicate HandedOverAt(m0: Memory, m: Memory, imgs: seq<Image>, bssEnd: nat, start: nat, u: UFile, secs: seq<Section>,
                               d: Dyn, f: File, i: nat)
    requires i < |imgs|
  {
    && FileDone(m0, m, imgs, bssEnd, start, i, u, secs) && f == FileOf(u, secs, d)
    && OneBlock(imgs[i]) && (d.rels.Some? ==> RelsFit(ListsOf(imgs[i]), d.rels.value))
  }

  lemma {:induction false} OneHandedOver(m0: Memory, m: Memory, imgs: seq<Image>, bssEnd: nat, start: nat, u: UFile, secs: seq<Section>,
                                         d: Dyn, f: File, i: nat)
    requires i < |imgs| && FilesReady(m0, imgs, bssEnd, start) && HandedOverAt(m0, m, imgs, bssEnd, start, u, secs, d, f, i)
    ensures FileFits(f, imgs, bssEnd, start, i)
  {
    hide *;
    HandedOverIs(m0, m, imgs, bssEnd, start, u, secs, d, f, i);
    if ListsOf(imgs[i]).mem == [] {
      EmptyFits(BaseOf(bssEnd, imgs, start, i));
    } else {
      ReadyAt(m0, imgs, bssEnd, start, i);
      BlockLoads(imgs[i], BaseOf(bssEnd, imgs, start, i), |m0|);
    }
    FileFitsIf(f, imgs, bssEnd, start, i);
  }

  lemma ReadyAt(m0: Memory, imgs: seq<Image>, bssEnd: nat, start: nat, i: nat)
    requires i < |imgs| && FilesReady(m0, imgs, bssEnd, start) && ListsOf(imgs[i]).mem != []
    ensures var l, base := ListsOf(imgs[i]), BaseOf(bssEnd, imgs, start, i);
            base < WORD_LIMIT && NoGaps(l.mem) && RoomFor(l.mem, base, |m0|)
  {
    assert ImageReady(m0, imgs, bssEnd, start, i);
    hide ListsOf, BaseOf, NoGaps, RoomFor, FixupsReady, FixupAt, SourcesOutside, AllTyped, Count, FilesReady;
  }

  lemma {:induction false} HandedOverIs(m0: Memory, m: Memory, imgs: seq<Image>, bssEnd: nat, start: nat, u: UFile, secs: seq<Section>,
                                        d: Dyn, f: File, i: nat)
    requires i < |imgs| && HandedOverAt(m0, m, imgs, bssEnd, start, u, secs, d, f, i)
    ensures FromLoader(f, imgs, bssEnd, start, i) && OneBlock(imgs[i]) && f.rels == d.rels
    ensures f.rels.Some? ==> RelsFit(ListsOf(imgs[i]), f.rels.value)
  {
    hide ListsOf, BaseOf, SecsBefore, Loaded, OneBlock, RelsFit, RofixupOf, Total, PlacedList;
    if ListsOf(imgs[i]).mem == [] {
      EmptyFits(BaseOf(bssEnd, imgs, start, i));
    }
  }

  lemma {:induction false} BlockLoads(img: Image, base: nat, len: nat)
    requires OneBlock(img) && NoGaps(ListsOf(img).mem) && RoomFor(ListsOf(img).mem, base, len)
    ensures Loadable(ListsOf(img).mem, base) && Adjacent(ListsOf(img).mem)
  {
    hide ListsOf, OneSegment, BssFollows, NoGaps, LoadableSection, Total, Adjacent, SourceOk;
    var list := ListsOf(img).mem;
    var seg: nat :| OneSegment(img, seg, list);
    AdjacentExact(img, seg, list);
  }

  lemma FileFitsIf(f: File, imgs: seq<Image>, bssEnd: nat, start: nat, i: nat)
    requires i < |imgs| && FromLoader(f, imgs, bssEnd, start, i)
    requires var l, base := ListsOf(imgs[i]), BaseOf(bssEnd, imgs, start, i);
             (l.mem != [] ==> Loadable(l.mem, base) && Adjacent(l.mem)) && (f.rels.Some? ==> RelsFit(l, f.rels.value))
    ensures FileFits(f, imgs, bssEnd, start, i)
  {
    hide FromLoader, ListsOf, BaseOf, Loadable, Adjacent, RelsFit;
  }

  lemma EmptyFits(base: nat)
    ensures PlacedList([], base) == [] && Adjacent([]) && Total([]) == 0
  {
  }

  /** All files of a run of the loader, with gap-free link addresses in memory. */
  ghost predicate LoadedFiles(files: seq<File>, imgs: seq<Image>, bssEnd: nat, start: nat) {
    |files| == |imgs| && 0 < bssEnd && forall i :: 0 <= i < |files| ==> FileFits(files[i], imgs, bssEnd, start, i)
  }

  ghost predicate FileFits(f: File, imgs: seq<Image>, bssEnd: nat, start: nat, i: nat)
    requires i < |imgs|
  {
    var l, base := ListsOf(imgs[i]), BaseOf(bssEnd, imgs, start, i);
    && FromLoader(f, imgs, bssEnd, start, i) && (l.mem != [] ==> Loadable(l.mem, base) && Adjacent(l.mem))
    && (f.rels.Some? ==> RelsFit(l, f.rels.value))
  }

  lemma {:induction false} SameFind(list: seq<Section>, base: nat, v: Word)
    ensures FindSection(PlacedList(list, base), ByLma, AnySection, v) == FindSection(list, ByLma, AnySection, v)
  {
    hide SizeBefore;
    forall k | 0 <= k < |list|
      ensures Hit(PlacedList(list, base)[k], ByLma, AnySection, v) <==> Hit(list[k], ByLma, AnySection, v)
    {
    }
    var a, b := FindSection(PlacedList(list, base), ByLma, AnySection, v), FindSection(list, ByLma, AnySection, v);
    if a.Some? && b.Some? {
      assert a.value == b.value;
    }
  }

  /** A slot is its link address, shifted, and lies in the memory of its file. */
  lemma {:induction false} SlotShifted(f: File, l: Lists, base: Word, rel: Rel)
    requires f.flash == l.flash && f.mem == PlacedList(l.mem, base) && Loadable(l.mem, base) && Adjacent(l.mem) && RelFits(l, rel)
    ensures |l.mem| > 0
    ensures RunAddr(f, rel.offset) == rel.offset - l.mem[0].lma + base
    ensures base <= RunAddr(f, rel.offset) && RunAddr(f, rel.offset) + SlotSize(rel.kind) <= base + Total(l.mem)
    ensures var x := FindSection(f.mem, ByLma, AnySection, rel.offset);
            x.Some? && SectionRunAddr(f.mem[x.value], rel.offset) == RunAddr(f, rel.offset)
  {
    SameFind(l.mem, base, rel.offset);
    FileShift(f, l.mem, base, rel.offset);
    var x := FindSection(l.mem, ByLma, AnySection, rel.offset).value;
    SectionInside(l.mem, x, |l.mem|);
    hide SizeBefore, FindSection, SectionRunAddr;
  }

  lemma {:induction false} OneSlot(files: seq<File>, imgs: seq<Image>, bssEnd: nat, start: nat, i: nat, r: nat)
    requires LoadedFiles(files, imgs, bssEnd, start) && Position(files, i, r)
    ensures var l, base := ListsOf(imgs[i]), BaseOf(bssEnd, imgs, start, i);
            && l.mem != [] && RelFits(l, RelAt(files, i, r)) && files[i].membase == base
            && Slot(files, i, r) == RelAt(files, i, r).offset - l.mem[0].lma + base
            && base <= Slot(files, i, r) && Slot(files, i, r) + SlotSize(RelAt(files, i, r).kind) <= base + Total(l.mem)
            && base + Total(l.mem) <= EndOf(bssEnd, imgs, start, |imgs|) && bssEnd <= base && NextBase(bssEnd, start, 0) <= base
            && SlotPlaced(files, EndOf(bssEnd, imgs, start, |imgs|), i, r)
  {
    assert FileFits(files[i], imgs, bssEnd, start, i);
    assert RelFits(ListsOf(imgs[i]), files[i].rels.value[r]);
    assert BaseOf(bssEnd, imgs, start, i) < WORD_LIMIT;
    hide ListsOf, BaseOf, EndOf, Loadable, Adjacent, Total, PlacedList, FindSection, SectionRunAddr, NextBase;
    var l, base := ListsOf(imgs[i]), BaseOf(bssEnd, imgs, start, i);
    SlotShifted(files[i], l, base, RelAt(files, i, r));
    LayoutSound(bssEnd, imgs, start, i);
  }

  lemma {:induction false} TwoSlots(files: seq<File>, imgs: seq<Image>, bssEnd: nat, start: nat, i: nat, r: nat, k: nat, s: nat)
    requires LoadedFiles(files, imgs, bssEnd, start) && Position(files, i, r) && Position(files, k, s) && (i != k || r != s)
    ensures SlotPairApart(files, i, r, k, s)
  {
    if i == k {
      InOneFile(files, imgs, bssEnd, start, i, r, s);
    }
    hide LoadedFiles, EndOf, BaseOf, Total, ListsOf, SlotPlaced, Slot, RelFits;
    OneSlot(files, imgs, bssEnd, start, i, r);
    OneSlot(files, imgs, bssEnd, start, k, s);
    if i != k {
      LayoutSound(bssEnd, imgs, start, i);
      LayoutSound(bssEnd, imgs, start, k);
    }
  }

  /** Two relocations of one file are apart. */
  lemma {:induction false} InOneFile(files: seq<File>, imgs: seq<Image>, bssEnd: nat, start: nat, i: nat, r: nat, s: nat)
    requires LoadedFiles(files, imgs, bssEnd, start) && Position(files, i, r) && Position(files, i, s) && r != s
    ensures OffsetsApart(RelAt(files, i, r), RelAt(files, i, s))
  {
    assert FileFits(files[i], imgs, bssEnd, start, i);
    hide ListsOf, BaseOf, Loadable, Adjacent, LoadedFiles, FromLoader;
  }

  lemma {:induction false} SlotsInPlace(files: seq<File>, imgs: seq<Image>, bssEnd: nat, start: nat)
    requires LoadedFiles(files, imgs, bssEnd, start)
    ensures SlotsApart(files)
    ensures forall i, r :: Position(files, i, r) ==> SlotPlaced(files, EndOf(bssEnd, imgs, start, |imgs|), i, r)
    ensures forall i, r :: Position(files, i, r) ==> NextBase(bssEnd, start, 0) <= Slot(files, i, r)
  {
    hide LoadedFiles, EndOf, SlotPlaced, NextBase;
    forall i, r | Position(files, i, r)
      ensures SlotPlaced(files, EndOf(bssEnd, imgs, start, |imgs|), i, r) && NextBase(bssEnd, start, 0) <= Slot(files, i, r)
    {
      OneSlot(files, imgs, bssEnd, start, i, r);
    }
    forall i, r, k, s | Position(files, i, r) && Position(files, k, s) && (i != k || r != s)
      ensures SlotPairApart(files, i, r, k, s)
    {
      TwoSlots(files, imgs, bssEnd, start, i, r, k, s);
    }
  }

  /** Link addresses in the memory of `f` become run addresses by adding one constant. */
  ghost predicate ShiftsAsOne(f: File, list: seq<Section>) {
    forall v: Word :: FindSection(f.flash, ByLma, AnySection, v).None? && FindSection(f.mem, ByLma, AnySection, v).Some? ==>
      list != [] && RunAddr(f, v) == v - list[0].lma + f.membase
  }

  lemma {:induction false} FileShiftsAsOne(f: File, imgs: seq<Image>, bssEnd: nat, start: nat, i: nat)
    requires i < |imgs| && FileFits(f, imgs, bssEnd, start, i)
    ensures ShiftsAsOne(f, ListsOf(imgs[i]).mem)
  {
    hide ListsOf, BaseOf, Loadable, Adjacent, RelsFit, RunAddr, FindSection;
    var l, base := ListsOf(imgs[i]), BaseOf(bssEnd, imgs, start, i);
    forall v: Word | FindSection(f.flash, ByLma, AnySection, v).None? && FindSection(f.mem, ByLma, AnySection, v).Some?
      ensures l.mem != [] && RunAddr(f, v) == v - l.mem[0].lma + f.membase
    {
      if l.mem == [] {
        NothingFound(base, v);
      } else {
        FileShift(f, l.mem, base, v);
      }
    }
  }

  lemma NothingFound(base: nat, v: Word)
    ensures FindSection(PlacedList([], base), ByLma, AnySection, v).None?
  {
    EmptyFits(base);
  }

  /** What the loader leaves is what the linker asks for: in every file link addresses of
      memory become run addresses by one constant, every relocation slot is in a loaded
      section of its file, inside the memory reported as taken, and no two slots overlap.
      With dynamic tables in order the files are well linked, with the pool behind them. */
  lemma {:induction false} LoaderServesLinker(m0: Memory, m: Memory, imgs: seq<Image>, bssEnd: nat, start: nat, us: seq<UFile>,
                                              secs: seq<Section>, dyns: seq<Dyn>, files: seq<File>)
    requires HandedOver(m0, m, imgs, bssEnd, start, us, secs, dyns, files)
    ensures forall i :: 0 <= i < |files| ==> ShiftsAsOne(files[i], ListsOf(imgs[i]).mem)
    ensures SlotsApart(files)
    ensures forall i, r :: Position(files, i, r) ==>
              SlotPlaced(files, EndOf(bssEnd, imgs, start, |imgs|), i, r) && NextBase(bssEnd, start, 0) <= Slot(files, i, r)
    ensures TablesOk(files) ==> WellLinked(files, EndOf(bssEnd, imgs, start, |imgs|))
  {
    assert 0 < bssEnd;
    hide FilesReady, ListsOf, EndOf, HandedOverAt, FileFits, ShiftsAsOne, SlotsApart, SlotPlaced, TablesOk, NextBase;
    forall i | 0 <= i < |files|
      ensures FileFits(files[i], imgs, bssEnd, start, i) && ShiftsAsOne(files[i], ListsOf(imgs[i]).mem)
    {
      OneHandedOver(m0, m, imgs, bssEnd, start, us[i], secs, dyns[i], files[i], i);
      FileShiftsAsOne(files[i], imgs, bssEnd, start, i);
    }
    SlotsInPlace(files, imgs, bssEnd, start);
  }
}
