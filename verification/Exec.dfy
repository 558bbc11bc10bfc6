/** Running a file: its dependency list, the load and the link (uld_dyn_exec_fse in
    src/uld_dyn.c), and what memory is like when all three have been done. */
module Exec {
  import opened Words
  import opened Options
  import opened Sections
  import opened ElfImage
  import opened MemLoad
  import opened FileLoad
  import opened LoadRun
  import opened DepGraph
  import opened DepList
  import opened DepLoad
  import opened LinkSpec
  import opened LinkMeaning
  import opened LinkOutcome
  import opened LinkTheorems
  import opened Linker
  import opened LoadLink
  import opened LoadTheorems
  import opened MemFixups

  /** The elements of `s` that the list names, in its order. */
  function Chosen<T>(s: seq<T>, order: seq<nat>): (r: seq<T>)
    requires forall k :: 0 <= k < |order| ==> order[k] < |s|
    ensures |r| == |order| && forall k :: 0 <= k < |r| ==> r[k] == s[order[k]]
  {
    seq(|order|, k requires 0 <= k < |order| => s[order[k]])
  }

  ghost predicate BasesFit(imgs: seq<Image>, bssEnd: nat) {
    forall i :: 0 <= i < |imgs| && ListsOf(imgs[i]).mem != [] ==> BaseOf(bssEnd, imgs, 0, i) < WORD_LIMIT
  }

  /** File `i` as the linker is given it. */
  ghost function FileAs(imgs: seq<Image>, dyns: seq<Dyn>, bssEnd: nat, i: nat): File
    requires i < |imgs| == |dyns| && BasesFit(imgs, bssEnd)
  {
    var l, base, d := ListsOf(imgs[i]), BaseOf(bssEnd, imgs, 0, i), dyns[i];
    File(l.flash, PlacedList(l.mem, base), [], if l.mem == [] then 0 else base, d.hash, d.syms, d.rels)
  }

  ghost function FilesAs(imgs: seq<Image>, dyns: seq<Dyn>, bssEnd: nat): (r: seq<File>)
    requires |imgs| == |dyns| && BasesFit(imgs, bssEnd)
    ensures |r| == |imgs| && forall i :: 0 <= i < |r| ==> r[i] == FileAs(imgs, dyns, bssEnd, i)
  {
    seq(|imgs|, i requires 0 <= i < |imgs| => FileAs(imgs, dyns, bssEnd, i))
  }

  /** The sections that stay in flash have contents, and no range of theirs wraps around. */
  ghost predicate StaysInFlash(img: Image) {
    forall h :: 0 <= h < |img.shdrs| && TypeOf(img.shdrs[h]) == Some(FlashType) ==>
      var s := img.shdrs[h];
      && s.shType != SHT_NOBITS && img.base + s.offset + s.size < WORD_LIMIT && MakeSection(img, h).lma + s.size < WORD_LIMIT
  }

  /** What is not loaded runs in place: the run address of a link address in section `x`
      of the flash list is the flash address of that byte of the image. */
  lemma {:induction false} CodeRunsInPlace(imgs: seq<Image>, dyns: seq<Dyn>, bssEnd: nat, i: nat, x: nat, v: Word)
    requires i < |imgs| == |dyns| && BasesFit(imgs, bssEnd) && StaysInFlash(imgs[i])
    requires v != 0 && FindSection(ListsOf(imgs[i]).flash, ByLma, AnySection, v) == Some(x)
    ensures var s := ListsOf(imgs[i]).flash[x];
            && s.lma <= v < s.lma + s.size
            && RunAddr(FileAs(imgs, dyns, bssEnd, i), v) == imgs[i].base + s.offset + (v - s.lma)
  {
    hide FullList, BaseOf;
    var img, list := imgs[i], ListsOf(imgs[i]).flash;
    FullListTypes(img, {FlashType}, |img.shdrs|);
    assert list[x] in FullList(img, {FlashType}, |img.shdrs|);
    var h: nat :| h < |img.shdrs| && TypeOf(img.shdrs[h]).Some? && list[x] == MakeSection(img, h);
    RunsInPlace(img, h, v - list[x].lma);
  }

  /** The files can be loaded and linked as far as their headers and tables go. */
  ghost predicate Runnable(m: Memory, imgs: seq<Image>, dyns: seq<Dyn>, bssEnd: nat) {
    && |imgs| == |dyns| && FilesReady(m, imgs, bssEnd, 0)
    && BasesFit(imgs, bssEnd) && Searchable(FilesAs(imgs, dyns, bssEnd))
  }

  /** Memory `m` has all files of the list loaded into it, from `m0`. */
  ghost predicate ListLoaded(m0: Memory, m: Memory, imgs: seq<Image>, bssEnd: nat, us: seq<UFile>, secs: seq<Section>) {
    && |us| >= |imgs| && (forall i :: 0 <= i < |imgs| ==> FileDone(m0, m, imgs, bssEnd, 0, i, us[i], secs))
    && var lo := NextBase(bssEnd, 0, 0); SameOutside(m0, m, lo, EndOf(bssEnd, imgs, 0, |imgs|) - lo)
  }

  lemma {:induction false} AsRecorded(m0: Memory, m: Memory, imgs: seq<Image>, dyns: seq<Dyn>, bssEnd: nat, i: nat, u: UFile, secs: seq<Section>)
    requires i < |imgs| == |dyns| && BasesFit(imgs, bssEnd) && FileDone(m0, m, imgs, bssEnd, 0, i, u, secs)
    ensures u.secAt + u.counts.mem + u.counts.flash <= |secs| && FileOf(u, secs, dyns[i]) == FileAs(imgs, dyns, bssEnd, i)
  {
    hide ListsOf, BaseOf, SecsBefore, Loaded, Total;
    if ListsOf(imgs[i]).mem == [] {
      EmptyFits(BaseOf(bssEnd, imgs, 0, i));
    }
  }

  /** The linker's view of the files, from the arrays that the load has filled. */
  method Collect(us: array<UFile>, secs: array<Section>, dyns: seq<Dyn>, ghost m0: Memory, ghost m: Memory, ghost imgs: seq<Image>, ghost bssEnd: nat)
    returns (files: seq<File>)
    requires |imgs| == |dyns| && BasesFit(imgs, bssEnd) && ListLoaded(m0, m, imgs, bssEnd, us[..], secs[..])
    ensures files == FilesAs(imgs, dyns, bssEnd)
  {
    hide FileDone, SameOutside, BasesFit, FileAs;
    files := [];
    var i := 0;
    while i < |dyns|
      invariant i <= |dyns| && files == FilesAs(imgs, dyns, bssEnd)[..i]
    {
      AsRecorded(m0, m, imgs, dyns, bssEnd, i, us[..][i], secs[..]);
      assert us[..][i] == us[i];
      files := files + [FileOf(us[i], secs[..], dyns[i])];
      i := i + 1;
    }
  }

  /** The load of the list, into arrays of the counted size. */
  method LoadAll(mem: array<Byte>, imgs: seq<Image>, dyns: seq<Dyn>, bssEnd: nat)
    returns (r: Outcome<nat>, files: seq<File>, ghost us: seq<UFile>, ghost secs: seq<Section>)
    requires Runnable(mem[..], imgs, dyns, bssEnd)
    modifies mem
    ensures r.Done? <==> forall i :: 0 <= i < |imgs| ==> ImageLoads(old(mem[..]), imgs, bssEnd, 0, i)
    ensures !r.Failed?
    ensures r.Done? ==> r.value == EndOf(bssEnd, imgs, 0, |imgs|) && files == FilesAs(imgs, dyns, bssEnd)
    ensures r.Done? ==> ListLoaded(old(mem[..]), mem[..], imgs, bssEnd, us, secs)
  {
    ghost var m0 := mem[..];
    files, us, secs := [], [], [];
    AllAreTyped(m0, imgs, bssEnd);
    hide FilesReady, FileDone, FilesAs, Searchable, BasesFit, ImageLoads, SecsBefore, NextBase, EndOf, SameOutside;
    var count := GetDepListSecCount(imgs, LOAD_MASK);
    var list := new UFile[|imgs|](_ => UFile(0, Counts(0, 0, 0), 0, 0));
    var array1 := new Section[count.value](_ => BLANK);
    var loaded := LoadDepList(mem, imgs, list, array1, bssEnd, 0);
    if !loaded.Done? {
      return Trapped, files, us, secs;
    }
    us, secs := list[..], array1[..];
    files := Collect(list, array1, dyns, m0, mem[..], imgs, bssEnd);
    r := Done(loaded.value.0 + loaded.value.1);
  }

  const BLANK := Section("", 0, false, 0, 0, 0, 0, ELF_SEC_HAS_NO_SEGMENT, 0, 0, 0, OtherType, false, false, false)

  lemma {:induction false} AllAreTyped(m: Memory, imgs: seq<Image>, bssEnd: nat)
    requires FilesReady(m, imgs, bssEnd, 0)
    ensures forall i :: 0 <= i < |imgs| ==> SectionList.AllTyped(imgs[i])
  {
    hide ListsOf, BaseOf, SectionList.AllTyped, SourcesOutside, NoGaps, FileReady;
    forall i | 0 <= i < |imgs|
      ensures SectionList.AllTyped(imgs[i])
    {
      assert ImageReady(m, imgs, bssEnd, 0, i);
    }
  }

  // ----- the run -----

  /** The files that `fse` needs, in the order in which they are loaded. */
  ghost function Order(t: Table, rank: seq<nat>, fse: nat): (r: seq<nat>)
    requires Acyclic(t, rank) && fse < |t|
    ensures forall k :: 0 <= k < |r| ==> r[k] < |t|
  {
    VisitInTable(t, rank, fse);
    Visit(t, rank, fse, [])
  }

  /** `uld_dyn_exec_fse` up to the call of the constructors.  An error code of the search
      is taken for the length of an array by the code, which is a trap here; `loaded` is
      memory between load and link. */
  method ExecFse(mem: array<Byte>, t: Table, imgs: seq<Image>, dyns: seq<Dyn>, fse: nat, bssEnd: nat, ghost rank: seq<nat>)
    returns (r: Outcome<()>, files: seq<File>, pool: nat, size: nat, ghost loaded: Memory, ghost us: seq<UFile>, ghost secs: seq<Section>)
    requires Acyclic(t, rank) && fse < |t| == |imgs| == |dyns|
    requires !BadReached(t, fse, []) ==> Runnable(mem[..], Chosen(imgs, Order(t, rank, fse)), Chosen(dyns, Order(t, rank, fse)), bssEnd)
    modifies mem
    ensures BadReached(t, fse, []) ==> r == Trapped
    ensures !BadReached(t, fse, []) ==>
              var order := Order(t, rank, fse);
              RunOutcome(old(mem[..]), loaded, mem[..], Chosen(imgs, order), Chosen(dyns, order), bssEnd, us, secs, r, files, pool, size)
  {
    hide *;
    ghost var m0 := mem[..];
    files, pool, size, loaded, us, secs := [], 0, 0, m0, [], [];
    var ret, deps := CountThenFill(t, fse, rank);
    if ret != 0 {
      return Trapped, files, pool, size, loaded, us, secs;
    }
    var order := deps[..];
    OrderIs(t, rank, fse);
    var listed, tables := Chosen(imgs, order), Chosen(dyns, order);
    RunnableFits(m0, listed, tables, bssEnd);
    var base;
    base, files, us, secs := LoadAll(mem, listed, tables, bssEnd);
    loaded := mem[..];
    if !base.Done? {
      NotLoaded(m0, loaded, listed, tables, bssEnd, us, secs, files, pool, size);
      return Trapped, files, pool, size, loaded, us, secs;
    }
    r, pool, size := LinkFileList(files, mem, base.value);
    LinkedToo(m0, loaded, mem[..], listed, tables, bssEnd, us, secs, r, files, pool, size);
  }

  /** What comes of load and link of a list of files. */
  ghost predicate RunOutcome(m0: Memory, m1: Memory, m2: Memory, imgs: seq<Image>, dyns: seq<Dyn>, bssEnd: nat, us: seq<UFile>,
                             secs: seq<Section>, r: Outcome<()>, files: seq<File>, pool: nat, size: nat)
    requires Runnable(m0, imgs, dyns, bssEnd)
  {
    if forall i :: 0 <= i < |imgs| ==> ImageLoads(m0, imgs, bssEnd, 0, i) then
      && files == FilesAs(imgs, dyns, bssEnd) && SymIndicesOk(files) && ListLoaded(m0, m1, imgs, bssEnd, us, secs)
      && match LinkSpec.Link(files, m1, EndOf(bssEnd, imgs, 0, |imgs|))
         case Done(st) => r == Done(()) && m2 == st.mem && pool == st.pool && size == st.size
         case Failed(c) => r == Failed(c)
         case Trapped => r == Trapped
    else r == Trapped
  }

  lemma OrderIs(t: Table, rank: seq<nat>, fse: nat)
    requires Acyclic(t, rank) && fse < |t|
    ensures Order(t, rank, fse) == Visit(t, rank, fse, [])
  {
  }

  lemma RunnableFits(m: Memory, imgs: seq<Image>, dyns: seq<Dyn>, bssEnd: nat)
    requires Runnable(m, imgs, dyns, bssEnd)
    ensures |imgs| == |dyns| && BasesFit(imgs, bssEnd) && Searchable(FilesAs(imgs, dyns, bssEnd))
    ensures SymIndicesOk(FilesAs(imgs, dyns, bssEnd))
  {
    hide FilesReady, BasesFit, FilesAs;
  }

  lemma NotLoaded(m0: Memory, m1: Memory, imgs: seq<Image>, dyns: seq<Dyn>, bssEnd: nat, us: seq<UFile>, secs: seq<Section>,
                  files: seq<File>, pool: nat, size: nat)
    requires Runnable(m0, imgs, dyns, bssEnd) && exists i :: 0 <= i < |imgs| && !ImageLoads(m0, imgs, bssEnd, 0, i)
    ensures RunOutcome(m0, m1, m1, imgs, dyns, bssEnd, us, secs, Trapped, files, pool, size)
  {
    hide Runnable, ImageLoads;
  }

  lemma LinkedToo(m0: Memory, m1: Memory, m2: Memory, imgs: seq<Image>, dyns: seq<Dyn>, bssEnd: nat, us: seq<UFile>,
                  secs: seq<Section>, r: Outcome<()>, files: seq<File>, pool: nat, size: nat)
    requires Runnable(m0, imgs, dyns, bssEnd) && files == FilesAs(imgs, dyns, bssEnd) && SymIndicesOk(files)
    requires (forall i :: 0 <= i < |imgs| ==> ImageLoads(m0, imgs, bssEnd, 0, i)) && ListLoaded(m0, m1, imgs, bssEnd, us, secs)
    requires match LinkSpec.Link(files, m1, EndOf(bssEnd, imgs, 0, |imgs|))
             case Done(st) => r == Done(()) && m2 == st.mem && pool == st.pool && size == st.size
             case Failed(c) => r == Failed(c)
             case Trapped => r == Trapped
    ensures RunOutcome(m0, m1, m2, imgs, dyns, bssEnd, us, secs, r, files, pool, size)
  {
    hide Runnable, ImageLoads, ListLoaded, SymIndicesOk, EndOf, FilesAs;
  }

  // ----- memory when the file runs -----

  /** What the headers and tables say beyond that: memory is one block in each file, with
      all relocations in it, the tables are in order, and the pool begins in memory. */
  ghost predicate WellBuilt(m: Memory, imgs: seq<Image>, dyns: seq<Dyn>, bssEnd: nat) {
    && Runnable(m, imgs, dyns, bssEnd) && TablesOk(FilesAs(imgs, dyns, bssEnd)) && MemoryOk(m, EndOf(bssEnd, imgs, 0, |imgs|))
    && forall i :: 0 <= i < |imgs| ==> OneBlock(imgs[i]) && (dyns[i].rels.Some? ==> RelsFit(ListsOf(imgs[i]), dyns[i].rels.value))
  }

  /** The slot of relocation `(i, r)` holds what the relocation asks for; `m1` is memory
      before the link, `log` lists the items of the pool. */
  ghost predicate SlotSettled(files: seq<File>, m1: Memory, m2: Memory, base: nat, log: seq<PoolItem>, i: nat, r: nat)
    requires SymIndicesOk(files) && Position(files, i, r)
  {
    var kind, name, a := RelAt(files, i, r).kind, NameAt(files, i, r), Slot(files, i, r);
    a + SlotSize(kind) <= |m2| == |m1| &&
    match kind
    case Relative => LoadWord(m2, a) == RunAddr(files[i], LoadWord(m1, a))
    case FuncDesc =>
      FunctionOk(files, m1, base, name) ==> (DescriptorAt(files, m2, name, LoadWord(m2, a)) <==> GetsDescriptor(files, m1, name))
    case FuncDescValue =>
      if OnSection(files, i, r) then SectionSlotOk(files, m1, m2, i, r)
      else FunctionOk(files, m1, base, name) ==> (DescriptorAt(files, m2, name, a) <==> GetsDescriptor(files, m1, name))
    case OtherRel => false
    case _ =>
      IsObject(files, name) ==>
        match NearestDefiner(files, i, name)
        case Some(j) => LoadWord(m2, a) == DataAddr(files, j, name)
        case None => InPool(files, log, GlobDat, name, LoadWord(m2, a))
  }

  /** One item of the pool is the block for `name`, the only one, and every data slot for
      `name` in any file holds its address. */
  ghost predicate SharesBlock(files: seq<File>, m2: Memory, log: seq<PoolItem>, name: string)
    requires SymIndicesOk(files)
  {
    exists t: nat :: t < |log| && SoleBlock(files, log, name, t) &&
      forall k, s :: Position(files, k, s) && IsData(RelAt(files, k, s).kind) && NameAt(files, k, s) == name ==>
        HoldsAddr(files, m2, k, s, log[t].addr)
  }

  /** The pool is in order, with a zeroed block for each object of a data relocation that
      no file defines. */
  ghost predicate PoolSettled(files: seq<File>, m1: Memory, m2: Memory, base: nat, pool: nat, log: seq<PoolItem>)
    requires SymIndicesOk(files)
  {
    && PoolOk(files, m1, m2, base, pool, log)
    && forall i, r :: Position(files, i, r) && IsData(RelAt(files, i, r).kind) && IsObject(files, NameAt(files, i, r)) ==>
         NearestDefiner(files, |files| - 1, NameAt(files, i, r)).None? ==> SharesBlock(files, m2, log, NameAt(files, i, r))
  }

  /** No relocation slot has a byte in `[a, a + n)`. */
  ghost predicate NoSlotAt(files: seq<File>, a: int, n: int) {
    forall i, r :: Position(files, i, r) ==> Apart(Slot(files, i, r), SlotSize(RelAt(files, i, r).kind), a, n)
  }

  /** Byte `o` of memory section `x` of file `i` is that of its image, or zero, unless a
      fixup or a relocation covers it. */
  ghost predicate ByteSettled(m0: Memory, m2: Memory, imgs: seq<Image>, files: seq<File>, bssEnd: nat, i: nat, x: nat, o: nat)
    requires BasesFit(imgs, bssEnd) && i < |imgs| && x < |ListsOf(imgs[i]).mem| && RofixupOf(imgs[i]).Some?
  {
    var l, base := ListsOf(imgs[i]), BaseOf(bssEnd, imgs, 0, i);
    var a := base + SizeBefore(l.mem, x) + o;
    && o < l.mem[x].size && NoSlotAt(files, a, 1)
    && Uncovered(l.mem, base, FixupWords(m0, RofixupOf(imgs[i]).value), a)
    ==> a < |m2| && m2[a] == InitByte(m0, l.mem[x], o)
  }

  /** Fixup `k` of file `i`, in memory section `x`, has its run-time meaning, unless a
      relocation covers it. */
  ghost predicate FixupSettled(m0: Memory, m2: Memory, imgs: seq<Image>, files: seq<File>, bssEnd: nat, i: nat, x: nat, k: nat)
    requires BasesFit(imgs, bssEnd) && i < |imgs| && x < |ListsOf(imgs[i]).mem| && RofixupOf(imgs[i]).Some?
  {
    var l, base, ws := ListsOf(imgs[i]), BaseOf(bssEnd, imgs, 0, i), FixupWords(m0, RofixupOf(imgs[i]).value);
    k < |ws| && FixupIn(l, ws, k, x) ==>
      var o := ws[k] - l.mem[x].lma;
      var a, v := base + SizeBefore(l.mem, x) + o, InitWord(m0, l.mem[x], o);
      0 <= o && a + 4 <= |m2| &&
      (NoSlotAt(files, a, 4) ==> LoadWord(m2, a) == if v == 0 then 0 else Relocated(PlacedList(l.mem, base), x, base, v))
  }

  lemma {:induction false} BuiltLinked(m0: Memory, m1: Memory, imgs: seq<Image>, dyns: seq<Dyn>, bssEnd: nat, us: seq<UFile>,
                                       secs: seq<Section>, files: seq<File>)
    requires WellBuilt(m0, imgs, dyns, bssEnd) && ListLoaded(m0, m1, imgs, bssEnd, us, secs) && files == FilesAs(imgs, dyns, bssEnd)
    ensures WellLinked(files, EndOf(bssEnd, imgs, 0, |imgs|)) && MemoryOk(m1, EndOf(bssEnd, imgs, 0, |imgs|))
    ensures forall i, r :: Position(files, i, r) ==> NextBase(bssEnd, 0, 0) <= Slot(files, i, r)
  {
    hide FilesReady, FileDone, OneBlock, RelsFit, TablesOk, Searchable, BasesFit, EndOf, ListsOf, FileAs, NextBase;
    forall i | 0 <= i < |imgs|
      ensures HandedOverAt(m0, m1, imgs, bssEnd, 0, us[i], secs, dyns[i], files[i], i)
    {
      AsRecorded(m0, m1, imgs, dyns, bssEnd, i, us[i], secs);
    }
    assert HandedOver(m0, m1, imgs, bssEnd, 0, us, secs, dyns, files);
    hide HandedOver;
    LoaderServesLinker(m0, m1, imgs, bssEnd, 0, us, secs, dyns, files);
  }

  lemma {:induction false} SettledSlot(files: seq<File>, m1: Memory, base: nat, i: nat, r: nat)
    requires Linked(files, m1, base) && Position(files, i, r)
    ensures SlotSettled(files, m1, Final(files, m1, base).mem, base, Final(files, m1, base).log, i, r)
  {
    SlotInMemory(files, m1, base, i, r);
    hide Linked, Final, FunctionOk, IsObject, InPool, DescriptorAt, GetsDescriptor, SectionSlotOk, LoadWord, Slot, RunAddr, NearestDefiner, DataAddr;
    var kind := RelAt(files, i, r).kind;
    if kind == Relative {
      RelativeSlotsCorrect(files, m1, base, i, r);
    } else if kind == FuncDesc {
      if FunctionOk(files, m1, base, NameAt(files, i, r)) {
        FuncDescsCorrect(files, m1, base, i, r);
      }
    } else if OnSection(files, i, r) {
      SectionDescriptorsCorrect(files, m1, base, i, r);
    } else if kind == FuncDescValue {
      if FunctionOk(files, m1, base, NameAt(files, i, r)) {
        FuncDescValuesCorrect(files, m1, base, i, r);
      }
    } else if IsObject(files, NameAt(files, i, r)) {
      if NearestDefiner(files, i, NameAt(files, i, r)).Some? {
        DataSlotsCorrect(files, m1, base, i, r);
      } else {
        NotDefinedBefore(files, m1, base, i, r);
      }
    }
  }

  /** A data slot for an object that no file up to its own defines is in the pool. */
  lemma {:induction false} NotDefinedBefore(files: seq<File>, m1: Memory, base: nat, i: nat, r: nat)
    requires Linked(files, m1, base) && Position(files, i, r) && IsData(RelAt(files, i, r).kind)
    requires IsObject(files, NameAt(files, i, r)) && NearestDefiner(files, i, NameAt(files, i, r)).None?
    ensures var st, a := Final(files, m1, base), Slot(files, i, r);
            a + 4 <= |st.mem| && InPool(files, st.log, GlobDat, NameAt(files, i, r), LoadWord(st.mem, a))
  {
    FinalInv(files, m1, base);
    assert Before(files, |files|, 0, i, r);
    assert LinkMeaning.SlotOk(files, m1, base, Final(files, m1, base).mem, Final(files, m1, base).log, i, r);
  }

  lemma {:induction false} SettledPool(files: seq<File>, m1: Memory, base: nat)
    requires Linked(files, m1, base)
    ensures var st := Final(files, m1, base); PoolSettled(files, m1, st.mem, base, st.pool, st.log)
  {
    PoolCorrect(files, m1, base);
    hide Linked, Final, IsObject, NearestDefiner, PoolOk, SoleBlock, HoldsAddr;
    var st := Final(files, m1, base);
    forall i, r | Position(files, i, r) && IsData(RelAt(files, i, r).kind) && IsObject(files, NameAt(files, i, r)) &&
                  NearestDefiner(files, |files| - 1, NameAt(files, i, r)).None?
      ensures SharesBlock(files, st.mem, st.log, NameAt(files, i, r))
    {
      var t := UndefinedObjectHasOneBlock(files, m1, base, NameAt(files, i, r), i, r);
    }
  }

  lemma {:induction false} SlotInMemory(files: seq<File>, m1: Memory, base: nat, i: nat, r: nat)
    requires Linked(files, m1, base) && Position(files, i, r)
    ensures Slot(files, i, r) + SlotSize(RelAt(files, i, r).kind) <= base <= |m1| == |Final(files, m1, base).mem|
    ensures RelAt(files, i, r).kind != OtherRel
  {
    assert SlotPlaced(files, base, i, r);
    FinalInv(files, m1, base);
    assert Before(files, |files|, 0, i, r);
    assert LinkMeaning.SlotOk(files, m1, base, Final(files, m1, base).mem, Final(files, m1, base).log, i, r);
  }

  /** A byte below the pool that no slot has is as it was before the link. */
  lemma {:induction false} NoSlotKept(files: seq<File>, m1: Memory, base: nat, a: nat, n: nat)
    requires Linked(files, m1, base) && NoSlotAt(files, a, n) && a + n <= base
    ensures |m1| == |Final(files, m1, base).mem| && a + n <= |m1|
    ensures forall x :: a <= x < a + n ==> Final(files, m1, base).mem[x] == m1[x]
  {
    FinalInv(files, m1, base);
    hide LinkInv, Final, Linked, Slot;
    forall x | a <= x < a + n
      ensures x < |m1| == |Final(files, m1, base).mem| && Final(files, m1, base).mem[x] == m1[x]
    {
      OtherBytesKept(files, m1, base, x);
    }
  }

  /** What the load says of a file with memory. */
  lemma {:induction false} LoadedFacts(m0: Memory, m1: Memory, imgs: seq<Image>, dyns: seq<Dyn>, bssEnd: nat, us: seq<UFile>,
                                       secs: seq<Section>, i: nat)
    requires Runnable(m0, imgs, dyns, bssEnd) && ListLoaded(m0, m1, imgs, bssEnd, us, secs) && i < |imgs| && ListsOf(imgs[i]).mem != []
    ensures var l, base := ListsOf(imgs[i]), BaseOf(bssEnd, imgs, 0, i);
            && base < WORD_LIMIT && RofixupOf(imgs[i]).Some? && Loaded(m0, m1, l, base, RofixupOf(imgs[i]).value)
            && RoomFor(l.mem, base, |m0|) && base + Total(l.mem) <= EndOf(bssEnd, imgs, 0, |imgs|)
            && forall j :: 0 <= j < |l.mem| ==> l.mem[j].ty == MemType
  {
    assert ImageReady(m0, imgs, bssEnd, 0, i);
    assert FileDone(m0, m1, imgs, bssEnd, 0, i, us[i], secs);
    hide ListsOf, BaseOf, EndOf, Loaded, RoomFor, FixupsReady, FixupAt, SourcesOutside, NoGaps, SectionList.AllTyped, SectionList.Count,
      SecsBefore, FilesReady, Searchable, BasesFit, Total, PlacedList;
    LayoutSound(bssEnd, imgs, 0, i);
    LoadShift.MemListTypes(imgs[i]);
  }

  lemma {:induction false} ByteKept(m0: Memory, m1: Memory, img: Image, base: Word, t: TableAt, files: seq<File>, end: nat, x: nat, o: nat)
    requires var l := ListsOf(img);
             && Loaded(m0, m1, l, base, t) && RoomFor(l.mem, base, |m0|) && base + Total(l.mem) <= end && Linked(files, m1, end)
             && x < |l.mem| && l.mem[x].ty == MemType && o < l.mem[x].size
             && NoSlotAt(files, base + SizeBefore(l.mem, x) + o, 1)
             && Uncovered(l.mem, base, FixupWords(m0, t), base + SizeBefore(l.mem, x) + o)
    ensures var a := base + SizeBefore(ListsOf(img).mem, x) + o;
            a < |Final(files, m1, end).mem| && Final(files, m1, end).mem[a] == InitByte(m0, ListsOf(img).mem[x], o)
  {
    hide *;
    var l := ListsOf(img);
    OtherBytesLoaded(m0, m1, img, base, t, x, o);
    ByteInside(l.mem, x, o);
    NoSlotKept(files, m1, end, base + SizeBefore(l.mem, x) + o, 1);
  }

  lemma {:induction false} SettledByte(m0: Memory, m1: Memory, imgs: seq<Image>, dyns: seq<Dyn>, bssEnd: nat, us: seq<UFile>,
                                       secs: seq<Section>, files: seq<File>, i: nat, x: nat, o: nat)
    requires Runnable(m0, imgs, dyns, bssEnd) && ListLoaded(m0, m1, imgs, bssEnd, us, secs)
    requires Linked(files, m1, EndOf(bssEnd, imgs, 0, |imgs|)) && i < |imgs| && x < |ListsOf(imgs[i]).mem|
    ensures RofixupOf(imgs[i]).Some? && BasesFit(imgs, bssEnd)
    ensures ByteSettled(m0, Final(files, m1, EndOf(bssEnd, imgs, 0, |imgs|)).mem, imgs, files, bssEnd, i, x, o)
  {
    hide Runnable, ListLoaded, Linked, Final, ListsOf, BaseOf, EndOf, Loaded, RoomFor, Uncovered, SizeBefore, NoSlotAt, InitByte, BasesFit,
      RofixupOf, Total, FixupWords;
    LoadedFacts(m0, m1, imgs, dyns, bssEnd, us, secs, i);
    RunnableFits(m0, imgs, dyns, bssEnd);
    var l, base, end := ListsOf(imgs[i]), BaseOf(bssEnd, imgs, 0, i), EndOf(bssEnd, imgs, 0, |imgs|);
    var a, t := base + SizeBefore(l.mem, x) + o, RofixupOf(imgs[i]).value;
    if && o < l.mem[x].size && NoSlotAt(files, a, 1) && Uncovered(l.mem, base, FixupWords(m0, t), a) {
      ByteKept(m0, m1, imgs[i], base, t, files, end, x, o);
    }
  }

  lemma {:induction false} WordKept(m0: Memory, m1: Memory, img: Image, base: Word, t: TableAt, files: seq<File>, end: nat, x: nat, k: nat)
    requires var l := ListsOf(img);
             && Loaded(m0, m1, l, base, t) && RoomFor(l.mem, base, |m0|) && base + Total(l.mem) <= end && Linked(files, m1, end)
             && x < |l.mem| && k < |FixupWords(m0, t)| && FixupIn(l, FixupWords(m0, t), k, x)
    ensures var l := ListsOf(img);
            var o := FixupWords(m0, t)[k] - l.mem[x].lma;
            var a, v := base + SizeBefore(l.mem, x) + o, InitWord(m0, l.mem[x], o);
            && 0 <= o && a + 4 <= |Final(files, m1, end).mem|
            && (NoSlotAt(files, a, 4) ==>
                  LoadWord(Final(files, m1, end).mem, a) == if v == 0 then 0 else Relocated(PlacedList(l.mem, base), x, base, v))
  {
    hide *;
    var l := ListsOf(img);
    FixupWordMeaning(m0, m1, img, base, t, k, x);
    MarkedByName(img);
    FixupPlace(l, base, FixupWords(m0, t), k, x, |m0|);
    SameSize(files, m1, end);
    var a := base + SizeBefore(l.mem, x) + (FixupWords(m0, t)[k] - l.mem[x].lma);
    if NoSlotAt(files, a, 4) {
      NoSlotKept(files, m1, end, a, 4);
      SameWord(Final(files, m1, end).mem, m1, a);
    }
  }

  lemma {:induction false} SettledFixup(m0: Memory, m1: Memory, imgs: seq<Image>, dyns: seq<Dyn>, bssEnd: nat, us: seq<UFile>,
                                        secs: seq<Section>, files: seq<File>, i: nat, x: nat, k: nat)
    requires Runnable(m0, imgs, dyns, bssEnd) && ListLoaded(m0, m1, imgs, bssEnd, us, secs)
    requires Linked(files, m1, EndOf(bssEnd, imgs, 0, |imgs|)) && i < |imgs| && x < |ListsOf(imgs[i]).mem|
    ensures RofixupOf(imgs[i]).Some? && BasesFit(imgs, bssEnd)
    ensures FixupSettled(m0, Final(files, m1, EndOf(bssEnd, imgs, 0, |imgs|)).mem, imgs, files, bssEnd, i, x, k)
  {
    hide Runnable, ListLoaded, Linked, Final, ListsOf, BaseOf, EndOf, Loaded, RoomFor, FixupAt, SizeBefore, NoSlotAt, InitWord, BasesFit,
      RofixupOf, Total, FixupWords, FixupIn, Relocated, LoadWord, PlacedList;
    LoadedFacts(m0, m1, imgs, dyns, bssEnd, us, secs, i);
    RunnableFits(m0, imgs, dyns, bssEnd);
    var l, base, t := ListsOf(imgs[i]), BaseOf(bssEnd, imgs, 0, i), RofixupOf(imgs[i]).value;
    if k < |FixupWords(m0, t)| && FixupIn(l, FixupWords(m0, t), k, x) {
      WordKept(m0, m1, imgs[i], base, t, files, EndOf(bssEnd, imgs, 0, |imgs|), x, k);
    }
  }

  lemma {:induction false} SameSize(files: seq<File>, m1: Memory, base: nat)
    requires Linked(files, m1, base)
    ensures SymIndicesOk(files) && LinkSpec.Link(files, m1, base).Done?
    ensures |Final(files, m1, base).mem| == |m1| && base <= Final(files, m1, base).pool
  {
    FinalInv(files, m1, base);
    hide SlotsDone, PoolOk, OthersKept;
  }

  lemma {:induction false} OutsideSettled(m0: Memory, m1: Memory, imgs: seq<Image>, bssEnd: nat, us: seq<UFile>, secs: seq<Section>,
                                          files: seq<File>, y: nat)
    requires ListLoaded(m0, m1, imgs, bssEnd, us, secs) && Linked(files, m1, EndOf(bssEnd, imgs, 0, |imgs|)) && y < |m0|
    requires forall i, r :: Position(files, i, r) ==> NextBase(bssEnd, 0, 0) <= Slot(files, i, r)
    requires !(NextBase(bssEnd, 0, 0) <= y < Final(files, m1, EndOf(bssEnd, imgs, 0, |imgs|)).pool)
    ensures |m1| == |m0| == |Final(files, m1, EndOf(bssEnd, imgs, 0, |imgs|)).mem|
    ensures Final(files, m1, EndOf(bssEnd, imgs, 0, |imgs|)).mem[y] == m0[y]
  {
    var end := EndOf(bssEnd, imgs, 0, |imgs|);
    assert SameOutside(m0, m1, NextBase(bssEnd, 0, 0), end - NextBase(bssEnd, 0, 0));
    SameSize(files, m1, end);
    SlotsBelow(files, m1, end);
    EndAboveStart(imgs, bssEnd);
    hide FileDone, EndOf, NextBase, Linked, Final, Slot;
    OtherBytesKept(files, m1, end, y);
  }

  lemma {:induction false} EndAboveStart(imgs: seq<Image>, bssEnd: nat)
    ensures NextBase(bssEnd, 0, 0) <= EndOf(bssEnd, imgs, 0, |imgs|)
  {
    ChainGrows(bssEnd, imgs, 0, 0, |imgs|);
  }

  lemma {:induction false} SlotsBelow(files: seq<File>, m1: Memory, base: nat)
    requires Linked(files, m1, base)
    ensures forall i, r :: Position(files, i, r) ==> Slot(files, i, r) + SlotSize(RelAt(files, i, r).kind) <= base
  {
    forall i, r | Position(files, i, r)
      ensures Slot(files, i, r) + SlotSize(RelAt(files, i, r).kind) <= base
    {
      SlotInMemory(files, m1, base, i, r);
    }
  }

  /** When the run has got as far as calling the constructors: every relocation slot holds
      what its relocation asks for, and an object that no file defines has one zeroed block
      in the pool, at the address that all its slots hold; every fixup word that no relocation covers has its
      run-time meaning, and every other byte of the files' memory is that of the image or
      zero; and nothing outside the memory of the files and the pool has changed. */
  lemma {:induction false} MemoryWhenRun(m0: Memory, m1: Memory, m2: Memory, imgs: seq<Image>, dyns: seq<Dyn>, bssEnd: nat,
                                         us: seq<UFile>, secs: seq<Section>, files: seq<File>, pool: nat, size: nat)
    requires WellBuilt(m0, imgs, dyns, bssEnd)
    requires RunOutcome(m0, m1, m2, imgs, dyns, bssEnd, us, secs, Done(()), files, pool, size)
    ensures BasesFit(imgs, bssEnd) && files == FilesAs(imgs, dyns, bssEnd) && SymIndicesOk(files)
    ensures LinkSpec.Link(files, m1, EndOf(bssEnd, imgs, 0, |imgs|)).Done?
    ensures var end := EndOf(bssEnd, imgs, 0, |imgs|);
            var log := LinkSpec.Link(files, m1, end).value.log;
            && PoolSettled(files, m1, m2, end, pool, log)
            && forall i, r :: Position(files, i, r) ==> SlotSettled(files, m1, m2, end, log, i, r)
    ensures forall i :: 0 <= i < |imgs| && ListsOf(imgs[i]).mem != [] ==> RofixupOf(imgs[i]).Some?
    ensures forall i, x: nat, o: nat :: 0 <= i < |imgs| && x < |ListsOf(imgs[i]).mem| ==> ByteSettled(m0, m2, imgs, files, bssEnd, i, x, o)
    ensures forall i, x: nat, k: nat :: 0 <= i < |imgs| && x < |ListsOf(imgs[i]).mem| ==> FixupSettled(m0, m2, imgs, files, bssEnd, i, x, k)
    ensures |m2| == |m0| && forall y :: 0 <= y < |m0| && !(NextBase(bssEnd, 0, 0) <= y < pool) ==> m2[y] == m0[y]
  {
    hide Searchable, FilesReady, ListsOf, BaseOf, EndOf, NextBase, SlotSettled, ByteSettled, FixupSettled, ListLoaded, FilesAs, OneBlock,
      RelsFit, ImageLoads, WellLinked, MemoryOk, LinkSpec.Link, RofixupOf, BasesFit, Loaded;
    var end := EndOf(bssEnd, imgs, 0, |imgs|);
    AllLoads(m0, m1, m2, imgs, dyns, bssEnd, us, secs, files, pool, size);
    BuiltLinked(m0, m1, imgs, dyns, bssEnd, us, secs, files);
    assert Linked(files, m1, end) && m2 == Final(files, m1, end).mem && pool == Final(files, m1, end).pool;
    ghost var log := LinkSpec.Link(files, m1, end).value.log;
    assert log == Final(files, m1, end).log;
    hide Linked, Final, WellBuilt, Runnable, RunOutcome, PoolSettled;
    SettledPool(files, m1, end);
    forall i, r | Position(files, i, r)
      ensures SlotSettled(files, m1, m2, end, log, i, r)
    {
      SettledSlot(files, m1, end, i, r);
    }
    forall i | 0 <= i < |imgs| && ListsOf(imgs[i]).mem != []
      ensures RofixupOf(imgs[i]).Some?
    {
      LoadedFacts(m0, m1, imgs, dyns, bssEnd, us, secs, i);
    }
    forall i, x: nat, o: nat | 0 <= i < |imgs| && x < |ListsOf(imgs[i]).mem|
      ensures ByteSettled(m0, m2, imgs, files, bssEnd, i, x, o)
    {
      SettledByte(m0, m1, imgs, dyns, bssEnd, us, secs, files, i, x, o);
    }
    forall i, x: nat, k: nat | 0 <= i < |imgs| && x < |ListsOf(imgs[i]).mem|
      ensures FixupSettled(m0, m2, imgs, files, bssEnd, i, x, k)
    {
      SettledFixup(m0, m1, imgs, dyns, bssEnd, us, secs, files, i, x, k);
    }
    SameSizes(m0, m1, imgs, bssEnd, us, secs, files);
    forall y | 0 <= y < |m0| && !(NextBase(bssEnd, 0, 0) <= y < pool)
      ensures m2[y] == m0[y]
    {
      OutsideSettled(m0, m1, imgs, bssEnd, us, secs, files, y);
    }
  }

  lemma SameSizes(m0: Memory, m1: Memory, imgs: seq<Image>, bssEnd: nat, us: seq<UFile>, secs: seq<Section>, files: seq<File>)
    requires ListLoaded(m0, m1, imgs, bssEnd, us, secs) && Linked(files, m1, EndOf(bssEnd, imgs, 0, |imgs|))
    ensures SymIndicesOk(files) && LinkSpec.Link(files, m1, EndOf(bssEnd, imgs, 0, |imgs|)).Done?
    ensures |m1| == |m0| == |Final(files, m1, EndOf(bssEnd, imgs, 0, |imgs|)).mem|
  {
    hide FileDone, Linked, Final;
    SameSize(files, m1, EndOf(bssEnd, imgs, 0, |imgs|));
  }

  /** A run that is done has loaded all files. */
  lemma AllLoads(m0: Memory, m1: Memory, m2: Memory, imgs: seq<Image>, dyns: seq<Dyn>, bssEnd: nat, us: seq<UFile>, secs: seq<Section>,
                 files: seq<File>, pool: nat, size: nat)
    requires Runnable(m0, imgs, dyns, bssEnd) && RunOutcome(m0, m1, m2, imgs, dyns, bssEnd, us, secs, Done(()), files, pool, size)
    ensures BasesFit(imgs, bssEnd) && files == FilesAs(imgs, dyns, bssEnd) && SymIndicesOk(files)
    ensures ListLoaded(m0, m1, imgs, bssEnd, us, secs)
    ensures LinkSpec.Link(files, m1, EndOf(bssEnd, imgs, 0, |imgs|)).Done?
    ensures var st := LinkSpec.Link(files, m1, EndOf(bssEnd, imgs, 0, |imgs|)).value; m2 == st.mem && pool == st.pool && size == st.size
  {
    hide ListLoaded, ImageLoads, FilesAs, EndOf, LinkSpec.Link, SymIndicesOk, BasesFit, FilesReady, Searchable;
  }

  /** What is asked of memory here depends on its size alone. */
  lemma {:induction false} SameForSize(files: seq<File>, m0: Memory, m1: Memory, base: nat)
    requires SymIndicesOk(files) && |m0| == |m1|
    ensures forall i, r :: Position(files, i, r) ==> (Served(files, m0, base, i, r) <==> Served(files, m1, base, i, r))
  {
    forall name
      ensures CodeInMemory(files, m0, name) <==> CodeInMemory(files, m1, name)
    {
      hide NearestDefiner;
    }
    hide CodeInMemory, HasNoMemory, OwnValue, PoolAt, NeedsPair, NearestDefiner, NamedBefore, FirstMention, SymIndicesOk;
  }

  /** The run gets as far as calling the constructors if and only if every file can be
      loaded and every relocation is served. */
  lemma {:induction false} RunsExactly(m0: Memory, m1: Memory, m2: Memory, imgs: seq<Image>, dyns: seq<Dyn>, bssEnd: nat,
                                       us: seq<UFile>, secs: seq<Section>, r: Outcome<()>, files: seq<File>, pool: nat, size: nat)
    requires WellBuilt(m0, imgs, dyns, bssEnd) && imgs != [] && SymIndicesOk(FilesAs(imgs, dyns, bssEnd))
    requires AllClear(FilesAs(imgs, dyns, bssEnd))
    requires RunOutcome(m0, m1, m2, imgs, dyns, bssEnd, us, secs, r, files, pool, size)
    ensures var fs, end := FilesAs(imgs, dyns, bssEnd), EndOf(bssEnd, imgs, 0, |imgs|);
            && (r == Done(()) <==>
                  && (forall i :: 0 <= i < |imgs| ==> ImageLoads(m0, imgs, bssEnd, 0, i))
                  && forall i, s :: Position(fs, i, s) ==> Served(fs, m0, end, i, s))
            && (r == Done(()) ==> pool == PoolAt(fs, end, |fs|, 0))
  {
    hide ImageLoads, ListLoaded, FilesAs, EndOf, WellLinked, MemoryOk, AllClear, Served, SymIndicesOk, PoolAt, LinkSpec.Link, BasesFit,
      FilesReady, Searchable, OneBlock, RelsFit, TablesOk, ListsOf;
    var fs, end := FilesAs(imgs, dyns, bssEnd), EndOf(bssEnd, imgs, 0, |imgs|);
    if forall i :: 0 <= i < |imgs| ==> ImageLoads(m0, imgs, bssEnd, 0, i) {
      BuiltLinked(m0, m1, imgs, dyns, bssEnd, us, secs, files);
      SameLength(m0, m1, imgs, bssEnd, us, secs);
      SameForSize(fs, m0, m1, end);
      LinkEndsExactly(fs, m1, end);
    }
  }

  lemma SameLength(m0: Memory, m1: Memory, imgs: seq<Image>, bssEnd: nat, us: seq<UFile>, secs: seq<Section>)
    requires ListLoaded(m0, m1, imgs, bssEnd, us, secs)
    ensures |m1| == |m0|
  {
    hide FileDone;
  }
}
