/** Whole runs of "find free space, then move": what holds after any number of them. */
module FlashRuns {
  import opened Words
  import opened Options
  import opened ImageMove
  import opened ImageLaws
  import opened ImageRuns
  import opened FsTable
  import opened FreeSpace
  import opened Crc32
  import opened Relocate
  import opened FlashStore
  import opened FlashMover

  function FreeFor(L: Layout, m: Memory, i: nat): Option<Word>
    requires i < |L.ps|
  {
    FreeSpace.FreeSpace(RangesAt(m, L.ps), L.filesBase, L.filesSize, RangeAt(m, L.ps[i]).size)
  }

  lemma PlaceIsAligned(rs: seq<Range>, filesBase: Word, filesSize: Word, size: Word)
    requires Placed(rs, filesBase, filesSize) && (forall k :: 0 <= k < |rs| ==> Aligned(rs[k])) && filesBase % 8 == 0
    requires 0 < size <= 0x7fff_fff8 && FreeSpace.FreeSpace(rs, filesBase, filesSize, size).Some?
    ensures FreeSpace.FreeSpace(rs, filesBase, filesSize, size).value % 8 == 0
  {
    hide FreeSpace.FreeSpace, Placed;
    FoundAtEdge(rs, filesBase, filesSize, size);
    var b := FreeSpace.FreeSpace(rs, filesBase, filesSize, size).value;
    if b != filesBase {
      var r :| r in rs && b == r.base + r.size;
      assert Aligned(r);
    }
  }

  lemma PlaceIsFree(rs: seq<Range>, filesBase: Word, filesSize: Word, size: Word)
    requires Placed(rs, filesBase, filesSize) && size % 8 == 0
    requires 0 < size <= 0x7fff_fff8 && FreeSpace.FreeSpace(rs, filesBase, filesSize, size).Some?
    ensures Free(rs, filesBase, filesSize, FreeSpace.FreeSpace(rs, filesBase, filesSize, size).value, size)
  {
    FirstFitExact(rs, filesBase, filesSize, size);
    AlignUpLeast(size, 3);
    hide FreeSpace.FreeSpace, Placed, AlignUp, Free;
  }

  /** The place found for a file is free and aligned, so the move does not refuse it. */
  lemma FoundIsFree(L: Layout, m: Memory, i: nat)
    requires FsInv(L, m) && i < |L.ps| && FreeFor(L, m, i).Some?
    ensures DestFree(L, m, FreeFor(L, m, i).value, RangeAt(m, L.ps[i]).size)
    ensures FreeFor(L, m, i).value % 8 == 0 && FreeFor(L, m, i).value != 0
  {
    var rs, size, b := RangesAt(m, L.ps), RangeAt(m, L.ps[i]).size, FreeFor(L, m, i).value;
    SizeInRegion(L, m, i);
    hide RangeAt, Placed, ListOk, ImageOk, EntryCrcOk, TableCrcOk, FreeSpace.FreeSpace, Shape;
    PlaceIsFree(rs, L.filesBase, L.filesSize, size);
    PlaceIsAligned(rs, L.filesBase, L.filesSize, size);
    forall k | 0 <= k < |rs|
      ensures Apart(b, size, RangeAt(m, L.ps[k]).base, RangeAt(m, L.ps[k]).size)
    {
      assert rs[k] in rs;
    }
  }

  lemma SizeSmall(rs: seq<Range>, filesBase: Word, filesSize: Word, i: nat)
    requires Placed(rs, filesBase, filesSize) && i < |rs| && Aligned(rs[i])
    ensures 0 < rs[i].size <= 0x7fff_fff8 && rs[i].size % 8 == 0
  {
    assert InRegion(rs[i], filesBase, filesSize);
  }

  lemma SizeInRegion(L: Layout, m: Memory, i: nat)
    requires FsInv(L, m) && i < |L.ps|
    ensures 0 < RangeAt(m, L.ps[i]).size <= 0x7fff_fff8 && RangeAt(m, L.ps[i]).size % 8 == 0
    ensures L.filesBase % 8 == 0 && L.filesBase > 0
  {
    hide RangeAt, ListOk, ImageOk, EntryCrcOk, TableCrcOk, Placed, Aligned, InRegion;
    SizeSmall(RangesAt(m, L.ps), L.filesBase, L.filesSize, i);
  }

  /** One step of the state machine: file `i` goes to the free space found for it. */
  ghost predicate Step(L: Layout, m: Memory, m1: Memory, i: nat) {
    && i < |L.ps| && |L.elfs| == |L.tables| == |L.ps| && FreeFor(L, m, i).Some?
    && MoveOutcome(L, m, i, FreeFor(L, m, i).value) == Done(())
    && MoveStep(L, m, m1, i, FreeFor(L, m, i).value)
  }

  lemma StepIsSound(L: Layout, m: Memory, m1: Memory, i: nat)
    requires FsInv(L, m) && Step(L, m, m1, i)
    ensures FsInv(L, m1)
  {
    FoundIsFree(L, m, i);
    hide FsInv, MoveOutcome, MoveStep, FreeFor, DestFree;
    StepKeepsInv(L, m, m1, i, FreeFor(L, m, i).value);
  }

  /** Any file moves, or a request fails. */
  ghost predicate SomeStep(L: Layout, m: Memory, m1: Memory) {
    SameStore(L, m, m1) || exists i: nat :: Step(L, m, m1, i)
  }

  ghost predicate Run(L: Layout, ms: seq<Memory>) {
    ms != [] && forall t :: 0 < t < |ms| ==> StepTo(L, ms, t)
  }

  ghost predicate StepTo(L: Layout, ms: seq<Memory>, t: int)
    requires 0 < t < |ms|
  {
    SomeStep(L, ms[t - 1], ms[t])
  }

  lemma RunStep(L: Layout, ms: seq<Memory>, t: nat)
    requires Run(L, ms) && 0 < t < |ms|
    ensures SomeStep(L, ms[t - 1], ms[t])
  {
    hide SomeStep;
    assert StepTo(L, ms, t);
  }

  lemma SomeStepIsSound(L: Layout, m: Memory, m1: Memory)
    requires FsInv(L, m) && SomeStep(L, m, m1)
    ensures FsInv(L, m1)
  {
    hide FsInv, Step, SameStore;
    if SameStore(L, m, m1) {
      SameStoreKeepsInv(L, m, m1);
    } else {
      var i: nat :| Step(L, m, m1, i);
      StepIsSound(L, m, m1, i);
    }
  }

  /** After any run the file system is sound. */
  lemma {:induction false} RunKeepsInv(L: Layout, ms: seq<Memory>, t: nat)
    requires Run(L, ms) && FsInv(L, ms[0]) && t < |ms|
    ensures FsInv(L, ms[t])
    decreases t
  {
    hide *;
    if t > 0 {
      RunKeepsInv(L, ms, t - 1);
      RunStep(L, ms, t);
      SomeStepIsSound(L, ms[t - 1], ms[t]);
    }
  }

  // ----- images over a run -----

  /** Where file `k` has been, memory by memory. */
  function PlacesOf(L: Layout, ms: seq<Memory>, k: nat): (bs: seq<Word>)
    requires k < |L.ps|
    ensures |bs| == |ms| && forall t :: 0 <= t < |bs| ==> bs[t] == RangeAt(ms[t], L.ps[k]).base
  {
    seq(|ms|, t requires 0 <= t < |ms| => RangeAt(ms[t], L.ps[k]).base)
  }

  /** The image of file `k` in `m` is its image in `m0`, translated to where it is now. */
  ghost predicate Translated(L: Layout, m0: Memory, m: Memory, k: nat)
    requires k < |L.ps| && |L.elfs| == |L.tables| == |L.ps|
  {
    MoveOf(L.elfs[k], L.tables[k], ImageOf(L, m0, k), ImageOf(L, m, k), RangeAt(m0, L.ps[k]).base, RangeAt(m, L.ps[k]).base)
  }

  /** From `m` to `m1` file `k` stays as it is, or goes to another place through the passes. */
  ghost predicate Goes(L: Layout, m: Memory, m1: Memory, k: nat)
    requires k < |L.ps| && |L.elfs| == |L.tables| == |L.ps|
  {
    var r, r1, img, img1 := RangeAt(m, L.ps[k]), RangeAt(m1, L.ps[k]), ImageOf(L, m, k), ImageOf(L, m1, k);
    if r1.base == r.base then img1 == img
    else L.elfs[k].rofixup.Some? && PassedOver(L.elfs[k], L.tables[k], img, img1, r.base, r1.base)
  }

  lemma StepGoes(L: Layout, m: Memory, m1: Memory, i: nat, k: nat)
    requires FsInv(L, m) && Step(L, m, m1, i) && k < |L.ps|
    ensures |L.elfs| == |L.tables| == |L.ps| && Goes(L, m, m1, k)
  {
    hide FreeFor, RangeAt, OnlyChanged, PassedOver, TableCrcOk, LoadWord, Bytes, AllAccounted, ListOk, ImageOk, EntryCrcOk, Shape, Placed,
      DestFree, MoveStep;
    var b := FreeFor(L, m, i).value;
    FoundIsFree(L, m, i);
    OnlyThat(L, m, m1, i, b);
    if k != i {
      OtherImagesKept(L, m, m1, i, b, k);
    } else {
      StepRanges(L, m, m1, i, b, k);
      SizeInRegion(L, m, i);
      ElsewhereNow(L, m, i, b);
      MovedImage(L, m, m1, i, b);
    }
  }

  lemma OnlyThat(L: Layout, m: Memory, m1: Memory, i: nat, b: Word)
    requires FsInv(L, m) && i < |L.ps| && DestFree(L, m, b, RangeAt(m, L.ps[i]).size) && MoveStep(L, m, m1, i, b)
    ensures Frame(L, m, m1, i, b) && FilesOk(L, m)
  {
    hide Shape, FilesOk, DestFree, OnlyChanged, ListOk, ImageOk, EntryCrcOk, TableCrcOk, PassedOver, RangeAt;
  }

  lemma ElsewhereNow(L: Layout, m: Memory, i: nat, b: Word)
    requires i < |L.ps| && DestFree(L, m, b, RangeAt(m, L.ps[i]).size) && RangeAt(m, L.ps[i]).size > 0
    ensures b != RangeAt(m, L.ps[i]).base
  {
    hide RangeAt;
    assert Apart(b, RangeAt(m, L.ps[i]).size, RangeAt(m, L.ps[i]).base, RangeAt(m, L.ps[i]).size);
  }

  lemma MovedImage(L: Layout, m: Memory, m1: Memory, i: nat, b: Word)
    requires i < |L.ps| && |L.elfs| == |L.tables| == |L.ps| && MoveStep(L, m, m1, i, b)
    requires RangeAt(m1, L.ps[i]) == Range(b, RangeAt(m, L.ps[i]).size)
    ensures PassedOver(L.elfs[i], L.tables[i], ImageOf(L, m, i), ImageOf(L, m1, i), RangeAt(m, L.ps[i]).base, b)
  {
    hide RangeAt, PassedOver, OnlyChanged, TableCrcOk, Bytes;
  }

  lemma SomeStepGoes(L: Layout, m: Memory, m1: Memory, k: nat)
    requires FsInv(L, m) && SomeStep(L, m, m1) && k < |L.ps|
    ensures |L.elfs| == |L.tables| == |L.ps| && Goes(L, m, m1, k)
  {
    InvLengths(L, m);
    hide FsInv, Step, PassedOver, Shape, LoadWord, Bytes;
    if SameStore(L, m, m1) {
      assert EntrySame(L, m, m1, k);
    } else {
      var i: nat :| Step(L, m, m1, i);
      StepGoes(L, m, m1, i, k);
    }
  }

  lemma InvLengths(L: Layout, m: Memory)
    requires FsInv(L, m)
    ensures |L.names| == |L.elfs| == |L.tables| == |L.ps|
  {
  }

  /** The image of file `k` at any time is what the passes have made of the first. */
  lemma {:induction false} RunCarries(L: Layout, ms: seq<Memory>, t: nat, k: nat)
    requires Run(L, ms) && FsInv(L, ms[0]) && t < |ms| && k < |L.ps|
    ensures |L.elfs| == |L.tables| == |L.ps|
    ensures CarriedTo(L.elfs[k], L.tables[k], ImageOf(L, ms[0], k), ImageOf(L, ms[t], k), PlacesOf(L, ms, k), t)
    ensures L.elfs[k].rofixup.None? ==> Unmoved(PlacesOf(L, ms, k), t)
    decreases t
  {
    hide FsInv, Run, SomeStep, CarriedTo, PassedOver, RangeAt, ImageOf;
    InvLengths(L, ms[0]);
    if t == 0 {
      CarriedFirst(L.elfs[k], L.tables[k], ImageOf(L, ms[0], k), PlacesOf(L, ms, k));
    } else {
      RunCarries(L, ms, t - 1, k);
      RunKeepsInv(L, ms, t - 1);
      RunStep(L, ms, t);
      SomeStepGoes(L, ms[t - 1], ms[t], k);
      CarriedOn(L.elfs[k], L.tables[k], ImageOf(L, ms[0], k), ImageOf(L, ms[t - 1], k), ImageOf(L, ms[t], k), PlacesOf(L, ms, k), t);
    }
  }

  lemma ImageFacts(L: Layout, m: Memory, i: nat)
    requires FsInv(L, m) && i < |L.ps| && |L.elfs| == |L.tables| == |L.ps|
    ensures var r := RangeAt(m, L.ps[i]);
            && |ImageOf(L, m, i)| == r.size && 0 < L.filesBase <= r.base && r.base + r.size <= L.filesBase + L.filesSize < WORD_LIMIT
            && (L.elfs[i].rofixup.Some? ==> ElfOk(L.elfs[i], L.tables[i], r.size))
  {
    InTheRegion(L, m, i);
    assert ImageOk(L, m, i);
  }

  lemma {:induction false} PlaceFits(L: Layout, ms: seq<Memory>, k: nat, t: nat)
    requires Run(L, ms) && FsInv(L, ms[0]) && t < |ms| && k < |L.ps| && |L.elfs| == |L.tables| == |L.ps|
    requires WindowsBelow(L.elfs[k], L.filesBase) && L.elfs[k].rofixup.Some?
    ensures var elf, b, size := L.elfs[k], RangeAt(ms[t], L.ps[k]).base, |ImageOf(L, ms[0], k)|;
            && FitsAt(elf, size, b) && L.filesBase <= b && b + size <= L.filesBase + L.filesSize
            && Inside(elf.flash, size) && Inside(elf.mem, size)
  {
    hide FsInv, Run, CarriedTo, RangeAt, ImageOf, SlotAt, PlacesOf;
    RunKeepsInv(L, ms, t);
    ImageFacts(L, ms[0], k);
    ImageFacts(L, ms[t], k);
    RunCarries(L, ms, t, k);
    SameLength(L.elfs[k], L.tables[k], ImageOf(L, ms[0], k), ImageOf(L, ms[t], k), PlacesOf(L, ms, k), t);
  }

  ghost predicate AllInRegion(L: Layout, size: nat, bs: seq<Word>) {
    forall s :: 0 <= s < |bs| ==> L.filesBase <= bs[s] && bs[s] + size <= L.filesBase + L.filesSize
  }

  /** The image fits wherever it has been. */
  lemma {:induction false} RunFits(L: Layout, ms: seq<Memory>, k: nat)
    requires Run(L, ms) && FsInv(L, ms[0]) && k < |L.ps| && |L.elfs| == |L.tables| == |L.ps|
    requires WindowsBelow(L.elfs[k], L.filesBase) && L.elfs[k].rofixup.Some?
    ensures AllFit(L.elfs[k], |ImageOf(L, ms[0], k)|, PlacesOf(L, ms, k))
    ensures AllInRegion(L, |ImageOf(L, ms[0], k)|, PlacesOf(L, ms, k))
  {
    hide *;
    NotNothing(L, ms);
    PlaceFits(L, ms, k, 0);
    var elf, bs, size := L.elfs[k], PlacesOf(L, ms, k), |ImageOf(L, ms[0], k)|;
    forall t | 0 <= t < |bs|
      ensures FitsAt(elf, size, bs[t]) && L.filesBase <= bs[t] && bs[t] + size <= L.filesBase + L.filesSize
    {
      PlaceFits(L, ms, k, t);
    }
    AllFitIf(L, elf, size, bs);
  }

  lemma NotNothing(L: Layout, ms: seq<Memory>)
    requires Run(L, ms)
    ensures ms != []
  {
  }

  lemma AllFitIf(L: Layout, elf: Elf, size: nat, bs: seq<Word>)
    requires Inside(elf.flash, size) && Inside(elf.mem, size)
    requires forall t :: 0 <= t < |bs| ==> FitsAt(elf, size, bs[t]) && L.filesBase <= bs[t] && bs[t] + size <= L.filesBase + L.filesSize
    ensures AllFit(elf, size, bs) && AllInRegion(L, size, bs)
  {
    hide Inside, FitsAt;
  }

  lemma SameLength(elf: Elf, ws: seq<Word>, img0: Memory, img: Memory, bs: seq<Word>, t: nat)
    requires t < |bs| && CarriedTo(elf, ws, img0, img, bs, t)
    ensures |img| == |img0|
  {
  }

  /** Whatever the order of moves, a file is its first image translated to where it is now,
      just if each of its fixup words comes through: no word in a null window unless the file
      has stayed in place, and no other word that was first taken for an address in the image
      at a place that is neither the first nor the present one. */
  lemma {:induction false} RunTranslatesExactly(L: Layout, ms: seq<Memory>, t: nat, k: nat)
    requires Run(L, ms) && FsInv(L, ms[0]) && t < |ms| && k < |L.ps| && |L.elfs| == |L.tables| == |L.ps|
    requires WindowsBelow(L.elfs[k], L.filesBase)
    ensures Translated(L, ms[0], ms[t], k) <==>
              AllComeThrough(L.elfs[k], L.tables[k], ImageOf(L, ms[0], k), PlacesOf(L, ms, k), t)
  {
    hide FsInv, Run, CarriedTo, RangeAt, ImageOf, AllFit, Unmoved, AllComeThrough, MoveOf, WindowsBelow;
    RunCarries(L, ms, t, k);
    if L.elfs[k].rofixup.Some? {
      RunFits(L, ms, k);
    }
    CarriedExact(L.elfs[k], L.tables[k], ImageOf(L, ms[0], k), ImageOf(L, ms[t], k), PlacesOf(L, ms, k), t);
  }

  /** File `k` in `m0`: its fixup words are 0, addresses in its own image, or link
      addresses that are neither in the files region nor in a null window. */
  ghost predicate OriginOk(L: Layout, m0: Memory, k: nat)
    requires k < |L.ps| && |L.elfs| == |L.tables| == |L.ps|
  {
    && WindowsBelow(L.elfs[k], L.filesBase)
    && forall j, o :: SlotAt(L.elfs[k], L.tables[k], j, o) && 0 <= o && o + 4 <= |ImageOf(L, m0, k)| ==>
         WordFine(L, L.elfs[k], RangeAt(m0, L.ps[k]).base, LoadWord(ImageOf(L, m0, k), o))
  }

  predicate WordFine(L: Layout, elf: Elf, base: Word, v: Word) {
    v == 0 || InImage(elf, base, v) || (!(L.filesBase <= v < L.filesBase + L.filesSize) && !InNullWindow(elf, v))
  }

  lemma ImageBounds(elf: Elf, size: nat, base: nat, v: Word)
    requires Inside(elf.flash, size) && Inside(elf.mem, size) && InImage(elf, base, v)
    ensures base <= v < base + size
  {
  }

  /** A fine word comes through every run in the region. */
  lemma {:induction false} FineWord(L: Layout, elf: Elf, size: nat, bs: seq<Word>, v: Word, t: nat)
    requires t < |bs| && WordFine(L, elf, bs[0], v) && AllFit(elf, size, bs)
    requires AllInRegion(L, size, bs)
    ensures ComesThrough(elf, bs, v, t)
  {
    assert FitsAt(elf, size, bs[0]);
    hide InImage, Inside, InNullWindow, WindowsBelow;
    if v != 0 {
      if InImage(elf, bs[0], v) {
        ImageBounds(elf, size, bs[0], v);
        NotInWindow(elf, bs[0], v);
      } else {
        forall s | 0 <= s <= t
          ensures !InImage(elf, bs[s], v)
        {
          if InImage(elf, bs[s], v) {
            ImageBounds(elf, size, bs[s], v);
          }
        }
      }
    }
  }

  /** So a file whose fixup words are fine is its first image translated to where it is
      now, after every run. */
  lemma {:induction false} RunTranslates(L: Layout, ms: seq<Memory>, t: nat, k: nat)
    requires Run(L, ms) && FsInv(L, ms[0]) && t < |ms| && k < |L.ps| && OriginOk(L, ms[0], k)
    ensures Translated(L, ms[0], ms[t], k)
  {
    InvLengths(L, ms[0]);
    hide FsInv, Run, RangeAt, ImageOf, AllFit, Unmoved, Translated, WindowsBelow, WordFine, SlotAt, AllComeThrough, CarriedTo, LoadWord,
      AllInRegion;
    RunTranslatesExactly(L, ms, t, k);
    if L.elfs[k].rofixup.Some? {
      RunFits(L, ms, k);
    } else {
      RunCarries(L, ms, t, k);
    }
    FineComeThrough(L, L.elfs[k], L.tables[k], ImageOf(L, ms[0], k), PlacesOf(L, ms, k), t);
  }

  lemma {:induction false} FineComeThrough(L: Layout, elf: Elf, ws: seq<Word>, img: Memory, bs: seq<Word>, t: nat)
    requires t < |bs|
    requires forall j, o :: SlotAt(elf, ws, j, o) && 0 <= o && o + 4 <= |img| ==> WordFine(L, elf, bs[0], LoadWord(img, o))
    requires Unmoved(bs, t) || (AllFit(elf, |img|, bs) && AllInRegion(L, |img|, bs))
    ensures AllComeThrough(elf, ws, img, bs, t)
  {
    hide AllFit, AllInRegion, Unmoved, WordFine, SlotAt, ComesThrough, LoadWord;
    forall j, o | SlotAt(elf, ws, j, o) && 0 <= o && o + 4 <= |img|
      ensures ComesThrough(elf, bs, LoadWord(img, o), t)
    {
      if Unmoved(bs, t) {
        UnmovedComesThrough(elf, bs, LoadWord(img, o), t);
      } else {
        FineWord(L, elf, |img|, bs, LoadWord(img, o), t);
      }
    }
  }

  /** The bytes of a file depend only on where it is, not on how it came there; back
      at its first place it has its first image again. */
  lemma RunForgets(L: Layout, ms: seq<Memory>, s: nat, t: nat, k: nat)
    requires Run(L, ms) && FsInv(L, ms[0]) && s < |ms| && t < |ms| && k < |L.ps| && OriginOk(L, ms[0], k)
    requires L.elfs[k].rofixup.Some? && RangeAt(ms[s], L.ps[k]).base == RangeAt(ms[t], L.ps[k]).base
    ensures ImageOf(L, ms[s], k) == ImageOf(L, ms[t], k)
  {
    RunTranslates(L, ms, s, k);
    RunTranslates(L, ms, t, k);
    InTheRegion(L, ms[0], k);
    assert ImageOk(L, ms[0], k);
    MoveUnique(L.elfs[k], L.tables[k], ImageOf(L, ms[0], k), ImageOf(L, ms[s], k), ImageOf(L, ms[t], k),
               RangeAt(ms[0], L.ps[k]).base, RangeAt(ms[s], L.ps[k]).base);
  }

  // ----- why the entry CRC is written first -----

  /** The table CRC is written, then the entry CRC `c`: the wrong order. */
  function Swapped(L: Layout, m: Memory, p: nat, c: Word): Memory
    requires L.crcAddr + 4 <= |m| && p + NAME <= |m|
  {
    StoreWord(StoreWord(m, L.crcAddr, CrcAt(m, L.tableBase, L.tableSize)), p + CRC, c)
  }

  /** In the wrong order the table CRC verifies just when the entry CRC happened not
      to change. */
  lemma TableCrcLast(L: Layout, m: Memory, i: nat, c: Word)
    requires Shape(L, |m|) && i < |L.ps|
    ensures L.ps[i] + NAME <= |m|
    ensures TableCrcOk(L, Swapped(L, m, L.ps[i], c)) <==> c == LoadWord(m, L.ps[i] + CRC)
  {
    hide Shape, StoreWord, CrcAt, LoadWord, Apart;
    CrcInTable(L, |m|, i);
    SwappedFails(m, L.crcAddr, L.ps[i] + CRC, L.tableBase, L.tableSize, c);
  }

  lemma CrcInTable(L: Layout, len: nat, i: nat)
    requires Shape(L, len) && i < |L.ps|
    ensures L.tableBase <= L.ps[i] && L.ps[i] + NAME <= L.tableBase + L.tableSize <= len && L.crcAddr + 4 <= len
    ensures Apart(L.crcAddr, 4, L.tableBase, L.tableSize)
  {
    assert L.ps[i] + EntryLen(L, i) <= L.tableBase + L.tableSize;
  }

  lemma SwappedFails(m: Memory, at: nat, p: nat, a: nat, n: nat, c: Word)
    requires a <= p && p + 4 <= a + n <= |m| && at + 4 <= |m| && Apart(at, 4, a, n)
    ensures var m2 := StoreWord(StoreWord(m, at, CrcAt(m, a, n)), p, c);
            LoadWord(m2, at) == CrcAt(m2, a, n) <==> c == LoadWord(m, p)
  {
    var d := CrcAt(m, a, n);
    var m1 := StoreWord(m, at, d);
    assert Apart(at, 4, p, 4) && Apart(p, 4, at, 4);
    hide *;
    LoadStored(m, at, d);
    BytesKept(m, at, d, a, n);
    WordKept(m, at, d, p);
    WordKept(m1, p, c, at);
    WordChangeShows(m1, c, p, a, n);
  }

  lemma WordChangeShows(m: Memory, w: Word, a: nat, c: nat, n: nat)
    requires c <= a && a + 4 <= c + n <= |m|
    ensures CrcAt(StoreWord(m, a, w), c, n) == CrcAt(m, c, n) <==> LoadWord(m, a) == w
  {
    if LoadWord(m, a) == w {
      StoreLoaded(m, a);
    } else {
      var m1 := StoreWord(m, a, w);
      LoadStored(m, a, w);
      StoreElsewhere(m, a, w);
      hide CrcAt, StoreWord;
      ChangeShows(m, m1, c, n, a - c, 4);
    }
  }

  lemma DifferentAsNumbers(a: bv32, b: bv32)
    requires a != b
    ensures a as int != b as int
  {
    assert (a as int) as bv32 == a && (b as int) as bv32 == b;
  }

  /** A change within four consecutive bytes changes the CRC. */
  lemma ChangeShows(m: Memory, m1: Memory, c: nat, n: nat, k: nat, len: nat)
    requires |m1| == |m| && c + n <= |m| && k + len <= n && len <= 4
    requires forall x :: c <= x < c + n && !(c + k <= x < c + k + len) ==> m1[x] == m[x]
    requires exists x :: c + k <= x < c + k + len && m1[x] != m[x]
    ensures CrcAt(m1, c, n) != CrcAt(m, c, n)
  {
    var s, t := Bytes(m, c, n), Bytes(m1, c, n);
    assert s != t by {
      var x :| c + k <= x < c + k + len && m1[x] != m[x];
      assert s[x - c] == m[x] && t[x - c] == m1[x];
    }
    assert s[..k] == t[..k] && s[k + len..] == t[k + len..];
    hide Crc, Bytes;
    FourByteChangeDetected(s, t, k, len, UTIL_CRC32_INIT);
    DifferentAsNumbers(Crc(s, UTIL_CRC32_INIT), Crc(t, UTIL_CRC32_INIT));
  }

  /** A file that is damaged within four consecutive bytes never passes
      `uld_crc_verify_fse`. */
  lemma DamageFailsVerify(L: Layout, m: Memory, m1: Memory, i: nat, k: nat, len: nat)
    requires FsInv(L, m) && i < |L.ps| && |m1| == |m| && len <= 4 && k + len <= RangeAt(m, L.ps[i]).size
    requires var a := RangeAt(m, L.ps[i]).base + k;
             && (forall x :: 0 <= x < |m| && !(a <= x < a + len) ==> m1[x] == m[x])
             && exists x :: a <= x < a + len && x < |m| && m1[x] != m[x]
    ensures !EntryCrcOk(m1, L.ps[i])
  {
    var r := RangeAt(m, L.ps[i]);
    InTheRegion(L, m, i);
    EntryUntouched(L, m, m1, i);
    assert EntryCrcOk(m, L.ps[i]);
    hide FsInv, RangeAt, CrcAt, LoadWord;
    ChangeShows(m, m1, r.base, r.size, k, len);
  }

  // ----- the method -----

  /** `uld_main` moving a file: search, then move.  Whatever comes of it, no file is
      lost unless the move traps, and it traps only on an unaccounted fixup. */
  method MoveFile(mem: array<Byte>, fse: nat, elf: Elf, head: nat, tableBase: nat, tableSize: nat, crcAddr: nat,
                  filesBase: Word, filesSize: Word, ghost L: Layout, ghost i: nat)
    returns (r: Outcome<()>)
    requires FsInv(L, mem[..]) && i < |L.ps| && fse == L.ps[i] && elf == L.elfs[i] && head == L.head
    requires tableBase == L.tableBase && tableSize == L.tableSize && crcAddr == L.crcAddr
    requires filesBase == L.filesBase && filesSize == L.filesSize
    modifies mem
    ensures r.Done? ==> Step(L, old(mem[..]), mem[..], i)
    ensures r.Failed? ==> SameStore(L, old(mem[..]), mem[..])
    ensures !r.Trapped? ==> FsInv(L, mem[..])
    ensures r.Trapped? ==> !AllAccounted(elf, L.tables[i], ImageOf(L, old(mem[..]), i), RangeAt(old(mem[..]), fse).base)
    ensures FreeFor(L, old(mem[..]), i).None? ==> r == Failed(-1)
  {
    hide *;
    ghost var m := mem[..];
    EntryOf(L, m, i);
    var size := GetWord(mem, fse + SIZE);
    var dest := FindFreeSpace(mem, head, filesBase, filesSize, size, L.ps);
    FreeForIs(L, m, i);
    if dest.Some? {
      FoundIsFree(L, m, i);
      FreeIsOk(L, m, i, dest.value);
    } else {
      NullFails(L, m, i);
    }
    r := MoveFse(mem, fse, if dest.Some? then dest.value else 0, elf, tableBase, tableSize, crcAddr, L, i);
    AfterMove(L, m, mem[..], i, r);
  }

  lemma EntryOf(L: Layout, m: Memory, i: nat)
    requires FsInv(L, m) && i < |L.ps|
    ensures 0 <= SIZE && L.ps[i] + SIZE + 4 <= |m| && IsList(m, L.head, L.ps) && |L.elfs| == |L.tables| == |L.ps|
    ensures RangeAt(m, L.ps[i]).size == LoadWord(m, L.ps[i] + SIZE)
  {
    hide ImageOk, EntryCrcOk, TableCrcOk, FilesOk, LoadWord;
    EntryRead(L, m, i);
  }

  lemma FreeForIs(L: Layout, m: Memory, i: nat)
    requires i < |L.ps|
    ensures FreeFor(L, m, i) == FreeSpace.FreeSpace(RangesAt(m, L.ps), L.filesBase, L.filesSize, RangeAt(m, L.ps[i]).size)
  {
  }

  lemma NullFails(L: Layout, m: Memory, i: nat)
    requires i < |L.ps| && |L.elfs| == |L.tables| == |L.ps|
    ensures MoveOutcome(L, m, i, 0) == Failed(-1)
  {
  }

  lemma FreeIsOk(L: Layout, m: Memory, i: nat, b: Word)
    requires i < |L.ps| && DestFree(L, m, b, RangeAt(m, L.ps[i]).size)
    ensures DestOk(L, m, i, b)
  {
  }

  lemma AfterMove(L: Layout, m: Memory, m1: Memory, i: nat, r: Outcome<()>)
    requires FsInv(L, m) && i < |L.ps| && |L.elfs| == |L.tables| == |L.ps|
    requires r == match FreeFor(L, m, i) case Some(b) => MoveOutcome(L, m, i, b) case None => Failed(-1)
    requires r.Done? ==> FreeFor(L, m, i).Some? && MoveStep(L, m, m1, i, FreeFor(L, m, i).value)
    requires r.Failed? ==> SameStore(L, m, m1)
    ensures r.Done? ==> Step(L, m, m1, i)
    ensures !r.Trapped? ==> FsInv(L, m1)
    ensures r.Trapped? ==> !AllAccounted(L.elfs[i], L.tables[i], ImageOf(L, m, i), RangeAt(m, L.ps[i]).base)
  {
    hide FsInv, MoveStep, SameStore, AllAccounted, RangeAt, ImageOf, FreeFor, DestFree;
    if r.Done? {
      StepIsSound(L, m, m1, i);
    } else if r.Failed? {
      SameStoreKeepsInv(L, m, m1);
    } else {
      FoundIsFree(L, m, i);
    }
  }
}
