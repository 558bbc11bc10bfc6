/** Inputs at which the code does not do what its callers expect, one for each theorem
    whose condition is not always met. */
module Departures {
  import opened Words
  import opened Options
  import opened SymbolTable
  import opened Sections
  import opened MemLoad
  import opened MemFixups
  import opened DepLoad
  import opened ImageMove
  import opened ImageLaws
  import opened Patcher
  import opened Base64Spec
  import opened Base64Lines
  import opened LinkSpec
  import opened LinkMeaning
  import opened LinkTheorems
  import Linker
  import FreeSpace

  /** A section with the fields that matter here. */
  function Sec(name: string, shType: nat, ty: SecType, lma: Word, offset: Word, size: Word): Section {
    Section(name, shType, true, lma, offset, size, 0, 0, lma, 0, 0, ty, false, false, false)
  }

  // ----- free space -----

  /** A size above 2^31 - 8 is given the start of a region of 16 bytes. */
  lemma LargeSizeAccepted()
    ensures FreeSpace.FreeSpace([], 8, 16, 0x7fff_fffc) == Some(8)
    ensures FreeSpace.Placed([], 8, 16)
    ensures !FreeSpace.LowestFree([], 8, 16, AlignUp(0x7fff_fffc, 3), Some(8))
  {
    assert FreeSpace.Sorted([]) == [];
    assert FreeSpace.AlignedSize(0x7fff_fffc) == 0x8000_0000;
    FreeSpace.FirstFitExact([], 8, 16, 0x7fff_fffc);
  }

  // ----- base64 -----

  lemma {:induction false} ThreeFillLine(s: seq<Byte>)
    requires |s| == 3
    ensures |LineOf(s, 4)| == 4
  {
    hide LineOf, StepChars;
    LineFits(s, 4);
  }

  lemma {:induction false} NotYetFull(s: seq<Byte>)
    requires |s| <= 2
    ensures |LineOf(s, 4)| != 4
  {
    if s == [] {
      assert LineOf(s, 4) == [];
    } else {
      hide LineOf, StepChars;
      LineFits(s, 4);
    }
  }

  lemma {:induction false} NoLineBefore(s: seq<Byte>)
    requires |s| <= 3
    ensures Base64Lines.Before(s, 4) == []
    decreases |s|
  {
    if s != [] {
      NoLineBefore(s[..|s| - 1]);
      NotYetFull(s[..|s| - 1]);
    }
  }

  /** Lines of four characters: a first call with three bytes fills the line, a second
      call with one more byte drops it. */
  lemma {:induction false} LineLost(s: seq<Byte>, b: Byte)
    requires |s| == 3
    ensures Calls([[], s, s + [b]], 4, [[], []])
    ensures !IsLines(AllOut([[], []]) + [LineOf(s + [b], 4) + Tail(s + [b])], Encode(s + [b]), 4)
  {
    hide Encode, Tail, Rem, StepChars, LineOf, Base64Lines.Before, IsLines, AllOut;
    var stops, outs: seq<seq<seq<Byte>>> := [[], s, s + [b]], [[], []];
    ThreeFillLine(s);
    NotYetFull([]);
    NoLineBefore([]);
    NoLineBefore(s);
    OneByte(s, b, 4);
    assert CallDelivers(stops[0], stops[1], 4, outs[0]);
    assert CallDelivers(stops[1], stops[2], 4, outs[1]);
    assert |LineOf(stops[1], 4)| == 4;
    hide CallDelivers;
    CallsExact(stops, 4, outs);
  }

  /** The line that the final call puts out when nothing was encoded is no encoding. */
  lemma NothingIsNoLine(out: seq<Byte>, w: nat)
    requires LineLength(w) && |out| == w
    ensures !IsLines([out], Encode([]), w)
  {
    assert Flat([out]) == Flat([]) + out == out;
  }

  // ----- layout of memory -----

  /** .data of five bytes and .bss at the next doubleword. */
  function DataAndBss(): seq<Section> {
    [Sec(".data", SHT_PROGBITS, MemType, 0x100, 0x40, 5), Sec(".bss", SHT_NOBITS, MemType, 0x108, 0x45, 8)]
  }

  lemma SizesOfTwo(list: seq<Section>)
    requires |list| == 2 && list[0].ty == list[1].ty == MemType
    ensures SizeBefore(list, 0) == 0 && SizeBefore(list, 1) == list[0].size && Total(list) == list[0].size + list[1].size
    ensures GapsBefore(list, 2) == Gap(list, 1)
  {
    assert SizeBefore(list, 1) == MemSize(list[0]) && SizeBefore(list, 2) == SizeBefore(list, 1) + MemSize(list[1]);
    assert GapsBefore(list, 1) == Gap(list, 0) && GapsBefore(list, 2) == GapsBefore(list, 1) + Gap(list, 1);
  }

  /** The gap test accepts them, but link and run addresses differ by more than one
      constant. */
  lemma HoleBeforeBss()
    ensures NoGaps(DataAndBss()) && Loadable(DataAndBss(), 0x1000) && !OneShift(DataAndBss(), 0x1000)
  {
    var list := DataAndBss();
    SizesOfTwo(list);
    assert list[1].size > 0 && list[1].lma != list[0].lma + SizeBefore(list, 1);
    OneShiftExact(list, 0x1000);
  }

  /** Eight bytes, a gap of eight, eight bytes. */
  function WithGap(): seq<Section> {
    [Sec(".got", SHT_PROGBITS, MemType, 0x100, 0x40, 8), Sec(".data", SHT_PROGBITS, MemType, 0x110, 0x50, 8)]
  }

  /** The size that is reported is too small by the gap, so that the memory of the next
      file begins inside this one's. */
  lemma GapLosesMemory()
    ensures var list := WithGap();
            && !AnyRefused(list, 2) && RoomFor(list, 0x1000, 0x2000)
            && NextMembase(8, 0x1000, Wrap(Total(list) - GapsBefore(list, 2))) < 0x1000 + Total(list)
  {
    var list := WithGap();
    SizesOfTwo(list);
    assert Gap(list, 1) == 8;
    assert AlignUp(0x1008, 3) == 0x1008;
  }

  // ----- the build-time patcher -----

  function DataOnly(): seq<Section> {
    [Sec(".data", SHT_PROGBITS, MemType, 0x100, 0, 8)]
  }

  /** Two words: a link address in .data, and a number that is in no section. */
  function TwoWords(): Memory {
    [0, 1, 0, 0, 0, 9, 0, 0]
  }

  /** The same fixups are accepted in one order and not in the other. */
  lemma OrderMatters()
    ensures PatchSlotsOk(DataOnly(), [0x100, 0x104], 8) && PatchSlotsOk(DataOnly(), [0x104, 0x100], 8)
    ensures forall k :: 0 <= k < 2 ==> Accepted(DataOnly(), [0x100, 0x104], TwoWords(), 0x1000, k)
    ensures !Accepted(DataOnly(), [0x104, 0x100], TwoWords(), 0x1000, 0)
  {
    hide LmaToSec, LoadWord, DataOnly, TwoWords, PatchSlotsOk;
    DataSlots([0x100, 0x104]);
    DataSlots([0x104, 0x100]);
    InDataOnly(0x100);
    InDataOnly(0x104);
    InDataOnly(0x900);
    WordsOfTwo();
    var secs, img := DataOnly(), TwoWords();
    assert Patcher.ValueOf(secs, [0x100, 0x104], img, 0) == 0x100;
    assert Patcher.ValueOf(secs, [0x100, 0x104], img, 1) == 0x900;
    assert Patcher.ValueOf(secs, [0x104, 0x100], img, 0) == 0x900;
  }

  lemma WordsOfTwo()
    ensures |TwoWords()| == 8 && LoadWord(TwoWords(), 0) == 0x100 && LoadWord(TwoWords(), 4) == 0x900
  {
  }

  lemma DataSlots(ws: seq<Word>)
    requires ws == [0x100, 0x104] || ws == [0x104, 0x100]
    ensures PatchSlotsOk(DataOnly(), ws, 8)
  {
    InDataOnly(0x100);
    InDataOnly(0x104);
    hide LmaToSec, DataOnly;
  }

  lemma InDataOnly(v: Word)
    ensures |DataOnly()| == 1 && DataOnly()[0].name == ".data" && DataOnly()[0].lma == 0x100 && DataOnly()[0].offset == 0
    ensures LmaToSec(DataOnly(), v) == if 0x100 <= v < 0x108 then Some(0) else None
  {
    var secs := DataOnly();
    assert LmaIn(secs[0], v) <==> 0x100 <= v < 0x108;
  }

  // ----- moving an image -----

  /** An image of 64 bytes: a header of 52, .data with one fixup word and room, the fixup
      table; and a .bss of eight bytes. */
  function SmallElf(): Elf {
    var table := Sec(".rofixup", SHT_PROGBITS, FlashType, 0x100, 60, 4);
    Elf([table], [Sec(".data", SHT_PROGBITS, MemType, 0x200, 52, 8), Sec(".bss", SHT_NOBITS, MemType, 0x208, 64, 8)], Some(table))
  }

  const TABLE: seq<Word> := [0x200]

  /** That image with fixup word `v`. */
  function SmallImage(v: Word): Memory {
    seq(52, _ => 0) + [ByteOf(v, 0), ByteOf(v, 1), ByteOf(v, 2), ByteOf(v, 3), 0, 0, 0, 0, 0, 2, 0, 0]
  }

  lemma SmallWord(v: Word)
    ensures LoadWord(SmallImage(v), 52) == v
  {
    SplitJoin(v);
  }

  /** The fixup word is the one slot of the image. */
  lemma SmallSlot(k: int, o: int)
    ensures SlotAt(SmallElf(), TABLE, k, o) <==> k == 0 && o == 52
  {
    var elf := SmallElf();
    var m, f := MarkedMem(elf, 0), MarkedFlash(elf, 0);
    assert Hit(m[0], ByLma, NeedsFlashFixup, 0x200) && !Hit(f[0], ByLma, NeedsFlashFixup, 0x200);
    assert MemHome(elf, 0x200) == Some(0) && FlashHome(elf, 0x200) == None;
  }

  /** Where the fixup is: in .data, not in the table. */
  lemma SmallHomes()
    ensures MemHome(SmallElf(), 0x200) == Some(0) && FlashHome(SmallElf(), 0x200) == None
  {
    assert Hit(MarkedMem(SmallElf(), 0)[0], ByLma, NeedsFlashFixup, 0x200);
  }

  lemma SmallElfOk()
    ensures ElfOk(SmallElf(), TABLE, 64)
  {
    hide SlotAt, FlashHome, MemHome;
    forall k: int, o: int
      ensures SlotAt(SmallElf(), TABLE, k, o) <==> k == 0 && o == 52
    {
      SmallSlot(k, o);
    }
    SmallHomes();
  }

  /** What the two passes make of the image. */
  lemma SmallPassed(v: Word, base: nat, newBase: nat)
    ensures PassedOver(SmallElf(), TABLE, SmallImage(v), SmallImage(Rewritten(SmallElf(), base, newBase, v)), base, newBase)
  {
    SmallWord(v);
    SmallWord(Rewritten(SmallElf(), base, newBase, v));
    hide SlotAt, Rewritten, SmallElf, LoadWord, ByteOf;
    forall k: int, o: int
      ensures SlotAt(SmallElf(), TABLE, k, o) <==> k == 0 && o == 52
    {
      SmallSlot(k, o);
    }
    assert SlotAt(SmallElf(), TABLE, 0, 52);
    var w := Rewritten(SmallElf(), base, newBase, v);
    forall x | 0 <= x < 64 && !(52 <= x < 56)
      ensures SmallImage(w)[x] == SmallImage(v)[x]
    {
    }
  }

  /** The word 4 lies in the null window of .bss: the moved image is not the translation. */
  lemma NullWindowHit()
    ensures ElfOk(SmallElf(), TABLE, 64) && FitsAt(SmallElf(), 64, 64)
    ensures exists img1 :: PassedOver(SmallElf(), TABLE, SmallImage(4), img1, 64, 128) &&
              !MoveOf(SmallElf(), TABLE, SmallImage(4), img1, 64, 128)
  {
    hide SlotAt, Rewritten, PassedOver, MoveOf, InNullWindow, InImage, ElfOk, SmallElf, WindowsBelow, LoadWord, ByteOf;
    var elf := SmallElf();
    var img1 := SmallImage(Rewritten(elf, 64, 128, 4));
    SmallElfOk();
    SmallFits(64);
    SmallPassed(4, 64, 128);
    SmallIn(64, 4);
    SmallWord(4);
    SmallSlot(0, 52);
    assert !WindowFree(elf, TABLE, SmallImage(4));
    PassedIsMove(elf, TABLE, SmallImage(4), img1, 64, 128);
  }

  lemma SmallFits(base: nat)
    requires 64 <= base < 0x1_0000
    ensures FitsAt(SmallElf(), 64, base)
  {
  }

  /** Addresses of .data when the image is at `base`, and only these, and the table. */
  lemma SmallIn(base: nat, v: Word)
    requires base < 0x1_0000
    ensures InImage(SmallElf(), base, v) <==> base + 52 <= v < base + 64
    ensures InNullWindow(SmallElf(), v) <==> v < 8
  {
    var elf := SmallElf();
    assert elf.mem[0] in elf.mem && elf.mem[1] in elf.mem && elf.flash[0] in elf.flash;
    assert InSection(elf.mem[0], base, v) <==> base + 52 <= v < base + 60;
    assert InSection(elf.flash[0], base, v) <==> base + 60 <= v < base + 64;
    assert !HasContents(elf.mem[1]) && HasContents(elf.mem[0]) && HasContents(elf.flash[0]);
  }

  /** The word 180 is no address in the image at 64, but one in the image at 128: moving
      there and back does not restore it. */
  lemma FalseHitAtStop()
    ensures ElfOk(SmallElf(), TABLE, 64) && Places(SmallElf(), 64, 64, 128, 64)
    ensures exists img1, img2 :: PassedOver(SmallElf(), TABLE, SmallImage(180), img1, 64, 128) &&
              PassedOver(SmallElf(), TABLE, img1, img2, 128, 64) && img2 != SmallImage(180)
  {
    hide SlotAt, Rewritten, PassedOver, ElfOk, SmallElf, FitsAt, InImage, InNullWindow, LoadWord, ByteOf;
    var elf := SmallElf();
    var w := Rewritten(elf, 64, 128, 180);
    var img1, img2 := SmallImage(w), SmallImage(Rewritten(elf, 128, 64, w));
    SmallElfOk();
    SmallFits(64);
    SmallFits(128);
    SmallPassed(180, 64, 128);
    SmallPassed(w, 128, 64);
    SmallIn(64, 180);
    SmallIn(128, 180);
    SmallWord(180);
    SmallSlot(0, 52);
    assert !AllTravel(elf, TABLE, SmallImage(180), 64, 128);
    MoveThereAndBack(elf, TABLE, SmallImage(180), img1, img2, 64, 128);
  }

  /** The word 120 is left alone by the patcher and lies in the image patched for 64: to
      patch and move is not to patch for the other place. */
  lemma LinkAddressTaken()
    ensures var secs := SmallElf().flash + SmallElf().mem;
            && ElfOk(SmallElf(), TABLE, 64) && FitsAt(SmallElf(), 64, 64) && SameSections(SmallElf(), secs, TABLE)
            && PatchOf(secs, TABLE, SmallImage(120), SmallImage(120), 64) && PatchOf(secs, TABLE, SmallImage(120), SmallImage(120), 128)
            && exists y :: PassedOver(SmallElf(), TABLE, SmallImage(120), y, 64, 128) && y != SmallImage(120)
  {
    hide SlotAt, Rewritten, PassedOver, PatchOf, ElfOk, SmallElf, FitsAt, InImage, InNullWindow, LoadWord, ByteOf, SameSections,
      LmaToSec;
    var elf := SmallElf();
    var secs := elf.flash + elf.mem;
    var y := SmallImage(Rewritten(elf, 64, 128, 120));
    SmallElfOk();
    SmallFits(64);
    SmallPassed(120, 64, 128);
    SmallSections();
    SmallIn(64, 120);
    SmallWord(120);
    SmallSlot(0, 52);
    NothingRebased(64);
    NothingRebased(128);
    assert !LinkAddressesElsewhere(secs, elf, TABLE, SmallImage(120), 64);
    PatchAndMoveAgree(elf, secs, TABLE, SmallImage(120), SmallImage(120), y, SmallImage(120), 64, 128);
  }

  lemma SmallSections()
    ensures SameSections(SmallElf(), SmallElf().flash + SmallElf().mem, TABLE)
  {
    hide FlashHome, MemHome;
    SmallHomes();
  }

  lemma NothingRebased(base: nat)
    ensures PatchOf(SmallElf().flash + SmallElf().mem, TABLE, SmallImage(120), SmallImage(120), base)
    ensures LmaToSec(SmallElf().flash + SmallElf().mem, 120) == None
  {
    var elf := SmallElf();
    var secs := elf.flash + elf.mem;
    SmallSections();
    SmallElfOk();
    SmallWord(120);
    assert LmaToSec(secs, 120) == None;
    forall k: int, o: int
      ensures PatchSlotAt(secs, TABLE, k, o) <==> k == 0 && o == 52
    {
      SmallSlot(k, o);
      SameSlots(elf, secs, TABLE, 64, k, o);
    }
  }

  // ----- linking with a file that has no memory -----

  /** A symbol table with one named symbol. */
  function OneSym(ty: SymType, value: Word, shndx: HalfWord): seq<Sym> {
    [Sym("", 0, 0, NoType, 0), Sym("s", value, 4, ty, shndx)]
  }

  /** File 0 has no memory, runs at 24 and defines "s" at link address 8; file 1 has
      eight bytes of memory at 32 with one relocation for "s". */
  function TwoFiles(kind: RelKind, ty: SymType): seq<File> {
    var text := Sec(".text", SHT_PROGBITS, FlashType, 8, 0, 8).(adjVma := 24);
    var data := Sec(".data", SHT_PROGBITS, MemType, 0x40, 8, 8).(adjVma := 32, loaded := true);
    [File([text], [], [], 0, Some(HashTable([1], [0, 0])), Some(OneSym(ty, 8, 1)), None),
     File([], [data], [], 32, Some(HashTable([1], [0, 0])), Some(OneSym(ty, 0, 0)), Some([Rel(0x40, 1, kind)]))]
  }

  /** Lookup by name ends in both files. */
  lemma TwoFilesSearchable(kind: RelKind, ty: SymType)
    requires ty == ObjectSym || ty == FuncSym
    ensures Linker.Searchable(TwoFiles(kind, ty))
  {
    var files := TwoFiles(kind, ty);
    TwoFilesPlaces(kind, ty);
    OneSymHashed(ty, 8, 1);
    OneSymHashed(ty, 0, 0);
  }

  /** One bucket, with the one named symbol in its chain. */
  lemma OneSymHashed(ty: SymType, value: Word, shndx: HalfWord)
    ensures WellFormedHash(HashTable([1], [0, 0]), OneSym(ty, value, shndx)) && DistinctNames(OneSym(ty, value, shndx))
  {
    var h := HashTable([1], [0, 0]);
    assert IsWalk(h, 0, []);
    assert [1][1..] == [];
    assert IsWalk(h, 1, [1]);
    assert BucketComplete(h, OneSym(ty, value, shndx), 0);
  }

  /** Memory of 48 blank bytes, with the pool from 40 on. */
  function Blank(): Memory {
    seq(48, _ => 0)
  }

  lemma OneSymFound(ty: SymType, value: Word, shndx: HalfWord)
    ensures FindSym(OneSym(ty, value, shndx), "s") == Some(1)
  {
    assert OneSym(ty, value, shndx)[1].name == "s";
  }

  lemma TwoFilesPlaces(kind: RelKind, ty: SymType)
    ensures var files := TwoFiles(kind, ty);
            && SymIndicesOk(files) && (forall i, r :: Position(files, i, r) <==> i == 1 && r == 0)
            && Slot(files, 1, 0) == 32 && RunAddr(files[0], 8) == 24 && NameAt(files, 1, 0) == "s"
            && FindSection(files[1].mem, ByLma, AnySection, 0x40) == Some(0)
  {
    var files := TwoFiles(kind, ty);
    assert Hit(files[0].flash[0], ByLma, AnySection, 8) && Hit(files[1].mem[0], ByLma, AnySection, 0x40);
    assert FindSection(files[0].flash, ByLma, AnySection, 8) == Some(0);
    assert FindSection(files[1].mem, ByLma, AnySection, 0x40) == Some(0);
    assert FindSection(files[1].flash, ByLma, AnySection, 0x40) == None;
  }

  lemma TwoFilesLinked(kind: RelKind, ty: SymType)
    requires ty == ObjectSym || ty == FuncSym
    ensures WellLinked(TwoFiles(kind, ty), 40) && MemoryOk(Blank(), 40)
    ensures NearestDefiner(TwoFiles(kind, ty), 1, "s") == Some(0)
  {
    TwoFilesPlaces(kind, ty);
    OneSymFound(ty, 8, 1);
    OneSymFound(ty, 0, 0);
    hide Slot, FindSym, FindSection, RunAddr;
    var files := TwoFiles(kind, ty);
    assert Defines(files[0], "s") && !Defines(files[1], "s");
    assert NearestDefiner(files, 0, "s") == Some(0);
    assert SlotPlaced(files, 40, 1, 0);
  }

  /** The search finds the symbol in file 0. */
  lemma FoundInFile0(kind: RelKind, ty: SymType)
    requires (kind == Abs32 && ty == ObjectSym) || (IsFunc(kind) && ty == FuncSym)
    ensures SymIndicesOk(TwoFiles(kind, ty)) && Position(TwoFiles(kind, ty), 1, 0)
    ensures Resolve(TwoFiles(kind, ty), Blank(), 1, 0) == Done(Resolution(8, 0, 0, None))
  {
    TwoFilesPlaces(kind, ty);
    OneSymFound(ty, 8, 1);
    hide Slot, FindSym, FindSection, RunAddr, Candidate, Blank;
    var files, m := TwoFiles(kind, ty), Blank();
    assert Candidate(files[1].rels.value, 1, 0, true, kind) == None by {
      var c := Candidate(files[1].rels.value, 1, 0, true, kind);
    }
    assert SearchFile(files, m, 1, 0, 0, 1, 0, Unresolved(1)) == Done(Resolution(8, 0, 0, None));
    assert SearchBelow(files, m, 1, 0, 0, Unresolved(1)) == Done(Resolution(8, 0, 0, None));
    assert SearchFile(files, m, 1, 0, 1, 1, 0, Unresolved(1)) == Done(Resolution(8, 0, 0, None));
  }

  lemma TwoFilesEnd(kind: RelKind, ty: SymType)
    requires (kind == Abs32 && ty == ObjectSym) || (IsFunc(kind) && ty == FuncSym)
    ensures SymIndicesOk(TwoFiles(kind, ty)) && Link(TwoFiles(kind, ty), Blank(), 40).Done?
    ensures Link(TwoFiles(kind, ty), Blank(), 40) == LinkRel(TwoFiles(kind, ty), 1, 0, LinkState(Blank(), 40, 0, []))
  {
    FoundInFile0(kind, ty);
    TwoFilesPlaces(kind, ty);
    hide Slot, Resolve, RunAddr, LoadWord, StoreWord;
    var files, st := TwoFiles(kind, ty), LinkState(Blank(), 40, 0, []);
    assert StateAt(files, Blank(), 40, 0, 0) == Done(st);
    assert StateAt(files, Blank(), 40, 1, 0) == Done(st);
    assert LinkRel(files, 1, 0, st).Done?;
    assert StateAt(files, Blank(), 40, 1, 1).Done?;
    assert StateAt(files, Blank(), 40, 2, 0).Done?;
  }

  /** The slot for an object of a file without memory is not the object's run address. */
  lemma ObjectNotTranslated()
    ensures var files := TwoFiles(Abs32, ObjectSym);
            && Linker.Searchable(files) && Linked(files, Blank(), 40) && IsObject(files, "s")
            && 36 <= |Final(files, Blank(), 40).mem| && LoadWord(Final(files, Blank(), 40).mem, 32) != RunAddr(files[0], 8)
  {
    var files := TwoFiles(Abs32, ObjectSym);
    TwoFilesPlaces(Abs32, ObjectSym);
    TwoFilesLinked(Abs32, ObjectSym);
    TwoFilesEnd(Abs32, ObjectSym);
    TwoFilesSearchable(Abs32, ObjectSym);
    OneSymFound(ObjectSym, 8, 1);
    OneSymFound(ObjectSym, 0, 0);
    hide Link, WellLinked, Slot, FindSym, FindSection, RunAddr, NearestDefiner;
    assert IsObject(files, "s");
    DataSlotIsRunAddr(files, Blank(), 40, 1, 0);
  }

  /** "s" is a function without memory, and no descriptor of it is at its link address. */
  lemma NoDescriptorAtCode(kind: RelKind)
    requires IsFunc(kind)
    ensures var files := TwoFiles(kind, FuncSym);
            SymIndicesOk(files) && FunctionOk(files, Blank(), 40, "s") && !GetsDescriptor(files, Blank(), "s")
  {
    var files := TwoFiles(kind, FuncSym);
    TwoFilesPlaces(kind, FuncSym);
    TwoFilesLinked(kind, FuncSym);
    OneSymFound(FuncSym, 8, 1);
    OneSymFound(FuncSym, 0, 0);
    assert LoadWord(Blank(), 8) == 0;
    hide WellLinked, Slot, FindSym, FindSection, RunAddr, NearestDefiner, LoadWord;
    assert FunctionOk(files, Blank(), 40, "s");
  }

  /** The FUNCDESC_VALUE slot for a function of a file without memory is no descriptor
      of it. */
  lemma FunctionGetsNoDescriptor()
    ensures var files := TwoFiles(FuncDescValue, FuncSym);
            && Linker.Searchable(files) && Linked(files, Blank(), 40) && FunctionOk(files, Blank(), 40, "s")
            && !DescriptorAt(files, Final(files, Blank(), 40).mem, "s", 32)
  {
    var files := TwoFiles(FuncDescValue, FuncSym);
    TwoFilesPlaces(FuncDescValue, FuncSym);
    TwoFilesLinked(FuncDescValue, FuncSym);
    TwoFilesEnd(FuncDescValue, FuncSym);
    TwoFilesSearchable(FuncDescValue, FuncSym);
    NoDescriptorAtCode(FuncDescValue);
    hide Link, WellLinked, Slot, RunAddr, NearestDefiner, LoadWord, FunctionOk, GetsDescriptor, DescriptorAt, Linker.Searchable;
    FuncDescValuesCorrect(files, Blank(), 40, 1, 0);
  }

  lemma PointsAtCode()
    ensures var files := TwoFiles(FuncDesc, FuncSym);
            && Linked(files, Blank(), 40) && |Final(files, Blank(), 40).mem| == 48
            && LoadWord(Final(files, Blank(), 40).mem, 32) == 8
  {
    TwoFilesPlaces(FuncDesc, FuncSym);
    TwoFilesLinked(FuncDesc, FuncSym);
    TwoFilesEnd(FuncDesc, FuncSym);
    FoundInFile0(FuncDesc, FuncSym);
    LoadStored(Blank(), 32, 8);
    hide Link, WellLinked, Slot, Resolve, LoadWord, StoreWord;
  }

  /** The FUNCDESC slot for such a function points at its link address, and there is no
      descriptor of it there. */
  lemma FunctionPointsAtCode()
    ensures var files := TwoFiles(FuncDesc, FuncSym);
            && Linker.Searchable(files) && Linked(files, Blank(), 40) && FunctionOk(files, Blank(), 40, "s")
            && 36 <= |Final(files, Blank(), 40).mem| && LoadWord(Final(files, Blank(), 40).mem, 32) == 8
            && !DescriptorAt(files, Final(files, Blank(), 40).mem, "s", 8)
  {
    var files := TwoFiles(FuncDesc, FuncSym);
    TwoFilesPlaces(FuncDesc, FuncSym);
    TwoFilesLinked(FuncDesc, FuncSym);
    TwoFilesEnd(FuncDesc, FuncSym);
    TwoFilesSearchable(FuncDesc, FuncSym);
    PointsAtCode();
    NoDescriptorAtCode(FuncDesc);
    hide Link, WellLinked, Slot, RunAddr, NearestDefiner, LoadWord, FunctionOk, GetsDescriptor, DescriptorAt, Linker.Searchable;
    FuncDescsCorrect(files, Blank(), 40, 1, 0);
  }
}
