/** `uld_reloc_move_fse`, and the move of a file into free space as `uld_main` does it
    (src/uld_reloc.c, src/uld_sal.c, src/uld.c). */
module FlashMover {
  import opened Words
  import opened ImageMove
  import opened FsTable
  import opened FreeSpace
  import opened Crc32
  import opened Relocate
  import opened FlashStore

  /** `cpu_flash_write(to, from, n)` with unlocked flash. */
  method CopyBytes(mem: array<Byte>, to: nat, from: nat, n: nat)
    requires to + n <= mem.Length && from + n <= mem.Length
    modifies mem
    ensures ImageAt(mem[..], to, Bytes(old(mem[..]), from, n)) && SameOutside(old(mem[..]), mem[..], to, n)
  {
    ghost var img := mem[from..from + n];
    forall x | to <= x < to + n {
      mem[x] := mem[from + (x - to)];
    }
    forall k | 0 <= k < n
      ensures mem[to + k] == img[k]
    {
      assert img[k] == img[to + k - to];
    }
  }

  /** The CRC of `[a, a + n)` is written to `at`. */
  method UpdateCrc(mem: array<Byte>, a: nat, n: nat, at: nat)
    requires a + n <= mem.Length && at + 4 <= mem.Length
    modifies mem
    ensures mem[..] == StoreWord(old(mem[..]), at, CrcAt(old(mem[..]), a, n))
  {
    var c := ComputeCrc(mem[a..a + n], UTIL_CRC32_INIT);
    assert mem[a..a + n] == mem[..][a..a + n];
    PutWord(mem, at, c as int);
  }

  /** `uld_crc_update_fse`: base address and size are read from the entry. */
  method UpdateFseCrc(mem: array<Byte>, fse: nat)
    requires fse + NAME < mem.Length
    requires var r := RangeAt(mem[..], fse); r.base + r.size <= mem.Length
    modifies mem
    ensures var r := RangeAt(old(mem[..]), fse);
            mem[..] == StoreWord(old(mem[..]), fse + CRC, CrcAt(old(mem[..]), r.base, r.size))
  {
    var base := GetWord(mem, fse + BASE);
    var size := GetWord(mem, fse + SIZE);
    UpdateCrc(mem, base, size, fse + CRC);
  }

  // ----- the last three writes -----

  /** What the last three writes make of `m2`: entry base, entry CRC, table CRC. */
  function Finished(L: Layout, p: nat, b: Word, size: nat, m2: Memory): (m: Memory)
    requires p + NAME <= |m2| && L.crcAddr + 4 <= |m2|
    ensures |m| == |m2|
  {
    var m3 := StoreWord(m2, p + BASE, b);
    var m4 := StoreWord(m3, p + CRC, CrcAt(m3, b, size));
    StoreWord(m4, L.crcAddr, CrcAt(m4, L.tableBase, L.tableSize))
  }

  /** The three writes meet neither one another nor the image. */
  predicate WritesApart(L: Layout, p: nat, b: Word, size: nat, len: nat) {
    && p + NAME <= len && L.crcAddr + 4 <= len && L.tableBase + L.tableSize <= len && b + size <= len
    && Apart(p, NAME, L.crcAddr, 4) && Apart(p, NAME, b, size) && Apart(L.crcAddr, 4, b, size)
    && Apart(L.crcAddr, 4, L.tableBase, L.tableSize)
  }

  lemma WordKept(m: Memory, a: nat, w: Word, c: nat)
    requires a + 4 <= |m| && c + 4 <= |m| && Apart(a, 4, c, 4)
    ensures LoadWord(StoreWord(m, a, w), c) == LoadWord(m, c)
  {
    StoreElsewhere(m, a, w);
    LoadSame(m, StoreWord(m, a, w), c);
  }

  lemma BytesKept(m: Memory, a: nat, w: Word, c: nat, n: nat)
    requires a + 4 <= |m| && c + n <= |m| && Apart(a, 4, c, n)
    ensures Bytes(StoreWord(m, a, w), c, n) == Bytes(m, c, n)
    ensures CrcAt(StoreWord(m, a, w), c, n) == CrcAt(m, c, n)
  {
    StoreElsewhere(m, a, w);
    SameBytesSameCrc(m, StoreWord(m, a, w), c, n);
  }

  lemma FinishedWords(L: Layout, p: nat, b: Word, size: nat, m2: Memory)
    requires WritesApart(L, p, b, size, |m2|)
    ensures var m := Finished(L, p, b, size, m2);
            && LoadWord(m, p + BASE) == b && LoadWord(m, p + CRC) == CrcAt(m, b, size) && TableCrcOk(L, m)
            && Bytes(m, b, size) == Bytes(m2, b, size)
  {
    hide LoadWord, StoreWord, CrcAt, Bytes;
    var m3 := StoreWord(m2, p + BASE, b);
    var m4 := StoreWord(m3, p + CRC, CrcAt(m3, b, size));
    var c := CrcAt(m4, L.tableBase, L.tableSize);
    LoadStored(m2, p + BASE, b);
    BytesKept(m2, p + BASE, b, b, size);
    LoadStored(m3, p + CRC, CrcAt(m3, b, size));
    WordKept(m3, p + CRC, CrcAt(m3, b, size), p + BASE);
    BytesKept(m3, p + CRC, CrcAt(m3, b, size), b, size);
    LoadStored(m4, L.crcAddr, c);
    WordKept(m4, L.crcAddr, c, p + BASE);
    WordKept(m4, L.crcAddr, c, p + CRC);
    BytesKept(m4, L.crcAddr, c, b, size);
    BytesKept(m4, L.crcAddr, c, L.tableBase, L.tableSize);
  }

  lemma FinishedElsewhere(L: Layout, p: nat, b: Word, size: nat, m: Memory, m2: Memory)
    requires p + NAME <= |m2| && L.crcAddr + 4 <= |m2| && SameOutside(m, m2, b, size)
    ensures OnlyChanged(L, m, Finished(L, p, b, size, m2), p, b, size)
  {
    var m3 := StoreWord(m2, p + BASE, b);
    var m4 := StoreWord(m3, p + CRC, CrcAt(m3, b, size));
    hide CrcAt;
    StoreElsewhere(m2, p + BASE, b);
    StoreElsewhere(m3, p + CRC, CrcAt(m3, b, size));
    StoreElsewhere(m4, L.crcAddr, CrcAt(m4, L.tableBase, L.tableSize));
    hide StoreWord;
  }

  // ----- the move -----

  /** The simple check for a destination that overlaps the file itself. */
  predicate OverlapsItself(newBase: Word, base: Word, size: Word) {
    var newEnd, end := Wrap(newBase + size - 1), Wrap(base + size - 1);
    base <= newBase <= end || base <= newEnd <= end
  }

  /** What the caller of the move promises of a destination that is not NULL: it is
      in the files region and overlaps none of the other files. */
  ghost predicate DestOk(L: Layout, m: Memory, i: nat, b: Word)
    requires i < |L.ps|
  {
    var size := RangeAt(m, L.ps[i]).size;
    && L.filesBase <= b && b + size <= L.filesBase + L.filesSize
    && forall k :: 0 <= k < |L.ps| && k != i ==> Apart(b, size, RangeAt(m, L.ps[k]).base, RangeAt(m, L.ps[k]).size)
  }

  lemma OverlapExact(b: Word, base: Word, size: Word)
    requires 0 < size && b + size < WORD_LIMIT && base + size < WORD_LIMIT
    ensures OverlapsItself(b, base, size) <==> !Apart(b, size, base, size)
  {
  }

  lemma DestFreeExact(L: Layout, m: Memory, i: nat, b: Word)
    requires i < |L.ps| && DestOk(L, m, i, b)
    ensures var r := RangeAt(m, L.ps[i]); DestFree(L, m, b, r.size) <==> Apart(b, r.size, r.base, r.size)
  {
    hide RangeAt, Apart;
  }

  lemma WritesAreApart(L: Layout, len: nat, i: nat, b: Word, size: nat)
    requires Shape(L, len) && i < |L.ps| && L.filesBase <= b && b + size <= L.filesBase + L.filesSize
    ensures WritesApart(L, L.ps[i], b, size, len)
  {
    assert L.ps[i] + EntryLen(L, i) <= L.tableBase + L.tableSize;
  }

  lemma OverlapCheck(L: Layout, m: Memory, i: nat, b: Word)
    requires FsInv(L, m) && i < |L.ps| && DestOk(L, m, i, b)
    ensures var r := RangeAt(m, L.ps[i]);
            && r.base + r.size <= |m| && b + r.size <= |m| && b + r.size < WORD_LIMIT
            && (OverlapsItself(b, r.base, r.size) <==> !DestFree(L, m, b, r.size))
            && WritesApart(L, L.ps[i], b, r.size, |m|)
            && Shape(L, |m|) && |L.elfs| == |L.tables| == |L.ps|
  {
    InTheRegion(L, m, i);
    assert L.filesBase + L.filesSize <= |m| && L.filesBase + L.filesSize < WORD_LIMIT;
    hide RangeAt, ListOk, FilesOk, ImageOk, EntryCrcOk, TableCrcOk, Shape, WritesApart, DestFree, OverlapsItself, Apart;
    var r := RangeAt(m, L.ps[i]);
    OverlapExact(b, r.base, r.size);
    DestFreeExact(L, m, i, b);
    WritesAreApart(L, |m|, i, b, r.size);
  }

  lemma FailedKeepsStore(L: Layout, m: Memory, m1: Memory, b: nat, size: nat)
    requires FsInv(L, m) && DestFree(L, m, b, size) && SameOutside(m, m1, b, size)
    ensures SameStore(L, m, m1)
  {
    FreeSpaceIsFree(L, m, m1, b, size);
  }

  lemma NothingWritten(L: Layout, m: Memory)
    requires FsInv(L, m)
    ensures SameStore(L, m, m)
  {
    forall k | 0 <= k < |L.ps|
      ensures EntrySame(L, m, m, k)
    {
      EntryUntouched(L, m, m, k);
    }
  }

  lemma SourceImage(L: Layout, m: Memory, i: nat)
    requires FsInv(L, m) && i < |L.ps|
    ensures RangeAt(m, L.ps[i]).base + RangeAt(m, L.ps[i]).size < WORD_LIMIT
    ensures L.elfs[i].rofixup.Some? ==>
              ElfOk(L.elfs[i], L.tables[i], RangeAt(m, L.ps[i]).size) && HoldsTable(ImageOf(L, m, i), L.elfs[i], L.tables[i])
  {
    assert ImageOk(L, m, i);
    InTheRegion(L, m, i);
  }

  lemma EntryRead(L: Layout, m: Memory, i: nat)
    requires Shape(L, |m|) && i < |L.ps|
    ensures L.ps[i] + NAME < |m| && L.tableBase + L.tableSize <= |m| && L.crcAddr + 4 <= |m|
    ensures RangeAt(m, L.ps[i]) == Range(LoadWord(m, L.ps[i] + BASE), LoadWord(m, L.ps[i] + SIZE))
  {
    assert L.ps[i] + EntryLen(L, i) <= L.tableBase + L.tableSize;
  }

  /** The entry that `uld_crc_update_fse` reads. */
  lemma BeforeFinish(L: Layout, p: nat, r: Range, m: Memory, m2: Memory, b: Word)
    requires p + NAME < |m| && r == RangeAt(m, p) && SameOutside(m, m2, b, r.size) && WritesApart(L, p, b, r.size, |m|)
    ensures p + NAME < |m2| && RangeAt(StoreWord(m2, p + BASE, b), p) == Range(b, r.size)
  {
    LoadSame(m, m2, p + SIZE);
    LoadStored(m2, p + BASE, b);
    WordKept(m2, p + BASE, b, p + SIZE);
    hide LoadWord, StoreWord;
  }

  lemma SameLengthOutside(m: Memory, m2: Memory, b: nat, size: nat)
    requires SameOutside(m, m2, b, size)
    ensures |m2| == |m|
  {
  }

  lemma MoveFinished(L: Layout, m: Memory, m2: Memory, i: nat, b: Word, r: Range)
    requires i < |L.ps| && |L.elfs| == |L.tables| == |L.ps| && r == RangeAt(m, L.ps[i])
    requires WritesApart(L, L.ps[i], b, r.size, |m|) && SameOutside(m, m2, b, r.size)
    requires PassedOver(L.elfs[i], L.tables[i], Bytes(m, r.base, r.size), Bytes(m2, b, r.size), r.base, b)
    ensures MoveStep(L, m, Finished(L, L.ps[i], b, r.size, m2), i, b)
  {
    hide Finished, PassedOver, OnlyChanged, RangeAt, LoadWord, TableCrcOk, CrcAt, Bytes, SameOutside;
    var p := L.ps[i];
    SameLengthOutside(m, m2, b, r.size);
    assert p + NAME <= |m2| && L.crcAddr + 4 <= |m2|;
    FinishedElsewhere(L, p, b, r.size, m, m2);
    FinishedWords(L, p, b, r.size, m2);
  }

  /** What becomes of a request to move file `i` to `b`. */
  ghost function MoveOutcome(L: Layout, m: Memory, i: nat, b: Word): Outcome<()>
    requires i < |L.ps| && |L.elfs| == |L.tables| == |L.ps|
  {
    var elf, r := L.elfs[i], RangeAt(m, L.ps[i]);
    if b == 0 then Failed(-1)
    else if b % 8 != 0 then Trapped
    else if OverlapsItself(b, r.base, r.size) || elf.flash == [] then Failed(-1)
    else if elf.rofixup.None? then Failed(1)
    else if !AllAccounted(elf, L.tables[i], ImageOf(L, m, i), r.base) then Trapped
    else if elf.mem == [] then Failed(-1)
    else Done(())
  }

  /** `uld_reloc_move_fse` for the entry at `fse`; `elf` is what `uld_load_create_file`
      makes of the image. */
  method MoveFse(mem: array<Byte>, fse: nat, newBase: Word, elf: Elf, tableBase: nat, tableSize: nat, crcAddr: nat,
                 ghost L: Layout, ghost i: nat)
    returns (r: Outcome<()>)
    requires FsInv(L, mem[..]) && i < |L.ps| && fse == L.ps[i] && elf == L.elfs[i]
    requires tableBase == L.tableBase && tableSize == L.tableSize && crcAddr == L.crcAddr
    requires newBase != 0 ==> DestOk(L, mem[..], i, newBase)
    modifies mem
    ensures r.Done? ==> MoveStep(L, old(mem[..]), mem[..], i, newBase) && DestFree(L, old(mem[..]), newBase, RangeAt(old(mem[..]), fse).size)
    ensures r.Failed? ==> SameStore(L, old(mem[..]), mem[..])
    ensures r == MoveOutcome(L, old(mem[..]), i, newBase)
  {
    hide FsInv, Shape, ListOk, FilesOk, ImageOk, EntryCrcOk, TableCrcOk, DestOk, DestFree, RangeAt, LoadWord, OverlapsItself,
      WritesApart, SameStore, MoveStep, AllAccounted, CrcAt, ElfOk, HoldsTable, PassedOver, ImageAt, SameOutside,
      StoreWord, CStringAt, IsList;
    ghost var m := mem[..];
    if newBase == 0 {
      NothingWritten(L, m);
      return Failed(-1);
    }
    if newBase % 8 != 0 {
      return Trapped;
    }
    OverlapCheck(L, m, i, newBase);
    EntryRead(L, m, i);
    var base := GetWord(mem, fse + BASE);
    var size := GetWord(mem, fse + SIZE);
    if OverlapsItself(newBase, base, size) {
      NothingWritten(L, m);
      return Failed(-1);
    }
    CopyBytes(mem, newBase, base, size);
    ghost var m1, img := mem[..], Bytes(m, base, size);
    assert |img| == size;
    SourceImage(L, m, i);
    if elf.flash == [] {
      FailedKeepsStore(L, m, m1, newBase, size);
      return Failed(-1);
    }
    r := ApplyFlashFixups(mem, elf, base, newBase, L.tables[i], img);
    if r.Trapped? {
      return;
    }
    ghost var m2 := mem[..];
    SameOutsideTrans(m, m1, m2, newBase, size);
    if r.Failed? {
      FailedKeepsStore(L, m, m2, newBase, size);
      return;
    }
    BeforeFinish(L, fse, RangeAt(m, fse), m, m2, newBase);
    PutWord(mem, fse + BASE, newBase);
    UpdateFseCrc(mem, fse);
    UpdateCrc(mem, tableBase, tableSize, crcAddr);
    MoveFinished(L, m, m2, i, newBase, RangeAt(m, fse));
    return Done(());
  }
}
