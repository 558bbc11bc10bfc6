/** The files in flash as a state machine: the file table, the files it names and
    the CRCs that protect both, and what one move does to them. */
module FlashStore {
  import opened Words
  import opened ImageMove
  import opened FsTable
  import opened FreeSpace
  import opened Crc32

  /** What never changes: where the entries of the list are, in list order, their
      names, the sections and fixup table of each file, and `struct uld_pstore`. */
  datatype Layout = Layout(
    head: nat, ps: seq<nat>, names: seq<Name>, elfs: seq<Elf>, tables: seq<seq<Word>>,
    tableBase: nat, tableSize: nat, crcAddr: nat, filesBase: Word, filesSize: Word)

  function Bytes(m: Memory, a: nat, n: nat): Memory {
    if a + n <= |m| then m[a..a + n] else []
  }

  /** `crc32(a, n, UTIL_CRC32_INIT)`. */
  function CrcAt(m: Memory, a: nat, n: nat): Word {
    Crc(Bytes(m, a, n), UTIL_CRC32_INIT) as int
  }

  function ImageOf(L: Layout, m: Memory, k: nat): Memory
    requires k < |L.ps|
  {
    Bytes(m, RangeAt(m, L.ps[k]).base, RangeAt(m, L.ps[k]).size)
  }

  // ----- the invariant -----

  ghost predicate Shape(L: Layout, len: nat) {
    && |L.names| == |L.elfs| == |L.tables| == |L.ps|
    && L.tableBase + L.tableSize <= len && L.crcAddr + 4 <= len && len <= WORD_LIMIT
    && 0 < L.filesBase && L.filesBase + L.filesSize <= len && L.filesBase % 8 == 0
    && Apart(L.tableBase, L.tableSize, L.filesBase, L.filesSize)
    && Apart(L.tableBase, L.tableSize, L.crcAddr, 4)
    && Apart(L.crcAddr, 4, L.filesBase, L.filesSize)
    && (forall k :: 0 <= k < |L.ps| ==> L.tableBase <= L.ps[k] && L.ps[k] + EntryLen(L, k) <= L.tableBase + L.tableSize)
    && (forall j, k :: 0 <= j < |L.ps| && 0 <= k < |L.ps| && j != k ==>
          Apart(L.ps[j], EntryLen(L, j), L.ps[k], EntryLen(L, k)))
  }

  /** An entry with its name and the terminating NUL. */
  function EntryLen(L: Layout, k: nat): nat
    requires k < |L.names|
  {
    NAME + |L.names[k]| + 1
  }

  /** The list runs through all entries, in order, each with its name. */
  ghost predicate ListOk(L: Layout, m: Memory) {
    IsList(m, L.head, L.ps) && Named(m, L.ps, L.names)
  }

  predicate Aligned(r: Range) {
    r.base % 8 == 0 && r.size % 8 == 0
  }

  /** Every file is in the files region, 8-byte aligned, and no two overlap. */
  ghost predicate FilesOk(L: Layout, m: Memory) {
    var rs := RangesAt(m, L.ps);
    Placed(rs, L.filesBase, L.filesSize) && forall k :: 0 <= k < |rs| ==> Aligned(rs[k])
  }

  ghost predicate ImageOk(L: Layout, m: Memory, k: nat)
    requires k < |L.ps| && |L.elfs| == |L.tables| == |L.ps|
  {
    L.elfs[k].rofixup.Some? ==>
      ElfOk(L.elfs[k], L.tables[k], RangeAt(m, L.ps[k]).size) && HoldsTable(ImageOf(L, m, k), L.elfs[k], L.tables[k])
  }

  /** `uld_crc_verify_fse`. */
  predicate EntryCrcOk(m: Memory, p: nat) {
    p + NAME <= |m| && LoadWord(m, p + CRC) == CrcAt(m, RangeAt(m, p).base, RangeAt(m, p).size)
  }

  /** `uld_crc_verify_fst`. */
  predicate TableCrcOk(L: Layout, m: Memory) {
    L.crcAddr + 4 <= |m| && LoadWord(m, L.crcAddr) == CrcAt(m, L.tableBase, L.tableSize)
  }

  ghost predicate FsInv(L: Layout, m: Memory) {
    && Shape(L, |m|) && ListOk(L, m) && FilesOk(L, m)
    && (forall k :: 0 <= k < |L.ps| ==> ImageOk(L, m, k) && EntryCrcOk(m, L.ps[k]))
    && TableCrcOk(L, m)
  }

  // ----- one move -----

  /** `[b, b + size)` is in the files region and overlaps no file. */
  ghost predicate DestFree(L: Layout, m: Memory, b: int, size: nat) {
    && L.filesBase <= b && b + size <= L.filesBase + L.filesSize
    && forall k :: 0 <= k < |L.ps| ==> Apart(b, size, RangeAt(m, L.ps[k]).base, RangeAt(m, L.ps[k]).size)
  }

  /** A move writes only to the destination, two words of the entry and the CRC of
      the table. */
  predicate MayChange(L: Layout, p: nat, b: Word, size: nat, x: int) {
    b <= x < b + size || p + BASE <= x < p + BASE + 4 || p + CRC <= x < p + CRC + 4 || L.crcAddr <= x < L.crcAddr + 4
  }

  ghost predicate OnlyChanged(L: Layout, m: Memory, m1: Memory, p: nat, b: Word, size: nat) {
    |m1| == |m| && forall x :: 0 <= x < |m| && !MayChange(L, p, b, size, x) ==> m1[x] == m[x]
  }

  /** `m1` is `m` after file `i` has moved to `b`: its image is the old one with the
      fixups rewritten, its entry has the new base address and the CRC of the new
      image, the table CRC is that of the new table, and nothing else is written. */
  ghost predicate MoveStep(L: Layout, m: Memory, m1: Memory, i: nat, b: Word)
    requires i < |L.ps| && |L.elfs| == |L.tables| == |L.ps|
  {
    var p, r := L.ps[i], RangeAt(m, L.ps[i]);
    && OnlyChanged(L, m, m1, p, b, r.size)
    && p + NAME <= |m1| && LoadWord(m1, p + BASE) == b && LoadWord(m1, p + CRC) == CrcAt(m1, b, r.size)
    && TableCrcOk(L, m1)
    && PassedOver(L.elfs[i], L.tables[i], Bytes(m, r.base, r.size), Bytes(m1, b, r.size), r.base, b)
  }

  // ----- what one move keeps -----

  /** File `i` moves to a free place and nothing is written but what a move writes. */
  ghost predicate Frame(L: Layout, m: Memory, m1: Memory, i: nat, b: Word) {
    && Shape(L, |m|) && i < |L.ps| && DestFree(L, m, b, RangeAt(m, L.ps[i]).size)
    && OnlyChanged(L, m, m1, L.ps[i], b, RangeAt(m, L.ps[i]).size)
  }

  /** Bytes of entry `k` that the move of file `i` does not write. */
  lemma EntryKept(L: Layout, m: Memory, m1: Memory, i: nat, b: Word, k: nat, x: nat)
    requires Frame(L, m, m1, i, b) && k < |L.ps|
    requires L.ps[k] <= x < L.ps[k] + EntryLen(L, k)
    requires i == k ==> !(BASE <= x - L.ps[k] < BASE + 4) && !(CRC <= x - L.ps[k] < CRC + 4)
    ensures x < |m| && m1[x] == m[x]
  {
    assert i != k ==> Apart(L.ps[i], EntryLen(L, i), L.ps[k], EntryLen(L, k));
  }

  lemma EntryWordKept(L: Layout, m: Memory, m1: Memory, i: nat, b: Word, k: nat, off: nat)
    requires Frame(L, m, m1, i, b) && k < |L.ps|
    requires off == NEXT || off == SIZE || (i != k && (off == BASE || off == CRC))
    ensures L.ps[k] + NAME < |m| == |m1| && LoadWord(m1, L.ps[k] + off) == LoadWord(m, L.ps[k] + off)
  {
    forall x | L.ps[k] + off <= x < L.ps[k] + off + 4
      ensures x < |m| && m1[x] == m[x]
    {
      EntryKept(L, m, m1, i, b, k, x);
    }
    LoadSame(m1, m, L.ps[k] + off);
  }

  lemma {:induction false} SameList(m: Memory, m1: Memory, p: nat, ps: seq<nat>)
    requires IsList(m, p, ps) && |m1| == |m|
    requires forall k :: 0 <= k < |ps| ==> ps[k] + NAME < |m| && LoadWord(m1, ps[k] + NEXT) == LoadWord(m, ps[k] + NEXT)
    ensures IsList(m1, p, ps)
    decreases |ps|
  {
    if ps != [] {
      assert ps[0] + NAME < |m|;
      SameList(m, m1, LoadWord(m, p + NEXT), ps[1..]);
    }
  }

  lemma FrameLength(L: Layout, m: Memory, m1: Memory, i: nat, b: Word)
    requires Frame(L, m, m1, i, b)
    ensures |m1| == |m|
  {
  }

  lemma OrderKept(L: Layout, m: Memory, m1: Memory, i: nat, b: Word)
    requires Frame(L, m, m1, i, b) && IsList(m, L.head, L.ps)
    ensures IsList(m1, L.head, L.ps)
  {
    hide Frame, LoadWord, IsList;
    FrameLength(L, m, m1, i, b);
    forall k | 0 <= k < |L.ps|
      ensures L.ps[k] + NAME < |m| && LoadWord(m1, L.ps[k] + NEXT) == LoadWord(m, L.ps[k] + NEXT)
    {
      EntryWordKept(L, m, m1, i, b, k, NEXT);
    }
    SameList(m, m1, L.head, L.ps);
  }

  lemma StepKeepsList(L: Layout, m: Memory, m1: Memory, i: nat, b: Word)
    requires Frame(L, m, m1, i, b) && ListOk(L, m)
    ensures ListOk(L, m1)
  {
    ListParts(L, m);
    ListParts(L, m1);
    hide *;
    OrderKept(L, m, m1, i, b);
    NamesKept(L, m, m1, i, b);
  }

  lemma ListParts(L: Layout, m: Memory)
    ensures ListOk(L, m) <==> IsList(m, L.head, L.ps) && Named(m, L.ps, L.names)
  {
    hide IsList, Named;
  }

  lemma NamesKept(L: Layout, m: Memory, m1: Memory, i: nat, b: Word)
    requires Frame(L, m, m1, i, b) && Named(m, L.ps, L.names)
    ensures Named(m1, L.ps, L.names)
  {
    hide Frame, CStringAt;
    forall k | 0 <= k < |L.ps|
      ensures CStringAt(m1, L.ps[k] + NAME, L.names[k])
    {
      NameKept(L, m, m1, i, b, k);
    }
  }

  lemma NameKept(L: Layout, m: Memory, m1: Memory, i: nat, b: Word, k: nat)
    requires Frame(L, m, m1, i, b) && k < |L.ps|
    requires CStringAt(m, L.ps[k] + NAME, L.names[k])
    ensures CStringAt(m1, L.ps[k] + NAME, L.names[k])
  {
    var a, n := L.ps[k] + NAME, |L.names[k]|;
    forall x | a <= x <= a + n
      ensures x < |m| == |m1| && m1[x] == m[x]
    {
      EntryKept(L, m, m1, i, b, k, x);
    }
    assert m1[a..a + n] == m[a..a + n];
  }

  lemma StepRanges(L: Layout, m: Memory, m1: Memory, i: nat, b: Word, k: nat)
    requires Frame(L, m, m1, i, b) && k < |L.ps| && MoveStep(L, m, m1, i, b)
    ensures RangeAt(m1, L.ps[k]) == if k == i then Range(b, RangeAt(m, L.ps[i]).size) else RangeAt(m, L.ps[k])
  {
    hide Frame, LoadWord, PassedOver, CrcAt, OnlyChanged;
    EntryWordKept(L, m, m1, i, b, k, SIZE);
    if k != i {
      EntryWordKept(L, m, m1, i, b, k, BASE);
    }
  }

  lemma PlacedAfterMove(rs: seq<Range>, rs1: seq<Range>, i: nat, b: Word, filesBase: Word, filesSize: Word)
    requires Placed(rs, filesBase, filesSize) && i < |rs| && rs1 == rs[i := Range(b, rs[i].size)]
    requires filesBase <= b && b + rs[i].size <= filesBase + filesSize
    requires forall k :: 0 <= k < |rs| ==> Apart(b, rs[i].size, rs[k].base, rs[k].size)
    ensures Placed(rs1, filesBase, filesSize)
  {
    forall k | 0 <= k < |rs1|
      ensures InRegion(rs1[k], filesBase, filesSize)
    {
      assert InRegion(rs[k], filesBase, filesSize) && InRegion(rs[i], filesBase, filesSize);
    }
    forall j, k | 0 <= j < k < |rs1|
      ensures Disjoint(rs1[j], rs1[k])
    {
      assert Disjoint(rs[j], rs[k]);
    }
  }

  lemma RangesAfterMove(L: Layout, m: Memory, m1: Memory, i: nat, b: Word)
    requires Frame(L, m, m1, i, b) && MoveStep(L, m, m1, i, b)
    ensures RangesAt(m1, L.ps) == RangesAt(m, L.ps)[i := Range(b, RangeAt(m, L.ps[i]).size)]
  {
    assert i < |L.ps|;
    hide MoveStep, Frame, RangeAt;
    forall k | 0 <= k < |L.ps|
      ensures RangeAt(m1, L.ps[k]) == if k == i then Range(b, RangeAt(m, L.ps[i]).size) else RangeAt(m, L.ps[k])
    {
      StepRanges(L, m, m1, i, b, k);
    }
  }

  lemma StepKeepsFiles(L: Layout, m: Memory, m1: Memory, i: nat, b: Word)
    requires Frame(L, m, m1, i, b) && MoveStep(L, m, m1, i, b) && FilesOk(L, m) && b % 8 == 0
    ensures FilesOk(L, m1)
  {
    RangesAfterMove(L, m, m1, i, b);
    var rs, rs1 := RangesAt(m, L.ps), RangesAt(m1, L.ps);
    assert Aligned(rs[i]);
    hide MoveStep, Shape, Placed, RangeAt, OnlyChanged;
    PlacedAfterMove(rs, rs1, i, b, L.filesBase, L.filesSize);
  }

  // ----- images and CRCs after a move -----

  lemma SameBytesSameCrc(m: Memory, m1: Memory, a: nat, n: nat)
    requires |m1| == |m| && forall x :: a <= x < a + n && x < |m| ==> m1[x] == m[x]
    ensures Bytes(m1, a, n) == Bytes(m, a, n) && CrcAt(m1, a, n) == CrcAt(m, a, n)
  {
    if a + n <= |m| {
      assert m1[a..a + n] == m[a..a + n];
    }
  }

  lemma InTheRegion(L: Layout, m: Memory, k: nat)
    requires FilesOk(L, m) && k < |L.ps|
    ensures InRegion(RangeAt(m, L.ps[k]), L.filesBase, L.filesSize)
  {
    assert RangesAt(m, L.ps)[k] == RangeAt(m, L.ps[k]);
  }

  /** The image of a file that is not the one that moves: not a byte changes. */
  lemma OtherImagesKept(L: Layout, m: Memory, m1: Memory, i: nat, b: Word, k: nat)
    requires Frame(L, m, m1, i, b) && MoveStep(L, m, m1, i, b) && FilesOk(L, m) && k < |L.ps| && k != i
    ensures RangeAt(m1, L.ps[k]) == RangeAt(m, L.ps[k]) && ImageOf(L, m1, k) == ImageOf(L, m, k)
  {
    StepRanges(L, m, m1, i, b, k);
    InTheRegion(L, m, k);
    var r, r1 := RangeAt(m, L.ps[k]), RangeAt(m, L.ps[i]);
    forall x | r.base <= x < r.base + r.size && x < |m|
      ensures m1[x] == m[x]
    {
      assert Apart(b, r1.size, r.base, r.size);
      assert !MayChange(L, L.ps[i], b, r1.size, x);
    }
    SameBytesSameCrc(m, m1, r.base, r.size);
  }

  /** The passes do not write to the fixup table. */
  lemma PassKeepsTable(elf: Elf, ws: seq<Word>, img: Memory, img1: Memory, base: nat, newBase: nat)
    requires ElfOk(elf, ws, |img|) && HoldsTable(img, elf, ws) && PassedOver(elf, ws, img, img1, base, newBase)
    ensures HoldsTable(img1, elf, ws)
  {
    var tbl: nat := elf.rofixup.value.offset;
    forall x | tbl <= x < tbl + 4 * |ws|
      ensures img1[x] == img[x]
    {
      forall k, o | SlotAt(elf, ws, k, o)
        ensures !(o <= x < o + 4)
      {
        assert ApartFromTable(elf, ws, o);
      }
    }
    forall k | 0 <= k < |ws|
      ensures ws[k] == LoadWord(img1, tbl + 4 * k)
    {
      LoadSame(img, img1, tbl + 4 * k);
    }
  }

  lemma MovedTableOk(L: Layout, m: Memory, m1: Memory, i: nat, b: Word)
    requires i < |L.ps| && |L.elfs| == |L.tables| == |L.ps| && MoveStep(L, m, m1, i, b)
    requires FilesOk(L, m) && L.filesBase + L.filesSize <= |m| && ImageOk(L, m, i)
    ensures L.elfs[i].rofixup.Some? ==> HoldsTable(Bytes(m1, b, RangeAt(m, L.ps[i]).size), L.elfs[i], L.tables[i])
  {
    InTheRegion(L, m, i);
    var r := RangeAt(m, L.ps[i]);
    assert |Bytes(m, r.base, r.size)| == r.size;
    hide OnlyChanged, TableCrcOk, FilesOk, ElfOk, HoldsTable, PassedOver, CrcAt, RangeAt, LoadWord, Bytes;
    if L.elfs[i].rofixup.Some? {
      PassKeepsTable(L.elfs[i], L.tables[i], Bytes(m, r.base, r.size), Bytes(m1, b, r.size), r.base, b);
    }
  }

  lemma MovedImageOk(L: Layout, m: Memory, m1: Memory, i: nat, b: Word)
    requires Frame(L, m, m1, i, b) && MoveStep(L, m, m1, i, b) && FilesOk(L, m) && ImageOk(L, m, i)
    ensures ImageOk(L, m1, i)
  {
    StepRanges(L, m, m1, i, b, i);
    assert L.filesBase + L.filesSize <= |m|;
    MovedTableOk(L, m, m1, i, b);
    hide Frame, MoveStep, FilesOk, ElfOk, HoldsTable, RangeAt, Bytes;
  }

  lemma NewCrc(L: Layout, m: Memory, m1: Memory, i: nat, b: Word)
    requires i < |L.ps| && |L.elfs| == |L.tables| == |L.ps| && MoveStep(L, m, m1, i, b)
    ensures L.ps[i] + NAME <= |m1| && LoadWord(m1, L.ps[i] + CRC) == CrcAt(m1, b, RangeAt(m, L.ps[i]).size)
  {
    hide OnlyChanged, TableCrcOk, PassedOver, CrcAt, RangeAt, LoadWord, Bytes;
  }

  lemma MovedCrcOk(L: Layout, m: Memory, m1: Memory, i: nat, b: Word)
    requires Frame(L, m, m1, i, b) && MoveStep(L, m, m1, i, b)
    ensures EntryCrcOk(m1, L.ps[i])
  {
    StepRanges(L, m, m1, i, b, i);
    NewCrc(L, m, m1, i, b);
    hide Frame, MoveStep, CrcAt, RangeAt, LoadWord;
  }

  lemma OtherFileOk(L: Layout, m: Memory, m1: Memory, i: nat, b: Word, k: nat)
    requires Frame(L, m, m1, i, b) && MoveStep(L, m, m1, i, b) && FilesOk(L, m) && k < |L.ps| && k != i
    requires ImageOk(L, m, k) && EntryCrcOk(m, L.ps[k])
    ensures ImageOk(L, m1, k) && EntryCrcOk(m1, L.ps[k])
  {
    OtherImagesKept(L, m, m1, i, b, k);
    EntryWordKept(L, m, m1, i, b, k, CRC);
    hide Frame, MoveStep, FilesOk, ElfOk, HoldsTable, RangeAt, LoadWord;
  }

  /** A move to a free, aligned place keeps the file system sound: the same list with
      the same names, files aligned, apart and inside the region, fixup tables in
      place, and every CRC, of the entries and of the table, verifies. */
  lemma StepKeepsInv(L: Layout, m: Memory, m1: Memory, i: nat, b: Word)
    requires FsInv(L, m) && i < |L.ps| && DestFree(L, m, b, RangeAt(m, L.ps[i]).size) && b % 8 == 0
    requires MoveStep(L, m, m1, i, b)
    ensures FsInv(L, m1)
  {
    assert Frame(L, m, m1, i, b);
    StepKeepsList(L, m, m1, i, b);
    StepKeepsFiles(L, m, m1, i, b);
    forall k | 0 <= k < |L.ps|
      ensures ImageOk(L, m1, k) && EntryCrcOk(m1, L.ps[k])
    {
      if k == i {
        MovedImageOk(L, m, m1, i, b);
        MovedCrcOk(L, m, m1, i, b);
      } else {
        OtherFileOk(L, m, m1, i, b, k);
      }
    }
  }

  ghost predicate EntrySame(L: Layout, m: Memory, m1: Memory, k: nat)
    requires k < |L.ps| && |L.names| == |L.ps|
  {
    && L.ps[k] + NAME < |m| == |m1|
    && LoadWord(m1, L.ps[k] + NEXT) == LoadWord(m, L.ps[k] + NEXT) && LoadWord(m1, L.ps[k] + CRC) == LoadWord(m, L.ps[k] + CRC)
    && (CStringAt(m, L.ps[k] + NAME, L.names[k]) ==> CStringAt(m1, L.ps[k] + NAME, L.names[k]))
    && RangeAt(m1, L.ps[k]) == RangeAt(m, L.ps[k])
    && ImageOf(L, m1, k) == ImageOf(L, m, k)
  }

  /** `m1` has the same entries, files, table and table CRC as `m`. */
  ghost predicate SameStore(L: Layout, m: Memory, m1: Memory) {
    && |m1| == |m| && Shape(L, |m|)
    && (forall k :: 0 <= k < |L.ps| ==> EntrySame(L, m, m1, k))
    && Bytes(m1, L.tableBase, L.tableSize) == Bytes(m, L.tableBase, L.tableSize)
    && LoadWord(m1, L.crcAddr) == LoadWord(m, L.crcAddr)
  }

  lemma EntryUntouched(L: Layout, m: Memory, m1: Memory, k: nat)
    requires Shape(L, |m|) && |m1| == |m| && k < |L.ps|
    requires forall x :: L.tableBase <= x < L.tableBase + L.tableSize ==> m1[x] == m[x]
    ensures L.ps[k] + NAME < |m| && RangeAt(m1, L.ps[k]) == RangeAt(m, L.ps[k])
    ensures LoadWord(m1, L.ps[k] + NEXT) == LoadWord(m, L.ps[k] + NEXT) && LoadWord(m1, L.ps[k] + CRC) == LoadWord(m, L.ps[k] + CRC)
    ensures CStringAt(m, L.ps[k] + NAME, L.names[k]) ==> CStringAt(m1, L.ps[k] + NAME, L.names[k])
  {
    var p, n := L.ps[k], |L.names[k]|;
    assert p + EntryLen(L, k) <= L.tableBase + L.tableSize;
    LoadSame(m1, m, p + BASE);
    LoadSame(m1, m, p + NEXT);
    LoadSame(m1, m, p + SIZE);
    LoadSame(m1, m, p + CRC);
    assert m1[p + NAME..p + NAME + n] == m[p + NAME..p + NAME + n];
  }

  lemma SameFileOk(L: Layout, m: Memory, m1: Memory, k: nat)
    requires k < |L.ps| && |L.names| == |L.elfs| == |L.tables| == |L.ps|
    requires EntrySame(L, m, m1, k) && ImageOk(L, m, k) && EntryCrcOk(m, L.ps[k])
    ensures ImageOk(L, m1, k) && EntryCrcOk(m1, L.ps[k])
  {
    hide RangeAt, LoadWord, CStringAt, ElfOk, HoldsTable;
  }

  lemma SameStoreRanges(L: Layout, m: Memory, m1: Memory)
    requires SameStore(L, m, m1)
    ensures RangesAt(m1, L.ps) == RangesAt(m, L.ps)
  {
    hide RangeAt, LoadWord, CStringAt, ImageOf;
    forall k | 0 <= k < |L.ps|
      ensures RangeAt(m1, L.ps[k]) == RangeAt(m, L.ps[k])
    {
      assert EntrySame(L, m, m1, k);
    }
  }

  lemma SameStoreKeepsInv(L: Layout, m: Memory, m1: Memory)
    requires FsInv(L, m) && SameStore(L, m, m1)
    ensures FsInv(L, m1)
  {
    SameStoreList(L, m, m1);
    SameStoreRanges(L, m, m1);
    hide Shape, ListOk, Placed, RangeAt, RangesAt, LoadWord, EntrySame, ImageOk, EntryCrcOk;
    forall k | 0 <= k < |L.ps|
      ensures ImageOk(L, m1, k) && EntryCrcOk(m1, L.ps[k])
    {
      SameFileOk(L, m, m1, k);
    }
  }

  lemma SameStoreList(L: Layout, m: Memory, m1: Memory)
    requires ListOk(L, m) && SameStore(L, m, m1)
    ensures ListOk(L, m1)
  {
    hide LoadWord, CStringAt, IsList, RangeAt, Shape;
    forall k | 0 <= k < |L.ps|
      ensures L.ps[k] + NAME < |m| && LoadWord(m1, L.ps[k] + NEXT) == LoadWord(m, L.ps[k] + NEXT)
      ensures CStringAt(m1, L.ps[k] + NAME, L.names[k])
    {
      assert EntrySame(L, m, m1, k);
    }
    SameList(m, m1, L.head, L.ps);
  }

  lemma EntrySameWhenFree(L: Layout, m: Memory, m1: Memory, b: nat, size: nat, k: nat)
    requires Shape(L, |m|) && FilesOk(L, m) && DestFree(L, m, b, size) && |m1| == |m| && k < |L.ps|
    requires forall x :: 0 <= x < |m| && !(b <= x < b + size) ==> m1[x] == m[x]
    ensures EntrySame(L, m, m1, k)
  {
    EntryUntouched(L, m, m1, k);
    InTheRegion(L, m, k);
    var r := RangeAt(m, L.ps[k]);
    assert Apart(b, size, r.base, r.size);
    hide Shape, FilesOk, DestFree, RangeAt, CStringAt, LoadWord;
    SameBytesSameCrc(m, m1, r.base, r.size);
  }

  /** Writing nothing but a free place, as a move that fails does, changes no file
      and no entry. */
  lemma FreeSpaceIsFree(L: Layout, m: Memory, m1: Memory, b: nat, size: nat)
    requires FsInv(L, m) && DestFree(L, m, b, size) && |m1| == |m|
    requires forall x :: 0 <= x < |m| && !(b <= x < b + size) ==> m1[x] == m[x]
    ensures SameStore(L, m, m1) && FsInv(L, m1)
  {
    SameBytesSameCrc(m, m1, L.tableBase, L.tableSize);
    LoadSame(m1, m, L.crcAddr);
    hide EntrySame, DestFree, LoadWord, Bytes, ListOk, FilesOk, ImageOk, EntryCrcOk;
    forall k | 0 <= k < |L.ps|
      ensures EntrySame(L, m, m1, k)
    {
      EntrySameWhenFree(L, m, m1, b, size, k);
    }
    SameStoreKeepsInv(L, m, m1);
  }
}
