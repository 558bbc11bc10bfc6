/** Where a run begins: a generated table with the right CRCs is a sound store. */
module FlashStart {
  import opened Words
  import opened ImageMove
  import opened FsTable
  import opened FreeSpace
  import opened FlashStore
  import opened FileTable

  /** The layout that the build gives to the firmware: the generated table at `tbl`,
      which is also the head of the list, and the files section. */
  function LayoutOf(infos: seq<Info>, elfs: seq<Elf>, tables: seq<seq<Word>>, tbl: nat, tableSize: nat, crcAddr: nat,
                    files: Word, filesSize: Word): Layout {
    Layout(tbl, Places(infos, tbl), NamesOf(infos), elfs, tables, tbl, tableSize, crcAddr, files, filesSize)
  }

  /** The table fits, the files fit their section, and table, CRC word and files are
      apart. */
  ghost predicate BuiltRight(infos: seq<Info>, tbl: nat, tableSize: nat, crcAddr: nat, files: Word, filesSize: Word, len: nat) {
    && OffsetOf(infos, |infos|) <= tableSize && tbl + tableSize <= len && crcAddr + 4 <= len && len <= WORD_LIMIT
    && 0 < files && files % 8 == 0 && files + filesSize <= len && files + filesSize < WORD_LIMIT && filesSize < 0x8000_0000
    && BaseOf(infos, |infos|) <= filesSize
    && Apart(tbl, tableSize, files, filesSize) && Apart(tbl, tableSize, crcAddr, 4) && Apart(crcAddr, 4, files, filesSize)
    && forall k :: 0 <= k < |infos| ==> infos[k].size > 0 && infos[k].size % 8 == 0
  }

  lemma {:induction false} BasesAligned(infos: seq<Info>, k: nat)
    requires k <= |infos| && forall j :: 0 <= j < |infos| ==> infos[j].size % 8 == 0
    ensures BaseOf(infos, k) % 8 == 0
    decreases k
  {
    if k > 0 {
      BasesAligned(infos, k - 1);
    }
  }

  lemma {:induction false} EntriesInTable(infos: seq<Info>, k: nat)
    requires k < |infos|
    ensures OffsetOf(infos, k) + NAME + |infos[k].name| + 1 <= OffsetOf(infos, k + 1) <= OffsetOf(infos, |infos|)
  {
    hide PadLen;
    OffsetsGrow(infos, k + 1, |infos|);
  }

  lemma {:induction false} ShapeOfBuild(infos: seq<Info>, elfs: seq<Elf>, tables: seq<seq<Word>>, tbl: nat, tableSize: nat, crcAddr: nat,
                                        files: Word, filesSize: Word, len: nat)
    requires BuiltRight(infos, tbl, tableSize, crcAddr, files, filesSize, len) && |elfs| == |tables| == |infos|
    ensures Shape(LayoutOf(infos, elfs, tables, tbl, tableSize, crcAddr, files, filesSize), len)
  {
    hide OffsetOf, BaseOf;
    var L := LayoutOf(infos, elfs, tables, tbl, tableSize, crcAddr, files, filesSize);
    forall k | 0 <= k < |L.ps|
      ensures L.tableBase <= L.ps[k] && L.ps[k] + EntryLen(L, k) <= L.tableBase + L.tableSize
    {
      EntriesInTable(infos, k);
    }
    forall j, k | 0 <= j < |L.ps| && 0 <= k < |L.ps| && j != k
      ensures Apart(L.ps[j], EntryLen(L, j), L.ps[k], EntryLen(L, k))
    {
      EntriesInTable(infos, j);
      EntriesInTable(infos, k);
      if j < k {
        OffsetsGrow(infos, j + 1, k);
      } else {
        OffsetsGrow(infos, k + 1, j);
      }
    }
  }

  lemma {:induction false} FilesOfBuild(m: Memory, infos: seq<Info>, elfs: seq<Elf>, tables: seq<seq<Word>>, tbl: nat, tableSize: nat,
                                        crcAddr: nat, files: Word, filesSize: Word)
    requires BuiltRight(infos, tbl, tableSize, crcAddr, files, filesSize, |m|) && TableAt(m, infos, tbl, files)
    ensures FilesOk(LayoutOf(infos, elfs, tables, tbl, tableSize, crcAddr, files, filesSize), m)
  {
    hide TableAt, OffsetOf, BaseOf, IsList, Named, RangeAt, Placed;
    GeneratedPlaced(m, infos, tbl, files, filesSize);
    TableIsList(m, infos, tbl, files);
    var rs := RangesAt(m, Places(infos, tbl));
    forall k | 0 <= k < |rs|
      ensures Aligned(rs[k])
    {
      assert FileRange(m, infos, tbl, files, k);
      BasesAligned(infos, k);
    }
  }

  /** The CRC of entry `k` is that of the bytes of file `k`. */
  predicate InfoCrcOk(m: Memory, infos: seq<Info>, files: Word, k: nat)
    requires k < |infos|
  {
    infos[k].crc == CrcAt(m, files + BaseOf(infos, k), infos[k].size)
  }

  lemma {:induction false} EntryCrcOfBuild(m: Memory, infos: seq<Info>, tbl: nat, files: Word, k: nat)
    requires TableAt(m, infos, tbl, files) && k < |infos| && InfoCrcOk(m, infos, files, k)
    ensures EntryCrcOk(m, tbl + OffsetOf(infos, k))
  {
    hide TableAt, OffsetOf, BaseOf, CrcAt, CStringAt, LoadWord, NextOf;
    EntryHere(m, infos, tbl, files, k);
  }

  /** A generated table in place, entry CRCs that are those of the files, the CRC of
      the table in its word, and well-formed images make a sound store, which every run
      of moves then keeps. */
  lemma {:induction false} GeneratedStoreSound(m: Memory, infos: seq<Info>, elfs: seq<Elf>, tables: seq<seq<Word>>, tbl: nat,
                                               tableSize: nat, crcAddr: nat, files: Word, filesSize: Word)
    requires BuiltRight(infos, tbl, tableSize, crcAddr, files, filesSize, |m|) && TableAt(m, infos, tbl, files)
    requires |elfs| == |tables| == |infos| && forall k :: 0 <= k < |infos| ==> InfoCrcOk(m, infos, files, k)
    requires var L := LayoutOf(infos, elfs, tables, tbl, tableSize, crcAddr, files, filesSize);
             TableCrcOk(L, m) && forall k :: 0 <= k < |infos| ==> ImageOk(L, m, k)
    ensures FsInv(LayoutOf(infos, elfs, tables, tbl, tableSize, crcAddr, files, filesSize), m)
  {
    hide BuiltRight, TableAt, Shape, FilesOk, ImageOk, EntryCrcOk, TableCrcOk, InfoCrcOk, IsList, Named, OffsetOf, FileRange;
    var L := LayoutOf(infos, elfs, tables, tbl, tableSize, crcAddr, files, filesSize);
    ShapeOfBuild(infos, elfs, tables, tbl, tableSize, crcAddr, files, filesSize, |m|);
    FilesOfBuild(m, infos, elfs, tables, tbl, tableSize, crcAddr, files, filesSize);
    TableIsList(m, infos, tbl, files);
    forall k | 0 <= k < |L.ps|
      ensures EntryCrcOk(m, L.ps[k])
    {
      EntryCrcOfBuild(m, infos, tbl, files, k);
    }
  }
}
