/** The file table as it is generated (gen_hdr in scripts/gen-uld-files.py) and parsed
    (parse_fs_table in scripts/patch-uld-elf.py); the linker walks the same bytes. */
module FileTable {
  import opened Words
  import opened Options
  import opened Sections
  import opened FsTable
  import opened FreeSpace
  import opened ImageMove
  import opened ImageLaws

  /** One file to put in the table. */
  datatype Info = Info(name: Name, size: Word, crc: Word)

  function WordBytes(w: Word): (s: seq<Byte>)
    ensures |s| == 4
  {
    [ByteOf(w, 0), ByteOf(w, 1), ByteOf(w, 2), ByteOf(w, 3)]
  }

  /** What is missing to the next multiple of 4 or 8. */
  function PadLen(size: nat, align: nat): nat
    requires align == 2 || align == 3
  {
    var unit := if align == 2 then 4 else 8;
    (unit - size % unit) % unit
  }

  /** `pad_len`; the mask clears the low bits. */
  method PadLenOf(size: nat, align: nat) returns (pl: nat)
    requires align == 2 || align == 3
    ensures pl == PadLen(size, align)
    ensures align == 2 ==> pl < 4 && (size + pl) % 4 == 0
  {
    var m := if align == 2 then 3 else 7;
    return (size + m) - (size + m) % (m + 1) - size;
  }

  /** The name with its NUL, padded to whole words. */
  function PaddedName(name: Name): (s: seq<Byte>)
    ensures |s| == |name| + PadLen(|name| + 1, 2) + 1
  {
    name + seq(PadLen(|name| + 1, 2) + 1, _ => 0)
  }

  /** The name as it is put out: padded to words together with its NUL. */
  method PadName(name: Name) returns (s: seq<Byte>)
    ensures s == PaddedName(name)
  {
    hide PadLen;
    var pad := PadLenOf(|name| + 1, 2);
    return name + seq(pad + 1, _ => 0);
  }

  /** A name with its padding takes whole words, and no more than it must. */
  lemma PaddedToWords(name: Name)
    ensures |PaddedName(name)| % 4 == 0 && |name| + 1 <= |PaddedName(name)| < |name| + 1 + 4
  {
  }

  /** Where entry `k` begins in the table. */
  function OffsetOf(infos: seq<Info>, k: nat): nat
    requires k <= |infos|
    decreases k
  {
    if k == 0 then 0 else OffsetOf(infos, k - 1) + NAME + |PaddedName(infos[k - 1].name)|
  }

  /** Where file `k` begins in the files section: the sizes before it add up. */
  function BaseOf(infos: seq<Info>, k: nat): nat
    requires k <= |infos|
    decreases k
  {
    if k == 0 then 0 else BaseOf(infos, k - 1) + infos[k - 1].size
  }

  /** The table and the files are below the top of the address space. */
  predicate Addressable(infos: seq<Info>, tbl: nat, files: nat) {
    0 < tbl && tbl + OffsetOf(infos, |infos|) < WORD_LIMIT && files + BaseOf(infos, |infos|) < WORD_LIMIT
  }

  /** The `next` word of entry `k`: 0 for the last one. */
  function NextOf(infos: seq<Info>, k: nat, tbl: nat): Word
    requires k < |infos|
  {
    if k == |infos| - 1 then 0 else Wrap(tbl + OffsetOf(infos, k + 1))
  }

  function EntryBytes(infos: seq<Info>, k: nat, tbl: nat, files: nat): seq<Byte>
    requires k < |infos|
  {
    WordBytes(Wrap(files + BaseOf(infos, k))) + WordBytes(NextOf(infos, k, tbl)) + WordBytes(infos[k].size) + WordBytes(infos[k].crc)
    + WordBytes(0) + PaddedName(infos[k].name)
  }

  function TableBytes(infos: seq<Info>, k: nat, tbl: nat, files: nat): seq<Byte>
    requires k <= |infos|
    decreases k
  {
    if k == 0 then [] else TableBytes(infos, k - 1, tbl, files) + EntryBytes(infos, k - 1, tbl, files)
  }

  /** `gen_hdr`, with the symbols it prints resolved: the table at `tbl`, the files
      section at `files`.  Failed is the error of a table that does not fit. */
  method GenHdr(infos: seq<Info>, tbl: nat, files: nat, tableSize: nat) returns (r: Outcome<Memory>)
    ensures r == if OffsetOf(infos, |infos|) > tableSize then Failed(1)
                 else Done(TableBytes(infos, |infos|, tbl, files) + seq(tableSize - OffsetOf(infos, |infos|), _ => 0))
  {
    hide WordBytes, PaddedName, Wrap;
    var ret: Memory := [];
    var base: nat, nextE: nat, index: nat := 0, 0, 0;
    while index < |infos|
      invariant index <= |infos| && base == BaseOf(infos, index) && nextE == OffsetOf(infos, index)
      invariant ret == TableBytes(infos, index, tbl, files)
    {
      var name := PadName(infos[index].name);
      nextE := nextE + NAME + |name|;
      var next: Word := if index == |infos| - 1 then 0 else Wrap(tbl + nextE);
      ret := ret + (WordBytes(Wrap(files + base)) + WordBytes(next) + WordBytes(infos[index].size) + WordBytes(infos[index].crc)
                    + WordBytes(0) + name);
      base := base + infos[index].size;
      index := index + 1;
    }
    if nextE > tableSize {
      return Failed(1);
    }
    return Done(ret + seq(tableSize - nextE, _ => 0));
  }

  // ----- entries in the bytes -----

  lemma {:induction false} EntryLength(infos: seq<Info>, k: nat, tbl: nat, files: nat)
    requires k < |infos|
    ensures |EntryBytes(infos, k, tbl, files)| == OffsetOf(infos, k + 1) - OffsetOf(infos, k)
  {
    hide WordBytes, PaddedName, Wrap, BaseOf, NextOf;
  }

  lemma {:induction false} TableLength(infos: seq<Info>, k: nat, tbl: nat, files: nat)
    requires k <= |infos|
    ensures |TableBytes(infos, k, tbl, files)| == OffsetOf(infos, k)
    decreases k
  {
    hide EntryBytes, PaddedName;
    if k > 0 {
      TableLength(infos, k - 1, tbl, files);
      EntryLength(infos, k - 1, tbl, files);
    }
  }

  /** Every entry begins on a whole word, right behind the one before. */
  lemma {:induction false} EntriesOnWords(infos: seq<Info>, k: nat)
    requires k <= |infos|
    ensures OffsetOf(infos, k) % 4 == 0
    ensures k > 0 ==> var gap := OffsetOf(infos, k) - OffsetOf(infos, k - 1) - (20 + |infos[k - 1].name| + 1); 0 <= gap < 4
    decreases k
  {
    OffsetNext(infos, k);
    hide *;
    if k > 0 {
      EntriesOnWords(infos, k - 1);
      PaddedToWords(infos[k - 1].name);
      WholeWords(OffsetOf(infos, k - 1), |PaddedName(infos[k - 1].name)|);
    }
  }

  lemma OffsetNext(infos: seq<Info>, k: nat)
    requires k <= |infos|
    ensures OffsetOf(infos, k) == if k == 0 then 0 else OffsetOf(infos, k - 1) + 20 + |PaddedName(infos[k - 1].name)|
  {
    hide PaddedName;
  }

  lemma WholeWords(a: nat, b: nat)
    requires a % 4 == 0 && b % 4 == 0
    ensures (a + 20 + b) % 4 == 0
  {
  }

  lemma {:induction false} OffsetsGrow(infos: seq<Info>, j: nat, k: nat)
    requires j <= k <= |infos|
    ensures OffsetOf(infos, j) <= OffsetOf(infos, k) && BaseOf(infos, j) <= BaseOf(infos, k)
    decreases k
  {
    hide PaddedName;
    if j < k {
      OffsetsGrow(infos, j, k - 1);
    }
  }

  /** Entry `k` is found at its offset. */
  lemma {:induction false} EntryInTable(infos: seq<Info>, k: nat, n: nat, tbl: nat, files: nat)
    requires k < n <= |infos|
    ensures OffsetOf(infos, k) <= OffsetOf(infos, k + 1) <= |TableBytes(infos, n, tbl, files)|
    ensures TableBytes(infos, n, tbl, files)[OffsetOf(infos, k)..OffsetOf(infos, k + 1)] == EntryBytes(infos, k, tbl, files)
    decreases n
  {
    hide EntryBytes, OffsetOf;
    OffsetsGrow(infos, k, k + 1);
    OffsetsGrow(infos, k + 1, n);
    TableLength(infos, n, tbl, files);
    TableLength(infos, n - 1, tbl, files);
    EntryLength(infos, n - 1, tbl, files);
    var t := TableBytes(infos, n - 1, tbl, files);
    if k < n - 1 {
      OffsetsGrow(infos, k + 1, n - 1);
      EntryInTable(infos, k, n - 1, tbl, files);
      assert (t + EntryBytes(infos, n - 1, tbl, files))[OffsetOf(infos, k)..OffsetOf(infos, k + 1)] == t[OffsetOf(infos, k)..OffsetOf(infos, k + 1)];
    }
  }

  /** The bytes `b` are at `a`. */
  predicate BytesAt(m: Memory, a: nat, b: seq<Byte>) {
    a + |b| <= |m| && m[a..a + |b|] == b
  }

  lemma {:induction false} PartAt(m: Memory, a: nat, x: seq<Byte>, y: seq<Byte>)
    requires BytesAt(m, a, x + y)
    ensures BytesAt(m, a, x) && BytesAt(m, a + |x|, y)
  {
    assert m[a..a + |x|] == (x + y)[..|x|];
    assert m[a + |x|..a + |x + y|] == (x + y)[|x|..];
  }

  lemma {:induction false} WordAtBytes(m: Memory, a: nat, w: Word)
    requires BytesAt(m, a, WordBytes(w))
    ensures LoadWord(m, a) == w
  {
    var b := m[a..a + 4];
    assert m[a] == b[0] && m[a + 1] == b[1] && m[a + 2] == b[2] && m[a + 3] == b[3];
    SplitJoin(w);
  }

  /** What an entry at `a` says. */
  predicate EntrySays(m: Memory, a: nat, base: Word, next: Word, size: Word, crc: Word, flags: Word, name: Name) {
    && a + NAME < |m| && LoadWord(m, a + BASE) == base && LoadWord(m, a + NEXT) == next && LoadWord(m, a + SIZE) == size
    && LoadWord(m, a + CRC) == crc && LoadWord(m, a + FLAGS) == flags && CStringAt(m, a + NAME, name)
  }

  lemma {:induction false} EntryRead(infos: seq<Info>, k: nat, tbl: nat, files: nat, m: Memory, a: nat)
    requires k < |infos| && BytesAt(m, a, EntryBytes(infos, k, tbl, files)) && 0 !in infos[k].name
    ensures EntrySays(m, a, Wrap(files + BaseOf(infos, k)), NextOf(infos, k, tbl), infos[k].size, infos[k].crc, 0, infos[k].name)
  {
    hide WordBytes, PaddedName, Wrap, BaseOf, NextOf, BytesAt, LoadWord, CStringAt;
    var w0, w1, w2, w3, w4 := WordBytes(Wrap(files + BaseOf(infos, k))), WordBytes(NextOf(infos, k, tbl)), WordBytes(infos[k].size),
      WordBytes(infos[k].crc), WordBytes(0);
    var name := PaddedName(infos[k].name);
    PartAt(m, a, w0 + w1 + w2 + w3 + w4, name);
    PartAt(m, a, w0 + w1 + w2 + w3, w4);
    PartAt(m, a, w0 + w1 + w2, w3);
    PartAt(m, a, w0 + w1, w2);
    PartAt(m, a, w0, w1);
    WordAtBytes(m, a + BASE, Wrap(files + BaseOf(infos, k)));
    WordAtBytes(m, a + NEXT, NextOf(infos, k, tbl));
    WordAtBytes(m, a + SIZE, infos[k].size);
    WordAtBytes(m, a + CRC, infos[k].crc);
    WordAtBytes(m, a + FLAGS, 0);
    NameRead(m, a + NAME, infos[k].name);
  }

  lemma {:induction false} NameRead(m: Memory, a: nat, name: Name)
    requires BytesAt(m, a, PaddedName(name)) && 0 !in name
    ensures a < |m| && CStringAt(m, a, name)
  {
    hide PadLen;
    var b := PaddedName(name);
    assert m[a..a + |name|] == b[..|name|];
    assert m[a..a + |b|][|name|] == 0;
  }

  // ----- the linker's view -----

  /** The generated table is at `tbl` in memory. */
  ghost predicate TableAt(m: Memory, infos: seq<Info>, tbl: nat, files: nat) {
    && infos != [] && Addressable(infos, tbl, files) && BytesAt(m, tbl, TableBytes(infos, |infos|, tbl, files))
    && forall k :: 0 <= k < |infos| ==> 0 !in infos[k].name
  }

  function Places(infos: seq<Info>, tbl: nat): (ps: seq<nat>)
    ensures |ps| == |infos| && forall k :: 0 <= k < |ps| ==> ps[k] == tbl + OffsetOf(infos, k)
  {
    seq(|infos|, k requires 0 <= k < |infos| => tbl + OffsetOf(infos, k))
  }

  function NamesOf(infos: seq<Info>): (names: seq<Name>)
    ensures |names| == |infos| && forall k :: 0 <= k < |names| ==> names[k] == infos[k].name
  {
    seq(|infos|, k requires 0 <= k < |infos| => infos[k].name)
  }

  lemma {:induction false} EntryHere(m: Memory, infos: seq<Info>, tbl: nat, files: nat, k: nat)
    requires TableAt(m, infos, tbl, files) && k < |infos|
    ensures files + BaseOf(infos, k) < WORD_LIMIT
    ensures EntrySays(m, tbl + OffsetOf(infos, k), files + BaseOf(infos, k), NextOf(infos, k, tbl), infos[k].size, infos[k].crc, 0, infos[k].name)
    ensures k + 1 < |infos| ==> NextOf(infos, k, tbl) == tbl + OffsetOf(infos, k + 1)
  {
    hide EntryBytes, TableBytes, EntrySays, OffsetOf, BaseOf;
    var t := TableBytes(infos, |infos|, tbl, files);
    var lo, hi := OffsetOf(infos, k), OffsetOf(infos, k + 1);
    EntryInTable(infos, k, |infos|, tbl, files);
    OffsetsGrow(infos, k + 1, |infos|);
    OffsetsGrow(infos, k, |infos|);
    TableLength(infos, |infos|, tbl, files);
    SliceAt(m, tbl, t, lo, hi);
    EntryRead(infos, k, tbl, files, m, tbl + lo);
  }

  lemma {:induction false} SliceAt(m: Memory, a: nat, t: seq<Byte>, lo: nat, hi: nat)
    requires BytesAt(m, a, t) && lo <= hi <= |t|
    ensures BytesAt(m, a + lo, t[lo..hi])
  {
    var x, y := m[a + lo..a + hi], t[lo..hi];
    forall i | 0 <= i < hi - lo
      ensures x[i] == y[i]
    {
      assert x[i] == m[a..a + |t|][lo + i];
    }
    assert x == y;
  }

  /** From entry `k` on, the `next` pointers run through the remaining entries. */
  lemma {:induction false} ListFrom(m: Memory, infos: seq<Info>, tbl: nat, files: nat, k: nat)
    requires TableAt(m, infos, tbl, files) && k < |infos|
    ensures IsList(m, tbl + OffsetOf(infos, k), Places(infos, tbl)[k..])
    decreases |infos| - k
  {
    hide EntryBytes, TableBytes, OffsetOf, BaseOf, CStringAt, LoadWord, NextOf;
    var ps := Places(infos, tbl);
    EntryHere(m, infos, tbl, files, k);
    Positive(m, infos, tbl, files);
    assert ps[k..][1..] == ps[k + 1..] && ps[k..][0] == ps[k];
    if k + 1 < |infos| {
      ListFrom(m, infos, tbl, files, k + 1);
    } else {
      LastNext(infos, k, tbl);
    }
  }

  lemma LastNext(infos: seq<Info>, k: nat, tbl: nat)
    requires k + 1 == |infos|
    ensures NextOf(infos, k, tbl) == 0
  {
  }

  lemma Positive(m: Memory, infos: seq<Info>, tbl: nat, files: nat)
    requires TableAt(m, infos, tbl, files)
    ensures 0 < tbl
  {
  }

  /** The linker's walk over the generated table meets every file in order, each with
      its name, so that count, index and first-by-name lookup are those of the list of
      names; and the flash range of each file follows that of the one before. */
  lemma {:induction false} TableIsList(m: Memory, infos: seq<Info>, tbl: nat, files: nat)
    requires TableAt(m, infos, tbl, files)
    ensures IsList(m, tbl, Places(infos, tbl)) && Named(m, Places(infos, tbl), NamesOf(infos))
    ensures forall k :: 0 <= k < |infos| ==> FileRange(m, infos, tbl, files, k)
  {
    hide EntryBytes, TableBytes, BaseOf, CStringAt, LoadWord, NextOf, IsList, BytesAt, Addressable, OffsetOf, FileRange;
    FirstEntry(m, infos, tbl, files);
    forall k | 0 <= k < |infos|
      ensures CStringAt(m, Places(infos, tbl)[k] + NAME, NamesOf(infos)[k])
      ensures FileRange(m, infos, tbl, files, k)
    {
      EntryNamed(m, infos, tbl, files, k);
    }
  }

  lemma {:induction false} FirstEntry(m: Memory, infos: seq<Info>, tbl: nat, files: nat)
    requires TableAt(m, infos, tbl, files)
    ensures IsList(m, tbl, Places(infos, tbl))
  {
    hide EntryBytes, TableBytes, BaseOf, NextOf, IsList, BytesAt, Addressable;
    ListFrom(m, infos, tbl, files, 0);
    assert Places(infos, tbl)[0..] == Places(infos, tbl);
  }

  /** Entry `k` has the flash range of file `k`, right behind the files before it. */
  predicate FileRange(m: Memory, infos: seq<Info>, tbl: nat, files: nat, k: nat)
    requires k < |infos|
  {
    var r := RangeAt(m, tbl + OffsetOf(infos, k));
    r.base == files + BaseOf(infos, k) && r.size == infos[k].size
  }

  lemma {:induction false} EntryNamed(m: Memory, infos: seq<Info>, tbl: nat, files: nat, k: nat)
    requires TableAt(m, infos, tbl, files) && k < |infos|
    ensures CStringAt(m, tbl + OffsetOf(infos, k) + NAME, infos[k].name) && FileRange(m, infos, tbl, files, k)
  {
    hide EntryBytes, TableBytes, BaseOf, CStringAt, LoadWord, NextOf, IsList, BytesAt, Addressable, OffsetOf, TableAt;
    EntryHere(m, infos, tbl, files, k);
  }

  /** Non-empty files that fit the files region are placed as the free space search and
      the mover want them. */
  lemma {:induction false} GeneratedPlaced(m: Memory, infos: seq<Info>, tbl: nat, files: Word, filesSize: Word)
    requires TableAt(m, infos, tbl, files) && 0 < files && files + filesSize < WORD_LIMIT && filesSize < 0x8000_0000
    requires BaseOf(infos, |infos|) <= filesSize && forall k :: 0 <= k < |infos| ==> infos[k].size > 0
    ensures Placed(RangesAt(m, Places(infos, tbl)), files, filesSize)
  {
    hide TableAt, IsList, Named, RangeAt, OffsetOf;
    TableIsList(m, infos, tbl, files);
    var rs := RangesAt(m, Places(infos, tbl));
    assert forall k :: 0 <= k < |rs| ==> FileRange(m, infos, tbl, files, k) && rs[k] == RangeAt(m, tbl + OffsetOf(infos, k));
    forall k | 0 <= k < |rs|
      ensures InRegion(rs[k], files, filesSize)
    {
      OffsetsGrow(infos, k + 1, |infos|);
    }
    forall j, k | 0 <= j < k < |rs|
      ensures Disjoint(rs[j], rs[k])
    {
      OffsetsGrow(infos, j + 1, k);
    }
  }

  // ----- the parser -----

  datatype FSEntry = FSEntry(fileOff: int, fileBase: Word, next: Word, size: Word, crc: Word, flags: Word, name: Name)

  /** `lma_to_file_off`; None is the exception. */
  function LmaToFileOff(secs: seq<Section>, v: Word): Option<int> {
    match LmaToSec(secs, v)
    case Some(k) => Some(OffsetIn(secs[k], v))
    case None => None
  }

  /** The first NUL at or after `a`. */
  function NulFrom(buf: Memory, a: nat): (r: Option<nat>)
    ensures r.Some? ==> a <= r.value < |buf| && buf[r.value] == 0 && 0 !in buf[a..r.value]
    decreases |buf| - a
  {
    if a >= |buf| then None
    else if buf[a] == 0 then Some(a)
    else
      var r := NulFrom(buf, a + 1);
      assert r.Some? ==> buf[a..r.value] == [buf[a]] + buf[a + 1..r.value];
      r
  }

  function EntryAt(buf: Memory, bufOff: int, a: nat, z: nat): FSEntry
    requires a + NAME <= z < |buf|
  {
    FSEntry(bufOff + a, LoadWord(buf, a + BASE), LoadWord(buf, a + NEXT), LoadWord(buf, a + SIZE), LoadWord(buf, a + CRC),
            LoadWord(buf, a + FLAGS), buf[a + NAME..z])
  }

  datatype Link = End | Broken | To(off: nat)

  /** Where the `next` pointer of the entry at `a` leads. */
  function LinkFrom(buf: Memory, bufOff: int, secs: seq<Section>, a: nat): Link {
    match NulFrom(buf, a + NAME)
    case None => Broken
    case Some(z) =>
      var next := LoadWord(buf, a + NEXT);
      if next == 0 then End
      else
        match LmaToFileOff(secs, next)
        case None => Broken
        case Some(off) => if 0 <= off - bufOff <= |buf| then To(off - bufOff) else Broken
  }

  /** The chain of entries from `a` on ends or breaks off within `n` entries. */
  predicate Ends(buf: Memory, bufOff: int, secs: seq<Section>, a: nat, n: nat)
    decreases n
  {
    n > 0 && match LinkFrom(buf, bufOff, secs, a)
             case To(off) => Ends(buf, bufOff, secs, off, n - 1)
             case _ => true
  }

  /** The entries from `a` on, or the exception. */
  function Parsed(buf: Memory, bufOff: int, secs: seq<Section>, a: nat, n: nat): Outcome<seq<FSEntry>>
    requires Ends(buf, bufOff, secs, a, n)
    decreases n
  {
    match LinkFrom(buf, bufOff, secs, a)
    case Broken => Failed(1)
    case End => Done([EntryAt(buf, bufOff, a, NulFrom(buf, a + NAME).value)])
    case To(off) =>
      match Parsed(buf, bufOff, secs, off, n - 1)
      case Done(rest) => Done([EntryAt(buf, bufOff, a, NulFrom(buf, a + NAME).value)] + rest)
      case Failed(code) => Failed(code)
      case Trapped => Trapped
  }

  method FindNul(buf: Memory, a: nat) returns (r: Option<nat>)
    ensures r == NulFrom(buf, a)
  {
    var offset := a;
    while offset < |buf|
      invariant a <= offset && NulFrom(buf, a) == NulFrom(buf, offset)
    {
      if buf[offset] == 0 {
        return Some(offset);
      }
      offset := offset + 1;
    }
    return None;
  }

  method FindLma(secs: seq<Section>, v: Word) returns (r: Option<int>)
    ensures r == LmaToFileOff(secs, v)
  {
    var k := FindWhere(secs, (s: Section) => LmaIn(s, v));
    return if k.Some? then Some(OffsetIn(secs[k.value], v)) else None;
  }

  /** What the loop still has to add, given what it has. */
  function Joined(ret: seq<FSEntry>, rest: Outcome<seq<FSEntry>>): Outcome<seq<FSEntry>> {
    match rest
    case Done(es) => Done(ret + es)
    case Failed(code) => Failed(code)
    case Trapped => Trapped
  }

  /** `parse_fs_table`; Failed is an exception.  It comes to an end when the chain of
      `next` pointers does, within `n` entries. */
  method ParseFsTable(buf: Memory, bufOff: int, secs: seq<Section>, ghost n: nat) returns (r: Outcome<seq<FSEntry>>)
    requires Ends(buf, bufOff, secs, 0, n)
    ensures r == Parsed(buf, bufOff, secs, 0, n)
  {
    hide LoadWord, LmaToFileOff, NulFrom;
    var ret: seq<FSEntry> := [];
    var a: nat := 0;
    ghost var left := n;
    JoinedNothing(Parsed(buf, bufOff, secs, 0, n));
    while true
      invariant Ends(buf, bufOff, secs, a, left)
      invariant Joined(ret, Parsed(buf, bufOff, secs, a, left)) == Parsed(buf, bufOff, secs, 0, n)
      decreases left
    {
      var z := FindNul(buf, a + NAME);
      if z.None? {
        return Failed(1);
      }
      var next := LoadWord(buf, a + NEXT);
      var fse := EntryAt(buf, bufOff, a, z.value);
      if next == 0 {
        return Done(ret + [fse]);
      }
      var off := FindLma(secs, next);
      if off.None? || off.value - bufOff < 0 || off.value - bufOff > |buf| {
        return Failed(1);
      }
      JoinedMore(ret, fse, Parsed(buf, bufOff, secs, off.value - bufOff, left - 1));
      ret := ret + [fse];
      a := off.value - bufOff;
      left := left - 1;
    }
  }

  lemma JoinedNothing(r: Outcome<seq<FSEntry>>)
    ensures Joined([], r) == r
  {
    if r.Done? {
      assert [] + r.value == r.value;
    }
  }

  lemma JoinedMore(ret: seq<FSEntry>, e: FSEntry, rest: Outcome<seq<FSEntry>>)
    ensures Joined(ret, Joined([e], rest)) == Joined(ret + [e], rest)
  {
    if rest.Done? {
      assert ret + ([e] + rest.value) == (ret + [e]) + rest.value;
    }
  }

  // ----- the round trip -----

  /** The section list maps the addresses of the table to its place in the file. */
  ghost predicate TableMapped(secs: seq<Section>, tbl: nat, len: nat, bufOff: int) {
    forall v: Word :: tbl <= v < tbl + len ==> LmaToFileOff(secs, v) == Some(bufOff + (v - tbl))
  }

  /** What the parser says of file `k`. */
  function EntryOf(infos: seq<Info>, tbl: nat, files: nat, bufOff: int, k: nat): FSEntry
    requires k < |infos|
  {
    FSEntry(bufOff + OffsetOf(infos, k), Wrap(files + BaseOf(infos, k)), NextOf(infos, k, tbl), infos[k].size, infos[k].crc, 0, infos[k].name)
  }

  function Entries(infos: seq<Info>, tbl: nat, files: nat, bufOff: int): (es: seq<FSEntry>)
    ensures |es| == |infos| && forall k :: 0 <= k < |infos| ==> es[k] == EntryOf(infos, tbl, files, bufOff, k)
  {
    seq(|infos|, k requires 0 <= k < |infos| => EntryOf(infos, tbl, files, bufOff, k))
  }

  lemma {:induction false} NulAtEnd(buf: Memory, a: nat, name: Name)
    requires CStringAt(buf, a, name)
    ensures NulFrom(buf, a) == Some(a + |name|)
    decreases |name|
  {
    if name != [] {
      assert buf[a] == buf[a..a + |name|][0] == name[0] && name[0] in name;
      assert buf[a + 1..a + |name|] == buf[a..a + |name|][1..];
      NulAtEnd(buf, a + 1, name[1..]);
    }
  }

  /** The generated table, whose bytes are at the start of `buf`. */
  ghost predicate TableIn(buf: Memory, infos: seq<Info>, tbl: nat, files: nat) {
    && infos != [] && Addressable(infos, tbl, files) && BytesAt(buf, 0, TableBytes(infos, |infos|, tbl, files))
    && forall k :: 0 <= k < |infos| ==> 0 !in infos[k].name
  }

  lemma {:induction false} EntryParsed(buf: Memory, infos: seq<Info>, tbl: nat, files: nat, bufOff: int, secs: seq<Section>, k: nat)
    requires TableIn(buf, infos, tbl, files) && TableMapped(secs, tbl, |buf|, bufOff) && k < |infos|
    ensures LinkFrom(buf, bufOff, secs, OffsetOf(infos, k)) == if k + 1 < |infos| then To(OffsetOf(infos, k + 1)) else End
    ensures NulFrom(buf, OffsetOf(infos, k) + NAME).Some?
    ensures EntryAt(buf, bufOff, OffsetOf(infos, k), NulFrom(buf, OffsetOf(infos, k) + NAME).value) == EntryOf(infos, tbl, files, bufOff, k)
  {
    hide EntryBytes, TableBytes, OffsetOf, BaseOf, LoadWord, LmaToFileOff, NulFrom, Wrap;
    var lo, hi := OffsetOf(infos, k), OffsetOf(infos, k + 1);
    var t := TableBytes(infos, |infos|, tbl, files);
    EntryInTable(infos, k, |infos|, tbl, files);
    OffsetsGrow(infos, k + 1, |infos|);
    TableLength(infos, |infos|, tbl, files);
    SliceAt(buf, 0, t, lo, hi);
    EntryRead(infos, k, tbl, files, buf, lo);
    NulAtEnd(buf, lo + NAME, infos[k].name);
    NextIs(infos, k, tbl, files);
  }

  lemma {:induction false} NextIs(infos: seq<Info>, k: nat, tbl: nat, files: nat)
    requires Addressable(infos, tbl, files) && k < |infos|
    ensures if k + 1 < |infos| then NextOf(infos, k, tbl) == tbl + OffsetOf(infos, k + 1) && NextOf(infos, k, tbl) != 0
            else NextOf(infos, k, tbl) == 0
    ensures k + 1 < |infos| ==> OffsetOf(infos, k + 1) < OffsetOf(infos, |infos|)
  {
    hide OffsetOf, BaseOf;
    OffsetsGrow(infos, k + 1, |infos|);
    if k + 1 < |infos| {
      NextOffset(infos, k + 1);
      OffsetsGrow(infos, k + 2, |infos|);
    }
  }

  lemma NextOffset(infos: seq<Info>, k: nat)
    requires k < |infos|
    ensures OffsetOf(infos, k) < OffsetOf(infos, k + 1)
  {
    hide PaddedName;
  }

  lemma {:induction false} ParsesFrom(buf: Memory, infos: seq<Info>, tbl: nat, files: nat, bufOff: int, secs: seq<Section>, k: nat)
    requires TableIn(buf, infos, tbl, files) && TableMapped(secs, tbl, |buf|, bufOff) && k < |infos|
    ensures Ends(buf, bufOff, secs, OffsetOf(infos, k), |infos| - k)
    ensures Parsed(buf, bufOff, secs, OffsetOf(infos, k), |infos| - k) == Done(Entries(infos, tbl, files, bufOff)[k..])
    decreases |infos| - k
  {
    hide TableIn, TableMapped, OffsetOf, LinkFrom, NulFrom, EntryAt, EntryOf, Entries;
    var es := Entries(infos, tbl, files, bufOff);
    EntryParsed(buf, infos, tbl, files, bufOff, secs, k);
    assert es[k..] == [es[k]] + es[k + 1..];
    if k + 1 < |infos| {
      ParsesFrom(buf, infos, tbl, files, bufOff, secs, k + 1);
    } else {
      assert es[k..] == [es[k]];
    }
  }

  /** Parsing a generated table gives back every file, in order, with its size, CRC
      and name, and the running sum of the sizes before it as its base. */
  lemma {:induction false} ParseGenerated(buf: Memory, infos: seq<Info>, tbl: nat, files: nat, bufOff: int, secs: seq<Section>)
    requires TableIn(buf, infos, tbl, files) && TableMapped(secs, tbl, |buf|, bufOff)
    ensures Ends(buf, bufOff, secs, 0, |infos|)
    ensures Parsed(buf, bufOff, secs, 0, |infos|) == Done(Entries(infos, tbl, files, bufOff))
  {
    hide TableMapped, Parsed, Ends, EntryOf, Entries;
    ParsesFrom(buf, infos, tbl, files, bufOff, secs, 0);
    assert Entries(infos, tbl, files, bufOff)[0..] == Entries(infos, tbl, files, bufOff);
  }

  /** Generate, then parse: the bytes that `gen_hdr` prints parse back to the files it
      was given. */
  method GenerateAndParse(infos: seq<Info>, tbl: nat, files: nat, tableSize: nat, bufOff: int, secs: seq<Section>)
    returns (r: Outcome<seq<FSEntry>>)
    requires infos != [] && Addressable(infos, tbl, files) && TableMapped(secs, tbl, tableSize, bufOff)
    requires forall k :: 0 <= k < |infos| ==> 0 !in infos[k].name
    ensures r == if OffsetOf(infos, |infos|) > tableSize then Failed(1) else Done(Entries(infos, tbl, files, bufOff))
  {
    hide TableBytes, Addressable, TableMapped, OffsetOf, Entries, Parsed, Ends;
    var buf := GenHdr(infos, tbl, files, tableSize);
    if !buf.Done? {
      return Failed(1);
    }
    TableLength(infos, |infos|, tbl, files);
    assert BytesAt(buf.value, 0, TableBytes(infos, |infos|, tbl, files));
    ParseGenerated(buf.value, infos, tbl, files, bufOff, secs);
    r := ParseFsTable(buf.value, bufOff, secs, |infos|);
  }
}
