/** Loading one file: its section lists, its memory and its memory fixups
    (uld_load_create_file and uld_load_file in src/uld_load.c,
    uld_rofixup_apply_mem_fixups in src/uld_rofixup.c). */
module FileLoad {
  import opened Words
  import opened Options
  import opened Sections
  import opened Fixups
  import opened ElfImage
  import opened SectionList
  import opened MemLoad
  import opened MemFixups

  // ----- the section lists of a file -----

  datatype Lists = Lists(mem: seq<Section>, flash: seq<Section>, other: seq<Section>)

  datatype Counts = Counts(mem: nat, flash: nat, other: nat)

  /** The list of one type, with `room` places left; without room it stays empty. */
  function ListFor(img: Image, mask: set<SecType>, ty: SecType, room: int): (r: Outcome<seq<Section>>)
    ensures r.Done? ==> |r.value| <= if room > 0 then room else 0
    ensures !r.Failed?
  {
    if ty !in mask || room <= 0 then Done([]) else Listed(img, {ty}, |img.shdrs|, room)
  }

  /** Memory sections first, then flash sections, then the rest, as far as there is room. */
  function FileLists(img: Image, mask: set<SecType>, snum: nat): (r: Outcome<Lists>)
    ensures r.Done? ==> |r.value.mem| + |r.value.flash| + |r.value.other| <= snum
    ensures !r.Failed?
  {
    var mem := ListFor(img, mask, MemType, snum);
    if mem.Trapped? then Trapped
    else
      var flash := ListFor(img, mask, FlashType, snum - |mem.value|);
      if flash.Trapped? then Trapped
      else
        var other := ListFor(img, mask, OtherType, snum - |mem.value| - |flash.value|);
        if other.Trapped? then Trapped else Done(Lists(mem.value, flash.value, other.value))
  }

  /** One turn of the loop over the section types. */
  method CreatePart(img: Image, secs: array<Section>, from: nat, room: nat, mask: set<SecType>, ty: SecType) returns (r: Outcome<nat>)
    requires from + room <= secs.Length
    modifies secs
    ensures match ListFor(img, mask, ty, room)
            case Done(list) => r == Done(|list|) && secs[from..from + |list|] == list
            case _ => r == Trapped
    ensures r.Done? ==> forall k :: 0 <= k < secs.Length && !(from <= k < from + r.value) ==> secs[k] == old(secs[k])
  {
    hide Listed;
    if ty !in mask {
      return Done(0);
    }
    r := CreateSecList(img, secs, from, room, {ty});
    if r.Failed? {
      r := Done(0);
    }
  }

  /** `uld_load_create_file` into the `snum` places from `from` on. */
  method CreateFile(img: Image, secs: array<Section>, from: nat, snum: int, mask: set<SecType>) returns (r: Outcome<Counts>)
    requires snum > 0 ==> from + snum <= secs.Length
    modifies secs
    ensures snum <= 0 ==> r == Failed(-1)
    ensures snum > 0 ==> match FileLists(img, mask, snum)
                         case Done(l) =>
                           && r == Done(Counts(|l.mem|, |l.flash|, |l.other|))
                           && from + |l.mem| + |l.flash| + |l.other| <= secs.Length
                           && secs[from..from + |l.mem|] == l.mem
                           && secs[from + |l.mem|..from + |l.mem| + |l.flash|] == l.flash
                           && secs[from + |l.mem| + |l.flash|..from + |l.mem| + |l.flash| + |l.other|] == l.other
                         case _ => r == Trapped
    ensures r.Done? ==> forall k :: 0 <= k < secs.Length && !(from <= k < from + snum) ==> secs[k] == old(secs[k])
  {
    hide ListFor;
    if snum <= 0 {
      return Failed(-1);
    }
    var a := CreatePart(img, secs, from, snum, mask, MemType);
    if !a.Done? {
      return Trapped;
    }
    ghost var one := secs[..];
    var at := from + a.value;
    var b := CreatePart(img, secs, at, snum - a.value, mask, FlashType);
    if !b.Done? {
      return Trapped;
    }
    ghost var two := secs[..];
    var end := at + b.value;
    var c := CreatePart(img, secs, end, snum - a.value - b.value, mask, OtherType);
    if !c.Done? {
      return Trapped;
    }
    PartKept(one, two, from, at, at, end);
    PartKept(two, secs[..], from, at, end, end + c.value);
    PartKept(two, secs[..], at, end, end, end + c.value);
    return Done(Counts(a.value, b.value, c.value));
  }

  /** A part of the array in front of what is written. */
  lemma PartKept(s: seq<Section>, t: seq<Section>, a: nat, b: nat, lo: nat, hi: nat)
    requires a <= b <= lo && b <= |s| == |t| && forall k :: 0 <= k < |s| && !(lo <= k < hi) ==> t[k] == s[k]
    ensures t[a..b] == s[a..b]
  {
  }

  lemma {:induction false} MaskSplits(img: Image, mask: set<SecType>, n: nat)
    requires n <= 1 || n <= |img.shdrs|
    ensures |Matching(img, mask, n)| == |Matching(img, mask * {MemType}, n)| + |Matching(img, mask * {FlashType}, n)|
                                      + |Matching(img, mask * {OtherType}, n)|
    decreases n
  {
    if n > 1 {
      MaskSplits(img, mask, n - 1);
    }
  }

  lemma NoneMatch(img: Image, n: nat)
    requires n <= 1 || n <= |img.shdrs|
    ensures Matching(img, {}, n) == []
  {
  }

  lemma {:induction false} PartExact(img: Image, mask: set<SecType>, ty: SecType, room: int)
    requires AllTyped(img) && Count(img, mask * {ty}) <= room
    ensures var r := ListFor(img, mask, ty, room);
            r.Done? && multiset(r.value) == multiset(Matching(img, mask * {ty}, |img.shdrs|)) && |r.value| == Count(img, mask * {ty})
  {
    hide Matching, Listed, AllTyped;
    if ty in mask {
      assert mask * {ty} == {ty};
      if room > 0 {
        ListedIsMatching(img, {ty}, |img.shdrs|, room);
      } else {
        assert Matching(img, {ty}, |img.shdrs|) == [];
      }
    } else {
      assert mask * {ty} == {};
      NoneMatch(img, |img.shdrs|);
    }
  }

  /** With at least as many places as the count of the first pass, no section is
      dropped: each list holds every section of its type, and together they take
      exactly that many places. */
  lemma {:induction false} FileListsExact(img: Image, mask: set<SecType>, snum: nat)
    requires AllTyped(img) && Count(img, mask) <= snum
    ensures FileLists(img, mask, snum).Done?
    ensures var l := FileLists(img, mask, snum).value;
            && multiset(l.mem) == multiset(Matching(img, mask * {MemType}, |img.shdrs|))
            && multiset(l.flash) == multiset(Matching(img, mask * {FlashType}, |img.shdrs|))
            && multiset(l.other) == multiset(Matching(img, mask * {OtherType}, |img.shdrs|))
            && |l.mem| + |l.flash| + |l.other| == Count(img, mask)
  {
    hide Matching, ListFor, AllTyped, Count;
    CountSplits(img, mask);
    var mem := ListFor(img, mask, MemType, snum);
    PartExact(img, mask, MemType, snum);
    var flash := ListFor(img, mask, FlashType, snum - |mem.value|);
    PartExact(img, mask, FlashType, snum - |mem.value|);
    var other := ListFor(img, mask, OtherType, snum - |mem.value| - |flash.value|);
    PartExact(img, mask, OtherType, snum - |mem.value| - |flash.value|);
    assert FileLists(img, mask, snum) == Done(Lists(mem.value, flash.value, other.value));
  }

  lemma CountSplits(img: Image, mask: set<SecType>)
    ensures Count(img, mask) == Count(img, mask * {MemType}) + Count(img, mask * {FlashType}) + Count(img, mask * {OtherType})
  {
    hide Matching;
    MaskSplits(img, mask, |img.shdrs|);
  }

  // ----- the lists when there is room for all -----

  /** The list of all sections of the types in `mask`. */
  function FullList(img: Image, mask: set<SecType>, n: nat): seq<Section>
    requires n <= 1 || n <= |img.shdrs|
  {
    if n <= 1 then []
    else if Matches(img, mask, n - 1) then Insert(FullList(img, mask, n - 1), MakeSection(img, n - 1))
    else FullList(img, mask, n - 1)
  }

  lemma {:induction false} ListedIsFull(img: Image, mask: set<SecType>, n: nat, snum: nat)
    requires AllTyped(img) && (n <= 1 || n <= |img.shdrs|) && |Matching(img, mask, n)| <= snum && 0 < snum
    ensures Listed(img, mask, n, snum) == Done(FullList(img, mask, n)) && |FullList(img, mask, n)| == |Matching(img, mask, n)|
    decreases n
  {
    if n > 1 {
      MatchingGrows(img, mask, n - 1, n);
      ListedIsFull(img, mask, n - 1, snum);
      hide Insert, MakeSection, TypeOf;
      InsertAdds(FullList(img, mask, n - 1), MakeSection(img, n - 1));
    }
  }

  const LOAD_MASK: set<SecType> := {FlashType, MemType}

  /** The lists that the dynamic loader makes of an image. */
  function ListsOf(img: Image): Lists {
    Lists(FullList(img, {MemType}, |img.shdrs|), FullList(img, {FlashType}, |img.shdrs|), [])
  }

  lemma {:induction false} PartIsFull(img: Image, ty: SecType, room: int)
    requires AllTyped(img) && Count(img, {ty}) <= room && ty in LOAD_MASK
    ensures ListFor(img, LOAD_MASK, ty, room) == Done(FullList(img, {ty}, |img.shdrs|))
    ensures |FullList(img, {ty}, |img.shdrs|)| == Count(img, {ty})
  {
    hide Matching, Listed, AllTyped, FullList;
    if room > 0 {
      ListedIsFull(img, {ty}, |img.shdrs|, room);
    } else {
      ListedIsFull(img, {ty}, |img.shdrs|, 1);
    }
  }

  /** How much room there is beyond the count does not matter. */
  lemma {:induction false} ListsWithRoom(img: Image, snum: nat)
    requires AllTyped(img) && Count(img, LOAD_MASK) <= snum
    ensures FileLists(img, LOAD_MASK, snum) == Done(ListsOf(img))
    ensures |ListsOf(img).mem| + |ListsOf(img).flash| == Count(img, LOAD_MASK)
  {
    hide Matching, ListFor, AllTyped, Count, FullList;
    CountSplits(img, LOAD_MASK);
    assert LOAD_MASK * {MemType} == {MemType} && LOAD_MASK * {FlashType} == {FlashType} && LOAD_MASK * {OtherType} == {};
    PartIsFull(img, MemType, snum);
    PartIsFull(img, FlashType, snum - Count(img, {MemType}));
    NothingOther(img, snum - Count(img, {MemType}) - Count(img, {FlashType}));
  }

  lemma NothingOther(img: Image, room: int)
    ensures ListFor(img, LOAD_MASK, OtherType, room) == Done([]) && Count(img, {}) == 0
  {
    NoneMatch(img, |img.shdrs|);
  }

  /** `s` is the section that is made of a header of the image. */
  ghost predicate FromHeaders(img: Image, s: Section) {
    exists h: nat :: h < |img.shdrs| && TypeOf(img.shdrs[h]).Some? && s == MakeSection(img, h)
  }

  lemma {:induction false} FullListTypes(img: Image, mask: set<SecType>, n: nat)
    requires n <= 1 || n <= |img.shdrs|
    ensures forall s :: s in FullList(img, mask, n) ==> s.ty in mask && !s.loaded && FromHeaders(img, s)
    decreases n
  {
    if n > 1 {
      FullListTypes(img, mask, n - 1);
      hide Insert;
      if Matches(img, mask, n - 1) {
        var s := MakeSection(img, n - 1);
        assert s.ty in mask && !s.loaded && FromHeaders(img, s);
        SameMembers(FullList(img, mask, n - 1), s);
      }
    }
  }

  // ----- one file -----

  /** What `uld_load_file` reports of a file, and the end of memory it passes on. */
  datatype LoadedFile = LoadedFile(counts: Counts, membase: Word, memsz: Word, nextBase: nat, nextSize: nat)

  /** The memory sections have room at `base`, away from the flash image, and the
      fixups of the placed sections lie in that room and do not overlap. */
  ghost predicate FileReady(m: Memory, l: Lists, base: nat, table: Option<TableAt>) {
    && RoomFor(l.mem, base, |m|)
    && (table.Some? ==>
          && Apart(table.value.at, 4 * TableLen(table.value.size), base, Total(l.mem))
          && FixupsReady(m, l.flash, PlacedList(l.mem, base), base, table.value)
          && forall k, p :: FixupAt(m, l, base, table.value, k, p) ==> base <= p && p + 4 <= base + Total(l.mem))
  }

  /** Fixup `k` of the table is carried out at `p`. */
  ghost predicate FixupAt(m: Memory, l: Lists, base: nat, t: TableAt, k: int, p: int)
    requires base < WORD_LIMIT
  {
    At(MemJobFor(l.flash, PlacedList(l.mem, base), base), PlacedList(l.mem, base), NeedsMemFixup, FixupWords(m, t), k, p)
  }

  /** Byte `x` of memory `m` once the first `n` sections are placed from `base` on. */
  function PlacedByte(m: Memory, list: seq<Section>, base: nat, n: nat, x: nat): Byte
    requires n <= |list| && x < |m|
    decreases n
  {
    if n == 0 then m[x]
    else
      var at := base + SizeBefore(list, n - 1);
      if list[n - 1].ty == MemType && at <= x < at + list[n - 1].size then InitByte(m, list[n - 1], x - at)
      else PlacedByte(m, list, base, n - 1, x)
  }

  /** Memory `m` with all sections of the list placed from `base` on. */
  function Filling(m: Memory, list: seq<Section>, base: nat): (r: Memory)
    ensures |r| == |m| && forall x :: 0 <= x < |m| ==> r[x] == PlacedByte(m, list, base, |list|, x)
  {
    seq(|m|, x requires 0 <= x < |m| => PlacedByte(m, list, base, |list|, x))
  }

  lemma {:induction false} PlacedByteIs(m: Memory, mid: Memory, list: seq<Section>, base: nat, n: nat, x: nat)
    requires n <= |list| && x < |m| == |mid| && Contents(m, mid, list, base, n)
    ensures PlacedByte(m, list, base, n, x) == if base <= x < base + SizeBefore(list, n) then mid[x] else m[x]
    decreases n
  {
    hide InitByte;
    if n > 0 {
      PlacedByteIs(m, mid, list, base, n - 1, x);
      assert list[n - 1].ty == MemType ==> Filled(m, mid, list[n - 1], base + SizeBefore(list, n - 1));
    }
  }

  /** That is the only memory in which the sections are placed and all else is as it was. */
  lemma {:induction false} FillingOnly(m: Memory, mid: Memory, list: seq<Section>, base: nat)
    requires Contents(m, mid, list, base, |list|) && SameOutside(m, mid, base, Total(list))
    ensures mid == Filling(m, list, base)
  {
    hide Contents, PlacedByte, SizeBefore;
    forall x | 0 <= x < |m|
      ensures mid[x] == Filling(m, list, base)[x]
    {
      PlacedByteIs(m, mid, list, base, |list|, x);
    }
  }

  /** Every fixup word of the placed sections is in a section of the file. */
  ghost predicate WordsAccounted(m: Memory, l: Lists, base: Word, t: TableAt) {
    var list := PlacedList(l.mem, base);
    var job := MemJobFor(l.flash, list, base);
    JobOk(job) && !SomeUnaccounted(job, list, NeedsMemFixup, FixupWords(m, t), Filling(m, l.mem, base))
  }

  /** What the load of a file with memory depends on: its sections are in one segment
      and do not overlap, it has a fixup table, and its fixup words are accounted for. */
  ghost predicate FileLoads(m: Memory, l: Lists, base: Word, table: Option<TableAt>) {
    !AnyRefused(l.mem, |l.mem|) && table.Some? && WordsAccounted(m, l, base, table.value)
  }

  /** In `m` the memory of the file is loaded: `mid` has the contents of its sections
      as they are in `m0`, `fin` differs from it by the memory fixups, and `m` has the
      bytes of `fin`. */
  ghost predicate LoadedVia(m0: Memory, m: Memory, l: Lists, base: nat, t: TableAt, mid: Memory, fin: Memory)
    requires base < WORD_LIMIT
  {
    var list := PlacedList(l.mem, base);
    var job, ws := MemJobFor(l.flash, list, base), FixupWords(m0, t);
    && Contents(m0, mid, l.mem, base, |l.mem|) && JobOk(job) && FixedUp(job, list, NeedsMemFixup, ws, |ws|, mid, fin)
    && base + Total(l.mem) <= |m| == |fin| && forall x :: base <= x < base + Total(l.mem) ==> m[x] == fin[x]
  }

  ghost predicate Loaded(m0: Memory, m: Memory, l: Lists, base: nat, t: TableAt)
    requires base < WORD_LIMIT
  {
    exists mid: Memory, fin: Memory :: LoadedVia(m0, m, l, base, t, mid, fin)
  }
}
