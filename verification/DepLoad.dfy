/** Loading all files of a dependency list (uld_dyn_get_dep_list_sec_count and
    uld_dyn_load_fse_dep_list in src/uld_dyn.c). */
module DepLoad {
  import opened Words
  import opened Options
  import opened Sections
  import opened Fixups
  import opened ElfImage
  import opened SectionList
  import opened MemLoad
  import opened MemFixups
  import opened FileLoad
  import opened LoadRun

  /** `struct uld_file`: where its sections are in the section array, its memory. */
  datatype UFile = UFile(secAt: nat, counts: Counts, membase: Word, memsz: Word)

  function SecsBefore(imgs: seq<Image>, mask: set<SecType>, i: nat): nat
    requires i <= |imgs|
    decreases i
  {
    if i == 0 then 0 else SecsBefore(imgs, mask, i - 1) + Count(imgs[i - 1], mask)
  }

  /** `uld_dyn_get_dep_list_sec_count`; it goes through the list from the end. */
  method GetDepListSecCount(imgs: seq<Image>, mask: set<SecType>) returns (r: Outcome<nat>)
    ensures (forall i :: 0 <= i < |imgs| ==> AllTyped(imgs[i])) ==> r == Done(SecsBefore(imgs, mask, |imgs|))
    ensures (exists i :: 0 <= i < |imgs| && !AllTyped(imgs[i])) ==> r == Trapped
  {
    hide AllTyped, Count;
    var count: nat, left: nat := 0, |imgs|;
    while left > 0
      invariant left <= |imgs| && count + SecsBefore(imgs, mask, left) == SecsBefore(imgs, mask, |imgs|)
      invariant forall i :: left <= i < |imgs| ==> AllTyped(imgs[i])
    {
      left := left - 1;
      var n := GetSecCount(imgs[left], mask);
      if !n.Done? {
        return Trapped;
      }
      count := count + n.value;
    }
    return Done(count);
  }

  // ----- what is given -----

  predicate NoGaps(list: seq<Section>) {
    forall i :: 0 <= i < |list| ==> Gap(list, i) == 0
  }

  lemma {:induction false} NoGapsBefore(list: seq<Section>, k: nat)
    requires NoGaps(list) && k <= |list|
    ensures GapsBefore(list, k) == 0
    decreases k
  {
    hide Gap;
    if k > 0 {
      NoGapsBefore(list, k - 1);
      assert Gap(list, k - 1) == 0;
    }
  }

  /** The flash bytes of the sections, and the fixup table, are outside `[lo, hi)`. */
  ghost predicate SourcesOutside(l: Lists, table: Option<TableAt>, lo: int, hi: int) {
    && (forall k :: 0 <= k < |l.mem| && l.mem[k].shType != SHT_NOBITS ==> Apart(l.mem[k].adjLma, l.mem[k].size, lo, hi - lo))
    && (table.Some? ==> Apart(table.value.at, 4 * TableLen(table.value.size), lo, hi - lo))
  }

  /** The files to load, from memory address `start` on, which is in memory: the headers of each are
      understood and name at least one section to load, its memory segment has no
      gaps and room at its base, its fixups lie in that room, and nothing that is
      read from flash is where memory is allocated. */
  ghost predicate FilesReady(m: Memory, imgs: seq<Image>, bssEnd: nat, start: nat) {
    0 < bssEnd && NextBase(bssEnd, start, 0) < WORD_LIMIT && forall i :: 0 <= i < |imgs| ==> ImageReady(m, imgs, bssEnd, start, i)
  }

  ghost predicate ImageReady(m: Memory, imgs: seq<Image>, bssEnd: nat, start: nat, i: nat)
    requires i < |imgs|
  {
    var l, base := ListsOf(imgs[i]), BaseOf(bssEnd, imgs, start, i);
    && AllTyped(imgs[i]) && Count(imgs[i], LOAD_MASK) > 0
    && (l.mem != [] ==>
          && base < WORD_LIMIT && NoGaps(l.mem) && FileReady(m, l, base, RofixupOf(imgs[i]))
          && SourcesOutside(l, RofixupOf(imgs[i]), NextBase(bssEnd, start, 0), EndOf(bssEnd, imgs, start, |imgs|)))
  }

  // ----- what is so after loading -----

  /** File `i` is loaded in memory `m` and recorded in `f` and `secs`. */
  ghost predicate FileDone(m0: Memory, m: Memory, imgs: seq<Image>, bssEnd: nat, start: nat, i: nat, f: UFile, secs: seq<Section>)
    requires i < |imgs|
  {
    var l, at := ListsOf(imgs[i]), SecsBefore(imgs, LOAD_MASK, i);
    && f.secAt == at && f.counts == Counts(|l.mem|, |l.flash|, 0)
    && at + |l.mem| + |l.flash| == SecsBefore(imgs, LOAD_MASK, i + 1) <= |secs|
    && secs[at + |l.mem|..at + |l.mem| + |l.flash|] == l.flash
    && if l.mem == [] then f.membase == 0 && f.memsz == 0
       else FileInMemory(m0, m, imgs, bssEnd, start, i, f, secs[at..at + |l.mem|])
  }

  ghost predicate FileInMemory(m0: Memory, m: Memory, imgs: seq<Image>, bssEnd: nat, start: nat, i: nat, f: UFile, placed: seq<Section>)
    requires i < |imgs|
  {
    var l, base := ListsOf(imgs[i]), BaseOf(bssEnd, imgs, start, i);
    && f.membase == base && f.memsz == Total(l.mem) && placed == PlacedList(l.mem, base)
    && RofixupOf(imgs[i]).Some? && Loaded(m0, m, l, base, RofixupOf(imgs[i]).value)
  }

  // ----- what one more file leaves alone -----

  lemma {:induction false} LoadedStays(m0: Memory, m: Memory, m1: Memory, l: Lists, base: nat, t: TableAt, b: int, size: int)
    requires base < WORD_LIMIT && Loaded(m0, m, l, base, t) && SameOutside(m, m1, b, size) && base + Total(l.mem) <= b
    ensures Loaded(m0, m1, l, base, t)
  {
    hide Contents, PlacedList, MemJobFor, Total, FixupWords, FixedUp, JobOk;
    var mid: Memory, fin: Memory :| LoadedVia(m0, m, l, base, t, mid, fin);
    assert LoadedVia(m0, m1, l, base, t, mid, fin);
  }

  lemma {:induction false} SameContents(m0: Memory, m: Memory, mid: Memory, list: seq<Section>, base: nat, lo: int, size: int)
    requires Contents(m, mid, list, base, |list|) && SameOutside(m0, m, lo, size)
    requires forall k :: 0 <= k < |list| && list[k].shType != SHT_NOBITS ==> Apart(list[k].adjLma, list[k].size, lo, size)
    ensures Contents(m0, mid, list, base, |list|)
  {
    hide SizeBefore;
    forall k | 0 <= k < |list| && list[k].ty == MemType
      ensures Filled(m0, mid, list[k], base + SizeBefore(list, k))
    {
      var s, at := list[k], base + SizeBefore(list, k);
      assert Filled(m, mid, s, at);
      forall x | at <= x < at + s.size
        ensures mid[x] == InitByte(m0, s, x - at)
      {
        assert InitByte(m, s, x - at) == InitByte(m0, s, x - at);
      }
    }
  }

  /** A file that was loaded from flash as it was then is loaded from flash as it was
      at the start. */
  lemma {:induction false} LoadedFromStart(m0: Memory, m: Memory, m1: Memory, l: Lists, base: nat, t: TableAt, lo: int, hi: int, end: int)
    requires base < WORD_LIMIT && Loaded(m, m1, l, base, t) && SameOutside(m0, m, lo, end - lo) && end <= hi
    requires SourcesOutside(l, Some(t), lo, hi)
    ensures Loaded(m0, m1, l, base, t)
  {
    SameOutsideWider(m0, m, lo, end - lo, hi - lo);
    assert forall k :: 0 <= k < |l.mem| && l.mem[k].shType != SHT_NOBITS ==> Apart(l.mem[k].adjLma, l.mem[k].size, lo, hi - lo);
    assert Apart(t.at, 4 * TableLen(t.size), lo, hi - lo);
    hide Contents, PlacedList, MemJobFor, Total, FixupWords, FixedUp, JobOk, SameOutside, Apart, TableLen, SourcesOutside;
    SameTable(m0, m, lo, hi - lo, t);
    var mid: Memory, fin: Memory :| LoadedVia(m, m1, l, base, t, mid, fin);
    SameContents(m0, m, mid, l.mem, base, lo, hi - lo);
    assert LoadedVia(m0, m1, l, base, t, mid, fin);
  }

  lemma SameOutsideWider(m0: Memory, m: Memory, lo: int, size: int, size1: int)
    requires SameOutside(m0, m, lo, size) && size <= size1
    ensures SameOutside(m0, m, lo, size1)
  {
  }

  /** What was ready at the start still is when the files before have been loaded. */
  lemma {:induction false} ReadyLater(m0: Memory, m: Memory, l: Lists, base: nat, table: Option<TableAt>, lo: int, hi: int)
    requires FileReady(m0, l, base, table) && SameOutside(m0, m, lo, hi - lo) && SourcesOutside(l, table, lo, hi)
    ensures FileReady(m, l, base, table)
  {
    assert |m| == |m0|;
    assert table.Some? ==> Apart(table.value.at, 4 * TableLen(table.value.size), lo, hi - lo);
    hide RoomFor, FixupWords, PlacedList, MemJobFor, Total, FixupsApart, SameOutside, Apart, TableLen, SourcesOutside, At;
    if table.Some? {
      SameTable(m0, m, lo, hi - lo, table.value);
      forall k, p | FixupAt(m, l, base, table.value, k, p)
        ensures base <= p && p + 4 <= base + Total(l.mem)
      {
        assert FixupAt(m0, l, base, table.value, k, p);
      }
    }
  }

  // ----- whether a file can be loaded -----

  /** File `i` has no memory, or nothing in it stops the load. */
  ghost predicate ImageLoads(m: Memory, imgs: seq<Image>, bssEnd: nat, start: nat, i: nat)
    requires i < |imgs|
  {
    var l, base := ListsOf(imgs[i]), BaseOf(bssEnd, imgs, start, i);
    l.mem == [] || (base < WORD_LIMIT && FileLoads(m, l, base, RofixupOf(imgs[i])))
  }

  lemma {:induction false} PlacedByteSame(m0: Memory, m: Memory, list: seq<Section>, base: nat, n: nat, x: nat, lo: int, hi: int)
    requires n <= |list| && x < |m| && SameOutside(m0, m, lo, hi - lo) && base <= x < base + SizeBefore(list, n)
    requires forall k :: 0 <= k < |list| && list[k].shType != SHT_NOBITS ==> Apart(list[k].adjLma, list[k].size, lo, hi - lo)
    ensures PlacedByte(m, list, base, n, x) == PlacedByte(m0, list, base, n, x)
    decreases n
  {
    var at := base + SizeBefore(list, n - 1);
    if list[n - 1].ty == MemType && at <= x < at + list[n - 1].size {
      assert InitByte(m, list[n - 1], x - at) == InitByte(m0, list[n - 1], x - at);
    } else {
      PlacedByteSame(m0, m, list, base, n - 1, x, lo, hi);
    }
  }

  lemma {:induction false} UnaccountedSame(m: Memory, ma: Memory, mb: Memory, l: Lists, base: Word, t: TableAt)
    requires |ma| == |mb| && JobOk(MemJobFor(l.flash, PlacedList(l.mem, base), base))
    requires forall x :: base <= x < base + Total(l.mem) && x < |ma| ==> ma[x] == mb[x]
    requires forall k, p :: FixupAt(m, l, base, t, k, p) ==> base <= p && p + 4 <= base + Total(l.mem)
    requires SomeUnaccounted(MemJobFor(l.flash, PlacedList(l.mem, base), base), PlacedList(l.mem, base), NeedsMemFixup, FixupWords(m, t), ma)
    ensures SomeUnaccounted(MemJobFor(l.flash, PlacedList(l.mem, base), base), PlacedList(l.mem, base), NeedsMemFixup, FixupWords(m, t), mb)
  {
    hide FixupWords, PlacedList, MemJobFor, Total, DoFixup, JobOk, LoadWord;
    var list := PlacedList(l.mem, base);
    var job, ws := MemJobFor(l.flash, list, base), FixupWords(m, t);
    var k, p, sec := UnaccountedAt(job, list, NeedsMemFixup, ws, ma);
    assert FixupAt(m, l, base, t, k, p);
    SameFour(ma, mb, p);
  }

  lemma SameFour(m: Memory, n: Memory, p: nat)
    requires p + 4 <= |m| && p + 4 <= |n| && forall x :: p <= x < p + 4 ==> m[x] == n[x]
    ensures LoadWord(m, p) == LoadWord(n, p)
  {
  }

  /** Whether a file can be loaded does not change while others are. */
  lemma {:induction false} LoadsLater(m0: Memory, m: Memory, l: Lists, base: Word, table: Option<TableAt>, lo: int, hi: int)
    requires FileReady(m0, l, base, table) && SameOutside(m0, m, lo, hi - lo) && SourcesOutside(l, table, lo, hi)
    ensures FileLoads(m, l, base, table) <==> FileLoads(m0, l, base, table)
  {
    assert table.Some? ==> Apart(table.value.at, 4 * TableLen(table.value.size), lo, hi - lo);
    if table.Some? {
      var t := table.value;
      var fa, fb := Filling(m0, l.mem, base), Filling(m, l.mem, base);
      forall x | base <= x < base + Total(l.mem) && x < |m|
        ensures fa[x] == fb[x]
      {
        PlacedByteSame(m0, m, l.mem, base, |l.mem|, x, lo, hi);
      }
      assert forall k, p :: FixupAt(m0, l, base, t, k, p) ==> base <= p && p + 4 <= base + Total(l.mem);
      assert |m| == |m0|;
      hide RoomFor, FixupWords, PlacedList, MemJobFor, Total, FixupsApart, SameOutside, Apart, TableLen, SourcesOutside, At,
        PlacedByte, SomeUnaccounted, JobOk, FixupAt, FileReady, AnyRefused;
      SameTable(m0, m, lo, hi - lo, t);
      if JobOk(MemJobFor(l.flash, PlacedList(l.mem, base), base)) {
        var job, list, ws := MemJobFor(l.flash, PlacedList(l.mem, base), base), PlacedList(l.mem, base), FixupWords(m0, t);
        if SomeUnaccounted(job, list, NeedsMemFixup, ws, fa) {
          UnaccountedSame(m0, fa, fb, l, base, t);
        }
        if SomeUnaccounted(job, list, NeedsMemFixup, ws, fb) {
          UnaccountedSame(m0, fb, fa, l, base, t);
        }
      }
    }
  }

  // ----- the run -----

  lemma {:induction false} SecsGrow(imgs: seq<Image>, mask: set<SecType>, i: nat, j: nat)
    requires i <= j <= |imgs|
    ensures SecsBefore(imgs, mask, i) <= SecsBefore(imgs, mask, j)
    decreases j
  {
    hide Count;
    if i < j {
      SecsGrow(imgs, mask, i, j - 1);
    }
  }

  /** File `i` can be loaded when those before it have been. */
  lemma {:induction false} BeforeLoad(m0: Memory, m: Memory, imgs: seq<Image>, bssEnd: nat, start: nat, i: nat)
    requires i < |imgs| && FilesReady(m0, imgs, bssEnd, start)
    requires var lo := NextBase(bssEnd, start, 0); SameOutside(m0, m, lo, EndOf(bssEnd, imgs, start, i) - lo)
    ensures var l := ListsOf(imgs[i]);
            && |l.mem| + |l.flash| == Count(imgs[i], LOAD_MASK) > 0 && AllTyped(imgs[i])
            && SecsBefore(imgs, LOAD_MASK, i) + Count(imgs[i], LOAD_MASK) == SecsBefore(imgs, LOAD_MASK, i + 1)
            && SecsBefore(imgs, LOAD_MASK, i + 1) <= SecsBefore(imgs, LOAD_MASK, |imgs|)
            && (l.mem != [] ==> 0 < BaseOf(bssEnd, imgs, start, i) < WORD_LIMIT &&
                                FileReady(m, l, BaseOf(bssEnd, imgs, start, i), RofixupOf(imgs[i])) &&
                                (FileLoads(m, l, BaseOf(bssEnd, imgs, start, i), RofixupOf(imgs[i])) <==>
                                   FileLoads(m0, l, BaseOf(bssEnd, imgs, start, i), RofixupOf(imgs[i]))))
  {
    assert ImageReady(m0, imgs, bssEnd, start, i);
    hide ListsOf, Count, AllTyped, NextBase, EndOf, FileReady, RofixupOf, SourcesOutside, NoGaps, BaseOf, SameOutside, FilesReady, FileLoads;
    var l, lo := ListsOf(imgs[i]), NextBase(bssEnd, start, 0);
    ListsWithRoom(imgs[i], Count(imgs[i], LOAD_MASK));
    SecsGrow(imgs, LOAD_MASK, i + 1, |imgs|);
    if l.mem != [] {
      BaseIsSet(bssEnd, imgs, start, i);
      EndGrows(bssEnd, imgs, start, i);
      SameOutsideWider(m0, m, lo, EndOf(bssEnd, imgs, start, i) - lo, EndOf(bssEnd, imgs, start, |imgs|) - lo);
      ReadyLater(m0, m, l, BaseOf(bssEnd, imgs, start, i), RofixupOf(imgs[i]), lo, EndOf(bssEnd, imgs, start, |imgs|));
      LoadsLater(m0, m, l, BaseOf(bssEnd, imgs, start, i), RofixupOf(imgs[i]), lo, EndOf(bssEnd, imgs, start, |imgs|));
    }
  }

  lemma {:induction false} BaseIsSet(bssEnd: nat, imgs: seq<Image>, start: nat, i: nat)
    requires i < |imgs| && ListsOf(imgs[i]).mem != []
    ensures bssEnd <= BaseOf(bssEnd, imgs, start, i)
  {
    hide *;
    LayoutSound(bssEnd, imgs, start, i);
  }

  lemma {:induction false} EndGrows(bssEnd: nat, imgs: seq<Image>, start: nat, i: nat)
    requires i <= |imgs|
    ensures EndOf(bssEnd, imgs, start, i) <= EndOf(bssEnd, imgs, start, |imgs|)
  {
    hide *;
    ChainGrows(bssEnd, imgs, start, i, |imgs|);
  }

  /** A loaded file stays loaded and recorded while a later one is loaded. */
  lemma {:induction false} FileDoneStays(m0: Memory, m: Memory, m1: Memory, imgs: seq<Image>, bssEnd: nat, start: nat, k: nat, f: UFile,
                                         secs: seq<Section>, secs1: seq<Section>, from: nat, b: int, size: int)
    requires k < |imgs| && FileDone(m0, m, imgs, bssEnd, start, k, f, secs)
    requires SecsBefore(imgs, LOAD_MASK, k + 1) <= from <= |secs1| && |secs| == |secs1| && forall j :: 0 <= j < from ==> secs1[j] == secs[j]
    requires SameOutside(m, m1, b, size)
    requires ListsOf(imgs[k]).mem != [] ==> BaseOf(bssEnd, imgs, start, k) + Total(ListsOf(imgs[k]).mem) <= b
    ensures FileDone(m0, m1, imgs, bssEnd, start, k, f, secs1)
  {
    hide ListsOf, SecsBefore, BaseOf, Total, SameOutside, Loaded, RofixupOf, PlacedList;
    var l, at := ListsOf(imgs[k]), SecsBefore(imgs, LOAD_MASK, k);
    assert secs1[at + |l.mem|..at + |l.mem| + |l.flash|] == secs[at + |l.mem|..at + |l.mem| + |l.flash|];
    assert secs1[at..at + |l.mem|] == secs[at..at + |l.mem|];
    if l.mem != [] {
      LoadedStays(m0, m, m1, l, BaseOf(bssEnd, imgs, start, k), RofixupOf(imgs[k]).value, b, size);
    }
  }

  /** The file that has just been loaded. */
  lemma {:induction false} JustLoaded(m0: Memory, m: Memory, m1: Memory, imgs: seq<Image>, bssEnd: nat, start: nat, i: nat)
    requires i < |imgs| && FilesReady(m0, imgs, bssEnd, start) && ListsOf(imgs[i]).mem != [] && RofixupOf(imgs[i]).Some?
    requires var lo := NextBase(bssEnd, start, 0); SameOutside(m0, m, lo, EndOf(bssEnd, imgs, start, i) - lo)
    requires BaseOf(bssEnd, imgs, start, i) < WORD_LIMIT
    requires Loaded(m, m1, ListsOf(imgs[i]), BaseOf(bssEnd, imgs, start, i), RofixupOf(imgs[i]).value)
    ensures Loaded(m0, m1, ListsOf(imgs[i]), BaseOf(bssEnd, imgs, start, i), RofixupOf(imgs[i]).value)
  {
    assert ImageReady(m0, imgs, bssEnd, start, i);
    hide ListsOf, Count, AllTyped, NextBase, EndOf, FileReady, RofixupOf, SourcesOutside, NoGaps, BaseOf, SameOutside, FilesReady, Loaded;
    EndGrows(bssEnd, imgs, start, i);
    LoadedFromStart(m0, m, m1, ListsOf(imgs[i]), BaseOf(bssEnd, imgs, start, i), RofixupOf(imgs[i]).value,
                    NextBase(bssEnd, start, 0), EndOf(bssEnd, imgs, start, |imgs|), EndOf(bssEnd, imgs, start, i));
  }

  /** Without gaps the reported size is the whole size. */
  lemma {:induction false} WholeSize(m0: Memory, imgs: seq<Image>, bssEnd: nat, start: nat, i: nat)
    requires i < |imgs| && FilesReady(m0, imgs, bssEnd, start) && ListsOf(imgs[i]).mem != []
    ensures var list := ListsOf(imgs[i]).mem; Wrap(Total(list) - GapsBefore(list, |list|)) == Total(list)
  {
    assert ImageReady(m0, imgs, bssEnd, start, i);
    hide ListsOf, Count, AllTyped, NextBase, EndOf, RofixupOf, SourcesOutside, NoGaps, BaseOf, FilesReady, GapsBefore, FixupAt, FixupsReady, Total;
    NoGapsBefore(ListsOf(imgs[i]).mem, |ListsOf(imgs[i]).mem|);
  }

  lemma {:induction false} GrowOutside(m0: Memory, m: Memory, m1: Memory, imgs: seq<Image>, bssEnd: nat, start: nat, i: nat)
    requires i < |imgs| && ListsOf(imgs[i]).mem != []
    requires var lo := NextBase(bssEnd, start, 0); SameOutside(m0, m, lo, EndOf(bssEnd, imgs, start, i) - lo)
    requires SameOutside(m, m1, BaseOf(bssEnd, imgs, start, i), Total(ListsOf(imgs[i]).mem))
    ensures var lo := NextBase(bssEnd, start, 0); SameOutside(m0, m1, lo, EndOf(bssEnd, imgs, start, i + 1) - lo)
    ensures Chain(bssEnd, imgs, start, i + 1) == (BaseOf(bssEnd, imgs, start, i), Total(ListsOf(imgs[i]).mem))
  {
    hide ListsOf, NextBase, Total;
    LayoutSound(bssEnd, imgs, start, i);
    ChainGrows(bssEnd, imgs, start, i, i + 1);
  }

  /** The first `i` files are loaded and recorded, and nothing else has changed. */
  ghost predicate Progress(m0: Memory, m: Memory, imgs: seq<Image>, bssEnd: nat, start: nat, i: nat, files: seq<UFile>, secs: seq<Section>) {
    && i <= |imgs| <= |files|
    && (forall k :: 0 <= k < i ==> FileDone(m0, m, imgs, bssEnd, start, k, files[k], secs))
    && var lo := NextBase(bssEnd, start, 0); SameOutside(m0, m, lo, EndOf(bssEnd, imgs, start, i) - lo)
  }

  /** What `uld_load_file` has done for file `i`. */
  ghost predicate FileStep(m: Memory, m1: Memory, imgs: seq<Image>, bssEnd: nat, start: nat, i: nat, f: LoadedFile,
                           secs: seq<Section>, secs1: seq<Section>)
    requires i < |imgs|
  {
    var l, at, base := ListsOf(imgs[i]), SecsBefore(imgs, LOAD_MASK, i), BaseOf(bssEnd, imgs, start, i);
    && |secs1| == |secs| && at + |l.mem| + |l.flash| == SecsBefore(imgs, LOAD_MASK, i + 1) <= |secs|
    && (forall j :: 0 <= j < at ==> secs1[j] == secs[j])
    && secs1[at + |l.mem|..at + |l.mem| + |l.flash|] == l.flash
    && f.counts == Counts(|l.mem|, |l.flash|, 0)
    && if l.mem == [] then m1 == m && f.membase == 0 && f.memsz == 0 && (f.nextBase, f.nextSize) == Chain(bssEnd, imgs, start, i)
       else
         && base < WORD_LIMIT && f.membase == base && f.memsz == Total(l.mem) && f.nextBase == base && f.nextSize == Total(l.mem)
         && secs1[at..at + |l.mem|] == PlacedList(l.mem, base) && RofixupOf(imgs[i]).Some?
         && Loaded(m, m1, l, base, RofixupOf(imgs[i]).value) && SameOutside(m, m1, base, Total(l.mem))
  }

  lemma {:induction false} EarlierStays(m0: Memory, m: Memory, m1: Memory, imgs: seq<Image>, bssEnd: nat, start: nat, i: nat, k: nat,
                                        u: UFile, f: LoadedFile, secs: seq<Section>, secs1: seq<Section>)
    requires k < i < |imgs| && FileDone(m0, m, imgs, bssEnd, start, k, u, secs)
    requires FileStep(m, m1, imgs, bssEnd, start, i, f, secs, secs1)
    ensures FileDone(m0, m1, imgs, bssEnd, start, k, u, secs1)
  {
    hide ListsOf, BaseOf, Total, SecsBefore, SameOutside, Loaded, RofixupOf, PlacedList, FileDone, NextBase, FileStep;
    var b, size := BaseOf(bssEnd, imgs, start, i), if ListsOf(imgs[i]).mem == [] then 0 else Total(ListsOf(imgs[i]).mem);
    StepFrame(m, m1, imgs, bssEnd, start, i, f, secs, secs1);
    if ListsOf(imgs[k]).mem != [] {
      LayoutSound(bssEnd, imgs, start, k);
    }
    SecsGrow(imgs, LOAD_MASK, k + 1, i);
    FileDoneStays(m0, m, m1, imgs, bssEnd, start, k, u, secs, secs1, SecsBefore(imgs, LOAD_MASK, i), b, size);
  }

  lemma {:induction false} StepFrame(m: Memory, m1: Memory, imgs: seq<Image>, bssEnd: nat, start: nat, i: nat, f: LoadedFile,
                                     secs: seq<Section>, secs1: seq<Section>)
    requires i < |imgs| && FileStep(m, m1, imgs, bssEnd, start, i, f, secs, secs1)
    ensures SameOutside(m, m1, BaseOf(bssEnd, imgs, start, i), if ListsOf(imgs[i]).mem == [] then 0 else Total(ListsOf(imgs[i]).mem))
    ensures |secs1| == |secs| && SecsBefore(imgs, LOAD_MASK, i) <= |secs1|
    ensures forall j :: 0 <= j < SecsBefore(imgs, LOAD_MASK, i) ==> secs1[j] == secs[j]
  {
    hide ListsOf, BaseOf, Total, SecsBefore, SameOutside, Loaded, RofixupOf, PlacedList;
    SameOutsideItself(m, BaseOf(bssEnd, imgs, start, i));
  }

  lemma SameOutsideItself(m: Memory, b: int)
    ensures SameOutside(m, m, b, 0)
  {
  }

  lemma {:induction false} ThisOneDone(m0: Memory, m: Memory, m1: Memory, imgs: seq<Image>, bssEnd: nat, start: nat, i: nat,
                                       f: LoadedFile, secs: seq<Section>, secs1: seq<Section>)
    requires i < |imgs| && FilesReady(m0, imgs, bssEnd, start) && FileStep(m, m1, imgs, bssEnd, start, i, f, secs, secs1)
    requires var lo := NextBase(bssEnd, start, 0); SameOutside(m0, m, lo, EndOf(bssEnd, imgs, start, i) - lo)
    ensures FileDone(m0, m1, imgs, bssEnd, start, i, UFile(SecsBefore(imgs, LOAD_MASK, i), f.counts, f.membase, f.memsz), secs1)
    ensures var lo := NextBase(bssEnd, start, 0); SameOutside(m0, m1, lo, EndOf(bssEnd, imgs, start, i + 1) - lo)
    ensures (f.nextBase, f.nextSize) == Chain(bssEnd, imgs, start, i + 1)
  {
    SkippedChain(bssEnd, imgs, start, i);
    hide ListsOf, BaseOf, Total, SecsBefore, SameOutside, Loaded, RofixupOf, PlacedList, NextBase, EndOf, Chain, FilesReady;
    if ListsOf(imgs[i]).mem != [] {
      JustLoaded(m0, m, m1, imgs, bssEnd, start, i);
      GrowOutside(m0, m, m1, imgs, bssEnd, start, i);
    }
  }

  lemma {:induction false} SkippedChain(bssEnd: nat, imgs: seq<Image>, start: nat, i: nat)
    requires i < |imgs|
    ensures ListsOf(imgs[i]).mem == [] ==>
              Chain(bssEnd, imgs, start, i + 1) == Chain(bssEnd, imgs, start, i) &&
              EndOf(bssEnd, imgs, start, i + 1) == EndOf(bssEnd, imgs, start, i)
  {
    hide ListsOf, NextBase;
  }

  lemma {:induction false} OneMore(m0: Memory, m: Memory, m1: Memory, imgs: seq<Image>, bssEnd: nat, start: nat, i: nat,
                                   files: seq<UFile>, f: LoadedFile, secs: seq<Section>, secs1: seq<Section>)
    requires i < |imgs| && FilesReady(m0, imgs, bssEnd, start) && Progress(m0, m, imgs, bssEnd, start, i, files, secs)
    requires FileStep(m, m1, imgs, bssEnd, start, i, f, secs, secs1)
    ensures Progress(m0, m1, imgs, bssEnd, start, i + 1,
                     files[i := UFile(SecsBefore(imgs, LOAD_MASK, i), f.counts, f.membase, f.memsz)], secs1)
    ensures (f.nextBase, f.nextSize) == Chain(bssEnd, imgs, start, i + 1)
  {
    hide FilesReady, FileStep, FileDone, SecsBefore, NextBase, EndOf, Chain, SameOutside;
    ThisOneDone(m0, m, m1, imgs, bssEnd, start, i, f, secs, secs1);
    forall k | 0 <= k < i
      ensures FileDone(m0, m1, imgs, bssEnd, start, k, files[k], secs1)
    {
      EarlierStays(m0, m, m1, imgs, bssEnd, start, i, k, files[k], f, secs, secs1);
    }
  }

  lemma NothingLoaded(m0: Memory, imgs: seq<Image>, bssEnd: nat, start: nat, files: seq<UFile>, secs: seq<Section>)
    requires |imgs| <= |files|
    ensures Progress(m0, m0, imgs, bssEnd, start, 0, files, secs) && Chain(bssEnd, imgs, start, 0) == (NextBase(bssEnd, start, 0), 0)
  {
  }

  /** One turn of the loop of `uld_dyn_load_fse_dep_list`. */
  method LoadNext(mem: array<Byte>, imgs: seq<Image>, secs: array<Section>, i: nat, secIdx: nat, bssEnd: nat, last: nat, lastSize: nat,
                  ghost start: nat, ghost m0: Memory)
    returns (r: Outcome<LoadedFile>)
    requires i < |imgs| && FilesReady(m0, imgs, bssEnd, start) && (last, lastSize) == Chain(bssEnd, imgs, start, i)
    requires secIdx == SecsBefore(imgs, LOAD_MASK, i) && secs.Length == SecsBefore(imgs, LOAD_MASK, |imgs|)
    requires var lo := NextBase(bssEnd, start, 0); SameOutside(m0, mem[..], lo, EndOf(bssEnd, imgs, start, i) - lo)
    modifies mem, secs
    ensures r.Done? <==> ImageLoads(m0, imgs, bssEnd, start, i)
    ensures r.Done? ==> FileStep(old(mem[..]), mem[..], imgs, bssEnd, start, i, r.value, old(secs[..]), secs[..])
  {
    hide ListsOf, Total, SecsBefore, SameOutside, Loaded, RofixupOf, PlacedList, NextBase, NextMembase, EndOf, Chain, BaseOf, FilesReady,
      FileReady, Count, AllTyped, FileLists, GapsBefore, Wrap, FileLoads, AnyRefused;
    ghost var before, l := secs[..], ListsOf(imgs[i]);
    var room := secs.Length as int - secIdx;
    BeforeLoad(m0, mem[..], imgs, bssEnd, start, i);
    ListsWithRoom(imgs[i], room);
    NothingElse(bssEnd, imgs, start, i);
    if l.mem != [] {
      FileBase(m0, imgs, bssEnd, start, i);
    }
    r := LoadFile(mem, imgs[i], secs, secIdx, room, LOAD_MASK, bssEnd, last, lastSize, l);
    if r.Done? {
      assert forall j :: 0 <= j < secIdx ==> secs[..][j] == before[j];
      if l.mem != [] {
        WholeSize(m0, imgs, bssEnd, start, i);
      }
    }
  }

  lemma StartBase(m0: Memory, imgs: seq<Image>, bssEnd: nat, start: nat)
    requires FilesReady(m0, imgs, bssEnd, start)
    ensures NextMembase(bssEnd, start, 0) == NextBase(bssEnd, start, 0)
  {
    NextMembaseIs(bssEnd, start, 0);
  }

  lemma {:induction false} FileBase(m0: Memory, imgs: seq<Image>, bssEnd: nat, start: nat, i: nat)
    requires i < |imgs| && FilesReady(m0, imgs, bssEnd, start) && ListsOf(imgs[i]).mem != []
    ensures var c := Chain(bssEnd, imgs, start, i); NextMembase(bssEnd, c.0, c.1) == BaseOf(bssEnd, imgs, start, i)
  {
    hide ListsOf, FileReady, SourcesOutside, NoGaps, AllTyped, Count, NextMembase, NextBase;
    assert ImageReady(m0, imgs, bssEnd, start, i);
    var c := Chain(bssEnd, imgs, start, i);
    NextMembaseIs(bssEnd, c.0, c.1);
  }

  lemma {:induction false} NothingElse(bssEnd: nat, imgs: seq<Image>, start: nat, i: nat)
    requires i < |imgs|
    ensures ListsOf(imgs[i]).other == []
    ensures BaseOf(bssEnd, imgs, start, i) == NextBase(bssEnd, Chain(bssEnd, imgs, start, i).0, Chain(bssEnd, imgs, start, i).1)
  {
  }

  /** `uld_dyn_load_fse_dep_list`, with the section array sized by the count of the
      first pass.  It succeeds just when nothing in any file stops the load, so never for
      want of room in that array; the new base and the size of all that was allocated
      are returned. */
  method LoadDepList(mem: array<Byte>, imgs: seq<Image>, files: array<UFile>, secs: array<Section>, bssEnd: nat, start: nat)
    returns (r: Outcome<(nat, int)>)
    requires |imgs| <= files.Length && secs.Length == SecsBefore(imgs, LOAD_MASK, |imgs|)
    requires FilesReady(mem[..], imgs, bssEnd, start)
    modifies mem, files, secs
    ensures r.Done? <==> forall i :: 0 <= i < |imgs| ==> ImageLoads(old(mem[..]), imgs, bssEnd, start, i)
    ensures !r.Failed?
    ensures r.Done? ==> forall i :: 0 <= i < |imgs| ==> FileDone(old(mem[..]), mem[..], imgs, bssEnd, start, i, files[i], secs[..])
    ensures r.Done? ==> r.value.0 == NextBase(bssEnd, start, 0) && r.value.0 + r.value.1 == EndOf(bssEnd, imgs, start, |imgs|)
    ensures r.Done? ==> SameOutside(old(mem[..]), mem[..], r.value.0, r.value.1)
  {
    hide *;
    ghost var m0 := mem[..];
    StartBase(m0, imgs, bssEnd, start);
    var base := NextMembase(bssEnd, start, 0);
    var last, lastSize, secIdx: nat, i: nat := base, 0, 0, 0;
    NothingLoaded(m0, imgs, bssEnd, start, files[..], secs[..]);
    NoSections(imgs);
    while i < |imgs|
      invariant i <= |imgs| && (last, lastSize) == Chain(bssEnd, imgs, start, i) && secIdx == SecsBefore(imgs, LOAD_MASK, i)
      invariant Progress(m0, mem[..], imgs, bssEnd, start, i, files[..], secs[..])
      invariant forall k :: 0 <= k < i ==> ImageLoads(m0, imgs, bssEnd, start, k)
    {
      ghost var m, was, list := mem[..], files[..], secs[..];
      ProgressOutside(m0, m, imgs, bssEnd, start, i, was, list);
      var f := LoadNext(mem, imgs, secs, i, secIdx, bssEnd, last, lastSize, start, m0);
      if !f.Done? {
        return Trapped;
      }
      OneMore(m0, m, mem[..], imgs, bssEnd, start, i, was, f.value, list, secs[..]);
      StepTakes(m, mem[..], imgs, bssEnd, start, i, f.value, list, secs[..]);
      files[i] := UFile(secIdx, f.value.counts, f.value.membase, f.value.memsz);
      last, lastSize := f.value.nextBase, f.value.nextSize;
      secIdx := secIdx + f.value.counts.mem + f.value.counts.flash + f.value.counts.other;
      i := i + 1;
    }
    AllDone(m0, mem[..], imgs, bssEnd, start, files[..], secs[..]);
    return Done((base, last as int - base as int + lastSize));
  }

  lemma NoSections(imgs: seq<Image>)
    ensures SecsBefore(imgs, LOAD_MASK, 0) == 0
  {
  }

  lemma ProgressOutside(m0: Memory, m: Memory, imgs: seq<Image>, bssEnd: nat, start: nat, i: nat, files: seq<UFile>, secs: seq<Section>)
    requires Progress(m0, m, imgs, bssEnd, start, i, files, secs)
    ensures var lo := NextBase(bssEnd, start, 0); SameOutside(m0, m, lo, EndOf(bssEnd, imgs, start, i) - lo)
  {
  }

  lemma StepTakes(m: Memory, m1: Memory, imgs: seq<Image>, bssEnd: nat, start: nat, i: nat, f: LoadedFile, secs: seq<Section>, secs1: seq<Section>)
    requires i < |imgs| && FileStep(m, m1, imgs, bssEnd, start, i, f, secs, secs1)
    ensures SecsBefore(imgs, LOAD_MASK, i) + f.counts.mem + f.counts.flash + f.counts.other == SecsBefore(imgs, LOAD_MASK, i + 1)
  {
  }

  lemma AllDone(m0: Memory, m: Memory, imgs: seq<Image>, bssEnd: nat, start: nat, files: seq<UFile>, secs: seq<Section>)
    requires Progress(m0, m, imgs, bssEnd, start, |imgs|, files, secs)
    ensures forall i :: 0 <= i < |imgs| ==> FileDone(m0, m, imgs, bssEnd, start, i, files[i], secs)
    ensures var lo := NextBase(bssEnd, start, 0); SameOutside(m0, m, lo, EndOf(bssEnd, imgs, start, |imgs|) - lo)
    ensures var c := Chain(bssEnd, imgs, start, |imgs|); EndOf(bssEnd, imgs, start, |imgs|) == c.0 + c.1
  {
  }
}
