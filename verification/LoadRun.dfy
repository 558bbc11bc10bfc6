/** Loading a dependency list (uld_load_file in src/uld_load.c and
    uld_dyn_load_fse_dep_list in src/uld_dyn.c): where each file's memory is, and
    what it holds when all are loaded. */
module LoadRun {
  import opened Words
  import opened Options
  import opened Sections
  import opened Fixups
  import opened ElfImage
  import opened MemLoad
  import opened MemFixups
  import opened FileLoad

  // ----- one file -----

  lemma {:induction false} SameTable(m: Memory, m1: Memory, base: int, size: int, t: TableAt)
    requires SameOutside(m, m1, base, size) && Apart(t.at, 4 * TableLen(t.size), base, size)
    ensures FixupWords(m1, t) == FixupWords(m, t)
  {
    hide TableLen;
    var n := TableLen(t.size);
    if t.at + 4 * n <= |m| {
      forall k | 0 <= k < n
        ensures LoadWord(m1, t.at + 4 * k) == LoadWord(m, t.at + 4 * k)
      {
        LoadSame(m1, m, t.at + 4 * k);
      }
      hide LoadWord, SameOutside;
      assert TableWords(m1, t.at, n) == TableWords(m, t.at, n);
    }
  }

  /** After the sections are placed, the fixups are as ready as before. */
  lemma {:induction false} StillReady(m: Memory, m1: Memory, l: Lists, base: Word, t: TableAt)
    requires FileReady(m, l, base, Some(t)) && SameOutside(m, m1, base, Total(l.mem))
    ensures FixupsReady(m1, l.flash, PlacedList(l.mem, base), base, t) && FixupWords(m1, t) == FixupWords(m, t)
  {
    assert |m1| == |m|;
    hide FixupWords, SameOutside, RoomFor, PlacedList, MemJobFor, FixupsApart, Total, FixupAt, Apart, TableLen;
    SameTable(m, m1, base, Total(l.mem), t);
  }

  /** The fixups write only to the memory of the file. */
  lemma {:induction false} FixupsInside(m: Memory, mid: Memory, fin: Memory, l: Lists, base: Word, t: TableAt)
    requires FileReady(m, l, base, Some(t)) && SameOutside(m, mid, base, Total(l.mem))
    requires JobOk(MemJobFor(l.flash, PlacedList(l.mem, base), base))
    requires var ws := FixupWords(m, t);
             FixedUp(MemJobFor(l.flash, PlacedList(l.mem, base), base), PlacedList(l.mem, base), NeedsMemFixup, ws, |ws|, mid, fin)
    ensures SameOutside(m, fin, base, Total(l.mem))
  {
    hide FixupWords, RoomFor, PlacedList, MemJobFor, Total, Apart, TableLen, FixupsReady, FixedAt, At;
    forall x | 0 <= x < |m| && !(base <= x < base + Total(l.mem))
      ensures fin[x] == mid[x]
    {
      forall k, p | At(MemJobFor(l.flash, PlacedList(l.mem, base), base), PlacedList(l.mem, base), NeedsMemFixup, FixupWords(m, t), k, p)
        ensures !(p <= x < p + 4)
      {
        assert FixupAt(m, l, base, t, k, p);
      }
    }
  }

  lemma {:induction false} NowLoaded(m: Memory, mid: Memory, fin: Memory, l: Lists, base: Word, t: TableAt)
    requires FileReady(m, l, base, Some(t)) && SameOutside(m, mid, base, Total(l.mem)) && Contents(m, mid, l.mem, base, |l.mem|)
    requires JobOk(MemJobFor(l.flash, PlacedList(l.mem, base), base))
    requires var ws := FixupWords(m, t);
             FixedUp(MemJobFor(l.flash, PlacedList(l.mem, base), base), PlacedList(l.mem, base), NeedsMemFixup, ws, |ws|, mid, fin)
    ensures Loaded(m, fin, l, base, t) && SameOutside(m, fin, base, Total(l.mem))
  {
    FixupsInside(m, mid, fin, l, base, t);
    assert base + Total(l.mem) <= |m| == |fin|;
    hide Contents, FixupWords, RoomFor, PlacedList, MemJobFor, Total, Apart, TableLen, FixupsReady, FixedUp, SameOutside, JobOk, FixupAt;
    assert LoadedVia(m, fin, l, base, t, mid, fin);
  }

  lemma ReadyBase(m: Memory, l: Lists, base: nat, table: Option<TableAt>)
    requires FileReady(m, l, base, table)
    ensures RoomFor(l.mem, base, |m|) && base + Total(l.mem) <= |m| && base + Total(l.mem) < WORD_LIMIT
  {
  }

  lemma PlacedNonempty(list: seq<Section>, base: nat)
    ensures PlacedList(list, base) == [] <==> list == []
  {
  }

  /** The fixups of the placed sections come to an end just when all is accounted for. */
  lemma {:induction false} FixupOutcome(m: Memory, mid: Memory, fin: Memory, l: Lists, base: Word, t: TableAt, done: bool)
    requires Contents(m, mid, l.mem, base, |l.mem|) && SameOutside(m, mid, base, Total(l.mem)) && FixupWords(mid, t) == FixupWords(m, t)
    requires JobOk(MemJobFor(l.flash, PlacedList(l.mem, base), base))
    requires var job, ws := MemJobFor(l.flash, PlacedList(l.mem, base), base), FixupWords(m, t);
             if done then FixedUp(job, PlacedList(l.mem, base), NeedsMemFixup, ws, |ws|, mid, fin)
             else SomeUnaccounted(job, PlacedList(l.mem, base), NeedsMemFixup, ws, mid)
    ensures done <==> WordsAccounted(m, l, base, t)
  {
    hide Contents, SameOutside, FixupWords, PlacedList, MemJobFor, FixedUp, SomeUnaccounted, JobOk, Total, Filling;
    FillingOnly(m, mid, l.mem, base);
    if done {
      FixedIsAccounted(MemJobFor(l.flash, PlacedList(l.mem, base), base), PlacedList(l.mem, base), NeedsMemFixup, FixupWords(m, t), mid, fin);
    }
  }

  lemma LoadCases(m: Memory, l: Lists, base: Word, table: Option<TableAt>)
    ensures FileLoads(m, l, base, table) <==> !AnyRefused(l.mem, |l.mem|) && table.Some? && WordsAccounted(m, l, base, table.value)
  {
  }

  /** The memory half of `uld_load_file`: the `c.mem` memory sections from `from` on are
      placed at `base`, filled and fixed up. */
  method LoadMemory(mem: array<Byte>, img: Image, secs: array<Section>, from: nat, c: Counts, base: Word, ghost l: Lists)
    returns (r: Outcome<Word>)
    requires from + c.mem + c.flash <= secs.Length && |l.mem| == c.mem && |l.flash| == c.flash
    requires secs[from..from + c.mem] == l.mem && secs[from + c.mem..from + c.mem + c.flash] == l.flash
    requires l.mem != [] && base != 0 && FileReady(mem[..], l, base, RofixupOf(img))
    modifies mem, secs
    ensures r.Done? <==> FileLoads(old(mem[..]), l, base, RofixupOf(img))
    ensures r.Failed? <==> !AnyRefused(l.mem, |l.mem|) && RofixupOf(img).None?
    ensures r.Done? ==> r.value == Wrap(Total(l.mem) - GapsBefore(l.mem, |l.mem|))
    ensures r.Done? ==> RofixupOf(img).Some? && Loaded(old(mem[..]), mem[..], l, base, RofixupOf(img).value)
    ensures r.Done? ==> SameOutside(old(mem[..]), mem[..], base, Total(l.mem))
    ensures r.Done? ==> secs[from..from + c.mem] == PlacedList(l.mem, base)
    ensures r.Failed? ==> r.code == 1
    ensures forall k :: 0 <= k < secs.Length && !(from <= k < from + c.mem) ==> secs[k] == old(secs[k])
  {
    hide *;
    ghost var m := mem[..];
    ghost var flash := secs[from + c.mem..from + c.mem + c.flash];
    ReadyBase(m, l, base, RofixupOf(img));
    PlacedNonempty(l.mem, base);
    LoadCases(m, l, base, RofixupOf(img));
    r := AllocMemSections(mem, secs, from, c.mem, base, l.mem);
    if !r.Done? {
      return Trapped;
    }
    ghost var mid := mem[..];
    var table := GetRofixup(img);
    if table.Some? {
      StillReady(m, mid, l, base, table.value);
    }
    assert secs[from + c.mem..from + c.mem + c.flash] == flash;
    var f := ApplyMemFixups(mem, secs[from + c.mem..from + c.mem + c.flash], secs[from..from + c.mem], base, table);
    match f {
      case Failed(code) =>
        return Failed(code);
      case Trapped =>
        FixupOutcome(m, mid, mid, l, base, table.value, false);
        return Trapped;
      case Done(_) =>
        FixupOutcome(m, mid, mem[..], l, base, table.value, true);
        NowLoaded(m, mid, mem[..], l, base, table.value);
    }
  }

  lemma ListsReady(img: Image, mask: set<SecType>, snum: nat, l: Lists)
    requires FileLists(img, mask, snum) == Done(l)
    ensures |l.mem| + |l.flash| + |l.other| <= snum
  {
  }

  /** `uld_load_file` into the `snum` places from `from` on. */
  method LoadFile(mem: array<Byte>, img: Image, secs: array<Section>, from: nat, snum: int, mask: set<SecType>,
                  bssEnd: nat, membase: nat, lastSize: nat, ghost l: Lists)
    returns (r: Outcome<LoadedFile>)
    requires snum > 0 ==> from + snum <= secs.Length && FileLists(img, mask, snum) == Done(l)
    requires l.mem != [] ==> NextMembase(bssEnd, membase, lastSize) != 0 &&
                             FileReady(mem[..], l, NextMembase(bssEnd, membase, lastSize), RofixupOf(img))
    modifies mem, secs
    ensures snum <= 0 ==> r == Failed(-1)
    ensures snum > 0 ==> (r.Done? <==> l.mem == [] || FileLoads(old(mem[..]), l, NextMembase(bssEnd, membase, lastSize), RofixupOf(img)))
    ensures snum > 0 ==> (r.Failed? <==> l.mem != [] && !AnyRefused(l.mem, |l.mem|) && RofixupOf(img).None?)
    ensures r.Done? ==> snum > 0 && from + |l.mem| + |l.flash| <= from + snum <= secs.Length
    ensures r.Done? ==> secs[from + |l.mem|..from + |l.mem| + |l.flash|] == l.flash
    ensures r.Done? && l.mem == [] ==>
              mem[..] == old(mem[..]) && r.value == LoadedFile(Counts(0, |l.flash|, |l.other|), 0, 0, membase, lastSize)
    ensures r.Done? && l.mem != [] ==>
              var base := NextMembase(bssEnd, membase, lastSize);
              var size := Wrap(Total(l.mem) - GapsBefore(l.mem, |l.mem|));
              && r.value == LoadedFile(Counts(|l.mem|, |l.flash|, |l.other|), base, size, base, size)
              && secs[from..from + |l.mem|] == PlacedList(l.mem, base)
              && RofixupOf(img).Some? && Loaded(old(mem[..]), mem[..], l, base, RofixupOf(img).value)
              && SameOutside(old(mem[..]), mem[..], base, Total(l.mem))
    ensures r.Done? ==> forall k :: 0 <= k < secs.Length && !(from <= k < from + snum) ==> secs[k] == old(secs[k])
  {
    hide NextMembase, FileReady, FileLists, Loaded, PlacedList, Total, GapsBefore, RofixupOf, SameOutside, Wrap, FileLoads, AnyRefused;
    var c := CreateFile(img, secs, from, snum, mask);
    if !c.Done? {
      return if c.Failed? then Failed(c.code) else Trapped;
    }
    ListsReady(img, mask, snum, l);
    if c.value.mem == 0 {
      return Done(LoadedFile(c.value, 0, 0, membase, lastSize));
    }
    ghost var flash := secs[from + |l.mem|..from + |l.mem| + |l.flash|];
    var base := NextMembase(bssEnd, membase, lastSize);
    var size := LoadMemory(mem, img, secs, from, c.value, base, l);
    if !size.Done? {
      return if size.Failed? then Failed(size.code) else Trapped;
    }
    assert secs[from + |l.mem|..from + |l.mem| + |l.flash|] == flash;
    return Done(LoadedFile(c.value, base, size.value, base, size.value));
  }

  // ----- the chain of bases -----

  /** Base and size of the last file with memory before file `i`, as they are passed
      from file to file. */
  function Chain(bssEnd: nat, imgs: seq<Image>, start: nat, i: nat): (nat, nat)
    requires i <= |imgs|
    decreases i, 0
  {
    if i == 0 then (NextBase(bssEnd, start, 0), 0)
    else if ListsOf(imgs[i - 1]).mem == [] then Chain(bssEnd, imgs, start, i - 1)
    else (BaseOf(bssEnd, imgs, start, i - 1), Total(ListsOf(imgs[i - 1]).mem))
  }

  /** The base address of the memory of file `i`. */
  function BaseOf(bssEnd: nat, imgs: seq<Image>, start: nat, i: nat): nat
    requires i <= |imgs|
    decreases i, 1
  {
    NextBase(bssEnd, Chain(bssEnd, imgs, start, i).0, Chain(bssEnd, imgs, start, i).1)
  }

  function EndOf(bssEnd: nat, imgs: seq<Image>, start: nat, i: nat): nat
    requires i <= |imgs|
  {
    Chain(bssEnd, imgs, start, i).0 + Chain(bssEnd, imgs, start, i).1
  }

  lemma NextIsAbove(bssEnd: nat, last: nat, size: nat)
    requires last >= bssEnd
    ensures NextBase(bssEnd, last, size) >= last + size && NextBase(bssEnd, last, size) >= bssEnd
    ensures NextBase(bssEnd, last, size) % 8 == 0
  {
    AlignUpLeast(last + size, 3);
  }

  lemma FirstBase(bssEnd: nat, start: nat)
    ensures NextBase(bssEnd, start, 0) >= bssEnd && NextBase(bssEnd, start, 0) % 8 == 0
    ensures NextBase(bssEnd, NextBase(bssEnd, start, 0), 0) == NextBase(bssEnd, start, 0)
  {
    AlignUpLeast(if start >= bssEnd then start else bssEnd, 3);
    AlignUpLeast(NextBase(bssEnd, start, 0), 3);
  }

  lemma {:induction false} ChainGrows(bssEnd: nat, imgs: seq<Image>, start: nat, i: nat, j: nat)
    requires i <= j <= |imgs|
    ensures Chain(bssEnd, imgs, start, i).0 >= bssEnd
    ensures EndOf(bssEnd, imgs, start, i) <= EndOf(bssEnd, imgs, start, j)
    ensures Chain(bssEnd, imgs, start, i).0 <= Chain(bssEnd, imgs, start, j).0
    decreases j, i
  {
    hide NextBase, ListsOf, Total;
    if i < j {
      ChainGrows(bssEnd, imgs, start, i, j - 1);
      ChainGrows(bssEnd, imgs, start, j - 1, j - 1);
      var c := Chain(bssEnd, imgs, start, j - 1);
      NextIsAbove(bssEnd, c.0, c.1);
      assert BaseOf(bssEnd, imgs, start, j - 1) == NextBase(bssEnd, c.0, c.1);
    } else if i == 0 {
      FirstBase(bssEnd, start);
    } else {
      ChainGrows(bssEnd, imgs, start, i - 1, i - 1);
      var c := Chain(bssEnd, imgs, start, i - 1);
      NextIsAbove(bssEnd, c.0, c.1);
      assert BaseOf(bssEnd, imgs, start, i - 1) == NextBase(bssEnd, c.0, c.1);
    }
  }

  /** Every base is 8-byte aligned and at or above the end of the linker's own memory;
      the memory of a file ends at or below the base of every later file; and all of it
      lies in the range that is reported: from the first base, as long as the sum of
      what follows. */
  lemma {:induction false} LayoutSound(bssEnd: nat, imgs: seq<Image>, start: nat, i: nat)
    requires i < |imgs| && ListsOf(imgs[i]).mem != []
    ensures var b, n := BaseOf(bssEnd, imgs, start, i), Total(ListsOf(imgs[i]).mem);
            && b % 8 == 0 && b >= bssEnd
            && (forall j :: i < j < |imgs| ==> b + n <= BaseOf(bssEnd, imgs, start, j))
            && NextBase(bssEnd, start, 0) <= b && b + n <= EndOf(bssEnd, imgs, start, |imgs|)
  {
    hide NextBase, ListsOf, Total;
    var c := Chain(bssEnd, imgs, start, i);
    ChainGrows(bssEnd, imgs, start, 0, i);
    ChainGrows(bssEnd, imgs, start, i, i);
    NextIsAbove(bssEnd, c.0, c.1);
    forall j | i < j < |imgs|
      ensures BaseOf(bssEnd, imgs, start, i) + Total(ListsOf(imgs[i]).mem) <= BaseOf(bssEnd, imgs, start, j)
    {
      ChainGrows(bssEnd, imgs, start, i + 1, j);
      ChainGrows(bssEnd, imgs, start, j, j);
      var d := Chain(bssEnd, imgs, start, j);
      NextIsAbove(bssEnd, d.0, d.1);
    }
    ChainGrows(bssEnd, imgs, start, i + 1, |imgs|);
  }
}
