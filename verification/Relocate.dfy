/** Moving a file in flash (src/uld_reloc.c) with its fixups
    (uld_rofixup_apply_flash_fixups in src/uld_rofixup.c) and CRCs (src/uld_sal.c). */
module Relocate {
  import opened Words
  import opened Sections
  import opened Fixups
  import opened ImageMove

  /** A word that a move of the image from `base` does not stop at: blank, an address in the
      image, a word that a section without contents seems to hold, or a link address in the
      memory of the file. */
  predicate Accounted(elf: Elf, base: nat, v: Word) {
    v == 0 || InImage(elf, base, v) || InNullWindow(elf, v) || exists s :: s in elf.mem && s.lma <= v < s.lma + s.size
  }

  ghost predicate AllAccounted(elf: Elf, ws: seq<Word>, img: Memory, base: nat) {
    forall k, o :: SlotAt(elf, ws, k, o) && 0 <= o && o + 4 <= |img| ==> Accounted(elf, base, LoadWord(img, o))
  }

  /** The search by adjusted address finds a section just for the addresses in the image and
      the words in a null window. */
  lemma SearchExact(secs: seq<Section>, marked: seq<Section>, base: nat, size: nat, v: Word)
    requires |marked| == |secs| && Inside(secs, size) && base + size < WORD_LIMIT
    requires forall k :: 0 <= k < |secs| ==> marked[k].adjLma == AdjustLma(secs[k], base) && marked[k].size == secs[k].size
    ensures FindSection(marked, ByAdjLma, AnySection, v).Some? <==> InSome(secs, base, v) || NullHit(secs, v)
  {
    forall k | 0 <= k < |secs|
      ensures Hit(marked[k], ByAdjLma, AnySection, v) <==> InSection(secs[k], base, v) || (!HasContents(secs[k]) && v < secs[k].size)
    {
      assert secs[k] in secs;
    }
    hide Hit, InSection, AdjustLma, Inside;
    if InSome(secs, base, v) {
      var s :| s in secs && InSection(s, base, v);
      var k :| 0 <= k < |secs| && secs[k] == s;
      assert Hit(marked[k], ByAdjLma, AnySection, v);
    }
    if NullHit(secs, v) {
      var s :| s in secs && !HasContents(s) && v < s.size;
      var k :| 0 <= k < |secs| && secs[k] == s;
      assert Hit(marked[k], ByAdjLma, AnySection, v);
    }
  }

  lemma LinkSearchExact(secs: seq<Section>, marked: seq<Section>, v: Word)
    requires |marked| == |secs| && forall k :: 0 <= k < |secs| ==> marked[k].lma == secs[k].lma && marked[k].size == secs[k].size
    ensures FindSection(marked, ByLma, AnySection, v).Some? <==> exists s :: s in secs && s.lma <= v < s.lma + s.size
  {
    forall k | 0 <= k < |secs|
      ensures Hit(marked[k], ByLma, AnySection, v) <==> secs[k].lma <= v < secs[k].lma + secs[k].size
    {
    }
    hide Hit;
    if s :| s in secs && s.lma <= v < s.lma + s.size {
      var k :| 0 <= k < |secs| && secs[k] == s;
      assert Hit(marked[k], ByLma, AnySection, v);
    }
  }

  /** The callback of the flash fixups traps just at the words that nothing accounts for. */
  lemma AccountedExact(elf: Elf, base: nat, size: nat, v: Word)
    requires base + size < WORD_LIMIT && Inside(elf.flash, size) && Inside(elf.mem, size)
    ensures Taken(elf, base, v) <==> Accounted(elf, base, v)
  {
    SearchExact(elf.flash, MarkedFlash(elf, base), base, size, v);
    SearchExact(elf.mem, MarkedMem(elf, base), base, size, v);
    LinkSearchExact(elf.mem, MarkedMem(elf, base), v);
    hide FindSection, MarkedFlash, MarkedMem, InSome, NullHit, Inside, AdjustLma;
  }

  lemma AllAccountedExact(elf: Elf, ws: seq<Word>, img: Memory, base: nat)
    requires ElfOk(elf, ws, |img|) && base + |img| < WORD_LIMIT
    ensures AllTaken(elf, ws, img, base) <==> AllAccounted(elf, ws, img, base)
  {
    assert Inside(elf.flash, |img|) && Inside(elf.mem, |img|);
    hide SlotAt, Taken, Accounted, ElfOk, Inside, LoadWord;
    forall v: Word
      ensures Taken(elf, base, v) <==> Accounted(elf, base, v)
    {
      AccountedExact(elf, base, |img|, v);
    }
  }

  /** The callback does not trap at the word `v`. */
  predicate Taken(elf: Elf, base: nat, v: Word) {
    !FlashFixup(0, MarkedFlash(elf, base), MarkedMem(elf, base), v).Unaccounted?
  }

  ghost predicate AllTaken(elf: Elf, ws: seq<Word>, img: Memory, base: nat) {
    forall k, o :: SlotAt(elf, ws, k, o) && 0 <= o && o + 4 <= |img| ==> Taken(elf, base, LoadWord(img, o))
  }

  lemma TakenAnywhere(elf: Elf, base: nat, newBase: nat, sec: nat, v: Word)
    ensures Taken(elf, base, v) <==> !DoFixup(JobFor(elf, base, newBase), sec, v).Unaccounted?
  {
  }

  // ----- the table in the copy -----

  lemma TableThere(elf: Elf, ws: seq<Word>, img: Memory, m: Memory, at: nat)
    requires HoldsTable(img, elf, ws) && ImageAt(m, at, img)
    ensures TableWords(m, at + elf.rofixup.value.offset, |ws|) == ws
  {
    forall k | 0 <= k < |ws|
      ensures LoadWord(m, at + elf.rofixup.value.offset + 4 * k) == ws[k]
    {
      WordAt(m, at, img, elf.rofixup.value.offset + 4 * k);
    }
  }

  lemma TableKept(job: Job, secs: seq<Section>, ws: seq<Word>, m1: Memory, m2: Memory, tbl: nat)
    requires JobOk(job) && FixupsApart(job, secs, NeedsFlashFixup, ws, |m1|, tbl, tbl + 4 * |ws|)
    requires tbl + 4 * |ws| <= |m1| && FixedUp(job, secs, NeedsFlashFixup, ws, |ws|, m1, m2)
    ensures TableWords(m2, tbl, |ws|) == TableWords(m1, tbl, |ws|)
  {
    forall k | 0 <= k < |ws|
      ensures LoadWord(m2, tbl + 4 * k) == LoadWord(m1, tbl + 4 * k)
    {
      NotReached(job, secs, NeedsFlashFixup, ws, |ws|, m1, m2, tbl + 4 * k, tbl, tbl + 4 * |ws|);
    }
  }

  // ----- what the passes say of the words they met -----

  lemma AllPlaces(elf: Elf, ws: seq<Word>, size: nat, base: nat, newBase: nat)
    requires ElfOk(elf, ws, size) && newBase + size < WORD_LIMIT
    ensures PlacesKnown(elf, ws, base, newBase)
  {
    forall k, p
      ensures At(JobFor(elf, base, newBase), MarkedFlash(elf, base), NeedsFlashFixup, ws, k, p) <==> FlashSlotAt(elf, ws, k, p - newBase)
      ensures At(JobFor(elf, base, newBase), MarkedMem(elf, base), NeedsFlashFixup, ws, k, p) <==> MemSlotAt(elf, ws, k, p - newBase)
    {
      FlashPlace(elf, ws, size, base, newBase, k, p);
      MemPlace(elf, ws, size, base, newBase, k, p);
    }
  }

  /** The word in a slot of the memory sections when the second pass begins. */
  lemma MemSlotKept(elf: Elf, ws: seq<Word>, img: Memory, base: nat, newBase: nat, m1: Memory, m2: Memory, k: nat, o: nat)
    requires ElfOk(elf, ws, |img|) && PlacesKnown(elf, ws, base, newBase) && ImageAt(m1, newBase, img)
    requires FixedUp(JobFor(elf, base, newBase), MarkedFlash(elf, base), NeedsFlashFixup, ws, |ws|, m1, m2)
    requires MemSlotAt(elf, ws, k, o) && o + 4 <= |img|
    ensures newBase + o + 4 <= |m2| == |m1| && LoadWord(m2, newBase + o) == LoadWord(img, o)
  {
    hide *;
    var job, p := JobFor(elf, base, newBase), newBase + o;
    FlashJobOk(elf, base, newBase);
    SameLength(job, MarkedFlash(elf, base), ws, m1, m2);
    ImageFits(m1, newBase, img);
    WordAt(m1, newBase, img, o);
    FlashApart(elf, ws, |img|, base, newBase, k, o, p);
    PassKeeps(job, MarkedFlash(elf, base), ws, m1, m2, p);
  }

  lemma SameLength(job: Job, secs: seq<Section>, ws: seq<Word>, ma: Memory, mb: Memory)
    requires JobOk(job) && FixedUp(job, secs, NeedsFlashFixup, ws, |ws|, ma, mb)
    ensures |ma| == |mb|
  {
  }

  /** A pass that comes to its end has accounted for every word that it met. */
  lemma FlashAccounted(elf: Elf, ws: seq<Word>, img: Memory, base: nat, newBase: nat, m1: Memory, m2: Memory, k: nat, o: nat)
    requires PlacesKnown(elf, ws, base, newBase) && ImageAt(m1, newBase, img)
    requires FixedUp(JobFor(elf, base, newBase), MarkedFlash(elf, base), NeedsFlashFixup, ws, |ws|, m1, m2)
    requires FlashSlotAt(elf, ws, k, o) && o + 4 <= |img|
    ensures Taken(elf, base, LoadWord(img, o))
  {
    SlotsAreAt(elf, ws, base, newBase, k, o);
    var job, sec := JobFor(elf, base, newBase), Home(MarkedFlash(elf, base), NeedsFlashFixup, ws[k]).value;
    assert FixedAt(job, sec, m1, m2, newBase + o);
    WordAt(m1, newBase, img, o);
    TakenAnywhere(elf, base, newBase, sec, LoadWord(img, o));
  }

  lemma MemAccounted(elf: Elf, ws: seq<Word>, img: Memory, base: nat, newBase: nat, m1: Memory, m2: Memory, m3: Memory, k: nat, o: nat)
    requires ElfOk(elf, ws, |img|) && PlacesKnown(elf, ws, base, newBase) && ImageAt(m1, newBase, img)
    requires FixedUp(JobFor(elf, base, newBase), MarkedFlash(elf, base), NeedsFlashFixup, ws, |ws|, m1, m2)
    requires FixedUp(JobFor(elf, base, newBase), MarkedMem(elf, base), NeedsFlashFixup, ws, |ws|, m2, m3)
    requires MemSlotAt(elf, ws, k, o) && o + 4 <= |img|
    ensures Taken(elf, base, LoadWord(img, o))
  {
    MemSlotKept(elf, ws, img, base, newBase, m1, m2, k, o);
    SlotsAreAt(elf, ws, base, newBase, k, o);
    var job, sec := JobFor(elf, base, newBase), Home(MarkedMem(elf, base), NeedsFlashFixup, ws[k]).value;
    hide ElfOk, PlacesKnown;
    assert FixedAt(job, sec, m2, m3, newBase + o);
    TakenAnywhere(elf, base, newBase, sec, LoadWord(img, o));
  }

  lemma SlotInside(elf: Elf, ws: seq<Word>, size: nat, k: int, o: int)
    requires ElfOk(elf, ws, size) && (FlashSlotAt(elf, ws, k, o) || MemSlotAt(elf, ws, k, o))
    ensures SlotAt(elf, ws, k, o) && 0 <= o && o + 4 <= size
  {
    assert SlotAt(elf, ws, k, o);
  }

  lemma FlashUnaccounted(elf: Elf, ws: seq<Word>, img: Memory, base: nat, newBase: nat, m1: Memory)
    requires ElfOk(elf, ws, |img|) && PlacesKnown(elf, ws, base, newBase) && ImageAt(m1, newBase, img)
    requires SomeUnaccounted(JobFor(elf, base, newBase), MarkedFlash(elf, base), NeedsFlashFixup, ws, m1)
    ensures !AllTaken(elf, ws, img, base)
  {
    hide SomeUnaccounted, ElfOk, At, DoFixup, FlashSlotAt, SlotAt, MarkedFlash, Taken, ImageAt, LoadWord, JobFor, JobOk, Home;
    FlashJobOk(elf, base, newBase);
    var job, secs := JobFor(elf, base, newBase), MarkedFlash(elf, base);
    var k, p, sec := UnaccountedAt(job, secs, NeedsFlashFixup, ws, m1);
    var o := p - newBase;
    SlotInside(elf, ws, |img|, k, o);
    WordAt(m1, newBase, img, o);
    TakenAnywhere(elf, base, newBase, sec, LoadWord(img, o));
  }

  lemma FlashStops(elf: Elf, ws: seq<Word>, img: Memory, base: nat, newBase: nat, m1: Memory)
    requires base + |img| < WORD_LIMIT
    requires ElfOk(elf, ws, |img|) && PlacesKnown(elf, ws, base, newBase) && ImageAt(m1, newBase, img)
    requires SomeUnaccounted(JobFor(elf, base, newBase), MarkedFlash(elf, base), NeedsFlashFixup, ws, m1)
    ensures !AllAccounted(elf, ws, img, base)
  {
    hide *;
    FlashUnaccounted(elf, ws, img, base, newBase, m1);
    AllAccountedExact(elf, ws, img, base);
  }

  lemma MemUnaccounted(elf: Elf, ws: seq<Word>, img: Memory, base: nat, newBase: nat, m1: Memory, m2: Memory)
    requires ElfOk(elf, ws, |img|) && PlacesKnown(elf, ws, base, newBase) && ImageAt(m1, newBase, img)
    requires FixedUp(JobFor(elf, base, newBase), MarkedFlash(elf, base), NeedsFlashFixup, ws, |ws|, m1, m2)
    requires SomeUnaccounted(JobFor(elf, base, newBase), MarkedMem(elf, base), NeedsFlashFixup, ws, m2)
    ensures !AllTaken(elf, ws, img, base)
  {
    hide SomeUnaccounted, ElfOk, At, DoFixup, MemSlotAt, FixedUp, SlotAt, MarkedMem, Taken, ImageAt, LoadWord, JobFor, MarkedFlash,
      JobOk, Home;
    FlashJobOk(elf, base, newBase);
    var job, secs := JobFor(elf, base, newBase), MarkedMem(elf, base);
    var k, p, sec := UnaccountedAt(job, secs, NeedsFlashFixup, ws, m2);
    var o := p - newBase;
    SlotInside(elf, ws, |img|, k, o);
    MemSlotKept(elf, ws, img, base, newBase, m1, m2, k, o);
    TakenAnywhere(elf, base, newBase, sec, LoadWord(img, o));
  }

  lemma MemStops(elf: Elf, ws: seq<Word>, img: Memory, base: nat, newBase: nat, m1: Memory, m2: Memory)
    requires base + |img| < WORD_LIMIT
    requires ElfOk(elf, ws, |img|) && PlacesKnown(elf, ws, base, newBase) && ImageAt(m1, newBase, img)
    requires FixedUp(JobFor(elf, base, newBase), MarkedFlash(elf, base), NeedsFlashFixup, ws, |ws|, m1, m2)
    requires SomeUnaccounted(JobFor(elf, base, newBase), MarkedMem(elf, base), NeedsFlashFixup, ws, m2)
    ensures !AllAccounted(elf, ws, img, base)
  {
    hide *;
    MemUnaccounted(elf, ws, img, base, newBase, m1, m2);
    AllAccountedExact(elf, ws, img, base);
  }

  // ----- the driver of the two passes -----

  lemma TablePlace(elf: Elf, ws: seq<Word>, img: Memory, m: Memory, newBase: nat)
    requires newBase + |img| < WORD_LIMIT && ElfOk(elf, ws, |img|) && ImageAt(m, newBase, img)
    ensures elf.rofixup.Some?
    ensures AdjustLma(elf.rofixup.value, newBase) == newBase + elf.rofixup.value.offset
    ensures |ws| == TableLen(elf.rofixup.value.size) && newBase + elf.rofixup.value.offset + 4 * |ws| <= |m|
  {
  }

  /** All that the loop over the table asks for, for both section lists. */
  lemma ReadyForPasses(elf: Elf, ws: seq<Word>, img: Memory, m: Memory, base: nat, newBase: nat)
    requires newBase + |img| < WORD_LIMIT && ImageAt(m, newBase, img)
    requires ElfOk(elf, ws, |img|) && HoldsTable(img, elf, ws)
    ensures var tbl, n, job := AdjustLma(elf.rofixup.value, newBase) as nat, TableLen(elf.rofixup.value.size), JobFor(elf, base, newBase);
            && JobOk(job) && n == |ws| && tbl + 4 * n <= |m| && TableWords(m, tbl, n) == ws
            && FixupsApart(job, MarkedFlash(elf, base), NeedsFlashFixup, ws, |m|, tbl, tbl + 4 * n)
            && FixupsApart(job, MarkedMem(elf, base), NeedsFlashFixup, ws, |m|, tbl, tbl + 4 * n)
    ensures PlacesKnown(elf, ws, base, newBase)
  {
    TablePlace(elf, ws, img, m, newBase);
    assert JobOk(JobFor(elf, base, newBase));
    assert newBase + |img| <= |m|;
    hide *;
    AllPlaces(elf, ws, |img|, base, newBase);
    TableThere(elf, ws, img, m, newBase);
    PassesApart(elf, ws, |img|, base, newBase, |m|);
  }

  /** `uld_reloc_flash_fixup_mem_sections`. */
  const FLASH_FIXUP_MEM_SECTIONS: seq<string> := [".got", ".got.plt", ".data"]

  /** `uld_reloc_prepare_flash_fixups`: every flash section is marked, and the memory
      sections of that list. */
  method PrepareFlashFixups(elf: Elf, base: nat) returns (flash: seq<Section>, mem: seq<Section>)
    ensures flash == MarkedFlash(elf, base) && mem == MarkedMem(elf, base)
  {
    hide AtBase;
    flash, mem := [], [];
    for i := 0 to |elf.flash|
      invariant flash == MarkedFlash(elf, base)[..i]
    {
      flash := flash + [AtBase(elf.flash[i], base).(flashFixup := true)];
    }
    for i := 0 to |elf.mem|
      invariant mem == MarkedMem(elf, base)[..i]
    {
      mem := mem + [AtBase(elf.mem[i], base).(flashFixup := elf.mem[i].name in FLASH_FIXUP_MEM_SECTIONS)];
    }
  }

  /** `uld_rofixup_apply_flash_fixups` over the copy at `newBase` of the image `img`,
      whose sections are listed for `base`. */
  method ApplyFlashFixups(mem: array<Byte>, elf: Elf, base: nat, newBase: nat, ghost ws: seq<Word>, ghost img: Memory)
    returns (r: Outcome<()>)
    requires elf.flash != [] && base + |img| < WORD_LIMIT && newBase + |img| < WORD_LIMIT && ImageAt(mem[..], newBase, img)
    requires elf.rofixup.Some? ==> ElfOk(elf, ws, |img|) && HoldsTable(img, elf, ws)
    modifies mem
    ensures r.Done? <==> elf.rofixup.Some? && elf.mem != [] && AllAccounted(elf, ws, img, base)
    ensures r.Trapped? <==> elf.rofixup.Some? && !AllAccounted(elf, ws, img, base)
    ensures r.Failed? ==> r.code == if elf.rofixup.None? then 1 else -1
    ensures r.Done? ==> PassedOver(elf, ws, img, mem[newBase..newBase + |img|], base, newBase)
    ensures !r.Trapped? ==> SameOutside(old(mem[..]), mem[..], newBase, |img|)
  {
    ghost var m1 := mem[..];
    if elf.rofixup.None? {
      assert SameOutside(m1, m1, newBase, |img|);
      return Failed(1);
    }
    var flash, mems := PrepareFlashFixups(elf, base);
    var job := FlashJob(newBase, flash, mems);
    var tbl := AdjustLma(elf.rofixup.value, newBase);
    ReadyForPasses(elf, ws, img, m1, base, newBase);
    hide *;
    var ok := ApplyFixups(mem, flash, NeedsFlashFixup, job, tbl, elf.rofixup.value.size);
    if !ok {
      FlashStops(elf, ws, img, base, newBase, m1);
      return Trapped;
    }
    ghost var m2 := mem[..];
    TableKept(job, MarkedFlash(elf, base), ws, m1, m2, tbl);
    if elf.mem == [] {
      OnePassDone(elf, ws, img, base, newBase, m1, m2);
      return Failed(-1);
    }
    ok := ApplyFixups(mem, mems, NeedsFlashFixup, job, tbl, elf.rofixup.value.size);
    if !ok {
      MemStops(elf, ws, img, base, newBase, m1, m2);
      return Trapped;
    }
    BothPassesDone(elf, ws, img, base, newBase, m1, m2, mem[..]);
    return Done(());
  }

  lemma OnePassDone(elf: Elf, ws: seq<Word>, img: Memory, base: nat, newBase: nat, m1: Memory, m2: Memory)
    requires base + |img| < WORD_LIMIT
    requires ElfOk(elf, ws, |img|) && PlacesKnown(elf, ws, base, newBase) && ImageAt(m1, newBase, img) && elf.mem == []
    requires FixedUp(JobFor(elf, base, newBase), MarkedFlash(elf, base), NeedsFlashFixup, ws, |ws|, m1, m2)
    ensures AllAccounted(elf, ws, img, base)
    ensures SameOutside(m1, m2, newBase, |img|)
  {
    AllAccountedExact(elf, ws, img, base);
    hide AllAccounted;
    forall k, o | SlotAt(elf, ws, k, o) && 0 <= o && o + 4 <= |img|
      ensures Taken(elf, base, LoadWord(img, o))
    {
      FlashAccounted(elf, ws, img, base, newBase, m1, m2, k, o);
    }
    forall x | 0 <= x < |m1| && !(newBase <= x < newBase + |img|)
      ensures m2[x] == m1[x]
    {
      forall k, p | At(JobFor(elf, base, newBase), MarkedFlash(elf, base), NeedsFlashFixup, ws, k, p)
        ensures !(p <= x < p + 4)
      {
        SlotInside(elf, ws, |img|, k, p - newBase);
      }
    }
  }

  lemma BothPassesDone(elf: Elf, ws: seq<Word>, img: Memory, base: nat, newBase: nat, m1: Memory, m2: Memory, m3: Memory)
    requires base + |img| < WORD_LIMIT
    requires ElfOk(elf, ws, |img|) && PlacesKnown(elf, ws, base, newBase) && ImageAt(m1, newBase, img) && newBase + |img| < WORD_LIMIT
    requires FixedUp(JobFor(elf, base, newBase), MarkedFlash(elf, base), NeedsFlashFixup, ws, |ws|, m1, m2)
    requires FixedUp(JobFor(elf, base, newBase), MarkedMem(elf, base), NeedsFlashFixup, ws, |ws|, m2, m3)
    ensures AllAccounted(elf, ws, img, base)
    ensures newBase + |img| <= |m3|
    ensures PassedOver(elf, ws, img, m3[newBase..newBase + |img|], base, newBase)
    ensures SameOutside(m1, m3, newBase, |img|)
  {
    AllAccountedExact(elf, ws, img, base);
    hide AllAccounted;
    assert |m3| == |m1|;
    forall k, o | SlotAt(elf, ws, k, o) && 0 <= o && o + 4 <= |img|
      ensures Taken(elf, base, LoadWord(img, o))
    {
      if FlashSlotAt(elf, ws, k, o) {
        FlashAccounted(elf, ws, img, base, newBase, m1, m2, k, o);
      } else {
        MemAccounted(elf, ws, img, base, newBase, m1, m2, m3, k, o);
      }
    }
    PassesRewrite(elf, ws, img, base, newBase, m1, m2, m3, m3[newBase..newBase + |img|]);
  }
}
