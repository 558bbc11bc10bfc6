/** What moving a stored image from one flash address to another does to its
    bytes: the two flash fixup passes as one translation of fixup slots
    (src/uld_rofixup.c, src/uld_reloc.c). */
module ImageMove {
  import opened Words
  import opened Options
  import opened Sections
  import opened Fixups

  /** The sections of an image, as its headers give them, without addresses that
      depend on where the image is. */
  datatype Elf = Elf(flash: seq<Section>, mem: seq<Section>, rofixup: Option<Section>)

  /** `uld_load_create_section` for an image at `base`. */
  function AtBase(s: Section, base: nat): Section {
    s.(adjLma := AdjustLma(s, base), adjVma := Wrap(base + s.offset), loaded := false)
  }

  predicate FlashFixupName(name: string) {
    name in {".got", ".got.plt", ".data"}
  }

  /** `uld_reloc_prepare_flash_fixups`: all flash sections are marked, and the memory
      sections whose initial contents are stored in flash. */
  function MarkedFlash(elf: Elf, base: nat): (r: seq<Section>)
    ensures |r| == |elf.flash| && forall k :: 0 <= k < |r| ==> r[k] == AtBase(elf.flash[k], base).(flashFixup := true)
  {
    seq(|elf.flash|, k requires 0 <= k < |elf.flash| => AtBase(elf.flash[k], base).(flashFixup := true))
  }

  function MarkedMem(elf: Elf, base: nat): (r: seq<Section>)
    ensures |r| == |elf.mem|
    ensures forall k :: 0 <= k < |r| ==> r[k] == AtBase(elf.mem[k], base).(flashFixup := FlashFixupName(elf.mem[k].name))
  {
    seq(|elf.mem|, k requires 0 <= k < |elf.mem| => AtBase(elf.mem[k], base).(flashFixup := FlashFixupName(elf.mem[k].name)))
  }

  function JobFor(elf: Elf, base: nat, newBase: nat): Job {
    FlashJob(newBase, MarkedFlash(elf, base), MarkedMem(elf, base))
  }

  // ----- offsets in the image -----

  predicate HasContents(s: Section) {
    s.alloc && s.shType != SHT_NOBITS
  }

  /** The marked section that holds the fixup at link address `a`. */
  function FlashHome(elf: Elf, a: Word): Option<nat> {
    FindMarked(MarkedFlash(elf, 0), a)
  }

  function MemHome(elf: Elf, a: Word): Option<nat> {
    FindMarked(MarkedMem(elf, 0), a)
  }

  function FindMarked(secs: seq<Section>, a: Word): Option<nat> {
    Home(secs, NeedsFlashFixup, a)
  }

  /** The image offset of link address `a` of section `s`. */
  function OffsetIn(s: Section, a: Word): int {
    s.offset + (a - s.lma)
  }

  ghost predicate SlotAt(elf: Elf, ws: seq<Word>, k: int, o: int) {
    0 <= k < |ws| && (FlashSlotAt(elf, ws, k, o) || MemSlotAt(elf, ws, k, o))
  }

  ghost predicate FlashSlotAt(elf: Elf, ws: seq<Word>, k: int, o: int) {
    0 <= k < |ws| && FlashHome(elf, ws[k]).Some? && o == OffsetIn(elf.flash[FlashHome(elf, ws[k]).value], ws[k])
  }

  ghost predicate MemSlotAt(elf: Elf, ws: seq<Word>, k: int, o: int) {
    0 <= k < |ws| && MemHome(elf, ws[k]).Some? && o == OffsetIn(elf.mem[MemHome(elf, ws[k]).value], ws[k])
  }

  /** A well-formed image of `size` bytes with fixup table `ws`: sections with
      contents are inside it, fixups are in such sections, each in one marked
      section only, and slots overlap neither one another nor the table. */
  ghost predicate ElfOk(elf: Elf, ws: seq<Word>, size: nat) {
    && elf.rofixup.Some?
    && |ws| == TableLen(elf.rofixup.value.size) && elf.rofixup.value.offset + 4 * |ws| <= size
    && HasContents(elf.rofixup.value)
    && Inside(elf.flash, size) && Inside(elf.mem, size)
    && (forall k :: 0 <= k < |ws| ==> FixupHomeOk(elf, ws[k]))
    && (forall k, o :: SlotAt(elf, ws, k, o) ==> 0 <= o && o + 4 <= size && ApartFromTable(elf, ws, o))
    && (forall j, o, k, q :: SlotAt(elf, ws, j, o) && SlotAt(elf, ws, k, q) && j != k ==> o + 4 <= q || q + 4 <= o)
  }

  /** The sections lie in an image of `size` bytes, as far as they have contents. */
  predicate Inside(secs: seq<Section>, size: nat) {
    forall s :: s in secs ==> s.offset <= size && (HasContents(s) ==> s.offset + s.size <= size)
  }

  predicate ApartFromTable(elf: Elf, ws: seq<Word>, o: int)
    requires elf.rofixup.Some?
  {
    o + 4 <= elf.rofixup.value.offset || elf.rofixup.value.offset + 4 * |ws| <= o
  }

  predicate FixupHomeOk(elf: Elf, a: Word) {
    && (FlashHome(elf, a).Some? ==> HasContents(elf.flash[FlashHome(elf, a).value]) && MemHome(elf, a).None?)
    && (MemHome(elf, a).Some? ==> HasContents(elf.mem[MemHome(elf, a).value]))
  }

  /** The bytes of the image hold the table. */
  ghost predicate HoldsTable(img: Memory, elf: Elf, ws: seq<Word>) {
    elf.rofixup.Some? && elf.rofixup.value.offset + 4 * |ws| <= |img| &&
    forall k :: 0 <= k < |ws| ==> ws[k] == LoadWord(img, elf.rofixup.value.offset + 4 * k)
  }

  // ----- the translation -----

  /** `v` is the address of a byte of section `s` of the image at `base`. */
  predicate InSection(s: Section, base: nat, v: Word) {
    HasContents(s) && base + s.offset <= v < base + s.offset + s.size
  }

  predicate InSome(secs: seq<Section>, base: nat, v: Word) {
    exists s :: s in secs && InSection(s, base, v)
  }

  predicate InImage(elf: Elf, base: nat, v: Word) {
    InSome(elf.flash, base, v) || InSome(elf.mem, base, v)
  }

  /** Sections without contents have adjusted address 0, so the search by adjusted
      address takes `v` for one of their bytes. */
  predicate InNullWindow(elf: Elf, v: Word) {
    NullHit(elf.flash, v) || NullHit(elf.mem, v)
  }

  predicate NullHit(secs: seq<Section>, v: Word) {
    exists s :: s in secs && !HasContents(s) && v < s.size
  }

  /** What a fixup word becomes when the image moves: an address in the image moves
      along, any other word stays. */
  function Moved(elf: Elf, base: nat, newBase: nat, v: Word): int {
    if v != 0 && InImage(elf, base, v) then v - base + newBase else v
  }

  /** `img1` is `img` moved from `base` to `newBase`. */
  ghost predicate MoveOf(elf: Elf, ws: seq<Word>, img: Memory, img1: Memory, base: nat, newBase: nat) {
    && |img1| == |img|
    && (forall k, o :: SlotAt(elf, ws, k, o) && 0 <= o && o + 4 <= |img| ==>
          LoadWord(img1, o) == Moved(elf, base, newBase, LoadWord(img, o)))
    && (forall x :: 0 <= x < |img| && (forall k, o :: SlotAt(elf, ws, k, o) ==> !(o <= x < o + 4)) ==> img1[x] == img[x])
  }

  /** No fixup word is in a null window. */
  ghost predicate WindowFree(elf: Elf, ws: seq<Word>, img: Memory) {
    forall k, o :: SlotAt(elf, ws, k, o) && 0 <= o && o + 4 <= |img| && LoadWord(img, o) != 0 ==>
      !InNullWindow(elf, LoadWord(img, o))
  }

  // ----- the callback computes the translation -----

  function MovedBy(t: Section, newBase: nat, v: Word): Word {
    Wrap(v - t.adjVma + AdjustLma(t, newBase))
  }

  lemma SectionMoves(s: Section, t: Section, base: nat, newBase: nat, size: nat, v: Word)
    requires t == AtBase(s, base).(flashFixup := t.flashFixup)
    requires InSection(s, base, v) && s.offset + s.size <= size
    requires base + size < WORD_LIMIT && newBase + size < WORD_LIMIT
    ensures MovedBy(t, newBase, v) == v - base + newBase
  {
    assert t.adjVma == base + s.offset;
    assert AdjustLma(t, newBase) == newBase + s.offset;
  }

  lemma HitIsIn(s: Section, t: Section, base: nat, size: nat, v: Word)
    requires t.adjLma == AdjustLma(s, base) && t.size == s.size && base + size < WORD_LIMIT
    requires if HasContents(s) then s.offset + s.size <= size else s.size <= v
    ensures Hit(t, ByAdjLma, AnySection, v) <==> InSection(s, base, v)
  {
  }

  /** The search by adjusted address finds the section of the image that holds `v`. */
  lemma SearchFinds(secs: seq<Section>, marked: seq<Section>, base: nat, size: nat, v: Word)
    requires |marked| == |secs| && Inside(secs, size) && base + size < WORD_LIMIT && !NullHit(secs, v)
    requires forall k :: 0 <= k < |secs| ==> marked[k].adjLma == AdjustLma(secs[k], base) && marked[k].size == secs[k].size
    ensures var a := FindSection(marked, ByAdjLma, AnySection, v);
            && (a.Some? ==> InSection(secs[a.value], base, v))
            && (a.Some? <==> InSome(secs, base, v))
  {
    forall k | 0 <= k < |secs|
      ensures Hit(marked[k], ByAdjLma, AnySection, v) <==> InSection(secs[k], base, v)
    {
      assert secs[k] in secs;
      HitIsIn(secs[k], marked[k], base, size, v);
    }
    hide Hit, InSection, AdjustLma, NullHit, Inside;
    var a := FindSection(marked, ByAdjLma, AnySection, v);
    if a.Some? {
      assert secs[a.value] in secs;
    }
  }

  lemma FlashSectionMoves(elf: Elf, k: nat, base: nat, newBase: nat, size: nat, v: Word)
    requires k < |elf.flash| && InSection(elf.flash[k], base, v) && Inside(elf.flash, size)
    requires base + size < WORD_LIMIT && newBase + size < WORD_LIMIT
    ensures MovedBy(MarkedFlash(elf, base)[k], newBase, v) == v - base + newBase
  {
    assert elf.flash[k] in elf.flash;
    SectionMoves(elf.flash[k], MarkedFlash(elf, base)[k], base, newBase, size, v);
  }

  lemma MemSectionMoves(elf: Elf, k: nat, base: nat, newBase: nat, size: nat, v: Word)
    requires k < |elf.mem| && InSection(elf.mem[k], base, v) && Inside(elf.mem, size)
    requires base + size < WORD_LIMIT && newBase + size < WORD_LIMIT
    ensures MovedBy(MarkedMem(elf, base)[k], newBase, v) == v - base + newBase
  {
    assert elf.mem[k] in elf.mem;
    SectionMoves(elf.mem[k], MarkedMem(elf, base)[k], base, newBase, size, v);
  }

  function InFlash(elf: Elf, base: nat, v: Word): Option<nat> {
    FindSection(MarkedFlash(elf, base), ByAdjLma, AnySection, v)
  }

  function InMem(elf: Elf, base: nat, v: Word): Option<nat> {
    FindSection(MarkedMem(elf, base), ByAdjLma, AnySection, v)
  }

  /** The callback patches exactly the words that the search by adjusted address
      finds a section for. */
  lemma CallbackCases(elf: Elf, base: nat, newBase: nat, v: Word)
    requires v != 0
    ensures var f := FlashFixup(newBase, MarkedFlash(elf, base), MarkedMem(elf, base), v);
            match InFlash(elf, base, v)
            case Some(k) => Result(f, v) == MovedBy(MarkedFlash(elf, base)[k], newBase, v)
            case None =>
              match InMem(elf, base, v)
              case Some(k) => Result(f, v) == MovedBy(MarkedMem(elf, base)[k], newBase, v)
              case None => Result(f, v) == v
  {
  }

  /** For a word outside the null windows, `uld_rofixup_do_flash_fixup` is the
      translation. */
  lemma RewrittenIsMoved(elf: Elf, base: nat, newBase: nat, size: nat, v: Word)
    requires base + size < WORD_LIMIT && newBase + size < WORD_LIMIT
    requires Inside(elf.flash, size) && Inside(elf.mem, size)
    requires v == 0 || !InNullWindow(elf, v)
    ensures Rewritten(elf, base, newBase, v) == Moved(elf, base, newBase, v)
  {
    if v != 0 {
      SearchFinds(elf.flash, MarkedFlash(elf, base), base, size, v);
      SearchFinds(elf.mem, MarkedMem(elf, base), base, size, v);
      CallbackCases(elf, base, newBase, v);
      hide Wrap, AdjustLma, Inside, InSection, Hit, FlashFixup, InSome, NullHit, MovedBy;
      if InFlash(elf, base, v).Some? {
        FlashSectionMoves(elf, InFlash(elf, base, v).value, base, newBase, size, v);
      } else if InMem(elf, base, v).Some? {
        MemSectionMoves(elf, InMem(elf, base, v).value, base, newBase, size, v);
      }
    }
  }

  // ----- both passes together -----

  lemma SameHome(secs: seq<Section>, secs1: seq<Section>, need: Need, a: Word)
    requires |secs| == |secs1|
    requires forall k :: 0 <= k < |secs| ==>
      secs[k].lma == secs1[k].lma && secs[k].size == secs1[k].size && HasFlag(secs[k], need) == HasFlag(secs1[k], need)
    ensures Home(secs, need, a) == Home(secs1, need, a)
  {
    assert forall k :: 0 <= k < |secs| ==> (Hit(secs[k], ByLma, need, a) <==> Hit(secs1[k], ByLma, need, a));
  }

  /** The place of a fixup is its slot in the image at `newBase`. */
  lemma PlaceIsSlot(s: Section, t: Section, base: nat, newBase: nat, size: nat, job: Job, a: Word)
    requires t == AtBase(s, base).(flashFixup := t.flashFixup) && job.FlashJob? && job.newBase == newBase
    requires HasContents(s) && s.lma <= a < s.lma + s.size && s.offset + s.size <= size && newBase + size < WORD_LIMIT
    ensures PlaceIn(job, t, a) == newBase + OffsetIn(s, a)
  {
  }

  lemma FlashPlace(elf: Elf, ws: seq<Word>, size: nat, base: nat, newBase: nat, k: int, p: int)
    requires ElfOk(elf, ws, size) && newBase + size < WORD_LIMIT
    ensures At(JobFor(elf, base, newBase), MarkedFlash(elf, base), NeedsFlashFixup, ws, k, p) <==> FlashSlotAt(elf, ws, k, p - newBase)
  {
    if 0 <= k < |ws| {
      var a := ws[k];
      SameHome(MarkedFlash(elf, base), MarkedFlash(elf, 0), NeedsFlashFixup, a);
      if FlashHome(elf, a).Some? {
        var x := FlashHome(elf, a).value;
        assert FixupHomeOk(elf, a) && elf.flash[x] in elf.flash;
        PlaceIsSlot(elf.flash[x], MarkedFlash(elf, base)[x], base, newBase, size, JobFor(elf, base, newBase), a);
      }
    }
  }

  lemma MemPlace(elf: Elf, ws: seq<Word>, size: nat, base: nat, newBase: nat, k: int, p: int)
    requires ElfOk(elf, ws, size) && newBase + size < WORD_LIMIT
    ensures At(JobFor(elf, base, newBase), MarkedMem(elf, base), NeedsFlashFixup, ws, k, p) <==> MemSlotAt(elf, ws, k, p - newBase)
  {
    if 0 <= k < |ws| {
      var a := ws[k];
      SameHome(MarkedMem(elf, base), MarkedMem(elf, 0), NeedsFlashFixup, a);
      if MemHome(elf, a).Some? {
        var x := MemHome(elf, a).value;
        assert FixupHomeOk(elf, a) && elf.mem[x] in elf.mem;
        PlaceIsSlot(elf.mem[x], MarkedMem(elf, base)[x], base, newBase, size, JobFor(elf, base, newBase), a);
      }
    }
  }

  /** The loop over the fixup table may run over the copy at `newBase`. */
  lemma PassesApart(elf: Elf, ws: seq<Word>, size: nat, base: nat, newBase: nat, len: nat)
    requires ElfOk(elf, ws, size) && newBase + size < WORD_LIMIT && newBase + size <= len
    ensures var tbl := newBase + elf.rofixup.value.offset;
            var job := JobFor(elf, base, newBase);
            && FixupsApart(job, MarkedFlash(elf, base), NeedsFlashFixup, ws, len, tbl, tbl + 4 * |ws|)
            && FixupsApart(job, MarkedMem(elf, base), NeedsFlashFixup, ws, len, tbl, tbl + 4 * |ws|)
  {
    var job := JobFor(elf, base, newBase);
    forall k, p
      ensures At(job, MarkedFlash(elf, base), NeedsFlashFixup, ws, k, p) ==> SlotAt(elf, ws, k, p - newBase)
      ensures At(job, MarkedMem(elf, base), NeedsFlashFixup, ws, k, p) ==> SlotAt(elf, ws, k, p - newBase)
    {
      FlashPlace(elf, ws, size, base, newBase, k, p);
      MemPlace(elf, ws, size, base, newBase, k, p);
    }
    hide At, FlashSlotAt, MemSlotAt, MarkedFlash, MarkedMem, JobFor, SlotAt;
  }

  /** `img` is at `at` in memory `m`. */
  ghost predicate ImageAt(m: Memory, at: nat, img: Memory) {
    at + |img| <= |m| && forall x :: 0 <= x < |img| ==> m[at + x] == img[x]
  }

  lemma ImageFits(m: Memory, at: nat, img: Memory)
    requires ImageAt(m, at, img)
    ensures at + |img| <= |m|
  {
  }

  lemma WordAt(m: Memory, at: nat, img: Memory, o: nat)
    requires ImageAt(m, at, img) && o + 4 <= |img|
    ensures LoadWord(m, at + o) == LoadWord(img, o)
  {
    assert m[at + o] == img[o] && m[at + (o + 1)] == img[o + 1] && m[at + (o + 2)] == img[o + 2] && m[at + (o + 3)] == img[o + 3];
  }

  /** What the callback writes for the word `v`. */
  function Rewritten(elf: Elf, base: nat, newBase: nat, v: Word): Word {
    Result(FlashFixup(newBase, MarkedFlash(elf, base), MarkedMem(elf, base), v), v)
  }

  /** `img1` is what the two passes make of `img`: rewritten slots and nothing else. */
  ghost predicate PassedOver(elf: Elf, ws: seq<Word>, img: Memory, img1: Memory, base: nat, newBase: nat) {
    && |img1| == |img|
    && (forall k, o :: SlotAt(elf, ws, k, o) && 0 <= o && o + 4 <= |img| ==>
          LoadWord(img1, o) == Rewritten(elf, base, newBase, LoadWord(img, o)))
    && (forall x :: 0 <= x < |img| && (forall k, o :: SlotAt(elf, ws, k, o) ==> !(o <= x < o + 4)) ==> img1[x] == img[x])
  }

  /** After the two passes over the copy of `img` at `newBase`, the slots of the
      copy are rewritten, and nothing outside the copy has changed. */
  lemma PassesRewrite(elf: Elf, ws: seq<Word>, img: Memory, base: nat, newBase: nat, m1: Memory, m2: Memory, m3: Memory, img3: Memory)
    requires ElfOk(elf, ws, |img|) && newBase + |img| < WORD_LIMIT
    requires ImageAt(m1, newBase, img) && ImageAt(m3, newBase, img3) && |img3| == |img|
    requires FixedUp(JobFor(elf, base, newBase), MarkedFlash(elf, base), NeedsFlashFixup, ws, |ws|, m1, m2)
    requires FixedUp(JobFor(elf, base, newBase), MarkedMem(elf, base), NeedsFlashFixup, ws, |ws|, m2, m3)
    ensures PassedOver(elf, ws, img, img3, base, newBase)
    ensures |m3| == |m1| && forall x :: 0 <= x < |m1| && !(newBase <= x < newBase + |img|) ==> m3[x] == m1[x]
  {
    forall k, p
      ensures At(JobFor(elf, base, newBase), MarkedFlash(elf, base), NeedsFlashFixup, ws, k, p) <==> FlashSlotAt(elf, ws, k, p - newBase)
      ensures At(JobFor(elf, base, newBase), MarkedMem(elf, base), NeedsFlashFixup, ws, k, p) <==> MemSlotAt(elf, ws, k, p - newBase)
    {
      FlashPlace(elf, ws, |img|, base, newBase, k, p);
      MemPlace(elf, ws, |img|, base, newBase, k, p);
    }
    forall x | 0 <= x < |m1| && (forall k, o :: SlotAt(elf, ws, k, o) ==> !(o <= x - newBase < o + 4))
      ensures m3[x] == m1[x]
    {
      Untouched(elf, ws, base, newBase, m1, m2, m3, x);
    }
    forall k, o | SlotAt(elf, ws, k, o) && 0 <= o && o + 4 <= |img|
      ensures LoadWord(img3, o) == Rewritten(elf, base, newBase, LoadWord(img, o))
    {
      SlotRewritten(elf, ws, img, base, newBase, m1, m2, m3, k, o);
      WordAt(m3, newBase, img3, o);
    }
    forall x | 0 <= x < |img| && (forall k, o :: SlotAt(elf, ws, k, o) ==> !(o <= x < o + 4))
      ensures img3[x] == img[x]
    {
      assert m3[newBase + x] == m1[newBase + x];
    }
  }

  /** All null windows are below the image. */
  predicate WindowsBelow(elf: Elf, base: nat) {
    (forall s :: s in elf.flash && !HasContents(s) ==> s.size <= base) && (forall s :: s in elf.mem && !HasContents(s) ==> s.size <= base)
  }

  /** A word below the image is found only in a section without contents, and is
      moved down by where that section would be. */
  lemma FoundBelow(secs: seq<Section>, marked: seq<Section>, base: nat, newBase: nat, size: nat, k: nat, v: Word)
    requires |marked| == |secs| && k < |secs| && marked[k] == AtBase(secs[k], base).(flashFixup := marked[k].flashFixup)
    requires Hit(marked[k], ByAdjLma, AnySection, v) && v < base
    requires secs[k].offset <= size && base + size < WORD_LIMIT
    ensures MovedBy(marked[k], newBase, v) == v - base - secs[k].offset + WORD_LIMIT
  {
  }

  lemma WindowIsBelow(elf: Elf, base: nat, newBase: nat, v: Word)
    requires WindowsBelow(elf, base) && InNullWindow(elf, v)
    ensures v < base && Moved(elf, base, newBase, v) == v
  {
  }

  /** File offset of the section without contents that the search takes `v` to be in. */
  function SpoiltOffset(elf: Elf, base: nat, v: Word): nat {
    match InFlash(elf, base, v)
    case Some(k) => elf.flash[k].offset
    case None =>
      match InMem(elf, base, v)
      case Some(k) => elf.mem[k].offset
      case None => 0
  }

  /** What a word in a null window becomes, wherever the image goes. */
  lemma SpoiltWord(elf: Elf, base: nat, newBase: nat, size: nat, v: Word)
    requires base + size < WORD_LIMIT && Inside(elf.flash, size) && Inside(elf.mem, size)
    requires WindowsBelow(elf, base) && v != 0 && InNullWindow(elf, v)
    ensures SpoiltOffset(elf, base, v) <= size && v < base
    ensures Rewritten(elf, base, newBase, v) == v - base - SpoiltOffset(elf, base, v) + WORD_LIMIT
  {
    WindowIsBelow(elf, base, newBase, v);
    CallbackCases(elf, base, newBase, v);
    hide MovedBy, Wrap, AdjustLma, FlashFixup, WindowsBelow, HasContents, Moved;
    var f, m := InFlash(elf, base, v), InMem(elf, base, v);
    if f.Some? {
      assert elf.flash[f.value] in elf.flash;
      FoundBelow(elf.flash, MarkedFlash(elf, base), base, newBase, size, f.value, v);
    } else if m.Some? {
      assert elf.mem[m.value] in elf.mem;
      FoundBelow(elf.mem, MarkedMem(elf, base), base, newBase, size, m.value, v);
    } else {
      NotFoundNoWindow(elf.flash, MarkedFlash(elf, base), base, v);
      NotFoundNoWindow(elf.mem, MarkedMem(elf, base), base, v);
    }
  }

  /** A word in a null window is taken for an address in a section without contents
      and spoilt. */
  lemma WindowSpoils(elf: Elf, base: nat, newBase: nat, size: nat, v: Word)
    requires base + size < WORD_LIMIT && Inside(elf.flash, size) && Inside(elf.mem, size)
    requires WindowsBelow(elf, base) && v != 0 && InNullWindow(elf, v)
    ensures Rewritten(elf, base, newBase, v) != Moved(elf, base, newBase, v)
  {
    WindowIsBelow(elf, base, newBase, v);
    SpoiltWord(elf, base, newBase, size, v);
  }

  lemma NotFoundNoWindow(secs: seq<Section>, marked: seq<Section>, base: nat, v: Word)
    requires |marked| == |secs| && FindSection(marked, ByAdjLma, AnySection, v).None?
    requires forall k :: 0 <= k < |secs| ==> marked[k].adjLma == AdjustLma(secs[k], base) && marked[k].size == secs[k].size
    ensures !NullHit(secs, v)
  {
    forall k | 0 <= k < |secs|
      ensures HasContents(secs[k]) || secs[k].size <= v
    {
      assert !Hit(marked[k], ByAdjLma, AnySection, v);
    }
  }

  /** The passes are an exact move if no fixup word is in a null window; and only
      then, as far as the null windows are below the image. */
  lemma PassedIsMove(elf: Elf, ws: seq<Word>, img: Memory, img1: Memory, base: nat, newBase: nat)
    requires ElfOk(elf, ws, |img|) && 0 < base && base + |img| < WORD_LIMIT && newBase + |img| < WORD_LIMIT
    requires PassedOver(elf, ws, img, img1, base, newBase)
    ensures WindowFree(elf, ws, img) ==> MoveOf(elf, ws, img, img1, base, newBase)
    ensures WindowsBelow(elf, base) ==> (MoveOf(elf, ws, img, img1, base, newBase) <==> WindowFree(elf, ws, img))
  {
    hide Rewritten, Moved, InNullWindow, WindowsBelow, SlotAt;
    forall k, o | SlotAt(elf, ws, k, o) && 0 <= o && o + 4 <= |img|
      ensures var v := LoadWord(img, o);
              && (v == 0 || !InNullWindow(elf, v) ==> Rewritten(elf, base, newBase, v) == Moved(elf, base, newBase, v))
              && (WindowsBelow(elf, base) && v != 0 && InNullWindow(elf, v) ==> Rewritten(elf, base, newBase, v) != Moved(elf, base, newBase, v))
    {
      var v := LoadWord(img, o);
      if v == 0 || !InNullWindow(elf, v) {
        RewrittenIsMoved(elf, base, newBase, |img|, v);
      } else if WindowsBelow(elf, base) {
        WindowSpoils(elf, base, newBase, |img|, v);
      }
    }
  }

  ghost predicate PlacesKnown(elf: Elf, ws: seq<Word>, base: nat, newBase: nat) {
    forall k, p ::
      && (At(JobFor(elf, base, newBase), MarkedFlash(elf, base), NeedsFlashFixup, ws, k, p) <==> FlashSlotAt(elf, ws, k, p - newBase))
      && (At(JobFor(elf, base, newBase), MarkedMem(elf, base), NeedsFlashFixup, ws, k, p) <==> MemSlotAt(elf, ws, k, p - newBase))
  }

  lemma Untouched(elf: Elf, ws: seq<Word>, base: nat, newBase: nat, m1: Memory, m2: Memory, m3: Memory, x: nat)
    requires PlacesKnown(elf, ws, base, newBase) && x < |m1|
    requires FixedUp(JobFor(elf, base, newBase), MarkedFlash(elf, base), NeedsFlashFixup, ws, |ws|, m1, m2)
    requires FixedUp(JobFor(elf, base, newBase), MarkedMem(elf, base), NeedsFlashFixup, ws, |ws|, m2, m3)
    requires forall k, o :: SlotAt(elf, ws, k, o) ==> !(o <= x - newBase < o + 4)
    ensures m3[x] == m1[x]
  {
    forall k, p | At(JobFor(elf, base, newBase), MarkedFlash(elf, base), NeedsFlashFixup, ws, k, p)
      ensures !(p <= x < p + 4)
    {
      assert SlotAt(elf, ws, k, p - newBase);
    }
    forall k, p | At(JobFor(elf, base, newBase), MarkedMem(elf, base), NeedsFlashFixup, ws, k, p)
      ensures !(p <= x < p + 4)
    {
      assert SlotAt(elf, ws, k, p - newBase);
    }
  }

  /** No fixup of the pass overlaps the word at `p`. */
  ghost predicate PassAvoids(job: Job, secs: seq<Section>, ws: seq<Word>, p: nat) {
    forall j, q :: At(job, secs, NeedsFlashFixup, ws, j, q) ==> p + 4 <= q || q + 4 <= p
  }

  /** A pass leaves alone what none of its fixups overlaps. */
  lemma PassKeeps(job: Job, secs: seq<Section>, ws: seq<Word>, ma: Memory, mb: Memory, p: nat)
    requires JobOk(job) && FixedUp(job, secs, NeedsFlashFixup, ws, |ws|, ma, mb) && p + 4 <= |mb|
    requires PassAvoids(job, secs, ws, p)
    ensures |ma| == |mb| && LoadWord(ma, p) == LoadWord(mb, p)
  {
    forall x | p <= x < p + 4
      ensures mb[x] == ma[x]
    {
      forall j, q | At(job, secs, NeedsFlashFixup, ws, j, q)
        ensures !(q <= x < q + 4)
      {
      }
    }
    LoadSame(ma, mb, p);
  }

  lemma OtherSlotsApart(elf: Elf, ws: seq<Word>, size: nat, k: nat, o: nat, j: int, q: int)
    requires ElfOk(elf, ws, size)
    requires (FlashSlotAt(elf, ws, k, o) && MemSlotAt(elf, ws, j, q)) || (MemSlotAt(elf, ws, k, o) && FlashSlotAt(elf, ws, j, q))
    ensures o + 4 <= q || q + 4 <= o
  {
    assert SlotAt(elf, ws, k, o) && SlotAt(elf, ws, j, q) && FixupHomeOk(elf, ws[k]);
  }

  /** A slot of the first pass keeps what that pass wrote. */
  lemma WrittenThenKept(job: Job, secs: seq<Section>, later: seq<Section>, ws: seq<Word>, ma: Memory, mb: Memory, mc: Memory, k: nat, p: nat)
    requires JobOk(job) && FixedUp(job, secs, NeedsFlashFixup, ws, |ws|, ma, mb) && FixedUp(job, later, NeedsFlashFixup, ws, |ws|, mb, mc)
    requires At(job, secs, NeedsFlashFixup, ws, k, p)
    requires PassAvoids(job, later, ws, p)
    ensures FixedAt(job, Home(secs, NeedsFlashFixup, ws[k]).value, ma, mc, p)
  {
    assert FixedAt(job, Home(secs, NeedsFlashFixup, ws[k]).value, ma, mb, p);
    PassKeeps(job, later, ws, mb, mc, p);
  }

  /** A slot of the second pass still has its word when that pass comes. */
  lemma KeptThenWritten(job: Job, secs: seq<Section>, earlier: seq<Section>, ws: seq<Word>, ma: Memory, mb: Memory, mc: Memory, k: nat, p: nat)
    requires JobOk(job) && FixedUp(job, earlier, NeedsFlashFixup, ws, |ws|, ma, mb) && FixedUp(job, secs, NeedsFlashFixup, ws, |ws|, mb, mc)
    requires At(job, secs, NeedsFlashFixup, ws, k, p)
    requires PassAvoids(job, earlier, ws, p)
    ensures FixedAt(job, Home(secs, NeedsFlashFixup, ws[k]).value, ma, mc, p)
  {
    assert FixedAt(job, Home(secs, NeedsFlashFixup, ws[k]).value, mb, mc, p);
    PassKeeps(job, earlier, ws, ma, mb, p);
  }

  /** No fixup of one pass overlaps slot `k` of the other pass. */
  lemma MemApart(elf: Elf, ws: seq<Word>, size: nat, base: nat, newBase: nat, k: nat, o: nat, p: nat)
    requires ElfOk(elf, ws, size) && PlacesKnown(elf, ws, base, newBase) && FlashSlotAt(elf, ws, k, o) && p == newBase + o
    ensures PassAvoids(JobFor(elf, base, newBase), MarkedMem(elf, base), ws, p)
  {
    hide ElfOk, FlashSlotAt, MemSlotAt, MarkedMem, JobFor, At;
    forall j, q | At(JobFor(elf, base, newBase), MarkedMem(elf, base), NeedsFlashFixup, ws, j, q)
      ensures p + 4 <= q || q + 4 <= p
    {
      OtherSlotsApart(elf, ws, size, k, o, j, q - newBase);
    }
  }

  lemma FlashApart(elf: Elf, ws: seq<Word>, size: nat, base: nat, newBase: nat, k: nat, o: nat, p: nat)
    requires ElfOk(elf, ws, size) && PlacesKnown(elf, ws, base, newBase) && MemSlotAt(elf, ws, k, o) && p == newBase + o
    ensures PassAvoids(JobFor(elf, base, newBase), MarkedFlash(elf, base), ws, p)
  {
    hide ElfOk, FlashSlotAt, MemSlotAt, MarkedFlash, JobFor, At;
    forall j, q | At(JobFor(elf, base, newBase), MarkedFlash(elf, base), NeedsFlashFixup, ws, j, q)
      ensures p + 4 <= q || q + 4 <= p
    {
      OtherSlotsApart(elf, ws, size, k, o, j, q - newBase);
    }
  }

  /** What both passes leave in a fixed word. */
  lemma FixedIsRewritten(elf: Elf, base: nat, newBase: nat, sec: nat, ma: Memory, mb: Memory, p: nat)
    requires FixedAt(JobFor(elf, base, newBase), sec, ma, mb, p)
    ensures p + 4 <= |ma| == |mb| && LoadWord(mb, p) == Rewritten(elf, base, newBase, LoadWord(ma, p))
  {
  }

  lemma SlotsAreAt(elf: Elf, ws: seq<Word>, base: nat, newBase: nat, k: nat, o: nat)
    requires PlacesKnown(elf, ws, base, newBase)
    ensures FlashSlotAt(elf, ws, k, o) ==> At(JobFor(elf, base, newBase), MarkedFlash(elf, base), NeedsFlashFixup, ws, k, newBase + o)
    ensures MemSlotAt(elf, ws, k, o) ==> At(JobFor(elf, base, newBase), MarkedMem(elf, base), NeedsFlashFixup, ws, k, newBase + o)
  {
    hide At, FlashSlotAt, MemSlotAt, MarkedFlash, MarkedMem, JobFor;
  }

  lemma FlashJobOk(elf: Elf, base: nat, newBase: nat)
    ensures JobOk(JobFor(elf, base, newBase))
  {
  }

  lemma FlashSlotMoved(elf: Elf, ws: seq<Word>, size: nat, base: nat, newBase: nat, m1: Memory, m2: Memory, m3: Memory, k: nat, o: nat)
    requires ElfOk(elf, ws, size) && PlacesKnown(elf, ws, base, newBase) && FlashSlotAt(elf, ws, k, o)
    requires FixedUp(JobFor(elf, base, newBase), MarkedFlash(elf, base), NeedsFlashFixup, ws, |ws|, m1, m2)
    requires FixedUp(JobFor(elf, base, newBase), MarkedMem(elf, base), NeedsFlashFixup, ws, |ws|, m2, m3)
    ensures newBase + o + 4 <= |m1| == |m3|
    ensures LoadWord(m3, newBase + o) == Rewritten(elf, base, newBase, LoadWord(m1, newBase + o))
  {
    hide *;
    var job, p := JobFor(elf, base, newBase), newBase + o;
    FlashJobOk(elf, base, newBase);
    SlotsAreAt(elf, ws, base, newBase, k, o);
    AtHome(job, MarkedFlash(elf, base), NeedsFlashFixup, ws, k, p);
    MemApart(elf, ws, size, base, newBase, k, o, p);
    WrittenThenKept(job, MarkedFlash(elf, base), MarkedMem(elf, base), ws, m1, m2, m3, k, p);
    FixedIsRewritten(elf, base, newBase, Home(MarkedFlash(elf, base), NeedsFlashFixup, ws[k]).value, m1, m3, p);
  }

  lemma MemSlotMoved(elf: Elf, ws: seq<Word>, size: nat, base: nat, newBase: nat, m1: Memory, m2: Memory, m3: Memory, k: nat, o: nat)
    requires ElfOk(elf, ws, size) && PlacesKnown(elf, ws, base, newBase) && MemSlotAt(elf, ws, k, o)
    requires FixedUp(JobFor(elf, base, newBase), MarkedFlash(elf, base), NeedsFlashFixup, ws, |ws|, m1, m2)
    requires FixedUp(JobFor(elf, base, newBase), MarkedMem(elf, base), NeedsFlashFixup, ws, |ws|, m2, m3)
    ensures newBase + o + 4 <= |m1| == |m3|
    ensures LoadWord(m3, newBase + o) == Rewritten(elf, base, newBase, LoadWord(m1, newBase + o))
  {
    hide *;
    var job, p := JobFor(elf, base, newBase), newBase + o;
    FlashJobOk(elf, base, newBase);
    SlotsAreAt(elf, ws, base, newBase, k, o);
    AtHome(job, MarkedMem(elf, base), NeedsFlashFixup, ws, k, p);
    FlashApart(elf, ws, size, base, newBase, k, o, p);
    KeptThenWritten(job, MarkedMem(elf, base), MarkedFlash(elf, base), ws, m1, m2, m3, k, p);
    FixedIsRewritten(elf, base, newBase, Home(MarkedMem(elf, base), NeedsFlashFixup, ws[k]).value, m1, m3, p);
  }

  lemma SlotRewritten(elf: Elf, ws: seq<Word>, img: Memory, base: nat, newBase: nat, m1: Memory, m2: Memory, m3: Memory, k: nat, o: nat)
    requires ElfOk(elf, ws, |img|) && PlacesKnown(elf, ws, base, newBase)
    requires ImageAt(m1, newBase, img) && SlotAt(elf, ws, k, o) && o + 4 <= |img|
    requires FixedUp(JobFor(elf, base, newBase), MarkedFlash(elf, base), NeedsFlashFixup, ws, |ws|, m1, m2)
    requires FixedUp(JobFor(elf, base, newBase), MarkedMem(elf, base), NeedsFlashFixup, ws, |ws|, m2, m3)
    ensures newBase + o + 4 <= |m3| == |m1|
    ensures LoadWord(m3, newBase + o) == Rewritten(elf, base, newBase, LoadWord(img, o))
  {
    WordAt(m1, newBase, img, o);
    hide FlashFixup, MarkedFlash, MarkedMem, JobFor, ElfOk, FixedUp, PlacesKnown, FlashSlotAt, MemSlotAt, Rewritten;
    if FlashSlotAt(elf, ws, k, o) {
      FlashSlotMoved(elf, ws, |img|, base, newBase, m1, m2, m3, k, o);
    } else {
      MemSlotMoved(elf, ws, |img|, base, newBase, m1, m2, m3, k, o);
    }
  }
}
