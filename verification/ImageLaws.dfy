/** Laws of moving an image, and the agreement of the run-time mover with the
    build-time patcher (scripts/patch-uld-elf.py). */
module ImageLaws {
  import opened Words
  import opened Options
  import opened Sections
  import opened ImageMove

  lemma SameWordSameBytes(m: Memory, n: Memory, a: nat)
    requires a + 4 <= |m| && a + 4 <= |n| && LoadWord(m, a) == LoadWord(n, a)
    ensures forall x :: a <= x < a + 4 ==> m[x] == n[x]
  {
    JoinSplit(m[a], m[a + 1], m[a + 2], m[a + 3]);
    JoinSplit(n[a], n[a + 1], n[a + 2], n[a + 3]);
  }

  /** Two images that agree on the words in the slots and on all other bytes. */
  lemma SameBySlots(elf: Elf, ws: seq<Word>, x: Memory, y: Memory)
    requires ElfOk(elf, ws, |x|) && |x| == |y|
    requires forall k, o :: SlotAt(elf, ws, k, o) ==> 0 <= o && o + 4 <= |x| && LoadWord(x, o) == LoadWord(y, o)
    requires forall b :: 0 <= b < |x| && (forall k, o :: SlotAt(elf, ws, k, o) ==> !(o <= b < o + 4)) ==> x[b] == y[b]
    ensures x == y
  {
    forall b | 0 <= b < |x|
      ensures x[b] == y[b]
    {
      if k, o :| SlotAt(elf, ws, k, o) && o <= b < o + 4 {
        SameWordSameBytes(x, y, o);
      }
    }
  }

  /** Where an image is moved to determines every byte of the result. */
  lemma MoveUnique(elf: Elf, ws: seq<Word>, img: Memory, x: Memory, y: Memory, base: nat, newBase: nat)
    requires ElfOk(elf, ws, |img|)
    requires MoveOf(elf, ws, img, x, base, newBase) && MoveOf(elf, ws, img, y, base, newBase)
    ensures x == y
  {
    SameBySlots(elf, ws, x, y);
  }

  /** The word is no false hit at `other`: it is blank, or an address in the image at `base`,
      or none in the image at `other`. */
  predicate WordOk(elf: Elf, base: nat, other: nat, v: Word) {
    v == 0 || InImage(elf, base, v) || !InImage(elf, other, v)
  }

  lemma ShiftedInSome(secs: seq<Section>, base: nat, other: nat, v: Word, w: Word)
    requires w == v - base + other
    ensures InSome(secs, base, v) <==> InSome(secs, other, w)
  {
    if InSome(secs, base, v) {
      var s :| s in secs && InSection(s, base, v);
      assert InSection(s, other, w);
    }
    if InSome(secs, other, w) {
      var s :| s in secs && InSection(s, other, w);
      assert InSection(s, base, v);
    }
  }

  /** Two moves of one word. */
  lemma MovedTwice(elf: Elf, base: nat, mid: nat, newBase: nat, v: Word, w: Word)
    requires 0 < mid && w == Moved(elf, base, mid, v)
    ensures WordOk(elf, base, mid, v) ==> Moved(elf, mid, newBase, w) == Moved(elf, base, newBase, v)
    ensures !WordOk(elf, base, mid, v) && mid != newBase ==> Moved(elf, mid, newBase, w) != Moved(elf, base, newBase, v)
  {
    if v != 0 && InImage(elf, base, v) {
      ShiftedInSome(elf.flash, base, mid, v, w);
      ShiftedInSome(elf.mem, base, mid, v, w);
      ImageAbove(elf, base, v);
    }
  }

  lemma ImageAbove(elf: Elf, base: nat, v: Word)
    requires InImage(elf, base, v)
    ensures base <= v
  {
  }

  // ----- two moves as the code makes them -----

  /** The image fits at `base`, above its null windows. */
  predicate FitsAt(elf: Elf, size: nat, base: nat) {
    0 < base && base + size < WORD_LIMIT && WindowsBelow(elf, base)
  }

  /** The word `v` comes through a stop at `mid`: it is no word that the code takes
      wrongly for an address in the image, neither at `base` nor at `mid`. */
  predicate Travels(elf: Elf, base: nat, mid: nat, v: Word) {
    v == 0 || (!InNullWindow(elf, v) && WordOk(elf, base, mid, v))
  }

  /** The word that the first move leaves is one that the second leaves alone. */
  predicate Rests(elf: Elf, mid: nat, w: Word) {
    !InImage(elf, mid, w) && !InNullWindow(elf, w)
  }

  lemma NotInWindow(elf: Elf, base: nat, v: Word)
    requires WindowsBelow(elf, base) && base <= v
    ensures !InNullWindow(elf, v)
  {
  }

  /** A word that is left alone by the second move, or not. */
  lemma SecondMove(elf: Elf, mid: nat, newBase: nat, size: nat, w: Word)
    requires FitsAt(elf, size, mid) && newBase + size < WORD_LIMIT && mid != newBase
    requires Inside(elf.flash, size) && Inside(elf.mem, size) && w != 0
    ensures Rewritten(elf, mid, newBase, w) == w <==> Rests(elf, mid, w)
    ensures InImage(elf, mid, w) ==> Rewritten(elf, mid, newBase, w) >= newBase
  {
    hide InImage, Rewritten, Inside;
    if InNullWindow(elf, w) {
      SpoiltWord(elf, mid, newBase, size, w);
      if InImage(elf, mid, w) {
        ImageAbove(elf, mid, w);
      }
    } else {
      RewrittenIsMoved(elf, mid, newBase, size, w);
      if InImage(elf, mid, w) {
        ImageAbove(elf, mid, w);
      }
    }
  }

  /** A word in a null window is not put right by a second move. */
  lemma SpoiltTwice(elf: Elf, base: nat, mid: nat, newBase: nat, size: nat, v: Word)
    requires FitsAt(elf, size, base) && FitsAt(elf, size, mid) && FitsAt(elf, size, newBase) && mid != newBase
    requires Inside(elf.flash, size) && Inside(elf.mem, size) && v != 0 && InNullWindow(elf, v)
    ensures var w := Rewritten(elf, base, mid, v);
            && w == Rewritten(elf, base, newBase, v) && w != 0
            && Rewritten(elf, mid, newBase, w) != Moved(elf, base, newBase, v)
  {
    SpoiltWord(elf, base, mid, size, v);
    SpoiltWord(elf, base, newBase, size, v);
    WindowIsBelow(elf, base, newBase, v);
    WindowIsBelow(elf, newBase, newBase, v);
    hide InImage, Rewritten, Inside, Moved, InNullWindow, SpoiltOffset;
    var w := Rewritten(elf, base, mid, v);
    SecondMove(elf, mid, newBase, size, w);
    if InNullWindow(elf, w) {
      SpoiltWord(elf, mid, newBase, size, w);
    }
  }

  /** What two moves make of one word. */
  lemma RewrittenTwice(elf: Elf, base: nat, mid: nat, newBase: nat, size: nat, v: Word)
    requires FitsAt(elf, size, base) && FitsAt(elf, size, mid) && FitsAt(elf, size, newBase) && mid != newBase
    requires Inside(elf.flash, size) && Inside(elf.mem, size)
    ensures var w := Rewritten(elf, base, mid, v);
            && (Rewritten(elf, mid, newBase, w) == Moved(elf, base, newBase, v) <==> Travels(elf, base, mid, v))
            && (Rewritten(elf, mid, newBase, w) == Rewritten(elf, base, newBase, v) <==>
                  v == 0 || InImage(elf, base, v) || Rests(elf, mid, w))
  {
    hide InImage, Rewritten, Inside, Moved, InNullWindow;
    if v == 0 {
      ZeroStays(elf, base, mid);
      ZeroStays(elf, mid, newBase);
      ZeroStays(elf, base, newBase);
    } else if InNullWindow(elf, v) {
      SpoiltTwice(elf, base, mid, newBase, size, v);
      SecondMove(elf, mid, newBase, size, Rewritten(elf, base, mid, v));
      BelowIsOutside(elf, base, v);
    } else {
      OutsideTwice(elf, base, mid, newBase, size, v);
    }
  }

  lemma ZeroStays(elf: Elf, base: nat, newBase: nat)
    ensures Rewritten(elf, base, newBase, 0) == 0 && Moved(elf, base, newBase, 0) == 0
  {
  }

  lemma BelowIsOutside(elf: Elf, base: nat, v: Word)
    requires WindowsBelow(elf, base) && InNullWindow(elf, v)
    ensures !InImage(elf, base, v)
  {
  }

  lemma OutsideTwice(elf: Elf, base: nat, mid: nat, newBase: nat, size: nat, v: Word)
    requires FitsAt(elf, size, base) && FitsAt(elf, size, mid) && FitsAt(elf, size, newBase) && mid != newBase
    requires Inside(elf.flash, size) && Inside(elf.mem, size) && v != 0 && !InNullWindow(elf, v)
    ensures var w := Rewritten(elf, base, mid, v);
            && (Rewritten(elf, mid, newBase, w) == Moved(elf, base, newBase, v) <==> WordOk(elf, base, mid, v))
            && Rewritten(elf, base, newBase, v) == Moved(elf, base, newBase, v)
            && (InImage(elf, base, v) || Rests(elf, mid, w) <==> WordOk(elf, base, mid, v))
  {
    hide Rewritten, Inside, InNullWindow, InImage, Moved, WindowsBelow;
    var w := Rewritten(elf, base, mid, v);
    RewrittenIsMoved(elf, base, mid, size, v);
    RewrittenIsMoved(elf, base, newBase, size, v);
    MovedCases(elf, base, mid, v);
    if InImage(elf, base, v) {
      NotInWindow(elf, mid, w);
    }
    RewrittenIsMoved(elf, mid, newBase, size, w);
    MovedTwice(elf, base, mid, newBase, v, w);
  }

  lemma MovedCases(elf: Elf, base: nat, newBase: nat, v: Word)
    requires v != 0
    ensures if InImage(elf, base, v) then Moved(elf, base, newBase, v) >= newBase else Moved(elf, base, newBase, v) == v
  {
    if InImage(elf, base, v) {
      ImageAbove(elf, base, v);
    }
  }

  /** Every fixup word of the image comes through a stop at `mid`. */
  ghost predicate AllTravel(elf: Elf, ws: seq<Word>, img: Memory, base: nat, mid: nat) {
    forall k, o :: SlotAt(elf, ws, k, o) && 0 <= o && o + 4 <= |img| ==> Travels(elf, base, mid, LoadWord(img, o))
  }

  /** The two moves of every fixup word come to what one move makes of it. */
  ghost predicate AllCompose(elf: Elf, ws: seq<Word>, img: Memory, base: nat, mid: nat) {
    forall k, o :: SlotAt(elf, ws, k, o) && 0 <= o && o + 4 <= |img| ==> Composes(elf, base, mid, LoadWord(img, o))
  }

  /** The word is blank or an address in the image at `base`; or it is in a null window,
      and what the first move makes of it is left alone by the second; or it is no address
      in the image at `mid` either. */
  predicate Composes(elf: Elf, base: nat, mid: nat, v: Word) {
    || v == 0 || InImage(elf, base, v)
    || if InNullWindow(elf, v) then Rests(elf, mid, Wrap(v - base - SpoiltOffset(elf, base, v))) else !InImage(elf, mid, v)
  }

  /** Three places that the image fits at, the last two different. */
  predicate Places(elf: Elf, size: nat, base: nat, mid: nat, newBase: nat) {
    FitsAt(elf, size, base) && FitsAt(elf, size, mid) && FitsAt(elf, size, newBase) && mid != newBase
  }

  /** Moving B to B' to B'' with the code's two passes each time is an exact translation
      from B to B'', just when no fixup word is in a null window or, without being an
      address in the image at B, is one at B'. */
  lemma MovesTranslate(elf: Elf, ws: seq<Word>, img: Memory, img1: Memory, img2: Memory, base: nat, mid: nat, newBase: nat)
    requires ElfOk(elf, ws, |img|) && Places(elf, |img|, base, mid, newBase)
    requires PassedOver(elf, ws, img, img1, base, mid) && PassedOver(elf, ws, img1, img2, mid, newBase)
    ensures MoveOf(elf, ws, img, img2, base, newBase) <==> AllTravel(elf, ws, img, base, mid)
  {
    SlotsInside(elf, ws, |img|);
    hide SlotAt, Rewritten, Moved, Travels, Composes, Rests, InImage, WindowsBelow, FitsAt, ElfOk;
    forall k, o | SlotAt(elf, ws, k, o) && 0 <= o && o + 4 <= |img|
      ensures LoadWord(img2, o) == Moved(elf, base, newBase, LoadWord(img, o)) <==> Travels(elf, base, mid, LoadWord(img, o))
    {
      RewrittenTwice(elf, base, mid, newBase, |img|, LoadWord(img, o));
    }
  }

  lemma SlotsInside(elf: Elf, ws: seq<Word>, size: nat)
    requires ElfOk(elf, ws, size)
    ensures forall k, o :: SlotAt(elf, ws, k, o) ==> 0 <= o && o + 4 <= size
    ensures Inside(elf.flash, size) && Inside(elf.mem, size)
  {
  }

  /** B to B' to B'' gives the bytes of B to B'', as the code moves, just when no fixup
      word is an address in the image at B' only, and none in a null window comes out as
      one of those or in a null window again. */
  lemma MoveCompose(elf: Elf, ws: seq<Word>, img: Memory, img1: Memory, img2: Memory, img3: Memory, base: nat, mid: nat, newBase: nat)
    requires ElfOk(elf, ws, |img|) && Places(elf, |img|, base, mid, newBase)
    requires PassedOver(elf, ws, img, img1, base, mid) && PassedOver(elf, ws, img1, img2, mid, newBase)
    requires PassedOver(elf, ws, img, img3, base, newBase)
    ensures img2 == img3 <==> AllCompose(elf, ws, img, base, mid)
  {
    SlotsInside(elf, ws, |img|);
    hide SlotAt, Rewritten, Moved, Travels, Rests, InImage, WindowsBelow, FitsAt, ElfOk, Composes;
    forall k, o | SlotAt(elf, ws, k, o)
      ensures LoadWord(img2, o) == LoadWord(img3, o) <==> Composes(elf, base, mid, LoadWord(img, o))
    {
      ComposesExact(elf, base, mid, newBase, |img|, LoadWord(img, o));
    }
    if AllCompose(elf, ws, img, base, mid) {
      SameBySlots(elf, ws, img2, img3);
    }
  }

  lemma {:induction false} ComposesExact(elf: Elf, base: nat, mid: nat, newBase: nat, size: nat, v: Word)
    requires FitsAt(elf, size, base) && FitsAt(elf, size, mid) && FitsAt(elf, size, newBase) && mid != newBase
    requires Inside(elf.flash, size) && Inside(elf.mem, size)
    ensures Rewritten(elf, mid, newBase, Rewritten(elf, base, mid, v)) == Rewritten(elf, base, newBase, v) <==> Composes(elf, base, mid, v)
  {
    hide *;
    RewrittenTwice(elf, base, mid, newBase, size, v);
    if v == 0 || InImage(elf, base, v) {
      ComposesCases(elf, base, mid, v);
    } else if InNullWindow(elf, v) {
      SpoiltRests(elf, base, mid, size, v);
      ComposesCases(elf, base, mid, v);
    } else {
      OutsideTwice(elf, base, mid, newBase, size, v);
      ComposesCases(elf, base, mid, v);
    }
  }

  lemma ComposesCases(elf: Elf, base: nat, mid: nat, v: Word)
    ensures v == 0 || InImage(elf, base, v) ==> Composes(elf, base, mid, v)
    ensures v != 0 && !InImage(elf, base, v) ==> (WordOk(elf, base, mid, v) <==> !InImage(elf, mid, v))
    ensures v != 0 && !InImage(elf, base, v) && !InNullWindow(elf, v) ==> (Composes(elf, base, mid, v) <==> !InImage(elf, mid, v))
    ensures v != 0 && !InImage(elf, base, v) && InNullWindow(elf, v) ==>
              (Composes(elf, base, mid, v) <==> Rests(elf, mid, Wrap(v - base - SpoiltOffset(elf, base, v))))
  {
    hide InImage, InNullWindow, Rests, SpoiltOffset, Wrap;
  }

  lemma SpoiltRests(elf: Elf, base: nat, mid: nat, size: nat, v: Word)
    requires FitsAt(elf, size, base) && Inside(elf.flash, size) && Inside(elf.mem, size) && v != 0 && InNullWindow(elf, v)
    ensures Rewritten(elf, base, mid, v) == Wrap(v - base - SpoiltOffset(elf, base, v))
  {
    hide Rewritten, Inside, InNullWindow, SpoiltOffset, WindowsBelow;
    SpoiltWord(elf, base, mid, size, v);
  }

  /** Moving there and back restores the image byte for byte, just when no fixup word
      is taken wrongly for an address in the image on the way. */
  lemma MoveThereAndBack(elf: Elf, ws: seq<Word>, img: Memory, img1: Memory, img2: Memory, base: nat, mid: nat)
    requires ElfOk(elf, ws, |img|) && Places(elf, |img|, base, mid, base)
    requires PassedOver(elf, ws, img, img1, base, mid) && PassedOver(elf, ws, img1, img2, mid, base)
    ensures img2 == img <==> AllTravel(elf, ws, img, base, mid)
  {
    MovesTranslate(elf, ws, img, img1, img2, base, mid, base);
    assert MoveOf(elf, ws, img, img, base, base);
    if MoveOf(elf, ws, img, img2, base, base) {
      MoveUnique(elf, ws, img, img, img2, base, base);
    }
  }

  // ----- the build-time patcher -----

  predicate MemSectionName(name: string) {
    name == ".got" || name == ".got.plt" || name == ".data" || name == ".bss"
  }

  /** `lma_to_sec`: a section without contents has file size 0. */
  predicate LmaIn(s: Section, v: Word) {
    HasContents(s) && s.lma <= v < s.lma + s.size
  }

  function LmaToSec(secs: seq<Section>, v: Word): (r: Option<nat>)
    ensures r.Some? ==> r.value < |secs| && LmaIn(secs[r.value], v) && forall k :: 0 <= k < r.value ==> !LmaIn(secs[k], v)
    ensures r.None? ==> forall k :: 0 <= k < |secs| ==> !LmaIn(secs[k], v)
  {
    FirstWhere(secs, (s: Section) => LmaIn(s, v))
  }

  /** What the patcher makes of a fixup word for an image that will be at `base`:
      the address of a flash byte is rebased, the rest is left to the loader. */
  function Patched(secs: seq<Section>, base: nat, v: Word): int {
    match LmaToSec(secs, v)
    case Some(k) => if MemSectionName(secs[k].name) then v else base + OffsetIn(secs[k], v)
    case None => v
  }

  ghost predicate PatchSlotAt(secs: seq<Section>, ws: seq<Word>, k: int, o: int) {
    0 <= k < |ws| && LmaToSec(secs, ws[k]).Some? && o == OffsetIn(secs[LmaToSec(secs, ws[k]).value], ws[k])
  }

  /** `img1` is the ELF image `img` patched for `base`. */
  ghost predicate PatchOf(secs: seq<Section>, ws: seq<Word>, img: Memory, img1: Memory, base: nat) {
    && |img1| == |img|
    && (forall k, o :: PatchSlotAt(secs, ws, k, o) && 0 <= o && o + 4 <= |img| ==>
          LoadWord(img1, o) == Patched(secs, base, LoadWord(img, o)))
    && (forall x :: 0 <= x < |img| && (forall k, o :: PatchSlotAt(secs, ws, k, o) ==> !(o <= x < o + 4)) ==> img1[x] == img[x])
  }

  /** The patcher's section list has the sections of the image, whose link address
      ranges are disjoint, and every fixup is in a section the mover marks. */
  ghost predicate SameSections(elf: Elf, secs: seq<Section>, ws: seq<Word>) {
    && (forall s :: s in secs && HasContents(s) <==> (s in elf.flash || s in elf.mem) && HasContents(s))
    && (forall s, t, v :: s in secs && t in secs && LmaIn(s, v) && LmaIn(t, v) ==> s == t)
    && (forall k :: 0 <= k < |ws| ==> FlashHome(elf, ws[k]).Some? || MemHome(elf, ws[k]).Some?)
  }

  /** Both tools see the same slots. */
  lemma SameSlots(elf: Elf, secs: seq<Section>, ws: seq<Word>, size: nat, k: int, o: int)
    requires ElfOk(elf, ws, size) && SameSections(elf, secs, ws)
    ensures PatchSlotAt(secs, ws, k, o) <==> SlotAt(elf, ws, k, o)
  {
    if 0 <= k < |ws| {
      var a := ws[k];
      assert FixupHomeOk(elf, a);
      var s := if FlashHome(elf, a).Some? then elf.flash[FlashHome(elf, a).value] else elf.mem[MemHome(elf, a).value];
      assert s in secs && LmaIn(s, a);
      var x := LmaToSec(secs, a);
      assert x.Some? && secs[x.value] in secs && secs[x.value] == s;
    }
  }

  /** The patcher rebases `v`. */
  predicate Rebased(secs: seq<Section>, v: Word) {
    LmaToSec(secs, v).Some? && !MemSectionName(secs[LmaToSec(secs, v).value].name)
  }

  /** No word that the patcher leaves alone is one that the mover takes for an address
      in the image at `base`. */
  ghost predicate LinkAddressesElsewhere(secs: seq<Section>, elf: Elf, ws: seq<Word>, img: Memory, base: nat) {
    forall k, o :: SlotAt(elf, ws, k, o) && 0 <= o && o + 4 <= |img| ==> LeftAloneOk(secs, elf, base, LoadWord(img, o))
  }

  predicate LeftAloneOk(secs: seq<Section>, elf: Elf, base: nat, v: Word) {
    Rebased(secs, v) || v == 0 || Rests(elf, base, v)
  }

  lemma RebasedInImage(elf: Elf, secs: seq<Section>, ws: seq<Word>, base: nat, v: Word, w: Word)
    requires SameSections(elf, secs, ws) && Rebased(secs, v) && w == Patched(secs, base, v)
    ensures InImage(elf, base, w) && base <= w
  {
    var s := secs[LmaToSec(secs, v).value];
    assert s in secs && InSection(s, base, w);
    if s in elf.flash {
      assert InSome(elf.flash, base, w);
    } else {
      assert InSome(elf.mem, base, w);
    }
  }

  lemma PatchedThenMoved(elf: Elf, secs: seq<Section>, ws: seq<Word>, base: nat, newBase: nat, size: nat, v: Word, w: Word)
    requires SameSections(elf, secs, ws) && FitsAt(elf, size, base) && newBase + size < WORD_LIMIT && base != newBase
    requires Inside(elf.flash, size) && Inside(elf.mem, size) && w == Patched(secs, base, v)
    ensures Rewritten(elf, base, newBase, w) == Patched(secs, newBase, v) <==> LeftAloneOk(secs, elf, base, v)
  {
    hide SameSections, Rewritten, InImage, InNullWindow, WindowsBelow, Inside;
    if Rebased(secs, v) {
      RebasedInImage(elf, secs, ws, base, v, w);
      NotInWindow(elf, base, w);
      RewrittenIsMoved(elf, base, newBase, size, w);
    } else if v == 0 {
      ZeroStays(elf, base, newBase);
    } else {
      SecondMove(elf, base, newBase, size, v);
    }
  }

  /** Patching an image for `base` and then moving it to `newBase` with the code's two
      passes gives the bytes of the image patched for `newBase`, exactly when no word
      that the patcher leaves alone is taken by the mover for an address in the image. */
  lemma PatchAndMoveAgree(elf: Elf, secs: seq<Section>, ws: seq<Word>, img: Memory, x: Memory, y: Memory, z: Memory, base: nat, newBase: nat)
    requires ElfOk(elf, ws, |img|) && SameSections(elf, secs, ws)
    requires FitsAt(elf, |img|, base) && newBase + |img| < WORD_LIMIT && base != newBase
    requires PatchOf(secs, ws, img, x, base) && PassedOver(elf, ws, x, y, base, newBase) && PatchOf(secs, ws, img, z, newBase)
    ensures y == z <==> LinkAddressesElsewhere(secs, elf, ws, img, base)
  {
    SlotsInside(elf, ws, |img|);
    forall k, o
      ensures PatchSlotAt(secs, ws, k, o) <==> SlotAt(elf, ws, k, o)
    {
      SameSlots(elf, secs, ws, |img|, k, o);
    }
    hide SlotAt, PatchSlotAt, ElfOk, SameSections, FitsAt, LeftAloneOk, Rewritten, Patched, Inside;
    forall k, o | SlotAt(elf, ws, k, o)
      ensures LoadWord(y, o) == LoadWord(z, o) <==> LeftAloneOk(secs, elf, base, LoadWord(img, o))
    {
      PatchedThenMoved(elf, secs, ws, base, newBase, |img|, LoadWord(img, o), LoadWord(x, o));
    }
    if LinkAddressesElsewhere(secs, elf, ws, img, base) {
      SameBySlots(elf, ws, y, z);
    }
  }
}
