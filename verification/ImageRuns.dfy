/** An image that goes from place to place any number of times: what becomes of each
    fixup word, and exactly which words come through. */
module ImageRuns {
  import opened Words
  import opened ImageMove
  import opened ImageLaws

  /** The word after stop `t`, if it is `v` at the first of the places `bs`; the passes
      run whenever the place changes. */
  function WordOver(elf: Elf, bs: seq<Word>, v: Word, t: nat): Word
    requires t < |bs|
  {
    if t == 0 then v
    else if bs[t] == bs[t - 1] then WordOver(elf, bs, v, t - 1)
    else Rewritten(elf, bs[t - 1], bs[t], WordOver(elf, bs, v, t - 1))
  }

  /** `s` is the first stop at which `v` is an address in the image. */
  predicate FirstHit(elf: Elf, bs: seq<Word>, v: Word, s: nat)
    requires s < |bs|
  {
    InImage(elf, bs[s], v) && forall r :: 0 <= r < s ==> !InImage(elf, bs[r], v)
  }

  /** The image has been at one place only. */
  predicate Unmoved(bs: seq<Word>, t: nat)
    requires t < |bs|
  {
    forall s :: 0 <= s <= t ==> bs[s] == bs[0]
  }

  /** The word `v` of the first image is right at stop `t`: it is blank; or in a null window
      of an image that has not moved; or no stop is the first where it is taken for an address
      in the image, unless that is the first of all, or the image is there again. */
  predicate ComesThrough(elf: Elf, bs: seq<Word>, v: Word, t: nat)
    requires t < |bs|
  {
    || v == 0
    || if InNullWindow(elf, v) then Unmoved(bs, t)
       else forall s :: 0 <= s <= t && FirstHit(elf, bs, v, s) ==> s == 0 || bs[t] == bs[s]
  }

  predicate AllFit(elf: Elf, size: nat, bs: seq<Word>) {
    && Inside(elf.flash, size) && Inside(elf.mem, size)
    && forall s :: 0 <= s < |bs| ==> FitsAt(elf, size, bs[s])
  }

  lemma OneStop(elf: Elf, size: nat, bs: seq<Word>, v: Word, t: nat)
    requires AllFit(elf, size, bs) && 0 < t < |bs|
    ensures WordOver(elf, bs, v, t) ==
              if bs[t] == bs[t - 1] then WordOver(elf, bs, v, t - 1) else Rewritten(elf, bs[t - 1], bs[t], WordOver(elf, bs, v, t - 1))
    ensures FitsAt(elf, size, bs[t - 1]) && FitsAt(elf, size, bs[t]) && Inside(elf.flash, size) && Inside(elf.mem, size)
  {
  }

  lemma {:induction false} BlankStays(elf: Elf, bs: seq<Word>, t: nat)
    requires t < |bs|
    ensures WordOver(elf, bs, 0, t) == 0
  {
    hide Rewritten;
    if t > 0 {
      BlankStays(elf, bs, t - 1);
      ZeroStays(elf, bs[t - 1], bs[t]);
    }
  }

  lemma {:induction false} UnmovedStays(elf: Elf, bs: seq<Word>, v: Word, t: nat)
    requires t < |bs| && Unmoved(bs, t)
    ensures WordOver(elf, bs, v, t) == v == Moved(elf, bs[0], bs[t], v)
  {
    hide Rewritten, InImage;
    if t > 0 {
      UnmovedStays(elf, bs, v, t - 1);
    }
  }

  /** A move takes an address in the image along, and keeps any other word outside the
      null windows. */
  lemma {:induction false} MovedRight(elf: Elf, size: nat, base: Word, newBase: Word, v: Word)
    requires FitsAt(elf, size, base) && FitsAt(elf, size, newBase) && Inside(elf.flash, size) && Inside(elf.mem, size)
    requires v != 0
    ensures InImage(elf, base, v) ==> Rewritten(elf, base, newBase, v) == v - base + newBase && base <= v
    ensures InImage(elf, base, v) ==> InImage(elf, newBase, Rewritten(elf, base, newBase, v))
    ensures !InImage(elf, base, v) && !InNullWindow(elf, v) ==> Rewritten(elf, base, newBase, v) == v
  {
    hide *;
    FitsBounds(elf, size, base);
    FitsBounds(elf, size, newBase);
    if InImage(elf, base, v) {
      ImageAbove(elf, base, v);
      NotInWindow(elf, base, v);
    }
    if !InNullWindow(elf, v) {
      RewrittenIsMoved(elf, base, newBase, size, v);
      MovedIs(elf, base, newBase, v);
      if InImage(elf, base, v) {
        StillInImage(elf, base, newBase, v, Rewritten(elf, base, newBase, v));
      }
    }
  }

  lemma FitsBounds(elf: Elf, size: nat, base: nat)
    requires FitsAt(elf, size, base)
    ensures 0 < base && base + size < WORD_LIMIT && WindowsBelow(elf, base)
  {
  }

  lemma MovedIs(elf: Elf, base: nat, newBase: nat, v: Word)
    requires v != 0
    ensures Moved(elf, base, newBase, v) == if InImage(elf, base, v) then v - base + newBase else v
  {
  }

  lemma StillInImage(elf: Elf, base: nat, newBase: nat, v: Word, w: Word)
    requires InImage(elf, base, v) && w == v - base + newBase
    ensures InImage(elf, newBase, w)
  {
    ShiftedInSome(elf.flash, base, newBase, v, w);
    ShiftedInSome(elf.mem, base, newBase, v, w);
  }

  /** As long as it is nowhere an address in the image, the word is left alone. */
  lemma {:induction false} NotHitStays(elf: Elf, size: nat, bs: seq<Word>, v: Word, t: nat)
    requires AllFit(elf, size, bs) && t < |bs| && v != 0 && !InNullWindow(elf, v)
    requires forall s :: 0 <= s < t ==> !InImage(elf, bs[s], v)
    ensures WordOver(elf, bs, v, t) == v
  {
    hide *;
    if t > 0 {
      NotHitStays(elf, size, bs, v, t - 1);
      OneStop(elf, size, bs, v, t);
      MovedRight(elf, size, bs[t - 1], bs[t], v);
    } else {
      NoStop(elf, bs, v);
    }
  }

  lemma NoStop(elf: Elf, bs: seq<Word>, v: Word)
    requires bs != []
    ensures WordOver(elf, bs, v, 0) == v
  {
  }

  /** From its first hit on, the word goes along with the image. */
  lemma {:induction false} HitGoesAlong(elf: Elf, size: nat, bs: seq<Word>, v: Word, s: nat, t: nat)
    requires AllFit(elf, size, bs) && s <= t < |bs| && v != 0 && !InNullWindow(elf, v) && FirstHit(elf, bs, v, s)
    ensures WordOver(elf, bs, v, t) == v - bs[s] + bs[t] && bs[s] <= v && InImage(elf, bs[t], WordOver(elf, bs, v, t))
    decreases t
  {
    hide WordOver, InImage, InNullWindow, AllFit, FitsAt;
    if t == s {
      NotHitStays(elf, size, bs, v, s);
      ImageAbove(elf, bs[s], v);
    } else {
      HitGoesAlong(elf, size, bs, v, s, t - 1);
      OneStop(elf, size, bs, v, t);
      FitsBounds(elf, size, bs[t - 1]);
      MovedRight(elf, size, bs[t - 1], bs[t], WordOver(elf, bs, v, t - 1));
    }
  }

  /** A move of a word above one in a null window leaves it above. */
  lemma {:induction false} StillAbove(elf: Elf, size: nat, base: Word, newBase: Word, v: Word, w: Word)
    requires FitsAt(elf, size, base) && FitsAt(elf, size, newBase) && Inside(elf.flash, size) && Inside(elf.mem, size)
    requires v != 0 && InNullWindow(elf, v) && (v < w || v == w)
    ensures Rewritten(elf, base, newBase, w) > v
  {
    hide *;
    FitsBounds(elf, size, base);
    FitsBounds(elf, size, newBase);
    WindowIsBelow(elf, newBase, newBase, v);
    if InNullWindow(elf, w) {
      SpoiltWord(elf, base, newBase, size, w);
    } else {
      MovedRight(elf, size, base, newBase, w);
    }
  }

  /** A word in a null window is lost with the first move, and for good. */
  lemma {:induction false} WindowIsLost(elf: Elf, size: nat, bs: seq<Word>, v: Word, t: nat)
    requires AllFit(elf, size, bs) && t < |bs| && v != 0 && InNullWindow(elf, v) && !Unmoved(bs, t)
    ensures WordOver(elf, bs, v, t) > v
  {
    hide WordOver, InNullWindow, AllFit, FitsAt;
    if t > 0 {
      OneStop(elf, size, bs, v, t);
      if Unmoved(bs, t - 1) {
        UnmovedStays(elf, bs, v, t - 1);
        StillAbove(elf, size, bs[t - 1], bs[t], v, v);
      } else {
        WindowIsLost(elf, size, bs, v, t - 1);
        if bs[t] != bs[t - 1] {
          StillAbove(elf, size, bs[t - 1], bs[t], v, WordOver(elf, bs, v, t - 1));
        }
      }
    }
  }

  lemma {:induction false} HitBy(elf: Elf, bs: seq<Word>, v: Word, t: nat) returns (s: nat)
    requires t < |bs| && InImage(elf, bs[t], v)
    ensures s <= t && FirstHit(elf, bs, v, s)
  {
    hide InImage;
    s := 0;
    while !InImage(elf, bs[s], v)
      invariant s <= t && forall r :: 0 <= r < s ==> !InImage(elf, bs[r], v)
      decreases t - s
    {
      s := s + 1;
    }
  }

  /** The word is the exact translation at stop `t` just if it comes through. */
  lemma {:induction false} WordOverExact(elf: Elf, size: nat, bs: seq<Word>, v: Word, t: nat)
    requires AllFit(elf, size, bs) && t < |bs|
    ensures WordOver(elf, bs, v, t) == Moved(elf, bs[0], bs[t], v) <==> ComesThrough(elf, bs, v, t)
  {
    hide WordOver, InNullWindow, AllFit, FitsAt, InImage, Unmoved;
    if v == 0 {
      BlankStays(elf, bs, t);
    } else if InNullWindow(elf, v) {
      InWindowExact(elf, size, bs, v, t);
    } else if s: nat :| s <= t && FirstHit(elf, bs, v, s) {
      HitGoesAlong(elf, size, bs, v, s, t);
      assert forall r: nat :: r <= t && FirstHit(elf, bs, v, r) ==> r == s;
    } else {
      forall s | 0 <= s <= t
        ensures !InImage(elf, bs[s], v)
      {
        if InImage(elf, bs[s], v) {
          var r := HitBy(elf, bs, v, s);
        }
      }
      NotHitStays(elf, size, bs, v, t);
    }
  }

  lemma {:induction false} InWindowExact(elf: Elf, size: nat, bs: seq<Word>, v: Word, t: nat)
    requires AllFit(elf, size, bs) && t < |bs| && v != 0 && InNullWindow(elf, v)
    ensures WordOver(elf, bs, v, t) == Moved(elf, bs[0], bs[t], v) <==> Unmoved(bs, t)
  {
    assert FitsAt(elf, size, bs[0]);
    hide WordOver, InNullWindow, AllFit, InImage, Unmoved, Moved, WindowsBelow;
    if Unmoved(bs, t) {
      UnmovedStays(elf, bs, v, t);
    } else {
      WindowIsBelow(elf, bs[0], bs[t], v);
      WindowIsLost(elf, size, bs, v, t);
    }
  }

  // ----- all words of an image -----

  /** `img` is what the passes have made of `img0` by stop `t`. */
  ghost predicate CarriedTo(elf: Elf, ws: seq<Word>, img0: Memory, img: Memory, bs: seq<Word>, t: nat)
    requires t < |bs|
  {
    && |img| == |img0|
    && (forall k, o :: SlotAt(elf, ws, k, o) && 0 <= o && o + 4 <= |img0| ==> LoadWord(img, o) == WordOver(elf, bs, LoadWord(img0, o), t))
    && (forall x :: 0 <= x < |img0| && (forall k, o :: SlotAt(elf, ws, k, o) ==> !(o <= x < o + 4)) ==> img[x] == img0[x])
  }

  /** Every fixup word of the first image comes through to stop `t`. */
  ghost predicate AllComeThrough(elf: Elf, ws: seq<Word>, img0: Memory, bs: seq<Word>, t: nat)
    requires t < |bs|
  {
    forall k, o :: SlotAt(elf, ws, k, o) && 0 <= o && o + 4 <= |img0| ==> ComesThrough(elf, bs, LoadWord(img0, o), t)
  }

  lemma CarriedFirst(elf: Elf, ws: seq<Word>, img: Memory, bs: seq<Word>)
    requires bs != []
    ensures CarriedTo(elf, ws, img, img, bs, 0)
  {
    hide SlotAt;
  }

  lemma {:induction false} CarriedOn(elf: Elf, ws: seq<Word>, img0: Memory, img: Memory, img1: Memory, bs: seq<Word>, t: nat)
    requires 0 < t < |bs| && CarriedTo(elf, ws, img0, img, bs, t - 1)
    requires if bs[t] == bs[t - 1] then img1 == img else PassedOver(elf, ws, img, img1, bs[t - 1], bs[t])
    ensures CarriedTo(elf, ws, img0, img1, bs, t)
  {
    hide SlotAt, Rewritten, LoadWord;
  }

  lemma {:induction false} CarriedExact(elf: Elf, ws: seq<Word>, img0: Memory, img: Memory, bs: seq<Word>, t: nat)
    requires t < |bs| && CarriedTo(elf, ws, img0, img, bs, t) && (AllFit(elf, |img0|, bs) || Unmoved(bs, t))
    ensures MoveOf(elf, ws, img0, img, bs[0], bs[t]) <==> AllComeThrough(elf, ws, img0, bs, t)
  {
    hide SlotAt, LoadWord, WordOver, Moved, ComesThrough, AllFit, Unmoved;
    forall v: Word
      ensures WordOver(elf, bs, v, t) == Moved(elf, bs[0], bs[t], v) <==> ComesThrough(elf, bs, v, t)
    {
      if AllFit(elf, |img0|, bs) {
        WordOverExact(elf, |img0|, bs, v, t);
      } else {
        UnmovedStays(elf, bs, v, t);
        UnmovedComesThrough(elf, bs, v, t);
      }
    }
  }

  lemma UnmovedComesThrough(elf: Elf, bs: seq<Word>, v: Word, t: nat)
    requires t < |bs| && Unmoved(bs, t)
    ensures ComesThrough(elf, bs, v, t)
  {
    hide InImage, InNullWindow;
  }
}
