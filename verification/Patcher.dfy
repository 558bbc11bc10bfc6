/** The build-time fixups (apply_rofixups in scripts/patch-uld-elf.py): the ELF
    file is read, its copy inside the firmware file is patched in place. */
module Patcher {
  import opened Words
  import opened Options
  import opened Sections
  import opened ImageMove
  import opened ImageLaws

  const ROFIXUP_MEM_SEC_LIST: seq<string> := [".got", ".got.plt", ".data", ".bss"]

  method FindSec(secs: seq<Section>, v: Word) returns (r: Option<nat>)
    ensures r == LmaToSec(secs, v)
  {
    r := FindWhere(secs, (s: Section) => LmaIn(s, v));
  }

  /** Slots lie in the image and do not overlap. */
  ghost predicate PatchSlotsOk(secs: seq<Section>, ws: seq<Word>, size: nat) {
    && (forall k, o :: PatchSlotAt(secs, ws, k, o) ==> 0 <= o && o + 4 <= size)
    && (forall j, o, k, q :: PatchSlotAt(secs, ws, j, o) && PatchSlotAt(secs, ws, k, q) && j != k ==> o + 4 <= q || q + 4 <= o)
  }

  /** The word in the slot of fixup `k`. */
  function ValueOf(secs: seq<Section>, ws: seq<Word>, img: Memory, k: nat): Word
    requires k < |ws|
  {
    match LmaToSec(secs, ws[k])
    case Some(x) =>
      var o := OffsetIn(secs[x], ws[k]);
      if 0 <= o && o + 4 <= |img| then LoadWord(img, o) else 0
    case None => 0
  }

  /** Fixup `k` does not raise.  A value outside every section is accepted only
      right after a fixup that was skipped, because `skip` keeps its value from the
      turn before, and has none on the first. */
  predicate Accepted(secs: seq<Section>, ws: seq<Word>, img: Memory, base: nat, k: nat)
    requires k < |ws|
  {
    var v := ValueOf(secs, ws, img, k);
    && LmaToSec(secs, ws[k]).Some?
    && (LmaToSec(secs, v).None? ==> k > 0 && !Rebased(secs, ValueOf(secs, ws, img, k - 1)))
    && (Rebased(secs, v) ==> Patched(secs, base, v) < WORD_LIMIT)
  }

  /** The first `n` fixups are applied to the copy at `at`. */
  ghost predicate PatchedUpTo(secs: seq<Section>, ws: seq<Word>, n: nat, img: Memory, out: Memory, at: nat, base: nat) {
    && at + |img| <= |out|
    && (forall k, o :: k < n && PatchSlotAt(secs, ws, k, o) ==>
          0 <= o && o + 4 <= |img| && LoadWord(out, at + o) == Patched(secs, base, LoadWord(img, o)))
    && (forall x :: 0 <= x < |img| && (forall k, o :: k < n && PatchSlotAt(secs, ws, k, o) ==> !(o <= x < o + 4)) ==>
          out[at + x] == img[x])
  }

  lemma CopyStillOriginal(secs: seq<Section>, ws: seq<Word>, k: nat, img: Memory, out: Memory, at: nat, base: nat, o: nat)
    requires PatchSlotsOk(secs, ws, |img|) && PatchedUpTo(secs, ws, k, img, out, at, base) && PatchSlotAt(secs, ws, k, o)
    ensures o + 4 <= |img| && LoadWord(out, at + o) == LoadWord(img, o)
  {
    forall x | o <= x < o + 4
      ensures out[at + x] == img[x]
    {
      forall j, q | j < k && PatchSlotAt(secs, ws, j, q)
        ensures !(q <= x < q + 4)
      {
      }
    }
    assert out[at + o] == img[o] && out[at + (o + 1)] == img[o + 1] && out[at + (o + 2)] == img[o + 2] && out[at + (o + 3)] == img[o + 3];
  }

  lemma PatchOne(secs: seq<Section>, ws: seq<Word>, k: nat, img: Memory, out: Memory, at: nat, base: nat, o: nat, w: Word)
    requires PatchSlotsOk(secs, ws, |img|) && PatchedUpTo(secs, ws, k, img, out, at, base) && PatchSlotAt(secs, ws, k, o)
    requires w == Patched(secs, base, LoadWord(img, o))
    ensures PatchedUpTo(secs, ws, k + 1, img, StoreWord(out, at + o, w), at, base)
  {
    var out1 := StoreWord(out, at + o, w);
    LoadStored(out, at + o, w);
    StoreElsewhere(out, at + o, w);
    forall j, q | j < k + 1 && PatchSlotAt(secs, ws, j, q)
      ensures 0 <= q && q + 4 <= |img| && LoadWord(out1, at + q) == Patched(secs, base, LoadWord(img, q))
    {
      if j < k {
        LoadSame(out, out1, at + q);
      }
    }
    forall x | 0 <= x < |img| && (forall j, q :: j < k + 1 && PatchSlotAt(secs, ws, j, q) ==> !(q <= x < q + 4))
      ensures out1[at + x] == img[x]
    {
      assert !(o <= x < o + 4);
    }
  }

  lemma SlotKnown(secs: seq<Section>, ws: seq<Word>, img: Memory, k: nat)
    requires PatchSlotsOk(secs, ws, |img|) && k < |ws| && LmaToSec(secs, ws[k]).Some?
    ensures var o := OffsetIn(secs[LmaToSec(secs, ws[k]).value], ws[k]);
            PatchSlotAt(secs, ws, k, o) && 0 <= o && o + 4 <= |img| && ValueOf(secs, ws, img, k) == LoadWord(img, o)
  {
    assert PatchSlotAt(secs, ws, k, OffsetIn(secs[LmaToSec(secs, ws[k]).value], ws[k]));
  }

  /** What one turn of the loop reads and decides: whether it raises, the new `skip`, and
      the place and value of the fixup. */
  method ReadFixup(img: Memory, secs: seq<Section>, ws: seq<Word>, base: nat, k: nat, skip: Option<bool>)
    returns (ok: bool, skip1: Option<bool>, o: nat, fixup: Word)
    requires PatchSlotsOk(secs, ws, |img|) && k < |ws|
    requires skip == if k == 0 then None else Some(!Rebased(secs, ValueOf(secs, ws, img, k - 1)))
    ensures ok <==> Accepted(secs, ws, img, base, k)
    ensures ok ==> skip1 == Some(!Rebased(secs, ValueOf(secs, ws, img, k)))
    ensures ok ==> PatchSlotAt(secs, ws, k, o) && o + 4 <= |img| && fixup == Patched(secs, base, LoadWord(img, o))
    ensures ok && skip1 == Some(true) ==> fixup == LoadWord(img, o)
  {
    hide LoadWord, PatchSlotsOk, PatchSlotAt;
    ok, skip1, o, fixup := false, skip, 0, 0;
    var sec := FindSec(secs, ws[k]);
    if sec.None? {
      return;
    }
    SlotKnown(secs, ws, img, k);
    o := OffsetIn(secs[sec.value], ws[k]);
    var value := LoadWord(img, o);
    var valueSec := FindSec(secs, value);
    if valueSec.None? && skip != Some(true) {
      return;
    }
    skip1 := Some(valueSec.None? || secs[valueSec.value].name in ROFIXUP_MEM_SEC_LIST);
    if skip1 == Some(true) {
      return true, skip1, o, value;
    }
    var rebased := base + OffsetIn(secs[valueSec.value], value);
    if rebased >= WORD_LIMIT {
      return;
    }
    ok, fixup := true, rebased;
  }

  /** One turn of the loop.  The copy still has the original value, so the sanity
      check of the original always passes. */
  method FixOne(img: Memory, out: array<Byte>, at: nat, secs: seq<Section>, ws: seq<Word>, base: nat, k: nat, skip: Option<bool>)
    returns (ok: bool, skip1: Option<bool>)
    requires PatchSlotsOk(secs, ws, |img|) && PatchedUpTo(secs, ws, k, img, out[..], at, base) && k < |ws|
    requires skip == if k == 0 then None else Some(!Rebased(secs, ValueOf(secs, ws, img, k - 1)))
    modifies out
    ensures ok <==> Accepted(secs, ws, img, base, k)
    ensures ok ==> PatchedUpTo(secs, ws, k + 1, img, out[..], at, base)
    ensures ok ==> skip1 == Some(!Rebased(secs, ValueOf(secs, ws, img, k)))
    ensures SameOutside(old(out[..]), out[..], at, |img|)
  {
    hide *;
    ghost var before := out[..];
    InCopy(secs, ws, k, img, before, at, base);
    SameItself(before, at, |img|);
    var o, fixup;
    ok, skip1, o, fixup := ReadFixup(img, secs, ws, base, k, skip);
    if !ok {
      return;
    }
    CopyStillOriginal(secs, ws, k, img, before, at, base, o);
    PatchOne(secs, ws, k, img, before, at, base, o, fixup);
    StoreLoaded(before, at + o);
    StoreInside(before, at, |img|, o, fixup);
    if skip1 != Some(true) {
      PutWord(out, at + o, fixup);
    }
  }

  lemma StoreInside(m: Memory, at: nat, size: nat, o: nat, w: Word)
    requires at + size <= |m| && o + 4 <= size
    ensures SameOutside(m, StoreWord(m, at + o, w), at, size)
  {
    StoreElsewhere(m, at + o, w);
  }

  lemma SameItself(m: Memory, at: nat, size: nat)
    ensures SameOutside(m, m, at, size)
  {
  }

  lemma InCopy(secs: seq<Section>, ws: seq<Word>, k: nat, img: Memory, out: Memory, at: nat, base: nat)
    requires PatchedUpTo(secs, ws, k, img, out, at, base)
    ensures at + |img| <= |out|
  {
  }

  /** `apply_rofixups`.  `img` is the ELF file, `out` the firmware file that holds a
      copy of it at `at`, and `ws` the words of the .rofixup section. */
  method ApplyRofixups(img: Memory, out: array<Byte>, at: nat, secs: seq<Section>, ws: seq<Word>, base: nat) returns (ok: bool)
    requires at + |img| <= out.Length && ImageAt(out[..], at, img) && PatchSlotsOk(secs, ws, |img|)
    modifies out
    ensures ok <==> forall k :: 0 <= k < |ws| ==> Accepted(secs, ws, img, base, k)
    ensures ok ==> PatchOf(secs, ws, img, out[at..at + |img|], base)
    ensures SameOutside(old(out[..]), out[..], at, |img|)
  {
    hide *;
    ghost var out0 := out[..];
    NothingPatched(secs, ws, img, out0, at, base);
    SameItself(out0, at, |img|);
    var skip: Option<bool> := None;
    var k: nat := 0;
    while k < |ws|
      invariant k <= |ws| && PatchedUpTo(secs, ws, k, img, out[..], at, base)
      invariant forall j :: 0 <= j < k ==> Accepted(secs, ws, img, base, j)
      invariant skip == if k == 0 then None else Some(!Rebased(secs, ValueOf(secs, ws, img, k - 1)))
      invariant SameOutside(out0, out[..], at, |img|)
    {
      ghost var before := out[..];
      ok, skip := FixOne(img, out, at, secs, ws, base, k, skip);
      SameOutsideTrans(out0, before, out[..], at, |img|);
      if !ok {
        return;
      }
      k := k + 1;
    }
    PatchedAll(secs, ws, img, out[..], at, base);
    return true;
  }

  lemma NothingPatched(secs: seq<Section>, ws: seq<Word>, img: Memory, out: Memory, at: nat, base: nat)
    requires ImageAt(out, at, img)
    ensures at + |img| <= |out| && PatchedUpTo(secs, ws, 0, img, out, at, base)
  {
  }

  lemma PatchedAll(secs: seq<Section>, ws: seq<Word>, img: Memory, out: Memory, at: nat, base: nat)
    requires PatchedUpTo(secs, ws, |ws|, img, out, at, base)
    ensures at + |img| <= |out| && PatchOf(secs, ws, img, out[at..at + |img|], base)
  {
    hide LmaToSec, OffsetIn, Patched, LoadWord;
    var copy := out[at..at + |img|];
    forall j, o | PatchSlotAt(secs, ws, j, o)
      ensures 0 <= o && o + 4 <= |img| && LoadWord(copy, o) == LoadWord(out, at + o)
    {
      WordAt(out, at, copy, o);
    }
    forall x | 0 <= x < |img|
      ensures copy[x] == out[at + x]
    {
    }
  }
}
