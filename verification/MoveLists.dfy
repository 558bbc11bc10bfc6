/** The mover's view of an image is what `uld_load_create_file` makes of its headers, and
    does not depend on where the image is (src/uld_reloc.c, src/uld_load.c). */
module MoveLists {
  import opened Words
  import opened Options
  import opened Sections
  import opened Fixups
  import opened ElfImage
  import opened SectionList
  import opened MemFixups
  import opened FileLoad
  import opened ImageMove

  const ALL_TYPES: set<SecType> := {FlashType, MemType, OtherType}
  const ULD_FILE_SECTION_MAX := 20

  /** The first section named .rofixup among the headers from `i` on. */
  function RofixupSection(img: Image, i: nat): Option<Section>
    requires AllTyped(img) && 1 <= i
    decreases |img.shdrs| - i
  {
    if i >= |img.shdrs| then None
    else if img.shdrs[i].name == ".rofixup" then Some(MakeSection(img, i))
    else RofixupSection(img, i + 1)
  }

  function ElfOf(img: Image): Elf
    requires AllTyped(img)
  {
    Elf(ListsOf(img).flash, ListsOf(img).mem, RofixupSection(img, 1))
  }

  // ----- the lists that the mover is given -----

  lemma {:induction false} WholeList(img: Image, ty: SecType, room: int)
    requires AllTyped(img) && Count(img, {ty}) <= room
    ensures ListFor(img, ALL_TYPES, ty, room) == Done(FullList(img, {ty}, |img.shdrs|))
    ensures |FullList(img, {ty}, |img.shdrs|)| == Count(img, {ty})
  {
    hide Matching, Listed, AllTyped, FullList;
    ListedIsFull(img, {ty}, |img.shdrs|, if room > 0 then room else 1);
  }

  /** An image with at most 20 sections is listed whole, as the model of the move has it. */
  lemma {:induction false} CreatedLists(img: Image)
    requires AllTyped(img) && Count(img, ALL_TYPES) <= 20
    ensures var l := FileLists(img, ALL_TYPES, ULD_FILE_SECTION_MAX);
            l.Done? && l.value.flash == ElfOf(img).flash && l.value.mem == ElfOf(img).mem
  {
    hide Matching, ListFor, AllTyped, Count, FullList, RofixupSection;
    CountSplits(img, ALL_TYPES);
    assert ALL_TYPES * {MemType} == {MemType} && ALL_TYPES * {FlashType} == {FlashType} && ALL_TYPES * {OtherType} == {OtherType};
    WholeList(img, MemType, ULD_FILE_SECTION_MAX);
    WholeList(img, FlashType, ULD_FILE_SECTION_MAX - Count(img, {MemType}));
    WholeList(img, OtherType, ULD_FILE_SECTION_MAX - Count(img, {MemType}) - Count(img, {FlashType}));
  }

  // ----- the same image elsewhere -----

  /** The list with the sections where an image at `b` has them. */
  function ListAt(list: seq<Section>, b: nat): (r: seq<Section>)
    ensures |r| == |list| && forall k :: 0 <= k < |r| ==> r[k] == AtBase(list[k], b)
  {
    seq(|list|, k requires 0 <= k < |list| => AtBase(list[k], b))
  }

  lemma SectionElsewhere(img: Image, b: Word, i: nat)
    requires i < |img.shdrs| && TypeOf(img.shdrs[i]).Some?
    ensures MakeSection(img.(base := b), i) == AtBase(MakeSection(img, i), b)
  {
    hide FirstHolding, TypeOf, Wrap;
  }

  lemma {:induction false} SamePlace(list: seq<Section>, s: Section, b: nat)
    ensures InsertPos(ListAt(list, b), AtBase(s, b)) == InsertPos(list, s)
  {
    var i := InsertPos(list, s);
    forall k | 0 <= k < |list|
      ensures GoesBefore(AtBase(s, b), ListAt(list, b)[k]) <==> GoesBefore(s, list[k])
    {
    }
    hide GoesBefore;
    InsertPosUnique(ListAt(list, b), AtBase(s, b), i);
  }

  lemma {:induction false} InsertElsewhere(list: seq<Section>, s: Section, b: nat)
    ensures Insert(ListAt(list, b), AtBase(s, b)) == ListAt(Insert(list, s), b)
  {
    SamePlace(list, s, b);
    hide InsertPos, AtBase;
  }

  lemma {:induction false} ListElsewhere(img: Image, b: Word, mask: set<SecType>, n: nat)
    requires AllTyped(img) && (n <= 1 || n <= |img.shdrs|)
    ensures FullList(img.(base := b), mask, n) == ListAt(FullList(img, mask, n), b)
    decreases n
  {
    if n > 1 {
      ListElsewhere(img, b, mask, n - 1);
      SectionElsewhere(img, b, n - 1);
      hide Insert, MakeSection, ListAt, AtBase, TypeOf;
      InsertElsewhere(FullList(img, mask, n - 1), MakeSection(img, n - 1), b);
    }
  }

  lemma {:induction false} RofixupElsewhere(img: Image, b: Word, i: nat)
    requires AllTyped(img) && 1 <= i
    ensures AllTyped(img.(base := b))
    ensures RofixupSection(img.(base := b), i) ==
            match RofixupSection(img, i) case Some(s) => Some(AtBase(s, b)) case None => None
    ensures match RofixupSection(img, i)
            case Some(s) => RofixupFrom(img, i) == Some(TableAt(AdjustLma(s, img.base), s.size))
            case None => RofixupFrom(img, i) == None
    decreases |img.shdrs| - i
  {
    hide AtBase, LmaIn, TypeOf;
    assert AllTyped(img.(base := b));
    if i < |img.shdrs| {
      if img.shdrs[i].name == ".rofixup" {
        SectionElsewhere(img, b, i);
      } else {
        RofixupElsewhere(img, b, i + 1);
      }
    }
  }

  /** Wherever the image is, the mover's lists at a place are the same, and they are the
      lists that the loader makes of the image at that place, with the sections marked
      that may hold fixups. */
  lemma {:induction false} SameElfAnywhere(img: Image, b: Word)
    requires AllTyped(img)
    ensures AllTyped(img.(base := b))
    ensures var at := img.(base := b);
            && |MarkedFlash(ElfOf(img), b)| == |ListsOf(at).flash| && |MarkedMem(ElfOf(img), b)| == |ListsOf(at).mem|
            && (forall k :: 0 <= k < |ListsOf(at).flash| ==>
                  MarkedFlash(ElfOf(img), b)[k] == ListsOf(at).flash[k].(flashFixup := true))
            && (forall k :: 0 <= k < |ListsOf(at).mem| ==>
                  MarkedMem(ElfOf(img), b)[k] == ListsOf(at).mem[k].(flashFixup := FlashFixupName(ListsOf(at).mem[k].name)))
    ensures var at := img.(base := b);
            && (ElfOf(img).rofixup.Some? <==> RofixupOf(at).Some?)
            && (RofixupOf(at).Some? ==>
                  RofixupOf(at).value == TableAt(AdjustLma(ElfOf(img).rofixup.value, b), ElfOf(img).rofixup.value.size))
  {
    RofixupElsewhere(img, b, 1);
    RofixupElsewhere(img.(base := b), b, 1);
    ListElsewhere(img, b, {FlashType}, |img.shdrs|);
    ListElsewhere(img, b, {MemType}, |img.shdrs|);
    hide FullList, RofixupSection, RofixupFrom, AllTyped;
  }
}
