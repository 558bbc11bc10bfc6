/** What is so when a dependency list has been loaded: the meaning of every fixup
    word, and a layout that the linker can work on. */
module LoadTheorems {
  import opened Words
  import opened Options
  import opened Sections
  import opened Fixups
  import opened ElfImage
  import opened MemLoad
  import opened MemFixups
  import opened FileLoad
  import opened LoadShift

  // ----- fixup words -----

  /** The word at offset `o` of a section as it is loaded, before any fixup. */
  function InitWord(m0: Memory, s: Section, o: nat): Word {
    Join(InitByte(m0, s, o), InitByte(m0, s, o + 1), InitByte(m0, s, o + 2), InitByte(m0, s, o + 3))
  }

  lemma FilledWord(m0: Memory, m: Memory, s: Section, at: nat, o: nat)
    requires Filled(m0, m, s, at) && o + 4 <= s.size
    ensures LoadWord(m, at + o) == InitWord(m0, s, o)
  {
    hide InitByte;
    var a := at + o;
    assert m[a] == InitByte(m0, s, a - at) && m[a + 1] == InitByte(m0, s, a + 1 - at);
    assert m[a + 2] == InitByte(m0, s, a + 2 - at) && m[a + 3] == InitByte(m0, s, a + 3 - at);
  }

  /** `x` is the first section with memory fixups, in list order, that holds link address `a`. */
  predicate FixedHome(list: seq<Section>, a: Word, x: nat) {
    && x < |list| && HasMemFixups(list[x].name) && list[x].lma <= a < list[x].lma + list[x].size
    && forall j :: 0 <= j < x && HasMemFixups(list[j].name) ==> !(list[j].lma <= a < list[j].lma + list[j].size)
  }

  /** Fixup `k` belongs to section `x`, and its word lies inside that section. */
  predicate FixupIn(l: Lists, ws: seq<Word>, k: nat, x: nat)
    requires k < |ws| && x < |l.mem|
  {
    FixedHome(l.mem, ws[k], x) && ws[k] + 4 <= l.mem[x].lma + l.mem[x].size
  }

  /** Fixup `k` belongs to section `x` and is carried out at `p`. */
  predicate FixupOf(list: seq<Section>, base: nat, ws: seq<Word>, k: int, x: nat, p: int) {
    0 <= k < |ws| && FixedHome(list, ws[k], x) && p == base + SizeBefore(list, x) + (ws[k] - list[x].lma)
  }

  /** The list of memory sections has the flag for fixups in the sections of these names. */
  ghost predicate ByName(list: seq<Section>) {
    forall j :: 0 <= j < |list| ==> (list[j].memFixup <==> HasMemFixups(list[j].name)) && list[j].ty == MemType
  }

  /** So it is for the list that is made of the headers of an image. */
  lemma {:induction false} MarkedByName(img: Image)
    ensures ByName(ListsOf(img).mem)
  {
    hide FullList, MakeSection;
    FullListTypes(img, {MemType}, |img.shdrs|);
    var list := ListsOf(img).mem;
    forall j | 0 <= j < |list|
      ensures (list[j].memFixup <==> HasMemFixups(list[j].name)) && list[j].ty == MemType
    {
      assert list[j] in FullList(img, {MemType}, |img.shdrs|);
      var h: nat :| h < |img.shdrs| && TypeOf(img.shdrs[h]).Some? && list[j] == MakeSection(img, h);
      MadeByName(img, h);
    }
  }

  lemma MadeByName(img: Image, h: nat)
    requires h < |img.shdrs| && TypeOf(img.shdrs[h]).Some?
    ensures MakeSection(img, h).memFixup <==> HasMemFixups(MakeSection(img, h).name)
  {
  }

  lemma {:induction false} HomeByName(list: seq<Section>, base: nat, a: Word, x: nat)
    requires ByName(list)
    ensures Home(PlacedList(list, base), NeedsMemFixup, a) == Some(x) <==> FixedHome(list, a, x)
  {
    var placed := PlacedList(list, base);
    hide HasMemFixups, PlacedList, Home;
    forall j | 0 <= j < |list|
      ensures Hit(placed[j], ByLma, NeedsMemFixup, a) <==> HasMemFixups(list[j].name) && list[j].lma <= a < list[j].lma + list[j].size
    {
      PlacedHeader(list, base, j);
    }
    hide Hit, ByName;
    FirstHome(placed, a, x);
  }

  lemma PlacedHeader(list: seq<Section>, base: nat, j: nat)
    requires j < |list|
    ensures var s, t := PlacedList(list, base)[j], list[j]; s.lma == t.lma && s.size == t.size && s.memFixup == t.memFixup
  {
    hide SizeBefore, Wrap;
    assert PlacedList(list, base)[j] == PlacedSection(list, base, j);
  }

  lemma {:induction false} FirstHome(secs: seq<Section>, a: Word, x: nat)
    ensures Home(secs, NeedsMemFixup, a) == Some(x) <==>
              x < |secs| && Hit(secs[x], ByLma, NeedsMemFixup, a) && forall j :: 0 <= j < x ==> !Hit(secs[j], ByLma, NeedsMemFixup, a)
  {
    hide Hit;
  }

  lemma {:induction false} PlaceOf(l: Lists, base: Word, x: nat, a: Word, len: nat)
    requires x < |l.mem| && l.mem[x].ty == MemType && RoomFor(l.mem, base, len) && l.mem[x].lma <= a < l.mem[x].lma + l.mem[x].size
    ensures PlaceIn(MemJobFor(l.flash, PlacedList(l.mem, base), base), PlacedList(l.mem, base)[x], a) == base + SizeBefore(l.mem, x) + (a - l.mem[x].lma)
    ensures base + SizeBefore(l.mem, x) + l.mem[x].size <= base + Total(l.mem)
  {
    hide RoomFor, Total;
    SectionInside(l.mem, x, |l.mem|);
    RoomBounds(l.mem, base, len);
    hide SizeBefore, NamedSection;
    assert PlacedList(l.mem, base)[x] == PlacedSection(l.mem, base, x);
    hide PlacedList;
  }

  /** The places that fixups are carried out at, by name. */
  lemma {:induction false} FixupAtByName(m: Memory, l: Lists, base: Word, t: TableAt, len: nat, k: int, p: int)
    requires ByName(l.mem) && RoomFor(l.mem, base, len)
    ensures FixupAt(m, l, base, t, k, p) <==> exists x: nat :: FixupOf(l.mem, base, FixupWords(m, t), k, x, p)
  {
    hide PlacedList, MemJobFor, FixupWords, RoomFor, PlaceIn, SizeBefore, HasMemFixups, FixedHome;
    var list, ws := PlacedList(l.mem, base), FixupWords(m, t);
    if 0 <= k < |ws| {
      forall x: nat
        ensures Home(list, NeedsMemFixup, ws[k]) == Some(x) <==> FixedHome(l.mem, ws[k], x)
      {
        HomeByName(l.mem, base, ws[k], x);
      }
      if Home(list, NeedsMemFixup, ws[k]).Some? {
        var x := Home(list, NeedsMemFixup, ws[k]).value;
        HomeInside(l.mem, ws[k], x);
        PlaceOf(l, base, x, ws[k], len);
        assert FixupAt(m, l, base, t, k, p) <==> FixupOf(l.mem, base, ws, k, x, p);
      }
    }
  }

  lemma HomeInside(list: seq<Section>, a: Word, x: nat)
    requires FixedHome(list, a, x)
    ensures x < |list| && list[x].lma <= a < list[x].lma + list[x].size
  {
  }

  lemma {:induction false} FixupPlace(l: Lists, base: Word, ws: seq<Word>, k: nat, x: nat, len: nat)
    requires k < |ws| && x < |l.mem| && FixupIn(l, ws, k, x) && RoomFor(l.mem, base, len) && ByName(l.mem)
    ensures var list := PlacedList(l.mem, base);
            var o := ws[k] - l.mem[x].lma;
            var p := base + SizeBefore(l.mem, x) + o;
            && 0 <= o && o + 4 <= l.mem[x].size && p + 4 <= base + Total(l.mem)
            && At(MemJobFor(l.flash, list, base), list, NeedsMemFixup, ws, k, p) && Home(list, NeedsMemFixup, ws[k]) == Some(x)
  {
    hide RoomFor, Total, SizeBefore, PlacedList, PlaceIn, MemJobFor, Home;
    PlaceOf(l, base, x, ws[k], len);
    HomeByName(l.mem, base, ws[k], x);
  }

  lemma RoomBounds(list: seq<Section>, base: nat, len: nat)
    requires RoomFor(list, base, len)
    ensures base + Total(list) <= len && base + Total(list) < WORD_LIMIT && Total(list) == SizeBefore(list, |list|)
  {
  }

  /** After loading, a fixup word in .got, .got.plt or .data that was the link address of a
      place in the file's memory is that place's run address (or the memory base, for the
      .got.plt base in .got), and any other word is what the image has. */
  lemma {:induction false} FixupWordMeaning(m0: Memory, m: Memory, img: Image, base: Word, t: TableAt, k: nat, x: nat)
    requires var l := ListsOf(img);
             && Loaded(m0, m, l, base, t) && RoomFor(l.mem, base, |m0|)
             && k < |FixupWords(m0, t)| && x < |l.mem| && FixupIn(l, FixupWords(m0, t), k, x)
    ensures var l := ListsOf(img);
            var o := FixupWords(m0, t)[k] - l.mem[x].lma;
            var p, v := base + SizeBefore(l.mem, x) + o, InitWord(m0, l.mem[x], o);
            && 0 <= o && p + 4 <= |m|
            && LoadWord(m, p) == if v == 0 then 0 else Relocated(PlacedList(l.mem, base), x, base, v)
  {
    hide *;
    var l := ListsOf(img);
    var list, ws := PlacedList(l.mem, base), FixupWords(m0, t);
    MarkedByName(img);
    MemListTypes(img);
    FixupPlace(l, base, ws, k, x, |m0|);
    AllPlacedLoaded(l.mem, base);
    var o := ws[k] - l.mem[x].lma;
    var p := base + SizeBefore(l.mem, x) + o;
    var v := InitWord(m0, l.mem[x], o);
    WordFixed(m0, m, l, base, t, k, x, p, o);
    MemFixupAccounts(l.flash, list, base, x, v);
    if v != 0 {
      MemFixupRelocates(l.flash, list, base, x, v);
    }
  }

  /** The memory sections are linked away from where the image is stored. */
  predicate LinkedElsewhere(img: Image, list: seq<Section>, size: nat) {
    forall j :: 0 <= j < |list| ==> Apart(list[j].lma, list[j].size, img.base, size)
  }

  /** A fixup word that is an address in the image in flash, which the flash fixups have
      put there, comes to memory as it is. */
  lemma {:induction false} FlashAddressStays(m0: Memory, m: Memory, img: Image, base: Word, t: TableAt, k: nat, x: nat, size: nat)
    requires var l := ListsOf(img);
             && Loaded(m0, m, l, base, t) && RoomFor(l.mem, base, |m0|) && LinkedElsewhere(img, l.mem, size)
             && k < |FixupWords(m0, t)| && x < |l.mem| && FixupIn(l, FixupWords(m0, t), k, x)
    requires var s := ListsOf(img).mem[x]; img.base <= InitWord(m0, s, FixupWords(m0, t)[k] - s.lma) < img.base + size
    ensures var s := ListsOf(img).mem[x];
            var o := FixupWords(m0, t)[k] - s.lma;
            var p := base + SizeBefore(ListsOf(img).mem, x) + o;
            0 <= o && p + 4 <= |m| && LoadWord(m, p) == InitWord(m0, s, o)
  {
    hide *;
    var l := ListsOf(img);
    FixupWordMeaning(m0, m, img, base, t, k, x);
    NotALinkAddress(img, l.mem, base, x, size, InitWord(m0, l.mem[x], FixupWords(m0, t)[k] - l.mem[x].lma));
  }

  lemma {:induction false} NotALinkAddress(img: Image, list: seq<Section>, base: Word, x: nat, size: nat, v: Word)
    requires LinkedElsewhere(img, list, size) && img.base <= v < img.base + size
    ensures Relocated(PlacedList(list, base), x, base, v) == v
  {
    forall j | 0 <= j < |list|
      ensures !Hit(PlacedList(list, base)[j], ByLma, AnySection, v)
    {
      assert Apart(list[j].lma, list[j].size, img.base, size);
    }
    assert FindSection(PlacedList(list, base), ByLma, AnySection, v).None?;
  }

  /** A word that the load can place: blank, a link address in the file's memory, or an
      address in one of its sections in flash. */
  predicate KnownWord(l: Lists, v: Word) {
    || v == 0 || l.flash == []
    || (exists s :: s in l.mem && s.lma <= v < s.lma + s.size)
    || (exists s :: s in l.flash && s.adjLma <= v < s.adjLma + s.size)
  }

  lemma {:induction false} FoundExact(secs: seq<Section>, key: Key, v: Word)
    ensures FindSection(secs, key, AnySection, v).Some? <==> exists s :: s in secs && Hit(s, key, AnySection, v)
  {
    hide Hit;
    if s :| s in secs && Hit(s, key, AnySection, v) {
      var j :| 0 <= j < |secs| && secs[j] == s;
    }
  }

  lemma {:induction false} PlacedFound(list: seq<Section>, base: nat, v: Word)
    ensures FindSection(PlacedList(list, base), ByLma, AnySection, v).Some? <==> FindSection(list, ByLma, AnySection, v).Some?
  {
    hide SizeBefore;
    var placed := PlacedList(list, base);
    forall k | 0 <= k < |list|
      ensures Hit(placed[k], ByLma, AnySection, v) <==> Hit(list[k], ByLma, AnySection, v)
    {
    }
  }

  lemma {:induction false} KnownExact(l: Lists, base: Word, x: nat, v: Word)
    ensures var job := MemJobFor(l.flash, PlacedList(l.mem, base), base);
            JobOk(job) && (!DoFixup(job, x, v).Unaccounted? <==> KnownWord(l, v))
  {
    hide MemFixup, PlacedList, FindSection;
    MemFixupAccounts(l.flash, PlacedList(l.mem, base), base, x, v);
    PlacedFound(l.mem, base, v);
    FoundExact(l.mem, ByLma, v);
    FoundExact(l.flash, ByAdjLma, v);
    HitExact(l, v);
  }

  lemma HitExact(l: Lists, v: Word)
    ensures KnownWord(l, v) <==> v == 0 || l.flash == [] || (exists s :: s in l.mem && Hit(s, ByLma, AnySection, v))
                                 || (exists s :: s in l.flash && Hit(s, ByAdjLma, AnySection, v))
  {
    forall s
      ensures Hit(s, ByLma, AnySection, v) <==> s.lma <= v < s.lma + s.size
      ensures Hit(s, ByAdjLma, AnySection, v) <==> s.adjLma <= v < s.adjLma + s.size
    {
    }
  }

  lemma {:induction false} AccountedAt(m: Memory, l: Lists, base: Word, t: TableAt)
    ensures WordsAccounted(m, l, base, t) <==>
              forall k, p :: FixupAt(m, l, base, t, k, p) && p + 4 <= |m| ==> KnownWord(l, LoadWord(Filling(m, l.mem, base), p))
  {
    hide PlacedList, MemJobFor, FixupWords, DoFixup, KnownWord, LoadWord, Filling, JobOk, Home;
    var list, filled := PlacedList(l.mem, base), Filling(m, l.mem, base);
    KnownExact(l, base, 0, 0);
    forall k, p | FixupAt(m, l, base, t, k, p) && p + 4 <= |m|
      ensures FixupWords(m, t)[k] < WORD_LIMIT && Home(list, NeedsMemFixup, FixupWords(m, t)[k]).Some?
      ensures DoFixup(MemJobFor(l.flash, list, base), Home(list, NeedsMemFixup, FixupWords(m, t)[k]).value, LoadWord(filled, p)).Unaccounted?
              <==> !KnownWord(l, LoadWord(filled, p))
    {
      KnownExact(l, base, Home(list, NeedsMemFixup, FixupWords(m, t)[k]).value, LoadWord(filled, p));
    }
    AccountedForm(m, l, base, t, filled);
  }

  /** The fixups of a file stop the load just when some fixup word in .got, .got.plt or .data,
      as it is in memory when all sections are placed, is none of these. */
  lemma {:induction false} AccountedExact(m: Memory, img: Image, base: Word, t: TableAt)
    requires RoomFor(ListsOf(img).mem, base, |m|)
    ensures var l := ListsOf(img);
            WordsAccounted(m, l, base, t) <==>
              forall k, x: nat, p: nat :: FixupOf(l.mem, base, FixupWords(m, t), k, x, p) && p + 4 <= |m| ==>
                KnownWord(l, LoadWord(Filling(m, l.mem, base), p))
  {
    assert base < WORD_LIMIT;
    hide *;
    var l, ws := ListsOf(img), FixupWords(m, t);
    MarkedByName(img);
    AccountedAt(m, l, base, t);
    if WordsAccounted(m, l, base, t) {
      forall k, x: nat, p: nat | FixupOf(l.mem, base, ws, k, x, p) && p + 4 <= |m|
        ensures KnownWord(l, LoadWord(Filling(m, l.mem, base), p))
      {
        FixupAtByName(m, l, base, t, |m|, k, p);
        assert FixupAt(m, l, base, t, k, p);
      }
    } else {
      var k: int, p: int :| FixupAt(m, l, base, t, k, p) && p + 4 <= |m| && !KnownWord(l, LoadWord(Filling(m, l.mem, base), p));
      FixupAtByName(m, l, base, t, |m|, k, p);
      AtPlace(m, l, base, t, k, p);
      var x: nat :| FixupOf(l.mem, base, ws, k, x, p);
    }
  }

  lemma AtPlace(m: Memory, l: Lists, base: Word, t: TableAt, k: int, p: int)
    requires FixupAt(m, l, base, t, k, p)
    ensures p >= 0
  {
    hide PlacedList, FixupWords, Home;
  }

  /** The definition, with the fixups named as in the statement above. */
  lemma {:induction false} AccountedForm(m: Memory, l: Lists, base: Word, t: TableAt, filled: Memory)
    requires filled == Filling(m, l.mem, base) && JobOk(MemJobFor(l.flash, PlacedList(l.mem, base), base))
    ensures WordsAccounted(m, l, base, t) <==>
              forall k, p :: FixupAt(m, l, base, t, k, p) && p + 4 <= |m| ==>
                !DoFixup(MemJobFor(l.flash, PlacedList(l.mem, base), base),
                         Home(PlacedList(l.mem, base), NeedsMemFixup, FixupWords(m, t)[k]).value, LoadWord(filled, p)).Unaccounted?
  {
    hide PlacedList, MemJobFor, FixupWords, DoFixup, LoadWord, PlacedByte, JobOk;
    var list := PlacedList(l.mem, base);
    var job, ws := MemJobFor(l.flash, list, base), FixupWords(m, t);
    if SomeUnaccounted(job, list, NeedsMemFixup, ws, filled) {
      var k: int, p: int :| At(job, list, NeedsMemFixup, ws, k, p) && p + 4 <= |filled| &&
        DoFixup(job, Home(list, NeedsMemFixup, ws[k]).value, LoadWord(filled, p)).Unaccounted?;
      assert FixupAt(m, l, base, t, k, p);
    }
  }

  /** The fixup loop wrote what its callback says of the word that was loaded. */
  lemma {:induction false} WordFixed(m0: Memory, m: Memory, l: Lists, base: Word, t: TableAt, k: nat, x: nat, p: nat, o: nat)
    requires Loaded(m0, m, l, base, t) && x < |l.mem| && l.mem[x].ty == MemType && o + 4 <= l.mem[x].size && k < |FixupWords(m0, t)|
    requires var list := PlacedList(l.mem, base);
             At(MemJobFor(l.flash, list, base), list, NeedsMemFixup, FixupWords(m0, t), k, p) &&
             Home(list, NeedsMemFixup, FixupWords(m0, t)[k]) == Some(x)
    requires p == base + SizeBefore(l.mem, x) + o && p + 4 <= base + Total(l.mem)
    ensures var v, job := InitWord(m0, l.mem[x], o), MemJobFor(l.flash, PlacedList(l.mem, base), base);
            && p + 4 <= |m| && JobOk(job) && !DoFixup(job, x, v).Unaccounted? && LoadWord(m, p) == Result(DoFixup(job, x, v), v)
  {
    hide LoadedVia, PlacedList, MemJobFor, FixupWords, DoFixup, InitWord, SizeBefore, At, Home, Total, JobOk, LoadWord;
    var mid: Memory, fin: Memory :| LoadedVia(m0, m, l, base, t, mid, fin);
    ViaFixed(m0, m, l, base, t, mid, fin, k, x, p);
    ViaFilled(m0, m, l, base, t, mid, fin, x);
    FilledWord(m0, mid, l.mem[x], base + SizeBefore(l.mem, x), o);
    ViaSame(m0, m, l, base, t, mid, fin, p);
  }

  lemma {:induction false} ViaFixed(m0: Memory, m: Memory, l: Lists, base: Word, t: TableAt, mid: Memory, fin: Memory, k: nat, x: nat, p: nat)
    requires LoadedVia(m0, m, l, base, t, mid, fin) && k < |FixupWords(m0, t)|
    requires var list := PlacedList(l.mem, base);
             At(MemJobFor(l.flash, list, base), list, NeedsMemFixup, FixupWords(m0, t), k, p) &&
             Home(list, NeedsMemFixup, FixupWords(m0, t)[k]) == Some(x)
    ensures var job := MemJobFor(l.flash, PlacedList(l.mem, base), base); JobOk(job) && FixedAt(job, x, mid, fin, p)
  {
    hide PlacedList, MemJobFor, FixupWords, DoFixup, At, Home, Total, JobOk, FixedAt, Contents;
  }

  lemma {:induction false} ViaFilled(m0: Memory, m: Memory, l: Lists, base: Word, t: TableAt, mid: Memory, fin: Memory, x: nat)
    requires LoadedVia(m0, m, l, base, t, mid, fin) && x < |l.mem| && l.mem[x].ty == MemType
    ensures Filled(m0, mid, l.mem[x], base + SizeBefore(l.mem, x))
  {
    hide PlacedList, MemJobFor, FixupWords, Total, JobOk, FixedUp, Filled, SizeBefore;
  }

  lemma {:induction false} ViaSame(m0: Memory, m: Memory, l: Lists, base: Word, t: TableAt, mid: Memory, fin: Memory, p: nat)
    requires LoadedVia(m0, m, l, base, t, mid, fin) && base <= p && p + 4 <= base + Total(l.mem)
    ensures p + 4 <= |m| == |fin| && LoadWord(m, p) == LoadWord(fin, p)
  {
    hide PlacedList, MemJobFor, FixupWords, Total, JobOk, FixedUp, Contents;
    SameWord(m, fin, p);
  }

  lemma SameWord(m: Memory, n: Memory, p: nat)
    requires p + 4 <= |m| && p + 4 <= |n| && forall x :: p <= x < p + 4 ==> m[x] == n[x]
    ensures LoadWord(m, p) == LoadWord(n, p)
  {
  }

  lemma AllPlacedLoaded(list: seq<Section>, base: nat)
    requires forall j :: 0 <= j < |list| ==> list[j].ty == MemType
    ensures AllLoaded(PlacedList(list, base))
  {
  }

  lemma {:induction false} UncoveredLoaded(m0: Memory, m: Memory, l: Lists, base: Word, t: TableAt, x: nat, o: nat)
    requires Loaded(m0, m, l, base, t) && RoomFor(l.mem, base, |m0|)
    requires x < |l.mem| && l.mem[x].ty == MemType && o < l.mem[x].size
    requires forall k, p :: FixupAt(m0, l, base, t, k, p) ==> !(p <= base + SizeBefore(l.mem, x) + o < p + 4)
    ensures base + SizeBefore(l.mem, x) + o < |m| && m[base + SizeBefore(l.mem, x) + o] == InitByte(m0, l.mem[x], o)
  {
    hide LoadedVia, RoomFor, InitByte, SizeBefore, Total, Filled, FixupAt;
    var mid: Memory, fin: Memory :| LoadedVia(m0, m, l, base, t, mid, fin);
    ByteInside(l.mem, x, o);
    ViaFilled(m0, m, l, base, t, mid, fin, x);
    FilledByte(m0, mid, l.mem[x], base + SizeBefore(l.mem, x), o);
    ViaUncovered(m0, m, l, base, t, mid, fin, base + SizeBefore(l.mem, x) + o);
  }

  /** Bytes that no fixup in .got, .got.plt or .data covers are those of the image, or zero. */
  lemma {:induction false} OtherBytesLoaded(m0: Memory, m: Memory, img: Image, base: Word, t: TableAt, x: nat, o: nat)
    requires var l := ListsOf(img);
             && Loaded(m0, m, l, base, t) && RoomFor(l.mem, base, |m0|) && x < |l.mem| && o < l.mem[x].size
             && Uncovered(l.mem, base, FixupWords(m0, t), base + SizeBefore(l.mem, x) + o)
    ensures var s, a := ListsOf(img).mem[x], base + SizeBefore(ListsOf(img).mem, x) + o; a < |m| && m[a] == InitByte(m0, s, o)
  {
    hide *;
    var l, a := ListsOf(img), base + SizeBefore(ListsOf(img).mem, x) + o;
    MarkedByName(img);
    MemListTypes(img);
    NothingAt(m0, l, base, t, |m0|, a);
    UncoveredLoaded(m0, m, l, base, t, x, o);
  }

  lemma {:induction false} NothingAt(m0: Memory, l: Lists, base: Word, t: TableAt, len: nat, a: nat)
    requires ByName(l.mem) && RoomFor(l.mem, base, len) && Uncovered(l.mem, base, FixupWords(m0, t), a)
    ensures forall k, p :: FixupAt(m0, l, base, t, k, p) ==> !(p <= a < p + 4)
  {
    hide FixupAt, FixupOf, FixupWords, ByName, RoomFor;
    forall k, p | FixupAt(m0, l, base, t, k, p)
      ensures !(p <= a < p + 4)
    {
      FixupAtByName(m0, l, base, t, len, k, p);
      var y: nat :| FixupOf(l.mem, base, FixupWords(m0, t), k, y, p);
    }
  }

  /** No fixup is carried out on address `a`. */
  ghost predicate Uncovered(list: seq<Section>, base: nat, ws: seq<Word>, a: nat) {
    forall k, y: nat, p :: FixupOf(list, base, ws, k, y, p) ==> !(p <= a < p + 4)
  }

  /** .bss is zero after loading, when every fixup word lies inside its section. */
  lemma {:induction false} BssStaysZero(m0: Memory, m: Memory, img: Image, base: Word, t: TableAt, x: nat, o: nat)
    requires var l := ListsOf(img);
             && Loaded(m0, m, l, base, t) && RoomFor(l.mem, base, |m0|) && x < |l.mem| && o < l.mem[x].size
             && l.mem[x].name == ".bss" && l.mem[x].shType == SHT_NOBITS
             && forall k, y: nat :: 0 <= k < |FixupWords(m0, t)| && FixedHome(l.mem, FixupWords(m0, t)[k], y) ==> FixupIn(l, FixupWords(m0, t), k, y)
    ensures var a := base + SizeBefore(ListsOf(img).mem, x) + o; a < |m| && m[a] == 0
  {
    hide *;
    var l, ws := ListsOf(img), FixupWords(m0, t);
    BssIs(m0, l.mem[x], o);
    MemListTypes(img);
    NotInFixed(l, base, ws, x, o);
    OtherBytesLoaded(m0, m, img, base, t, x, o);
  }

  lemma BssIs(m0: Memory, s: Section, o: nat)
    requires s.name == ".bss" && s.shType == SHT_NOBITS
    ensures InitByte(m0, s, o) == 0 && !HasMemFixups(s.name)
  {
  }

  lemma {:induction false} NotInFixed(l: Lists, base: nat, ws: seq<Word>, x: nat, o: nat)
    requires forall j :: 0 <= j < |l.mem| ==> l.mem[j].ty == MemType
    requires forall k, y: nat :: 0 <= k < |ws| && FixedHome(l.mem, ws[k], y) ==> FixupIn(l, ws, k, y)
    requires x < |l.mem| && o < l.mem[x].size && !HasMemFixups(l.mem[x].name)
    ensures Uncovered(l.mem, base, ws, base + SizeBefore(l.mem, x) + o)
  {
    hide FixupOf, FixedHome, FixupIn, HasMemFixups, SizeBefore;
    forall k, y: nat, p | FixupOf(l.mem, base, ws, k, y, p)
      ensures !(p <= base + SizeBefore(l.mem, x) + o < p + 4)
    {
      OtherSection(l, base, ws, x, o, k, y, p);
    }
  }

  /** A fixup in another section, whose word lies in that section. */
  lemma {:induction false} OtherSection(l: Lists, base: nat, ws: seq<Word>, x: nat, o: nat, k: int, y: nat, p: int)
    requires forall j :: 0 <= j < |l.mem| ==> l.mem[j].ty == MemType
    requires forall k, y: nat :: 0 <= k < |ws| && FixedHome(l.mem, ws[k], y) ==> FixupIn(l, ws, k, y)
    requires x < |l.mem| && o < l.mem[x].size && !HasMemFixups(l.mem[x].name) && FixupOf(l.mem, base, ws, k, y, p)
    ensures !(p <= base + SizeBefore(l.mem, x) + o < p + 4)
  {
    assert FixupIn(l, ws, k, y) && y != x;
    hide SizeBefore, HasMemFixups;
    if y < x {
      SectionInside(l.mem, y, x);
    } else {
      SectionInside(l.mem, x, y);
    }
  }

  lemma {:induction false} ByteInside(list: seq<Section>, x: nat, o: nat)
    requires x < |list| && list[x].ty == MemType && o < list[x].size
    ensures SizeBefore(list, x) + o < Total(list)
  {
    SectionInside(list, x, |list|);
    hide SizeBefore;
  }

  lemma FilledByte(m0: Memory, m: Memory, s: Section, at: nat, o: nat)
    requires Filled(m0, m, s, at) && o < s.size
    ensures at + o < |m| && m[at + o] == InitByte(m0, s, o)
  {
    hide InitByte;
    assert m[at + o] == InitByte(m0, s, at + o - at);
  }

  /** A byte that no fixup covers stays as the sections were placed. */
  lemma {:induction false} ViaUncovered(m0: Memory, m: Memory, l: Lists, base: Word, t: TableAt, mid: Memory, fin: Memory, a: nat)
    requires LoadedVia(m0, m, l, base, t, mid, fin) && base <= a < base + Total(l.mem)
    requires forall k, p :: FixupAt(m0, l, base, t, k, p) ==> !(p <= a < p + 4)
    ensures a < |m| == |mid| && m[a] == mid[a]
  {
    hide PlacedList, MemJobFor, FixupWords, Total, Contents, FixedAt, JobOk, At;
    forall k, p | At(MemJobFor(l.flash, PlacedList(l.mem, base), base), PlacedList(l.mem, base), NeedsMemFixup, FixupWords(m0, t), k, p)
      ensures !(p <= a < p + 4)
    {
      assert FixupAt(m0, l, base, t, k, p);
    }
    assert fin[a] == mid[a];
  }
}
