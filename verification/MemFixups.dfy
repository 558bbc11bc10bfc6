/** Memory fixups of a loaded file (uld_rofixup_apply_mem_fixups in
    src/uld_rofixup.c): what they make of its memory. */
module MemFixups {
  import opened Words
  import opened Options
  import opened Sections
  import opened Fixups
  import opened ElfImage
  import opened MemLoad

  /** `uld_section_find_in_list_by_name`. */
  function NamedSection(list: seq<Section>, name: string): (r: Option<nat>)
    ensures r.Some? ==> r.value < |list| && list[r.value].name == name && forall k :: 0 <= k < r.value ==> list[k].name != name
    ensures r.None? ==> forall k :: 0 <= k < |list| ==> list[k].name != name
  {
    FirstWhere(list, (s: Section) => s.name == name)
  }

  method FindByName(list: seq<Section>, name: string) returns (r: Option<nat>)
    ensures r == NamedSection(list, name)
  {
    r := FindWhere(list, (s: Section) => s.name == name);
  }

  function MemJobFor(flash: seq<Section>, list: seq<Section>, membase: Word): Job {
    MemJob(flash, list, NamedSection(list, ".got"), NamedSection(list, ".got.plt"), membase)
  }

  /** The fixup table in flash. */
  datatype TableAt = TableAt(at: Word, size: Word)

  /** The first section header of that name, as the address and size of its bytes. */
  function RofixupFrom(img: Image, i: nat): Option<TableAt>
    decreases |img.shdrs| - i
  {
    if i >= |img.shdrs| then None
    else
      var s := img.shdrs[i];
      if s.name == ".rofixup" then Some(TableAt(if s.shType != SHT_NOBITS && s.alloc then Wrap(img.base + s.offset) else 0, s.size))
      else RofixupFrom(img, i + 1)
  }

  function RofixupOf(img: Image): Option<TableAt> {
    RofixupFrom(img, 1)
  }

  method GetRofixup(img: Image) returns (r: Option<TableAt>)
    ensures r == RofixupOf(img)
  {
    var idx := 1;
    while idx < |img.shdrs|
      invariant 1 <= idx && RofixupFrom(img, idx) == RofixupOf(img)
    {
      var s := img.shdrs[idx];
      if s.name == ".rofixup" {
        return Some(TableAt(if s.shType != SHT_NOBITS && s.alloc then Wrap(img.base + s.offset) else 0, s.size));
      }
      idx := idx + 1;
    }
    return None;
  }

  function FixupWords(m: Memory, t: TableAt): seq<Word> {
    if t.at + 4 * TableLen(t.size) <= |m| then TableWords(m, t.at, TableLen(t.size)) else []
  }

  /** The table is in memory, and the fixups do not overlap one another or it. */
  ghost predicate FixupsReady(m: Memory, flash: seq<Section>, list: seq<Section>, membase: Word, t: TableAt) {
    && t.at + 4 * TableLen(t.size) <= |m|
    && FixupsApart(MemJobFor(flash, list, membase), list, NeedsMemFixup, FixupWords(m, t), |m|, t.at, t.at + 4 * TableLen(t.size))
  }

  /** `uld_rofixup_apply_mem_fixups` for the placed sections of a file. */
  method ApplyMemFixups(mem: array<Byte>, flash: seq<Section>, list: seq<Section>, membase: Word, table: Option<TableAt>)
    returns (r: Outcome<()>)
    requires list != [] && table.Some? ==> FixupsReady(mem[..], flash, list, membase, table.value)
    modifies mem
    ensures list == [] || table.None? ==> r == Failed(1) && mem[..] == old(mem[..])
    ensures list != [] && table.Some? ==>
              var job, ws := MemJobFor(flash, list, membase), FixupWords(old(mem[..]), table.value);
              JobOk(job) &&
              match r
              case Done(_) => FixedUp(job, list, NeedsMemFixup, ws, |ws|, old(mem[..]), mem[..])
              case Trapped => SomeUnaccounted(job, list, NeedsMemFixup, ws, old(mem[..]))
              case Failed(_) => false
  {
    if list == [] {
      return Failed(1);
    }
    var got := FindByName(list, ".got");
    var gotPlt := FindByName(list, ".got.plt");
    if table.None? {
      return Failed(1);
    }
    var job := MemJob(flash, list, got, gotPlt, membase);
    var ok := ApplyFixups(mem, list, NeedsMemFixup, job, table.value.at, table.value.size);
    return if ok then Done(()) else Trapped;
  }

  // ----- the meaning -----

  /** The run-time meaning of the word `v` in section `x` of a loaded file: a link
      address in a memory section becomes the run address of that place, the link
      address of .got.plt in .got the memory base of the file; all else stays. */
  function Relocated(list: seq<Section>, x: nat, membase: Word, v: Word): Word {
    match FindSection(list, ByLma, AnySection, v)
    case None => v
    case Some(t) =>
      if NamedSection(list, ".got") == Some(x) && IsGotPltBase(list, v) then membase else SectionRunAddr(list[t], v)
  }

  predicate IsGotPltBase(list: seq<Section>, v: Word) {
    var g := NamedSection(list, ".got.plt");
    g.Some? && v == list[g.value].lma
  }

  predicate AllLoaded(list: seq<Section>) {
    forall k :: 0 <= k < |list| ==> list[k].loaded
  }

  /** Every word that a memory fixup accounts for is given its run-time meaning. */
  lemma MemFixupRelocates(flash: seq<Section>, list: seq<Section>, membase: Word, x: nat, v: Word)
    requires AllLoaded(list) && v != 0
    ensures var f := DoFixup(MemJobFor(flash, list, membase), x, v);
            !f.Unaccounted? ==> Result(f, v) == Relocated(list, x, membase, v)
  {
  }

  /** It accounts for every word but those that are in no section at all; a blank
      word is left alone. */
  lemma MemFixupAccounts(flash: seq<Section>, list: seq<Section>, membase: Word, x: nat, v: Word)
    ensures var f := DoFixup(MemJobFor(flash, list, membase), x, v);
            && (f.Unaccounted? <==> v != 0 && FindSection(list, ByLma, AnySection, v).None? && flash != [] &&
                                    FindSection(flash, ByAdjLma, AnySection, v).None?)
            && (v == 0 ==> Result(f, v) == 0)
  {
  }

  // ----- one constant shift -----

  /** The link addresses of the sections follow one another without gaps. */
  predicate Adjacent(list: seq<Section>) {
    forall k :: 0 <= k < |list| && list[k].size > 0 ==> list[k].lma == list[0].lma + SizeBefore(list, k)
  }

  /** Link addresses in memory become run addresses by adding one constant. */
  ghost predicate OneShift(list: seq<Section>, base: nat) {
    forall k, v: Word :: 0 <= k < |list| && Hit(list[k], ByLma, AnySection, v) && v != 0 ==> Shifted(list, base, k, v)
  }

  predicate Shifted(list: seq<Section>, base: nat, k: nat, v: Word)
    requires k < |list|
  {
    SectionRunAddr(PlacedList(list, base)[k], v) == v - list[0].lma + base
  }

  /** Memory sections of a list that has room at `base`, none of them at link address 0. */
  ghost predicate Loadable(list: seq<Section>, base: nat) {
    && base + Total(list) < WORD_LIMIT
    && forall k :: 0 <= k < |list| ==> LoadableSection(list[k])
  }

  predicate LoadableSection(s: Section) {
    s.ty == MemType && s.lma != 0 && s.lma + s.size < WORD_LIMIT
  }

  lemma {:induction false} ShiftOfSection(list: seq<Section>, base: nat, k: nat, v: Word)
    requires Loadable(list, base) && k < |list| && Hit(list[k], ByLma, AnySection, v)
    ensures v != 0 && SectionRunAddr(PlacedList(list, base)[k], v) == v - list[k].lma + base + SizeBefore(list, k)
  {
    assert LoadableSection(list[k]);
    SectionInside(list, k, |list|);
  }

  /** The map is one constant shift just when the link addresses have no gaps. */
  lemma {:induction false} OneShiftExact(list: seq<Section>, base: nat)
    requires Loadable(list, base)
    ensures OneShift(list, base) <==> Adjacent(list)
  {
    forall k, v: Word | 0 <= k < |list| && Hit(list[k], ByLma, AnySection, v)
      ensures v != 0 && (Shifted(list, base, k, v) <==> list[k].lma == list[0].lma + SizeBefore(list, k))
    {
      ShiftOfSection(list, base, k, v);
    }
    hide SizeBefore, Shifted;
    if OneShift(list, base) {
      forall k | 0 <= k < |list| && list[k].size > 0
        ensures list[k].lma == list[0].lma + SizeBefore(list, k)
      {
        assert LoadableSection(list[k]);
        assert Hit(list[k], ByLma, AnySection, list[k].lma);
        assert Shifted(list, base, k, list[k].lma);
      }
    }
  }

  /** The whole address map of the file, for link addresses of its memory. */
  lemma {:induction false} FileShift(f: File, list: seq<Section>, base: nat, v: Word)
    requires Loadable(list, base) && Adjacent(list) && f.mem == PlacedList(list, base)
    requires FindSection(f.flash, ByLma, AnySection, v).None? && FindSection(f.mem, ByLma, AnySection, v).Some?
    ensures RunAddr(f, v) == v - list[0].lma + base
  {
    var t := FindSection(f.mem, ByLma, AnySection, v).value;
    assert Hit(list[t], ByLma, AnySection, v);
    ShiftOfSection(list, base, t, v);
    hide SizeBefore;
  }
}
