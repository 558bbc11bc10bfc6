/** What a link that returns 0 has done, for all well-linked files. */
module LinkTheorems {
  import opened Words
  import opened Sections
  import opened LinkSpec
  import opened LinkMeaning
  import opened LinkProof

  ghost predicate Linked(files: seq<File>, m0: Memory, base: nat) {
    WellLinked(files, base) && MemoryOk(m0, base) && Link(files, m0, base).Done?
  }

  function Final(files: seq<File>, m0: Memory, base: nat): LinkState
    requires SymIndicesOk(files) && Link(files, m0, base).Done?
  {
    Link(files, m0, base).value
  }

  lemma {:induction false} FinalInv(files: seq<File>, m0: Memory, base: nat)
    requires Linked(files, m0, base)
    ensures LinkInv(files, m0, base, |files|, 0, Final(files, m0, base))
  {
    var st := EveryState(files, m0, base, |files|, 0);
  }

  // ----- data -----

  /** Every ABS32/GLOB_DAT slot for an object that some file up to its own defines
      holds the address of that object in the nearest such file. */
  lemma {:induction false} DataSlotsCorrect(files: seq<File>, m0: Memory, base: nat, i: nat, r: nat)
    requires Linked(files, m0, base) && Position(files, i, r)
    requires IsData(RelAt(files, i, r).kind) && IsObject(files, NameAt(files, i, r))
    requires NearestDefiner(files, i, NameAt(files, i, r)).Some?
    ensures var m, a := Final(files, m0, base).mem, Slot(files, i, r);
            var name := NameAt(files, i, r);
            a + 4 <= |m| && LoadWord(m, a) == DataAddr(files, NearestDefiner(files, i, name).value, name)
  {
    FinalInv(files, m0, base);
    assert Before(files, |files|, 0, i, r);
  }

  /** The slot holds the run address of the symbol if and only if the defining file
      has memory or the symbol does not move.  A file without memory has base 0,
      which the linker takes for "found through a relocation". */
  lemma {:induction false} DataSlotIsRunAddr(files: seq<File>, m0: Memory, base: nat, i: nat, r: nat)
    requires Linked(files, m0, base) && Position(files, i, r)
    requires IsData(RelAt(files, i, r).kind) && IsObject(files, NameAt(files, i, r))
    requires NearestDefiner(files, i, NameAt(files, i, r)).Some?
    ensures var m, a, name := Final(files, m0, base).mem, Slot(files, i, r), NameAt(files, i, r);
            var d := files[NearestDefiner(files, i, name).value];
            var value := SymNamed(d, name).value;
            a + 4 <= |m| && (LoadWord(m, a) == RunAddr(d, value) <==> d.membase != 0 || RunAddr(d, value) == value)
  {
    DataSlotsCorrect(files, m0, base, i, r);
  }

  /** Every RELATIVE slot holds the translation of what was loaded there. */
  lemma {:induction false} RelativeSlotsCorrect(files: seq<File>, m0: Memory, base: nat, i: nat, r: nat)
    requires Linked(files, m0, base) && Position(files, i, r) && RelAt(files, i, r).kind == Relative
    ensures var m, a := Final(files, m0, base).mem, Slot(files, i, r);
            a + 4 <= |m| == |m0| && LoadWord(m, a) == RunAddr(files[i], LoadWord(m0, a))
  {
    FinalInv(files, m0, base);
    assert Before(files, |files|, 0, i, r);
  }

  /** No byte outside the relocation slots and the used part of the pool changes. */
  lemma {:induction false} OtherBytesKept(files: seq<File>, m0: Memory, base: nat, x: nat)
    requires Linked(files, m0, base) && x < |m0|
    requires !(base <= x < Final(files, m0, base).pool)
    requires forall i, r :: Position(files, i, r) ==> !InSlot(files, i, r, x)
    ensures |Final(files, m0, base).mem| == |m0| && Final(files, m0, base).mem[x] == m0[x]
  {
    FinalInv(files, m0, base);
    assert Untouched(files, |files|, 0, base, Final(files, m0, base).pool, x);
  }

  // ----- functions -----

  /** The definer of `name` has memory, or the two words at its link address happen to
      be its descriptor: run entry and memory base 0. */
  ghost predicate GetsDescriptor(files: seq<File>, m0: Memory, name: string) {
    var d := NearestDefiner(files, |files| - 1, name);
    d.Some? &&
    var f, v := files[d.value], SymNamed(files[d.value], name).value;
    f.membase != 0 || (v + 8 <= |m0| && LoadWord(m0, v) == RunAddr(f, v) && LoadWord(m0, v + 4) == 0)
  }

  /** A pair that a link has made is the descriptor just under that condition. */
  lemma {:induction false} PairIsDescriptor(files: seq<File>, m0: Memory, m: Memory, name: string, p: nat)
    requires PairAt(files, m0, m, name, p)
    ensures DescriptorAt(files, m, name, p) <==> GetsDescriptor(files, m0, name)
  {
  }

  /** Every FUNCDESC_VALUE slot for a function is that function's descriptor if and
      only if its definer has memory or the words at its link address are one.  The
      code copies those two words when the definer's memory base is 0, which it takes
      for "found through a relocation". */
  lemma {:induction false} FuncDescValuesCorrect(files: seq<File>, m0: Memory, base: nat, i: nat, r: nat)
    requires Linked(files, m0, base) && Position(files, i, r)
    requires RelAt(files, i, r).kind == FuncDescValue && FunctionOk(files, m0, base, NameAt(files, i, r)) && !OnSection(files, i, r)
    ensures var m, name := Final(files, m0, base).mem, NameAt(files, i, r);
            && PairAt(files, m0, m, name, Slot(files, i, r))
            && (DescriptorAt(files, m, name, Slot(files, i, r)) <==> GetsDescriptor(files, m0, name))
  {
    FinalInv(files, m0, base);
    assert Before(files, |files|, 0, i, r);
    PairIsDescriptor(files, m0, Final(files, m0, base).mem, NameAt(files, i, r), Slot(files, i, r));
  }

  /** Against a section symbol, the slot becomes the place at the stored offset
      into the section, with the file's own memory base. */
  lemma {:induction false} SectionDescriptorsCorrect(files: seq<File>, m0: Memory, base: nat, i: nat, r: nat)
    requires Linked(files, m0, base) && Position(files, i, r) && OnSection(files, i, r)
    ensures SectionSlotOk(files, m0, Final(files, m0, base).mem, i, r)
  {
    FinalInv(files, m0, base);
    assert Before(files, |files|, 0, i, r);
  }

  /** As soon as file `i` is done, whatever a FUNCDESC of files 0 to `i` points at
      is a complete descriptor of its function, although it may have been chosen
      while still unfilled; without memory in the definer, just when the words at the
      link address are one. */
  lemma {:induction false} DescriptorsDoneAfterFile(files: seq<File>, m0: Memory, base: nat, i: nat, k: nat, s: nat)
    requires WellLinked(files, base) && MemoryOk(m0, base) && i < |files|
    requires StateAt(files, m0, base, i + 1, 0).Done?
    requires Position(files, k, s) && k <= i && RelAt(files, k, s).kind == FuncDesc && FunctionOk(files, m0, base, NameAt(files, k, s))
    ensures var m, name := StateAt(files, m0, base, i + 1, 0).value.mem, NameAt(files, k, s);
            && Slot(files, k, s) + 4 <= |m|
            && (DescriptorAt(files, m, name, LoadWord(m, Slot(files, k, s))) <==> GetsDescriptor(files, m0, name))
  {
    hide StateAt, WellLinked, FunctionOk, DescriptorAt, GetsDescriptor, LinkInv, Slot, LoadWord;
    IndicesOk(files, base);
    var st := EveryState(files, m0, base, i + 1, 0);
    PointsAtDescriptor(files, m0, base, i + 1, st, k, s);
  }

  lemma {:induction false} PointsAtDescriptor(files: seq<File>, m0: Memory, base: nat, i: nat, st: LinkState, k: nat, s: nat)
    requires SymIndicesOk(files) && LinkInv(files, m0, base, i, 0, st)
    requires Position(files, k, s) && k < i && RelAt(files, k, s).kind == FuncDesc && FunctionOk(files, m0, base, NameAt(files, k, s))
    ensures Slot(files, k, s) + 4 <= |st.mem|
    ensures var name := NameAt(files, k, s);
            DescriptorAt(files, st.mem, name, LoadWord(st.mem, Slot(files, k, s))) <==> GetsDescriptor(files, m0, name)
  {
    assert Before(files, i, 0, k, s);
    assert SlotOk(files, m0, base, st.mem, st.log, k, s);
    hide PairAt, SlotOk, ItemOk, FunctionOk, DescriptorAt, GetsDescriptor, Slot, LoadWord;
    var name, p := NameAt(files, k, s), LoadWord(st.mem, Slot(files, k, s));
    if AtCode(files, name, p) {
      CodeIsDescriptor(files, m0, base, i, 0, st, name, p);
    } else {
      FinishedDescriptor(files, m0, base, i, 0, st, k, name, p);
      PairIsDescriptor(files, m0, st.mem, name, p);
    }
  }

  lemma {:induction false} CodeIsDescriptor(files: seq<File>, m0: Memory, base: nat, i: nat, r: nat, st: LinkState, name: string, p: Word)
    requires SymIndicesOk(files) && LinkInv(files, m0, base, i, r, st) && FunctionOk(files, m0, base, name) && AtCode(files, name, p)
    ensures DescriptorAt(files, st.mem, name, p) <==> GetsDescriptor(files, m0, name)
  {
    assert |st.mem| == |m0|;
    hide LinkInv, FunctionOk;
    if p + 8 <= |m0| {
      CodeStillThere(files, m0, base, i, r, st, name, p);
      PairIsDescriptor(files, m0, st.mem, name, p);
    }
  }

  /** Every FUNCDESC ends pointing at a complete descriptor of its function, under the
      same condition and only under it. */
  lemma {:induction false} FuncDescsCorrect(files: seq<File>, m0: Memory, base: nat, i: nat, r: nat)
    requires Linked(files, m0, base) && Position(files, i, r)
    requires RelAt(files, i, r).kind == FuncDesc && FunctionOk(files, m0, base, NameAt(files, i, r))
    ensures var m, name := Final(files, m0, base).mem, NameAt(files, i, r);
            && Slot(files, i, r) + 4 <= |m|
            && (DescriptorAt(files, m, name, LoadWord(m, Slot(files, i, r))) <==> GetsDescriptor(files, m0, name))
  {
    DescriptorsDoneAfterFile(files, m0, base, |files| - 1, i, r);
  }

  // ----- the pool -----

  /** Pool items lie one after the other above `base`, blocks are still zero,
      descriptors complete, and the counter is the distance the pool pointer moved. */
  lemma {:induction false} PoolCorrect(files: seq<File>, m0: Memory, base: nat)
    requires Linked(files, m0, base)
    ensures var st := Final(files, m0, base);
            && PoolOk(files, m0, st.mem, base, st.pool, st.log)
            && st.size == st.pool - base
  {
    FinalInv(files, m0, base);
  }

  /** A slot for an undefined object holds the address of a block for it. */
  lemma {:induction false} UndefinedSlotInPool(files: seq<File>, m0: Memory, base: nat, name: string, k: nat, s: nat)
    requires Linked(files, m0, base) && IsObject(files, name) && NearestDefiner(files, |files| - 1, name).None?
    requires Position(files, k, s) && IsData(RelAt(files, k, s).kind) && NameAt(files, k, s) == name
    ensures var st := Final(files, m0, base);
            Slot(files, k, s) + 4 <= |st.mem| &&
            InPool(files, st.log, GlobDat, name, LoadWord(st.mem, Slot(files, k, s)))
  {
    FinalInv(files, m0, base);
    assert Before(files, |files|, 0, k, s);
  }

  ghost predicate HoldsAddr(files: seq<File>, m: Memory, k: nat, s: nat, w: nat)
    requires Position(files, k, s)
  {
    Slot(files, k, s) + 4 <= |m| && LoadWord(m, Slot(files, k, s)) == w
  }

  /** An object that no file defines gets exactly one block, and every data slot
      for it, in any file, holds that block's address. */
  lemma {:induction false} UndefinedObjectHasOneBlock(files: seq<File>, m0: Memory, base: nat, name: string, i: nat, r: nat) returns (t: nat)
    requires Linked(files, m0, base) && IsObject(files, name) && NearestDefiner(files, |files| - 1, name).None?
    requires Position(files, i, r) && IsData(RelAt(files, i, r).kind) && NameAt(files, i, r) == name
    ensures t < |Final(files, m0, base).log| && SoleBlock(files, Final(files, m0, base).log, name, t)
    ensures forall k, s :: Position(files, k, s) && IsData(RelAt(files, k, s).kind) && NameAt(files, k, s) == name ==>
              HoldsAddr(files, Final(files, m0, base).mem, k, s, Final(files, m0, base).log[t].addr)
  {
    var st := Final(files, m0, base);
    UndefinedSlotInPool(files, m0, base, name, i, r);
    t :| 0 <= t < |st.log| && ItemFor(files, st.log[t], GlobDat, name);
    PoolCorrect(files, m0, base);
    BlockIsSole(files, st.log, name, t);
    forall k, s | Position(files, k, s) && IsData(RelAt(files, k, s).kind) && NameAt(files, k, s) == name
      ensures HoldsAddr(files, st.mem, k, s, st.log[t].addr)
    {
      UndefinedSlotInPool(files, m0, base, name, k, s);
    }
  }

  /** Item `t` is a block for `name`, and the only one. */
  ghost predicate SoleBlock(files: seq<File>, log: seq<PoolItem>, name: string, t: nat)
    requires SymIndicesOk(files) && t < |log|
  {
    ItemFor(files, log[t], GlobDat, name) &&
    forall u :: 0 <= u < |log| && ItemFor(files, log[u], GlobDat, name) ==> u == t
  }

  lemma {:induction false} BlockIsSole(files: seq<File>, log: seq<PoolItem>, name: string, t: nat)
    requires SymIndicesOk(files) && ItemsApart(files, log) && IsObject(files, name)
    requires t < |log| && ItemFor(files, log[t], GlobDat, name)
    ensures SoleBlock(files, log, name, t)
  {
    forall u | 0 <= u < |log| && ItemFor(files, log[u], GlobDat, name)
      ensures u == t
    {
      if u < t {
        assert SameBlock(files, log[u], log[t]);
      } else if t < u {
        assert SameBlock(files, log[t], log[u]);
      }
    }
  }
}
