/** The pass keeps its invariant: one relocation patches its own slot as it should
    and leaves everything patched so far alone. */
module LinkProof {
  import opened Words
  import opened Sections
  import opened LinkSpec
  import opened LinkMeaning
  import opened LinkSearch

  // ----- what one step writes -----

  /** The step changes its slot and the pool bytes it hands out, nothing else. */
  ghost predicate StepFrame(files: seq<File>, i: nat, r: nat, st: LinkState, st1: LinkState)
    requires Position(files, i, r)
  {
    && |st1.mem| == |st.mem| && st.pool <= st1.pool <= |st.mem| && st1.size - st.size == st1.pool - st.pool
    && (forall x :: 0 <= x < |st.mem| && !InSlot(files, i, r, x) && !(st.pool <= x < st1.pool) ==> st1.mem[x] == st.mem[x])
    && (st1.log == st.log ||
        (st1.log == st.log + [Last(st1.log)] && Last(st1.log).file == i && Last(st1.log).rel == r &&
         Last(st1.log).addr == st.pool && st.pool + Last(st1.log).size <= st1.pool &&
         (RelAt(files, i, r).kind == GlobDat || (RelAt(files, i, r).kind == FuncDesc && Last(st1.log).size == 8)) &&
         (RelAt(files, i, r).kind == GlobDat ==>
            forall x :: st.pool <= x < st.pool + Last(st1.log).size ==> st1.mem[x] == 0)))
  }

  function Last(log: seq<PoolItem>): PoolItem {
    if log == [] then PoolItem(0, 0, 0, 0) else log[|log| - 1]
  }

  lemma {:induction false} PairStored(m: Memory, p: nat, entry: Word, base: Word)
    requires p + 8 <= |m|
    ensures var m1 := StoreWord(StoreWord(m, p, entry), p + 4, base);
            LoadWord(m1, p) == entry && LoadWord(m1, p + 4) == base && SameBytes(m, m1, 0, p) && SameBytes(m, m1, p + 8, |m|)
  {
    var ma := StoreWord(m, p, entry);
    LoadStored(m, p, entry);
    LoadStored(ma, p + 4, base);
    StoreElsewhere(m, p, entry);
    StoreElsewhere(ma, p + 4, base);
    LoadSame(ma, StoreWord(ma, p + 4, base), p);
  }

  lemma {:induction false} SlotWriteFrame(files: seq<File>, i: nat, r: nat, st: LinkState, w: Word)
    requires Position(files, i, r) && WriteSlot(st, Slot(files, i, r), w).Done?
    ensures var st1 := WriteSlot(st, Slot(files, i, r), w).value;
            && st1 == st.(mem := StoreWord(st.mem, Slot(files, i, r), w))
            && forall x :: 0 <= x < |st.mem| && !InSlot(files, i, r, x) ==> st1.mem[x] == st.mem[x]
  {
    StoreElsewhere(st.mem, Slot(files, i, r), w);
  }

  lemma {:induction false} BlockFrame(files: seq<File>, base: nat, i: nat, r: nat, st: LinkState, res: Resolution)
    requires Position(files, i, r) && SlotPlaced(files, base, i, r) && RelAt(files, i, r).kind == GlobDat
    requires |st.mem| % 8 == 0 && base <= st.pool <= |st.mem| && LinkBlock(files, i, r, st, res).Done?
    ensures StepFrame(files, i, r, st, LinkBlock(files, i, r, st, res).value)
  {
    hide AlignUp, RunAddr, FindSection;
    var size := res.matchSym.value.size;
    var next := AlignUp(st.pool + size, 2);
    AlignUpWithin(st.pool + size, 2, |st.mem|);
    SlotWriteFrame(files, i, r, LinkState(ZeroFill(st.mem, st.pool, size), next, st.size + (next - st.pool),
                                          st.log + [PoolItem(i, r, st.pool, size)]), st.pool);
  }

  lemma {:induction false} FuncDescFrame(files: seq<File>, base: nat, i: nat, r: nat, st: LinkState, res: Resolution)
    requires Position(files, i, r) && SlotPlaced(files, base, i, r) && RelAt(files, i, r).kind == FuncDesc
    requires base <= st.pool <= |st.mem| && res.fileIdx < |files| && LinkFuncDesc(files, i, r, st, res).Done?
    ensures StepFrame(files, i, r, st, LinkFuncDesc(files, i, r, st, res).value)
  {
    if res.membase == 0 {
      SlotWriteFrame(files, i, r, st, res.ptr);
    } else {
      var m := WritePair(st.mem, st.pool, Target(files, res), res.membase).value;
      PairStored(st.mem, st.pool, Target(files, res), res.membase);
      SlotWriteFrame(files, i, r, LinkState(m, st.pool + 8, st.size + 8, st.log + [PoolItem(i, r, st.pool, 8)]), st.pool);
    }
  }

  lemma {:induction false} FuncDescValueFrame(files: seq<File>, i: nat, r: nat, st: LinkState, res: Resolution)
    requires Position(files, i, r) && RelAt(files, i, r).kind == FuncDescValue && st.pool <= |st.mem|
    requires res.fileIdx < |files| && LinkFuncDescValue(files, i, r, st, res).Done?
    ensures StepFrame(files, i, r, st, LinkFuncDescValue(files, i, r, st, res).value)
  {
    var dst := Slot(files, i, r);
    if res.membase != 0 {
      PairStored(st.mem, dst, Target(files, res), res.membase);
    } else {
      var m := StoreWord(st.mem, dst, LoadWord(st.mem, res.ptr));
      PairStored(st.mem, dst, LoadWord(st.mem, res.ptr), LoadWord(m, res.ptr + 4));
    }
  }

  lemma {:induction false} StepKeepsFrame(files: seq<File>, base: nat, i: nat, r: nat, st: LinkState)
    requires WellLinked(files, base) && Position(files, i, r)
    requires |st.mem| % 8 == 0 && base <= st.pool <= |st.mem|
    requires LinkRel(files, i, r, st).Done?
    ensures StepFrame(files, i, r, st, LinkRel(files, i, r, st).value)
  {
    var kind, a := RelAt(files, i, r).kind, Slot(files, i, r);
    assert SlotPlaced(files, base, i, r);
    if kind == Relative {
      SlotWriteFrame(files, i, r, st, RunAddr(files[i], LoadWord(st.mem, a)));
    } else {
      var res := Resolve(files, st.mem, i, r).value;
      if kind == FuncDesc {
        FuncDescFrame(files, base, i, r, st, res);
      } else if kind == FuncDescValue {
        FuncDescValueFrame(files, i, r, st, res);
      } else if kind == GlobDat && res.ptr == 0 {
        BlockFrame(files, base, i, r, st, res);
      } else {
        SlotWriteFrame(files, i, r, st, Target(files, res));
      }
    }
  }

  // ----- what was patched before stays -----

  lemma {:induction false} SlotBytesKept(files: seq<File>, base: nat, i: nat, r: nat, st: LinkState, st1: LinkState, k: nat, s: nat)
    requires WellLinked(files, base) && Position(files, i, r) && Position(files, k, s) && (k != i || s != r)
    requires StepFrame(files, i, r, st, st1) && base <= st.pool
    ensures Slot(files, k, s) + SlotSize(RelAt(files, k, s).kind) <= |st.mem|
    ensures SameBytes(st.mem, st1.mem, Slot(files, k, s), Slot(files, k, s) + SlotSize(RelAt(files, k, s).kind))
  {
    assert SlotPairApart(files, i, r, k, s);
    assert SlotPlaced(files, base, k, s);
  }

  lemma {:induction false} PairKept(files: seq<File>, m0: Memory, m: Memory, m1: Memory, name: string, p: nat)
    requires PairAt(files, m0, m, name, p) && SameBytes(m, m1, p, p + 8)
    ensures PairAt(files, m0, m1, name, p)
  {
    LoadSame(m, m1, p);
    LoadSame(m, m1, p + 4);
  }

  lemma {:induction false} InPoolGrows(files: seq<File>, log: seq<PoolItem>, log1: seq<PoolItem>, kind: RelKind, name: string, w: nat)
    requires SymIndicesOk(files) && log <= log1 && InPool(files, log, kind, name, w)
    ensures InPool(files, log1, kind, name, w)
  {
    var t :| 0 <= t < |log| && ItemFor(files, log[t], kind, name) && log[t].addr == w;
    assert log1[t] == log[t];
  }

  lemma {:induction false} SlotKept(files: seq<File>, base: nat, m0: Memory, i: nat, r: nat, st: LinkState, st1: LinkState, k: nat, s: nat)
    requires WellLinked(files, base) && Position(files, i, r) && Position(files, k, s) && (k != i || s != r)
    requires StepFrame(files, i, r, st, st1) && base <= st.pool
    requires SlotOk(files, m0, base, st.mem, st.log, k, s)
    ensures SlotOk(files, m0, base, st1.mem, st1.log, k, s)
  {
    var name, kind := NameAt(files, k, s), RelAt(files, k, s).kind;
    var a: nat := Slot(files, k, s);
    SlotBytesKept(files, base, i, r, st, st1, k, s);
    LoadSame(st.mem, st1.mem, a);
    if kind == FuncDescValue {
      LoadSame(st.mem, st1.mem, a + 4);
    } else if kind == FuncDesc && IsFunction(files, name) {
      if InPool(files, st.log, FuncDesc, name, LoadWord(st.mem, a)) {
        InPoolGrows(files, st.log, st1.log, FuncDesc, name, LoadWord(st.mem, a));
      }
    } else if IsData(kind) && IsObject(files, name) && NearestDefiner(files, k, name).None? {
      InPoolGrows(files, st.log, st1.log, GlobDat, name, LoadWord(st.mem, a));
    }
  }

  lemma {:induction false} ItemKept(files: seq<File>, m0: Memory, base: nat, i: nat, r: nat, st: LinkState, st1: LinkState, item: PoolItem)
    requires WellLinked(files, base) && Position(files, i, r)
    requires StepFrame(files, i, r, st, st1) && base <= st.pool
    requires ItemOk(files, m0, st.mem, base, st.pool, item)
    ensures ItemOk(files, m0, st1.mem, base, st1.pool, item)
  {
    assert SlotPlaced(files, base, i, r);
    var name := NameAt(files, item.file, item.rel);
    if RelAt(files, item.file, item.rel).kind == FuncDesc && FunctionOk(files, m0, base, name) {
      PairKept(files, m0, st.mem, st1.mem, name, item.addr);
    }
  }

  // ----- the new slot -----

  /** A slot that the pass has not reached still holds what was loaded there. */
  lemma {:induction false} SlotStillOld(files: seq<File>, m0: Memory, base: nat, i: nat, r: nat, st: LinkState)
    requires WellLinked(files, base) && Position(files, i, r) && LinkInv(files, m0, base, i, r, st)
    ensures Slot(files, i, r) + SlotSize(RelAt(files, i, r).kind) <= |m0|
    ensures LoadWord(st.mem, Slot(files, i, r)) == LoadWord(m0, Slot(files, i, r))
  {
    var a: nat := Slot(files, i, r);
    assert SlotPlaced(files, base, i, r);
    forall x | a <= x < a + 4
      ensures Untouched(files, i, r, base, st.pool, x)
    {
      forall k, s | Before(files, i, r, k, s)
        ensures !InSlot(files, k, s, x)
      {
        assert SlotPairApart(files, i, r, k, s);
      }
    }
    LoadSame(st.mem, m0, a);
  }

  lemma {:induction false} NewRelative(files: seq<File>, m0: Memory, base: nat, i: nat, r: nat, st: LinkState)
    requires WellLinked(files, base) && Position(files, i, r) && LinkInv(files, m0, base, i, r, st)
    requires RelAt(files, i, r).kind == Relative && LinkRel(files, i, r, st).Done?
    ensures RelativeSlotOk(files, m0, LinkRel(files, i, r, st).value.mem, i, r)
  {
    SlotStillOld(files, m0, base, i, r, st);
    var a := Slot(files, i, r);
    LoadStored(st.mem, a, RunAddr(files[i], LoadWord(st.mem, a)));
  }

  lemma {:induction false} ResolveSection(files: seq<File>, m: Memory, i: nat, r: nat)
    requires SymIndicesOk(files) && Position(files, i, r) && OnSection(files, i, r) && Resolve(files, m, i, r).Done?
    ensures Resolve(files, m, i, r) == FromSection(files[i], i, m, RelAt(files, i, r), SymAt(files, i, r))
  {
  }

  lemma {:induction false} SectionFilled(files: seq<File>, m0: Memory, i: nat, r: nat, st: LinkState)
    requires SymIndicesOk(files) && Position(files, i, r) && OnSection(files, i, r) && files[i].membase != 0
    requires LinkRel(files, i, r, st).Done? && |st.mem| == |m0| && Slot(files, i, r) + 8 <= |m0|
    requires LoadWord(st.mem, Slot(files, i, r)) == LoadWord(m0, Slot(files, i, r))
    ensures SectionSlotOk(files, m0, LinkRel(files, i, r, st).value.mem, i, r)
  {
    hide LoadWord, StoreWord, RunAddr, SymIndicesOk, Resolve;
    ResolveSection(files, st.mem, i, r);
    var res := Resolve(files, st.mem, i, r).value;
    PairStored(st.mem, Slot(files, i, r), Target(files, res), res.membase);
  }

  lemma {:induction false} NewSection(files: seq<File>, m0: Memory, base: nat, i: nat, r: nat, st: LinkState)
    requires WellLinked(files, base) && Position(files, i, r) && LinkInv(files, m0, base, i, r, st)
    requires OnSection(files, i, r) && LinkRel(files, i, r, st).Done?
    ensures SectionSlotOk(files, m0, LinkRel(files, i, r, st).value.mem, i, r)
  {
    SlotStillOld(files, m0, base, i, r, st);
    assert SlotPlaced(files, base, i, r);
    SectionFilled(files, m0, i, r, st);
  }

  lemma {:induction false} ResolveData(files: seq<File>, base: nat, i: nat, r: nat, st: LinkState)
    requires WellLinked(files, base) && Position(files, i, r) && LinkRel(files, i, r, st).Done?
    requires IsData(RelAt(files, i, r).kind) && IsObject(files, NameAt(files, i, r))
    ensures var res := Resolve(files, st.mem, i, r);
            res.Done? && DataFound(files, st.mem, i, r, i, NameAt(files, i, r), Unresolved(i), res.value)
  {
    NameSelectsIndex(files[i].syms.value, RelAt(files, i, r).sym, NameAt(files, i, r));
    SearchFileData(files, base, st.mem, i, r, i, RelAt(files, i, r).sym, r, Unresolved(i));
  }

  /** What the slot of an earlier data relocation holds is what this one needs. */
  lemma {:induction false} BorrowedData(files: seq<File>, m0: Memory, base: nat, i: nat, r: nat, st: LinkState, name: string, out: Resolution)
    requires SymIndicesOk(files) && Position(files, i, r) && SlotsDone(files, m0, base, st.mem, st.log, i, r)
    requires PoolOk(files, m0, st.mem, base, st.pool, st.log) && 0 < base
    requires IsObject(files, name) && ByDataSlot(files, st.mem, i, r, i, name, out)
    ensures out.ptr != 0
    ensures match NearestDefiner(files, i, name)
            case Some(j) => out.ptr == DataAddr(files, j, name)
            case None => InPool(files, st.log, GlobDat, name, out.ptr)
  {
    var q, t :| FromDataSlot(files, st.mem, i, r, i, q, t, name, out.ptr);
    assert SlotOk(files, m0, base, st.mem, st.log, q, t);
    if NearestDefiner(files, i, name).None? {
      var u :| 0 <= u < |st.log| && ItemFor(files, st.log[u], GlobDat, name) && st.log[u].addr == out.ptr;
      assert ItemOk(files, m0, st.mem, base, st.pool, st.log[u]);
    }
  }

  lemma {:induction false} DataFilled(files: seq<File>, i: nat, r: nat, st: LinkState, name: string, res: Resolution)
    requires SymIndicesOk(files) && Position(files, i, r) && name == NameAt(files, i, r)
    requires res.fileIdx < |files| && LinkData(files, i, r, st, res).Done?
    requires match NearestDefiner(files, i, name)
             case Some(j) => Target(files, res) == DataAddr(files, j, name)
             case None => InPool(files, st.log, GlobDat, name, Target(files, res))
    ensures DataSlotOk(files, LinkData(files, i, r, st, res).value.mem, st.log, i, r)
  {
    LoadStored(st.mem, Slot(files, i, r), Target(files, res));
  }

  lemma {:induction false} BlockFilled(files: seq<File>, i: nat, r: nat, st: LinkState, name: string, res: Resolution)
    requires SymIndicesOk(files) && Position(files, i, r) && name == NameAt(files, i, r)
    requires RelAt(files, i, r).kind == GlobDat && LinkBlock(files, i, r, st, res).Done?
    requires Nowhere(files, i, r, i, name, GlobDat, Unresolved(i), res)
    ensures var st1 := LinkBlock(files, i, r, st, res).value;
            DataSlotOk(files, st1.mem, st1.log, i, r) && BlockSized(files, Last(st1.log), name)
  {
    var size := res.matchSym.value.size;
    var st1 := LinkBlock(files, i, r, st, res).value;
    assert st1.log[|st.log|] == PoolItem(i, r, st.pool, size);
    assert ItemFor(files, st1.log[|st.log|], GlobDat, name);
    LoadStored(ZeroFill(st.mem, st.pool, size), Slot(files, i, r), st.pool);
  }

  lemma {:induction false} NewData(files: seq<File>, m0: Memory, base: nat, i: nat, r: nat, st: LinkState)
    requires WellLinked(files, base) && Position(files, i, r) && LinkInv(files, m0, base, i, r, st) && 0 < base
    requires IsData(RelAt(files, i, r).kind) && IsObject(files, NameAt(files, i, r)) && LinkRel(files, i, r, st).Done?
    ensures var st1 := LinkRel(files, i, r, st).value;
            && DataSlotOk(files, st1.mem, st1.log, i, r)
            && (st1.log != st.log ==>
                  && BlockSized(files, Last(st1.log), NameAt(files, i, r))
                  && forall q, t :: Before(files, i, r, q, t) ==> NameAt(files, q, t) != NameAt(files, i, r))
  {
    var name := NameAt(files, i, r);
    ResolveData(files, base, i, r, st);
    var res := Resolve(files, st.mem, i, r).value;
    if BySymbol(files, i, name, res) {
      DataFilled(files, i, r, st, name, res);
    } else if ByDataSlot(files, st.mem, i, r, i, name, res) {
      BorrowedData(files, m0, base, i, r, st, name, res);
      DataFilled(files, i, r, st, name, res);
    } else {
      BlockFilled(files, i, r, st, name, res);
    }
  }

  lemma {:induction false} ResolveFunc(files: seq<File>, base: nat, i: nat, r: nat, st: LinkState)
    requires WellLinked(files, base) && Position(files, i, r) && LinkRel(files, i, r, st).Done?
    requires IsFunc(RelAt(files, i, r).kind) && IsFunction(files, NameAt(files, i, r))
    ensures var res := Resolve(files, st.mem, i, r);
            res.Done? && FuncFound(files, st.mem, i, r, NameAt(files, i, r), res.value)
  {
    var rel := RelAt(files, i, r);
    NameSelectsIndex(files[i].syms.value, rel.sym, NameAt(files, i, r));
    if rel.kind == FuncDesc {
      SearchBelowFunc(files, base, st.mem, i, r, i, Unresolved(i));
    } else {
      SearchFileFunc(files, base, st.mem, i, r, i, rel.sym, r, Unresolved(i));
    }
  }

  /** A pool descriptor, or a FUNCDESC_VALUE slot of a finished file, is complete. */
  lemma {:induction false} FinishedDescriptor(files: seq<File>, m0: Memory, base: nat, i: nat, r: nat, st: LinkState, q: nat, name: string, p: Word)
    requires SymIndicesOk(files) && SlotsDone(files, m0, base, st.mem, st.log, i, r)
    requires PoolOk(files, m0, st.mem, base, st.pool, st.log) && FunctionOk(files, m0, base, name) && q < i
    requires InPool(files, st.log, FuncDesc, name, p) || IsDescSlot(files, q, name, p)
    ensures PairAt(files, m0, st.mem, name, p)
    ensures p >= base || exists k, s :: Before(files, i, r, k, s) && k <= q && DescSlotAt(files, q, name, p, k, s)
  {
    if InPool(files, st.log, FuncDesc, name, p) {
      var u :| 0 <= u < |st.log| && ItemFor(files, st.log[u], FuncDesc, name) && st.log[u].addr == p;
      assert ItemOk(files, m0, st.mem, base, st.pool, st.log[u]);
    } else {
      var k, s :| Position(files, k, s) && DescSlotAt(files, q, name, p, k, s);
      assert Before(files, i, r, k, s);
      assert SlotOk(files, m0, base, st.mem, st.log, k, s);
    }
  }

  /** What a FUNCDESC of an earlier file points at can be pointed at again. */
  lemma {:induction false} BorrowedFuncDesc(files: seq<File>, m0: Memory, base: nat, i: nat, r: nat, st: LinkState, q: nat,
                                        t: nat, name: string, p: Word)
    requires SymIndicesOk(files) && SlotsDone(files, m0, base, st.mem, st.log, i, r)
    requires IsFunction(files, name) && FromFuncDesc(files, st.mem, i, q, t, name, p)
    ensures (InPool(files, st.log, FuncDesc, name, p) && !HasNoMemory(files, name)) || IsDescSlot(files, q, name, p) || AtCode(files, name, p)
    ensures IsDescSlot(files, q, name, p) ==> IsDescSlot(files, i, name, p)
  {
    assert Before(files, i, r, q, t);
    assert SlotOk(files, m0, base, st.mem, st.log, q, t);
    if IsDescSlot(files, q, name, p) {
      var k, s :| Position(files, k, s) && DescSlotAt(files, q, name, p, k, s);
      assert DescSlotAt(files, i, name, p, k, s);
    }
  }

  /** The words at the link address of a function without memory are still those that
      were there before the link. */
  lemma {:induction false} CodeStillThere(files: seq<File>, m0: Memory, base: nat, i: nat, r: nat, st: LinkState, name: string, p: nat)
    requires SymIndicesOk(files) && LinkInv(files, m0, base, i, r, st) && FunctionOk(files, m0, base, name)
    requires AtCode(files, name, p) && p + 8 <= |m0|
    ensures PairAt(files, m0, st.mem, name, p)
    ensures forall k, s :: Position(files, k, s) ==> Apart(p, 8, Slot(files, k, s), SlotSize(RelAt(files, k, s).kind))
  {
    hide SlotsDone, PoolOk, IsFunction, NearestDefiner, Slot;
    forall x | p <= x < p + 8
      ensures st.mem[x] == m0[x]
    {
      assert Untouched(files, i, r, base, st.pool, x);
    }
    LoadSame(m0, st.mem, p);
    LoadSame(m0, st.mem, p + 4);
  }

  /** Copying such a pair into a FUNCDESC_VALUE slot makes one there. */
  lemma {:induction false} PairCopied(files: seq<File>, m0: Memory, m: Memory, name: string, p: nat, dst: nat)
    requires PairAt(files, m0, m, name, p) && dst + 8 <= |m| && (p >= dst + 8 || p + 8 <= dst)
    ensures var m1 := StoreWord(m, dst, LoadWord(m, p));
            PairAt(files, m0, StoreWord(m1, dst + 4, LoadWord(m1, p + 4)), name, dst)
  {
    var m1 := StoreWord(m, dst, LoadWord(m, p));
    StoreElsewhere(m, dst, LoadWord(m, p));
    LoadSame(m, m1, p + 4);
    PairStored(m, dst, LoadWord(m, p), LoadWord(m, p + 4));
  }

  lemma {:induction false} SlotsAreApart(files: seq<File>, base: nat, i: nat, r: nat, k: nat, s: nat)
    requires WellLinked(files, base) && Position(files, i, r) && Position(files, k, s) && (i != k || r != s)
    ensures SlotPairApart(files, i, r, k, s)
  {
  }

  lemma {:induction false} CopyFromFuncDesc(files: seq<File>, m0: Memory, base: nat, i: nat, r: nat, st: LinkState, q: nat,
                                        t: nat, name: string, p: Word)
    requires WellLinked(files, base) && Position(files, i, r) && LinkInv(files, m0, base, i, r, st)
    requires RelAt(files, i, r).kind == FuncDescValue && p + 8 <= |m0|
    requires FunctionOk(files, m0, base, name) && FromFuncDesc(files, st.mem, i, q, t, name, p)
    ensures PairAt(files, m0, st.mem, name, p)
    ensures p >= Slot(files, i, r) + 8 || p + 8 <= Slot(files, i, r)
  {
    assert SymIndicesOk(files) && SlotPlaced(files, base, i, r);
    hide WellLinked, SlotOk, ItemOk, FunctionOk;
    BorrowedFuncDesc(files, m0, base, i, r, st, q, t, name, p);
    if AtCode(files, name, p) {
      CodeStillThere(files, m0, base, i, r, st, name, p);
    } else {
      FinishedDescriptor(files, m0, base, i, r, st, q, name, p);
      if p < base {
        var k: nat, s: nat :| Before(files, i, r, k, s) && k <= q && DescSlotAt(files, q, name, p, k, s);
        SlotsAreApart(files, base, i, r, k, s);
      }
    }
  }

  /** Whatever two words a FUNCDESC_VALUE slot is given a copy of, they are a pair for
      the function, apart from the slot. */
  lemma {:induction false} CopyFrom(files: seq<File>, m0: Memory, base: nat, i: nat, r: nat, st: LinkState, name: string, out: Resolution)
    requires WellLinked(files, base) && Position(files, i, r) && LinkInv(files, m0, base, i, r, st)
    requires RelAt(files, i, r).kind == FuncDescValue && FunctionOk(files, m0, base, name)
    requires FuncFound(files, st.mem, i, r, name, out) && out.membase == 0 && out.ptr + 8 <= |st.mem|
    ensures PairAt(files, m0, st.mem, name, out.ptr)
    ensures out.ptr >= Slot(files, i, r) + 8 || out.ptr + 8 <= Slot(files, i, r)
  {
    hide NearestDefiner, SymNamed, RunAddr, IsFunction, CodeApart, ItemOk, SectionSlotOk, DataSlotOk, LoadWord, FirstMention, SymIndicesOk;
    if BySymbol(files, |files| - 1, name, out) {
      CodeStillThere(files, m0, base, i, r, st, name, out.ptr);
    } else if q: nat, t: nat :| FromDescSlot(files, i, r, q, t, name, out.ptr) {
      assert SlotOk(files, m0, base, st.mem, st.log, q, t);
      assert SlotPairApart(files, i, r, q, t);
    } else {
      var q: nat, t: nat :| FromFuncDesc(files, st.mem, i, q, t, name, out.ptr);
      CopyFromFuncDesc(files, m0, base, i, r, st, q, t, name, out.ptr);
    }
  }

  lemma {:induction false} FilledBySymbol(files: seq<File>, m0: Memory, i: nat, r: nat, st: LinkState, name: string, res: Resolution)
    requires SymIndicesOk(files) && Position(files, i, r) && IsFunction(files, name) && res.membase != 0
    requires BySymbol(files, |files| - 1, name, res) && LinkFuncDescValue(files, i, r, st, res).Done?
    ensures PairAt(files, m0, LinkFuncDescValue(files, i, r, st, res).value.mem, name, Slot(files, i, r))
  {
    PairStored(st.mem, Slot(files, i, r), Target(files, res), res.membase);
  }

  lemma {:induction false} FilledByCopy(files: seq<File>, m0: Memory, i: nat, r: nat, st: LinkState, name: string, res: Resolution)
    requires Position(files, i, r) && res.fileIdx < |files| && LinkFuncDescValue(files, i, r, st, res).Done?
    requires res.membase == 0 && PairAt(files, m0, st.mem, name, res.ptr)
    requires res.ptr >= Slot(files, i, r) + 8 || res.ptr + 8 <= Slot(files, i, r)
    ensures PairAt(files, m0, LinkFuncDescValue(files, i, r, st, res).value.mem, name, Slot(files, i, r))
  {
    hide LoadWord, StoreWord, PairAt, Slot;
    PairCopied(files, m0, st.mem, name, res.ptr, Slot(files, i, r));
  }

  lemma {:induction false} NewFuncDescValue(files: seq<File>, m0: Memory, base: nat, i: nat, r: nat, st: LinkState)
    requires WellLinked(files, base) && Position(files, i, r) && LinkInv(files, m0, base, i, r, st)
    requires RelAt(files, i, r).kind == FuncDescValue && LinkRel(files, i, r, st).Done?
    requires FunctionOk(files, m0, base, NameAt(files, i, r))
    ensures PairAt(files, m0, LinkRel(files, i, r, st).value.mem, NameAt(files, i, r), Slot(files, i, r))
  {
    var name := NameAt(files, i, r);
    ResolveFunc(files, base, i, r, st);
    var res := Resolve(files, st.mem, i, r).value;
    if res.membase != 0 {
      FilledBySymbol(files, m0, i, r, st, name, res);
    } else {
      CopyFrom(files, m0, base, i, r, st, name, res);
      FilledByCopy(files, m0, i, r, st, name, res);
    }
  }

  lemma {:induction false} NewFuncDesc(files: seq<File>, m0: Memory, base: nat, i: nat, r: nat, st: LinkState)
    requires WellLinked(files, base) && Position(files, i, r) && LinkInv(files, m0, base, i, r, st)
    requires RelAt(files, i, r).kind == FuncDesc && IsFunction(files, NameAt(files, i, r)) && LinkRel(files, i, r, st).Done?
    ensures var st1 := LinkRel(files, i, r, st).value;
            && FuncDescSlotOk(files, st1.mem, st1.log, i, r)
            && (st1.log != st.log ==> PairAt(files, m0, st1.mem, NameAt(files, i, r), st.pool))
  {
    hide LoadWord, StoreWord, NearestDefiner, SymNamed, IsFunction, CodeApart, PoolOk, SlotsDone, OthersKept, SymIndicesOk, Resolve;
    var name, a := NameAt(files, i, r), Slot(files, i, r);
    var st1 := LinkRel(files, i, r, st).value;
    ResolveFunc(files, base, i, r, st);
    assert SlotPlaced(files, base, i, r);
    var res := Resolve(files, st.mem, i, r).value;
    if res.membase != 0 {
      var m := WritePair(st.mem, st.pool, Target(files, res), res.membase).value;
      PairStored(st.mem, st.pool, Target(files, res), res.membase);
      LoadStored(m, a, st.pool);
      StoreElsewhere(m, a, st.pool);
      PairKept(files, m0, m, st1.mem, name, st.pool);
      assert st1.log[|st.log|] == PoolItem(i, r, st.pool, 8);
      assert ItemFor(files, st1.log[|st.log|], FuncDesc, name);
    } else {
      LoadStored(st.mem, a, res.ptr);
      if BySymbol(files, |files| - 1, name, res) {
        assert AtCode(files, name, res.ptr);
      } else if q: nat, t: nat :| FromDescSlot(files, i, r, q, t, name, res.ptr) {
        assert IsDescSlot(files, i, name, res.ptr);
      } else {
        var q: nat, t: nat :| FromFuncDesc(files, st.mem, i, q, t, name, res.ptr);
        BorrowedFuncDesc(files, m0, base, i, r, st, q, t, name, res.ptr);
      }
    }
  }

  // ----- the whole pass -----

  lemma {:induction false} NewSlot(files: seq<File>, m0: Memory, base: nat, i: nat, r: nat, st: LinkState)
    requires WellLinked(files, base) && Position(files, i, r) && LinkInv(files, m0, base, i, r, st) && MemoryOk(m0, base)
    requires LinkRel(files, i, r, st).Done?
    ensures var st1 := LinkRel(files, i, r, st).value;
            && SlotOk(files, m0, base, st1.mem, st1.log, i, r)
            && (st1.log != st.log ==>
                  && ItemOk(files, m0, st1.mem, base, st1.pool, Last(st1.log))
                  && forall t :: 0 <= t < |st.log| ==> !SameBlock(files, st.log[t], Last(st1.log)))
  {
    var st1, name, kind := LinkRel(files, i, r, st).value, NameAt(files, i, r), RelAt(files, i, r).kind;
    StepKeepsFrame(files, base, i, r, st);
    if IsData(kind) && IsObject(files, name) {
      NewData(files, m0, base, i, r, st);
    } else if kind == Relative {
      NewRelative(files, m0, base, i, r, st);
    } else if OnSection(files, i, r) {
      NewSection(files, m0, base, i, r, st);
    } else if kind == FuncDesc && IsFunction(files, name) {
      NewFuncDesc(files, m0, base, i, r, st);
    } else if kind == FuncDescValue && FunctionOk(files, m0, base, name) {
      NewFuncDescValue(files, m0, base, i, r, st);
    }
  }

  lemma FrameSizes(files: seq<File>, i: nat, r: nat, st: LinkState, st1: LinkState)
    requires Position(files, i, r) && StepFrame(files, i, r, st, st1)
    ensures |st1.mem| == |st.mem| && st.pool <= st1.pool <= |st.mem| && st1.size - st.size == st1.pool - st.pool
    ensures st1.log == st.log || (st1.log == st.log + [Last(st1.log)] && Last(st1.log).file == i && Last(st1.log).rel == r &&
                                  Last(st1.log).addr == st.pool)
  {
  }

  lemma {:induction false} SlotsNext(files: seq<File>, m0: Memory, base: nat, i: nat, r: nat, st: LinkState, st1: LinkState)
    requires WellLinked(files, base) && Position(files, i, r) && base <= st.pool && StepFrame(files, i, r, st, st1)
    requires SlotsDone(files, m0, base, st.mem, st.log, i, r) && SlotOk(files, m0, base, st1.mem, st1.log, i, r)
    ensures SlotsDone(files, m0, base, st1.mem, st1.log, i, r + 1)
  {
    hide SlotOk, StepFrame, SlotPlaced, SlotsApart;
    forall k, s | Before(files, i, r + 1, k, s)
      ensures SlotOk(files, m0, base, st1.mem, st1.log, k, s)
    {
      if k != i || s != r {
        assert Before(files, i, r, k, s);
        SlotKept(files, base, m0, i, r, st, st1, k, s);
      }
    }
  }

  lemma {:induction false} ItemsNext(files: seq<File>, m0: Memory, base: nat, i: nat, r: nat, st: LinkState, st1: LinkState)
    requires WellLinked(files, base) && Position(files, i, r) && base <= st.pool && StepFrame(files, i, r, st, st1)
    requires PoolOk(files, m0, st.mem, base, st.pool, st.log)
    requires forall t :: 0 <= t < |st.log| ==> Before(files, i, r, st.log[t].file, st.log[t].rel)
    requires st1.log != st.log ==>
               && ItemOk(files, m0, st1.mem, base, st1.pool, Last(st1.log))
               && forall t :: 0 <= t < |st.log| ==> !SameBlock(files, st.log[t], Last(st1.log))
    ensures PoolOk(files, m0, st1.mem, base, st1.pool, st1.log)
    ensures forall t :: 0 <= t < |st1.log| ==> Before(files, i, r + 1, st1.log[t].file, st1.log[t].rel)
  {
    FrameSizes(files, i, r, st, st1);
    hide StepFrame, WellLinked, SameBlock, PairAt, FunctionOk, BlockSized;
    forall t | 0 <= t < |st1.log|
      ensures ItemOk(files, m0, st1.mem, base, st1.pool, st1.log[t])
      ensures Before(files, i, r + 1, st1.log[t].file, st1.log[t].rel)
    {
      if t < |st.log| {
        assert st1.log[t] == st.log[t];
        ItemKept(files, m0, base, i, r, st, st1, st.log[t]);
      }
    }
  }

  lemma {:induction false} OthersNext(files: seq<File>, m0: Memory, base: nat, i: nat, r: nat, st: LinkState, st1: LinkState)
    requires Position(files, i, r) && StepFrame(files, i, r, st, st1) && |st.mem| == |m0|
    requires base <= st.pool && OthersKept(files, m0, st.mem, i, r, base, st.pool)
    ensures |st1.mem| == |m0| && OthersKept(files, m0, st1.mem, i, r + 1, base, st1.pool)
  {
    hide InSlot;
    forall x | 0 <= x < |m0| && Untouched(files, i, r + 1, base, st1.pool, x)
      ensures st1.mem[x] == m0[x]
    {
      assert Before(files, i, r + 1, i, r);
      assert Untouched(files, i, r, base, st.pool, x) by {
        forall k, s | Before(files, i, r, k, s)
          ensures !InSlot(files, k, s, x)
        {
          assert Before(files, i, r + 1, k, s);
        }
      }
    }
  }

  lemma {:induction false} StepKeepsInv(files: seq<File>, m0: Memory, base: nat, i: nat, r: nat, st: LinkState)
    requires WellLinked(files, base) && Position(files, i, r) && LinkInv(files, m0, base, i, r, st) && MemoryOk(m0, base)
    requires LinkRel(files, i, r, st).Done?
    ensures LinkInv(files, m0, base, i, r + 1, LinkRel(files, i, r, st).value)
  {
    var st1 := LinkRel(files, i, r, st).value;
    StepKeepsFrame(files, base, i, r, st);
    NewSlot(files, m0, base, i, r, st);
    hide LinkRel, WellLinked, StepFrame, SlotsDone, SlotOk, ItemOk, ItemsApart, OthersKept, SameBlock, MemoryOk;
    FrameSizes(files, i, r, st, st1);
    SlotsNext(files, m0, base, i, r, st, st1);
    ItemsNext(files, m0, base, i, r, st, st1);
    OthersNext(files, m0, base, i, r, st, st1);
  }

  lemma {:induction false} NextFile(files: seq<File>, m0: Memory, base: nat, i: nat, st: LinkState)
    requires SymIndicesOk(files) && i < |files| && LinkInv(files, m0, base, i, Visits(files[i]), st)
    ensures LinkInv(files, m0, base, i + 1, 0, st)
  {
    var r := Visits(files[i]);
    forall k, s ensures Before(files, i + 1, 0, k, s) <==> Before(files, i, r, k, s) {}
    forall x | 0 <= x < |m0| && Untouched(files, i + 1, 0, base, st.pool, x)
      ensures Untouched(files, i, r, base, st.pool, x)
    {
    }
  }

  lemma {:induction false} FirstState(files: seq<File>, m0: Memory, base: nat)
    requires SymIndicesOk(files) && MemoryOk(m0, base)
    ensures StateAt(files, m0, base, 0, 0) == Done(LinkState(m0, base, 0, []))
    ensures LinkInv(files, m0, base, 0, 0, LinkState(m0, base, 0, []))
  {
  }

  lemma {:induction false} PriorState(files: seq<File>, m0: Memory, base: nat, i: nat, r: nat)
    requires SymIndicesOk(files) && Position(files, i, r) && StateAt(files, m0, base, i, r + 1).Done?
    ensures StateAt(files, m0, base, i, r).Done?
    ensures LinkRel(files, i, r, StateAt(files, m0, base, i, r).value) == StateAt(files, m0, base, i, r + 1)
  {
  }

  lemma {:induction false} PriorFileState(files: seq<File>, m0: Memory, base: nat, i: nat)
    requires SymIndicesOk(files) && i < |files| && StateAt(files, m0, base, i + 1, 0).Done?
    ensures StateAt(files, m0, base, i, Visits(files[i])) == StateAt(files, m0, base, i + 1, 0)
  {
  }

  lemma {:induction false} IndicesOk(files: seq<File>, base: nat)
    requires WellLinked(files, base)
    ensures SymIndicesOk(files)
  {
  }

  /** Every state of a pass that has not failed satisfies the invariant. */
  lemma {:induction false} EveryState(files: seq<File>, m0: Memory, base: nat, i: nat, r: nat) returns (st: LinkState)
    requires WellLinked(files, base) && MemoryOk(m0, base) && Stage(files, i, r)
    requires StateAt(files, m0, base, i, r).Done?
    ensures StateAt(files, m0, base, i, r) == Done(st) && LinkInv(files, m0, base, i, r, st)
    decreases i, r
  {
    hide LinkRel, WellLinked, LinkInv, StateAt, SymIndicesOk, MemoryOk;
    IndicesOk(files, base);
    if r > 0 {
      PriorState(files, m0, base, i, r - 1);
      var prior := EveryState(files, m0, base, i, r - 1);
      st := LinkRel(files, i, r - 1, prior).value;
      StepKeepsInv(files, m0, base, i, r - 1, prior);
    } else if i > 0 {
      PriorFileState(files, m0, base, i - 1);
      st := EveryState(files, m0, base, i - 1, Visits(files[i - 1]));
      NextFile(files, m0, base, i - 1, st);
    } else {
      st := LinkState(m0, base, 0, []);
      FirstState(files, m0, base);
    }
  }
}
