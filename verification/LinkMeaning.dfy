/** What a finished link has to look like, and what well-linked files are.
    Nothing here follows the search of `uld_dyn_resolve_rel`. */
module LinkMeaning {
  import opened Words
  import opened Options
  import opened SymbolTable
  import opened Sections
  import opened LinkSpec

  predicate IsData(kind: RelKind) {
    kind == Abs32 || kind == GlobDat
  }

  predicate IsFunc(kind: RelKind) {
    kind == FuncDesc || kind == FuncDescValue
  }

  /** The symbol of relocation `(i, r)` is a section, not a name. */
  predicate OnSection(files: seq<File>, i: nat, r: nat)
    requires SymIndicesOk(files) && Position(files, i, r)
  {
    RelAt(files, i, r).kind == FuncDescValue && SymAt(files, i, r).ty == SectionSym
  }

  predicate Mentions(f: File, name: string) {
    HasTables(f) && FindSym(f.syms.value, name).Some?
  }

  function SymNamed(f: File, name: string): Sym
    requires Mentions(f, name)
  {
    f.syms.value[FindSym(f.syms.value, name).value]
  }

  predicate Defines(f: File, name: string) {
    Mentions(f, name) && Defined(SymNamed(f, name))
  }

  /** The last file at or before `k` that defines `name`. */
  function NearestDefiner(files: seq<File>, k: int, name: string): (d: Option<nat>)
    requires k < |files|
    ensures d.Some? ==> d.value <= k && Defines(files[d.value], name) &&
                        forall j :: d.value < j <= k ==> !Defines(files[j], name)
    ensures d.None? ==> forall j :: 0 <= j <= k ==> !Defines(files[j], name)
  {
    if k < 0 then None
    else if Defines(files[k], name) then Some(k)
    else NearestDefiner(files, k - 1, name)
  }

  /** The first file, at or before `k`, whose symbol table has `name`. */
  function FirstMention(files: seq<File>, k: int, name: string): (d: Option<nat>)
    requires k < |files|
    ensures d.Some? ==> d.value <= k && Mentions(files[d.value], name) &&
                        forall j :: 0 <= j < d.value ==> !Mentions(files[j], name)
    ensures d.None? ==> forall j :: 0 <= j <= k ==> !Mentions(files[j], name)
  {
    if k < 0 then None
    else
      match FirstMention(files, k - 1, name)
      case Some(j) => Some(j)
      case None => if Mentions(files[k], name) then Some(k) else None
  }

  /** The address the linker gives to a data symbol of file `j`.  It is the
      symbol's run address when the file has memory; see DataSlotIsRunAddr in LinkTheorems. */
  function DataAddr(files: seq<File>, j: nat, name: string): Word
    requires j < |files| && Defines(files[j], name)
  {
    var sym := SymNamed(files[j], name);
    if files[j].membase != 0 then RunAddr(files[j], sym.value) else sym.value
  }

  // ----- well-linked files -----

  function SlotSize(kind: RelKind): nat {
    if kind == FuncDescValue then 8 else 4
  }

  /** The slots of two relocations share no byte. */
  ghost predicate SlotPairApart(files: seq<File>, i: nat, r: nat, k: nat, s: nat)
    requires Position(files, i, r) && Position(files, k, s)
  {
    || Slot(files, i, r) + SlotSize(RelAt(files, i, r).kind) <= Slot(files, k, s)
    || Slot(files, k, s) + SlotSize(RelAt(files, k, s).kind) <= Slot(files, i, r)
  }

  ghost predicate SlotsApart(files: seq<File>) {
    forall i, r, k, s {:trigger SlotPairApart(files, i, r, k, s)} ::
      Position(files, i, r) && Position(files, k, s) && (i != k || r != s) ==> SlotPairApart(files, i, r, k, s)
  }

  /** The file has memory, and the slot lies in one of its loaded memory sections,
      below the pool. */
  ghost predicate SlotPlaced(files: seq<File>, base: nat, i: nat, r: nat)
    requires Position(files, i, r)
  {
    var f, rel := files[i], RelAt(files, i, r);
    var x := FindSection(f.mem, ByLma, AnySection, rel.offset);
    && f.membase != 0 && 0 < Slot(files, i, r) && Slot(files, i, r) + SlotSize(rel.kind) <= base
    && x.Some? && SectionRunAddr(f.mem[x.value], rel.offset) == Slot(files, i, r)
  }

  /** Relocations refer to entries of the symbol table, names tell symbols apart,
      and section symbols have no name. */
  ghost predicate SymbolsOk(files: seq<File>) {
    && SymIndicesOk(files)
    && forall j :: 0 <= j < |files| && files[j].syms.Some? ==>
         DistinctNames(files[j].syms.value) && SectionsNameless(files[j].syms.value)
  }

  /** Moreover, a file with relocations has all dynamic tables. */
  ghost predicate TablesOk(files: seq<File>) {
    SymbolsOk(files) && forall j :: 0 <= j < |files| && files[j].rels.Some? ==> HasTables(files[j])
  }

  ghost predicate SectionsNameless(syms: seq<Sym>) {
    forall x :: 0 <= x < |syms| && syms[x].ty == SectionSym ==> syms[x].name == ""
  }

  /** `name` is an object: only data relocations refer to it, and each of its
      definitions has an address. */
  ghost predicate IsObject(files: seq<File>, name: string)
    requires SymIndicesOk(files)
  {
    && name != ""
    && (forall k, s {:trigger Position(files, k, s)} :: Position(files, k, s) && NameAt(files, k, s) == name ==>
          !IsFunc(RelAt(files, k, s).kind))
    && (forall j {:trigger Defines(files[j], name)} :: 0 <= j < |files| && Defines(files[j], name) ==>
          SymNamed(files[j], name).value != 0 && DataAddr(files, j, name) != 0)
  }

  /** `name` is a function: only function relocations refer to it, and exactly one
      file defines it, at or before every file that refers to it. */
  ghost predicate IsFunction(files: seq<File>, name: string)
    requires SymIndicesOk(files)
  {
    var d := NearestDefiner(files, |files| - 1, name);
    && name != "" && d.Some? && SymNamed(files[d.value], name).value != 0
    && (forall k, s {:trigger Position(files, k, s)} :: Position(files, k, s) && NameAt(files, k, s) == name ==>
          d.value <= k && !IsData(RelAt(files, k, s).kind))
    && (forall j {:trigger Defines(files[j], name)} :: 0 <= j < |files| && Defines(files[j], name) ==> j == d.value)
  }

  /** The two words at the link address of the definer's symbol, which a link reads
      when that file has no memory, are not among those it writes. */
  ghost predicate CodeApart(files: seq<File>, m0: Memory, base: nat, name: string) {
    var d := NearestDefiner(files, |files| - 1, name);
    d.Some? && files[d.value].membase == 0 ==>
      var v := SymNamed(files[d.value], name).value;
      && (v + 8 <= base || |m0| < v + 8)
      && forall k, s :: Position(files, k, s) ==> Apart(v, 8, Slot(files, k, s), SlotSize(RelAt(files, k, s).kind))
  }

  ghost predicate FunctionOk(files: seq<File>, m0: Memory, base: nat, name: string)
    requires SymIndicesOk(files)
  {
    IsFunction(files, name) && CodeApart(files, m0, base, name)
  }

  /** Slots lie in loaded memory below the pool and do not overlap, and tables are
      complete. */
  ghost predicate WellLinked(files: seq<File>, base: nat) {
    && TablesOk(files) && SlotsApart(files)
    && forall i, r :: Position(files, i, r) ==> SlotPlaced(files, base, i, r)
  }

  /** Memory is made of whole doublewords below the top of the address space,
      and the pool starts inside it. */
  predicate MemoryOk(m: Memory, base: nat) {
    |m| % 8 == 0 && |m| < WORD_LIMIT && 0 < base <= |m|
  }

  // ----- what holds of a patched slot -----

  ghost predicate ItemFor(files: seq<File>, item: PoolItem, kind: RelKind, name: string)
    requires SymIndicesOk(files)
  {
    Position(files, item.file, item.rel) && RelAt(files, item.file, item.rel).kind == kind &&
    NameAt(files, item.file, item.rel) == name
  }

  /** `w` is the address of a pool item of that kind for `name`. */
  ghost predicate InPool(files: seq<File>, log: seq<PoolItem>, kind: RelKind, name: string, w: nat)
    requires SymIndicesOk(files)
  {
    exists t :: 0 <= t < |log| && ItemFor(files, log[t], kind, name) && log[t].addr == w
  }

  /** The two words at `p` are the descriptor of function `name`: where its
      definer's code runs and the definer's memory base. */
  ghost predicate DescriptorAt(files: seq<File>, m: Memory, name: string, p: nat)
  {
    var d := NearestDefiner(files, |files| - 1, name);
    && d.Some? && p + 8 <= |m|
    && LoadWord(m, p) == RunAddr(files[d.value], SymNamed(files[d.value], name).value)
    && LoadWord(m, p + 4) == files[d.value].membase
  }

  /** The two words at `p` are what a link makes of a descriptor of `name`: that
      descriptor if the definer has memory, and otherwise a copy of the two words that
      `m0` holds at the link address of the function. */
  ghost predicate PairAt(files: seq<File>, m0: Memory, m: Memory, name: string, p: nat)
  {
    var d := NearestDefiner(files, |files| - 1, name);
    && d.Some? && p + 8 <= |m|
    && var f, v := files[d.value], SymNamed(files[d.value], name).value;
       if f.membase != 0 then LoadWord(m, p) == RunAddr(f, v) && LoadWord(m, p + 4) == f.membase
       else v + 8 <= |m0| && LoadWord(m, p) == LoadWord(m0, v) && LoadWord(m, p + 4) == LoadWord(m0, v + 4)
  }

  /** The definer of function `name` has no memory. */
  predicate HasNoMemory(files: seq<File>, name: string) {
    var d := NearestDefiner(files, |files| - 1, name);
    d.Some? && files[d.value].membase == 0
  }

  /** `p` is the link address of function `name`, whose definer has no memory. */
  ghost predicate AtCode(files: seq<File>, name: string, p: nat) {
    HasNoMemory(files, name) && p == SymNamed(files[NearestDefiner(files, |files| - 1, name).value], name).value
  }

  ghost predicate DataSlotOk(files: seq<File>, m: Memory, log: seq<PoolItem>, i: nat, r: nat)
    requires SymIndicesOk(files) && Position(files, i, r)
  {
    var name := NameAt(files, i, r);
    Slot(files, i, r) + 4 <= |m| &&
    var w := LoadWord(m, Slot(files, i, r));
    match NearestDefiner(files, i, name)
    case Some(j) => w == DataAddr(files, j, name)
    case None => InPool(files, log, GlobDat, name, w)
  }

  ghost predicate RelativeSlotOk(files: seq<File>, m0: Memory, m: Memory, i: nat, r: nat)
    requires Position(files, i, r)
  {
    var a := Slot(files, i, r);
    a + 4 <= |m| == |m0| && LoadWord(m, a) == RunAddr(files[i], LoadWord(m0, a))
  }

  /** `p` is the slot of a FUNCDESC_VALUE for `name` in some file up to `i`. */
  ghost predicate IsDescSlot(files: seq<File>, i: nat, name: string, p: nat)
    requires SymIndicesOk(files)
  {
    exists k, s :: Position(files, k, s) && DescSlotAt(files, i, name, p, k, s)
  }

  predicate DescSlotAt(files: seq<File>, i: nat, name: string, p: nat, k: nat, s: nat)
    requires SymIndicesOk(files) && Position(files, k, s)
  {
    k <= i && RelAt(files, k, s).kind == FuncDescValue && !OnSection(files, k, s) &&
    NameAt(files, k, s) == name && Slot(files, k, s) == p
  }

  /** A FUNCDESC points at a pool descriptor, at a FUNCDESC_VALUE slot that is or
      will be filled by the end of its file, or at the function's link address. */
  ghost predicate FuncDescSlotOk(files: seq<File>, m: Memory, log: seq<PoolItem>, i: nat, r: nat)
    requires SymIndicesOk(files) && Position(files, i, r)
  {
    var name := NameAt(files, i, r);
    Slot(files, i, r) + 4 <= |m| &&
    var p := LoadWord(m, Slot(files, i, r));
    (InPool(files, log, FuncDesc, name, p) && !HasNoMemory(files, name)) || IsDescSlot(files, i, name, p) || AtCode(files, name, p)
  }

  ghost predicate SectionSlotOk(files: seq<File>, m0: Memory, m: Memory, i: nat, r: nat)
    requires SymIndicesOk(files) && Position(files, i, r)
  {
    var a := Slot(files, i, r);
    var x := SectionWithIndex(AllSections(files[i]), SymAt(files, i, r).shndx);
    && x.Some? && a + 8 <= |m| == |m0|
    && LoadWord(m, a) == RunAddr(files[i], Wrap(LoadWord(m0, a) + AllSections(files[i])[x.value].lma))
    && LoadWord(m, a + 4) == files[i].membase
  }

  ghost predicate SlotOk(files: seq<File>, m0: Memory, base: nat, m: Memory, log: seq<PoolItem>, i: nat, r: nat)
    requires SymIndicesOk(files) && Position(files, i, r)
  {
    var name := NameAt(files, i, r);
    match RelAt(files, i, r).kind
    case Relative => RelativeSlotOk(files, m0, m, i, r)
    case FuncDesc => IsFunction(files, name) ==> FuncDescSlotOk(files, m, log, i, r)
    case FuncDescValue =>
      if OnSection(files, i, r) then SectionSlotOk(files, m0, m, i, r)
      else FunctionOk(files, m0, base, name) ==> PairAt(files, m0, m, name, Slot(files, i, r))
    case OtherRel => false
    case _ => IsObject(files, name) ==> DataSlotOk(files, m, log, i, r)
  }

  // ----- what holds of the pool -----

  /** The pool item is inside `[base, pool)`; a block is zero and has the size of
      the object in the first file that mentions it, a descriptor is complete. */
  ghost predicate ItemOk(files: seq<File>, m0: Memory, m: Memory, base: nat, pool: nat, item: PoolItem)
    requires SymIndicesOk(files)
  {
    && base <= item.addr && item.addr + item.size <= pool <= |m|
    && Position(files, item.file, item.rel)
    && var name := NameAt(files, item.file, item.rel);
       if RelAt(files, item.file, item.rel).kind == GlobDat then
         && (forall x :: item.addr <= x < item.addr + item.size ==> m[x] == 0)
         && (IsObject(files, name) ==> BlockSized(files, item, name))
       else
         && RelAt(files, item.file, item.rel).kind == FuncDesc && item.size == 8
         && (FunctionOk(files, m0, base, name) ==> PairAt(files, m0, m, name, item.addr))
  }

  ghost predicate BlockSized(files: seq<File>, item: PoolItem, name: string)
    requires item.file < |files|
  {
    var first := FirstMention(files, item.file, name);
    && NearestDefiner(files, item.file, name).None?
    && first.Some? && item.size == SymNamed(files[first.value], name).size
  }

  /** Pool items do not overlap, and no two blocks are for the same object. */
  ghost predicate ItemsApart(files: seq<File>, log: seq<PoolItem>)
    requires SymIndicesOk(files)
  {
    forall t, u :: 0 <= t < u < |log| ==>
      log[t].addr + log[t].size <= log[u].addr && !SameBlock(files, log[t], log[u])
  }

  ghost predicate SameBlock(files: seq<File>, a: PoolItem, b: PoolItem)
    requires SymIndicesOk(files)
  {
    Position(files, a.file, a.rel) && IsObject(files, NameAt(files, a.file, a.rel)) &&
    ItemFor(files, a, GlobDat, NameAt(files, a.file, a.rel)) && ItemFor(files, b, GlobDat, NameAt(files, a.file, a.rel))
  }

  // ----- how far the pass has come -----

  /** Relocation `(k, s)` comes before `(i, r)` in the pass. */
  predicate Before(files: seq<File>, i: nat, r: nat, k: int, s: int) {
    Position(files, k, s) && (k < i || (k == i && s < r))
  }

  predicate InSlot(files: seq<File>, k: nat, s: nat, x: int)
    requires Position(files, k, s)
  {
    Slot(files, k, s) <= x < Slot(files, k, s) + SlotSize(RelAt(files, k, s).kind)
  }

  ghost predicate Untouched(files: seq<File>, i: nat, r: nat, base: nat, pool: nat, x: int) {
    !(base <= x < pool) && forall k, s :: Before(files, i, r, k, s) ==> !InSlot(files, k, s, x)
  }

  ghost predicate SlotsDone(files: seq<File>, m0: Memory, base: nat, m: Memory, log: seq<PoolItem>, i: nat, r: nat)
    requires SymIndicesOk(files)
  {
    forall k, s :: Before(files, i, r, k, s) ==> SlotOk(files, m0, base, m, log, k, s)
  }

  ghost predicate PoolOk(files: seq<File>, m0: Memory, m: Memory, base: nat, pool: nat, log: seq<PoolItem>)
    requires SymIndicesOk(files)
  {
    && ItemsApart(files, log)
    && forall t :: 0 <= t < |log| ==> ItemOk(files, m0, m, base, pool, log[t])
  }

  ghost predicate OthersKept(files: seq<File>, m0: Memory, m: Memory, i: nat, r: nat, base: nat, pool: nat)
    requires |m| == |m0|
  {
    forall x :: 0 <= x < |m0| && Untouched(files, i, r, base, pool, x) ==> m[x] == m0[x]
  }

  /** The state of the pass before relocation `(i, r)`. */
  ghost predicate LinkInv(files: seq<File>, m0: Memory, base: nat, i: nat, r: nat, st: LinkState)
    requires SymIndicesOk(files)
  {
    && |st.mem| == |m0| && base <= st.pool <= |st.mem| && st.size == st.pool - base
    && SlotsDone(files, m0, base, st.mem, st.log, i, r)
    && PoolOk(files, m0, st.mem, base, st.pool, st.log)
    && (forall t :: 0 <= t < |st.log| ==> Before(files, i, r, st.log[t].file, st.log[t].rel))
    && OthersKept(files, m0, st.mem, i, r, base, st.pool)
  }
}
