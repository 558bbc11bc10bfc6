/** The relocation pass of the dynamic linker as a function of memory
    (src/uld_dyn.c): how one relocation is resolved, how the resolution is
    written, and the pass over all files and relocations. */
module LinkSpec {
  import opened Words
  import opened Options
  import opened SymbolTable
  import opened Sections

  /** `struct uld_dyn_resolution`.  `membase` is 0 when the resolution was
      borrowed from another relocation. */
  datatype Resolution = Resolution(ptr: Word, membase: Word, fileIdx: nat, matchSym: Option<Sym>)

  /** What the pool gave out: a block for an undefined object or a function
      descriptor, asked for by relocation `rel` of file `file`. */
  datatype PoolItem = PoolItem(file: nat, rel: nat, addr: nat, size: nat)

  /** Memory, the pool pointer `*dl_alloc_base`, the counter `dla_size`, and the
      record of what the pool gave out. */
  datatype LinkState = LinkState(mem: Memory, pool: nat, size: nat, log: seq<PoolItem>)

  predicate HasTables(f: File) {
    f.hash.Some? && f.syms.Some?
  }

  /** Every relocation refers to an entry of its file's symbol table. */
  predicate SymIndicesOk(files: seq<File>) {
    forall i :: 0 <= i < |files| && files[i].rels.Some? && files[i].syms.Some? ==>
      forall r :: 0 <= r < |files[i].rels.value| ==> files[i].rels.value[r].sym < |files[i].syms.value|
  }

  /** `(i, r)` names a relocation that the pass visits. */
  predicate Position(files: seq<File>, i: int, r: int) {
    0 <= i < |files| && files[i].rels.Some? && files[i].syms.Some? && 0 <= r < |files[i].rels.value|
  }

  function RelAt(files: seq<File>, i: nat, r: nat): Rel
    requires Position(files, i, r)
  {
    files[i].rels.value[r]
  }

  function SymAt(files: seq<File>, i: nat, r: nat): Sym
    requires SymIndicesOk(files) && Position(files, i, r)
  {
    files[i].syms.value[RelAt(files, i, r).sym]
  }

  function NameAt(files: seq<File>, i: nat, r: nat): string
    requires SymIndicesOk(files) && Position(files, i, r)
  {
    SymAt(files, i, r).name
  }

  /** A 32-bit read; outside memory it is a fault. */
  function Read(m: Memory, a: nat): Outcome<Word> {
    if a + 4 <= |m| then Done(LoadWord(m, a)) else Trapped
  }

  function Write(m: Memory, a: nat, w: Word): Outcome<Memory> {
    if a + 4 <= |m| then Done(StoreWord(m, a, w)) else Trapped
  }

  /** Highest relocation below `hi` in `rels` that refers to symbol `symIdx` and
      may be borrowed from.  In the file of the relocation being resolved a
      FUNCDESC may only borrow a FUNCDESC_VALUE, and never the reverse. */
  function Candidate(rels: seq<Rel>, symIdx: nat, hi: nat, same: bool, kind: RelKind): (c: Option<nat>)
    requires hi <= |rels|
    ensures c.Some? ==> c.value < hi && Borrowable(rels[c.value], symIdx, same, kind)
    ensures forall q :: (if c.Some? then c.value else -1) < q < hi ==> !Borrowable(rels[q], symIdx, same, kind)
  {
    if hi == 0 then None
    else if Borrowable(rels[hi - 1], symIdx, same, kind) then Some(hi - 1)
    else Candidate(rels, symIdx, hi - 1, same, kind)
  }

  predicate Borrowable(rel: Rel, symIdx: nat, same: bool, kind: RelKind) {
    rel.sym == symIdx &&
    !(same && ((kind == FuncDesc && rel.kind != FuncDescValue) || (kind == FuncDescValue && rel.kind == FuncDesc)))
  }

  /** The resolution taken from relocation `rel` of file `f`: the word at its
      place, or for a FUNCDESC_VALUE the place itself. */
  function Borrow(f: File, m: Memory, rel: Rel): Outcome<Word> {
    match FindSection(f.mem, ByLma, AnySection, rel.offset)
    case None => Trapped
    case Some(x) =>
      var adj := SectionRunAddr(f.mem[x], rel.offset);
      match rel.kind
      case FuncDescValue => Done(adj)
      case Relative => Trapped
      case OtherRel => Trapped
      case _ => Read(m, adj)
  }

  datatype TypeCheck = TypeOk | UseSection | TypeTrap

  function CheckType(kind: RelKind, ty: SymType): TypeCheck {
    match kind
    case GlobDat => if ty == ObjectSym then TypeOk else TypeTrap
    case FuncDesc => if ty == FuncSym then TypeOk else TypeTrap
    case FuncDescValue => if ty == SectionSym then UseSection else if ty == FuncSym then TypeOk else TypeTrap
    case _ => TypeOk
  }

  /** What a FUNCDESC_VALUE against a section symbol resolves to: the offset
      stored in place, from the link address of the section. */
  function FromSection(f: File, k: nat, m: Memory, rel: Rel, sym: Sym): (out: Outcome<Resolution>)
    ensures !out.Failed? && (out.Done? ==> out.value.fileIdx == k)
  {
    match SectionWithIndex(AllSections(f), sym.shndx)
    case None => Trapped
    case Some(x) =>
      match Read(m, RunAddr(f, rel.offset))
      case Done(offset) => Done(Resolution(Wrap(offset + AllSections(f)[x].lma), f.membase, k, None))
      case _ => Trapped
  }

  function UseSymbol(f: File, k: nat, kind: RelKind, sym: Sym, res: Resolution): Resolution {
    if Defined(sym) then Resolution(sym.value, f.membase, k, res.matchSym)
    else if kind == GlobDat then res.(fileIdx := k, matchSym := Some(sym))
    else res
  }

  /** One turn of the search loop of `uld_dyn_resolve_rel`: symbol `symIdx` of
      file `k`, then its relocations below `hi`, then the files before it. */
  function SearchFile(files: seq<File>, m: Memory, i: nat, r: nat, k: nat, symIdx: nat, hi: nat, res: Resolution)
    : (out: Outcome<Resolution>)
    requires SymIndicesOk(files) && Position(files, i, r) && k <= i && res.fileIdx <= i
    requires files[k].syms.Some? && symIdx < |files[k].syms.value| && hi <= RelCount(files[k])
    ensures !out.Failed? && (out.Done? ==> out.value.fileIdx <= i)
    decreases k, 1
  {
    var f, rel := files[k], RelAt(files, i, r);
    var sym := f.syms.value[symIdx];
    match CheckType(rel.kind, sym.ty)
    case TypeTrap => Trapped
    case UseSection => FromSection(f, k, m, rel, sym)
    case TypeOk =>
      var res1 := UseSymbol(f, k, rel.kind, sym, res);
      if Defined(sym) && rel.kind != FuncDesc then Done(res1)
      else
        match Candidate(RelsOf(f), symIdx, hi, k == i && symIdx == rel.sym, rel.kind)
        case None => SearchBelow(files, m, i, r, k - 1, res1)
        case Some(q) =>
          match Borrow(f, m, RelsOf(f)[q])
          case Done(ptr) => Done(Resolution(ptr, 0, k, res1.matchSym))
          case _ => Trapped
  }

  function RelsOf(f: File): seq<Rel> {
    if f.rels.Some? then f.rels.value else []
  }

  function RelCount(f: File): nat {
    |RelsOf(f)|
  }

  /** The search from file `k` down to file 0, each file in full. */
  function SearchBelow(files: seq<File>, m: Memory, i: nat, r: nat, k: int, res: Resolution): (out: Outcome<Resolution>)
    requires SymIndicesOk(files) && Position(files, i, r) && -1 <= k <= i && res.fileIdx <= i
    ensures !out.Failed? && (out.Done? ==> out.value.fileIdx <= i)
    decreases k + 1, 0
  {
    if k < 0 then
      if res.ptr == 0 && RelAt(files, i, r).kind != GlobDat then Trapped else Done(res)
    else if !HasTables(files[k]) then SearchBelow(files, m, i, r, k - 1, res)
    else
      match FindSym(files[k].syms.value, NameAt(files, i, r))
      case None => SearchBelow(files, m, i, r, k - 1, res)
      case Some(x) => SearchFile(files, m, i, r, k, x, RelCount(files[k]), res)
  }

  function Unresolved(i: nat): Resolution {
    Resolution(0, 0, i, None)
  }

  /** `uld_dyn_resolve_rel`.  A GLOB_DAT that nothing resolves is Done with a null
      pointer, because its caller goes on to allocate. */
  function Resolve(files: seq<File>, m: Memory, i: nat, r: nat): (out: Outcome<Resolution>)
    requires SymIndicesOk(files) && Position(files, i, r)
    ensures !out.Failed? && (out.Done? ==> out.value.fileIdx <= i)
  {
    if RelAt(files, i, r).kind == FuncDesc then SearchBelow(files, m, i, r, i, Unresolved(i))
    else SearchFile(files, m, i, r, i, RelAt(files, i, r).sym, r, Unresolved(i))
  }

  /** The run address a resolution stands for. */
  function Target(files: seq<File>, res: Resolution): Word
    requires res.fileIdx < |files|
  {
    if res.membase != 0 then RunAddr(files[res.fileIdx], res.ptr) else res.ptr
  }

  /** The place relocation `(i, r)` patches. */
  function Slot(files: seq<File>, i: nat, r: nat): Word
    requires Position(files, i, r)
  {
    RunAddr(files[i], RelAt(files, i, r).offset)
  }

  function WriteSlot(st: LinkState, dst: Word, w: Word): Outcome<LinkState> {
    if dst == 0 then Trapped
    else
      match Write(st.mem, dst, w)
      case Done(m) => Done(st.(mem := m))
      case _ => Trapped
  }

  /** `uld_dyn_write_reso_funcdesc_value_dst`. */
  function WritePair(m: Memory, dst: nat, entry: Word, base: Word): Outcome<Memory> {
    if dst + 8 <= |m| then Done(StoreWord(StoreWord(m, dst, entry), dst + 4, base)) else Trapped
  }

  function LinkData(files: seq<File>, i: nat, r: nat, st: LinkState, res: Resolution): Outcome<LinkState>
    requires Position(files, i, r) && res.fileIdx < |files|
  {
    WriteSlot(st, Slot(files, i, r), Target(files, res))
  }

  /** The undefined-object branch of `uld_dyn_write_reso_glob_dat`. */
  function LinkBlock(files: seq<File>, i: nat, r: nat, st: LinkState, res: Resolution): Outcome<LinkState>
    requires Position(files, i, r)
  {
    if Slot(files, i, r) == 0 || res.fileIdx == i || res.matchSym.None? then Trapped
    else
      var size := res.matchSym.value.size;
      if st.pool + size > |st.mem| || st.pool >= WORD_LIMIT then Trapped
      else
        var next := AlignUp(st.pool + size, 2);
        WriteSlot(LinkState(ZeroFill(st.mem, st.pool, size), next, st.size + (next - st.pool),
                            st.log + [PoolItem(i, r, st.pool, size)]),
                  Slot(files, i, r), st.pool)
  }

  function LinkFuncDesc(files: seq<File>, i: nat, r: nat, st: LinkState, res: Resolution): Outcome<LinkState>
    requires Position(files, i, r) && res.fileIdx < |files|
  {
    if Slot(files, i, r) == 0 then Trapped
    else if res.membase == 0 then WriteSlot(st, Slot(files, i, r), res.ptr)
    else if st.pool >= WORD_LIMIT then Trapped
    else
      match WritePair(st.mem, st.pool, Target(files, res), res.membase)
      case Done(m) =>
        WriteSlot(LinkState(m, st.pool + 8, st.size + 8, st.log + [PoolItem(i, r, st.pool, 8)]),
                  Slot(files, i, r), st.pool)
      case _ => Trapped
  }

  function LinkFuncDescValue(files: seq<File>, i: nat, r: nat, st: LinkState, res: Resolution): Outcome<LinkState>
    requires Position(files, i, r) && res.fileIdx < |files|
  {
    var dst := Slot(files, i, r);
    if dst == 0 then Trapped
    else if res.membase != 0 then
      match WritePair(st.mem, dst, Target(files, res), res.membase)
      case Done(m) => Done(st.(mem := m))
      case _ => Trapped
    else if res.ptr + 8 > |st.mem| || dst + 8 > |st.mem| then Trapped
    else
      var m := StoreWord(st.mem, dst, LoadWord(st.mem, res.ptr));
      Done(st.(mem := StoreWord(m, dst + 4, LoadWord(m, res.ptr + 4))))
  }

  /** `uld_dyn_update_relative`. */
  function LinkRelative(files: seq<File>, i: nat, r: nat, st: LinkState): Outcome<LinkState>
    requires Position(files, i, r)
  {
    var dst := Slot(files, i, r);
    if dst == 0 || dst + 4 > |st.mem| then Trapped
    else WriteSlot(st, dst, RunAddr(files[i], LoadWord(st.mem, dst)))
  }

  /** One turn of the inner loop of `uld_dyn_link_file_list`. */
  function LinkRel(files: seq<File>, i: nat, r: nat, st: LinkState): (out: Outcome<LinkState>)
    requires SymIndicesOk(files) && Position(files, i, r)
    ensures !out.Failed?
  {
    var kind := RelAt(files, i, r).kind;
    if kind == OtherRel then Trapped
    else if kind == Relative then LinkRelative(files, i, r, st)
    else
      var found := Resolve(files, st.mem, i, r);
      if found.Trapped? then Trapped
      else
        var res := found.value;
        if kind == Abs32 then LinkData(files, i, r, st, res)
        else if kind == GlobDat then
          if res.ptr == 0 then LinkBlock(files, i, r, st, res) else LinkData(files, i, r, st, res)
        else if kind == FuncDesc then LinkFuncDesc(files, i, r, st, res)
        else LinkFuncDescValue(files, i, r, st, res)
  }

  /** How many relocations of the file the pass visits. */
  function Visits(f: File): nat {
    if f.rels.Some? && f.syms.Some? then |f.rels.value| else 0
  }

  /** The pass has got as far as relocation `r` of file `i`. */
  predicate Stage(files: seq<File>, i: nat, r: nat) {
    i <= |files| && r <= if i < |files| then Visits(files[i]) else 0
  }

  /** The state of the pass before relocation `r` of file `i`.  A file that has
      relocations but no symbol table ends the pass with an error. */
  function StateAt(files: seq<File>, m: Memory, base: nat, i: nat, r: nat): Outcome<LinkState>
    requires SymIndicesOk(files) && Stage(files, i, r)
    decreases i, r
  {
    if r > 0 then
      match StateAt(files, m, base, i, r - 1)
      case Done(st) => LinkRel(files, i, r - 1, st)
      case Failed(c) => Failed(c)
      case Trapped => Trapped
    else if i == 0 then Done(LinkState(m, base, 0, []))
    else
      match StateAt(files, m, base, i - 1, Visits(files[i - 1]))
      case Done(st) => if files[i - 1].rels.Some? && files[i - 1].syms.None? then Failed(-1) else Done(st)
      case Failed(c) => Failed(c)
      case Trapped => Trapped
  }

  /** `uld_dyn_link_file_list` on memory `m` with the pool starting at `base`. */
  function Link(files: seq<File>, m: Memory, base: nat): Outcome<LinkState>
    requires SymIndicesOk(files)
  {
    if files == [] || base == 0 then Failed(-1) else StateAt(files, m, base, |files|, 0)
  }

  /** A pass that has gone wrong stays wrong. */
  lemma {:induction false} FailureStays(files: seq<File>, m: Memory, base: nat, i: nat, r: nat, k: nat, s: nat)
    requires SymIndicesOk(files) && Stage(files, i, r) && Stage(files, k, s) && (i < k || (i == k && r <= s))
    requires !StateAt(files, m, base, i, r).Done?
    ensures StateAt(files, m, base, k, s) == StateAt(files, m, base, i, r)
    decreases k, s
  {
    if i != k || r != s {
      if s > 0 {
        FailureStays(files, m, base, i, r, k, s - 1);
      } else {
        FailureStays(files, m, base, i, r, k - 1, Visits(files[k - 1]));
      }
    }
  }
}
