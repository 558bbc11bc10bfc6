/** The relocation pass as the loops of src/uld_dyn.c, patching memory in place.
    Each method is tied to the function of LinkSpec that it computes. */
module Linker {
  import opened Words
  import opened Options
  import opened SymbolTable
  import opened Sections
  import opened LinkSpec
  import opened LinkMeaning

  /** What lookup by name rests on: hash tables as the gABI lays them out, and a
      name for every symbol that is looked up by name. */
  ghost predicate Searchable(files: seq<File>) {
    && SymbolsOk(files)
    && (forall j :: 0 <= j < |files| && HasTables(files[j]) ==> WellFormedHash(files[j].hash.value, files[j].syms.value))
    && (forall i, r :: Position(files, i, r) && ResolvedByName(files, i, r) ==> NameAt(files, i, r) != "")
  }

  predicate ResolvedByName(files: seq<File>, i: nat, r: nat)
    requires SymIndicesOk(files) && Position(files, i, r)
  {
    (IsData(RelAt(files, i, r).kind) || IsFunc(RelAt(files, i, r).kind)) && !OnSection(files, i, r)
  }

  lemma IndicesOk(files: seq<File>)
    requires Searchable(files)
    ensures SymIndicesOk(files)
  {
  }

  /** The word at the place of a relocation that may be borrowed from. */
  method BorrowFrom(f: File, mem: array<Byte>, rel: Rel) returns (out: Outcome<Word>)
    ensures out == Borrow(f, mem[..], rel)
  {
    var x := FindInList(f.mem, ByLma, AnySection, rel.offset);
    if x.None? {
      return Trapped;
    }
    var adj := SectionLmaToAdjustedVma(f.mem[x.value], rel.offset);
    match rel.kind {
      case FuncDescValue => return Done(adj);
      case Relative => return Trapped;
      case OtherRel => return Trapped;
      case _ =>
        if adj + 4 > mem.Length {
          return Trapped;
        }
        var w := GetWord(mem, adj);
        return Done(w);
    }
  }

  method ResolveOnSection(f: File, k: nat, mem: array<Byte>, rel: Rel, sym: Sym) returns (out: Outcome<Resolution>)
    ensures out == FromSection(f, k, mem[..], rel, sym)
  {
    var sec := GetSecByIndex(f, sym.shndx);
    if sec.None? {
      return Trapped;
    }
    var adj := FileLmaToAdjustedVma(f, rel.offset);
    if adj + 4 > mem.Length {
      return Trapped;
    }
    var offset := GetWord(mem, adj);
    return Done(Resolution(Wrap(offset + sec.value.lma), f.membase, k, None));
  }

  method LookupName(files: seq<File>, k: nat, name: string) returns (x: Option<nat>)
    requires Searchable(files) && k < |files| && HasTables(files[k]) && name != ""
    ensures x == FindSym(files[k].syms.value, name)
  {
    x := FindDynsymHash(name, files[k].hash.value, files[k].syms.value);
  }

  /** The relocations of one file below `hi`, from the last to the first. */
  method SearchRelocs(rels: seq<Rel>, symIdx: nat, hi: nat, same: bool, kind: RelKind) returns (c: Option<nat>)
    requires hi <= |rels|
    ensures c == Candidate(rels, symIdx, hi, same, kind)
  {
    var rd: nat := hi;
    while rd > 0
      invariant rd <= hi
      invariant Candidate(rels, symIdx, hi, same, kind) == Candidate(rels, symIdx, rd, same, kind)
    {
      rd := rd - 1;
      if Borrowable(rels[rd], symIdx, same, kind) {
        return Some(rd);
      }
    }
    return None;
  }

  /** One turn of the search loop: symbol `symIdx` of file `k`, then the relocations of
      that file below `hi`.  None when the search goes on in the files before. */
  method SearchOne(files: seq<File>, mem: array<Byte>, i: nat, r: nat, k: nat, symIdx: nat, hi: nat, res: Resolution)
    returns (out: Option<Outcome<Resolution>>, res1: Resolution)
    requires SymIndicesOk(files) && Position(files, i, r) && k <= i && res.fileIdx <= i
    requires IsData(RelAt(files, i, r).kind) || IsFunc(RelAt(files, i, r).kind)
    requires files[k].syms.Some? && symIdx < |files[k].syms.value| && hi <= RelCount(files[k])
    ensures res1.fileIdx <= i && (CheckType(RelAt(files, i, r).kind, files[k].syms.value[symIdx].ty) == UseSection ==> out.Some?)
    ensures SearchFile(files, mem[..], i, r, k, symIdx, hi, res) ==
            if out.Some? then out.value else SearchBelow(files, mem[..], i, r, k - 1, res1)
  {
    hide FromSection, Borrow, Candidate, SearchBelow;
    var f, rel := files[k], RelAt(files, i, r);
    var sym := f.syms.value[symIdx];
    res1 := res;
    if rel.kind == GlobDat {
      if sym.ty != ObjectSym {
        return Some(Trapped), res1;
      }
    } else if rel.kind == FuncDesc || rel.kind == FuncDescValue {
      if sym.ty == SectionSym && rel.kind == FuncDescValue {
        var found := ResolveOnSection(f, k, mem, rel, sym);
        return Some(found), res1;
      } else if sym.ty != FuncSym {
        return Some(Trapped), res1;
      }
    }
    if sym.shndx != 0 && sym.shndx < 0x8000 {
      res1 := Resolution(sym.value, f.membase, k, res.matchSym);
      if rel.kind != FuncDesc {
        return Some(Done(res1)), res1;
      }
    } else if rel.kind == GlobDat {
      res1 := res.(fileIdx := k, matchSym := Some(sym));
    }
    var c := SearchRelocs(RelsOf(f), symIdx, hi, k == i && symIdx == rel.sym, rel.kind);
    if c.Some? {
      var ptr := BorrowFrom(f, mem, RelsOf(f)[c.value]);
      return Some(if ptr.Done? then Done(Resolution(ptr.value, 0, k, res1.matchSym)) else Trapped), res1;
    }
    return None, res1;
  }

  /** A symbol without a name is a section, and is not looked for by name. */
  lemma NamedIfSearched(files: seq<File>, i: nat, r: nat)
    requires Searchable(files) && Position(files, i, r)
    requires IsData(RelAt(files, i, r).kind) || IsFunc(RelAt(files, i, r).kind)
    ensures SymIndicesOk(files)
    ensures NameAt(files, i, r) != "" || CheckType(RelAt(files, i, r).kind, SymAt(files, i, r).ty) == UseSection
    ensures RelAt(files, i, r).kind == FuncDesc ==> NameAt(files, i, r) != ""
  {
    assert ResolvedByName(files, i, r) ==> NameAt(files, i, r) != "";
  }

  /** The files from `k` down to the first, each in full. */
  method SearchFiles(files: seq<File>, mem: array<Byte>, i: nat, r: nat, k: int, res: Resolution) returns (out: Outcome<Resolution>)
    requires Searchable(files) && Position(files, i, r) && -1 <= k <= i && res.fileIdx <= i
    requires IsData(RelAt(files, i, r).kind) || IsFunc(RelAt(files, i, r).kind)
    requires NameAt(files, i, r) != ""
    ensures out == SearchBelow(files, mem[..], i, r, k, res)
  {
    NamedIfSearched(files, i, r);
    hide Searchable, SearchFile;
    var fileIdx, soFar := k, res;
    while fileIdx >= 0
      invariant -1 <= fileIdx <= i && soFar.fileIdx <= i
      invariant SearchBelow(files, mem[..], i, r, k, res) == SearchBelow(files, mem[..], i, r, fileIdx, soFar)
      decreases fileIdx
    {
      if HasTables(files[fileIdx]) {
        var x := LookupName(files, fileIdx, NameAt(files, i, r));
        if x.Some? {
          var found;
          found, soFar := SearchOne(files, mem, i, r, fileIdx, x.value, RelCount(files[fileIdx]), soFar);
          if found.Some? {
            return found.value;
          }
        }
      }
      fileIdx := fileIdx - 1;
    }
    return if soFar.ptr == 0 && RelAt(files, i, r).kind != GlobDat then Trapped else Done(soFar);
  }

  /** `uld_dyn_resolve_rel`: the file of the relocation first, by its own symbol and the
      relocations before it; then file by file backwards.  A FUNCDESC searches all of
      its own file too. */
  method ResolveRel(files: seq<File>, mem: array<Byte>, i: nat, r: nat) returns (out: Outcome<Resolution>)
    requires Searchable(files) && Position(files, i, r)
    requires IsData(RelAt(files, i, r).kind) || IsFunc(RelAt(files, i, r).kind)
    ensures out == Resolve(files, mem[..], i, r)
  {
    NamedIfSearched(files, i, r);
    hide Searchable, SearchFile, SearchBelow;
    var rel := RelAt(files, i, r);
    if rel.kind == FuncDesc {
      out := SearchFiles(files, mem, i, r, i, Unresolved(i));
    } else {
      var found, res := SearchOne(files, mem, i, r, i, rel.sym, r, Unresolved(i));
      if found.Some? {
        return found.value;
      }
      out := SearchFiles(files, mem, i, r, i - 1, res);
    }
  }

  // ----- writing a resolution -----

  method StoreAt(mem: array<Byte>, dst: Word, w: Word) returns (ok: bool)
    modifies mem
    ensures ok <==> dst != 0 && dst + 4 <= mem.Length
    ensures ok ==> mem[..] == StoreWord(old(mem[..]), dst, w)
    ensures !ok ==> mem[..] == old(mem[..])
  {
    ok := dst != 0 && dst + 4 <= mem.Length;
    if ok {
      PutWord(mem, dst, w);
    }
  }

  /** `uld_dyn_write_reso_abs32`, and `uld_dyn_write_reso_glob_dat` for an object
      that was found. */
  method WriteData(files: seq<File>, mem: array<Byte>, i: nat, r: nat, res: Resolution, ghost st: LinkState) returns (ok: bool)
    requires Position(files, i, r) && res.fileIdx < |files| && st.mem == mem[..]
    modifies mem
    ensures ok <==> LinkData(files, i, r, st, res).Done?
    ensures ok ==> LinkData(files, i, r, st, res).value == st.(mem := mem[..])
  {
    var dst := FileLmaToAdjustedVma(files[i], RelAt(files, i, r).offset);
    var ptr := res.ptr;
    if res.membase != 0 {
      ptr := FileLmaToAdjustedVma(files[res.fileIdx], res.ptr);
    }
    ok := StoreAt(mem, dst, ptr);
  }

  /** The undefined-object branch of `uld_dyn_write_reso_glob_dat`. */
  method WriteBlock(files: seq<File>, mem: array<Byte>, i: nat, r: nat, res: Resolution, pool: nat, size: nat, ghost st: LinkState)
    returns (ok: bool, pool1: nat, size1: nat, ghost st1: LinkState)
    requires Position(files, i, r) && st.mem == mem[..] && st.pool == pool && st.size == size
    modifies mem
    ensures ok <==> LinkBlock(files, i, r, st, res).Done?
    ensures ok ==> LinkBlock(files, i, r, st, res) == Done(st1) && st1.mem == mem[..] && st1.pool == pool1 && st1.size == size1
  {
    pool1, size1, st1 := pool, size, st;
    var dst := FileLmaToAdjustedVma(files[i], RelAt(files, i, r).offset);
    ok := dst != 0 && res.fileIdx != i && res.matchSym.Some?;
    if !ok {
      return;
    }
    var blockSize := res.matchSym.value.size;
    ok := pool + blockSize <= mem.Length && pool < WORD_LIMIT;
    if !ok {
      return;
    }
    pool1 := AlignUp(pool + blockSize, 2);
    size1 := size + (pool1 - pool);
    Zero(mem, pool, blockSize);
    ok := StoreAt(mem, dst, pool);
    st1 := LinkState(mem[..], pool1, size1, st.log + [PoolItem(i, r, pool, blockSize)]);
  }

  /** `uld_dyn_write_reso_funcdesc_value_dst`. */
  method WriteDescriptor(files: seq<File>, mem: array<Byte>, dst: nat, res: Resolution) returns (ok: bool)
    requires res.fileIdx < |files| && res.membase != 0
    modifies mem
    ensures ok <==> WritePair(old(mem[..]), dst, Target(files, res), res.membase).Done?
    ensures ok ==> WritePair(old(mem[..]), dst, Target(files, res), res.membase) == Done(mem[..])
    ensures !ok ==> mem[..] == old(mem[..])
  {
    var entry := FileLmaToAdjustedVma(files[res.fileIdx], res.ptr);
    ok := dst + 8 <= mem.Length;
    if ok {
      PutWord(mem, dst, entry);
      PutWord(mem, dst + 4, res.membase);
    }
  }

  method WriteFuncDesc(files: seq<File>, mem: array<Byte>, i: nat, r: nat, res: Resolution, pool: nat, size: nat, ghost st: LinkState)
    returns (ok: bool, pool1: nat, size1: nat, ghost st1: LinkState)
    requires Position(files, i, r) && res.fileIdx < |files| && st.mem == mem[..] && st.pool == pool && st.size == size
    modifies mem
    ensures ok <==> LinkFuncDesc(files, i, r, st, res).Done?
    ensures ok ==> LinkFuncDesc(files, i, r, st, res) == Done(st1) && st1.mem == mem[..] && st1.pool == pool1 && st1.size == size1
  {
    pool1, size1, st1 := pool, size, st;
    var dst := FileLmaToAdjustedVma(files[i], RelAt(files, i, r).offset);
    if dst == 0 {
      return false, pool1, size1, st1;
    }
    var ptr := res.ptr;
    if res.membase != 0 {
      if pool >= WORD_LIMIT {
        return false, pool1, size1, st1;
      }
      ptr, pool1, size1 := pool, pool + 8, size + 8;
      ok := WriteDescriptor(files, mem, pool, res);
      if !ok {
        return;
      }
      st1 := LinkState(mem[..], pool1, size1, st.log + [PoolItem(i, r, pool, 8)]);
    }
    ok := StoreAt(mem, dst, ptr);
    st1 := st1.(mem := mem[..]);
  }

  method WriteFuncDescValue(files: seq<File>, mem: array<Byte>, i: nat, r: nat, res: Resolution, ghost st: LinkState) returns (ok: bool)
    requires Position(files, i, r) && res.fileIdx < |files| && st.mem == mem[..]
    modifies mem
    ensures ok <==> LinkFuncDescValue(files, i, r, st, res).Done?
    ensures ok ==> LinkFuncDescValue(files, i, r, st, res) == Done(st.(mem := mem[..]))
  {
    var dst := FileLmaToAdjustedVma(files[i], RelAt(files, i, r).offset);
    if dst == 0 {
      return false;
    }
    if res.membase != 0 {
      ok := WriteDescriptor(files, mem, dst, res);
    } else {
      ok := res.ptr + 8 <= mem.Length && dst + 8 <= mem.Length;
      if ok {
        var w := GetWord(mem, res.ptr);
        PutWord(mem, dst, w);
        w := GetWord(mem, res.ptr + 4);
        PutWord(mem, dst + 4, w);
      }
    }
  }

  method UpdateRelative(files: seq<File>, mem: array<Byte>, i: nat, r: nat, ghost st: LinkState) returns (ok: bool)
    requires Position(files, i, r) && st.mem == mem[..]
    modifies mem
    ensures ok <==> LinkRelative(files, i, r, st).Done?
    ensures ok ==> LinkRelative(files, i, r, st) == Done(st.(mem := mem[..]))
  {
    var dst := FileLmaToAdjustedVma(files[i], RelAt(files, i, r).offset);
    if dst == 0 || dst + 4 > mem.Length {
      return false;
    }
    var ptr := GetWord(mem, dst);
    var adj := FileLmaToAdjustedVma(files[i], ptr);
    ok := StoreAt(mem, dst, adj);
  }

  /** One turn of the inner loop of `uld_dyn_link_file_list`. */
  method LinkOne(files: seq<File>, mem: array<Byte>, i: nat, r: nat, pool: nat, size: nat, ghost st: LinkState)
    returns (ok: bool, pool1: nat, size1: nat, ghost st1: LinkState)
    requires Searchable(files) && Position(files, i, r) && st.mem == mem[..] && st.pool == pool && st.size == size
    modifies mem
    ensures if ok then LinkRel(files, i, r, st) == Done(st1) && st1.mem == mem[..] && st1.pool == pool1 && st1.size == size1
            else LinkRel(files, i, r, st) == Trapped
  {
    pool1, size1, st1 := pool, size, st;
    var kind := RelAt(files, i, r).kind;
    if kind == OtherRel {
      return false, pool1, size1, st1;
    }
    if kind == Relative {
      ok := UpdateRelative(files, mem, i, r, st);
    } else {
      var found := ResolveRel(files, mem, i, r);
      if !found.Done? {
        return false, pool1, size1, st1;
      }
      var res := found.value;
      if kind == FuncDesc {
        ok, pool1, size1, st1 := WriteFuncDesc(files, mem, i, r, res, pool, size, st);
      } else if kind == FuncDescValue {
        ok := WriteFuncDescValue(files, mem, i, r, res, st);
      } else if kind == GlobDat && res.ptr == 0 {
        ok, pool1, size1, st1 := WriteBlock(files, mem, i, r, res, pool, size, st);
      } else {
        ok := WriteData(files, mem, i, r, res, st);
      }
    }
    st1 := st1.(mem := mem[..]);
  }

  /** The inner loop of `uld_dyn_link_file_list`: all relocations of file `i`. */
  method LinkFile(files: seq<File>, mem: array<Byte>, ghost m0: Memory, ghost base: nat, i: nat, pool: nat, size: nat, ghost st: LinkState)
    returns (ok: bool, pool1: nat, size1: nat, ghost st1: LinkState)
    requires Searchable(files) && i < |files| && files[i].rels.Some? && files[i].syms.Some?
    requires StateAt(files, m0, base, i, 0) == Done(st) && st.mem == mem[..] && st.pool == pool && st.size == size
    modifies mem
    ensures ok ==> StateAt(files, m0, base, i + 1, 0) == Done(st1)
    ensures ok ==> st1.mem == mem[..] && st1.pool == pool1 && st1.size == size1
    ensures !ok ==> StateAt(files, m0, base, |files|, 0) == Trapped
  {
    IndicesOk(files);
    hide LinkRel, Searchable, SymIndicesOk;
    pool1, size1, st1 := pool, size, st;
    var r: nat := 0;
    while r < |files[i].rels.value|
      invariant r <= |files[i].rels.value| && StateAt(files, m0, base, i, r) == Done(st1)
      invariant st1.mem == mem[..] && st1.pool == pool1 && st1.size == size1
    {
      ok, pool1, size1, st1 := LinkOne(files, mem, i, r, pool1, size1, st1);
      if !ok {
        FailureStays(files, m0, base, i, r + 1, |files|, 0);
        return;
      }
      r := r + 1;
    }
    ok := true;
  }

  lemma LinkEnds(files: seq<File>, m0: Memory, base: nat)
    requires SymIndicesOk(files)
    ensures Link(files, m0, base) == if files == [] || base == 0 then Failed(-1) else StateAt(files, m0, base, |files|, 0)
    ensures StateAt(files, m0, base, 0, 0) == Done(LinkState(m0, base, 0, []))
  {
  }

  /** A file without relocations leaves the state alone; one with relocations and no
      symbol table ends the pass. */
  lemma NothingToLink(files: seq<File>, m0: Memory, base: nat, i: nat)
    requires SymIndicesOk(files) && i < |files| && StateAt(files, m0, base, i, 0).Done? && Visits(files[i]) == 0
    ensures files[i].rels.None? ==> StateAt(files, m0, base, i + 1, 0) == StateAt(files, m0, base, i, 0)
    ensures files[i].rels.Some? && files[i].syms.None? ==> StateAt(files, m0, base, |files|, 0) == Failed(-1)
  {
    PassesOver(files, m0, base, i);
    hide StateAt, SymIndicesOk;
    if files[i].rels.Some? && files[i].syms.None? {
      FailureStays(files, m0, base, i + 1, 0, |files|, 0);
    }
  }

  lemma PassesOver(files: seq<File>, m0: Memory, base: nat, i: nat)
    requires SymIndicesOk(files) && i < |files| && Visits(files[i]) == 0
    ensures StateAt(files, m0, base, i + 1, 0) ==
            if StateAt(files, m0, base, i, 0).Done? && files[i].rels.Some? && files[i].syms.None? then Failed(-1)
            else StateAt(files, m0, base, i, 0)
  {
    hide LinkRel, SymIndicesOk;
  }

  /** `uld_dyn_link_file_list`.  `pool` and `size` are its locals `dl_alloc_base`
      and `dla_size` when it ends. */
  method LinkFileList(files: seq<File>, mem: array<Byte>, base: nat) returns (out: Outcome<()>, pool: nat, size: nat)
    requires Searchable(files)
    modifies mem
    ensures match Link(files, old(mem[..]), base)
            case Done(st) => out == Done(()) && mem[..] == st.mem && pool == st.pool && size == st.size
            case Failed(c) => out == Failed(c)
            case Trapped => out == Trapped
  {
    hide Link, StateAt, Searchable, SymIndicesOk;
    IndicesOk(files);
    ghost var m0 := mem[..];
    LinkEnds(files, m0, base);
    pool, size := base, 0;
    if files == [] || base == 0 {
      return Failed(-1), pool, size;
    }
    ghost var st := LinkState(m0, base, 0, []);
    var i: nat := 0;
    while i < |files|
      invariant i <= |files| && StateAt(files, m0, base, i, 0) == Done(st)
      invariant st.mem == mem[..] && st.pool == pool && st.size == size
    {
      if files[i].rels.None? || files[i].syms.None? {
        NothingToLink(files, m0, base, i);
      }
      if files[i].rels.Some? {
        if files[i].syms.None? {
          return Failed(-1), pool, size;
        }
        var ok;
        ok, pool, size, st := LinkFile(files, mem, m0, base, i, pool, size, st);
        if !ok {
          return Trapped, pool, size;
        }
      }
      i := i + 1;
    }
    return Done(()), pool, size;
  }
}
