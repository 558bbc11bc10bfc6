/** What the search of `uld_dyn_resolve_rel` finds, in terms of definers and of
    relocations already patched. */
module LinkSearch {
  import opened Words
  import opened Options
  import opened SymbolTable
  import opened Sections
  import opened LinkSpec
  import opened LinkMeaning

  lemma {:induction false} NameSelectsIndex(syms: seq<Sym>, a: nat, name: string)
    requires DistinctNames(syms) && a < |syms| && syms[a].name == name && name != ""
    ensures FindSym(syms, name) == Some(a)
  {
  }

  /** A relocation of file `q` refers to `name` exactly when it refers to the
      symbol the table gives for `name`. */
  lemma {:induction false} RefersByIndex(files: seq<File>, q: nat, t: nat, name: string)
    requires TablesOk(files) && Position(files, q, t) && name != ""
    ensures NameAt(files, q, t) == name <==> FindSym(files[q].syms.value, name) == Some(RelAt(files, q, t).sym)
  {
    if NameAt(files, q, t) == name {
      NameSelectsIndex(files[q].syms.value, RelAt(files, q, t).sym, name);
    }
  }

  /** Resolution `out` comes from the symbol of the nearest definer. */
  ghost predicate BySymbol(files: seq<File>, k: int, name: string, out: Resolution)
    requires k < |files|
  {
    var d := NearestDefiner(files, k, name);
    d.Some? && out.fileIdx == d.value && out.ptr == SymNamed(files[d.value], name).value &&
    out.membase == files[d.value].membase
  }

  // ----- data -----

  /** `p` is the word in the slot of a data relocation for `name`, visited before
      `(i, r)`, from a file with the same nearest definer. */
  ghost predicate FromDataSlot(files: seq<File>, m: Memory, i: nat, r: nat, k: int, q: nat, t: nat, name: string, p: Word)
    requires SymIndicesOk(files) && k < |files|
  {
    && Before(files, i, r, q, t) && q <= k && NameAt(files, q, t) == name && IsData(RelAt(files, q, t).kind)
    && NearestDefiner(files, q, name) == NearestDefiner(files, k, name)
    && Slot(files, q, t) + 4 <= |m| && p == LoadWord(m, Slot(files, q, t))
  }

  ghost predicate ByDataSlot(files: seq<File>, m: Memory, i: nat, r: nat, k: int, name: string, out: Resolution)
    requires SymIndicesOk(files) && k < |files|
  {
    out.membase == 0 && exists q, t :: FromDataSlot(files, m, i, r, k, q, t, name, out.ptr)
  }

  /** Nothing defines `name` and nothing has been patched for it; the resolution
      records the first file that mentions it, if any does. */
  ghost predicate Nowhere(files: seq<File>, i: nat, r: nat, k: int, name: string, kind: RelKind, res: Resolution, out: Resolution)
    requires SymIndicesOk(files) && k < |files|
  {
    var first := FirstMention(files, k, name);
    && kind == GlobDat && NearestDefiner(files, k, name).None? && out.ptr == 0
    && (forall q, t :: Before(files, i, r, q, t) && q <= k ==> NameAt(files, q, t) != name)
    && if first.Some? then out.fileIdx == first.value && out.matchSym == Some(SymNamed(files[first.value], name))
       else out == res
  }

  ghost predicate DataFound(files: seq<File>, m: Memory, i: nat, r: nat, k: int, name: string, res: Resolution, out: Resolution)
    requires SymIndicesOk(files) && Position(files, i, r) && k < |files|
  {
    || BySymbol(files, k, name, out)
    || ByDataSlot(files, m, i, r, k, name, out)
    || Nowhere(files, i, r, k, name, RelAt(files, i, r).kind, res, out)
  }

  lemma {:induction false} FoundLower(files: seq<File>, m: Memory, i: nat, r: nat, k: nat, name: string, res: Resolution,
                                      res1: Resolution, out: Resolution)
    requires SymIndicesOk(files) && Position(files, i, r) && k < |files| && !Defines(files[k], name)
    requires DataFound(files, m, i, r, k - 1, name, res1, out)
    requires forall t :: Before(files, i, r, k, t) ==> NameAt(files, k, t) != name
    requires RelAt(files, i, r).kind == GlobDat ==>
      if Mentions(files[k], name) then res1.fileIdx == k && res1.matchSym == Some(SymNamed(files[k], name)) else res1 == res
    ensures DataFound(files, m, i, r, k, name, res, out)
  {
    if ByDataSlot(files, m, i, r, k - 1, name, out) {
      var q, t :| FromDataSlot(files, m, i, r, k - 1, q, t, name, out.ptr);
      assert FromDataSlot(files, m, i, r, k, q, t, name, out.ptr);
    }
  }

  lemma {:induction false} BorrowsDataSlot(files: seq<File>, base: nat, m: Memory, k: nat, q: nat, name: string)
    requires WellLinked(files, base) && Position(files, k, q) && NameAt(files, k, q) == name && IsObject(files, name)
    requires Borrow(files[k], m, RelAt(files, k, q)).Done?
    ensures IsData(RelAt(files, k, q).kind) && Slot(files, k, q) + 4 <= |m|
    ensures Borrow(files[k], m, RelAt(files, k, q)).value == LoadWord(m, Slot(files, k, q))
  {
    assert SlotPlaced(files, base, k, q);
  }

  lemma {:induction false} NoNameBelow(files: seq<File>, base: nat, i: nat, r: nat, k: nat, x: nat, hi: nat, same: bool, kind: RelKind, name: string)
    requires WellLinked(files, base) && Position(files, i, r) && k <= i && IsData(kind) && name != ""
    requires HasTables(files[k]) && FindSym(files[k].syms.value, name) == Some(x)
    requires hi <= RelCount(files[k]) && hi == (if k < i then RelCount(files[k]) else r)
    requires Candidate(RelsOf(files[k]), x, hi, same, kind).None?
    ensures forall t :: Before(files, i, r, k, t) ==> NameAt(files, k, t) != name
  {
    forall t | Before(files, i, r, k, t)
      ensures NameAt(files, k, t) != name
    {
      RefersByIndex(files, k, t, name);
      assert !Borrowable(RelsOf(files[k])[t], x, same, kind);
    }
  }

  lemma {:induction false} SearchBelowData(files: seq<File>, base: nat, m: Memory, i: nat, r: nat, k: int, res: Resolution)
    requires WellLinked(files, base) && Position(files, i, r) && -1 <= k < i && res.fileIdx <= i
    requires IsData(RelAt(files, i, r).kind) && IsObject(files, NameAt(files, i, r)) && res.ptr == 0
    requires SearchBelow(files, m, i, r, k, res).Done?
    ensures DataFound(files, m, i, r, k, NameAt(files, i, r), res, SearchBelow(files, m, i, r, k, res).value)
    decreases k + 1, 0
  {
    var name, out := NameAt(files, i, r), SearchBelow(files, m, i, r, k, res).value;
    if k >= 0 {
      if HasTables(files[k]) && FindSym(files[k].syms.value, name).Some? {
        SearchFileData(files, base, m, i, r, k, FindSym(files[k].syms.value, name).value, RelCount(files[k]), res);
      } else {
        SearchBelowData(files, base, m, i, r, k - 1, res);
        forall t | Before(files, i, r, k, t)
          ensures NameAt(files, k, t) != name
        {
          RefersByIndex(files, k, t, name);
        }
        FoundLower(files, m, i, r, k, name, res, res, out);
      }
    }
  }

  lemma {:induction false} SearchFileData(files: seq<File>, base: nat, m: Memory, i: nat, r: nat, k: nat, x: nat, hi: nat, res: Resolution)
    requires WellLinked(files, base) && Position(files, i, r) && k <= i && res.fileIdx <= i
    requires IsData(RelAt(files, i, r).kind) && IsObject(files, NameAt(files, i, r)) && res.ptr == 0
    requires HasTables(files[k]) && FindSym(files[k].syms.value, NameAt(files, i, r)) == Some(x)
    requires hi <= RelCount(files[k]) && hi == (if k < i then RelCount(files[k]) else r)
    requires SearchFile(files, m, i, r, k, x, hi, res).Done?
    ensures DataFound(files, m, i, r, k, NameAt(files, i, r), res, SearchFile(files, m, i, r, k, x, hi, res).value)
    decreases k, 1
  {
    hide Candidate, Borrow, LoadWord, Slot, SearchBelow, FindSym;
    var f, rel, name := files[k], RelAt(files, i, r), NameAt(files, i, r);
    var sym := f.syms.value[x];
    if !Defined(sym) {
      var res1 := UseSymbol(f, k, rel.kind, sym, res);
      var c := Candidate(RelsOf(f), x, hi, k == i && x == rel.sym, rel.kind);
      match c {
        case None =>
          NoNameBelow(files, base, i, r, k, x, hi, k == i && x == rel.sym, rel.kind, name);
          SearchBelowData(files, base, m, i, r, k - 1, res1);
          FoundLower(files, m, i, r, k, name, res, res1, SearchFile(files, m, i, r, k, x, hi, res).value);
        case Some(q) =>
          BorrowsDataSlot(files, base, m, k, q, name);
          assert FromDataSlot(files, m, i, r, k, k, q, name, SearchFile(files, m, i, r, k, x, hi, res).value.ptr);
      }
    }
  }

  // ----- functions -----

  /** A complete descriptor can be had from `out`: through the definer's symbol,
      from a FUNCDESC_VALUE slot, or through a FUNCDESC of an earlier file. */
  ghost predicate FuncFound(files: seq<File>, m: Memory, i: nat, r: nat, name: string, out: Resolution)
    requires SymIndicesOk(files) && Position(files, i, r)
  {
    || BySymbol(files, |files| - 1, name, out)
    || (out.membase == 0 && exists q, t :: FromDescSlot(files, i, r, q, t, name, out.ptr))
    || (out.membase == 0 && exists q, t :: FromFuncDesc(files, m, i, q, t, name, out.ptr))
  }

  /** `p` is the slot of a FUNCDESC_VALUE; only a FUNCDESC may take one of its own
      file that comes later. */
  ghost predicate FromDescSlot(files: seq<File>, i: nat, r: nat, q: nat, t: nat, name: string, p: nat)
    requires SymIndicesOk(files) && Position(files, i, r)
  {
    && Position(files, q, t) && DescSlotAt(files, i, name, p, q, t)
    && (Before(files, i, r, q, t) || RelAt(files, i, r).kind == FuncDesc)
  }

  ghost predicate FromFuncDesc(files: seq<File>, m: Memory, i: nat, q: nat, t: nat, name: string, p: Word)
    requires SymIndicesOk(files)
  {
    && Position(files, q, t) && q < i && NameAt(files, q, t) == name && RelAt(files, q, t).kind == FuncDesc
    && Slot(files, q, t) + 4 <= |m| && p == LoadWord(m, Slot(files, q, t))
  }

  lemma {:induction false} BorrowsFuncSlot(files: seq<File>, base: nat, m: Memory, k: nat, q: nat, name: string)
    requires WellLinked(files, base) && Position(files, k, q) && NameAt(files, k, q) == name && IsFunction(files, name)
    requires Borrow(files[k], m, RelAt(files, k, q)).Done?
    ensures var p, rel := Borrow(files[k], m, RelAt(files, k, q)).value, RelAt(files, k, q);
            || (rel.kind == FuncDescValue && !OnSection(files, k, q) && p == Slot(files, k, q))
            || (rel.kind == FuncDesc && Slot(files, k, q) + 4 <= |m| && p == LoadWord(m, Slot(files, k, q)))
  {
    assert SlotPlaced(files, base, k, q);
    assert !OnSection(files, k, q);
  }

  lemma {:induction false} SearchBelowFunc(files: seq<File>, base: nat, m: Memory, i: nat, r: nat, k: int, res: Resolution)
    requires WellLinked(files, base) && Position(files, i, r) && -1 <= k <= i && res.fileIdx <= i
    requires k < i || RelAt(files, i, r).kind == FuncDesc
    requires IsFunc(RelAt(files, i, r).kind) && IsFunction(files, NameAt(files, i, r))
    requires res.ptr == 0 || BySymbol(files, |files| - 1, NameAt(files, i, r), res)
    requires SearchBelow(files, m, i, r, k, res).Done?
    ensures FuncFound(files, m, i, r, NameAt(files, i, r), SearchBelow(files, m, i, r, k, res).value)
    decreases k + 1, 0
  {
    var name := NameAt(files, i, r);
    if k >= 0 {
      if HasTables(files[k]) && FindSym(files[k].syms.value, name).Some? {
        SearchFileFunc(files, base, m, i, r, k, FindSym(files[k].syms.value, name).value, RelCount(files[k]), res);
      } else {
        SearchBelowFunc(files, base, m, i, r, k - 1, res);
      }
    }
  }

  lemma {:induction false} SearchFileFunc(files: seq<File>, base: nat, m: Memory, i: nat, r: nat, k: nat, x: nat, hi: nat, res: Resolution)
    requires WellLinked(files, base) && Position(files, i, r) && k <= i && res.fileIdx <= i
    requires IsFunc(RelAt(files, i, r).kind) && IsFunction(files, NameAt(files, i, r))
    requires res.ptr == 0 || BySymbol(files, |files| - 1, NameAt(files, i, r), res)
    requires HasTables(files[k]) && FindSym(files[k].syms.value, NameAt(files, i, r)) == Some(x)
    requires hi == if k < i || RelAt(files, i, r).kind == FuncDesc then RelCount(files[k]) else r
    requires SearchFile(files, m, i, r, k, x, hi, res).Done?
    ensures FuncFound(files, m, i, r, NameAt(files, i, r), SearchFile(files, m, i, r, k, x, hi, res).value)
    decreases k, 1
  {
    var f, rel, name := files[k], RelAt(files, i, r), NameAt(files, i, r);
    var sym, out := f.syms.value[x], SearchFile(files, m, i, r, k, x, hi, res).value;
    assert CheckType(rel.kind, sym.ty) == TypeOk;
    if Defined(sym) {
      assert Defines(f, name);
      assert BySymbol(files, |files| - 1, name, UseSymbol(f, k, rel.kind, sym, res));
    }
    if !Defined(sym) || rel.kind == FuncDesc {
      var res1 := UseSymbol(f, k, rel.kind, sym, res);
      var c := Candidate(RelsOf(f), x, hi, k == i && x == rel.sym, rel.kind);
      match c {
        case None =>
          SearchBelowFunc(files, base, m, i, r, k - 1, res1);
        case Some(q) =>
          BorrowsFuncSlot(files, base, m, k, q, name);
          if RelAt(files, k, q).kind == FuncDescValue {
            assert FromDescSlot(files, i, r, k, q, name, out.ptr);
          } else {
            if k == i {
              RefersByIndex(files, i, r, name);
            }
            assert FromFuncDesc(files, m, i, k, q, name, out.ptr);
          }
      }
    }
  }
}
