/** When a link comes to its end: for well-linked files, exactly if every relocation can
    be served in its turn and the pool has room (src/uld_dyn.c). */
module LinkOutcome {
  import opened Words
  import opened Options
  import opened SymbolTable
  import opened Sections
  import opened LinkSpec
  import opened LinkMeaning
  import opened LinkSearch
  import opened LinkProof

  // ----- what the tables say -----

  /** Wherever `name` is in a symbol table, it is there with this type. */
  ghost predicate Typed(files: seq<File>, name: string, ty: SymType) {
    forall j {:trigger Mentions(files[j], name)} :: 0 <= j < |files| && Mentions(files[j], name) ==> SymNamed(files[j], name).ty == ty
  }

  /** `name` is a function wherever it is mentioned, defined at most once.  Whether it is
      defined at all, and where, is open. */
  ghost predicate FunctionName(files: seq<File>, name: string)
    requires SymIndicesOk(files)
  {
    && name != "" && Typed(files, name, FuncSym)
    && (forall k, s {:trigger Position(files, k, s)} :: Position(files, k, s) && NameAt(files, k, s) == name ==>
          !IsData(RelAt(files, k, s).kind))
    && (forall j {:trigger Defines(files[j], name)} :: 0 <= j < |files| && Defines(files[j], name) ==>
          SymNamed(files[j], name).value != 0)
    && (forall j, k {:trigger Defines(files[j], name), Defines(files[k], name)} ::
          0 <= j < |files| && 0 <= k < |files| && Defines(files[j], name) && Defines(files[k], name) ==> j == k)
  }

  /** Relocation `(i, r)` is of one of the kinds that a build makes: on no symbol, on a
      section, on an object or on a function. */
  ghost predicate RelClear(files: seq<File>, i: nat, r: nat)
    requires SymIndicesOk(files) && Position(files, i, r)
  {
    var kind, name := RelAt(files, i, r).kind, NameAt(files, i, r);
    if IsData(kind) then IsObject(files, name) && (kind == GlobDat ==> Typed(files, name, ObjectSym))
    else if IsFunc(kind) then OnSection(files, i, r) || FunctionName(files, name)
    else name == ""
  }

  ghost predicate AllClear(files: seq<File>)
    requires SymIndicesOk(files)
  {
    forall i, r :: Position(files, i, r) ==> RelClear(files, i, r)
  }

  /** A relocation for `name` comes before `(i, r)`, in a file up to `k`. */
  ghost predicate NamedBefore(files: seq<File>, i: nat, r: nat, k: int, name: string)
    requires SymIndicesOk(files)
  {
    exists q, t :: Before(files, i, r, q, t) && q <= k && NameAt(files, q, t) == name
  }

  // ----- what each relocation takes from the pool -----

  /** The object is defined nowhere up to file `i`, and nothing has been allocated for it. */
  ghost predicate NeedsBlock(files: seq<File>, i: nat, r: nat)
    requires SymIndicesOk(files) && Position(files, i, r)
  {
    var name := NameAt(files, i, r);
    RelAt(files, i, r).kind == GlobDat && NearestDefiner(files, i, name).None? && !NamedBefore(files, i, r, i, name)
  }

  /** The size of a new block: that of the symbol in the first file that has it. */
  function BlockSize(files: seq<File>, i: nat, name: string): nat
    requires i < |files|
  {
    match FirstMention(files, i, name)
    case Some(j) => SymNamed(files[j], name).size
    case None => 0
  }

  /** A relocation for `name` that a FUNCDESC of file `i` may borrow from: any in a file
      before it, a FUNCDESC_VALUE in its own. */
  predicate Lends(files: seq<File>, i: nat, name: string, q: nat, t: nat)
    requires SymIndicesOk(files) && Position(files, q, t)
  {
    NameAt(files, q, t) == name && (q < i || (q == i && RelAt(files, q, t).kind == FuncDescValue))
  }

  /** A FUNCDESC for a function of a file with memory, with nothing to borrow. */
  ghost predicate NeedsPair(files: seq<File>, i: nat, r: nat)
    requires SymIndicesOk(files) && Position(files, i, r)
  {
    var name := NameAt(files, i, r);
    && RelAt(files, i, r).kind == FuncDesc && !HasNoMemory(files, name)
    && forall q, t :: Position(files, q, t) ==> !Lends(files, i, name, q, t)
  }

  /** The pool pointer after relocation `(i, r)`, from `pool` before it. */
  ghost function PoolNext(files: seq<File>, i: nat, r: nat, pool: nat): nat
    requires SymIndicesOk(files) && Position(files, i, r)
  {
    if NeedsBlock(files, i, r) then AlignUp(pool + BlockSize(files, i, NameAt(files, i, r)), 2)
    else if NeedsPair(files, i, r) then pool + 8
    else pool
  }

  /** The pool pointer when the pass comes to relocation `r` of file `i`. */
  ghost function PoolAt(files: seq<File>, base: nat, i: nat, r: nat): nat
    requires SymIndicesOk(files) && Stage(files, i, r)
    decreases i, r
  {
    if r > 0 then PoolNext(files, i, r - 1, PoolAt(files, base, i, r - 1))
    else if i > 0 then PoolAt(files, base, i - 1, Visits(files[i - 1]))
    else base
  }

  /** The two words at the link address of function `name` are in memory. */
  ghost predicate CodeInMemory(files: seq<File>, m0: Memory, name: string) {
    var d := NearestDefiner(files, |files| - 1, name);
    d.Some? && SymNamed(files[d.value], name).value + 8 <= |m0|
  }

  /** File `i` has a FUNCDESC_VALUE for `name`. */
  ghost predicate OwnValue(files: seq<File>, i: nat, name: string)
    requires SymIndicesOk(files)
  {
    exists t :: Position(files, i, t) && RelAt(files, i, t).kind == FuncDescValue && NameAt(files, i, t) == name
  }

  /** Relocation `(i, r)` can be served: a section symbol names a section; a function is
      defined in this file or an earlier one, or a FUNCDESC for it has a FUNCDESC_VALUE in
      its own file; a function without memory has its two words in memory, and a new
      descriptor has room in the pool; an object is defined or allocated before, or can be
      allocated now, because an earlier file has its symbol and the pool has room. */
  ghost predicate Served(files: seq<File>, m0: Memory, base: nat, i: nat, r: nat)
    requires SymIndicesOk(files) && Position(files, i, r)
  {
    var kind, name, pool := RelAt(files, i, r).kind, NameAt(files, i, r), PoolAt(files, base, i, r);
    match kind
    case Relative => true
    case OtherRel => false
    case FuncDesc =>
      && (NearestDefiner(files, i, name).Some? || OwnValue(files, i, name))
      && (NeedsPair(files, i, r) ==> pool + 8 <= |m0|)
    case FuncDescValue =>
      if OnSection(files, i, r) then SectionWithIndex(AllSections(files[i]), SymAt(files, i, r).shndx).Some?
      else NearestDefiner(files, i, name).Some? && (HasNoMemory(files, name) ==> CodeInMemory(files, m0, name))
    case _ =>
      || NearestDefiner(files, i, name).Some? || NamedBefore(files, i, r, i, name)
      || (kind == GlobDat && FirstMention(files, i, name) != Some(i) && pool + BlockSize(files, i, name) <= |m0|)
  }

  /** Every relocation before `(i, r)` is served. */
  ghost predicate ServedBefore(files: seq<File>, m0: Memory, base: nat, i: nat, r: nat)
    requires SymIndicesOk(files)
  {
    forall k, s :: Before(files, i, r, k, s) ==> Served(files, m0, base, k, s)
  }

  // ----- objects -----

  /** A relocation that has a name is one that may be borrowed from. */
  lemma {:induction false} BorrowsNamed(files: seq<File>, base: nat, m: Memory, k: nat, q: nat)
    requires WellLinked(files, base) && AllClear(files) && base <= |m|
    requires Position(files, k, q) && NameAt(files, k, q) != ""
    ensures Borrow(files[k], m, RelAt(files, k, q)).Done?
  {
    assert SlotPlaced(files, base, k, q) && RelClear(files, k, q);
    hide FindSection, NearestDefiner, Typed, LoadWord, FunctionName, IsObject;
    assert !OnSection(files, k, q);
  }

  /** The search for an object comes to an end, except for an ABS32 that finds nothing. */
  lemma {:induction false} ObjectSearched(files: seq<File>, base: nat, m: Memory, i: nat, r: nat, k: int, res: Resolution)
    requires WellLinked(files, base) && AllClear(files) && base <= |m|
    requires Position(files, i, r) && -1 <= k < i && res.fileIdx <= i && res.ptr == 0
    requires IsData(RelAt(files, i, r).kind) && IsObject(files, NameAt(files, i, r))
    requires RelAt(files, i, r).kind == GlobDat ==> Typed(files, NameAt(files, i, r), ObjectSym)
    ensures var name := NameAt(files, i, r);
            SearchBelow(files, m, i, r, k, res).Done? <==>
              RelAt(files, i, r).kind == GlobDat || NearestDefiner(files, k, name).Some? || NamedBefore(files, i, r, k, name)
    decreases k + 1, 0
  {
    var name := NameAt(files, i, r);
    if k >= 0 {
      if HasTables(files[k]) && FindSym(files[k].syms.value, name).Some? {
        ObjectInFile(files, base, m, i, r, k, FindSym(files[k].syms.value, name).value, RelCount(files[k]), res);
      } else {
        ObjectSearched(files, base, m, i, r, k - 1, res);
        forall t | Before(files, i, r, k, t)
          ensures NameAt(files, k, t) != name
        {
          RefersByIndex(files, k, t, name);
        }
        NamedLower(files, i, r, k, name);
      }
    } else {
      assert !NamedBefore(files, i, r, k, name);
    }
  }

  lemma {:induction false} NamedLower(files: seq<File>, i: nat, r: nat, k: nat, name: string)
    requires SymIndicesOk(files) && forall t :: Before(files, i, r, k, t) ==> NameAt(files, k, t) != name
    ensures NamedBefore(files, i, r, k, name) <==> NamedBefore(files, i, r, k - 1, name)
  {
    if NamedBefore(files, i, r, k, name) {
      var q, t :| Before(files, i, r, q, t) && q <= k && NameAt(files, q, t) == name;
      assert q <= k - 1;
    }
    if NamedBefore(files, i, r, k - 1, name) {
      var q, t :| Before(files, i, r, q, t) && q <= k - 1 && NameAt(files, q, t) == name;
      assert q <= k;
    }
  }

  lemma {:induction false} ObjectInFile(files: seq<File>, base: nat, m: Memory, i: nat, r: nat, k: nat, x: nat, hi: nat, res: Resolution)
    requires WellLinked(files, base) && AllClear(files) && base <= |m|
    requires Position(files, i, r) && k <= i && res.fileIdx <= i && res.ptr == 0
    requires IsData(RelAt(files, i, r).kind) && IsObject(files, NameAt(files, i, r))
    requires RelAt(files, i, r).kind == GlobDat ==> Typed(files, NameAt(files, i, r), ObjectSym)
    requires HasTables(files[k]) && FindSym(files[k].syms.value, NameAt(files, i, r)) == Some(x)
    requires hi <= RelCount(files[k]) && hi == (if k < i then RelCount(files[k]) else r)
    ensures var name := NameAt(files, i, r);
            SearchFile(files, m, i, r, k, x, hi, res).Done? <==>
              RelAt(files, i, r).kind == GlobDat || NearestDefiner(files, k, name).Some? || NamedBefore(files, i, r, k, name)
    decreases k, 1
  {
    var f, rel, name := files[k], RelAt(files, i, r), NameAt(files, i, r);
    var sym := f.syms.value[x];
    assert Mentions(f, name) && CheckType(rel.kind, sym.ty) == TypeOk;
    if Defined(sym) {
      assert Defines(f, name);
    } else {
      var res1 := UseSymbol(f, k, rel.kind, sym, res);
      var c := Candidate(RelsOf(f), x, hi, k == i && x == rel.sym, rel.kind);
      match c {
        case None =>
          NoNameBelow(files, base, i, r, k, x, hi, k == i && x == rel.sym, rel.kind, name);
          ObjectSearched(files, base, m, i, r, k - 1, res1);
          NamedLower(files, i, r, k, name);
        case Some(q) =>
          BorrowsNamed(files, base, m, k, q);
          assert Before(files, i, r, k, q) && NameAt(files, k, q) == name;
          assert NamedBefore(files, i, r, k, name);
      }
    }
  }

  // ----- functions -----

  /** The search is for a FUNCDESC, and nothing in the files up to `k` lends to it. */
  ghost predicate NoneLends(files: seq<File>, i: nat, k: int, name: string)
    requires SymIndicesOk(files)
  {
    forall q, t :: Position(files, q, t) && q <= k ==> !Lends(files, i, name, q, t)
  }

  /** The search for a function comes to an end when its definer is still ahead or has
      been met; a descriptor is made only when nothing can be borrowed. */
  lemma {:induction false} FunctionSearched(files: seq<File>, base: nat, m: Memory, i: nat, r: nat, k: int, res: Resolution)
    requires WellLinked(files, base) && AllClear(files) && base <= |m|
    requires Position(files, i, r) && -1 <= k <= i && res.fileIdx <= i && (k < i || RelAt(files, i, r).kind == FuncDesc)
    requires IsFunc(RelAt(files, i, r).kind) && IsFunction(files, NameAt(files, i, r)) && Typed(files, NameAt(files, i, r), FuncSym)
    requires res.ptr != 0 || NearestDefiner(files, |files| - 1, NameAt(files, i, r)).value <= k
    ensures SearchBelow(files, m, i, r, k, res).Done?
    ensures RelAt(files, i, r).kind == FuncDesc && SearchBelow(files, m, i, r, k, res).value.membase != 0 ==>
              NoneLends(files, i, k, NameAt(files, i, r))
    decreases k + 1, 0
  {
    var name := NameAt(files, i, r);
    if k >= 0 {
      if HasTables(files[k]) && FindSym(files[k].syms.value, name).Some? {
        FunctionInFile(files, base, m, i, r, k, FindSym(files[k].syms.value, name).value, RelCount(files[k]), res);
      } else {
        assert !Defines(files[k], name);
        FunctionSearched(files, base, m, i, r, k - 1, res);
        forall t | Position(files, k, t)
          ensures NameAt(files, k, t) != name
        {
          RefersByIndex(files, k, t, name);
        }
        LendsLower(files, i, k, name);
      }
    }
  }

  lemma {:induction false} LendsLower(files: seq<File>, i: nat, k: nat, name: string)
    requires SymIndicesOk(files) && k <= i && forall t :: Position(files, k, t) ==> !Lends(files, i, name, k, t)
    ensures NoneLends(files, i, k - 1, name) ==> NoneLends(files, i, k, name)
  {
    hide Lends;
    if NoneLends(files, i, k - 1, name) {
      forall q, t | Position(files, q, t) && q <= k
        ensures !Lends(files, i, name, q, t)
      {
        if q < k {
          assert q <= k - 1;
        }
      }
    }
  }

  /** A file in which the search finds no relocation to borrow from has none that lends. */
  lemma {:induction false} NoneLendsHere(files: seq<File>, base: nat, i: nat, r: nat, k: nat, x: nat, name: string)
    requires WellLinked(files, base) && Position(files, i, r) && k <= i && name == NameAt(files, i, r) != ""
    requires RelAt(files, i, r).kind == FuncDesc && HasTables(files[k]) && FindSym(files[k].syms.value, name) == Some(x)
    requires Candidate(RelsOf(files[k]), x, RelCount(files[k]), k == i && x == RelAt(files, i, r).sym, FuncDesc).None?
    ensures forall t :: Position(files, k, t) ==> !Lends(files, i, name, k, t)
  {
    forall t | Position(files, k, t)
      ensures !Lends(files, i, name, k, t)
    {
      RefersByIndex(files, k, t, name);
      if k == i {
        RefersByIndex(files, i, r, name);
      }
      assert !Borrowable(RelsOf(files[k])[t], x, k == i && x == RelAt(files, i, r).sym, FuncDesc);
    }
  }

  lemma {:induction false} FunctionInFile(files: seq<File>, base: nat, m: Memory, i: nat, r: nat, k: nat, x: nat,
                                        hi: nat, res: Resolution)
    requires WellLinked(files, base) && AllClear(files) && base <= |m|
    requires Position(files, i, r) && k <= i && res.fileIdx <= i
    requires IsFunc(RelAt(files, i, r).kind) && IsFunction(files, NameAt(files, i, r)) && Typed(files, NameAt(files, i, r), FuncSym)
    requires HasTables(files[k]) && FindSym(files[k].syms.value, NameAt(files, i, r)) == Some(x)
    requires hi == if k < i || RelAt(files, i, r).kind == FuncDesc then RelCount(files[k]) else r
    requires res.ptr != 0 || NearestDefiner(files, |files| - 1, NameAt(files, i, r)).value <= k
    ensures SearchFile(files, m, i, r, k, x, hi, res).Done?
    ensures RelAt(files, i, r).kind == FuncDesc && SearchFile(files, m, i, r, k, x, hi, res).value.membase != 0 ==>
              NoneLends(files, i, k, NameAt(files, i, r))
    decreases k, 1
  {
    hide Candidate, Borrow, FindSym, SearchBelow, NoneLends, SlotsApart;
    var f, rel, name := files[k], RelAt(files, i, r), NameAt(files, i, r);
    var sym := f.syms.value[x];
    assert Mentions(f, name) && SymNamed(f, name) == sym && CheckType(rel.kind, sym.ty) == TypeOk;
    if Defined(sym) {
      assert Defines(f, name);
    } else {
      assert !Defines(f, name);
    }
    if !Defined(sym) || rel.kind == FuncDesc {
      var res1 := UseSymbol(f, k, rel.kind, sym, res);
      var c := Candidate(RelsOf(f), x, hi, k == i && x == rel.sym, rel.kind);
      match c {
        case None =>
          FunctionSearched(files, base, m, i, r, k - 1, res1);
          if rel.kind == FuncDesc {
            NoneLendsHere(files, base, i, r, k, x, name);
            LendsLower(files, i, k, name);
          }
        case Some(q) =>
          BorrowsNamed(files, base, m, k, q);
      }
    }
  }

  // ----- functions that are not defined in time -----

  lemma {:induction false} ValueDefined(files: seq<File>, m0: Memory, base: nat, i: nat, r: nat, q: nat, t: nat)
    requires WellLinked(files, base) && ServedBefore(files, m0, base, i, r) && Before(files, i, r, q, t)
    requires RelAt(files, q, t).kind == FuncDescValue && NameAt(files, q, t) != ""
    ensures NearestDefiner(files, q, NameAt(files, q, t)).Some?
  {
    hide NearestDefiner, PoolAt, NeedsPair, CodeInMemory, Slot, SlotsApart;
    assert !OnSection(files, q, t) && Served(files, m0, base, q, t);
  }

  /** A function that an earlier file refers to is defined at or before that file. */
  lemma {:induction false} EarlierDefined(files: seq<File>, m0: Memory, base: nat, i: nat, r: nat, q: nat, t: nat)
    requires WellLinked(files, base) && AllClear(files) && ServedBefore(files, m0, base, i, r)
    requires Position(files, q, t) && q < i && FunctionName(files, NameAt(files, q, t))
    ensures NearestDefiner(files, q, NameAt(files, q, t)).Some?
  {
    hide NearestDefiner, PoolAt, NeedsPair, CodeInMemory, Slot, SlotsApart, Typed;
    var name := NameAt(files, q, t);
    assert RelClear(files, q, t) && Before(files, i, r, q, t);
    if RelAt(files, q, t).kind == FuncDescValue {
      ValueDefined(files, m0, base, i, r, q, t);
    } else {
      assert Served(files, m0, base, q, t);
      if u: nat :| Position(files, q, u) && RelAt(files, q, u).kind == FuncDescValue && NameAt(files, q, u) == name {
        ValueDefined(files, m0, base, i, r, q, u);
      }
    }
  }

  /** A function that is defined by file `i` is defined in time for every file that the
      pass has been through. */
  lemma {:induction false} DefinedInTime(files: seq<File>, m0: Memory, base: nat, i: nat, r: nat, name: string)
    requires WellLinked(files, base) && AllClear(files) && ServedBefore(files, m0, base, i, r)
    requires FunctionName(files, name) && i < |files| && NearestDefiner(files, i, name).Some?
    ensures IsFunction(files, name) && NearestDefiner(files, |files| - 1, name).value <= i
  {
    hide WellLinked, ServedBefore, AllClear, Typed;
    IndicesOk(files, base);
    var d := NearestDefiner(files, i, name).value;
    assert Defines(files[d], name);
    assert NearestDefiner(files, |files| - 1, name) == Some(d);
    forall k, s {:trigger Position(files, k, s)} | Position(files, k, s) && NameAt(files, k, s) == name
      ensures d <= k
    {
      if k < i {
        EarlierDefined(files, m0, base, i, r, k, s);
        assert Defines(files[NearestDefiner(files, k, name).value], name);
      }
    }
  }

  /** Nothing in the files up to `k` refers to `name`. */
  ghost predicate NotReferred(files: seq<File>, k: int, name: string)
    requires SymIndicesOk(files)
  {
    forall q, t :: Position(files, q, t) && q <= k ==> NameAt(files, q, t) != name
  }

  lemma {:induction false} UnreferredBelow(files: seq<File>, m0: Memory, base: nat, i: nat, r: nat, name: string)
    requires WellLinked(files, base) && AllClear(files) && ServedBefore(files, m0, base, i, r)
    requires FunctionName(files, name) && i < |files| && NearestDefiner(files, i, name).None?
    ensures NotReferred(files, i - 1, name)
  {
    hide WellLinked, ServedBefore, AllClear, FunctionName;
    IndicesOk(files, base);
    forall q, t | Position(files, q, t) && q <= i - 1
      ensures NameAt(files, q, t) != name
    {
      if NameAt(files, q, t) == name {
        EarlierDefined(files, m0, base, i, r, q, t);
        DefinerStays(files, q, i, name);
      }
    }
  }

  lemma DefinerStays(files: seq<File>, q: nat, i: nat, name: string)
    requires q <= i < |files| && NearestDefiner(files, q, name).Some?
    ensures NearestDefiner(files, i, name).Some?
  {
    assert Defines(files[NearestDefiner(files, q, name).value], name);
  }

  /** The search over files that neither define the function nor refer to it traps. */
  lemma {:induction false} UndefinedBelow(files: seq<File>, base: nat, m: Memory, i: nat, r: nat, k: int, res: Resolution)
    requires WellLinked(files, base) && Position(files, i, r) && -1 <= k < i && res.fileIdx <= i && res.ptr == 0
    requires IsFunc(RelAt(files, i, r).kind) && FunctionName(files, NameAt(files, i, r))
    requires NearestDefiner(files, k, NameAt(files, i, r)).None? && NotReferred(files, k, NameAt(files, i, r))
    ensures SearchBelow(files, m, i, r, k, res).Trapped?
    decreases k + 1
  {
    hide Borrow, SlotsApart, Slot;
    var name := NameAt(files, i, r);
    if k >= 0 {
      UndefinedBelow(files, base, m, i, r, k - 1, res);
      if HasTables(files[k]) && FindSym(files[k].syms.value, name).Some? {
        var x := FindSym(files[k].syms.value, name).value;
        assert Mentions(files[k], name) && !Defines(files[k], name);
        forall c | 0 <= c < RelCount(files[k])
          ensures RelsOf(files[k])[c].sym != x
        {
          assert Position(files, k, c) && NameAt(files, k, c) != name;
        }
        assert Candidate(RelsOf(files[k]), x, RelCount(files[k]), false, RelAt(files, i, r).kind).None?;
      }
    }
  }

  /** In its own file an undefined function can only be had from a FUNCDESC_VALUE. */
  lemma {:induction false} UndefinedHere(files: seq<File>, base: nat, m: Memory, i: nat, r: nat, hi: nat)
    requires WellLinked(files, base) && AllClear(files) && base <= |m| && Position(files, i, r)
    requires IsFunc(RelAt(files, i, r).kind) && FunctionName(files, NameAt(files, i, r)) && HasTables(files[i])
    requires NearestDefiner(files, i, NameAt(files, i, r)).None? && NotReferred(files, i - 1, NameAt(files, i, r))
    requires hi <= RelCount(files[i])
    ensures var rel := RelAt(files, i, r);
            var out := SearchFile(files, m, i, r, i, rel.sym, hi, Unresolved(i));
            match Candidate(RelsOf(files[i]), rel.sym, hi, true, rel.kind)
            case None => out.Trapped?
            case Some(_) => out.Done? && out.value.membase == 0
  {
    hide Candidate, Borrow, SearchBelow, SlotsApart, Slot, NearestDefiner, FindSym;
    var rel, name := RelAt(files, i, r), NameAt(files, i, r);
    NameSelectsIndex(files[i].syms.value, rel.sym, name);
    assert Mentions(files[i], name) && SymNamed(files[i], name) == SymAt(files, i, r) && !Defines(files[i], name);
    match Candidate(RelsOf(files[i]), rel.sym, hi, true, rel.kind) {
      case None =>
        UndefinedLower(files, i, name);
        UndefinedBelow(files, base, m, i, r, i - 1, Unresolved(i));
      case Some(c) =>
        assert Position(files, i, c) && NameAt(files, i, c) == name;
        BorrowsNamed(files, base, m, i, c);
    }
  }

  lemma UndefinedLower(files: seq<File>, k: nat, name: string)
    requires k < |files| && NearestDefiner(files, k, name).None?
    ensures NearestDefiner(files, k - 1, name).None? && !Defines(files[k], name)
  {
  }

  // ----- one relocation -----

  /** What is known when the pass comes to relocation `(i, r)`. */
  ghost predicate AtRel(files: seq<File>, m0: Memory, base: nat, i: nat, r: nat, st: LinkState)
    requires SymIndicesOk(files)
  {
    && WellLinked(files, base) && AllClear(files) && MemoryOk(m0, base) && Position(files, i, r)
    && LinkInv(files, m0, base, i, r, st) && st.pool == PoolAt(files, base, i, r) && ServedBefore(files, m0, base, i, r)
  }

  /** The relocation is made just if it is served, and takes what it takes of the pool. */
  ghost predicate GoesAsServed(files: seq<File>, m0: Memory, base: nat, i: nat, r: nat, st: LinkState)
    requires SymIndicesOk(files) && Position(files, i, r)
  {
    && (LinkRel(files, i, r, st).Done? <==> Served(files, m0, base, i, r))
    && (LinkRel(files, i, r, st).Done? ==> LinkRel(files, i, r, st).value.pool == PoolNext(files, i, r, st.pool))
  }

  lemma {:induction false} SlotWritable(files: seq<File>, m0: Memory, base: nat, i: nat, r: nat, st: LinkState)
    requires SymIndicesOk(files) && AtRel(files, m0, base, i, r, st)
    ensures 0 < Slot(files, i, r) && Slot(files, i, r) + SlotSize(RelAt(files, i, r).kind) <= |st.mem| == |m0| < WORD_LIMIT
    ensures base <= st.pool <= |st.mem| && files[i].membase != 0 && HasTables(files[i])
    ensures forall w: Word :: WriteSlot(st, Slot(files, i, r), w).Done? && WriteSlot(st, Slot(files, i, r), w).value.pool == st.pool
  {
    assert SlotPlaced(files, base, i, r);
    hide SlotsDone, PoolOk, OthersKept, AllClear, SlotsApart, Slot, PoolAt;
  }

  lemma {:induction false} PlainStep(files: seq<File>, m0: Memory, base: nat, i: nat, r: nat, st: LinkState)
    requires SymIndicesOk(files) && AtRel(files, m0, base, i, r, st)
    requires RelAt(files, i, r).kind == Relative || RelAt(files, i, r).kind == OtherRel
    ensures GoesAsServed(files, m0, base, i, r, st)
  {
    SlotWritable(files, m0, base, i, r, st);
    hide AtRel, Slot, WriteSlot, Resolve, LoadWord, PoolAt;
  }

  lemma SectionRel(files: seq<File>, m0: Memory, base: nat, i: nat, r: nat, st: LinkState)
    requires SymIndicesOk(files) && Position(files, i, r) && OnSection(files, i, r)
    ensures var found := Resolve(files, st.mem, i, r);
            && found == FromSection(files[i], i, st.mem, RelAt(files, i, r), SymAt(files, i, r))
            && LinkRel(files, i, r, st) == (if found.Trapped? then Trapped else LinkFuncDescValue(files, i, r, st, found.value))
            && (Served(files, m0, base, i, r) <==> SectionWithIndex(AllSections(files[i]), SymAt(files, i, r).shndx).Some?)
            && PoolNext(files, i, r, st.pool) == st.pool
  {
    hide LinkFuncDescValue, PoolAt, SectionWithIndex, RunAddr, SearchBelow, Candidate, LoadWord, SymIndicesOk;
  }

  lemma {:induction false} SectionStep(files: seq<File>, m0: Memory, base: nat, i: nat, r: nat, st: LinkState)
    requires SymIndicesOk(files) && AtRel(files, m0, base, i, r, st) && OnSection(files, i, r)
    ensures GoesAsServed(files, m0, base, i, r, st)
  {
    SlotWritable(files, m0, base, i, r, st);
    SectionRel(files, m0, base, i, r, st);
    SlotIs(files, i, r);
    hide AtRel, Slot, WriteSlot, LoadWord, StoreWord, PoolAt, SectionWithIndex, RunAddr, Resolve, LinkRel, Served, PoolNext, SymIndicesOk;
  }

  lemma SlotIs(files: seq<File>, i: nat, r: nat)
    requires Position(files, i, r)
    ensures Slot(files, i, r) == RunAddr(files[i], RelAt(files, i, r).offset)
  {
    hide RunAddr;
  }

  /** What the search for an object comes to. */
  lemma {:induction false} ObjectResolved(files: seq<File>, m0: Memory, base: nat, i: nat, r: nat, st: LinkState)
    requires SymIndicesOk(files) && AtRel(files, m0, base, i, r, st) && IsData(RelAt(files, i, r).kind)
    ensures var kind, name, out := RelAt(files, i, r).kind, NameAt(files, i, r), Resolve(files, st.mem, i, r);
            && IsObject(files, name) && Mentions(files[i], name)
            && (out.Done? <==> kind == GlobDat || NearestDefiner(files, i, name).Some? || NamedBefore(files, i, r, i, name))
            && (out.Done? ==> DataFound(files, st.mem, i, r, i, name, Unresolved(i), out.value))
  {
    SlotWritable(files, m0, base, i, r, st);
    assert RelClear(files, i, r);
    hide LinkInv, PoolAt, Slot, SlotsApart, SearchBelow, SearchFile, NearestDefiner, DataFound, NamedBefore, FindSym;
    var rel, name := RelAt(files, i, r), NameAt(files, i, r);
    NameSelectsIndex(files[i].syms.value, rel.sym, name);
    ObjectInFile(files, base, st.mem, i, r, i, rel.sym, r, Unresolved(i));
    if Resolve(files, st.mem, i, r).Done? {
      SearchFileData(files, base, st.mem, i, r, i, rel.sym, r, Unresolved(i));
    }
  }

  lemma {:induction false} BlockOutcome(files: seq<File>, i: nat, r: nat, st: LinkState, name: string, res: Resolution)
    requires SymIndicesOk(files) && Position(files, i, r) && Nowhere(files, i, r, i, name, GlobDat, Unresolved(i), res) && Mentions(files[i], name)
    requires 0 < Slot(files, i, r) && Slot(files, i, r) + 4 <= |st.mem| < WORD_LIMIT && st.pool <= |st.mem|
    ensures LinkBlock(files, i, r, st, res).Done? <==>
              FirstMention(files, i, name) != Some(i) && st.pool + BlockSize(files, i, name) <= |st.mem|
    ensures LinkBlock(files, i, r, st, res).Done? ==>
              LinkBlock(files, i, r, st, res).value.pool == AlignUp(st.pool + BlockSize(files, i, name), 2)
  {
    hide Slot, NearestDefiner, FindSym, AlignUp, StoreWord;
  }

  /** Which of the three results it is follows from the tables. */
  lemma {:induction false} ObjectCases(files: seq<File>, m0: Memory, base: nat, i: nat, r: nat, st: LinkState, name: string, out: Resolution)
    requires SymIndicesOk(files) && AtRel(files, m0, base, i, r, st) && name == NameAt(files, i, r) && IsObject(files, name)
    requires DataFound(files, st.mem, i, r, i, name, Unresolved(i), out)
    ensures out.ptr == 0 <==> NearestDefiner(files, i, name).None? && !NamedBefore(files, i, r, i, name)
    ensures out.ptr == 0 ==> Nowhere(files, i, r, i, name, RelAt(files, i, r).kind, Unresolved(i), out)
  {
    hide NearestDefiner, FirstMention, Slot, LoadWord, WellLinked, AllClear, PoolAt, SymNamed, SlotsDone, PoolOk, OthersKept, FindSym;
    if BySymbol(files, i, name, out) {
      assert Defines(files[out.fileIdx], name) by { DefinerDefines(files, i, name); }
    } else if ByDataSlot(files, st.mem, i, r, i, name, out) {
      BorrowedData(files, m0, base, i, r, st, name, out);
      var q: nat, t: nat :| FromDataSlot(files, st.mem, i, r, i, q, t, name, out.ptr);
      assert Before(files, i, r, q, t) && q <= i && NameAt(files, q, t) == name;
    }
  }

  lemma DefinerDefines(files: seq<File>, k: int, name: string)
    requires k < |files| && NearestDefiner(files, k, name).Some?
    ensures Defines(files[NearestDefiner(files, k, name).value], name)
  {
  }

  lemma ObjectRel(files: seq<File>, m0: Memory, base: nat, i: nat, r: nat, st: LinkState)
    requires SymIndicesOk(files) && Position(files, i, r) && IsData(RelAt(files, i, r).kind)
    ensures var kind, name, found := RelAt(files, i, r).kind, NameAt(files, i, r), Resolve(files, st.mem, i, r);
            && (LinkRel(files, i, r, st) == if found.Trapped? then Trapped
                                            else if kind == GlobDat && found.value.ptr == 0 then LinkBlock(files, i, r, st, found.value)
                                            else LinkData(files, i, r, st, found.value))
            && (Served(files, m0, base, i, r) <==>
                  || NearestDefiner(files, i, name).Some? || NamedBefore(files, i, r, i, name)
                  || (kind == GlobDat && FirstMention(files, i, name) != Some(i) &&
                      PoolAt(files, base, i, r) + BlockSize(files, i, name) <= |m0|))
            && PoolNext(files, i, r, st.pool) ==
                 if kind == GlobDat && NearestDefiner(files, i, name).None? && !NamedBefore(files, i, r, i, name)
                 then AlignUp(st.pool + BlockSize(files, i, name), 2) else st.pool
  {
    hide Resolve, LinkBlock, LinkData, NearestDefiner, NamedBefore, FirstMention, PoolAt, BlockSize, AlignUp, SymIndicesOk;
  }

  lemma {:induction false} ObjectStep(files: seq<File>, m0: Memory, base: nat, i: nat, r: nat, st: LinkState)
    requires SymIndicesOk(files) && AtRel(files, m0, base, i, r, st) && IsData(RelAt(files, i, r).kind)
    ensures GoesAsServed(files, m0, base, i, r, st)
  {
    hide AtRel, Slot, WriteSlot, LoadWord, PoolAt, NearestDefiner, FirstMention, NamedBefore, DataFound, IsObject, Resolve, AlignUp, BlockSize,
      Nowhere, LinkBlock, Target, SymIndicesOk, LinkRel, Served, PoolNext, Mentions;
    PositionIs(files, m0, base, i, r, st);
    SlotWritable(files, m0, base, i, r, st);
    ObjectResolved(files, m0, base, i, r, st);
    PoolIs(files, m0, base, i, r, st);
    ObjectRel(files, m0, base, i, r, st);
    var name, found := NameAt(files, i, r), Resolve(files, st.mem, i, r);
    if found.Done? {
      ObjectCases(files, m0, base, i, r, st, name, found.value);
      if found.value.ptr == 0 {
        NowhereKind(files, i, r, name, found.value);
        BlockOutcome(files, i, r, st, name, found.value);
      }
    }
  }

  lemma PoolIs(files: seq<File>, m0: Memory, base: nat, i: nat, r: nat, st: LinkState)
    requires SymIndicesOk(files) && AtRel(files, m0, base, i, r, st)
    ensures st.pool == PoolAt(files, base, i, r)
  {
    hide LinkInv, WellLinked, AllClear, PoolAt;
  }

  lemma NowhereKind(files: seq<File>, i: nat, r: nat, name: string, out: Resolution)
    requires SymIndicesOk(files) && Position(files, i, r)
    requires Nowhere(files, i, r, i, name, RelAt(files, i, r).kind, Unresolved(i), out)
    ensures RelAt(files, i, r).kind == GlobDat
  {
  }

  /** What the search comes to for a function that is defined in time. */
  lemma {:induction false} FunctionResolved(files: seq<File>, m0: Memory, base: nat, i: nat, r: nat, st: LinkState)
    requires SymIndicesOk(files) && AtRel(files, m0, base, i, r, st) && IsFunc(RelAt(files, i, r).kind) && !OnSection(files, i, r)
    requires NearestDefiner(files, i, NameAt(files, i, r)).Some?
    ensures var kind, name, out := RelAt(files, i, r).kind, NameAt(files, i, r), Resolve(files, st.mem, i, r);
            && IsFunction(files, name) && out.Done? && FuncFound(files, st.mem, i, r, name, out.value)
            && (kind == FuncDesc && out.value.membase != 0 ==> NoneLends(files, i, i, name))
  {
    SlotWritable(files, m0, base, i, r, st);
    assert RelClear(files, i, r);
    var rel, name := RelAt(files, i, r), NameAt(files, i, r);
    hide LinkInv, PoolAt, Slot, SlotsApart, SearchBelow, SearchFile, NearestDefiner, FuncFound, NoneLends, FindSym, ServedBefore, IsFunction;
    DefinedInTime(files, m0, base, i, r, name);
    NameSelectsIndex(files[i].syms.value, rel.sym, name);
    if rel.kind == FuncDesc {
      FunctionSearched(files, base, st.mem, i, r, i, Unresolved(i));
      SearchBelowFunc(files, base, st.mem, i, r, i, Unresolved(i));
    } else {
      FunctionInFile(files, base, st.mem, i, r, i, rel.sym, r, Unresolved(i));
      SearchFileFunc(files, base, st.mem, i, r, i, rel.sym, r, Unresolved(i));
    }
  }

  /** What it comes to for one that is not. */
  lemma {:induction false} UndefinedResolved(files: seq<File>, m0: Memory, base: nat, i: nat, r: nat, st: LinkState)
    requires SymIndicesOk(files) && AtRel(files, m0, base, i, r, st) && IsFunc(RelAt(files, i, r).kind) && !OnSection(files, i, r)
    requires NearestDefiner(files, i, NameAt(files, i, r)).None?
    ensures var kind, name, out := RelAt(files, i, r).kind, NameAt(files, i, r), Resolve(files, st.mem, i, r);
            && (kind == FuncDescValue ==> out.Trapped?)
            && (kind == FuncDesc ==> if OwnValue(files, i, name) then out.Done? && out.value.membase == 0 else out.Trapped?)
  {
    SlotWritable(files, m0, base, i, r, st);
    assert RelClear(files, i, r);
    var rel, name := RelAt(files, i, r), NameAt(files, i, r);
    hide LinkInv, PoolAt, Slot, SlotsApart, NearestDefiner, FindSym, ServedBefore, FunctionName, OwnValue, SearchFile, Candidate;
    UnreferredBelow(files, m0, base, i, r, name);
    NameSelectsIndex(files[i].syms.value, rel.sym, name);
    UndefinedHere(files, base, st.mem, i, r, if rel.kind == FuncDesc then RelCount(files[i]) else r);
    if rel.kind == FuncDesc {
      OwnCandidate(files, base, i, r);
    } else {
      NoValueBefore(files, m0, base, i, r);
    }
  }

  /** A FUNCDESC finds a candidate in its own file just if there is a FUNCDESC_VALUE. */
  lemma {:induction false} OwnCandidate(files: seq<File>, base: nat, i: nat, r: nat)
    requires WellLinked(files, base) && Position(files, i, r) && HasTables(files[i]) && NameAt(files, i, r) != ""
    ensures Candidate(RelsOf(files[i]), RelAt(files, i, r).sym, RelCount(files[i]), true, FuncDesc).Some? <==> OwnValue(files, i, NameAt(files, i, r))
  {
    hide SlotsApart, Slot;
    var sym, name := RelAt(files, i, r).sym, NameAt(files, i, r);
    var c := Candidate(RelsOf(files[i]), sym, RelCount(files[i]), true, FuncDesc);
    if c.Some? {
      assert Position(files, i, c.value) && NameAt(files, i, c.value) == name;
    }
    if t: nat :| Position(files, i, t) && RelAt(files, i, t).kind == FuncDescValue && NameAt(files, i, t) == name {
      RefersByIndex(files, i, t, name);
      RefersByIndex(files, i, r, name);
      assert Borrowable(RelsOf(files[i])[t], sym, true, FuncDesc);
    }
  }

  /** No FUNCDESC_VALUE for an undefined function comes before another. */
  lemma {:induction false} NoValueBefore(files: seq<File>, m0: Memory, base: nat, i: nat, r: nat)
    requires WellLinked(files, base) && AllClear(files) && ServedBefore(files, m0, base, i, r) && Position(files, i, r)
    requires NameAt(files, i, r) != "" && NearestDefiner(files, i, NameAt(files, i, r)).None?
    requires FunctionName(files, NameAt(files, i, r))
    ensures Candidate(RelsOf(files[i]), RelAt(files, i, r).sym, r, true, FuncDescValue).None?
  {
    hide SlotsApart, Slot, NearestDefiner, PoolAt, NeedsPair, CodeInMemory, Typed;
    var c := Candidate(RelsOf(files[i]), RelAt(files, i, r).sym, r, true, FuncDescValue);
    if c.Some? {
      assert Before(files, i, r, i, c.value) && NameAt(files, i, c.value) == NameAt(files, i, r);
      assert RelClear(files, i, c.value) && Served(files, m0, base, i, c.value) && !OnSection(files, i, c.value);
    }
  }

  /** A FUNCDESC_VALUE that comes before lies in memory, and so do the function's words. */
  lemma {:induction false} ValueBefore(files: seq<File>, m0: Memory, base: nat, i: nat, r: nat, q: nat, t: nat, name: string)
    requires WellLinked(files, base) && ServedBefore(files, m0, base, i, r) && Before(files, i, r, q, t)
    requires RelAt(files, q, t).kind == FuncDescValue && !OnSection(files, q, t) && NameAt(files, q, t) == name
    ensures Slot(files, q, t) + 8 <= base && (HasNoMemory(files, name) ==> CodeInMemory(files, m0, name))
  {
    assert SlotPlaced(files, base, q, t) && Served(files, m0, base, q, t);
    hide NearestDefiner, PoolAt, SlotsApart, CodeInMemory, HasNoMemory;
  }

  /** Two words can be copied from where the search ends just if the function's words
      are in memory, as far as it depends on them. */
  lemma {:induction false} CopyInRange(files: seq<File>, m0: Memory, base: nat, i: nat, r: nat, st: LinkState, name: string, out: Resolution)
    requires SymIndicesOk(files) && AtRel(files, m0, base, i, r, st) && IsFunction(files, name)
    requires RelAt(files, i, r).kind == FuncDescValue && FuncFound(files, st.mem, i, r, name, out) && out.membase == 0
    ensures out.ptr + 8 <= |st.mem| <==> (HasNoMemory(files, name) ==> CodeInMemory(files, m0, name))
  {
    assert |st.mem| == |m0|;
    hide NearestDefiner, SymNamed, RunAddr, IsFunction, SectionSlotOk, DataSlotOk, LoadWord, FirstMention, Slot, WellLinked,
      AllClear, PoolAt, OthersKept, FindSym, ServedBefore, SlotOk, ItemOk, PairAt;
    if BySymbol(files, |files| - 1, name, out) {
    } else if q: nat, t: nat :| FromDescSlot(files, i, r, q, t, name, out.ptr) {
      ValueBefore(files, m0, base, i, r, q, t, name);
    } else {
      var q: nat, t: nat :| FromFuncDesc(files, st.mem, i, q, t, name, out.ptr);
      hide SlotsDone;
      BorrowedFuncDesc(files, m0, base, i, r, st, q, t, name, out.ptr);
      if IsDescSlot(files, q, name, out.ptr) {
        var k: nat, s: nat :| Position(files, k, s) && DescSlotAt(files, q, name, out.ptr, k, s);
        ValueBefore(files, m0, base, i, r, k, s, name);
      } else if !AtCode(files, name, out.ptr) {
        PairInPool(files, m0, base, st, name, out.ptr);
      }
    }
  }

  lemma {:induction false} PairInPool(files: seq<File>, m0: Memory, base: nat, st: LinkState, name: string, p: nat)
    requires SymIndicesOk(files) && PoolOk(files, m0, st.mem, base, st.pool, st.log) && st.pool <= |st.mem|
    requires InPool(files, st.log, FuncDesc, name, p)
    ensures p + 8 <= |st.mem|
  {
    hide IsFunction, FunctionOk, PairAt, ItemsApart;
    var t :| 0 <= t < |st.log| && ItemFor(files, st.log[t], FuncDesc, name) && st.log[t].addr == p;
    assert ItemOk(files, m0, st.mem, base, st.pool, st.log[t]);
  }

  lemma ValueRel(files: seq<File>, m0: Memory, base: nat, i: nat, r: nat, st: LinkState)
    requires SymIndicesOk(files) && Position(files, i, r) && RelAt(files, i, r).kind == FuncDescValue && !OnSection(files, i, r)
    ensures var name, found := NameAt(files, i, r), Resolve(files, st.mem, i, r);
            && LinkRel(files, i, r, st) == (if found.Trapped? then Trapped else LinkFuncDescValue(files, i, r, st, found.value))
            && (Served(files, m0, base, i, r) <==>
                  NearestDefiner(files, i, name).Some? && (HasNoMemory(files, name) ==> CodeInMemory(files, m0, name)))
            && PoolNext(files, i, r, st.pool) == st.pool
  {
    hide Resolve, LinkFuncDescValue, HasNoMemory, CodeInMemory, PoolAt, SymIndicesOk, NearestDefiner;
  }

  lemma {:induction false} FuncDescValueStep(files: seq<File>, m0: Memory, base: nat, i: nat, r: nat, st: LinkState)
    requires SymIndicesOk(files) && AtRel(files, m0, base, i, r, st) && RelAt(files, i, r).kind == FuncDescValue && !OnSection(files, i, r)
    ensures GoesAsServed(files, m0, base, i, r, st)
  {
    hide AtRel, Slot, WriteSlot, LoadWord, StoreWord, PoolAt, NearestDefiner, FuncFound, NoneLends, IsFunction, Resolve, HasNoMemory, CodeInMemory,
      SymIndicesOk, Target, LinkRel, Served, PoolNext, OwnValue;
    PositionIs(files, m0, base, i, r, st);
    SlotWritable(files, m0, base, i, r, st);
    ValueRel(files, m0, base, i, r, st);
    var name := NameAt(files, i, r);
    if NearestDefiner(files, i, name).None? {
      UndefinedResolved(files, m0, base, i, r, st);
    } else {
      FunctionResolved(files, m0, base, i, r, st);
      var out := Resolve(files, st.mem, i, r).value;
      if out.membase == 0 {
        CopyInRange(files, m0, base, i, r, st, name, out);
      } else {
        FoundWithMemory(files, st.mem, i, r, name, out);
      }
    }
  }

  /** A resolution with a memory base is that of the definer. */
  lemma FoundWithMemory(files: seq<File>, m: Memory, i: nat, r: nat, name: string, out: Resolution)
    requires SymIndicesOk(files) && Position(files, i, r) && FuncFound(files, m, i, r, name, out) && out.membase != 0
    ensures !HasNoMemory(files, name)
  {
    hide FromDescSlot, FromFuncDesc, NearestDefiner;
  }

  /** A FUNCDESC that borrows had something to borrow. */
  lemma {:induction false} FoundToBorrow(files: seq<File>, m: Memory, i: nat, r: nat, name: string, out: Resolution)
    requires SymIndicesOk(files) && Position(files, i, r) && FuncFound(files, m, i, r, name, out) && out.membase == 0
    ensures HasNoMemory(files, name) || exists q, t :: Position(files, q, t) && Lends(files, i, name, q, t)
  {
    hide NearestDefiner, Slot, LoadWord;
    if BySymbol(files, |files| - 1, name, out) {
    } else if q: nat, t: nat :| FromDescSlot(files, i, r, q, t, name, out.ptr) {
      assert Lends(files, i, name, q, t);
    } else {
      var q: nat, t: nat :| FromFuncDesc(files, m, i, q, t, name, out.ptr);
      assert Lends(files, i, name, q, t);
    }
  }

  lemma DescRel(files: seq<File>, m0: Memory, base: nat, i: nat, r: nat, st: LinkState)
    requires SymIndicesOk(files) && Position(files, i, r) && RelAt(files, i, r).kind == FuncDesc
    ensures var name, found := NameAt(files, i, r), Resolve(files, st.mem, i, r);
            && LinkRel(files, i, r, st) == (if found.Trapped? then Trapped else LinkFuncDesc(files, i, r, st, found.value))
            && (Served(files, m0, base, i, r) <==>
                  && (NearestDefiner(files, i, name).Some? || OwnValue(files, i, name))
                  && (NeedsPair(files, i, r) ==> PoolAt(files, base, i, r) + 8 <= |m0|))
            && PoolNext(files, i, r, st.pool) == (if NeedsPair(files, i, r) then st.pool + 8 else st.pool)
            && (NeedsPair(files, i, r) <==>
                  !HasNoMemory(files, name) && forall q, t :: Position(files, q, t) ==> !Lends(files, i, name, q, t))
  {
    hide Resolve, LinkFuncDesc, HasNoMemory, PoolAt, Lends, SymIndicesOk, NearestDefiner, OwnValue;
  }

  lemma OwnValueLends(files: seq<File>, i: nat, name: string)
    requires SymIndicesOk(files) && OwnValue(files, i, name)
    ensures exists q, t :: Position(files, q, t) && Lends(files, i, name, q, t)
  {
    var t: nat :| Position(files, i, t) && RelAt(files, i, t).kind == FuncDescValue && NameAt(files, i, t) == name;
    assert Lends(files, i, name, i, t);
  }

  lemma {:induction false} FuncDescStep(files: seq<File>, m0: Memory, base: nat, i: nat, r: nat, st: LinkState)
    requires SymIndicesOk(files) && AtRel(files, m0, base, i, r, st) && RelAt(files, i, r).kind == FuncDesc
    ensures GoesAsServed(files, m0, base, i, r, st)
  {
    hide AtRel, Slot, LoadWord, StoreWord, PoolAt, NearestDefiner, FuncFound, NoneLends, IsFunction, Resolve, HasNoMemory, CodeInMemory,
      SymIndicesOk, Target, Lends, LinkRel, Served, PoolNext, NeedsPair, OwnValue;
    PositionIs(files, m0, base, i, r, st);
    SlotWritable(files, m0, base, i, r, st);
    PoolIs(files, m0, base, i, r, st);
    DescRel(files, m0, base, i, r, st);
    var name := NameAt(files, i, r);
    if NearestDefiner(files, i, name).None? {
      UndefinedResolved(files, m0, base, i, r, st);
      if OwnValue(files, i, name) {
        OwnValueLends(files, i, name);
      }
    } else {
      FunctionResolved(files, m0, base, i, r, st);
      var out := Resolve(files, st.mem, i, r).value;
      if out.membase == 0 {
        FoundToBorrow(files, st.mem, i, r, name, out);
      } else {
        FoundWithMemory(files, st.mem, i, r, name, out);
        NothingLends(files, i, name);
      }
    }
  }

  lemma NothingLends(files: seq<File>, i: nat, name: string)
    requires SymIndicesOk(files) && NoneLends(files, i, i, name)
    ensures forall q, t :: Position(files, q, t) ==> !Lends(files, i, name, q, t)
  {
  }

  // ----- the whole pass -----

  lemma {:induction false} AnyStep(files: seq<File>, m0: Memory, base: nat, i: nat, r: nat, st: LinkState)
    requires SymIndicesOk(files) && AtRel(files, m0, base, i, r, st)
    ensures GoesAsServed(files, m0, base, i, r, st)
  {
    PositionIs(files, m0, base, i, r, st);
    hide AtRel, GoesAsServed, SymIndicesOk;
    var kind := RelAt(files, i, r).kind;
    if kind == Relative || kind == OtherRel {
      PlainStep(files, m0, base, i, r, st);
    } else if OnSection(files, i, r) {
      SectionStep(files, m0, base, i, r, st);
    } else if kind == FuncDesc {
      FuncDescStep(files, m0, base, i, r, st);
    } else if kind == FuncDescValue {
      FuncDescValueStep(files, m0, base, i, r, st);
    } else {
      ObjectStep(files, m0, base, i, r, st);
    }
  }

  lemma PositionIs(files: seq<File>, m0: Memory, base: nat, i: nat, r: nat, st: LinkState)
    requires SymIndicesOk(files) && AtRel(files, m0, base, i, r, st)
    ensures Position(files, i, r)
  {
    hide LinkInv, WellLinked, AllClear;
  }

  lemma ServedNext(files: seq<File>, m0: Memory, base: nat, i: nat, r: nat)
    requires SymIndicesOk(files) && Position(files, i, r)
    ensures ServedBefore(files, m0, base, i, r + 1) <==> ServedBefore(files, m0, base, i, r) && Served(files, m0, base, i, r)
  {
    hide Served, Position;
    assert Before(files, i, r + 1, i, r);
    assert forall k, s :: Before(files, i, r, k, s) ==> Before(files, i, r + 1, k, s);
  }

  lemma ServedNextFile(files: seq<File>, m0: Memory, base: nat, i: nat)
    requires SymIndicesOk(files) && i < |files|
    ensures ServedBefore(files, m0, base, i + 1, 0) <==> ServedBefore(files, m0, base, i, Visits(files[i]))
  {
    hide Served;
    assert forall k, s :: Before(files, i + 1, 0, k, s) <==> Before(files, i, Visits(files[i]), k, s);
  }

  /** The pass comes to relocation `(i, r)` just if all before it are served; the pool
      pointer is then where the tables say. */
  lemma {:induction false} Reaches(files: seq<File>, m0: Memory, base: nat, i: nat, r: nat)
    requires WellLinked(files, base) && SymIndicesOk(files) && AllClear(files) && MemoryOk(m0, base) && Stage(files, i, r)
    ensures StateAt(files, m0, base, i, r).Done? <==> ServedBefore(files, m0, base, i, r)
    ensures StateAt(files, m0, base, i, r).Done? ==> StateAt(files, m0, base, i, r).value.pool == PoolAt(files, base, i, r)
    decreases i, r
  {
    hide LinkRel, WellLinked, AllClear, LinkInv, SymIndicesOk, MemoryOk, Served, ServedBefore, AtRel, PoolNext, StateAt;
    if r > 0 {
      Reaches(files, m0, base, i, r - 1);
      ServedNext(files, m0, base, i, r - 1);
      NextState(files, m0, base, i, r - 1);
      if StateAt(files, m0, base, i, r - 1).Done? {
        var st := EveryState(files, m0, base, i, r - 1);
        HereNow(files, m0, base, i, r - 1, st);
        AnyStep(files, m0, base, i, r - 1, st);
      }
    } else if i > 0 {
      Reaches(files, m0, base, i - 1, Visits(files[i - 1]));
      ServedNextFile(files, m0, base, i - 1);
      NextFileState(files, m0, base, i - 1);
    } else {
      AtStart(files, m0, base);
    }
  }

  lemma HereNow(files: seq<File>, m0: Memory, base: nat, i: nat, r: nat, st: LinkState)
    requires WellLinked(files, base) && SymIndicesOk(files) && AllClear(files) && MemoryOk(m0, base) && Position(files, i, r)
    requires LinkInv(files, m0, base, i, r, st) && st.pool == PoolAt(files, base, i, r) && ServedBefore(files, m0, base, i, r)
    ensures AtRel(files, m0, base, i, r, st)
  {
    hide WellLinked, AllClear, LinkInv, PoolAt, ServedBefore;
  }

  lemma NextState(files: seq<File>, m0: Memory, base: nat, i: nat, r: nat)
    requires SymIndicesOk(files) && Position(files, i, r)
    ensures StateAt(files, m0, base, i, r + 1).Done? ==> StateAt(files, m0, base, i, r).Done?
    ensures StateAt(files, m0, base, i, r).Done? ==>
              StateAt(files, m0, base, i, r + 1) == LinkRel(files, i, r, StateAt(files, m0, base, i, r).value)
  {
    hide LinkRel, SymIndicesOk;
  }

  lemma NextFileState(files: seq<File>, m0: Memory, base: nat, i: nat)
    requires SymIndicesOk(files) && i < |files| && WellLinked(files, base)
    ensures StateAt(files, m0, base, i + 1, 0) == StateAt(files, m0, base, i, Visits(files[i]))
  {
    assert files[i].rels.Some? ==> HasTables(files[i]);
    hide LinkRel, SymIndicesOk, WellLinked;
  }

  lemma AtStart(files: seq<File>, m0: Memory, base: nat)
    requires SymIndicesOk(files)
    ensures StateAt(files, m0, base, 0, 0) == Done(LinkState(m0, base, 0, [])) && ServedBefore(files, m0, base, 0, 0)
  {
    hide Served;
  }

  /** A link comes to its end if and only if every relocation is served in its turn: each
      function is defined at or before the file that refers to it, each undefined object
      is in the tables of an earlier file or has been allocated, and there is room for
      what the pool gives out.  The pool pointer at the end follows from the tables alone. */
  lemma {:induction false} LinkEndsExactly(files: seq<File>, m0: Memory, base: nat)
    requires WellLinked(files, base) && SymIndicesOk(files) && AllClear(files) && MemoryOk(m0, base)
    ensures Link(files, m0, base).Done? <==> files != [] && forall i, r :: Position(files, i, r) ==> Served(files, m0, base, i, r)
    ensures Link(files, m0, base).Done? ==> Link(files, m0, base).value.pool == PoolAt(files, base, |files|, 0)
  {
    hide StateAt, Served, WellLinked, AllClear, PoolAt, SymIndicesOk;
    Reaches(files, m0, base, |files|, 0);
    assert forall i, r :: Before(files, |files|, 0, i, r) <==> Position(files, i, r);
  }

  /** After a link that has come to its end, every function that a relocation refers to
      has exactly one definer, at or before every file that refers to it. */
  lemma {:induction false} LinkedAreDefined(files: seq<File>, m0: Memory, base: nat, i: nat, r: nat)
    requires WellLinked(files, base) && SymIndicesOk(files) && AllClear(files) && MemoryOk(m0, base) && Link(files, m0, base).Done?
    requires Position(files, i, r) && IsFunc(RelAt(files, i, r).kind) && !OnSection(files, i, r)
    ensures IsFunction(files, NameAt(files, i, r))
  {
    LinkEndsExactly(files, m0, base);
    assert RelClear(files, i, r);
    hide Link, Served, WellLinked, AllClear, SymIndicesOk, Typed, NearestDefiner;
    assert ServedBefore(files, m0, base, |files|, 0);
    var name := NameAt(files, i, r);
    EarlierDefined(files, m0, base, |files|, 0, i, r);
    var d := NearestDefiner(files, i, name).value;
    assert Defines(files[d], name);
    assert NearestDefiner(files, |files| - 1, name) == Some(d);
    forall k, s {:trigger Position(files, k, s)} | Position(files, k, s) && NameAt(files, k, s) == name
      ensures d <= k
    {
      EarlierDefined(files, m0, base, |files|, 0, k, s);
      assert Defines(files[NearestDefiner(files, k, name).value], name);
    }
  }
}
