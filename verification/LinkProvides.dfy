/** Which symbols provide an address, in the terms of the symbol table: an entry whose
    section index is that of a section header, and no other (include/elf.h, src/uld_dyn.c). */
module LinkProvides {
  import opened Words
  import opened Options
  import opened SymbolTable
  import opened Sections
  import opened LinkSpec
  import opened LinkMeaning
  import opened LinkTheorems

  /** Entry `x` of the file's symbol table is for `name` and has the index of a section
      header: not SHN_UNDEF, and none of the reserved indices from 0x8000 on. */
  predicate Provides(f: File, name: string, x: nat) {
    HasTables(f) && x < |f.syms.value| && f.syms.value[x].name == name && 0 < f.syms.value[x].shndx < 0x8000
  }

  ghost predicate NoProvider(f: File, name: string) {
    forall x: nat :: !Provides(f, name, x)
  }

  /** The run address of a symbol's value in a file with memory; else the value as it is. */
  function AddressIn(f: File, v: Word): Word {
    if f.membase != 0 then RunAddr(f, v) else v
  }

  lemma {:induction false} DefinesExactly(files: seq<File>, j: nat, name: string)
    requires SymbolsOk(files) && j < |files| && name != ""
    ensures Defines(files[j], name) <==> exists x: nat :: Provides(files[j], name, x)
    ensures forall x: nat :: Provides(files[j], name, x) ==> Mentions(files[j], name) && SymNamed(files[j], name) == files[j].syms.value[x]
  {
    var f := files[j];
    if HasTables(f) {
      var syms := f.syms.value;
      assert DistinctNames(syms);
      hide SymIndicesOk;
      var y := FindSym(syms, name);
      forall x: nat | x < |syms| && syms[x].name == name
        ensures y == Some(x)
      {
        assert x != 0 && y.value != 0;
      }
      if Defines(f, name) {
        assert Provides(f, name, y.value);
      }
    }
  }

  /** `d` is the nearest file at or before `i` with an entry that provides `name`. */
  ghost predicate NearestProvider(files: seq<File>, i: nat, name: string, d: nat, x: nat)
    requires i < |files|
  {
    d <= i && Provides(files[d], name, x) && forall j :: d < j <= i ==> NoProvider(files[j], name)
  }

  lemma {:induction false} NearestExactly(files: seq<File>, i: nat, name: string, d: nat, x: nat)
    requires SymbolsOk(files) && i < |files| && name != "" && NearestProvider(files, i, name, d, x)
    ensures NearestDefiner(files, i, name) == Some(d) && SymNamed(files[d], name) == files[d].syms.value[x]
  {
    hide SymbolsOk, Defines;
    forall j: nat | j < |files|
      ensures Defines(files[j], name) <==> exists x: nat :: Provides(files[j], name, x)
    {
      DefinesExactly(files, j, name);
    }
    DefinesExactly(files, d, name);
  }

  lemma {:induction false} NoneExactly(files: seq<File>, i: nat, name: string)
    requires SymbolsOk(files) && i < |files| && name != "" && forall j :: 0 <= j <= i ==> NoProvider(files[j], name)
    ensures NearestDefiner(files, i, name).None?
  {
    hide SymbolsOk, Defines;
    forall j: nat | j <= i
      ensures !Defines(files[j], name)
    {
      DefinesExactly(files, j, name);
    }
  }

  // ----- objects -----

  /** `name` is the name of an object: only data relocations refer to it, and every entry
      that provides it has an address. */
  ghost predicate ObjectName(files: seq<File>, name: string)
    requires SymIndicesOk(files)
  {
    && name != ""
    && (forall k, s :: Position(files, k, s) && NameAt(files, k, s) == name ==> IsData(RelAt(files, k, s).kind) || RelAt(files, k, s).kind == Relative)
    && (forall j: nat, x: nat :: j < |files| && Provides(files[j], name, x) ==>
          files[j].syms.value[x].value != 0 && AddressIn(files[j], files[j].syms.value[x].value) != 0)
  }

  lemma {:induction false} ObjectIs(files: seq<File>, name: string)
    requires SymbolsOk(files) && ObjectName(files, name)
    ensures IsObject(files, name)
  {
    hide SymbolsOk;
    forall j: nat | j < |files| && Defines(files[j], name)
      ensures SymNamed(files[j], name).value != 0 && DataAddr(files, j, name) != 0
    {
      DefinesExactly(files, j, name);
      var x: nat :| Provides(files[j], name, x);
    }
  }

  /** After a link, a data slot holds the address of the object in the nearest file, at or
      before its own, that has it with the index of a section header. */
  lemma {:induction false} ObjectFromProvider(files: seq<File>, m0: Memory, base: nat, i: nat, r: nat, d: nat, x: nat)
    requires Linked(files, m0, base) && Position(files, i, r) && IsData(RelAt(files, i, r).kind) && ObjectName(files, NameAt(files, i, r))
    requires NearestProvider(files, i, NameAt(files, i, r), d, x)
    ensures var m, a := Final(files, m0, base).mem, Slot(files, i, r);
            a + 4 <= |m| && LoadWord(m, a) == AddressIn(files[d], files[d].syms.value[x].value)
  {
    LinkedSymbols(files, m0, base);
    hide Linked, Final, LoadWord, Slot, SymbolsOk, ObjectName, NearestProvider, IsObject;
    ObjectIs(files, NameAt(files, i, r));
    NearestExactly(files, i, NameAt(files, i, r), d, x);
    DataSlotsCorrect(files, m0, base, i, r);
  }

  lemma LinkedSymbols(files: seq<File>, m0: Memory, base: nat)
    requires Linked(files, m0, base)
    ensures SymbolsOk(files)
  {
  }

  /** An object that no file has with such an index gets one zeroed block, of which all its
      data slots hold the address: entries with index 0 or from 0x8000 on provide nothing. */
  lemma {:induction false} ObjectWithoutProvider(files: seq<File>, m0: Memory, base: nat, i: nat, r: nat) returns (t: nat)
    requires Linked(files, m0, base) && Position(files, i, r) && IsData(RelAt(files, i, r).kind) && ObjectName(files, NameAt(files, i, r))
    requires forall j :: 0 <= j < |files| ==> NoProvider(files[j], NameAt(files, i, r))
    ensures var st, name := Final(files, m0, base), NameAt(files, i, r);
            && t < |st.log| && base <= st.log[t].addr && st.log[t].addr + st.log[t].size <= st.pool <= |st.mem|
            && (forall y :: st.log[t].addr <= y < st.log[t].addr + st.log[t].size ==> st.mem[y] == 0)
            && forall k, s :: Position(files, k, s) && IsData(RelAt(files, k, s).kind) && NameAt(files, k, s) == name ==>
                 Slot(files, k, s) + 4 <= |st.mem| && LoadWord(st.mem, Slot(files, k, s)) == st.log[t].addr
  {
    LinkedSymbols(files, m0, base);
    hide Linked, Final, LoadWord, Slot, SymbolsOk, ObjectName, IsObject, ItemsApart, NearestDefiner, PairAt, FunctionOk, BlockSized;
    var name := NameAt(files, i, r);
    ObjectIs(files, name);
    NoneExactly(files, |files| - 1, name);
    t := UndefinedObjectHasOneBlock(files, m0, base, name, i, r);
    PoolCorrect(files, m0, base);
    var st := Final(files, m0, base);
    assert ItemOk(files, m0, st.mem, base, st.pool, st.log[t]);
    forall k, s | Position(files, k, s) && IsData(RelAt(files, k, s).kind) && NameAt(files, k, s) == name
      ensures Slot(files, k, s) + 4 <= |st.mem| && LoadWord(st.mem, Slot(files, k, s)) == st.log[t].addr
    {
      assert HoldsAddr(files, st.mem, k, s, st.log[t].addr);
    }
  }

  // ----- functions -----

  /** `name` is the name of a function that entry `x` of file `d` provides, and no other
      file: only function relocations refer to it, in files from `d` on. */
  ghost predicate FunctionIn(files: seq<File>, name: string, d: nat, x: nat)
    requires SymIndicesOk(files)
  {
    && name != "" && d < |files| && Provides(files[d], name, x) && files[d].syms.value[x].value != 0 && files[d].membase != 0
    && (forall j :: 0 <= j < |files| && j != d ==> NoProvider(files[j], name))
    && (forall k, s :: Position(files, k, s) && NameAt(files, k, s) == name ==> d <= k && !IsData(RelAt(files, k, s).kind))
  }

  lemma {:induction false} FunctionIs(files: seq<File>, m0: Memory, base: nat, name: string, d: nat, x: nat)
    requires SymbolsOk(files) && FunctionIn(files, name, d, x)
    ensures FunctionOk(files, m0, base, name) && GetsDescriptor(files, m0, name)
    ensures NearestDefiner(files, |files| - 1, name) == Some(d) && SymNamed(files[d], name) == files[d].syms.value[x]
  {
    assert NearestProvider(files, |files| - 1, name, d, x);
    NearestExactly(files, |files| - 1, name, d, x);
    hide SymbolsOk;
    forall j: nat | j < |files| && Defines(files[j], name)
      ensures j == d
    {
      DefinesExactly(files, j, name);
      var y: nat :| Provides(files[j], name, y);
    }
  }

  /** After a link, a FUNCDESC_VALUE slot, and what a FUNCDESC slot points at, is the pair of
      the function's run address and its file's memory base, for a function that a file with
      memory has with the index of a section header. */
  lemma {:induction false} FunctionFromProvider(files: seq<File>, m0: Memory, base: nat, i: nat, r: nat, d: nat, x: nat)
    requires Linked(files, m0, base) && Position(files, i, r) && IsFunc(RelAt(files, i, r).kind) && !OnSection(files, i, r)
    requires FunctionIn(files, NameAt(files, i, r), d, x)
    ensures var m, a := Final(files, m0, base).mem, Slot(files, i, r);
            && a + 4 <= |m|
            && var p := if RelAt(files, i, r).kind == FuncDesc then LoadWord(m, a) else a;
               p + 8 <= |m| && LoadWord(m, p) == RunAddr(files[d], files[d].syms.value[x].value) && LoadWord(m, p + 4) == files[d].membase
  {
    LinkedSymbols(files, m0, base);
    hide Linked, Final, LoadWord, Slot, SymbolsOk, FunctionOk, GetsDescriptor, NearestDefiner;
    FunctionIs(files, m0, base, NameAt(files, i, r), d, x);
    if RelAt(files, i, r).kind == FuncDesc {
      FuncDescsCorrect(files, m0, base, i, r);
    } else {
      FuncDescValuesCorrect(files, m0, base, i, r);
    }
  }

  // ----- types -----

  /** The symbol has a type that its relocation allows. */
  predicate TypeAllowed(kind: RelKind, ty: SymType) {
    && (kind == GlobDat ==> ty == ObjectSym)
    && (kind == FuncDesc ==> ty == FuncSym)
    && (kind == FuncDescValue ==> ty == FuncSym || ty == SectionSym)
  }

  lemma {:induction false} WrongTypeTraps(files: seq<File>, i: nat, r: nat, st: LinkState)
    requires SymbolsOk(files) && Position(files, i, r) && !TypeAllowed(RelAt(files, i, r).kind, SymAt(files, i, r).ty)
    requires RelAt(files, i, r).kind == FuncDesc ==> HasTables(files[i]) && NameAt(files, i, r) != ""
    ensures LinkRel(files, i, r, st).Trapped?
  {
    var syms := files[i].syms.value;
    assert DistinctNames(syms);
    hide SymIndicesOk, Slot, SearchBelow, LoadWord;
    if RelAt(files, i, r).kind == FuncDesc {
      var x := RelAt(files, i, r).sym;
      assert FindSym(syms, NameAt(files, i, r)) == Some(x);
      OwnFileFirst(files, i, r, st.mem, x);
    }
  }

  /** The search for a FUNCDESC begins with the symbol of that name in its own file. */
  lemma {:induction false} OwnFileFirst(files: seq<File>, i: nat, r: nat, m: Memory, x: nat)
    requires SymIndicesOk(files) && Position(files, i, r) && RelAt(files, i, r).kind == FuncDesc && HasTables(files[i])
    requires x < |files[i].syms.value| && FindSym(files[i].syms.value, NameAt(files, i, r)) == Some(x)
    ensures Resolve(files, m, i, r) == SearchFile(files, m, i, r, i, x, RelCount(files[i]), Unresolved(i))
  {
    hide SearchFile, FindSym;
  }

  /** After a link every relocation has a symbol of a type that it allows. */
  lemma {:induction false} LinkedTypes(files: seq<File>, m0: Memory, base: nat, i: nat, r: nat)
    requires Linked(files, m0, base) && Position(files, i, r)
    requires RelAt(files, i, r).kind == FuncDesc ==> NameAt(files, i, r) != ""
    ensures TypeAllowed(RelAt(files, i, r).kind, SymAt(files, i, r).ty)
  {
    LinkedSymbols(files, m0, base);
    LinkedTables(files, m0, base, i, r);
    hide Linked, LinkRel, TypeAllowed, SymbolsOk, SymIndicesOk, HasTables;
    var st := RelDone(files, m0, base, i, r);
    if !TypeAllowed(RelAt(files, i, r).kind, SymAt(files, i, r).ty) {
      WrongTypeTraps(files, i, r, st);
    }
  }

  lemma LinkedTables(files: seq<File>, m0: Memory, base: nat, i: nat, r: nat)
    requires Linked(files, m0, base) && Position(files, i, r)
    ensures HasTables(files[i])
  {
  }

  /** A link that is done has done every relocation. */
  lemma {:induction false} RelDone(files: seq<File>, m0: Memory, base: nat, i: nat, r: nat) returns (st: LinkState)
    requires Linked(files, m0, base) && Position(files, i, r)
    ensures LinkRel(files, i, r, st).Done?
  {
    hide LinkRel, WellLinked;
    LinkedSymbols(files, m0, base);
    if !StateAt(files, m0, base, i, r + 1).Done? {
      FailureStays(files, m0, base, i, r + 1, |files|, 0);
    }
    st := StateAt(files, m0, base, i, r).value;
  }
}
