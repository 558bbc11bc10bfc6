/** Two files linked: an object that the first provides from its section 5. */
module LinkExample {
  import opened Words
  import opened Options
  import opened SymbolTable
  import opened Sections
  import opened LinkSpec
  import opened LinkMeaning
  import opened LinkTheorems
  import opened LinkOutcome
  import opened LinkProvides
  import opened Departures
  import Linker

  /** File 0 has memory at 16 and "s" at link address 0x80, in section 5; file 1 has memory
      at 32 with a GLOB_DAT for "s". */
  function SectionFive(): seq<File> {
    var data := Sec(".data", SHT_PROGBITS, MemType, 0x80, 0, 8).(adjVma := 16, loaded := true);
    var got := Sec(".got", SHT_PROGBITS, MemType, 0x40, 0, 8).(adjVma := 32, loaded := true);
    [File([], [data], [], 16, Some(HashTable([1], [0, 0])), Some(OneSym(ObjectSym, 0x80, 5)), None),
     File([], [got], [], 32, Some(HashTable([1], [0, 0])), Some(OneSym(ObjectSym, 0, 0)), Some([Rel(0x40, 1, GlobDat)]))]
  }

  lemma Places()
    ensures var files := SectionFive();
            && SymIndicesOk(files) && (forall i, r :: Position(files, i, r) <==> i == 1 && r == 0)
            && Slot(files, 1, 0) == 32 && RunAddr(files[0], 0x80) == 16 && NameAt(files, 1, 0) == "s"
            && FindSection(files[1].mem, ByLma, AnySection, 0x40) == Some(0)
  {
    var files := SectionFive();
    assert Hit(files[0].mem[0], ByLma, AnySection, 0x80) && Hit(files[1].mem[0], ByLma, AnySection, 0x40);
    assert FindSection(files[0].flash, ByLma, AnySection, 0x80) == None && FindSection(files[0].mem, ByLma, AnySection, 0x80) == Some(0);
    assert FindSection(files[1].flash, ByLma, AnySection, 0x40) == None && FindSection(files[1].mem, ByLma, AnySection, 0x40) == Some(0);
  }

  lemma Tables()
    ensures WellLinked(SectionFive(), 40) && Linker.Searchable(SectionFive()) && MemoryOk(Blank(), 40)
  {
    Places();
    OneSymHashed(ObjectSym, 0x80, 5);
    OneSymHashed(ObjectSym, 0, 0);
    hide Slot, FindSection, WellFormedHash;
    assert SlotPlaced(SectionFive(), 40, 1, 0);
  }

  lemma Provided()
    ensures SymIndicesOk(SectionFive()) && Position(SectionFive(), 1, 0)
    ensures NearestProvider(SectionFive(), 1, "s", 0, 1) && ObjectName(SectionFive(), "s")
  {
    Places();
    hide Slot, RunAddr;
    var files := SectionFive();
    assert Provides(files[0], "s", 1) && NoProvider(files[1], "s");
  }

  lemma Served1()
    ensures SymIndicesOk(SectionFive()) && AllClear(SectionFive())
    ensures forall i, r :: Position(SectionFive(), i, r) ==> Served(SectionFive(), Blank(), 40, i, r)
  {
    var files := SectionFive();
    Places();
    Tables();
    Provided();
    OneSymFound(ObjectSym, 0x80, 5);
    OneSymFound(ObjectSym, 0, 0);
    assert SymbolsOk(files);
    ObjectIs(files, "s");
    NearestExactly(files, 1, "s", 0, 1);
    hide Slot, RunAddr, FindSym, IsObject, NearestDefiner, WellLinked, Linker.Searchable, PoolAt;
    assert Typed(files, "s", ObjectSym);
  }

  /** The link ends, and the slot holds the object's run address. */
  lemma LinkedFromSectionFive()
    ensures Linker.Searchable(SectionFive()) && Linked(SectionFive(), Blank(), 40)
    ensures var m := Final(SectionFive(), Blank(), 40).mem; 36 <= |m| && LoadWord(m, 32) == 16
  {
    hide WellLinked, AllClear, Served, Linked, Final, LoadWord, Slot, RunAddr, ObjectName, NearestProvider, Linker.Searchable, PoolAt,
      FindSection, SymIndicesOk, MemoryOk, AddressIn;
    Places();
    Tables();
    Served1();
    Provided();
    EndsSo();
    ObjectFromProvider(SectionFive(), Blank(), 40, 1, 0, 0, 1);
    AddressThere();
  }

  lemma EndsSo()
    requires SymIndicesOk(SectionFive()) && AllClear(SectionFive()) && WellLinked(SectionFive(), 40) && MemoryOk(Blank(), 40)
    requires forall i, r :: Position(SectionFive(), i, r) ==> Served(SectionFive(), Blank(), 40, i, r)
    ensures Linked(SectionFive(), Blank(), 40)
  {
    hide AllClear, WellLinked, Served, Link, PoolAt, SymIndicesOk;
    LinkEndsExactly(SectionFive(), Blank(), 40);
  }

  lemma AddressThere()
    ensures |SectionFive()| == 2 && 1 < |SectionFive()[0].syms.value|
    ensures AddressIn(SectionFive()[0], SectionFive()[0].syms.value[1].value) == 16
    ensures Position(SectionFive(), 1, 0) && IsData(RelAt(SectionFive(), 1, 0).kind)
  {
    Places();
    hide RunAddr;
  }
}
