/** Dynamic symbols, the System V hash table over them, and the two ways of
    finding a symbol by name (src/uld_dyn.c). */
module SymbolTable {
  import opened Words
  import opened Options
  import opened NameHash

  datatype SymType = NoType | ObjectSym | FuncSym | SectionSym | OtherSym

  /** An entry of .dynsym together with the .dynstr string its name refers to. */
  datatype Sym = Sym(name: string, value: Word, size: Word, ty: SymType, shndx: HalfWord)

  /** `elf32_sym_has_section_index`: the symbol is defined in its file. */
  predicate Defined(s: Sym) {
    s.shndx != 0 && s.shndx / 0x8000 % 2 == 0
  }

  /** The .hash section: `bucket` and `chain` as laid out by the gABI. */
  datatype HashTable = HashTable(bucket: seq<nat>, chain: seq<nat>)

  const STN_UNDEF := 0

  /** `uld_dyn_find_dynsym_linear_sec`: index of the first symbol of that name. */
  function FindSym(syms: seq<Sym>, name: string): (r: Option<nat>)
    ensures r.Some? ==> r.value < |syms| && syms[r.value].name == name &&
                        forall k :: 0 <= k < r.value ==> syms[k].name != name
    ensures r.None? ==> forall k :: 0 <= k < |syms| ==> syms[k].name != name
  {
    FirstWhere(syms, (s: Sym) => s.name == name)
  }

  method FindDynsymLinear(syms: seq<Sym>, name: string) returns (r: Option<nat>)
    ensures r == FindSym(syms, name)
  {
    r := FindWhere(syms, (s: Sym) => s.name == name);
  }

  function Bucket(h: HashTable, name: string): (b: nat)
    requires |h.bucket| > 0
    ensures b < |h.bucket|
  {
    ElfHash(name) % |h.bucket|
  }

  /** `path` is what the walk `y, chain[y], chain[chain[y]], ...` visits before
      it meets STN_UNDEF. */
  ghost predicate IsWalk(h: HashTable, y: nat, path: seq<nat>)
    decreases |path|
  {
    if path == [] then y == STN_UNDEF
    else y == path[0] && y != STN_UNDEF && y < |h.chain| && IsWalk(h, h.chain[y], path[1..])
  }

  /** The "Hash Table" section of chapter 5 of the System V gABI: the chain table
      is parallel to the symbol table, and the walk that starts at a bucket ends
      after visiting every symbol whose hash selects that bucket. */
  ghost predicate WellFormedHash(h: HashTable, syms: seq<Sym>) {
    && |h.bucket| > 0
    && |h.chain| == |syms|
    && forall b :: 0 <= b < |h.bucket| ==> BucketComplete(h, syms, b)
  }

  ghost predicate BucketComplete(h: HashTable, syms: seq<Sym>, b: nat)
    requires |h.bucket| > 0 && b < |h.bucket|
  {
    exists path :: IsWalk(h, h.bucket[b], path) &&
      forall y :: 1 <= y < |syms| && Bucket(h, syms[y].name) == b ==> y in path
  }

  /** Symbols from index 1 on do not share a non-empty name; index 0 is the
      reserved entry, which has no name. */
  ghost predicate DistinctNames(syms: seq<Sym>) {
    && (|syms| > 0 ==> syms[0].name == "")
    && forall a, b :: 1 <= a < b < |syms| && syms[a].name != "" ==> syms[a].name != syms[b].name
  }

  lemma WalkInRange(h: HashTable, y: nat, path: seq<nat>)
    requires IsWalk(h, y, path)
    ensures forall k :: 0 <= k < |path| ==> 0 < path[k] < |h.chain|
    decreases |path|
  {
    if path != [] {
      WalkInRange(h, h.chain[y], path[1..]);
      assert forall k :: 1 <= k < |path| ==> path[k] == path[1..][k - 1];
    }
  }

  lemma OnlyThisName(syms: seq<Sym>, name: string, x: nat)
    requires DistinctNames(syms) && name != "" && x < |syms| && syms[x].name == name
    ensures FindSym(syms, name) == Some(x)
  {
    assert FindSym(syms, name).Some? && FindSym(syms, name).value != 0;
  }

  /** A name that the walk has not met is in no entry of the table. */
  lemma NotOnWalk(h: HashTable, syms: seq<Sym>, name: string, path: seq<nat>)
    requires |h.bucket| > 0 && DistinctNames(syms) && name != ""
    requires forall y :: 1 <= y < |syms| && Bucket(h, syms[y].name) == Bucket(h, name) ==> y in path
    requires forall k :: 0 <= k < |path| ==> path[k] < |syms| && syms[path[k]].name != name
    ensures FindSym(syms, name).None?
  {
    hide Bucket;
    forall y | 0 <= y < |syms|
      ensures syms[y].name != name
    {
      if y != 0 && Bucket(h, syms[y].name) == Bucket(h, name) {
        assert y in path;
      }
    }
  }

  /** `uld_dyn_find_dynsym_elf_hash_sec`: the walk ends, and finds what a linear
      scan of the whole table finds. */
  method FindDynsymHash(name: string, h: HashTable, syms: seq<Sym>) returns (r: Option<nat>)
    requires WellFormedHash(h, syms) && DistinctNames(syms) && name != ""
    ensures r == FindSym(syms, name)
  {
    hide FindSym, DistinctNames, ElfHash;
    var hash := ComputeElfHash(name);
    var b := hash % |h.bucket|;
    assert b == Bucket(h, name) && BucketComplete(h, syms, b);
    ghost var path :| IsWalk(h, h.bucket[b], path) &&
      forall y :: 1 <= y < |syms| && Bucket(h, syms[y].name) == b ==> y in path;
    WalkInRange(h, h.bucket[b], path);
    hide Bucket, BucketComplete;
    var idx := h.bucket[b];
    ghost var i := 0;
    assert path[0..] == path;
    while idx != STN_UNDEF
      invariant i <= |path| && IsWalk(h, idx, path[i..])
      invariant forall k :: 0 <= k < i ==> syms[path[k]].name != name
      decreases |path| - i
    {
      assert idx == path[i];
      if syms[idx].name == name {
        OnlyThisName(syms, name, idx);
        return Some(idx);
      }
      assert path[i..][1..] == path[i + 1..];
      idx := h.chain[idx];
      i := i + 1;
    }
    NotOnWalk(h, syms, name, path);
    return None;
  }
}
