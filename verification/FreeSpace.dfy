/** First-fit search for flash space: the entries sorted by base address, then a
    scan of the gaps (uld_fs_find_free_space in src/uld_fs.c). */
module FreeSpace {
  import opened Words
  import opened Options
  import opened FsTable

  /** The flash bytes `[base, base + size)` of a file. */
  datatype Range = Range(base: Word, size: Word)

  function RangeAt(m: Memory, p: nat): Range {
    if p + NAME < |m| then Range(LoadWord(m, p + BASE), LoadWord(m, p + SIZE)) else Range(0, 0)
  }

  function RangesAt(m: Memory, ps: seq<nat>): (rs: seq<Range>)
    ensures |rs| == |ps| && forall k :: 0 <= k < |ps| ==> rs[k] == RangeAt(m, ps[k])
  {
    seq(|ps|, k requires 0 <= k < |ps| => RangeAt(m, ps[k]))
  }

  /** `ALIGN(size, 3)` in 32-bit arithmetic. */
  function AlignedSize(size: Word): Word {
    Wrap(AlignUp(size, 3))
  }

  predicate Fits(from: int, to: int, need: Word) {
    Signed(to - from) >= Signed(need)
  }

  /** Where the scan of the sorted entries stops, looking from `ptr` on. */
  function Scan(sorted: seq<Range>, ptr: Word, end: int, need: Word): Option<Word>
    decreases |sorted|
  {
    if sorted == [] then if Fits(ptr, end, need) then Some(ptr) else None
    else if Fits(ptr, sorted[0].base, need) then Some(ptr)
    else Scan(sorted[1..], Wrap(sorted[0].base + sorted[0].size), end, need)
  }

  /** `r` goes before the first entry with a higher base. */
  function InsertPos(sorted: seq<Range>, r: Range): (i: nat)
    ensures i <= |sorted|
    ensures forall k :: 0 <= k < i ==> sorted[k].base <= r.base
    ensures i < |sorted| ==> r.base < sorted[i].base
  {
    if sorted == [] || r.base < sorted[0].base then 0 else 1 + InsertPos(sorted[1..], r)
  }

  function Insert(sorted: seq<Range>, r: Range): seq<Range> {
    var i := InsertPos(sorted, r);
    sorted[..i] + [r] + sorted[i..]
  }

  function Sorted(rs: seq<Range>): seq<Range> {
    if rs == [] then [] else Insert(Sorted(rs[..|rs| - 1]), rs[|rs| - 1])
  }

  function FreeSpace(rs: seq<Range>, filesBase: Word, filesSize: Word, size: Word): Option<Word> {
    if size == 0 then None else Scan(Sorted(rs), filesBase, filesBase + filesSize, AlignedSize(size))
  }

  // ----- the method -----

  /** `memmove` of the tail of the list by one place, then the new entry. */
  method InsertAt(list: array<nat>, n: nat, i: nat, p: nat)
    requires i <= n < list.Length
    modifies list
    ensures list[..n + 1] == old(list[..i]) + [p] + old(list[i..n])
  {
    forall k | i < k <= n {
      list[k] := list[k - 1];
    }
    list[i] := p;
  }

  lemma InsertedRanges(m: Memory, qs: seq<nat>, p: nat, i: nat)
    requires i <= |qs| && i == InsertPos(RangesAt(m, qs), RangeAt(m, p))
    ensures RangesAt(m, qs[..i] + [p] + qs[i..]) == Insert(RangesAt(m, qs), RangeAt(m, p))
  {
  }

  lemma {:induction false} InsertPosUnique(sorted: seq<Range>, r: Range, i: nat)
    requires i <= |sorted| && (forall k :: 0 <= k < i ==> sorted[k].base <= r.base)
    requires i < |sorted| ==> r.base < sorted[i].base
    ensures i == InsertPos(sorted, r)
    decreases i
  {
    if i > 0 {
      InsertPosUnique(sorted[1..], r, i - 1);
    }
  }

  lemma NoEntries(m: Memory, ps: seq<nat>, qs: seq<nat>)
    requires qs == []
    ensures RangesAt(m, qs) == Sorted(RangesAt(m, ps[..0]))
  {
    assert RangesAt(m, ps[..0]) == [];
  }

  lemma SortedNext(m: Memory, ps: seq<nat>, n: nat)
    requires n < |ps|
    ensures Sorted(RangesAt(m, ps[..n + 1])) == Insert(Sorted(RangesAt(m, ps[..n])), RangeAt(m, ps[n]))
  {
    assert RangesAt(m, ps[..n + 1])[..n] == RangesAt(m, ps[..n]);
  }

  /** The loop that looks for the place of an entry with base address `base`. */
  method FindInsertPos(mem: array<Byte>, list: array<nat>, n: nat, base: Word) returns (i: nat)
    requires n <= list.Length && forall k :: 0 <= k < n ==> list[k] + NAME < mem.Length
    ensures i <= n && (forall k :: 0 <= k < i ==> RangeAt(mem[..], list[k]).base <= base)
    ensures i < n ==> base < RangeAt(mem[..], list[i]).base
  {
    i := 0;
    while i < n
      invariant i <= n && forall k :: 0 <= k < i ==> RangeAt(mem[..], list[k]).base <= base
    {
      var other := GetWord(mem, list[i] + BASE);
      if base < other {
        return;
      }
      i := i + 1;
    }
  }

  /** One turn of the sorting loop: entry `p` goes to its place among the first `n`. */
  method PlaceEntry(mem: array<Byte>, list: array<nat>, n: nat, p: nat)
    requires n < list.Length && p + NAME < mem.Length && mem as object != list
    requires forall k :: 0 <= k < n ==> list[k] + NAME < mem.Length
    modifies list
    ensures forall k :: 0 <= k <= n ==> list[k] + NAME < mem.Length
    ensures RangesAt(mem[..], list[..n + 1]) == Insert(RangesAt(mem[..], old(list[..n])), RangeAt(mem[..], p))
  {
    ghost var m, qs := mem[..], list[..n];
    var base := GetWord(mem, p + BASE);
    var i := FindInsertPos(mem, list, n, base);
    InsertPosUnique(RangesAt(m, qs), RangeAt(m, p), i);
    InsertedRanges(m, qs, p, i);
    assert list[..i] == qs[..i] && list[i..n] == qs[i..];
    InsertAt(list, n, i, p);
    forall k | 0 <= k <= n
      ensures list[k] + NAME < mem.Length
    {
      assert list[k] == list[..n + 1][k];
      assert k < i ==> list[k] == qs[k];
      assert k > i ==> list[k] == qs[k - 1];
    }
  }

  /** The insertion sort of the entries by base address. */
  method SortEntries(mem: array<Byte>, head: nat, count: nat, ghost ps: seq<nat>) returns (list: array<nat>)
    requires IsList(mem[..], head, ps) && count == |ps|
    ensures fresh(list) && list.Length == count
    ensures forall k :: 0 <= k < count ==> list[k] + NAME < mem.Length
    ensures RangesAt(mem[..], list[..]) == Sorted(RangesAt(mem[..], ps))
  {
    hide Sorted, Insert, RangesAt;
    list := new nat[count];
    ghost var m := mem[..];
    var pos: nat, n: nat := head, 0;
    NoEntries(m, ps, list[..0]);
    assert ps[0..] == ps;
    while pos != 0
      invariant n <= count && IsList(m, pos, ps[n..]) && mem[..] == m
      invariant forall k :: 0 <= k < n ==> list[k] + NAME < mem.Length
      invariant RangesAt(m, list[..n]) == Sorted(RangesAt(m, ps[..n]))
      decreases count - n
    {
      PlaceEntry(mem, list, n, pos);
      SortedNext(m, ps, n);
      assert ps[n..][1..] == ps[n + 1..];
      pos := GetWord(mem, pos + NEXT);
      n := n + 1;
    }
    assert ps[..n] == ps && list[..n] == list[..];
  }

  /** The scan of the gaps between the sorted entries. */
  method ScanGaps(mem: array<Byte>, list: array<nat>, ptr0: Word, end: int, need: Word) returns (r: Option<Word>)
    requires forall k :: 0 <= k < list.Length ==> list[k] + NAME < mem.Length
    ensures r == Scan(RangesAt(mem[..], list[..]), ptr0, end, need)
  {
    hide Fits, Wrap, LoadWord, Scan;
    ghost var m, sorted := mem[..], RangesAt(mem[..], list[..]);
    var ptr := ptr0;
    var i: nat := 0;
    assert sorted[0..] == sorted;
    while i < list.Length
      invariant i <= list.Length
      invariant Scan(sorted, ptr0, end, need) == Scan(sorted[i..], ptr, end, need)
    {
      assert sorted[i] == RangeAt(m, list[i]);
      assert sorted[i..][1..] == sorted[i + 1..];
      ScanIs(sorted[i..], ptr, end, need);
      var base := GetWord(mem, list[i] + BASE);
      if Fits(ptr, base, need) {
        return Some(ptr);
      }
      var len := GetWord(mem, list[i] + SIZE);
      ptr := Wrap(base as int + len);
      i := i + 1;
    }
    ScanIs(sorted[i..], ptr, end, need);
    return if Fits(ptr, end, need) then Some(ptr) else None;
  }

  /** `uld_fs_find_free_space`. */
  method FindFreeSpace(mem: array<Byte>, head: nat, filesBase: Word, filesSize: Word, size: Word, ghost ps: seq<nat>)
    returns (r: Option<Word>)
    requires IsList(mem[..], head, ps)
    ensures r == FreeSpace(RangesAt(mem[..], ps), filesBase, filesSize, size)
  {
    hide *;
    ghost var m := mem[..];
    FreeSpaceIs(RangesAt(m, ps), filesBase, filesSize, size);
    if size == 0 {
      return None;
    }
    var count := GetFileCount(mem, head, ps);
    var list := SortEntries(mem, head, count, ps);
    r := ScanGaps(mem, list, filesBase, filesBase + filesSize, AlignedSize(size));
  }

  lemma FreeSpaceIs(rs: seq<Range>, filesBase: Word, filesSize: Word, size: Word)
    ensures FreeSpace(rs, filesBase, filesSize, size) ==
              if size == 0 then None else Scan(Sorted(rs), filesBase, filesBase + filesSize, AlignedSize(size))
  {
    hide Scan, Sorted, AlignedSize;
  }

  // ----- first fit -----

  /** The files region and the entries in it: `[base, base + size)` of each file
      lies in the region, none is empty, no two overlap. */
  ghost predicate Placed(rs: seq<Range>, filesBase: Word, filesSize: Word) {
    && 0 < filesBase && filesBase + filesSize < WORD_LIMIT && filesSize < 0x8000_0000
    && (forall k :: 0 <= k < |rs| ==> InRegion(rs[k], filesBase, filesSize))
    && AllDisjoint(rs)
  }

  predicate InRegion(r: Range, filesBase: Word, filesSize: Word) {
    filesBase <= r.base && r.base + r.size <= filesBase + filesSize && 0 < r.size
  }

  predicate Disjoint(a: Range, b: Range) {
    a.base + a.size <= b.base || b.base + b.size <= a.base
  }

  /** `[a, a + n)` is in the region and overlaps no entry. */
  ghost predicate Free(rs: seq<Range>, filesBase: Word, filesSize: Word, a: int, n: nat) {
    filesBase <= a && a + n <= filesBase + filesSize && forall r :: r in rs ==> a + n <= r.base || r.base + r.size <= a
  }

  /** What the search promises: the lowest free place for the rounded size, or
      None when there is none. */
  ghost predicate LowestFree(rs: seq<Range>, filesBase: Word, filesSize: Word, n: nat, result: Option<Word>) {
    match result
    case Some(a) => Free(rs, filesBase, filesSize, a, n) &&
                    forall b: int :: b < a ==> !Free(rs, filesBase, filesSize, b, n)
    case None => forall b: int :: !Free(rs, filesBase, filesSize, b, n)
  }

  /** Ascending and without overlap, from `lo` on. */
  ghost predicate Ascending(sorted: seq<Range>, lo: int) {
    && (sorted != [] ==> lo <= sorted[0].base)
    && (forall k :: 0 < k < |sorted| ==> sorted[k - 1].base + sorted[k - 1].size <= sorted[k].base)
    && (forall k :: 0 <= k < |sorted| ==> 0 < sorted[k].size)
  }

  lemma {:induction false} AscendingAt(sorted: seq<Range>, lo: int, k: nat)
    requires Ascending(sorted, lo) && k < |sorted|
    ensures lo <= sorted[k].base && forall j :: 0 <= j < k ==> sorted[j].base + sorted[j].size <= sorted[k].base
    decreases k
  {
    if k > 0 {
      AscendingAt(sorted, lo, k - 1);
    }
  }

  lemma InsertSame(s: seq<Range>, r: Range)
    ensures multiset(Insert(s, r)) == multiset(s) + multiset{r}
  {
    var i := InsertPos(s, r);
    assert s == s[..i] + s[i..];
  }

  lemma {:induction false} SortedSame(rs: seq<Range>)
    ensures multiset(Sorted(rs)) == multiset(rs)
    decreases |rs|
  {
    hide Insert;
    if rs != [] {
      var n := |rs| - 1;
      SortedSame(rs[..n]);
      InsertSame(Sorted(rs[..n]), rs[n]);
      assert rs == rs[..n] + [rs[n]];
    }
  }

  ghost predicate ByBase(sorted: seq<Range>) {
    forall j, k :: 0 <= j < k < |sorted| ==> sorted[j].base <= sorted[k].base
  }

  lemma {:induction false} SortedByBase(rs: seq<Range>)
    ensures ByBase(Sorted(rs))
    decreases |rs|
  {
    if rs != [] {
      SortedByBase(rs[..|rs| - 1]);
    }
  }

  lemma SortedMembers(rs: seq<Range>)
    ensures forall r :: r in Sorted(rs) <==> r in rs
  {
    SortedSame(rs);
    hide Sorted;
    forall r
      ensures r in Sorted(rs) <==> r in rs
    {
      assert r in Sorted(rs) <==> r in multiset(Sorted(rs));
      assert r in rs <==> r in multiset(rs);
    }
  }

  /** Entries in the region, apart and in the order of their bases, are ascending. */
  lemma InOrder(s: seq<Range>, filesBase: Word, filesSize: Word)
    requires AllDisjoint(s) && ByBase(s) && forall k :: 0 <= k < |s| ==> InRegion(s[k], filesBase, filesSize)
    ensures Ascending(s, filesBase) && forall k :: 0 <= k < |s| ==> s[k].base + s[k].size <= filesBase + filesSize
  {
    forall k | 0 < k < |s|
      ensures s[k - 1].base + s[k - 1].size <= s[k].base
    {
      assert Disjoint(s[k - 1], s[k]) && s[k - 1].base <= s[k].base;
    }
  }

  /** Sorting keeps entries apart: no entry of the sorted list equals another. */
  lemma SortedPlaced(rs: seq<Range>, filesBase: Word, filesSize: Word)
    requires Placed(rs, filesBase, filesSize)
    ensures Ascending(Sorted(rs), filesBase)
    ensures forall r :: r in Sorted(rs) <==> r in rs
    ensures forall k :: 0 <= k < |Sorted(rs)| ==> Sorted(rs)[k].base + Sorted(rs)[k].size <= filesBase + filesSize
  {
    hide Sorted, InRegion, AllDisjoint, ByBase, Ascending;
    var s := Sorted(rs);
    SortedMembers(rs);
    SortedByBase(rs);
    SortedDisjoint(rs);
    forall k | 0 <= k < |s|
      ensures InRegion(s[k], filesBase, filesSize)
    {
      assert s[k] in s;
    }
    InOrder(s, filesBase, filesSize);
  }

  ghost predicate AllDisjoint(rs: seq<Range>) {
    forall j, k :: 0 <= j < k < |rs| ==> Disjoint(rs[j], rs[k])
  }

  lemma InsertDisjoint(s: seq<Range>, r: Range)
    requires AllDisjoint(s) && forall k :: 0 <= k < |s| ==> Disjoint(s[k], r)
    ensures AllDisjoint(Insert(s, r))
  {
  }

  lemma {:induction false} SortedDisjoint(rs: seq<Range>)
    requires AllDisjoint(rs)
    ensures AllDisjoint(Sorted(rs))
    decreases |rs|
  {
    hide Insert;
    if rs != [] {
      var n := |rs| - 1;
      SortedDisjoint(rs[..n]);
      SortedSame(rs[..n]);
      var s := Sorted(rs[..n]);
      forall k | 0 <= k < |s|
        ensures Disjoint(s[k], rs[n])
      {
        assert s[k] in multiset(s);
        assert s[k] in multiset(rs[..n]);
      }
      InsertDisjoint(s, rs[n]);
    }
  }

  lemma GapIsFree(sorted: seq<Range>, ptr: int, filesBase: Word, filesSize: Word, n: nat)
    requires Ascending(sorted, ptr) && sorted != [] && sorted[0].base - ptr >= n && filesBase <= ptr
    requires sorted[0].base <= filesBase + filesSize
    ensures Free(sorted, filesBase, filesSize, ptr, n)
  {
    forall k | 0 <= k < |sorted|
      ensures ptr + n <= sorted[k].base
    {
      AscendingAt(sorted, ptr, k);
    }
  }

  lemma GapTooSmall(sorted: seq<Range>, ptr: int, filesBase: Word, filesSize: Word, n: nat)
    requires sorted != [] && sorted[0].base - ptr < n && 0 < n
    ensures var next := sorted[0].base + sorted[0].size;
            && (forall b: int :: ptr <= b < next ==> !Free(sorted, filesBase, filesSize, b, n))
            && (forall b: int :: next <= b ==>
                  (Free(sorted, filesBase, filesSize, b, n) <==> Free(sorted[1..], filesBase, filesSize, b, n)))
  {
    assert sorted[0] in sorted;
    assert forall r :: r in sorted <==> r == sorted[0] || r in sorted[1..];
  }

  lemma AscendingTail(sorted: seq<Range>, ptr: int)
    requires Ascending(sorted, ptr) && sorted != []
    ensures Ascending(sorted[1..], sorted[0].base + sorted[0].size)
  {
    var rest := sorted[1..];
    assert forall k :: 0 < k < |rest| ==> rest[k - 1] == sorted[k] && rest[k] == sorted[k + 1];
  }

  /** `a` is the lowest free place at or above `ptr`. */
  ghost predicate LowestFrom(sorted: seq<Range>, ptr: int, filesBase: Word, filesSize: Word, n: nat, result: Option<Word>) {
    match result
    case Some(a) => ptr <= a && Free(sorted, filesBase, filesSize, a, n) &&
                    forall b: int :: ptr <= b < a ==> !Free(sorted, filesBase, filesSize, b, n)
    case None => forall b: int :: ptr <= b ==> !Free(sorted, filesBase, filesSize, b, n)
  }

  lemma LowestExtends(sorted: seq<Range>, ptr: int, filesBase: Word, filesSize: Word, n: nat, result: Option<Word>)
    requires sorted != [] && sorted[0].base - ptr < n && 0 < n && ptr <= sorted[0].base
    requires LowestFrom(sorted[1..], sorted[0].base + sorted[0].size, filesBase, filesSize, n, result)
    ensures LowestFrom(sorted, ptr, filesBase, filesSize, n, result)
  {
    GapTooSmall(sorted, ptr, filesBase, filesSize, n);
    hide Free;
    var next := sorted[0].base + sorted[0].size;
    if result.Some? {
      assert next <= result.value;
      assert Free(sorted, filesBase, filesSize, result.value, n);
    }
  }

  lemma ScanUnfolds(sorted: seq<Range>, ptr: Word, end: int, n: nat)
    requires 0 < n < 0x8000_0000 && ptr <= end < WORD_LIMIT && end - ptr < 0x8000_0000
    requires sorted != [] ==> ptr <= sorted[0].base && sorted[0].base + sorted[0].size <= end
    ensures Scan(sorted, ptr, end, n) ==
      if sorted == [] then if end - ptr >= n then Some(ptr) else None
      else if sorted[0].base - ptr >= n then Some(ptr)
      else Scan(sorted[1..], sorted[0].base + sorted[0].size, end, n)
  {
    ScanIs(sorted, ptr, end, n);
    hide Scan, Fits;
    if sorted == [] {
      FitsSmall(ptr, end, n);
    } else {
      FitsSmall(ptr, sorted[0].base, n);
      WrapSmall(sorted[0].base + sorted[0].size);
    }
  }

  lemma ScanIs(sorted: seq<Range>, ptr: Word, end: int, need: Word)
    ensures Scan(sorted, ptr, end, need) ==
      if sorted == [] then if Fits(ptr, end, need) then Some(ptr) else None
      else if Fits(ptr, sorted[0].base, need) then Some(ptr)
      else Scan(sorted[1..], Wrap(sorted[0].base + sorted[0].size), end, need)
  {
    hide Fits, Wrap;
  }

  lemma FitsSmall(from: int, to: int, n: nat)
    requires n < 0x8000_0000 && from <= to < from + 0x8000_0000
    ensures Fits(from, to, n) <==> to - from >= n
  {
    SignedSmall(n);
    SignedSmall(to - from);
    hide Signed;
  }

  lemma WrapSmall(x: nat)
    requires x < WORD_LIMIT
    ensures Wrap(x) == x
  {
  }

  /** With everything in range, the scan stops at the lowest gap that is wide enough. */
  lemma {:induction false} ScanIsLowest(sorted: seq<Range>, ptr: Word, filesBase: Word, filesSize: Word, n: nat)
    requires filesBase + filesSize < WORD_LIMIT && filesSize < 0x8000_0000 && 0 < n < 0x8000_0000
    requires Ascending(sorted, ptr) && filesBase <= ptr <= filesBase + filesSize
    requires forall k :: 0 <= k < |sorted| ==> sorted[k].base + sorted[k].size <= filesBase + filesSize
    ensures LowestFrom(sorted, ptr, filesBase, filesSize, n, Scan(sorted, ptr, filesBase + filesSize, n))
    decreases |sorted|
  {
    ScanUnfolds(sorted, ptr, filesBase + filesSize, n);
    hide Scan;
    if sorted != [] {
      if sorted[0].base - ptr >= n {
        GapIsFree(sorted, ptr, filesBase, filesSize, n);
      } else {
        var next := sorted[0].base + sorted[0].size;
        AscendingTail(sorted, ptr);
        hide Ascending, Free, LowestFrom;
        ScanIsLowest(sorted[1..], next, filesBase, filesSize, n);
        LowestExtends(sorted, ptr, filesBase, filesSize, n, Scan(sorted[1..], next, filesBase + filesSize, n));
      }
    }
  }

  lemma {:induction false} ScanStopsAtEdge(sorted: seq<Range>, ptr: Word, end: int, need: Word)
    requires end < WORD_LIMIT && forall k :: 0 <= k < |sorted| ==> sorted[k].base + sorted[k].size <= end
    ensures var a := Scan(sorted, ptr, end, need);
            a.Some? ==> a.value == ptr || exists k :: 0 <= k < |sorted| && a.value == sorted[k].base + sorted[k].size
    decreases |sorted|
  {
    hide Fits;
    if sorted != [] && !Fits(ptr, sorted[0].base, need) {
      var next := sorted[0].base + sorted[0].size;
      ScanStopsAtEdge(sorted[1..], next, end, need);
      var a := Scan(sorted[1..], next, end, need);
      if a.Some? && a.value != next {
        var k :| 0 <= k < |sorted[1..]| && a.value == sorted[1..][k].base + sorted[1..][k].size;
        assert a.value == sorted[k + 1].base + sorted[k + 1].size;
      }
    }
  }

  lemma FreeSameEntries(rs: seq<Range>, ts: seq<Range>, filesBase: Word, filesSize: Word, n: nat)
    requires forall r :: r in rs <==> r in ts
    ensures forall b: int :: Free(rs, filesBase, filesSize, b, n) <==> Free(ts, filesBase, filesSize, b, n)
  {
  }

  lemma LargeIsNotPositive(size: Word)
    requires 0x7fff_fff8 < size
    ensures Signed(AlignedSize(size)) <= 0 && AlignUp(size, 3) >= 0x8000_0000
  {
  }

  lemma SmallStaysSmall(size: Word)
    requires 0 < size <= 0x7fff_fff8
    ensures AlignedSize(size) == AlignUp(size, 3) && 0 < AlignUp(size, 3) < 0x8000_0000
  {
  }

  /** The search keeps its promise exactly for sizes up to 2^31 - 8.  Above that the
      rounded size is negative, or zero, when it is compared as a signed number, and
      the start of the region is returned although nothing that large can fit. */
  lemma FirstFitExact(rs: seq<Range>, filesBase: Word, filesSize: Word, size: Word)
    requires Placed(rs, filesBase, filesSize) && 0 < size
    ensures LowestFree(rs, filesBase, filesSize, AlignUp(size, 3), FreeSpace(rs, filesBase, filesSize, size))
            <==> size <= 0x7fff_fff8
  {
    var n := AlignUp(size, 3);
    var s := Sorted(rs);
    SortedPlaced(rs, filesBase, filesSize);
    FreeSameEntries(rs, s, filesBase, filesSize, n);
    if size <= 0x7fff_fff8 {
      SmallStaysSmall(size);
      hide AlignUp, AlignedSize, Sorted, Placed, Signed;
      ScanIsLowest(s, filesBase, filesBase, filesSize, n);
      assert forall b: int :: Free(s, filesBase, filesSize, b, n) ==> filesBase <= b;
    } else {
      LargeIsNotPositive(size);
      hide AlignUp, AlignedSize, Sorted, Signed;
      SignedSmall(filesSize);
      if s != [] {
        SignedSmall(s[0].base - filesBase);
      }
      assert FreeSpace(rs, filesBase, filesSize, size) == Some(filesBase);
    }
  }

  /** The place found is the start of the region or the end of a file. */
  lemma FoundAtEdge(rs: seq<Range>, filesBase: Word, filesSize: Word, size: Word)
    requires Placed(rs, filesBase, filesSize) && 0 < size <= 0x7fff_fff8
    requires FreeSpace(rs, filesBase, filesSize, size).Some?
    ensures var a := FreeSpace(rs, filesBase, filesSize, size).value;
            a == filesBase || exists r :: r in rs && a == r.base + r.size
  {
    assert filesBase + filesSize < WORD_LIMIT;
    hide *;
    FreeSpaceIs(rs, filesBase, filesSize, size);
    SortedPlaced(rs, filesBase, filesSize);
    ScanStopsAtEdge(Sorted(rs), filesBase, filesBase + filesSize, AlignedSize(size));
    var s, a := Sorted(rs), FreeSpace(rs, filesBase, filesSize, size).value;
    if a != filesBase {
      var k :| 0 <= k < |s| && a == s[k].base + s[k].size;
      assert s[k] in s;
    }
  }
}
