/** Section lists: built by insertion, sorted by type and address, and the count that
    sizes them (uld_load_create_sec_list and uld_load_get_sec_count in
    src/uld_load.c). */
module SectionList {
  import opened Words
  import opened Sections
  import opened ElfImage

  /** `ULD_SECTION_FLAG_TYPE_FLASH` and the other two. */
  function TypeFlag(ty: SecType): nat {
    match ty
    case FlashType => 0x10
    case MemType => 0x20
    case OtherType => 0x40
  }

  /** The new section `s` is put in front of `x`: by type, then by address, and
      sections without an address by file offset. */
  predicate GoesBefore(s: Section, x: Section) {
    TypeFlag(s.ty) < TypeFlag(x.ty) ||
    (s.ty == x.ty && if s.addr != 0 then s.addr < x.addr else s.offset < x.offset)
  }

  function InsertPos(list: seq<Section>, s: Section): (i: nat)
    ensures i <= |list| && (forall k :: 0 <= k < i ==> !GoesBefore(s, list[k])) && (i < |list| ==> GoesBefore(s, list[i]))
  {
    if list == [] || GoesBefore(s, list[0]) then 0 else 1 + InsertPos(list[1..], s)
  }

  function Insert(list: seq<Section>, s: Section): seq<Section> {
    var i := InsertPos(list, s);
    list[..i] + [s] + list[i..]
  }

  /** The list after the headers before `n` have been looked at, with room for `snum`
      sections: once it is full no further header is looked at. */
  function Listed(img: Image, mask: set<SecType>, n: nat, snum: nat): (r: Outcome<seq<Section>>)
    requires n <= 1 || n <= |img.shdrs|
    ensures r.Done? ==> |r.value| <= snum
    ensures !r.Failed?
  {
    if n <= 1 || snum == 0 then Done([])
    else
      match Listed(img, mask, n - 1, snum)
      case Failed(c) => assert false; Trapped
      case Trapped => Trapped
      case Done(list) =>
        if |list| == snum then Done(list)
        else
          match TypeOf(img.shdrs[n - 1])
          case None => Trapped
          case Some(ty) => if ty in mask then Done(Insert(list, MakeSection(img, n - 1))) else Done(list)
  }

  // ----- the method -----

  lemma {:induction false} InsertPosUnique(list: seq<Section>, s: Section, i: nat)
    requires i <= |list| && (forall k :: 0 <= k < i ==> !GoesBefore(s, list[k])) && (i < |list| ==> GoesBefore(s, list[i]))
    ensures i == InsertPos(list, s)
    decreases i
  {
    if i > 0 {
      InsertPosUnique(list[1..], s, i - 1);
    }
  }

  /** The loop that looks for the place of `s` among the `n` sections from `from` on. */
  method FindPlace(secs: array<Section>, from: nat, n: nat, s: Section) returns (i: nat)
    requires from + n <= secs.Length
    ensures i == InsertPos(secs[from..from + n], s)
  {
    ghost var list := secs[from..from + n];
    i := 0;
    while i < n
      invariant i <= n && forall k :: 0 <= k < i ==> !GoesBefore(s, list[k])
    {
      var x := secs[from + i];
      assert list[i] == x;
      var secType, insAtType := TypeFlag(s.ty), TypeFlag(x.ty);
      if secType < insAtType {
        break;
      } else if secType == insAtType {
        if s.addr != 0 && s.addr < x.addr {
          break;
        } else if s.addr == 0 && s.offset < x.offset {
          break;
        }
      }
      i := i + 1;
    }
    InsertPosUnique(list, s, i);
  }

  /** `memmove` of the tail by one place, then the new section. */
  method InsertAt(secs: array<Section>, from: nat, at: nat, end: nat, s: Section)
    requires from <= at <= end < secs.Length
    modifies secs
    ensures secs[from..end + 1] == old(secs[from..at]) + [s] + old(secs[at..end])
    ensures forall k :: 0 <= k < secs.Length && !(at <= k <= end) ==> secs[k] == old(secs[k])
  {
    ghost var head, tail := secs[from..at], secs[at..end];
    forall k | at < k <= end {
      secs[k] := secs[k - 1];
    }
    secs[at] := s;
    assert secs[from..at] == head && secs[at + 1..end + 1] == tail;
    assert secs[from..end + 1] == secs[from..at] + [secs[at]] + secs[at + 1..end + 1];
  }

  /** The section goes to its place among the `n` sections from `from` on. */
  method PlaceSection(secs: array<Section>, from: nat, n: nat, s: Section)
    requires from + n < secs.Length
    modifies secs
    ensures secs[from..from + n + 1] == Insert(old(secs[from..from + n]), s)
    ensures forall k :: 0 <= k < secs.Length && !(from <= k <= from + n) ==> secs[k] == old(secs[k])
  {
    hide GoesBefore, InsertPos;
    ghost var list := secs[from..from + n];
    var i := FindPlace(secs, from, n, s);
    assert secs[from..from + i] == list[..i] && secs[from + i..from + n] == list[i..];
    InsertAt(secs, from, from + i, from + n, s);
  }

  method AddSection(img: Image, secs: array<Section>, from: nat, n: nat, idx: nat, ghost list: seq<Section>)
    requires from + n < secs.Length && secs[from..from + n] == list && idx < |img.shdrs| && TypeOf(img.shdrs[idx]).Some?
    modifies secs
    ensures secs[from..from + n + 1] == Insert(list, MakeSection(img, idx))
    ensures forall k :: 0 <= k < secs.Length && !(from <= k < from + n + 1) ==> secs[k] == old(secs[k])
  {
    hide Insert, MakeSection;
    var s := CreateSection(img, idx);
    PlaceSection(secs, from, n, s);
  }

  /** `uld_load_create_sec_list` into the `snum` places from `from` on. */
  method CreateSecList(img: Image, secs: array<Section>, from: nat, snum: int, mask: set<SecType>) returns (r: Outcome<nat>)
    requires snum > 0 ==> from + snum <= secs.Length
    modifies secs
    ensures snum <= 0 ==> r == Failed(-1)
    ensures snum > 0 ==> match Listed(img, mask, |img.shdrs|, snum)
                         case Done(list) => r == Done(|list|) && from + |list| <= secs.Length && secs[from..from + |list|] == list
                         case _ => r == Trapped
    ensures r.Done? ==> forall k :: 0 <= k < secs.Length && !(from <= k < from + r.value) ==> secs[k] == old(secs[k])
    ensures r.Failed? ==> forall k :: 0 <= k < secs.Length ==> secs[k] == old(secs[k])
  {
    hide Insert, Listed, MakeSection, TypeOf;
    if snum <= 0 {
      return Failed(-1);
    }
    var count: nat, idx: nat := 0, 1;
    ghost var list: seq<Section> := [];
    NothingListed(img, mask, snum);
    while idx < |img.shdrs|
      invariant 1 <= idx && count == |list| < snum && (idx == 1 || idx <= |img.shdrs|)
      invariant Listed(img, mask, idx, snum) == Done(list)
      invariant secs[from..from + count] == list
      invariant forall k :: 0 <= k < secs.Length && !(from <= k < from + count) ==> secs[k] == old(secs[k])
      decreases |img.shdrs| - idx
    {
      var ty := SectionGetType(img.shdrs[idx]);
      ListedNext(img, mask, idx, snum, list);
      if ty.None? {
        TrapStays(img, mask, idx + 1, |img.shdrs|, snum);
        return Trapped;
      }
      if ty.value in mask {
        AddSection(img, secs, from, count, idx, list);
        count := count + 1;
        list := Insert(list, MakeSection(img, idx));
        if count == snum {
          FullStays(img, mask, idx + 1, |img.shdrs|, snum);
          return Done(count);
        }
      }
      idx := idx + 1;
    }
    return Done(count);
  }

  lemma NothingListed(img: Image, mask: set<SecType>, snum: nat)
    ensures Listed(img, mask, 0, snum) == Done([]) && Listed(img, mask, 1, snum) == Done([])
  {
  }

  lemma ListedNext(img: Image, mask: set<SecType>, n: nat, snum: nat, list: seq<Section>)
    requires 1 <= n < |img.shdrs| && Listed(img, mask, n, snum) == Done(list) && |list| < snum
    ensures Listed(img, mask, n + 1, snum) ==
            match TypeOf(img.shdrs[n])
            case None => Trapped
            case Some(ty) => Done(if ty in mask then Insert(list, MakeSection(img, n)) else list)
    ensures forall s :: |Insert(list, s)| == |list| + 1
  {
    hide MakeSection, TypeOf;
  }

  lemma {:induction false} TrapStays(img: Image, mask: set<SecType>, n: nat, m: nat, snum: nat)
    requires n <= m <= |img.shdrs| && Listed(img, mask, n, snum).Trapped?
    ensures Listed(img, mask, m, snum).Trapped?
    decreases m
  {
    hide Insert, MakeSection, TypeOf;
    if n < m {
      TrapStays(img, mask, n, m - 1, snum);
    }
  }

  lemma {:induction false} FullStays(img: Image, mask: set<SecType>, n: nat, m: nat, snum: nat)
    requires n <= m <= |img.shdrs| && Listed(img, mask, n, snum).Done? && |Listed(img, mask, n, snum).value| == snum
    ensures Listed(img, mask, m, snum) == Listed(img, mask, n, snum)
    decreases m
  {
    hide Insert, MakeSection, TypeOf;
    if n < m {
      FullStays(img, mask, n, m - 1, snum);
    }
  }

  // ----- what the list holds -----

  /** No header stops the run. */
  predicate AllTyped(img: Image) {
    forall i :: 1 <= i < |img.shdrs| ==> TypeOf(img.shdrs[i]).Some?
  }

  predicate Matches(img: Image, mask: set<SecType>, i: nat)
    requires i < |img.shdrs|
  {
    TypeOf(img.shdrs[i]).Some? && TypeOf(img.shdrs[i]).value in mask
  }

  /** The sections of the types in `mask` among the headers before `n`, in header order. */
  function Matching(img: Image, mask: set<SecType>, n: nat): seq<Section>
    requires n <= 1 || n <= |img.shdrs|
  {
    if n <= 1 then []
    else Matching(img, mask, n - 1) + if Matches(img, mask, n - 1) then [MakeSection(img, n - 1)] else []
  }

  function Count(img: Image, mask: set<SecType>): nat {
    |Matching(img, mask, |img.shdrs|)|
  }

  lemma InsertAdds(list: seq<Section>, s: Section)
    ensures multiset(Insert(list, s)) == multiset(list) + multiset{s} && |Insert(list, s)| == |list| + 1
  {
    var i := InsertPos(list, s);
    assert list == list[..i] + list[i..];
  }

  lemma {:induction false} MatchingGrows(img: Image, mask: set<SecType>, n: nat, m: nat)
    requires n <= m && (m <= 1 || m <= |img.shdrs|)
    ensures |Matching(img, mask, n)| <= |Matching(img, mask, m)|
    decreases m
  {
    if n < m {
      MatchingGrows(img, mask, n, m - 1);
    }
  }

  /** With room for all of them the list has every matching section, each as often as
      there are headers for it. */
  lemma {:induction false} ListedIsMatching(img: Image, mask: set<SecType>, n: nat, snum: nat)
    requires AllTyped(img) && (n <= 1 || n <= |img.shdrs|) && |Matching(img, mask, n)| <= snum && 0 < snum
    ensures Listed(img, mask, n, snum).Done?
    ensures multiset(Listed(img, mask, n, snum).value) == multiset(Matching(img, mask, n))
    ensures |Listed(img, mask, n, snum).value| == |Matching(img, mask, n)|
    decreases n
  {
    if n > 1 {
      MatchingGrows(img, mask, n - 1, n);
      ListedIsMatching(img, mask, n - 1, snum);
      var list, prev := Listed(img, mask, n - 1, snum).value, Matching(img, mask, n - 1);
      hide Insert, MakeSection, TypeOf;
      if Matches(img, mask, n - 1) {
        var s := MakeSection(img, n - 1);
        assert Matching(img, mask, n) == prev + [s] && Listed(img, mask, n, snum) == Done(Insert(list, s));
        hide Listed, Matching, Matches;
        InsertAdds(list, s);
        assert multiset(prev + [s]) == multiset(prev) + multiset{s};
      } else {
        assert Matching(img, mask, n) == prev && Listed(img, mask, n, snum) == Done(list);
      }
    }
  }

  /** `uld_load_get_sec_count`. */
  method GetSecCount(img: Image, mask: set<SecType>) returns (r: Outcome<nat>)
    ensures AllTyped(img) ==> r == Done(Count(img, mask))
    ensures !AllTyped(img) ==> r == Trapped
  {
    var count: nat, idx: nat := 0, 1;
    while idx < |img.shdrs|
      invariant 1 <= idx && (idx == 1 || idx <= |img.shdrs|)
      invariant count == |Matching(img, mask, idx)|
      invariant forall i :: 1 <= i < idx && i < |img.shdrs| ==> TypeOf(img.shdrs[i]).Some?
    {
      var ty := SectionGetType(img.shdrs[idx]);
      if ty.None? {
        return Trapped;
      }
      if ty.value in mask {
        count := count + 1;
      }
      idx := idx + 1;
    }
    return Done(count);
  }

  // ----- the order of the list -----

  /** Among the sections of one type either all have an address or none has. */
  ghost predicate NotMixed(list: seq<Section>) {
    forall s, t :: s in list && t in list && s.ty == t.ty ==> (s.addr == 0 <==> t.addr == 0)
  }

  /** Flash sections come before memory sections, and these before all others. */
  predicate TypesInOrder(a: SecType, b: SecType) {
    (a == FlashType && b != FlashType) || (a == MemType && b == OtherType)
  }

  predicate InOrder(s: Section, t: Section) {
    || TypesInOrder(s.ty, t.ty)
    || (s.ty == t.ty && if s.addr != 0 then s.addr < t.addr || (s.addr == t.addr && s.shidx < t.shidx)
                        else s.offset < t.offset || (s.offset == t.offset && s.shidx < t.shidx))
  }

  /** By type, then by address, and by file offset where sections have no address; sections
      at the same place stay in the order of their headers. */
  ghost predicate Sorted(list: seq<Section>) {
    forall j, k :: 0 <= j < k < |list| ==> InOrder(list[j], list[k])
  }

  lemma InsertSorted(list: seq<Section>, s: Section)
    requires Sorted(list) && NotMixed(list + [s]) && forall x :: x in list ==> x.shidx < s.shidx
    ensures Sorted(Insert(list, s))
  {
    var i := InsertPos(list, s);
    forall k | 0 <= k < |list|
      ensures s.ty == list[k].ty ==> (s.addr == 0 <==> list[k].addr == 0)
      ensures k < i ==> InOrder(list[k], s)
      ensures k >= i ==> InOrder(s, list[k])
    {
      assert list[k] in list + [s] && s in list + [s];
      if k > i {
        assert InOrder(list[i], list[k]) && list[i] in list + [s];
      }
    }
  }

  /** The list is sorted, as long as no type mixes sections with and without address. */
  lemma {:induction false} ListedSorted(img: Image, mask: set<SecType>, n: nat, snum: nat)
    requires n <= 1 || n <= |img.shdrs|
    requires Listed(img, mask, n, snum).Done? && NotMixed(Listed(img, mask, n, snum).value)
    ensures Sorted(Listed(img, mask, n, snum).value)
    decreases n
  {
    if n > 1 && snum > 0 {
      var before, list := Listed(img, mask, n - 1, snum).value, Listed(img, mask, n, snum).value;
      hide MakeSection, TypeOf;
      if list == before {
        ListedSorted(img, mask, n - 1, snum);
      } else {
        var s := MakeSection(img, n - 1);
        assert list == Insert(before, s);
        SameMembers(before, s);
        ListedSorted(img, mask, n - 1, snum);
        ListedBelow(img, mask, n - 1, snum);
        IndexOf(img, n - 1);
        InsertSorted(before, s);
      }
    }
  }

  lemma IndexOf(img: Image, idx: nat)
    requires idx < |img.shdrs| && TypeOf(img.shdrs[idx]).Some?
    ensures MakeSection(img, idx).shidx == idx
  {
  }

  lemma {:induction false} ListedBelow(img: Image, mask: set<SecType>, n: nat, snum: nat)
    requires n <= 1 || n <= |img.shdrs|
    requires Listed(img, mask, n, snum).Done?
    ensures forall x :: x in Listed(img, mask, n, snum).value ==> x.shidx < n
    decreases n
  {
    if n > 1 && snum > 0 {
      hide MakeSection, TypeOf, Insert;
      ListedBelow(img, mask, n - 1, snum);
      var before, list := Listed(img, mask, n - 1, snum).value, Listed(img, mask, n, snum).value;
      if list != before {
        SameMembers(before, MakeSection(img, n - 1));
        IndexOf(img, n - 1);
      }
    }
  }

  lemma SameMembers(list: seq<Section>, s: Section)
    ensures forall x :: x in Insert(list, s) <==> x in list || x == s
    ensures NotMixed(Insert(list, s)) ==> NotMixed(list) && NotMixed(list + [s])
  {
    var i := InsertPos(list, s);
    assert list == list[..i] + list[i..];
  }
}
