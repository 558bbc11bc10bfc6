/** The dependency list (uld_dyn_create_fse_dep_list and uld_dyn_get_fse_dep_count in
    src/uld_dyn.c). */
module DepList {
  import opened Options
  import opened Words
  import opened DepGraph
  import FsTable

  method FindFse(t: Table, name: Name) returns (r: Option<nat>)
    ensures r == FirstNamed(t, name)
  {
    r := FindWhere(t, (e: Entry) => e.name == name);
  }

  method IsListed(deps: array<nat>, idx: nat, fse: nat) returns (found: bool)
    requires idx <= deps.Length
    ensures found <==> fse in deps[..idx]
  {
    var i := idx;
    while i > 0
      invariant 0 <= i <= idx && forall k :: i <= k < idx ==> deps[k] != fse
    {
      i := i - 1;
      if deps[i] == fse {
        return true;
      }
    }
    return false;
  }

  /** A file at which the search fails is reached from `f`. */
  ghost predicate BadReached(t: Table, f: nat, list: seq<nat>) {
    exists x: nat :: Bad(t, x) && Reached(t, f, x, list)
  }

  /** No file that was added is one at which the search fails. */
  ghost predicate AllGood(t: Table, list: seq<nat>, from: nat) {
    forall k :: from <= k < |list| ==> !Bad(t, list[k])
  }

  /** What the search leaves in the list, for each return code. */
  ghost predicate Result(t: Table, rank: seq<nat>, fse: nat, list: seq<nat>, ret: int, now: seq<nat>, size: nat)
    requires Acyclic(t, rank) && fse < |t|
  {
    var v := Visit(t, rank, fse, list);
    && |list| <= |now| <= size && list <= now <= v
    && (ret == 0 || ret == -1 || ret == -2)
    && (ret == 0 ==> now == v && AllGood(t, v, |list|))
    && (ret == -1 ==> BadReached(t, fse, list))
    && (ret == -2 ==> |now| == size < |v|)
  }

  lemma {:induction false} NamesMonotone(t: Table, rank: seq<nat>, f: nat, names: seq<Name>, j: nat, list: seq<nat>)
    requires Acyclic(t, rank) && f < |t| && (forall n :: n in names ==> n in NamesOf(t, f)) && j <= |names|
    ensures VisitNames(t, rank, f, names[..j], list) <= VisitNames(t, rank, f, names, list)
    decreases |names|
  {
    if j == |names| {
      assert names[..j] == names;
    } else {
      var rest := names[..|names| - 1];
      NamesMonotone(t, rank, f, rest, j, list);
      assert rest[..j] == names[..j];
      match FirstNamed(t, names[|names| - 1])
      case None =>
      case Some(g) =>
        assert Needs1(t, f, g);
        VisitAdds(t, rank, g, VisitNames(t, rank, f, rest, list));
    }
  }

  /** One more name has been gone through, or the search below it has failed. */
  lemma Upward(t: Table, rank: seq<nat>, f: nat, i: nat, list: seq<nat>, mid: seq<nat>, g: nat, ret: int, now: seq<nat>, size: nat)
    requires Acyclic(t, rank) && f < |t| && f !in list && i < |NamesOf(t, f)| && FirstNamed(t, NamesOf(t, f)[i]) == Some(g)
    requires mid == VisitNames(t, rank, f, NamesOf(t, f)[..i], list) && AllGood(t, mid, |list|)
    requires g < |t| && Result(t, rank, g, mid, ret, now, size)
    ensures now <= Visit(t, rank, f, list) && list <= now
    ensures ret != 0 ==> Result(t, rank, f, list, ret, now, size)
    ensures ret == 0 ==> now == VisitNames(t, rank, f, NamesOf(t, f)[..i + 1], list) && AllGood(t, now, |list|)
  {
    var names := NamesOf(t, f);
    assert names[..i + 1][..i] == names[..i];
    assert Needs1(t, f, g);
    hide NamesOf, Needs1, Bad, Reached, Acyclic;
    NamesMonotone(t, rank, f, names, i + 1, list);
    NamesAdd(t, rank, f, names[..i], list);
    if ret == -1 {
      var x: nat :| Bad(t, x) && Reached(t, g, x, mid);
      FewerSeen(t, g, x, list, mid);
      StepPath(t, f, g, x, list);
    }
  }

  lemma BadHere(t: Table, rank: seq<nat>, f: nat, i: nat, list: seq<nat>, now: seq<nat>, size: nat)
    requires Acyclic(t, rank) && f < |t| && f !in list && |now| <= size && i <= |NamesOf(t, f)| && Bad(t, f)
    requires now == VisitNames(t, rank, f, NamesOf(t, f)[..i], list)
    ensures Result(t, rank, f, list, -1, now, size)
  {
    SelfReached(t, f, list);
    NamesMonotone(t, rank, f, NamesOf(t, f), i, list);
    NamesAdd(t, rank, f, NamesOf(t, f)[..i], list);
  }

  lemma LastEntry(t: Table, rank: seq<nat>, f: nat, list: seq<nat>, mid: seq<nat>, size: nat)
    requires Acyclic(t, rank) && f < |t| && f !in list && |mid| <= size && !Bad(t, f)
    requires mid == VisitNames(t, rank, f, NamesOf(t, f), list) && AllGood(t, mid, |list|)
    ensures |mid| == size ==> Result(t, rank, f, list, -2, mid, size)
    ensures |mid| < size ==> Result(t, rank, f, list, 0, mid + [f], size)
  {
    NamesAdd(t, rank, f, NamesOf(t, f), list);
  }

  lemma NoNames(t: Table, rank: seq<nat>, f: nat, list: seq<nat>)
    requires Acyclic(t, rank) && f < |t|
    ensures VisitNames(t, rank, f, NamesOf(t, f)[..0], list) == list
  {
  }

  /** `uld_dyn_create_fse_dep_list`.  The first `idx0` entries of the list are filled,
      `idx` are when it returns. */
  method CreateDepList(t: Table, fse: nat, deps: array<nat>, idx0: nat, size: nat, ghost rank: seq<nat>)
    returns (ret: int, idx: nat)
    requires Acyclic(t, rank) && fse < |t| && idx0 <= size <= deps.Length
    modifies deps
    ensures idx0 <= idx <= size && Result(t, rank, fse, old(deps[..idx0]), ret, deps[..idx], size)
    ensures forall k :: idx <= k < deps.Length ==> deps[k] == old(deps[k])
    decreases rank[fse]
  {
    hide *;
    idx := idx0;
    ghost var list := deps[..idx];
    var listed := IsListed(deps, idx, fse);
    if listed {
      AlreadyListed(t, rank, fse, list, size);
      return 0, idx;
    }
    ghost var all := NamesOf(t, fse);
    HasNames(t, fse);
    NoNames(t, rank, fse, list);
    NothingAdded(t, list);
    if t[fse].needs.Broken? {
      IsBroken(t, fse);
      BadHere(t, rank, fse, 0, list, list, size);
      return -1, idx;
    }
    if t[fse].needs.Needed? {
      var names := t[fse].needs.names;
      var i := 0;
      while i < |names|
        invariant idx0 <= idx <= size && i <= |names|
        invariant deps[..idx] == VisitNames(t, rank, fse, names[..i], list) && AllGood(t, deps[..idx], idx0)
        invariant forall n :: n in names[..i] ==> FirstNamed(t, n).Some?
        invariant forall k :: idx <= k < deps.Length ==> deps[k] == old(deps[k])
      {
        ghost var mid := deps[..idx];
        var dep := FindFse(t, names[i]);
        if dep.None? {
          MissingIsBad(t, fse, names[i]);
          BadHere(t, rank, fse, i, list, mid, size);
          return -1, idx;
        }
        RankFalls(t, rank, fse, names[i]);
        ret, idx := CreateDepList(t, dep.value, deps, idx, size, rank);
        Upward(t, rank, fse, i, list, mid, dep.value, ret, deps[..idx], size);
        if ret != 0 {
          return;
        }
        i := i + 1;
      }
      assert names[..i] == names;
    } else {
      assert all[..0] == all;
    }
    NoneMissing(t, fse);
    ghost var before := deps[..idx];
    LastEntry(t, rank, fse, list, before, size);
    if idx == size {
      return -2, idx;
    }
    deps[idx] := fse;
    idx := idx + 1;
    assert deps[..idx] == before + [fse];
    return 0, idx;
  }

  lemma AlreadyListed(t: Table, rank: seq<nat>, f: nat, list: seq<nat>, size: nat)
    requires Acyclic(t, rank) && f < |t| && f in list && |list| <= size
    ensures Result(t, rank, f, list, 0, list, size)
  {
  }

  lemma HasNames(t: Table, f: nat)
    requires f < |t|
    ensures NamesOf(t, f) == if t[f].needs.Needed? then t[f].needs.names else []
  {
  }

  lemma NothingAdded(t: Table, list: seq<nat>)
    ensures AllGood(t, list, |list|)
  {
  }

  lemma NoneMissing(t: Table, f: nat)
    requires f < |t| && !t[f].needs.Broken? && forall n :: n in NamesOf(t, f) ==> FirstNamed(t, n).Some?
    ensures !Bad(t, f)
  {
  }

  lemma IsBroken(t: Table, f: nat)
    requires f < |t| && t[f].needs.Broken?
    ensures Bad(t, f)
  {
  }

  lemma MissingIsBad(t: Table, f: nat, n: Name)
    requires f < |t| && n in NamesOf(t, f) && FirstNamed(t, n).None?
    ensures Bad(t, f)
  {
  }

  lemma RankFalls(t: Table, rank: seq<nat>, f: nat, n: Name)
    requires Acyclic(t, rank) && f < |t| && n in NamesOf(t, f) && FirstNamed(t, n).Some?
    ensures |rank| == |t| && rank[FirstNamed(t, n).value] < rank[f]
  {
    assert Needs1(t, f, FirstNamed(t, n).value);
  }

  // ----- what the return code tells -----

  /** The search succeeds just when no file at which it fails is reached and the list
      has room for all that are; it reports "no room" only when there is none, and
      an error only when there is one.  On success the list is exactly what the
      search promises. */
  lemma DepListExact(t: Table, rank: seq<nat>, fse: nat, list: seq<nat>, ret: int, now: seq<nat>, size: nat)
    requires Acyclic(t, rank) && fse < |t| && Distinct(list) && Result(t, rank, fse, list, ret, now, size)
    ensures var v := Visit(t, rank, fse, list);
            && (ret == 0 <==> !BadReached(t, fse, list) && |v| <= size)
            && (ret == -2 ==> |v| > size)
            && (ret == -1 ==> BadReached(t, fse, list))
            && list <= now && Distinct(now)
  {
    VisitExact(t, rank, fse, list);
    var v := Visit(t, rank, fse, list);
    if ret == 0 {
      forall x: nat | Reached(t, fse, x, list)
        ensures !Bad(t, x)
      {
        NotSeen(t, fse, x, list);
        assert forall j :: 0 <= j < |list| ==> v[j] == list[j];
        var k: nat :| k < |v| && v[k] == x;
      }
    }
  }

  lemma NotSeen(t: Table, f: nat, x: nat, seen: seq<nat>)
    requires Reached(t, f, x, seen)
    ensures x !in seen
  {
  }

  /** A list as long as the file table is never too short. */
  lemma TableLengthSuffices(t: Table, rank: seq<nat>, fse: nat, ret: int, now: seq<nat>, size: nat)
    requires Acyclic(t, rank) && fse < |t| && |t| <= size && Result(t, rank, fse, [], ret, now, size)
    ensures ret != -2 && (ret == 0 <==> !BadReached(t, fse, []))
  {
    VisitFitsTable(t, rank, fse);
    DepListExact(t, rank, fse, [], ret, now, size);
  }

  /** `uld_dyn_get_fse_dep_count`: the length of the list, or the error code. */
  method GetDepCount(t: Table, fse: nat, ghost rank: seq<nat>) returns (ret: int)
    requires Acyclic(t, rank) && fse < |t|
    ensures ret >= 0 <==> !BadReached(t, fse, [])
    ensures ret >= 0 ==> ret == |Visit(t, rank, fse, [])|
    ensures ret < 0 ==> ret == -1
  {
    var count := |t|;
    var deps := new nat[count];
    var idx;
    assert deps[..0] == [];
    ret, idx := CreateDepList(t, fse, deps, 0, count, rank);
    TableLengthSuffices(t, rank, fse, ret, deps[..idx], count);
    if ret != 0 {
      return;
    }
    return idx;
  }

  /** Counting, then filling a list of that length: the second pass succeeds and
      fills the list to the last place. */
  method CountThenFill(t: Table, fse: nat, ghost rank: seq<nat>) returns (ret: int, deps: array<nat>)
    requires Acyclic(t, rank) && fse < |t|
    ensures ret == 0 <==> !BadReached(t, fse, [])
    ensures ret == 0 ==> deps[..] == Visit(t, rank, fse, [])
  {
    ret := GetDepCount(t, fse, rank);
    if ret < 0 {
      deps := new nat[0];
      return;
    }
    var count := ret;
    deps := new nat[count];
    var idx;
    assert deps[..0] == [];
    ret, idx := CreateDepList(t, fse, deps, 0, count, rank);
    DepListExact(t, rank, fse, [], ret, deps[..idx], count);
    assert ret == 0 ==> deps[..idx] == deps[..];
  }

  // ----- the table in flash -----

  /** The list in flash at `head` has the entries of the table, in its order. */
  ghost predicate TableInFlash(m: Memory, head: nat, ps: seq<nat>, t: Table) {
    && FsTable.IsList(m, head, ps) && |ps| == |t|
    && FsTable.Named(m, ps, NamesIn(t))
  }

  function NamesIn(t: Table): (names: seq<Name>)
    ensures |names| == |t| && forall k :: 0 <= k < |t| ==> names[k] == t[k].name
  {
    seq(|t|, k requires 0 <= k < |t| => t[k].name)
  }

  lemma FirstIs(t: Table, name: Name, k: nat)
    requires k < |t| && t[k].name == name && name !in NamesIn(t)[..k]
    ensures FirstNamed(t, name) == Some(k)
  {
    assert forall j :: 0 <= j < k ==> NamesIn(t)[..k][j] != name;
  }

  lemma NoneIs(t: Table, name: Name)
    requires name !in NamesIn(t)
    ensures FirstNamed(t, name) == None
  {
    assert forall j :: 0 <= j < |t| ==> NamesIn(t)[j] != name;
  }

  /** The walk over the list in flash finds the entry that the search works with. */
  method FindFseInFlash(mem: array<Byte>, head: nat, name: Name, ghost ps: seq<nat>, ghost t: Table) returns (r: Option<nat>)
    requires TableInFlash(mem[..], head, ps, t) && 0 !in name
    ensures r == match FirstNamed(t, name) case Some(k) => Some(ps[k]) case None => None
  {
    hide FirstNamed, FsTable.IsList, FsTable.Named;
    r := FsTable.GetFileByName(mem, head, name, ps, NamesIn(t));
    if r.Some? {
      ghost var k :| 0 <= k < |ps| && r.value == ps[k] && NamesIn(t)[k] == name && name !in NamesIn(t)[..k];
      FirstIs(t, name, k);
    } else {
      NoneIs(t, name);
    }
  }
}
