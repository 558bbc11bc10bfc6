/** The dependency graph of the files in the table, and the order in which a depth
    first search records them (the specification of uld_dyn_create_fse_dep_list in
    src/uld_dyn.c). */
module DepGraph {
  import opened Words
  import opened Options

  type Name = seq<Byte>

  /** What the dynamic section of a file asks for: no .dynamic section, a .dynamic
      section that cannot be used, or the names of its DT_NEEDED entries. */
  datatype Needs = NoDynamic | Broken | Needed(names: seq<Name>)

  /** The file table in list order. */
  datatype Entry = Entry(name: Name, needs: Needs)
  type Table = seq<Entry>

  /** `uld_fs_get_file_by_name` on the table: the first file of that name. */
  function FirstNamed(t: Table, name: Name): (r: Option<nat>)
    ensures r.Some? ==> r.value < |t| && t[r.value].name == name && forall k :: 0 <= k < r.value ==> t[k].name != name
    ensures r.None? ==> forall k :: 0 <= k < |t| ==> t[k].name != name
  {
    FirstWhere(t, (e: Entry) => e.name == name)
  }

  function NamesOf(t: Table, f: nat): seq<Name>
    requires f < |t|
  {
    if t[f].needs.Needed? then t[f].needs.names else []
  }

  /** File `f` needs file `g`. */
  ghost predicate Needs1(t: Table, f: nat, g: nat) {
    f < |t| && exists n :: n in NamesOf(t, f) && FirstNamed(t, n) == Some(g)
  }

  /** The search fails at `f`: its sections cannot be used, or it needs a name that is
      not in the table. */
  ghost predicate Bad(t: Table, f: nat) {
    f < |t| && (t[f].needs.Broken? || exists n :: n in NamesOf(t, f) && FirstNamed(t, n).None?)
  }

  /** Ranks that fall along dependencies: there is no cycle. */
  ghost predicate Acyclic(t: Table, rank: seq<nat>) {
    |rank| == |t| && forall f: nat, g: nat :: Needs1(t, f, g) ==> rank[g] < rank[f]
  }

  // ----- reachability -----

  /** A path of dependencies from `p[0]` on that does not meet `seen`. */
  ghost predicate Path(t: Table, p: seq<nat>, seen: seq<nat>) {
    && p != [] && (forall k :: 0 <= k < |p| ==> p[k] !in seen)
    && forall k :: 0 < k < |p| ==> Link(t, p, k)
  }

  ghost predicate Link(t: Table, p: seq<nat>, k: int)
    requires 0 < k < |p|
  {
    Needs1(t, p[k - 1], p[k])
  }

  /** `x` is reached from `f` without going through a file that is `seen`. */
  ghost predicate Reached(t: Table, f: nat, x: nat, seen: seq<nat>) {
    exists p :: Path(t, p, seen) && p[0] == f && p[|p| - 1] == x
  }

  // ----- the order of the search -----

  /** The list after the search from `f` has been added to `list`. */
  ghost function Visit(t: Table, rank: seq<nat>, f: nat, list: seq<nat>): seq<nat>
    requires Acyclic(t, rank) && f < |t|
    decreases rank[f], 1, 0
  {
    if f in list then list else VisitNames(t, rank, f, NamesOf(t, f), list) + [f]
  }

  ghost function VisitNames(t: Table, rank: seq<nat>, f: nat, names: seq<Name>, list: seq<nat>): seq<nat>
    requires Acyclic(t, rank) && f < |t| && forall n :: n in names ==> n in NamesOf(t, f)
    decreases rank[f], 0, |names|
  {
    if names == [] then list
    else
      match FirstNamed(t, names[|names| - 1])
      case None => VisitNames(t, rank, f, names[..|names| - 1], list)
      case Some(g) =>
        assert Needs1(t, f, g);
        Visit(t, rank, g, VisitNames(t, rank, f, names[..|names| - 1], list))
  }

  // ----- what is in the list -----

  lemma StepPath(t: Table, f: nat, g: nat, x: nat, seen: seq<nat>)
    requires Needs1(t, f, g) && f !in seen && Reached(t, g, x, seen)
    ensures Reached(t, f, x, seen)
  {
    var p :| Path(t, p, seen) && p[0] == g && p[|p| - 1] == x;
    var q := [f] + p;
    forall k | 0 < k < |q|
      ensures Link(t, q, k)
    {
      if k > 1 {
        assert Link(t, p, k - 1);
      }
    }
    assert Path(t, q, seen) && q[|q| - 1] == x;
  }

  lemma SelfReached(t: Table, f: nat, seen: seq<nat>)
    requires f !in seen
    ensures Reached(t, f, f, seen)
  {
    assert Path(t, [f], seen);
  }

  lemma FewerSeen(t: Table, f: nat, x: nat, seen: seq<nat>, more: seq<nat>)
    requires Reached(t, f, x, more) && forall y :: y in seen ==> y in more
    ensures Reached(t, f, x, seen)
  {
    var p :| Path(t, p, more) && p[0] == f && p[|p| - 1] == x;
    assert Path(t, p, seen);
  }

  /** The list grows, and what is added is reached from `f` and ranks no higher. */
  lemma {:induction false} VisitAdds(t: Table, rank: seq<nat>, f: nat, list: seq<nat>)
    requires Acyclic(t, rank) && f < |t|
    ensures list <= Visit(t, rank, f, list)
    ensures forall x :: x in Visit(t, rank, f, list) ==> x in list || Added(t, rank, f, x, list)
    ensures f in Visit(t, rank, f, list)
    decreases rank[f], 1, 0
  {
    if f !in list {
      NamesAdd(t, rank, f, NamesOf(t, f), list);
      SelfReached(t, f, list);
    }
  }

  ghost predicate Added(t: Table, rank: seq<nat>, f: nat, x: nat, list: seq<nat>)
    requires f < |t| == |rank|
  {
    x < |t| && rank[x] <= rank[f] && x !in list && Reached(t, f, x, list)
  }

  /** `x` was added on behalf of a file that `f` needs. */
  ghost predicate AddedBelow(t: Table, rank: seq<nat>, f: nat, x: nat, list: seq<nat>)
    requires f < |t| == |rank|
  {
    x < |t| && rank[x] < rank[f] && x !in list && (f !in list ==> Reached(t, f, x, list))
  }

  lemma {:induction false} NamesAdd(t: Table, rank: seq<nat>, f: nat, names: seq<Name>, list: seq<nat>)
    requires Acyclic(t, rank) && f < |t| && forall n :: n in names ==> n in NamesOf(t, f)
    ensures list <= VisitNames(t, rank, f, names, list)
    ensures forall x :: x in VisitNames(t, rank, f, names, list) ==> x in list || AddedBelow(t, rank, f, x, list)
    decreases rank[f], 0, |names|
  {
    if names != [] {
      var rest, n := names[..|names| - 1], names[|names| - 1];
      NamesAdd(t, rank, f, rest, list);
      var g := FirstNamed(t, n);
      if g.Some? {
        assert Needs1(t, f, g.value);
        var mid := VisitNames(t, rank, f, rest, list);
        VisitAdds(t, rank, g.value, mid);
        forall x | x in Visit(t, rank, g.value, mid) && x !in mid
          ensures AddedBelow(t, rank, f, x, list)
        {
          assert Added(t, rank, g.value, x, mid);
          FewerSeen(t, g.value, x, list, mid);
          if f !in list {
            StepPath(t, f, g.value, x, list);
          }
        }
      }
    }
  }

  /** Every name that has been gone through has its file in the list. */
  lemma {:induction false} NamesDone(t: Table, rank: seq<nat>, f: nat, names: seq<Name>, list: seq<nat>, n: Name)
    requires Acyclic(t, rank) && f < |t| && (forall n :: n in names ==> n in NamesOf(t, f)) && n in names
    ensures FirstNamed(t, n).Some? ==> FirstNamed(t, n).value in VisitNames(t, rank, f, names, list)
    decreases |names|
  {
    var rest, m := names[..|names| - 1], names[|names| - 1];
    var mid := VisitNames(t, rank, f, rest, list);
    if n in rest {
      NamesDone(t, rank, f, rest, list, n);
    }
    match FirstNamed(t, m)
    case None =>
    case Some(g) =>
      assert Needs1(t, f, g);
      VisitAdds(t, rank, g, mid);
  }

  /** From position `from` on, every file comes after all files that it needs. */
  ghost predicate Ordered(t: Table, list: seq<nat>, from: nat) {
    forall p: nat, g: nat :: from <= p < |list| && Needs1(t, list[p], g) ==> g in list[..p]
  }

  lemma {:induction false} VisitOrdered(t: Table, rank: seq<nat>, f: nat, list: seq<nat>, from: nat)
    requires Acyclic(t, rank) && f < |t| && from <= |list| && Ordered(t, list, from)
    ensures Ordered(t, Visit(t, rank, f, list), from)
    decreases rank[f], 1, 0
  {
    if f !in list {
      NamesOrdered(t, rank, f, NamesOf(t, f), list, from);
      var mid := VisitNames(t, rank, f, NamesOf(t, f), list);
      forall g: nat | Needs1(t, f, g)
        ensures g in mid
      {
        var n :| n in NamesOf(t, f) && FirstNamed(t, n) == Some(g);
        NamesDone(t, rank, f, NamesOf(t, f), list, n);
      }
      OrderedNext(t, mid, f, from);
    }
  }

  lemma OrderedNext(t: Table, list: seq<nat>, f: nat, from: nat)
    requires Ordered(t, list, from) && forall g: nat :: Needs1(t, f, g) ==> g in list
    ensures Ordered(t, list + [f], from)
  {
    var l1 := list + [f];
    forall p: nat, g: nat | from <= p < |l1| && Needs1(t, l1[p], g)
      ensures g in l1[..p]
    {
      if p < |list| {
        assert l1[..p] == list[..p];
      } else {
        assert l1[..p] == list;
      }
    }
  }

  lemma {:induction false} NamesOrdered(t: Table, rank: seq<nat>, f: nat, names: seq<Name>, list: seq<nat>, from: nat)
    requires Acyclic(t, rank) && f < |t| && forall n :: n in names ==> n in NamesOf(t, f)
    requires from <= |list| && Ordered(t, list, from)
    ensures Ordered(t, VisitNames(t, rank, f, names, list), from)
    decreases rank[f], 0, |names|
  {
    if names != [] {
      var rest := names[..|names| - 1];
      NamesOrdered(t, rank, f, rest, list, from);
      NamesAdd(t, rank, f, rest, list);
      match FirstNamed(t, names[|names| - 1])
      case None =>
      case Some(g) =>
        assert Needs1(t, f, g);
        VisitOrdered(t, rank, g, VisitNames(t, rank, f, rest, list), from);
    }
  }

  ghost predicate Distinct(list: seq<nat>) {
    forall j, k :: 0 <= j < k < |list| ==> list[j] != list[k]
  }

  lemma {:induction false} VisitDistinct(t: Table, rank: seq<nat>, f: nat, list: seq<nat>)
    requires Acyclic(t, rank) && f < |t| && Distinct(list)
    ensures Distinct(Visit(t, rank, f, list))
    decreases rank[f], 1, 0
  {
    if f !in list {
      NamesDistinct(t, rank, f, NamesOf(t, f), list);
      NamesAdd(t, rank, f, NamesOf(t, f), list);
    }
  }

  lemma {:induction false} NamesDistinct(t: Table, rank: seq<nat>, f: nat, names: seq<Name>, list: seq<nat>)
    requires Acyclic(t, rank) && f < |t| && (forall n :: n in names ==> n in NamesOf(t, f)) && Distinct(list)
    ensures Distinct(VisitNames(t, rank, f, names, list))
    decreases rank[f], 0, |names|
  {
    if names != [] {
      NamesDistinct(t, rank, f, names[..|names| - 1], list);
      match FirstNamed(t, names[|names| - 1])
      case None =>
      case Some(g) =>
        assert Needs1(t, f, g);
        VisitDistinct(t, rank, g, VisitNames(t, rank, f, names[..|names| - 1], list));
    }
  }

  lemma {:induction false} PathInList(t: Table, list: seq<nat>, from: nat, p: seq<nat>, seen: seq<nat>, k: nat)
    requires Path(t, p, seen) && k < |p| && p[0] in list && Ordered(t, list, from)
    requires from <= |list| && seen == list[..from]
    ensures p[k] in list
    decreases k
  {
    if k > 0 {
      PathInList(t, list, from, p, seen, k - 1);
      forall j | 0 <= j < from
        ensures list[j] != p[k - 1]
      {
        assert list[j] == seen[j];
      }
      var i: nat :| i < |list| && list[i] == p[k - 1];
      assert Link(t, p, k);
      assert p[k] in list[..i];
    }
  }

  // ----- what the search promises -----

  /** The search from `f` keeps what the list already holds in front, and adds
      exactly the files reached from `f` without going through those, once each,
      every file after all files it needs, and `f` last. */
  lemma VisitExact(t: Table, rank: seq<nat>, f: nat, list: seq<nat>)
    requires Acyclic(t, rank) && f < |t| && Distinct(list)
    ensures var v := Visit(t, rank, f, list);
            && list <= v && Distinct(v) && Ordered(t, v, |list|)
            && (forall x: nat :: x in v <==> x in list || Reached(t, f, x, list))
            && (f !in list ==> v[|v| - 1] == f)
  {
    var v := Visit(t, rank, f, list);
    VisitAdds(t, rank, f, list);
    VisitOrdered(t, rank, f, list, |list|);
    VisitDistinct(t, rank, f, list);
    forall x: nat | Reached(t, f, x, list)
      ensures x in v
    {
      var p :| Path(t, p, list) && p[0] == f && p[|p| - 1] == x;
      assert list == v[..|list|];
      PathInList(t, v, |list|, p, list, |p| - 1);
    }
  }

  lemma {:induction false} AtMost(list: seq<nat>, n: nat)
    requires Distinct(list) && forall x :: x in list ==> x < n
    ensures |list| <= n
    decreases n
  {
    if list != [] {
      assert list[0] in list && 0 < n;
      if n - 1 in list {
        var i: nat :| i < |list| && list[i] == n - 1;
        var rest := list[..i] + list[i + 1..];
        assert forall x :: x in rest ==> x in list && x != n - 1;
        AtMost(rest, n - 1);
      } else {
        AtMost(list, n - 1);
      }
    }
  }

  /** No list is longer than the table. */
  lemma VisitFitsTable(t: Table, rank: seq<nat>, f: nat)
    requires Acyclic(t, rank) && f < |t|
    ensures |Visit(t, rank, f, [])| <= |t|
  {
    VisitAdds(t, rank, f, []);
    VisitDistinct(t, rank, f, []);
    var v := Visit(t, rank, f, []);
    forall x | x in v
      ensures x < |t|
    {
      assert Added(t, rank, f, x, []);
    }
    AtMost(v, |t|);
  }

  /** Every file in the list is one of the table. */
  lemma VisitInTable(t: Table, rank: seq<nat>, f: nat)
    requires Acyclic(t, rank) && f < |t|
    ensures forall k :: 0 <= k < |Visit(t, rank, f, [])| ==> Visit(t, rank, f, [])[k] < |t|
  {
    VisitExact(t, rank, f, []);
    var v := Visit(t, rank, f, []);
    forall k | 0 <= k < |v|
      ensures v[k] < |t|
    {
      assert v[k] in v;
      var p :| Path(t, p, []) && p[0] == f && p[|p| - 1] == v[k];
      if |p| > 1 {
        assert Link(t, p, |p| - 1);
      }
    }
  }
}
