/** The file table in flash: a linked list of entries, each followed by its name
    (include/uld_types.h), and the walks over it (src/uld_fs.c). */
module FsTable {
  import opened Words
  import opened Options

  type Name = seq<Byte>

  // Offsets in struct uld_fs_entry.
  const BASE := 0
  const NEXT := 4
  const SIZE := 8
  const CRC := 12
  const FLAGS := 16
  const NAME := 20

  /** The entries reached from `p` by `next` pointers, in order; 0 ends the list. */
  ghost predicate IsList(m: Memory, p: nat, ps: seq<nat>)
    decreases |ps|
  {
    if ps == [] then p == 0
    else p != 0 && p == ps[0] && p + NAME < |m| && IsList(m, LoadWord(m, p + NEXT), ps[1..])
  }

  lemma {:induction false} ListAt(m: Memory, p: nat, ps: seq<nat>, k: nat)
    requires IsList(m, p, ps) && k <= |ps|
    ensures IsList(m, if k == 0 then p else LoadWordAt(m, ps, k - 1), ps[k..])
    ensures k < |ps| ==> ps[k] != 0 && ps[k] + NAME < |m|
    ensures k < |ps| ==> ps[k] == if k == 0 then p else LoadWordAt(m, ps, k - 1)
    decreases k
  {
    if k == 0 {
      assert ps[0..] == ps;
    } else {
      ListAt(m, LoadWord(m, p + NEXT), ps[1..], k - 1);
      assert ps[1..][k - 1..] == ps[k..];
    }
  }

  /** The `next` pointer of entry `k`; 0 where there is no such word. */
  function LoadWordAt(m: Memory, ps: seq<nat>, k: nat): Word {
    if k < |ps| && ps[k] + NAME <= |m| then LoadWord(m, ps[k] + NEXT) else 0
  }

  /** `name` and its terminating NUL are at `a`. */
  predicate CStringAt(m: Memory, a: nat, name: Name) {
    a + |name| < |m| && m[a..a + |name|] == name && 0 !in name && m[a + |name|] == 0
  }

  /** `uld_fs_get_file_count`. */
  method GetFileCount(mem: array<Byte>, head: nat, ghost ps: seq<nat>) returns (count: nat)
    requires IsList(mem[..], head, ps)
    ensures count == |ps|
  {
    var pos: nat := head;
    count := 0;
    assert ps[0..] == ps;
    while pos != 0
      invariant count <= |ps| && IsList(mem[..], pos, ps[count..])
      decreases |ps| - count
    {
      assert ps[count..][1..] == ps[count + 1..];
      pos := GetWord(mem, pos + NEXT);
      count := count + 1;
    }
  }

  /** `uld_fs_get_file_by_index`; None is the NULL of the original. */
  method GetFileByIndex(mem: array<Byte>, head: nat, index: nat, ghost ps: seq<nat>) returns (r: Option<nat>)
    requires IsList(mem[..], head, ps)
    ensures r == if index < |ps| then Some(ps[index]) else None
  {
    var pos: nat, left: nat := head, index;
    ghost var k: nat := 0;
    assert ps[0..] == ps;
    while pos != 0
      invariant k <= |ps| && left + k == index && IsList(mem[..], pos, ps[k..])
      decreases |ps| - k
    {
      if left == 0 {
        return Some(pos);
      }
      assert ps[k..][1..] == ps[k + 1..];
      left := left - 1;
      pos := GetWord(mem, pos + NEXT);
      k := k + 1;
    }
    return None;
  }

  /** `!strcmp(s, name)` for the string `x` stored at `a`. */
  method EqualsName(mem: array<Byte>, a: nat, name: Name, ghost x: Name) returns (same: bool)
    requires CStringAt(mem[..], a, x) && 0 !in name
    ensures same <==> x == name
  {
    var i := 0;
    while i < |name|
      invariant i <= |name| && i <= |x| && name[..i] == x[..i]
    {
      assert mem[a + i] == if i < |x| then x[i] else 0;
      if mem[a + i] != name[i] {
        assert i < |x| ==> x[i] != name[i];
        return false;
      }
      i := i + 1;
    }
    assert name == name[..i];
    return mem[a + i] == 0;
  }

  /** Every entry of the list has its name stored behind it. */
  ghost predicate Named(m: Memory, ps: seq<nat>, names: seq<Name>) {
    |names| == |ps| && forall k :: 0 <= k < |ps| ==> CStringAt(m, ps[k] + NAME, names[k])
  }

  /** `uld_fs_get_file_by_name`: the first entry of that name. */
  method GetFileByName(mem: array<Byte>, head: nat, name: Name, ghost ps: seq<nat>, ghost names: seq<Name>) returns (r: Option<nat>)
    requires IsList(mem[..], head, ps) && Named(mem[..], ps, names) && 0 !in name
    ensures r.Some? ==> exists k :: 0 <= k < |ps| && r.value == ps[k] && names[k] == name && name !in names[..k]
    ensures r.None? ==> name !in names
  {
    var pos: nat := head;
    ghost var k: nat := 0;
    assert ps[0..] == ps;
    while pos != 0
      invariant k <= |ps| && IsList(mem[..], pos, ps[k..]) && name !in names[..k]
      decreases |ps| - k
    {
      var same := EqualsName(mem, pos + NAME, name, names[k]);
      if same {
        return Some(pos);
      }
      assert ps[k..][1..] == ps[k + 1..];
      pos := GetWord(mem, pos + NEXT);
      k := k + 1;
    }
    assert names[..k] == names;
    return None;
  }
}
