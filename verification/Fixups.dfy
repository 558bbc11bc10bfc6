/** Rofixup processing (src/uld_rofixup.c): the loop over the fixup table that is
    shared by flash and memory fixups, and what either of them writes. */
module Fixups {
  import opened Words
  import opened Options
  import opened Sections

  /** `elf32_adjust_lma`: where the section is when its image is at `base`; 0 for
      sections with no bytes in the image. */
  function AdjustLma(s: Section, base: nat): Word {
    if s.shType != SHT_NOBITS && s.alloc then Wrap(base + s.offset) else 0
  }

  /** The callback of the loop with its user data: flash fixups for an image that
      now is at `newBase`, or memory fixups of a loaded file. */
  datatype Job =
    | FlashJob(newBase: nat, flash: seq<Section>, mem: seq<Section>)
    | MemJob(flash: seq<Section>, mem: seq<Section>, got: Option<nat>, gotPlt: Option<nat>, membase: Word)

  /** Where the fixup at link address `a` of section `sec` is carried out. */
  function PlaceIn(job: Job, sec: Section, a: Word): Word {
    match job
    case FlashJob(newBase, _, _) => Wrap(a - sec.lma + AdjustLma(sec, newBase))
    case MemJob(_, _, _, _, _) => Wrap(a - sec.lma + sec.adjVma)
  }

  datatype Fixup = Patch(value: Word) | Leave | Unaccounted

  /** What `uld_rofixup_do_flash_fixup` makes of the word `v` that it finds. */
  function FlashFixup(newBase: nat, flash: seq<Section>, mem: seq<Section>, v: Word): Fixup {
    if v == 0 then Leave
    else
      match FindSection(flash, ByAdjLma, AnySection, v)
      case Some(k) => Patch(Wrap(v - flash[k].adjVma + AdjustLma(flash[k], newBase)))
      case None =>
        match FindSection(mem, ByAdjLma, AnySection, v)
        case Some(k) => Patch(Wrap(v - mem[k].adjVma + AdjustLma(mem[k], newBase)))
        case None => if FindSection(mem, ByLma, AnySection, v).Some? then Leave else Unaccounted
  }

  /** What `uld_rofixup_do_mem_fixup` makes of it; `sec` is the index of the
      section that holds the fixup. */
  function MemFixup(job: Job, sec: nat, v: Word): Fixup
    requires job.MemJob? && (job.gotPlt.Some? ==> job.gotPlt.value < |job.mem|)
  {
    if v == 0 then Leave
    else
      match FindSection(job.mem, ByLma, AnySection, v)
      case Some(k) =>
        if job.got == Some(sec) && job.gotPlt.Some? && v == job.mem[job.gotPlt.value].lma then Patch(job.membase)
        else Patch(Wrap(v - job.mem[k].lma + job.mem[k].adjVma))
      case None =>
        if job.flash != [] && FindSection(job.flash, ByAdjLma, AnySection, v).None? then Unaccounted else Leave
  }

  predicate JobOk(job: Job) {
    job.MemJob? && job.gotPlt.Some? ==> job.gotPlt.value < |job.mem|
  }

  function DoFixup(job: Job, sec: nat, v: Word): Fixup
    requires JobOk(job)
  {
    match job
    case FlashJob(newBase, flash, mem) => FlashFixup(newBase, flash, mem, v)
    case MemJob(_, _, _, _, _) => MemFixup(job, sec, v)
  }

  function Result(f: Fixup, v: Word): Word {
    if f.Patch? then f.value else v
  }

  // ----- the table -----

  /** Number of words the loop reads from a table of `size` bytes. */
  function TableLen(size: nat): nat {
    (size + 3) / 4
  }

  function TableWords(m: Memory, tbl: nat, n: nat): (ws: seq<Word>)
    requires tbl + 4 * n <= |m|
    ensures |ws| == n && forall k :: 0 <= k < n ==> ws[k] == LoadWord(m, tbl + 4 * k)
  {
    seq(n, k requires 0 <= k < n => LoadWord(m, tbl + 4 * k))
  }

  /** The section of the list that the fixup at link address `a` belongs to. */
  function Home(secs: seq<Section>, need: Need, a: Word): Option<nat> {
    FindSection(secs, ByLma, need, a)
  }

  /** Fixup `k` of the table is carried out at `p`. */
  ghost predicate At(job: Job, secs: seq<Section>, need: Need, ws: seq<Word>, k: int, p: int) {
    0 <= k < |ws| && Home(secs, need, ws[k]).Some? &&
    p == PlaceIn(job, secs[Home(secs, need, ws[k]).value], ws[k])
  }

  lemma AtHome(job: Job, secs: seq<Section>, need: Need, ws: seq<Word>, k: int, p: int)
    requires At(job, secs, need, ws, k, p)
    ensures 0 <= k < |ws| && Home(secs, need, ws[k]).Some?
  {
  }

  /** Fixups are in memory, do not overlap one another, and leave `[tbl, end)` alone. */
  ghost predicate FixupsApart(job: Job, secs: seq<Section>, need: Need, ws: seq<Word>, len: nat, tbl: nat, end: nat) {
    && (forall k, p :: At(job, secs, need, ws, k, p) ==> p + 4 <= len && (p + 4 <= tbl || end <= p))
    && (forall j, p, k, q :: At(job, secs, need, ws, j, p) && At(job, secs, need, ws, k, q) && j != k ==>
          p + 4 <= q || q + 4 <= p)
  }

  /** The first `n` fixups are done: each wrote what its callback says of the word
      it found in `m0`. */
  ghost predicate FixedUp(job: Job, secs: seq<Section>, need: Need, ws: seq<Word>, n: nat, m0: Memory, m: Memory)
    requires JobOk(job)
  {
    && |m| == |m0|
    && (forall k, p :: k < n && At(job, secs, need, ws, k, p) ==> FixedAt(job, Home(secs, need, ws[k]).value, m0, m, p))
    && (forall x :: 0 <= x < |m0| && (forall k, p :: k < n && At(job, secs, need, ws, k, p) ==> !(p <= x < p + 4)) ==>
          m[x] == m0[x])
  }

  ghost predicate FixedAt(job: Job, sec: nat, m0: Memory, m: Memory, p: nat)
    requires JobOk(job)
  {
    p + 4 <= |m| == |m0| &&
    var f := DoFixup(job, sec, LoadWord(m0, p));
    !f.Unaccounted? && LoadWord(m, p) == Result(f, LoadWord(m0, p))
  }

  /** Some fixup finds a word that no section accounts for. */
  ghost predicate SomeUnaccounted(job: Job, secs: seq<Section>, need: Need, ws: seq<Word>, m0: Memory)
    requires JobOk(job)
  {
    exists k, p :: At(job, secs, need, ws, k, p) && p + 4 <= |m0| &&
      DoFixup(job, Home(secs, need, ws[k]).value, LoadWord(m0, p)).Unaccounted?
  }

  lemma UnaccountedAt(job: Job, secs: seq<Section>, need: Need, ws: seq<Word>, m: Memory) returns (k: nat, p: nat, sec: nat)
    requires JobOk(job) && SomeUnaccounted(job, secs, need, ws, m)
    ensures At(job, secs, need, ws, k, p) && p + 4 <= |m| && Home(secs, need, ws[k]) == Some(sec)
    ensures DoFixup(job, sec, LoadWord(m, p)).Unaccounted?
  {
    hide DoFixup, LoadWord, PlaceIn;
    k, p :| At(job, secs, need, ws, k, p) && p + 4 <= |m| &&
      DoFixup(job, Home(secs, need, ws[k]).value, LoadWord(m, p)).Unaccounted?;
    sec := Home(secs, need, ws[k]).value;
  }

  /** A loop that has come to its end has accounted for every word that it met. */
  lemma FixedIsAccounted(job: Job, secs: seq<Section>, need: Need, ws: seq<Word>, m0: Memory, m: Memory)
    requires JobOk(job) && FixedUp(job, secs, need, ws, |ws|, m0, m)
    ensures !SomeUnaccounted(job, secs, need, ws, m0)
  {
    forall k, p | At(job, secs, need, ws, k, p)
      ensures !DoFixup(job, Home(secs, need, ws[k]).value, LoadWord(m0, p)).Unaccounted?
    {
      assert FixedAt(job, Home(secs, need, ws[k]).value, m0, m, p);
    }
  }

  // ----- the window -----

  /** The lowest and highest link address of the flagged sections. */
  method Window(secs: seq<Section>, need: Need) returns (lo: int, hi: int)
    ensures forall k :: 0 <= k < |secs| && HasFlag(secs[k], need) ==> lo <= secs[k].lma && secs[k].lma + secs[k].size <= hi
  {
    lo, hi := 0xffff_ffff, 0;
    var i := 0;
    while i < |secs|
      invariant i <= |secs|
      invariant forall k :: 0 <= k < i && HasFlag(secs[k], need) ==> lo <= secs[k].lma && secs[k].lma + secs[k].size <= hi
    {
      if HasFlag(secs[i], need) {
        lo := if secs[i].lma < lo then secs[i].lma else lo;
        hi := if hi < secs[i].lma + secs[i].size then secs[i].lma + secs[i].size else hi;
      }
      i := i + 1;
    }
  }

  // ----- the loop -----

  lemma StepFixup(job: Job, secs: seq<Section>, need: Need, ws: seq<Word>, k: nat, m0: Memory, m: Memory, p: nat, w: Word, tbl: nat, end: nat)
    requires JobOk(job) && FixupsApart(job, secs, need, ws, |m0|, tbl, end)
    requires FixedUp(job, secs, need, ws, k, m0, m) && At(job, secs, need, ws, k, p)
    requires var v := LoadWord(m0, p); var f := DoFixup(job, Home(secs, need, ws[k]).value, v);
             !f.Unaccounted? && w == Result(f, v)
    ensures FixedUp(job, secs, need, ws, k + 1, m0, StoreWord(m, p, w))
  {
    var m1 := StoreWord(m, p, w);
    LoadStored(m, p, w);
    StoreElsewhere(m, p, w);
    forall j, q | j < k + 1 && At(job, secs, need, ws, j, q)
      ensures FixedAt(job, Home(secs, need, ws[j]).value, m0, m1, q)
    {
      if j < k {
        assert FixedAt(job, Home(secs, need, ws[j]).value, m0, m, q);
        LoadSame(m, m1, q);
      }
    }
    forall x | 0 <= x < |m0| && (forall j, q :: j < k + 1 && At(job, secs, need, ws, j, q) ==> !(q <= x < q + 4))
      ensures m1[x] == m0[x]
    {
      assert !(p <= x < p + 4);
    }
  }

  lemma SkipFixup(job: Job, secs: seq<Section>, need: Need, ws: seq<Word>, k: nat, m0: Memory, m: Memory)
    requires JobOk(job) && FixedUp(job, secs, need, ws, k, m0, m) && k < |ws| && Home(secs, need, ws[k]).None?
    ensures FixedUp(job, secs, need, ws, k + 1, m0, m)
  {
    forall j, q | j < k + 1 && At(job, secs, need, ws, j, q)
      ensures FixedAt(job, Home(secs, need, ws[j]).value, m0, m, q)
    {
      assert j < k;
    }
    forall x | 0 <= x < |m0| && (forall j, q :: j < k + 1 && At(job, secs, need, ws, j, q) ==> !(q <= x < q + 4))
      ensures m[x] == m0[x]
    {
      forall j, q | j < k && At(job, secs, need, ws, j, q)
        ensures !(q <= x < q + 4)
      {
        assert j < k + 1;
      }
    }
  }

  /** What a fixup that has not been reached finds, and what the table holds, are
      still what they were. */
  lemma NotReached(job: Job, secs: seq<Section>, need: Need, ws: seq<Word>, k: nat, m0: Memory, m: Memory, a: nat, tbl: nat, end: nat)
    requires JobOk(job) && FixupsApart(job, secs, need, ws, |m0|, tbl, end) && FixedUp(job, secs, need, ws, k, m0, m)
    requires a + 4 <= |m0| && (At(job, secs, need, ws, k, a) || tbl <= a <= a + 4 <= end)
    ensures LoadWord(m, a) == LoadWord(m0, a)
  {
    forall x | a <= x < a + 4
      ensures m[x] == m0[x]
    {
      forall j, q | j < k && At(job, secs, need, ws, j, q)
        ensures !(q <= x < q + 4)
      {
      }
    }
    LoadSame(m, m0, a);
  }

  lemma FixupKnown(job: Job, secs: seq<Section>, need: Need, ws: seq<Word>, len: nat, tbl: nat, end: nat, k: nat, x: nat)
    requires FixupsApart(job, secs, need, ws, len, tbl, end) && k < |ws| && Home(secs, need, ws[k]) == Some(x)
    ensures var p := PlaceIn(job, secs[x], ws[k]); At(job, secs, need, ws, k, p) && p + 4 <= len
  {
    assert At(job, secs, need, ws, k, PlaceIn(job, secs[x], ws[k]));
  }

  lemma NothingFixed(job: Job, secs: seq<Section>, need: Need, ws: seq<Word>, m: Memory)
    requires JobOk(job)
    ensures FixedUp(job, secs, need, ws, 0, m, m)
  {
  }

  lemma FoundUnaccounted(job: Job, secs: seq<Section>, need: Need, ws: seq<Word>, m: Memory, k: nat, p: nat)
    requires JobOk(job) && At(job, secs, need, ws, k, p) && p + 4 <= |m|
    requires DoFixup(job, Home(secs, need, ws[k]).value, LoadWord(m, p)).Unaccounted?
    ensures SomeUnaccounted(job, secs, need, ws, m)
  {
  }

  /** Addresses outside the window are in no flagged section. */
  lemma OutsideWindow(secs: seq<Section>, need: Need, lo: int, hi: int, a: Word)
    requires forall k :: 0 <= k < |secs| && HasFlag(secs[k], need) ==> lo <= secs[k].lma && secs[k].lma + secs[k].size <= hi
    requires !(lo <= a < hi)
    ensures Home(secs, need, a).None?
  {
  }

  /** `uld_rofixup_do_flash_fixup` for the word `v` that it finds. */
  method DoFlashFixup(newBase: nat, flash: seq<Section>, mem: seq<Section>, v: Word) returns (f: Fixup)
    ensures f == FlashFixup(newBase, flash, mem, v)
  {
    if v == 0 {
      return Leave;
    }
    var k := FindInList(flash, ByAdjLma, AnySection, v);
    var target := if k.Some? then Some(flash[k.value]) else None;
    if target.None? {
      k := FindInList(mem, ByAdjLma, AnySection, v);
      target := if k.Some? then Some(mem[k.value]) else None;
    }
    if target.None? {
      k := FindInList(mem, ByLma, AnySection, v);
      if k.None? {
        return Unaccounted;
      }
      return Leave;
    }
    var s := target.value;
    var adjLma := if s.shType != 8 && s.alloc then newBase + s.offset else 0;
    return Patch(Wrap(v - s.adjVma + Wrap(adjLma)));
  }

  /** `uld_rofixup_do_mem_fixup` for a fixup in section `sec`. */
  method DoMemFixup(job: Job, sec: nat, v: Word) returns (f: Fixup)
    requires job.MemJob? && JobOk(job)
    ensures f == MemFixup(job, sec, v)
  {
    if v == 0 {
      return Leave;
    }
    var k := FindInList(job.mem, ByLma, AnySection, v);
    if k.None? {
      if |job.flash| > 0 {
        var j := FindInList(job.flash, ByAdjLma, AnySection, v);
        if j.None? {
          return Unaccounted;
        }
      }
      return Leave;
    }
    var target := job.mem[k.value];
    if job.got == Some(sec) && job.gotPlt.Some? && v == job.mem[job.gotPlt.value].lma {
      return Patch(job.membase);
    }
    return Patch(Wrap(v - target.lma + target.adjVma));
  }

  method CallBack(job: Job, sec: nat, v: Word) returns (f: Fixup)
    requires JobOk(job)
    ensures f == DoFixup(job, sec, v)
  {
    match job {
      case FlashJob(newBase, flash, mem) => f := DoFlashFixup(newBase, flash, mem, v);
      case MemJob(_, _, _, _, _) => f := DoMemFixup(job, sec, v);
    }
  }

  /** Where the callback makes the fixup at link address `a` of section `sec`. */
  method FixupAddr(job: Job, sec: Section, a: Word) returns (p: Word)
    ensures p == PlaceIn(job, sec, a)
  {
    match job {
      case FlashJob(newBase, _, _) =>
        return Wrap(a - sec.lma + if sec.shType != 8 && sec.alloc then Wrap(newBase + sec.offset) else 0);
      case MemJob(_, _, _, _, _) =>
        return Wrap(a - sec.lma + sec.adjVma);
    }
  }

  /** One turn of the loop that has found section `x` for the fixup at `a`. */
  method DoOne(mem: array<Byte>, secs: seq<Section>, need: Need, job: Job, x: nat, a: Word,
               ghost ws: seq<Word>, ghost k: nat, ghost m0: Memory, ghost tbl: nat, ghost end: nat)
    returns (ok: bool)
    requires JobOk(job) && FixupsApart(job, secs, need, ws, |m0|, tbl, end) && FixedUp(job, secs, need, ws, k, m0, mem[..])
    requires mem.Length == |m0| && k < |ws| && a == ws[k] && Home(secs, need, a) == Some(x)
    modifies mem
    ensures if ok then FixedUp(job, secs, need, ws, k + 1, m0, mem[..]) else SomeUnaccounted(job, secs, need, ws, m0)
  {
    hide JobOk, FixupsApart, FixedUp, SomeUnaccounted, At, DoFixup, LoadWord, StoreWord, PlaceIn;
    ghost var m := mem[..];
    var p := FixupAddr(job, secs[x], a);
    FixupKnown(job, secs, need, ws, |m0|, tbl, end, k, x);
    NotReached(job, secs, need, ws, k, m0, m, p, tbl, end);
    var v := GetWord(mem, p);
    var f := CallBack(job, x, v);
    if f.Unaccounted? {
      FoundUnaccounted(job, secs, need, ws, m0, k, p);
      return false;
    }
    StepFixup(job, secs, need, ws, k, m0, m, p, Result(f, v), tbl, end);
    StoreLoaded(m, p);
    if f.Patch? {
      PutWord(mem, p, f.value);
    }
    return true;
  }

  /** `uld_rofixup_apply_fixups` with the table at `tbl`, `size` bytes long. */
  method ApplyFixups(mem: array<Byte>, secs: seq<Section>, need: Need, job: Job, tbl: nat, size: nat) returns (done: bool)
    requires JobOk(job) && tbl + 4 * TableLen(size) <= mem.Length
    requires FixupsApart(job, secs, need, TableWords(mem[..], tbl, TableLen(size)), mem.Length, tbl, tbl + 4 * TableLen(size))
    modifies mem
    ensures var ws := TableWords(old(mem[..]), tbl, TableLen(size));
            if done then FixedUp(job, secs, need, ws, |ws|, old(mem[..]), mem[..])
            else SomeUnaccounted(job, secs, need, ws, old(mem[..]))
  {
    hide JobOk, FixupsApart, FixedUp, SomeUnaccounted, At, DoFixup, TableLen, LoadWord, StoreWord, HasFlag, Hit, PlaceIn, FindSection, TableWords;
    ghost var m0 := mem[..];
    ghost var n := TableLen(size);
    ghost var ws := TableWords(m0, tbl, n);
    ghost var end := tbl + 4 * n;
    var lo, hi := Window(secs, need);
    NothingFixed(job, secs, need, ws, m0);
    var fixupAddr: nat := tbl;
    ghost var k: nat := 0;
    LastWord(size, 0);
    while fixupAddr < tbl + size
      invariant k <= n && fixupAddr == tbl + 4 * k && FixedUp(job, secs, need, ws, k, m0, mem[..])
      decreases n - k
    {
      LastWord(size, k);
      ghost var m := mem[..];
      NotReached(job, secs, need, ws, k, m0, m, tbl + 4 * k, tbl, end);
      var a := GetWord(mem, fixupAddr);
      assert a == ws[k];
      var x := None;
      if lo <= a < hi {
        x := FindInList(secs, ByLma, need, a);
      } else {
        OutsideWindow(secs, need, lo, hi, a);
      }
      assert x == Home(secs, need, ws[k]);
      if x.None? {
        SkipFixup(job, secs, need, ws, k, m0, m);
      } else {
        var ok := DoOne(mem, secs, need, job, x.value, a, ws, k, m0, tbl, end);
        if !ok {
          return false;
        }
      }
      fixupAddr := fixupAddr + 4;
      k := k + 1;
    }
    LastWord(size, k);
    return true;
  }

  /** The loop runs as long as a word begins in the table. */
  lemma LastWord(size: nat, k: nat)
    ensures 4 * k < size <==> k < TableLen(size)
  {
  }
}
