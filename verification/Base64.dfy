/** The streaming base64 encoder and its write callback drivers (src/base64.c). */
module Base64 {
  import opened Words
  import opened Options
  import opened Base64Spec
  import opened Base64Lines

  /** The line that the next byte is added to. */
  function Line(s: seq<Byte>, w: nat): seq<Byte> {
    if |LineOf(s, w)| == w then [] else LineOf(s, w)
  }

  function FullLine(s: seq<Byte>, w: nat): seq<seq<Byte>> {
    if |LineOf(s, w)| == w then [LineOf(s, w)] else []
  }

  lemma {:induction false} StartLine(s: seq<Byte>, w: nat)
    requires LineLength(w)
    ensures |Line(s, w)| < w && |Line(s, w)| % 4 == |s| % 3
    ensures |LineOf(s, w)| != w ==> Line(s, w) == LineOf(s, w) && FullLine(s, w) == []
  {
    hide LineOf;
    LineFits(s, w);
  }

  lemma {:induction false} NextLine(s: seq<Byte>, b: Byte, w: nat)
    requires LineLength(w)
    ensures LineOf(s + [b], w) == Line(s, w) + StepChars(|s| % 3, Rem(s), b) && |LineOf(s + [b], w)| <= w
    ensures Before(s + [b], w) == Before(s, w) + FullLine(s, w)
    ensures |LineOf(s + [b], w)| != w ==> Line(s + [b], w) == LineOf(s + [b], w) && FullLine(s + [b], w) == []
  {
    hide LineOf, Before, StepChars, Rem;
    OneByte(s, b, w);
    LineFits(s + [b], w);
  }

  /** `struct base64_state`: bit fields of 8, 8, 4, 2, 1 and 1 bits. */
  class State {
    var destLen: int
    var destPos: int
    var brem: int
    var bremLen: int
    var init: bool
    var final: bool

    /** `BASE64_STATE_INIT(len)`. */
    constructor (len: nat)
      requires len < 0x100
      ensures destLen == len && !init && !final
    {
      destLen := len;
      destPos, brem, bremLen, init, final := 0, 0, 0, false, false;
    }

    /** Nothing has been encoded yet, and lines will have `w` characters. */
    ghost predicate Fresh(dest: array<Byte>, w: nat)
      reads this
    {
      !init && !final && 5 <= destLen < 0x100 && w == (destLen - 1) / 4 * 4 && w < dest.Length
    }

    /** The bytes `s` have been encoded. */
    ghost predicate Started(dest: array<Byte>, s: seq<Byte>, w: nat)
      reads this, dest
    {
      && init && !final && LineLength(w) && destLen == w + 1 && w < dest.Length && s != []
      && InBuffer(dest, LineOf(s, w)) && bremLen == |s| % 3 && brem == Rem(s)
      && destPos == if |LineOf(s, w)| == w then w + 1 else |LineOf(s, w)|
    }

    ghost predicate InBuffer(dest: array<Byte>, line: seq<Byte>)
      reads dest
    {
      |line| <= dest.Length && dest[..|line|] == line
    }

    ghost predicate Ready(dest: array<Byte>, s: seq<Byte>, w: nat)
      reads this, dest
    {
      if s == [] then Fresh(dest, w) else Started(dest, s, w)
    }

    /** The end has been encoded: the last line is in the buffer. */
    ghost predicate Finished(dest: array<Byte>, s: seq<Byte>, w: nat)
      reads this, dest
    {
      var last := LineOf(s, w) + Tail(s);
      && final && destLen == w + 1 && w < dest.Length && |last| <= w && InBuffer(dest, last)
      && destPos == if |LineOf(s, w)| == w then 0 else |last| + 1
    }

    /** One turn of the loop for the byte `b`: one or two characters. */
    method EncodeByte(dest: array<Byte>, at: int, b: Byte, rem: int, len: int, ghost s: seq<Byte>, ghost w: nat, ghost line: seq<Byte>)
      returns (at1: int, rem1: int, len1: int)
      requires LineLength(w) && w < dest.Length && len == |s| % 3 && rem == Rem(s)
      requires at == |line| && InBuffer(dest, line) && |line| + |StepChars(len, rem, b)| <= w
      modifies dest
      ensures InBuffer(dest, line + StepChars(len, rem, b)) && at1 == |line + StepChars(len, rem, b)|
      ensures len1 == (|s| + 1) % 3 && rem1 == Rem(s + [b])
    {
      hide CharOf, LineOf;
      var v: int := b;
      if len == 0 {
        dest[at] := CharAt(v / 4);
        return at + 1, v % 4, 1;
      } else if len == 1 {
        dest[at] := CharAt(rem * 16 + v / 16);
        return at + 1, v % 16, 2;
      } else {
        dest[at] := CharAt(rem * 4 + v / 64);
        dest[at + 1] := CharAt(v % 64);
        return at + 2, 0, 0;
      }
    }

    /** The loop of `base64_encode` over `n` bytes from `pos` on.  It ends when they are
        used up or the line is full; a full line is terminated by a NUL. */
    method EncodeLoop(dest: array<Byte>, src: seq<Byte>, pos: nat, n: nat, ghost s: seq<Byte>, ghost w: nat)
      returns (left: nat, destRem: int, rem: int, len: int, pos1: nat)
      requires LineLength(w) && w < dest.Length && 0 < n && pos + n <= |src|
      requires destLen == w + 1 && destPos == |Line(s, w)| && InBuffer(dest, Line(s, w)) && bremLen == |s| % 3 && brem == Rem(s)
      modifies dest
      ensures pos < pos1 <= pos + n && left == pos + n - pos1 && (left > 0 ==> destRem == 0)
      ensures var t := s + src[pos..pos1];
              && InBuffer(dest, LineOf(t, w)) && len == |t| % 3 && rem == Rem(t)
              && w + 1 - destRem == (if |LineOf(t, w)| == w then w + 1 else |LineOf(t, w)|)
              && (left > 0 ==> |LineOf(t, w)| == w)
              && Before(t, w) == Before(s, w) + FullLine(s, w)
    {
      hide LineOf, Before, Rem, StepChars, Line, FullLine;
      var at := destPos;
      left, destRem, rem, len, pos1 := n, destLen - destPos, brem, bremLen, pos;
      ghost var t := s;
      StartLine(s, w);
      assert src[pos..pos] == [];
      while left > 0 && destRem > 0
        invariant pos <= pos1 <= pos + n && left == pos + n - pos1
        invariant t == s + src[pos..pos1] && (pos1 == pos ==> t == s && destRem > 0)
        invariant len == |t| % 3 && rem == Rem(t)
        invariant destRem > 0 ==> at == |Line(t, w)| && destRem == w + 1 - at && InBuffer(dest, Line(t, w)) && at < w
        invariant pos1 > pos ==> Before(t, w) == Before(s, w) + FullLine(s, w)
        invariant pos1 > pos && destRem > 0 ==> Line(t, w) == LineOf(t, w) && FullLine(t, w) == []
        invariant destRem <= 0 ==> destRem == 0 && |LineOf(t, w)| == w && InBuffer(dest, LineOf(t, w))
      {
        ghost var before := t;
        NextLine(t, src[pos1], w);
        at, rem, len := EncodeByte(dest, at, src[pos1], rem, len, t, w, Line(t, w));
        assert src[pos..pos1 + 1] == src[pos..pos1] + [src[pos1]];
        t := t + [src[pos1]];
        pos1 := pos1 + 1;
        left := left - 1;
        destRem := destLen - at;
        if destRem == 1 {
          dest[at] := 0;
          destRem := 0;
        }
      }
      StartLine(t, w);
    }

    /** The end of `base64_encode`: the rest of the bits, padding and a NUL, unless the
        line in the buffer is full or empty. */
    method EncodeEnd(dest: array<Byte>, ghost s: seq<Byte>, ghost w: nat)
      requires LineLength(w) && w < dest.Length && destLen == w + 1 && destPos == |Line(s, w)|
      requires InBuffer(dest, LineOf(s, w)) && bremLen == |s| % 3 && brem == Rem(s)
      modifies this, dest
      ensures final && destLen == w + 1 && |LineOf(s, w) + Tail(s)| <= w
      ensures s != [] ==> Finished(dest, s, w)
      ensures s == [] ==> destPos == 0
    {
      hide LineOf, CharOf;
      StartLine(s, w);
      LineFits(s, w);
      NothingYet(w);
      final := true;
      if destPos == 0 {
        EmptyLine(s, w);
        return;
      }
      TailFits(s, w);
      ghost var line := LineOf(s, w);
      var at := destPos;
      if bremLen == 0 {
        destPos := destPos + 1;
      } else if bremLen == 1 {
        dest[at] := CharAt(brem * 16);
        dest[at + 1] := '=' as int;
        dest[at + 2] := '=' as int;
        at := at + 3;
        destPos := destPos + 4;
      } else {
        dest[at] := CharAt(brem * 4);
        dest[at + 1] := '=' as int;
        at := at + 2;
        destPos := destPos + 3;
      }
      dest[at] := 0;
      assert dest[..|line|] == line;
      assert dest[..at] == line + Tail(s);
    }

    /** `base64_encode` on `n` bytes of `src` from `pos` on; `n` is 0 for the end.
        Returned are what is left of `n`, or -1, and the place in `src`. */
    method Encode(dest: array<Byte>, src: Option<seq<Byte>>, pos: nat, n: int, ghost s: seq<Byte>, ghost w: nat)
      returns (ret: int, pos1: nat)
      requires n > 0 && src.Some? ==> pos + n <= |src.value|
      requires final || (!init && 0 <= destLen < 5) || Ready(dest, s, w)
      modifies this, dest
      ensures old(final) || n < 0 || (!old(init) && old(destLen) < 5) || (n > 0 && src.None?) ==> ret == -1 && pos1 == pos
      ensures old(Ready(dest, s, w)) && n == 0 ==>
                ret == 0 && final && destLen == w + 1 && if s != [] then Finished(dest, s, w) else destPos == 0
      ensures old(Ready(dest, s, w)) && n > 0 && src.Some? ==>
                && pos < pos1 <= pos + n && ret == pos + n - pos1
                && var t := s + src.value[pos..pos1];
                   && Started(dest, t, w) && (ret > 0 ==> |LineOf(t, w)| == w)
                   && Before(t, w) == Before(s, w) + FullLine(s, w)
    {
      hide LineOf, Before, Rem, Tail, FullLine, StepChars;
      pos1 := pos;
      if final || n < 0 {
        return -1, pos;
      }
      if !init {
        if destLen < 5 {
          return -1, pos;
        }
        destLen := (destLen - 1) / 4 * 4 + 1;
        destPos, brem, bremLen, init, final := 0, 0, 0, true, false;
        NothingYet(w);
      }
      LineFits(s, w);
      if destPos == destLen {
        destPos := 0;
      }
      if n == 0 {
        EncodeEnd(dest, s, w);
        return 0, pos;
      }
      if src.None? {
        return -1, pos;
      }
      var left, destRem, rem, len;
      left, destRem, rem, len, pos1 := EncodeLoop(dest, src.value, pos, n, s, w);
      destPos := destLen - destRem;
      brem := rem;
      bremLen := len;
      return left, pos1;
    }

    /** `base64_encode_cb_write` for a callback that succeeds: `out` are the buffers that
        it is given.  A line that is full when the call ends is not among them. */
    method EncodeCbWrite(dest: array<Byte>, src: seq<Byte>, n: nat, ghost s: seq<Byte>, ghost w: nat)
      returns (ret: int, out: seq<seq<Byte>>)
      requires n <= |src| && Ready(dest, s, w)
      modifies this, dest
      ensures ret == 0 && Ready(dest, s + src[..n], w)
      ensures n == 0 ==> out == []
      ensures n > 0 ==> CallDelivers(s, s + src[..n], w, out)
    {
      hide LineOf, Before, Rem, Tail, StepChars, FullLine, Fresh;
      var left: int, p: nat := n, 0;
      out := [];
      ghost var t := s;
      assert s + src[..0] == s;
      while left > 0
        invariant 0 <= left == n - p && t == s + src[..p] && Ready(dest, t, w)
        invariant p == 0 ==> out == [] && t == s
        invariant p > 0 ==> left > 0 && |LineOf(t, w)| == w && Before(t, w) + [LineOf(t, w)] == Before(s, w) + FullLine(s, w) + out
      {
        ghost var before := t;
        var p1;
        left, p1 := Encode(dest, Some(src), p, left, t, w);
        assert src[..p1] == src[..p] + src[p..p1];
        t := s + src[..p1];
        assert t == before + src[p..p1];
        FullIs(before, w);
        FullIs(s, w);
        assert Before(t, w) == Before(s, w) + FullLine(s, w) + out;
        p := p1;
        if left <= 0 {
          assert src[..p] == src[..n];
          return left, out;
        }
        assert dest[..destLen - 1] == LineOf(t, w);
        out := out + [dest[..destLen - 1]];
      }
      assert src[..n] == src[..0];
      return left, out;
    }

    /** `base64_final_cb_write` for a callback that succeeds: `out` is the buffer that it
        is given.  When nothing has been encoded it is given a whole line of whatever the
        buffer holds. */
    method FinalCbWrite(dest: array<Byte>, ghost s: seq<Byte>, ghost w: nat) returns (ret: int, out: seq<Byte>)
      requires Ready(dest, s, w)
      modifies this, dest
      ensures ret == 0 && if s != [] then out == LineOf(s, w) + Tail(s) else |out| == w
    {
      hide LineOf, Before, Rem, Tail, StepChars, Fresh;
      WidthOf(dest, s, w);
      if s != [] {
        TailFits(s, w);
      }
      var pos;
      ret, pos := Encode(dest, None, 0, 0, s, w);
      var len := if destPos != 0 then destPos else destLen;
      out := dest[..len - 1];
    }

    lemma WidthOf(dest: array<Byte>, s: seq<Byte>, w: nat)
      requires Ready(dest, s, w)
      ensures LineLength(w) && w < dest.Length
    {
    }
  }

  lemma {:induction false} FullIs(s: seq<Byte>, w: nat)
    ensures FullLine(s, w) == if |LineOf(s, w)| == w then [LineOf(s, w)] else []
  {
  }

  /** One call of the encoding driver and the final one, on a new state with a buffer
      of `len` bytes: the encoding, in lines of `4 * ((len - 1) / 4)` characters. */
  method WriteAll(dest: array<Byte>, len: nat, src: seq<Byte>) returns (lines: seq<seq<Byte>>)
    requires 5 <= len < 0x100 && len <= dest.Length && src != []
    modifies dest
    ensures IsLines(lines, Encode(src), (len - 1) / 4 * 4)
  {
    hide LineOf, Before, Rem, Tail, StepChars, IsLines, Base64Spec.Encode;
    ghost var w: nat := (len - 1) / 4 * 4;
    var state := new State(len);
    var ret, out := state.EncodeCbWrite(dest, src, |src|, [], w);
    assert [] + src[..|src|] == src;
    state.WidthOf(dest, src, w);
    var last;
    ret, last := state.FinalCbWrite(dest, src, w);
    NothingYet(w);
    FinishedLines(src, w);
    assert out == Before(src, w);
    return out + [last];
  }

  lemma {:induction false} EmptyLine(s: seq<Byte>, w: nat)
    requires LineLength(w) && |Line(s, w)| == 0
    ensures s != [] ==> |LineOf(s, w)| == w && Tail(s) == []
    ensures s == [] ==> Tail(s) == []
    ensures |LineOf(s, w) + Tail(s)| <= w
  {
    LineFits(s, w);
    if s != [] {
      TailFits(s, w);
    }
    hide LineOf, CharOf;
  }

  lemma NothingYet(w: nat)
    ensures LineOf([], w) == [] && Before([], w) == [] && Rem([]) == 0
  {
  }
}
