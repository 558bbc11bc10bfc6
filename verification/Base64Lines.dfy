/** The lines in which an encoder with a line buffer puts out its characters. */
module Base64Lines {
  import opened Words
  import opened Base64Spec

  function Flat(lines: seq<seq<Byte>>): seq<Byte>
    decreases |lines|
  {
    if lines == [] then [] else Flat(lines[..|lines| - 1]) + lines[|lines| - 1]
  }

  lemma {:induction false} FlatConcat(a: seq<seq<Byte>>, b: seq<seq<Byte>>)
    ensures Flat(a + b) == Flat(a) + Flat(b)
    decreases |b|
  {
    if b == [] {
      assert a + b == a;
    } else {
      var n := |b| - 1;
      FlatConcat(a, b[..n]);
      assert (a + b)[..|a + b| - 1] == a + b[..n];
    }
  }

  /** The line buffer after the bytes `s`: a full line is replaced by the next. */
  function LineOf(s: seq<Byte>, w: nat): seq<Byte>
    decreases |s|
  {
    if s == [] then []
    else
      var n := |s| - 1;
      var line := LineOf(s[..n], w);
      (if |line| == w then [] else line) + StepChars(n % 3, Rem(s[..n]), s[n])
  }

  /** The full lines before the one in the buffer. */
  function Before(s: seq<Byte>, w: nat): seq<seq<Byte>>
    decreases |s|
  {
    if s == [] then []
    else
      var n := |s| - 1;
      Before(s[..n], w) + if |LineOf(s[..n], w)| == w then [LineOf(s[..n], w)] else []
  }

  /** A line length of whole groups of four, as `dest_len` makes it. */
  predicate LineLength(w: nat) {
    4 <= w <= 252 && w % 4 == 0
  }

  predicate AllFull(lines: seq<seq<Byte>>, w: nat) {
    forall k :: 0 <= k < |lines| ==> |lines[k]| == w
  }

  /** What one more byte does. */
  lemma {:induction false} OneByte(s: seq<Byte>, b: Byte, w: nat)
    ensures var chars := StepChars(|s| % 3, Rem(s), b);
            && Emitted(s + [b]) == Emitted(s) + chars
            && LineOf(s + [b], w) == (if |LineOf(s, w)| == w then [] else LineOf(s, w)) + chars
            && Before(s + [b], w) == Before(s, w) + if |LineOf(s, w)| == w then [LineOf(s, w)] else []
  {
    hide StepChars, Rem;
    assert (s + [b])[..|s|] == s;
  }

  /** Lines hold whole groups: the buffer never overflows, and it is as far into a
      group as the bytes are. */
  lemma {:induction false} LineFits(s: seq<Byte>, w: nat)
    requires LineLength(w)
    ensures |LineOf(s, w)| <= w && |LineOf(s, w)| % 4 == |s| % 3 && (s != [] ==> LineOf(s, w) != [])
    decreases |s|
  {
    hide StepChars, Rem;
    if s != [] {
      var n := |s| - 1;
      LineFits(s[..n], w);
      NextInGroup(|LineOf(s[..n], w)|, n, w);
    }
  }

  lemma NextInGroup(c: nat, n: nat, w: nat)
    requires LineLength(w) && c <= w && c % 4 == n % 3
    ensures var start, more := if c == w then 0 else c, if n % 3 == 2 then 2 else 1;
            start + more <= w && (start + more) % 4 == (n + 1) % 3
  {
  }

  lemma {:induction false} FlatNext(a: seq<seq<Byte>>, x: seq<Byte>)
    ensures Flat(a + [x]) == Flat(a) + x
  {
    assert (a + [x])[..|a|] == a;
  }

  /** Lines and buffer together are what has been put out. */
  lemma {:induction false} LinesAreEmitted(s: seq<Byte>, w: nat)
    ensures Flat(Before(s, w)) + LineOf(s, w) == Emitted(s) && AllFull(Before(s, w), w)
    decreases |s|
  {
    hide *;
    if s == [] {
      NothingEmitted(w);
    } else {
      var n := |s| - 1;
      assert s == s[..n] + [s[n]];
      LinesAreEmitted(s[..n], w);
      EmittedNext(s[..n], s[n], w);
    }
  }

  lemma NothingEmitted(w: nat)
    ensures Flat(Before([], w)) + LineOf([], w) == Emitted([]) && AllFull(Before([], w), w)
  {
  }

  lemma {:induction false} EmittedNext(s: seq<Byte>, b: Byte, w: nat)
    requires Flat(Before(s, w)) + LineOf(s, w) == Emitted(s) && AllFull(Before(s, w), w)
    ensures Flat(Before(s + [b], w)) + LineOf(s + [b], w) == Emitted(s + [b]) && AllFull(Before(s + [b], w), w)
  {
    hide StepChars, Rem, Before, LineOf, Emitted, Flat;
    OneByte(s, b, w);
    FlatNext(Before(s, w), LineOf(s, w));
    if |LineOf(s, w)| == w {
    } else {
      assert Before(s, w) + [] == Before(s, w);
      var chars := StepChars(|s| % 3, Rem(s), b);
      assert Flat(Before(s, w)) + (LineOf(s, w) + chars) == (Flat(Before(s, w)) + LineOf(s, w)) + chars;
    }
  }

  /** `lines` are `text` cut into lines of `w` characters, only the last of which may
      be shorter. */
  predicate IsLines(lines: seq<seq<Byte>>, text: seq<Byte>, w: nat) {
    && lines != [] && Flat(lines) == text && AllFull(lines[..|lines| - 1], w)
    && 0 < |lines[|lines| - 1]| <= w
  }

  /** The full lines and the finished last line are the encoding in lines. */
  lemma {:induction false} FinishedLines(s: seq<Byte>, w: nat)
    requires LineLength(w) && s != []
    ensures IsLines(Before(s, w) + [LineOf(s, w) + Tail(s)], Encode(s), w)
  {
    hide Emitted, Encode, Tail, LineOf, Before, Flat;
    var lines := Before(s, w) + [LineOf(s, w) + Tail(s)];
    LinesAreEmitted(s, w);
    EmittedIsEncode(s);
    TailFits(s, w);
    FlatNext(Before(s, w), LineOf(s, w) + Tail(s));
    assert lines[..|lines| - 1] == Before(s, w);
    assert Flat(Before(s, w)) + (LineOf(s, w) + Tail(s)) == (Flat(Before(s, w)) + LineOf(s, w)) + Tail(s);
  }

  lemma {:induction false} TailFits(s: seq<Byte>, w: nat)
    requires LineLength(w) && s != []
    ensures 0 < |LineOf(s, w)| && |LineOf(s, w) + Tail(s)| <= w
    ensures |LineOf(s, w)| == w ==> Tail(s) == []
  {
    hide CharOf, LineOf;
    LineFits(s, w);
  }

  // ----- several calls -----

  /** A call of the encoding driver takes the bytes from `s` on to `t`: it delivers the
      lines that fill up, but not a line that was full when it was called. */
  predicate CallDelivers(s: seq<Byte>, t: seq<Byte>, w: nat, out: seq<seq<Byte>>) {
    && s < t && Before(t, w) == Before(s, w) + (if |LineOf(s, w)| == w then [LineOf(s, w)] else []) + out
  }

  /** Calls that take the bytes from `stops[0]`, which is nothing, to the last stop. */
  predicate Calls(stops: seq<seq<Byte>>, w: nat, outs: seq<seq<seq<Byte>>>) {
    && |stops| == |outs| + 1 && stops[0] == []
    && forall i :: 0 <= i < |outs| ==> CallDelivers(stops[i], stops[i + 1], w, outs[i])
  }

  /** Everything that the calls deliver. */
  function AllOut(outs: seq<seq<seq<Byte>>>): seq<seq<Byte>>
    decreases |outs|
  {
    if outs == [] then [] else AllOut(outs[..|outs| - 1]) + outs[|outs| - 1]
  }

  /** A call after the first begins when the line buffer is full. */
  predicate StopsOnFullLine(stops: seq<seq<Byte>>, w: nat) {
    exists i :: 0 <= i < |stops| - 1 && |LineOf(stops[i], w)| == w
  }

  /** The lines that are delivered are all lines before the buffer, unless a call began
      on a full buffer, whose line is then lost. */
  lemma {:induction false} OutOfCalls(stops: seq<seq<Byte>>, w: nat, outs: seq<seq<seq<Byte>>>)
    requires Calls(stops, w, outs)
    ensures var b := Before(stops[|stops| - 1], w);
            && |AllOut(outs)| <= |b| && (|AllOut(outs)| == |b| <==> !StopsOnFullLine(stops, w))
            && (!StopsOnFullLine(stops, w) ==> AllOut(outs) == b)
    decreases |outs|
  {
    hide LineOf, StopsOnFullLine, CallDelivers;
    if outs == [] {
      NoStop(stops, w);
    } else {
      hide Before;
      var n := |outs| - 1;
      CallsBefore(stops, w, outs);
      OutOfCalls(stops[..n + 1], w, outs[..n]);
      OneMoreStop(stops, w, n);
      Delivered(stops[n], stops[n + 1], w, outs[n]);
      assert CallDelivers(stops[n], stops[n + 1], w, outs[n]);
    }
  }

  lemma NoStop(stops: seq<seq<Byte>>, w: nat)
    requires |stops| == 1
    ensures !StopsOnFullLine(stops, w)
  {
  }

  lemma {:induction false} Delivered(s: seq<Byte>, t: seq<Byte>, w: nat, out: seq<seq<Byte>>)
    requires CallDelivers(s, t, w, out)
    ensures |LineOf(s, w)| == w ==> |Before(t, w)| == |Before(s, w)| + 1 + |out|
    ensures |LineOf(s, w)| != w ==> Before(t, w) == Before(s, w) + out
  {
    hide LineOf, Before;
    assert Before(s, w) + [] == Before(s, w);
  }

  lemma {:induction false} OneMoreStop(stops: seq<seq<Byte>>, w: nat, n: nat)
    requires |stops| == n + 2
    ensures StopsOnFullLine(stops, w) <==> StopsOnFullLine(stops[..n + 1], w) || |LineOf(stops[n], w)| == w
  {
    hide LineOf;
    var fewer := stops[..n + 1];
    if StopsOnFullLine(fewer, w) {
      var i :| 0 <= i < |fewer| - 1 && |LineOf(fewer[i], w)| == w;
      assert |LineOf(stops[i], w)| == w;
    }
    if StopsOnFullLine(stops, w) && |LineOf(stops[n], w)| != w {
      var i :| 0 <= i < |stops| - 1 && |LineOf(stops[i], w)| == w;
      assert |LineOf(fewer[i], w)| == w;
    }
  }

  lemma {:induction false} CallsBefore(stops: seq<seq<Byte>>, w: nat, outs: seq<seq<seq<Byte>>>)
    requires Calls(stops, w, outs) && outs != []
    ensures Calls(stops[..|outs|], w, outs[..|outs| - 1])
  {
    hide CallDelivers;
    var n := |outs| - 1;
    forall i | 0 <= i < n
      ensures CallDelivers(stops[..n + 1][i], stops[..n + 1][i + 1], w, outs[..n][i])
    {
      assert CallDelivers(stops[i], stops[i + 1], w, outs[i]);
    }
  }

  /** Several calls and the final one deliver the encoding in lines, if and only if no
      call but the first begins when the line buffer is full. */
  lemma {:induction false} CallsExact(stops: seq<seq<Byte>>, w: nat, outs: seq<seq<seq<Byte>>>)
    requires LineLength(w) && Calls(stops, w, outs) && outs != []
    ensures var s := stops[|stops| - 1];
            IsLines(AllOut(outs) + [LineOf(s, w) + Tail(s)], Encode(s), w) <==> !StopsOnFullLine(stops, w)
  {
    hide Encode, Tail, LineOf, Before, StopsOnFullLine, Flat, AllOut, CallDelivers;
    var s := stops[|stops| - 1];
    OutOfCalls(stops, w, outs);
    LastStop(stops, w, outs);
    FinishedLines(s, w);
    var last := LineOf(s, w) + Tail(s);
    if IsLines(AllOut(outs) + [last], Encode(s), w) {
      assert (AllOut(outs) + [last])[..|AllOut(outs)|] == AllOut(outs);
      assert (Before(s, w) + [last])[..|Before(s, w)|] == Before(s, w);
      SameLength(AllOut(outs), Before(s, w), last, w);
    }
  }

  lemma {:induction false} LastStop(stops: seq<seq<Byte>>, w: nat, outs: seq<seq<seq<Byte>>>)
    requires Calls(stops, w, outs) && outs != []
    ensures stops[|stops| - 1] != []
  {
    assert CallDelivers(stops[|outs| - 1], stops[|outs| - 1 + 1], w, outs[|outs| - 1]);
  }

  lemma {:induction false} FlatLength(lines: seq<seq<Byte>>, more: nat, w: nat)
    requires AllFull(lines, w) && more <= |lines| && 0 < w
    ensures |Flat(lines)| >= |Flat(lines[..more])| && (|Flat(lines)| == |Flat(lines[..more])| ==> more == |lines|)
    decreases |lines|
  {
    if more == |lines| {
      assert lines[..more] == lines;
    } else {
      var n := |lines| - 1;
      FlatLength(lines[..n], more, w);
      assert lines[..n][..more] == lines[..more];
    }
  }

  lemma {:induction false} FullLengths(a: seq<seq<Byte>>, b: seq<seq<Byte>>, w: nat)
    requires AllFull(a, w) && AllFull(b, w) && |a| == |b|
    ensures |Flat(a)| == |Flat(b)|
    decreases |a|
  {
    if a != [] {
      FullLengths(a[..|a| - 1], b[..|b| - 1], w);
    }
  }

  /** Full lines before the same last line that make the same text are as many. */
  lemma {:induction false} SameLength(a: seq<seq<Byte>>, b: seq<seq<Byte>>, last: seq<Byte>, w: nat)
    requires AllFull(a, w) && AllFull(b, w) && |a| <= |b| && 0 < w
    requires |Flat(a + [last])| == |Flat(b + [last])|
    ensures |a| == |b|
  {
    FlatConcat(a, [last]);
    FlatConcat(b, [last]);
    FullLengths(a, b[..|a|], w);
    FlatLength(b, |a|, w);
  }
}
