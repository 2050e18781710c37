/** The far side of a write in send.c: what a descriptor takes of the frames offered to it, over a whole run. */
module Sinks {
  import opened Bytes

  /** What lies behind a descriptor: whether it is a socket, how many bytes the kernel is willing to take at
      each write, how many writes there have been, the bytes taken, and whether our side was shut down. Any
      function will do for `answers`: a disk that was full may have room again. */
  datatype Pipe = Pipe(socket: bool, answers: nat -> nat, writes: nat, out: seq<byte>, shut: bool)

  function Open(socket: bool, answers: nat -> nat): Pipe { Pipe(socket, answers, 0, [], false) }

  /** How much of a frame of `len` bytes write() takes. A socket shut for writing takes nothing. */
  function Taken(s: Pipe, len: nat): nat { if s.shut then 0 else Min(s.answers(s.writes), len) }

  /** write(). */
  function Put(s: Pipe, bytes: seq<byte>): Pipe {
    s.(out := s.out + bytes[..Taken(s, |bytes|)], writes := s.writes + 1)
  }

  /** shutdown() for writing, its result ignored: what is no socket stays as it was. */
  function Shutdown(s: Pipe): Pipe { if s.socket then s.(shut := true) else s }

  /** One frame: write it, and shut the sink down if it was not taken whole. */
  function Write(s: Pipe, bytes: seq<byte>): Pipe {
    if Taken(s, |bytes|) == |bytes| then Put(s, bytes) else Shutdown(Put(s, bytes))
  }

  function WriteRun(s: Pipe, msgs: seq<seq<byte>>): Pipe
    decreases |msgs|
  {
    if msgs == [] then s else WriteRun(Write(s, msgs[0]), msgs[1..])
  }

  /** What was taken is a prefix of what was written, without a gap. */
  ghost predicate Gapless(s: Pipe, msgs: seq<seq<byte>>) {
    WriteRun(s, msgs).out <= s.out + Flatten(msgs)
  }

  function Lengths(msgs: seq<seq<byte>>): (lens: seq<nat>)
    ensures |lens| == |msgs|
  {
    seq(|msgs|, i requires 0 <= i < |msgs| => |msgs[i]|)
  }

  /** The write of the frame at index `i`, of those still to come, is cut short. */
  predicate Short(s: Pipe, lens: seq<nat>, i: nat)
    requires i < |lens|
  {
    s.answers(s.writes + i) < lens[i]
  }

  predicate TakesSome(s: Pipe, lens: seq<nat>, j: nat)
    requires j < |lens|
  {
    s.answers(s.writes + j) > 0 && lens[j] > 0
  }

  /** After a write that is cut short nothing more is taken. */
  ghost predicate Quiet(s: Pipe, lens: seq<nat>) {
    forall i, j :: 0 <= i < j < |lens| && Short(s, lens, i) ==> !TakesSome(s, lens, j)
  }

  /** Bytes taken up to and including the first write that is cut short. */
  function Reach(s: Pipe, msgs: seq<seq<byte>>): (n: nat)
    requires !s.shut
    ensures n <= |Flatten(msgs)|
    decreases |msgs|
  {
    if msgs == [] then 0
    else if Taken(s, |msgs[0]|) < |msgs[0]| then Taken(s, |msgs[0]|)
    else |msgs[0]| + Reach(Write(s, msgs[0]), msgs[1..])
  }

  lemma {:induction false} NothingMore(s: Pipe, msgs: seq<seq<byte>>)
    requires s.shut || forall j :: 0 <= j < |msgs| ==> !TakesSome(s, Lengths(msgs), j)
    ensures WriteRun(s, msgs).out == s.out && (s.shut ==> WriteRun(s, msgs).shut)
    decreases |msgs|
  {
    if msgs != [] {
      var s' := Write(s, msgs[0]);
      assert !s.shut ==> !TakesSome(s, Lengths(msgs), 0);
      assert s'.out == s.out;
      forall j | 0 <= j < |msgs| - 1 ensures s.shut || !TakesSome(s', Lengths(msgs[1..]), j) {
        assert s.shut || !TakesSome(s, Lengths(msgs), j + 1);
      }
      NothingMore(s', msgs[1..]);
    }
  }

  lemma QuietRest(s: Pipe, msgs: seq<seq<byte>>)
    requires msgs != [] && Quiet(s, Lengths(msgs))
    ensures Quiet(Write(s, msgs[0]), Lengths(msgs[1..]))
    ensures Short(s, Lengths(msgs), 0) ==>
              forall j :: 0 <= j < |msgs| - 1 ==> !TakesSome(Write(s, msgs[0]), Lengths(msgs[1..]), j)
  {
    var s', a, b := Write(s, msgs[0]), Lengths(msgs), Lengths(msgs[1..]);
    forall i | 0 <= i < |b|
      ensures Short(s', b, i) == Short(s, a, i + 1) && TakesSome(s', b, i) == TakesSome(s, a, i + 1)
    {}
  }

  /** What a write cut short leaves. */
  lemma PrefixWhenShort(s: Pipe, msgs: seq<seq<byte>>)
    requires !s.shut && msgs != [] && (s.socket || Quiet(s, Lengths(msgs))) && Short(s, Lengths(msgs), 0)
    ensures WriteRun(s, msgs).out == s.out + Flatten(msgs)[..Reach(s, msgs)] && Reach(s, msgs) < |Flatten(msgs)|
    ensures s.socket ==> WriteRun(s, msgs).shut
  {
    var m, n := msgs[0], Taken(s, |msgs[0]|);
    if !s.socket { QuietRest(s, msgs); }
    NothingMore(Write(s, m), msgs[1..]);
    assert (m + Flatten(msgs[1..]))[..n] == m[..n];
  }

  /** The first write whole, the rest like the run that follows it. */
  lemma PrefixWhenWhole(s: Pipe, msgs: seq<seq<byte>>, n: nat)
    requires !s.shut && msgs != [] && !Short(s, Lengths(msgs), 0)
    requires var s' := Write(s, msgs[0]);
             n == Reach(s', msgs[1..]) && WriteRun(s', msgs[1..]).out == s'.out + Flatten(msgs[1..])[..n]
    ensures WriteRun(s, msgs).out == s.out + Flatten(msgs)[..Reach(s, msgs)] && Reach(s, msgs) == |msgs[0]| + n
  {
    var m, rest := msgs[0], Flatten(msgs[1..]);
    assert m[..|m|] == m;
    assert (m + rest)[..|m| + n] == m + rest[..n];
    assert s.out + (m + rest[..n]) == (s.out + m) + rest[..n];
  }

  lemma ShortRest(s: Pipe, msgs: seq<seq<byte>>)
    requires msgs != [] && !Short(s, Lengths(msgs), 0)
    ensures var s', rest := Write(s, msgs[0]), Lengths(msgs[1..]);
            (forall i :: 0 <= i < |msgs| ==> !Short(s, Lengths(msgs), i)) <==>
            forall i :: 0 <= i < |rest| ==> !Short(s', rest, i)
  {
    var s', lens, rest := Write(s, msgs[0]), Lengths(msgs), Lengths(msgs[1..]);
    forall i | 0 <= i < |rest| ensures Short(s', rest, i) == Short(s, lens, i + 1) {}
    if i :| 0 <= i < |msgs| && Short(s, lens, i) { assert Short(s', rest, i - 1); }
  }

  /** A socket, or a sink that stays quiet, receives a prefix of its stream, never a frame after a gap, and
      all of it unless a write is cut short; a socket is shut exactly in that case. */
  lemma {:induction false} SinkGetsPrefix(s: Pipe, msgs: seq<seq<byte>>)
    requires !s.shut && (s.socket || Quiet(s, Lengths(msgs)))
    ensures WriteRun(s, msgs).out == s.out + Flatten(msgs)[..Reach(s, msgs)]
    ensures Reach(s, msgs) == |Flatten(msgs)| <==> forall i :: 0 <= i < |msgs| ==> !Short(s, Lengths(msgs), i)
    ensures s.socket ==> (WriteRun(s, msgs).shut <==> Reach(s, msgs) < |Flatten(msgs)|)
    decreases |msgs|
  {
    if msgs == [] {
      assert s.out + [] == s.out;
    } else if Short(s, Lengths(msgs), 0) {
      PrefixWhenShort(s, msgs);
    } else {
      if !s.socket { QuietRest(s, msgs); }
      var s' := Write(s, msgs[0]);
      SinkGetsPrefix(s', msgs[1..]);
      hide Quiet, Short, Reach, Lengths;
      PrefixWhenWhole(s, msgs, Reach(s', msgs[1..]));
      ShortRest(s, msgs);
    }
  }

  // ---------------------------------------------------------------- exactly when

  lemma {:induction false} RunAppend(s: Pipe, a: seq<seq<byte>>, b: seq<seq<byte>>)
    ensures WriteRun(s, a + b) == WriteRun(WriteRun(s, a), b)
    ensures Flatten(a + b) == Flatten(a) + Flatten(b)
    decreases |a|
  {
    if a == [] {
      assert a + b == b;
    } else {
      assert (a + b)[1..] == a[1..] + b;
      RunAppend(Write(s, a[0]), a[1..], b);
      assert a[0] + (Flatten(a[1..]) + Flatten(b)) == (a[0] + Flatten(a[1..])) + Flatten(b);
    }
  }

  /** What a sink that is no socket takes of frames made of one byte value: that value, and fewer bytes than
      it was offered if a write is cut short. */
  lemma {:induction false} RunOfFile(s: Pipe, msgs: seq<seq<byte>>, c: byte)
    requires !s.socket && !s.shut && forall i :: 0 <= i < |msgs| ==> Only(msgs[i], c)
    ensures var r := WriteRun(s, msgs);
            && !r.socket && !r.shut && r.answers == s.answers && r.writes == s.writes + |msgs|
            && s.out <= r.out && Only(r.out[|s.out|..], c) && Only(Flatten(msgs), c)
            && |r.out| <= |s.out| + |Flatten(msgs)|
            && ((exists i :: 0 <= i < |msgs| && Short(s, Lengths(msgs), i)) ==> |r.out| < |s.out| + |Flatten(msgs)|)
    decreases |msgs|
  {
    if msgs != [] {
      var s' := Write(s, msgs[0]);
      RunOfFile(s', msgs[1..], c);
      forall i | 0 <= i < |msgs| - 1 ensures Short(s', Lengths(msgs[1..]), i) == Short(s, Lengths(msgs), i + 1) {}
      if i :| 0 <= i < |msgs| && Short(s, Lengths(msgs), i) {
        if i > 0 { assert Short(s', Lengths(msgs[1..]), i - 1); }
      }
      var r := WriteRun(s, msgs);
      assert s.out <= s'.out <= r.out;
      assert r.out[|s.out|..] == s'.out[|s.out|..] + r.out[|s'.out|..];
    }
  }

  ghost predicate Only(s: seq<byte>, c: byte) { forall i :: 0 <= i < |s| ==> s[i] == c }

  function Fill(c: byte, n: nat): (s: seq<byte>)
    ensures |s| == n && Only(s, c)
  {
    seq(n, i => c)
  }

  function FillAll(c: byte, lens: seq<nat>): (msgs: seq<seq<byte>>)
    ensures Lengths(msgs) == lens && forall i :: 0 <= i < |msgs| ==> Only(msgs[i], c)
  {
    var msgs := seq(|lens|, i requires 0 <= i < |lens| => Fill(c, lens[i]));
    assert Lengths(msgs) == lens;
    msgs
  }

  /** Zeros up to frame `j`, ones from there on: a gap before frame `j` shows. */
  lemma GapShows(s: Pipe, lens: seq<nat>, i: nat, j: nat) returns (msgs: seq<seq<byte>>)
    requires !s.shut && !s.socket && i < j < |lens| && Short(s, lens, i) && TakesSome(s, lens, j)
    ensures Lengths(msgs) == lens && !Gapless(s, msgs)
  {
    var a, b := FillAll(0, lens[..j]), FillAll(1, lens[j..]);
    msgs := a + b;
    assert Lengths(msgs) == lens by { assert lens == lens[..j] + lens[j..]; }
    RunAppend(s, a, b);
    RunOfFile(s, a, 0);
    assert Short(s, Lengths(a), i);
    var mid := WriteRun(s, a);
    RunOfFile(mid, b, 1);
    FirstTaken(mid, b);
    var at := |mid.out|;
    assert WriteRun(s, msgs).out[at] == 1;
    assert (s.out + Flatten(msgs))[at] == Flatten(a)[at - |s.out|];
  }

  lemma FirstTaken(s: Pipe, msgs: seq<seq<byte>>)
    requires !s.socket && !s.shut && msgs != [] && TakesSome(s, Lengths(msgs), 0)
    requires forall i :: 0 <= i < |msgs| ==> Only(msgs[i], 1)
    ensures |WriteRun(s, msgs).out| > |s.out| && WriteRun(s, msgs).out[|s.out|] == 1
  {
    var s' := Write(s, msgs[0]);
    RunOfFile(s', msgs[1..], 1);
    RunOfFile(s, msgs, 1);
    assert |s'.out| > |s.out|;
    var r := WriteRun(s, msgs).out;
    assert r[|s.out|..][0] == 1;
  }

  /** Exactly when a sink can be trusted: it never shows a frame after a gap, whatever the frames contain, if
      and only if it is a socket or takes nothing more after a write that is cut short. */
  lemma GaplessIff(s: Pipe, lens: seq<nat>)
    requires !s.shut
    ensures (forall msgs | Lengths(msgs) == lens :: Gapless(s, msgs)) <==> s.socket || Quiet(s, lens)
  {
    if s.socket || Quiet(s, lens) {
      forall msgs | Lengths(msgs) == lens ensures Gapless(s, msgs) { SinkGetsPrefix(s, msgs); }
    } else {
      var i, j :| 0 <= i < j < |lens| && Short(s, lens, i) && TakesSome(s, lens, j);
      var msgs := GapShows(s, lens, i, j);
    }
  }
}
