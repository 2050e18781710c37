/** send.c: one copy of each packet to every sink, in the sink's format, except back where it came from. */
module Sending {
  import opened Bytes
  import opened Packets
  import opened Lists
  import opened Sinks
  import opened Proto
  import opened Decoder
  import opened Translation
  import Receiving

  /** The serializer table. What json, proto and stats write is a library's business and a parameter here. */
  datatype SendFmt = AIRSPY_ADSB | BEAST_BINARY | JSON | PROTOBUF | RAW_TEXT | STATS

  function Serialized(f: SendFmt, p: Packet, others: SendFmt -> seq<byte>): seq<byte> {
    match f
    case AIRSPY_ADSB => Frame(AIRSPY, p)
    case BEAST_BINARY => Frame(BEAST, p)
    case RAW_TEXT => Frame(RAW, p)
    case _ => others(f)
  }

  /** What one frame does to a sink on `file`; `source` is where the packet came from. */
  function Served(s: Pipe, file: (nat, nat), source: (nat, nat), bytes: seq<byte>): Pipe {
    if bytes == [] || file == source then s else Write(s, bytes)
  }

  class Send {
    const file: (nat, nat)
    var pipe: Pipe

    constructor (file: (nat, nat), pipe: Pipe)
      ensures this.file == file && this.pipe == pipe
    {
      this.file, this.pipe := file, pipe;
    }
  }

  class Serializer {
    const fmt: SendFmt
    const head: ListHead<Send?>
    ghost var ring: seq<ListHead<Send?>>
    ghost var sinks: seq<Send>

    ghost predicate Valid()
      reads this, ring
    {
      && Circle(ring) && ring[0] == head && |ring| == |sinks| + 1
      && (forall i :: 0 <= i < |sinks| ==> ring[i + 1].owner == sinks[i])
      && (forall i, j :: 0 <= i < j < |sinks| ==> sinks[i] != sinks[j])
    }

    constructor (fmt: SendFmt)
      ensures Valid() && this.fmt == fmt && sinks == [] && fresh(ring)
    {
      this.fmt := fmt;
      head := new ListHead(null);
      sinks := [];
      new;
      ring := [head];
      HeadInit(head);
    }

    /** send_new: the sink joins the end of its format's list. */
    method New(send: Send, entry: ListHead<Send?>)
      requires Valid() && send !in sinks && entry.owner == send && entry !in ring
      modifies this, ring, entry
      ensures Valid() && sinks == old(sinks) + [send] && ring == old(ring) + [entry]
    {
      Add(entry, head, ring);
      ring := ring + [entry];
      sinks := sinks + [send];
    }

    /** send_del: that sink, and no other, leaves the list. */
    method Del(entry: ListHead<Send?>, ghost k: nat)
      requires Valid() && k < |sinks| && ring[k + 1] == entry
      modifies this, ring
      ensures Valid() && sinks == Without(old(sinks), k)
    {
      Lists.Del(entry, ring, k + 1);
      ring := Without(ring, k + 1);
      sinks := Without(sinks, k);
      forall i | 0 <= i < |sinks| ensures ring[i + 1].owner == sinks[i] {
        assert ring[i + 1] == if i < k then old(ring)[i + 1] else old(ring)[i + 2];
      }
    }

    /** The inner loop of send_write: the frame goes to every sink but those on the device and inode it came from. */
    method WriteAll(source: (nat, nat), bytes: seq<byte>)
      requires Valid() && bytes != []
      modifies sinks`pipe
      ensures Valid()
      ensures forall i :: 0 <= i < |sinks| && (sinks[i].file.0 != source.0 || sinks[i].file.1 != source.1) ==>
                            sinks[i].pipe == Write(old(sinks[i].pipe), bytes)
      ensures forall i :: 0 <= i < |sinks| && sinks[i].file.0 == source.0 && sinks[i].file.1 == source.1 ==>
                            sinks[i].pipe == old(sinks[i].pipe)
    {
      ghost var i := 0;
      var iter := head.next;
      while iter != head
        invariant 0 <= i <= |sinks|
        invariant iter == if i < |sinks| then ring[i + 1] else head
        invariant forall k :: 0 <= k < i ==>
                                sinks[k].pipe == if sinks[k].file == source then old(sinks[k].pipe)
                                                 else Write(old(sinks[k].pipe), bytes)
        invariant forall k :: i <= k < |sinks| ==> sinks[k].pipe == old(sinks[k].pipe)
        decreases |sinks| - i
      {
        var send := iter.owner;
        assert send == sinks[i];
        var next := iter.next;
        if send.file.0 != source.0 || send.file.1 != source.1 {
          var n := Taken(send.pipe, |bytes|);
          send.pipe := Put(send.pipe, bytes);
          if n != |bytes| { send.pipe := Shutdown(send.pipe); }
        }
        iter := next;
        i := i + 1;
      }
    }
  }

  ghost predicate Apart(lists: seq<seq<Send>>) {
    forall a, b, i, j :: 0 <= a < b < |lists| && 0 <= i < |lists[a]| && 0 <= j < |lists[b]| ==>
      lists[a][i] != lists[b][j]
  }

  lemma ApartFrom(lists: seq<seq<Send>>, a: nat, b: nat)
    requires Apart(lists) && a < |lists| && b < |lists| && a != b
    ensures forall i :: 0 <= i < |lists[b]| ==> lists[b][i] !in lists[a]
  {}

  /** One list of the table. */
  method WriteFormat(s: Serializer, p: Packet, source: (nat, nat), others: SendFmt -> seq<byte>)
    requires s.Valid()
    modifies s.sinks`pipe
    ensures s.Valid()
    ensures forall i :: 0 <= i < |s.sinks| ==>
              s.sinks[i].pipe == Served(old(s.sinks[i].pipe), s.sinks[i].file, source, Serialized(s.fmt, p, others))
  {
    var empty := IsEmpty(s.head, s.ring);
    if empty { return; }
    var bytes := Serialized(s.fmt, p, others);
    if bytes == [] { return; }
    s.WriteAll(source, bytes);
  }

  /** send_write over the table whose lists are `lists`, each sink in one of them. Its precondition on the
      packet is packet_sanity_check. */
  method SendWrite(table: seq<Serializer>, p: Packet, source: (nat, nat), others: SendFmt -> seq<byte>,
                   ghost lists: seq<seq<Send>>)
    requires |lists| == |table| && Apart(lists) && Sane(p)
    requires forall a :: 0 <= a < |table| ==> table[a].Valid() && table[a].sinks == lists[a]
    modifies (set a, i | 0 <= a < |lists| && 0 <= i < |lists[a]| :: lists[a][i])`pipe
    ensures forall a :: 0 <= a < |table| ==> table[a].Valid() && table[a].sinks == lists[a]
    ensures forall a, i :: 0 <= a < |lists| && 0 <= i < |lists[a]| ==>
              var sink, bytes := lists[a][i], Serialized(table[a].fmt, p, others);
              sink.pipe == if bytes != [] && (sink.file.0 != source.0 || sink.file.1 != source.1)
                           then Write(old(sink.pipe), bytes) else old(sink.pipe)
  {
    hide Serialized, Write, Circle, Apart, Serializer.Valid;
    for a := 0 to |table|
      invariant forall b :: 0 <= b < |table| ==> table[b].Valid() && table[b].sinks == lists[b]
      invariant forall b, i :: 0 <= b < |lists| && 0 <= i < |lists[b]| ==>
                  lists[b][i].pipe ==
                  if b < a
                  then Served(old(lists[b][i].pipe), lists[b][i].file, source, Serialized(table[b].fmt, p, others))
                  else old(lists[b][i].pipe)
    {
      // the other lists' sinks are out of its reach
      forall b, i | 0 <= b < |lists| && b != a && 0 <= i < |lists[b]| ensures lists[b][i] !in lists[a] {
        ApartFrom(lists, a, b);
      }
      WriteFormat(table[a], p, source, others);
    }
  }

  // ---------------------------------------------------------------- a run of packets

  /** The frames of a format for packets `ps`, less those that are empty. */
  function Sent(f: SendFmt, ps: seq<Packet>, others: (Packet, SendFmt) -> seq<byte>): seq<seq<byte>>
    decreases |ps|
  {
    if ps == [] then []
    else
      var bytes := Serialized(f, ps[0], g => others(ps[0], g));
      (if bytes == [] then [] else [bytes]) + Sent(f, ps[1..], others)
  }

  lemma SentTurn(s: Pipe, f: SendFmt, ps: seq<Packet>, others: (Packet, SendFmt) -> seq<byte>)
    requires ps != []
    ensures var bytes := Serialized(f, ps[0], g => others(ps[0], g));
            WriteRun(s, Sent(f, ps, others)) ==
            WriteRun(if bytes == [] then s else Write(s, bytes), Sent(f, ps[1..], others))
  {
    hide Serialized, Write;
    var bytes, rest := Serialized(f, ps[0], g => others(ps[0], g)), Sent(f, ps[1..], others);
    assert bytes != [] ==> ([bytes] + rest)[1..] == rest;
    assert [] + rest == rest;
  }

  /** What is left to write brings a sink where all the packets would have brought it. */
  ghost predicate StillDue(now: Pipe, first: Pipe, skipped: bool, f: SendFmt, rest: seq<Packet>, ps: seq<Packet>,
                           others: (Packet, SendFmt) -> seq<byte>)
  {
    if skipped then now == first else WriteRun(now, Sent(f, rest, others)) == WriteRun(first, Sent(f, ps, others))
  }

  /** All packets of a connection on file `source`: every sink on another file is written the frames of its own
      format, in order, and a sink on the same file is left alone. */
  method SendAll(table: seq<Serializer>, ps: seq<Packet>, source: (nat, nat), others: (Packet, SendFmt) -> seq<byte>,
                 ghost lists: seq<seq<Send>>)
    requires |lists| == |table| && Apart(lists) && forall i :: 0 <= i < |ps| ==> Sane(ps[i])
    requires forall a :: 0 <= a < |table| ==> table[a].Valid() && table[a].sinks == lists[a]
    modifies (set a, i | 0 <= a < |lists| && 0 <= i < |lists[a]| :: lists[a][i])`pipe
    ensures forall a :: 0 <= a < |table| ==> table[a].Valid() && table[a].sinks == lists[a]
    ensures forall a, i :: 0 <= a < |lists| && 0 <= i < |lists[a]| ==>
              var sink := lists[a][i];
              sink.pipe == if sink.file.0 != source.0 || sink.file.1 != source.1
                           then WriteRun(old(sink.pipe), Sent(table[a].fmt, ps, others)) else old(sink.pipe)
  {
    hide Serialized, Write, WriteRun, Sent, Circle, Apart, Serializer.Valid;
    for k := 0 to |ps|
      invariant forall a :: 0 <= a < |table| ==> table[a].Valid() && table[a].sinks == lists[a]
      invariant forall a, i :: 0 <= a < |lists| && 0 <= i < |lists[a]| ==>
                  StillDue(lists[a][i].pipe, old(lists[a][i].pipe), lists[a][i].file == source, table[a].fmt, ps[k..],
                           ps, others)
    {
      assert ps[k..][0] == ps[k] && ps[k..][1..] == ps[k + 1..];
      label Before:
      SendWrite(table, ps[k], source, g => others(ps[k], g), lists);
      forall a, i | 0 <= a < |lists| && 0 <= i < |lists[a]|
        ensures StillDue(lists[a][i].pipe, old(lists[a][i].pipe), lists[a][i].file == source, table[a].fmt, ps[k + 1..],
                         ps, others)
      {
        SentTurn(old@Before(lists[a][i].pipe), table[a].fmt, ps[k..], others);
      }
    }
    assert ps[|ps|..] == [];
    forall a, i | 0 <= a < |lists| && 0 <= i < |lists[a]|
      ensures WriteRun(lists[a][i].pipe, Sent(table[a].fmt, [], others)) == lists[a][i].pipe
    {
      NothingSent(lists[a][i].pipe, table[a].fmt, others);
    }
  }

  lemma NothingSent(s: Pipe, f: SendFmt, others: (Packet, SendFmt) -> seq<byte>)
    ensures WriteRun(s, Sent(f, [], others)) == s
  {}

  // ---------------------------------------------------------------- from hub to hub

  function Messages(f: Fmt, ps: seq<Packet>): (ms: seq<seq<byte>>)
    requires f != Fmt.PROTO
    ensures Flatten(ms) == Frames(f, ps)
    decreases |ps|
  {
    if ps == [] then [] else [Frame(f, ps[0])] + Messages(f, ps[1..])
  }

  lemma {:induction false} MeaningOfPrefix(a: seq<Packet>, b: seq<Packet>)
    ensures Meaning(a) <= Meaning(a + b)
  {}

  /** A stream cut short decodes to a prefix. */
  lemma CutShort(env: Env, s: seq<byte>, n: nat)
    requires n <= |s|
    ensures Meaning(Decode(env, START, s[..n]).out) <= Meaning(Decode(env, START, s).out)
  {
    hide Decode, Meaning;
    DecodeAppend(env, START, s[..n], s[n..]);
    assert s[..n] + s[n..] == s;
    var r := Decode(env, START, s[..n]);
    MeaningOfPrefix(r.out, Decode(env, r.conn, r.rest + s[n..]).out);
  }

  /** What a second hub makes of what a sink of format `f`, opened for these packets, shows of `msgs`: the same types
      and payloads in order, all of them and the format detected if every frame was taken whole, and else a prefix. */
  ghost predicate Arrives(there: Env, f: Fmt, first: Pipe, msgs: seq<seq<byte>>, shown: seq<byte>, ps: seq<Packet>) {
    var r := Decode(there, START, shown);
    && Meaning(r.out) <= Meaning(ps)
    && ((forall i :: 0 <= i < |msgs| ==> !Short(first, Lengths(msgs), i)) ==>
          Meaning(r.out) == Meaning(ps) && r.rest == [] && (ps != [] ==> r.conn.mode == Use(f)))
  }

  /** From one hub's input to another's output, if the sink is a socket or stays quiet after a short write. */
  lemma EndToEnd(here: Env, there: Env, stream: seq<byte>, f: Fmt, socket: bool, answers: nat -> nat)
    requires f != Fmt.PROTO && ValidId(here.id) && there.maxHops >= 1
    ensures var ps := Decode(here, START, stream).out;
            var sink, msgs := Open(socket, answers), Messages(f, ps);
            socket || Quiet(sink, Lengths(msgs)) ==> Arrives(there, f, sink, msgs, WriteRun(sink, msgs).out, ps)
  {
    hide Decode, Messages, WriteRun, Meaning, Frames, Sendable, Quiet, Short, Reach, Lengths;
    var ps := Decode(here, START, stream).out;
    var sink, msgs := Open(socket, answers), Messages(f, ps);
    TranslationPreservesMeaning(here, there, stream, f);
    if socket || Quiet(sink, Lengths(msgs)) {
      SinkGetsPrefix(sink, msgs);
      var all, n := Flatten(msgs), Reach(sink, msgs);
      CutShort(there, all, n);
      assert WriteRun(sink, msgs).out == all[..n];
      assert n == |all| ==> all[..n] == all;
    }
  }

  /** The formats a second hub can read here. */
  lemma {:induction false} SentAsMessages(f: SendFmt, ps: seq<Packet>, others: (Packet, SendFmt) -> seq<byte>)
    requires Sendable(ps)
    ensures f == AIRSPY_ADSB ==> Sent(f, ps, others) == Messages(AIRSPY, ps)
    ensures f == BEAST_BINARY ==> Sent(f, ps, others) == Messages(BEAST, ps)
    ensures f == RAW_TEXT ==> Sent(f, ps, others) == Messages(RAW, ps)
    decreases |ps|
  {
    if ps != [] && (f == AIRSPY_ADSB || f == BEAST_BINARY || f == RAW_TEXT) {
      var g := if f == AIRSPY_ADSB then AIRSPY else if f == BEAST_BINARY then BEAST else RAW;
      hide Frame;
      FrameBound(g, ps[0]);
      SentAsMessages(f, ps[1..], others);
    }
  }

  /** A hub from its input to the hubs behind its sinks: the stream of a connection on file `source` is received in
      whatever pieces it comes, every packet goes to every sink, and a sink on another file that was just opened, a
      socket or quiet after a short write, brings a hub `there` what was received. */
  method Relay(here: Env, stream: seq<byte>, cuts: seq<nat>, table: seq<Serializer>, source: (nat, nat),
               others: (Packet, SendFmt) -> seq<byte>, ghost lists: seq<seq<Send>>, ghost there: Env)
      returns (ps: seq<Packet>, read: nat, open: bool)
    requires ValidId(here.id) && there.maxHops >= 1 && |lists| == |table| && Apart(lists)
    requires forall a :: 0 <= a < |table| ==> table[a].Valid() && table[a].sinks == lists[a]
    modifies (set a, i | 0 <= a < |lists| && 0 <= i < |lists[a]| :: lists[a][i])`pipe
    ensures read <= |stream| && ps == Decode(here, START, stream[..read]).out
    ensures (forall i :: 0 <= i < |cuts| ==> cuts[i] > 0) && !open ==> ps == Decode(here, START, stream).out
    ensures forall a, i, f ::
              && 0 <= a < |lists| && 0 <= i < |lists[a]|
              && (table[a].fmt, f) in {(AIRSPY_ADSB, AIRSPY), (BEAST_BINARY, BEAST), (RAW_TEXT, RAW)}
              && (lists[a][i].file.0 != source.0 || lists[a][i].file.1 != source.1) ==>
              var sink, msgs := lists[a][i], Messages(f, ps);
              var first := old(sink.pipe);
              (first == Open(first.socket, first.answers) && (first.socket || Quiet(first, Lengths(msgs)))) ==>
                Arrives(there, f, first, msgs, sink.pipe.out, ps)
  {
    hide Decode, ValidId, Apart, Serializer.Valid, Sendable, Arrives, Messages, Sent, WriteRun, Quiet;
    ps, read, open := Receiving.Drain(here, stream, cuts);
    DecodedAreSendable(here, stream[..read]);
    SendAll(table, ps, source, others, lists);
    forall a, i, f | 0 <= a < |lists| && 0 <= i < |lists[a]| &&
        (table[a].fmt, f) in {(AIRSPY_ADSB, AIRSPY), (BEAST_BINARY, BEAST), (RAW_TEXT, RAW)}
      ensures var first := old(lists[a][i].pipe);
              first == Open(first.socket, first.answers) && (first.socket || Quiet(first, Lengths(Messages(f, ps)))) ==>
                Sent(table[a].fmt, ps, others) == Messages(f, ps) &&
                Arrives(there, f, first, Messages(f, ps), WriteRun(first, Messages(f, ps)).out, ps)
    {
      SentAsMessages(table[a].fmt, ps, others);
      EndToEnd(here, there, stream[..read], f, old(lists[a][i].pipe).socket, old(lists[a][i].pipe).answers);
    }
  }

  lemma DecodedAreSendable(here: Env, stream: seq<byte>)
    requires ValidId(here.id)
    ensures var ps := Decode(here, START, stream).out; Sendable(ps) && forall i :: 0 <= i < |ps| ==> Sane(ps[i])
  {
    hide Decode, ValidId;
    DecodedAreDeliverable(here, START, stream);
    var ps := Decode(here, START, stream).out;
    assert forall i :: 0 <= i < |ps| ==> Deliverable(here, ps[i]);
  }

  /** A disk that is full for one frame and has room for the next. */
  function FullOnce(k: nat): nat { if k == 0 then 0 else 49 }

  /** What goes wrong without that condition: a file on such a disk holds only the second of two frames, and
      a hub that reads it delivers a packet that was not the first. */
  lemma FileSkipsPacket(env: Env, f: Fmt, p: Packet, q: Packet)
    requires f != Fmt.PROTO && Sendable([p, q]) && env.maxHops >= 1
    ensures var out := WriteRun(Open(false, FullOnce), Messages(f, [p, q])).out;
            out == Frame(f, q) && Meaning(Decode(env, START, out).out) == Meaning([q])
    ensures Meaning([q]) <= Meaning([p, q]) <==> (p.typ, p.payload) == (q.typ, q.payload)
  {
    hide Frame, Meaning, Decode, Sendable, WellFormed, Messages, WriteRun;
    TwoSendable(p, q);
    FrameBound(f, p);
    FrameBound(f, q);
    TwoMessages(f, p, q);
    FullOnceSkips(Frame(f, p), Frame(f, q));
    OneFrame(env, f, q);
    MeaningOfTwo(p, q);
  }

  lemma TwoMessages(f: Fmt, p: Packet, q: Packet)
    requires f != Fmt.PROTO
    ensures Messages(f, [p, q]) == [Frame(f, p), Frame(f, q)]
  {
    hide Frame;
    assert [p, q][1..] == [q] && [q][1..] == [];
    assert Messages(f, [q]) == [Frame(f, q)] + Messages(f, []);
  }

  lemma OneFrame(env: Env, f: Fmt, q: Packet)
    requires f != Fmt.PROTO && Sendable([q]) && env.maxHops >= 1
    ensures Meaning(Decode(env, START, Frame(f, q)).out) == Meaning([q])
  {
    hide Frame, Meaning, Decode, Sendable, Relayed;
    FramesDecode(env, f, [q], START);
    RelayedOneForOne(env, f, CLEARED, [q]);
    assert [q][1..] == [] && Frames(f, [q]) == Frame(f, q) + [] == Frame(f, q);
  }

  lemma FullOnceSkips(m: seq<byte>, n: seq<byte>)
    requires 0 < |m| <= 49 && |n| <= 49
    ensures WriteRun(Open(false, FullOnce), [m, n]).out == n
  {
    var s := Write(Open(false, FullOnce), m);
    assert s.out == [] && s.writes == 1;
    assert [m, n][1..] == [n] && [n][1..] == [];
    assert WriteRun(s, [n]) == WriteRun(Write(s, n), []);
    assert Write(s, n).out == n;
  }

  lemma TwoSendable(p: Packet, q: Packet)
    requires Sendable([p, q])
    ensures Sendable([q]) && WellFormed(p) && WellFormed(q) && p.typ != NONE && q.typ != NONE
  {
    assert [p, q][0] == p && [p, q][1] == q;
  }

  lemma MeaningOfTwo(p: Packet, q: Packet)
    ensures Meaning([q]) <= Meaning([p, q]) <==> (p.typ, p.payload) == (q.typ, q.payload)
  {
    var a, b := Meaning([q]), Meaning([p, q]);
    assert a == [(q.typ, q.payload)] && b == [(p.typ, p.payload), (q.typ, q.payload)];
    assert a <= b <==> a[0] == b[0];
  }
}
