/** What a receiver makes of a proto stream: sessions of a header and packets, each in a record of its own.
    A file that is appended to holds several, one for every time it was opened. */
module ProtoStream {
  import opened Bytes
  import opened Packets
  import opened Mlat
  import opened Buffer
  import opened Proto
  import opened Decoder
  import Translation

  /** The packet in a message that holds one, by the order in which the kinds are looked for. */
  function Kind(m: Adsb): Option<(PacketType, Message)> {
    if m.header.Some? then None
    else if m.modeAc.Some? then Some((MODE_AC, m.modeAc.value))
    else if m.modeSShort.Some? then Some((MODE_S_SHORT, m.modeSShort.value))
    else if m.modeSLong.Some? then Some((MODE_S_LONG, m.modeSLong.value))
    else None
  }

  /** The record fits the receiver's window. */
  predicate Fits(body: seq<byte>) { |Record(body)| <= 256 }

  /** A header this server may be sent: the magic, usable scales, another server's identifier. */
  predicate GoodHeader(env: Env, body: seq<byte>) {
    match env.unpack(body)
    case None => false
    case Some(m) => m.header.Some? && Acceptable(env, m.header.value)
  }

  predicate Acceptable(env: Env, h: Header) {
    && h.magic == [0x61, 0x44, 0x73, 0x42]
    && 1 <= h.mhz <= 65535 && h.tsMax > 0 && h.rssiMax > 0
    && h.serverId != env.serverId
  }

  /** A packet with a payload of its type's length and a printable source. */
  predicate GoodPacket(env: Env, body: seq<byte>) {
    match env.unpack(body)
    case None => false
    case Some(m) =>
      Kind(m).Some? && |Kind(m).value.1.payload| == Len(Kind(m).value.0) && ValidId(Kind(m).value.1.source + [0])
  }

  predicate GoodPackets(env: Env, bodies: seq<seq<byte>>) {
    forall i :: 0 <= i < |bodies| ==> Fits(bodies[i]) && GoodPacket(env, bodies[i])
  }

  function MessageOf(env: Env, body: seq<byte>): (PacketType, Message)
    requires GoodPacket(env, body)
  {
    Kind(env.unpack(body).value).value
  }

  // ---------------------------------------------------------------- what a session says

  /** The scales a header announces. */
  datatype Scales = Scales(mhz: uint16, tsMax: uint64, rssiMax: uint32)

  predicate Usable(k: Scales) { k.mhz > 0 && k.tsMax > 0 && k.rssiMax > 0 }

  function ScalesOf(env: Env, header: seq<byte>): (k: Scales)
    requires GoodHeader(env, header)
    ensures Usable(k)
  {
    var h := env.unpack(header).value.header.value;
    Scales(h.mhz, h.tsMax, h.rssiMax)
  }

  /** The stamps of the packets that have one. */
  function Stamps(env: Env, bodies: seq<seq<byte>>): seq<uint64>
    requires GoodPackets(env, bodies)
  {
    if bodies == [] then []
    else
      var m := MessageOf(env, bodies[0]).1;
      (if m.mlat.Some? then [m.mlat.value] else []) + Stamps(env, bodies[1..])
  }

  function Time(k: Scales, c: Clock, m: Message): uint64
    requires Usable(k)
  {
    if m.mlat.Some? then ScaleIn(c, m.mlat.value, k.tsMax, k.mhz) else 0
  }

  function Level(k: Scales, m: Message): uint32
    requires Usable(k)
  {
    if m.rssi.Some? then RssiIn(m.rssi.value, k.rssiMax) else 0
  }

  function ClockAfterMessage(k: Scales, c: Clock, m: Message): Clock {
    if m.mlat.Some? then Advance(c, m.mlat.value, k.tsMax) else c
  }

  /** A packet as it is read, given its time. */
  function AsRead(env: Env, k: Scales, body: seq<byte>, time: uint64): Packet
    requires GoodPacket(env, body) && Usable(k)
  {
    var (t, m) := MessageOf(env, body);
    Packet(t, m.hops % TWO16, m.payload, time, Level(k, m), m.source + [0])
  }

  /** All packets of a session, in order. */
  function AllRead(env: Env, k: Scales, c: Clock, bodies: seq<seq<byte>>): (ps: seq<Packet>)
    requires GoodPackets(env, bodies) && Usable(k)
    ensures |ps| == |bodies|
    decreases |bodies|
  {
    if bodies == [] then []
    else
      var m := MessageOf(env, bodies[0]).1;
      [AsRead(env, k, bodies[0], Time(k, c, m))] + AllRead(env, k, ClockAfterMessage(k, c, m), bodies[1..])
  }

  lemma StampsCons(env: Env, bodies: seq<seq<byte>>, i: nat)
    requires GoodPackets(env, bodies) && i < |bodies|
    ensures var m := MessageOf(env, bodies[0]).1;
            Stamps(env, bodies[..i + 1]) ==
            (if m.mlat.Some? then [m.mlat.value] else []) + Stamps(env, bodies[1..][..i])
  {
    assert bodies[..i + 1][1..] == bodies[1..][..i];
  }

  lemma {:induction false} StampAt(env: Env, bodies: seq<seq<byte>>, i: nat)
    requires GoodPackets(env, bodies) && i < |bodies| && MessageOf(env, bodies[i]).1.mlat.Some?
    ensures var j := |Stamps(env, bodies[..i])|;
            j < |Stamps(env, bodies)| && Stamps(env, bodies)[j] == MessageOf(env, bodies[i]).1.mlat.value
    decreases i
  {
    if i > 0 {
      StampAt(env, bodies[1..], i - 1);
      StampsCons(env, bodies, i - 1);
    }
  }

  /** The reading of packet `i`'s stamp among all stamps of the session; a packet without a stamp has no time. */
  function TimeAt(env: Env, k: Scales, c: Clock, bodies: seq<seq<byte>>, i: nat): uint64
    requires GoodPackets(env, bodies) && Usable(k) && i < |bodies|
  {
    if MessageOf(env, bodies[i]).1.mlat.Some? then
      StampAt(env, bodies, i);
      Reading(c, Stamps(env, bodies), k.tsMax, k.mhz, |Stamps(env, bodies[..i])|)
    else 0
  }

  lemma FirstTime(env: Env, k: Scales, c: Clock, bodies: seq<seq<byte>>)
    requires GoodPackets(env, bodies) && Usable(k) && bodies != []
    ensures TimeAt(env, k, c, bodies, 0) == Time(k, c, MessageOf(env, bodies[0]).1)
  {
    hide ScaleIn;
    assert Stamps(env, bodies[..0]) == [];
  }

  lemma LaterTime(env: Env, k: Scales, c: Clock, bodies: seq<seq<byte>>, i: nat)
    requires GoodPackets(env, bodies) && Usable(k) && 0 < i < |bodies|
    ensures TimeAt(env, k, c, bodies, i) ==
            TimeAt(env, k, ClockAfterMessage(k, c, MessageOf(env, bodies[0]).1), bodies[1..], i - 1)
  {
    hide Reading, Advance, GoodPacket, MessageOf;
    var m, ws, vs := MessageOf(env, bodies[0]).1, Stamps(env, bodies), Stamps(env, bodies[1..]);
    StampsCons(env, bodies, i - 1);
    if MessageOf(env, bodies[i]).1.mlat.Some? {
      StampAt(env, bodies[1..], i - 1);
      var j := |Stamps(env, bodies[1..][..i - 1])|;
      if m.mlat.Some? {
        assert ws == [m.mlat.value] + vs;
        hide Stamps;
        assert ws[0] == m.mlat.value && ws[1..] == vs;
        Translation.ReadingShifts(c, ws, k.tsMax, k.mhz, j + 1);
      } else {
        assert ws == [] + vs == vs;
      }
    }
  }

  /** The times of a session are the readings of its stamps, one counter run at the scales of its header, and
      the levels are scaled by it. */
  lemma {:induction false} ReadAt(env: Env, k: Scales, c: Clock, bodies: seq<seq<byte>>, i: nat)
    requires GoodPackets(env, bodies) && Usable(k) && i < |bodies|
    ensures AllRead(env, k, c, bodies)[i] == AsRead(env, k, bodies[i], TimeAt(env, k, c, bodies, i))
    decreases i
  {
    hide TimeAt, AsRead, Time, ClockAfterMessage, MessageOf, GoodPacket;
    if i == 0 {
      FirstTime(env, k, c, bodies);
    } else {
      LaterTime(env, k, c, bodies, i);
      ReadAt(env, k, ClockAfterMessage(k, c, MessageOf(env, bodies[0]).1), bodies[1..], i - 1);
    }
  }

  /** What the hop limit lets through. */
  function Forwarded(env: Env, ps: seq<Packet>): seq<Packet> {
    if ps == [] then [] else Forward(env, ps[0]) + Forwarded(env, ps[1..])
  }

  /** The clock at the end of a session. */
  function ClockAtEnd(env: Env, k: Scales, c: Clock, bodies: seq<seq<byte>>): Clock
    requires GoodPackets(env, bodies)
    decreases |bodies|
  {
    if bodies == [] then c
    else ClockAtEnd(env, k, ClockAfterMessage(k, c, MessageOf(env, bodies[0]).1), bodies[1..])
  }

  /** It is the clock after all its stamps. */
  lemma {:induction false} ClockAtEndIs(env: Env, k: Scales, c: Clock, bodies: seq<seq<byte>>)
    requires GoodPackets(env, bodies)
    ensures ClockAtEnd(env, k, c, bodies) ==
            ClockAfter(c, Stamps(env, bodies), k.tsMax, |Stamps(env, bodies)|)
    decreases |bodies|
  {
    if bodies != [] {
      hide Advance;
      var m, ws := MessageOf(env, bodies[0]).1, Stamps(env, bodies);
      ClockAtEndIs(env, k, ClockAfterMessage(k, c, m), bodies[1..]);
      if m.mlat.Some? {
        assert ws[1..] == Stamps(env, bodies[1..]);
        Translation.ClockAfterShifts(c, ws, k.tsMax, |ws| - 1);
      } else {
        assert ws == Stamps(env, bodies[1..]);
      }
    }
  }

  // ---------------------------------------------------------------- one record

  lemma RecordAttempt(env: Env, base: Packet, body: seq<byte>, st: PState)
    requires Ready(st) && Fits(body) && env.unpack(body).Some?
    ensures Unwrap(env, Record(body)) == Some((env.unpack(body).value, |Record(body)|))
    ensures Parse(env, base, Record(body), st).Hit? ==> Parse(env, base, Record(body), st).used == |Record(body)|
  {
    assert |body| <= |Record(body)|;
    RecordRoundTrip(body, []);
    assert Record(body) + [] == Record(body);
  }

  /** A record is read for what it is, whatever follows it. */
  lemma RecordTaken(env: Env, c: Conn, body: seq<byte>, rest: seq<byte>)
    requires Ready(c.state) && Fits(body) && (c.mode == Detect || c.mode == Use(PROTO))
    requires env.unpack(body).Some? && Parse(env, Blank(env.id), Record(body), c.state).Hit?
    ensures var a := Parse(env, Blank(env.id), Record(body), c.state);
            Take(env, c, Clip(Record(body) + rest)) == Some((a.packet, |Record(body)|, Conn(Use(PROTO), a.state)))
  {
    hide Parse, Record, Airspy.Parse, Beast.Parse, Raw.Parse;
    var s := Clip(Record(body) + rest);
    var y := s[|Record(body)|..];
    assert s == Record(body) + y;
    RecordAttempt(env, Blank(env.id), body, c.state);
    Proto.HitExtends(env, Blank(env.id), Record(body), y, c.state);
    assert Hits(env, PROTO, s, c.state);
    forall g | Hits(env, g, s, c.state) ensures g == PROTO {
      Unambiguous(env, PROTO, g, s, c.state, c.state);
    }
  }

  /** The record at the head of a stream is delivered, and the rest decoded from the state it leaves. */
  lemma OneRecord(env: Env, c: Conn, body: seq<byte>, rest: seq<byte>)
    requires Ready(c.state) && Fits(body) && (c.mode == Detect || c.mode == Use(PROTO))
    requires env.unpack(body).Some? && Parse(env, Blank(env.id), Record(body), c.state).Hit?
    ensures var a := Parse(env, Blank(env.id), Record(body), c.state);
            Decode(env, c, Record(body) + rest) ==
            Before(Forward(env, a.packet), Decode(env, Conn(Use(PROTO), a.state), rest))
  {
    hide Decode, Take, Parse, Record, Clip, Forward, Before, Fits;
    RecordTaken(env, c, body, rest);
    DecodeTaken(env, c, Record(body) + rest);
    assert (Record(body) + rest)[|Record(body)|..] == rest;
  }

  /** The state of a connection whose last header announced `k`. */
  predicate Announced(st: PState, k: Scales) {
    st.haveHeader && st.mhz == k.mhz && st.tsMax == k.tsMax && st.rssiMax == k.rssiMax
  }

  lemma PacketAttempt(env: Env, body: seq<byte>, k: Scales, st: PState)
    requires Usable(k) && Announced(st, k) && Fits(body) && GoodPacket(env, body)
    ensures env.unpack(body).Some?
    ensures var m := MessageOf(env, body).1;
            Parse(env, Blank(env.id), Record(body), st) ==
            Hit(AsRead(env, k, body, Time(k, st.clock, m)), |Record(body)|,
                st.(clock := ClockAfterMessage(k, st.clock, m)))
  {
    hide ScaleIn, RssiIn, Advance, ValidId;
    RecordAttempt(env, Blank(env.id), body, st);
  }

  lemma HeaderAttempt(env: Env, header: seq<byte>, st: PState)
    requires Ready(st) && Fits(header) && GoodHeader(env, header)
    ensures env.unpack(header).Some?
    ensures var a := Parse(env, Blank(env.id), Record(header), st);
            a.Hit? && a.packet.typ == NONE && Announced(a.state, ScalesOf(env, header)) && a.state.clock == st.clock
  {
    RecordAttempt(env, Blank(env.id), header, st);
    HeaderAcceptedIff(env, env.unpack(header).value.header.value, st);
  }

  /** Which records are read: a header this server may be sent, and, once there was one, packets as above. */
  lemma RecordHitIff(env: Env, body: seq<byte>, rest: seq<byte>, st: PState)
    requires Ready(st) && |body| < 0x1000_0000
    ensures var a := Parse(env, Blank(env.id), Record(body) + rest, st);
            && (a.Hit? <==> GoodHeader(env, body) || (st.haveHeader && GoodPacket(env, body)))
            && (a.Hit? ==> a.used == |Record(body)|)
  {
    RecordRoundTrip(body, rest);
    hide Record, Body, ValidId, HeaderState, ScaleIn, RssiIn, Advance;
    if env.unpack(body).Some? && env.unpack(body).value.header.Some? {
      HeaderAcceptedIff(env, env.unpack(body).value.header.value, st);
    }
  }

  /** A header that is refused, this server's own above all, ends a connection's deliveries wherever it stands,
      whatever the connection has read before and whatever comes after. */
  lemma RefusedHeaderEnds(env: Env, c: Conn, header: seq<byte>, rest: seq<byte>)
    requires Ready(c.state) && env.unpack(header).Some? && env.unpack(header).value.header.Some?
    requires !Acceptable(env, env.unpack(header).value.header.value)
    ensures Decode(env, c, Record(header) + rest) == Run([], c, Record(header) + rest)
  {
    hide Decode, Parse, Record, HeaderState;
    var s := Clip(Record(header) + rest);
    RefusedHeaderMisses(env, header, rest, c.state);
    RecordHead(header, rest);
    forall f | f != PROTO ensures !Hits(env, f, s, c.state) {
      if Hits(env, f, s, c.state) { HitHead(env, f, s, c.state); }
    }
    DecodeStuck(env, c, Record(header) + rest);
  }

  /** So does a record of more than 256 bytes, whatever it holds: the window never shows it whole. */
  lemma OverlongRecordEnds(env: Env, c: Conn, body: seq<byte>, rest: seq<byte>)
    requires Ready(c.state) && |Record(body)| > 256
    ensures Decode(env, c, Record(body) + rest) == Run([], c, Record(body) + rest)
  {
    hide Decode, Record, Body;
    var s := Clip(Record(body) + rest);
    assert s == Record(body)[..BUF_LEN_MAX];
    CutRecord(body, BUF_LEN_MAX);
    RecordHead(body, rest);
    forall f ensures !Hits(env, f, s, c.state) {
      if f != PROTO && Hits(env, f, s, c.state) { HitHead(env, f, s, c.state); }
    }
    DecodeStuck(env, c, Record(body) + rest);
  }

  lemma RecordHead(body: seq<byte>, rest: seq<byte>)
    ensures var s := Clip(Record(body) + rest); |s| > 0 && s[0] == TAG
  {}

  lemma RefusedHeaderMisses(env: Env, header: seq<byte>, rest: seq<byte>, st: PState)
    requires Ready(st) && env.unpack(header).Some? && env.unpack(header).value.header.Some?
    requires !Acceptable(env, env.unpack(header).value.header.value)
    ensures !Hits(env, PROTO, Clip(Record(header) + rest), st)
  {
    hide Record, Body, HeaderState;
    var s := Clip(Record(header) + rest);
    HeaderAcceptedIff(env, env.unpack(header).value.header.value, st);
    if |Record(header)| <= BUF_LEN_MAX {
      var y := s[|Record(header)|..];
      assert s == Record(header) + y;
      RecordRoundTrip(header, y);
    } else {
      assert s == Record(header)[..BUF_LEN_MAX];
      CutRecord(header, BUF_LEN_MAX);
    }
  }

  // ---------------------------------------------------------------- whole sessions

  /** After a header every record is delivered, in order, with nothing left over. */
  lemma {:induction false} PacketsDecode(env: Env, c: Conn, k: Scales, bodies: seq<seq<byte>>)
    requires Usable(k) && Announced(c.state, k) && c.mode == Use(PROTO) && GoodPackets(env, bodies)
    ensures var r := Decode(env, c, Records(bodies));
            && r.out == Forwarded(env, AllRead(env, k, c.state.clock, bodies)) && r.rest == []
            && r.conn == Conn(Use(PROTO), c.state.(clock := ClockAtEnd(env, k, c.state.clock, bodies)))
    decreases |bodies|
  {
    hide Decode, Take, Parse, Record, Clip, Forward, GoodPacket, Fits, AsRead, Time, ClockAfterMessage, MessageOf;
    if bodies == [] {
      NothingOnEmpty(env, c);
      assert Clip([]) == [] by { ClipBound([]); }
      DecodeStuck(env, c, []);
    } else {
      var body, rest := bodies[0], Records(bodies[1..]);
      var m := MessageOf(env, body).1;
      PacketAttempt(env, body, k, c.state);
      OneRecord(env, c, body, rest);
      var c' := Conn(Use(PROTO), c.state.(clock := ClockAfterMessage(k, c.state.clock, m)));
      PacketsDecode(env, c', k, bodies[1..]);
      var ps := AllRead(env, k, c.state.clock, bodies);
      assert ps[1..] == AllRead(env, k, c'.state.clock, bodies[1..]);
    }
  }

  datatype Session = Session(header: seq<byte>, bodies: seq<seq<byte>>)

  predicate GoodSession(env: Env, s: Session) {
    Fits(s.header) && GoodHeader(env, s.header) && GoodPackets(env, s.bodies)
  }

  function SessionBytes(s: Session): seq<byte> { Record(s.header) + Records(s.bodies) }

  function SessionOut(env: Env, c: Clock, s: Session): seq<Packet>
    requires GoodSession(env, s)
  {
    Forwarded(env, AllRead(env, ScalesOf(env, s.header), c, s.bodies))
  }

  function SessionClock(env: Env, c: Clock, s: Session): Clock
    requires GoodSession(env, s)
  {
    ClockAtEnd(env, ScalesOf(env, s.header), c, s.bodies)
  }

  /** A session, the first of a connection or a later one: its header is detected or read and forwards
      nothing, its packets are delivered or dropped by the hop limit, and the clock goes on. */
  lemma SessionDecodes(env: Env, c: Conn, s: Session)
    requires Ready(c.state) && (c.mode == Detect || c.mode == Use(PROTO)) && GoodSession(env, s)
    ensures var r := Decode(env, c, SessionBytes(s));
            && r.out == SessionOut(env, c.state.clock, s) && r.rest == []
            && r.conn.mode == Use(PROTO) && r.conn.state.clock == SessionClock(env, c.state.clock, s)
  {
    hide Decode, Parse, Record, AllRead, Forwarded, ClockAtEnd, ScalesOf, Fits, GoodPackets, Records;
    HeaderAttempt(env, s.header, c.state);
    OneRecord(env, c, s.header, Records(s.bodies));
    var a := Parse(env, Blank(env.id), Record(s.header), c.state);
    var c' := Conn(Use(PROTO), a.state);
    PacketsDecode(env, c', ScalesOf(env, s.header), s.bodies);
    var r := Decode(env, c', Records(s.bodies));
    assert Forward(env, a.packet) + r.out == r.out;
  }

  predicate GoodSessions(env: Env, ss: seq<Session>) { forall i :: 0 <= i < |ss| ==> GoodSession(env, ss[i]) }

  function AllBytes(ss: seq<Session>): seq<byte> {
    if ss == [] then [] else SessionBytes(ss[0]) + AllBytes(ss[1..])
  }

  function AllOut(env: Env, c: Clock, ss: seq<Session>): seq<Packet>
    requires GoodSessions(env, ss)
    decreases |ss|
  {
    if ss == [] then [] else SessionOut(env, c, ss[0]) + AllOut(env, SessionClock(env, c, ss[0]), ss[1..])
  }

  /** Any number of sessions one after the other: every packet is read at the scales of its own header. */
  lemma {:induction false} SessionsDecode(env: Env, c: Conn, ss: seq<Session>)
    requires Ready(c.state) && (c.mode == Detect || c.mode == Use(PROTO)) && GoodSessions(env, ss)
    ensures var r := Decode(env, c, AllBytes(ss));
            r.out == AllOut(env, c.state.clock, ss) && r.rest == []
    decreases |ss|
  {
    hide Decode, Take, Clip, SessionBytes, SessionOut, SessionClock, GoodSession;
    if ss == [] {
      NothingOnEmpty(env, c);
      assert Clip([]) == [] by { ClipBound([]); }
      DecodeStuck(env, c, []);
    } else {
      SessionDecodes(env, c, ss[0]);
      var r := Decode(env, c, SessionBytes(ss[0]));
      DecodeAppend(env, c, SessionBytes(ss[0]), AllBytes(ss[1..]));
      assert r.rest + AllBytes(ss[1..]) == AllBytes(ss[1..]);
      SessionsDecode(env, r.conn, ss[1..]);
    }
  }
}
