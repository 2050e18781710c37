/** Translation between formats: what a second hub decodes from the frames the first one writes. */
module Translation {
  import opened Bytes
  import opened Arith
  import opened Packets
  import opened Mlat
  import opened TextFrames
  import opened Proto
  import opened Decoder
  import Hex
  import Airspy
  import Beast
  import Raw

  /** The serializer of a format whose frames this model writes itself. */
  function Frame(f: Fmt, p: Packet): seq<byte>
    requires f != PROTO
  {
    match f
    case AIRSPY => Airspy.Frame(p)
    case BEAST => Beast.Frame(p)
    case RAW => Raw.Frame(p)
  }

  /** Width and rate of the counter a format carries; raw has none. */
  function Width(f: Fmt): uint64 { if f == AIRSPY then UINT32_MAX else Beast.MAX48 }

  function Rate(f: Fmt): (m: nat)
    ensures 0 < m <= MLAT_MHZ
  {
    if f == AIRSPY then Airspy.SEND_MHZ else Beast.MHZ
  }

  function Stamp(f: Fmt, p: Packet): uint64 { ScaleOut(p.mlat, Width(f), Rate(f)) }

  /** The signal level after a trip through a format. */
  function Level(f: Fmt, r: uint32): uint32 {
    match f
    case AIRSPY => r - r % 0x1_0001
    case BEAST => if r == 0 then UINT32_MAX else r - r % 0x101_0101
    case PROTO => r
    case RAW => 0
  }

  /** What the second hub reads from the frame of `p`, and the state it is left in. */
  function Reread(id: seq<byte>, f: Fmt, st: PState, p: Packet): (r: (Packet, PState))
    ensures Ready(st) ==> Ready(r.1)
  {
    if f == RAW then (Packet(p.typ, 0, p.payload, 0, 0, id), st)
    else
      (Packet(p.typ, 0, p.payload, ScaleIn(st.clock, Stamp(f, p), Width(f), Rate(f)), Level(f, p.rssi), id),
       st.(clock := Advance(st.clock, Stamp(f, p), Width(f))))
  }

  // ---------------------------------------------------------------- one frame

  lemma RawReads(id: seq<byte>, p: Packet, rest: seq<byte>, st: PState)
    requires WellFormed(p) && p.typ != NONE
    ensures Raw.Parse(Blank(id), Raw.Frame(p) + rest, st) ==
            Hit(Reread(id, RAW, st, p).0, |Raw.Frame(p)|, Reread(id, RAW, st, p).1)
  {
    hide Hex.Text, Hex.Bin, Hex.IsHex, Raw.Parse, Level;
    var s, o := Raw.Frame(p) + rest, Head(p.typ);
    assert s[1..o] == Hex.Text(p.payload, true);
    Hex.TextRoundTrip(p.payload, true);
    Raw.ParseByType(Blank(id), s, st);
    assert Raw.Accepted(s, p.typ);
  }

  lemma BeastReads(id: seq<byte>, p: Packet, rest: seq<byte>, st: PState)
    requires WellFormed(p) && p.typ != NONE
    ensures Beast.Parse(Blank(id), Beast.Frame(p) + rest, st) ==
            Hit(Reread(id, BEAST, st, p).0, |Beast.Frame(p)|, Reread(id, BEAST, st, p).1)
  {
    Beast.WireReads(Blank(id), Beast.WireOf(p), rest, st);
    LevelOverBeast(p.rssi);
  }

  lemma LevelOverBeast(r: uint32)
    ensures RssiIn(Beast.RssiByte(r), 0xFF) == Level(BEAST, r)
  {
    if r != 0 { RssiRounds(r, 0xFF); }
  }

  lemma AirspyField(v: nat, n: nat, bound: nat)
    requires v < bound && n <= 8 && Hex.Pow16(n) == bound
    ensures Hex.IntOf(Hex.IntText(v, n)) == v
  {
    Hex.IntTextRoundTrip(v, n);
    Hex.IntOfShort(Hex.IntText(v, n));
    SmallMod(v, bound);
  }

  lemma Powers()
    ensures Hex.Pow16(2) == 0x100 && Hex.Pow16(4) == 0x1_0000 && Hex.Pow16(8) == 0x1_0000_0000
  {}

  lemma AirspyFields(p: Packet, rest: seq<byte>)
    requires WellFormed(p)
    ensures var s, o := Airspy.Frame(p) + rest, Head(p.typ);
            Airspy.Framed(s, p.typ) && s[1..o] == Hex.Text(p.payload, true) &&
            s[o + 1..o + 9] == Hex.IntText(Stamp(AIRSPY, p), 8) &&
            s[o + 10..o + 12] == Hex.IntText(10, 2) &&
            s[o + 13..o + 17] == Hex.IntText(RssiOut(p.rssi, UINT16_MAX), 4) &&
            PastLineEnd(s, o + 18) == |Airspy.Frame(p)|
  {
    hide ScaleOut, RssiOut, Hex.Text, Hex.IntText, Len;
  }

  /** The head of `s` is a frame whose fields denote those of `p`. */
  ghost predicate Spells(s: seq<byte>, p: Packet) {
    var o := Head(p.typ);
    && Airspy.Framed(s, p.typ)
    && Airspy.Stamp(s, p.typ) == Stamp(AIRSPY, p)
    && Airspy.Mhz(s, p.typ) == 20
    && Hex.IntOf(s[o + 13..o + 17]) == RssiOut(p.rssi, UINT16_MAX)
    && Hex.IsHex(s[1..o])
    && Hex.Bin(s[1..o]) == p.payload
  }

  lemma AirspyNumbers(p: Packet, rest: seq<byte>)
    requires WellFormed(p)
    ensures Spells(Airspy.Frame(p) + rest, p)
  {
    hide Airspy.Frame, Hex.IntOf, Hex.IntText, ScaleOut, RssiOut, Hex.Text, Hex.Bin, Hex.IsHex;
    AirspyFields(p, rest);
    Powers();
    AirspyField(Stamp(AIRSPY, p), 8, 0x1_0000_0000);
    AirspyField(10, 2, 0x100);
    LevelFits(p.rssi);
    AirspyField(RssiOut(p.rssi, UINT16_MAX), 4, 0x1_0000);
    Hex.TextRoundTrip(p.payload, true);
  }

  lemma AirspyReads(id: seq<byte>, p: Packet, rest: seq<byte>, st: PState)
    requires WellFormed(p) && p.typ != NONE
    ensures Airspy.Parse(Blank(id), Airspy.Frame(p) + rest, st) ==
            Hit(Reread(id, AIRSPY, st, p).0, |Airspy.Frame(p)|, Reread(id, AIRSPY, st, p).1)
  {
    hide Airspy.Frame, Hex.IntOf, Hex.IntText, ScaleOut, RssiOut, RssiIn, ScaleIn, Advance, Hex.Text, Hex.Bin,
      Hex.IsHex,
      Airspy.Parse, Airspy.Framed, Airspy.Stamp, Airspy.Mhz, Level;
    var s := Airspy.Frame(p) + rest;
    AirspyNumbers(p, rest);
    AirspyFields(p, rest);
    Airspy.ParseByType(Blank(id), s, st);
    assert Airspy.Accepted(s, p.typ);
    LevelFits(p.rssi);
    SmallMod(RssiOut(p.rssi, UINT16_MAX), TWO32);
  }

  lemma LevelFits(r: uint32)
    ensures RssiOut(r, UINT16_MAX) < 0x1_0000
    ensures RssiIn(RssiOut(r, UINT16_MAX), UINT16_MAX) == Level(AIRSPY, r)
  {}

  // ---------------------------------------------------------------- streams of frames

  predicate Sendable(ps: seq<Packet>) { forall i :: 0 <= i < |ps| ==> WellFormed(ps[i]) && ps[i].typ != NONE }

  lemma FrameReads(env: Env, f: Fmt, p: Packet, rest: seq<byte>, st: PState)
    requires f != PROTO && WellFormed(p) && p.typ != NONE && Ready(st)
    ensures var r := Reread(env.id, f, st, p);
            ParseAs(env, f, Blank(env.id), Frame(f, p) + rest, st) == Hit(r.0, |Frame(f, p)|, r.1)
  {
    match f
    case AIRSPY => AirspyReads(env.id, p, rest, st);
    case BEAST => BeastReads(env.id, p, rest, st);
    case RAW => RawReads(env.id, p, rest, st);
  }

  lemma FrameBound(f: Fmt, p: Packet)
    requires f != PROTO && WellFormed(p) && p.typ != NONE
    ensures 0 < |Frame(f, p)| <= 49
  {}

  /** The first frame is detected for what it is, later ones are read by the parser that was chosen. */
  lemma FrameTaken(env: Env, f: Fmt, p: Packet, rest: seq<byte>, c: Conn)
    requires f != PROTO && WellFormed(p) && p.typ != NONE && Ready(c.state) && (c.mode == Detect || c.mode == Use(f))
    ensures var r := Reread(env.id, f, c.state, p);
            Take(env, c, Frame(f, p) + rest) == Some((r.0, |Frame(f, p)|, Conn(Use(f), r.1)))
  {
    hide ParseAs, Frame, Reread;
    var s := Frame(f, p) + rest;
    FrameReads(env, f, p, rest, c.state);
    assert Hits(env, f, s, c.state);
    forall g | Hits(env, g, s, c.state) ensures g == f {
      Unambiguous(env, f, g, s, c.state, c.state);
    }
  }

  function Frames(f: Fmt, ps: seq<Packet>): seq<byte>
    requires f != PROTO
  {
    if ps == [] then [] else Frame(f, ps[0]) + Frames(f, ps[1..])
  }

  /** The packets a second hub delivers for the frames of `ps`. */
  function Relayed(env: Env, f: Fmt, st: PState, ps: seq<Packet>): seq<Packet>
    requires f != PROTO
    decreases |ps|
  {
    if ps == [] then []
    else
      var r := Reread(env.id, f, st, ps[0]);
      Forward(env, r.0) + Relayed(env, f, r.1, ps[1..])
  }

  /** Decoding a format's frames: exact packets, nothing left over, the right format detected. */
  lemma {:induction false} FramesDecode(env: Env, f: Fmt, ps: seq<Packet>, c: Conn)
    requires f != PROTO && Sendable(ps) && Ready(c.state) && (c.mode == Detect || c.mode == Use(f))
    ensures var r := Decode(env, c, Frames(f, ps));
            r.out == Relayed(env, f, c.state, ps) && r.rest == [] && r.conn.mode == if ps == [] then c.mode else Use(f)
  {
    hide Decode, Take, Frame, Reread, Forward, Clip, WellFormed, Ready;
    if ps == [] {
      NothingOnEmpty(env, c);
      assert Clip([]) == [] by { ClipBound([]); }
      DecodeStuck(env, c, []);
    } else {
      var p, rest := ps[0], Frames(f, ps[1..]);
      var y := HeadFits(f, p, rest);
      FrameTaken(env, f, p, y, c);
      DecodeTaken(env, c, Frame(f, p) + rest);
      assert (Frame(f, p) + rest)[|Frame(f, p)|..] == rest;
      var c' := Conn(Use(f), Reread(env.id, f, c.state, p).1);
      FramesDecode(env, f, ps[1..], c');
    }
  }

  /** The same with anything after the frames: it is decoded as if the frames had not been there, but for the
      format and the clock. */
  lemma FramesThenRest(env: Env, f: Fmt, ps: seq<Packet>, c: Conn, rest: seq<byte>)
    requires f != PROTO && Sendable(ps) && Ready(c.state) && (c.mode == Detect || c.mode == Use(f))
    ensures var c' := Decode(env, c, Frames(f, ps)).conn;
            Decode(env, c, Frames(f, ps) + rest) == Before(Relayed(env, f, c.state, ps), Decode(env, c', rest))
  {
    hide Decode, Relayed, Frames;
    FramesDecode(env, f, ps, c);
    DecodeAppend(env, c, Frames(f, ps), rest);
    assert [] + rest == rest;
  }

  lemma HeadFits(f: Fmt, p: Packet, rest: seq<byte>) returns (y: seq<byte>)
    requires f != PROTO && WellFormed(p) && p.typ != NONE
    ensures Clip(Frame(f, p) + rest) == Frame(f, p) + y
  {
    hide Frame;
    FrameBound(f, p);
    y := Clip(Frame(f, p) + rest)[|Frame(f, p)|..];
  }

  /** What every format carries. */
  function Meaning(ps: seq<Packet>): seq<(PacketType, seq<byte>)> {
    seq(|ps|, i requires 0 <= i < |ps| => (ps[i].typ, ps[i].payload))
  }

  /** One packet through one format, times aside. */
  function AsRelayed(env: Env, f: Fmt, st: PState, p: Packet): (q: Packet)
    requires f != PROTO
    ensures q.typ == p.typ && q.payload == p.payload && q.hops == 1 && q.source == env.id && q.rssi == Level(f, p.rssi)
  {
    Reread(env.id, f, st, p).0.(hops := 1)
  }

  lemma ForwardsOne(env: Env, f: Fmt, st: PState, p: Packet)
    requires f != PROTO && p.typ != NONE && env.maxHops >= 1
    ensures Forward(env, Reread(env.id, f, st, p).0) == [AsRelayed(env, f, st, p)]
  {
    hide ScaleIn, Stamp, Level, Advance;
  }

  lemma RelayedCons(env: Env, f: Fmt, st: PState, ps: seq<Packet>)
    requires f != PROTO && ps != [] && ps[0].typ != NONE && env.maxHops >= 1
    ensures Relayed(env, f, st, ps) ==
            [AsRelayed(env, f, st, ps[0])] + Relayed(env, f, Reread(env.id, f, st, ps[0]).1, ps[1..])
  {
    hide Reread, Forward, AsRelayed;
    ForwardsOne(env, f, st, ps[0]);
  }

  lemma MeaningCons(p: Packet, ps: seq<Packet>)
    ensures Meaning([p] + ps) == [(p.typ, p.payload)] + Meaning(ps)
  {}

  lemma {:induction false} RelayedOneForOne(env: Env, f: Fmt, st: PState, ps: seq<Packet>)
    requires f != PROTO && Sendable(ps) && env.maxHops >= 1
    ensures |Relayed(env, f, st, ps)| == |ps|
    ensures Meaning(Relayed(env, f, st, ps)) == Meaning(ps)
    ensures forall i :: 0 <= i < |ps| ==>
              Relayed(env, f, st, ps)[i].hops == 1 && Relayed(env, f, st, ps)[i].source == env.id &&
              Relayed(env, f, st, ps)[i].rssi == Level(f, ps[i].rssi)
    decreases |ps|
  {
    hide Reread, Forward, Level, Meaning, AsRelayed, WellFormed;
    if ps == [] {
      assert Relayed(env, f, st, ps) == ps;
    } else {
      var st', q := Reread(env.id, f, st, ps[0]).1, AsRelayed(env, f, st, ps[0]);
      RelayedOneForOne(env, f, st', ps[1..]);
      var rest := Relayed(env, f, st', ps[1..]);
      RelayedCons(env, f, st, ps);
      MeaningCons(q, rest);
      MeaningCons(ps[0], ps[1..]);
      assert [ps[0]] + ps[1..] == ps;
    }
  }

  /** Translation preserves meaning: whatever stream a hub decodes, sending the packets on in another format
      and decoding that stream elsewhere gives the same types and payloads in the same order, reads every
      byte, and detects the format. */
  lemma TranslationPreservesMeaning(here: Env, there: Env, stream: seq<byte>, f: Fmt)
    requires f != PROTO && ValidId(here.id) && there.maxHops >= 1
    ensures var ps := Decode(here, START, stream).out;
            Sendable(ps) &&
            var r := Decode(there, START, Frames(f, ps));
            Meaning(r.out) == Meaning(ps) && r.rest == [] && (ps != [] ==> r.conn.mode == Use(f))
  {
    hide Decode, Frames, Relayed, Meaning;
    var ps := Decode(here, START, stream).out;
    DecodedAreDeliverable(here, START, stream);
    assert forall i :: 0 <= i < |ps| ==> Deliverable(here, ps[i]);
    FramesDecode(there, f, ps, START);
    RelayedOneForOne(there, f, CLEARED, ps);
  }

  // ---------------------------------------------------------------- the timeline through a format

  function Stamps(f: Fmt, ps: seq<Packet>): (ws: seq<uint64>)
    ensures |ws| == |ps|
  {
    seq(|ps|, i requires 0 <= i < |ps| => Stamp(f, ps[i]))
  }

  lemma {:induction false} ClockAfterShifts(c: Clock, ws: seq<uint64>, max: uint64, k: nat)
    requires k < |ws|
    ensures ClockAfter(c, ws, max, k + 1) == ClockAfter(Advance(c, ws[0], max), ws[1..], max, k)
  {
    if k > 0 { ClockAfterShifts(c, ws, max, k - 1); }
  }

  lemma FirstTime(env: Env, f: Fmt, st: PState, p: Packet)
    requires f == AIRSPY || f == BEAST
    ensures AsRelayed(env, f, st, p).mlat == ScaleIn(st.clock, Stamp(f, p), Width(f), Rate(f))
    ensures Reread(env.id, f, st, p).1.clock == Advance(st.clock, Stamp(f, p), Width(f))
  {
    hide ScaleIn, Stamp, Advance, Level;
  }

  lemma RelayedLength(env: Env, f: Fmt, st: PState, ps: seq<Packet>)
    requires f != PROTO && Sendable(ps) && env.maxHops >= 1
    ensures |Relayed(env, f, st, ps)| == |ps|
  {
    hide Relayed, Level, Meaning;
    RelayedOneForOne(env, f, st, ps);
  }

  lemma ReadingShifts(c: Clock, ws: seq<uint64>, max: uint64, mhz: nat, k: nat)
    requires mhz > 0 && 0 < k < |ws|
    ensures Reading(c, ws, max, mhz, k) == Reading(Advance(c, ws[0], max), ws[1..], max, mhz, k - 1)
  {
    hide ScaleIn, Advance;
    ClockAfterShifts(c, ws, max, k - 1);
  }

  lemma {:induction false} RelayedTimes(env: Env, f: Fmt, st: PState, ps: seq<Packet>, k: nat)
    requires (f == AIRSPY || f == BEAST) && Sendable(ps) && env.maxHops >= 1 && k < |ps|
    ensures |Relayed(env, f, st, ps)| == |ps|
    ensures Relayed(env, f, st, ps)[k].mlat == Reading(st.clock, Stamps(f, ps), Width(f), Rate(f), k)
    decreases k
  {
    var st' := Reread(env.id, f, st, ps[0]).1;
    hide ScaleIn, Stamp, Advance, Reread, AsRelayed, Relayed, WellFormed;
    RelayedLength(env, f, st, ps);
    RelayedLength(env, f, st', ps[1..]);
    RelayedCons(env, f, st, ps);
    FirstTime(env, f, st, ps[0]);
    var ws := Stamps(f, ps);
    assert ws[1..] == Stamps(f, ps[1..]);
    if k > 0 {
      hide Reading;
      RelayedTimes(env, f, st', ps[1..], k - 1);
      ReadingShifts(st.clock, ws, Width(f), Rate(f), k);
    }
  }

  function Times(ps: seq<Packet>): (ms: seq<nat>)
    ensures |ms| == |ps|
  {
    seq(|ps|, i requires 0 <= i < |ps| => ps[i].mlat)
  }

  /** How far the time of packet `k` falls behind its rounded hub time on the way through a format. */
  function Delay(env: Env, f: Fmt, ps: seq<Packet>, k: nat): int
    requires (f == AIRSPY || f == BEAST) && Sendable(ps) && env.maxHops >= 1 && k < |ps|
  {
    RelayedOneForOne(env, f, CLEARED, ps);
    ps[k].mlat - ps[k].mlat % Factor(Rate(f)) - Relayed(env, f, CLEARED, ps)[k].mlat
  }

  /** The relayed timeline is the hub's, rounded and shifted by one constant, exactly when fewer ticks than
      the format's counter holds pass between consecutive packets. */
  lemma TimelineThroughFormat(env: Env, f: Fmt, ps: seq<Packet>)
    requires (f == AIRSPY || f == BEAST) && Sendable(ps) && env.maxHops >= 1 && HubTimes(Times(ps))
    ensures (forall k :: 0 <= k < |ps| ==> Delay(env, f, ps, k) == Delay(env, f, ps, 0))
            <==> GapsBelow(Ticks(Times(ps), Factor(Rate(f))), Width(f))
  {
    hide Relayed, Reading, GapsBelow, Ticks;
    var ms := Times(ps);
    assert SentTimes(ms, Width(f), Rate(f)) == Stamps(f, ps);
    forall k | 0 <= k < |ps| ensures Delay(env, f, ps, k) == Shift(ms, Width(f), Rate(f), k) {
      RelayedTimes(env, f, CLEARED, ps, k);
    }
    TimelineExact(ms, Width(f), Rate(f));
  }
}
