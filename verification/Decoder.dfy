/** What a receive connection delivers, as a function of the whole byte stream: no buffer, no reads, and
    every attempt made from the state the last delivered packet left. */
module Decoder {
  import opened Bytes
  import opened Packets
  import opened Mlat
  import opened Buffer
  import opened Proto
  import opened TextFrames
  import Airspy
  import Beast
  import Raw

  /** The parser table of receive.c, less json. */
  datatype Fmt = AIRSPY | BEAST | PROTO | RAW

  datatype Mode = Detect | Use(f: Fmt)

  datatype Conn = Conn(mode: Mode, state: PState)

  const START := Conn(Detect, CLEARED)

  function ParseAs(env: Env, f: Fmt, base: Packet, s: seq<byte>, st: PState): (a: Attempt)
    requires Ready(st)
    ensures Ready(a.state)
  {
    match f
    case AIRSPY => Airspy.Parse(base, s, st)
    case BEAST => Beast.Parse(base, s, st)
    case PROTO => Proto.Parse(env, base, s, st)
    case RAW => Raw.Parse(base, s, st)
  }

  predicate Hits(env: Env, f: Fmt, s: seq<byte>, st: PState)
    requires Ready(st)
  {
    ParseAs(env, f, Blank(env.id), s, st).Hit?
  }

  /** The format that reads the head of `s`, if any. */
  function Chosen(env: Env, c: Conn, s: seq<byte>): Option<Fmt>
    requires Ready(c.state)
  {
    match c.mode
    case Use(f) => if Hits(env, f, s, c.state) then Some(f) else None
    case Detect =>
      if Hits(env, AIRSPY, s, c.state) then Some(AIRSPY)
      else if Hits(env, BEAST, s, c.state) then Some(BEAST)
      else if Hits(env, PROTO, s, c.state) then Some(PROTO)
      else if Hits(env, RAW, s, c.state) then Some(RAW)
      else None
  }

  /** One frame off the head of `s`: the packet, the bytes it took, the connection after it. */
  function Take(env: Env, c: Conn, s: seq<byte>): (r: Option<(Packet, nat, Conn)>)
    requires Ready(c.state)
    ensures r.Some? ==> 0 < r.value.1 <= |s| && Ready(r.value.2.state)
  {
    match Chosen(env, c, s)
    case None => None
    case Some(f) =>
      var a := ParseAs(env, f, Blank(env.id), s, c.state);
      HitProgress(env, f, s, c.state);
      Some((a.packet, a.used, Conn(Use(f), a.state)))
  }

  lemma HitProgress(env: Env, f: Fmt, s: seq<byte>, st: PState)
    requires Ready(st) && Hits(env, f, s, st)
    ensures 0 < ParseAs(env, f, Blank(env.id), s, st).used <= |s|
  {}

  /** The window never holds more than this much of the stream. */
  function Clip(s: seq<byte>): seq<byte> { if |s| <= BUF_LEN_MAX then s else s[..BUF_LEN_MAX] }

  /** What the receive loop does with a parsed packet: headers and packets over the hop limit go nowhere. */
  function Forward(env: Env, p: Packet): seq<Packet> {
    if p.typ == NONE then []
    else
      var hops := (p.hops + 1) % TWO32;
      if hops > env.maxHops then [] else [p.(hops := hops)]
  }

  datatype Run = Run(out: seq<Packet>, conn: Conn, rest: seq<byte>)

  function Before(out: seq<Packet>, r: Run): Run { Run(out + r.out, r.conn, r.rest) }

  /** Decode until the head of the stream no longer parses. */
  function Decode(env: Env, c: Conn, s: seq<byte>): (r: Run)
    requires Ready(c.state)
    ensures Ready(r.conn.state)
    ensures |r.rest| <= |s| && r.rest == s[|s| - |r.rest|..]
    decreases |s|
  {
    match Take(env, c, Clip(s))
    case None => Run([], c, s)
    case Some((p, used, c')) => Before(Forward(env, p), Decode(env, c', s[used..]))
  }

  // ---------------------------------------------------------------- more input

  lemma HitExtends(env: Env, f: Fmt, base: Packet, s: seq<byte>, x: seq<byte>, st: PState)
    requires Ready(st) && ParseAs(env, f, base, s, st).Hit?
    ensures ParseAs(env, f, base, s + x, st) == ParseAs(env, f, base, s, st)
  {
    match f
    case AIRSPY => Airspy.HitExtends(base, s, x, st);
    case BEAST => Beast.HitExtends(base, s, x, st);
    case PROTO => Proto.HitExtends(env, base, s, x, st);
    case RAW => Raw.HitExtends(base, s, x, st);
  }

  lemma EmptyMisses(env: Env, f: Fmt, st: PState)
    requires Ready(st)
    ensures !Hits(env, f, [], st)
  {}

  lemma NothingOnEmpty(env: Env, c: Conn)
    requires Ready(c.state)
    ensures Take(env, c, []) == None
  {
    forall f: Fmt ensures !Hits(env, f, [], c.state) { EmptyMisses(env, f, c.state); }
  }

  /** Detection does not depend on the order of the table: no two formats accept the same bytes. */
  lemma Unambiguous(env: Env, f: Fmt, g: Fmt, s: seq<byte>, st: PState, st': PState)
    requires Ready(st) && Ready(st') && Hits(env, f, s, st) && Hits(env, g, s, st')
    ensures f == g
  {
    HitHead(env, f, s, st);
    HitHead(env, g, s, st');
    if {f, g} == {AIRSPY, RAW} {
      Airspy.ParseByType(Blank(env.id), s, if f == AIRSPY then st else st');
      Raw.ParseByType(Blank(env.id), s, if f == RAW then st else st');
      forall t: PacketType, u: PacketType ensures !(Airspy.Accepted(s, t) && Raw.Accepted(s, u)) {
        TextFormatsDiffer(s, t, u);
      }
    }
  }

  /** The first byte a format insists on. */
  function FirstByte(f: Fmt): byte {
    match f
    case AIRSPY => STAR
    case BEAST => Beast.ESC
    case PROTO => TAG
    case RAW => STAR
  }

  lemma HitHead(env: Env, f: Fmt, s: seq<byte>, st: PState)
    requires Ready(st) && Hits(env, f, s, st)
    ensures |s| > 0 && s[0] == FirstByte(f)
  {}

  /** Where raw ends its line, airspy has the first digit of the timestamp. */
  lemma TextFormatsDiffer(s: seq<byte>, t: PacketType, u: PacketType)
    ensures !(Airspy.Accepted(s, t) && Raw.Accepted(s, u))
  {
    var a, b := Head(t), Head(u);
    if Airspy.Framed(s, t) && Raw.Framed(s, u) {
      if a < b {
        SemicolonEndsHex(s, a, b);
      } else if b < a {
        SemicolonEndsHex(s, b, a);
      } else {
        assert s[a + 1..a + 9][0] == s[b + 1];
      }
    }
  }

  lemma TakeExtends(env: Env, c: Conn, s: seq<byte>, x: seq<byte>)
    requires Ready(c.state) && Take(env, c, s).Some?
    ensures Take(env, c, s + x) == Take(env, c, s)
  {
    var f := Chosen(env, c, s).value;
    HitExtends(env, f, Blank(env.id), s, x, c.state);
    if c.mode == Detect {
      forall g | Hits(env, g, s + x, c.state) ensures g == f {
        Unambiguous(env, f, g, s + x, c.state, c.state);
      }
    }
  }

  lemma ClipBound(s: seq<byte>)
    ensures |Clip(s)| <= |s|
  {}

  lemma ClipExtends(s: seq<byte>, x: seq<byte>) returns (y: seq<byte>)
    ensures Clip(s + x) == Clip(s) + y
  {
    y := Clip(s + x)[|Clip(s)|..];
  }

  lemma BeforeTwice(f: seq<Packet>, g: seq<Packet>, r: Run)
    ensures Before(f, Before(g, r)) == Before(f + g, r)
    ensures Before([], r) == r
  {}

  lemma DecodeTaken(env: Env, c: Conn, s: seq<byte>)
    requires Ready(c.state) && Take(env, c, Clip(s)).Some?
    ensures var t := Take(env, c, Clip(s)).value;
            t.1 <= |s| && Decode(env, c, s) == Before(Forward(env, t.0), Decode(env, t.2, s[t.1..]))
  {}

  lemma DecodeStuck(env: Env, c: Conn, s: seq<byte>)
    requires Ready(c.state) && Take(env, c, Clip(s)).None?
    ensures Decode(env, c, s) == Run([], c, s)
  {}

  /** Decoding is incremental: stop anywhere, keep the connection and the undecoded rest, and go on when
      more bytes are there. */
  lemma {:induction false} DecodeAppend(env: Env, c: Conn, s: seq<byte>, x: seq<byte>)
    requires Ready(c.state)
    ensures var r := Decode(env, c, s);
            Decode(env, c, s + x) == Before(r.out, Decode(env, r.conn, r.rest + x))
    decreases |s|
  {
    hide Take, Forward, Clip, Decode, Before;
    match Take(env, c, Clip(s))
    case None =>
      DecodeStuck(env, c, s);
      BeforeTwice([], [], Decode(env, c, s + x));
    case Some((p, used, c')) =>
      var y := ClipExtends(s, x);
      TakeExtends(env, c, Clip(s), y);
      DecodeTaken(env, c, s);
      DecodeTaken(env, c, s + x);
      assert (s + x)[used..] == s[used..] + x;
      DecodeAppend(env, c', s[used..], x);
      var r := Decode(env, c', s[used..]);
      BeforeTwice(Forward(env, p), r.out, Decode(env, r.conn, r.rest + x));
      BeforeParts(Forward(env, p), r);
  }

  lemma BeforeParts(f: seq<Packet>, r: Run)
    ensures Before(f, r).out == f + r.out && Before(f, r).conn == r.conn && Before(f, r).rest == r.rest
  {}

  // ---------------------------------------------------------------- decidedness

  /** 49 bytes decide every attempt of airspy, beast and raw: what they make of the head, what they take
      and what they leave in the state is the same whatever follows. */
  lemma FortyNineDecide(env: Env, f: Fmt, base: Packet, s: seq<byte>, x: seq<byte>, st: PState)
    requires Ready(st) && f != PROTO && |s| >= 49
    ensures ParseAs(env, f, base, s + x, st) == ParseAs(env, f, base, s, st)
  {
    match f
    case AIRSPY => Airspy.FortyNineDecide(base, s, x, st);
    case BEAST => Beast.FortyFiveDecide(base, s, x, st);
    case RAW => Raw.ThirtyTwoDecide(base, s, x, st);
  }

  /** So the bounded window costs these formats nothing. */
  lemma WindowSuffices(env: Env, c: Conn, s: seq<byte>)
    requires Ready(c.state) && Take(env, c, s).Some? && Take(env, c, s).value.2.mode != Use(PROTO)
    ensures Take(env, c, Clip(s)) == Take(env, c, s)
  {
    hide ParseAs;
    var f := Chosen(env, c, s).value;
    if |s| > BUF_LEN_MAX {
      var x := s[BUF_LEN_MAX..];
      assert s == Clip(s) + x;
      FortyNineDecide(env, f, Blank(env.id), Clip(s), x, c.state);
      assert Hits(env, f, Clip(s), c.state);
      if c.mode == Detect {
        forall g | Hits(env, g, Clip(s), c.state) ensures g == f {
          Unambiguous(env, f, g, Clip(s), c.state, c.state);
        }
      }
    }
  }

  /** The same without a window: every attempt sees all the stream that is left. */
  function DecodeAll(env: Env, c: Conn, s: seq<byte>): (r: Run)
    requires Ready(c.state)
    ensures c.mode.Use? ==> r.conn.mode == c.mode
    decreases |s|
  {
    match Take(env, c, s)
    case None => Run([], c, s)
    case Some((p, used, c')) => Before(Forward(env, p), DecodeAll(env, c', s[used..]))
  }

  /** Over whole streams the window makes no difference unless the format is proto. */
  lemma {:induction false} WindowNeverMatters(env: Env, c: Conn, s: seq<byte>)
    requires Ready(c.state) && DecodeAll(env, c, s).conn.mode != Use(PROTO)
    ensures Decode(env, c, s) == DecodeAll(env, c, s)
    decreases |s|
  {
    hide Take, Forward;
    if Take(env, c, s).None? {
      if Take(env, c, Clip(s)).Some? {
        assert Clip(s) + s[|Clip(s)|..] == s;
        TakeExtends(env, c, Clip(s), s[|Clip(s)|..]);
      }
    } else {
      var (p, used, c') := Take(env, c, s).value;
      TakenMode(env, c, s);
      WindowSuffices(env, c, s);
      WindowNeverMatters(env, c', s[used..]);
    }
  }

  lemma TakenMode(env: Env, c: Conn, s: seq<byte>)
    requires Ready(c.state) && Take(env, c, s).Some?
    ensures Take(env, c, s).value.2.mode.Use?
  {}

  /** A head one of these formats refuses with 49 bytes before it is dead under every extension and from
      every state; so a connection using it is only ever dropped for overrun on a dead head. */
  lemma DeadUnderEveryExtension(env: Env, f: Fmt, s: seq<byte>, x: seq<byte>, st: PState, st': PState)
    requires Ready(st) && Ready(st') && f != PROTO && |s| >= 49 && !Hits(env, f, s, st)
    ensures !Hits(env, f, s + x, st')
  {
    FortyNineDecide(env, f, Blank(env.id), s, x, st');
    match f
    case AIRSPY => Airspy.ParseByType(Blank(env.id), s, st); Airspy.ParseByType(Blank(env.id), s, st');
    case BEAST =>
    case RAW => Raw.ParseByType(Blank(env.id), s, st); Raw.ParseByType(Blank(env.id), s, st');
  }

  // ---------------------------------------------------------------- every packet is sane

  predicate Deliverable(env: Env, p: Packet) {
    WellFormed(p) && Sane(p) && 1 <= p.hops <= env.maxHops
  }

  /** What every parser's packet satisfies, given a valid identifier for the connection. */
  predicate SanePacket(p: Packet) { WellFormed(p) && ValidId(p.source) && p.mlat <= INT64_MAX && p.hops < TWO16 }

  lemma AirspyHitsSane(env: Env, s: seq<byte>, st: PState)
    requires Ready(st) && ValidId(env.id) && Hits(env, AIRSPY, s, st)
    ensures SanePacket(ParseAs(env, AIRSPY, Blank(env.id), s, st).packet)
  {
    Airspy.ParseByType(Blank(env.id), s, st);
    hide ValidId, RssiIn, ScaleIn, Advance, Hex.IsHex, Hex.IntOf, Airspy.Mhz, Airspy.Parse;
  }

  lemma RawHitsSane(env: Env, s: seq<byte>, st: PState)
    requires Ready(st) && ValidId(env.id) && Hits(env, RAW, s, st)
    ensures SanePacket(ParseAs(env, RAW, Blank(env.id), s, st).packet)
  {
    Raw.ParseByType(Blank(env.id), s, st);
    hide ValidId, Hex.IsHex, Raw.Parse;
  }

  lemma BinaryHitsSane(env: Env, s: seq<byte>, st: PState)
    requires Ready(st) && ValidId(env.id)
    ensures Hits(env, BEAST, s, st) ==> SanePacket(ParseAs(env, BEAST, Blank(env.id), s, st).packet)
    ensures Hits(env, PROTO, s, st) ==> SanePacket(ParseAs(env, PROTO, Blank(env.id), s, st).packet)
  {
    hide ValidId, RssiIn, ScaleIn, Advance, Beast.Unescape, Beast.ReadMlat, Unwrap;
  }

  lemma HitIsSane(env: Env, f: Fmt, s: seq<byte>, st: PState)
    requires Ready(st) && ValidId(env.id) && Hits(env, f, s, st)
    ensures var p := ParseAs(env, f, Blank(env.id), s, st).packet;
            WellFormed(p) && ValidId(p.source) && p.mlat <= INT64_MAX && p.hops < TWO16
  {
    hide ParseAs;
    match f
    case AIRSPY => AirspyHitsSane(env, s, st);
    case RAW => RawHitsSane(env, s, st);
    case _ => BinaryHitsSane(env, s, st);
  }

  lemma TakeIsDeliverable(env: Env, c: Conn, s: seq<byte>)
    requires Ready(c.state) && ValidId(env.id) && Take(env, c, s).Some?
    ensures forall p :: p in Forward(env, Take(env, c, s).value.0) ==> Deliverable(env, p)
  {
    hide ParseAs, ValidId, Len;
    HitIsSane(env, Chosen(env, c, s).value, s, c.state);
  }

  /** packet_sanity_check never fires on a packet the loop hands over, and its hop count is in range. */
  lemma {:induction false} DecodedAreDeliverable(env: Env, c: Conn, s: seq<byte>)
    requires Ready(c.state) && ValidId(env.id)
    ensures forall p :: p in Decode(env, c, s).out ==> Deliverable(env, p)
    decreases |s|
  {
    hide Take, Deliverable, Forward, ValidId, Decode, Clip;
    var t := Take(env, c, Clip(s));
    if t.None? {
      DecodeStuck(env, c, s);
    } else {
      DecodeTaken(env, c, s);
      TakeIsDeliverable(env, c, Clip(s));
      var (p, used, c') := t.value;
      DecodedAreDeliverable(env, c', s[used..]);
    }
  }

  /** What every delivered packet looks like. */
  lemma EveryPacket(env: Env, c: Conn, s: seq<byte>)
    requires Ready(c.state) && ValidId(env.id)
    ensures forall p :: p in Decode(env, c, s).out ==>
              && (p.typ, |p.payload|) in {(MODE_AC, 2), (MODE_S_SHORT, 7), (MODE_S_LONG, 14)}
              && p.mlat < 0x8000_0000_0000_0000 && 1 <= p.hops <= env.maxHops
              && exists n :: 0 <= n < |p.source| && n < 37 && p.source[n] == 0 &&
                             forall i :: 0 <= i < n ==> 32 <= p.source[i] <= 126
  {
    hide Decode;
    DecodedAreDeliverable(env, c, s);
  }
}
