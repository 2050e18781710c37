/** The binary formats as their documents describe them, byte by byte, and what the parsers and serializers make of
    them: protocols/beast.md and the record prefix of protocols/proto.md. */
module BinaryFormats {
  import opened Bytes
  import opened Packets
  import opened Mlat
  import opened Decoder
  import opened Beast
  import Airspy
  import BeastRelay
  import Proto
  import TextFormats
  import Translation

  // ---------------------------------------------------------------- beast

  /** Every 0x1a is sent twice. */
  function Doubled(x: seq<byte>): seq<byte> {
    if x == [] then [] else (if x[0] == 0x1A then [0x1A, 0x1A] else [x[0]]) + Doubled(x[1..])
  }

  /** The `n` low bytes of `v`, the highest first. */
  function BigEndian(v: nat, n: nat): (b: seq<byte>)
    ensures |b| == n
  {
    if n == 0 then [] else BigEndian(v / 0x100, n - 1) + [v % 0x100]
  }

  /** Mode A/C is frame type '1', Mode S short '2', Mode S long '3'. */
  function TypeChar(t: PacketType): byte
    requires t != NONE
  {
    match t
    case MODE_AC => 0x31
    case MODE_S_SHORT => 0x32
    case MODE_S_LONG => 0x33
  }

  /** The fields of a frame: a counter of 48 bits, a level, 2, 7 or 14 bytes of data. */
  predicate Fields(w: Wire) {
    && w.stamp <= 0xFFFF_FFFF_FFFF
    && match w.typ
       case NONE => false
       case MODE_AC => |w.payload| == 2
       case MODE_S_SHORT => |w.payload| == 7
       case MODE_S_LONG => |w.payload| == 14
  }

  function FrameBytes(w: Wire): seq<byte>
    requires Fields(w)
  {
    [0x1A, TypeChar(w.typ)] + Doubled(BigEndian(w.stamp, 6) + [w.level] + w.payload)
  }

  lemma {:induction false} DoubledIsEscaped(x: seq<byte>)
    ensures EscapeTail(x) == Doubled(x)
  {
    if x != [] { DoubledIsEscaped(x[1..]); }
  }

  lemma SixBytes(v: uint64)
    ensures WriteMlat(v) == BigEndian(v, 6)
  {
    var v1 := v / 0x100;
    var v2 := v1 / 0x100;
    var v3 := v2 / 0x100;
    var v4 := v3 / 0x100;
    var v5 := v4 / 0x100;
    assert v2 == v / 0x1_0000 && v3 == v / 0x100_0000 && v4 == v / 0x1_0000_0000 && v5 == v / 0x100_0000_0000;
    assert BigEndian(v4, 2) == [v5 % 0x100, v4 % 0x100] by { assert BigEndian(v5, 1) == [v5 % 0x100]; }
    assert BigEndian(v2, 4) == [v5 % 0x100, v4 % 0x100, v3 % 0x100, v2 % 0x100];
  }

  /** The frames this format writes are those of the document. */
  lemma FrameIs(w: Wire)
    requires Fields(w)
    ensures IsWire(w) && WireFrame(w) == FrameBytes(w)
  {
    hide WriteMlat, BigEndian, EscapeTail, Doubled;
    SixBytes(w.stamp);
    var tail := BigEndian(w.stamp, 6) + [w.level] + w.payload;
    assert Plain(w)[1..] == [TypeChar(w.typ)] + tail;
    DoubledIsEscaped([TypeChar(w.typ)] + tail);
    DoubledCons(TypeChar(w.typ), tail);
  }

  lemma DoubledCons(c: byte, x: seq<byte>)
    requires c != 0x1A
    ensures Doubled([c] + x) == [c] + Doubled(x)
  {
    assert ([c] + x)[1..] == x;
  }

  /** A frame read: the counter runs at 12 MHz, the level is a 255th of full scale. */
  function Read(w: Wire, c: Clock, hops: uint32, id: seq<byte>): Packet {
    Packet(w.typ, hops, w.payload, ScaleIn(c, w.stamp, 0xFFFF_FFFF_FFFF, 12), 0x101_0101 * w.level, id)
  }

  lemma LevelUp(v: byte)
    ensures RssiIn(v, 0xFF) == 0x101_0101 * v
  {}

  /** A frame is read for what it says, whatever follows, and taken whole. */
  lemma FrameReads(id: seq<byte>, w: Wire, rest: seq<byte>, st: PState)
    requires Fields(w)
    ensures Beast.Parse(Blank(id), FrameBytes(w) + rest, st) ==
            Hit(Read(w, st.clock, 0, id), |FrameBytes(w)|,
                st.(clock := Advance(st.clock, w.stamp, 0xFFFF_FFFF_FFFF)))
  {
    hide FrameBytes, WireFrame, Beast.Parse, ScaleIn, RssiIn, Advance;
    FrameIs(w);
    LevelUp(w.level);
    WireReads(Blank(id), w, rest, st);
  }

  ghost predicate IsFrame(s: seq<byte>) { exists w :: Fields(w) && s == FrameBytes(w) }

  /** A big-endian number, byte by byte. */
  function Horner(b: seq<byte>): nat { if b == [] then 0 else Horner(b[..|b| - 1]) * 0x100 + b[|b| - 1] }

  lemma {:induction false} BigEndianOf(b: seq<byte>)
    ensures BigEndian(Horner(b), |b|) == b
  {
    if b != [] {
      hide BigEndian;
      BigEndianOf(b[..|b| - 1]);
      LastByte(Horner(b[..|b| - 1]), b[|b| - 1], |b|);
    }
  }

  lemma ReadIsHorner(b: seq<byte>)
    requires |b| == 6
    ensures ReadMlat(b) == Horner(b)
  {
    assert Horner(b[..1]) == b[0];
    assert b[..2][..1] == b[..1] && b[..3][..2] == b[..2] && b[..4][..3] == b[..3] && b[..5][..4] == b[..4];
    assert Horner(b[..2]) == Horner(b[..1]) * 0x100 + b[1];
    assert Horner(b[..3]) == Horner(b[..2]) * 0x100 + b[2];
    assert Horner(b[..4]) == Horner(b[..3]) * 0x100 + b[3];
    assert Horner(b[..5]) == Horner(b[..4]) * 0x100 + b[4];
  }

  /** Six bytes are the big-endian text of the number they are read as. */
  lemma ReadBack(b: seq<byte>)
    requires |b| == 6
    ensures WriteMlat(ReadMlat(b)) == b
  {
    hide WriteMlat, ReadMlat, BigEndian, Horner;
    SixBytes(ReadMlat(b));
    ReadIsHorner(b);
    BigEndianOf(b);
  }

  lemma LastByte(v: nat, c: byte, n: nat)
    requires n > 0
    ensures BigEndian(v * 0x100 + c, n) == BigEndian(v, n - 1) + [c]
  {
    assert (v * 0x100 + c) / 0x100 == v && (v * 0x100 + c) % 0x100 == c;
  }

  /** And nothing else is: the parser accepts exactly the frames. */
  lemma HitIff(id: seq<byte>, s: seq<byte>, st: PState, u: nat)
    ensures (Beast.Parse(Blank(id), s, st).Hit? && Beast.Parse(Blank(id), s, st).used == u) <==>
            u <= |s| && IsFrame(s[..u])
  {
    hide Beast.Parse, Fields, FrameBytes;
    if u <= |s| && IsFrame(s[..u]) {
      var w :| Fields(w) && s[..u] == FrameBytes(w);
      assert s == FrameBytes(w) + s[u..];
      FrameReads(id, w, s[u..], st);
    }
    if Beast.Parse(Blank(id), s, st).Hit? {
      HitIsFrame(id, s, st);
    }
  }

  lemma HitIsFrame(id: seq<byte>, s: seq<byte>, st: PState)
    requires Beast.Parse(Blank(id), s, st).Hit?
    ensures var u := Beast.Parse(Blank(id), s, st).used; u <= |s| && IsFrame(s[..u])
  {
    var t, raw := HitText(id, s, st);
    hide Beast.Parse, Escape, Fields, FrameBytes, ReadMlat, WriteMlat;
    var w := WireFromText(t, raw);
    FrameIs(w);
  }

  /** The text behind the frame that was read. */
  lemma HitText(id: seq<byte>, s: seq<byte>, st: PState) returns (t: PacketType, raw: seq<byte>)
    requires Beast.Parse(Blank(id), s, st).Hit?
    ensures t != NONE && |raw| == OVERLAY + Len(t) && raw[0] == ESC && raw[1] == TypeByte(t)
    ensures var u := Beast.Parse(Blank(id), s, st).used; u <= |s| && s[..u] == Escape(raw)
  {
    hide Unescape, ReadMlat, ScaleIn, RssiIn, Advance, Escape;
    t := if s[1] == 0x31 then MODE_AC else if s[1] == 0x32 then MODE_S_SHORT else MODE_S_LONG;
    var r := Unescape(s, OVERLAY + Len(t)).value;
    raw := r.0;
    UnescapeIff(s, OVERLAY + Len(t), raw, r.1);
    SecondByte(s, raw, r.1);
  }

  lemma WireFromText(t: PacketType, raw: seq<byte>) returns (w: Wire)
    requires t != NONE && |raw| == OVERLAY + Len(t) && raw[0] == ESC && raw[1] == TypeByte(t)
    ensures Fields(w) && Plain(w) == raw
  {
    hide ReadMlat, WriteMlat;
    w := Wire(t, ReadMlat(raw[2..8]), raw[8], raw[OVERLAY..]);
    ReadBack(raw[2..8]);
    assert raw == [raw[0], raw[1]] + raw[2..8] + [raw[8]] + raw[OVERLAY..];
  }

  /** A type byte is no escape, so it stands in the text where it stands in the frame. */
  lemma SecondByte(s: seq<byte>, raw: seq<byte>, u: nat)
    requires |raw| >= 2 && u <= |s| && u == |Escape(raw)| && s[..u] == Escape(raw) && |s| >= 2 && s[1] != ESC
    ensures raw[0] == s[0] && raw[1] == s[1]
  {
    assert EscapeTail(raw[1..])[0] == raw[1];
    assert s[..u][1] == s[1];
  }

  function Stream(ws: seq<Wire>): seq<byte>
    requires AllFields(ws)
  {
    if ws == [] then [] else FrameBytes(ws[0]) + Stream(ws[1..])
  }

  predicate AllFields(ws: seq<Wire>) { forall i :: 0 <= i < |ws| ==> Fields(ws[i]) }

  lemma {:induction false} StreamIs(ws: seq<Wire>)
    requires AllFields(ws)
    ensures BeastRelay.Wires(ws) && BeastRelay.Stream(ws) == Stream(ws)
  {
    hide FrameBytes, WireFrame, Fields;
    if ws != [] {
      FrameIs(ws[0]);
      StreamIs(ws[1..]);
      forall k | 0 <= k < |ws| ensures IsWire(ws[k]) { FrameIs(ws[k]); }
    }
  }

  /** A stream of such frames is delivered whole: types, data, levels, and times that are readings of one 12 MHz
      counter. */
  lemma StreamDecodes(env: Proto.Env, ws: seq<Wire>, k: nat)
    requires AllFields(ws) && env.maxHops >= 1 && k < |ws|
    ensures var out := Decode(env, START, Stream(ws)).out;
            && |out| == |ws|
            && out[k] == Packet(ws[k].typ, 1, ws[k].payload,
                                Reading(ZERO, BeastRelay.Stamps(ws), 0xFFFF_FFFF_FFFF, 12, k),
                                0x101_0101 * ws[k].level, env.id)
  {
    hide Decode, Reading, RssiIn, BeastRelay.Wires;
    StreamIs(ws);
    BeastRelay.StreamDecodes(env, START, ws);
    DeliveredAt(env, ZERO, ws, k);
    LevelUp(ws[k].level);
  }

  lemma {:induction false} DeliveredAt(env: Proto.Env, c: Clock, ws: seq<Wire>, k: nat)
    requires k < |ws|
    ensures var out := BeastRelay.AllDelivered(env, c, ws);
            && |out| == |ws|
            && out[k] == BeastRelay.Delivered(env, c, ws[k]).(mlat := Reading(c, BeastRelay.Stamps(ws), MAX48, MHZ, k))
    decreases |ws|
  {
    hide ScaleIn, RssiIn, Advance;
    var c' := Advance(c, ws[0].stamp, MAX48);
    if k > 0 {
      DeliveredAt(env, c', ws[1..], k - 1);
      assert BeastRelay.Stamps(ws)[1..] == BeastRelay.Stamps(ws[1..]);
      Translation.ReadingShifts(c, BeastRelay.Stamps(ws), MAX48, MHZ, k);
    } else {
      DeliveredLength(env, c', ws[1..]);
    }
  }

  lemma {:induction false} DeliveredLength(env: Proto.Env, c: Clock, ws: seq<Wire>)
    ensures |BeastRelay.AllDelivered(env, c, ws)| == |ws|
    decreases |ws|
  {
    if ws != [] { DeliveredLength(env, Advance(c, ws[0].stamp, MAX48), ws[1..]); }
  }

  /** What is written is such a frame: the time in ticks of 12 MHz, the level in 255ths, an unknown one as 255. */
  lemma Writes(p: Packet)
    requires WellFormed(p) && p.typ != NONE
    ensures var w := Wire(p.typ, ScaleOut(p.mlat, 0xFFFF_FFFF_FFFF, 12),
                          if p.rssi == 0 then 255 else p.rssi / 0x101_0101, p.payload);
            Fields(w) && Beast.Frame(p) == FrameBytes(w)
  {
    hide FrameBytes, WireFrame, ScaleOut;
    FrameIs(Wire(p.typ, ScaleOut(p.mlat, 0xFFFF_FFFF_FFFF, 12), RssiByte(p.rssi), p.payload));
  }

  // ---------------------------------------------------------------- from one format to another

  /** A frame read from a beast stream and sent as airspy: the same data, the level on the wider scale, and the same
      instant on a counter of 20 MHz, rounded down to its tick and wrapped at its width. */
  lemma BeastToAirspy(env: Proto.Env, ws: seq<Wire>, k: nat, t: nat)
    requires AllFields(ws) && env.maxHops >= 1 && k < |ws|
    requires var u := Unwrapped(BeastRelay.Stamps(ws), 0xFFFF_FFFF_FFFF, k);
             10 * u < INT64_MAX && 12 * t <= 20 * u < 12 * (t + 1)
    ensures var out := Decode(env, START, Stream(ws)).out;
            |out| == |ws| &&
            var l := TextFormats.WrittenLine(out[k]);
            && Airspy.Frame(out[k]) == TextFormats.AirspyBytes(l) && TextFormats.GoodAirspy(l)
            && TextFormats.Spelled(l.text) == ws[k].payload
            && TextFormats.Number(l.stamp) == t % 0xFFFF_FFFF && TextFormats.Number(l.precision) == 10
            && TextFormats.Number(l.level) == 0x101 * ws[k].level
  {
    hide Decode, Reading, Unwrapped, TextFormats.HexText, TextFormats.Number, TextFormats.Spelled, ScaleOut, Stream,
      TextFormats.AirspyBytes, TextFormats.UpperText, TextFormats.Kind, Airspy.Frame, Within;
    StreamDecodes(env, ws, k);
    var p := Decode(env, START, Stream(ws)).out[k];
    WordOfByte(ws[k].level);
    assert Fields(ws[k]);
    TextFormats.AirspyWrites(p);
    StampsWithin(ws);
    SameInstant(BeastRelay.Stamps(ws), 0xFFFF_FFFF_FFFF, 12, k, 0xFFFF_FFFF, 20, t);
  }

  lemma WordOfByte(v: byte)
    ensures (0x101_0101 * v) / 0x1_0001 == 0x101 * v
  {}

  lemma StampsWithin(ws: seq<Wire>)
    requires AllFields(ws)
    ensures Within(BeastRelay.Stamps(ws), 0xFFFF_FFFF_FFFF)
  {
    forall i | 0 <= i < |ws| ensures BeastRelay.Stamps(ws)[i] <= 0xFFFF_FFFF_FFFF { assert Fields(ws[i]); }
  }

  /** The example of protocols/beast.md: counter 9063047285610, level 26, both with an escape to undo. */
  lemma FrameExample(id: seq<byte>, rest: seq<byte>, st: PState)
    ensures Beast.Parse(Blank(id), EXAMPLE_BYTES + rest, st) ==
            Hit(Packet(MODE_S_SHORT, 0, [0x00, 0xA1, 0x84, 0x1A, 0xC3, 0xB3, 0x1D],
                       ScaleIn(st.clock, 9063047285610, 0xFFFF_FFFF_FFFF, 12), 0x101_0101 * 26, id),
                18, st.(clock := Advance(st.clock, 9063047285610, 0xFFFF_FFFF_FFFF)))
  {
    ExampleFrame();
    hide FrameBytes, ScaleIn, Advance, Beast.Parse;
    FrameReads(id, EXAMPLE, rest, st);
  }

  const EXAMPLE := Wire(MODE_S_SHORT, 9063047285610, 26, [0x00, 0xA1, 0x84, 0x1A, 0xC3, 0xB3, 0x1D])

  const EXAMPLE_BYTES: seq<byte> :=
    [0x1A, 0x32] + [0x08, 0x3E, 0x27, 0xB6, 0xCB, 0x6A] + [0x1A, 0x1A] + [0x00, 0xA1, 0x84] + [0x1A, 0x1A] +
    [0xC3, 0xB3, 0x1D]

  lemma ExampleFrame()
    ensures Fields(EXAMPLE) && FrameBytes(EXAMPLE) == EXAMPLE_BYTES
  {
    var a: seq<byte>, p: seq<byte>, q: seq<byte> :=
      [0x08, 0x3E, 0x27, 0xB6, 0xCB, 0x6A], [0x00, 0xA1, 0x84], [0xC3, 0xB3, 0x1D];
    ExampleStamp();
    assert EXAMPLE.payload == p + ([0x1A] + q);
    TwoEscapes(a, p, q);
    hide BigEndian, Doubled;
    assert BigEndian(EXAMPLE.stamp, 6) + [EXAMPLE.level] + EXAMPLE.payload == a + ([0x1A] + (p + ([0x1A] + q)));
    assert [0x1A, 0x32] + (a + ([0x1A, 0x1A] + (p + ([0x1A, 0x1A] + q)))) == EXAMPLE_BYTES;
  }

  lemma TwoEscapes(a: seq<byte>, p: seq<byte>, q: seq<byte>)
    requires 0x1A !in a && 0x1A !in p && 0x1A !in q
    ensures Doubled(a + ([0x1A] + (p + ([0x1A] + q)))) == a + ([0x1A, 0x1A] + (p + ([0x1A, 0x1A] + q)))
  {
    assert q + [] == q && Doubled([]) == [];
    hide Doubled;
    DoubledPlain(q, []);
    DoubledEscape(q);
    DoubledPlain(p, [0x1A] + q);
    DoubledEscape(p + ([0x1A] + q));
    DoubledPlain(a, [0x1A] + (p + ([0x1A] + q)));
  }

  lemma ExampleStamp()
    ensures BigEndian(9063047285610, 6) == [0x08, 0x3E, 0x27, 0xB6, 0xCB, 0x6A]
  {
    hide BigEndian;
    LastByte(0x083E27B6CB, 0x6A, 6);
    LastByte(0x083E27B6, 0xCB, 5);
    LastByte(0x083E27, 0xB6, 4);
    LastByte(0x083E, 0x27, 3);
    LastByte(0x08, 0x3E, 2);
    LastByte(0, 0x08, 1);
    assert BigEndian(0, 0) == [];
  }

  lemma {:induction false} DoubledPlain(x: seq<byte>, y: seq<byte>)
    requires 0x1A !in x
    ensures Doubled(x + y) == x + Doubled(y)
  {
    if x == [] {
      assert x + y == y;
    } else {
      assert x + y == [x[0]] + (x[1..] + y);
      DoubledCons(x[0], x[1..] + y);
      DoubledPlain(x[1..], y);
    }
  }

  lemma DoubledEscape(y: seq<byte>)
    ensures Doubled([0x1A] + y) == [0x1A, 0x1A] + Doubled(y)
  {
    assert ([0x1A] + y)[1..] == y;
  }

  // ---------------------------------------------------------------- proto records

  /** The prefix of a record: field 1, length-delimited, and the length in groups of seven bits, the low ones first. */
  lemma RecordPrefix(body: seq<byte>)
    ensures |body| < 0x80 ==> Proto.Record(body) == [0x0A, |body|] + body
    ensures 0x80 <= |body| < 0x4000 ==>
              Proto.Record(body) == [0x0A, 0x80 + |body| % 0x80, |body| / 0x80] + body
  {
    var n := |body|;
    if 0x80 <= n < 0x4000 {
      assert n / 0x80 < 0x80;
      assert Proto.EncodeVarint(n) == [0x80 + n % 0x80] + [n / 0x80];
    }
  }
}
