/** The text formats as their documents describe them, byte by byte, and what the parsers and serializers make of
    them: protocols/raw.md and protocols/airspy_adsb.md. */
module TextFormats {
  import opened Bytes
  import opened Packets
  import opened Mlat
  import opened TextFrames
  import Proto
  import opened Decoder
  import Hex
  import Raw
  import Airspy
  import Beast

  // ---------------------------------------------------------------- hexadecimal text

  /** The value of a hexadecimal digit, in either case. */
  function Digit(c: byte): Option<nat> {
    if '0' as int <= c <= '9' as int then Some(c - '0' as int)
    else if 'A' as int <= c <= 'F' as int then Some(10 + c - 'A' as int)
    else if 'a' as int <= c <= 'f' as int then Some(10 + c - 'a' as int)
    else None
  }

  predicate HexText(s: seq<byte>) { forall i :: 0 <= i < |s| ==> Digit(s[i]).Some? }

  /** Two digits a byte, the high one first. */
  function Spelled(s: seq<byte>): (b: seq<byte>)
    requires HexText(s)
    ensures |b| == |s| / 2
  {
    seq(|s| / 2, i requires 0 <= i < |s| / 2 => SpelledAt(s, i))
  }

  function SpelledAt(s: seq<byte>, i: nat): byte
    requires HexText(s) && 2 * i + 1 < |s|
  {
    assert Digit(s[2 * i]).value < 16 && Digit(s[2 * i + 1]).value < 16;
    16 * Digit(s[2 * i]).value + Digit(s[2 * i + 1]).value
  }

  function Weight(c: byte, n: nat): nat
    requires Digit(c).Some?
  {
    Digit(c).value * Hex.Pow16(n)
  }

  /** The first digit weighs most. */
  function Number(s: seq<byte>): nat
    requires HexText(s)
  {
    if s == [] then 0 else Weight(s[0], |s| - 1) + Number(s[1..])
  }

  lemma SameDigit(c: byte)
    ensures Hex.IsDigit(c) <==> Digit(c).Some?
    ensures Hex.IsDigit(c) ==> Hex.Val(c) == Digit(c).value < 16
  {}

  lemma SameText(s: seq<byte>)
    ensures Hex.IsHex(s) <==> HexText(s)
  {
    forall i | 0 <= i < |s| ensures Hex.IsDigit(s[i]) <==> Digit(s[i]).Some? { SameDigit(s[i]); }
  }

  /** hex_to_bin reads what is spelled. */
  lemma BinIsSpelled(s: seq<byte>)
    requires Hex.IsHex(s) && |s| % 2 == 0
    ensures HexText(s) && Hex.Bin(s) == Spelled(s)
  {
    SameText(s);
    forall i | 0 <= i < |s| / 2 ensures Hex.Bin(s)[i] == Spelled(s)[i] {
      SameDigit(s[2 * i]);
      SameDigit(s[2 * i + 1]);
    }
  }

  lemma Distribute(v: nat, p: nat, n: nat)
    ensures 16 * (v * p + n) == v * (16 * p) + 16 * n
  {}

  lemma {:induction false} NumFromFront(s: seq<byte>)
    requires Hex.IsHex(s) && s != []
    ensures Hex.Num(s) == Hex.Val(s[0]) * Hex.Pow16(|s| - 1) + Hex.Num(s[1..])
  {
    hide Hex.Val;
    if |s| > 1 {
      var front := s[..|s| - 1];
      NumFromFront(front);
      assert s[1..][..|s| - 2] == front[1..];
      Distribute(Hex.Val(s[0]), Hex.Pow16(|s| - 2), Hex.Num(front[1..]));
    }
  }

  lemma {:induction false} NumIsNumber(s: seq<byte>)
    requires Hex.IsHex(s)
    ensures HexText(s) && Hex.Num(s) == Number(s)
  {
    SameText(s);
    if s != [] {
      NumFromFront(s);
      SameDigit(s[0]);
      NumIsNumber(s[1..]);
    }
  }

  /** hex_to_int reads the number spelled. */
  lemma IntIsNumber(s: seq<byte>)
    requires HexText(s) && |s| <= 8
    ensures Hex.IntOf(s) == Number(s)
  {
    SameText(s);
    NumIsNumber(s);
    Hex.IntOfShort(s);
  }

  /** The payload type by how many digits spell it: 2, 7 or 14 bytes. */
  function Kind(digits: nat): PacketType {
    if digits == 4 then MODE_AC else if digits == 14 then MODE_S_SHORT else if digits == 28 then MODE_S_LONG else NONE
  }

  predicate PayloadText(text: seq<byte>) { HexText(text) && Kind(|text|) != NONE }

  function LineEnd(cr: bool): seq<byte> { if cr then [0x0D, 0x0A] else [0x0A] }

  lemma KindLength(t: PacketType)
    requires t != NONE
    ensures Kind(2 * Len(t)) == t
  {}

  lemma HeadIs(digits: nat)
    requires Kind(digits) != NONE
    ensures Head(Kind(digits)) == 1 + digits
  {}

  /** Text without lower-case digits. */
  predicate UpperText(s: seq<byte>) {
    forall i :: 0 <= i < |s| ==> '0' as int <= s[i] <= '9' as int || 'A' as int <= s[i] <= 'F' as int
  }

  lemma {:induction false} UpperNumber(v: nat, n: nat)
    ensures UpperText(Hex.IntText(v, n))
  {
    if n > 0 { UpperNumber(v / 16, n - 1); }
  }

  lemma WrittenNumber(v: nat, n: nat)
    ensures var s := Hex.IntText(v, n); UpperText(s) && HexText(s) && Number(s) == v % Hex.Pow16(n)
  {
    UpperNumber(v, n);
    SameText(Hex.IntText(v, n));
    NumIsNumber(Hex.IntText(v, n));
    Hex.IntTextRoundTrip(v, n);
  }

  lemma WrittenPayload(p: Packet)
    requires WellFormed(p) && p.typ != NONE
    ensures var s := Hex.Text(p.payload, true);
            UpperText(s) && PayloadText(s) && Kind(|s|) == p.typ && Spelled(s) == p.payload
  {
    var s := Hex.Text(p.payload, true);
    SameText(s);
    BinIsSpelled(s);
    Hex.TextRoundTrip(p.payload, true);
    KindLength(p.typ);
  }

  // ---------------------------------------------------------------- raw

  /** *text; and a line feed, with or without a carriage return before it. */
  datatype RawLine = RawLine(text: seq<byte>, cr: bool)

  predicate GoodRaw(l: RawLine) { PayloadText(l.text) }

  function RawBytes(l: RawLine): seq<byte> { [0x2A] + l.text + [0x3B] + LineEnd(l.cr) }

  function RawPacket(l: RawLine, hops: uint32, id: seq<byte>): Packet
    requires GoodRaw(l)
  {
    Packet(Kind(|l.text|), hops, Spelled(l.text), 0, 0, id)
  }

  /** A line is read for what it says, whatever follows, and taken whole. */
  lemma RawLineReads(id: seq<byte>, l: RawLine, rest: seq<byte>, st: PState)
    requires GoodRaw(l)
    ensures Raw.Parse(Blank(id), RawBytes(l) + rest, st) == Hit(RawPacket(l, 0, id), |RawBytes(l)|, st)
  {
    var s, t := RawBytes(l) + rest, Kind(|l.text|);
    assert Head(t) == 1 + |l.text|;
    assert s[1..Head(t)] == l.text;
    SameText(l.text);
    BinIsSpelled(l.text);
    hide Hex.IsHex, Hex.Bin, HexText, Raw.Parse, Spelled;
    Raw.ParseByType(Blank(id), s, st);
    assert Raw.Accepted(s, t);
  }

  ghost predicate IsRawLine(s: seq<byte>) { exists l :: GoodRaw(l) && s == RawBytes(l) }

  /** And nothing else is: the parser accepts exactly the lines. */
  lemma RawHitIff(id: seq<byte>, s: seq<byte>, st: PState, u: nat)
    ensures (Raw.Parse(Blank(id), s, st).Hit? && Raw.Parse(Blank(id), s, st).used == u) <==>
            u <= |s| && IsRawLine(s[..u])
  {
    if u <= |s| && IsRawLine(s[..u]) {
      var l :| GoodRaw(l) && s[..u] == RawBytes(l);
      assert RawBytes(l) + s[u..] == s;
      RawLineReads(id, l, s[u..], st);
    }
    if Raw.Parse(Blank(id), s, st).Hit? {
      Raw.ParseByType(Blank(id), s, st);
      var t :| t in {MODE_AC, MODE_S_SHORT, MODE_S_LONG} && Raw.Accepted(s, t);
      RawLineOf(s, t);
    }
  }

  lemma RawLineOf(s: seq<byte>, t: PacketType)
    requires t != NONE && Raw.Accepted(s, t)
    ensures IsRawLine(s[..PastLineEnd(s, Head(t) + 1)])
  {
    var o := Head(t);
    var l := RawLine(s[1..o], s[o + 1] == CR);
    SameText(l.text);
    KindLength(t);
    var n := PastLineEnd(s, o + 1);
    assert s[..n] == RawBytes(l);
    assert GoodRaw(l);
  }

  /** What is written is such a line, in upper case and with a line feed alone. */
  lemma RawWrites(p: Packet)
    requires WellFormed(p) && p.typ != NONE
    ensures var l := RawLine(Hex.Text(p.payload, true), false);
            Raw.Frame(p) == RawBytes(l) && GoodRaw(l) && UpperText(l.text) && Kind(|l.text|) == p.typ &&
            Spelled(l.text) == p.payload
  {
    WrittenPayload(p);
    hide HexText, UpperText, Hex.Text, Spelled, Kind;
  }

  function RawStream(ls: seq<RawLine>): seq<byte> {
    if ls == [] then [] else RawBytes(ls[0]) + RawStream(ls[1..])
  }

  predicate AllGoodRaw(ls: seq<RawLine>) { forall i :: 0 <= i < |ls| ==> GoodRaw(ls[i]) }

  function RawPackets(ls: seq<RawLine>, id: seq<byte>): seq<Packet>
    requires AllGoodRaw(ls)
  {
    if ls == [] then [] else [RawPacket(ls[0], 1, id)] + RawPackets(ls[1..], id)
  }

  lemma RawTaken(env: Proto.Env, c: Conn, l: RawLine, rest: seq<byte>)
    requires GoodRaw(l) && Ready(c.state) && (c.mode == Detect || c.mode == Use(Fmt.RAW))
    ensures Take(env, c, Clip(RawBytes(l) + rest)) ==
            Some((RawPacket(l, 0, env.id), |RawBytes(l)|, Conn(Use(Fmt.RAW), c.state)))
  {
    assert |RawBytes(l)| <= 32;
    hide RawBytes, RawPacket, GoodRaw, Raw.Parse, Airspy.Parse, Beast.Parse, Proto.Parse;
    var s := Clip(RawBytes(l) + rest);
    var y := s[|RawBytes(l)|..];
    assert s == RawBytes(l) + y;
    RawLineReads(env.id, l, y, c.state);
    assert Hits(env, Fmt.RAW, s, c.state);
    forall g | Hits(env, g, s, c.state) ensures g == Fmt.RAW {
      Unambiguous(env, Fmt.RAW, g, s, c.state, c.state);
    }
  }

  /** A stream of lines, each ended in either way, is detected and delivered whole. */
  lemma {:induction false} RawStreamDecodes(env: Proto.Env, c: Conn, ls: seq<RawLine>)
    requires AllGoodRaw(ls) && env.maxHops >= 1 && Ready(c.state) && (c.mode == Detect || c.mode == Use(Fmt.RAW))
    ensures var r := Decode(env, c, RawStream(ls)); r.out == RawPackets(ls, env.id) && r.rest == []
    decreases |ls|
  {
    hide Decode, Take, Clip, RawBytes, GoodRaw;
    if ls == [] {
      NothingOnEmpty(env, c);
      assert Clip([]) == [] by { ClipBound([]); }
      DecodeStuck(env, c, []);
    } else {
      var l, rest := ls[0], RawStream(ls[1..]);
      assert GoodRaw(l);
      RawTaken(env, c, l, rest);
      DecodeTaken(env, c, RawBytes(l) + rest);
      assert (RawBytes(l) + rest)[|RawBytes(l)|..] == rest;
      RawStreamDecodes(env, Conn(Use(Fmt.RAW), c.state), ls[1..]);
      assert Forward(env, RawPacket(l, 0, env.id)) == [RawPacket(l, 1, env.id)] by { assert GoodRaw(l); RawKind(l); }
    }
  }

  lemma RawKind(l: RawLine)
    requires GoodRaw(l)
    ensures Kind(|l.text|) != NONE
  {}

  // ---------------------------------------------------------------- airspy

  /** *text;stamp;precision;level; and the end of the line: four numbers, of eight, two and four digits. */
  datatype AirspyLine = AirspyLine(text: seq<byte>, stamp: seq<byte>, precision: seq<byte>, level: seq<byte>, cr: bool)

  predicate AirspyShape(l: AirspyLine) {
    PayloadText(l.text) && |l.stamp| == 8 && |l.precision| == 2 && |l.level| == 4
  }

  predicate GoodAirspy(l: AirspyLine) {
    AirspyShape(l) && HexText(l.stamp) && HexText(l.precision) && Number(l.precision) > 0 && HexText(l.level)
  }

  function AirspyBytes(l: AirspyLine): seq<byte> {
    [0x2A] + l.text + [0x3B] + l.stamp + [0x3B] + l.precision + [0x3B] + l.level + [0x3B] + LineEnd(l.cr)
  }

  lemma {:induction false} NumberBound(s: seq<byte>)
    requires HexText(s)
    ensures Number(s) < Hex.Pow16(|s|)
  {
    SameText(s);
    NumIsNumber(s);
    Hex.NumBound(s);
  }

  lemma AirspyNumbers(l: AirspyLine)
    requires GoodAirspy(l)
    ensures Number(l.stamp) < TWO32 && 0 < Number(l.precision) < 0x100 && Number(l.level) < TWO16
  {
    NumberBound(l.stamp);
    NumberBound(l.precision);
    NumberBound(l.level);
    assert Hex.Pow16(2) == 0x100 && Hex.Pow16(4) == 0x1_0000 && Hex.Pow16(8) == 0x1_0000_0000;
  }

  /** The counter runs at twice the precision, in MHz; the level is a 65535th of full scale. */
  function AirspyPacket(l: AirspyLine, c: Clock, hops: uint32, id: seq<byte>): Packet
    requires GoodAirspy(l)
  {
    AirspyNumbers(l);
    Packet(Kind(|l.text|), hops, Spelled(l.text),
           ScaleIn(c, Number(l.stamp), UINT32_MAX, 2 * Number(l.precision)), 0x1_0001 * Number(l.level), id)
  }

  function AirspyClock(l: AirspyLine, c: Clock): Clock
    requires GoodAirspy(l)
  {
    AirspyNumbers(l);
    Advance(c, Number(l.stamp), UINT32_MAX)
  }

  lemma AirspyFields(l: AirspyLine, rest: seq<byte>)
    requires AirspyShape(l)
    ensures var s, t := AirspyBytes(l) + rest, Kind(|l.text|);
            var o := Head(t);
            && o == 1 + |l.text| && Airspy.Framed(s, t) && s[1..o] == l.text
            && s[o + 1..o + 9] == l.stamp && s[o + 10..o + 12] == l.precision && s[o + 13..o + 17] == l.level
            && PastLineEnd(s, o + 18) == |AirspyBytes(l)|
  {
    HeadIs(|l.text|);
    hide HexText, Number, Head, Kind;
    var s := AirspyBytes(l) + rest;
    var a := [0x2A] + l.text;
    var b := a + [0x3B] + l.stamp;
    var c := b + [0x3B] + l.precision;
    var d := c + [0x3B] + l.level;
    assert s[..|AirspyBytes(l)|] == d + [0x3B] + LineEnd(l.cr);
    Peel(d + [0x3B], LineEnd(l.cr), s);
    Peel(d, [0x3B], s);
    Peel(c + [0x3B], l.level, s);
    Peel(c, [0x3B], s);
    Peel(b + [0x3B], l.precision, s);
    Peel(b, [0x3B], s);
    Peel(a + [0x3B], l.stamp, s);
    Peel(a, [0x3B], s);
    Peel([0x2A], l.text, s);
    At(s, 0);
    At(s, |a|);
    At(s, |b|);
    At(s, |c|);
    At(s, |d|);
    AtEnd(s, |d| + 1, l.cr);
  }

  /** The last piece off a text that `s` begins with. */
  lemma Peel(front: seq<byte>, x: seq<byte>, s: seq<byte>)
    requires |front| + |x| <= |s| && s[..|front| + |x|] == front + x
    ensures s[..|front|] == front && s[|front|..|front| + |x|] == x
  {
    assert s[..|front| + |x|][..|front|] == s[..|front|];
    assert s[..|front| + |x|][|front|..] == s[|front|..|front| + |x|];
  }

  lemma At(s: seq<byte>, i: nat)
    requires i < |s|
    ensures s[i..i + 1] == [s[i]]
  {}

  lemma AtEnd(s: seq<byte>, i: nat, cr: bool)
    requires i + |LineEnd(cr)| <= |s| && s[i..i + |LineEnd(cr)|] == LineEnd(cr)
    ensures LineEndAt(s, i) && PastLineEnd(s, i) == i + |LineEnd(cr)|
  {
    assert s[i] == s[i..i + |LineEnd(cr)|][0];
    if cr { assert s[i + 1] == s[i..i + 2][1]; }
  }

  lemma LevelUp(v: nat)
    requires v < TWO16
    ensures RssiIn(v % TWO32, UINT16_MAX) == 0x1_0001 * v
  {}

  /** The parser's numbers are those of the line. */
  lemma AirspyNumbersRead(l: AirspyLine, s: seq<byte>, t: PacketType)
    requires GoodAirspy(l) && Airspy.Framed(s, t)
    requires var o := Head(t);
             s[o + 1..o + 9] == l.stamp && s[o + 10..o + 12] == l.precision && s[o + 13..o + 17] == l.level
    ensures Airspy.Stamp(s, t) == Number(l.stamp) && Airspy.Mhz(s, t) == 2 * Number(l.precision)
    ensures Hex.IntOf(s[Head(t) + 13..Head(t) + 17]) == Number(l.level)
  {
    hide Airspy.Framed, Number, HexText, Hex.IntOf, Head, PayloadText;
    AirspyNumbers(l);
    IntIsNumber(l.stamp);
    IntIsNumber(l.precision);
    IntIsNumber(l.level);
    TwiceSmall(Number(l.precision));
  }

  lemma TwiceSmall(v: nat)
    requires v < 0x100
    ensures 2 * (v % TWO16) % TWO16 == 2 * v
  {}

  lemma PayloadRead(text: seq<byte>)
    requires PayloadText(text)
    ensures Hex.IsHex(text) && |text| % 2 == 0 && Hex.Bin(text) == Spelled(text)
  {
    SameText(text);
    BinIsSpelled(text);
  }

  /** A line is read for what it says, whatever follows, and taken whole. */
  lemma AirspyLineReads(id: seq<byte>, l: AirspyLine, rest: seq<byte>, st: PState)
    requires GoodAirspy(l)
    ensures Airspy.Parse(Blank(id), AirspyBytes(l) + rest, st) ==
            Hit(AirspyPacket(l, st.clock, 0, id), |AirspyBytes(l)|, st.(clock := AirspyClock(l, st.clock)))
  {
    var s, t := AirspyBytes(l) + rest, Kind(|l.text|);
    AirspyFields(l, rest);
    AirspyNumbersRead(l, s, t);
    AirspyNumbers(l);
    PayloadRead(l.text);
    LevelUp(Number(l.level));
    Airspy.ParseByType(Blank(id), s, st);
    hide Hex.IsHex, Hex.Bin, HexText, Airspy.Parse, Spelled, Number, Hex.IntOf, ScaleIn, RssiIn, Advance, Airspy.Framed,
      AirspyBytes, Airspy.Stamp, Airspy.Mhz, LineEndAt;
    assert Airspy.Accepted(s, t);
  }

  function AirspyStream(ls: seq<AirspyLine>): seq<byte> {
    if ls == [] then [] else AirspyBytes(ls[0]) + AirspyStream(ls[1..])
  }

  predicate AllGoodAirspy(ls: seq<AirspyLine>) { forall i :: 0 <= i < |ls| ==> GoodAirspy(ls[i]) }

  function AirspyPackets(ls: seq<AirspyLine>, c: Clock, id: seq<byte>): seq<Packet>
    requires AllGoodAirspy(ls)
    decreases |ls|
  {
    if ls == [] then []
    else [AirspyPacket(ls[0], c, 1, id)] + AirspyPackets(ls[1..], AirspyClock(ls[0], c), id)
  }

  lemma AirspyTaken(env: Proto.Env, c: Conn, l: AirspyLine, rest: seq<byte>)
    requires GoodAirspy(l) && Ready(c.state) && (c.mode == Detect || c.mode == Use(Fmt.AIRSPY))
    ensures Take(env, c, Clip(AirspyBytes(l) + rest)) ==
            Some((AirspyPacket(l, c.state.clock, 0, env.id), |AirspyBytes(l)|,
                  Conn(Use(Fmt.AIRSPY), c.state.(clock := AirspyClock(l, c.state.clock)))))
  {
    assert |AirspyBytes(l)| <= 49;
    hide AirspyBytes, AirspyPacket, AirspyClock, GoodAirspy, Raw.Parse, Airspy.Parse, Beast.Parse, Proto.Parse;
    var s := Clip(AirspyBytes(l) + rest);
    var y := s[|AirspyBytes(l)|..];
    assert s == AirspyBytes(l) + y;
    AirspyLineReads(env.id, l, y, c.state);
    assert Hits(env, Fmt.AIRSPY, s, c.state);
    forall g | Hits(env, g, s, c.state) ensures g == Fmt.AIRSPY {
      Unambiguous(env, Fmt.AIRSPY, g, s, c.state, c.state);
    }
  }

  lemma {:induction false} AirspyStreamDecodes(env: Proto.Env, c: Conn, ls: seq<AirspyLine>)
    requires AllGoodAirspy(ls) && env.maxHops >= 1 && Ready(c.state) && (c.mode == Detect || c.mode == Use(Fmt.AIRSPY))
    ensures var r := Decode(env, c, AirspyStream(ls));
            r.out == AirspyPackets(ls, c.state.clock, env.id) && r.rest == []
    decreases |ls|
  {
    hide Decode, Take, Clip, AirspyBytes, AirspyPacket, AirspyClock, GoodAirspy;
    if ls == [] {
      NothingOnEmpty(env, c);
      assert Clip([]) == [] by { ClipBound([]); }
      DecodeStuck(env, c, []);
    } else {
      var l, rest := ls[0], AirspyStream(ls[1..]);
      assert GoodAirspy(l);
      AirspyTaken(env, c, l, rest);
      DecodeTaken(env, c, AirspyBytes(l) + rest);
      assert (AirspyBytes(l) + rest)[|AirspyBytes(l)|..] == rest;
      AirspyStreamDecodes(env, Conn(Use(Fmt.AIRSPY), c.state.(clock := AirspyClock(l, c.state.clock))), ls[1..]);
      AirspyForwarded(env, l, c.state.clock);
    }
  }

  lemma AirspyForwarded(env: Proto.Env, l: AirspyLine, c: Clock)
    requires GoodAirspy(l) && env.maxHops >= 1
    ensures Forward(env, AirspyPacket(l, c, 0, env.id)) == [AirspyPacket(l, c, 1, env.id)]
  {
    hide ScaleIn, Number, Spelled, HexText;
  }

  // ---------------------------------------------------------------- airspy lines with numbers that are none

  /** Neither the precision nor the level has to be a number; only a precision of zero is refused. */
  predicate LooseAirspy(l: AirspyLine) {
    AirspyShape(l) && HexText(l.stamp) && (HexText(l.precision) ==> Number(l.precision) > 0)
  }

  ghost predicate IsAirspyLine(s: seq<byte>) { exists l :: LooseAirspy(l) && s == AirspyBytes(l) }

  lemma TwiceByte(v: int)
    requires -1 <= v < 0x100
    ensures 2 * (v % TWO16) % TWO16 != 0 <==> v != 0
  {}

  lemma PrecisionRead(s: seq<byte>, t: PacketType)
    requires Airspy.Framed(s, t)
    ensures var p := s[Head(t) + 10..Head(t) + 12];
            Airspy.Mhz(s, t) != 0 <==> (HexText(p) ==> Number(p) > 0)
  {
    var p := s[Head(t) + 10..Head(t) + 12];
    SameText(p);
    Hex.IntOfShort(p);
    if Hex.IsHex(p) { NumIsNumber(p); }
    hide Hex.IsHex, HexText, Hex.IntOf, Hex.Num, Number, Airspy.Framed;
    TwiceByte(Hex.IntOf(p));
  }

  lemma StampRead(s: seq<byte>, t: PacketType)
    requires Airspy.Framed(s, t)
    ensures Airspy.Stamp(s, t) >= 0 <==> HexText(s[Head(t) + 1..Head(t) + 9])
  {
    SameText(s[Head(t) + 1..Head(t) + 9]);
    Hex.IntOfShort(s[Head(t) + 1..Head(t) + 9]);
  }

  /** The fields at the head of a buffer that has a frame's shape. */
  function LineOf(s: seq<byte>, t: PacketType): AirspyLine
    requires Airspy.Framed(s, t)
  {
    var o := Head(t);
    AirspyLine(s[1..o], s[o + 1..o + 9], s[o + 10..o + 12], s[o + 13..o + 17], s[o + 18] == CR)
  }

  lemma LineOfBytes(s: seq<byte>, t: PacketType)
    requires Airspy.Framed(s, t)
    ensures AirspyBytes(LineOf(s, t)) == s[..PastLineEnd(s, Head(t) + 18)]
  {
    hide Head;
    var l, o, n := LineOf(s, t), Head(t), PastLineEnd(s, Head(t) + 18);
    var a := [0x2A] + l.text;
    var b := a + [0x3B] + l.stamp;
    var c := b + [0x3B] + l.precision;
    var d := c + [0x3B] + l.level;
    hide Airspy.Framed, LineEnd, PastLineEnd, LineEndAt;
    assert a == s[..o] by { assert s[..1] == [0x2A]; Glue(s, 1, o); }
    Field(s, o, o + 9, a, l.stamp);
    Field(s, o + 9, o + 12, b, l.precision);
    Field(s, o + 12, o + 17, c, l.level);
    assert LineEnd(l.cr) == s[o + 18..n] by { EndIs(s, o + 18); }
    Field(s, o + 17, n, d, LineEnd(l.cr));
  }

  lemma EndIs(s: seq<byte>, i: nat)
    requires LineEndAt(s, i)
    ensures LineEnd(s[i] == CR) == s[i..PastLineEnd(s, i)]
  {}

  /** The next field of a text that `s` begins with, after its semicolon. */
  lemma Field(s: seq<byte>, i: nat, j: nat, front: seq<byte>, x: seq<byte>)
    requires i < j <= |s| && front == s[..i] && s[i] == 0x3B && x == s[i + 1..j]
    ensures front + [0x3B] + x == s[..j]
  {
    At(s, i);
    Glue(s, i, i + 1);
    Glue(s, i + 1, j);
  }

  lemma Glue(s: seq<byte>, a: nat, b: nat)
    requires a <= b <= |s|
    ensures s[..a] + s[a..b] == s[..b]
  {}

  lemma AcceptedIsLoose(s: seq<byte>, t: PacketType)
    requires t != NONE && Airspy.Framed(s, t)
    ensures Airspy.Accepted(s, t) <==> LooseAirspy(LineOf(s, t))
  {
    PrecisionRead(s, t);
    StampRead(s, t);
    SameText(s[1..Head(t)]);
    KindLength(t);
    hide HexText, Hex.IsHex, Number, Airspy.Mhz, Airspy.Stamp, Airspy.Framed, Kind;
  }

  /** The parser accepts exactly those lines. */
  lemma AirspyHitIff(id: seq<byte>, s: seq<byte>, st: PState, u: nat)
    ensures (Airspy.Parse(Blank(id), s, st).Hit? && Airspy.Parse(Blank(id), s, st).used == u) <==>
            u <= |s| && IsAirspyLine(s[..u])
  {
    hide Airspy.Parse, Airspy.Accepted, LooseAirspy, AirspyBytes, LineOf, Airspy.Framed;
    if u <= |s| && IsAirspyLine(s[..u]) {
      var l :| LooseAirspy(l) && s[..u] == AirspyBytes(l);
      LooseLineHits(id, l, s, st);
    }
    if Airspy.Parse(Blank(id), s, st).Hit? {
      Airspy.ParseByType(Blank(id), s, st);
      var t :| t in {MODE_AC, MODE_S_SHORT, MODE_S_LONG} && Airspy.Accepted(s, t);
      HitIsLine(id, s, st, t);
    }
  }

  lemma HitIsLine(id: seq<byte>, s: seq<byte>, st: PState, t: PacketType)
    requires t != NONE && Airspy.Accepted(s, t)
    ensures Airspy.Parse(Blank(id), s, st).Hit?
    ensures var u := Airspy.Parse(Blank(id), s, st).used; u <= |s| && IsAirspyLine(s[..u])
  {
    Airspy.ParseByType(Blank(id), s, st);
    hide Airspy.Parse, LooseAirspy, AirspyBytes, ScaleIn, RssiIn, Hex.IsHex, Hex.IntOf, Hex.Bin, Airspy.Mhz;
    AcceptedIsLoose(s, t);
    LineOfBytes(s, t);
  }

  lemma LooseLineHits(id: seq<byte>, l: AirspyLine, s: seq<byte>, st: PState)
    requires LooseAirspy(l) && |AirspyBytes(l)| <= |s| && s[..|AirspyBytes(l)|] == AirspyBytes(l)
    ensures Airspy.Parse(Blank(id), s, st).Hit? && Airspy.Parse(Blank(id), s, st).used == |AirspyBytes(l)|
  {
    var t, n := Kind(|l.text|), |AirspyBytes(l)|;
    assert s == AirspyBytes(l) + s[n..];
    AirspyFields(l, s[n..]);
    AcceptedIsLoose(s, t);
    Airspy.ParseByType(Blank(id), s, st);
    hide Airspy.Parse, AirspyBytes, ScaleIn, RssiIn, Hex.IsHex, Hex.IntOf, Hex.Bin, Airspy.Mhz, HexText, Number;
    assert LineOf(s, t).text == l.text;
    assert s[Head(t) + 1..Head(t) + 9] == l.stamp;
    assert Airspy.Accepted(s, t);
  }

  // ---------------------------------------------------------------- airspy lines as they are written

  /** What is written for a packet: 20 MHz, upper case, carriage return and line feed. */
  lemma AirspyWrites(p: Packet)
    requires WellFormed(p) && p.typ != NONE
    ensures var l := WrittenLine(p);
            && Airspy.Frame(p) == AirspyBytes(l) && GoodAirspy(l) && l.cr
            && UpperText(l.text) && UpperText(l.stamp) && UpperText(l.precision) && UpperText(l.level)
            && Kind(|l.text|) == p.typ && Spelled(l.text) == p.payload
            && Number(l.stamp) == ScaleOut(p.mlat, UINT32_MAX, 20) && Number(l.precision) == 10
            && Number(l.level) == p.rssi / 0x1_0001
  {
    hide HexText, UpperText, Hex.Text, Hex.IntText, Spelled, Kind, Number, ScaleOut, AirspyBytes, Airspy.Frame;
    WrittenPayload(p);
    WrittenNumber(ScaleOut(p.mlat, UINT32_MAX, 20), 8);
    WrittenNumber(10, 2);
    WrittenNumber(p.rssi / 0x1_0001, 4);
    assert Hex.Pow16(2) == 0x100 && Hex.Pow16(4) == 0x1_0000 && Hex.Pow16(8) == 0x1_0000_0000;
    assert p.rssi / 0x1_0001 < 0x1_0000;
    WrittenLineBytes(p);
  }

  lemma WrittenLineBytes(p: Packet)
    ensures Airspy.Frame(p) == AirspyBytes(WrittenLine(p))
  {
    hide Hex.Text, Hex.IntText, ScaleOut;
    assert RssiOut(p.rssi, UINT16_MAX) == p.rssi / 0x1_0001;
  }

  function WrittenLine(p: Packet): AirspyLine {
    AirspyLine(Hex.Text(p.payload, true), Hex.IntText(ScaleOut(p.mlat, UINT32_MAX, 20), 8), Hex.IntText(10, 2),
               Hex.IntText(p.rssi / 0x1_0001, 4), true)
  }

  // ---------------------------------------------------------------- the documents' own examples

  /** The second example of protocols/raw.md, *59A880E10968EF; and a line feed. */
  lemma RawExample(id: seq<byte>, rest: seq<byte>, st: PState)
    ensures var text := [0x35, 0x39, 0x41, 0x38, 0x38, 0x30, 0x45, 0x31, 0x30, 0x39, 0x36, 0x38, 0x45, 0x46];
            Raw.Parse(Blank(id), [0x2A] + text + [0x3B, 0x0A] + rest, st) ==
            Hit(Packet(MODE_S_SHORT, 0, [0x59, 0xA8, 0x80, 0xE1, 0x09, 0x68, 0xEF], 0, 0, id), 17, st)
  {
    RawExampleText();
    hide HexText, Spelled, Raw.Parse;
    var l := RawLine([0x35, 0x39, 0x41, 0x38, 0x38, 0x30, 0x45, 0x31, 0x30, 0x39, 0x36, 0x38, 0x45, 0x46], false);
    assert RawBytes(l) == [0x2A] + l.text + [0x3B, 0x0A];
    RawLineReads(id, l, rest, st);
  }

  lemma RawExampleText()
    ensures var text := [0x35, 0x39, 0x41, 0x38, 0x38, 0x30, 0x45, 0x31, 0x30, 0x39, 0x36, 0x38, 0x45, 0x46];
            HexText(text) && Spelled(text) == [0x59, 0xA8, 0x80, 0xE1, 0x09, 0x68, 0xEF]
  {}

  /** The first example of protocols/airspy_adsb.md, *5DA7DA1CE30DE5;D03B5A4B;0A;7AF3; with CR LF behind it. */
  const EXAMPLE := AirspyLine(
    [0x35, 0x44, 0x41, 0x37, 0x44, 0x41, 0x31, 0x43, 0x45, 0x33, 0x30, 0x44, 0x45, 0x35],
    [0x44, 0x30, 0x33, 0x42, 0x35, 0x41, 0x34, 0x42], [0x30, 0x41], [0x37, 0x41, 0x46, 0x33], true)

  /** Counter 3493550667 at 20 MHz, level 31475 of 65535. */
  lemma AirspyExample(id: seq<byte>, rest: seq<byte>, st: PState)
    ensures Airspy.Parse(Blank(id), AirspyBytes(EXAMPLE) + rest, st) ==
            Hit(Packet(MODE_S_SHORT, 0, [0x5D, 0xA7, 0xDA, 0x1C, 0xE3, 0x0D, 0xE5],
                       ScaleIn(st.clock, 3493550667, UINT32_MAX, 20), 0x1_0001 * 31475, id),
                35, st.(clock := Advance(st.clock, 3493550667, UINT32_MAX)))
  {
    hide HexText, Number, Spelled, ScaleIn, Advance, Airspy.Parse;
    ExampleLine();
    assert |AirspyBytes(EXAMPLE)| == 35;
    hide AirspyBytes;
    AirspyLineReads(id, EXAMPLE, rest, st);
    assert AirspyPacket(EXAMPLE, st.clock, 0, id) ==
           Packet(MODE_S_SHORT, 0, [0x5D, 0xA7, 0xDA, 0x1C, 0xE3, 0x0D, 0xE5],
                  ScaleIn(st.clock, 3493550667, UINT32_MAX, 20), 0x1_0001 * 31475, id);
  }

  lemma ExampleLine()
    ensures GoodAirspy(EXAMPLE) && |EXAMPLE.text| == 14 && EXAMPLE.cr
    ensures Spelled(EXAMPLE.text) == [0x5D, 0xA7, 0xDA, 0x1C, 0xE3, 0x0D, 0xE5]
    ensures Number(EXAMPLE.stamp) == 3493550667 && Number(EXAMPLE.precision) == 10 && Number(EXAMPLE.level) == 31475
  {
    hide HexText, Number, Spelled;
    ExamplePayload();
    FourDigits(0x44, 0x30, 0x33, 0x42);
    FourMore([0x44, 0x30, 0x33, 0x42], 0x35, 0x41, 0x34, 0x42);
    TwoDigits(0x30, 0x41);
    FourDigits(0x37, 0x41, 0x46, 0x33);
    assert EXAMPLE.stamp == [0x44, 0x30, 0x33, 0x42] + [0x35, 0x41, 0x34, 0x42];
    assert EXAMPLE.precision == [0x30, 0x41] && EXAMPLE.level == [0x37, 0x41, 0x46, 0x33];
    assert EXAMPLE.text == [0x35, 0x44, 0x41, 0x37, 0x44, 0x41, 0x31, 0x43, 0x45, 0x33, 0x30, 0x44, 0x45, 0x35];
  }

  lemma ExamplePayload()
    ensures var text := [0x35, 0x44, 0x41, 0x37, 0x44, 0x41, 0x31, 0x43, 0x45, 0x33, 0x30, 0x44, 0x45, 0x35];
            HexText(text) && Spelled(text) == [0x5D, 0xA7, 0xDA, 0x1C, 0xE3, 0x0D, 0xE5]
  {}

  /** One more digit at the end. */
  lemma DigitMore(s: seq<byte>, c: byte)
    requires HexText(s) && Digit(c).Some?
    ensures HexText(s + [c]) && Number(s + [c]) == 16 * Number(s) + Digit(c).value
  {
    var t := s + [c];
    assert t[..|t| - 1] == s;
    SameDigit(c);
    NumIsNumber(s) by { SameText(s); }
    SameText(t);
    NumIsNumber(t);
  }

  lemma TwoDigits(a: byte, b: byte)
    requires Digit(a).Some? && Digit(b).Some?
    ensures HexText([a, b]) && Number([a, b]) == 16 * Digit(a).value + Digit(b).value
  {
    assert [a, b][1..] == [b] && [b][1..] == [];
    assert Number([b]) == Digit(b).value;
  }

  lemma FourDigits(a: byte, b: byte, c: byte, d: byte)
    requires Digit(a).Some? && Digit(b).Some? && Digit(c).Some? && Digit(d).Some?
    ensures HexText([a, b, c, d])
    ensures Number([a, b, c, d]) ==
            0x1000 * Digit(a).value + 0x100 * Digit(b).value + 0x10 * Digit(c).value + Digit(d).value
  {
    hide HexText, Number, Digit;
    TwoDigits(a, b);
    DigitMore([a, b], c);
    DigitMore([a, b] + [c], d);
    assert [a, b] + [c] + [d] == [a, b, c, d];
  }

  lemma FourMore(s: seq<byte>, a: byte, b: byte, c: byte, d: byte)
    requires HexText(s) && Digit(a).Some? && Digit(b).Some? && Digit(c).Some? && Digit(d).Some?
    ensures HexText(s + [a, b, c, d])
    ensures Number(s + [a, b, c, d]) == 0x1_0000 * Number(s) + 0x1000 * Digit(a).value + 0x100 * Digit(b).value +
                                        0x10 * Digit(c).value + Digit(d).value
  {
    hide HexText, Number, Digit;
    DigitMore(s, a);
    DigitMore(s + [a], b);
    DigitMore(s + [a] + [b], c);
    DigitMore(s + [a] + [b] + [c], d);
    assert s + [a] + [b] + [c] + [d] == s + [a, b, c, d];
  }
}
