/** airspy_adsb.c: text frames `*payload;timestamp;precision;rssi;` ended by LF or CR LF. */
module Airspy {
  import opened Bytes
  import opened Packets
  import opened Mlat
  import Hex
  import opened Buffer
  import opened TextFrames

  const SEND_MHZ := 20

  predicate Framed(s: seq<byte>, t: PacketType) {
    var o := Head(t);
    LineEndAt(s, o + 18) && s[0] == STAR && s[o] == SEMI && s[o + 9] == SEMI && s[o + 12] == SEMI && s[o + 17] == SEMI
  }

  function Stamp(s: seq<byte>, t: PacketType): int
    requires Framed(s, t)
  {
    Hex.IntOf(s[Head(t) + 1..Head(t) + 9])
  }

  /** Twice the precision byte, in 16 bits. A precision that is no number reads as -1 and gives 65534. */
  function Mhz(s: seq<byte>, t: PacketType): uint16
    requires Framed(s, t)
  {
    2 * (Hex.IntOf(s[Head(t) + 10..Head(t) + 12]) % TWO16) % TWO16
  }

  /** The frame gets as far as touching the MLAT state. */
  predicate Timed(s: seq<byte>, t: PacketType) {
    Framed(s, t) && Mhz(s, t) != 0 && Stamp(s, t) >= 0
  }

  /** A frame of type `t` at the head of `s`, read into `base`: the state moves before the payload is checked. */
  function AttemptType(base: Packet, s: seq<byte>, st: PState, t: PacketType): Attempt {
    if !Timed(s, t) then Miss(st)
    else
      var o := Head(t);
      Hex.IntOfShort(s[o + 1..o + 9]);
      var st' := st.(clock := Advance(st.clock, Stamp(s, t), UINT32_MAX));
      if !Hex.IsHex(s[1..o]) then Miss(st')
      else
        Hit(Packet(t, base.hops, Hex.Bin(s[1..o]),
                   ScaleIn(st.clock, Stamp(s, t), UINT32_MAX, Mhz(s, t)),
                   RssiIn(Hex.IntOf(s[o + 13..o + 17]) % TWO32, UINT16_MAX), base.source),
            PastLineEnd(s, o + 18), st')
  }

  /** Three lengths tried in turn, each from the state the one before it left. */
  function Parse(base: Packet, s: seq<byte>, st: PState): Attempt {
    var a := AttemptType(base, s, st, MODE_AC);
    if a.Hit? then a else
    var b := AttemptType(base, s, a.state, MODE_S_SHORT);
    if b.Hit? then b else
    AttemptType(base, s, b.state, MODE_S_LONG)
  }

  method IsFrame(buf: Buf, t: PacketType) returns (ok: bool)
    requires buf.Valid()
    ensures ok == Framed(buf.Window(), t)
  {
    var o := 1 + 2 * Len(t);
    var total := o + 20;
    if (buf.length < total - 1 || buf.Chr(o + 18) != LF) &&
       (buf.length < total || buf.Chr(o + 18) != CR || buf.Chr(o + 19) != LF)
    {
      return false;
    }
    return buf.Chr(0) == STAR && buf.Chr(o) == SEMI && buf.Chr(o + 9) == SEMI && buf.Chr(o + 12) == SEMI &&
           buf.Chr(o + 17) == SEMI;
  }

  /** The numbers of a frame; false if the rate is zero or the timestamp is no number. */
  method ReadNumbers(buf: Buf, t: PacketType) returns (ok: bool, mhz: uint16, stamp: int, level: int)
    requires buf.Valid() && Framed(buf.Window(), t)
    ensures ok == Timed(buf.Window(), t)
    ensures mhz == Mhz(buf.Window(), t) && stamp == Stamp(buf.Window(), t)
    ensures level == Hex.IntOf(buf.Window()[Head(t) + 13..Head(t) + 17])
  {
    var o := 1 + 2 * Len(t);
    var precision := Hex.ToInt(buf.Slice(o + 10, o + 12));
    mhz := 2 * (precision % TWO16) % TWO16;
    stamp := Hex.ToInt(buf.Slice(o + 1, o + 9));
    level := Hex.ToInt(buf.Slice(o + 13, o + 17));
    ok := mhz != 0 && stamp >= 0;
  }

  /** The timestamp moves the state; type and level are written beside it. */
  method TakeNumbers(packet: PacketBuf, state: ParserState, t: PacketType, mhz: uint16, stamp: uint64, level: int)
    requires mhz > 0
    modifies packet`mlat, packet`rssi, packet`typ, state.clock
    ensures state.Value() == old(state.Value()).(clock := Advance(old(state.Value()).clock, stamp, UINT32_MAX))
    ensures packet.mlat == ScaleIn(old(state.Value()).clock, stamp, UINT32_MAX, mhz)
    ensures packet.rssi == RssiIn(level % TWO32, UINT16_MAX) && packet.typ == t
  {
    hide ScaleIn, RssiIn, Advance;
    packet.mlat := state.clock.TimestampIn(stamp, UINT32_MAX, mhz);
    packet.rssi := RssiIn(level % TWO32, UINT16_MAX);
    packet.typ := t;
  }

  /** From the timestamp on: the part of a parse that writes. */
  method ReadRest(buf: Buf, packet: PacketBuf, state: ParserState, t: PacketType, mhz: uint16, stamp: uint64,
      level: int)
      returns (ok: bool)
    requires buf.Valid() && packet.Valid() && buf.data != packet.payload
    requires Timed(buf.Window(), t) && mhz == Mhz(buf.Window(), t) && stamp == Stamp(buf.Window(), t)
    requires level == Hex.IntOf(buf.Window()[Head(t) + 13..Head(t) + 17])
    modifies buf, packet, packet.payload, state.clock
    ensures buf.Valid() && packet.hops == old(packet.hops) && packet.source == old(packet.source)
    ensures Settles(AttemptType(old(packet.Value()), old(buf.Window()), old(state.Value()), t),
                    ok, old(buf.Window()), buf.Window(), packet.Value(), state.Value())
  {
    hide ScaleIn, RssiIn, Advance, Hex.IntOf, Hex.IsHex, Hex.Bin, Stamp, Mhz;
    var o := 1 + 2 * Len(t);
    ghost var w := buf.Window();
    var used := if buf.Chr(o + 18) == CR then o + 20 else o + 19;
    assert used == PastLineEnd(w, o + 18) && used <= |w|;
    TakeNumbers(packet, state, t, mhz, stamp, level);
    hide Framed, Timed;
    ok := ReadPayload(buf, packet.payload, Len(t));
    assert buf.Window() == w;
    if ok {
      buf.Consume(used);
    }
  }

  method ParsePacket(buf: Buf, packet: PacketBuf, state: ParserState, t: PacketType) returns (ok: bool)
    requires buf.Valid() && packet.Valid() && buf.data != packet.payload
    modifies buf, packet, packet.payload, state.clock
    ensures buf.Valid() && packet.hops == old(packet.hops) && packet.source == old(packet.source)
    ensures Settles(AttemptType(old(packet.Value()), old(buf.Window()), old(state.Value()), t),
                    ok, old(buf.Window()), buf.Window(), packet.Value(), state.Value())
  {
    var framed := IsFrame(buf, t);
    if !framed { return false; }
    var timed, mhz, stamp, level := ReadNumbers(buf, t);
    if !timed { return false; }
    ok := ReadRest(buf, packet, state, t, mhz, stamp, level);
  }

  /** A failed attempt may scribble over the packet: nothing it leaves there can show later. */
  lemma BaseKept(base: Packet, scribbled: Packet, s: seq<byte>, st: PState, t: PacketType)
    requires scribbled.hops == base.hops && scribbled.source == base.source
    ensures AttemptType(scribbled, s, st, t) == AttemptType(base, s, st, t)
  {}

  method ParseFrame(buf: Buf, packet: PacketBuf, state: ParserState) returns (ok: bool)
    requires buf.Valid() && packet.Valid() && buf.data != packet.payload
    modifies buf, packet, packet.payload, state.clock
    ensures buf.Valid() && packet.hops == old(packet.hops) && packet.source == old(packet.source)
    ensures Settles(Parse(old(packet.Value()), old(buf.Window()), old(state.Value())),
                    ok, old(buf.Window()), buf.Window(), packet.Value(), state.Value())
  {
    ghost var base, w := packet.Value(), buf.Window();
    ok := ParsePacket(buf, packet, state, MODE_AC);
    if !ok {
      BaseKept(base, packet.Value(), w, state.Value(), MODE_S_SHORT);
      ok := ParsePacket(buf, packet, state, MODE_S_SHORT);
      if !ok {
        BaseKept(base, packet.Value(), w, state.Value(), MODE_S_LONG);
        ok := ParsePacket(buf, packet, state, MODE_S_LONG);
      }
    }
  }

  // ---------------------------------------------------------------- serializing

  /** The frame written for a packet. */
  function Frame(p: Packet): (s: seq<byte>)
    ensures |s| == 2 * |p.payload| + 21
  {
    [STAR] + Hex.Text(p.payload, true) + [SEMI] +
    Hex.IntText(ScaleOut(p.mlat, UINT32_MAX, SEND_MHZ), 8) + [SEMI] +
    Hex.IntText(SEND_MHZ / 2, 2) + [SEMI] +
    Hex.IntText(RssiOut(p.rssi, UINT16_MAX), 4) + [SEMI, CR, LF]
  }

  method Serialize(packet: PacketBuf, buf: Buf)
    requires packet.Valid() && buf.Valid() && buf.Window() == [] && buf.data != packet.payload
    modifies buf, buf.data
    ensures buf.Valid() && buf.Window() == Frame(packet.Value())
  {
    hide ScaleOut, RssiOut, Hex.Text, Hex.IntText, Hex.IsHex, Frame;
    var n := Len(packet.typ);
    var o := 1 + 2 * n;
    var d := buf.data;
    ghost var p := packet.Value();
    d[0] := STAR;
    d[o], d[o + 9], d[o + 12], d[o + 17] := SEMI, SEMI, SEMI, SEMI;
    d[o + 18] := CR;
    d[o + 19] := LF;
    Hex.FromBin(d, 1, packet.payload[..n], true);
    WriteNumbers(d, o, ScaleOut(packet.mlat, UINT32_MAX, SEND_MHZ), RssiOut(packet.rssi, UINT16_MAX));
    Assemble(d[..], p);
    buf.length := o + 20;
    assert buf.Window() == d[..][..o + 20];
  }

  /** The three numbers of a frame, between its delimiters. */
  method WriteNumbers(d: array<byte>, o: nat, stamp: uint64, level: uint64)
    requires Delimited(d[..], o)
    modifies d
    ensures Delimited(d[..], o) && d[1..o] == old(d[1..o])
    ensures d[o + 1..o + 9] == Hex.IntText(stamp, 8) && d[o + 10..o + 12] == Hex.IntText(SEND_MHZ / 2, 2)
    ensures d[o + 13..o + 17] == Hex.IntText(level, 4)
  {
    hide Hex.IntText;
    Hex.FromInt(d, o + 1, stamp, 4);
    ghost var d2 := d[o + 1..o + 9];
    Hex.FromInt(d, o + 10, SEND_MHZ / 2, 1);
    assert d[o + 1..o + 9] == d2;
    ghost var d3 := d[o + 10..o + 12];
    Hex.FromInt(d, o + 13, level, 2);
    assert d[o + 1..o + 9] == d2 && d[o + 10..o + 12] == d3;
  }

  ghost predicate Delimited(d: seq<byte>, o: nat) {
    1 <= o && o + 20 <= |d| && d[0] == STAR &&
    d[o] == SEMI && d[o + 9] == SEMI && d[o + 12] == SEMI && d[o + 17] == SEMI &&
    d[o + 18] == CR && d[o + 19] == LF
  }

  lemma Assemble(d: seq<byte>, p: Packet)
    requires WellFormed(p)
    requires var o := Head(p.typ);
             Delimited(d, o) && d[1..o] == Hex.Text(p.payload, true) &&
             d[o + 1..o + 9] == Hex.IntText(ScaleOut(p.mlat, UINT32_MAX, SEND_MHZ), 8) &&
             d[o + 10..o + 12] == Hex.IntText(SEND_MHZ / 2, 2) &&
             d[o + 13..o + 17] == Hex.IntText(RssiOut(p.rssi, UINT16_MAX), 4)
    ensures d[..Head(p.typ) + 20] == Frame(p)
  {
    hide ScaleOut, RssiOut, Hex.Text, Hex.IntText, Hex.IsHex, Len;
    Pieces(d, Head(p.typ));
  }

  lemma Pieces(d: seq<byte>, o: nat)
    requires Delimited(d, o)
    ensures d[..o + 20] == [STAR] + d[1..o] + [SEMI] + d[o + 1..o + 9] + [SEMI] + d[o + 10..o + 12] + [SEMI] +
                           d[o + 13..o + 17] + [SEMI, CR, LF]
  {}

  // ---------------------------------------------------------------- more input

  lemma SliceExtends(s: seq<byte>, x: seq<byte>, a: nat, b: nat)
    requires a <= b <= |s|
    ensures (s + x)[a..b] == s[a..b]
  {}

  predicate Accepted(s: seq<byte>, t: PacketType) { Timed(s, t) && Hex.IsHex(s[1..Head(t)]) }

  /** Neither the precision nor the level has to be a number. A precision that is none reads as 65534 and a
      level that is none as 0xFFFE_FFFF, and nothing else reads so. */
  lemma JunkNumbers(base: Packet, s: seq<byte>, st: PState, t: PacketType)
    requires Accepted(s, t)
    ensures Mhz(s, t) == 65534 <==> !Hex.IsHex(s[Head(t) + 10..Head(t) + 12])
    ensures var a := AttemptType(base, s, st, t);
            a.Hit? && (a.packet.rssi == 0xFFFE_FFFF <==> !Hex.IsHex(s[Head(t) + 13..Head(t) + 17]))
  {
    Hex.IntOfShort(s[Head(t) + 10..Head(t) + 12]);
    hide ScaleIn, Advance, Hex.Num, Hex.Bin, Mhz, Hex.IntOf, Hex.IsHex;
    Hex.IntOfShort(s[Head(t) + 13..Head(t) + 17]);
    JunkLevel(Hex.IntOf(s[Head(t) + 13..Head(t) + 17]));
  }

  lemma JunkLevel(v: int)
    requires -1 <= v < 0x1_0000
    ensures RssiIn(v % TWO32, UINT16_MAX) == 0xFFFE_FFFF <==> v == -1
  {
    assert RssiStep(UINT16_MAX) == 0x1_0001;
  }

  /** The timestamp of a frame is lost, whatever came before, exactly when its precision is no number or names
      a rate above the hub's own: the factor between the rates is then zero. */
  lemma TimeLostIff(base: Packet, s: seq<byte>, t: PacketType)
    requires Accepted(s, t)
    ensures (forall st: PState :: Untimed(AttemptType(base, s, st, t))) <==> Mhz(s, t) > MLAT_MHZ
  {
    hide Hex.IsHex, Hex.IntOf, Hex.Bin, Mhz, RssiIn, Advance;
    var ts, mhz := Stamp(s, t), Mhz(s, t);
    Hex.IntOfShort(s[Head(t) + 1..Head(t) + 9]);
    if mhz > MLAT_MHZ {
      forall st: PState ensures Untimed(AttemptType(base, s, st, t)) { NoFactor(st.clock, ts, UINT32_MAX, mhz); }
    } else {
      var st := CLEARED.(clock := Clock(0, if ts <= 1 then 1 - ts else TWO64 + 1 - ts));
      OneTick(st.clock, ts, mhz);
      assert !Untimed(AttemptType(base, s, st, t));
    }
  }

  ghost predicate Untimed(a: Attempt) { a.Hit? && a.packet.mlat == 0 }

  /** A clock on which a stamp reads as one tick. */
  lemma OneTick(c: Clock, ts: uint64, mhz: nat)
    requires 0 < mhz <= MLAT_MHZ && c.last == 0 && (c.gen + ts) % TWO64 == 1
    ensures ScaleIn(c, ts, UINT32_MAX, mhz) == Factor(mhz) > 0
  {
    hide Factor;
    assert Advance(c, ts, UINT32_MAX) == Clock(ts, c.gen);
    StretchExact(1, Factor(mhz));
  }

  /** *0000;00000001;ZZ;ZZZZ; and a line feed. */
  const JUNK: seq<byte> :=
    [STAR] + [0x30, 0x30, 0x30, 0x30] + [SEMI] + [0x30, 0x30, 0x30, 0x30, 0x30, 0x30, 0x30, 0x31] +
    [SEMI] + [0x5A, 0x5A] + [SEMI] + [0x5A, 0x5A, 0x5A, 0x5A] + [SEMI, LF]

  /** Such frames exist: this one is a packet of time zero and nearly the highest level. */
  lemma JunkIsAccepted(base: Packet, st: PState)
    ensures Accepted(JUNK, MODE_AC) && Mhz(JUNK, MODE_AC) == 65534
    ensures var a := AttemptType(base, JUNK, st, MODE_AC);
            a.Hit? && a.used == |JUNK| && a.packet.payload == [0, 0] && a.packet.mlat == 0 &&
            a.packet.rssi == 0xFFFE_FFFF && Parse(base, JUNK, st) == a
  {
    JunkShape();
    hide RssiIn, ScaleIn, Advance, Hex.IsHex, Hex.IntOf, Hex.Bin, Mhz;
    JunkNumbers(base, JUNK, st, MODE_AC);
    TimeLostIff(base, JUNK, MODE_AC);
    assert Untimed(AttemptType(base, JUNK, st, MODE_AC));
  }

  lemma JunkShape()
    ensures Accepted(JUNK, MODE_AC) && Hex.Bin(JUNK[1..5]) == [0, 0]
    ensures !Hex.IsHex(JUNK[15..17]) && !Hex.IsHex(JUNK[18..22])
  {
    assert JUNK[15..17][0] == 0x5A && JUNK[18..22][0] == 0x5A;
    assert Head(MODE_AC) == 5 && Framed(JUNK, MODE_AC);
    assert JUNK[1..5] == [0x30, 0x30, 0x30, 0x30] && JUNK[6..14] == [0x30, 0x30, 0x30, 0x30, 0x30, 0x30, 0x30, 0x31];
    assert Hex.Bin([0x30, 0x30, 0x30, 0x30]) == [0, 0];
    Hex.IntOfShort(JUNK[6..14]);
    Hex.IntOfShort(JUNK[15..17]);
  }

  /** A frame complete enough to move the state, whose payload is not hexadecimal. */
  predicate BadPayload(s: seq<byte>, t: PacketType) { Timed(s, t) && !Hex.IsHex(s[1..Head(t)]) }

  /** Once a frame's shape is complete, later bytes change nothing about the attempt. */
  lemma AttemptExtends(base: Packet, s: seq<byte>, x: seq<byte>, st: PState, t: PacketType)
    requires Framed(s, t) || |s| >= Head(t) + 20
    ensures Accepted(s + x, t) == Accepted(s, t) && BadPayload(s + x, t) == BadPayload(s, t)
    ensures AttemptType(base, s + x, st, t) == AttemptType(base, s, st, t)
  {
    hide ScaleIn, RssiIn, Advance, Hex.IsHex, Hex.IntOf, Hex.Bin;
    if Framed(s, t) {
      var o := Head(t);
      SliceExtends(s, x, 1, o);
      SliceExtends(s, x, o + 1, o + 9);
      SliceExtends(s, x, o + 10, o + 12);
      SliceExtends(s, x, o + 13, o + 17);
    }
  }

  /** The longest frame has 49 bytes: that many decide every attempt, state included. */
  lemma FortyNineDecide(base: Packet, s: seq<byte>, x: seq<byte>, st: PState)
    requires |s| >= 49
    ensures Parse(base, s + x, st) == Parse(base, s, st)
  {
    var a := AttemptType(base, s, st, MODE_AC);
    AttemptExtends(base, s, x, st, MODE_AC);
    var b := AttemptType(base, s, a.state, MODE_S_SHORT);
    AttemptExtends(base, s, x, a.state, MODE_S_SHORT);
    AttemptExtends(base, s, x, b.state, MODE_S_LONG);
  }

  /** At most one of the three payload lengths fits: the semicolon of the shorter one is no digit. */
  lemma OneLength(s: seq<byte>, t: PacketType, u: PacketType)
    requires Accepted(s, t) && Accepted(s, u)
    ensures t == u
  {
    if Head(t) < Head(u) { SemicolonEndsHex(s, Head(t), Head(u)); }
    if Head(u) < Head(t) { SemicolonEndsHex(s, Head(u), Head(t)); }
  }

  /** The head was missed after the state had been touched. */
  predicate Dead(s: seq<byte>) {
    !Accepted(s, MODE_AC) && !Accepted(s, MODE_S_SHORT) && !Accepted(s, MODE_S_LONG) &&
    (BadPayload(s, MODE_AC) || BadPayload(s, MODE_S_SHORT) || BadPayload(s, MODE_S_LONG))
  }

  lemma AttemptCases(base: Packet, s: seq<byte>, st: PState, t: PacketType)
    ensures AttemptType(base, s, st, t).Hit? <==> Accepted(s, t)
    ensures !Accepted(s, t) && !BadPayload(s, t) ==> AttemptType(base, s, st, t) == Miss(st)
  {
    hide ScaleIn, RssiIn, Advance, Hex.IsHex, Hex.IntOf, Hex.Bin, Mhz;
  }

  /** Where one length is accepted, no other is, and a shorter one does not even move the state. */
  lemma OthersMiss(s: seq<byte>, t: PacketType, u: PacketType)
    requires Accepted(s, t) && u != t && u != NONE
    ensures !Accepted(s, u) && (Head(u) < Head(t) ==> !BadPayload(s, u))
  {
    if Accepted(s, u) { OneLength(s, t, u); }
    if Head(u) < Head(t) { PrefixHex(s, Head(u), Head(t)); }
  }

  lemma ParseByType(base: Packet, s: seq<byte>, st: PState)
    ensures Parse(base, s, st).Hit? <==> Accepted(s, MODE_AC) || Accepted(s, MODE_S_SHORT) || Accepted(s, MODE_S_LONG)
    ensures Parse(base, s, st).Miss? && Parse(base, s, st).state != st ==> Dead(s)
    ensures Parse(base, s, st).Hit? ==>
              forall t :: t in {MODE_AC, MODE_S_SHORT, MODE_S_LONG} && Accepted(s, t) ==>
                Parse(base, s, st) == AttemptType(base, s, st, t)
  {
    var a := AttemptType(base, s, st, MODE_AC);
    var b := AttemptType(base, s, a.state, MODE_S_SHORT);
    AttemptCases(base, s, st, MODE_AC);
    AttemptCases(base, s, a.state, MODE_S_SHORT);
    AttemptCases(base, s, b.state, MODE_S_LONG);
    if Accepted(s, MODE_AC) {
      OthersMiss(s, MODE_AC, MODE_S_SHORT);
      OthersMiss(s, MODE_AC, MODE_S_LONG);
    } else if Accepted(s, MODE_S_SHORT) {
      OthersMiss(s, MODE_S_SHORT, MODE_AC);
      OthersMiss(s, MODE_S_SHORT, MODE_S_LONG);
    } else if Accepted(s, MODE_S_LONG) {
      OthersMiss(s, MODE_S_LONG, MODE_AC);
      OthersMiss(s, MODE_S_LONG, MODE_S_SHORT);
    }
    hide AttemptType, Accepted, BadPayload;
  }

  lemma PrefixHex(s: seq<byte>, a: nat, b: nat)
    requires 1 <= a <= b <= |s| && Hex.IsHex(s[1..b])
    ensures Hex.IsHex(s[1..a])
  {
    forall i | 0 <= i < a - 1 ensures Hex.IsDigit(s[1..a][i]) { assert s[1..a][i] == s[1..b][i]; }
  }

  lemma HitExtends(base: Packet, s: seq<byte>, x: seq<byte>, st: PState)
    requires Parse(base, s, st).Hit?
    ensures Parse(base, s + x, st) == Parse(base, s, st)
  {
    ParseByType(base, s, st);
    ParseByType(base, s + x, st);
    var t :| t in {MODE_AC, MODE_S_SHORT, MODE_S_LONG} && Accepted(s, t);
    AttemptExtends(base, s, x, st, t);
    assert Accepted(s + x, t);
  }

  /** No later bytes can make a dead head parse. */
  lemma DeadMisses(base: Packet, s: seq<byte>, x: seq<byte>, st: PState)
    requires Dead(s)
    ensures Parse(base, s + x, st).Miss? && Dead(s + x) && s[0] == STAR
  {
    var t := if BadPayload(s, MODE_AC) then MODE_AC
             else if BadPayload(s, MODE_S_SHORT) then MODE_S_SHORT
             else MODE_S_LONG;
    AttemptExtends(base, s, x, st, t);
    SliceExtends(s, x, 1, Head(t));
    forall u | u in {MODE_AC, MODE_S_SHORT, MODE_S_LONG} ensures !Accepted(s + x, u) {
      if Head(u) < Head(t) {
        assert Head(u) + 10 <= Head(t);
        AttemptExtends(base, s, x, st, u);
      } else if Accepted(s + x, u) {
        PrefixHex(s + x, Head(t), Head(u));
      }
    }
    ParseByType(base, s + x, st);
  }
}
