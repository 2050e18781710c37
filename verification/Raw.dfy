/** raw.c: text frames `*payload;` ended by LF or CR LF. */
module Raw {
  import opened Bytes
  import opened Packets
  import Hex
  import opened Buffer
  import opened TextFrames

  predicate Framed(s: seq<byte>, t: PacketType) {
    LineEndAt(s, Head(t) + 1) && s[0] == STAR && s[Head(t)] == SEMI
  }

  /** A frame of type `t` at the head of `s`, read into `base`; no state, no timestamp and no signal level. */
  function AttemptType(base: Packet, s: seq<byte>, st: PState, t: PacketType): Attempt {
    if !Framed(s, t) || !Hex.IsHex(s[1..Head(t)]) then Miss(st)
    else
      Hit(Packet(t, base.hops, Hex.Bin(s[1..Head(t)]), base.mlat, base.rssi, base.source),
          PastLineEnd(s, Head(t) + 1), st)
  }

  function Parse(base: Packet, s: seq<byte>, st: PState): Attempt {
    var a := AttemptType(base, s, st, MODE_AC);
    if a.Hit? then a else
    var b := AttemptType(base, s, a.state, MODE_S_SHORT);
    if b.Hit? then b else
    AttemptType(base, s, b.state, MODE_S_LONG)
  }

  method IsFrame(buf: Buf, t: PacketType) returns (ok: bool)
    requires buf.Valid()
    ensures ok == Framed(buf.Window(), t)
  {
    var o := 1 + 2 * Len(t);
    var total := o + 3;
    if (buf.length < total - 1 || buf.Chr(o + 1) != LF) &&
       (buf.length < total || buf.Chr(o + 1) != CR || buf.Chr(o + 2) != LF)
    {
      return false;
    }
    return buf.Chr(0) == STAR && buf.Chr(o) == SEMI;
  }

  /** Everything of the packet but its payload bytes is left alone by a failed attempt. */
  twostate predicate OnlyPayload(packet: PacketBuf)
    reads packet
  {
    packet.typ == old(packet.typ) && packet.hops == old(packet.hops) && packet.mlat == old(packet.mlat) &&
    packet.rssi == old(packet.rssi) && packet.source == old(packet.source)
  }

  method ParsePacket(buf: Buf, packet: PacketBuf, ghost state: PState, t: PacketType) returns (ok: bool)
    requires buf.Valid() && packet.Valid() && buf.data != packet.payload
    modifies buf, packet, packet.payload
    ensures buf.Valid() && (!ok ==> OnlyPayload(packet))
    ensures Settles(AttemptType(old(packet.Value()), old(buf.Window()), state, t),
                    ok, old(buf.Window()), buf.Window(), packet.Value(), state)
  {
    hide Hex.IsHex, Hex.Bin;
    var framed := IsFrame(buf, t);
    if !framed { return false; }
    var n := Len(t);
    var o := 1 + 2 * n;
    var used := if buf.Chr(o + 1) == CR then o + 3 else o + 2;
    assert used == PastLineEnd(buf.Window(), o + 1);
    hide LineEndAt;
    ok := ReadPayload(buf, packet.payload, n);
    if !ok { return; }
    packet.typ := t;
    buf.Consume(used);
  }

  lemma BaseKept(base: Packet, scribbled: Packet, s: seq<byte>, st: PState, t: PacketType)
    requires scribbled == base.(payload := scribbled.payload)
    ensures AttemptType(scribbled, s, st, t) == AttemptType(base, s, st, t)
  {}

  method ParseFrame(buf: Buf, packet: PacketBuf, ghost state: PState) returns (ok: bool)
    requires buf.Valid() && packet.Valid() && buf.data != packet.payload
    modifies buf, packet, packet.payload
    ensures buf.Valid() && packet.hops == old(packet.hops) && packet.source == old(packet.source)
    ensures Settles(Parse(old(packet.Value()), old(buf.Window()), state),
                    ok, old(buf.Window()), buf.Window(), packet.Value(), state)
  {
    ghost var base, w := packet.Value(), buf.Window();
    ok := ParsePacket(buf, packet, state, MODE_AC);
    if !ok {
      BaseKept(base, packet.Value(), w, state, MODE_S_SHORT);
      ok := ParsePacket(buf, packet, state, MODE_S_SHORT);
      if !ok {
        BaseKept(base, packet.Value(), w, state, MODE_S_LONG);
        ok := ParsePacket(buf, packet, state, MODE_S_LONG);
      }
    }
  }

  // ---------------------------------------------------------------- serializing

  function Frame(p: Packet): (s: seq<byte>)
    ensures |s| == 2 * |p.payload| + 3
  {
    [STAR] + Hex.Text(p.payload, true) + [SEMI, LF]
  }

  method Serialize(packet: PacketBuf, buf: Buf)
    requires packet.Valid() && buf.Valid() && buf.Window() == [] && buf.data != packet.payload
    modifies buf, buf.data
    ensures buf.Valid() && buf.Window() == Frame(packet.Value())
  {
    var n := Len(packet.typ);
    var o := 1 + 2 * n;
    var d := buf.data;
    d[0] := STAR;
    d[o] := SEMI;
    d[o + 1] := LF;
    Hex.FromBin(d, 1, packet.payload[..n], true);
    buf.length := o + 2;
    assert d[..o + 2] == [d[0]] + d[1..o] + [d[o], d[o + 1]];
  }

  // ---------------------------------------------------------------- more input

  predicate Accepted(s: seq<byte>, t: PacketType) { Framed(s, t) && Hex.IsHex(s[1..Head(t)]) }

  lemma AttemptExtends(base: Packet, s: seq<byte>, x: seq<byte>, st: PState, t: PacketType)
    requires Framed(s, t) || |s| >= Head(t) + 3
    ensures AttemptType(base, s + x, st, t) == AttemptType(base, s, st, t)
  {
    if Framed(s, t) { assert (s + x)[1..Head(t)] == s[1..Head(t)]; }
  }

  lemma ThirtyTwoDecide(base: Packet, s: seq<byte>, x: seq<byte>, st: PState)
    requires |s| >= 32
    ensures Parse(base, s + x, st) == Parse(base, s, st)
  {
    AttemptExtends(base, s, x, st, MODE_AC);
    AttemptExtends(base, s, x, st, MODE_S_SHORT);
    AttemptExtends(base, s, x, st, MODE_S_LONG);
  }

  lemma OneLength(s: seq<byte>, t: PacketType, u: PacketType)
    requires Accepted(s, t) && Accepted(s, u)
    ensures t == u
  {
    if Head(t) < Head(u) { SemicolonEndsHex(s, Head(t), Head(u)); }
    if Head(u) < Head(t) { SemicolonEndsHex(s, Head(u), Head(t)); }
  }

  lemma ParseByType(base: Packet, s: seq<byte>, st: PState)
    ensures Parse(base, s, st).state == st
    ensures Parse(base, s, st).Hit? <==> Accepted(s, MODE_AC) || Accepted(s, MODE_S_SHORT) || Accepted(s, MODE_S_LONG)
    ensures forall t :: t in {MODE_AC, MODE_S_SHORT, MODE_S_LONG} && Accepted(s, t) ==>
              Parse(base, s, st) == AttemptType(base, s, st, t)
  {
    if t :| t in {MODE_AC, MODE_S_SHORT, MODE_S_LONG} && Accepted(s, t) {
      forall u | u in {MODE_AC, MODE_S_SHORT, MODE_S_LONG} && u != t ensures !Accepted(s, u) {
        if Accepted(s, u) { OneLength(s, t, u); }
      }
    }
  }

  lemma HitExtends(base: Packet, s: seq<byte>, x: seq<byte>, st: PState)
    requires Parse(base, s, st).Hit?
    ensures Parse(base, s + x, st) == Parse(base, s, st)
  {
    ParseByType(base, s, st);
    ParseByType(base, s + x, st);
    var t :| t in {MODE_AC, MODE_S_SHORT, MODE_S_LONG} && Accepted(s, t);
    AttemptExtends(base, s, x, st, t);
    assert Accepted(s + x, t);
  }
}
