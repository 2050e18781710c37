/** beast.c: binary frames in which every 0x1a after the first byte is doubled. */
module Beast {
  import opened Bytes
  import opened Packets
  import opened Mlat
  import opened Buffer

  const ESC: byte := 0x1A
  const MHZ := 12
  const MAX48: uint64 := 0xFFFF_FFFF_FFFF
  const OVERLAY := 9

  // ---------------------------------------------------------------- escaping

  function EscapeOne(c: byte): (e: seq<byte>)
    ensures 1 <= |e| <= 2
  {
    if c == ESC then [ESC, ESC] else [c]
  }

  function EscapeTail(x: seq<byte>): (e: seq<byte>)
    ensures |x| <= |e| <= 2 * |x|
  {
    if x == [] then []
    else EscapeOne(x[0]) + EscapeTail(x[1..])
  }

  /** The first byte is a frame marker and stays single. */
  function Escape(x: seq<byte>): (e: seq<byte>)
    ensures |x| <= |e| <= 2 * |x|
    ensures x != [] ==> |e| < 2 * |x| && e[0] == x[0]
  {
    if x == [] then [] else [x[0]] + EscapeTail(x[1..])
  }

  /** `k` bytes off an escaped stream, and how many stream bytes they took. */
  function UnescapeTail(s: seq<byte>, k: nat): (r: Option<(seq<byte>, nat)>)
    ensures r.Some? ==> |r.value.0| == k && k <= r.value.1 <= |s|
    decreases k
  {
    if k == 0 then Some(([], 0))
    else if s == [] then None
    else if s[0] != ESC then Prepend([s[0]], 1, UnescapeTail(s[1..], k - 1))
    else if |s| == 1 || s[1] != ESC then None
    else Prepend([ESC], 2, UnescapeTail(s[2..], k - 1))
  }

  function Unescape(s: seq<byte>, k: nat): (r: Option<(seq<byte>, nat)>)
    ensures r.Some? ==> |r.value.0| == k && k <= r.value.1 <= |s|
    ensures r.Some? && k > 0 ==> r.value.0[0] == s[0]
  {
    if k == 0 then Some(([], 0))
    else if s == [] then None
    else Prepend([s[0]], 1, UnescapeTail(s[1..], k - 1))
  }

  function Prepend(x: seq<byte>, n: nat, r: Option<(seq<byte>, nat)>): Option<(seq<byte>, nat)> {
    if r.None? then None else Some((x + r.value.0, n + r.value.1))
  }

  lemma UnescapeTailStep(s: seq<byte>, k: nat)
    requires k > 0 && UnescapeTail(s, k).Some?
    ensures var step := |EscapeOne(s[0])|;
            && step <= |s| && s[..step] == EscapeOne(s[0]) && UnescapeTail(s[step..], k - 1).Some?
            && var (x, u) := UnescapeTail(s[step..], k - 1).value;
               UnescapeTail(s, k) == Some(([s[0]] + x, step + u))
  {
    hide EscapeTail;
  }

  lemma EscapeTailCons(c: byte, x: seq<byte>)
    ensures EscapeTail([c] + x) == EscapeOne(c) + EscapeTail(x)
  {
    assert ([c] + x)[1..] == x;
  }

  lemma {:induction false} UnescapeTailSound(s: seq<byte>, k: nat)
    requires UnescapeTail(s, k).Some?
    ensures var (x, u) := UnescapeTail(s, k).value; u == |EscapeTail(x)| && s[..u] == EscapeTail(x)
    decreases k
  {
    if k > 0 {
      UnescapeTailStep(s, k);
      hide UnescapeTail, EscapeTail, EscapeOne;
      var step := |EscapeOne(s[0])|;
      var (x, u) := UnescapeTail(s[step..], k - 1).value;
      UnescapeTailSound(s[step..], k - 1);
      EscapeTailCons(s[0], x);
      SplitTake(s, step, step + u);
    }
  }

  lemma SplitTake(s: seq<byte>, a: nat, u: nat)
    requires a <= u <= |s|
    ensures s[..u] == s[..a] + s[a..][..u - a]
  {}

  lemma UnescapeOne(c: byte, t: seq<byte>, k: nat)
    requires k > 0
    ensures UnescapeTail(EscapeOne(c) + t, k) == Prepend([c], |EscapeOne(c)|, UnescapeTail(t, k - 1))
  {}

  lemma Regroup(a: seq<byte>, b: seq<byte>, c: seq<byte>)
    ensures (a + b) + c == a + (b + c)
  {}

  lemma EscapeTailStep(x: seq<byte>, rest: seq<byte>)
    requires x != []
    ensures EscapeTail(x) == EscapeOne(x[0]) + EscapeTail(x[1..])
    ensures EscapeTail(x) + rest == EscapeOne(x[0]) + (EscapeTail(x[1..]) + rest)
  {
    hide EscapeOne;
    var one, e, all := EscapeOne(x[0]), EscapeTail(x[1..]), EscapeTail(x);
    assert all == one + e;
    hide EscapeTail;
    Regroup(one, e, rest);
  }

  lemma PrependFirst(x: seq<byte>, n: nat, m: nat)
    requires x != []
    ensures Prepend([x[0]], n, Some((x[1..], m))) == Some((x, n + m))
  {
    assert x == [x[0]] + x[1..];
  }

  lemma {:induction false} UnescapeTailComplete(x: seq<byte>, rest: seq<byte>)
    ensures UnescapeTail(EscapeTail(x) + rest, |x|) == Some((x, |EscapeTail(x)|))
  {
    if x != [] {
      hide EscapeOne, UnescapeTail, EscapeTail, Prepend;
      UnescapeTailComplete(x[1..], rest);
      EscapeTailStep(x, rest);
      UnescapeOne(x[0], EscapeTail(x[1..]) + rest, |x|);
      PrependFirst(x, |EscapeOne(x[0])|, |EscapeTail(x[1..])|);
    }
  }

  /** Unescaping succeeds exactly on the streams that begin with an escaped text, and gives that text. */
  lemma UnescapeTailIff(s: seq<byte>, k: nat, x: seq<byte>, u: nat)
    ensures UnescapeTail(s, k) == Some((x, u)) <==>
            |x| == k && u == |EscapeTail(x)| && u <= |s| && s[..u] == EscapeTail(x)
  {
    if UnescapeTail(s, k) == Some((x, u)) {
      UnescapeTailSound(s, k);
    }
    if |x| == k && u == |EscapeTail(x)| && u <= |s| && s[..u] == EscapeTail(x) {
      UnescapeTailComplete(x, s[u..]);
      assert s == EscapeTail(x) + s[u..];
    }
  }

  /** The first byte is taken as it is; the rest is unescaped. */
  lemma UnescapeStep(s: seq<byte>, k: nat, x: seq<byte>, u: nat)
    requires k > 0 && s != []
    ensures Unescape(s, k) == Some((x, u)) <==>
            x != [] && u > 0 && x[0] == s[0] && UnescapeTail(s[1..], k - 1) == Some((x[1..], u - 1))
  {
    hide UnescapeTail;
    assert x != [] ==> x == [x[0]] + x[1..];
  }

  lemma EscapeStep(s: seq<byte>, x: seq<byte>, u: nat)
    requires 0 < u <= |s| && x != []
    ensures s[..u] == Escape(x) <==> x[0] == s[0] && s[1..][..u - 1] == EscapeTail(x[1..])
    ensures |Escape(x)| == 1 + |EscapeTail(x[1..])|
  {
    hide EscapeTail;
    var t, e := s[1..][..u - 1], EscapeTail(x[1..]);
    assert s[..u] == [s[0]] + t && Escape(x) == [x[0]] + e;
    if [s[0]] + t == [x[0]] + e { assert t == ([s[0]] + t)[1..] && e == ([x[0]] + e)[1..]; }
  }

  lemma UnescapeIff(s: seq<byte>, k: nat, x: seq<byte>, u: nat)
    ensures Unescape(s, k) == Some((x, u)) <==>
            |x| == k && u == |Escape(x)| && u <= |s| && s[..u] == Escape(x)
  {
    if k > 0 && s != [] && x != [] && u > 0 {
      hide UnescapeTail, EscapeTail, Unescape, Escape;
      UnescapeStep(s, k, x, u);
      UnescapeTailIff(s[1..], k - 1, x[1..], u - 1);
      if u <= |s| { EscapeStep(s, x, u); }
    }
  }

  /** The round trip, with anything after the escaped text. */
  lemma EscapeRoundTrip(x: seq<byte>, rest: seq<byte>)
    ensures Unescape(Escape(x) + rest, |x|) == Some((x, |Escape(x)|))
  {
    assert (Escape(x) + rest)[..|Escape(x)|] == Escape(x);
    UnescapeIff(Escape(x) + rest, |x|, x, |Escape(x)|);
  }

  /** Two texts never escape alike, even when more bytes follow. */
  lemma EscapeInjective(x: seq<byte>, y: seq<byte>, r: seq<byte>, q: seq<byte>)
    requires |x| == |y| && Escape(x) + r == Escape(y) + q
    ensures x == y && r == q
  {
    EscapeRoundTrip(x, r);
    EscapeRoundTrip(y, q);
    assert r == (Escape(x) + r)[|Escape(x)|..] == (Escape(y) + q)[|Escape(y)|..] == q;
  }

  lemma PrependTwice(x: seq<byte>, m: nat, y: seq<byte>, n: nat, r: Option<(seq<byte>, nat)>)
    ensures Prepend(x, m, Prepend(y, n, r)) == Prepend(x + y, m + n, r)
  {
    if r.Some? { assert x + (y + r.value.0) == (x + y) + r.value.0; }
  }

  lemma PrependNothing(r: Option<(seq<byte>, nat)>)
    ensures Prepend([], 0, r) == r
  {
    if r.Some? { assert [] + r.value.0 == r.value.0; }
  }

  function UnescapeFrom(s: seq<byte>, i: nat, k: nat): Option<(seq<byte>, nat)>
    requires i <= |s|
  {
    if i == 0 then Unescape(s, k) else UnescapeTail(s[i..], k)
  }

  /** One turn of the unescaping loop at index `i` of the window. */
  lemma UnescapeTurn(s: seq<byte>, i: nat, k: nat)
    requires i < |s| && k > 0
    ensures UnescapeFrom(s, i, k) ==
            if i == 0 || s[i] != ESC then Prepend([s[i]], 1, UnescapeFrom(s, i + 1, k - 1))
            else if i + 1 == |s| || s[i + 1] != ESC then None
            else Prepend([ESC], 2, UnescapeFrom(s, i + 2, k - 1))
  {}

  lemma UnescapeEnd(s: seq<byte>, i: nat, k: nat, y: seq<byte>)
    requires i <= |s| && (i == |s| || k == 0)
    ensures Prepend(y, i, UnescapeFrom(s, i, k)) == if k == 0 then Some((y, i)) else None
  {
    if k == 0 { assert y + [] == y; }
  }

  method UnescapeInto(out: array<byte>, buf: Buf, k: nat) returns (used: int)
    requires buf.Valid() && out.Length >= k && out != buf.data
    modifies out
    ensures match Unescape(buf.Window(), k)
            case None => used == -1
            case Some(r) => used == r.1 && out[..k] == r.0
  {
    hide Unescape, UnescapeFrom;
    var o, i := 0, 0;
    ghost var s, y := buf.Window(), [];
    Start(s, k);
    while i < buf.length && o < k
      invariant 0 <= o <= k && i <= |s|
      invariant buf.Window() == s && out[..o] == y
      invariant Unescape(s, k) == Prepend(y, i, UnescapeFrom(s, i, k - o))
    {
      ghost var at := i;
      UnescapeTurn(s, i, k - o);
      if i > 0 && buf.Chr(i) == ESC {
        if i == buf.length - 1 || buf.Chr(i + 1) != ESC {
          return -1;
        }
        i := i + 1;
      }
      var c := buf.Chr(i);
      PrependTwice(y, at, [c], i + 1 - at, UnescapeFrom(s, i + 1, k - o - 1));
      out[o] := c;
      i, o, y := i + 1, o + 1, y + [c];
    }
    UnescapeEnd(s, i, k - o, y);
    if o == k {
      return i;
    } else {
      return -1;
    }
  }

  lemma Start(s: seq<byte>, k: nat)
    ensures Unescape(s, k) == Prepend([], 0, UnescapeFrom(s, 0, k))
  {
    PrependNothing(Unescape(s, k));
  }

  /** What byte `i` of a text turns into. */
  function Unit(s: seq<byte>, i: nat): (u: seq<byte>)
    requires i < |s|
    ensures 1 <= |u| <= 2
  {
    if i > 0 then EscapeOne(s[i]) else [s[i]]
  }

  function EscapeFrom(s: seq<byte>, i: nat): seq<byte>
    requires i <= |s|
  {
    if i == 0 then Escape(s) else EscapeTail(s[i..])
  }

  lemma EscapeTurn(s: seq<byte>, i: nat, done: seq<byte>)
    requires i < |s|
    ensures done + EscapeFrom(s, i) == (done + Unit(s, i)) + EscapeFrom(s, i + 1)
  {}

  method Append(out: Buf, c: byte)
    requires out.Valid() && out.start == 0 && out.length < BUF_LEN_MAX
    modifies out`length, out.data
    ensures out.Valid() && out.length == old(out.length) + 1 && out.Window() == old(out.Window()) + [c]
  {
    out.data[out.length] := c;
    out.length := out.length + 1;
    assert out.data[..out.length] == out.data[..out.length - 1] + [c];
  }

  /** One turn of the escaping loop. */
  method AppendUnit(out: Buf, c: byte, first: bool)
    requires out.Valid() && out.start == 0 && out.length + 2 <= BUF_LEN_MAX
    modifies out`length, out.data
    ensures out.Valid() && out.length <= old(out.length) + 2
    ensures out.Window() == old(out.Window()) + if first then [c] else EscapeOne(c)
  {
    Append(out, c);
    if !first && c == ESC { Append(out, ESC); }
  }

  method EscapeInto(out: Buf, buf: Buf)
    requires buf.Valid() && out.Valid() && out.Window() == [] && buf.data != out.data && buf != out
    requires 2 * buf.length <= BUF_LEN_MAX
    modifies out`length, out.data
    ensures out.Valid() && out.Window() == Escape(buf.Window())
  {
    hide Escape, EscapeFrom, EscapeOne;
    ghost var s, e := buf.Window(), [];
    EscapeEnds(s);
    for i := 0 to buf.length
      invariant buf.Window() == s
      invariant out.Valid() && out.length <= 2 * i && out.Window() == e
      invariant Escape(s) == e + EscapeFrom(s, i)
    {
      AppendUnit(out, buf.Chr(i), i == 0);
      EscapeTurn(s, i, e);
      e := e + Unit(s, i);
    }
  }

  lemma EscapeEnds(s: seq<byte>)
    ensures Escape(s) == [] + EscapeFrom(s, 0) && EscapeFrom(s, |s|) == []
  {}

  // ---------------------------------------------------------------- 48-bit timestamps

  function ReadMlat(b: seq<byte>): (v: uint64)
    requires |b| == 6
    ensures v <= MAX48
  {
    var b0: int, b1: int, b2: int, b3: int, b4: int := b[0], b[1], b[2], b[3], b[4];
    b0 * 0x100_0000_0000 + b1 * 0x1_0000_0000 + b2 * 0x100_0000 + b3 * 0x1_0000 + b4 * 0x100 + b[5]
  }

  function WriteMlat(v: uint64): (b: seq<byte>)
    ensures |b| == 6
  {
    [Low(v / 0x100_0000_0000), Low(v / 0x1_0000_0000), Low(v / 0x100_0000), Low(v / 0x1_0000), Low(v / 0x100), Low(v)]
  }

  function Low(v: nat): byte { v % 0x100 }

  lemma MlatRoundTrip(v: uint64)
    requires v <= MAX48
    ensures ReadMlat(WriteMlat(v)) == v
  {
    var v1 := v / 0x100;
    var v2 := v1 / 0x100;
    var v3 := v2 / 0x100;
    var v4 := v3 / 0x100;
    var v5 := v4 / 0x100;
    assert v2 == v / 0x1_0000;
    assert v3 == v / 0x100_0000;
    assert v4 == v / 0x1_0000_0000;
    assert v5 == v / 0x100_0000_0000 && v5 < 0x100;
  }

  // ---------------------------------------------------------------- parsing

  function TypeByte(t: PacketType): byte {
    match t
    case NONE => 0x30
    case MODE_AC => 0x31
    case MODE_S_SHORT => 0x32
    case MODE_S_LONG => 0x33
  }

  function AttemptType(base: Packet, s: seq<byte>, st: PState, t: PacketType): Attempt {
    match Unescape(s, OVERLAY + Len(t))
    case None => Miss(st)
    case Some((raw, used)) =>
      var stamp := ReadMlat(raw[2..8]);
      Hit(Packet(t, base.hops, raw[OVERLAY..], ScaleIn(st.clock, stamp, MAX48, MHZ), RssiIn(raw[8], 0xFF), base.source),
          used, st.(clock := Advance(st.clock, stamp, MAX48)))
  }

  function Parse(base: Packet, s: seq<byte>, st: PState): Attempt {
    if |s| < OVERLAY || s[0] != ESC then Miss(st)
    else if s[1] == 0x31 then AttemptType(base, s, st, MODE_AC)
    else if s[1] == 0x32 then AttemptType(base, s, st, MODE_S_SHORT)
    else if s[1] == 0x33 then AttemptType(base, s, st, MODE_S_LONG)
    else Miss(st)
  }

  /** The fields of an unescaped frame. */
  method TakeOverlay(packet: PacketBuf, state: ParserState, t: PacketType, x: seq<byte>)
    requires packet.Valid() && |x| == OVERLAY + Len(t)
    modifies packet, packet.payload, state.clock
    ensures state.Value() == old(state.Value()).(clock := Advance(old(state.Value()).clock, ReadMlat(x[2..8]), MAX48))
    ensures packet.Value() == Packet(t, old(packet.hops), x[OVERLAY..],
                                     ScaleIn(old(state.Value()).clock, ReadMlat(x[2..8]), MAX48, MHZ),
                                     RssiIn(x[8], 0xFF), old(packet.source))
  {
    hide ScaleIn, RssiIn, Advance, ReadMlat;
    packet.typ := t;
    packet.mlat := state.clock.TimestampIn(ReadMlat(x[2..8]), MAX48, MHZ);
    packet.rssi := RssiIn(x[8], 0xFF);
    CopyPayload(packet.payload, x[OVERLAY..]);
  }

  method ParsePacket(buf: Buf, packet: PacketBuf, state: ParserState, t: PacketType) returns (ok: bool)
    requires buf.Valid() && packet.Valid() && buf.data != packet.payload
    modifies buf, packet, packet.payload, state.clock
    ensures buf.Valid() && packet.hops == old(packet.hops) && packet.source == old(packet.source)
    ensures !ok ==> packet.Value() == old(packet.Value())
    ensures Settles(AttemptType(old(packet.Value()), old(buf.Window()), old(state.Value()), t),
                    ok, old(buf.Window()), buf.Window(), packet.Value(), state.Value())
  {
    hide Unescape, ScaleIn, RssiIn, Advance, ReadMlat;
    var raw := new byte[BUF_LEN_MAX](i => 0);
    var n := Len(t);
    var used := UnescapeInto(raw, buf, OVERLAY + n);
    if used < 0 { return false; }
    TakeOverlay(packet, state, t, raw[..OVERLAY + n]);
    buf.Consume(used);
    return true;
  }

  method ParseFrame(buf: Buf, packet: PacketBuf, state: ParserState) returns (ok: bool)
    requires buf.Valid() && packet.Valid() && buf.data != packet.payload
    modifies buf, packet, packet.payload, state.clock
    ensures buf.Valid() && packet.hops == old(packet.hops) && packet.source == old(packet.source)
    ensures Settles(Parse(old(packet.Value()), old(buf.Window()), old(state.Value())),
                    ok, old(buf.Window()), buf.Window(), packet.Value(), state.Value())
  {
    if buf.length < OVERLAY || buf.Chr(0) != ESC { return false; }
    match buf.Chr(1)
    case 0x31 => ok := ParsePacket(buf, packet, state, MODE_AC);
    case 0x32 => ok := ParsePacket(buf, packet, state, MODE_S_SHORT);
    case 0x33 => ok := ParsePacket(buf, packet, state, MODE_S_LONG);
    case _ => return false;
  }

  // ---------------------------------------------------------------- serializing

  /** An unknown signal level is written as full scale. */
  function RssiByte(r: uint32): byte {
    if r != 0 then RssiOut(r, 0xFF) % 0x100 else 0xFF
  }

  /** What a frame says, on the wire's own scales. */
  datatype Wire = Wire(typ: PacketType, stamp: uint64, level: byte, payload: seq<byte>)

  predicate IsWire(w: Wire) { w.typ != NONE && |w.payload| == Len(w.typ) && w.stamp <= MAX48 }

  function Plain(w: Wire): (x: seq<byte>)
    ensures |x| == OVERLAY + |w.payload|
  {
    [ESC, TypeByte(w.typ)] + WriteMlat(w.stamp) + [w.level] + w.payload
  }

  function WireFrame(w: Wire): seq<byte> { Escape(Plain(w)) }

  function WireOf(p: Packet): Wire { Wire(p.typ, ScaleOut(p.mlat, MAX48, MHZ), RssiByte(p.rssi), p.payload) }

  function Frame(p: Packet): seq<byte> {
    if p.typ == NONE then [] else WireFrame(WireOf(p))
  }

  /** A frame with anything after it is read for what it says, and exactly its bytes are consumed. */
  lemma WireReads(base: Packet, w: Wire, rest: seq<byte>, st: PState)
    requires IsWire(w)
    ensures Parse(base, WireFrame(w) + rest, st) ==
            Hit(Packet(w.typ, base.hops, w.payload, ScaleIn(st.clock, w.stamp, MAX48, MHZ), RssiIn(w.level, 0xFF),
                       base.source),
                |WireFrame(w)|, st.(clock := Advance(st.clock, w.stamp, MAX48)))
  {
    hide ScaleIn, RssiIn, Advance, Unescape, ReadMlat, WriteMlat;
    var x, s := Plain(w), WireFrame(w) + rest;
    EscapeRoundTrip(x, rest);
    MlatRoundTrip(w.stamp);
    assert x[2..8] == WriteMlat(w.stamp) && x[8] == w.level && x[OVERLAY..] == w.payload;
    assert s[1] == TypeByte(w.typ) by { assert EscapeTail(x[1..])[0] == x[1]; }
  }

  /** Frames of one type differ as soon as they say different things, whatever follows them. */
  lemma WireInjective(w: Wire, v: Wire, r: seq<byte>, q: seq<byte>)
    requires IsWire(w) && IsWire(v) && w.typ == v.typ && WireFrame(w) + r == WireFrame(v) + q
    ensures w == v && r == q
  {
    hide Escape, WriteMlat, ReadMlat;
    var x, y := Plain(w), Plain(v);
    EscapeInjective(x, y, r, q);
    assert x[2..8] == WriteMlat(w.stamp) && x[8] == w.level && x[OVERLAY..] == w.payload;
    assert y[2..8] == WriteMlat(v.stamp) && y[8] == v.level && y[OVERLAY..] == v.payload;
    MlatRoundTrip(w.stamp);
    MlatRoundTrip(v.stamp);
  }

  lemma Overlay(d: seq<byte>, n: nat)
    requires OVERLAY + n <= |d|
    ensures d[..OVERLAY + n] == [d[0], d[1]] + d[2..8] + [d[8]] + d[OVERLAY..OVERLAY + n]
  {}

  method Serialize(packet: PacketBuf, buf: Buf)
    requires packet.Valid() && buf.Valid() && buf.Window() == [] && buf.data != packet.payload
    modifies buf, buf.data
    ensures buf.Valid() && buf.Window() == Frame(packet.Value())
  {
    hide ScaleOut, WriteMlat, RssiByte, TypeByte, Escape;
    if packet.typ == NONE { return; }
    var n := Len(packet.typ);
    var plain := new Buf();
    var d := plain.data;
    ghost var p := packet.Value();
    d[0], d[1] := ESC, TypeByte(packet.typ);
    plain.Store(OVERLAY, packet.payload[..n]);
    assert d[0] == ESC && d[1] == TypeByte(p.typ) && d[OVERLAY..OVERLAY + n] == p.payload;
    plain.Store(2, WriteMlat(ScaleOut(packet.mlat, MAX48, MHZ)));
    assert d[0] == ESC && d[1] == TypeByte(p.typ) && d[OVERLAY..OVERLAY + n] == p.payload;
    d[8] := RssiByte(packet.rssi);
    plain.length := OVERLAY + n;
    assert d[2..8] == WriteMlat(ScaleOut(p.mlat, MAX48, MHZ));
    assert d[OVERLAY..OVERLAY + n] == p.payload;
    Overlay(d[..], n);
    assert plain.Window() == d[..][..OVERLAY + n];
    EscapeInto(buf, plain);
  }

  // ---------------------------------------------------------------- more input

  lemma UnescapeExtends(s: seq<byte>, x: seq<byte>, k: nat)
    requires Unescape(s, k).Some?
    ensures Unescape(s + x, k) == Unescape(s, k)
  {
    var (y, u) := Unescape(s, k).value;
    UnescapeIff(s, k, y, u);
    assert (s + x)[..u] == s[..u];
    UnescapeIff(s + x, k, y, u);
  }

  lemma {:induction false} UnescapeTailDecided(s: seq<byte>, x: seq<byte>, k: nat)
    requires |s| >= 2 * k && UnescapeTail(s, k).None?
    ensures UnescapeTail(s + x, k).None?
    decreases k
  {
    if k > 0 {
      var step := if s[0] == ESC then 2 else 1;
      assert (s + x)[0] == s[0] && (s + x)[1] == s[1];
      if s[0] != ESC || s[1] == ESC {
        assert (s + x)[step..] == s[step..] + x;
        UnescapeTailDecided(s[step..], x, k - 1);
      }
    }
  }

  lemma HitExtends(base: Packet, s: seq<byte>, x: seq<byte>, st: PState)
    requires Parse(base, s, st).Hit?
    ensures Parse(base, s + x, st) == Parse(base, s, st)
  {
    var t := if s[1] == 0x31 then MODE_AC else if s[1] == 0x32 then MODE_S_SHORT else MODE_S_LONG;
    UnescapeExtends(s, x, OVERLAY + Len(t));
  }

  /** The longest frame has 45 bytes, all but the first doubled. */
  lemma FortyFiveDecide(base: Packet, s: seq<byte>, x: seq<byte>, st: PState)
    requires |s| >= 45
    ensures Parse(base, s + x, st) == Parse(base, s, st)
  {
    if Parse(base, s, st).Hit? {
      HitExtends(base, s, x, st);
    } else if s[0] == ESC && s[1] in {0x31, 0x32, 0x33} {
      var t := if s[1] == 0x31 then MODE_AC else if s[1] == 0x32 then MODE_S_SHORT else MODE_S_LONG;
      var k := OVERLAY + Len(t);
      assert (s + x)[1..] == s[1..] + x;
      UnescapeTailDecided(s[1..], x, k - 1);
    }
  }
}
