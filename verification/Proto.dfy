/** proto.c: length-prefixed protobuf records. Unpacking a record's body belongs to a library and is a
    parameter here. */
module Proto {
  import opened Bytes
  import opened Packets
  import opened Mlat
  import opened Buffer

  const TAG: byte := 0x0A
  const MAGIC: seq<byte> := [0x61, 0x44, 0x73, 0x42]

  datatype Header = Header(magic: seq<byte>, serverId: seq<byte>, mhz: uint32, tsMax: uint64, rssiMax: uint32)
  datatype Message = Message(source: seq<byte>, hops: uint32, mlat: Option<uint64>, rssi: Option<uint32>,
                             payload: seq<byte>)
  datatype Adsb = Adsb(header: Option<Header>, modeAc: Option<Message>, modeSShort: Option<Message>,
                       modeSLong: Option<Message>)

  /** What a connection is read against: the library's unpacker, this server's identifier, the identifier
      given to the connection and the hop limit. Strings carry no terminator except `id`. */
  datatype Env = Env(unpack: seq<byte> -> Option<Adsb>, serverId: seq<byte>, id: seq<byte>, maxHops: uint32)

  // ---------------------------------------------------------------- varints

  /** Value of the base-128 number at index `i` in at most `n` bytes, and the index after it. */
  function Varint(s: seq<byte>, i: nat, n: nat): (r: Option<(nat, nat)>)
    requires n >= 1
    ensures r.Some? ==> i < r.value.1 <= i + n && r.value.1 <= |s|
    decreases n
  {
    if i >= |s| then None
    else if s[i] < 0x80 then Some((s[i], i + 1))
    else if n == 1 then None
    else Above(s[i] - 0x80, 0x80, Varint(s, i + 1, n - 1))
  }

  /** A value whose low groups are already known, with the weight of the groups still to come. */
  function Above(low: nat, weight: nat, r: Option<(nat, nat)>): Option<(nat, nat)> {
    if r.None? then None else Some((low + weight * r.value.0, r.value.1))
  }

  /** The encoder of "Base 128 Varints" in the Protocol Buffers encoding document. */
  function EncodeVarint(v: nat): (e: seq<byte>)
    ensures |e| >= 1
  {
    if v < 0x80 then [v] else [0x80 + v % 0x80] + EncodeVarint(v / 0x80)
  }

  function Pow128(n: nat): (p: nat)
    ensures p >= 1
  {
    if n == 0 then 1 else 0x80 * Pow128(n - 1)
  }

  /** The parser inverts the encoder exactly for the numbers that fit `n` groups; all others it refuses. */
  lemma {:induction false} VarintRoundTrip(v: nat, n: nat, pre: seq<byte>, rest: seq<byte>)
    requires n >= 1
    ensures Varint(pre + EncodeVarint(v) + rest, |pre|, n) ==
            if v < Pow128(n) then Some((v, |pre| + |EncodeVarint(v)|)) else None
    decreases n
  {
    var s := pre + EncodeVarint(v) + rest;
    if v >= 0x80 {
      var pre' := pre + [0x80 + v % 0x80];
      assert s == pre' + EncodeVarint(v / 0x80) + rest;
      assert s[|pre|] == 0x80 + v % 0x80;
      if n > 1 {
        VarintRoundTrip(v / 0x80, n - 1, pre', rest);
        var q, p := v / 0x80, Pow128(n - 1);
        assert v < 0x80 * p <==> q < p;
      } else {
        assert Pow128(1) == 0x80;
      }
    } else {
      assert s[|pre|] == v;
      assert Pow128(n) >= 0x80;
    }
  }

  /** The library's bound: four groups. */
  lemma FourGroups()
    ensures Pow128(4) == 0x1000_0000
  {}

  lemma AboveTwice(acc: nat, w: nat, low: nat, r: Option<(nat, nat)>)
    ensures Above(acc, w, Above(low, 0x80, r)) == Above(acc + w * low, w * 0x80, r)
  {}

  /** 1 << shift, for the shifts of the varint loop. */
  function Weight(shift: nat): nat {
    if shift == 0 then 1 else if shift == 7 then 0x80 else if shift == 14 then 0x4000 else 0x20_0000
  }

  /** value | (c & 0x7f) << shift, the bits of `value` all lying below. */
  function Merge(value: nat, c: byte, shift: nat): nat { value + Weight(shift) * (c % 0x80) }

  lemma VarintTurn(s: seq<byte>, i: nat, n: nat, acc: nat, shift: nat)
    requires i < |s| && 1 <= n <= 4 && shift == 7 * (4 - n)
    ensures Above(acc, Weight(shift), Varint(s, i, n)) ==
            if s[i] < 0x80 then Some((Merge(acc, s[i], shift), i + 1))
            else if n == 1 then None
            else Above(Merge(acc, s[i], shift), Weight(shift + 7), Varint(s, i + 1, n - 1))
  {
    if s[i] >= 0x80 && n > 1 {
      var rest, low := Varint(s, i + 1, n - 1), s[i] % 0x80;
      assert Varint(s, i, n) == Above(low, 0x80, rest) && low == s[i] - 0x80;
      AboveTwice(acc, Weight(shift), low, rest);
      assert Weight(shift) * 0x80 == Weight(shift + 7);
    }
  }

  method ParseVarint(buf: Buf, from: nat) returns (value: int, next: nat)
    requires buf.Valid()
    ensures match Varint(buf.Window(), from, 4)
            case None => value == -1
            case Some(r) => value == r.0 && next == r.1
  {
    var acc: nat, shift: nat := 0, 0;
    ghost var n, s := 4, buf.Window();
    next := from;
    while next < buf.length
      invariant buf.Window() == s
      invariant 1 <= n <= 4 && shift == 7 * (4 - n)
      invariant Varint(s, from, 4) == Above(acc, Weight(shift), Varint(s, next, n))
    {
      VarintTurn(s, next, n, acc, shift);
      var c := buf.Chr(next);
      acc := Merge(acc, c, shift);
      next := next + 1;
      if c < 0x80 { return acc, next; }
      shift := shift + 7;
      if shift > 21 { return -1, next; }
      n := n - 1;
    }
    return -1, next;
  }

  // ---------------------------------------------------------------- records

  /** Body of the record at the head of `s`, and the bytes the record takes. */
  function Body(s: seq<byte>): (r: Option<(seq<byte>, nat)>)
    ensures r.Some? ==> 2 <= r.value.1 <= |s|
  {
    if |s| < 1 || s[0] != TAG then None
    else match Varint(s, 1, 4)
         case None => None
         case Some((n, start)) => if start + n > |s| then None else Some((s[start..start + n], start + n))
  }

  function Unwrap(env: Env, s: seq<byte>): (r: Option<(Adsb, nat)>)
    ensures r.Some? ==> 2 <= r.value.1 <= |s|
  {
    match Body(s)
    case None => None
    case Some((body, used)) =>
      match env.unpack(body)
      case None => None
      case Some(msg) => Some((msg, used))
  }

  /** A record as this format writes it. */
  function Record(body: seq<byte>): seq<byte> { [TAG] + EncodeVarint(|body|) + body }

  /** Records come back whole, whatever follows, exactly when their length fits four groups. */
  lemma RecordRoundTrip(body: seq<byte>, rest: seq<byte>)
    ensures Body(Record(body) + rest) ==
            if |body| < 0x1000_0000 then Some((body, |Record(body)|)) else None
  {
    var e := EncodeVarint(|body|);
    var s := Record(body) + rest;
    assert s == [TAG] + e + (body + rest);
    VarintRoundTrip(|body|, 4, [TAG], body + rest);
    FourGroups();
    assert s[1 + |e|..] == body + rest;
    if |body| < 0x1000_0000 {
      assert s[1 + |e|..1 + |e| + |body|] == (body + rest)[..|body|];
    }
  }

  /** All bodies of a stream of records. */
  function Bodies(s: seq<byte>): seq<seq<byte>>
    decreases |s|
  {
    match Body(s)
    case None => []
    case Some((body, used)) => [body] + Bodies(s[used..])
  }

  function Records(bodies: seq<seq<byte>>): seq<byte> {
    if bodies == [] then [] else Record(bodies[0]) + Records(bodies[1..])
  }

  lemma {:induction false} StreamRoundTrip(bodies: seq<seq<byte>>)
    requires forall i :: 0 <= i < |bodies| ==> |bodies[i]| < 0x1000_0000
    ensures Bodies(Records(bodies)) == bodies
  {
    if bodies != [] {
      hide Record, Body;
      var s, rest := Records(bodies), Records(bodies[1..]);
      RecordRoundTrip(bodies[0], rest);
      assert s[|Record(bodies[0])|..] == rest;
      StreamRoundTrip(bodies[1..]);
      assert bodies == [bodies[0]] + bodies[1..];
    }
  }

  // ---------------------------------------------------------------- parsing

  function HeaderState(env: Env, h: Header, st: PState): (r: (bool, PState))
    ensures Ready(st) ==> Ready(r.1)
  {
    if h.magic != MAGIC then (false, st)
    else if h.mhz == 0 || h.mhz > UINT16_MAX || h.tsMax == 0 || h.rssiMax == 0 then (false, st)
    else
      var st' := st.(mhz := h.mhz, tsMax := h.tsMax, rssiMax := h.rssiMax);
      if h.serverId == env.serverId then (false, st') else (true, st'.(haveHeader := true))
  }

  function MessageAttempt(m: Message, base: Packet, st: PState, t: PacketType, used: nat): (a: Attempt)
    requires Ready(st)
    ensures a.state.(clock := st.clock) == st && (a.Hit? ==> a.used == used)
  {
    if !st.haveHeader || |m.payload| != Len(t) || !ValidId(m.source + [0]) then Miss(st)
    else
      Hit(Packet(t, m.hops % TWO16, m.payload,
                 if m.mlat.Some? then ScaleIn(st.clock, m.mlat.value, st.tsMax, st.mhz) else base.mlat,
                 if m.rssi.Some? then RssiIn(m.rssi.value, st.rssiMax) else base.rssi,
                 m.source + [0]),
          used, if m.mlat.Some? then st.(clock := Advance(st.clock, m.mlat.value, st.tsMax)) else st)
  }

  /** A header is a hit of type NONE. */
  function Parse(env: Env, base: Packet, s: seq<byte>, st: PState): (a: Attempt)
    requires Ready(st)
    ensures Ready(a.state)
  {
    match Unwrap(env, s)
    case None => Miss(st)
    case Some((msg, used)) =>
      if msg.header.Some? then
        var (ok, st') := HeaderState(env, msg.header.value, st);
        if ok then Hit(base.(typ := NONE, payload := []), used, st') else Miss(st')
      else if msg.modeAc.Some? then MessageAttempt(msg.modeAc.value, base, st, MODE_AC, used)
      else if msg.modeSShort.Some? then MessageAttempt(msg.modeSShort.value, base, st, MODE_S_SHORT, used)
      else if msg.modeSLong.Some? then MessageAttempt(msg.modeSLong.value, base, st, MODE_S_LONG, used)
      else Miss(st)
  }

  /** A header opens a session exactly if it begins "aDsB", has a rate of 16 bits, a largest timestamp and a largest
      level, and is another server's; the connection then keeps those three. */
  lemma HeaderAcceptedIff(env: Env, h: Header, st: PState)
    ensures var (ok, st') := HeaderState(env, h, st);
            && (ok <==> h.magic == [0x61, 0x44, 0x73, 0x42] && 1 <= h.mhz <= 65535 && h.tsMax > 0 && h.rssiMax > 0 &&
                        h.serverId != env.serverId)
            && (ok ==> st' == PState(st.clock, h.mhz, h.tsMax, h.rssiMax, true))
            && (!ok ==> st'.haveHeader == st.haveHeader && st'.clock == st.clock)
  {}

  method UnwrapRecord(env: Env, buf: Buf) returns (msg: Option<Adsb>, used: nat)
    requires buf.Valid()
    ensures match Unwrap(env, buf.Window())
            case None => msg == None
            case Some(r) => msg == Some(r.0) && used == r.1
  {
    used := 0;
    if buf.length < 1 || buf.Chr(0) != TAG { return None, 0; }
    var n, start := ParseVarint(buf, 1);
    if n == -1 || start + n > buf.length { return None, 0; }
    msg := env.unpack(buf.Slice(start, start + n));
    used := start + n;
  }

  method ParseHeader(env: Env, h: Header, state: ParserState) returns (ok: bool)
    modifies state
    ensures (ok, state.Value()) == HeaderState(env, h, old(state.Value()))
    ensures ok <==> h.magic == [0x61, 0x44, 0x73, 0x42] && 1 <= h.mhz <= 65535 && h.tsMax > 0 && h.rssiMax > 0 &&
                    h.serverId != env.serverId
  {
    if h.magic != MAGIC { return false; }
    if h.mhz == 0 || h.mhz > UINT16_MAX || h.tsMax == 0 || h.rssiMax == 0 { return false; }
    state.mhz, state.tsMax, state.rssiMax := h.mhz, h.tsMax, h.rssiMax;
    if h.serverId == env.serverId { return false; }
    state.haveHeader := true;
    return true;
  }

  method ParseMessage(m: Message, packet: PacketBuf, state: ParserState, t: PacketType, ghost used: nat)
      returns (ok: bool)
    requires packet.Valid() && Ready(state.Value())
    modifies packet, packet.payload, state.clock
    ensures var a := MessageAttempt(m, old(packet.Value()), old(state.Value()), t, used);
            ok == a.Hit? && state.Value() == a.state && packet.Value() == if ok then a.packet else old(packet.Value())
  {
    if !state.haveHeader || |m.payload| != Len(t) { return false; }
    var valid := ValidateId(m.source + [0]);
    if !valid { return false; }
    packet.source := m.source + [0];
    packet.hops := m.hops % TWO16;
    CopyPayload(packet.payload, m.payload);
    if m.mlat.Some? {
      packet.mlat := state.clock.TimestampIn(m.mlat.value, state.tsMax, state.mhz);
    }
    if m.rssi.Some? {
      packet.rssi := RssiIn(m.rssi.value, state.rssiMax);
    }
    packet.typ := t;
    return true;
  }

  method ParseFrame(env: Env, buf: Buf, packet: PacketBuf, state: ParserState) returns (ok: bool)
    requires buf.Valid() && packet.Valid() && buf.data != packet.payload && Ready(state.Value())
    modifies buf, packet, packet.payload, state, state.clock
    ensures buf.Valid()
    ensures !ok ==> packet.Value() == old(packet.Value())
    ensures Settles(Parse(env, old(packet.Value()), old(buf.Window()), old(state.Value())),
                    ok, old(buf.Window()), buf.Window(), packet.Value(), state.Value())
  {
    hide Unwrap, HeaderState, MessageAttempt;
    var msg, used := UnwrapRecord(env, buf);
    if msg == None { return false; }
    var m := msg.value;
    if m.header.Some? {
      ok := ParseHeader(env, m.header.value, state);
      if !ok { return; }
      packet.typ := NONE;
    } else if m.modeAc.Some? {
      ok := ParseMessage(m.modeAc.value, packet, state, MODE_AC, used);
    } else if m.modeSShort.Some? {
      ok := ParseMessage(m.modeSShort.value, packet, state, MODE_S_SHORT, used);
    } else if m.modeSLong.Some? {
      ok := ParseMessage(m.modeSLong.value, packet, state, MODE_S_LONG, used);
    } else {
      return false;
    }
    if ok { buf.Consume(used); }
  }

  // ---------------------------------------------------------------- more input

  lemma {:induction false} VarintExtends(s: seq<byte>, x: seq<byte>, i: nat, n: nat)
    requires n >= 1 && Varint(s, i, n).Some?
    ensures Varint(s + x, i, n) == Varint(s, i, n)
    decreases n
  {
    assert (s + x)[i] == s[i];
    if s[i] >= 0x80 { VarintExtends(s, x, i + 1, n - 1); }
  }

  lemma BodyExtends(s: seq<byte>, x: seq<byte>)
    requires Body(s).Some?
    ensures Body(s + x) == Body(s)
  {
    VarintExtends(s, x, 1, 4);
    var (n, start) := Varint(s, 1, 4).value;
    assert (s + x)[start..start + n] == s[start..start + n];
  }

  /** A record cut short is no record. */
  lemma CutRecord(body: seq<byte>, n: nat)
    requires n < |Record(body)|
    ensures Body(Record(body)[..n]) == None
  {
    var s, x := Record(body)[..n], Record(body)[n..];
    assert s + x == Record(body) + [];
    RecordRoundTrip(body, []);
    if Body(s).Some? { BodyExtends(s, x); }
  }

  /** A complete record is the same record whatever follows it. */
  lemma UnwrapExtends(env: Env, s: seq<byte>, x: seq<byte>)
    requires Unwrap(env, s).Some?
    ensures Unwrap(env, s + x) == Unwrap(env, s)
  {
    BodyExtends(s, x);
  }

  lemma HitExtends(env: Env, base: Packet, s: seq<byte>, x: seq<byte>, st: PState)
    requires Ready(st) && Unwrap(env, s).Some?
    ensures Parse(env, base, s + x, st) == Parse(env, base, s, st)
  {
    UnwrapExtends(env, s, x);
  }

  /** A complete header record that is refused: no later bytes can make the head of `s` parse. */
  predicate Dead(env: Env, s: seq<byte>) {
    match Unwrap(env, s)
    case None => false
    case Some((msg, _)) => msg.header.Some? && !HeaderState(env, msg.header.value, CLEARED).0
  }

  lemma DeadMisses(env: Env, base: Packet, s: seq<byte>, x: seq<byte>, st: PState)
    requires Dead(env, s) && Ready(st)
    ensures Parse(env, base, s + x, st).Miss? && Dead(env, s + x) && s[0] == TAG
  {
    UnwrapExtends(env, s, x);
  }

  /** Only a dead head leaves a trace in the state when it is missed. */
  lemma SpoilingIsDead(env: Env, base: Packet, s: seq<byte>, st: PState)
    requires Ready(st) && Parse(env, base, s, st).Miss? && Parse(env, base, s, st).state != st
    ensures Dead(env, s)
  {}
}
