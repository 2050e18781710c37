/** packet.h: the hub's internal packet, and the per-connection parser state. */
module Packets {
  import opened Bytes
  import opened Mlat

  datatype PacketType = NONE | MODE_AC | MODE_S_SHORT | MODE_S_LONG

  const PAYLOAD_LEN_MAX := 14
  const UUID_LEN := 37

  /** packet_payload_len. */
  function Len(t: PacketType): (n: nat)
    ensures n <= PAYLOAD_LEN_MAX
  {
    match t
    case NONE => 0
    case MODE_AC => 2
    case MODE_S_SHORT => 7
    case MODE_S_LONG => 14
  }

  /** A packet as the hub sees it: only the payload bytes its type gives a meaning to. */
  datatype Packet = Packet(typ: PacketType, hops: uint32, payload: seq<byte>, mlat: uint64, rssi: uint32,
                           source: seq<byte>)

  function Blank(source: seq<byte>): Packet { Packet(NONE, 0, [], 0, 0, source) }

  predicate WellFormed(p: Packet) { |p.payload| == Len(p.typ) }

  /** `id` is a C string of printable characters that fits a UUID buffer with its terminator. */
  predicate ValidId(id: seq<byte>) {
    exists n :: 0 <= n < |id| && n < UUID_LEN && id[n] == 0 && forall i :: 0 <= i < n ==> 32 <= id[i] <= 126
  }

  /** packet_validate_id. The memory is readable up to its terminator or for a whole identifier. */
  method ValidateId(id: seq<byte>) returns (ok: bool)
    requires 0 in id || |id| >= UUID_LEN
    ensures ok == ValidId(id)
    ensures ok <==> exists n :: 0 <= n < |id| && n < 37 && id[n] == 0 && forall i :: 0 <= i < n ==> 32 <= id[i] <= 126
  {
    for i := 0 to UUID_LEN
      invariant i <= |id| && forall k :: 0 <= k < i ==> 32 <= id[k] <= 126
    {
      assert i < |id| by {
        if 0 in id { var k :| 0 <= k < |id| && id[k] == 0; assert k >= i; }
      }
      var c := id[i];
      if c == 0 { return true; }
      if c < 32 || c > 126 { return false; }
    }
    return false;
  }

  /** What packet_sanity_check aborts on. */
  predicate Sane(p: Packet) {
    && ValidId(p.source)
    && p.typ != NONE
    && p.mlat <= INT64_MAX
    && p.rssi <= UINT32_MAX
  }

  /** struct packet. */
  class PacketBuf {
    var typ: PacketType
    var hops: uint32
    const payload: array<byte>
    var mlat: uint64
    var rssi: uint32
    var source: seq<byte>

    ghost predicate Valid() reads this { payload.Length == PAYLOAD_LEN_MAX }

    ghost function Value(): Packet
      reads this, payload
      requires Valid()
    {
      Packet(typ, hops, payload[..Len(typ)], mlat, rssi, source)
    }

    constructor (source: seq<byte>)
      ensures Valid() && fresh(payload) && Value() == Blank(source)
    {
      typ, hops, mlat, rssi, this.source := NONE, 0, 0, 0, source;
      payload := new byte[PAYLOAD_LEN_MAX](i => 0);
    }

    /** memcpy of the whole structure. */
    method CopyFrom(that: PacketBuf)
      requires Valid() && that.Valid() && that.payload != payload
      modifies this, payload
      ensures Value() == that.Value()
    {
      typ, hops, mlat, rssi, source := that.typ, that.hops, that.mlat, that.rssi, that.source;
      forall i | 0 <= i < PAYLOAD_LEN_MAX { payload[i] := that.payload[i]; }
      assert payload[..Len(typ)] == that.payload[..Len(typ)];
    }
  }

  /** memcpy into the payload. */
  method CopyPayload(payload: array<byte>, b: seq<byte>)
    requires |b| <= payload.Length
    modifies payload
    ensures payload[..|b|] == b
  {
    for i := 0 to |b|
      invariant payload[..i] == b[..i]
    {
      payload[i] := b[i];
    }
  }

  /** The state a connection's parser may keep, all formats laid over the same memory. */
  datatype PState = PState(clock: Clock, mhz: uint16, tsMax: uint64, rssiMax: uint32, haveHeader: bool)

  /** Once a header was accepted, its rate and signal range are usable. */
  predicate Ready(st: PState) { st.haveHeader ==> st.mhz > 0 && st.rssiMax > 0 }

  const CLEARED := PState(ZERO, 0, 0, 0, false)

  class ParserState {
    const clock: MlatState
    var mhz: uint16
    var tsMax: uint64
    var rssiMax: uint32
    var haveHeader: bool

    ghost function Value(): PState
      reads this, clock
    {
      PState(clock.Value(), mhz, tsMax, rssiMax, haveHeader)
    }

    constructor ()
      ensures fresh(clock) && Value() == CLEARED
    {
      clock := new MlatState();
      mhz, tsMax, rssiMax, haveHeader := 0, 0, 0, false;
    }
  }

  /** Outcome of one attempt to parse a frame at the head of the window. A miss may have changed state. */
  datatype Attempt = Hit(packet: Packet, used: nat, state: PState) | Miss(state: PState)

  /** A parser call has done what `a` says: `w` and `w'` are the window before and after it. */
  ghost predicate Settles(a: Attempt, ok: bool, w: seq<byte>, w': seq<byte>, packet: Packet, state: PState) {
    && ok == a.Hit?
    && state == a.state
    && (if ok then packet == a.packet && a.used <= |w| && w' == w[a.used..] else w' == w)
  }
}
