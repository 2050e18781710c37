/** receive.c: the incremental machine. A connection gathers bytes in its window, tries its parsers on
    whatever is there, and hands packets on; a failed attempt may leave marks in the parser state. */
module Receiving {
  import opened Bytes
  import opened Packets
  import opened Buffer
  import opened Proto
  import opened Decoder
  import Airspy
  import Beast
  import Raw

  const TABLE: seq<Fmt> := [AIRSPY, BEAST, PROTO, RAW]

  /** receive_autodetect_parse from entry `i` of the table: each parser starts from what the failed ones left. */
  function Autodetect(env: Env, i: nat, base: Packet, s: seq<byte>, st: PState): (r: (Attempt, Mode))
    requires i <= |TABLE| && Ready(st)
    ensures Ready(r.0.state)
    decreases |TABLE| - i
  {
    if i == |TABLE| then (Miss(st), Detect)
    else
      var a := ParseAs(env, TABLE[i], base, s, st);
      if a.Hit? then (a, Use(TABLE[i])) else Autodetect(env, i + 1, base, s, a.state)
  }

  function WrapperParse(env: Env, mode: Mode, base: Packet, s: seq<byte>, st: PState): (r: (Attempt, Mode))
    requires Ready(st)
    ensures Ready(r.0.state)
  {
    match mode
    case Detect => Autodetect(env, 0, base, s, st)
    case Use(f) => (ParseAs(env, f, base, s, st), mode)
  }

  /** The head of the window has marked the state and can never parse with a parser that would notice. */
  ghost predicate Spoiled(env: Env, mode: Mode, w: seq<byte>) {
    || ((mode == Detect || mode == Use(AIRSPY)) && Airspy.Dead(w))
    || ((mode == Detect || mode == Use(PROTO)) && Proto.Dead(env, w))
  }

  /** The parser state agrees with the clean one wherever a delivered packet could show it. */
  ghost predicate Tracks(env: Env, mem: PState, c: Conn, w: seq<byte>) {
    Ready(mem) && Ready(c.state) && (mem == c.state || c.mode == Use(RAW) || Spoiled(env, c.mode, w))
  }

  lemma TracksExtends(env: Env, mem: PState, c: Conn, w: seq<byte>, x: seq<byte>)
    requires Tracks(env, mem, c, w)
    ensures Tracks(env, mem, c, w + x)
  {
    if Airspy.Dead(w) { Airspy.DeadMisses(Blank(env.id), w, x, mem); }
    if Proto.Dead(env, w) { Proto.DeadMisses(env, Blank(env.id), w, x, mem); }
  }

  /** What a parser does with a head it cannot read. */
  lemma Missed(env: Env, f: Fmt, s: seq<byte>, st: PState)
    requires Ready(st) && !Hits(env, f, s, st)
    ensures var st' := ParseAs(env, f, Blank(env.id), s, st).state;
            st' == st || (f == AIRSPY && Airspy.Dead(s)) || (f == PROTO && Proto.Dead(env, s))
  {
    if f == AIRSPY { Airspy.ParseByType(Blank(env.id), s, st); }
    if f == RAW { Raw.ParseByType(Blank(env.id), s, st); }
    if f == PROTO && ParseAs(env, f, Blank(env.id), s, st).state != st {
      Proto.SpoilingIsDead(env, Blank(env.id), s, st);
    }
  }

  /** On a dead head every parser misses from any state, except that raw may still read an airspy-dead one. */
  lemma DeadHead(env: Env, f: Fmt, s: seq<byte>, st: PState)
    requires Ready(st) && (Airspy.Dead(s) || Proto.Dead(env, s))
    ensures Airspy.Dead(s) && Hits(env, f, s, st) ==> f == RAW
    ensures Proto.Dead(env, s) ==> !Hits(env, f, s, st)
    ensures !(Airspy.Dead(s) && Proto.Dead(env, s))
  {
    assert s + [] == s;
    if Airspy.Dead(s) { Airspy.DeadMisses(Blank(env.id), s, [], st); }
    if Proto.Dead(env, s) { Proto.DeadMisses(env, Blank(env.id), s, [], st); }
    if Hits(env, f, s, st) { HitHead(env, f, s, st); }
  }

  /** Failed attempts are unobservable: the machine, started from a marked state, takes exactly the frames
      the clean decoder takes, and leaves a state that differs only where nothing will read it. */
  lemma WrapperMatchesTake(env: Env, c: Conn, s: seq<byte>, mem: PState)
    requires Tracks(env, mem, c, s)
    ensures var (a, mode) := WrapperParse(env, c.mode, Blank(env.id), s, mem);
            match Take(env, c, s)
            case None => a.Miss? && mode == c.mode && Tracks(env, a.state, c, s)
            case Some((p, used, c')) =>
              a.Hit? && a.packet == p && a.used == used && mode == c'.mode &&
              (a.state == c'.state || mode == Use(RAW))
  {
    match c.mode
    case Use(f) =>
      if Spoiled(env, c.mode, s) {
        DeadHead(env, f, s, mem);
        DeadHead(env, f, s, c.state);
      } else if f == RAW {
        Raw.ParseByType(Blank(env.id), s, mem);
        Raw.ParseByType(Blank(env.id), s, c.state);
      } else if !Hits(env, f, s, mem) {
        Missed(env, f, s, mem);
      }
    case Detect =>
      AutodetectMatches(env, 0, c, s, mem);
  }

  /** Raw reads the same frame from any state. */
  lemma RawIgnoresState(env: Env, s: seq<byte>, st: PState, st': PState)
    requires Ready(st) && Ready(st')
    ensures Hits(env, RAW, s, st) == Hits(env, RAW, s, st')
    ensures Hits(env, RAW, s, st) ==>
              ParseAs(env, RAW, Blank(env.id), s, st).packet == ParseAs(env, RAW, Blank(env.id), s, st').packet &&
              ParseAs(env, RAW, Blank(env.id), s, st).used == ParseAs(env, RAW, Blank(env.id), s, st').used
  {
    Raw.ParseByType(Blank(env.id), s, st);
    Raw.ParseByType(Blank(env.id), s, st');
  }

  lemma ChosenByTable(env: Env, c: Conn, s: seq<byte>, i: nat)
    requires c.mode == Detect && Ready(c.state) && i <= |TABLE|
    requires forall j :: 0 <= j < i ==> !Hits(env, TABLE[j], s, c.state)
    requires i < |TABLE| ==> Hits(env, TABLE[i], s, c.state)
    ensures Chosen(env, c, s) == if i < |TABLE| then Some(TABLE[i]) else None
  {
    assert TABLE[0] == AIRSPY && TABLE[1] == BEAST && TABLE[2] == PROTO && TABLE[3] == RAW;
  }

  lemma {:induction false} AutodetectMatches(env: Env, i: nat, c: Conn, s: seq<byte>, mem: PState)
    requires c.mode == Detect && Tracks(env, mem, c, s) && i <= |TABLE|
    requires forall j :: 0 <= j < i ==> !Hits(env, TABLE[j], s, c.state)
    ensures var (a, mode) := Autodetect(env, i, Blank(env.id), s, mem);
            match Take(env, c, s)
            case None => a.Miss? && mode == Detect && Tracks(env, a.state, c, s)
            case Some((p, used, c')) =>
              a.Hit? && a.packet == p && a.used == used && mode == c'.mode &&
              (a.state == c'.state || mode == Use(RAW))
    decreases |TABLE| - i
  {
    if i == |TABLE| {
      ChosenByTable(env, c, s, i);
    } else {
      var f := TABLE[i];
      SameHit(env, f, s, c, mem);
      if Hits(env, f, s, mem) {
        ChosenByTable(env, c, s, i);
      } else {
        Missed(env, f, s, mem);
        AutodetectMatches(env, i + 1, c, s, ParseAs(env, f, Blank(env.id), s, mem).state);
      }
    }
  }

  lemma SameHit(env: Env, f: Fmt, s: seq<byte>, c: Conn, mem: PState)
    requires c.mode == Detect && Tracks(env, mem, c, s)
    ensures Hits(env, f, s, mem) == Hits(env, f, s, c.state)
    ensures Hits(env, f, s, mem) ==>
              var a, b := ParseAs(env, f, Blank(env.id), s, mem), ParseAs(env, f, Blank(env.id), s, c.state);
              a.packet == b.packet && a.used == b.used && (a.state == b.state || f == RAW)
  {
    if mem != c.state {
      DeadHead(env, f, s, mem);
      DeadHead(env, f, s, c.state);
      RawIgnoresState(env, s, mem, c.state);
    }
  }

  /** struct receive, with the packets it passed to send_write in order. */
  class Receive {
    const env: Env
    const buf: Buf
    const state: ParserState
    var mode: Mode
    var open: bool
    var sent: seq<Packet>

    /** Every byte read so far, and the connection the pure decoder is in after them. */
    ghost var taken: seq<byte>
    ghost var clean: Conn

    /** At every moment what was sent is what the decoder makes of the bytes read, however they arrived. */
    ghost predicate Valid()
      reads this, buf, buf.data, state, state.clock
    {
      && buf.Valid()
      && ValidId(env.id)
      && Ready(clean.state)
      && (open ==> InStep() && buf.length < BUF_LEN_MAX)
      && (!open ==> sent == Decode(env, START, taken).out)
    }

    ghost predicate InStep()
      reads this, buf, buf.data, state, state.clock
      requires buf.Valid() && Ready(clean.state)
    {
      && mode == clean.mode
      && Tracks(env, state.Value(), clean, buf.Window())
      && Decode(env, START, taken) == Run(sent, clean, buf.Window())
    }

    constructor (env: Env)
      requires ValidId(env.id)
      ensures Valid() && open && fresh(buf) && fresh(buf.data) && fresh(state) && fresh(state.clock)
      ensures this.env == env && taken == [] && sent == []
    {
      this.env := env;
      buf := new Buf();
      state := new ParserState();
      mode, open, sent := Detect, true, [];
      taken, clean := [], START;
      new;
      NothingOnEmpty(env, START);
    }

    /** Call entry `f` of the parser table. */
    method CallParser(f: Fmt, packet: PacketBuf) returns (ok: bool)
      requires buf.Valid() && packet.Valid() && buf.data != packet.payload && Ready(state.Value())
      modifies buf, packet, packet.payload, state, state.clock
      ensures buf.Valid()
      ensures Settles(ParseAs(env, f, old(packet.Value()), old(buf.Window()), old(state.Value())),
                      ok, old(buf.Window()), buf.Window(), packet.Value(), state.Value())
    {
      match f
      case AIRSPY => ok := Airspy.ParseFrame(buf, packet, state);
      case BEAST => ok := Beast.ParseFrame(buf, packet, state);
      case PROTO => ok := Proto.ParseFrame(env, buf, packet, state);
      case RAW => ok := Raw.ParseFrame(buf, packet, state.Value());
    }

    /** One turn of the detection loop: try entry `i`, and undo what a failed parser wrote to the packet. */
    method TryEntry(i: nat, packet: PacketBuf, orig: PacketBuf) returns (ok: bool)
      requires i < |TABLE| && buf.Valid() && packet.Valid() && orig.Valid() && Ready(state.Value())
      requires packet != orig && packet.payload != orig.payload
      requires buf.data != packet.payload && buf.data != orig.payload
      requires packet.Value() == orig.Value()
      modifies this`mode, buf, packet, packet.payload, state, state.clock
      ensures buf.Valid() && orig.Value() == old(orig.Value())
      ensures var a := ParseAs(env, TABLE[i], orig.Value(), old(buf.Window()), old(state.Value()));
              ok == a.Hit? && state.Value() == a.state &&
              (ok ==> mode == Use(TABLE[i]) &&
                      Settles(a, ok, old(buf.Window()), buf.Window(), packet.Value(), state.Value())) &&
              (!ok ==> mode == old(mode) && buf.Window() == old(buf.Window()) &&
                       (i < |TABLE| - 1 ==> packet.Value() == orig.Value()))
    {
      hide ParseAs, Ready, Len;
      ghost var a := ParseAs(env, TABLE[i], packet.Value(), buf.Window(), state.Value());
      ok := CallParser(TABLE[i], packet);
      assert orig.Value() == old(orig.Value());
      if ok {
        mode := Use(TABLE[i]);
      } else if i < |TABLE| - 1 {
        packet.CopyFrom(orig);
        assert buf.Window() == old(buf.Window()) && state.Value() == a.state;
      }
    }

    method AutodetectParse(packet: PacketBuf) returns (ok: bool)
      requires buf.Valid() && packet.Valid() && buf.data != packet.payload && Ready(state.Value()) && mode == Detect
      modifies this`mode, buf, packet, packet.payload, state, state.clock
      ensures buf.Valid()
      ensures var r := Autodetect(env, 0, old(packet.Value()), old(buf.Window()), old(state.Value()));
              mode == r.1 && Settles(r.0, ok, old(buf.Window()), buf.Window(), packet.Value(), state.Value())
    {
      hide ParseAs, Ready;
      var orig := new PacketBuf(packet.source);
      orig.CopyFrom(packet);
      ghost var base, w, st := packet.Value(), buf.Window(), state.Value();
      ghost var goal := Autodetect(env, 0, base, w, st);
      for i := 0 to |TABLE|
        invariant buf.Valid() && buf.Window() == w && state.Value() == st && Ready(st) && mode == Detect
        invariant orig.Value() == base && (i < |TABLE| ==> packet.Value() == base)
        invariant goal == Autodetect(env, i, base, w, st)
      {
        ok := TryEntry(i, packet, orig);
        if ok { return; }
        st := ParseAs(env, TABLE[i], base, w, st).state;
      }
      return false;
    }

    /** parser_wrapper. */
    method Parse(packet: PacketBuf) returns (ok: bool)
      requires buf.Valid() && packet.Valid() && buf.data != packet.payload && Ready(state.Value())
      modifies this`mode, buf, packet, packet.payload, state, state.clock
      ensures buf.Valid()
      ensures var r := WrapperParse(env, old(mode), old(packet.Value()), old(buf.Window()), old(state.Value()));
              mode == r.1 && Settles(r.0, ok, old(buf.Window()), buf.Window(), packet.Value(), state.Value())
    {
      match mode
      case Detect => ok := AutodetectParse(packet);
      case Use(f) => ok := CallParser(f, packet);
    }

    /** The call of send_write; its first act is to check the packet. */
    method SendWrite(packet: PacketBuf)
      requires packet.Valid() && Sane(packet.Value())
      modifies this`sent
      ensures sent == old(sent) + [packet.Value()]
    {
      var payload := packet.payload[..Len(packet.typ)];
      sent := sent + [Packet(packet.typ, packet.hops, payload, packet.mlat, packet.rssi, packet.source)];
    }

    /** What becomes of a parsed packet: headers and packets over the hop limit are dropped. */
    method Dispatch(packet: PacketBuf)
      requires packet.Valid() && forall f :: f in Forward(env, packet.Value()) ==> Sane(f)
      modifies this`sent, packet
      ensures sent == old(sent) + Forward(env, old(packet.Value()))
    {
      ghost var out := Forward(env, packet.Value());
      if packet.typ == NONE { return; }
      packet.hops := (packet.hops + 1) % TWO32;
      if packet.hops > env.maxHops { return; }
      assert out == [packet.Value()];
      assert out[0] in out;
      SendWrite(packet);
    }

    ghost predicate Looping()
      reads this, buf, buf.data, state, state.clock
    {
      buf.Valid() && ValidId(env.id) && Steady(env, taken, sent, clean, buf.Window(), state.Value(), mode)
    }

    /** One turn of the parse loop; false when the head of the window does not parse. */
    method Step() returns (more: bool)
      requires Looping() && buf.length > 0
      modifies this`mode, this`sent, this`clean, buf, state, state.clock
      ensures Looping() && Ready(clean.state)
      ensures more ==> buf.length < old(buf.length)
      ensures !more ==> Take(env, clean, buf.Window()) == None
    {
      hide Take, Decode, WrapperParse, Tracks, Ready, ValidId, Forward, Sane, Steady, Len;
      ghost var w, mem := buf.Window(), state.Value();
      SteadyReady(env, taken, sent, clean, w, mem, mode);
      var packet := new PacketBuf(env.id);
      WrapperMatchesTake(env, clean, w, mem);
      more := Parse(packet);
      if !more {
        MissKeepsSteady(env, taken, sent, clean, w, mem, state.Value());
        return;
      }
      Turn(env, taken, sent, clean, w, mem);
      TakeIsDeliverable(env, clean, w);
      ghost var t := Take(env, clean, w).value;
      clean := t.2;
      Dispatch(packet);
    }

    /** What an open connection has sent. */
    lemma SentSoFar()
      requires Valid()
      ensures sent == Decode(env, START, taken).out
    {}

    method ParseLoop()
      requires Looping()
      modifies this`mode, this`sent, this`clean, buf, state, state.clock
      ensures Looping() && Ready(clean.state) && Take(env, clean, buf.Window()) == None
    {
      hide Take, Steady, ValidId;
      while buf.length > 0
        invariant Looping()
        decreases buf.length
      {
        var more := Step();
        if !more { return; }
      }
      assert Ready(clean.state) by { SteadyReady(env, taken, sent, clean, buf.Window(), state.Value(), mode); }
      NothingOnEmpty(env, clean);
      assert buf.Window() == [];
    }

    /** receive_del. */
    method Del()
      modifies this`open
      ensures !open
    {
      open := false;
    }

    /** receive_read. `avail` and `cut` say what read() finds and how much of it the kernel hands over. */
    method Read(avail: seq<byte>, cut: nat) returns (n: nat)
      requires Valid() && open
      modifies this, buf, buf.data, state, state.clock
      ensures Valid()
      ensures n <= |avail| && n <= cut && taken == old(taken) + avail[..n]
      ensures n == 0 <==> avail == [] || cut == 0
      ensures n == 0 ==> !open && sent == old(sent)
      // a connection dropped while bytes still came can never have delivered more
      ensures n > 0 && !open ==> Final(env, taken, sent)
    {
      hide Take, Decode, Tracks, Ready, ValidId, Final, Steady;
      ghost var w := buf.Window();
      n := buf.Fill(avail, cut);
      if n == 0 {
        assert avail[..n] == [] && taken + [] == taken;
        Del();
        return;
      }
      Arrival(env, taken, sent, clean, w, avail[..n], state.Value());
      taken := taken + avail[..n];
      ParseLoop();
      SteadyReady(env, taken, sent, clean, buf.Window(), state.Value(), mode);
      Settled(env, taken, sent, clean, buf.Window(), state.Value());
      if buf.length == BUF_LEN_MAX {
        FullWindowIsFinal(env, taken, sent, clean, buf.Window());
        Del();
      }
    }
  }

  lemma SteadyReady(env: Env, taken: seq<byte>, sent: seq<Packet>, c: Conn, w: seq<byte>, mem: PState, mode: Mode)
    requires Steady(env, taken, sent, c, w, mem, mode)
    ensures Ready(mem) && Ready(c.state) && mode == c.mode && Tracks(env, mem, c, w)
  {}

  lemma MissKeepsSteady(env: Env, taken: seq<byte>, sent: seq<Packet>, c: Conn, w: seq<byte>, mem: PState, mem': PState)
    requires Steady(env, taken, sent, c, w, mem, c.mode) && Tracks(env, mem', c, w)
    ensures Steady(env, taken, sent, c, w, mem', c.mode)
  {}

  /** New bytes join the window. */
  lemma Arrival(env: Env, taken: seq<byte>, sent: seq<Packet>, c: Conn, w: seq<byte>, x: seq<byte>, mem: PState)
    requires |w + x| <= BUF_LEN_MAX && Tracks(env, mem, c, w) && Ready(c.state)
    requires Decode(env, START, taken) == Run(sent, c, w)
    ensures Steady(env, taken + x, sent, c, w + x, mem, c.mode)
  {
    hide Take, Decode, Tracks;
    TracksExtends(env, mem, c, w, x);
    DecodeAppend(env, START, taken, x);
  }

  /** The loop ends when the head of the window does not parse. */
  lemma Settled(env: Env, taken: seq<byte>, sent: seq<Packet>, c: Conn, w: seq<byte>, mem: PState)
    requires Steady(env, taken, sent, c, w, mem, c.mode) && Take(env, c, w) == None
    ensures Decode(env, START, taken) == Run(sent, c, w)
  {
    hide Take, Decode, Tracks;
    assert Clip(w) == w;
    DecodeStuck(env, c, w);
    assert sent + [] == sent;
  }

  /** No further bytes could have made the stream deliver more. */
  ghost predicate Final(env: Env, taken: seq<byte>, sent: seq<Packet>) {
    forall more: seq<byte> :: Decode(env, START, taken + more).out == sent
  }

  /** A full window that does not parse never will, whatever comes. */
  lemma FullWindowIsFinal(env: Env, taken: seq<byte>, sent: seq<Packet>, c: Conn, w: seq<byte>)
    requires |w| == BUF_LEN_MAX && Ready(c.state) && Take(env, c, w) == None
    requires Decode(env, START, taken) == Run(sent, c, w)
    ensures Final(env, taken, sent)
  {
    hide Take, Decode;
    forall more: seq<byte> ensures Decode(env, START, taken + more).out == sent {
      DecodeAppend(env, START, taken, more);
      assert Clip(w + more) == w;
      DecodeStuck(env, c, w + more);
      assert sent + [] == sent;
    }
  }

  /** Between two turns of the parse loop: what is sent plus what the window still holds is what the
      decoder makes of the bytes read. */
  ghost predicate Steady(env: Env, taken: seq<byte>, sent: seq<Packet>, c: Conn, w: seq<byte>, mem: PState,
                         mode: Mode) {
    && |w| <= BUF_LEN_MAX && mode == c.mode && Ready(c.state) && Tracks(env, mem, c, w)
    && var q := Decode(env, c, w);
       Decode(env, START, taken) == Before(sent, q)
  }

  lemma TracksAfterFrame(env: Env, c: Conn, w: seq<byte>, mem: PState)
    requires Tracks(env, mem, c, w) && Take(env, c, w).Some?
    ensures var t := Take(env, c, w).value;
            var r := WrapperParse(env, c.mode, Blank(env.id), w, mem);
            r.1 == t.2.mode && Tracks(env, r.0.state, t.2, w[t.1..])
  {
    WrapperMatchesTake(env, c, w, mem);
  }

  /** A turn that reads a frame keeps the books. */
  lemma Turn(env: Env, taken: seq<byte>, sent: seq<Packet>, c: Conn, w: seq<byte>, mem: PState)
    requires Steady(env, taken, sent, c, w, mem, c.mode) && Take(env, c, w).Some?
    ensures var t := Take(env, c, w).value;
            var r := WrapperParse(env, c.mode, Blank(env.id), w, mem);
            Steady(env, taken, sent + Forward(env, t.0), t.2, w[t.1..], r.0.state, r.1)
  {
    hide Take, Decode, WrapperParse, Tracks, Forward, Before;
    TracksAfterFrame(env, c, w, mem);
    assert Clip(w) == w;
    DecodeTaken(env, c, w);
    var t := Take(env, c, w).value;
    BeforeTwice(sent, Forward(env, t.0), Decode(env, t.2, w[t.1..]));
  }

  /** Chunk independence. A stream read in any pieces (every cut is positive, so no read fails) until end of
      file or overrun delivers what the decoder makes of the whole stream; stopped earlier, it has delivered
      what the decoder makes of the bytes read so far. */
  method Drain(env: Env, stream: seq<byte>, cuts: seq<nat>) returns (sent: seq<Packet>, read: nat, open: bool)
    requires ValidId(env.id)
    ensures read <= |stream| && sent == Decode(env, START, stream[..read]).out
    ensures (forall i :: 0 <= i < |cuts| ==> cuts[i] > 0) && !open ==> sent == Decode(env, START, stream).out
    ensures open ==> read >= |cuts|
  {
    hide Decode, Take, ValidId;
    var r := new Receive(env);
    read := 0;
    var i := 0;
    while i < |cuts| && r.open
      invariant r.Valid() && fresh(r) && fresh(r.buf) && fresh(r.buf.data) && fresh(r.state) && fresh(r.state.clock)
      invariant r.env == env && 0 <= i <= |cuts| && read <= |stream| && r.taken == stream[..read]
      invariant r.open ==> read >= i
      invariant (forall k :: 0 <= k < |cuts| ==> cuts[k] > 0) && !r.open ==> Decode(env, START, stream).out == r.sent
    {
      ghost var taken := r.taken;
      var n := r.Read(stream[read..], cuts[i]);
      assert taken + stream[read..][..n] == stream[..read + n];
      read := read + n;
      i := i + 1;
      if !r.open {
        if n > 0 {
          assert stream == stream[..read] + stream[read..];
          assert Final(env, r.taken, r.sent);
        } else if read == |stream| {
          assert stream[..read] == stream;
        }
      }
    }
    sent, open := r.sent, r.open;
    if open { r.SentSoFar(); }
  }
}
