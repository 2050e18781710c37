/** A hub that reads beast and writes beast: when the bytes that leave are the bytes that came. */
module BeastRelay {
  import opened Bytes
  import opened Packets
  import opened Mlat
  import opened Proto
  import opened Decoder
  import opened Translation
  import opened Beast

  function Stream(ws: seq<Wire>): seq<byte> {
    if ws == [] then [] else WireFrame(ws[0]) + Stream(ws[1..])
  }

  predicate Wires(ws: seq<Wire>) { forall k :: 0 <= k < |ws| ==> IsWire(ws[k]) }

  function Stamps(ws: seq<Wire>): (ts: seq<uint64>)
    ensures |ts| == |ws|
  {
    seq(|ws|, k requires 0 <= k < |ws| => ws[k].stamp)
  }

  /** The packet a frame is delivered as. */
  function Delivered(env: Env, c: Clock, w: Wire): Packet {
    Packet(w.typ, 1, w.payload, ScaleIn(c, w.stamp, MAX48, MHZ), RssiIn(w.level, 0xFF), env.id)
  }

  function AllDelivered(env: Env, c: Clock, ws: seq<Wire>): seq<Packet>
    decreases |ws|
  {
    if ws == [] then []
    else [Delivered(env, c, ws[0])] + AllDelivered(env, Advance(c, ws[0].stamp, MAX48), ws[1..])
  }

  /** The frames those packets are written as. */
  function Back(c: Clock, ws: seq<Wire>): (vs: seq<Wire>)
    ensures |vs| == |ws|
    decreases |ws|
  {
    if ws == [] then []
    else
      var w := ws[0];
      [w.(stamp := ScaleOut(ScaleIn(c, w.stamp, MAX48, MHZ), MAX48, MHZ), level := RssiByte(RssiIn(w.level, 0xFF)))] +
      Back(Advance(c, w.stamp, MAX48), ws[1..])
  }

  lemma WireTaken(env: Env, c: Conn, w: Wire, rest: seq<byte>)
    requires IsWire(w) && Ready(c.state) && (c.mode == Detect || c.mode == Use(Fmt.BEAST))
    ensures Take(env, c, Clip(WireFrame(w) + rest)) ==
            Some((Delivered(env, c.state.clock, w).(hops := 0), |WireFrame(w)|,
                  Conn(Use(Fmt.BEAST), c.state.(clock := Advance(c.state.clock, w.stamp, MAX48)))))
  {
    hide ScaleIn, RssiIn, Advance, WireFrame, Beast.Parse, Proto.Parse;
    assert |WireFrame(w)| <= 46 by { WireLength(w); }
    var s := Clip(WireFrame(w) + rest);
    var y := s[|WireFrame(w)|..];
    assert s == WireFrame(w) + y;
    WireReads(Blank(env.id), w, y, c.state);
    assert Hits(env, Fmt.BEAST, s, c.state);
    forall g | Hits(env, g, s, c.state) ensures g == Fmt.BEAST {
      Unambiguous(env, Fmt.BEAST, g, s, c.state, c.state);
    }
  }

  lemma WireLength(w: Wire)
    requires IsWire(w)
    ensures 0 < |WireFrame(w)| <= 46
  {}

  lemma {:induction false} StreamDecodes(env: Env, c: Conn, ws: seq<Wire>)
    requires Wires(ws) && env.maxHops >= 1 && Ready(c.state) && (c.mode == Detect || c.mode == Use(Fmt.BEAST))
    ensures var r := Decode(env, c, Stream(ws));
            r.out == AllDelivered(env, c.state.clock, ws) && r.rest == []
    decreases |ws|
  {
    hide Decode, Take, Clip, WireFrame, ScaleIn, RssiIn, Advance;
    if ws == [] {
      NothingOnEmpty(env, c);
      assert Clip([]) == [] by { ClipBound([]); }
      DecodeStuck(env, c, []);
    } else {
      var w, rest := ws[0], Stream(ws[1..]);
      WireTaken(env, c, w, rest);
      DecodeTaken(env, c, WireFrame(w) + rest);
      assert (WireFrame(w) + rest)[|WireFrame(w)|..] == rest;
      StreamDecodes(env, Conn(Use(Fmt.BEAST), c.state.(clock := Advance(c.state.clock, w.stamp, MAX48))), ws[1..]);
      assert Forward(env, Delivered(env, c.state.clock, w).(hops := 0)) == [Delivered(env, c.state.clock, w)];
    }
  }

  lemma {:induction false} DeliveredBack(env: Env, c: Clock, ws: seq<Wire>)
    requires Wires(ws)
    ensures Frames(Fmt.BEAST, AllDelivered(env, c, ws)) == Stream(Back(c, ws)) && Wires(Back(c, ws))
    decreases |ws|
  {
    hide ScaleIn, ScaleOut, RssiIn, RssiByte, Advance, WireFrame;
    if ws != [] {
      var w := ws[0];
      DeliveredBack(env, Advance(c, w.stamp, MAX48), ws[1..]);
      assert AllDelivered(env, c, ws)[1..] == AllDelivered(env, Advance(c, w.stamp, MAX48), ws[1..]);
      assert Back(c, ws)[1..] == Back(Advance(c, w.stamp, MAX48), ws[1..]);
      forall k | 0 <= k < |ws| ensures IsWire(Back(c, ws)[k]) {
        if k > 0 { assert Back(c, ws)[k] == Back(c, ws)[1..][k - 1]; }
      }
    }
  }

  lemma {:induction false} BackAt(c: Clock, ws: seq<Wire>, k: nat)
    requires k < |ws|
    ensures Back(c, ws)[k] == ws[k].(stamp := ScaleOut(Reading(c, Stamps(ws), MAX48, MHZ, k), MAX48, MHZ),
                                     level := RssiByte(RssiIn(ws[k].level, 0xFF)))
    decreases k
  {
    hide ScaleIn, ScaleOut, RssiIn, RssiByte, Advance;
    if k > 0 {
      var c' := Advance(c, ws[0].stamp, MAX48);
      BackAt(c', ws[1..], k - 1);
      assert Stamps(ws)[1..] == Stamps(ws[1..]);
      ClockAfterShifts(c, Stamps(ws), MAX48, k - 1);
    }
  }

  /** A level goes through unchanged unless it is zero, which is written as full scale. */
  lemma LevelBack(v: byte)
    ensures RssiByte(RssiIn(v, 0xFF)) == if v == 0 then 0xFF else v
  {
    RssiSurvives(v, 0xFF);
  }

  lemma {:induction false} StreamInjective(ws: seq<Wire>, vs: seq<Wire>)
    requires Wires(ws) && Wires(vs) && |ws| == |vs| && forall k :: 0 <= k < |ws| ==> ws[k].typ == vs[k].typ
    ensures Stream(ws) == Stream(vs) ==> ws == vs
  {
    hide WireFrame;
    if ws != [] && Stream(ws) == Stream(vs) {
      WireInjective(ws[0], vs[0], Stream(ws[1..]), Stream(vs[1..]));
      StreamInjective(ws[1..], vs[1..]);
      assert ws == [ws[0]] + ws[1..] && vs == [vs[0]] + vs[1..];
    }
  }

  /** The unwrapped time of every frame is one the hub can hold. */
  predicate InRange(ws: seq<Wire>) {
    forall k :: 0 <= k < |ws| ==> Factor(MHZ) * Unwrapped(Stamps(ws), MAX48, k) < INT64_MAX
  }

  /** From beast to beast the bytes are reproduced, escapes and all, if and only if no frame has level zero and
      none carries the largest timestamp. */
  lemma RelayedBytesIff(env: Env, ws: seq<Wire>)
    requires Wires(ws) && InRange(ws) && env.maxHops >= 1
    ensures Frames(Fmt.BEAST, Decode(env, START, Stream(ws)).out) == Stream(ws) <==>
            forall k :: 0 <= k < |ws| ==> ws[k].level != 0 && ws[k].stamp != MAX48
  {
    hide Decode, Stream, Frames, ScaleOut, RssiIn, RssiByte, Reading, Unwrapped;
    var vs := Back(ZERO, ws);
    StreamDecodes(env, START, ws);
    DeliveredBack(env, ZERO, ws);
    forall k | 0 <= k < |ws|
      ensures vs[k] == ws[k].(stamp := if ws[k].stamp == MAX48 then 0 else ws[k].stamp,
                              level := if ws[k].level == 0 then 0xFF else ws[k].level)
    {
      BackAt(ZERO, ws, k);
      RelayKeepsWire(Stamps(ws), MAX48, MHZ, k);
      LevelBack(ws[k].level);
    }
    StreamInjective(vs, ws);
    if forall k :: 0 <= k < |ws| ==> ws[k].level != 0 && ws[k].stamp != MAX48 {
      assert vs == ws;
    } else {
      var k :| 0 <= k < |ws| && !(ws[k].level != 0 && ws[k].stamp != MAX48);
      assert vs[k] != ws[k];
    }
  }
}
