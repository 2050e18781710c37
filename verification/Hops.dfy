/** Hop counting and echo suppression between hubs (receive.c, send.c, proto.c, json.c): what stops a packet
    from circulating for ever, and when nothing does. */
module Hops {
  import opened Bytes
  import opened Arith
  import opened Packets
  import opened Proto
  import Decoder
  import Translation

  /** A hub receives a packet whose frame says `wire` hops: the parser keeps 16 bits, the loop counts one
      more and compares with the hub's limit. */
  function Relay(limit: uint32, wire: uint32): Option<uint32> {
    var hops := wire % TWO16 + 1;
    if hops > limit then None else Some(hops)
  }

  /** This is what a connection does with a protobuf packet it could read. */
  lemma RelayIsForward(env: Env, m: Message, base: Packet, st: PState, t: PacketType, used: nat)
    requires Ready(st) && t != NONE && MessageAttempt(m, base, st, t, used).Hit?
    ensures var p := MessageAttempt(m, base, st, t, used).packet;
            Decoder.Forward(env, p) ==
            match Relay(env.maxHops, m.hops) case None => [] case Some(h) => [p.(hops := h)]
  {}

  /** With a frame of airspy, beast or raw a connection starts counting anew. */
  lemma RelayWithoutCount(env: Env, f: Decoder.Fmt, p: Packet, st: PState)
    requires f != Decoder.PROTO && p.typ != NONE
    ensures var q := Translation.Reread(env.id, f, st, p).0;
            Decoder.Forward(env, q) == match Relay(env.maxHops, 0) case None => [] case Some(h) => [q.(hops := h)]
  {}

  // ---------------------------------------------------------------- one chain of relays

  /** Hop count on the wire after a chain of hubs with these limits; None if one of them drops the packet. */
  function Chain(limits: seq<uint32>, wire: uint32): Option<uint32>
    decreases |limits|
  {
    if limits == [] then Some(wire)
    else match Relay(limits[0], wire)
         case None => None
         case Some(h) => Chain(limits[1..], h)
  }

  /** Hub after hub, the count that runs through 1..65536 and starts over stays within the limit it meets. */
  predicate Fits(limits: seq<uint32>, wire: uint32) {
    forall k :: 0 <= k < |limits| ==> (wire + k) % TWO16 + 1 <= limits[k]
  }

  lemma SameCount(wire: nat, k: nat)
    ensures (wire % TWO16 + 1 + k) % TWO16 == (wire + (k + 1)) % TWO16
  {}

  lemma FitsStep(limits: seq<uint32>, wire: uint32)
    requires limits != []
    ensures var h := wire % TWO16 + 1;
            Fits(limits, wire) <==> h <= limits[0] && Fits(limits[1..], h)
  {}

  /** A chain survives exactly when its limits fit; the count on the wire then depends on its length alone. */
  lemma {:induction false} ChainSurvives(limits: seq<uint32>, wire: uint32)
    ensures Chain(limits, wire).Some? <==> Fits(limits, wire)
    ensures Chain(limits, wire).Some? && limits != [] ==> Chain(limits, wire).value == (wire + |limits| - 1) % TWO16 + 1
    decreases |limits|
  {
    if limits != [] {
      hide Fits;
      var h := wire % TWO16 + 1;
      FitsStep(limits, wire);
      if h <= limits[0] {
        ChainSurvives(limits[1..], h);
        if |limits| > 1 { SameCount(wire, |limits| - 2); }
      }
    }
  }

  /** With limits below 65536 no chain of relays is longer than the largest of them. */
  lemma ChainBounded(limits: seq<uint32>, wire: uint32, max: uint32)
    requires max < TWO16 && (forall k :: 0 <= k < |limits| ==> limits[k] <= max) && |limits| > max
    ensures Chain(limits, wire).None?
  {
    ChainSurvives(limits, wire);
    // within the first max + 1 hubs the count exceeds max
    var w := wire % TWO16;
    var k := if w <= max then max - w else 0;
    assert (wire + k) % TWO16 == if w <= max then max else w;
    assert (wire + k) % TWO16 + 1 > limits[k];
  }

  /** Hubs of equal limit pass a packet on without end if and only if that limit is 65536 or more. */
  lemma LoopForever(limit: uint32)
    ensures (forall n: nat :: Chain(Repeat(limit, n), 0).Some?) <==> limit >= TWO16
  {
    if limit >= TWO16 {
      forall n: nat ensures Chain(Repeat(limit, n), 0).Some? { ChainSurvives(Repeat(limit, n), 0); }
    } else {
      ChainSurvives(Repeat(limit, limit + 1), 0);
      assert (0 + limit) % TWO16 + 1 > Repeat(limit, limit + 1)[limit];
    }
  }

  function Repeat(limit: uint32, n: nat): (s: seq<uint32>)
    ensures |s| == n && forall i :: 0 <= i < n ==> s[i] == limit
  {
    seq(n, i => limit)
  }

  // ---------------------------------------------------------------- flooding a network

  /** A link out of a hub: where it leads, which file it is at either end (device and inode), and whether its
      format carries the hop count, as json and proto do but airspy, beast and raw do not. The two directions
      of one two-way connection are the same file at each end. */
  datatype Link = Link(to: nat, out: nat, arr: nat, counts: bool)

  /** Hubs are numbered; `links[h]` are the links that hub `h` sends on. */
  datatype Net = Net(limits: seq<uint32>, links: seq<seq<Link>>)

  /** A json or proto link from a hub to itself is refused by the server identifier in its header. */
  ghost predicate Wired(net: Net) {
    && |net.links| == |net.limits|
    && forall h, i :: 0 <= h < |net.links| && 0 <= i < |net.links[h]| ==>
         net.links[h][i].to < |net.limits| && (net.links[h][i].counts ==> net.links[h][i].to != h)
  }

  /** A copy of a packet about to be read by hub `to` from its file `via`, with what the frame says of hops;
      `relays` counts the hubs it went through. */
  datatype Msg = Msg(to: nat, via: nat, wire: uint32, relays: nat)

  function Carried(l: Link, hops: uint32, relays: nat): Msg {
    Msg(l.to, l.arr, if l.counts then hops else 0, relays)
  }

  /** Link `i` is one that `m` may leave by: not the file it came from. */
  ghost predicate Sends(net: Net, m: Msg, i: nat)
    requires Wired(net) && m.to < |net.limits|
  {
    i < |net.links[m.to]| && net.links[m.to][i].out != m.via
  }

  /** Any links that `m` may leave by, each once: the others fail. */
  ghost predicate Picks(net: Net, m: Msg, picks: seq<nat>)
    requires Wired(net) && m.to < |net.limits|
  {
    (forall i :: 0 <= i < |picks| ==> Sends(net, m, picks[i])) && Increasing(picks)
  }

  predicate Increasing(s: seq<nat>) { forall i, j :: 0 <= i < j < |s| ==> s[i] < s[j] }

  ghost function Copies(net: Net, m: Msg, hops: uint32, picks: seq<nat>): (copies: seq<Msg>)
    requires Wired(net) && m.to < |net.limits| && Picks(net, m, picks)
    ensures |copies| == |picks|
    ensures forall i :: 0 <= i < |picks| ==> copies[i] == Carried(net.links[m.to][picks[i]], hops, m.relays + 1)
  {
    seq(|picks|, i requires 0 <= i < |picks| => Carried(net.links[m.to][picks[i]], hops, m.relays + 1))
  }

  /** Some copy in flight arrives; in any order. */
  ghost predicate Step(net: Net, s: seq<Msg>, s': seq<Msg>)
    requires Wired(net)
  {
    exists k, picks :: Arrives(net, s, k, picks, s')
  }

  ghost predicate Arrives(net: Net, s: seq<Msg>, k: nat, picks: seq<nat>, s': seq<Msg>)
    requires Wired(net)
  {
    && k < |s| && s[k].to < |net.limits| && Picks(net, s[k], picks)
    && s' == s[..k] + s[k + 1..] + Leaving(net, s[k], picks)
  }

  /** What becomes of `m` at its hub. */
  ghost function Leaving(net: Net, m: Msg, picks: seq<nat>): (copies: seq<Msg>)
    requires Wired(net) && m.to < |net.limits| && Picks(net, m, picks)
  {
    match Relay(net.limits[m.to], m.wire)
    case None => []
    case Some(hops) => Copies(net, m, hops, picks)
  }

  ghost predicate IsRun(net: Net, run: seq<seq<Msg>>)
    requires Wired(net)
  {
    |run| > 0 && forall i :: 0 <= i < |run| - 1 ==> Step(net, run[i], run[i + 1])
  }

  function Pow(b: nat, n: nat): (p: nat)
    requires b > 0
    ensures p >= 1
  {
    if n == 0 then 1 else b * Pow(b, n - 1)
  }

  /** How much flooding the copies in `s` can still cause, one of rank `r` at most as many relays as a tree of
      that depth has nodes. */
  function Total(b: nat, rank: Msg -> nat, s: seq<Msg>): nat
    requires b > 0
  {
    if s == [] then 0 else Pow(b, rank(s[0])) + Total(b, rank, s[1..])
  }

  lemma {:induction false} TotalAppend(b: nat, rank: Msg -> nat, s: seq<Msg>, t: seq<Msg>)
    requires b > 0
    ensures Total(b, rank, s + t) == Total(b, rank, s) + Total(b, rank, t)
  {
    if s == [] {
      assert s + t == t;
    } else {
      assert (s + t)[1..] == s[1..] + t;
      TotalAppend(b, rank, s[1..], t);
    }
  }

  lemma {:induction false} PowMonotone(b: nat, n: nat, m: nat)
    requires b > 0 && n <= m
    ensures Pow(b, n) <= Pow(b, m)
    decreases m
  {
    if n < m {
      PowMonotone(b, n, m - 1);
      MulMonotone(Pow(b, m - 1), 1, b);
    }
  }

  lemma {:induction false} TotalBelow(b: nat, rank: Msg -> nat, s: seq<Msg>, top: nat)
    requires b > 0 && forall i :: 0 <= i < |s| ==> rank(s[i]) <= top
    ensures Total(b, rank, s) <= |s| * Pow(b, top)
  {
    if s != [] {
      TotalBelow(b, rank, s[1..], top);
      PowMonotone(b, rank(s[0]), top);
      assert |s| * Pow(b, top) == (|s| - 1) * Pow(b, top) + Pow(b, top);
    }
  }

  /** The copies a hub may make of `m` rank below `m`. */
  ghost predicate Fades(net: Net, rank: Msg -> nat, m: Msg)
    requires Wired(net)
  {
    m.to < |net.limits| && Relay(net.limits[m.to], m.wire).Some? ==>
      forall i: nat :: Sends(net, m, i) ==>
        rank(Carried(net.links[m.to][i], Relay(net.limits[m.to], m.wire).value, m.relays + 1)) < rank(m)
  }

  ghost predicate FanOut(net: Net, fan: nat) { forall h :: 0 <= h < |net.links| ==> |net.links[h]| <= fan }

  /** Every arrival of a packet that fades, relayed or dropped, strictly lowers the total. */
  lemma ArrivalLowers(net: Net, rank: Msg -> nat, fan: nat, s: seq<Msg>, k: nat, picks: seq<nat>, s': seq<Msg>)
    requires Wired(net) && FanOut(net, fan) && Arrives(net, s, k, picks, s') && Fades(net, rank, s[k])
    ensures Total(fan + 1, rank, s') < Total(fan + 1, rank, s)
  {
    var b, m := fan + 1, s[k];
    assert s == s[..k] + ([m] + s[k + 1..]);
    TotalAppend(b, rank, s[..k], [m] + s[k + 1..]);
    TotalAppend(b, rank, [m], s[k + 1..]);
    TotalAppend(b, rank, s[..k] + s[k + 1..], Leaving(net, m, picks));
    TotalAppend(b, rank, s[..k], s[k + 1..]);
    CopiesWeighLess(net, rank, fan, m, picks);
  }

  lemma {:induction false} IncreasingBelow(s: seq<nat>, n: nat)
    requires Increasing(s) && forall i :: 0 <= i < |s| ==> s[i] < n
    ensures |s| <= n
  {
    if s != [] { IncreasingBelow(s[..|s| - 1], s[|s| - 1]); }
  }

  lemma CopiesWeighLess(net: Net, rank: Msg -> nat, fan: nat, m: Msg, picks: seq<nat>)
    requires Wired(net) && FanOut(net, fan) && m.to < |net.limits| && Picks(net, m, picks) && Fades(net, rank, m)
    ensures Total(fan + 1, rank, Leaving(net, m, picks)) < Total(fan + 1, rank, [m])
  {
    var b, copies := fan + 1, Leaving(net, m, picks);
    assert Total(b, rank, [m]) == Pow(b, rank(m));
    if copies != [] {
      assert Sends(net, m, picks[0]) && rank(copies[0]) < rank(m);
      forall i | 0 <= i < |copies| ensures rank(copies[i]) <= rank(m) - 1 { assert Sends(net, m, picks[i]); }
      IncreasingBelow(picks, |net.links[m.to]|);
      WeighAtMost(b, rank, copies, rank(m) - 1, fan);
    }
  }

  lemma WeighAtMost(b: nat, rank: Msg -> nat, copies: seq<Msg>, top: nat, fan: nat)
    requires b == fan + 1 && |copies| <= fan && forall i :: 0 <= i < |copies| ==> rank(copies[i]) <= top
    ensures Total(b, rank, copies) < Pow(b, top + 1)
  {
    var each := Pow(b, top);
    TotalBelow(b, rank, copies, top);
    MulMonotone(each, |copies|, fan);
    assert |copies| * each == each * |copies| && each * fan + each == b * each;
  }

  /** A run in which everything fades has no more steps than the total it starts with. */
  lemma {:induction false} RunEnds(net: Net, rank: Msg -> nat, fan: nat, run: seq<seq<Msg>>)
    requires Wired(net) && FanOut(net, fan) && IsRun(net, run)
    requires forall n, k :: 0 <= n < |run| && 0 <= k < |run[n]| ==> Fades(net, rank, run[n][k])
    ensures |run| <= Total(fan + 1, rank, run[0]) + 1
    decreases |run|
  {
    if |run| > 1 {
      hide Fades;
      var k: nat, picks :| Arrives(net, run[0], k, picks, run[1]);
      ArrivalLowers(net, rank, fan, run[0], k, picks, run[1]);
      assert IsRun(net, run[1..]) by {
        forall i | 0 <= i < |run| - 2 ensures Step(net, run[1..][i], run[1..][i + 1]) {
          assert Step(net, run[i + 1], run[i + 2]);
        }
      }
      RunEnds(net, rank, fan, run[1..]);
    }
  }

  /** All links carry the count, and all limits are at most `max`, which 16 bits hold. */
  ghost predicate Limited(net: Net, max: nat, fan: nat) {
    && Wired(net) && FanOut(net, fan) && max < TWO16
    && (forall h :: 0 <= h < |net.limits| ==> net.limits[h] <= max)
    && (forall h, i :: 0 <= h < |net.links| && 0 <= i < |net.links[h]| ==> net.links[h][i].counts)
  }

  /** With all limits up to `max`, how far a packet's count is from that. */
  function CountRank(max: nat): Msg -> nat {
    (m: Msg) => if m.wire % TWO16 < max then max - m.wire % TWO16 else 0
  }

  lemma CountFades(net: Net, max: nat, fan: nat, m: Msg)
    requires Limited(net, max, fan)
    ensures Fades(net, CountRank(max), m)
  {
    if m.to < |net.limits| && Relay(net.limits[m.to], m.wire).Some? {
      var hops := m.wire % TWO16 + 1;
      assert hops <= max;
      forall i: nat | Sends(net, m, i)
        ensures CountRank(max)(Carried(net.links[m.to][i], hops, m.relays + 1)) < CountRank(max)(m)
      {
        assert net.links[m.to][i].counts;
      }
    }
  }

  /** Flooding ends: in any network of json and proto links, cyclic or not, whose limits are below 65536, no
      run from `run[0]` has more steps than that total, whatever the order of arrivals. */
  lemma FloodingEnds(net: Net, max: nat, fan: nat, run: seq<seq<Msg>>)
    requires Limited(net, max, fan) && IsRun(net, run)
    ensures |run| <= Total(fan + 1, CountRank(max), run[0]) + 1
  {
    forall n, k | 0 <= n < |run| && 0 <= k < |run[n]| ensures Fades(net, CountRank(max), run[n][k]) {
      CountFades(net, max, fan, run[n][k]);
    }
    RunEnds(net, CountRank(max), fan, run);
  }

  /** No copy was relayed more often than its hop count says, nor that more than the largest limit. */
  ghost predicate Honest(s: seq<Msg>) {
    forall i :: 0 <= i < |s| ==> s[i].relays <= s[i].wire % TWO16 || s[i].relays == 0
  }

  /** After an arrival each packet in flight is an old one or a copy of the one that arrived. */
  lemma OldOrCopy(net: Net, s: seq<Msg>, k: nat, picks: seq<nat>, s': seq<Msg>, i: nat)
    requires Wired(net) && Arrives(net, s, k, picks, s') && i < |s'|
    ensures i < |s| - 1 ==> s'[i] == if i < k then s[i] else s[i + 1]
    ensures i >= |s| - 1 ==>
              Relay(net.limits[s[k].to], s[k].wire).Some? && i - (|s| - 1) < |picks| &&
              var j := picks[i - (|s| - 1)];
              Sends(net, s[k], j) &&
              s'[i] == Carried(net.links[s[k].to][j], Relay(net.limits[s[k].to], s[k].wire).value, s[k].relays + 1)
  {
    var leaving := Leaving(net, s[k], picks);
    if i >= |s| - 1 { assert s'[i] == leaving[i - (|s| - 1)]; }
  }

  lemma HonestCopy(net: Net, max: nat, fan: nat, m: Msg, j: nat)
    requires Limited(net, max, fan) && m.to < |net.limits| && Sends(net, m, j)
    requires Relay(net.limits[m.to], m.wire).Some? && (m.relays <= m.wire % TWO16 || m.relays == 0)
    ensures var c := Carried(net.links[m.to][j], Relay(net.limits[m.to], m.wire).value, m.relays + 1);
            c.relays <= c.wire % TWO16 && c.relays <= max
  {
    var hops := m.wire % TWO16 + 1;
    assert net.links[m.to][j].counts && hops <= max;
    SmallMod(hops, TWO16);
  }

  lemma HonestStep(net: Net, max: nat, fan: nat, s: seq<Msg>, s': seq<Msg>)
    requires Limited(net, max, fan) && Step(net, s, s') && Honest(s)
    requires forall i :: 0 <= i < |s| ==> s[i].relays <= max
    ensures Honest(s') && forall i :: 0 <= i < |s'| ==> s'[i].relays <= max
  {
    hide Relay, Carried, Sends, Leaving, Picks;
    var k: nat, picks :| Arrives(net, s, k, picks, s');
    forall i | 0 <= i < |s'|
      ensures (s'[i].relays <= s'[i].wire % TWO16 || s'[i].relays == 0) && s'[i].relays <= max
    {
      OldOrCopy(net, s, k, picks, s', i);
      if i >= |s| - 1 { HonestCopy(net, max, fan, s[k], picks[i - (|s| - 1)]); }
    }
  }

  /** In every run from freshly injected packets no copy is ever relayed more often than the largest limit. */
  lemma {:induction false} RelaysBounded(net: Net, max: nat, fan: nat, run: seq<seq<Msg>>, n: nat)
    requires Limited(net, max, fan) && IsRun(net, run) && n < |run|
    requires forall i :: 0 <= i < |run[0]| ==> run[0][i].relays == 0
    ensures Honest(run[n]) && forall i :: 0 <= i < |run[n]| ==> run[n][i].relays <= max
    decreases n
  {
    if n > 0 {
      RelaysBounded(net, max, fan, run, n - 1);
      assert Step(net, run[n - 1], run[n]);
      HonestStep(net, max, fan, run[n - 1], run[n]);
    }
  }
}
