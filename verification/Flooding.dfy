/** Exactly when flooding is endless, in any network of hubs, from any packets in flight. */
module Flooding {
  import opened Bytes
  import opened Hops

  // ---------------------------------------------------------------- walks

  /** The links of `w` follow one another from where `m` is about to arrive, and none leaves by the file the
      one before it came in by. */
  ghost predicate Walk(net: Net, m: Msg, w: seq<Link>)
    requires Wired(net)
  {
    && (w != [] ==> m.to < |net.links| && w[0] in net.links[m.to] && w[0].out != m.via)
    && (forall i :: 0 <= i < |w| - 1 ==>
          w[i].to < |net.links| && w[i + 1] in net.links[w[i].to] && w[i + 1].out != w[i].arr)
  }

  /** Hops a packet has behind it before link `i` of a walk: counted from the last link that lost the count. */
  function Count(wire: nat, w: seq<Link>, i: nat): nat
    requires i <= |w|
  {
    if i == 0 then wire else if w[i - 1].counts then Count(wire, w, i - 1) + 1 else 0
  }

  /** The limit of the hub that sends on link `i`. */
  ghost function LimitAt(net: Net, m: Msg, w: seq<Link>, i: nat): uint32
    requires Wired(net) && Walk(net, m, w) && i < |w|
  {
    net.limits[if i == 0 then m.to else w[i - 1].to]
  }

  /** Hub after hub along the walk, the count kept in 16 bits stays within the limit it meets. */
  ghost predicate Survives(net: Net, m: Msg, w: seq<Link>)
    requires Wired(net)
  {
    Walk(net, m, w) && forall i :: 0 <= i < |w| ==> Count(m.wire, w, i) % TWO16 + 1 <= LimitAt(net, m, w, i)
  }

  /** One of the packets in flight survives a walk of `n` links. */
  ghost predicate LongWalk(net: Net, s: seq<Msg>, n: nat)
    requires Wired(net)
  {
    exists k, w :: 0 <= k < |s| && |w| == n && Survives(net, s[k], w)
  }

  ghost predicate RunFrom(net: Net, s: seq<Msg>, run: seq<seq<Msg>>, n: nat)
    requires Wired(net)
  {
    IsRun(net, run) && |run| > n && run[0] == s
  }

  ghost predicate LongRun(net: Net, s: seq<Msg>, n: nat)
    requires Wired(net)
  {
    exists run :: RunFrom(net, s, run, n)
  }

  ghost predicate Endless(net: Net, s: seq<Msg>)
    requires Wired(net)
  {
    forall n: nat :: LongRun(net, s, n)
  }

  /** `m` gets past its hub. */
  ghost predicate Passes(net: Net, m: Msg)
    requires Wired(net)
  {
    m.to < |net.limits| && Relay(net.limits[m.to], m.wire).Some?
  }

  /** The copy of `m` that leaves by a link. */
  ghost function Next(net: Net, m: Msg, l: Link): Msg
    requires Wired(net) && Passes(net, m)
  {
    Carried(l, Relay(net.limits[m.to], m.wire).value, m.relays + 1)
  }

  lemma SameNext(a: nat, b: nat)
    requires a % TWO16 == b % TWO16
    ensures (a + 1) % TWO16 == (b + 1) % TWO16
  {}

  lemma {:induction false} CountShifts(wire: nat, w: seq<Link>, i: nat)
    requires i < |w|
    ensures Count(wire, w, i + 1) % TWO16 ==
            Count(if w[0].counts then wire % TWO16 + 1 else 0, w[1..], i) % TWO16
  {
    var wire' := if w[0].counts then wire % TWO16 + 1 else 0;
    if i == 0 {
      assert Count(wire, w, 1) == if w[0].counts then wire + 1 else 0;
      SameNext(wire, wire % TWO16);
    } else {
      CountShifts(wire, w, i - 1);
      assert w[1..][i - 1] == w[i];
      SameNext(Count(wire, w, i), Count(wire', w[1..], i - 1));
    }
  }

  lemma WalkTail(net: Net, m: Msg, m': Msg, w: seq<Link>)
    requires Wired(net) && w != [] && m'.to == w[0].to && m'.via == w[0].arr
    ensures Walk(net, m, w) <==>
            m.to < |net.links| && w[0] in net.links[m.to] && w[0].out != m.via && Walk(net, m', w[1..])
  {
    if m.to < |net.links| && w[0] in net.links[m.to] && w[0].out != m.via && Walk(net, m', w[1..]) {
      forall i | 0 <= i < |w| - 1
        ensures w[i].to < |net.links| && w[i + 1] in net.links[w[i].to] && w[i + 1].out != w[i].arr
      {
        assert w[i + 1] == w[1..][i] && (i > 0 ==> w[i] == w[1..][i - 1]);
      }
    }
    if Walk(net, m, w) {
      forall i | 0 <= i < |w| - 2
        ensures var t := w[1..];
                t[i].to < |net.links| && t[i + 1] in net.links[t[i].to] && t[i + 1].out != t[i].arr
      {
        assert w[1..][i] == w[i + 1] && w[1..][i + 1] == w[i + 2];
      }
    }
  }

  /** A walk is survived if the first hub relays the packet and its copy survives the rest. */
  lemma WalkStep(net: Net, m: Msg, w: seq<Link>)
    requires Wired(net) && w != []
    ensures Survives(net, m, w) <==>
            Passes(net, m) && w[0] in net.links[m.to] && w[0].out != m.via && Survives(net, Next(net, m, w[0]), w[1..])
  {
    var m' := Carried(w[0], m.wire % TWO16 + 1, m.relays + 1);
    WalkTail(net, m, m', w);
    if Walk(net, m, w) {
      forall i | 0 <= i < |w| - 1
        ensures Count(m.wire, w, i + 1) % TWO16 == Count(m'.wire, w[1..], i) % TWO16
        ensures LimitAt(net, m, w, i + 1) == LimitAt(net, m', w[1..], i)
      {
        CountShifts(m.wire, w, i);
      }
      WithinTail(net, m, m', w);
    }
  }

  lemma WithinTail(net: Net, m: Msg, m': Msg, w: seq<Link>)
    requires Wired(net) && w != [] && Walk(net, m, w) && Walk(net, m', w[1..])
    requires forall i :: 0 <= i < |w| - 1 ==> Count(m.wire, w, i + 1) % TWO16 == Count(m'.wire, w[1..], i) % TWO16
    requires forall i :: 0 <= i < |w| - 1 ==> LimitAt(net, m, w, i + 1) == LimitAt(net, m', w[1..], i)
    ensures m.to < |net.limits|
    ensures Survives(net, m, w) <==> m.wire % TWO16 + 1 <= net.limits[m.to] && Survives(net, m', w[1..])
  {
    assert m.to < |net.limits|;
    hide Walk;
    if m.wire % TWO16 + 1 <= net.limits[m.to] && Survives(net, m', w[1..]) {
      forall i | 0 <= i < |w| ensures Count(m.wire, w, i) % TWO16 + 1 <= LimitAt(net, m, w, i) {
        if i > 0 { assert Count(m'.wire, w[1..], i - 1) % TWO16 + 1 <= LimitAt(net, m', w[1..], i - 1); }
      }
    }
    if Survives(net, m, w) {
      assert Count(m.wire, w, 0) % TWO16 + 1 <= LimitAt(net, m, w, 0);
      forall i | 0 <= i < |w| - 1 ensures Count(m'.wire, w[1..], i) % TWO16 + 1 <= LimitAt(net, m', w[1..], i) {
        assert Count(m.wire, w, i + 1) % TWO16 + 1 <= LimitAt(net, m, w, i + 1);
      }
    }
  }

  /** One packet can be followed along a walk that it survives, whatever else is in flight. */
  lemma {:induction false} FollowWalk(net: Net, s: seq<Msg>, k: nat, w: seq<Link>) returns (run: seq<seq<Msg>>)
    requires Wired(net) && k < |s| && Survives(net, s[k], w)
    ensures RunFrom(net, s, run, |w|)
    decreases |w|
  {
    if w == [] { return [s]; }
    hide Survives;
    var m := s[k];
    WalkStep(net, m, w);
    var s' := s[..k] + s[k + 1..] + [Next(net, m, w[0])];
    TakesLink(net, s, k, w[0], s');
    assert s'[|s'| - 1] == Next(net, m, w[0]);
    var rest := FollowWalk(net, s', |s'| - 1, w[1..]);
    run := [s] + rest;
    forall i | 0 <= i < |run| - 1 ensures Step(net, run[i], run[i + 1]) {
      if i > 0 { assert Step(net, rest[i - 1], rest[i]); }
    }
  }

  lemma TakesLink(net: Net, s: seq<Msg>, k: nat, l: Link, s': seq<Msg>)
    requires Wired(net) && k < |s| && Passes(net, s[k]) && l in net.links[s[k].to] && l.out != s[k].via
    requires s' == s[..k] + s[k + 1..] + [Next(net, s[k], l)]
    ensures Step(net, s, s')
  {
    var i :| 0 <= i < |net.links[s[k].to]| && net.links[s[k].to][i] == l;
    assert Sends(net, s[k], i);
    assert Leaving(net, s[k], [i]) == [Next(net, s[k], l)];
    assert Arrives(net, s, k, [i], s');
  }

  // ---------------------------------------------------------------- packets that survive no long walk

  ghost predicate Alive(net: Net, m: Msg, n: nat)
    requires Wired(net)
  {
    exists w :: |w| == n && Survives(net, m, w)
  }

  lemma AliveAtZero(net: Net, m: Msg)
    requires Wired(net)
    ensures Alive(net, m, 0)
  {
    assert Survives(net, m, []);
  }

  lemma {:induction false} CountOfPrefix(wire: nat, w: seq<Link>, n: nat, i: nat)
    requires i <= n <= |w|
    ensures Count(wire, w[..n], i) == Count(wire, w, i)
  {
    if i > 0 { CountOfPrefix(wire, w, n, i - 1); }
  }

  lemma AliveDown(net: Net, m: Msg, n: nat)
    requires Wired(net) && Alive(net, m, n + 1)
    ensures Alive(net, m, n)
  {
    var w :| |w| == n + 1 && Survives(net, m, w);
    assert Walk(net, m, w[..n]);
    forall i | 0 <= i < n ensures Count(m.wire, w[..n], i) % TWO16 + 1 <= LimitAt(net, m, w[..n], i) {
      CountOfPrefix(m.wire, w, n, i);
      assert LimitAt(net, m, w[..n], i) == LimitAt(net, m, w, i);
    }
    assert Survives(net, m, w[..n]);
  }

  /** A copy that survives `n` links came from a packet that survives one more. */
  lemma AliveUp(net: Net, m: Msg, i: nat, n: nat)
    requires Wired(net) && Passes(net, m) && Sends(net, m, i) && Alive(net, Next(net, m, net.links[m.to][i]), n)
    ensures Alive(net, m, n + 1)
  {
    hide Survives;
    var l := net.links[m.to][i];
    var w :| |w| == n && Survives(net, Next(net, m, l), w);
    assert ([l] + w)[1..] == w;
    WalkStep(net, m, [l] + w);
  }

  /** The longest walk survived, of at most `n` links. */
  ghost function Height(net: Net, m: Msg, n: nat): (h: nat)
    requires Wired(net)
    ensures h <= n && (h > 0 ==> Alive(net, m, h))
    ensures forall i :: h < i <= n ==> !Alive(net, m, i)
  {
    if n == 0 || Alive(net, m, n) then n else Height(net, m, n - 1)
  }

  ghost function HeightRank(net: Net, n: nat): Msg -> nat
    requires Wired(net)
  {
    (m: Msg) => Height(net, m, n)
  }

  /** A packet that survives no walk of `n` links fades, and leaves copies of which the same is true. */
  lemma MortalFades(net: Net, m: Msg, n: nat)
    requires Wired(net) && !Alive(net, m, n)
    ensures Fades(net, HeightRank(net, n), m)
    ensures Passes(net, m) ==> forall i: nat :: Sends(net, m, i) ==> !Alive(net, Next(net, m, net.links[m.to][i]), n)
  {
    hide Alive;
    if Passes(net, m) {
      forall i: nat | Sends(net, m, i)
        ensures var c := Next(net, m, net.links[m.to][i]);
                !Alive(net, c, n) && HeightRank(net, n)(c) < HeightRank(net, n)(m)
      {
        var c := Next(net, m, net.links[m.to][i]);
        if Alive(net, c, n) {
          AliveUp(net, m, i, n);
          AliveDown(net, m, n);
        }
        AliveAtZero(net, c);
        AliveUp(net, m, i, Height(net, c, n));
      }
    }
  }

  ghost predicate AllMortal(net: Net, s: seq<Msg>, n: nat)
    requires Wired(net)
  {
    forall k :: 0 <= k < |s| ==> !Alive(net, s[k], n)
  }

  lemma MortalStep(net: Net, s: seq<Msg>, s': seq<Msg>, n: nat)
    requires Wired(net) && Step(net, s, s') && AllMortal(net, s, n)
    ensures AllMortal(net, s', n)
  {
    hide Alive;
    var k: nat, picks :| Arrives(net, s, k, picks, s');
    MortalFades(net, s[k], n);
    forall i | 0 <= i < |s'| ensures !Alive(net, s'[i], n) {
      OldOrCopy(net, s, k, picks, s', i);
    }
  }

  lemma {:induction false} MortalRun(net: Net, run: seq<seq<Msg>>, n: nat, i: nat)
    requires Wired(net) && IsRun(net, run) && AllMortal(net, run[0], n) && i < |run|
    ensures AllMortal(net, run[i], n)
  {
    if i > 0 {
      MortalRun(net, run, n, i - 1);
      assert Step(net, run[i - 1], run[i]);
      MortalStep(net, run[i - 1], run[i], n);
    }
  }

  function MaxFan(links: seq<seq<Link>>): (fan: nat)
    ensures forall h :: 0 <= h < |links| ==> |links[h]| <= fan
  {
    if links == [] then 0 else
    var fan := MaxFan(links[1..]);
    assert forall h :: 0 < h < |links| ==> links[h] == links[1..][h - 1];
    if |links[0]| <= fan then fan else |links[0]|
  }

  /** No packet survives a walk of `n` links: every run ends, after a number of steps known in advance. */
  lemma MortalEnds(net: Net, run: seq<seq<Msg>>, n: nat)
    requires Wired(net) && IsRun(net, run) && AllMortal(net, run[0], n)
    ensures |run| <= |run[0]| * Pow(MaxFan(net.links) + 1, n) + 1
  {
    hide Alive, Fades, Step;
    forall i, k | 0 <= i < |run| && 0 <= k < |run[i]| ensures Fades(net, HeightRank(net, n), run[i][k]) {
      MortalRun(net, run, n, i);
      MortalFades(net, run[i][k], n);
    }
    RunEnds(net, HeightRank(net, n), MaxFan(net.links), run);
    TotalBelow(MaxFan(net.links) + 1, HeightRank(net, n), run[0], n);
  }

  /** Exactly when flooding is endless, in any network and from any packets: when for every length one of the
      packets survives a walk of that many links. */
  lemma EndlessIff(net: Net, s: seq<Msg>)
    requires Wired(net)
    ensures Endless(net, s) <==> forall n: nat :: LongWalk(net, s, n)
  {
    hide Survives, Step;
    if n: nat :| !LongWalk(net, s, n) {
      assert AllMortal(net, s, n);
      var bound := |s| * Pow(MaxFan(net.links) + 1, n) + 1;
      forall run ensures !RunFrom(net, s, run, bound) {
        if IsRun(net, run) && run[0] == s { MortalEnds(net, run, n); }
      }
      assert !LongRun(net, s, bound);
    } else {
      forall n: nat ensures LongRun(net, s, n) {
        assert LongWalk(net, s, n);
        var k, w :| 0 <= k < |s| && |w| == n && Survives(net, s[k], w);
        var run := FollowWalk(net, s, k, w);
      }
    }
  }

  // ---------------------------------------------------------------- two hubs, two one-way connections

  /** Each hub sends on its file 0 and receives on its file 1. */
  function There(counts: bool): Link { Link(1, 0, 1, counts) }

  function Back(counts: bool): Link { Link(0, 0, 1, counts) }

  function Pair(a: uint32, b: uint32, counts: bool): Net { Net([a, b], [[There(counts)], [Back(counts)]]) }

  function Rounds(counts: bool, n: nat): (w: seq<Link>)
    ensures |w| == n && forall i :: 0 <= i < n ==> w[i] == if i % 2 == 0 then There(counts) else Back(counts)
  {
    seq(n, i => if i % 2 == 0 then There(counts) else Back(counts))
  }

  lemma RoundsWalk(a: uint32, b: uint32, counts: bool, m: Msg, n: nat)
    requires m.to == 0 && m.via != 0
    ensures Walk(Pair(a, b, counts), m, Rounds(counts, n))
  {
    var net, w := Pair(a, b, counts), Rounds(counts, n);
    forall i | 0 <= i < n - 1
      ensures w[i].to < |net.links| && w[i + 1] in net.links[w[i].to] && w[i + 1].out != w[i].arr
    {
      assert net.links[w[i].to] == [w[i + 1]];
    }
  }

  lemma {:induction false} OnlyRounds(a: uint32, b: uint32, counts: bool, m: Msg, w: seq<Link>, i: nat)
    requires m.to == 0 && Walk(Pair(a, b, counts), m, w) && i < |w|
    ensures m.via != 0 && w[i] == Rounds(counts, |w|)[i]
  {
    var net := Pair(a, b, counts);
    assert w[0] in net.links[0];
    if i > 0 {
      OnlyRounds(a, b, counts, m, w, i - 1);
      assert w[i] in net.links[w[i - 1].to];
    }
  }

  /** The limit met at step `k` of a packet going back and forth. */
  function Meets(a: uint32, b: uint32, k: nat): uint32 { if k % 2 == 0 then a else b }

  lemma {:induction false} RoundCount(wire: nat, counts: bool, n: nat, k: nat)
    requires k <= n
    ensures Count(wire, Rounds(counts, n), k) == if counts then wire + k else if k == 0 then wire else 0
  {
    if k > 0 { RoundCount(wire, counts, n, k - 1); }
  }

  lemma PairSurvivesIff(a: uint32, b: uint32, counts: bool, m: Msg, n: nat)
    requires m.to == 0
    ensures LongWalk(Pair(a, b, counts), [m], n) <==>
            n == 0 || (m.via != 0 && forall k :: 0 <= k < n ==>
                         (if counts then m.wire + k else if k == 0 then m.wire else 0) % TWO16 + 1 <= Meets(a, b, k))
  {
    var net, s, w := Pair(a, b, counts), [m], Rounds(counts, n);
    forall k | 0 <= k < n
      ensures Count(m.wire, w, k) == if counts then m.wire + k else if k == 0 then m.wire else 0
    {
      RoundCount(m.wire, counts, n, k);
    }
    if m.via != 0 || n == 0 {
      if m.via != 0 {
        RoundsWalk(a, b, counts, m, n);
        RoundLimits(a, b, counts, m, n);
      }
      assert s[0] == m && (Survives(net, m, w) ==> LongWalk(net, s, n));
    }
    if LongWalk(net, s, n) && n > 0 {
      var k, v :| 0 <= k < |s| && |v| == n && Survives(net, s[k], v);
      forall i | 0 <= i < n ensures v[i] == w[i] && m.via != 0 { OnlyRounds(a, b, counts, m, v, i); }
      assert v == w && m.via != 0;
      RoundLimits(a, b, counts, m, n);
      forall i | 0 <= i < n ensures Count(m.wire, w, i) % TWO16 + 1 <= Meets(a, b, i) {
        assert Count(m.wire, w, i) % TWO16 + 1 <= LimitAt(net, m, w, i);
      }
    }
  }

  lemma RoundLimits(a: uint32, b: uint32, counts: bool, m: Msg, n: nat)
    requires m.to == 0 && Walk(Pair(a, b, counts), m, Rounds(counts, n))
    ensures forall k :: 0 <= k < n ==>
              LimitAt(Pair(a, b, counts), m, Rounds(counts, n), k) == Meets(a, b, k)
  {}

  predicate PairLets(a: uint32, b: uint32, wire: nat) {
    if wire % 2 == 0 then a >= TWO16 - 1 && b >= TWO16 else a >= TWO16 && b >= TWO16 - 1
  }

  lemma PairCountFits(a: uint32, b: uint32, wire: nat, k: nat)
    requires PairLets(a, b, wire)
    ensures (wire + k) % TWO16 + 1 <= Meets(a, b, k)
  {
    CountParity(wire, k);
  }

  lemma PairCountTops(a: uint32, b: uint32, wire: nat)
    requires forall k :: 0 <= k < TWO16 ==> (wire + k) % TWO16 + 1 <= Meets(a, b, k)
    ensures PairLets(a, b, wire)
  {
    var last, before := CountTop(wire);
    assert (wire + last) % TWO16 + 1 <= Meets(a, b, last);
    assert (wire + before) % TWO16 + 1 <= Meets(a, b, before);
  }

  /** Two one-way json or proto connections. A packet that reaches the first hub with an even count meets it
      with even counts only, so one limit may be 65535: flooding is endless exactly when the limit that meets
      odd counts is 65536 or more and the other at least 65535. */
  lemma PairFloodsIff(a: uint32, b: uint32, m: Msg)
    requires m.to == 0
    ensures Endless(Pair(a, b, true), [m]) <==>
            m.via != 0 && if m.wire % 2 == 0 then a >= TWO16 - 1 && b >= TWO16 else a >= TWO16 && b >= TWO16 - 1
  {
    hide LongWalk, Endless, Meets;
    var net, s := Pair(a, b, true), [m];
    EndlessIff(net, s);
    if forall n: nat :: LongWalk(net, s, n) {
      assert LongWalk(net, s, TWO16);
      PairSurvivesIff(a, b, true, m, TWO16);
      PairCountTops(a, b, m.wire);
    }
    if m.via != 0 && PairLets(a, b, m.wire) {
      forall n: nat ensures LongWalk(net, s, n) {
        PairSurvivesIff(a, b, true, m, n);
        forall k | 0 <= k < n ensures (m.wire + k) % TWO16 + 1 <= Meets(a, b, k) { PairCountFits(a, b, m.wire, k); }
      }
    }
  }

  /** Two one-way airspy, beast or raw connections: nothing stops a packet that the first hub lets through,
      unless the second lets nothing through. */
  lemma UncountedPairFloodsIff(a: uint32, b: uint32, m: Msg)
    requires m.to == 0
    ensures Endless(Pair(a, b, false), [m]) <==> m.via != 0 && m.wire % TWO16 + 1 <= a && b >= 1
  {
    hide LongWalk, Endless;
    var net, s := Pair(a, b, false), [m];
    EndlessIff(net, s);
    if forall n: nat :: LongWalk(net, s, n) {
      assert LongWalk(net, s, 2);
      PairSurvivesIff(a, b, false, m, 2);
      assert Meets(a, b, 0) == a && Meets(a, b, 1) == b;
      assert m.wire % TWO16 + 1 <= Meets(a, b, 0) && 0 % TWO16 + 1 <= Meets(a, b, 1);
    }
    if m.via != 0 && m.wire % TWO16 + 1 <= a && b >= 1 {
      forall n: nat ensures LongWalk(net, s, n) { PairSurvivesIff(a, b, false, m, n); }
    }
  }

  // ---------------------------------------------------------------- two hubs, one two-way connection

  /** Each hub sends and receives on its file 0. */
  function TwoWay(a: uint32, b: uint32, c: bool, d: bool): Net {
    Net([a, b], [[Link(1, 0, 0, c)], [Link(0, 0, 0, d)]])
  }

  lemma WalkStarts(net: Net, m: Msg, w: seq<Link>)
    requires Wired(net) && |w| >= 2 && Walk(net, m, w)
    ensures m.to < |net.links| && w[0] in net.links[m.to]
    ensures w[0].to < |net.links| && w[1] in net.links[w[0].to] && w[1].out != w[0].arr
  {
    assert w[0 + 1] == w[1];
  }

  lemma SameFile(a: uint32, b: uint32, c: bool, d: bool, h: nat, l: Link)
    requires h < 2 && l in TwoWay(a, b, c, d).links[h]
    ensures l.out == 0 && l.arr == 0
  {}

  lemma NoReturn(a: uint32, b: uint32, c: bool, d: bool, m: Msg, w: seq<Link>)
    requires |w| == 2
    ensures !Walk(TwoWay(a, b, c, d), m, w)
  {
    var net := TwoWay(a, b, c, d);
    forall h, l | 0 <= h < 2 && l in net.links[h] ensures l.out == 0 && l.arr == 0 { SameFile(a, b, c, d, h, l); }
    if Walk(net, m, w) {
      WalkStarts(net, m, w);
      assert false;
    }
  }

  /** Nothing that came by a two-way connection goes back by it: whatever the limits, the formats and the
      packets in flight, flooding ends. */
  lemma TwoWayEnds(a: uint32, b: uint32, c: bool, d: bool, s: seq<Msg>)
    ensures !Endless(TwoWay(a, b, c, d), s)
  {
    var net := TwoWay(a, b, c, d);
    EndlessIff(net, s);
    forall k, w: seq<Link> | 0 <= k < |s| && |w| == 2 ensures !Survives(net, s[k], w) { NoReturn(a, b, c, d, s[k], w); }
    assert !LongWalk(net, s, 2);
  }

  // ---------------------------------------------------------------- counts modulo 65536

  lemma CountParity(wire: nat, k: nat)
    ensures (wire + k) % TWO16 % 2 == if k % 2 == 0 then wire % 2 else 1 - wire % 2
  {
    var q := (wire + k) / TWO16;
    SameParity((wire + k) % TWO16, 0x8000 * q);
    assert wire + k == (wire + k) % TWO16 + 2 * (0x8000 * q);
  }

  lemma SameParity(x: nat, h: nat)
    ensures (x + 2 * h) % 2 == x % 2
  {}

  /** How far on a count reaches 65536, and 65535. */
  lemma CountTop(wire: nat) returns (last: nat, before: nat)
    ensures last < TWO16 && (wire + last) % TWO16 == TWO16 - 1 && last % 2 == 1 - wire % 2
    ensures before < TWO16 && (wire + before) % TWO16 == TWO16 - 2 && before % 2 == wire % 2
  {
    var q, r := wire / TWO16, wire % TWO16;
    last := TWO16 - 1 - r;
    before := if r == TWO16 - 1 then TWO16 - 1 else TWO16 - 2 - r;
    SameParity(r, 0x8000 * q);
    assert wire == r + 2 * (0x8000 * q) && wire + last == TWO16 * q + (TWO16 - 1);
    assert wire + before == TWO16 * (if r == TWO16 - 1 then q + 1 else q) + (TWO16 - 2);
  }
}
