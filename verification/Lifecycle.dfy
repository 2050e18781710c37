/** Lifetimes of connections and transports: flow.c, receive.c, send.c, send_receive.c, file.c, peer.c and the
    cleanup sequence of adsbus.c. Every structure allocated has an identity, so a double free would show. */
module Lifecycle {
  type Id = nat

  datatype Flow = RECEIVE | SEND | SEND_RECEIVE

  /** on_close: whom a closing connection calls. */
  datatype Parent = NOBODY | SR(sr: Id) | FILE(file: Id)

  /** A transport holding a flow. A file knows whether to retry and whether its connection is up (else a
      wakeup is pending); other transports hold their flow until cleanup. */
  datatype Transport = File(flow: Flow, retry: bool, busy: bool) | Other(flow: Flow)

  /** What the outside world answers when a file is opened: whether open() worked, whether the descriptor is
      worth reopening, whether the greeting could be written. */
  datatype Answer = Answer(found: bool, again: bool, greeted: bool)

  function Holders(ts: map<Id, Transport>, f: Flow): set<Id> { set i | i in ts && ts[i].flow == f }

  function Count(ts: map<Id, Transport>, f: Flow): nat { |Holders(ts, f)| }

  lemma CountAdd(ts: map<Id, Transport>, i: Id, t: Transport, f: Flow)
    requires i !in ts
    ensures Count(ts[i := t], f) == Count(ts, f) + if t.flow == f then 1 else 0
  {
    var ts' := ts[i := t];
    if t.flow == f {
      assert Holders(ts', f) == Holders(ts, f) + {i};
    } else {
      assert Holders(ts', f) == Holders(ts, f);
    }
  }

  lemma CountRemove(ts: map<Id, Transport>, i: Id, f: Flow)
    requires i in ts
    ensures Count(ts, f) == Count(ts - {i}, f) + if ts[i].flow == f then 1 else 0
  {
    if ts[i].flow == f {
      assert Holders(ts, f) == Holders(ts - {i}, f) + {i};
    } else {
      assert Holders(ts - {i}, f) == Holders(ts, f);
    }
  }

  lemma CountUpdate(ts: map<Id, Transport>, i: Id, t: Transport, f: Flow)
    requires i in ts && t.flow == ts[i].flow
    ensures Count(ts[i := t], f) == Count(ts, f)
  {
    assert Holders(ts[i := t], f) == Holders(ts, f);
  }

  lemma SizeAfterAdd<V>(m: map<Id, V>, k: Id, v: V)
    requires k !in m
    ensures |m[k := v]| == |m| + 1
  {}

  lemma SizeAfterRemove<V>(m: map<Id, V>, k: Id)
    requires k in m
    ensures |m - {k}| == |m| - 1
  {}

  /** No two connections of one kind report to the same parent. */
  ghost predicate OneEach(m: map<Id, Parent>) {
    forall a, b :: a in m && b in m && a != b && m[a] == m[b] ==> m[a] == NOBODY
  }

  lemma ValuesAfterRemove(m: map<Id, Parent>, k: Id)
    requires k in m && OneEach(m)
    ensures OneEach(m - {k})
    ensures forall p :: p != NOBODY ==> (p in (m - {k}).Values <==> p in m.Values && p != m[k])
  {
    forall p | p != NOBODY && p in m.Values && p != m[k] ensures p in (m - {k}).Values {
      var a :| a in m && m[a] == p;
      assert a in m - {k} && (m - {k})[a] == p;
    }
  }

  lemma ValuesAfterAdd(m: map<Id, Parent>, k: Id, q: Parent)
    requires k !in m && OneEach(m) && (q == NOBODY || q !in m.Values)
    ensures OneEach(m[k := q])
    ensures forall p :: p in m[k := q].Values <==> p in m.Values || p == q
  {
    var m' := m[k := q];
    forall p | p in m.Values ensures p in m'.Values {
      var a :| a in m && m[a] == p;
      assert m'[a] == p;
    }
    assert m'[k] == q;
  }

  function One(b: bool): nat { if b then 1 else 0 }

  /** Who is alive and who reports to whom, as a value. */
  datatype World = World(receives: map<Id, Parent>, sends: map<Id, Parent>, srs: map<Id, Parent>, refs: map<Id, nat>,
                         transports: map<Id, Transport>)

  /** What became of an allocation: linked as one of the four kinds, held by the code that is opening or
      closing it, or freed. */
  datatype Stage = RECEIVER | SENDER | PAIR | TRANSPORT | HELD | FREED

  /** Every live structure is linked in one place, and nothing freed is. */
  ghost predicate Tracked(w: World, stage: seq<Stage>) {
    && (forall i: Id :: i in w.receives <==> i < |stage| && stage[i] == RECEIVER)
    && (forall i: Id :: i in w.sends <==> i < |stage| && stage[i] == SENDER)
    && (forall i: Id :: i in w.srs <==> i < |stage| && stage[i] == PAIR)
    && (forall i: Id :: i in w.transports <==> i < |stage| && stage[i] == TRANSPORT)
  }

  lemma TrackReceive(w: World, stage: seq<Stage>, i: Id, p: Parent)
    requires Tracked(w, stage) && i < |stage|
    ensures stage[i] == HELD ==> i !in w.receives && Tracked(w.(receives := w.receives[i := p]), stage[i := RECEIVER])
    ensures i in w.receives ==> Tracked(w.(receives := w.receives - {i}), stage[i := HELD])
  {}

  lemma TrackSend(w: World, stage: seq<Stage>, i: Id, p: Parent)
    requires Tracked(w, stage) && i < |stage|
    ensures stage[i] == HELD ==> i !in w.sends && Tracked(w.(sends := w.sends[i := p]), stage[i := SENDER])
    ensures i in w.sends ==> Tracked(w.(sends := w.sends - {i}), stage[i := HELD])
  {}

  lemma TrackPair(w: World, stage: seq<Stage>, i: Id, p: Parent)
    requires Tracked(w, stage) && i < |stage|
    ensures stage[i] == HELD ==>
              i !in w.srs && Tracked(w.(srs := w.srs[i := p], refs := w.refs[i := 2]), stage[i := PAIR])
    ensures i in w.srs ==> Tracked(w.(srs := w.srs - {i}, refs := w.refs - {i}), stage[i := HELD])
  {}

  lemma TrackTransport(w: World, stage: seq<Stage>, i: Id, t: Transport)
    requires Tracked(w, stage) && i < |stage|
    ensures stage[i] == HELD ==>
              i !in w.transports && Tracked(w.(transports := w.transports[i := t]), stage[i := TRANSPORT])
    ensures i in w.transports ==>
              Tracked(w.(transports := w.transports - {i}), stage[i := HELD]) &&
              Tracked(w.(transports := w.transports[i := t]), stage)
  {}

  lemma TrackFree(w: World, stage: seq<Stage>, i: Id)
    requires Tracked(w, stage) && i < |stage| && stage[i] == HELD
    ensures Tracked(w, stage[i := FREED])
  {}

  lemma StageOf(w: World, stage: seq<Stage>)
    requires Tracked(w, stage)
    ensures forall s :: s in w.srs ==> s < |stage| && stage[s] == PAIR
    ensures forall f :: f in w.transports ==> f < |stage| && stage[f] == TRANSPORT
    ensures forall r :: r in w.receives ==> r < |stage| && stage[r] == RECEIVER
    ensures forall r :: r in w.sends ==> r < |stage| && stage[r] == SENDER
  {}

  lemma TrackedWithoutRefs(w: World, stage: seq<Stage>, refs: map<Id, nat>)
    requires Tracked(w, stage)
    ensures Tracked(w.(refs := refs), stage)
  {}

  lemma GoneFromPairs(w: World, stage: seq<Stage>, s: Id)
    requires Tracked(w, stage) && s < |stage| && stage[s] == FREED
    ensures s !in w.srs
  {}

  ghost predicate KnownParents(w: World) {
    && (forall p :: p in w.receives.Values || p in w.sends.Values || p in w.srs.Values ==>
          (p.SR? ==> p.sr in w.srs) && (p.FILE? ==> p.file in w.transports && w.transports[p.file].File?))
    && (forall p :: p in w.srs.Values ==> !p.SR?)
    && OneEach(w.receives) && OneEach(w.sends) && OneEach(w.srs)
  }

  /** A two-way connection counts its live halves; `owed` has just lost one and is about to be told. */
  ghost predicate RefsOk(w: World, owed: Parent) {
    && w.refs.Keys == w.srs.Keys
    && forall s :: s in w.srs ==>
         1 <= w.refs[s] <= 2 &&
         w.refs[s] == One(SR(s) in w.receives.Values) + One(SR(s) in w.sends.Values) + One(owed == SR(s))
  }

  /** A file's connection is up exactly when it is busy, of the kind its flow makes. */
  ghost predicate FilesOk(w: World, owed: Parent) {
    forall f :: f in w.transports && w.transports[f].File? ==>
      var t := w.transports[f];
      && (t.busy <==>
          FILE(f) in w.receives.Values || FILE(f) in w.sends.Values || FILE(f) in w.srs.Values || owed == FILE(f))
      && (FILE(f) in w.receives.Values ==> t.flow == RECEIVE && owed != FILE(f))
      && (FILE(f) in w.sends.Values ==> t.flow == SEND && owed != FILE(f))
      && (FILE(f) in w.srs.Values ==> t.flow == SEND_RECEIVE && owed != FILE(f))
  }

  ghost predicate Linked(w: World, owed: Parent) {
    && KnownParents(w) && RefsOk(w, owed) && FilesOk(w, owed)
    && (owed.SR? ==> owed.sr in w.srs)
    && (owed.FILE? ==> owed.file in w.transports && w.transports[owed.file].File?)
  }

  /** While a close is passed on, only two-way connections and transports can be freed, and each only once. */
  predicate Closes(before: seq<Stage>, after: seq<Stage>) {
    |after| == |before| &&
    forall i :: 0 <= i < |before| ==>
      after[i] == before[i] || ((before[i] == PAIR || before[i] == TRANSPORT) && after[i] == FREED)
  }

  lemma ClosesThenFree(before: seq<Stage>, mid: seq<Stage>, r: Id)
    requires r < |before| && Closes(before[r := HELD], mid)
    ensures |mid| == |before| && mid[r] == HELD && Closes(before[r := FREED], mid[r := FREED])
    ensures before[r] == PAIR || before[r] == TRANSPORT ==> Closes(before, mid[r := FREED])
  {}

  lemma ClosesNothing(before: seq<Stage>, f: Id)
    ensures Closes(before, before)
    ensures f < |before| && (before[f] == PAIR || before[f] == TRANSPORT) ==> Closes(before, before[f := FREED])
  {}

  /** Nothing is left half opened or half closed. */
  predicate NoneHeld(stage: seq<Stage>) { forall i :: 0 <= i < |stage| ==> stage[i] != HELD }

  function Rank(p: Parent): nat { match p case NOBODY => 0 case FILE(_) => 1 case SR(_) => 2 }

  // ---------------------------------------------------------------- what each event does to the links

  lemma ReceiveGone(w: World, r: Id)
    requires Linked(w, NOBODY) && r in w.receives
    ensures Linked(w.(receives := w.receives - {r}), w.receives[r])
  {
    ValuesAfterRemove(w.receives, r);
  }

  lemma SendGone(w: World, r: Id)
    requires Linked(w, NOBODY) && r in w.sends
    ensures Linked(w.(sends := w.sends - {r}), w.sends[r])
  {
    ValuesAfterRemove(w.sends, r);
  }

  /** `w'` has one more receiver, or sender, which reports to `p`. */
  ghost predicate Joins(w: World, w': World, flow: Flow, p: Parent) {
    && w'.transports == w.transports && w'.srs == w.srs && w'.refs == w.refs
    && match flow
       case RECEIVE => w'.sends == w.sends && forall q :: q in w'.receives.Values <==> q in w.receives.Values || q == p
       case SEND => w'.receives == w.receives && forall q :: q in w'.sends.Values <==> q in w.sends.Values || q == p
       case SEND_RECEIVE => false
  }

  lemma JoinKnown(w: World, w': World, flow: Flow, p: Parent)
    requires Joins(w, w', flow, p) && KnownParents(w) && !p.SR? && OneEach(w'.receives) && OneEach(w'.sends)
    requires p.FILE? ==> p.file in w.transports && w.transports[p.file].File?
    ensures KnownParents(w')
  {
    hide OneEach;
  }

  lemma JoinRefs(w: World, w': World, flow: Flow, p: Parent)
    requires Joins(w, w', flow, p) && RefsOk(w, p) && !p.SR?
    ensures RefsOk(w', NOBODY)
  {
    forall t | t in w'.srs
      ensures 1 <= w'.refs[t] <= 2 && w'.refs[t] == One(SR(t) in w'.receives.Values) + One(SR(t) in w'.sends.Values)
    {
      assert SR(t) != p;
    }
  }

  lemma JoinFiles(w: World, w': World, flow: Flow, p: Parent)
    requires Joins(w, w', flow, p) && FilesOk(w, p) && !p.SR?
    requires p.FILE? ==> p.file in w.transports && w.transports[p.file].flow == flow
    ensures FilesOk(w', NOBODY)
  {}

  lemma JoinKeeps(w: World, w': World, flow: Flow, p: Parent)
    requires Linked(w, p) && !p.SR? && Joins(w, w', flow, p) && OneEach(w'.receives) && OneEach(w'.sends)
    requires p.FILE? ==> w.transports[p.file].flow == flow
    ensures Linked(w', NOBODY)
  {
    hide KnownParents, RefsOk, FilesOk, Joins, OneEach;
    JoinKnown(w, w', flow, p);
    JoinRefs(w, w', flow, p);
    JoinFiles(w, w', flow, p);
  }

  lemma ReceiverAdded(w: World, w': World, r: Id, p: Parent)
    requires w' == w.(receives := w.receives[r := p])
    requires r !in w.receives && OneEach(w.receives) && OneEach(w.sends) && (p == NOBODY || p !in w.receives.Values)
    ensures Joins(w, w', RECEIVE, p) && OneEach(w'.receives) && OneEach(w'.sends)
  {
    hide OneEach;
    ValuesAfterAdd(w.receives, r, p);
    assert w'.receives == w.receives[r := p];
    forall q ensures q in w'.receives.Values <==> q in w.receives.Values || q == p {}
  }

  lemma SenderAdded(w: World, w': World, r: Id, p: Parent)
    requires w' == w.(sends := w.sends[r := p])
    requires r !in w.sends && OneEach(w.receives) && OneEach(w.sends) && (p == NOBODY || p !in w.sends.Values)
    ensures Joins(w, w', SEND, p) && OneEach(w'.receives) && OneEach(w'.sends)
  {
    hide OneEach;
    ValuesAfterAdd(w.sends, r, p);
    assert w'.sends == w.sends[r := p];
    forall q ensures q in w'.sends.Values <==> q in w.sends.Values || q == p {}
  }

  /** A new receiver, for nobody or for the file that is owed one. */
  lemma ReceiveJoins(w: World, r: Id, p: Parent)
    requires Linked(w, p) && !p.SR? && r !in w.receives && (p.FILE? ==> w.transports[p.file].flow == RECEIVE)
    ensures Linked(w.(receives := w.receives[r := p]), NOBODY)
  {
    NotYetOwed(w, p);
    KnownEach(w);
    hide Linked, OneEach, Joins;
    var w' := w.(receives := w.receives[r := p]);
    ReceiverAdded(w, w', r, p);
    JoinKeeps(w, w', RECEIVE, p);
  }

  lemma SendJoins(w: World, r: Id, p: Parent)
    requires Linked(w, p) && !p.SR? && r !in w.sends && (p.FILE? ==> w.transports[p.file].flow == SEND)
    ensures Linked(w.(sends := w.sends[r := p]), NOBODY)
  {
    NotYetOwed(w, p);
    KnownEach(w);
    hide Linked, OneEach, Joins;
    var w' := w.(sends := w.sends[r := p]);
    SenderAdded(w, w', r, p);
    JoinKeeps(w, w', SEND, p);
  }

  lemma KnownEach(w: World)
    requires KnownParents(w)
    ensures OneEach(w.receives) && OneEach(w.sends) && OneEach(w.srs)
  {}

  /** A file that is owed a connection has none. */
  lemma NotYetOwed(w: World, p: Parent)
    requires Linked(w, p) && !p.SR?
    ensures p == NOBODY || (p !in w.receives.Values && p !in w.sends.Values && p !in w.srs.Values)
  {}

  function NewPair(w: World, s: Id, a: Id, b: Id, p: Parent): World {
    w.(srs := w.srs[s := p], refs := w.refs[s := 2], sends := w.sends[a := SR(s)], receives := w.receives[b := SR(s)])
  }

  /** Nobody reports to a pair that does not exist. */
  lemma NotYetReportedTo(w: World, s: Id)
    requires KnownParents(w) && s !in w.srs
    ensures SR(s) !in w.sends.Values && SR(s) !in w.receives.Values && SR(s) !in w.srs.Values
  {}

  /** One more connection, which reports to `p`; `i` is the first identity not yet given out. */
  function Joined(w: World, flow: Flow, i: Id, p: Parent): World {
    match flow
    case RECEIVE => w.(receives := w.receives[i := p])
    case SEND => w.(sends := w.sends[i := p])
    case SEND_RECEIVE => NewPair(w, i, i + 1, i + 2, p)
  }

  /** The record of a file. */
  function WithFile(w: World, f: Id, flow: Flow, retry: bool, busy: bool): World {
    w.(transports := w.transports[f := File(flow, retry, busy)])
  }

  /** What opening file `f` does: nothing, or its record is brought up to date, or it has a connection as well. */
  function Opening(w: World, f: Id, answer: Answer, i: Id): World
    requires f in w.transports && w.transports[f].File?
  {
    var flow := w.transports[f].flow;
    if !answer.found then w
    else if !answer.greeted then WithFile(w, f, flow, answer.again, false)
    else Joined(WithFile(w, f, flow, answer.again, true), flow, i, FILE(f))
  }

  /** How adding a pair changes who is reported to. */
  lemma PairValues(w: World, s: Id, a: Id, b: Id, p: Parent)
    requires KnownParents(w) && (p == NOBODY || p !in w.srs.Values) && s !in w.srs && a !in w.sends && b !in w.receives
    ensures SR(s) !in w.sends.Values && SR(s) !in w.receives.Values
    ensures var w' := NewPair(w, s, a, b, p);
            && OneEach(w'.receives) && OneEach(w'.sends) && OneEach(w'.srs)
            && (forall q :: q in w'.receives.Values <==> q in w.receives.Values || q == SR(s))
            && (forall q :: q in w'.sends.Values <==> q in w.sends.Values || q == SR(s))
            && (forall q :: q in w'.srs.Values <==> q in w.srs.Values || q == p)
  {
    NotYetReportedTo(w, s);
    ValuesAfterAdd(w.srs, s, p);
    ValuesAfterAdd(w.sends, a, SR(s));
    ValuesAfterAdd(w.receives, b, SR(s));
  }

  /** `w'` has one more pair, `s`, and its two halves. */
  ghost predicate Paired(w: World, w': World, s: Id, p: Parent) {
    && w'.transports == w.transports && w'.srs == w.srs[s := p] && w'.refs == w.refs[s := 2]
    && (forall q :: q in w'.receives.Values <==> q in w.receives.Values || q == SR(s))
    && (forall q :: q in w'.sends.Values <==> q in w.sends.Values || q == SR(s))
    && (forall q :: q in w'.srs.Values <==> q in w.srs.Values || q == p)
  }

  lemma NewPairRefs(w: World, w': World, s: Id, p: Parent)
    requires Paired(w, w', s, p)
    ensures w'.refs[s] == One(SR(s) in w'.receives.Values) + One(SR(s) in w'.sends.Values) == 2
  {}

  lemma OldPairRefs(w: World, w': World, s: Id, p: Parent, t: Id)
    requires Paired(w, w', s, p) && RefsOk(w, p) && !p.SR? && s !in w.srs && t in w.srs
    ensures t in w'.refs && 1 <= w'.refs[t] <= 2
    ensures w'.refs[t] == One(SR(t) in w'.receives.Values) + One(SR(t) in w'.sends.Values)
  {
    assert w'.refs[t] == w.refs[t] && SR(t) != SR(s) && p != SR(t);
  }

  lemma PairRefs(w: World, w': World, s: Id, p: Parent)
    requires Paired(w, w', s, p) && RefsOk(w, p) && !p.SR? && s !in w.srs
    ensures RefsOk(w', NOBODY)
  {
    assert w'.refs.Keys == w'.srs.Keys;
    NewPairRefs(w, w', s, p);
    hide One;
    forall t | t in w'.srs
      ensures 1 <= w'.refs[t] <= 2 && w'.refs[t] == One(SR(t) in w'.receives.Values) + One(SR(t) in w'.sends.Values)
    {
      if t != s { OldPairRefs(w, w', s, p, t); }
    }
    assert One(false) == 0 by { NoneIsZero(); }
  }

  lemma NoneIsZero()
    ensures One(false) == 0
  {}

  lemma PairFiles(w: World, w': World, s: Id, p: Parent)
    requires Paired(w, w', s, p) && FilesOk(w, p) && !p.SR? && (p.FILE? ==> p.file in w.transports)
    requires p.FILE? ==> w.transports[p.file].flow == SEND_RECEIVE
    ensures FilesOk(w', NOBODY)
  {}

  lemma PairKnown(w: World, w': World, s: Id, p: Parent)
    requires Paired(w, w', s, p) && KnownParents(w) && !p.SR?
    requires p.FILE? ==> p.file in w.transports && w.transports[p.file].File?
    requires OneEach(w'.receives) && OneEach(w'.sends) && OneEach(w'.srs)
    ensures KnownParents(w')
  {}

  lemma PairJoins(w: World, s: Id, a: Id, b: Id, p: Parent)
    requires Linked(w, p) && !p.SR? && s !in w.srs && a !in w.sends && b !in w.receives
    requires p.FILE? ==> w.transports[p.file].flow == SEND_RECEIVE
    ensures Linked(NewPair(w, s, a, b, p), NOBODY)
  {
    hide KnownParents, RefsOk, FilesOk, OneEach;
    NotYetOwed(w, p);
    PairValues(w, s, a, b, p);
    var w' := NewPair(w, s, a, b, p);
    PairKnown(w, w', s, p);
    PairRefs(w, w', s, p);
    PairFiles(w, w', s, p);
  }

  lemma RefsRange(w: World, s: Id)
    requires Linked(w, SR(s))
    ensures s in w.srs && s in w.refs && 1 <= w.refs[s] <= 2 && !w.srs[s].SR?
  {}

  lemma OwedFile(w: World, f: Id)
    requires Linked(w, FILE(f))
    ensures f in w.transports && w.transports[f].File?
  {}

  lemma SameParents(w: World, w': World)
    requires KnownParents(w) && w' == w.(refs := w'.refs)
    ensures KnownParents(w')
  {}

  lemma FilesSamePeople(w: World, w': World, owed: Parent, owed': Parent)
    requires FilesOk(w, owed) && w' == w.(refs := w'.refs) && !owed.FILE? && !owed'.FILE?
    ensures FilesOk(w', owed')
  {}

  lemma OneRefLess(w: World, s: Id)
    requires RefsOk(w, SR(s)) && s in w.srs && w.refs[s] != 1
    ensures RefsOk(w.(refs := w.refs[s := w.refs[s] - 1]), NOBODY)
  {
    var w' := w.(refs := w.refs[s := w.refs[s] - 1]);
    assert w'.refs.Keys == w'.srs.Keys;
    assert w.refs[s] == 2;
    forall t | t in w'.srs
      ensures 1 <= w'.refs[t] <= 2 && w'.refs[t] == One(SR(t) in w'.receives.Values) + One(SR(t) in w'.sends.Values)
    {
      assert 1 <= w.refs[t] <= 2;
    }
  }

  /** A two-way connection lost one half and still has the other. */
  lemma HalfClosed(w: World, s: Id)
    requires Linked(w, SR(s)) && w.refs[s] != 1
    ensures Linked(w.(refs := w.refs[s := w.refs[s] - 1]), NOBODY)
  {
    RefsRange(w, s);
    hide KnownParents, FilesOk, RefsOk;
    var w' := w.(refs := w.refs[s := w.refs[s] - 1]);
    SameParents(w, w');
    FilesSamePeople(w, w', SR(s), NOBODY);
    OneRefLess(w, s);
  }

  /** It lost the last one. */
  lemma BothClosed(w: World, s: Id)
    requires Linked(w, SR(s)) && w.refs[s] == 1
    ensures Linked(w.(srs := w.srs - {s}, refs := w.refs - {s}), w.srs[s])
  {
    ValuesAfterRemove(w.srs, s);
  }

  function Idle(w: World, f: Id): World
    requires f in w.transports && w.transports[f].File?
  {
    w.(transports := w.transports[f := w.transports[f].(busy := false)])
  }

  /** What it makes of the links to tell `p` that a connection of its own has closed. */
  function Told(w: World, p: Parent): World
    decreases Rank(p)
  {
    match p
    case NOBODY => w
    case FILE(f) =>
      if f !in w.transports || !w.transports[f].File? then w
      else if w.transports[f].retry then Idle(w, f)
      else w.(transports := w.transports - {f})
    case SR(s) =>
      if s !in w.srs || s !in w.refs || w.refs[s] == 0 || w.srs[s].SR? then w
      else if w.refs[s] == 1 then Told(w.(srs := w.srs - {s}, refs := w.refs - {s}), w.srs[s])
      else w.(refs := w.refs[s := w.refs[s] - 1])
  }

  lemma ToldHalf(w: World, s: Id)
    requires s in w.srs && s in w.refs && !w.srs[s].SR? && w.refs[s] > 0
    ensures w.refs[s] == 1 ==>
              Told(w, SR(s)) == Told(w.(srs := w.srs - {s}, refs := w.refs - {s}), w.srs[s])
    ensures w.refs[s] > 1 ==> Told(w, SR(s)) == w.(refs := w.refs[s := w.refs[s] - 1])
  {}

  /** The owner of a two-way connection hears nothing of the half that closes first, and is told once, when
      the other one closes. */
  lemma OwnerToldOnce(w: World, s: Id)
    requires Linked(w, NOBODY) && s in w.srs && w.refs[s] == 2
    ensures var w1 := Told(w, SR(s));
            && w1 == w.(refs := w.refs[s := 1])
            && Told(w1, SR(s)) == Told(w.(srs := w.srs - {s}, refs := w.refs - {s}), w.srs[s])
  {
    assert !w.srs[s].SR?;
    assert w.refs[s := 1] - {s} == w.refs - {s};
  }

  lemma FileIdle(w: World, f: Id)
    requires Linked(w, FILE(f))
    ensures Linked(Idle(w, f), NOBODY)
  {}

  lemma FileGone(w: World, f: Id)
    requires Linked(w, FILE(f))
    ensures Linked(w.(transports := w.transports - {f}), NOBODY)
  {}

  /** Any transport without a connection of its own may come or go. */
  lemma TransportAdded(w: World, f: Id, t: Transport)
    requires Linked(w, NOBODY) && f !in w.transports && (t.File? ==> !t.busy)
    ensures Linked(w.(transports := w.transports[f := t]), NOBODY)
  {}

  lemma FileStaysIdle(w: World, f: Id)
    requires f in w.transports && w.transports[f].File? && !w.transports[f].busy
    ensures Idle(w, f) == w
  {}

  lemma FileReady(w: World, f: Id, again: bool)
    requires Linked(w, NOBODY) && f in w.transports && w.transports[f].File? && !w.transports[f].busy
    ensures Linked(WithFile(w, f, w.transports[f].flow, again, false), NOBODY)
  {}

  function Busy(w: World, f: Id): World
    requires f in w.transports && w.transports[f].File?
  {
    w.(transports := w.transports[f := w.transports[f].(busy := true)])
  }

  lemma ReadyBusy(w: World, f: Id, again: bool)
    requires f in w.transports && w.transports[f].File?
    ensures var flow := w.transports[f].flow;
            Busy(WithFile(w, f, flow, again, false), f) == WithFile(w, f, flow, again, true)
  {}

  /** A file that is opened is owed a connection. */
  lemma FileOwed(w: World, f: Id)
    requires Linked(w, NOBODY) && f in w.transports && w.transports[f].File? && !w.transports[f].busy
    ensures Linked(Busy(w, f), FILE(f))
  {}

  /** The process. */
  class Bus {
    var receives: map<Id, Parent>
    var sends: map<Id, Parent>
    var srs: map<Id, Parent>
    var refs: map<Id, nat>
    var transports: map<Id, Transport>
    var countIn: int
    var countOut: int
    var countOutIn: int
    var shutdown: bool

    var stage: seq<Stage>   // of every allocation so far

    ghost function W(): World
      reads this
    {
      World(receives, sends, srs, refs, transports)
    }

    /** The counters are exact, and every allocation is accounted for. */
    ghost predicate Books()
      reads this
    {
      && countIn == |receives| + Count(transports, RECEIVE)
      && countOut == |sends| + Count(transports, SEND)
      && countOutIn == Count(transports, SEND_RECEIVE)
      && refs.Keys == srs.Keys
      && (forall s :: s in srs ==> !srs[s].SR?)
      && Tracked(W(), stage)
    }

    ghost predicate Inv(owed: Parent)
      reads this
    {
      Books() && (!shutdown ==> Linked(W(), owed))
    }

    constructor ()
      ensures Inv(NOBODY) && stage == [] && !shutdown
    {
      receives, sends, srs, refs, transports := map[], map[], map[], map[], map[];
      countIn, countOut, countOutIn, shutdown := 0, 0, 0, false;
      stage := [];
    }

    // -------------------------------------------------------------- flow.c

    method FlowRefInc(f: Flow)
      modifies this`countIn, this`countOut, this`countOutIn
      ensures countIn == old(countIn) + One(f == RECEIVE)
      ensures countOut == old(countOut) + One(f == SEND)
      ensures countOutIn == old(countOutIn) + One(f == SEND_RECEIVE)
    {
      match f
      case RECEIVE => countIn := countIn + 1;
      case SEND => countOut := countOut + 1;
      case SEND_RECEIVE => countOutIn := countOutIn + 1;
    }

    /** The counters are unsigned: the precondition is that this one does not underflow. */
    method FlowRefDec(f: Flow)
      requires match f case RECEIVE => countIn > 0 case SEND => countOut > 0 case SEND_RECEIVE => countOutIn > 0
      modifies this`countIn, this`countOut, this`countOutIn
      ensures countIn == old(countIn) - One(f == RECEIVE)
      ensures countOut == old(countOut) - One(f == SEND)
      ensures countOutIn == old(countOutIn) - One(f == SEND_RECEIVE)
    {
      match f
      case RECEIVE => countIn := countIn - 1;
      case SEND => countOut := countOut - 1;
      case SEND_RECEIVE => countOutIn := countOutIn - 1;
    }

    method Malloc() returns (i: Id)
      requires Books()
      modifies this`stage
      ensures i == |old(stage)| && stage == old(stage) + [HELD] && Books()
    {
      i := |stage|;
      stage := stage + [HELD];
    }

    /** free(): of something unlinked and not freed before. */
    method Free(i: Id)
      requires Books() && i < |stage| && stage[i] == HELD
      modifies this`stage
      ensures stage == old(stage)[i := FREED] && Books()
    {
      hide Tracked, Count;
      TrackFree(W(), stage, i);
      stage := stage[i := FREED];
    }

    // -------------------------------------------------------------- opening

    /** receive_new. */
    method ReceiveNew(p: Parent) returns (r: Id)
      requires Books()
      modifies this`countIn, this`receives, this`stage
      ensures Books() && r == |old(stage)| && stage == old(stage) + [RECEIVER]
      ensures r !in old(receives) && receives == old(receives)[r := p]
    {
      hide Tracked, Count;
      r := Malloc();
      TrackReceive(W(), stage, r, p);
      countIn := countIn + 1;
      SizeAfterAdd(receives, r, p);
      receives := receives[r := p];
      stage := stage[r := RECEIVER];
    }

    /** send_new. */
    method SendNew(p: Parent) returns (r: Id)
      requires Books()
      modifies this`countOut, this`sends, this`stage
      ensures Books() && r == |old(stage)| && stage == old(stage) + [SENDER]
      ensures r !in old(sends) && sends == old(sends)[r := p]
    {
      hide Tracked, Count;
      r := Malloc();
      TrackSend(W(), stage, r, p);
      countOut := countOut + 1;
      SizeAfterAdd(sends, r, p);
      sends := sends[r := p];
      stage := stage[r := SENDER];
    }

    /** The two-way connection itself, before its halves. */
    method PairNew(p: Parent) returns (s: Id)
      requires Books() && !p.SR?
      modifies this`srs, this`refs, this`stage
      ensures Books() && s == |old(stage)| && stage == old(stage) + [PAIR]
      ensures s !in old(srs) && srs == old(srs)[s := p] && refs == old(refs)[s := 2]
    {
      hide Tracked, Count;
      s := Malloc();
      TrackPair(W(), stage, s, p);
      srs, refs := srs[s := p], refs[s := 2];
      stage := stage[s := PAIR];
    }

    /** send_receive_new. */
    method SendReceiveNew(p: Parent) returns (s: Id, a: Id, b: Id)
      requires Books() && !p.SR?
      modifies this`countIn, this`countOut, this`receives, this`sends, this`srs, this`refs, this`stage
      ensures Books() && s !in old(srs) && a !in old(sends) && b !in old(receives)
      ensures W() == NewPair(old(W()), s, a, b, p)
      ensures s == |old(stage)| && a == s + 1 && b == s + 2 && stage == old(stage) + [PAIR, SENDER, RECEIVER]
    {
      hide Tracked, Count, Books;
      s := PairNew(p);
      a := SendNew(SR(s));
      b := ReceiveNew(SR(s));
    }

    // -------------------------------------------------------------- closing

    method UnlinkReceive(r: Id)
      requires Books() && r in receives
      modifies this`countIn, this`receives, this`stage
      ensures Books() && receives == old(receives) - {r}
      ensures r < |old(stage)| && stage == old(stage)[r := HELD]
    {
      hide Tracked, Count;
      StageOf(W(), stage);
      TrackReceive(W(), stage, r, NOBODY);
      SizeAfterRemove(receives, r);
      assert countIn > 0;
      countIn := countIn - 1;
      receives := receives - {r};
      stage := stage[r := HELD];
    }

    method UnlinkSend(r: Id)
      requires Books() && r in sends
      modifies this`countOut, this`sends, this`stage
      ensures Books() && sends == old(sends) - {r}
      ensures r < |old(stage)| && stage == old(stage)[r := HELD]
    {
      hide Tracked, Count;
      StageOf(W(), stage);
      TrackSend(W(), stage, r, NOBODY);
      SizeAfterRemove(sends, r);
      assert countOut > 0;
      countOut := countOut - 1;
      sends := sends - {r};
      stage := stage[r := HELD];
    }

    method UnlinkPair(s: Id)
      requires Books() && s in srs
      modifies this`srs, this`refs, this`stage
      ensures Books() && srs == old(srs) - {s} && refs == old(refs) - {s}
      ensures s < |old(stage)| && stage == old(stage)[s := HELD]
    {
      hide Tracked, Count;
      StageOf(W(), stage);
      TrackPair(W(), stage, s, NOBODY);
      ghost var w := W();
      srs, refs := srs - {s}, refs - {s};
      stage := stage[s := HELD];
      assert W() == w.(srs := w.srs - {s}, refs := w.refs - {s});
    }

    method UnlinkTransport(f: Id)
      requires Books() && f in transports
      modifies this`countIn, this`countOut, this`countOutIn, this`transports, this`stage
      ensures Books() && transports == old(transports) - {f}
      ensures f < |old(stage)| && stage == old(stage)[f := HELD]
    {
      hide Tracked, Count;
      StageOf(W(), stage);
      TrackTransport(W(), stage, f, transports[f]);
      CountRemove(transports, f, RECEIVE);
      CountRemove(transports, f, SEND);
      CountRemove(transports, f, SEND_RECEIVE);
      ghost var w := W();
      FlowRefDec(transports[f].flow);
      transports := transports - {f};
      stage := stage[f := HELD];
      assert W() == w.(transports := w.transports - {f});
    }

    /** file_del, and the deletion of other transports. */
    method FileDel(f: Id)
      requires Books() && f in transports
      modifies this`countIn, this`countOut, this`countOutIn, this`transports, this`stage
      ensures Books() && transports == old(transports) - {f}
      ensures f < |old(stage)| && old(stage)[f] == TRANSPORT && stage == old(stage)[f := FREED]
    {
      hide Tracked, Count;
      StageOf(W(), stage);
      UnlinkTransport(f);
      Free(f);
    }

    method SetTransport(f: Id, t: Transport)
      requires Books() && f in transports && transports[f].flow == t.flow
      modifies this`transports
      ensures Books() && transports == old(transports)[f := t]
    {
      hide Tracked, Count;
      StageOf(W(), stage);
      TrackTransport(W(), stage, f, t);
      CountUpdate(transports, f, t, RECEIVE);
      CountUpdate(transports, f, t, SEND);
      CountUpdate(transports, f, t, SEND_RECEIVE);
      transports := transports[f := t];
    }

    /** file_retry: a wakeup will reopen the file. */
    method FileRetry(f: Id)
      requires Books() && f in transports && transports[f].File?
      modifies this`transports
      ensures Books() && W() == Idle(old(W()), f)
    {
      SetTransport(f, transports[f].(busy := false));
    }

    /** file_handle_close: reopen later, or give the flow reference back. */
    method FileHandleClose(f: Id)
      requires !shutdown && Inv(FILE(f))
      modifies this`countIn, this`countOut, this`countOutIn, this`transports, this`stage
      ensures Inv(NOBODY) && Closes(old(stage), stage) && f in old(transports)
      ensures old(transports)[f].File? &&
              (if old(transports)[f].retry then W() == Idle(old(W()), f) && stage == old(stage)
               else transports == old(transports) - {f} && stage[f] == FREED)
      ensures W() == Told(old(W()), FILE(f))
    {
      hide Tracked, Linked, Count, Closes, Books;
      OwedFile(W(), f);
      ClosesNothing(stage, f);
      if transports[f].retry {
        FileIdle(W(), f);
        FileRetry(f);
      } else {
        FileGone(W(), f);
        FileDel(f);
      }
    }

    /** peer_call of an on_close. */
    method PeerCall(p: Parent)
      requires Inv(p)
      modifies this`countIn, this`countOut, this`countOutIn, this`srs, this`refs, this`transports, this`stage
      ensures Inv(NOBODY) && Closes(old(stage), stage)
      ensures shutdown || p == NOBODY ==> W() == old(W()) && stage == old(stage)
      ensures !shutdown ==> W() == Told(old(W()), p)
      decreases Rank(p), 1
    {
      hide Tracked, Linked, Count, Closes, Books;
      if p == NOBODY { assert Told(W(), p) == W(); }
      hide Told;
      if shutdown || p == NOBODY {
        ClosesNothing(stage, 0);
        return;
      }
      match p
      case SR(s) => RefsRange(W(), s); SendReceiveOnClose(s);
      case FILE(f) => FileHandleClose(f);
      case NOBODY =>
    }

    method DropRef(s: Id)
      requires Books() && s in refs && refs[s] > 0
      modifies this`refs
      ensures Books() && W() == old(W()).(refs := old(refs)[s := old(refs)[s] - 1])
      ensures s in srs && W().(srs := srs - {s}, refs := refs - {s}) ==
              old(W()).(srs := old(srs) - {s}, refs := old(refs) - {s})
    {
      hide Tracked, Count;
      TrackedWithoutRefs(W(), stage, refs[s := refs[s] - 1]);
      assert refs - {s} == refs[s := refs[s] - 1] - {s};
      refs := refs[s := refs[s] - 1];
    }

    /** send_receive_on_close. */
    method SendReceiveOnClose(s: Id)
      requires !shutdown && Inv(SR(s)) && s in refs
      modifies this`countIn, this`countOut, this`countOutIn, this`srs, this`refs, this`transports, this`stage
      ensures Inv(NOBODY) && Closes(old(stage), stage) && s in old(srs)
      // the first half to close leaves everything else alone, the second frees the connection
      ensures old(refs)[s] == 2 ==> W() == old(W()).(refs := old(refs)[s := 1]) && stage == old(stage)
      ensures old(refs)[s] == 1 ==> s !in srs && stage[s] == FREED
      ensures old(refs)[s] == 1 || old(refs)[s] == 2
      ensures W() == Told(old(W()), SR(s))
      decreases 2, 0
    {
      hide Tracked, Linked, Count, Closes, Books, Told;
      ghost var w := W();
      RefsRange(w, s);
      ToldHalf(w, s);
      DropRef(s);
      if refs[s] == 0 {
        BothClosed(w, s);
        SendReceiveDel(s);
      } else {
        HalfClosed(w, s);
        ClosesNothing(stage, s);
      }
    }

    /** send_receive_del. */
    method SendReceiveDel(s: Id)
      requires Books() && s in srs
      requires !shutdown ==> Linked(W().(srs := srs - {s}, refs := refs - {s}), srs[s])
      modifies this`countIn, this`countOut, this`countOutIn, this`srs, this`refs, this`transports, this`stage
      ensures Inv(NOBODY) && Closes(old(stage), stage) && s !in srs
      ensures s < |old(stage)| && |stage| == |old(stage)| && stage[s] == FREED
      ensures shutdown ==>
                W() == old(W()).(srs := old(srs) - {s}, refs := old(refs) - {s}) && stage == old(stage)[s := FREED]
      ensures !shutdown ==> W() == Told(old(W()).(srs := old(srs) - {s}, refs := old(refs) - {s}), old(srs)[s])
      decreases 1, 2
    {
      hide Tracked, Linked, Count, Closes, Told;
      ghost var before := stage;
      var p := srs[s];
      assert stage[s] == PAIR by { StageOf(W(), stage); }
      UnlinkPair(s);
      PeerCall(p);
      ClosesThenFree(before, stage, s);
      ClosesNothing(before[s := HELD], 0);
      Free(s);
      GoneFromPairs(W(), stage, s);
    }

    /** receive_del. */
    method ReceiveDel(r: Id)
      requires Inv(NOBODY) && r in receives
      modifies this`countIn, this`countOut, this`countOutIn, this`receives, this`srs, this`refs, this`transports,
               this`stage
      ensures Inv(NOBODY) && receives == old(receives) - {r}
      ensures r < |old(stage)| && Closes(old(stage)[r := FREED], stage)
      ensures shutdown || old(receives)[r] == NOBODY ==>
                W() == old(W()).(receives := old(receives) - {r}) && stage == old(stage)[r := FREED]
      ensures !shutdown ==> W() == Told(old(W()).(receives := old(receives) - {r}), old(receives)[r])
    {
      hide Tracked, Linked, Count, Closes, Told;
      ghost var before := stage;
      if !shutdown { ReceiveGone(W(), r); }
      var p := receives[r];
      UnlinkReceive(r);
      PeerCall(p);
      ClosesThenFree(before, stage, r);
      Free(r);
    }

    /** send_del. */
    method SendDel(r: Id)
      requires Inv(NOBODY) && r in sends
      modifies this`countIn, this`countOut, this`countOutIn, this`sends, this`srs, this`refs, this`transports,
               this`stage
      ensures Inv(NOBODY) && sends == old(sends) - {r}
      ensures r < |old(stage)| && Closes(old(stage)[r := FREED], stage)
      ensures shutdown || old(sends)[r] == NOBODY ==>
                W() == old(W()).(sends := old(sends) - {r}) && stage == old(stage)[r := FREED]
      ensures !shutdown ==> W() == Told(old(W()).(sends := old(sends) - {r}), old(sends)[r])
    {
      hide Tracked, Linked, Count, Closes, Told;
      ghost var before := stage;
      if !shutdown { SendGone(W(), r); }
      var p := sends[r];
      UnlinkSend(r);
      PeerCall(p);
      ClosesThenFree(before, stage, r);
      Free(r);
    }

    // -------------------------------------------------------------- events

    /** flow_new: a connection that reports to `p`. */
    method FlowNew(flow: Flow, p: Parent)
      requires Inv(p) && NoneHeld(stage) && !shutdown && !p.SR?
      requires p.FILE? ==> p.file in transports && transports[p.file].flow == flow
      modifies this`countIn, this`countOut, this`countOutIn, this`receives, this`sends, this`srs, this`refs, this`stage
      ensures Inv(NOBODY) && NoneHeld(stage)
      ensures var n := |old(stage)|;
              match flow
              case RECEIVE => W() == old(W()).(receives := old(receives)[n := p]) && stage == old(stage) + [RECEIVER]
              case SEND => W() == old(W()).(sends := old(sends)[n := p]) && stage == old(stage) + [SENDER]
              case SEND_RECEIVE =>
                && W() == old(W()).(srs := old(srs)[n := p], refs := old(refs)[n := 2],
                                    sends := old(sends)[n + 1 := SR(n)], receives := old(receives)[n + 2 := SR(n)])
                && stage == old(stage) + [PAIR, SENDER, RECEIVER]
    {
      hide Tracked, Linked, Count, Books, Joined;
      ghost var w := W();
      match flow
      case RECEIVE =>
        var r := ReceiveNew(p);
        ReceiveJoins(w, r, p);
      case SEND =>
        var r := SendNew(p);
        SendJoins(w, r, p);
      case SEND_RECEIVE =>
        var s, a, b := SendReceiveNew(p);
        PairJoins(w, s, a, b, p);
    }

    /** A connection nobody waits for: one accepted, or a descriptor inherited. */
    method Accept(flow: Flow)
      requires Inv(NOBODY) && NoneHeld(stage) && !shutdown
      modifies this`countIn, this`countOut, this`countOutIn, this`receives, this`sends, this`srs, this`refs, this`stage
      ensures Inv(NOBODY) && NoneHeld(stage) && old(stage) < stage
      ensures W() == Joined(old(W()), flow, |old(stage)|, NOBODY)
    {
      hide Tracked, Linked, Count, Books, NoneHeld;
      FlowNew(flow, NOBODY);
    }

    /** The connection of a file that could be opened and greeted. */
    method FileConnect(f: Id)
      requires Inv(NOBODY) && NoneHeld(stage) && !shutdown
      requires f in transports && transports[f].File? && !transports[f].busy
      modifies this`countIn, this`countOut, this`countOutIn, this`receives, this`sends, this`srs, this`refs,
               this`transports, this`stage
      ensures Inv(NOBODY) && NoneHeld(stage) && old(stage) < stage
      ensures W() == Joined(Busy(old(W()), f), old(transports)[f].flow, |old(stage)|, FILE(f))
    {
      hide Tracked, Linked, Count, Books, NoneHeld;
      FileOwed(W(), f);
      SetTransport(f, transports[f].(busy := true));
      FlowNew(transports[f].flow, FILE(f));
    }

    /** file_open. */
    method FileOpen(f: Id, answer: Answer)
      requires Inv(NOBODY) && NoneHeld(stage) && !shutdown
      requires f in transports && transports[f].File? && !transports[f].busy
      modifies this`countIn, this`countOut, this`countOutIn, this`receives, this`sends, this`srs, this`refs,
               this`transports, this`stage
      ensures Inv(NOBODY) && NoneHeld(stage) && old(stage) <= stage
      ensures W() == Opening(old(W()), f, answer, |old(stage)|)
      ensures !answer.found ==> W() == old(W()) && stage == old(stage)
      ensures answer.found && !answer.greeted ==>
                W() == WithFile(old(W()), f, old(transports)[f].flow, answer.again, false) && stage == old(stage)
    {
      hide Tracked, Linked, Count, Books, Joined, NoneHeld;
      if !answer.found {
        FileStaysIdle(W(), f);
        FileRetry(f);
        return;
      }
      FileReady(W(), f, answer.again);
      SetTransport(f, transports[f].(retry := answer.again));
      if !answer.greeted {
        FileStaysIdle(W(), f);
        FileRetry(f);
        return;
      }
      ReadyBusy(old(W()), f, answer.again);
      FileConnect(f);
    }

    /** The part of file_new, incoming_new, outgoing_new and exec_new that takes the flow reference. */
    method TransportNew(t: Transport) returns (f: Id)
      requires Inv(NOBODY) && NoneHeld(stage) && !shutdown && (t.File? ==> !t.busy)
      modifies this`countIn, this`countOut, this`countOutIn, this`transports, this`stage
      ensures Inv(NOBODY) && NoneHeld(stage) && f == |old(stage)| && stage == old(stage) + [TRANSPORT]
      ensures f !in old(transports) && transports == old(transports)[f := t]
    {
      ghost var w := W();
      hide Linked, Count, Tracked;
      f := Malloc();
      TrackTransport(W(), stage, f, t);
      FlowRefInc(t.flow);
      CountAdd(transports, f, t, RECEIVE);
      CountAdd(transports, f, t, SEND);
      CountAdd(transports, f, t, SEND_RECEIVE);
      transports := transports[f := t];
      stage := stage[f := TRANSPORT];
      assert W() == w.(transports := w.transports[f := t]);
      TransportAdded(w, f, t);
    }

    /** file_new. */
    method FileNew(flow: Flow, answer: Answer)
      requires Inv(NOBODY) && NoneHeld(stage) && !shutdown
      modifies this`countIn, this`countOut, this`countOutIn, this`receives, this`sends, this`srs, this`refs,
               this`transports, this`stage
      ensures Inv(NOBODY) && NoneHeld(stage) && old(stage) <= stage
      ensures var f := |old(stage)|; W() == Opening(WithFile(old(W()), f, flow, false, false), f, answer, f + 1)
    {
      hide Tracked, Linked, Count;
      var f := TransportNew(File(flow, false, false));
      FileOpen(f, answer);
    }

    /** A wakeup fires: peer_call of file_open_wrapper. */
    method Wakeup(f: Id, answer: Answer)
      requires Inv(NOBODY) && NoneHeld(stage)
      requires f in transports && transports[f].File? && (!shutdown ==> !transports[f].busy)
      modifies this`countIn, this`countOut, this`countOutIn, this`receives, this`sends, this`srs, this`refs,
               this`transports, this`stage
      ensures Inv(NOBODY) && NoneHeld(stage) && old(stage) <= stage
      ensures if shutdown then W() == old(W()) && stage == old(stage)
              else W() == Opening(old(W()), f, answer, |old(stage)|)
    {
      if shutdown { return; }
      FileOpen(f, answer);
    }

    /** peer_loop leaves when nothing could come in any more, or nothing go out. */
    method PeerLoopDone() returns (done: bool)
      requires Inv(NOBODY)
      ensures done <==>
              (receives == map[] && Holders(transports, RECEIVE) == {} && Holders(transports, SEND_RECEIVE) == {}) ||
              (sends == map[] && Holders(transports, SEND) == {} && Holders(transports, SEND_RECEIVE) == {})
    {
      done := countIn + countOutIn == 0 || countOut + countOutIn == 0;
    }

    method Shutdown()
      requires Inv(NOBODY)
      modifies this`shutdown
      ensures Inv(NOBODY) && shutdown
    {
      shutdown := true;
    }

    // -------------------------------------------------------------- cleanup

    /** receive_cleanup. */
    method ReceiveCleanup()
      requires Inv(NOBODY) && NoneHeld(stage) && shutdown
      modifies this`countIn, this`countOut, this`countOutIn, this`receives, this`srs, this`refs, this`transports,
               this`stage
      ensures Inv(NOBODY) && NoneHeld(stage) && |stage| == |old(stage)| && W() == old(W()).(receives := map[])
    {
      hide Tracked, Linked, Count, Closes, Books;
      while receives != map[]
        invariant Inv(NOBODY) && NoneHeld(stage) && |stage| == |old(stage)|
        invariant W() == old(W()).(receives := receives)
        decreases |receives|
      {
        var i :| i in receives;
        SizeAfterRemove(receives, i);
        ReceiveDel(i);
      }
    }

    /** send_cleanup. */
    method SendCleanup()
      requires Inv(NOBODY) && NoneHeld(stage) && shutdown
      modifies this`countIn, this`countOut, this`countOutIn, this`sends, this`srs, this`refs, this`transports,
               this`stage
      ensures Inv(NOBODY) && NoneHeld(stage) && |stage| == |old(stage)| && W() == old(W()).(sends := map[])
    {
      hide Tracked, Linked, Count, Closes;
      while sends != map[]
        invariant Inv(NOBODY) && NoneHeld(stage) && |stage| == |old(stage)|
        invariant W() == old(W()).(sends := sends)
        decreases |sends|
      {
        var i :| i in sends;
        SizeAfterRemove(sends, i);
        SendDel(i);
      }
    }

    /** send_receive_cleanup. */
    method SendReceiveCleanup()
      requires Inv(NOBODY) && NoneHeld(stage) && shutdown
      modifies this`countIn, this`countOut, this`countOutIn, this`srs, this`refs, this`transports, this`stage
      ensures Inv(NOBODY) && NoneHeld(stage) && |stage| == |old(stage)| && W() == old(W()).(srs := map[], refs := map[])
    {
      hide Tracked, Linked, Count, Closes;
      while srs != map[]
        invariant Inv(NOBODY) && NoneHeld(stage) && |stage| == |old(stage)|
        invariant W() == old(W()).(srs := srs, refs := refs)
        decreases |srs|
      {
        var i :| i in srs;
        SizeAfterRemove(srs, i);
        SendReceiveDel(i);
      }
    }

    /** incoming_cleanup, outgoing_cleanup, exec_cleanup and file_cleanup. */
    method TransportCleanup()
      requires Inv(NOBODY) && NoneHeld(stage) && shutdown
      modifies this`countIn, this`countOut, this`countOutIn, this`transports, this`stage
      ensures Inv(NOBODY) && NoneHeld(stage) && |stage| == |old(stage)| && W() == old(W()).(transports := map[])
    {
      hide Tracked, Linked, Count, Closes;
      while transports != map[]
        invariant Inv(NOBODY) && NoneHeld(stage) && |stage| == |old(stage)|
        invariant W() == old(W()).(transports := transports)
        decreases |transports|
      {
        var i :| i in transports;
        SizeAfterRemove(transports, i);
        FileDel(i);
      }
    }

    /** The cleanup sequence of main, after the loop: receivers, senders, two-way connections, transports. */
    method Cleanup()
      requires Inv(NOBODY) && NoneHeld(stage) && shutdown
      modifies this
      ensures countIn == 0 && countOut == 0 && countOutIn == 0
      ensures W() == World(map[], map[], map[], map[], map[])
      ensures |stage| == |old(stage)| && forall i :: 0 <= i < |stage| ==> stage[i] == FREED
    {
      hide Tracked, Linked, Count;
      ReceiveCleanup();
      SendCleanup();
      SendReceiveCleanup();
      TransportCleanup();
      AllFreed(W(), stage);
      NoHolders();
    }
  }

  lemma NoHolders()
    ensures forall f :: Count(map[], f) == 0
  {}

  lemma AllFreed(w: World, stage: seq<Stage>)
    requires Tracked(w, stage) && NoneHeld(stage)
    requires w.receives == map[] && w.sends == map[] && w.srs == map[] && w.transports == map[]
    ensures forall i :: 0 <= i < |stage| ==> stage[i] == FREED
  {}

  // ---------------------------------------------------------------- whole runs

  /** What a file is left as by the close of its connection: waiting to be opened again if the descriptor was worth it,
      and gone otherwise, as a regular file is. */
  function Left(w: World, f: Id, again: bool): World
    requires f in w.transports && w.transports[f].File?
  {
    if again then WithFile(w, f, w.transports[f].flow, true, false) else w.(transports := w.transports - {f})
  }

  lemma FileTold(w: World, f: Id, flow: Flow, again: bool)
    requires f in w.transports && w.transports[f].File? && w.transports[f].flow == flow
    ensures Told(WithFile(w, f, flow, again, true), FILE(f)) == Left(w, f, again)
  {
    var up := WithFile(w, f, flow, again, true);
    assert up.transports - {f} == w.transports - {f};
    assert up.transports[f := File(flow, true, false)] == w.transports[f := File(flow, true, false)];
  }

  /** The close of the connection of a file that takes or brings packets. */
  lemma OneWayFileCloses(w: World, f: Id, answer: Answer, i: Id)
    requires f in w.transports && w.transports[f].File? && w.transports[f].flow != SEND_RECEIVE
    requires i !in w.receives && i !in w.sends && answer.found && answer.greeted
    ensures var up, flow := Opening(w, f, answer, i), w.transports[f].flow;
            && up.transports == w.transports[f := File(flow, answer.again, true)]
            && (flow == RECEIVE ==>
                  i in up.receives &&
                  Told(up.(receives := up.receives - {i}), up.receives[i]) == Left(w, f, answer.again))
            && (flow == SEND ==>
                  i in up.sends && Told(up.(sends := up.sends - {i}), up.sends[i]) == Left(w, f, answer.again))
  {
    hide Told, Left;
    FileTold(w, f, w.transports[f].flow, answer.again);
    assert w.receives[i := FILE(f)] - {i} == w.receives && w.sends[i := FILE(f)] - {i} == w.sends;
  }

  /** A file that does both is left so by the close of the second half, whichever that is. */
  lemma TwoWayFileCloses(w: World, f: Id, answer: Answer, i: Id)
    requires f in w.transports && w.transports[f].File? && w.transports[f].flow == SEND_RECEIVE
    requires i !in w.srs && i !in w.refs && i + 1 !in w.sends && i + 2 !in w.receives && answer.found && answer.greeted
    ensures var up := Opening(w, f, answer, i);
            && up.transports == w.transports[f := File(SEND_RECEIVE, answer.again, true)]
            && i + 1 in up.sends && up.sends[i + 1] == SR(i) && i + 2 in up.receives && up.receives[i + 2] == SR(i)
            && var none := up.(sends := w.sends, receives := w.receives);
               Told(Told(none, SR(i)), SR(i)) == Left(w, f, answer.again)
  {
    hide Left;
    var up := Opening(w, f, answer, i);
    var none := up.(sends := w.sends, receives := w.receives);
    var half := none.(refs := none.refs[i := 1]);
    assert Told(none, SR(i)) == half;
    assert half.srs - {i} == w.srs && half.refs - {i} == w.refs;
    FileTold(w, f, SEND_RECEIVE, answer.again);
    assert half.(srs := w.srs, refs := w.refs) == WithFile(w, f, SEND_RECEIVE, answer.again, true);
  }

  datatype Event =
    | Accepted(flow: Flow)
    | OtherTransport(flow: Flow)
    | NewFile(flow: Flow, answer: Answer)
    | ReceiveCloses(i: Id)
    | SendCloses(i: Id)
    | WakeupFires(i: Id, answer: Answer)
    | Signal

  /** Any sequence of events, then shutdown and cleanup: every counter ends at zero, nothing stays linked,
      and every allocation has been freed, each exactly once (Free takes only what is not freed yet). Events
      that do not apply, or come after the shutdown, do nothing. */
  method Lifetime(events: seq<Event>) returns (bus: Bus)
    ensures fresh(bus)
    ensures bus.countIn == 0 && bus.countOut == 0 && bus.countOutIn == 0
    ensures bus.W() == World(map[], map[], map[], map[], map[])
    ensures forall i :: 0 <= i < |bus.stage| ==> bus.stage[i] == FREED
  {
    hide Tracked, Linked, Count, Closes;
    bus := new Bus();
    for n := 0 to |events|
      invariant fresh(bus) && bus.Inv(NOBODY) && NoneHeld(bus.stage)
    {
      Handle(bus, events[n]);
    }
    bus.Shutdown();
    bus.Cleanup();
  }

  method Handle(bus: Bus, event: Event)
    requires bus.Inv(NOBODY) && NoneHeld(bus.stage)
    modifies bus
    ensures bus.Inv(NOBODY) && NoneHeld(bus.stage)
    ensures old(bus.shutdown) ==> bus.W() == old(bus.W()) && bus.shutdown
    ensures !old(bus.shutdown) ==>
              match event
              case Accepted(flow) => bus.W() == Joined(old(bus.W()), flow, |old(bus.stage)|, NOBODY)
              case OtherTransport(flow) =>
                bus.W() == old(bus.W()).(transports := old(bus.transports)[|old(bus.stage)| := Other(flow)])
              case NewFile(flow, answer) =>
                var f := |old(bus.stage)|;
                bus.W() == Opening(WithFile(old(bus.W()), f, flow, false, false), f, answer, f + 1)
              case ReceiveCloses(i) =>
                var w := old(bus.W());
                bus.W() == if i in w.receives then Told(w.(receives := w.receives - {i}), w.receives[i]) else w
              case SendCloses(i) =>
                var w := old(bus.W());
                bus.W() == if i in w.sends then Told(w.(sends := w.sends - {i}), w.sends[i]) else w
              case WakeupFires(i, answer) =>
                var w, ts := old(bus.W()), old(bus.transports);
                bus.W() == if i in ts && ts[i].File? && !ts[i].busy then Opening(w, i, answer, |old(bus.stage)|) else w
              case Signal => bus.shutdown && bus.W() == old(bus.W())
  {
    hide Tracked, Linked, Count, Told, Joined, Opening;
    if bus.shutdown { return; }
    match event
    case Accepted(flow) => bus.Accept(flow);
    case OtherTransport(flow) => var f := bus.TransportNew(Other(flow));
    case NewFile(flow, answer) => bus.FileNew(flow, answer);
    case ReceiveCloses(i) =>
      if i in bus.receives { bus.ReceiveDel(i); }
    case SendCloses(i) =>
      if i in bus.sends { bus.SendDel(i); }
    case WakeupFires(i, answer) =>
      if i in bus.transports && bus.transports[i].File? && !bus.transports[i].busy { bus.Wakeup(i, answer); }
    case Signal => bus.Shutdown();
  }
}
