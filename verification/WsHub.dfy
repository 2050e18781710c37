/** sinks/adsb-ws: the hub goroutine, one goroutine per client, and the channels between them, as a state
    machine whose steps are the single channel operations. */
module WsHub {
  import opened Bytes

  type Line = seq<byte>
  type Id = nat

  const CAPACITY := 256

  /** Where a client's goroutine is: sending on register, in writePump, sending on unregister, finished. */
  datatype Phase = CONNECTING | PUMPING | LEAVING | DONE

  /** A connection: its channel (buffered lines, closed or not, and how often close was called on it), what
      its pump took and what it wrote, and, once greeted, with what and after how many broadcasts. */
  datatype Client = Client(phase: Phase, buffer: seq<Line>, closed: bool, closes: nat, taken: seq<Line>,
                           written: seq<Line>, greeted: bool, greet: Line, from: nat)

  const NEWCOMER := Client(CONNECTING, [], false, 0, [], [], false, [], 0)

  /** Where the hub's goroutine is: in select, about to greet a client, or inside the broadcast loop with
      some clients still to visit. */
  datatype Pc = SELECT | GREET(c: Id) | FAN(m: Line, todo: set<Id>)

  /** `log` records all broadcasts; `panicked` is a send on a closed channel or a second close. */
  datatype State = State(pc: Pc, connections: set<Id>, greeting: Line, clients: map<Id, Client>, log: seq<Line>,
                         panicked: bool)

  const START := State(SELECT, {}, [], map[], [], false)

  datatype Action =
    | Connect(c: Id) | Register(c: Id) | SendGreeting
    | Take(c: Id, ok: bool) | SeeClosed(c: Id) | Unregister(c: Id)
    | Broadcast(m: Line) | Offer(c: Id) | EndFan

  /** Append to a channel that has room. */
  function Push(s: State, c: Id, m: Line): State
    requires c in s.clients
  {
    var cl := s.clients[c];
    if cl.closed then s.(panicked := true) else s.(clients := s.clients[c := cl.(buffer := cl.buffer + [m])])
  }

  function Close(s: State, c: Id): State
    requires c in s.clients
  {
    var cl := s.clients[c];
    if cl.closed then s.(panicked := true)
    else s.(clients := s.clients[c := cl.(closed := true, closes := cl.closes + 1)], connections := s.connections - {c})
  }

  function SetClient(s: State, c: Id, cl: Client): State { s.(clients := s.clients[c := cl]) }

  /** The state after an action, or None where the goroutine that would do it is blocked or elsewhere. */
  function Apply(s: State, a: Action): Option<State> {
    match a
    case Connect(c) =>
      if c in s.clients then None else Some(SetClient(s, c, NEWCOMER))
    case Register(c) =>
      if s.pc != SELECT || c !in s.clients || s.clients[c].phase != CONNECTING then None
      else Some(SetClient(s, c, s.clients[c].(phase := PUMPING)).(connections := s.connections + {c}, pc := GREET(c)))
    case SendGreeting =>
      if !s.pc.GREET? || s.pc.c !in s.clients || |s.clients[s.pc.c].buffer| >= CAPACITY then None
      else
        var cl := s.clients[s.pc.c];
        var s' := Push(s, s.pc.c, s.greeting).(pc := SELECT);
        Some(if s'.panicked then s'
             else SetClient(s', s.pc.c, s'.clients[s.pc.c].(greeted := true, greet := s.greeting, from := |s.log|)))
    case Take(c, ok) =>
      if c !in s.clients || s.clients[c].phase != PUMPING || s.clients[c].buffer == [] then None
      else
        var cl := s.clients[c];
        Some(SetClient(s, c, cl.(buffer := cl.buffer[1..], taken := cl.taken + [cl.buffer[0]],
                                 written := if ok then cl.written + [cl.buffer[0]] else cl.written,
                                 phase := if ok then PUMPING else LEAVING)))
    case SeeClosed(c) =>
      if c !in s.clients || s.clients[c].phase != PUMPING || s.clients[c].buffer != [] || !s.clients[c].closed then None
      else Some(SetClient(s, c, s.clients[c].(phase := LEAVING)))
    case Unregister(c) =>
      if s.pc != SELECT || c !in s.clients || s.clients[c].phase != LEAVING then None
      else
        var s' := SetClient(s, c, s.clients[c].(phase := DONE));
        Some(if c in s.connections then Close(s', c) else s')
    case Broadcast(m) =>
      if s.pc != SELECT then None
      else
        var greeting := if s.greeting == [] then m else s.greeting;
        Some(s.(greeting := greeting, log := s.log + [m], pc := FAN(m, s.connections)))
    case Offer(c) =>
      if !s.pc.FAN? || c !in s.pc.todo || c !in s.clients then None
      else
        var s' := s.(pc := FAN(s.pc.m, s.pc.todo - {c}));
        Some(if |s.clients[c].buffer| < CAPACITY then Push(s', c, s.pc.m) else Close(s', c))
    case EndFan =>
      if !s.pc.FAN? || s.pc.todo != {} then None else Some(s.(pc := SELECT))
  }

  // ---------------------------------------------------------------- the invariant

  /** The line every later client is greeted with: the first broadcast that is not empty. */
  function FirstLine(log: seq<Line>): Line
    decreases |log|
  {
    if log == [] then [] else if FirstLine(log[..|log| - 1]) != [] then FirstLine(log[..|log| - 1]) else log[|log| - 1]
  }

  /** All that ever went into a client's channel. */
  function Received(cl: Client): seq<Line> { cl.taken + cl.buffer }

  /** The greeting at registration and then consecutive broadcasts, `n` of them. */
  ghost predicate Feed(cl: Client, log: seq<Line>, n: nat) {
    cl.from + n <= |log| && Received(cl) == [cl.greet] + log[cl.from..cl.from + n]
  }

  /** A client, seen with whether the hub lists it and whether the running broadcast still owes it a line. */
  ghost predicate ClientOk(cl: Client, listed: bool, owed: bool, greeting: bool, log: seq<Line>) {
    && |cl.buffer| <= CAPACITY
    && cl.closes == (if cl.closed then 1 else 0)
    && (cl.phase == CONNECTING <==> !listed && !cl.closed)
    && (listed ==> !cl.closed && (cl.phase == PUMPING || cl.phase == LEAVING))
    && (cl.phase == DONE ==> cl.closed)
    && cl.written <= cl.taken && (cl.phase == PUMPING ==> cl.written == cl.taken)
    && (!cl.greeted <==> cl.phase == CONNECTING || greeting)
    && (greeting ==> listed)
    && (!cl.greeted ==> Received(cl) == [])
    && (cl.greeted ==>
          && |Received(cl)| >= 1
          && Feed(cl, log, |Received(cl)| - 1)
          && cl.greet == FirstLine(log[..cl.from])
          && (listed ==> cl.from + |Received(cl)| - 1 == |log| - if owed then 1 else 0))
  }

  ghost predicate Owed(s: State, c: Id) { s.pc.FAN? && c in s.pc.todo }
  ghost predicate Greeting(s: State, c: Id) { s.pc == GREET(c) }

  ghost predicate Inv(s: State) {
    && !s.panicked
    && s.greeting == FirstLine(s.log)
    && s.connections <= s.clients.Keys
    && (s.pc.GREET? ==> s.pc.c in s.connections)
    && (s.pc.FAN? ==> s.pc.todo <= s.connections && |s.log| > 0 && s.log[|s.log| - 1] == s.pc.m)
    && forall c :: c in s.clients ==> ClientOk(s.clients[c], c in s.connections, Owed(s, c), Greeting(s, c), s.log)
  }

  lemma FirstLineGrows(log: seq<Line>, m: Line, k: nat)
    requires k <= |log|
    ensures FirstLine(log + [m]) == if FirstLine(log) != [] then FirstLine(log) else m
    ensures (log + [m])[..k] == log[..k]
  {}

  lemma PushKeeps(cl: Client, m: Line, listed: bool, log: seq<Line>)
    requires ClientOk(cl, listed, true, false, log) && listed && |cl.buffer| < CAPACITY
    requires |log| > 0 && log[|log| - 1] == m
    ensures ClientOk(cl.(buffer := cl.buffer + [m]), listed, false, false, log)
  {
    var cl' := cl.(buffer := cl.buffer + [m]);
    assert Received(cl') == Received(cl) + [m];
    assert log[cl.from..|log|] == log[cl.from..|log| - 1] + [m];
  }

  lemma TakeKeeps(cl: Client, ok: bool, listed: bool, owed: bool, greeting: bool, log: seq<Line>)
    requires ClientOk(cl, listed, owed, greeting, log) && cl.phase == PUMPING && cl.buffer != []
    ensures ClientOk(cl.(buffer := cl.buffer[1..], taken := cl.taken + [cl.buffer[0]],
                         written := if ok then cl.written + [cl.buffer[0]] else cl.written,
                         phase := if ok then PUMPING else LEAVING), listed, owed, greeting, log)
  {
    assert (cl.taken + [cl.buffer[0]]) + cl.buffer[1..] == cl.taken + cl.buffer;
    assert cl.written <= cl.taken + [cl.buffer[0]];
  }

  lemma BroadcastKeeps(cl: Client, listed: bool, log: seq<Line>, m: Line)
    requires ClientOk(cl, listed, false, false, log)
    ensures ClientOk(cl, listed, listed, false, log + [m])
  {
    if cl.greeted {
      var n := |Received(cl)| - 1;
      assert (log + [m])[cl.from..cl.from + n] == log[cl.from..cl.from + n];
      FirstLineGrows(log, m, cl.from);
    }
  }

  lemma GreetingKeeps(cl: Client, log: seq<Line>, line: Line)
    requires ClientOk(cl, true, false, true, log) && line == FirstLine(log)
    ensures ClientOk(cl.(buffer := cl.buffer + [line], greeted := true, greet := line, from := |log|),
                     true, false, false, log)
  {
    assert cl.taken == [] && cl.buffer == [];
    assert log[..|log|] == log;
    assert [line] + log[|log|..|log|] == [line];
  }

  lemma NewcomerOk(log: seq<Line>)
    ensures ClientOk(NEWCOMER, false, false, false, log)
  {}

  lemma RegisterOk(cl: Client, log: seq<Line>)
    requires ClientOk(cl, false, false, false, log) && cl.phase == CONNECTING
    ensures ClientOk(cl.(phase := PUMPING), true, false, true, log)
  {
    hide FirstLine, Feed;
  }

  lemma LeaveOk(cl: Client, listed: bool, owed: bool, greeting: bool, log: seq<Line>)
    requires ClientOk(cl, listed, owed, greeting, log) && cl.phase == PUMPING
    ensures ClientOk(cl.(phase := LEAVING), listed, owed, greeting, log)
  {
    hide FirstLine;
  }

  function Closed(cl: Client): Client { cl.(closed := true, closes := cl.closes + 1) }

  /** Whoever is listed can be closed, and is then listed no more. */
  lemma CloseOk(cl: Client, owed: bool, log: seq<Line>)
    requires ClientOk(cl, true, owed, false, log)
    ensures !cl.closed && ClientOk(Closed(cl), false, false, false, log)
  {
    hide FirstLine;
  }

  lemma DoneOk(cl: Client, listed: bool, log: seq<Line>)
    requires ClientOk(cl, listed, false, false, log) && cl.phase == LEAVING
    ensures if listed then !cl.closed && ClientOk(Closed(cl).(phase := DONE), false, false, false, log)
            else ClientOk(cl.(phase := DONE), false, false, false, log)
  {
    hide FirstLine;
  }

  ghost predicate Ok(s: State, c: Id)
    requires c in s.clients
  {
    ClientOk(s.clients[c], c in s.connections, Owed(s, c), Greeting(s, c), s.log)
  }

  /** A step that touches one client only, and leaves the log alone. */
  lemma OthersKept(s: State, s': State, c: Id)
    requires Inv(s) && s'.log == s.log && s'.greeting == s.greeting && !s'.panicked
    requires s'.clients.Keys == s.clients.Keys + {c}
    requires forall d :: d in s.clients && d != c ==> s'.clients[d] == s.clients[d]
    requires s'.connections <= s'.clients.Keys
    requires s'.pc.GREET? ==> s'.pc.c in s'.connections
    requires s'.pc.FAN? ==> s.pc.FAN? && s'.pc.m == s.pc.m && s'.pc.todo <= s'.connections
    requires forall d :: d != c ==>
               (d in s.connections <==> d in s'.connections) &&
               Owed(s, d) == Owed(s', d) && Greeting(s, d) == Greeting(s', d)
    requires Ok(s', c)
    ensures Inv(s')
  {
    hide ClientOk, Owed, Greeting, FirstLine;
    forall d | d in s'.clients ensures Ok(s', d) {
      if d != c { assert Ok(s, d); }
    }
  }

  lemma ConnectKeeps(s: State, c: Id)
    requires Inv(s) && Apply(s, Connect(c)).Some?
    ensures Inv(Apply(s, Connect(c)).value)
  {
    hide ClientOk, FirstLine;
    NewcomerOk(s.log);
    OthersKept(s, Apply(s, Connect(c)).value, c);
  }

  lemma RegisterKeeps(s: State, c: Id)
    requires Inv(s) && Apply(s, Register(c)).Some?
    ensures Inv(Apply(s, Register(c)).value)
  {
    assert Ok(s, c) && c !in s.connections;
    hide ClientOk, FirstLine;
    RegisterOk(s.clients[c], s.log);
    OthersKept(s, Apply(s, Register(c)).value, c);
  }

  lemma SendGreetingKeeps(s: State)
    requires Inv(s) && Apply(s, SendGreeting).Some?
    ensures Inv(Apply(s, SendGreeting).value)
  {
    hide FirstLine;
    var c, s' := s.pc.c, Apply(s, SendGreeting).value;
    assert Ok(s, c);
    GreetingKeeps(s.clients[c], s.log, s.greeting);
    var cl := s.clients[c];
    assert s'.clients[c] ==
           cl.(buffer := cl.buffer + [s.greeting], greeted := true, greet := s.greeting, from := |s.log|);
    hide ClientOk;
    OthersKept(s, s', c);
  }

  lemma TakeStepKeeps(s: State, c: Id, ok: bool)
    requires Inv(s) && Apply(s, Take(c, ok)).Some?
    ensures Inv(Apply(s, Take(c, ok)).value)
  {
    hide ClientOk, FirstLine;
    assert Ok(s, c);
    TakeKeeps(s.clients[c], ok, c in s.connections, Owed(s, c), Greeting(s, c), s.log);
    OthersKept(s, Apply(s, Take(c, ok)).value, c);
  }

  lemma SeeClosedKeeps(s: State, c: Id)
    requires Inv(s) && Apply(s, SeeClosed(c)).Some?
    ensures Inv(Apply(s, SeeClosed(c)).value)
  {
    hide ClientOk, FirstLine;
    assert Ok(s, c);
    LeaveOk(s.clients[c], c in s.connections, Owed(s, c), Greeting(s, c), s.log);
    OthersKept(s, Apply(s, SeeClosed(c)).value, c);
  }

  lemma UnregisterKeeps(s: State, c: Id)
    requires Inv(s) && Apply(s, Unregister(c)).Some?
    ensures Inv(Apply(s, Unregister(c)).value)
  {
    hide ClientOk, FirstLine;
    assert Ok(s, c);
    DoneOk(s.clients[c], c in s.connections, s.log);
    OthersKept(s, Apply(s, Unregister(c)).value, c);
  }

  lemma BroadcastStepKeeps(s: State, m: Line)
    requires Inv(s) && Apply(s, Broadcast(m)).Some?
    ensures Inv(Apply(s, Broadcast(m)).value)
  {
    hide ClientOk, FirstLine;
    var s' := Apply(s, Broadcast(m)).value;
    FirstLineGrows(s.log, m, |s.log|);
    forall c | c in s'.clients ensures Ok(s', c) {
      assert Ok(s, c);
      BroadcastKeeps(s.clients[c], c in s.connections, s.log, m);
    }
  }

  lemma OfferKeeps(s: State, c: Id)
    requires Inv(s) && Apply(s, Offer(c)).Some?
    ensures Inv(Apply(s, Offer(c)).value)
  {
    hide ClientOk, FirstLine;
    assert Ok(s, c);
    CloseOk(s.clients[c], true, s.log);
    if |s.clients[c].buffer| < CAPACITY { PushKeeps(s.clients[c], s.pc.m, true, s.log); }
    OthersKept(s, Apply(s, Offer(c)).value, c);
  }

  lemma EndFanKeeps(s: State)
    requires Inv(s) && Apply(s, EndFan).Some?
    ensures Inv(Apply(s, EndFan).value)
  {
    hide ClientOk, FirstLine;
    var s' := Apply(s, EndFan).value;
    forall c | c in s'.clients ensures Ok(s', c) { assert Ok(s, c); }
  }

  /** Every step of every goroutine keeps the invariant. */
  lemma StepKeeps(s: State, a: Action)
    requires Inv(s) && Apply(s, a).Some?
    ensures Inv(Apply(s, a).value)
  {
    hide Inv, Apply;
    match a
    case Connect(c) => ConnectKeeps(s, c);
    case Register(c) => RegisterKeeps(s, c);
    case SendGreeting => SendGreetingKeeps(s);
    case Take(c, ok) => TakeStepKeeps(s, c, ok);
    case SeeClosed(c) => SeeClosedKeeps(s, c);
    case Unregister(c) => UnregisterKeeps(s, c);
    case Broadcast(m) => BroadcastStepKeeps(s, m);
    case Offer(c) => OfferKeeps(s, c);
    case EndFan => EndFanKeeps(s);
  }

  // ---------------------------------------------------------------- all interleavings

  function Play(s: State, actions: seq<Action>): Option<State>
    decreases |actions|
  {
    if actions == [] then Some(s)
    else match Apply(s, actions[0])
         case None => None
         case Some(s') => Play(s', actions[1..])
  }

  lemma {:induction false} PlayKeeps(s: State, actions: seq<Action>)
    requires Inv(s) && Play(s, actions).Some?
    ensures Inv(Play(s, actions).value)
    decreases |actions|
  {
    if actions != [] {
      StepKeeps(s, actions[0]);
      PlayKeeps(Apply(s, actions[0]).value, actions[1..]);
    }
  }

  /** In every interleaving: no send on a closed channel and no second close, each channel closed at most
      once and exactly once when its client is done; and what a client was sent is the greeting in force at
      its registration followed by consecutive broadcasts, of which its pump wrote a prefix. */
  lemma HubIsSafe(actions: seq<Action>)
    requires Play(START, actions).Some?
    ensures var s := Play(START, actions).value;
            !s.panicked &&
            forall c :: c in s.clients ==>
              var cl := s.clients[c];
              cl.closes <= 1 && (cl.phase == DONE ==> cl.closes == 1) &&
              (cl.greeted ==>
                 cl.from <= |s.log| && cl.greet == FirstLine(s.log[..cl.from]) &&
                 Received(cl) <= [cl.greet] + s.log[cl.from..] && cl.written <= Received(cl))
  {
    PlayKeeps(START, actions);
    var s := Play(START, actions).value;
    forall c | c in s.clients && s.clients[c].greeted
      ensures var cl := s.clients[c]; Received(cl) <= [cl.greet] + s.log[cl.from..] && cl.written <= Received(cl)
    {
      var cl := s.clients[c];
      assert ClientOk(cl, c in s.connections, Owed(s, c), Greeting(s, c), s.log);
      assert cl.taken <= Received(cl);
    }
  }

  /** The channel of a client just registered is empty, so its greeting fits. */
  lemma GreetingFits(s: State)
    requires Inv(s) && s.pc.GREET?
    ensures Apply(s, SendGreeting).Some?
  {
    hide FirstLine;
    assert Ok(s, s.pc.c);
  }

  /** In the broadcast loop there is a client to offer the line to, or the loop is over. */
  lemma FanGoesOn(s: State)
    requires Inv(s) && s.pc.FAN?
    ensures s.pc.todo == {} ==> Apply(s, EndFan).Some?
    ensures forall c :: c in s.pc.todo ==> Apply(s, Offer(c)).Some?
  {
    hide ClientOk, FirstLine;
  }

  /** The hub never waits for a client: outside select it always has an action of its own to take, and in select it
      takes any broadcast, registration or unregistration. A pump waits for nobody once a line is queued for it or its
      channel is closed. */
  lemma HubNeverBlocks(actions: seq<Action>)
    requires Play(START, actions).Some?
    ensures var s := Play(START, actions).value;
            && (s.pc != SELECT ==> exists a :: IsOwn(a) && Apply(s, a).Some?)
            && (s.pc == SELECT ==> forall m :: Apply(s, Broadcast(m)).Some?)
            && forall c :: c in s.clients ==>
                 var cl := s.clients[c];
                 && (s.pc == SELECT && cl.phase == CONNECTING ==> Apply(s, Register(c)).Some?)
                 && (s.pc == SELECT && cl.phase == LEAVING ==> Apply(s, Unregister(c)).Some?)
                 && (cl.phase == PUMPING && cl.buffer != [] ==> forall ok :: Apply(s, Take(c, ok)).Some?)
                 && (cl.phase == PUMPING && cl.buffer == [] && cl.closed ==> Apply(s, SeeClosed(c)).Some?)
  {
    PlayKeeps(START, actions);
    hide Inv, Play;
    var s := Play(START, actions).value;
    if s.pc != SELECT { OwnStep(s); }
  }

  lemma OwnStep(s: State)
    requires Inv(s) && s.pc != SELECT
    ensures exists a :: IsOwn(a) && Apply(s, a).Some?
  {
    var a := NextOwn(s);
  }

  /** The hub's own actions. */
  predicate IsOwn(a: Action) { a == SendGreeting || a == EndFan || a.Offer? }

  /** One of them brings the hub nearer to select. */
  lemma NextOwn(s: State) returns (a: Action)
    requires Inv(s) && s.pc != SELECT
    ensures IsOwn(a) && Apply(s, a).Some?
    ensures var s' := Apply(s, a).value; s'.pc == SELECT || (s.pc.FAN? && s'.pc.FAN? && |s'.pc.todo| < |s.pc.todo|)
  {
    hide Inv, ClientOk;
    if s.pc.GREET? {
      GreetingFits(s);
      return SendGreeting;
    }
    FanGoesOn(s);
    if s.pc.todo == {} { return EndFan; }
    var c :| c in s.pc.todo;
    assert s.pc.todo == s.pc.todo - {c} + {c};
    return Offer(c);
  }

  /** With no more own actions than it lists clients, and one, the hub is back in select. */
  lemma {:induction false} BackInSelect(s: State) returns (own: seq<Action>)
    requires Inv(s)
    ensures (forall a :: a in own ==> IsOwn(a)) && Play(s, own).Some? && Play(s, own).value.pc == SELECT
    ensures |own| <= if s.pc.FAN? then |s.pc.todo| + 1 else 1
    decreases if s.pc.FAN? then |s.pc.todo| + 1 else 0
  {
    hide Inv, Apply;
    if s.pc == SELECT { return []; }
    var a := NextOwn(s);
    var s' := Apply(s, a).value;
    StepKeeps(s, a);
    if s'.pc == SELECT {
      own := [a];
      assert Play(s', []) == Some(s');
    } else {
      var rest := BackInSelect(s');
      own := [a] + rest;
      assert own[1..] == rest;
    }
  }

  /** A listed client that the running broadcast has served is up to date: nothing was skipped. */
  lemma ListedIsUpToDate(actions: seq<Action>, c: Id)
    requires Play(START, actions).Some?
    requires var s := Play(START, actions).value; s.pc == SELECT && c in s.connections
    ensures var s := Play(START, actions).value;
            c in s.clients && s.clients[c].from <= |s.log| &&
            Received(s.clients[c]) == [s.clients[c].greet] + s.log[s.clients[c].from..]
  {
    PlayKeeps(START, actions);
    var s := Play(START, actions).value;
    var cl := s.clients[c];
    assert ClientOk(cl, true, false, false, s.log);
    assert s.log[cl.from..|s.log|] == s.log[cl.from..];
  }

  // ---------------------------------------------------------------- who is served, and who is dropped

  /** An offered client that has fewer than 256 lines queued gets the line behind them and stays listed; one with 256 is
      closed and listed no more, and what is queued for it stays. Nobody else notices. */
  lemma OfferServes(s: State, c: Id)
    requires Inv(s) && Apply(s, Offer(c)).Some?
    ensures c in s.clients && c in s.connections
    ensures var s', cl := Apply(s, Offer(c)).value, s.clients[c];
            && c in s'.clients && s'.clients[c].closed == (|cl.buffer| == 256) == (c !in s'.connections)
            && s'.clients[c].buffer == (if |cl.buffer| < 256 then cl.buffer + [s.pc.m] else cl.buffer)
            && s'.log == s.log
            && forall d :: d in s.clients && d != c ==>
                 d in s'.clients && s'.clients[d] == s.clients[d] && (d in s'.connections <==> d in s.connections)
  {
    hide FirstLine;
    assert Ok(s, c);
  }

  /** A registered client first gets the greeting line, with no broadcast before or behind it. */
  lemma GreetingServes(s: State)
    requires Inv(s) && Apply(s, SendGreeting).Some?
    ensures var s', c := Apply(s, SendGreeting).value, s.pc.c;
            && c in s'.clients && c in s'.connections && s'.pc == SELECT && s'.log == s.log
            && Received(s'.clients[c]) == [FirstLine(s.log)] && s'.clients[c].from == |s.log|
  {
    assert Ok(s, s.pc.c);
    hide FirstLine;
  }

  /** Whenever the run offers `c` a line, `c` has fewer than 256 queued. */
  predicate KeepsUp(s: State, actions: seq<Action>, c: Id)
    decreases |actions|
  {
    actions != [] && Apply(s, actions[0]).Some? ==>
      && (actions[0] == Offer(c) && c in s.clients ==> |s.clients[c].buffer| < 256)
      && KeepsUp(Apply(s, actions[0]).value, actions[1..], c)
  }

  /** Registered and not yet unregistered. */
  predicate Registered(s: State, c: Id) {
    c in s.clients && (s.clients[c].phase == PUMPING || s.clients[c].phase == LEAVING)
  }

  lemma StaysListedStep(s: State, a: Action, c: Id)
    requires Inv(s) && Apply(s, a).Some? && (Registered(s, c) ==> c in s.connections)
    requires a == Offer(c) && c in s.clients ==> |s.clients[c].buffer| < 256
    ensures var s' := Apply(s, a).value; Registered(s', c) ==> c in s'.connections
  {
    hide FirstLine, Inv;
    match a
    case Offer(d) => OfferServes(s, d);
    case _ =>
  }

  lemma {:induction false} StaysListed(s: State, actions: seq<Action>, c: Id)
    requires Inv(s) && Play(s, actions).Some? && KeepsUp(s, actions, c) && (Registered(s, c) ==> c in s.connections)
    ensures var s' := Play(s, actions).value; Registered(s', c) ==> c in s'.connections
    decreases |actions|
  {
    hide Inv, Apply, Registered;
    if actions != [] {
      StepKeeps(s, actions[0]);
      StaysListedStep(s, actions[0], c);
      StaysListed(Apply(s, actions[0]).value, actions[1..], c);
    }
  }

  /** A client that keeps up is never dropped: in every interleaving it stays listed, its channel open, from its
      registration until it unregisters; whenever the hub is back in select it was sent the greeting and every
      broadcast since, and, with nothing queued and no write failed, all of that was written. */
  lemma KeepingUpMissesNothing(actions: seq<Action>, c: Id)
    requires Play(START, actions).Some? && KeepsUp(START, actions, c)
    requires Registered(Play(START, actions).value, c)
    ensures var s := Play(START, actions).value;
            && c in s.connections && !s.clients[c].closed
            && (s.pc == SELECT ==>
                  var cl := s.clients[c];
                  && cl.greeted && cl.from <= |s.log| && cl.greet == FirstLine(s.log[..cl.from])
                  && Received(cl) == [cl.greet] + s.log[cl.from..]
                  && (cl.buffer == [] && cl.phase == PUMPING ==> cl.written == [cl.greet] + s.log[cl.from..]))
  {
    StaysListed(START, actions, c);
    PlayKeeps(START, actions);
    hide FirstLine, Play, KeepsUp;
    var s := Play(START, actions).value;
    assert ClientOk(s.clients[c], true, Owed(s, c), Greeting(s, c), s.log);
    if s.pc == SELECT {
      ListedIsUpToDate(actions, c);
      var cl := s.clients[c];
      assert cl.buffer == [] ==> cl.taken == cl.taken + cl.buffer;
    }
  }

  // ---------------------------------------------------------------- what the state remembers of a run

  /** The lines broadcast, in order. */
  function Lines(actions: seq<Action>): seq<Line> {
    if actions == [] then []
    else
      var last := actions[|actions| - 1];
      Lines(actions[..|actions| - 1]) + if last.Broadcast? then [last.m] else []
  }

  /** How many lines a client's pump took. */
  function Takes(actions: seq<Action>, c: Id): nat {
    if actions == [] then 0
    else
      var last := actions[|actions| - 1];
      Takes(actions[..|actions| - 1], c) + if last.Take? && last.c == c then 1 else 0
  }

  /** How far a client has come: unknown, connecting, pumping, leaving, done. */
  function Place(s: State, c: Id): nat {
    if c !in s.clients then 0
    else match s.clients[c].phase
         case CONNECTING => 1
         case PUMPING => 2
         case LEAVING => 3
         case DONE => 4
  }

  function Taken(s: State, c: Id): nat { if c in s.clients then |s.clients[c].taken| else 0 }

  /** Where a client is follows from what it did: connect, register, give up or see its channel closed, unregister. */
  ghost predicate Remembers(s: State, actions: seq<Action>, c: Id) {
    && (Connect(c) in actions <==> Place(s, c) >= 1)
    && (Register(c) in actions <==> Place(s, c) >= 2)
    && (Take(c, false) in actions || SeeClosed(c) in actions <==> Place(s, c) >= 3)
    && (Unregister(c) in actions <==> Place(s, c) >= 4)
    && Takes(actions, c) == Taken(s, c)
  }

  lemma {:induction false} PlayAppend(s: State, actions: seq<Action>, a: Action)
    ensures Play(s, actions + [a]) ==
            match Play(s, actions) case None => None case Some(t) => Apply(t, a)
    decreases |actions|
  {
    hide Apply;
    if actions == [] {
      assert ([] + [a])[1..] == [] && Play(s, [a]) == match Apply(s, a) case None => None case Some(t) => Play(t, []);
    } else {
      assert (actions + [a])[1..] == actions[1..] + [a];
      if Apply(s, actions[0]).Some? { PlayAppend(Apply(s, actions[0]).value, actions[1..], a); }
    }
  }

  lemma InAppend(actions: seq<Action>, a: Action, x: Action)
    ensures x in actions + [a] <==> x in actions || x == a
  {}

  /** The place an action takes client `c` to, and the one it takes it from. */
  lemma PlaceStep(s: State, a: Action, c: Id)
    requires Apply(s, a).Some? && !s.panicked && !Apply(s, a).value.panicked
    ensures var from, to := Place(s, c), Place(Apply(s, a).value, c);
            if a == Connect(c) then from == 0 && to == 1
            else if a == Register(c) then from == 1 && to == 2
            else if a == Take(c, false) || a == SeeClosed(c) then from == 2 && to == 3
            else if a == Unregister(c) then from == 3 && to == 4
            else to == from
  {}

  lemma TakenStep(s: State, a: Action, c: Id)
    requires Apply(s, a).Some? && !s.panicked && !Apply(s, a).value.panicked
    ensures Taken(Apply(s, a).value, c) == Taken(s, c) + if a.Take? && a.c == c then 1 else 0
    ensures Apply(s, a).value.log == s.log + if a.Broadcast? then [a.m] else []
  {}

  lemma RemembersStep(s: State, actions: seq<Action>, a: Action, c: Id)
    requires Inv(s) && Apply(s, a).Some? && Remembers(s, actions, c)
    ensures Remembers(Apply(s, a).value, actions + [a], c)
  {
    hide Inv, Apply, Place, Taken;
    assert (actions + [a])[..|actions|] == actions;
    InAppend(actions, a, Connect(c));
    InAppend(actions, a, Register(c));
    InAppend(actions, a, Take(c, false));
    InAppend(actions, a, SeeClosed(c));
    InAppend(actions, a, Unregister(c));
    StepKeeps(s, a);
    NotPanicked(s);
    NotPanicked(Apply(s, a).value);
    PlaceStep(s, a, c);
    TakenStep(s, a, c);
  }

  lemma NotPanicked(s: State)
    requires Inv(s)
    ensures !s.panicked
  {}

  /** The log holds the lines broadcast, and every client is where its own actions and the hub's have brought it. */
  lemma {:induction false} RunIsRemembered(actions: seq<Action>, c: Id)
    requires Play(START, actions).Some?
    ensures var s := Play(START, actions).value; s.log == Lines(actions) && Remembers(s, actions, c)
    decreases |actions|
  {
    hide Inv, Apply, Remembers;
    if actions == [] {
      RemembersNothing(c);
    } else {
      var front, a := actions[..|actions| - 1], actions[|actions| - 1];
      assert front + [a] == actions;
      PlayAppend(START, front, a);
      RunIsRemembered(front, c);
      PlayKeeps(START, front) by { StartOk(); }
      RemembersStep(Play(START, front).value, front, a, c);
      NotPanicked(Play(START, front).value);
      StepKeeps(Play(START, front).value, a);
      NotPanicked(Play(START, actions).value);
      TakenStep(Play(START, front).value, a, c);
    }
  }

  lemma StartOk()
    ensures Inv(START)
  {}

  lemma RemembersNothing(c: Id)
    ensures Remembers(START, [], c)
  {}
}
