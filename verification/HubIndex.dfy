/** What a hub thread's index makes of the queue its registrations share with
    messages for the broker. */
module HubIndex {
  import opened Names
  import opened Wire
  import opened Sockets
  import opened Relay
  import opened Router
  import opened RouterTheory
  import opened RouterEmission
  import opened Forest
  import opened Directory
  import opened DirectoryTheory
  import opened HubThread
  import opened HubEmission

  // ----- The queue ----------------------------------------------------------

  predicate IsRegistration(m: Message)
  {
    |m| == 2 && m[0] == MQ_REG && |m[1]| == REGI_SIZE
  }

  /** A registration as the hub publishes it; its bytes start with a host, not
      with a type of the hub. */
  predicate Registering(m: Message)
  {
    IsRegistration(m) && CStr(Fill(Zeros(TYPE_SIZE), m[1])) !in [MQ_REQ_INTERHUB, MQ_RES_INTERHUB]
  }

  /** A message for the broker, under a topic that does not begin "svc_reg" itself. */
  predicate Addressed(m: Message)
  {
    DownWellFormed(m) && NulFree(m[0]) && !(m[0] <= MQ_REG)
  }

  predicate DownQueue(ms: seq<Message>)
  {
    forall k :: 0 <= k < |ms| ==> Registering(ms[k]) || Addressed(ms[k])
  }

  predicate NonEmpty(ms: seq<Message>)
  {
    forall k :: 0 <= k < |ms| ==> ms[k] != []
  }

  /** The topic reaches behind "svc_reg" in the buffer; thread ids all do. */
  predicate LongTopic(m: Message)
    requires m != []
  {
    |m[0]| > |MQ_REG|
  }

  /** The clock reads of the rounds of a call. */
  type Clock = nat -> (int, int)

  function Registered(regi: Bytes, at: (int, int)): Event
    requires |regi| == REGI_SIZE
  {
    Heartbeat(RegiBrokerId(regi), RegiSvc(regi), at.0, at.1)
  }

  /** All registrations in the queue, taken in rounds n, n + 1, .. of a call. */
  function FullLog(ms: seq<Message>, clock: Clock, n: nat): seq<Event>
    requires NonEmpty(ms)
  {
    if ms == [] then []
    else (if IsRegistration(ms[0]) then [Registered(ms[0][1], clock(n))] else []) + FullLog(ms[1..], clock, n + 1)
  }

  /** Those in front of the first long topic. */
  function LogOf(ms: seq<Message>, clock: Clock, n: nat): seq<Event>
    requires NonEmpty(ms)
  {
    if ms == [] then []
    else if IsRegistration(ms[0]) then [Registered(ms[0][1], clock(n))] + LogOf(ms[1..], clock, n + 1)
    else if LongTopic(ms[0]) then []
    else LogOf(ms[1..], clock, n + 1)
  }

  /** What goes to the broker's router. */
  function AllDown(ms: seq<Message>): seq<Message>
    requires DownQueue(ms)
  {
    if ms == [] then [] else (if IsRegistration(ms[0]) then [] else Downward(ms[0])) + AllDown(ms[1..])
  }

  // ----- One round ----------------------------------------------------------

  /** A callback standing in front of a queue, its sends about to succeed. */
  predicate DownFaces(s: Downlink, ms: seq<Message>)
  {
    |s.buf| == ACTION_SIZE && s.inp == In(Stream(ms), false) && Clear(s.dealer) && s.dealer.peers == None
  }

  /** "svc_reg" will be read as received. */
  predicate ReadsTopic(buf: Bytes)
  {
    |buf| > |MQ_REG| && buf[|MQ_REG|] == NUL
  }

  lemma TopicSize()
    ensures |MQ_REG| == 7 && NulFree(MQ_REG)
  {
  }

  lemma ReadyIsExact(buf: Bytes)
    requires |buf| == ACTION_SIZE
    ensures CStr(Fill(buf, MQ_REG)) == MQ_REG <==> ReadsTopic(buf)
    ensures ReadsTopic(Fill(buf, MQ_REG)) <==> ReadsTopic(buf)
  {
    TopicSize();
    ReusedBuffer(buf, MQ_REG);
  }

  lemma TopicRead(buf: Bytes, m: Message)
    requires |buf| == ACTION_SIZE && Addressed(m)
    ensures CStr(Fill(buf, m[0])) != MQ_REG
    ensures ReadsTopic(Fill(buf, m[0])) <==> ReadsTopic(buf) && !LongTopic(m)
  {
    TopicSize();
    ReadOver(buf, m[0]);
    if |m[0]| <= |buf| { assert m[0] <= CStr(Fill(buf, m[0])); }
    if LongTopic(m) { assert m[0][|MQ_REG|] in m[0]; }
  }

  /** The state behind the first message of a queue. */
  function Behind(s: Downlink, ms: seq<Message>, at: (int, int)): Downlink
    requires ms != [] && DownQueue(ms)
  {
    var m := ms[0];
    Downlink(Fill(s.buf, m[0]), In(Stream(ms[1..]), false),
             if IsRegistration(m) then s.dealer else s.dealer.(sent := s.dealer.sent + Stream(Downward(m))),
             if IsRegistration(m) && ReadsTopic(s.buf) then Apply(s.brokers, Registered(m[1], at)) else s.brokers)
  }

  lemma AddressedRound(s: Downlink, ms: seq<Message>, at: (int, int))
    requires ms != [] && DownQueue(ms) && DownFaces(s, ms) && !IsRegistration(ms[0])
    ensures DownRound(s, at.0, at.1) == Behind(s, ms, at) && DownFaces(Behind(s, ms, at), ms[1..])
  {
    var m, rest := ms[0], Stream(ms[1..]);
    TopicRead(s.buf, m);
    DownEmits(s, m, rest, at.0, at.1);
    AtEnd(m, rest);
    StaysClear(s.dealer, s.dealer.(sent := s.dealer.sent + Stream(Downward(m))), Downward(m));
  }

  lemma RegistrationRound(s: Downlink, ms: seq<Message>, at: (int, int))
    requires ms != [] && DownQueue(ms) && DownFaces(s, ms) && IsRegistration(ms[0])
    ensures DownRound(s, at.0, at.1) == Behind(s, ms, at) && DownFaces(Behind(s, ms, at), ms[1..])
  {
    var m, rest := ms[0], Stream(ms[1..]);
    assert m == [MQ_REG, m[1]] && !Addressed(m);
    ReadyIsExact(s.buf);
    if ReadsTopic(s.buf) {
      DownRegisters(s, m[1], rest, at.0, at.1);
    } else {
      RegistrationMissed(s, m, rest, at);
    }
  }

  /** A registration whose topic is misread is read to its end and ignored. */
  lemma RegistrationMissed(s: Downlink, m: Message, ms: seq<Part>, at: (int, int))
    requires Registering(m) && s.inp == In(Frame(m) + ms, false) && CStr(Fill(s.buf, MQ_REG)) != MQ_REG
    ensures DownRound(s, at.0, at.1) == s.(buf := Fill(s.buf, MQ_REG), inp := In(ms, false))
  {
    ReadHead(s.inp, m, ms);
    AtEnd(m, ms);
  }

  /** A registration that is read right sets, at the clock reads of its round, the
      entries of its own broker id and service, and leaves every other pair. */
  lemma RegistrationIndexed(s: Downlink, regi: Bytes, ms: seq<Part>, at: (int, int), host: Bytes, name: Bytes, t: Tag,
                            id: Bytes, svc: Bytes)
    requires Carries(regi, host, name, t)
    requires s.inp == In(Frame([MQ_REG, regi]) + ms, false) && |s.buf| == ACTION_SIZE && ReadsTopic(s.buf)
    ensures var after := DownRound(s, at.0, at.1).brokers;
            && Heard(after, id, svc) == (if id == host + "_" + name && svc == t.svc then Some(at.1) else Heard(s.brokers, id, svc))
            && BrokerHeard(after, id) == (if id == host + "_" + name then Some(at.0) else BrokerHeard(s.brokers, id))
  {
    ReadyIsExact(s.buf);
    DownRegisters(s, regi, ms, at.0, at.1);
    RegiRoundTrip(regi, host, name, t);
    EnterSetsPair(s.brokers, host + "_" + name, t.svc, at.0, at.1, id, svc);
  }

  /** In the log it is a heartbeat of that pair. */
  lemma RegistrationLogged(regi: Bytes, at: (int, int), host: Bytes, name: Bytes, t: Tag)
    requires Carries(regi, host, name, t)
    ensures Registered(regi, at) == Heartbeat(host + "_" + name, t.svc, at.0, at.1)
  {
    RegiRoundTrip(regi, host, name, t);
  }

  // ----- A whole call -------------------------------------------------------

  function ApplyAll(brokers: seq<Node>, es: seq<Event>): seq<Node>
    decreases |es|
  {
    if es == [] then brokers else ApplyAll(Apply(brokers, es[0]), es[1..])
  }

  lemma {:induction false} AfterAppend(log: seq<Event>, es: seq<Event>)
    ensures After(log + es) == ApplyAll(After(log), es)
    decreases |es|
  {
    if es == [] {
      assert log + es == log;
    } else {
      assert (log + [es[0]])[..|log|] == log && log + es == log + [es[0]] + es[1..];
      AfterAppend(log + [es[0]], es[1..]);
    }
  }

  lemma DownOn(s: Downlink, ms: seq<Message>, clock: Clock, n: nat)
    requires ms != [] && DownQueue(ms) && DownFaces(s, ms)
    ensures var s' := Behind(s, ms, clock(n));
            && DownRounds(s, clock, n) == DownRounds(s', clock, n + 1) && DownFaces(s', ms[1..])
            && (ReadsTopic(s'.buf) <==> ReadsTopic(s.buf) && !LongTopic(ms[0]))
  {
    TopicSize();
    assert |Frame(ms[0])| > 0;
    if IsRegistration(ms[0]) {
      RegistrationRound(s, ms, clock(n));
      ReadyIsExact(s.buf);
    } else {
      AddressedRound(s, ms, clock(n));
      TopicRead(s.buf, ms[0]);
    }
  }

  /** What a call is to leave behind. */
  ghost predicate Leaves(s: Downlink, clock: Clock, n: nat, es: seq<Event>, out: seq<Message>)
  {
    var after := DownRounds(s, clock, n);
    after.inp == In([], false) && after.brokers == ApplyAll(s.brokers, es) && after.dealer.sent == s.dealer.sent + Stream(out)
  }

  lemma LeavesMore(s: Downlink, s': Downlink, clock: Clock, n: nat, e: seq<Event>, es: seq<Event>, m: seq<Message>, out: seq<Message>)
    requires DownRounds(s, clock, n) == DownRounds(s', clock, n + 1) && Leaves(s', clock, n + 1, es, out)
    requires |e| <= 1 && s'.brokers == if e == [] then s.brokers else Apply(s.brokers, e[0])
    requires s'.dealer.sent == if m == [] then s.dealer.sent else s.dealer.sent + Stream(m)
    ensures Leaves(s, clock, n, e + es, m + out)
  {
    EmittedThen(s.dealer.sent, m, out);
    assert m == [] ==> m + out == out;
    if e == [] { assert e + es == es; } else { assert (e + es)[1..] == es && e[1..] == []; }
  }

  /** `broker_sub_callback` on any queue of registrations and messages for the
      broker, when sends succeed: the messages all go down in order, and of the
      registrations those in front of the first long topic are entered. */
  lemma {:induction false} QueueTaken(s: Downlink, ms: seq<Message>, clock: Clock, n: nat)
    requires DownQueue(ms) && DownFaces(s, ms)
    ensures Leaves(s, clock, n, if ReadsTopic(s.buf) then LogOf(ms, clock, n) else [], AllDown(ms))
    decreases |ms|
  {
    if ms == [] {
      assert s.dealer.sent + [] == s.dealer.sent;
    } else {
      var m, s' := ms[0], Behind(s, ms, clock(n));
      DownOn(s, ms, clock, n);
      QueueTaken(s', ms[1..], clock, n + 1);
      var es := if ReadsTopic(s'.buf) then LogOf(ms[1..], clock, n + 1) else [];
      var e := if IsRegistration(m) && ReadsTopic(s.buf) then [Registered(m[1], clock(n))] else [];
      LeavesMore(s, s', clock, n, e, es, if IsRegistration(m) then [] else Downward(m), AllDown(ms[1..]));
    }
  }

  function Topics(ms: seq<Message>): seq<Bytes>
    requires DownQueue(ms)
  {
    if ms == [] then [] else [ms[0][0]] + Topics(ms[1..])
  }

  /** The topic buffer at the end of the call: what all topics have left in it. */
  lemma {:induction false} DownBuffer(s: Downlink, ms: seq<Message>, clock: Clock, n: nat)
    requires DownQueue(ms) && DownFaces(s, ms)
    ensures DownRounds(s, clock, n).buf == Refill(s.buf, Topics(ms))
    decreases |ms|
  {
    if ms != [] {
      DownOn(s, ms, clock, n);
      DownBuffer(Behind(s, ms, clock(n)), ms[1..], clock, n + 1);
      RefillFirst(s.buf, ms[0][0], Topics(ms[1..]));
    }
  }

  /** No registration stands behind a long topic. */
  predicate RegistrationsFirst(ms: seq<Message>)
    requires NonEmpty(ms)
  {
    forall i, j :: 0 <= i < j < |ms| && LongTopic(ms[i]) ==> !IsRegistration(ms[j])
  }

  predicate NoRegistrations(ms: seq<Message>)
  {
    forall j :: 0 <= j < |ms| ==> !IsRegistration(ms[j])
  }

  lemma RegistrationsFirstStep(ms: seq<Message>)
    requires ms != [] && NonEmpty(ms)
    ensures RegistrationsFirst(ms) <==> (LongTopic(ms[0]) ==> NoRegistrations(ms[1..])) && RegistrationsFirst(ms[1..])
    ensures NoRegistrations(ms[1..]) ==> RegistrationsFirst(ms[1..])
    ensures NoRegistrations(ms) <==> !IsRegistration(ms[0]) && NoRegistrations(ms[1..])
  {
    assert forall j :: 0 < j < |ms| ==> ms[j] == ms[1..][j - 1];
  }

  lemma {:induction false} NothingToLog(ms: seq<Message>, clock: Clock, n: nat)
    requires NonEmpty(ms)
    ensures FullLog(ms, clock, n) == [] <==> NoRegistrations(ms)
    decreases ms
  {
    if ms != [] {
      RegistrationsFirstStep(ms);
      NothingToLog(ms[1..], clock, n + 1);
    }
  }

  /** All registrations found are entered if and only if none stands behind a long topic. */
  lemma {:induction false} AllEnteredIsExact(ms: seq<Message>, clock: Clock, n: nat)
    requires NonEmpty(ms)
    ensures LogOf(ms, clock, n) == FullLog(ms, clock, n) <==> RegistrationsFirst(ms)
    ensures |LogOf(ms, clock, n)| < |FullLog(ms, clock, n)| || RegistrationsFirst(ms)
    decreases ms
  {
    if ms != [] {
      TopicSize();
      RegistrationsFirstStep(ms);
      AllEnteredIsExact(ms[1..], clock, n + 1);
      NothingToLog(ms[1..], clock, n + 1);
    }
  }

  // ----- Sends that fail ----------------------------------------------------

  /** A part that leaves no NUL behind "svc_reg" in the buffer. */
  predicate Lasting(b: Bytes)
  {
    |b| > |MQ_REG| ==> b[|MQ_REG|] != NUL
  }

  predicate AllLasting(ps: seq<Part>)
  {
    forall k :: 0 <= k < |ps| ==> Lasting(ps[k].data)
  }

  lemma {:induction false} RelayLasting(i: In, o: Out, host: Bytes)
    requires AllLasting(i.queue)
    ensures AllLasting(RelaySndMore(i, o, host).inp.queue)
    decreases |i.queue|
  {
    if i.queue != [] { RelayLasting(Next(i), Retry(o, i.queue[0].data, i.queue[0].more).0, host); }
  }

  lemma RelayDownLasting(s: Downlink, ty: Bytes)
    requires AllLasting(s.inp.queue)
    ensures AllLasting(RelayToBroker(s, ty).inp.queue)
    ensures RelayToBroker(s, ty).brokers == s.brokers && RelayToBroker(s, ty).buf == s.buf
  {
    if s.inp.queue != [] && Next(s.inp).queue != [] {
      var target, i := ReadName(s.inp.queue[0].data), Next(s.inp);
      RelayLasting(Next(i), SendChain(s.dealer, DownHead(ty, target, ReadTag(i.queue[0].data)), 0).0, "");
    }
  }

  /** Behind a long topic nothing reads as "svc_reg" any more. */
  lemma QuietRound(s: Downlink, tBroker: int, tSvc: int)
    requires s.inp.queue != [] && |s.buf| == ACTION_SIZE && AllLasting(s.inp.queue)
    requires !ReadsTopic(s.buf) || |s.inp.queue[0].data| > |MQ_REG|
    ensures var s' := DownRound(s, tBroker, tSvc);
            s'.brokers == s.brokers && |s'.buf| == ACTION_SIZE && !ReadsTopic(s'.buf) && AllLasting(s'.inp.queue)
  {
    TopicSize();
    var b := s.inp.queue[0].data;
    var s1 := s.(buf := Fill(s.buf, b), inp := Next(s.inp));
    assert Lasting(b);
    assert Fill(s.buf, b)[|MQ_REG|] == if |b| > |MQ_REG| then b[|MQ_REG|] else s.buf[|MQ_REG|];
    NotTopic(s1.buf);
    QuietDispatch(s1, tBroker, tSvc);
  }

  lemma NotTopic(buf: Bytes)
    requires |buf| == ACTION_SIZE && !ReadsTopic(buf)
    ensures CStr(buf) != MQ_REG
  {
    TopicSize();
  }

  lemma QuietAs(s: Downlink, ty: Bytes)
    requires AllLasting(s.inp.queue)
    ensures var s' := DownAs(s, ty); s'.brokers == s.brokers && s'.buf == s.buf && AllLasting(s'.inp.queue)
  {
    RelayDownLasting(s, MQ_REQ);
    RelayDownLasting(s, MQ_RES);
  }

  lemma QuietDispatch(s: Downlink, tBroker: int, tSvc: int)
    requires CStr(s.buf) != MQ_REG && AllLasting(s.inp.queue)
    ensures var s' := DownDispatch(s, tBroker, tSvc); s'.brokers == s.brokers && s'.buf == s.buf && AllLasting(s'.inp.queue)
  {
    if s.inp.queue != [] { QuietAs(s.(inp := Next(s.inp)), CStr(Fill(Zeros(TYPE_SIZE), s.inp.queue[0].data))); }
  }

  lemma {:induction false} QuietRounds(s: Downlink, clock: Clock, n: nat)
    requires |s.buf| == ACTION_SIZE && AllLasting(s.inp.queue)
    requires !ReadsTopic(s.buf) || s.inp.queue == [] || |s.inp.queue[0].data| > |MQ_REG|
    ensures DownRounds(s, clock, n).brokers == s.brokers
    decreases |s.inp.queue|
  {
    if s.inp.queue != [] {
      DownConsumes(s, clock(n).0, clock(n).1);
      QuietRound(s, clock(n).0, clock(n).1);
      QuietRounds(DownRound(s, clock(n).0, clock(n).1), clock, n + 1);
    }
  }

  /** Registrations, then anything that starts with a long topic and leaves no NUL behind "svc_reg". */
  predicate Sturdy(ms: seq<Message>)
  {
    ms == [] ||
    if ms[0] != [] && IsRegistration(ms[0]) then Sturdy(ms[1..])
    else ms[0] != [] && LongTopic(ms[0]) && AllLasting(Stream(ms)) && NonEmpty(ms)
  }

  lemma RegistrationEntered(s: Downlink, ms: seq<Message>, clock: Clock, n: nat)
    requires ms != [] && IsRegistration(ms[0]) && |s.buf| == ACTION_SIZE && ReadsTopic(s.buf) && s.inp == In(Stream(ms), false)
    ensures DownRounds(s, clock, n) ==
            DownRounds(s.(buf := Fill(s.buf, MQ_REG), inp := In(Stream(ms[1..]), false),
                          brokers := Apply(s.brokers, Registered(ms[0][1], clock(n)))), clock, n + 1)
  {
    var m, rest := ms[0], Stream(ms[1..]);
    assert m == [MQ_REG, m[1]] && |Frame(m)| == 2;
    ReadyIsExact(s.buf);
    RegisteredRound(s, m[1], rest, clock(n));
  }

  lemma RegisteredRound(s: Downlink, regi: Bytes, ms: seq<Part>, at: (int, int))
    requires |regi| == REGI_SIZE && s.inp == In(Frame([MQ_REG, regi]) + ms, false) && CStr(Fill(s.buf, MQ_REG)) == MQ_REG
    ensures DownRound(s, at.0, at.1) ==
            s.(buf := Fill(s.buf, MQ_REG), inp := In(ms, false), brokers := Apply(s.brokers, Registered(regi, at)))
  {
    ReadHead(s.inp, [MQ_REG, regi], ms);
    DownRegisters(s, regi, ms, at.0, at.1);
  }

  /** Whatever the sends to the broker return: the registrations in front of the
      first long topic are entered, and nothing behind it is. */
  lemma {:induction false} EnteredUnderFailures(s: Downlink, ms: seq<Message>, clock: Clock, n: nat)
    requires Sturdy(ms) && NonEmpty(ms) && |s.buf| == ACTION_SIZE && ReadsTopic(s.buf) && s.inp == In(Stream(ms), false)
    ensures DownRounds(s, clock, n).brokers == ApplyAll(s.brokers, LogOf(ms, clock, n))
    decreases |ms|
  {
    if ms != [] && IsRegistration(ms[0]) {
      var e := Registered(ms[0][1], clock(n));
      RegistrationEntered(s, ms, clock, n);
      ReadyIsExact(s.buf);
      var s' := s.(buf := Fill(s.buf, MQ_REG), inp := In(Stream(ms[1..]), false), brokers := Apply(s.brokers, e));
      EnteredUnderFailures(s', ms[1..], clock, n + 1);
      assert ([e] + LogOf(ms[1..], clock, n + 1))[1..] == LogOf(ms[1..], clock, n + 1);
    } else if ms != [] {
      assert |Frame(ms[0])| > 0 && Frame(ms[0])[0].data == ms[0][0];
      QuietRounds(s, clock, n);
    }
  }

  // ----- A thread's whole life ----------------------------------------------

  /** What happens to a thread's index: a call on a queue, or a pruning tick. */
  datatype Turn = Call(ms: seq<Message>, dealer: Out, clock: Clock) | PruneAt(now: int)

  /** Sends to the broker succeed, or whatever they leave unread leaves no NUL behind "svc_reg". */
  predicate Runs(t: Turn)
  {
    t.Call? ==>
      || (DownQueue(t.ms) && Clear(t.dealer) && t.dealer.peers == None)
      || (Sturdy(t.ms) && NonEmpty(t.ms))
  }

  predicate AllRun(ts: seq<Turn>)
  {
    forall k :: 0 <= k < |ts| ==> Runs(ts[k])
  }

  /** Each call starts with a zeroed buffer. */
  function TakeTurn(brokers: seq<Node>, t: Turn): seq<Node>
  {
    match t
    case Call(ms, dealer, clock) => DownRounds(Downlink(Zeros(ACTION_SIZE), In(Stream(ms), false), dealer, brokers), clock, 0).brokers
    case PruneAt(now) => Prune(brokers, now)
  }

  function TakeTurns(ts: seq<Turn>): seq<Node>
  {
    if ts == [] then [] else TakeTurn(TakeTurns(ts[..|ts| - 1]), ts[|ts| - 1])
  }

  function EnteredBy(t: Turn): seq<Event>
    requires Runs(t)
  {
    if t.Call? then LogOf(t.ms, t.clock, 0) else [Tick(t.now)]
  }

  function FoundBy(t: Turn): seq<Event>
    requires Runs(t)
  {
    if t.Call? then FullLog(t.ms, t.clock, 0) else [Tick(t.now)]
  }

  /** The log of what was entered, and of everything that was published to the thread. */
  function Entered(ts: seq<Turn>): seq<Event>
    requires AllRun(ts)
  {
    if ts == [] then [] else Entered(ts[..|ts| - 1]) + EnteredBy(ts[|ts| - 1])
  }

  function PublishedTo(ts: seq<Turn>): seq<Event>
    requires AllRun(ts)
  {
    if ts == [] then [] else PublishedTo(ts[..|ts| - 1]) + FoundBy(ts[|ts| - 1])
  }

  lemma TurnEnters(brokers: seq<Node>, t: Turn)
    requires Runs(t)
    ensures TakeTurn(brokers, t) == ApplyAll(brokers, EnteredBy(t))
  {
    if t.Call? {
      TopicSize();
      var s := Downlink(Zeros(ACTION_SIZE), In(Stream(t.ms), false), t.dealer, brokers);
      if Sturdy(t.ms) { EnteredUnderFailures(s, t.ms, t.clock, 0); } else { QueueTaken(s, t.ms, t.clock, 0); }
    } else {
      assert [Tick(t.now)][1..] == [];
    }
  }

  /** Over any sequence of calls and ticks the index is what the log of the
      registrations entered makes it: of each queue, those in front of the
      first long topic. */
  lemma {:induction false} ThreadFollowsLog(ts: seq<Turn>)
    requires AllRun(ts)
    ensures TakeTurns(ts) == After(Entered(ts))
    decreases |ts|
  {
    if ts != [] {
      var before, t := ts[..|ts| - 1], ts[|ts| - 1];
      ThreadFollowsLog(before);
      TurnEnters(TakeTurns(before), t);
      AfterAppend(Entered(before), EnteredBy(t));
    }
  }

  predicate NothingBehind(t: Turn)
    requires Runs(t)
  {
    t.Call? ==> RegistrationsFirst(t.ms)
  }

  predicate NothingLost(ts: seq<Turn>)
    requires AllRun(ts)
  {
    forall k :: 0 <= k < |ts| ==> NothingBehind(ts[k])
  }

  /** At most as many, and the same if as many. */
  predicate Within(a: seq<Event>, b: seq<Event>)
  {
    |a| < |b| || a == b
  }

  lemma Together(a: seq<Event>, b: seq<Event>, c: seq<Event>, d: seq<Event>)
    requires Within(a, b) && Within(c, d)
    ensures Within(a + c, b + d) && (a + c == b + d <==> a == b && c == d)
  {
  }

  lemma TurnWithin(t: Turn)
    requires Runs(t)
    ensures Within(EnteredBy(t), FoundBy(t)) && (EnteredBy(t) == FoundBy(t) <==> NothingBehind(t))
  {
    if t.Call? { AllEnteredIsExact(t.ms, t.clock, 0); }
  }

  lemma NothingLostStep(ts: seq<Turn>, t: Turn)
    requires AllRun(ts) && Runs(t)
    ensures AllRun(ts + [t]) && (NothingLost(ts + [t]) <==> NothingLost(ts) && NothingBehind(t))
  {
    assert (ts + [t])[|ts|] == t && forall k :: 0 <= k < |ts| ==> (ts + [t])[k] == ts[k];
  }

  lemma TurnsStep(ts: seq<Turn>, t: Turn)
    requires AllRun(ts) && Runs(t)
    ensures AllRun(ts + [t]) && Entered(ts + [t]) == Entered(ts) + EnteredBy(t) && PublishedTo(ts + [t]) == PublishedTo(ts) + FoundBy(t)
  {
    assert (ts + [t])[..|ts|] == ts;
  }

  /** The index follows the log of everything published to the thread if and
      only if in no queue a registration stood behind a long topic. */
  lemma {:induction false} PublishedIsEntered(ts: seq<Turn>)
    requires AllRun(ts)
    ensures Entered(ts) == PublishedTo(ts) <==> NothingLost(ts)
    ensures Within(Entered(ts), PublishedTo(ts))
    decreases |ts|
  {
    if ts != [] {
      var before, t := ts[..|ts| - 1], ts[|ts| - 1];
      assert ts == before + [t];
      PublishedIsEntered(before);
      TurnWithin(t);
      TurnsStep(before, t);
      NothingLostStep(before, t);
      Together(Entered(before), PublishedTo(before), EnteredBy(t), FoundBy(t));
    }
  }

  /** So when nothing stood behind a long topic, the thread's answers are right
      about everything that was published to it: never its own broker, only one
      that registered the service, and one whenever another broker registered it
      within three seconds, its clock reads agreeing. */
  lemma ThreadAnswers(ts: seq<Turn>, me: Bytes, svc: Bytes)
    requires AllRun(ts) && NothingLost(ts)
    requires var es := PublishedTo(ts); Chronological(es) && es != []
    ensures RightAnswer(FindSvc(TakeTurns(ts), me, svc), PublishedTo(ts), me, svc)
  {
    PublishedIsEntered(ts);
    ThreadFollowsLog(ts);
    AnswersOf(TakeTurns(ts), PublishedTo(ts), me, svc);
  }

  lemma AnswersOf(brokers: seq<Node>, es: seq<Event>, me: Bytes, svc: Bytes)
    requires brokers == After(es) && Chronological(es) && es != []
    ensures RightAnswer(FindSvc(brokers, me, svc), es, me, svc)
  {
    QueryAgainstLog(es, me, svc);
  }

  /** Another broker that registered the service, or no other one did within three seconds in one second. */
  ghost predicate RightAnswer(r: Option<Bytes>, es: seq<Event>, me: Bytes, svc: Bytes)
    requires es != []
  {
    && (r.Some? ==> r.value != me && Logged(es, r.value, svc).Some?)
    && (r == None ==> forall id: string :: id != me && Logged(es, id, svc).Some? ==>
          End(es[|es| - 1]) - Logged(es, id, svc).value > 3 || Straddled(es, id, svc))
  }

  // ----- A registration lost ------------------------------------------------

  /** A registration behind a message for the broker is not entered. */
  lemma RegistrationLost(s: Downlink, m: Message, regi: Message, clock: Clock, n: nat)
    requires Addressed(m) && LongTopic(m) && Registering(regi) && DownFaces(s, [m, regi])
    ensures DownRounds(s, clock, n).brokers == s.brokers
  {
    QueueTaken(s, [m, regi], clock, n);
    NotEntered(m, regi, clock, n);
  }

  lemma NotEntered(m: Message, regi: Message, clock: Clock, n: nat)
    requires Addressed(m) && LongTopic(m) && Registering(regi)
    ensures LogOf([m, regi], clock, n) == []
  {
  }

  function At(now: int): Clock
  {
    _ => (now, now)
  }

  lemma QueueLogs(m: Message, regi: Message, now: int)
    requires Addressed(m) && LongTopic(m) && Registering(regi)
    ensures DownQueue([regi]) && DownQueue([m, regi])
    ensures LogOf([regi], At(now), 0) == FullLog([regi], At(now), 0) == [Registered(regi[1], (now, now))]
    ensures LogOf([m, regi], At(now), 0) == [] && FullLog([m, regi], At(now), 0) == [Registered(regi[1], (now, now))]
  {
    NotEntered(m, regi, At(now), 0);
    assert [regi][1..] == [] && [m, regi][1..] == [regi];
    assert !IsRegistration(m) && FullLog([regi], At(now), 1) == [Registered(regi[1], (now, now))];
  }

  lemma PrunedAfter(a: Turn, b: Turn, e: Event, id: Bytes, svc: Bytes)
    requires Runs(a) && Runs(b) && e == Heartbeat(id, svc, 0, 0) && EnteredBy(a) == [e] && EnteredBy(b) == []
    ensures Prune(TakeTurn(TakeTurn([], a), b), 4) == []
  {
    TurnEnters([], a);
    TurnEnters(ApplyAll([], [e]), b);
    OnePruned(e, id, svc);
  }

  /** So a live service is pruned: registered again after three seconds, but
      behind a message for the broker, it is gone one second later. */
  lemma LiveServicePruned(m: Message, regi: Message, dealer: Out)
    requires Addressed(m) && LongTopic(m) && Registering(regi) && Clear(dealer) && dealer.peers == None
    ensures var first, second := Call([regi], dealer, At(0)), Call([m, regi], dealer, At(3));
            && Runs(first) && Runs(second) && FoundBy(second) == [Registered(regi[1], (3, 3))]
            && Prune(TakeTurn(TakeTurn([], first), second), 4) == []
  {
    var first, second := Call([regi], dealer, At(0)), Call([m, regi], dealer, At(3));
    QueueLogs(m, regi, 0);
    QueueLogs(m, regi, 3);
    PrunedAfter(first, second, Registered(regi[1], (0, 0)), RegiBrokerId(regi[1]), RegiSvc(regi[1]));
  }

  lemma OnePruned(e: Event, id: Bytes, svc: Bytes)
    requires e == Heartbeat(id, svc, 0, 0)
    ensures Prune(ApplyAll(ApplyAll([], [e]), []), 4) == []
  {
    assert [e][1..] == [];
    assert ApplyAll([], [e]) == Apply([], e);
  }
}
