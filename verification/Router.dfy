/** broker.c: the router thread, which delivers, drains or forwards to the hub. */
module Router {
  import opened Wire
  import opened Sockets
  import opened Relay

  /** The router socket, both directions, and the publisher. */
  datatype RState = RState(inp: In, out: Out, pub: Out)

  /** `zmq_send(..) && zmq_send(..) && ..`: stops at the first send that does
      not return at least `least` bytes (0 for ">= 0", 1 for "> 0"). */
  function SendChain(o: Out, parts: seq<Part>, least: nat): (r: (Out, bool))
    ensures r.0.peers == o.peers
    decreases |parts|
  {
    if parts == [] then (o, true)
    else
      var p := parts[0];
      var o' := Put(o, p.data, p.more);
      if Verdict(o, p.data) == Sent && |p.data| >= least then SendChain(o', parts[1..], least) else (o', false)
  }

  /** What `sprintf` inserts into the notice; its fixed wording is left out. */
  function LogText(svc: Bytes, host: Bytes): Bytes
  {
    svc + host + INTERHUB_NAME
  }

  /** The notice that goes ahead of a forwarded request. */
  function LogMessage(tag: Bytes, host: Bytes): seq<Part>
    requires |tag| == TAG_SIZE
  {
    [Part(INTERHUB_NAME, true), Part(MQ_LOG, true), Part(LogText(DecodeTag(tag).svc, host), false)]
  }

  function ForwardHead(tag: Bytes, host: Bytes): seq<Part>
    requires |tag| == TAG_SIZE
  {
    [Part(INTERHUB_NAME, true), Part(MQ_REQ, true), Part(host, true), Part(SetVia(tag), true)]
  }

  /** `relay_req_to_interhub`. */
  function ReqToInterhub(s: RState, svcHost: Bytes): RState
  {
    if s.inp.queue == [] then s
    else
      var tag, i := ReadTag(s.inp.queue[0].data), Next(s.inp);
      if Via(tag) then s.(inp := i)
      else
        var logged := SendChain(s.out, LogMessage(tag, svcHost), 1).0;
        var (o, ok) := SendChain(logged, ForwardHead(tag, svcHost), 1);
        RelayRest(s.(inp := i, out := o), ok)
  }

  /** The final `relay_snd_more(zmq_router, zmq_router, NULL)`, unless the head could not be sent. */
  function RelayRest(s: RState, ok: bool): RState
  {
    if ok then var r := RelaySndMore(s.inp, s.out, ""); s.(inp := r.inp, out := r.out) else s
  }

  const RES_HEAD := [Part(INTERHUB_NAME, true), Part(MQ_RES_INTERHUB, true)]

  /** `relay_res_to_interhub`. */
  function ResToInterhub(s: RState): RState
  {
    var (o, ok) := SendChain(s.out, RES_HEAD, 1);
    RelayRest(s.(out := o), ok)
  }

  /** After `relay_snd_more` into the destination: only EHOSTUNREACH is handled. */
  function AfterRelay(hub: bool, s: RState, ok: bool, err: Outcome, host: Bytes): RState
  {
    if ok || err != Unroutable then s
    else if hub then ReqToInterhub(s, host)
    else s.(inp := Drain(s.inp))
  }

  /** The body of the loop in `router_callback`, once identity and type are read. */
  function Dispatch(hub: bool, s: RState, msgType: Bytes): RState
  {
    if msgType == MQ_RES_INTERHUB then ResToInterhub(s)
    else if msgType == MQ_RES then
      var r := RelaySndMore(s.inp, s.pub, "");
      AfterRelay(hub, s.(inp := r.inp, pub := r.out), r.ok, r.err, r.host)
    else if msgType == MQ_REQ || msgType == MQ_REQ_INTERHUB then
      var r := RelaySndMore(s.inp, s.out, "");
      AfterRelay(hub, s.(inp := r.inp, out := r.out), r.ok, r.err, r.host)
    else if msgType == MQ_LOG then (if s.inp.queue == [] then s else s.(inp := Next(s.inp)))
    else s.(inp := Drain(s.inp))
  }

  /** One round of the loop; false when there was no identity or no type to read. */
  function Round(hub: bool, s: RState): (bool, RState)
  {
    if s.inp.queue == [] then (false, s)
    else
      var i := Next(s.inp);
      if i.queue == [] then (false, s.(inp := i))
      else (true, Dispatch(hub, s.(inp := Next(i)), CStr(i.queue[0].data)))
  }

  function Rounds(hub: bool, s: RState, n: nat): RState
    decreases n
  {
    if n == 0 then s
    else
      var (go, s') := Round(hub, s);
      if go then Rounds(hub, s', n - 1) else s'
  }

  lemma RoundsFrom(hub: bool, s: RState, n: nat, r: (bool, RState))
    requires n > 0 && r == Round(hub, s)
    ensures Rounds(hub, s, n) == if r.0 then Rounds(hub, r.1, n - 1) else r.1
  {
  }

  // ----- Whole messages stay whole ------------------------------------------

  lemma {:induction false} DrainKeepsWhole(i: In)
    requires Whole(i)
    ensures Whole(Drain(i))
    decreases |i.queue|
  {
    if i.more { DrainKeepsWhole(Next(i)); }
  }

  lemma ReqKeepsWhole(s: RState, svcHost: Bytes)
    requires Whole(s.inp)
    ensures Whole(ReqToInterhub(s, svcHost).inp)
  {
    if s.inp.queue != [] {
      var tag := ReadTag(s.inp.queue[0].data);
      var logged := SendChain(s.out, LogMessage(tag, svcHost), 1).0;
      RelayKeepsWhole(Next(s.inp), SendChain(logged, ForwardHead(tag, svcHost), 1).0, "");
    }
  }

  lemma AfterRelayKeepsWhole(hub: bool, s: RState, ok: bool, err: Outcome, host: Bytes)
    requires Whole(s.inp)
    ensures Whole(AfterRelay(hub, s, ok, err, host).inp)
  {
    ReqKeepsWhole(s, host);
    DrainKeepsWhole(s.inp);
  }

  lemma DispatchKeepsWhole(hub: bool, s: RState, msgType: Bytes)
    requires Whole(s.inp)
    ensures Whole(Dispatch(hub, s, msgType).inp)
  {
    if msgType == MQ_RES_INTERHUB {
      RelayKeepsWhole(s.inp, SendChain(s.out, RES_HEAD, 1).0, "");
    } else if msgType == MQ_RES {
      var r := RelaySndMore(s.inp, s.pub, "");
      RelayKeepsWhole(s.inp, s.pub, "");
      AfterRelayKeepsWhole(hub, s.(inp := r.inp, pub := r.out), r.ok, r.err, r.host);
    } else if msgType == MQ_REQ || msgType == MQ_REQ_INTERHUB {
      var r := RelaySndMore(s.inp, s.out, "");
      RelayKeepsWhole(s.inp, s.out, "");
      AfterRelayKeepsWhole(hub, s.(inp := r.inp, out := r.out), r.ok, r.err, r.host);
    } else {
      DrainKeepsWhole(s.inp);
    }
  }

  // ----- The router thread --------------------------------------------------

  /** A chain of sends joined by `&&`. */
  method SendAll(sock: Socket, parts: seq<Part>, least: nat) returns (ok: bool)
    modifies sock`sent, sock`script
    ensures (sock.OutState(), ok) == SendChain(old(sock.OutState()), parts, least)
  {
    for n := 0 to |parts|
      invariant SendChain(sock.OutState(), parts[n..], least) == SendChain(old(sock.OutState()), parts, least)
    {
      var r := sock.Send(parts[n].data, parts[n].more);
      if r != Sent || |parts[n].data| < least {
        return false;
      }
    }
    ok := true;
  }

  class RouterThread {
    const zmqRouter: Socket
    const zmqPub: Socket
    const hub: bool  // zmq_pub_to_interhub != NULL

    constructor (zmqRouter: Socket, zmqPub: Socket, hub: bool)
      ensures this.zmqRouter == zmqRouter && this.zmqPub == zmqPub && this.hub == hub
    {
      this.zmqRouter, this.zmqPub, this.hub := zmqRouter, zmqPub, hub;
    }

    ghost predicate Valid()
      reads zmqRouter`queue, zmqRouter`more
    {
      zmqRouter != zmqPub && Whole(zmqRouter.InState())
    }

    ghost function State(): RState
      reads zmqRouter, zmqPub
    {
      RState(zmqRouter.InState(), zmqRouter.OutState(), zmqPub.OutState())
    }

    method RelayReqToInterhub(svcHost: Bytes)
      requires Valid()
      modifies zmqRouter`queue, zmqRouter`more, zmqRouter`sent, zmqRouter`script
      ensures State() == ReqToInterhub(old(State()), svcHost)
    {
      var received, data := zmqRouter.Recv();
      if !received {
        return;
      }
      var fromTag := ReadTag(data);
      if Via(fromTag) {
        return; // prevent node loop
      }
      var _ := SendAll(zmqRouter, LogMessage(fromTag, svcHost), 1);
      var ok := SendAll(zmqRouter, ForwardHead(fromTag, svcHost), 1);
      if ok {
        var _, _, _ := RelayParts(zmqRouter, zmqRouter, "");
      }
    }

    method RelayResToInterhub()
      requires Valid()
      modifies zmqRouter`queue, zmqRouter`more, zmqRouter`sent, zmqRouter`script
      ensures State() == ResToInterhub(old(State()))
    {
      var ok := SendAll(zmqRouter, RES_HEAD, 1);
      if ok {
        var _, _, _ := RelayParts(zmqRouter, zmqRouter, "");
      }
    }

    method RelayTo(dest: Socket)
      requires Valid() && dest in {zmqRouter, zmqPub}
      modifies zmqRouter`queue, zmqRouter`more, zmqRouter`sent, zmqRouter`script, zmqPub`sent, zmqPub`script
      ensures var s, r := old(State()), RelaySndMore(old(zmqRouter.InState()), old(dest.OutState()), "");
              State() == AfterRelay(hub, if dest == zmqPub then s.(inp := r.inp, pub := r.out) else s.(inp := r.inp, out := r.out),
                                    r.ok, r.err, r.host)
    {
      RelayKeepsWhole(zmqRouter.InState(), dest.OutState(), "");
      var ok, errno, svcHost := RelayParts(zmqRouter, dest, "");
      if !ok && errno == Unroutable {
        if hub {
          RelayReqToInterhub(svcHost);
        } else {
          DrainLeftParts(zmqRouter);
        }
      }
    }

    method Handle(msgType: Bytes)
      requires Valid()
      modifies zmqRouter`queue, zmqRouter`more, zmqRouter`sent, zmqRouter`script, zmqPub`sent, zmqPub`script
      ensures State() == Dispatch(hub, old(State()), msgType)
    {
      if msgType == MQ_RES_INTERHUB {
        RelayResToInterhub();
      } else if msgType == MQ_REQ_INTERHUB || msgType == MQ_REQ {
        RelayTo(zmqRouter);
      } else if msgType == MQ_RES {
        RelayTo(zmqPub);
      } else if msgType == MQ_LOG {
        var _, _ := zmqRouter.Recv();
      } else {
        DrainLeftParts(zmqRouter);
      }
    }

    /** The body of the loop in `router_callback`. */
    method OneRound() returns (go: bool)
      requires Valid()
      modifies zmqRouter`queue, zmqRouter`more, zmqRouter`sent, zmqRouter`script, zmqPub`sent, zmqPub`script
      ensures Valid() && (go, State()) == Round(hub, old(State()))
    {
      var gotFrom, _ := zmqRouter.Recv();
      if !gotFrom {
        return false;
      }
      var gotType, data := zmqRouter.Recv();
      if !gotType {
        return false;
      }
      DispatchKeepsWhole(hub, State(), CStr(data));
      Handle(CStr(data));
      go := true;
    }

    ghost function AfterRounds(n: nat): RState
      reads zmqRouter, zmqPub
    {
      Rounds(hub, State(), n)
    }

    /** The first of n rounds that end in `done`. */
    method RoundOf(ghost n: nat, ghost done: RState) returns (go: bool)
      requires Valid() && n > 0 && AfterRounds(n) == done
      modifies zmqRouter`queue, zmqRouter`more, zmqRouter`sent, zmqRouter`script, zmqPub`sent, zmqPub`script
      ensures Valid() && (if go then AfterRounds(n - 1) else State()) == done
    {
      ghost var before := State();
      go := OneRound();
      RoundsFrom(hub, before, n, (go, State()));
    }

    /** `router_callback`. */
    method RouterCallback()
      requires Valid()
      modifies zmqRouter`queue, zmqRouter`more, zmqRouter`sent, zmqRouter`script, zmqPub`sent, zmqPub`script
      ensures Valid() && State() == Rounds(hub, old(State()), ROUNDS)
    {
      var relayCnt := 0;
      ghost var done, left: nat := Rounds(hub, State(), ROUNDS), ROUNDS;
      while relayCnt < ROUNDS
        invariant relayCnt + left == ROUNDS && Valid()
        invariant AfterRounds(left) == done
      {
        var go := RoundOf(left, done);
        if !go {
          return;
        }
        left := left - 1;
        relayCnt := relayCnt + 1;
      }
    }
  }
}
