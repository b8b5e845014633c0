/** hub.c: the thread that serves one broker, between its router and the other threads. */
module HubThread {
  import opened Names
  import opened Wire
  import opened Sockets
  import opened Relay
  import opened Router
  import opened Forest
  import opened Directory

  const TYPE_SIZE: nat := 128
  const NAME_SIZE: nat := 128
  const ACTION_SIZE: nat := 1024

  /** A part read into a zeroed string buffer. */
  function ReadName(data: Bytes): Bytes
  {
    CStr(Fill(Zeros(NAME_SIZE), data))
  }

  // ----- From the broker to the other threads -------------------------------

  /** `interhub_callback`: the type buffer, which is zeroed once per call, the
      dealer's receiving side and the publisher. */
  datatype Uplink = Uplink(buf: Bytes, inp: In, pub: Out)

  function RequestHead(id: Bytes, target: Bytes, tag: Bytes): seq<Part>
  {
    [Part(id, true), Part(MQ_REQ_INTERHUB, true), Part(target, true), Part(tag, true)]
  }

  function ResponseHead(id: Bytes): seq<Part>
  {
    [Part(id, true), Part(MQ_RES_INTERHUB, true)]
  }

  function RelayUp(s: Uplink, ok: bool): Uplink
  {
    if ok then var r := RelaySndMore(s.inp, s.pub, ""); s.(inp := r.inp, pub := r.out) else s
  }

  predicate FitsId(me: Bytes)
  {
    NulFree(me) && |me| < SVC_AT - BROKER_AT
  }

  /** `find_svc_and_relay`: the target is read, looked up, and only then the tag is read. */
  function FindSvcAndRelay(brokers: seq<Node>, me: Bytes, s: Uplink): Uplink
    requires FitsId(me)
  {
    if s.inp.queue == [] then s
    else
      var target, s' := ReadName(s.inp.queue[0].data), s.(inp := Next(s.inp));
      var id := FindSvc(brokers, me, target);
      if id == None then s' else TagAndRelay(id.value, target, me, s')
  }

  /** The tag is read, stamped with this thread's broker and sent behind the topic. */
  function TagAndRelay(id: Bytes, target: Bytes, me: Bytes, s: Uplink): Uplink
    requires FitsId(me)
  {
    if s.inp.queue == [] then s
    else
      var tag := SetBroker(ReadTag(s.inp.queue[0].data), me);
      var (o, ok) := SendChain(s.pub, RequestHead(id, target, tag), 0);
      RelayUp(s.(inp := Next(s.inp), pub := o), ok)
  }

  /** `find_broker_and_relay`. */
  function FindBrokerAndRelay(s: Uplink): Uplink
  {
    if s.inp.queue == [] then s
    else
      var (o, ok) := SendChain(s.pub, ResponseHead(ReadName(s.inp.queue[0].data)), 0);
      RelayUp(s.(inp := Next(s.inp), pub := o), ok)
  }

  function UpDispatch(brokers: seq<Node>, me: Bytes, s: Uplink): Uplink
    requires FitsId(me)
  {
    var ty := CStr(s.buf);
    if ty == MQ_REQ then FindSvcAndRelay(brokers, me, s)
    else if ty == MQ_RES_INTERHUB then FindBrokerAndRelay(s)
    else if ty == MQ_LOG then (if s.inp.queue == [] then s else s.(inp := Next(s.inp)))
    else s
  }

  /** One part is read as a type and acted on; an unknown type is skipped. */
  function UpRound(brokers: seq<Node>, me: Bytes, s: Uplink): Uplink
    requires FitsId(me) && s.inp.queue != []
  {
    UpDispatch(brokers, me, s.(buf := Fill(s.buf, s.inp.queue[0].data), inp := Next(s.inp)))
  }

  lemma {:induction false} RelayConsumes(i: In, o: Out, host: Bytes)
    ensures |RelaySndMore(i, o, host).inp.queue| <= |i.queue|
    decreases |i.queue|
  {
    if i.queue != [] { RelayConsumes(Next(i), Retry(o, i.queue[0].data, i.queue[0].more).0, host); }
  }

  lemma FindSvcConsumes(brokers: seq<Node>, me: Bytes, s: Uplink)
    requires FitsId(me)
    ensures |FindSvcAndRelay(brokers, me, s).inp.queue| <= |s.inp.queue|
  {
    if s.inp.queue != [] {
      var target := ReadName(s.inp.queue[0].data);
      var id := FindSvc(brokers, me, target);
      if id.Some? { TagConsumes(id.value, target, me, s.(inp := Next(s.inp))); }
    }
  }

  lemma TagConsumes(id: Bytes, target: Bytes, me: Bytes, s: Uplink)
    requires FitsId(me)
    ensures |TagAndRelay(id, target, me, s).inp.queue| <= |s.inp.queue|
  {
    if s.inp.queue != [] {
      var tag := SetBroker(ReadTag(s.inp.queue[0].data), me);
      RelayConsumes(Next(s.inp), SendChain(s.pub, RequestHead(id, target, tag), 0).0, "");
    }
  }

  lemma UpConsumes(brokers: seq<Node>, me: Bytes, s: Uplink)
    requires FitsId(me) && s.inp.queue != []
    ensures |UpRound(brokers, me, s).inp.queue| < |s.inp.queue|
  {
    var s' := s.(buf := Fill(s.buf, s.inp.queue[0].data), inp := Next(s.inp));
    FindSvcConsumes(brokers, me, s');
    if s'.inp.queue != [] {
      RelayConsumes(Next(s'.inp), SendChain(s'.pub, ResponseHead(ReadName(s'.inp.queue[0].data)), 0).0, "");
    }
  }

  function UpRounds(brokers: seq<Node>, me: Bytes, s: Uplink): Uplink
    requires FitsId(me)
    decreases |s.inp.queue|
  {
    if s.inp.queue == [] then s
    else
      UpConsumes(brokers, me, s);
      UpRounds(brokers, me, UpRound(brokers, me, s))
  }

  // ----- From the other threads to the broker -------------------------------

  /** `mq_regi_t` begins with broker_host[24], broker_name[48], svc_host[24] and the tag. */
  const REGI_SIZE: nat := 256
  const REGI_NAME_AT: nat := 24
  const REGI_SVC_HOST_AT: nat := 72
  const REGI_TAG_AT: nat := 96

  function RegiBrokerId(b: Bytes): Bytes
    requires |b| == REGI_SIZE
  {
    BrokerId(CStr(b[..REGI_NAME_AT]), CStr(b[REGI_NAME_AT..REGI_SVC_HOST_AT]))
  }

  function RegiSvc(b: Bytes): Bytes
    requires |b| == REGI_SIZE
  {
    CStr(b[REGI_TAG_AT + SVC_AT..REGI_TAG_AT + NAME_AT])
  }

  /** `broker_sub_callback`: the topic buffer, the subscriber's receiving side, the dealer and the index. */
  datatype Downlink = Downlink(buf: Bytes, inp: In, dealer: Out, brokers: seq<Node>)

  function DownHead(ty: Bytes, target: Bytes, tag: Bytes): seq<Part>
  {
    [Part(ty, true), Part(target, true), Part(tag, true)]
  }

  /** `relay_to_broker`: the message goes on under a plain type. */
  function RelayToBroker(s: Downlink, ty: Bytes): Downlink
  {
    if s.inp.queue == [] then s
    else
      var target, i := ReadName(s.inp.queue[0].data), Next(s.inp);
      if i.queue == [] then s.(inp := i)
      else
        var (o, ok) := SendChain(s.dealer, DownHead(ty, target, ReadTag(i.queue[0].data)), 0);
        var s' := s.(inp := Next(i), dealer := o);
        if ok then var r := RelaySndMore(s'.inp, s'.dealer, ""); s'.(inp := r.inp, dealer := r.out) else s'
  }

  /** The hub's types become plain ones again; a message of another type stays unread. */
  function DownAs(s: Downlink, ty: Bytes): Downlink
  {
    if ty == MQ_REQ_INTERHUB then RelayToBroker(s, MQ_REQ)
    else if ty == MQ_RES_INTERHUB then RelayToBroker(s, MQ_RES)
    else s
  }

  function DownDispatch(s: Downlink, tBroker: int, tSvc: int): Downlink
  {
    if s.inp.queue == [] then s
    else
      var data, s' := s.inp.queue[0].data, s.(inp := Next(s.inp));
      if CStr(s.buf) == MQ_REG then
        var regi := Fill(Zeros(REGI_SIZE), data);
        s'.(brokers := ChkSmallTree(s.brokers, RegiBrokerId(regi), RegiSvc(regi), tBroker, tSvc))
      else
        DownAs(s', CStr(Fill(Zeros(TYPE_SIZE), data)))
  }

  /** One part is read as a topic and its message acted on. */
  function DownRound(s: Downlink, tBroker: int, tSvc: int): Downlink
    requires s.inp.queue != []
  {
    DownDispatch(s.(buf := Fill(s.buf, s.inp.queue[0].data), inp := Next(s.inp)), tBroker, tSvc)
  }

  lemma DownConsumes(s: Downlink, tBroker: int, tSvc: int)
    requires s.inp.queue != []
    ensures |DownRound(s, tBroker, tSvc).inp.queue| < |s.inp.queue|
  {
    var s' := s.(buf := Fill(s.buf, s.inp.queue[0].data), inp := Next(s.inp));
    if s'.inp.queue != [] {
      var s2 := s'.(inp := Next(s'.inp));
      RelayToBrokerConsumes(s2, MQ_REQ);
      RelayToBrokerConsumes(s2, MQ_RES);
    }
  }

  lemma RelayToBrokerConsumes(s: Downlink, ty: Bytes)
    ensures |RelayToBroker(s, ty).inp.queue| <= |s.inp.queue|
  {
    if s.inp.queue != [] && Next(s.inp).queue != [] {
      var target, i := ReadName(s.inp.queue[0].data), Next(s.inp);
      var o := SendChain(s.dealer, DownHead(ty, target, ReadTag(i.queue[0].data)), 0).0;
      RelayConsumes(Next(i), o, "");
    }
  }

  /** The loop; round n of the call reads the clock as clock(n). */
  function DownRounds(s: Downlink, clock: nat -> (int, int), n: nat): Downlink
    decreases |s.inp.queue|
  {
    if s.inp.queue == [] then s
    else
      DownConsumes(s, clock(n).0, clock(n).1);
      DownRounds(DownRound(s, clock(n).0, clock(n).1), clock, n + 1)
  }

  class BrokerThread {
    const brokerId: Bytes
    const dealer: Socket
    const pub: Socket
    const sub: Socket
    const index: SmallTree

    constructor (brokerId: Bytes, dealer: Socket, pub: Socket, sub: Socket, index: SmallTree)
      ensures this.brokerId == brokerId && this.dealer == dealer && this.pub == pub && this.sub == sub && this.index == index
    {
      this.brokerId, this.dealer, this.pub, this.sub, this.index := brokerId, dealer, pub, sub, index;
    }

    ghost predicate Valid()
      reads index, index.root, index.root.repr
    {
      dealer != pub && dealer != sub && pub != sub && index.Valid() && index.me == brokerId && FitsId(brokerId)
    }

    ghost function Up(buf: Bytes): Uplink
      reads dealer, pub
    {
      Uplink(buf, dealer.InState(), pub.OutState())
    }

    ghost function Down(buf: Bytes): Downlink
      requires Valid()
      reads sub, dealer, index, index.root, index.root.repr
    {
      Downlink(buf, sub.InState(), dealer.OutState(), index.Brokers())
    }

    method FindSvcThenRelay(ghost buf: Bytes)
      requires Valid()
      modifies dealer`queue, dealer`more, pub`sent, pub`script
      ensures Up(buf) == FindSvcAndRelay(index.Brokers(), brokerId, old(Up(buf)))
    {
      var received, data := dealer.Recv();
      if !received {
        return;
      }
      var tgsvcName := ReadName(data);
      var id := index.FindSvcExistTree(tgsvcName);
      if id.Some? {
        TakeTag(id.value, tgsvcName, buf);
      }
    }

    method TakeTag(id: Bytes, target: Bytes, ghost buf: Bytes)
      requires Valid()
      modifies dealer`queue, dealer`more, pub`sent, pub`script
      ensures Up(buf) == TagAndRelay(id, target, brokerId, old(Up(buf)))
    {
      var received, data := dealer.Recv();
      if received {
        PublishRequest(id, target, SetBroker(ReadTag(data), brokerId), buf);
      }
    }

    method PublishRequest(id: Bytes, target: Bytes, tag: Bytes, ghost buf: Bytes)
      requires Valid()
      modifies dealer`queue, dealer`more, pub`sent, pub`script
      ensures var (o, ok) := SendChain(old(pub.OutState()), RequestHead(id, target, tag), 0);
              Up(buf) == RelayUp(old(Up(buf)).(pub := o), ok)
    {
      var ok := SendAll(pub, RequestHead(id, target, tag), 0);
      if ok {
        var _, _, _ := RelayParts(dealer, pub, "");
      }
    }

    method FindBrokerThenRelay(ghost buf: Bytes)
      requires Valid()
      modifies dealer`queue, dealer`more, pub`sent, pub`script
      ensures Up(buf) == FindBrokerAndRelay(old(Up(buf)))
    {
      var received, data := dealer.Recv();
      if !received {
        return;
      }
      var ok := SendAll(pub, ResponseHead(ReadName(data)), 0);
      if ok {
        var _, _, _ := RelayParts(dealer, pub, "");
      }
    }

    method UpHandle(buf: Bytes)
      requires Valid()
      modifies dealer`queue, dealer`more, pub`sent, pub`script
      ensures Up(buf) == UpDispatch(index.Brokers(), brokerId, old(Up(buf)))
    {
      if CStr(buf) == MQ_REQ {
        FindSvcThenRelay(buf);
      } else if CStr(buf) == MQ_RES_INTERHUB {
        FindBrokerThenRelay(buf);
      } else if CStr(buf) == MQ_LOG {
        var _, _ := dealer.Recv();
      }
    }

    /** `interhub_callback`. */
    method InterhubCallback() returns (ghost buf: Bytes)
      requires Valid()
      modifies dealer`queue, dealer`more, pub`sent, pub`script
      ensures Up(buf) == UpRounds(index.Brokers(), brokerId, old(Up(Zeros(TYPE_SIZE))))
    {
      var msgType := Zeros(TYPE_SIZE);
      ghost var done := UpRounds(index.Brokers(), brokerId, Up(msgType));
      while true
        invariant UpRounds(index.Brokers(), brokerId, Up(msgType)) == done
        decreases |dealer.queue|
      {
        var received;
        received, msgType := UpOnce(msgType, done);
        if !received {
          return msgType;
        }
      }
    }

    /** The body of the loop: the next part is read as a type and acted on. */
    method UpOnce(buf: Bytes, ghost done: Uplink) returns (received: bool, msgType: Bytes)
      requires Valid() && UpRounds(index.Brokers(), brokerId, Up(buf)) == done
      modifies dealer`queue, dealer`more, pub`sent, pub`script
      ensures received ==> UpRounds(index.Brokers(), brokerId, Up(msgType)) == done && |dealer.queue| < old(|dealer.queue|)
      ensures !received ==> Up(msgType) == done
    {
      ghost var before := Up(buf);
      var data;
      received, data := dealer.Recv();
      if !received {
        return received, buf;
      }
      UpConsumes(index.Brokers(), brokerId, before);
      msgType := Fill(buf, data);
      UpHandle(msgType);
    }

    method RelayToBrokerAs(msgType: Bytes, ghost buf: Bytes)
      requires Valid()
      modifies sub`queue, sub`more, dealer`sent, dealer`script
      ensures Down(buf) == RelayToBroker(old(Down(buf)), msgType)
    {
      var received, target := sub.Recv();
      if !received {
        return;
      }
      var got, data := sub.Recv();
      if !got {
        return;
      }
      var ok := SendAll(dealer, DownHead(msgType, ReadName(target), ReadTag(data)), 0);
      if ok {
        var _, _, _ := RelayParts(sub, dealer, "");
      }
    }

    /** The body of the loop in `broker_sub_callback`, once the topic is in the buffer. */
    method DownHandle(action: Bytes, tBroker: int, tSvc: int)
      requires Valid()
      modifies sub`queue, sub`more, dealer`sent, dealer`script, index.root.repr
      ensures Valid() && fresh(index.root.repr - old(index.root.repr))
      ensures Down(action) == DownDispatch(old(Down(action)), tBroker, tSvc)
    {
      var received, data := sub.Recv();
      if !received {
        return;
      }
      if CStr(action) == MQ_REG {
        EnterRegistration(data, tBroker, tSvc);
      } else {
        PassDown(CStr(Fill(Zeros(TYPE_SIZE), data)), action);
      }
    }

    method EnterRegistration(data: Bytes, tBroker: int, tSvc: int)
      requires Valid()
      modifies index.root.repr
      ensures Valid() && fresh(index.root.repr - old(index.root.repr))
      ensures var regi := Fill(Zeros(REGI_SIZE), data);
              index.Brokers() == ChkSmallTree(old(index.Brokers()), RegiBrokerId(regi), RegiSvc(regi), tBroker, tSvc)
    {
      var svcRegi := Fill(Zeros(REGI_SIZE), data);
      index.ChkSmall(RegiBrokerId(svcRegi), RegiSvc(svcRegi), tBroker, tSvc);
    }

    method PassDown(msgType: Bytes, ghost buf: Bytes)
      requires Valid()
      modifies sub`queue, sub`more, dealer`sent, dealer`script
      ensures Down(buf) == DownAs(old(Down(buf)), msgType)
    {
      if msgType == MQ_REQ_INTERHUB {
        RelayToBrokerAs(MQ_REQ, buf); // back to a plain request
      } else if msgType == MQ_RES_INTERHUB {
        RelayToBrokerAs(MQ_RES, buf); // back to a plain response
      }
    }
  
    /** `broker_sub_callback`. */
    method BrokerSubCallback(clock: nat -> (int, int)) returns (ghost buf: Bytes)
      requires Valid()
      modifies sub`queue, sub`more, dealer`sent, dealer`script, index.root.repr
      ensures Valid() && Down(buf) == DownRounds(old(Down(Zeros(ACTION_SIZE))), clock, 0)
    {
      var action := Zeros(ACTION_SIZE);
      ghost var done := DownRounds(Down(action), clock, 0);
      var n := 0;
      while true
        invariant Valid() && fresh(index.root.repr - old(index.root.repr))
        invariant DownRounds(Down(action), clock, n) == done
        decreases |sub.queue|
      {
        ghost var before := Down(action);
        var received, data := sub.Recv();
        if !received {
          return action;
        }
        DownConsumes(before, clock(n).0, clock(n).1);
        action := Fill(action, data);
        DownHandle(action, clock(n).0, clock(n).1);
        n := n + 1;
      }
    }
  }
}
