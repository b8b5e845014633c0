/** zmq_wrapper.c: what client processes call, and the traffic they report. */
module Client {
  import opened Names
  import opened Wire
  import opened Sockets
  import opened Router
  import opened Forest

  // ----- Requests and responses as parts ------------------------------------

  /** `mq_send_req`: type, target, own tag, body. */
  function RequestParts(target: Bytes, tag: Bytes, body: Bytes): Message
  {
    [MQ_REQ, target, tag, body]
  }

  /** `mq_send_res`: a response to a request that came through the hub names the broker to go back to. */
  function ResponseParts(tag: Bytes, body: Bytes): Message
    requires |tag| == TAG_SIZE
  {
    var t := DecodeTag(tag);
    if t.via then [MQ_RES_INTERHUB, t.broker, t.svc, t.name, body] else [MQ_RES, t.svc, t.name, body]
  }

  /** `mq_recv_req`: the tag, into a struct the caller has zeroed (feaib.c:38),
      then the body; an empty part counts as a failure. */
  function RecvReq(i: In): (In, Option<(Bytes, Bytes)>)
  {
    if i.queue == [] then (i, None)
    else
      var tag, i' := i.queue[0].data, Next(i);
      if tag == [] || !i'.more || i'.queue == [] then (i', None)
      else (Next(i'), if i'.queue[0].data == [] then None else Some((ReadTag(tag), i'.queue[0].data)))
  }

  /** `mq_recv_res`: the name is thrown away, the next part is the body. */
  function RecvRes(i: In): (In, Option<Bytes>)
  {
    if i.queue == [] then (i, None)
    else
      var i' := Next(i);
      if i.queue[0].data == [] || i'.queue == [] then (i', None)
      else (Next(i'), if i'.queue[0].data == [] then None else Some(i'.queue[0].data))
  }

  /** A request is read exactly when a tag and a body are there, neither empty and
      the first announcing the second; otherwise at most the first of two parts
      or both are consumed, and on an idle socket nothing happens. */
  lemma RecvReqIsExact(i: In)
    ensures var (i', got), q := RecvReq(i), i.queue;
            && (got.Some? <==> |q| >= 2 && q[0].data != [] && q[0].more && q[1].data != [])
            && (got.Some? ==> got.value == (ReadTag(q[0].data), q[1].data))
            && i' == (if q == [] then i
                      else if q[0].data == [] || !q[0].more || |q| == 1 then In(q[1..], q[0].more)
                      else In(q[2..], q[1].more))
  {
  }

  /** A response is read exactly when a name and a body are there, neither empty. */
  lemma RecvResIsExact(i: In)
    ensures var (i', got), q := RecvRes(i), i.queue;
            && (got.Some? <==> |q| >= 2 && q[0].data != [] && q[1].data != [])
            && (got.Some? ==> got.value == q[1].data)
            && i' == (if q == [] then i
                      else if q[0].data == [] || |q| == 1 then In(q[1..], q[0].more)
                      else In(q[2..], q[1].more))
  {
  }

  // ----- Traffic ------------------------------------------------------------

  function Plus(a: Traffic, b: Traffic): Traffic
  {
    Traffic(a.sendCnt + b.sendCnt, a.recvCnt + b.recvCnt, a.sendByte + b.sendByte, a.recvByte + b.recvByte)
  }

  /** One call and the clock it may read. */
  datatype Call = Sends(ok: bool, bytes: nat) | Receives(ok: bool, bytes: nat) | Registers(now: int)

  /** The live counters, the time of the last snapshot, and the snapshots taken so far with their times. */
  datatype Meter = Gauge(live: Traffic, before: int, taken: seq<(int, Traffic)>)

  function Counted(c: Call): Traffic
  {
    if c.Sends? && c.ok then Traffic(1, 0, c.bytes, 0)
    else if c.Receives? && c.ok then Traffic(0, 1, 0, c.bytes)
    else NO_TRAFFIC
  }

  /** `mq_regi` takes the counters and clears them, at most once a second. */
  function Metered(m: Meter, c: Call): Meter
  {
    if c.Registers? then
      if c.now - m.before >= 1 then Gauge(NO_TRAFFIC, c.now, m.taken + [(c.now, m.live)]) else m
    else m.(live := Plus(m.live, Counted(c)))
  }

  function MeteredAll(m: Meter, cs: seq<Call>): Meter
  {
    if cs == [] then m else Metered(MeteredAll(m, cs[..|cs| - 1]), cs[|cs| - 1])
  }

  // ----- The counters, one by one -------------------------------------------

  /** Successful sends and receives among the calls, and the bytes of their bodies. */
  function SendCount(cs: seq<Call>): nat
  {
    if cs == [] then 0
    else SendCount(cs[..|cs| - 1]) + if cs[|cs| - 1].Sends? && cs[|cs| - 1].ok then 1 else 0
  }

  function SendBytes(cs: seq<Call>): nat
  {
    if cs == [] then 0
    else SendBytes(cs[..|cs| - 1]) + if cs[|cs| - 1].Sends? && cs[|cs| - 1].ok then cs[|cs| - 1].bytes else 0
  }

  function RecvCount(cs: seq<Call>): nat
  {
    if cs == [] then 0
    else RecvCount(cs[..|cs| - 1]) + if cs[|cs| - 1].Receives? && cs[|cs| - 1].ok then 1 else 0
  }

  function RecvBytes(cs: seq<Call>): nat
  {
    if cs == [] then 0
    else RecvBytes(cs[..|cs| - 1]) + if cs[|cs| - 1].Receives? && cs[|cs| - 1].ok then cs[|cs| - 1].bytes else 0
  }

  /** One counter, summed over the snapshots taken and the live one. */
  function Summed(taken: seq<(int, Traffic)>, f: Traffic -> int): int
  {
    if taken == [] then 0 else Summed(taken[..|taken| - 1], f) + f(taken[|taken| - 1].1)
  }

  function InAll(m: Meter, f: Traffic -> int): int
  {
    Summed(m.taken, f) + f(m.live)
  }

  /** What one call adds to one counter over all. */
  lemma CallAdds(m: Meter, c: Call, f: Traffic -> int)
    requires f(Traffic(0, 0, 0, 0)) == 0
    ensures InAll(Metered(m, c), f) == if c.Registers? then InAll(m, f) else Summed(m.taken, f) + f(Metered(m, c).live)
  {
    if c.Registers? && c.now - m.before >= 1 {
      assert (m.taken + [(c.now, m.live)])[..|m.taken|] == m.taken;
    }
  }

  /** Nothing is lost, counted twice or counted as something else: over any calls
      snapshots and live counters together grow, counter by counter, by the
      successful sends, their bytes, the successful receives and theirs. */
  lemma {:induction false} TrafficConserved(m: Meter, cs: seq<Call>)
    ensures var m' := MeteredAll(m, cs);
            && InAll(m', (t: Traffic) => t.sendCnt) == InAll(m, (t: Traffic) => t.sendCnt) + SendCount(cs)
            && InAll(m', (t: Traffic) => t.sendByte) == InAll(m, (t: Traffic) => t.sendByte) + SendBytes(cs)
            && InAll(m', (t: Traffic) => t.recvCnt) == InAll(m, (t: Traffic) => t.recvCnt) + RecvCount(cs)
            && InAll(m', (t: Traffic) => t.recvByte) == InAll(m, (t: Traffic) => t.recvByte) + RecvBytes(cs)
    decreases |cs|
  {
    if cs != [] {
      var c, m1 := cs[|cs| - 1], MeteredAll(m, cs[..|cs| - 1]);
      TrafficConserved(m, cs[..|cs| - 1]);
      CallAdds(m1, c, (t: Traffic) => t.sendCnt);
      CallAdds(m1, c, (t: Traffic) => t.sendByte);
      CallAdds(m1, c, (t: Traffic) => t.recvCnt);
      CallAdds(m1, c, (t: Traffic) => t.recvByte);
    }
  }

  /** However the clock is read, two snapshots are at least a second apart. */
  lemma {:induction false} OneSnapshotPerSecond(m: Meter, cs: seq<Call>)
    requires m.taken == []
    ensures var m' := MeteredAll(m, cs);
            && (forall k :: 0 < k < |m'.taken| ==> m'.taken[k - 1].0 + 1 <= m'.taken[k].0)
            && (m'.taken != [] ==> m'.taken[|m'.taken| - 1].0 == m'.before)
    decreases |cs|
  {
    if cs != [] { OneSnapshotPerSecond(m, cs[..|cs| - 1]); }
  }

  // ----- The client ---------------------------------------------------------

  class ClientSock {
    const zmqPub: Socket
    const zmqPush: Socket
    const zmqPull: Socket
    const zmqSub: Socket
    const tag: Bytes  // svc_regi->tag
    var sndrcv: Traffic
    var before: int
    ghost var taken: seq<(int, Traffic)>

    constructor (zmqPub: Socket, zmqPush: Socket, zmqPull: Socket, zmqSub: Socket, tag: Bytes)
      requires |tag| == TAG_SIZE
      ensures this.zmqPub == zmqPub && this.zmqPush == zmqPush && this.zmqPull == zmqPull && this.zmqSub == zmqSub
      ensures this.tag == tag && Meter() == Gauge(NO_TRAFFIC, 0, [])
    {
      this.zmqPub, this.zmqPush, this.zmqPull, this.zmqSub, this.tag := zmqPub, zmqPush, zmqPull, zmqSub, tag;
      sndrcv, before, taken := NO_TRAFFIC, 0, [];
    }

    ghost function Meter(): Meter
      reads this
    {
      Gauge(sndrcv, before, taken)
    }

    /** `mq_send_req`. */
    method MqSendReq(tgsvcName: Bytes, buf: Bytes) returns (ok: bool)
      modifies this`sndrcv, zmqPush`sent, zmqPush`script
      ensures (zmqPush.OutState(), ok) == SendChain(old(zmqPush.OutState()), Frame(RequestParts(tgsvcName, tag, buf)), 1)
      ensures Meter() == Metered(old(Meter()), Sends(ok, |buf|))
      ensures sndrcv.recvCnt == old(sndrcv.recvCnt) && sndrcv.recvByte == old(sndrcv.recvByte)
      ensures sndrcv.sendCnt == old(sndrcv.sendCnt) + (if ok then 1 else 0)
      ensures sndrcv.sendByte == old(sndrcv.sendByte) + (if ok then |buf| else 0)
    {
      ok := SendAll(zmqPush, Frame(RequestParts(tgsvcName, tag, buf)), 1);
      if ok {
        sndrcv := Plus(sndrcv, Traffic(1, 0, |buf|, 0));
      }
    }

    /** `mq_send_res`. */
    method MqSendRes(destTag: Bytes, buf: Bytes) returns (ok: bool)
      requires |destTag| == TAG_SIZE
      modifies this`sndrcv, zmqPush`sent, zmqPush`script
      ensures (zmqPush.OutState(), ok) == SendChain(old(zmqPush.OutState()), Frame(ResponseParts(destTag, buf)), 1)
      ensures Meter() == Metered(old(Meter()), Sends(ok, |buf|))
      ensures sndrcv.recvCnt == old(sndrcv.recvCnt) && sndrcv.recvByte == old(sndrcv.recvByte)
      ensures sndrcv.sendCnt == old(sndrcv.sendCnt) + (if ok then 1 else 0)
      ensures sndrcv.sendByte == old(sndrcv.sendByte) + (if ok then |buf| else 0)
    {
      ok := SendAll(zmqPush, Frame(ResponseParts(destTag, buf)), 1);
      if ok {
        sndrcv := Plus(sndrcv, Traffic(1, 0, |buf|, 0));
      }
    }

    /** `mq_recv_req`. */
    method MqRecvReq() returns (got: Option<(Bytes, Bytes)>)
      modifies this`sndrcv, zmqPull`queue, zmqPull`more
      ensures (zmqPull.InState(), got) == RecvReq(old(zmqPull.InState()))
      ensures Meter() == Metered(old(Meter()), Receives(got.Some?, if got.Some? then |got.value.1| else 0))
      ensures sndrcv.sendCnt == old(sndrcv.sendCnt) && sndrcv.sendByte == old(sndrcv.sendByte)
      ensures sndrcv.recvCnt == old(sndrcv.recvCnt) + (if got.Some? then 1 else 0)
      ensures sndrcv.recvByte == old(sndrcv.recvByte) + (if got.Some? then |got.value.1| else 0)
    {
      got := None;
      var received, data := zmqPull.Recv();
      if !received || data == [] || !zmqPull.more {
        return;
      }
      var gotBody, body := zmqPull.Recv();
      if !gotBody || body == [] {
        return;
      }
      sndrcv := Plus(sndrcv, Traffic(0, 1, 0, |body|));
      got := Some((ReadTag(data), body));
    }

    /** `mq_recv_res`. */
    method MqRecvRes() returns (got: Option<Bytes>)
      modifies this`sndrcv, zmqSub`queue, zmqSub`more
      ensures (zmqSub.InState(), got) == RecvRes(old(zmqSub.InState()))
      ensures Meter() == Metered(old(Meter()), Receives(got.Some?, if got.Some? then |got.value| else 0))
      ensures sndrcv.sendCnt == old(sndrcv.sendCnt) && sndrcv.sendByte == old(sndrcv.sendByte)
      ensures sndrcv.recvCnt == old(sndrcv.recvCnt) + (if got.Some? then 1 else 0)
      ensures sndrcv.recvByte == old(sndrcv.recvByte) + (if got.Some? then |got.value| else 0)
    {
      got := None;
      var received, name := zmqSub.Recv();
      if !received || name == [] {
        return;
      }
      var gotBody, body := zmqSub.Recv();
      if !gotBody || body == [] {
        return;
      }
      sndrcv := Plus(sndrcv, Traffic(0, 1, 0, |body|));
      got := Some(body);
    }

    /** `mq_regi`: regi stands for the serialised `mq_regi_t` that carries the
        snapshot.  The counters are taken and cleared before anything is sent. */
    method MqRegi(now: int, regi: Traffic -> Bytes)
      modifies this`sndrcv, this`before, this`taken, zmqPub`sent, zmqPub`script
      ensures Meter() == Metered(old(Meter()), Registers(now))
      ensures if now - old(before) >= 1
              then sndrcv == Traffic(0, 0, 0, 0) && before == now && taken == old(taken) + [(now, old(sndrcv))]
              else sndrcv == old(sndrcv) && before == old(before) && taken == old(taken)
      ensures zmqPub.OutState() ==
              if now - old(before) >= 1
              then SendChain(old(zmqPub.OutState()), Frame([MQ_REG, regi(old(sndrcv))]), 1).0
              else old(zmqPub.OutState())
    {
      if now - before >= 1 {
        before := now;
      } else {
        return;
      }
      var snapshot := sndrcv;
      taken := taken + [(now, sndrcv)];
      sndrcv := NO_TRAFFIC;
      var _ := SendAll(zmqPub, Frame([MQ_REG, regi(snapshot)]), 1);
    }
  }
}
