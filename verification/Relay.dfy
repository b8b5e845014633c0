/** zmq_wrapper.c `relay_snd_more`, and the relay loops of a service slot. */
module Relay {
  import opened Wire
  import opened Sockets

  // ----- relay_snd_more -----------------------------------------------------

  /** The RETRY loop: send again while the call is interrupted. */
  function Retry(o: Out, data: Bytes, more: bool): (r: (Out, Outcome))
    ensures r.1 != Interrupted && r.0.peers == o.peers
    ensures r.0.sent == if r.1 == Sent then o.sent + [Part(data, more)] else o.sent
    ensures |r.0.script| <= |o.script|
    decreases |o.script|
  {
    if Verdict(o, data) == Interrupted then Retry(Put(o, data, more), data, more)
    else (Put(o, data, more), Verdict(o, data))
  }

  /** Both ends after the call, its return value as `ok`, errno, and what it left in `svc_host`. */
  datatype Relayed = Relayed(inp: In, out: Out, ok: bool, err: Outcome, host: Bytes)

  function RelaySndMore(i: In, o: Out, host: Bytes): Relayed
    decreases |i.queue|
  {
    if i.queue == [] then Relayed(i, o, true, Sent, host)
    else
      var part := i.queue[0];
      var (o', r) := Retry(o, part.data, part.more);
      if r != Sent then Relayed(Next(i), o', false, r, if r == Unroutable then CStr(part.data) else host)
      else if !part.more then Relayed(Next(i), o', true, Sent, host)
      else RelaySndMore(Next(i), o', host)
  }

  /** `relay_snd_more`; svcHost is the caller's buffer (NULL callers ignore it). */
  method RelayParts(sockFrom: Socket, sockTo: Socket, svcHost: Bytes) returns (ok: bool, errno: Outcome, host: Bytes)
    modifies sockFrom`queue, sockFrom`more, sockTo`sent, sockTo`script
    ensures Relayed(sockFrom.InState(), sockTo.OutState(), ok, errno, host) == RelaySndMore(old(sockFrom.InState()), old(sockTo.OutState()), svcHost)
  {
    host := svcHost;
    while true
      invariant host == svcHost
      invariant RelaySndMore(sockFrom.InState(), sockTo.OutState(), host) == RelaySndMore(old(sockFrom.InState()), old(sockTo.OutState()), svcHost)
      decreases |sockFrom.queue|
    {
      var received, data := sockFrom.Recv();
      if !received {
        return true, Sent, host;
      }
      var res := RetrySend(sockTo, data, sockFrom.more);
      if res != Sent {
        if res == Unroutable { host := CStr(data); }
        return false, res, host;
      }
      if !sockFrom.more {
        return true, Sent, host;
      }
    }
  }

  method RetrySend(sockTo: Socket, data: Bytes, more: bool) returns (res: Outcome)
    modifies sockTo`sent, sockTo`script
    ensures (sockTo.OutState(), res) == Retry(old(sockTo.OutState()), data, more)
  {
    while true
      invariant Retry(sockTo.OutState(), data, more) == Retry(old(sockTo.OutState()), data, more)
      decreases |sockTo.script|
    {
      res := sockTo.Send(data, more);
      if res != Interrupted {
        return;
      }
    }
  }

  // ----- drain_left_part_message --------------------------------------------

  function Drain(i: In): In
    decreases |i.queue|
  {
    if !i.more || i.queue == [] then i else Drain(Next(i))
  }

  /** `drain_left_part_message`. */
  method DrainLeftParts(sock: Socket)
    requires Whole(sock.InState())
    modifies sock`queue, sock`more
    ensures sock.InState() == Drain(old(sock.InState())) && Whole(sock.InState())
  {
    while sock.more
      invariant Whole(sock.InState())
      invariant Drain(sock.InState()) == Drain(old(sock.InState()))
      decreases |sock.queue|
    {
      var received, _ := sock.Recv();
    }
  }

  // ----- The relay loops of a service slot ----------------------------------

  /** Parts moved by one `mq_relay_callback` of at most n rounds; failed sends lose their part. */
  function Batch(i: In, o: Out, n: nat): (In, Out)
    decreases n
  {
    if n == 0 || i.queue == [] then (i, o)
    else Batch(Next(i), Put(o, i.queue[0].data, i.queue[0].more), n - 1)
  }

  const ROUNDS: nat := 1000

  /** `mq_relay_callback`. */
  method MqRelayCallback(sockFrom: Socket, sockTo: Socket)
    modifies sockFrom`queue, sockFrom`more, sockTo`sent, sockTo`script
    ensures (sockFrom.InState(), sockTo.OutState()) == Batch(old(sockFrom.InState()), old(sockTo.OutState()), ROUNDS)
  {
    var relayCnt := 0;
    while relayCnt < ROUNDS
      invariant relayCnt <= ROUNDS
      invariant Batch(sockFrom.InState(), sockTo.OutState(), ROUNDS - relayCnt)
             == Batch(old(sockFrom.InState()), old(sockTo.OutState()), ROUNDS)
    {
      var received, data := sockFrom.Recv();
      if !received {
        break;
      }
      var _ := sockTo.Send(data, sockFrom.more);
      relayCnt := relayCnt + 1;
    }
  }

  /** One round of `mq_relay_callback_sub_to_pub`: the first part is dropped,
      the rest relayed; a failure drains the message and ends the callback. */
  function StripRound(i: In, o: Out): (bool, In, Out)
  {
    if i.queue == [] then (false, i, o)
    else
      var r := RelaySndMore(Next(i), o, "");
      (r.ok, if r.ok then r.inp else Drain(r.inp), r.out)
  }

  function Strip(i: In, o: Out, n: nat): (In, Out)
    decreases n
  {
    if n == 0 then (i, o)
    else
      var (go, i', o') := StripRound(i, o);
      if go then Strip(i', o', n - 1) else (i', o')
  }

  method StripOne(sockFrom: Socket, sockTo: Socket) returns (go: bool)
    requires Whole(sockFrom.InState())
    modifies sockFrom`queue, sockFrom`more, sockTo`sent, sockTo`script
    ensures Whole(sockFrom.InState())
    ensures (go, sockFrom.InState(), sockTo.OutState()) == StripRound(old(sockFrom.InState()), old(sockTo.OutState()))
  {
    var received, _ := sockFrom.Recv();
    if !received {
      return false;
    }
    go := RelayOrDrain(sockFrom, sockTo);
  }

  /** `mq_relay_callback_sub_to_pub`. */
  method MqRelayCallbackSubToPub(sockFrom: Socket, sockTo: Socket)
    requires Whole(sockFrom.InState())
    modifies sockFrom`queue, sockFrom`more, sockTo`sent, sockTo`script
    ensures (sockFrom.InState(), sockTo.OutState()) == Strip(old(sockFrom.InState()), old(sockTo.OutState()), ROUNDS)
  {
    ghost var done := Strip(sockFrom.InState(), sockTo.OutState(), ROUNDS);
    var relayCnt := 0;
    while relayCnt < ROUNDS
      invariant relayCnt <= ROUNDS && Whole(sockFrom.InState())
      invariant Strip(sockFrom.InState(), sockTo.OutState(), ROUNDS - relayCnt) == done
    {
      var go := StripOne(sockFrom, sockTo);
      if !go {
        return;
      }
      relayCnt := relayCnt + 1;
    }
  }

  method RelayOrDrain(sockFrom: Socket, sockTo: Socket) returns (ok: bool)
    requires Whole(sockFrom.InState())
    modifies sockFrom`queue, sockFrom`more, sockTo`sent, sockTo`script
    ensures Whole(sockFrom.InState())
    ensures var r := RelaySndMore(old(sockFrom.InState()), old(sockTo.OutState()), "");
            ok == r.ok && sockTo.OutState() == r.out && sockFrom.InState() == if ok then r.inp else Drain(r.inp)
  {
    RelayKeepsWhole(sockFrom.InState(), sockTo.OutState(), "");
    var relayed, _, _ := RelayParts(sockFrom, sockTo, "");
    ok := relayed;
    if !ok {
      DrainLeftParts(sockFrom);
    }
  }

  lemma {:induction false} RelayKeepsWhole(i: In, o: Out, host: Bytes)
    requires Whole(i)
    ensures Whole(RelaySndMore(i, o, host).inp)
    decreases |i.queue|
  {
    if i.queue != [] {
      var (o', r) := Retry(o, i.queue[0].data, i.queue[0].more);
      RelayKeepsWhole(Next(i), o', host);
    }
  }
}
