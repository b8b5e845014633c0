/** ZeroMQ sockets as queues of parts.  What a send returns is decided by a
    script of failures and, on a mandatory ROUTER, by the connected peers. */
module Sockets {
  import opened Names
  import opened Wire

  /** How a `zmq_send` ends: accepted, EINTR, EHOSTUNREACH, any other error. */
  datatype Outcome = Sent | Interrupted | Unroutable | Failed

  /** The receiving side; `more` is what ZMQ_RCVMORE reports. */
  datatype In = In(queue: seq<Part>, more: bool)

  /** The sending side: parts accepted so far, outcomes still to come, and the
      identities a ROUTER can route to (None for every other socket type). */
  datatype Out = Out(sent: seq<Part>, script: seq<Outcome>, peers: Option<set<Bytes>>)

  /** Whole messages arrive at once: a part that announces another is followed by it. */
  predicate Whole(i: In)
  {
    (i.queue != [] ==> !i.queue[|i.queue| - 1].more) && (i.more ==> i.queue != [])
  }

  function Next(i: In): In
    requires i.queue != []
  {
    In(i.queue[1..], i.queue[0].more)
  }

  /** The next part sent starts a message. */
  predicate AtStart(o: Out)
  {
    o.sent == [] || !o.sent[|o.sent| - 1].more
  }

  /** A ROUTER reads the first part of a message as the identity to route to. */
  function Verdict(o: Out, data: Bytes): Outcome
  {
    if o.script != [] && o.script[0] != Sent then o.script[0]
    else if o.peers.Some? && AtStart(o) && data !in o.peers.value then Unroutable
    else Sent
  }

  function Put(o: Out, data: Bytes, more: bool): Out
  {
    Out(if Verdict(o, data) == Sent then o.sent + [Part(data, more)] else o.sent,
        if o.script == [] then [] else o.script[1..], o.peers)
  }

  class Socket {
    var queue: seq<Part>
    var more: bool
    var sent: seq<Part>
    var script: seq<Outcome>
    var peers: Option<set<Bytes>>

    constructor (peers: Option<set<Bytes>>)
      ensures InState() == In([], false) && OutState() == Out([], [], peers)
    {
      queue, more, sent, script, this.peers := [], false, [], [], peers;
    }

    ghost function InState(): In
      reads this`queue, this`more
    {
      In(queue, more)
    }

    ghost function OutState(): Out
      reads this`sent, this`script, this`peers
    {
      Out(sent, script, peers)
    }

    /** `zmq_recv` with ZMQ_DONTWAIT: an empty queue fails and changes nothing. */
    method Recv() returns (ok: bool, data: Bytes)
      modifies this`queue, this`more
      ensures ok <==> old(queue) != []
      ensures ok ==> InState() == Next(old(InState())) && data == old(queue)[0].data
      ensures !ok ==> InState() == old(InState())
    {
      ok, data := queue != [], [];
      if ok {
        data, more, queue := queue[0].data, queue[0].more, queue[1..];
      }
    }

    /** `zmq_send` with ZMQ_DONTWAIT. */
    method Send(data: Bytes, sndMore: bool) returns (r: Outcome)
      modifies this`sent, this`script
      ensures r == Verdict(old(OutState()), data)
      ensures OutState() == Put(old(OutState()), data, sndMore)
    {
      r := Sent;
      if script != [] && script[0] != Sent {
        r := script[0];
      } else if peers.Some? && (sent == [] || !sent[|sent| - 1].more) && data !in peers.value {
        r := Unroutable;
      }
      if r == Sent { sent := sent + [Part(data, sndMore)]; }
      if script != [] { script := script[1..]; }
    }
  }
}
