/** What one round of the router sends, message by message, when sends succeed;
    and what it can never send. */
module RouterEmission {
  import opened Names
  import opened Wire
  import opened Sockets
  import opened Relay
  import opened RelayTheory
  import opened Router
  import opened RouterTheory

  /** No failure is scripted and the next part starts a message. */
  predicate Clear(o: Out)
  {
    o.script == [] && AtStart(o)
  }

  function Log(m: Message): Message
    requires |m| >= 4
  {
    [INTERHUB_NAME, MQ_LOG, LogText(DecodeTag(ReadTag(m[3])).svc, CStr(m[2]))]
  }

  /** A request as it is handed to the hub. */
  function ToHub(m: Message): Message
    requires |m| >= 4
  {
    [INTERHUB_NAME, MQ_REQ, CStr(m[2]), SetVia(ReadTag(m[3]))] + m[4..]
  }

  /** The request cannot be delivered here and has not been to the hub yet. */
  predicate Forwardable(hub: bool, peers: Option<set<Bytes>>, m: Message)
    requires |m| >= 4
  {
    !Routable(peers, m[2]) && hub && !Via(ReadTag(m[3])) && Routable(peers, INTERHUB_NAME)
  }

  /** Messages leaving through the router socket, the peer's identity first. */
  function Routed(hub: bool, peers: Option<set<Bytes>>, m: Message): seq<Message>
    requires WellFormed(m)
  {
    var ty := CStr(m[1]);
    if ty == MQ_RES_INTERHUB then
      if Routable(peers, INTERHUB_NAME) then [[INTERHUB_NAME, MQ_RES_INTERHUB] + m[2..]] else []
    else if IsRequest(ty) then
      if Routable(peers, m[2]) then [m[2..]]
      else if Forwardable(hub, peers, m) then [Log(m), ToHub(m)] else []
    else []
  }

  /** Messages leaving through the publisher, the topic first. */
  function Published(m: Message): seq<Message>
    requires WellFormed(m)
  {
    if CStr(m[1]) == MQ_RES then [m[2..]] else []
  }

  /** How many parts of the message the round reads. */
  function ReadUpTo(hub: bool, peers: Option<set<Bytes>>, m: Message): nat
    requires WellFormed(m)
  {
    var ty := CStr(m[1]);
    if ty == MQ_RES_INTERHUB && !Routable(peers, INTERHUB_NAME) then 2
    else if IsRequest(ty) && !Routable(peers, m[2]) && hub && !Forwardable(hub, peers, m) then 4
    else |m|
  }

  // ----- Sends that succeed -------------------------------------------------

  /** Parts of one message, each long enough not to stop a chain of sends. */
  predicate Flowing(parts: seq<Part>, least: nat)
  {
    && parts != []
    && (forall k :: 0 <= k < |parts| ==> |parts[k].data| >= least)
    && forall k :: 0 <= k < |parts| - 1 ==> parts[k].more
  }

  lemma {:induction false} ClearChain(o: Out, parts: seq<Part>, least: nat)
    requires o.script == [] && Flowing(parts, least)
    requires !AtStart(o) || Routable(o.peers, parts[0].data)
    ensures SendChain(o, parts, least) == (o.(sent := o.sent + parts), true)
    decreases |parts|
  {
    var o' := Put(o, parts[0].data, parts[0].more);
    assert o'.sent == o.sent + [parts[0]];
    if |parts| > 1 {
      ClearChain(o', parts[1..], least);
      assert o.sent + [parts[0]] + parts[1..] == o.sent + parts;
    } else {
      assert parts == [parts[0]] && SendChain(o', parts[1..], least) == (o', true);
    }
  }

  lemma BlockedChain(o: Out, parts: seq<Part>, least: nat)
    requires Clear(o) && parts != [] && !Routable(o.peers, parts[0].data)
    ensures SendChain(o, parts, least) == (o, false)
  {
  }

  lemma FrameStep(m: Message, k: nat)
    requires k < |m|
    ensures Frame(m)[k..] == [Part(m[k], k < |m| - 1)] + Frame(m)[k + 1..]
    ensures k + 1 == |m| ==> Frame(m)[k + 1..] == []
  {
  }

  lemma {:induction false} ClearRelay(m: Message, k: nat, ms: seq<Part>, i: In, o: Out, host: Bytes)
    requires k < |m| && i.queue == Frame(m[k..]) + ms && o.script == []
    requires !AtStart(o) || Routable(o.peers, m[k])
    ensures RelaySndMore(i, o, host) == Relayed(Rest(m, |m|, ms), o.(sent := o.sent + Frame(m)[k..]), true, Sent, host)
    decreases |m| - k
  {
    NextPart(m, k, ms, i);
    FrameStep(m, k);
    var o' := Put(o, m[k], k < |m| - 1);
    if k + 1 < |m| {
      ClearRelay(m, k + 1, ms, Next(i), o', host);
      Assoc(o.sent, [Part(m[k], true)], Frame(m)[k + 1..]);
    }
  }

  lemma FrameConcat(a: Message, b: Message)
    requires b != []
    ensures Frame(a + b) == seq(|a|, i requires 0 <= i < |a| => Part(a[i], true)) + Frame(b)
  {
  }

  lemma FrameSuffix(m: Message, k: nat)
    requires k <= |m|
    ensures Frame(m)[k..] == Frame(m[k..])
  {
  }

  /** Appending whole messages leaves a socket ready for the next one. */
  lemma {:induction false} StreamEnds(ms: seq<Message>)
    requires forall m :: m in ms ==> m != []
    ensures ms != [] ==> Stream(ms) != [] && !Stream(ms)[|Stream(ms)| - 1].more
    decreases ms
  {
    if ms != [] {
      assert ms[0] in ms;
      assert forall m :: m in ms[1..] ==> m in ms;
      if |ms| > 1 { StreamEnds(ms[1..]); } else { assert Stream(ms[1..]) == []; }
    }
  }

  lemma StaysClear(o: Out, o': Out, ms: seq<Message>)
    requires Clear(o) && (forall m :: m in ms ==> m != [])
    requires o' == o.(sent := o.sent + Stream(ms))
    ensures Clear(o')
  {
    StreamEnds(ms);
    if ms == [] { assert o.sent + [] == o.sent; }
  }

  // ----- One round ----------------------------------------------------------

  predicate TargetNamed(m: Message)
    requires WellFormed(m)
  {
    IsRequest(CStr(m[1])) ==> m[2] != [] && NulFree(m[2])
  }

  lemma CStrOfName(b: Bytes)
    requires NulFree(b)
    ensures CStr(b) == b
  {
  }

  lemma StreamOne(m: Message)
    ensures Stream([m]) == Frame(m)
  {
  }

  lemma HeadsFlow(tag: Bytes, host: Bytes)
    requires |tag| == TAG_SIZE && host != []
    ensures Flowing(LogMessage(tag, host), 1) && Flowing(ForwardHead(tag, host), 1)
  {
  }

  /** Notice and head of a forwarded request go out together. */
  lemma HeadsEmitted(o: Out, tag: Bytes, host: Bytes)
    requires Clear(o) && |tag| == TAG_SIZE && host != [] && Routable(o.peers, INTERHUB_NAME)
    ensures var logged := SendChain(o, LogMessage(tag, host), 1).0;
            && SendChain(logged, ForwardHead(tag, host), 1) == (o.(sent := o.sent + LogMessage(tag, host) + ForwardHead(tag, host)), true)
  {
    var lg, hd := LogMessage(tag, host), ForwardHead(tag, host);
    HeadsFlow(tag, host);
    ClearChain(o, lg, 1);
    var logged := o.(sent := o.sent + lg);
    assert AtStart(logged);
    ClearChain(logged, hd, 1);
  }

  /** Forwarding, given what its sends and its relay come to. */
  lemma ForwardedWith(s: RState, m: Message, ms: seq<Part>, host: Bytes, headed: Out, r: Relayed)
    requires |m| >= 5 && s.inp == Rest(m, 3, ms) && !Via(ReadTag(m[3]))
    requires SendChain(SendChain(s.out, LogMessage(ReadTag(m[3]), host), 1).0, ForwardHead(ReadTag(m[3]), host), 1) == (headed, true)
    requires r == RelaySndMore(Rest(m, 4, ms), headed, "")
    ensures ReqToInterhub(s, host) == s.(inp := r.inp, out := r.out)
  {
    NextPart(m, 3, ms, s.inp);
  }

  lemma ForwardEmits(s: RState, m: Message, ms: seq<Part>)
    requires |m| >= 5 && s.inp == Rest(m, 3, ms) && Clear(s.out) && m[2] != [] && NulFree(m[2])
    requires !Via(ReadTag(m[3])) && Routable(s.out.peers, INTERHUB_NAME)
    ensures ReqToInterhub(s, CStr(m[2]))
         == s.(inp := Rest(m, |m|, ms), out := s.out.(sent := s.out.sent + Stream([Log(m), ToHub(m)])))
  {
    var tag, host := ReadTag(m[3]), CStr(m[2]);
    CStrOfName(m[2]);
    HeadsEmitted(s.out, tag, host);
    var headed := s.out.(sent := s.out.sent + LogMessage(tag, host) + ForwardHead(tag, host));
    BodyFollows(m, ms, s.out, tag, host);
    ForwardedWith(s, m, ms, host, headed, RelaySndMore(Rest(m, 4, ms), headed, ""));
  }

  lemma BodyFollows(m: Message, ms: seq<Part>, o: Out, tag: Bytes, host: Bytes)
    requires |m| >= 5 && o.script == [] && tag == ReadTag(m[3]) && host == CStr(m[2])
    ensures var headed := o.(sent := o.sent + LogMessage(tag, host) + ForwardHead(tag, host));
            RelaySndMore(Rest(m, 4, ms), headed, "") ==
            Relayed(Rest(m, |m|, ms), o.(sent := o.sent + Stream([Log(m), ToHub(m)])), true, Sent, "")
  {
    var headed := o.(sent := o.sent + LogMessage(tag, host) + ForwardHead(tag, host));
    assert !AtStart(headed);
    ClearRelay(m, 4, ms, Rest(m, 4, ms), headed, "");
    ForwardedFrames(m, o.sent);
  }

  lemma ForwardedFrames(m: Message, sent: seq<Part>)
    requires |m| >= 5
    ensures var tag, host := ReadTag(m[3]), CStr(m[2]);
            sent + LogMessage(tag, host) + ForwardHead(tag, host) + Frame(m)[4..] == sent + Stream([Log(m), ToHub(m)])
  {
    var tag, host := ReadTag(m[3]), CStr(m[2]);
    FrameSuffix(m, 4);
    var head := [INTERHUB_NAME, MQ_REQ, host, SetVia(tag)];
    FrameConcat(head, m[4..]);
    assert Frame(ToHub(m)) == ForwardHead(tag, host) + Frame(m[4..]);
    assert Frame(Log(m)) == LogMessage(tag, host);
    assert [Log(m), ToHub(m)][1..] == [ToHub(m)];
    StreamOne(ToHub(m));
    assert Stream([Log(m), ToHub(m)]) == Frame(Log(m)) + Frame(ToHub(m));
  }

  lemma ResInterhubEmits(s: RState, m: Message, ms: seq<Part>)
    requires |m| >= 3 && s.inp == Rest(m, 2, ms) && Clear(s.out)
    ensures ResToInterhub(s) ==
            if Routable(s.out.peers, INTERHUB_NAME)
            then s.(inp := Rest(m, |m|, ms), out := s.out.(sent := s.out.sent + Stream([[INTERHUB_NAME, MQ_RES_INTERHUB] + m[2..]])))
            else s
  {
    var out := [INTERHUB_NAME, MQ_RES_INTERHUB] + m[2..];
    if Routable(s.out.peers, INTERHUB_NAME) {
      ClearChain(s.out, RES_HEAD, 1);
      var headed := s.out.(sent := s.out.sent + RES_HEAD);
      ClearRelay(m, 2, ms, s.inp, headed, "");
      FrameSuffix(m, 2);
      FrameConcat([INTERHUB_NAME, MQ_RES_INTERHUB], m[2..]);
      StreamOne(out);
      assert Frame(out) == RES_HEAD + Frame(m)[2..];
      Assoc(s.out.sent, RES_HEAD, Frame(m)[2..]);
    } else {
      BlockedChain(s.out, RES_HEAD, 1);
    }
  }

  lemma DeliveryEmits(m: Message, ms: seq<Part>, i: In, o: Out)
    requires |m| >= 3 && i == Rest(m, 2, ms) && Clear(o) && Routable(o.peers, m[2])
    ensures RelaySndMore(i, o, "") == Relayed(Rest(m, |m|, ms), o.(sent := o.sent + Stream([m[2..]])), true, Sent, "")
  {
    ClearRelay(m, 2, ms, i, o, "");
    FrameSuffix(m, 2);
    StreamOne(m[2..]);
  }

  lemma RequestEmits(hub: bool, s: RState, m: Message, ms: seq<Part>)
    requires WellFormed(m) && IsRequest(CStr(m[1])) && TargetNamed(m) && s.inp == Rest(m, 2, ms) && Clear(s.out)
    ensures Dispatch(hub, s, CStr(m[1])) ==
            s.(inp := Rest(m, ReadUpTo(hub, s.out.peers, m), ms),
               out := s.out.(sent := s.out.sent + Stream(Routed(hub, s.out.peers, m))))
  {
    if Routable(s.out.peers, m[2]) {
      DeliveryEmits(m, ms, s.inp, s.out);
    } else {
      NextPart(m, 2, ms, s.inp);
      NextPart(m, 3, ms, Rest(m, 3, ms));
      assert s.out.sent + Stream([]) == s.out.sent;
      var failed := s.(inp := Rest(m, 3, ms));
      assert RelaySndMore(s.inp, s.out, "") == Relayed(failed.inp, s.out, false, Unroutable, CStr(m[2]));
      UnroutableRequest(hub, failed, m, ms);
    }
  }

  lemma UnroutableRequest(hub: bool, s: RState, m: Message, ms: seq<Part>)
    requires WellFormed(m) && IsRequest(CStr(m[1])) && TargetNamed(m) && s.inp == Rest(m, 3, ms) && Clear(s.out)
    requires !Routable(s.out.peers, m[2])
    ensures AfterRelay(hub, s, false, Unroutable, CStr(m[2])) ==
            s.(inp := Rest(m, ReadUpTo(hub, s.out.peers, m), ms),
               out := s.out.(sent := s.out.sent + Stream(Routed(hub, s.out.peers, m))))
  {
    NextPart(m, 3, ms, s.inp);
    assert s.out.sent + Stream([]) == s.out.sent;
    if !hub {
      DrainReachesBoundary(m, 3, ms);
      AtEnd(m, ms);
    } else if Forwardable(hub, s.out.peers, m) {
      ForwardEmits(s, m, ms);
    } else if !Via(ReadTag(m[3])) {
      BlockedChain(s.out, LogMessage(ReadTag(m[3]), CStr(m[2])), 1);
      BlockedChain(s.out, ForwardHead(ReadTag(m[3]), CStr(m[2])), 1);
    }
  }

  /** With no failing send, one round on a well-formed message emits exactly
      the messages of Routed and Published and reads exactly ReadUpTo parts. */
  lemma RoundEmits(hub: bool, s: RState, m: Message, ms: seq<Part>)
    requires WellFormed(m) && TargetNamed(m) && s.inp == In(Frame(m) + ms, false)
    requires Clear(s.out) && Clear(s.pub) && s.pub.peers == None
    ensures Round(hub, s) ==
            (true, RState(Rest(m, ReadUpTo(hub, s.out.peers, m), ms),
                          s.out.(sent := s.out.sent + Stream(Routed(hub, s.out.peers, m))),
                          s.pub.(sent := s.pub.sent + Stream(Published(m)))))
  {
    ReadHead(s.inp, m, ms);
    var ty, s' := CStr(m[1]), s.(inp := Rest(m, 2, ms));
    assert s.out.sent + Stream([]) == s.out.sent && s.pub.sent + Stream([]) == s.pub.sent;
    if ty == MQ_RES_INTERHUB {
      ResInterhubEmits(s', m, ms);
    } else if ty == MQ_RES {
      DeliveryEmits(m, ms, s'.inp, s'.pub);
    } else if IsRequest(ty) {
      RequestEmits(hub, s', m, ms);
    } else {
      AtEnd(m, ms);
      if ty == MQ_LOG { NextPart(m, 2, ms, s'.inp); } else { DrainReachesBoundary(m, 2, ms); }
    }
  }

  /** Messages the router can handle whole with these peers. */
  predicate Handled(hub: bool, peers: Option<set<Bytes>>, m: Message)
  {
    WellFormed(m) && TargetNamed(m) && ReadUpTo(hub, peers, m) == |m|
  }

  function RoutedAll(hub: bool, peers: Option<set<Bytes>>, ms: seq<Message>): seq<Message>
    requires forall m :: m in ms ==> WellFormed(m)
  {
    if ms == [] then [] else Routed(hub, peers, ms[0]) + RoutedAll(hub, peers, ms[1..])
  }

  function PublishedAll(ms: seq<Message>): seq<Message>
    requires forall m :: m in ms ==> WellFormed(m)
  {
    if ms == [] then [] else Published(ms[0]) + PublishedAll(ms[1..])
  }

  lemma EmittedThen(sent: seq<Part>, a: seq<Message>, b: seq<Message>)
    ensures sent + Stream(a) + Stream(b) == sent + Stream(a + b)
  {
    StreamConcat(a, b);
    Assoc(sent, Stream(a), Stream(b));
  }

  /** The router after whole messages went out on both sockets. */
  function Emitted(s: RState, inp: In, routed: seq<Message>, published: seq<Message>): RState
  {
    RState(inp, s.out.(sent := s.out.sent + Stream(routed)), s.pub.(sent := s.pub.sent + Stream(published)))
  }

  predicate Ready(s: RState)
  {
    Clear(s.out) && Clear(s.pub) && s.pub.peers == None
  }

  lemma EmittedTwice(s: RState, i: In, j: In, a: seq<Message>, b: seq<Message>, c: seq<Message>, d: seq<Message>)
    ensures Emitted(Emitted(s, i, a, b), j, c, d) == Emitted(s, j, a + c, b + d)
  {
    EmittedThen(s.out.sent, a, c);
    EmittedThen(s.pub.sent, b, d);
  }

  lemma HandledRound(hub: bool, s: RState, m: Message, ms: seq<Part>)
    requires Ready(s) && Handled(hub, s.out.peers, m) && s.inp == In(Frame(m) + ms, false)
    ensures Round(hub, s) == (true, Emitted(s, In(ms, false), Routed(hub, s.out.peers, m), Published(m)))
    ensures Ready(Round(hub, s).1) && Round(hub, s).1.out.peers == s.out.peers
  {
    RoundEmits(hub, s, m, ms);
    AtEnd(m, ms);
    StaysClear(s.out, Round(hub, s).1.out, Routed(hub, s.out.peers, m));
    StaysClear(s.pub, Round(hub, s).1.pub, Published(m));
  }

  predicate AllHandled(hub: bool, peers: Option<set<Bytes>>, ms: seq<Message>)
  {
    forall m :: m in ms ==> Handled(hub, peers, m)
  }

  /** A callback that finds n handleable messages takes them all, and what
      leaves each socket is what the messages call for, in order. */
  lemma {:induction false} RoundsEmit(hub: bool, s: RState, ms: seq<Message>, rest: seq<Part>)
    requires s.inp == In(Stream(ms) + rest, false) && Ready(s) && AllHandled(hub, s.out.peers, ms)
    ensures Rounds(hub, s, |ms|) == Emitted(s, In(rest, false), RoutedAll(hub, s.out.peers, ms), PublishedAll(ms))
    decreases |ms|
  {
    if ms == [] {
      assert Stream([]) + rest == rest && s.out.sent + Stream([]) == s.out.sent && s.pub.sent + Stream([]) == s.pub.sent;
    } else {
      var m, more, s' := ms[0], Stream(ms[1..]) + rest, Round(hub, s).1;
      assert m in ms && forall n :: n in ms[1..] ==> n in ms;
      assert s.inp == In(Frame(m) + more, false) by { Assoc(Frame(m), Stream(ms[1..]), rest); }
      HandledRound(hub, s, m, more);
      RoundsEmit(hub, s', ms[1..], rest);
      EmittedTwice(s, In(more, false), In(rest, false), Routed(hub, s.out.peers, m), Published(m),
                   RoutedAll(hub, s.out.peers, ms[1..]), PublishedAll(ms[1..]));
    }
  }

  // ----- The loop guard -----------------------------------------------------

  /** A request that has been to the hub is never sent there again: whatever
      the sends return, a round on it puts nothing on the router socket but a
      run of its own parts from the target on. */
  lemma LoopGuard(hub: bool, s: RState, m: Message, ms: seq<Part>) returns (n: nat)
    requires WellFormed(m) && IsRequest(CStr(m[1])) && Via(ReadTag(m[3])) && s.inp == In(Frame(m) + ms, false)
    requires NoInjected(s.out)
    ensures 2 + n <= |m| && Round(hub, s).1.out.sent == s.out.sent + Frame(m)[2..2 + n]
    ensures Round(hub, s).1.pub == s.pub
  {
    ReadHead(s.inp, m, ms);
    var i := Rest(m, 2, ms);
    n := RelayIsExact(m, 2, ms, i, s.out, "");
    NextPart(m, 2, ms, i);
    UnroutableIsFirst(i, s.out, "");
    NextPart(m, 3, ms, Rest(m, 3, ms));
  }
}
