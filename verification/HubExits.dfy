/** What a hub thread passes on when sends fail, for every script of send results. */
module HubExits {
  import opened Names
  import opened Wire
  import opened Sockets
  import opened RelayTheory
  import opened RouterTheory
  import opened RouterExits
  import opened Forest
  import opened Directory
  import opened HubThread
  import opened HubEmission

  // ----- Upwards ------------------------------------------------------------

  /** What precedes the rest of a message on its way up: topic, type, and for a
      request target and stamped tag; the rest starts at part UpRest. */
  function UpHeadOf(brokers: seq<Node>, me: Bytes, m: Message): Message
    requires UpWellFormed(m) && FitsId(me)
  {
    if m[0] == MQ_REQ then
      var id := FindSvc(brokers, me, m[1]);
      if id.Some? then [id.value, MQ_REQ_INTERHUB, m[1], SetBroker(ReadTag(m[2]), me)] else []
    else [m[1], MQ_RES_INTERHUB]
  }

  function UpRest(m: Message): nat
    requires UpWellFormed(m)
  {
    if m[0] == MQ_REQ then 3 else 2
  }

  lemma UpSplits(brokers: seq<Node>, me: Bytes, m: Message)
    requires UpWellFormed(m) && FitsId(me) && m[0] != MQ_LOG && (m[0] == MQ_REQ ==> FindSvc(brokers, me, m[1]).Some?)
    ensures UpRest(m) < |m| && UpHeadOf(brokers, me, m) != []
    ensures Upward(brokers, me, m) == [UpHeadOf(brokers, me, m) + m[UpRest(m)..]]
  {
  }

  lemma RequestRuns(brokers: seq<Node>, me: Bytes, s: Uplink, m: Message, ms: seq<Part>)
    requires FitsId(me) && UpWellFormed(m) && m[0] == MQ_REQ && FindSvc(brokers, me, m[1]).Some? && s.inp == Rest(m, 1, ms)
    ensures var (i, o) := HeadAndRest(Rest(m, 3, ms), s.pub, UpHeadOf(brokers, me, m), 0);
            FindSvcAndRelay(brokers, me, s) == s.(inp := i, pub := o)
  {
    NextPart(m, 1, ms, s.inp);
    ReadsName(m[1]);
    TagRuns(FindSvc(brokers, me, m[1]).value, me, s.(inp := Rest(m, 2, ms)), m, ms);
  }

  lemma TagRuns(id: Bytes, me: Bytes, s: Uplink, m: Message, ms: seq<Part>)
    requires FitsId(me) && |m| >= 4 && s.inp == Rest(m, 2, ms)
    ensures var (i, o) := HeadAndRest(Rest(m, 3, ms), s.pub, [id, MQ_REQ_INTERHUB, m[1], SetBroker(ReadTag(m[2]), me)], 0);
            TagAndRelay(id, m[1], me, s) == s.(inp := i, pub := o)
  {
    NextPart(m, 2, ms, s.inp);
    var tag := SetBroker(ReadTag(m[2]), me);
    assert HeadOf([id, MQ_REQ_INTERHUB, m[1], tag]) == RequestHead(id, m[1], tag);
  }

  lemma ResponseRuns(brokers: seq<Node>, me: Bytes, s: Uplink, m: Message, ms: seq<Part>)
    requires FitsId(me) && UpWellFormed(m) && m[0] == MQ_RES_INTERHUB && s.inp == Rest(m, 1, ms)
    ensures m[0] != MQ_REQ
    ensures var (i, o) := HeadAndRest(Rest(m, 2, ms), s.pub, UpHeadOf(brokers, me, m), 0);
            FindBrokerAndRelay(s) == s.(inp := i, pub := o)
  {
    NextPart(m, 1, ms, s.inp);
    ReadsName(m[1]);
    assert HeadOf([m[1], MQ_RES_INTERHUB]) == ResponseHead(m[1]);
  }

  lemma UpRuns(brokers: seq<Node>, me: Bytes, s: Uplink, m: Message, ms: seq<Part>)
    requires FitsId(me) && UpWellFormed(m) && m[0] != MQ_LOG && (m[0] == MQ_REQ ==> FindSvc(brokers, me, m[1]).Some?)
    requires s.inp == In(Frame(m) + ms, false) && CStr(Fill(s.buf, m[0])) == m[0]
    ensures UpRest(m) < |m|
    ensures var (i, o) := HeadAndRest(Rest(m, UpRest(m), ms), s.pub, UpHeadOf(brokers, me, m), 0);
            UpRound(brokers, me, s) == Uplink(Fill(s.buf, m[0]), i, o)
  {
    UpHead(s.inp, m, ms);
    var s' := s.(buf := Fill(s.buf, m[0]), inp := Rest(m, 1, ms));
    if m[0] == MQ_REQ { RequestRuns(brokers, me, s', m, ms); } else { ResponseRuns(brokers, me, s', m, ms); }
  }

  /** One round of `interhub_callback` on an offered request or a response whose
      type is read right, whatever the sends return: what is published is the
      message to be published, up to some part. */
  lemma UpUnderFailures(brokers: seq<Node>, me: Bytes, s: Uplink, m: Message, ms: seq<Part>) returns (n: nat)
    requires FitsId(me) && UpWellFormed(m) && m[0] != MQ_LOG && (m[0] == MQ_REQ ==> FindSvc(brokers, me, m[1]).Some?)
    requires s.inp == In(Frame(m) + ms, false) && CStr(Fill(s.buf, m[0])) == m[0]
    requires NoInjected(s.pub) && s.pub.peers == None
    ensures var s' := UpRound(brokers, me, s);
            && s'.buf == Fill(s.buf, m[0]) && UpRest(m) < |m|
            && CutAfter(n, s.pub, UpHeadOf(brokers, me, m), m, UpRest(m), ms, (s'.inp, s'.pub))
            && |Upward(brokers, me, m)| == 1 && s'.pub.sent == s.pub.sent + Frame(Upward(brokers, me, m)[0])[..n]
  {
    UpSplits(brokers, me, m);
    UpRuns(brokers, me, s, m, ms);
    HeadAndRestIsExact(s.pub, UpHeadOf(brokers, me, m), 0, m, UpRest(m), ms);
    var s' := UpRound(brokers, me, s);
    n :| CutAfter(n, s.pub, UpHeadOf(brokers, me, m), m, UpRest(m), ms, (s'.inp, s'.pub));
  }

  // ----- Downwards ----------------------------------------------------------

  function DownHeadOf(m: Message): Message
    requires DownWellFormed(m)
  {
    [if m[1] == MQ_REQ_INTERHUB then MQ_REQ else MQ_RES, m[2], ReadTag(m[3])]
  }

  lemma DownRuns(s: Downlink, m: Message, ms: seq<Part>, tBroker: int, tSvc: int)
    requires DownWellFormed(m) && s.inp == In(Frame(m) + ms, false) && CStr(Fill(s.buf, m[0])) != MQ_REG
    ensures var (i, o) := HeadAndRest(Rest(m, 4, ms), s.dealer, DownHeadOf(m), 0);
            DownRound(s, tBroker, tSvc) == Downlink(Fill(s.buf, m[0]), i, o, s.brokers)
  {
    ReadHead(s.inp, m, ms);
    ReadsType(m[1]);
    NextPart(m, 2, ms, Rest(m, 2, ms));
    NextPart(m, 3, ms, Rest(m, 3, ms));
    ReadsName(m[2]);
    var ty := if m[1] == MQ_REQ_INTERHUB then MQ_REQ else MQ_RES;
    assert HeadOf(DownHeadOf(m)) == DownHead(ty, m[2], ReadTag(m[3]));
    DownRelays(s.(buf := Fill(s.buf, m[0]), inp := Rest(m, 2, ms)), ty, m, ms);
  }

  lemma DownRelays(s: Downlink, ty: Bytes, m: Message, ms: seq<Part>)
    requires DownWellFormed(m) && s.inp == Rest(m, 2, ms) && HeadOf([ty, m[2], ReadTag(m[3])]) == DownHead(ty, m[2], ReadTag(m[3]))
    ensures var (i, o) := HeadAndRest(Rest(m, 4, ms), s.dealer, [ty, m[2], ReadTag(m[3])], 0);
            RelayToBroker(s, ty) == s.(inp := i, dealer := o)
  {
    NextPart(m, 2, ms, s.inp);
    NextPart(m, 3, ms, Rest(m, 3, ms));
    ReadsName(m[2]);
  }

  /** One round of `broker_sub_callback` on a message for the broker, whatever the
      sends return: what goes down is that message, up to some part. */
  lemma DownUnderFailures(s: Downlink, m: Message, ms: seq<Part>, tBroker: int, tSvc: int) returns (n: nat)
    requires DownWellFormed(m) && s.inp == In(Frame(m) + ms, false) && CStr(Fill(s.buf, m[0])) != MQ_REG
    requires NoInjected(s.dealer) && s.dealer.peers == None
    ensures var s' := DownRound(s, tBroker, tSvc);
            && s'.buf == Fill(s.buf, m[0]) && s'.brokers == s.brokers
            && CutAfter(n, s.dealer, DownHeadOf(m), m, 4, ms, (s'.inp, s'.dealer))
            && s'.dealer.sent == s.dealer.sent + Frame(Downward(m)[0])[..n]
  {
    DownRuns(s, m, ms, tBroker, tSvc);
    HeadAndRestIsExact(s.dealer, DownHeadOf(m), 0, m, 4, ms);
    var s' := DownRound(s, tBroker, tSvc);
    n :| CutAfter(n, s.dealer, DownHeadOf(m), m, 4, ms, (s'.inp, s'.dealer));
  }
}
