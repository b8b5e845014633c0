/** What a hub thread passes on, message by message, and when it reads a type right. */
module HubEmission {
  import opened Names
  import opened Wire
  import opened Sockets
  import opened Relay
  import opened RelayTheory
  import opened Router
  import opened RouterTheory
  import opened RouterEmission
  import opened Forest
  import opened Directory
  import opened HubThread

  // ----- The reused type buffer ---------------------------------------------

  /** The buffer after parts were received into it one after the other. */
  function Refill(buf: Bytes, read: seq<Bytes>): (r: Bytes)
    ensures |r| == |buf|
  {
    if read == [] then buf else Fill(Refill(buf, read[..|read| - 1]), read[|read| - 1])
  }

  /** The buffer of a call that has read these parts into it. */
  function BufferAfter(size: nat, read: seq<Bytes>): (buf: Bytes)
    ensures |buf| == size
  {
    Refill(Zeros(size), read)
  }

  lemma {:induction false} RefillAppend(buf: Bytes, a: seq<Bytes>, b: seq<Bytes>)
    ensures Refill(Refill(buf, a), b) == Refill(buf, a + b)
    decreases |b|
  {
    if b == [] {
      assert a + b == a;
    } else {
      assert (a + b)[..|a + b| - 1] == a + b[..|b| - 1];
      RefillAppend(buf, a, b[..|b| - 1]);
    }
  }

  lemma RefillOne(buf: Bytes, a: Bytes)
    ensures Refill(buf, [a]) == Fill(buf, a)
  {
    assert [a][..0] == [];
  }

  lemma RefillFirst(buf: Bytes, a: Bytes, b: seq<Bytes>)
    ensures Refill(Fill(buf, a), b) == Refill(buf, [a] + b)
  {
    RefillOne(buf, a);
    RefillAppend(buf, [a], b);
  }

  /** What stands at position k: what the last part that reaches it left there. */
  function LeftAt(c: char, read: seq<Bytes>, k: nat): char
  {
    if read == [] then c
    else if |read[|read| - 1]| > k then read[|read| - 1][k]
    else LeftAt(c, read[..|read| - 1], k)
  }

  lemma {:induction false} RefillLeaves(buf: Bytes, read: seq<Bytes>, k: nat)
    requires k < |buf|
    ensures Refill(buf, read)[k] == LeftAt(buf[k], read, k)
    decreases |read|
  {
    if read != [] { RefillLeaves(buf, read[..|read| - 1], k); }
  }

  lemma {:induction false} LeftByNames(read: seq<Bytes>, k: nat)
    requires forall r :: r in read ==> NulFree(r)
    ensures LeftAt(NUL, read, k) == NUL <==> forall r :: r in read ==> |r| <= k
    decreases |read|
  {
    if read != [] {
      var last, before := read[|read| - 1], read[..|read| - 1];
      assert read == before + [last];
      assert last in read && forall r :: r in read <==> r in before || r == last;
      LeftByNames(before, k);
      assert |last| > k ==> last[k] in last;
    }
  }

  /** The buffer is zeroed once per callback and never terminated: a string is
      dispatched as received exactly when the last longer part read before it in
      the same call left a NUL at its end; for parts without NUL bytes, when
      nothing longer was read. */
  lemma ReadAsReceived(size: nat, read: seq<Bytes>, data: Bytes)
    requires NulFree(data) && |data| < size
    ensures CStr(Fill(BufferAfter(size, read), data)) == data <==> LeftAt(NUL, read, |data|) == NUL
    ensures (forall r :: r in read ==> NulFree(r)) ==>
              (CStr(Fill(BufferAfter(size, read), data)) == data <==> forall r :: r in read ==> |r| <= |data|)
  {
    RefillLeaves(Zeros(size), read, |data|);
    ReusedBuffer(BufferAfter(size, read), data);
    if forall r :: r in read ==> NulFree(r) { LeftByNames(read, |data|); }
  }

  /** So a request read after a response from the hub is taken for an unknown
      type: "svc_req" over "svc_res_interhub" leaves "svc_req_interhub". */
  lemma RequestAfterResponse()
    ensures CStr(Fill(BufferAfter(TYPE_SIZE, [MQ_RES_INTERHUB]), MQ_REQ)) == MQ_REQ_INTERHUB
  {
    RefillOne(Zeros(TYPE_SIZE), MQ_RES_INTERHUB);
    var buf := Fill(Zeros(TYPE_SIZE), MQ_RES_INTERHUB);
    assert BufferAfter(TYPE_SIZE, [MQ_RES_INTERHUB]) == buf;
    assert Fill(buf, MQ_REQ) == MQ_REQ_INTERHUB + Zeros(TYPE_SIZE)[16..];
    CStrOf(MQ_REQ_INTERHUB, Zeros(TYPE_SIZE)[16..]);
  }

  // ----- Upwards ------------------------------------------------------------

  predicate IsName(b: Bytes)
  {
    NulFree(b) && |b| < NAME_SIZE
  }

  lemma ReadsName(b: Bytes)
    requires IsName(b)
    ensures ReadName(b) == b
  {
    ReusedBuffer(Zeros(NAME_SIZE), b);
  }

  /** A message from a broker's router, without its identity. */
  predicate UpWellFormed(m: Message)
  {
    && |m| >= 2
    && (m[0] == MQ_REQ ==> |m| >= 4 && IsName(m[1]))
    && (m[0] == MQ_RES_INTERHUB ==> |m| >= 3 && IsName(m[1]))
    && (m[0] == MQ_LOG ==> |m| == 2)
    && m[0] in [MQ_REQ, MQ_RES_INTERHUB, MQ_LOG]
  }

  /** What the thread of broker `me` publishes for it, topic first. */
  function Upward(brokers: seq<Node>, me: Bytes, m: Message): seq<Message>
    requires UpWellFormed(m) && FitsId(me)
  {
    if m[0] == MQ_REQ then
      var id := FindSvc(brokers, me, m[1]);
      if id.Some? then [[id.value, MQ_REQ_INTERHUB, m[1], SetBroker(ReadTag(m[2]), me)] + m[3..]] else []
    else if m[0] == MQ_RES_INTERHUB then [[m[1], MQ_RES_INTERHUB] + m[2..]]
    else []
  }

  lemma HeadThenRest(o: Out, head: seq<Part>, hs: Message, m: Message, k: nat, ms: seq<Part>)
    requires Clear(o) && o.peers == None && k < |m| && head != []
    requires |head| == |hs| && forall j :: 0 <= j < |hs| ==> head[j] == Part(hs[j], true)
    ensures var (o', ok) := SendChain(o, head, 0);
            ok && RelaySndMore(Rest(m, k, ms), o', "") ==
                  Relayed(Rest(m, |m|, ms), o.(sent := o.sent + Stream([hs + m[k..]])), true, Sent, "")
  {
    assert Flowing(head, 0);
    ClearChain(o, head, 0);
    var o' := o.(sent := o.sent + head);
    ClearRelay(m, k, ms, Rest(m, k, ms), o', "");
    FrameSuffix(m, k);
    FrameConcat(hs, m[k..]);
    StreamOne(hs + m[k..]);
    assert head == seq(|hs|, j requires 0 <= j < |hs| => Part(hs[j], true));
    Assoc(o.sent, head, Frame(m)[k..]);
  }

  lemma RequestUp(brokers: seq<Node>, me: Bytes, s: Uplink, m: Message, ms: seq<Part>)
    requires FitsId(me) && UpWellFormed(m) && m[0] == MQ_REQ && s.inp == Rest(m, 1, ms)
    requires Clear(s.pub) && s.pub.peers == None
    ensures FindSvcAndRelay(brokers, me, s) ==
            s.(inp := Rest(m, if FindSvc(brokers, me, m[1]).Some? then |m| else 2, ms),
               pub := s.pub.(sent := s.pub.sent + Stream(Upward(brokers, me, m))))
  {
    NextPart(m, 1, ms, s.inp);
    ReadsName(m[1]);
    var id := FindSvc(brokers, me, m[1]);
    NextPart(m, 2, ms, Rest(m, 2, ms));
    if id.Some? {
      var tag := SetBroker(ReadTag(m[2]), me);
      HeadThenRest(s.pub, RequestHead(id.value, m[1], tag), [id.value, MQ_REQ_INTERHUB, m[1], tag], m, 3, ms);
    } else {
      assert s.pub.sent + Stream([]) == s.pub.sent;
    }
  }

  lemma ResponseUp(s: Uplink, m: Message, ms: seq<Part>)
    requires |m| >= 3 && IsName(m[1]) && s.inp == Rest(m, 1, ms)
    requires Clear(s.pub) && s.pub.peers == None
    ensures FindBrokerAndRelay(s) ==
            s.(inp := Rest(m, |m|, ms), pub := s.pub.(sent := s.pub.sent + Stream([[m[1], MQ_RES_INTERHUB] + m[2..]])))
  {
    NextPart(m, 1, ms, s.inp);
    ReadsName(m[1]);
    HeadThenRest(s.pub, ResponseHead(m[1]), [m[1], MQ_RES_INTERHUB], m, 2, ms);
  }

  lemma UpHead(i: In, m: Message, ms: seq<Part>)
    requires m != [] && i == In(Frame(m) + ms, false)
    ensures i.queue != [] && i.queue[0].data == m[0] && Next(i) == Rest(m, 1, ms)
  {
  }

  lemma LogUp(brokers: seq<Node>, me: Bytes, s: Uplink, m: Message, ms: seq<Part>)
    requires FitsId(me) && UpWellFormed(m) && m[0] == MQ_LOG && CStr(s.buf) == MQ_LOG && s.inp == Rest(m, 1, ms)
    ensures UpDispatch(brokers, me, s) == s.(inp := Rest(m, |m|, ms), pub := s.pub.(sent := s.pub.sent + Stream(Upward(brokers, me, m))))
  {
  }

  /** One round of `interhub_callback` on a message whose type is read right. */
  lemma UpEmits(brokers: seq<Node>, me: Bytes, s: Uplink, m: Message, ms: seq<Part>)
    requires FitsId(me) && UpWellFormed(m) && s.inp == In(Frame(m) + ms, false) && CStr(Fill(s.buf, m[0])) == m[0]
    requires Clear(s.pub) && s.pub.peers == None
    ensures var found := m[0] == MQ_REQ ==> FindSvc(brokers, me, m[1]).Some?;
            UpRound(brokers, me, s) ==
            Uplink(Fill(s.buf, m[0]), Rest(m, if found then |m| else 2, ms),
                   s.pub.(sent := s.pub.sent + Stream(Upward(brokers, me, m))))
  {
    UpHead(s.inp, m, ms);
    var s' := s.(buf := Fill(s.buf, m[0]), inp := Rest(m, 1, ms));
    if m[0] == MQ_REQ {
      RequestUp(brokers, me, s', m, ms);
    } else if m[0] == MQ_RES_INTERHUB {
      ResponseUp(s', m, ms);
    } else {
      LogUp(brokers, me, s', m, ms);
    }
  }

  const UP_TYPES: seq<Bytes> := [MQ_REQ, MQ_RES_INTERHUB, MQ_LOG]

  /** A part that is not taken for a type, whatever the buffer holds. */
  predicate NoType(b: Bytes)
  {
    if NulFree(b) then forall ty :: ty in UP_TYPES ==> !(b <= ty) else CStr(b) !in UP_TYPES
  }

  lemma {:induction false} CStrGoesOn(b: Bytes, rest: Bytes)
    ensures CStr(b + rest) == if NulFree(b) then b + CStr(rest) else CStr(b)
    decreases b
  {
    if b == [] {
      assert b + rest == rest;
    } else {
      assert (b + rest)[1..] == b[1..] + rest;
      CStrGoesOn(b[1..], rest);
    }
  }

  /** What is read of a part: all of it and then what was there, or up to its own NUL. */
  lemma ReadOver(buf: Bytes, b: Bytes)
    ensures NulFree(b) && |b| <= |buf| ==> CStr(Fill(buf, b)) == b + CStr(buf[|b|..])
    ensures NulFree(b) && |b| > |buf| ==> |CStr(Fill(buf, b))| == |buf|
    ensures !NulFree(b) ==> CStr(Fill(buf, b)) == CStr(b) || |CStr(Fill(buf, b))| == |buf|
  {
    if |b| <= |buf| {
      CStrGoesOn(b, buf[|b|..]);
    } else {
      CStrGoesOn(b[..|buf|], []);
      CStrGoesOn(b[..|buf|], b[|buf|..]);
      assert b[..|buf|] + [] == b[..|buf|] && b == b[..|buf|] + b[|buf|..];
    }
  }

  lemma TypeSizes()
    ensures |MQ_REQ| == |MQ_LOG| == 7 && |MQ_RES_INTERHUB| == 16
    ensures NulFree(MQ_REQ) && NulFree(MQ_LOG) && NulFree(MQ_RES_INTERHUB)
  {
  }

  lemma NotDispatched(buf: Bytes, b: Bytes)
    requires NoType(b) && |buf| == TYPE_SIZE
    ensures CStr(Fill(buf, b)) !in UP_TYPES
  {
    TypeSizes();
    ReadOver(buf, b);
    if NulFree(b) && |b| <= |buf| { assert b <= CStr(Fill(buf, b)); }
  }

  /** The rest of a message the thread gave up on is skipped part by part; the
      next message is found where it starts, nothing is published, and the
      buffer holds what those parts left in it. */
  lemma {:induction false} UpSkipsLeftover(brokers: seq<Node>, me: Bytes, s: Uplink, m: Message, k: nat, ms: seq<Part>)
    requires FitsId(me) && k <= |m| && s.inp == Rest(m, k, ms) && |s.buf| == TYPE_SIZE
    requires forall j :: k <= j < |m| ==> NoType(m[j])
    ensures UpRounds(brokers, me, s) == UpRounds(brokers, me, Uplink(Refill(s.buf, m[k..]), In(ms, false), s.pub))
    decreases |m| - k
  {
    if k == |m| {
      AtEnd(m, ms);
    } else {
      NextPart(m, k, ms, s.inp);
      NotDispatched(s.buf, m[k]);
      assert m[k..] == [m[k]] + m[k + 1..];
      RefillFirst(s.buf, m[k], m[k + 1..]);
      UpSkipsLeftover(brokers, me, Uplink(Fill(s.buf, m[k]), Rest(m, k + 1, ms), s.pub), m, k + 1, ms);
    }
  }

  // ----- Downwards ----------------------------------------------------------

  /** A published message: topic, hub type, name, tag or process name, body. */
  predicate DownWellFormed(m: Message)
  {
    |m| >= 5 && m[1] in [MQ_REQ_INTERHUB, MQ_RES_INTERHUB] && IsName(m[2])
  }

  /** What the thread sends to its broker's router for it. */
  function Downward(m: Message): seq<Message>
    requires DownWellFormed(m)
  {
    [[if m[1] == MQ_REQ_INTERHUB then MQ_REQ else MQ_RES, m[2], ReadTag(m[3])] + m[4..]]
  }

  lemma RelayedDown(s: Downlink, ty: Bytes, m: Message, ms: seq<Part>)
    requires DownWellFormed(m) && s.inp == Rest(m, 2, ms) && Clear(s.dealer) && s.dealer.peers == None
    ensures RelayToBroker(s, ty) ==
            s.(inp := Rest(m, |m|, ms), dealer := s.dealer.(sent := s.dealer.sent + Stream([[ty, m[2], ReadTag(m[3])] + m[4..]])))
  {
    NextPart(m, 2, ms, s.inp);
    NextPart(m, 3, ms, Rest(m, 3, ms));
    ReadsName(m[2]);
    HeadThenRest(s.dealer, DownHead(ty, m[2], ReadTag(m[3])), [ty, m[2], ReadTag(m[3])], m, 4, ms);
  }

  lemma ReadsType(ty: Bytes)
    requires ty in [MQ_REQ_INTERHUB, MQ_RES_INTERHUB]
    ensures CStr(Fill(Zeros(TYPE_SIZE), ty)) == ty
  {
    assert |ty| == 16;
    ReusedBuffer(Zeros(TYPE_SIZE), ty);
  }

  /** One round of `broker_sub_callback` on a message that is not taken for a registration. */
  lemma DownEmits(s: Downlink, m: Message, ms: seq<Part>, tBroker: int, tSvc: int)
    requires DownWellFormed(m) && s.inp == In(Frame(m) + ms, false) && CStr(Fill(s.buf, m[0])) != MQ_REG
    requires Clear(s.dealer) && s.dealer.peers == None
    ensures DownRound(s, tBroker, tSvc) ==
            Downlink(Fill(s.buf, m[0]), Rest(m, |m|, ms), s.dealer.(sent := s.dealer.sent + Stream(Downward(m))), s.brokers)
  {
    ReadHead(s.inp, m, ms);
    ReadsType(m[1]);
    RelayedDown(s.(buf := Fill(s.buf, m[0]), inp := Rest(m, 2, ms)), if m[1] == MQ_REQ_INTERHUB then MQ_REQ else MQ_RES, m, ms);
  }

  /** A registration that is read right enters the index under its broker's id. */
  lemma DownRegisters(s: Downlink, regi: Bytes, ms: seq<Part>, tBroker: int, tSvc: int)
    requires |regi| == REGI_SIZE && s.inp == In(Frame([MQ_REG, regi]) + ms, false) && CStr(Fill(s.buf, MQ_REG)) == MQ_REG
    ensures var s' := DownRound(s, tBroker, tSvc);
            && s'.inp == In(ms, false) && s'.dealer == s.dealer
            && s'.brokers == ChkSmallTree(s.brokers, RegiBrokerId(regi), RegiSvc(regi), tBroker, tSvc)
  {
    ReadHead(s.inp, [MQ_REG, regi], ms);
    AtEnd([MQ_REG, regi], ms);
    assert Fill(Zeros(REGI_SIZE), regi) == regi;
  }

  // ----- What a registration carries ----------------------------------------

  /** The bytes of a `mq_regi_t` with this broker host, broker name and tag; each
      string fits its field with its terminator. */
  predicate Carries(b: Bytes, host: Bytes, name: Bytes, t: Tag)
  {
    && |b| == REGI_SIZE && FitsTag(t)
    && NulFree(host) && |host| < 24 && b[..|host| + 1] == host + [NUL]
    && NulFree(name) && |name| < 48 && b[24..24 + |name| + 1] == name + [NUL]
    && b[96..217] == EncodeTag(t)
  }

  lemma FieldReads(b: Bytes, at: nat, end: nat, s: Bytes)
    requires at + |s| < end <= |b| && NulFree(s) && b[at..at + |s| + 1] == s + [NUL]
    ensures CStr(b[at..end]) == s
  {
    assert b[at..end] == b[at..at + |s| + 1] + b[at + |s| + 1..end];
    assert b[at..end] == s + ([NUL] + b[at + |s| + 1..end]);
    CStrOf(s, [NUL] + b[at + |s| + 1..end]);
  }

  lemma TagService(b: Bytes, t: Tag)
    requires |b| == REGI_SIZE && FitsTag(t) && b[96..217] == EncodeTag(t)
    ensures RegiSvc(b) == t.svc
  {
    TagRoundTrip(t);
    SubSlice(b, 96, 217, SVC_AT, NAME_AT);
  }

  lemma SubSlice(b: Bytes, at: nat, end: nat, from: nat, to: nat)
    requires at + to <= end <= |b| && from <= to
    ensures b[at..end][from..to] == b[at + from..at + to]
  {
    var whole, part := b[at..end], b[at + from..at + to];
    forall k | 0 <= k < to - from ensures whole[from..to][k] == part[k] {}
  }

  /** What a thread makes of it: the id the broker's own thread has, and the tag's service. */
  lemma RegiRoundTrip(b: Bytes, host: Bytes, name: Bytes, t: Tag)
    requires Carries(b, host, name, t)
    ensures RegiBrokerId(b) == host + "_" + name && RegiSvc(b) == t.svc
  {
    FieldReads(b, 0, 24, host);
    FieldReads(b, 24, 72, name);
    assert b[0..24] == b[..24] && b[0..|host| + 1] == b[..|host| + 1];
    TagService(b, t);
  }
}
