/** A request and its response through every hop, locally and through the hub. */
module EndToEnd {
  import opened Names
  import opened Wire
  import opened Sockets
  import opened Relay
  import opened RelayTheory
  import opened Router
  import opened RouterTheory
  import opened RouterEmission
  import opened Forest
  import opened Directory
  import opened HubThread
  import opened HubEmission
  import opened Client

  // ----- The transport ------------------------------------------------------

  /** The complete messages in a sequence of sent parts. */
  function Messages(ps: seq<Part>, open: Message): seq<Message>
    decreases ps
  {
    if ps == [] then []
    else if ps[0].more then Messages(ps[1..], open + [ps[0].data])
    else [open + [ps[0].data]] + Messages(ps[1..], [])
  }

  /** A ROUTER delivers to the peer named by the first part, which it strips. */
  function Toward(ms: seq<Message>, peer: Bytes): seq<Message>
  {
    if ms == [] then [] else (if ms[0] != [] && ms[0][0] == peer then [ms[0][1..]] else []) + Toward(ms[1..], peer)
  }

  /** A subscriber gets the messages whose first part starts with its subscription. */
  function Subscribed(ms: seq<Message>, topic: Bytes): seq<Message>
  {
    if ms == [] then [] else (if ms[0] != [] && topic <= ms[0][0] then [ms[0]] else []) + Subscribed(ms[1..], topic)
  }

  lemma {:induction false} MessagesOfFrame(m: Message, k: nat, rest: seq<Part>)
    requires k < |m|
    ensures Messages(Frame(m[k..]) + rest, m[..k]) == [m] + Messages(rest, [])
    decreases |m| - k
  {
    var ps := Frame(m[k..]) + rest;
    NextPart(m, k, rest, In(ps, true));
    assert m[..k] + [m[k]] == m[..k + 1];
    if k + 1 < |m| {
      MessagesOfFrame(m, k + 1, rest);
    } else {
      AtEnd(m, rest);
      assert m[..k + 1] == m;
    }
  }

  /** Framing loses nothing. */
  lemma {:induction false} MessagesOfStream(ms: seq<Message>)
    requires forall m :: m in ms ==> m != []
    ensures Messages(Stream(ms), []) == ms
    decreases ms
  {
    if ms != [] {
      assert ms[0][0..] == ms[0] && ms[0][..0] == [];
      assert ms[0] in ms && forall m :: m in ms[1..] ==> m in ms;
      MessagesOfFrame(ms[0], 0, Stream(ms[1..]));
      MessagesOfStream(ms[1..]);
    }
  }

  function Fresh(peers: Option<set<Bytes>>): Out
  {
    Out([], [], peers)
  }

  // ----- The hops, each as the program runs it ------------------------------

  /** What `mq_send_req` or `mq_send_res` puts on the push socket. */
  function ClientPushes(parts: Message): seq<Message>
  {
    Messages(SendChain(Fresh(None), Frame(parts), 1).0.sent, [])
  }

  /** `mq_relay_callback`, from pull to dealer and from dealer to push. */
  function SlotRelays(m: Message): seq<Message>
  {
    Messages(Batch(In(Frame(m), false), Fresh(None), ROUNDS).1.sent, [])
  }

  /** One round of `router_callback`; the router socket's output. */
  function RouterSends(hub: bool, peers: set<Bytes>, m: Message): seq<Message>
  {
    Messages(Round(hub, RState(In(Frame(m), false), Fresh(Some(peers)), Fresh(None))).1.out.sent, [])
  }

  function RouterPublishes(hub: bool, peers: set<Bytes>, m: Message): seq<Message>
  {
    Messages(Round(hub, RState(In(Frame(m), false), Fresh(Some(peers)), Fresh(None))).1.pub.sent, [])
  }

  /** One call of `interhub_callback` on the messages waiting for it. */
  function ThreadPublishes(brokers: seq<Node>, me: Bytes, ms: seq<Message>): seq<Message>
    requires FitsId(me)
  {
    Messages(UpRounds(brokers, me, Uplink(Zeros(TYPE_SIZE), In(Stream(ms), false), Fresh(None))).pub.sent, [])
  }

  /** A first round of `broker_sub_callback`. */
  function ThreadSends(brokers: seq<Node>, m: Message): seq<Message>
    requires m != []
  {
    Messages(DownRound(Downlink(Zeros(ACTION_SIZE), In(Frame(m), false), Fresh(None), brokers), 0, 0).dealer.sent, [])
  }

  /** `mq_relay_callback_sub_to_pub`. */
  function SlotPublishes(m: Message): seq<Message>
  {
    Messages(Strip(In(Frame(m), false), Fresh(None), ROUNDS).1.sent, [])
  }

  // ----- The hops, message by message ---------------------------------------

  lemma ClientPushesAll(parts: Message)
    requires parts != [] && forall b :: b in parts ==> b != []
    ensures ClientPushes(parts) == [parts]
  {
    forall k | 0 <= k < |parts| ensures |Frame(parts)[k].data| >= 1 { assert parts[k] in parts; }
    assert Flowing(Frame(parts), 1);
    ClearChain(Fresh(None), Frame(parts), 1);
    assert [] + Frame(parts) == Frame(parts);
    StreamOne(parts);
    MessagesOfStream([parts]);
  }

  lemma SlotRelaysAll(m: Message)
    requires 0 < |m| <= ROUNDS
    ensures SlotRelays(m) == [m]
  {
    BatchKeepsStream(In(Frame(m), false), Fresh(None), ROUNDS);
    var sent := Batch(In(Frame(m), false), Fresh(None), ROUNDS).1.sent;
    assert sent + [] == sent && [] + Frame(m) == Frame(m);
    StreamOne(m);
    MessagesOfStream([m]);
  }

  lemma RouterRounds(hub: bool, peers: set<Bytes>, m: Message)
    requires WellFormed(m) && TargetNamed(m)
    ensures RouterSends(hub, peers, m) == Routed(hub, Some(peers), m)
    ensures RouterPublishes(hub, peers, m) == Published(m)
  {
    var s := RState(In(Frame(m), false), Fresh(Some(peers)), Fresh(None));
    assert Frame(m) + [] == Frame(m);
    RoundEmits(hub, s, m, []);
    assert [] + Stream(Routed(hub, Some(peers), m)) == Stream(Routed(hub, Some(peers), m));
    assert [] + Stream(Published(m)) == Stream(Published(m));
    MessagesOfStream(Routed(hub, Some(peers), m));
    MessagesOfStream(Published(m));
  }

  lemma UpLast(brokers: seq<Node>, me: Bytes, s: Uplink)
    requires FitsId(me) && s.inp.queue != [] && UpRound(brokers, me, s).inp.queue == []
    ensures UpRounds(brokers, me, s) == UpRound(brokers, me, s)
  {
  }

  lemma ThreadTakesOne(brokers: seq<Node>, me: Bytes, buf: Bytes, m: Message)
    requires FitsId(me) && UpWellFormed(m) && CStr(Fill(buf, m[0])) == m[0]
    requires m[0] == MQ_REQ ==> FindSvc(brokers, me, m[1]).Some?
    ensures Messages(UpRounds(brokers, me, Uplink(buf, In(Frame(m), false), Fresh(None))).pub.sent, []) == Upward(brokers, me, m)
  {
    var s := Uplink(buf, In(Frame(m), false), Fresh(None));
    assert Frame(m) + [] == Frame(m);
    UpEmits(brokers, me, s, m, []);
    AtEnd(m, []);
    UpLast(brokers, me, s);
    assert [] + Stream(Upward(brokers, me, m)) == Stream(Upward(brokers, me, m));
    MessagesOfStream(Upward(brokers, me, m));
  }

  lemma ThreadTakesOnly(brokers: seq<Node>, me: Bytes, m: Message)
    requires FitsId(me) && UpWellFormed(m) && (m[0] == MQ_REQ ==> FindSvc(brokers, me, m[1]).Some?)
    ensures ThreadPublishes(brokers, me, [m]) == Upward(brokers, me, m)
  {
    StreamOne(m);
    ReadsUpType(m);
    ThreadTakesOne(brokers, me, Zeros(TYPE_SIZE), m);
  }

  lemma ReadsUpType(m: Message)
    requires UpWellFormed(m)
    ensures CStr(Fill(Zeros(TYPE_SIZE), m[0])) == m[0]
  {
    assert |m[0]| < TYPE_SIZE && NulFree(m[0]);
    ReusedBuffer(Zeros(TYPE_SIZE), m[0]);
  }

  /** The notice ahead of a forwarded request is printed and leaves only its type in the buffer. */
  lemma ThreadSkipsLog(brokers: seq<Node>, me: Bytes, log: Message, m: Message)
    requires FitsId(me) && UpWellFormed(log) && log[0] == MQ_LOG && m != []
    ensures UpRounds(brokers, me, Uplink(Zeros(TYPE_SIZE), In(Stream([log, m]), false), Fresh(None)))
         == UpRounds(brokers, me, Uplink(BufferAfter(TYPE_SIZE, [MQ_LOG]), In(Frame(m), false), Fresh(None)))
  {
    var s := Uplink(Zeros(TYPE_SIZE), In(Stream([log, m]), false), Fresh(None));
    assert [log, m][1..] == [m];
    StreamOne(m);
    ReadAsReceived(TYPE_SIZE, [], MQ_LOG);
    UpEmits(brokers, me, s, log, Frame(m));
    AtEnd(log, Frame(m));
    RefillOne(Zeros(TYPE_SIZE), MQ_LOG);
    assert UpRound(brokers, me, s) == Uplink(BufferAfter(TYPE_SIZE, [MQ_LOG]), In(Frame(m), false), Fresh(None));
  }

  lemma LogLeavesRoom()
    ensures CStr(Fill(BufferAfter(TYPE_SIZE, [MQ_LOG]), MQ_REQ)) == MQ_REQ
  {
    ReadAsReceived(TYPE_SIZE, [MQ_LOG], MQ_REQ);
  }

  lemma ThreadTakesRequest(brokers: seq<Node>, me: Bytes, log: Message, m: Message)
    requires FitsId(me) && UpWellFormed(log) && log[0] == MQ_LOG && UpWellFormed(m) && m[0] == MQ_REQ
    requires FindSvc(brokers, me, m[1]).Some?
    ensures ThreadPublishes(brokers, me, [log, m]) == Upward(brokers, me, m)
  {
    ThreadSkipsLog(brokers, me, log, m);
    LogLeavesRoom();
    ThreadTakesOne(brokers, me, BufferAfter(TYPE_SIZE, [MQ_LOG]), m);
  }

  lemma ReadsTopicRight(topic: Bytes)
    requires NulFree(topic) && |topic| < ACTION_SIZE
    ensures CStr(Fill(Zeros(ACTION_SIZE), topic)) == topic
  {
    ReusedBuffer(Zeros(ACTION_SIZE), topic);
  }

  lemma ThreadPassesDown(brokers: seq<Node>, m: Message)
    requires DownWellFormed(m) && NulFree(m[0]) && |m[0]| < ACTION_SIZE && m[0] != MQ_REG
    ensures ThreadSends(brokers, m) == Downward(m)
  {
    var s := Downlink(Zeros(ACTION_SIZE), In(Frame(m), false), Fresh(None), brokers);
    assert Frame(m) + [] == Frame(m);
    ReadsTopicRight(m[0]);
    DownEmits(s, m, [], 0, 0);
    assert [] + Stream(Downward(m)) == Stream(Downward(m));
    MessagesOfStream(Downward(m));
  }

  lemma SlotStrips(m: Message)
    requires |m| >= 2
    ensures SlotPublishes(m) == [m[1..]]
  {
    var i := In(Frame(m), false);
    StreamOne(m);
    var k, j := StripIsExact([m], i, Fresh(None), ROUNDS);
    assert k == 1 && [m][0] == m && j == |m| - 1;
    var sent := Strip(i, Fresh(None), ROUNDS).1.sent;
    assert [m][..0] == [] && Tails([]) == [] && Stream([]) == [];
    assert sent == Frame(m[1..]);
    StreamOne(m[1..]);
    MessagesOfStream([m[1..]]);
  }

  // ----- Whole paths --------------------------------------------------------

  function Only(ms: seq<Message>): Message
  {
    if |ms| == 1 then ms[0] else []
  }

  /** A client's message as its slot's dealer hands it to the router. */
  function FromClient(parts: Message): Message
  {
    Only(SlotRelays(Only(ClientPushes(parts))))
  }

  /** A delivered request as the target's clients can pull it. */
  function Pulled(ms: seq<Message>): seq<Message>
  {
    if ms == [] then [] else SlotRelays(Only(ms))
  }

  /** A response published by the router, as a process of the slot subscribed
      to svc gets it: the slot's filter, the slot's relay, the process's filter. */
  function Delivered(ms: seq<Message>, svc: Bytes, proc: Bytes): seq<Message>
  {
    var taken := Subscribed(ms, svc);
    if taken == [] then [] else Subscribed(SlotPublishes(Only(taken)), proc)
  }

  /** Service s asks target t through the broker both are connected to. */
  function LocalRequest(hub: bool, peers: set<Bytes>, s: Bytes, t: Bytes, tag: Bytes, body: Bytes): seq<Message>
  {
    Pulled(Toward(RouterSends(hub, peers, [s] + FromClient(RequestParts(t, tag, body))), t))
  }

  /** The target answers; a process subscribed to proc at a slot subscribed to svc listens. */
  function LocalResponse(hub: bool, peers: set<Bytes>, t: Bytes, tag: Bytes, body: Bytes, svc: Bytes, proc: Bytes): seq<Message>
    requires |tag| == TAG_SIZE
  {
    Delivered(RouterPublishes(hub, peers, [t] + FromClient(ResponseParts(tag, body))), svc, proc)
  }

  /** Broker, hub thread and index at one end of the hub. */
  datatype Site = Site(peers: set<Bytes>, id: Bytes, brokers: seq<Node>)

  /** A message handed to the router at one site, as far as the hub thread of the other: router, own thread, topic. */
  function Across(from: Site, to: Site, m: Message): seq<Message>
    requires FitsId(from.id)
  {
    Subscribed(ThreadPublishes(from.brokers, from.id, Toward(RouterSends(true, from.peers, m), INTERHUB_NAME)), to.id)
  }

  /** And on to the router of that other site. */
  function Down(to: Site, across: seq<Message>): Message
  {
    [INTERHUB_NAME] + if Only(across) == [] then [] else Only(ThreadSends(to.brokers, Only(across)))
  }

  /** The target is at the other broker. */
  function HubRequest(here: Site, there: Site, s: Bytes, t: Bytes, tag: Bytes, body: Bytes): seq<Message>
    requires FitsId(here.id)
  {
    var arrived := Down(there, Across(here, there, [s] + FromClient(RequestParts(t, tag, body))));
    Pulled(Toward(RouterSends(true, there.peers, arrived), t))
  }

  function HubResponse(here: Site, there: Site, t: Bytes, tag: Bytes, body: Bytes, svc: Bytes, proc: Bytes): seq<Message>
    requires |tag| == TAG_SIZE && FitsId(there.id)
  {
    var arrived := Down(here, Across(there, here, [t] + FromClient(ResponseParts(tag, body))));
    Delivered(RouterPublishes(true, here.peers, arrived), svc, proc)
  }

  // ----- Conditions of the round trip ---------------------------------------

  predicate Named(b: Bytes)
  {
    b != [] && IsName(b)
  }

  /** Service s, process p, target t; an empty body would not count as sent. */
  predicate Parties(s: Bytes, p: Bytes, t: Bytes, body: Bytes)
  {
    && Named(s) && |s| < NAME_AT - SVC_AT && Named(p) && |p| < TAG_SIZE - NAME_AT && Named(t) && t != INTERHUB_NAME && body != []
  }

  /** The tag `crt_res_tag` prepares. */
  function OwnTag(s: Bytes, p: Bytes): Tag
  {
    Tag(false, "", s, p)
  }

  lemma FromClientAll(parts: Message)
    requires 0 < |parts| <= ROUNDS && forall b :: b in parts ==> b != []
    ensures FromClient(parts) == parts
  {
    ClientPushesAll(parts);
    SlotRelaysAll(parts);
  }

  lemma PlainKeywords()
    ensures NulFree(MQ_REQ) && NulFree(MQ_RES)
  {
  }

  lemma HubKeyword()
    ensures NulFree(MQ_RES_INTERHUB)
  {
  }

  lemma KeywordsReadBack()
    ensures CStr(MQ_REQ) == MQ_REQ && CStr(MQ_RES) == MQ_RES && CStr(MQ_RES_INTERHUB) == MQ_RES_INTERHUB
  {
    PlainKeywords();
    HubKeyword();
    CStrOfName(MQ_REQ);
    CStrOfName(MQ_RES);
    CStrOfName(MQ_RES_INTERHUB);
  }

  lemma DeliveredOnce(m: Message, svc: Bytes, proc: Bytes)
    requires |m| >= 2
    ensures Delivered([m], svc, proc) == if svc <= m[0] && proc <= m[1] then [m[1..]] else []
  {
    SlotStrips(m);
    assert [m][1..] == [] && Subscribed([], svc) == [];
    assert Subscribed([m], svc) == if svc <= m[0] then [m] else [];
    assert [m[1..]][1..] == [] && Subscribed([], proc) == [];
    assert Subscribed([m[1..]], proc) == if proc <= m[1] then [m[1..]] else [];
  }

  // ----- The local path -----------------------------------------------------

  /** The request arrives as (tag, body), and the answer reaches exactly the
      processes whose slot subscribes to a prefix of s and who subscribe to a
      prefix of p. */
  lemma LocalRoundTrip(hub: bool, peers: set<Bytes>, s: Bytes, p: Bytes, t: Bytes, body: Bytes, svc: Bytes, proc: Bytes)
    requires Parties(s, p, t, body) && t in peers
    ensures var tag := EncodeTag(OwnTag(s, p));
            && LocalRequest(hub, peers, s, t, tag, body) == [[tag, body]]
            && LocalResponse(hub, peers, t, tag, body, svc, proc) == if svc <= s && proc <= p then [[p, body]] else []
  {
    LocalRequestArrives(hub, peers, s, p, t, body);
    LocalResponseArrives(hub, peers, s, p, t, body, svc, proc);
  }

  lemma TowardOne(m: Message, peer: Bytes)
    requires m != []
    ensures Toward([m], peer) == if m[0] == peer then [m[1..]] else []
  {
  }

  /** A request for a connected service leaves the router towards it, under whatever identity it came. */
  lemma RouterDelivers(hub: bool, peers: set<Bytes>, from: Bytes, t: Bytes, tag: Bytes, body: Bytes)
    requires Named(t) && t in peers
    ensures Toward(RouterSends(hub, peers, [from, MQ_REQ, t, tag, body]), t) == [[tag, body]]
  {
    var m := [from, MQ_REQ, t, tag, body];
    RoutedDelivery(hub, peers, m);
    RouterRounds(hub, peers, m);
    assert m[2..] == [t, tag, body];
    TowardOne(m[2..], t);
  }

  lemma RoutedDelivery(hub: bool, peers: set<Bytes>, m: Message)
    requires |m| == 5 && m[1] == MQ_REQ && Named(m[2]) && m[2] in peers
    ensures WellFormed(m) && TargetNamed(m) && Routed(hub, Some(peers), m) == [m[2..]]
  {
    RequestIsRequest();
  }

  lemma PublishedResponse(m: Message)
    requires |m| == 5 && m[1] == MQ_RES
    ensures WellFormed(m) && TargetNamed(m) && Published(m) == [m[2..]]
  {
  }

  lemma RouterPublishesResponse(hub: bool, peers: set<Bytes>, from: Bytes, s: Bytes, name: Bytes, body: Bytes)
    ensures RouterPublishes(hub, peers, [from, MQ_RES, s, name, body]) == [[s, name, body]]
  {
    var m := [from, MQ_RES, s, name, body];
    PublishedResponse(m);
    RouterRounds(hub, peers, m);
    assert m[2..] == [s, name, body];
  }

  lemma LocalRequestArrives(hub: bool, peers: set<Bytes>, s: Bytes, p: Bytes, t: Bytes, body: Bytes)
    requires Parties(s, p, t, body) && t in peers
    ensures var tag := EncodeTag(OwnTag(s, p)); LocalRequest(hub, peers, s, t, tag, body) == [[tag, body]]
  {
    var tag := EncodeTag(OwnTag(s, p));
    FromClientAll(RequestParts(t, tag, body));
    assert [s] + RequestParts(t, tag, body) == [s, MQ_REQ, t, tag, body];
    RouterDelivers(hub, peers, s, t, tag, body);
    SlotRelaysAll([tag, body]);
  }

  lemma LocalResponseLeaves(s: Bytes, p: Bytes, t: Bytes, body: Bytes)
    requires Parties(s, p, t, body)
    ensures [t] + FromClient(ResponseParts(EncodeTag(OwnTag(s, p)), body)) == [t, MQ_RES, s, p, body]
  {
    TagRoundTrip(OwnTag(s, p));
    FromClientAll([MQ_RES, s, p, body]);
  }

  lemma LocalResponseArrives(hub: bool, peers: set<Bytes>, s: Bytes, p: Bytes, t: Bytes, body: Bytes, svc: Bytes, proc: Bytes)
    requires Parties(s, p, t, body)
    ensures LocalResponse(hub, peers, t, EncodeTag(OwnTag(s, p)), body, svc, proc) == if svc <= s && proc <= p then [[p, body]] else []
  {
    LocalResponseLeaves(s, p, t, body);
    RouterPublishesResponse(hub, peers, t, s, p, body);
    DeliveredOnce([s, p, body], svc, proc);
    assert [s, p, body][1..] == [p, body];
  }

  /** What the two receiving calls make of the delivered messages. */
  lemma ClientsRead(tag: Bytes, name: Bytes, body: Bytes)
    requires |tag| == TAG_SIZE && name != [] && body != []
    ensures RecvReq(In(Frame([tag, body]), false)).1 == Some((tag, body))
    ensures RecvRes(In(Frame([name, body]), false)).1 == Some(body)
  {
    assert Fill(Zeros(TAG_SIZE), tag) == tag;
  }

  // ----- The path through the hub -------------------------------------------

  /** The two brokers know each other through the hub: the target is only at
      the far one, both routers see their hub thread, each index finds the
      other, and the thread ids are told apart by their subscriptions. */
  predicate Linked(here: Site, there: Site, t: Bytes)
  {
    && t !in here.peers && INTERHUB_NAME in here.peers && t in there.peers && INTERHUB_NAME in there.peers
    && FindSvc(here.brokers, here.id, t) == Some(there.id)
    && FitsId(here.id) && FitsId(there.id) && here.id != [] && there.id != []
    && here.id != MQ_REG && there.id != MQ_REG
  }

  /** The tag as the far side gets it: through the hub, from the broker `id`. */
  function HubTag(s: Bytes, p: Bytes, id: Bytes): Bytes
    requires FitsId(id) && FitsTag(OwnTag(s, p))
  {
    SetBroker(SetVia(EncodeTag(OwnTag(s, p))), id)
  }

  lemma HubTagReads(s: Bytes, p: Bytes, id: Bytes)
    requires FitsId(id) && FitsTag(OwnTag(s, p))
    ensures DecodeTag(HubTag(s, p, id)) == Tag(true, id, s, p)
  {
    var tag := EncodeTag(OwnTag(s, p));
    TagRoundTrip(OwnTag(s, p));
    StampsDecode(tag, id);
    StampsDecode(SetVia(tag), id);
  }

  lemma ReadTagOfTag(tag: Bytes)
    requires |tag| == TAG_SIZE
    ensures ReadTag(tag) == tag
  {
  }

  lemma TowardTwo(a: Message, b: Message, peer: Bytes)
    requires a != [] && b != [] && a[0] == b[0] == peer
    ensures Toward([a, b], peer) == [a[1..], b[1..]]
  {
    assert [a, b][1..] == [b];
    TowardOne(b, peer);
    assert [a[1..]] + [b[1..]] == [a[1..], b[1..]];
  }

  lemma Prepend(a: Bytes, b: Bytes, c: Bytes, d: Bytes, e: Bytes)
    ensures [a] + [b, c, d, e] == [a, b, c, d, e] && [a, b, c, d] + [e] == [a, b, c, d, e]
    ensures [a, b, c, d, e][4..] == [e]
  {
  }

  lemma ForwardedRequest(m: Message)
    requires |m| == 5 && Named(m[2]) && |m[3]| == TAG_SIZE
    ensures ToHub(m) == [INTERHUB_NAME, MQ_REQ, m[2], SetVia(m[3]), m[4]]
  {
    ReadTagOfTag(m[3]);
    CStrOfName(m[2]);
    assert m[4..] == [m[4]];
    Prepend(INTERHUB_NAME, MQ_REQ, m[2], SetVia(m[3]), m[4]);
  }

  lemma RoutedRequest(peers: set<Bytes>, m: Message)
    requires |m| == 5 && m[1] == MQ_REQ && Named(m[2]) && m[2] !in peers && INTERHUB_NAME in peers && |m[3]| == TAG_SIZE && !Via(m[3])
    ensures WellFormed(m) && TargetNamed(m) && Routed(true, Some(peers), m) == [Log(m), ToHub(m)]
  {
    RequestIsRequest();
    ReadTagOfTag(m[3]);
    RoutedUp(peers, m);
  }

  lemma RoutedUp(peers: set<Bytes>, m: Message)
    requires WellFormed(m) && |m| >= 4 && IsRequest(CStr(m[1])) && CStr(m[1]) != MQ_RES_INTERHUB && Forwardable(true, Some(peers), m)
    ensures Routed(true, Some(peers), m) == [Log(m), ToHub(m)]
  {
  }

  lemma RequestIsRequest()
    ensures CStr(MQ_REQ) == MQ_REQ && MQ_REQ != MQ_LOG && MQ_REQ != MQ_RES && MQ_REQ != MQ_RES_INTERHUB
  {
  }

  lemma RoutedToHub(peers: set<Bytes>, m: Message)
    requires |m| == 5 && m[1] == MQ_REQ && Named(m[2]) && m[2] !in peers && INTERHUB_NAME in peers && |m[3]| == TAG_SIZE && !Via(m[3])
    ensures RouterSends(true, peers, m) == [Log(m), ToHub(m)]
  {
    RoutedRequest(peers, m);
    RouterRounds(true, peers, m);
  }

  /** An unroutable request goes up to the hub behind its notice. */
  lemma RouterForwards(peers: set<Bytes>, s: Bytes, t: Bytes, tag: Bytes, body: Bytes) returns (log: Message)
    requires Named(t) && t !in peers && INTERHUB_NAME in peers && |tag| == TAG_SIZE && !Via(tag)
    ensures UpWellFormed(log) && log[0] == MQ_LOG
    ensures Toward(RouterSends(true, peers, [s, MQ_REQ, t, tag, body]), INTERHUB_NAME) == [log, [MQ_REQ, t, SetVia(tag), body]]
  {
    var m := [s, MQ_REQ, t, tag, body];
    RoutedToHub(peers, m);
    ForwardedRequest(m);
    log := Log(m)[1..];
    assert ToHub(m)[1..] == [MQ_REQ, t, SetVia(tag), body];
    TowardTwo(Log(m), ToHub(m), INTERHUB_NAME);
  }

  lemma SubscribedOne(m: Message, topic: Bytes)
    requires m != []
    ensures Subscribed([m], topic) == if topic <= m[0] then [m] else []
  {
  }

  /** The hub thread looks the target up, stamps its broker and publishes to the other's id. */
  lemma ThreadForwards(brokers: seq<Node>, me: Bytes, id: Bytes, log: Message, t: Bytes, tag: Bytes, body: Bytes)
    requires FitsId(me) && Named(t) && |tag| == TAG_SIZE && FindSvc(brokers, me, t) == Some(id) && id != []
    requires UpWellFormed(log) && log[0] == MQ_LOG
    ensures Subscribed(ThreadPublishes(brokers, me, [log, [MQ_REQ, t, tag, body]]), id)
         == [[id, MQ_REQ_INTERHUB, t, SetBroker(tag, me), body]]
  {
    var m := [MQ_REQ, t, tag, body];
    ThreadTakesRequest(brokers, me, log, m);
    ReadTagOfTag(tag);
    assert m[3..] == [body];
    var out := [id, MQ_REQ_INTERHUB, t, SetBroker(tag, me), body];
    assert [id, MQ_REQ_INTERHUB, t, SetBroker(tag, me)] + [body] == out;
    assert Upward(brokers, me, m) == [out];
    SubscribedOne(out, id);
  }

  /** The other thread hands it down as a plain request. */
  lemma ThreadHandsDown(brokers: seq<Node>, id: Bytes, ty: Bytes, name: Bytes, tag: Bytes, body: Bytes)
    requires FitsId(id) && id != MQ_REG && ty in [MQ_REQ_INTERHUB, MQ_RES_INTERHUB] && IsName(name)
    ensures ThreadSends(brokers, [id, ty, name, tag, body]) == [[if ty == MQ_REQ_INTERHUB then MQ_REQ else MQ_RES, name, ReadTag(tag), body]]
  {
    var m := [id, ty, name, tag, body];
    ThreadPassesDown(brokers, m);
    var plain := if ty == MQ_REQ_INTERHUB then MQ_REQ else MQ_RES;
    assert m[4..] == [body] && [plain, name, ReadTag(tag)] + [body] == [plain, name, ReadTag(tag), body];
  }

  lemma RequestCrosses(here: Site, there: Site, s: Bytes, t: Bytes, tag: Bytes, body: Bytes)
    requires Named(t) && Linked(here, there, t) && |tag| == TAG_SIZE && !Via(tag)
    ensures var tag' := SetBroker(SetVia(tag), here.id);
            Down(there, Across(here, there, [s, MQ_REQ, t, tag, body])) == [INTERHUB_NAME, MQ_REQ, t, tag', body]
  {
    var tag' := SetBroker(SetVia(tag), here.id);
    var log := RouterForwards(here.peers, s, t, tag, body);
    ThreadForwards(here.brokers, here.id, there.id, log, t, SetVia(tag), body);
    ThreadHandsDown(there.brokers, there.id, MQ_REQ_INTERHUB, t, tag', body);
    ReadTagOfTag(tag');
    Prepend(INTERHUB_NAME, MQ_REQ, t, tag', body);
  }

  lemma HubRequestArrives(here: Site, there: Site, s: Bytes, p: Bytes, t: Bytes, body: Bytes)
    requires Parties(s, p, t, body) && Linked(here, there, t)
    ensures HubRequest(here, there, s, t, EncodeTag(OwnTag(s, p)), body) == [[HubTag(s, p, here.id), body]]
  {
    var tag, tag' := EncodeTag(OwnTag(s, p)), HubTag(s, p, here.id);
    FromClientAll(RequestParts(t, tag, body));
    assert [s] + RequestParts(t, tag, body) == [s, MQ_REQ, t, tag, body];
    RequestCrosses(here, there, s, t, tag, body);
    RouterDelivers(true, there.peers, INTERHUB_NAME, t, tag', body);
    SlotRelaysAll([tag', body]);
  }

  // ----- The way back -------------------------------------------------------

  lemma ResponseIsNoRequest()
    ensures !IsRequest(MQ_RES_INTERHUB) && MQ_RES_INTERHUB != MQ_LOG && MQ_RES_INTERHUB != MQ_RES
  {
  }

  lemma RoutedResponse(peers: set<Bytes>, m: Message)
    requires INTERHUB_NAME in peers && |m| == 6 && m[1] == MQ_RES_INTERHUB
    ensures WellFormed(m) && TargetNamed(m) && Routed(true, Some(peers), m) == [[INTERHUB_NAME, MQ_RES_INTERHUB] + m[2..]]
  {
    ResponseIsNoRequest();
    KeywordsReadBack();
  }

  lemma ResponseSlices(a: Bytes, t: Bytes, ty: Bytes, id: Bytes, s: Bytes, p: Bytes, body: Bytes)
    ensures [a, ty] + [t, ty, id, s, p, body][2..] == [a, ty, id, s, p, body]
    ensures [a, ty, id, s, p, body][1..] == [ty, id, s, p, body]
  {
  }

  /** A response for the hub leaves the far router towards its hub thread. */
  lemma RouterSendsResponse(peers: set<Bytes>, m: Message, out: Message)
    requires INTERHUB_NAME in peers && |m| == 6 && m[1] == MQ_RES_INTERHUB && out == [INTERHUB_NAME, MQ_RES_INTERHUB] + m[2..]
    ensures Toward(RouterSends(true, peers, m), INTERHUB_NAME) == [out[1..]]
  {
    RoutedResponse(peers, m);
    RouterRounds(true, peers, m);
    TowardOne(out, INTERHUB_NAME);
  }

  lemma UpwardResponse(brokers: seq<Node>, me: Bytes, id: Bytes, s: Bytes, p: Bytes, body: Bytes)
    requires FitsId(me) && FitsId(id)
    ensures var m := [MQ_RES_INTERHUB, id, s, p, body];
            UpWellFormed(m) && Upward(brokers, me, m) == [[id, MQ_RES_INTERHUB, s, p, body]]
  {
    var m := [MQ_RES_INTERHUB, id, s, p, body];
    assert [id, MQ_RES_INTERHUB] + m[2..] == [id, MQ_RES_INTERHUB, s, p, body];
  }

  lemma ThreadReturns(brokers: seq<Node>, me: Bytes, id: Bytes, s: Bytes, p: Bytes, body: Bytes)
    requires FitsId(me) && FitsId(id) && id != []
    ensures Subscribed(ThreadPublishes(brokers, me, [[MQ_RES_INTERHUB, id, s, p, body]]), id) == [[id, MQ_RES_INTERHUB, s, p, body]]
  {
    var m := [MQ_RES_INTERHUB, id, s, p, body];
    UpwardResponse(brokers, me, id, s, p, body);
    ThreadTakesOnly(brokers, me, m);
    SubscribedOne([id, MQ_RES_INTERHUB, s, p, body], id);
  }

  lemma ResponseCrosses(here: Site, there: Site, t: Bytes, s: Bytes, p: Bytes, padded: Bytes, body: Bytes)
    requires Linked(here, there, t) && IsName(s) && padded == ReadTag(p)
    ensures Down(here, Across(there, here, [t, MQ_RES_INTERHUB, here.id, s, p, body])) == [INTERHUB_NAME, MQ_RES, s, padded, body]
  {
    ResponseSlices(INTERHUB_NAME, t, MQ_RES_INTERHUB, here.id, s, p, body);
    RouterSendsResponse(there.peers, [t, MQ_RES_INTERHUB, here.id, s, p, body], [INTERHUB_NAME, MQ_RES_INTERHUB, here.id, s, p, body]);
    ThreadReturns(there.brokers, there.id, here.id, s, p, body);
    var across := [here.id, MQ_RES_INTERHUB, s, p, body];
    assert Across(there, here, [t, MQ_RES_INTERHUB, here.id, s, p, body]) == [across];
    ResponseGoesDown(here, s, p, padded, body);
  }

  lemma ResponseGoesDown(here: Site, s: Bytes, p: Bytes, padded: Bytes, body: Bytes)
    requires FitsId(here.id) && here.id != MQ_REG && IsName(s) && padded == ReadTag(p)
    ensures Down(here, [[here.id, MQ_RES_INTERHUB, s, p, body]]) == [INTERHUB_NAME, MQ_RES, s, padded, body]
  {
    ThreadHandsDown(here.brokers, here.id, MQ_RES_INTERHUB, s, p, body);
    Prepend(INTERHUB_NAME, MQ_RES, s, padded, body);
  }

  /** The padding the hub adds to the process name does not change who subscribes to it. */
  lemma PaddedName(proc: Bytes, p: Bytes)
    requires NulFree(proc) && |p| <= TAG_SIZE
    ensures ReadTag(p) == p + Zeros(TAG_SIZE - |p|)
    ensures proc <= ReadTag(p) <==> proc <= p
  {
    var b := ReadTag(p);
    assert b == p + Zeros(TAG_SIZE - |p|);
    if proc <= b {
      assert |p| < TAG_SIZE ==> b[|p|] == NUL;
      assert forall k :: 0 <= k < |proc| ==> b[k] == proc[k] != NUL;
      assert |proc| <= |p| && proc == b[..|proc|] == p[..|proc|];
    }
    if proc <= p { assert proc == p[..|proc|] == b[..|proc|]; }
  }

  lemma ResponseEnds(here: Site, s: Bytes, padded: Bytes, body: Bytes, svc: Bytes, proc: Bytes)
    ensures Delivered(RouterPublishes(true, here.peers, [INTERHUB_NAME, MQ_RES, s, padded, body]), svc, proc)
         == if svc <= s && proc <= padded then [[padded, body]] else []
  {
    RouterPublishesResponse(true, here.peers, INTERHUB_NAME, s, padded, body);
    DeliveredOnce([s, padded, body], svc, proc);
    assert [s, padded, body][1..] == [padded, body];
  }

  lemma HubResponseArrives(here: Site, there: Site, s: Bytes, p: Bytes, t: Bytes, tag: Bytes, body: Bytes, svc: Bytes, proc: Bytes)
    requires Parties(s, p, t, body) && Linked(here, there, t) && |tag| == TAG_SIZE && DecodeTag(tag) == Tag(true, here.id, s, p)
    ensures HubResponse(here, there, t, tag, body, svc, proc)
         == if svc <= s && proc <= ReadTag(p) then [[ReadTag(p), body]] else []
  {
    ResponseLeaves(tag, here.id, s, p, body);
    Prepended(t, MQ_RES_INTERHUB, here.id, s, p, body);
    ResponseCrosses(here, there, t, s, p, ReadTag(p), body);
    ResponseEnds(here, s, ReadTag(p), body, svc, proc);
  }

  lemma Prepended(t: Bytes, ty: Bytes, id: Bytes, s: Bytes, p: Bytes, body: Bytes)
    ensures [t] + [ty, id, s, p, body] == [t, ty, id, s, p, body]
  {
  }

  lemma ResponseLeaves(tag: Bytes, id: Bytes, s: Bytes, p: Bytes, body: Bytes)
    requires |tag| == TAG_SIZE && DecodeTag(tag) == Tag(true, id, s, p) && id != [] && s != [] && p != [] && body != []
    ensures ResponseParts(tag, body) == [MQ_RES_INTERHUB, id, s, p, body] && FromClient(ResponseParts(tag, body)) == ResponseParts(tag, body)
  {
    FromClientAll([MQ_RES_INTERHUB, id, s, p, body]);
  }

  lemma HubResponseReturns(here: Site, there: Site, s: Bytes, p: Bytes, t: Bytes, body: Bytes, svc: Bytes, proc: Bytes)
    requires Parties(s, p, t, body) && Linked(here, there, t) && NulFree(proc)
    ensures HubResponse(here, there, t, HubTag(s, p, here.id), body, svc, proc)
         == if svc <= s && proc <= p then [[p + Zeros(TAG_SIZE - |p|), body]] else []
  {
    HubTagReads(s, p, here.id);
    HubResponseArrives(here, there, s, p, t, HubTag(s, p, here.id), body, svc, proc);
    PaddedName(proc, p);
  }

  /** Through the hub the request arrives with the tag marked and stamped with
      the asking broker, and the answer built from that tag comes back to the
      same processes as on the local path, behind a zero-padded name. */
  lemma HubRoundTrip(here: Site, there: Site, s: Bytes, p: Bytes, t: Bytes, body: Bytes, svc: Bytes, proc: Bytes)
    requires Parties(s, p, t, body) && Linked(here, there, t) && NulFree(proc)
    ensures var tag, tag' := EncodeTag(OwnTag(s, p)), HubTag(s, p, here.id);
            && HubRequest(here, there, s, t, tag, body) == [[tag', body]]
            && DecodeTag(tag') == DecodeTag(tag).(via := true, broker := here.id)
            && HubResponse(here, there, t, tag', body, svc, proc)
               == if svc <= s && proc <= p then [[p + Zeros(TAG_SIZE - |p|), body]] else []
  {
    TagRoundTrip(OwnTag(s, p));
    HubTagReads(s, p, here.id);
    HubRequestArrives(here, there, s, p, t, body);
    HubResponseReturns(here, there, s, p, t, body, svc, proc);
  }

  /** What the asking process reads at the end of a path. */
  function Answer(ms: seq<Message>): Option<Bytes>
  {
    RecvRes(In(Frame(Only(ms)), false)).1
  }

  /** With prefix-free names the answer reaches the asking process and no other
      one, and both paths give it the body it sent. */
  lemma PathsAgree(hub: bool, peers: set<Bytes>, here: Site, there: Site, s: Bytes, p: Bytes, t: Bytes, t': Bytes, body: Bytes,
                   svc: Bytes, proc: Bytes)
    requires Parties(s, p, t, body) && t in peers
    requires Parties(s, p, t', body) && Linked(here, there, t') && NulFree(proc)
    requires (svc <= s ==> svc == s) && (proc <= p ==> proc == p)
    ensures var local := LocalResponse(hub, peers, t, EncodeTag(OwnTag(s, p)), body, svc, proc);
            var remote := HubResponse(here, there, t', HubTag(s, p, here.id), body, svc, proc);
            if (svc, proc) == (s, p) then Answer(local) == Answer(remote) == Some(body) else local == remote == []
  {
    LocalRoundTrip(hub, peers, s, p, t, body, svc, proc);
    HubRoundTrip(here, there, s, p, t', body, svc, proc);
    ClientsRead(EncodeTag(OwnTag(s, p)), p, body);
    ClientsRead(EncodeTag(OwnTag(s, p)), p + Zeros(TAG_SIZE - |p|), body);
  }
}
