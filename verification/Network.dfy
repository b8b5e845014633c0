/** A network of brokers and hub threads: routing ends, and nothing goes round. */
module Network {
  import opened Names
  import opened Wire
  import opened RouterTheory
  import opened RouterEmission
  import opened Forest
  import opened Directory
  import opened DirectoryTheory
  import opened HubThread
  import opened HubEmission

  /** Where a message is about to be handled: broker b's router, its hub
      thread's dealer, or that thread's subscriber. */
  datatype Place = Router | HubDealer | HubSub

  /** A message on its way; the last two fields are bookkeeping: how often it
      has crossed the hub, and from which broker it did. */
  datatype Packet = Packet(place: Place, b: nat, m: Message, crossings: nat, origin: nat)

  /** What the handling party finds at that moment: the identities connected to
      the router, whether the broker has a hub, the thread's index. */
  datatype Env = Env(peers: set<Bytes>, hub: bool, brokers: seq<Node>)

  /** The thread ids, by broker. */
  type Ids = seq<Bytes>

  ghost predicate PrefixFree(ids: Ids)
  {
    && (forall c :: 0 <= c < |ids| ==> FitsId(ids[c]))
    && forall c, d :: 0 <= c < |ids| && 0 <= d < |ids| && ids[c] <= ids[d] ==> c == d
  }

  // ----- One step -----------------------------------------------------------

  /** Messages leaving a router for its hub thread; all others are delivered. */
  function Uplinked(ms: seq<Message>, b: nat, crossings: nat): seq<Packet>
  {
    if ms == [] then []
    else (if ms[0] != [] && ms[0][0] == INTERHUB_NAME then [Packet(HubDealer, b, ms[0][1..], crossings, b)] else [])
         + Uplinked(ms[1..], b, crossings)
  }

  /** The threads whose subscription matches a published message, from thread c on. */
  function Matching(ids: Ids, m: Message, c: nat, crossings: nat, from: nat): seq<Packet>
    requires m != [] && c <= |ids|
    decreases |ids| - c
  {
    if c == |ids| then []
    else (if ids[c] <= m[0] then [Packet(HubSub, c, m, crossings, from)] else []) + Matching(ids, m, c + 1, crossings, from)
  }

  function Broadcast(ids: Ids, ms: seq<Message>, crossings: nat, from: nat): seq<Packet>
  {
    if ms == [] then []
    else (if ms[0] == [] then [] else Matching(ids, ms[0], 0, crossings, from)) + Broadcast(ids, ms[1..], crossings, from)
  }

  /** Handling one packet, with the outputs RouterEmission.RoundEmits,
      HubEmission.UpEmits and HubEmission.DownEmits derive from the programs'
      rounds; ill-formed messages are dropped. */
  function Handle(ids: Ids, p: Packet, env: Env): seq<Packet>
    requires p.b < |ids| && FitsId(ids[p.b])
  {
    match p.place
    case Router =>
      if WellFormed(p.m) then Uplinked(Routed(env.hub, Some(env.peers), p.m), p.b, p.crossings) else []
    case HubDealer =>
      if UpWellFormed(p.m) then Broadcast(ids, Upward(env.brokers, ids[p.b], p.m), p.crossings + 1, p.b) else []
    case HubSub =>
      if DownWellFormed(p.m) then [Packet(Router, p.b, [INTERHUB_NAME] + Downward(p.m)[0], p.crossings, p.origin)] else []
  }

  // ----- What holds of every packet -----------------------------------------

  /** At a router: a request is addressed to a service, and one that crossed the
      hub is marked; a response that crossed is an ordinary one. */
  predicate RouterFact(p: Packet)
    requires WellFormed(p.m)
  {
    var ty := CStr(p.m[1]);
    && p.crossings <= 1
    && (IsRequest(ty) ==> p.m[2] != INTERHUB_NAME && CStr(p.m[2]) == p.m[2])
    && (IsRequest(ty) && p.crossings == 1 ==> Via(ReadTag(p.m[3])))
    && (ty == MQ_RES_INTERHUB ==> p.crossings == 0)
  }

  /** At a hub thread: requests are marked, nothing has crossed yet. */
  predicate HubFact(p: Packet)
    requires UpWellFormed(p.m)
  {
    p.crossings == 0 && (p.m[0] == MQ_REQ ==> Via(ReadTag(p.m[2])) && p.m[1] != INTERHUB_NAME)
  }

  /** At a subscriber: crossed once; a request is marked and stamped with the
      broker it came from. */
  predicate SubFact(ids: Ids, p: Packet)
    requires DownWellFormed(p.m)
  {
    && p.crossings == 1 && p.origin < |ids|
    && (p.m[1] == MQ_REQ_INTERHUB ==>
          && |p.m[3]| == TAG_SIZE && Via(p.m[3]) && DecodeTag(p.m[3]).broker == ids[p.origin]
          && p.m[2] != INTERHUB_NAME)
  }

  predicate Sound(ids: Ids, p: Packet)
  {
    && p.b < |ids| && p.crossings <= 1
    && match p.place
       case Router => WellFormed(p.m) ==> RouterFact(p)
       case HubDealer => UpWellFormed(p.m) ==> HubFact(p)
       case HubSub => DownWellFormed(p.m) ==> SubFact(ids, p)
  }

  /** An upper bound on the work left in a packet. */
  function Rank(p: Packet): nat
  {
    match p.place
    case Router =>
      if WellFormed(p.m) && IsRequest(CStr(p.m[1])) && !Via(ReadTag(p.m[3])) then 5
      else if WellFormed(p.m) && CStr(p.m[1]) == MQ_RES_INTERHUB then 4 else 1
    case HubDealer => if UpWellFormed(p.m) && p.m[0] != MQ_LOG then 3 else 1
    case HubSub => 2
  }

  function Work(ps: seq<Packet>): nat
  {
    if ps == [] then 0 else Rank(ps[0]) + Work(ps[1..])
  }

  predicate AllSound(ids: Ids, ps: seq<Packet>)
  {
    forall p :: p in ps ==> Sound(ids, p)
  }

  lemma {:induction false} WorkConcat(a: seq<Packet>, b: seq<Packet>)
    ensures Work(a + b) == Work(a) + Work(b)
    decreases a
  {
    if a == [] { assert a + b == b; } else { assert (a + b)[1..] == a[1..] + b; WorkConcat(a[1..], b); }
  }

  // ----- Routers ------------------------------------------------------------

  lemma UplinkedOne(m: Message, b: nat, crossings: nat)
    requires m != []
    ensures Uplinked([m], b, crossings) == if m[0] == INTERHUB_NAME then [Packet(HubDealer, b, m[1..], crossings, b)] else []
  {
  }

  lemma ForwardStep(ids: Ids, p: Packet, env: Env)
    requires p.place == Router && Sound(ids, p) && WellFormed(p.m) && IsRequest(CStr(p.m[1]))
    requires !Routable(Some(env.peers), p.m[2]) && Forwardable(env.hub, Some(env.peers), p.m)
    ensures var out := Uplinked([Log(p.m), ToHub(p.m)], p.b, p.crossings); AllSound(ids, out) && Work(out) < Rank(p)
  {
    var log, req := Log(p.m), ToHub(p.m);
    assert [log, req][1..] == [req];
    UplinkedOne(req, p.b, p.crossings);
    var a, b := Packet(HubDealer, p.b, log[1..], p.crossings, p.b), Packet(HubDealer, p.b, req[1..], p.crossings, p.b);
    assert Uplinked([log, req], p.b, p.crossings) == [a, b];
    assert b.m[0] == MQ_REQ && b.m[1] == CStr(p.m[2]) && b.m[2] == SetVia(ReadTag(p.m[3]));
    assert ReadTag(b.m[2]) == b.m[2];
    assert a.m[0] == MQ_LOG;
    assert Work([a, b]) == Rank(a) + Work([b]) && Work([b]) == Rank(b) by { assert [a, b][1..] == [b] && [b][1..] == []; }
  }

  lemma RouterStep(ids: Ids, p: Packet, env: Env)
    requires p.place == Router && Sound(ids, p) && FitsId(ids[p.b])
    ensures var out := Handle(ids, p, env); AllSound(ids, out) && Work(out) < Rank(p)
  {
    if WellFormed(p.m) {
      var ty := CStr(p.m[1]);
      if ty == MQ_RES_INTERHUB {
        var out := [INTERHUB_NAME, MQ_RES_INTERHUB] + p.m[2..];
        UplinkedOne(out, p.b, p.crossings);
        ResponseUp(ids, p, out);
      } else if IsRequest(ty) {
        if Routable(Some(env.peers), p.m[2]) {
          UplinkedOne(p.m[2..], p.b, p.crossings);
        } else if Forwardable(env.hub, Some(env.peers), p.m) {
          ForwardStep(ids, p, env);
        }
      }
    }
  }

  lemma ResponseUp(ids: Ids, p: Packet, out: Message)
    requires p.place == Router && Sound(ids, p) && WellFormed(p.m) && CStr(p.m[1]) == MQ_RES_INTERHUB
    requires out == [INTERHUB_NAME, MQ_RES_INTERHUB] + p.m[2..]
    ensures var q := Packet(HubDealer, p.b, out[1..], p.crossings, p.b); Sound(ids, q) && Work([q]) < Rank(p)
  {
  }

  // ----- Hub threads --------------------------------------------------------

  lemma {:induction false} MatchingPackets(ids: Ids, m: Message, c: nat, crossings: nat, from: nat)
    requires m != [] && c <= |ids| && PrefixFree(ids)
    ensures var ps := Matching(ids, m, c, crossings, from);
            && |ps| <= 1
            && forall p :: p in ps ==> p.b < |ids| && p.b >= c && ids[p.b] <= m[0] && p == Packet(HubSub, p.b, m, crossings, from)
    decreases |ids| - c
  {
    if c < |ids| {
      MatchingPackets(ids, m, c + 1, crossings, from);
      var rest := Matching(ids, m, c + 1, crossings, from);
      if ids[c] <= m[0] && rest != [] {
        assert rest[0] in rest;
        Nested(ids[c], ids[rest[0].b], m[0]);
      }
    }
  }

  lemma Nested(a: Bytes, b: Bytes, c: Bytes)
    requires a <= c && b <= c
    ensures a <= b || b <= a
  {
  }

  lemma BroadcastOne(ids: Ids, m: Message, crossings: nat, from: nat)
    requires m != []
    ensures Broadcast(ids, [m], crossings, from) == Matching(ids, m, 0, crossings, from)
  {
  }

  lemma StampedTag(tag: Bytes, id: Bytes)
    requires |tag| == TAG_SIZE && Via(tag) && FitsId(id)
    ensures Via(SetBroker(tag, id)) && DecodeTag(SetBroker(tag, id)).broker == id
  {
    StampsDecode(tag, id);
  }

  lemma RequestShape(ids: Ids, p: Packet, env: Env)
    requires p.b < |ids| && FitsId(ids[p.b]) && UpWellFormed(p.m) && p.m[0] == MQ_REQ
    requires FindSvc(env.brokers, ids[p.b], p.m[1]).Some?
    ensures var up := Upward(env.brokers, ids[p.b], p.m);
            && |up| == 1 && |up[0]| >= 4 && up[0][0] == FindSvc(env.brokers, ids[p.b], p.m[1]).value
            && up[0][2] == p.m[1] && up[0][3] == SetBroker(ReadTag(p.m[2]), ids[p.b])
  {
  }

  lemma RequestAcross(ids: Ids, p: Packet, env: Env, q: Packet)
    requires p.place == HubDealer && Sound(ids, p) && FitsId(ids[p.b])
    requires UpWellFormed(p.m) && p.m[0] == MQ_REQ && FindSvc(env.brokers, ids[p.b], p.m[1]).Some?
    requires q == Packet(HubSub, q.b, Upward(env.brokers, ids[p.b], p.m)[0], 1, p.b) && q.b < |ids| && ids[q.b] <= q.m[0]
    ensures Sound(ids, q)
  {
    RequestShape(ids, p, env);
    var tag := ReadTag(p.m[2]);
    StampedTag(tag, ids[p.b]);
    StampedFact(ids, q, tag, p);
  }

  lemma StampedFact(ids: Ids, q: Packet, tag: Bytes, p: Packet)
    requires UpWellFormed(p.m) && p.m[0] == MQ_REQ && HubFact(p) && p.b < |ids| && FitsId(ids[p.b]) && |tag| == TAG_SIZE
    requires q.place == HubSub && q.b < |ids| && q.crossings == 1 && q.origin == p.b
    requires |q.m| >= 4 && q.m[2] == p.m[1] && q.m[3] == SetBroker(tag, ids[p.b])
    requires Via(SetBroker(tag, ids[p.b])) && DecodeTag(SetBroker(tag, ids[p.b])).broker == ids[p.b]
    ensures Sound(ids, q)
  {
  }

  /** A hub thread publishes at most one message, and at most one thread takes it. */
  lemma HubStep(ids: Ids, p: Packet, env: Env)
    requires p.place == HubDealer && Sound(ids, p) && PrefixFree(ids)
    ensures var out := Handle(ids, p, env); |out| <= 1 && AllSound(ids, out) && Work(out) < Rank(p)
  {
    if UpWellFormed(p.m) && Upward(env.brokers, ids[p.b], p.m) != [] {
      var m := Upward(env.brokers, ids[p.b], p.m)[0];
      PublishedOnce(ids, p, env);
      forall q | q in Handle(ids, p, env) ensures Sound(ids, q) {
        if p.m[0] == MQ_REQ { RequestAcross(ids, p, env, q); } else { ResponseAcross(ids, p, env, q); }
      }
      SubWork(Handle(ids, p, env));
    }
  }

  /** What a thread's message becomes: a packet for each thread that subscribes to a prefix of its topic, of which there is at most one. */
  lemma PublishedOnce(ids: Ids, p: Packet, env: Env)
    requires p.place == HubDealer && p.b < |ids| && PrefixFree(ids)
    requires UpWellFormed(p.m) && Upward(env.brokers, ids[p.b], p.m) != []
    ensures var m, out := Upward(env.brokers, ids[p.b], p.m)[0], Handle(ids, p, env);
            && m != [] && |out| <= 1 && out == Matching(ids, m, 0, p.crossings + 1, p.b)
            && forall q :: q in out ==> q == Packet(HubSub, q.b, m, p.crossings + 1, p.b) && q.b < |ids| && ids[q.b] <= m[0]
  {
    var ms := Upward(env.brokers, ids[p.b], p.m);
    UpwardOne(env.brokers, ids[p.b], p.m);
    HandledUp(ids, p, env, ms);
    BroadcastOne(ids, ms[0], p.crossings + 1, p.b);
    MatchingPackets(ids, ms[0], 0, p.crossings + 1, p.b);
  }

  lemma UpwardOne(brokers: seq<Node>, me: Bytes, m: Message)
    requires UpWellFormed(m) && FitsId(me)
    ensures var ms := Upward(brokers, me, m); ms == [] || (ms == [ms[0]] && ms[0] != [])
  {
  }

  lemma HandledUp(ids: Ids, p: Packet, env: Env, ms: seq<Message>)
    requires p.place == HubDealer && p.b < |ids| && FitsId(ids[p.b]) && UpWellFormed(p.m)
    requires ms == Upward(env.brokers, ids[p.b], p.m)
    ensures Handle(ids, p, env) == Broadcast(ids, ms, p.crossings + 1, p.b)
  {
  }

  lemma ResponseAcross(ids: Ids, p: Packet, env: Env, q: Packet)
    requires p.place == HubDealer && Sound(ids, p) && FitsId(ids[p.b]) && UpWellFormed(p.m) && p.m[0] != MQ_REQ
    requires Upward(env.brokers, ids[p.b], p.m) != []
    requires q == Packet(HubSub, q.b, Upward(env.brokers, ids[p.b], p.m)[0], p.crossings + 1, p.b) && q.b < |ids|
    ensures Sound(ids, q)
  {
    assert q.m[1] == MQ_RES_INTERHUB;
  }

  lemma SubWork(out: seq<Packet>)
    requires |out| <= 1 && forall q :: q in out ==> q.place == HubSub
    ensures Work(out) <= 2
  {
    if out != [] { assert out[0] in out && out[1..] == []; }
  }

  // ----- Where a request goes -----------------------------------------------

  lemma {:induction false} MatchedThread(ids: Ids, m: Message, c: nat, d: nat, crossings: nat, from: nat)
    requires m != [] && c <= d < |ids| && ids[d] <= m[0]
    ensures Packet(HubSub, d, m, crossings, from) in Matching(ids, m, c, crossings, from)
    decreases |ids| - c
  {
    if c < d { MatchedThread(ids, m, c + 1, d, crossings, from); }
  }

  /** A request that its thread hands on for a service some other broker offers. */
  predicate Answered(ids: Ids, p: Packet, env: Env)
    requires p.b < |ids|
  {
    p.place == HubDealer && UpWellFormed(p.m) && p.m[0] == MQ_REQ && FindSvc(env.brokers, ids[p.b], p.m[1]).Some?
  }

  /** It goes to thread c if and only if the id the index answered begins with that thread's. */
  lemma RequestGoesTo(ids: Ids, p: Packet, env: Env, c: nat)
    requires PrefixFree(ids) && p.b < |ids| && c < |ids| && Answered(ids, p, env)
    ensures (exists q :: q in Handle(ids, p, env) && q.b == c) <==> ids[c] <= FindSvc(env.brokers, ids[p.b], p.m[1]).value
  {
    var m := Upward(env.brokers, ids[p.b], p.m)[0];
    RequestShape(ids, p, env);
    PublishedOnce(ids, p, env);
    if ids[c] <= m[0] { MatchedThread(ids, m, 0, c, p.crossings + 1, p.b); }
  }

  /** And it is lost if and only if no thread's id begins the answer. */
  lemma RequestLost(ids: Ids, p: Packet, env: Env)
    requires PrefixFree(ids) && p.b < |ids| && Answered(ids, p, env)
    ensures Handle(ids, p, env) == [] <==> forall c :: 0 <= c < |ids| ==> !(ids[c] <= FindSvc(env.brokers, ids[p.b], p.m[1]).value)
  {
    var out := Handle(ids, p, env);
    forall c | 0 <= c < |ids| ensures (exists q :: q in out && q.b == c) <==> ids[c] <= FindSvc(env.brokers, ids[p.b], p.m[1]).value {
      RequestGoesTo(ids, p, env, c);
    }
    RequestShape(ids, p, env);
    PublishedOnce(ids, p, env);
    if out != [] { assert out[0] in out; }
  }

  /** The index answers with another id that the asking thread itself subscribes to. */
  predicate Returning(ids: Ids, p: Packet, env: Env)
    requires p.b < |ids|
  {
    Answered(ids, p, env) && ids[p.b] <= FindSvc(env.brokers, ids[p.b], p.m[1]).value
  }

  /** No broker the index knows under another id is announced under a topic of this thread. */
  ghost predicate Distinguishable(ids: Ids, b: nat, env: Env)
    requires b < |ids|
  {
    Unique(env.brokers) && forall n :: n in env.brokers && ids[b] <= n.name ==> n.name == ids[b]
  }

  lemma DistinguishableStays(ids: Ids, p: Packet, env: Env)
    requires p.b < |ids| && Distinguishable(ids, p.b, env)
    ensures !Returning(ids, p, env)
  {
    if Answered(ids, p, env) {
      QueryIsExact(env.brokers, ids[p.b], p.m[1]);
      var id := FindSvc(env.brokers, ids[p.b], p.m[1]).value;
      var n := env.brokers[IndexOf(env.brokers, id)];
      assert n in env.brokers && n.name == id;
    }
  }

  lemma RequestDown(ids: Ids, p: Packet, q: Packet)
    requires p.place == HubSub && Sound(ids, p) && DownWellFormed(p.m) && p.m[1] == MQ_REQ_INTERHUB
    requires q == Packet(Router, p.b, [INTERHUB_NAME] + Downward(p.m)[0], p.crossings, p.origin)
    ensures Sound(ids, q) && Rank(q) == 1
  {
  }

  lemma ResponseDown(ids: Ids, p: Packet, q: Packet)
    requires p.place == HubSub && Sound(ids, p) && DownWellFormed(p.m) && p.m[1] == MQ_RES_INTERHUB
    requires q == Packet(Router, p.b, [INTERHUB_NAME] + Downward(p.m)[0], p.crossings, p.origin)
    ensures Sound(ids, q) && Rank(q) == 1
  {
  }

  lemma SubStep(ids: Ids, p: Packet, env: Env)
    requires p.place == HubSub && Sound(ids, p) && FitsId(ids[p.b])
    ensures var out := Handle(ids, p, env); AllSound(ids, out) && Work(out) < Rank(p)
  {
    if DownWellFormed(p.m) {
      var q := Packet(Router, p.b, [INTERHUB_NAME] + Downward(p.m)[0], p.crossings, p.origin);
      if p.m[1] == MQ_REQ_INTERHUB { RequestDown(ids, p, q); } else { ResponseDown(ids, p, q); }
      assert [q][1..] == [];
    }
  }

  // ----- Runs ---------------------------------------------------------------

  /** Packet i is handled in a given environment, or lost to a failing send. */
  datatype Event = Event(i: nat, env: Env, lost: bool)

  ghost predicate Possible(ids: Ids, ps: seq<Packet>, e: Event)
  {
    e.i < |ps| && ps[e.i].b < |ids|
  }

  function StepNet(ids: Ids, ps: seq<Packet>, e: Event): seq<Packet>
    requires e.i < |ps| && ps[e.i].b < |ids| && FitsId(ids[ps[e.i].b])
  {
    ps[..e.i] + (if e.lost then [] else Handle(ids, ps[e.i], e.env)) + ps[e.i + 1..]
  }

  lemma StepDecreases(ids: Ids, ps: seq<Packet>, e: Event)
    requires AllSound(ids, ps) && PrefixFree(ids) && Possible(ids, ps, e)
    ensures AllSound(ids, StepNet(ids, ps, e)) && Work(StepNet(ids, ps, e)) < Work(ps)
  {
    var p, a, c := ps[e.i], ps[..e.i], ps[e.i + 1..];
    match p.place {
      case Router => RouterStep(ids, p, e.env);
      case HubDealer => HubStep(ids, p, e.env);
      case HubSub => SubStep(ids, p, e.env);
    }
    var out := if e.lost then [] else Handle(ids, p, e.env);
    assert ps == a + ([p] + c) && ([p] + c)[1..] == c;
    WorkConcat(a, [p] + c);
    WorkConcat(a + out, c);
    WorkConcat(a, out);
    forall q | q in a + out + c ensures Sound(ids, q) { assert q in ps || q in out; }
  }

  /** The packets after a run; each event must be possible when its turn comes. */
  ghost predicate Runs(ids: Ids, ps: seq<Packet>, es: seq<Event>, end: seq<Packet>)
    decreases es
  {
    if es == [] then end == ps
    else Possible(ids, ps, es[0]) && FitsId(ids[ps[es[0].i].b]) && Runs(ids, StepNet(ids, ps, es[0]), es[1..], end)
  }

  /** As clients send them: nothing has crossed the hub, and requests name a service. */
  predicate FromClient(ids: Ids, p: Packet)
  {
    && p.place == Router && p.b < |ids| && p.crossings == 0
    && (WellFormed(p.m) && IsRequest(CStr(p.m[1])) ==> p.m[2] != [] && p.m[2] != INTERHUB_NAME && CStr(p.m[2]) == p.m[2])
  }

  lemma {:induction false} RunsAreSound(ids: Ids, ps: seq<Packet>, es: seq<Event>, end: seq<Packet>)
    requires AllSound(ids, ps) && PrefixFree(ids) && Runs(ids, ps, es, end)
    ensures AllSound(ids, end) && Work(end) + |es| <= Work(ps)
    decreases es
  {
    if es != [] {
      StepDecreases(ids, ps, es[0]);
      RunsAreSound(ids, StepNet(ids, ps, es[0]), es[1..], end);
    }
  }

  lemma {:induction false} ClientWork(ids: Ids, ps: seq<Packet>)
    requires forall p :: p in ps ==> FromClient(ids, p)
    ensures AllSound(ids, ps) && Work(ps) <= 5 * |ps|
    decreases ps
  {
    if ps != [] {
      assert ps[0] in ps && forall p :: p in ps[1..] ==> p in ps;
      ClientWork(ids, ps[1..]);
      assert ps == [ps[0]] + ps[1..];
    }
  }

  /** Whatever clients send, whenever services and registrations come and go and
      whichever messages get lost: at most five handling steps per message, no
      message crosses the hub twice, and a request that crossed is marked, and
      at the thread stamped with the broker it came from. */
  lemma NoForwardingLoop(ids: Ids, ps: seq<Packet>, es: seq<Event>, end: seq<Packet>)
    requires PrefixFree(ids) && (forall p :: p in ps ==> FromClient(ids, p)) && Runs(ids, ps, es, end)
    ensures |es| <= 5 * |ps|
    ensures forall p :: p in end ==> p.crossings <= 1
    ensures forall p :: p in end && p.place == HubSub && DownWellFormed(p.m) && p.m[1] == MQ_REQ_INTERHUB ==>
              p.origin < |ids| && Via(ReadTag(p.m[3])) && DecodeTag(ReadTag(p.m[3])).broker == ids[p.origin]
    ensures forall p :: p in end && p.place == Router && p.crossings == 1 && WellFormed(p.m) && IsRequest(CStr(p.m[1])) ==>
              Via(ReadTag(p.m[3]))
  {
    ClientWork(ids, ps);
    RunsAreSound(ids, ps, es, end);
    forall p | p in end && p.place == HubSub && DownWellFormed(p.m) && p.m[1] == MQ_REQ_INTERHUB
      ensures p.origin < |ids| && ReadTag(p.m[3]) == p.m[3]
    {
      assert Sound(ids, p);
    }
  }

  // ----- No return to the origin --------------------------------------------

  /** A request that crossed the hub is not at the broker it came from. */
  predicate Away(p: Packet)
  {
    match p.place
    case Router => WellFormed(p.m) && IsRequest(CStr(p.m[1])) && p.crossings == 1 ==> p.b != p.origin
    case HubDealer => true
    case HubSub => DownWellFormed(p.m) && p.m[1] == MQ_REQ_INTERHUB ==> p.b != p.origin
  }

  predicate AllAway(ps: seq<Packet>)
  {
    forall p :: p in ps ==> Away(p)
  }

  /** Below the hub a request stays where it is. */
  lemma DownAway(ids: Ids, p: Packet, env: Env)
    requires p.place == HubSub && Sound(ids, p) && FitsId(ids[p.b]) && Away(p)
    ensures AllAway(Handle(ids, p, env))
  {
    if DownWellFormed(p.m) && p.m[1] == MQ_RES_INTERHUB {
      var q := Packet(Router, p.b, [INTERHUB_NAME] + Downward(p.m)[0], p.crossings, p.origin);
      assert q.m[1] == MQ_RES;
      ResponseNoRequest();
    }
  }

  lemma ResponseNoRequest()
    ensures CStr(MQ_RES) == MQ_RES && !IsRequest(MQ_RES)
  {
  }

  lemma {:induction false} UplinkedAway(ms: seq<Message>, b: nat, crossings: nat)
    ensures AllAway(Uplinked(ms, b, crossings))
    decreases ms
  {
    if ms != [] { UplinkedAway(ms[1..], b, crossings); }
  }

  lemma RouterAway(ids: Ids, p: Packet, env: Env)
    requires p.place == Router && p.b < |ids| && FitsId(ids[p.b])
    ensures AllAway(Handle(ids, p, env))
  {
    if WellFormed(p.m) { UplinkedAway(Routed(env.hub, Some(env.peers), p.m), p.b, p.crossings); }
  }

  /** At the hub a request comes back exactly when the answer begins with the asking thread's own id. */
  lemma HubAway(ids: Ids, p: Packet, env: Env)
    requires p.place == HubDealer && p.b < |ids| && PrefixFree(ids)
    ensures AllAway(Handle(ids, p, env)) <==> !Returning(ids, p, env)
  {
    if UpWellFormed(p.m) && Upward(env.brokers, ids[p.b], p.m) != [] {
      PublishedOnce(ids, p, env);
      if p.m[0] == MQ_REQ {
        RequestUpShape(ids, p, env);
        RequestGoesTo(ids, p, env, p.b);
      } else {
        assert Upward(env.brokers, ids[p.b], p.m)[0][1] == MQ_RES_INTERHUB;
      }
    }
  }

  lemma RequestUpShape(ids: Ids, p: Packet, env: Env)
    requires p.b < |ids| && FitsId(ids[p.b]) && Answered(ids, p, env)
    ensures var m := Upward(env.brokers, ids[p.b], p.m)[0]; DownWellFormed(m) && m[1] == MQ_REQ_INTERHUB
  {
  }

  lemma HandledAway(ids: Ids, p: Packet, env: Env)
    requires Sound(ids, p) && PrefixFree(ids) && Away(p)
    ensures AllAway(Handle(ids, p, env)) <==> !Returning(ids, p, env)
  {
    match p.place
    case Router => RouterAway(ids, p, env);
    case HubDealer => HubAway(ids, p, env);
    case HubSub => DownAway(ids, p, env);
  }

  lemma StepAway(ids: Ids, ps: seq<Packet>, e: Event)
    requires AllSound(ids, ps) && PrefixFree(ids) && Possible(ids, ps, e) && AllAway(ps)
    ensures AllAway(StepNet(ids, ps, e)) <==> e.lost || !Returning(ids, ps[e.i], e.env)
  {
    HandledAway(ids, ps[e.i], e.env);
    var out := if e.lost then [] else Handle(ids, ps[e.i], e.env);
    assert forall q :: q in StepNet(ids, ps, e) <==> q in ps[..e.i] || q in out || q in ps[e.i + 1..];
  }

  /** No state of the run has a request back at the broker it came from. */
  ghost predicate AlwaysAway(ids: Ids, ps: seq<Packet>, es: seq<Event>, end: seq<Packet>)
    requires PrefixFree(ids) && Runs(ids, ps, es, end)
    decreases es
  {
    AllAway(ps) && (es != [] ==> AlwaysAway(ids, StepNet(ids, ps, es[0]), es[1..], end))
  }

  /** No thread hands on a request for which its index answers with an id it subscribes to itself. */
  ghost predicate NeverReturning(ids: Ids, ps: seq<Packet>, es: seq<Event>, end: seq<Packet>)
    requires PrefixFree(ids) && Runs(ids, ps, es, end)
    decreases es
  {
    es != [] ==>
      && (es[0].lost || !Returning(ids, ps[es[0].i], es[0].env))
      && NeverReturning(ids, StepNet(ids, ps, es[0]), es[1..], end)
  }

  lemma {:induction false} AwayWhileNotReturning(ids: Ids, ps: seq<Packet>, es: seq<Event>, end: seq<Packet>)
    requires AllSound(ids, ps) && AllAway(ps) && PrefixFree(ids) && Runs(ids, ps, es, end)
    ensures AlwaysAway(ids, ps, es, end) <==> NeverReturning(ids, ps, es, end)
    decreases es
  {
    if es != [] {
      StepAway(ids, ps, es[0]);
      StepDecreases(ids, ps, es[0]);
      if AllAway(StepNet(ids, ps, es[0])) { AwayWhileNotReturning(ids, StepNet(ids, ps, es[0]), es[1..], end); }
    }
  }

  /** Over a whole run a request that crossed is never back at the broker it
      came from if and only if no index ever answers a thread with another id
      that begins with the thread's own. */
  lemma ReturnIsExact(ids: Ids, ps: seq<Packet>, es: seq<Event>, end: seq<Packet>)
    requires PrefixFree(ids) && (forall p :: p in ps ==> FromClient(ids, p)) && Runs(ids, ps, es, end)
    ensures AlwaysAway(ids, ps, es, end) <==> NeverReturning(ids, ps, es, end)
  {
    ClientWork(ids, ps);
    assert AllAway(ps);
    AwayWhileNotReturning(ids, ps, es, end);
  }
}
