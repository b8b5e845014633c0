/** A broker restarted under a new name before the hub has released its slot:
    its registrations are rejected but published, and every index knows them. */
module Restart {
  import opened Names
  import opened Wire
  import opened Forest
  import opened Registry
  import opened RegistryRuns
  import opened Misuse
  import opened Directory
  import opened HubThread
  import opened HubEmission
  import opened HubRegistry
  import opened Network
  import Log = DirectoryTheory

  /** The old name keeps the slot and the new one changes nothing at all. */
  lemma NewNameRejected(m: HubRegistry.MqRegi, name: string, times: seq<int>, later: seq<int>)
    requires |times| == |later| == 3 && name != m.brokerName
    ensures var s := Register(Empty(MAX_BROKER_NUM), ToRegi(m, times));
            && s.slots[0] == Used(m.brokerHost, m.brokerName, false)
            && Register(s, ToRegi(m.(brokerName := name), later)) == s
  {
    var s := Register(Empty(MAX_BROKER_NUM), ToRegi(m, times));
    FirstRegistration(MAX_BROKER_NUM, ToRegi(m, times));
    assert s.slots[0] == Used(m.brokerHost, m.brokerName, false);
    assert FindKey(s.slots, m.brokerHost) == 0;
  }

  /** What a first registration leaves in an index. */
  function Offering(id: Bytes, svc: Bytes): Node
  {
    Node(id, Leaf(0), [Node(svc, Leaf(0), [])])
  }

  lemma OneOffer(id: Bytes, svc: Bytes)
    ensures Log.After([Log.Heartbeat(id, svc, 0, 0)]) == [Offering(id, svc)]
  {
    var es := [Log.Heartbeat(id, svc, 0, 0)];
    assert es[..0] == [] && Log.After(es) == Log.Apply([], es[0]);
    var b := AddOrTouch([], id, 0);
    assert b == [Node(id, Leaf(0), [])] && IndexOf(b, id) == 0;
    WithService(b, 0, svc);
  }

  lemma WithService(b: seq<Node>, i: nat, svc: Bytes)
    requires i < |b| && b[i].kids == [] && b[i].info == Leaf(0)
    ensures b[i].(kids := AddOrTouch(b[i].kids, svc, 0)) == Offering(b[i].name, svc)
  {
    assert [] + [Node(svc, Leaf(0), [])] == [Node(svc, Leaf(0), [])];
  }

  lemma TwoOffers(id: Bytes, other: Bytes, svc: Bytes)
    requires id != other
    ensures Log.After([Log.Heartbeat(id, svc, 0, 0), Log.Heartbeat(other, svc, 0, 0)]) == [Offering(id, svc), Offering(other, svc)]
  {
    var a, b := Log.Heartbeat(id, svc, 0, 0), Log.Heartbeat(other, svc, 0, 0);
    OneOffer(id, svc);
    assert [a, b][..1] == [a] && Log.After([a, b]) == Log.Apply(Log.After([a]), b);
    EnterSecond(Offering(id, svc), other, svc);
  }

  lemma EnterSecond(n: Node, id: Bytes, svc: Bytes)
    requires n.name != id
    ensures ChkSmallTree([n], id, svc, 0, 0) == [n, Offering(id, svc)]
  {
    assert IndexOf([n], id) == 1;
    var b := AddOrTouch([n], id, 0);
    assert b == [n, Node(id, Leaf(0), [])] && b[1..][0].name == id;
    assert IndexOf(b, id) == 1;
    WithService(b, 1, svc);
  }

  function Asking(svc: Bytes, tag: Bytes, body: Bytes): Packet
  {
    Packet(HubDealer, 0, [MQ_REQ, svc, tag, body], 0, 0)
  }

  /** When the new name extends the old one, as one process id can extend
      another, a request for the restarted broker's service comes back to the
      broker it is from, marked and stamped. */
  lemma RestartedBrokerReturns(host: Bytes, name: Bytes, more: Bytes, svc: Bytes, tag: Bytes, body: Bytes)
    requires more != [] && FitsId(BrokerId(host, name)) && IsName(svc) && svc != INTERHUB_NAME && |tag| == TAG_SIZE && Via(tag)
    ensures var ids, p := [BrokerId(host, name)], Asking(svc, tag, body);
            var env := Env({}, true, Log.After([Log.Heartbeat(BrokerId(host, name + more), svc, 0, 0)]));
            && PrefixFree(ids) && Sound(ids, p) && Returning(ids, p, env)
            && exists q :: q in Handle(ids, p, env) && q.place == HubSub && q.b == p.b && !Away(q)
  {
    var id, longer := BrokerId(host, name), BrokerId(host, name + more);
    var ids, p := [id], Asking(svc, tag, body);
    var env := Env({}, true, Log.After([Log.Heartbeat(longer, svc, 0, 0)]));
    OneOffer(longer, svc);
    assert longer == id + more;
    assert FindSvc(env.brokers, id, svc) == Some(longer);
    AskingIsSound(ids, svc, tag, body);
    ReturnedOne(ids, p, env);
  }

  lemma AskingIsSound(ids: Ids, svc: Bytes, tag: Bytes, body: Bytes)
    requires ids != [] && IsName(svc) && svc != INTERHUB_NAME && |tag| == TAG_SIZE && Via(tag)
    ensures UpWellFormed(Asking(svc, tag, body).m) && Sound(ids, Asking(svc, tag, body))
  {
    assert ReadTag(tag) == tag;
  }

  lemma ReturnedOne(ids: Ids, p: Packet, env: Env)
    requires PrefixFree(ids) && p.b < |ids| && Returning(ids, p, env)
    ensures exists q :: q in Handle(ids, p, env) && q.place == HubSub && q.b == p.b && !Away(q)
  {
    RequestGoesTo(ids, p, env, p.b);
    PublishedOnce(ids, p, env);
    RequestUpShape(ids, p, env);
    var q :| q in Handle(ids, p, env) && q.b == p.b;
    assert q.origin == p.b;
  }

  /** In any case the answer can be the rejected id, to which no thread
      subscribes: the request is lost although another broker offers the service. */
  lemma OfferedElsewhereLost(mine: Bytes, other: Bytes, rejected: Bytes, svc: Bytes, tag: Bytes, body: Bytes)
    requires PrefixFree([mine, other]) && !(mine <= rejected) && !(other <= rejected)
    requires IsName(svc) && |tag| == TAG_SIZE
    ensures var ids, p := [mine, other], Asking(svc, tag, body);
            var env := Env({}, true, Log.After([Log.Heartbeat(rejected, svc, 0, 0), Log.Heartbeat(other, svc, 0, 0)]));
            && Handle(ids, p, env) == [] && Log.Heard(env.brokers, other, svc) == Some(0)
            && FindSvc(env.brokers, mine, svc) == Some(rejected)
  {
    var ids, p := [mine, other], Asking(svc, tag, body);
    var env := Env({}, true, Log.After([Log.Heartbeat(rejected, svc, 0, 0), Log.Heartbeat(other, svc, 0, 0)]));
    RejectedAnswers(mine, other, rejected, svc);
    RequestLost(ids, p, env);
  }

  lemma RejectedAnswers(mine: Bytes, other: Bytes, rejected: Bytes, svc: Bytes)
    requires rejected != mine && rejected != other
    ensures var brokers := Log.After([Log.Heartbeat(rejected, svc, 0, 0), Log.Heartbeat(other, svc, 0, 0)]);
            FindSvc(brokers, mine, svc) == Some(rejected) && Log.Heard(brokers, other, svc) == Some(0)
  {
    TwoOffers(rejected, other, svc);
    assert [Offering(rejected, svc), Offering(other, svc)][1..] == [Offering(other, svc)];
  }
}
