/** hub.c: broker registration and expiry on the live structures, and the
    topics its threads subscribe to. */
module HubRegistry {
  import opened Names
  import opened Forest
  import opened Nodes
  import opened TreeOrder
  import opened Registry
  import opened RegistryRuns
  import opened Wire
  import opened Sockets
  import opened Router

  const MAX_BROKER_NUM: nat := 12

  /** The part of `mq_regi_t` the hub reads. */
  datatype MqRegi = MqRegi(brokerHost: string, brokerName: string, svcHost: string, svc: string, name: string, traffic: Traffic)

  /** The registration as three tree levels, with the clock read of each
      `chk_tree` call; only process nodes keep traffic counters. */
  function ToRegi(m: MqRegi, times: seq<int>): (r: Regi<string>)
    requires |times| == 3
    ensures r.levels.Valid()
  {
    Regi(m.brokerHost, Levels([m.brokerName, m.svc, m.name], [m.brokerHost, m.brokerHost, m.svcHost], times,
                              [None, None, Some(m.traffic)]))
  }

  // ----- What a registration means, in the message's own fields -------------

  /** The host's slot is used by this broker name. */
  predicate Serves(s: Reg<string>, host: string, name: string)
  {
    var i := FindKey(s.slots, host);
    i < |s.slots| && s.slots[i].name == name
  }

  predicate ServesOther(s: Reg<string>, host: string, name: string)
  {
    var i := FindKey(s.slots, host);
    i < |s.slots| && s.slots[i].name != name
  }

  /** Broker, service and process node of a served broker, each renewed with its
      own clock read; broker and service are at the broker's host, the process at
      its own; only the process keeps the message's counters. */
  predicate NodeReported(tree: seq<Node>, tree': seq<Node>, q: seq<string>, m: MqRegi, times: seq<int>)
    requires q != [] && |times| == 3
  {
    var before, after := Lookup(tree, q), Lookup(tree', q);
    if q == [m.brokerName] then Renewed(before, after, m.brokerHost, times[0], None, None)
    else if q == [m.brokerName, m.svc] then Renewed(before, after, m.brokerHost, times[1], None, None)
    else if q == [m.brokerName, m.svc, m.name] then Renewed(before, after, m.svcHost, times[2], None, Some(m.traffic))
    else after == before
  }

  ghost predicate Reported(s: Reg<string>, s': Reg<string>, m: MqRegi, times: seq<int>)
    requires |times| == 3
  {
    && s'.slots == s.slots && s'.jobs == s.jobs
    && forall q: seq<string> :: q != [] ==> NodeReported(s.tree, s'.tree, q, m, times)
  }

  predicate NodeOpened(tree: seq<Node>, tree': seq<Node>, q: seq<string>, m: MqRegi, now: int, i: nat)
    requires q != []
  {
    var before, after := Lookup(tree, q), Lookup(tree', q);
    if q == [m.brokerName] then Renewed(before, after, m.brokerHost, now, Some(i), None) else after == before
  }

  /** A broker that gets slot i: only its own node is entered, and its start is scheduled. */
  ghost predicate Opened(s: Reg<string>, s': Reg<string>, m: MqRegi, now: int, i: nat)
    requires i < |s.slots|
  {
    && s'.slots == s.slots[i := Used(m.brokerHost, m.brokerName, false)] && s'.jobs == s.jobs + [Start(i)]
    && forall q: seq<string> :: q != [] ==> NodeOpened(s.tree, s'.tree, q, m, now, i)
  }

  /** All cases of `chk_svc_broker`. */
  ghost predicate Registered(s: Reg<string>, s': Reg<string>, m: MqRegi, times: seq<int>)
    requires |times| == 3
  {
    var free := FindFree(s.slots);
    if Serves(s, m.brokerHost, m.brokerName) then Reported(s, s', m, times)
    else if ServesOther(s, m.brokerHost, m.brokerName) || free == |s.slots| then s' == s
    else Opened(s, s', m, times[0], free)
  }

  lemma RegisterReports(s: Reg<string>, m: MqRegi, times: seq<int>)
    requires |times| == 3 && Sorted(s.tree) && Serves(s, m.brokerHost, m.brokerName)
    ensures Reported(s, Register(s, ToRegi(m, times)), m, times)
  {
    var r := ToRegi(m, times).levels;
    forall q: seq<string> | q != [] ensures NodeReported(s.tree, ChkPath(s.tree, r, 3), q, m, times) {
      ChkPathRenews(s.tree, r, 3, q);
      PathOfThree(m.brokerName, m.svc, m.name, q);
    }
  }

  lemma PathOfThree(a: string, b: string, c: string, q: seq<string>)
    requires q != []
    ensures |q| <= 3 && q == [a, b, c][..|q|] <==> q == [a] || q == [a, b] || q == [a, b, c]
  {
    assert [a, b, c][..1] == [a] && [a, b, c][..2] == [a, b] && [a, b, c][..3] == [a, b, c];
  }

  lemma RegisterOpens(s: Reg<string>, m: MqRegi, times: seq<int>)
    requires |times| == 3 && Sorted(s.tree)
    requires FindKey(s.slots, m.brokerHost) == |s.slots| && FindFree(s.slots) < |s.slots|
    ensures Opened(s, Register(s, ToRegi(m, times)), m, times[0], FindFree(s.slots))
  {
    var r, i := ToRegi(m, times).levels, FindFree(s.slots);
    assert r.path[..1] == [m.brokerName];
    forall q: seq<string> | q != []
      ensures NodeOpened(s.tree, ChkLevel(s.tree, r, 0, Some(i)), q, m, times[0], i)
    {
      ChkTreeRenews(s.tree, [m.brokerName], r.Fresh(0, Some(i)), None);
      ChkTreeIsUpsert(s.tree, [m.brokerName], r.Fresh(0, Some(i)), None, q);
    }
  }

  lemma RegisterIsExact(s: Reg<string>, m: MqRegi, times: seq<int>)
    requires |times| == 3 && Sorted(s.tree)
    ensures Registered(s, Register(s, ToRegi(m, times)), m, times)
  {
    if Serves(s, m.brokerHost, m.brokerName) {
      RegisterReports(s, m, times);
    } else if !ServesOther(s, m.brokerHost, m.brokerName) && FindFree(s.slots) < |s.slots| {
      RegisterOpens(s, m, times);
    }
  }

  /** Two processes of one service at a served broker: two nodes, each with its own heartbeat. */
  lemma TwoProcesses(s: Reg<string>, s1: Reg<string>, s2: Reg<string>, m: MqRegi, name: string, t: seq<int>, t': seq<int>)
    requires |t| == |t'| == 3 && Serves(s, m.brokerHost, m.brokerName) && name != m.name
    requires Registered(s, s1, m, t) && Registered(s1, s2, m.(name := name), t')
    ensures var first, second := Lookup(s2.tree, [m.brokerName, m.svc, m.name]), Lookup(s2.tree, [m.brokerName, m.svc, name]);
            && first.Some? && first.value.hb == t[2] && second.Some? && second.value.hb == t'[2]
            && Lookup(s2.tree, [m.brokerName, m.svc]).Some? && Lookup(s2.tree, [m.brokerName]).Some?
  {
    var m' := m.(name := name);
    assert NodeReported(s.tree, s1.tree, [m.brokerName, m.svc, m.name], m, t);
    assert NodeReported(s1.tree, s2.tree, [m.brokerName, m.svc, m.name], m', t');
    assert NodeReported(s1.tree, s2.tree, [m.brokerName, m.svc, name], m', t');
    assert NodeReported(s1.tree, s2.tree, [m.brokerName, m.svc], m', t');
    assert NodeReported(s1.tree, s2.tree, [m.brokerName], m', t');
  }

  class MainCtx {
    const brokerCtx: array<Slot<string>>
    const rootNode: GNode
    var jobs: seq<Job>

    constructor (now: int)
      ensures Valid() && fresh(this) && fresh(brokerCtx) && fresh(rootNode.repr)
      ensures State() == Reg(seq(MAX_BROKER_NUM, _ => Free), [], [])
    {
      brokerCtx := new Slot<string>[MAX_BROKER_NUM](_ => Free);
      rootNode := new GNode(INTERHUB_NAME, Info("", now, NO_TRAFFIC, None));
      jobs := [];
    }

    /** No two used slots have the same host: kept by every operation. */
    ghost predicate Valid()
      reads this, brokerCtx, rootNode, rootNode.repr
    {
      rootNode.Valid() && brokerCtx.Length == MAX_BROKER_NUM && KeysDistinct(brokerCtx[..])
    }

    ghost function State(): Reg<string>
      requires Valid()
      reads this, brokerCtx, rootNode, rootNode.repr
    {
      Reg(brokerCtx[..], rootNode.Tree().kids, jobs)
    }

    /** `create_new_broker`. */
    method CreateNewBroker(m: MqRegi) returns (slot: Option<nat>)
      requires Valid() && FindKey(brokerCtx[..], m.brokerHost) == MAX_BROKER_NUM
      modifies this, brokerCtx
      ensures Valid()
      ensures var free := FindFree(old(brokerCtx[..]));
              if free == MAX_BROKER_NUM then slot == None && brokerCtx[..] == old(brokerCtx[..]) && jobs == old(jobs)
              else slot == Some(free) && brokerCtx[..] == old(brokerCtx[..])[free := Used(m.brokerHost, m.brokerName, false)]
                   && jobs == old(jobs) + [Start(free)]
    {
      slot := None;
      for i := 0 to brokerCtx.Length
        invariant Valid() && slot == None && brokerCtx[..] == old(brokerCtx[..]) && jobs == old(jobs)
        invariant forall j :: 0 <= j < i ==> brokerCtx[j].Used?
      {
        if brokerCtx[i].Free? {
          ghost var slots := brokerCtx[..];
          assert FindFree(slots) == i;
          assert forall j :: 0 <= j < |slots| && slots[j].Used? ==> slots[j].key != m.brokerHost;
          brokerCtx[i] := Used(m.brokerHost, m.brokerName, false);
          assert brokerCtx[..] == slots[i := Used(m.brokerHost, m.brokerName, false)];
          jobs := jobs + [Start(i)];
          return Some(i);
        }
      }
    }

    /** `chk_svc_broker`: the loop looks at every slot; a host served under
        another name rejects the registration. */
    method ChkSvcBroker(m: MqRegi, times: seq<int>) returns (accepted: bool)
      requires Valid() && |times| == 3
      modifies this, brokerCtx, rootNode.repr
      ensures Valid() && fresh(rootNode.repr - old(rootNode.repr))
      ensures State() == Register(old(State()), ToRegi(m, times))
      ensures Sorted(old(State()).tree) ==> Registered(old(State()), State(), m, times)
      ensures accepted <==> !ServesOther(old(State()), m.brokerHost, m.brokerName)
    {
      accepted := CheckSlots(m, times);
      if Sorted(old(State()).tree) { RegisterIsExact(old(State()), m, times); }
    }

    /** Its loop over the slots and what follows. */
    method CheckSlots(m: MqRegi, times: seq<int>) returns (accepted: bool)
      requires Valid() && |times| == 3
      modifies this, brokerCtx, rootNode.repr
      ensures Valid() && fresh(rootNode.repr - old(rootNode.repr))
      ensures State() == Register(old(State()), ToRegi(m, times))
      ensures accepted <==> !Classify(old(brokerCtx[..]), m.brokerHost, m.brokerName).Conflict?
    {
      var alreadyServiced := false;
      ghost var slots := brokerCtx[..];
      for i := 0 to brokerCtx.Length
        invariant alreadyServiced ==> FindKey(slots, m.brokerHost) < i && slots[FindKey(slots, m.brokerHost)].name == m.brokerName
        invariant !alreadyServiced ==> forall j :: 0 <= j < i ==> !(slots[j].Used? && slots[j].key == m.brokerHost)
      {
        if brokerCtx[i].Used? && brokerCtx[i].key == m.brokerHost {
          assert slots[i].Used? && slots[FindKey(slots, m.brokerHost)].Used?;
          assert FindKey(slots, m.brokerHost) == i;
          if brokerCtx[i].name != m.brokerName {
            return false;
          }
          alreadyServiced := true;
        }
      }
      accepted := true;
      if alreadyServiced {
        assert Classify(slots, m.brokerHost, m.brokerName).Serviced?;
        ChkAll(m, times);
      } else {
        assert FindKey(slots, m.brokerHost) == |slots|;
        var newBroker := CreateNewBroker(m);
        if newBroker.Some? {
          assert ToRegi(m, times).levels.path[..1] == [m.brokerName];
          rootNode.ChkTree([m.brokerName], Info(m.brokerHost, times[0], NO_TRAFFIC, newBroker), None);
        }
      }
    }

    /** `regi_action` for MQ_REG: the broker's host is its peer address, and the
        registration is published to all threads before it is accepted or
        rejected here; `encode` stands for the struct's bytes. */
    method RegiAction(m: MqRegi, peerAddress: string, toThreads: Socket, encode: MqRegi -> Bytes, times: seq<int>)
      returns (accepted: bool)
      requires Valid() && |times| == 3
      modifies this, brokerCtx, rootNode.repr, toThreads
      ensures Valid() && fresh(rootNode.repr - old(rootNode.repr))
      ensures var m' := m.(brokerHost := peerAddress);
              && State() == Register(old(State()), ToRegi(m', times))
              && (Sorted(old(State()).tree) ==> Registered(old(State()), State(), m', times))
              && (accepted <==> !ServesOther(old(State()), peerAddress, m.brokerName))
              && toThreads.InState() == old(toThreads.InState())
              && toThreads.OutState() == SendChain(old(toThreads.OutState()), RegiMessage(encode(m')), 0).0
    {
      var svcRegi := m.(brokerHost := peerAddress);
      var _ := SendAll(toThreads, RegiMessage(encode(svcRegi)), 0);
      accepted := ChkSvcBroker(svcRegi, times);
    }

    /** The `chk_tree` call for level k of a registration that found the tree as `kids`. */
    method ChkOne(r: Levels, k: nat, ghost kids: seq<Node>)
      requires Valid() && r.Valid() && k < |r.path| && rootNode.Tree().kids == ChkPath(kids, r, k)
      modifies rootNode.repr
      ensures Valid() && fresh(rootNode.repr - old(rootNode.repr))
      ensures rootNode.Tree().kids == ChkPath(kids, r, k + 1)
    {
      rootNode.ChkTree(r.path[..k + 1], r.Fresh(k, None), r.notes[k]);
    }

    /** The three `chk_tree` calls of a served registration. */
    method ChkAll(m: MqRegi, times: seq<int>)
      requires Valid() && |times| == 3
      modifies rootNode.repr
      ensures Valid() && fresh(rootNode.repr - old(rootNode.repr))
      ensures rootNode.Tree().kids == ChkPath(old(rootNode.Tree()).kids, ToRegi(m, times).levels, 3)
    {
      var r := ToRegi(m, times).levels;
      ghost var kids := rootNode.Tree().kids;
      ChkUpper(r, kids);
      ChkOne(r, 2, kids);
    }

    /** Those for the broker and the service. */
    method ChkUpper(r: Levels, ghost kids: seq<Node>)
      requires Valid() && r.Valid() && |r.path| == 3 && rootNode.Tree().kids == kids
      modifies rootNode.repr
      ensures Valid() && fresh(rootNode.repr - old(rootNode.repr))
      ensures rootNode.Tree().kids == ChkPath(kids, r, 2)
    {
      ChkOne(r, 0, kids);
      ChkOne(r, 1, kids);
    }

    /** `removetree_callback`. */
    method RemovetreeCallback(now: int)
      requires Valid()
      modifies this`jobs, rootNode.repr
      ensures Valid() && rootNode.repr == old(rootNode.repr)
      ensures State() == SweepTree(old(State()), now)
    {
      var released := rootNode.TraverseDotRemove(now);
      jobs := jobs + ReleaseJobs(released);
    }

    /** A pending event runs: the broker's thread starts, or it is taken down and its slot cleared. */
    method RunOldest()
      requires Valid() && (jobs != [] ==> jobs[0].slot < MAX_BROKER_NUM)
      modifies this`jobs, brokerCtx
      ensures Valid()
      ensures State() == RunJob(old(State()))
    {
      if jobs != [] {
        var i := jobs[0].slot;
        ghost var slots := brokerCtx[..];
        if jobs[0].Release? {
          brokerCtx[i] := Free;
        } else if brokerCtx[i].Used? {
          brokerCtx[i] := brokerCtx[i].(polling := true);
        }
        assert forall j :: 0 <= j < |slots| && brokerCtx[j].Used? ==> slots[j].Used? && slots[j].key == brokerCtx[j].key;
        jobs := jobs[1..];
      }
    }
  }

  // ----- Topics -------------------------------------------------------------

  /** PUB/SUB matching: the subscription is a prefix of the first part. */
  predicate Matches(subscription: string, topic: string)
  {
    subscription <= topic
  }

  /** Neither host, ended by an underscore, begins the other. */
  predicate Apart(h: string, h': string)
  {
    !(h + "_" <= h') && !(h' + "_" <= h)
  }

  /** The id for a host is a prefix of another id in three ways: same host, or
      the name makes up for the rest of the longer host. */
  lemma MatchIsExact(h: string, n: string, h': string, n': string)
    ensures Matches(BrokerId(h, n), BrokerId(h', n')) <==>
            || (h == h' && n <= n')
            || (h + "_" <= h' && n <= BrokerId(h'[|h| + 1..], n'))
            || (h' + "_" <= h && BrokerId(h[|h'| + 1..], n) <= n')
  {
    var a, b := BrokerId(h, n), BrokerId(h', n');
    Cut(h, n);
    Cut(h', n');
    if h + "_" <= h' {
      Longer(h, h', n');
      Prefixes(h + "_", n, BrokerId(h'[|h| + 1..], n'));
    } else if h' + "_" <= h {
      Longer(h', h, n);
      Prefixes(h' + "_", BrokerId(h[|h'| + 1..], n), n');
    } else if h == h' {
      Prefixes(h + "_", n, n');
    } else if a <= b {
      HeadsNest(h, n, h', n');
      assert false;
    }
  }

  lemma Cut(h: string, n: string)
    ensures BrokerId(h, n) == (h + "_") + n
  {
  }

  lemma Longer(h: string, h': string, n': string)
    requires h + "_" <= h'
    ensures BrokerId(h', n') == (h + "_") + BrokerId(h'[|h| + 1..], n')
  {
    assert h' == (h + "_") + h'[|h| + 1..];
  }

  lemma Prefixes(p: string, a: string, b: string)
    ensures p + a <= p + b <==> a <= b
  {
    assert (p + a)[|p|..] == a && (p + b)[|p|..] == b;
    if p + a <= p + b {
      assert forall k :: 0 <= k < |a| ==> a[k] == (p + a)[|p| + k] == (p + b)[|p| + k] == b[k];
    }
    if a <= b { assert b == a + b[|a|..] && p + b == (p + a) + b[|a|..]; }
  }

  lemma HeadsNest(h: string, n: string, h': string, n': string)
    requires BrokerId(h, n) <= BrokerId(h', n')
    ensures h == h' || h + "_" <= h' || h' + "_" <= h
  {
    var a, b := BrokerId(h, n), BrokerId(h', n');
    assert a[..|h|] == h && b[..|h'|] == h' && a[..|h| + 1] == h + "_" && b[..|h'| + 1] == h' + "_";
    if |h| < |h'| {
      assert h'[..|h| + 1] == b[..|h| + 1] == a[..|h| + 1];
    } else if |h'| < |h| {
      assert h[..|h'| + 1] == a[..|h'| + 1] == b[..|h'| + 1];
    } else {
      assert b[..|h|] == a[..|h|];
    }
  }

  /** Two hosts are told apart under all broker names exactly when neither,
      ended by an underscore, begins the other; the host's own rest is the name
      that collides. */
  lemma IsolationIsExact(h: string, h': string)
    requires h != h'
    ensures Apart(h, h') <==>
            forall n: string, n': string :: !Matches(BrokerId(h, n), BrokerId(h', n')) && !Matches(BrokerId(h', n'), BrokerId(h, n))
  {
    if Apart(h, h') {
      forall n: string, n': string
        ensures !Matches(BrokerId(h, n), BrokerId(h', n')) && !Matches(BrokerId(h', n'), BrokerId(h, n))
      {
        MatchIsExact(h, n, h', n');
        MatchIsExact(h', n', h, n);
      }
    } else if h + "_" <= h' {
      MatchIsExact(h, h'[|h| + 1..], h', "");
      assert Matches(BrokerId(h, h'[|h| + 1..]), BrokerId(h', ""));
    } else {
      MatchIsExact(h', h[|h'| + 1..], h, "");
      assert Matches(BrokerId(h', h[|h'| + 1..]), BrokerId(h, ""));
    }
  }

  /** Hosts without underscores, as numeric peer addresses are, are told apart. */
  lemma IdGivesHost(h: string, n: string, h': string, n': string)
    requires '_' !in h && '_' !in h' && Matches(BrokerId(h, n), BrokerId(h', n'))
    ensures h == h' && n <= n'
  {
    UnderscoreInside(h, h');
    UnderscoreInside(h', h);
    MatchIsExact(h, n, h', n');
  }

  lemma UnderscoreInside(h: string, h': string)
    ensures h + "_" <= h' ==> '_' in h'
  {
    if h + "_" <= h' { assert h'[|h|] == '_'; }
  }

  /** In every reachable state a message published to a used slot's id is
      received by that slot's id subscription and by no other, whatever the
      brokers are called, if no host ended by an underscore begins another. */
  lemma TopicIsolation(es: seq<Event<string>>, i: nat, j: nat)
    requires forall e :: e in es && e.Registration? ==> e.r.levels.Valid()
    requires var slots := Run(Empty(MAX_BROKER_NUM), es).slots;
             && i < |slots| && j < |slots| && slots[i].Used? && slots[j].Used?
             && Apart(slots[i].key, slots[j].key)
    ensures var slots := Run(Empty(MAX_BROKER_NUM), es).slots;
            Matches(BrokerId(slots[i].key, slots[i].name), BrokerId(slots[j].key, slots[j].name)) <==> i == j
  {
    var slots := Run(Empty(MAX_BROKER_NUM), es).slots;
    KeysStayDistinct(MAX_BROKER_NUM, es);
    MatchIsExact(slots[i].key, slots[i].name, slots[j].key, slots[j].name);
  }

  /** Every thread also subscribes to "svc_reg"; a broker's messages go to all
      threads exactly when its host is "svc" and its name starts with "reg", or
      its host goes on from "svc_" so. */
  lemma RegistrationTopicClash(h: string, n: string)
    ensures Matches("svc_reg", BrokerId(h, n)) <==>
            (h == "svc" && "reg" <= n) || ("svc_" <= h && "reg" <= BrokerId(h[4..], n))
  {
    assert "svc_reg" == BrokerId("svc", "reg") && "svc" + "_" == "svc_";
    UnderscoreInside(h, "svc");
    MatchIsExact("svc", "reg", h, n);
  }

  /** Two hosts that are not apart can share one id; hosts with underscores
      that do not continue each other cannot. */
  lemma UnderscoreHostsCollide()
    ensures Matches(BrokerId("a", "b_c"), BrokerId("a_b", "c")) && Matches(BrokerId("a_b", "c"), BrokerId("a", "b_c"))
    ensures Apart("a_b", "c_d")
  {
  }
}
