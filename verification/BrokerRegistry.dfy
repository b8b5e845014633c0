/** broker.c: service registration, expiry and slot release on the live structures. */
module BrokerRegistry {
  import opened Names
  import opened Forest
  import opened Nodes
  import opened TreeOrder
  import opened Registry
  import opened Wire
  import opened Sockets
  import opened Router

  const MAX_SVC_NUM: nat := 128
  const LOCALDOMAIN := "localdomain"

  /** C `short`. */
  type Short = x: int | -0x8000 <= x < 0x8000 witness 0

  /** `port / 10 * 10`: C division truncates toward zero. */
  function Decade(port: Short): Short
  {
    var p: int := port;
    if p >= 0 then p / 10 * 10 else -((-p) / 10 * 10)
  }

  /** The part of `mq_regi_t` that is read or stamped here. */
  datatype MqRegi = MqRegi(brokerName: string, svcHost: string, svc: string, name: string, traffic: Traffic, port: Short, ipc: bool)

  /** The registration as two tree levels; tSvc and tProc are the clock reads of the two `chk_tree` calls. */
  function ToRegi(m: MqRegi, tSvc: int, tProc: int): (r: Regi<int>)
    ensures r.levels.Valid()
  {
    Regi(Decade(m.port), Levels([m.svc, m.name], [m.svcHost, m.svcHost], [tSvc, tProc],
                                [Some(m.traffic), Some(m.traffic)]))
  }

  /** The host a registration is entered under. */
  function Located(m: MqRegi, peerAddress: string): MqRegi
  {
    m.(svcHost := if m.ipc then LOCALDOMAIN else peerAddress)
  }

  // ----- What a registration means, in the message's own fields -------------

  /** A slot is used for the message's port decade; by its own service, or by another. */
  predicate Serves(s: Reg<int>, port: Short, svc: string)
  {
    var i := FindKey(s.slots, Decade(port));
    i < |s.slots| && s.slots[i].name == svc
  }

  predicate Taken(s: Reg<int>, port: Short, svc: string)
  {
    var i := FindKey(s.slots, Decade(port));
    i < |s.slots| && s.slots[i].name != svc
  }

  /** A served service: its node and its process's node are there and renewed,
      each with its own clock read and with the message's counters; a new node's
      host is the registration's; no other path, no slot and no event changes. */
  ghost predicate Reported(s: Reg<int>, s': Reg<int>, m: MqRegi, host: string, tSvc: int, tProc: int)
  {
    && s'.slots == s.slots && s'.jobs == s.jobs
    && forall q: seq<string> :: q != [] ==> NodeReported(s.tree, s'.tree, q, m, host, tSvc, tProc)
  }

  predicate NodeReported(tree: seq<Node>, tree': seq<Node>, q: seq<string>, m: MqRegi, host: string, tSvc: int, tProc: int)
    requires q != []
  {
    var before, after := Lookup(tree, q), Lookup(tree', q);
    if q == [m.svc] then Renewed(before, after, host, tSvc, None, Some(m.traffic))
    else if q == [m.svc, m.name] then Renewed(before, after, host, tProc, None, Some(m.traffic))
    else after == before
  }

  /** A service that gets slot i: only its own node is entered, and its start is scheduled. */
  ghost predicate Opened(s: Reg<int>, s': Reg<int>, m: MqRegi, host: string, tSvc: int, i: nat)
    requires i < |s.slots|
  {
    && s'.slots == s.slots[i := Used(Decade(m.port), m.svc, false)] && s'.jobs == s.jobs + [Start(i)]
    && forall q: seq<string> :: q != [] ==> NodeOpened(s.tree, s'.tree, q, m, host, tSvc, i)
  }

  predicate NodeOpened(tree: seq<Node>, tree': seq<Node>, q: seq<string>, m: MqRegi, host: string, tSvc: int, i: nat)
    requires q != []
  {
    var before, after := Lookup(tree, q), Lookup(tree', q);
    if q == [m.svc] then Renewed(before, after, host, tSvc, Some(i), Some(m.traffic)) else after == before
  }

  /** All cases of `chk_svc_dealer` for a message whose processes are at `host`. */
  ghost predicate Registered(s: Reg<int>, s': Reg<int>, m: MqRegi, host: string, tSvc: int, tProc: int)
  {
    var free := FindFree(s.slots);
    if Serves(s, m.port, m.svc) then Reported(s, s', m, host, tSvc, tProc)
    else if Taken(s, m.port, m.svc) || free == |s.slots| then s' == s
    else Opened(s, s', m, host, tSvc, free)
  }

  lemma RegisterReports(s: Reg<int>, m: MqRegi, tSvc: int, tProc: int)
    requires Sorted(s.tree) && Serves(s, m.port, m.svc)
    ensures Reported(s, Register(s, ToRegi(m, tSvc, tProc)), m, m.svcHost, tSvc, tProc)
  {
    var r := ToRegi(m, tSvc, tProc).levels;
    forall q: seq<string> | q != []
      ensures NodeReported(s.tree, ChkPath(s.tree, r, 2), q, m, m.svcHost, tSvc, tProc)
    {
      ChkPathRenews(s.tree, r, 2, q);
      PathOfTwo(m.svc, m.name, q);
    }
  }

  lemma PathOfTwo(a: string, b: string, q: seq<string>)
    requires q != []
    ensures |q| <= 2 && q == [a, b][..|q|] <==> q == [a] || q == [a, b]
  {
    assert [a, b][..1] == [a] && [a, b][..2] == [a, b];
  }

  lemma RegisterOpens(s: Reg<int>, m: MqRegi, tSvc: int, tProc: int)
    requires Sorted(s.tree) && FindKey(s.slots, Decade(m.port)) == |s.slots| && FindFree(s.slots) < |s.slots|
    ensures Opened(s, Register(s, ToRegi(m, tSvc, tProc)), m, m.svcHost, tSvc, FindFree(s.slots))
  {
    var r, i := ToRegi(m, tSvc, tProc).levels, FindFree(s.slots);
    assert r.path[..1] == [m.svc];
    forall q: seq<string> | q != []
      ensures NodeOpened(s.tree, ChkLevel(s.tree, r, 0, Some(i)), q, m, m.svcHost, tSvc, i)
    {
      ChkTreeRenews(s.tree, [m.svc], r.Fresh(0, Some(i)), Some(m.traffic));
      ChkTreeIsUpsert(s.tree, [m.svc], r.Fresh(0, Some(i)), Some(m.traffic), q);
    }
  }

  lemma RegisterIsExact(s: Reg<int>, m: MqRegi, tSvc: int, tProc: int)
    requires Sorted(s.tree)
    ensures Registered(s, Register(s, ToRegi(m, tSvc, tProc)), m, m.svcHost, tSvc, tProc)
  {
    if Serves(s, m.port, m.svc) {
      RegisterReports(s, m, tSvc, tProc);
    } else if !Taken(s, m.port, m.svc) && FindFree(s.slots) < |s.slots| {
      RegisterOpens(s, m, tSvc, tProc);
    }
  }

  /** The registration depends on these fields only. */
  lemma SameFields(s: Reg<int>, s': Reg<int>, m: MqRegi, m': MqRegi, host: string, tSvc: int, tProc: int)
    requires m'.svc == m.svc && m'.name == m.name && m'.traffic == m.traffic && m'.port == m.port
    requires Sorted(s.tree) ==> Registered(s, s', m', host, tSvc, tProc)
    ensures Sorted(s.tree) ==> Registered(s, s', m, host, tSvc, tProc)
  {
    assert forall q: seq<string> :: q != [] && NodeReported(s.tree, s'.tree, q, m', host, tSvc, tProc) ==>
                                      NodeReported(s.tree, s'.tree, q, m, host, tSvc, tProc);
    var i := FindFree(s.slots);
    assert forall q: seq<string> :: q != [] && NodeOpened(s.tree, s'.tree, q, m', host, tSvc, i) ==>
                                      NodeOpened(s.tree, s'.tree, q, m, host, tSvc, i);
  }

  /** Two processes of one served service, one after the other: two nodes, each
      with its own heartbeat, below one service node. */
  lemma TwoProcesses(s: Reg<int>, s1: Reg<int>, s2: Reg<int>, m: MqRegi, name: string, host: string, host': string,
                     t: (int, int), t': (int, int))
    requires Serves(s, m.port, m.svc) && name != m.name
    requires Registered(s, s1, m, host, t.0, t.1) && Registered(s1, s2, m.(name := name), host', t'.0, t'.1)
    ensures var first, second := Lookup(s2.tree, [m.svc, m.name]), Lookup(s2.tree, [m.svc, name]);
            && first.Some? && first.value.hb == t.1 && second.Some? && second.value.hb == t'.1
            && Lookup(s2.tree, [m.svc]).Some? && Lookup(s2.tree, [m.svc]).value.hb == t'.0
  {
    assert NodeReported(s.tree, s1.tree, [m.svc, m.name], m, host, t.0, t.1);
    assert NodeReported(s1.tree, s2.tree, [m.svc, m.name], m.(name := name), host', t'.0, t'.1);
    assert NodeReported(s1.tree, s2.tree, [m.svc, name], m.(name := name), host', t'.0, t'.1);
    assert NodeReported(s1.tree, s2.tree, [m.svc], m.(name := name), host', t'.0, t'.1);
  }

  class MainCtx {
    const svcCtx: array<Slot<int>>
    const rootNode: GNode
    var jobs: seq<Job>

    constructor (host: string, now: int)
      ensures Valid() && fresh(this) && fresh(svcCtx) && fresh(rootNode.repr)
      ensures State() == Reg(seq(MAX_SVC_NUM, _ => Free), [], [])
    {
      svcCtx := new Slot<int>[MAX_SVC_NUM](_ => Free);
      rootNode := new GNode("Broker", Info(host, now, NO_TRAFFIC, None));
      jobs := [];
    }

    ghost predicate Valid()
      reads this, rootNode, rootNode.repr
    {
      rootNode.Valid() && svcCtx.Length == MAX_SVC_NUM
    }

    ghost function State(): Reg<int>
      requires Valid()
      reads this, svcCtx, rootNode, rootNode.repr
    {
      Reg(svcCtx[..], rootNode.Tree().kids, jobs)
    }

    /** `create_new_dealer`: the first free slot is claimed and its start scheduled. */
    method CreateNewDealer(m: MqRegi) returns (slot: Option<nat>)
      requires Valid()
      modifies this, svcCtx
      ensures Valid()
      ensures var free := FindFree(old(svcCtx[..]));
              if free == MAX_SVC_NUM then slot == None && svcCtx[..] == old(svcCtx[..]) && jobs == old(jobs)
              else slot == Some(free) && svcCtx[..] == old(svcCtx[..])[free := Used(Decade(m.port), m.svc, false)]
                   && jobs == old(jobs) + [Start(free)]
    {
      slot := None;
      for i := 0 to svcCtx.Length
        invariant Valid() && slot == None && svcCtx[..] == old(svcCtx[..]) && jobs == old(jobs)
        invariant forall j :: 0 <= j < i ==> svcCtx[j].Used?
      {
        if svcCtx[i].Free? {
          assert FindFree(svcCtx[..]) == i;
          svcCtx[i] := Used(Decade(m.port), m.svc, false);
          jobs := jobs + [Start(i)];
          return Some(i);
        }
      }
    }

    /** `chk_svc_dealer`. */
    method ChkSvcDealer(m: MqRegi, tSvc: int, tProc: int)
      requires Valid()
      modifies this, svcCtx, rootNode.repr
      ensures Valid() && fresh(rootNode.repr - old(rootNode.repr))
      ensures State() == Register(old(State()), ToRegi(m, tSvc, tProc))
      ensures Sorted(old(State()).tree) ==> Registered(old(State()), State(), m, m.svcHost, tSvc, tProc)
    {
      CheckSlots(m, tSvc, tProc);
      if Sorted(old(State()).tree) { RegisterIsExact(old(State()), m, tSvc, tProc); }
    }

    /** Its loop over the slots and what follows. */
    method CheckSlots(m: MqRegi, tSvc: int, tProc: int)
      requires Valid()
      modifies this, svcCtx, rootNode.repr
      ensures Valid() && fresh(rootNode.repr - old(rootNode.repr))
      ensures State() == Register(old(State()), ToRegi(m, tSvc, tProc))
    {
      var targetPort, alreadyServiced := Decade(m.port), false;
      ghost var r := ToRegi(m, tSvc, tProc);
      ghost var slots := svcCtx[..];
      for i := 0 to svcCtx.Length
        invariant !alreadyServiced
        invariant forall j :: 0 <= j < i ==> !(slots[j].Used? && slots[j].key == targetPort)
      {
        if svcCtx[i].Used? && svcCtx[i].key == targetPort {
          assert FindKey(slots, targetPort) == i;
          if svcCtx[i].name != m.svc {
            return;
          }
          alreadyServiced := true;
          break;
        }
      }
      if alreadyServiced {
        assert Classify(slots, targetPort, m.svc).Serviced?;
        ChkBoth(m, tSvc, tProc);
      } else {
        assert FindKey(slots, targetPort) == |slots|;
        var newSvc := CreateNewDealer(m);
        if newSvc.Some? {
          assert r.levels.path[..1] == [m.svc];
          rootNode.ChkTree([m.svc], Info(m.svcHost, tSvc, NO_TRAFFIC, newSvc), Some(m.traffic));
        }
      }
    }

    /** The `chk_tree` call for one level of a registration. */
    method ChkOne(r: Levels, k: nat)
      requires Valid() && r.Valid() && k < |r.path|
      modifies rootNode.repr
      ensures Valid() && fresh(rootNode.repr - old(rootNode.repr))
      ensures rootNode.Tree().kids == ChkLevel(old(rootNode.Tree()).kids, r, k, None)
    {
      rootNode.ChkTree(r.path[..k + 1], r.Fresh(k, None), r.notes[k]);
    }

    /** The two `chk_tree` calls of a served registration. */
    method ChkBoth(m: MqRegi, tSvc: int, tProc: int)
      requires Valid()
      modifies rootNode.repr
      ensures Valid() && fresh(rootNode.repr - old(rootNode.repr))
      ensures rootNode.Tree().kids == ChkPath(old(rootNode.Tree()).kids, ToRegi(m, tSvc, tProc).levels, 2)
    {
      var r := ToRegi(m, tSvc, tProc).levels;
      ghost var kids := rootNode.Tree().kids;
      assert ChkPath(kids, r, 0) == kids;
      ChkOne(r, 0);
      assert rootNode.Tree().kids == ChkPath(kids, r, 1);
      ChkOne(r, 1);
    }

    /** `regi_action` for MQ_REG: the host is taken from the transport, and the
        registration goes on to the hub, if there is one, under the broker's
        name, whatever becomes of it here; `encode` stands for the struct's bytes. */
    method RegiAction(m: MqRegi, peerAddress: string, brokerName: string, toHub: Option<Socket>, encode: MqRegi -> Bytes,
                      tSvc: int, tProc: int)
      requires Valid()
      modifies this, svcCtx, rootNode.repr, if toHub.Some? then {toHub.value} else {}
      ensures Valid() && fresh(rootNode.repr - old(rootNode.repr))
      ensures State() == Register(old(State()), ToRegi(Located(m, peerAddress), tSvc, tProc))
      ensures Sorted(old(State()).tree) ==>
                Registered(old(State()), State(), m, if m.ipc then "localdomain" else peerAddress, tSvc, tProc)
      ensures toHub.Some? ==>
                && toHub.value.InState() == old(toHub.value.InState())
                && toHub.value.OutState() ==
                   SendChain(old(toHub.value.OutState()), RegiMessage(encode(Located(m, peerAddress).(brokerName := brokerName))), 0).0
    {
      var svcRegi := Located(m, peerAddress);
      if toHub.Some? {
        svcRegi := svcRegi.(brokerName := brokerName);
        var _ := SendAll(toHub.value, RegiMessage(encode(svcRegi)), 0);
      }
      ChkSvcDealer(svcRegi, tSvc, tProc);
      SameFields(old(State()), State(), m, svcRegi, if m.ipc then "localdomain" else peerAddress, tSvc, tProc);
    }

    /** `removetree_callback`. */
    method RemovetreeCallback(now: int)
      requires Valid()
      modifies this`jobs, rootNode.repr
      ensures Valid() && rootNode.repr == old(rootNode.repr)
      ensures State() == SweepTree(old(State()), now)
    {
      var released := rootNode.TraverseDotRemove(now);
      jobs := jobs + ReleaseJobs(released);
    }

    /** The service thread runs its oldest event: `start_svc_polling` or
        `svc_release`.  The event's pointer leads into the table, as
        RegistryRuns.JobIsSafe shows for consistent states. */
    method RunOldest()
      requires Valid() && (jobs != [] ==> jobs[0].slot < MAX_SVC_NUM)
      modifies this`jobs, svcCtx
      ensures Valid()
      ensures State() == RunJob(old(State()))
    {
      if jobs != [] {
        var i := jobs[0].slot;
        if jobs[0].Release? {
          svcCtx[i] := Free;
        } else if svcCtx[i].Used? {
          svcCtx[i] := svcCtx[i].(polling := true);
        }
        jobs := jobs[1..];
      }
    }
  }
}
