/** The index against the log of registrations it summarises, and its pruning. */
module DirectoryTheory {
  import opened Names
  import opened Forest
  import opened TreeOrder
  import opened Directory

  // ----- The index as a map -------------------------------------------------

  /** The heartbeat of a (broker, service) entry. */
  function Heard(brokers: seq<Node>, id: string, svc: string): Option<int>
  {
    var i := IndexOf(brokers, id);
    if i == |brokers| then None else HeardBelow(brokers[i].kids, svc)
  }

  /** The heartbeat of a broker's own entry. */
  function BrokerHeard(brokers: seq<Node>, id: string): Option<int>
  {
    var i := IndexOf(brokers, id);
    if i == |brokers| then None else Some(brokers[i].info.hb)
  }

  predicate KeptOrGone(after: Option<int>, before: Option<int>)
  {
    after == before || after == None
  }

  function HeardBelow(svcs: seq<Node>, svc: string): Option<int>
  {
    var j := IndexOf(svcs, svc);
    if j == |svcs| then None else Some(svcs[j].info.hb)
  }

  /** No name occurs twice among the brokers or among the services of one. */
  ghost predicate Unique(kids: seq<Node>)
  {
    && (forall i, j :: 0 <= i < j < |kids| ==> kids[i].name != kids[j].name)
    && forall n :: n in kids ==> Unique(n.kids)
  }

  /** Entering a name leaves every other name where it was. */
  lemma EnterPosition(kids: seq<Node>, name: string, now: int, other: string)
    ensures var after := AddOrTouch(kids, name, now); var i := IndexOf(after, other);
            && IndexOf(kids, name) == IndexOf(after, name) < |after| && after[IndexOf(after, name)].info.hb == now
            && (other != name ==> if IndexOf(kids, other) == |kids| then i == |after| else i == IndexOf(kids, other) && after[i] == kids[i])
  {
    var after := AddOrTouch(kids, name, now);
    FirstPosition(after, name, IndexOf(kids, name));
    if other != name {
      FirstPosition(after, other, if IndexOf(kids, other) == |kids| then |after| else IndexOf(kids, other));
    }
  }

  lemma EnterUnique(kids: seq<Node>, name: string, now: int)
    requires Unique(kids)
    ensures Unique(AddOrTouch(kids, name, now))
  {
  }

  /** A registration sets the heartbeats of its own pair and broker, each to its
      own clock read, and no others. */
  lemma EnterSetsPair(brokers: seq<Node>, id: string, svc: string, tBroker: int, tSvc: int, id': string, svc': string)
    ensures Heard(ChkSmallTree(brokers, id, svc, tBroker, tSvc), id', svc') ==
            if id' == id && svc' == svc then Some(tSvc) else Heard(brokers, id', svc')
    ensures BrokerHeard(ChkSmallTree(brokers, id, svc, tBroker, tSvc), id') ==
            if id' == id then Some(tBroker) else BrokerHeard(brokers, id')
  {
    var b := AddOrTouch(brokers, id, tBroker);
    EnterPosition(brokers, id, tBroker, id');
    var i := IndexOf(b, id);
    var after := b[i := b[i].(kids := AddOrTouch(b[i].kids, svc, tSvc))];
    FirstPosition(after, id', IndexOf(b, id'));
    EnterPosition(b[i].kids, svc, tSvc, svc');
  }

  lemma EnterKeepsShape(brokers: seq<Node>, id: string, svc: string, now: int)
    requires Unique(brokers) && HbOrdered(brokers) && HbBounded(brokers, now)
    ensures var after := ChkSmallTree(brokers, id, svc, now, now);
            Unique(after) && HbOrdered(after) && HbBounded(after, now)
  {
    var b := AddOrTouch(brokers, id, now);
    EnterUnique(brokers, id, now);
    EnterPosition(brokers, id, now, id);
    EnterHb(brokers, id, now);
    var i := IndexOf(b, id);
    assert b[i] in b;
    EnterUnique(b[i].kids, svc, now);
    EnterHb(b[i].kids, svc, now);
    var n := b[i].(kids := AddOrTouch(b[i].kids, svc, now));
    var after := b[i := n];
    forall m | m in after
      ensures Unique(m.kids) && HbOrdered(m.kids) && m.info.hb <= now && HbBounded(m.kids, now) && forall c :: c in m.kids ==> c.info.hb <= m.info.hb
    {
      assert m in b || m == n;
    }
  }

  lemma EnterHb(kids: seq<Node>, name: string, now: int)
    requires HbOrdered(kids) && HbBounded(kids, now)
    ensures var after := AddOrTouch(kids, name, now); HbOrdered(after) && HbBounded(after, now)
  {
  }

  // ----- Pruning ------------------------------------------------------------

  lemma {:induction false} RemovedPosition(kids: seq<Node>, j: nat, name: string)
    requires Unique(kids) && j < |kids|
    ensures var after := kids[..j] + kids[j + 1..];
            if name == kids[j].name || IndexOf(kids, name) == |kids| then IndexOf(after, name) == |after|
            else IndexOf(after, name) < |after| && after[IndexOf(after, name)] == kids[IndexOf(kids, name)]
  {
    var after, i := kids[..j] + kids[j + 1..], IndexOf(kids, name);
    forall a | 0 <= a < |after| ensures after[a] == kids[if a < j then a else a + 1] {}
    if name == kids[j].name || i == |kids| {
      FirstPosition(after, name, |after|);
    } else {
      FirstPosition(after, name, if i < j then i else i - 1);
    }
  }

  lemma HeardFirst(b: Node, rest: seq<Node>, id: string, svc: string)
    ensures Heard([b] + rest, id, svc) == if id == b.name then HeardBelow(b.kids, svc) else Heard(rest, id, svc)
  {
  }

  /** The node the tick destroys: a broker, or one of a broker's services. */
  datatype Taken = TakenBroker(id: string) | TakenService(id: string, svc: string) | TakenNone

  function FirstTaken(brokers: seq<Node>, now: int): Taken
  {
    if brokers == [] then TakenNone
    else
      var b := brokers[0];
      var j := FirstOld(b.kids, now);
      if Old(b.info.hb, now) then TakenBroker(b.name)
      else if j < |b.kids| then TakenService(b.name, b.kids[j].name)
      else FirstTaken(brokers[1..], now)
  }

  predicate TakesPair(brokers: seq<Node>, now: int, id: string, svc: string)
  {
    FirstTaken(brokers, now) in [TakenBroker(id), TakenService(id, svc)]
  }

  /** What is taken is in the index, and old. */
  lemma {:induction false} TakenIsOld(brokers: seq<Node>, now: int)
    requires Unique(brokers)
    ensures var t := FirstTaken(brokers, now);
            && (t.TakenBroker? ==> BrokerHeard(brokers, t.id).Some? && Old(BrokerHeard(brokers, t.id).value, now))
            && (t.TakenService? ==> Heard(brokers, t.id, t.svc).Some? && Old(Heard(brokers, t.id, t.svc).value, now))
            && (t.TakenNone? ==> forall b :: b in brokers ==> !Old(b.info.hb, now))
    decreases brokers
  {
    if brokers != [] {
      var b, rest := brokers[0], brokers[1..];
      assert b in brokers && (forall n :: n in rest ==> n in brokers) && brokers == [b] + rest;
      var j := FirstOld(b.kids, now);
      if !Old(b.info.hb, now) && j < |b.kids| {
        FirstPosition(b.kids, b.kids[j].name, j);
      } else if !Old(b.info.hb, now) {
        TakenIsOld(rest, now);
        TakenLater(b, rest, now);
      }
    }
  }

  lemma OthersNamed(b: Node, rest: seq<Node>)
    requires Unique([b] + rest)
    ensures forall n :: n in rest ==> n.name != b.name
  {
    var all := [b] + rest;
    forall k | 0 <= k < |rest| ensures rest[k].name != b.name { assert all[0] == b && all[k + 1] == rest[k]; }
  }

  lemma TakenLater(b: Node, rest: seq<Node>, now: int)
    requires Unique([b] + rest)
    ensures var t := FirstTaken(rest, now);
            && (t.TakenBroker? && BrokerHeard(rest, t.id).Some? ==> BrokerHeard([b] + rest, t.id) == BrokerHeard(rest, t.id))
            && (t.TakenService? && Heard(rest, t.id, t.svc).Some? ==> Heard([b] + rest, t.id, t.svc) == Heard(rest, t.id, t.svc))
  {
    OthersNamed(b, rest);
    match FirstTaken(rest, now)
    case TakenBroker(id) => LaterName(b, rest, id);
    case TakenService(id, svc) => LaterName(b, rest, id); HeardFirst(b, rest, id, svc);
    case TakenNone =>
  }

  lemma LaterName(b: Node, rest: seq<Node>, id: string)
    requires forall n :: n in rest ==> n.name != b.name
    ensures IndexOf(rest, id) < |rest| ==> b.name != id && BrokerHeard([b] + rest, id) == BrokerHeard(rest, id)
  {
    BrokerFirst(b, rest, id);
    if IndexOf(rest, id) < |rest| { assert rest[IndexOf(rest, id)] in rest; }
  }

  lemma BrokerGone(b: Node, rest: seq<Node>, id: string, svc: string)
    requires Unique([b] + rest)
    ensures BrokerHeard(rest, id) == if id == b.name then None else BrokerHeard([b] + rest, id)
    ensures Heard(rest, id, svc) == if id == b.name then None else Heard([b] + rest, id, svc)
  {
    var all := [b] + rest;
    RemovedPosition(all, 0, id);
    assert all[..0] + all[1..] == rest;
  }

  lemma ServiceGone(b: Node, rest: seq<Node>, j: nat, id: string, svc: string)
    requires Unique(b.kids) && j < |b.kids|
    ensures var left := [b.(kids := b.kids[..j] + b.kids[j + 1..])] + rest;
            && BrokerHeard(left, id) == BrokerHeard([b] + rest, id)
            && Heard(left, id, svc) == if id == b.name && svc == b.kids[j].name then None else Heard([b] + rest, id, svc)
  {
    var b' := b.(kids := b.kids[..j] + b.kids[j + 1..]);
    HeardWithout(b.kids, j, svc);
    HeardFirst(b, rest, id, svc);
    HeardFirst(b', rest, id, svc);
    BrokerFirst(b, rest, id);
    BrokerFirst(b', rest, id);
  }

  lemma HeardWithout(kids: seq<Node>, j: nat, svc: string)
    requires Unique(kids) && j < |kids|
    ensures HeardBelow(kids[..j] + kids[j + 1..], svc) == if svc == kids[j].name then None else HeardBelow(kids, svc)
  {
    RemovedPosition(kids, j, svc);
  }

  predicate PairPruned(brokers: seq<Node>, now: int, id: string, svc: string)
  {
    && Heard(Prune(brokers, now), id, svc) == (if TakesPair(brokers, now, id, svc) then None else Heard(brokers, id, svc))
    && BrokerHeard(Prune(brokers, now), id) == (if FirstTaken(brokers, now) == TakenBroker(id) then None else BrokerHeard(brokers, id))
  }

  lemma PrunedHere(b: Node, rest: seq<Node>, now: int, id: string, svc: string)
    requires Unique([b] + rest) && (Old(b.info.hb, now) || FirstOld(b.kids, now) < |b.kids|)
    ensures PairPruned([b] + rest, now, id, svc)
  {
    var brokers, j := [b] + rest, FirstOld(b.kids, now);
    assert b in brokers && brokers[1..] == rest && brokers[0] == b;
    if Old(b.info.hb, now) {
      assert FirstTaken(brokers, now) == TakenBroker(b.name);
      BrokerGone(b, rest, id, svc);
    } else {
      assert FirstTaken(brokers, now) == TakenService(b.name, b.kids[j].name);
      ServiceGone(b, rest, j, id, svc);
    }
  }

  lemma PrunedLater(b: Node, rest: seq<Node>, now: int, id: string, svc: string)
    requires Unique([b] + rest) && !Old(b.info.hb, now) && FirstOld(b.kids, now) == |b.kids| && PairPruned(rest, now, id, svc)
    ensures PairPruned([b] + rest, now, id, svc)
  {
    var brokers := [b] + rest;
    assert brokers[1..] == rest && brokers[0] == b;
    assert FirstTaken(brokers, now) == FirstTaken(rest, now) && Prune(brokers, now) == [b] + Prune(rest, now);
    HeardFirst(b, rest, id, svc);
    HeardFirst(b, Prune(rest, now), id, svc);
    BrokerFirst(b, rest, id);
    BrokerFirst(b, Prune(rest, now), id);
    NotTakenAgain(b, rest, now);
  }

  lemma BrokerFirst(b: Node, rest: seq<Node>, id: string)
    ensures BrokerHeard([b] + rest, id) == if id == b.name then Some(b.info.hb) else BrokerHeard(rest, id)
  {
  }

  /** One tick, pair by pair: gone are the pairs of the node it takes, and no others. */
  lemma {:induction false} PrunedPair(brokers: seq<Node>, now: int, id: string, svc: string)
    requires Unique(brokers)
    ensures PairPruned(brokers, now, id, svc)
    decreases brokers
  {
    if brokers != [] {
      var b, rest := brokers[0], brokers[1..];
      assert brokers == [b] + rest;
      if Old(b.info.hb, now) || FirstOld(b.kids, now) < |b.kids| {
        PrunedHere(b, rest, now, id, svc);
      } else {
        RestUnique(b, rest);
        PrunedPair(rest, now, id, svc);
        PrunedLater(b, rest, now, id, svc);
      }
    }
  }

  lemma RestUnique(b: Node, rest: seq<Node>)
    requires Unique([b] + rest)
    ensures Unique(rest)
  {
    var all := [b] + rest;
    assert all[1..] == rest && forall n :: n in rest ==> n in all;
  }

  /** A later broker has another name. */
  lemma NotTakenAgain(b: Node, rest: seq<Node>, now: int)
    requires Unique([b] + rest)
    ensures FirstTaken(rest, now) != TakenBroker(b.name) && forall svc: string :: FirstTaken(rest, now) != TakenService(b.name, svc)
  {
    OthersNamed(b, rest);
    TakenNamed(rest, now);
  }

  lemma {:induction false} TakenNamed(brokers: seq<Node>, now: int)
    ensures var t := FirstTaken(brokers, now); !t.TakenNone? ==> exists n :: n in brokers && n.name == t.id
    decreases brokers
  {
    if brokers != [] {
      assert brokers[0] in brokers && forall n :: n in brokers[1..] ==> n in brokers;
      TakenNamed(brokers[1..], now);
    }
  }

  /** m is n, possibly without one of its children. */
  ghost predicate Thinned(m: Node, n: Node)
  {
    m.name == n.name && m.info == n.info && (forall c :: c in m.kids ==> c in n.kids) && (Unique(n.kids) ==> Unique(m.kids))
  }

  lemma {:induction false} PruneKeeps(brokers: seq<Node>, now: int, m: Node) returns (n: Node)
    requires m in Prune(brokers, now)
    ensures n in brokers && Thinned(m, n)
    decreases brokers
  {
    var b, rest := brokers[0], brokers[1..];
    var j := FirstOld(b.kids, now);
    if Old(b.info.hb, now) || m in rest {
      n := m;
      assert m in rest;
    } else if j < |b.kids| {
      n := b;
      assert m == b.(kids := b.kids[..j] + b.kids[j + 1..]);
    } else if m == b {
      n := b;
    } else {
      n := PruneKeeps(rest, now, m);
    }
  }

  lemma {:induction false} PruneNames(brokers: seq<Node>, now: int)
    requires Unique(brokers)
    ensures forall i, j :: 0 <= i < j < |Prune(brokers, now)| ==> Prune(brokers, now)[i].name != Prune(brokers, now)[j].name
    decreases brokers
  {
    if brokers != [] {
      var b, rest := brokers[0], brokers[1..];
      assert forall n :: n in rest ==> n in brokers;
      PruneNames(rest, now);
      forall m | m in Prune(rest, now) ensures m.name != b.name {
        var n := PruneKeeps(rest, now, m);
      }
    }
  }

  lemma PruneUnique(brokers: seq<Node>, now: int)
    requires Unique(brokers)
    ensures Unique(Prune(brokers, now))
  {
    PruneNames(brokers, now);
    forall m | m in Prune(brokers, now) ensures Unique(m.kids) {
      var n := PruneKeeps(brokers, now, m);
    }
  }

  lemma RegistrationUnique(brokers: seq<Node>, id: string, svc: string, tBroker: int, tSvc: int)
    requires Unique(brokers)
    ensures Unique(ChkSmallTree(brokers, id, svc, tBroker, tSvc))
  {
    var b := AddOrTouch(brokers, id, tBroker);
    EnterUnique(brokers, id, tBroker);
    EnterPosition(brokers, id, tBroker, id);
    var i := IndexOf(b, id);
    assert b[i] in b;
    EnterUnique(b[i].kids, svc, tSvc);
  }

  // ----- Against the log ----------------------------------------------------

  /** A registration entered by the thread, with the clock reads for the
      broker's and the service's entry, or a pruning tick. */
  datatype Event = Heartbeat(id: string, svc: string, tBroker: int, tSvc: int) | Tick(now: int)

  function Begin(e: Event): int
  {
    if e.Tick? then e.now else e.tBroker
  }

  function End(e: Event): int
  {
    if e.Tick? then e.now else e.tSvc
  }

  function Apply(brokers: seq<Node>, e: Event): seq<Node>
  {
    match e
    case Heartbeat(id, svc, tBroker, tSvc) => ChkSmallTree(brokers, id, svc, tBroker, tSvc)
    case Tick(now) => Prune(brokers, now)
  }

  function After(es: seq<Event>): seq<Node>
  {
    if es == [] then [] else Apply(After(es[..|es| - 1]), es[|es| - 1])
  }

  /** The last registration of the pair in the log. */
  function LastRegi(es: seq<Event>, id: string, svc: string): (r: Option<Event>)
    ensures r.Some? ==> r.value.Heartbeat? && r.value.id == id && r.value.svc == svc && r.value in es
  {
    if es == [] then None
    else
      var e := es[|es| - 1];
      if e.Heartbeat? && e.id == id && e.svc == svc then Some(e) else LastRegi(es[..|es| - 1], id, svc)
  }

  /** The last time the log has a registration of the pair. */
  function Logged(es: seq<Event>, id: string, svc: string): Option<int>
  {
    var e := LastRegi(es, id, svc);
    if e.Some? then Some(e.value.tSvc) else None
  }

  /** The last time the log has a registration of any service of the broker. */
  function LoggedBroker(es: seq<Event>, id: string): Option<int>
  {
    if es == [] then None
    else
      var e := es[|es| - 1];
      if e.Heartbeat? && e.id == id then Some(e.tBroker) else LoggedBroker(es[..|es| - 1], id)
  }

  /** The clock is never set back; the service's read follows the broker's. */
  predicate Chronological(es: seq<Event>)
  {
    && (forall e :: e in es ==> Begin(e) <= End(e))
    && forall k :: 0 < k < |es| ==> End(es[k - 1]) <= Begin(es[k])
  }

  /** Some tick after its last registration found the pair or its broker old. */
  predicate Lost(es: seq<Event>, id: string, svc: string)
  {
    es != [] &&
    var before := es[..|es| - 1];
    match es[|es| - 1]
    case Heartbeat(id', svc', _, _) => (id' != id || svc' != svc) && Lost(before, id, svc)
    case Tick(now) =>
      || Lost(before, id, svc)
      || (Logged(before, id, svc).Some? && Old(Logged(before, id, svc).value, now))
      || (Logged(before, id, svc).Some? && LoggedBroker(before, id).Some? && Old(LoggedBroker(before, id).value, now))
  }

  /** The index after a log: no name twice, and what it holds is the log's last
      word; what it does not hold was never logged, or lost. */
  ghost predicate Faithful(brokers: seq<Node>, es: seq<Event>)
  {
    && Unique(brokers)
    && (forall id: string :: KeptOrGone(BrokerHeard(brokers, id), LoggedBroker(es, id)))
    && forall id: string, svc: string :: PairFaithful(brokers, es, id, svc)
  }

  predicate PairFaithful(brokers: seq<Node>, es: seq<Event>, id: string, svc: string)
  {
    Heard(brokers, id, svc) == Logged(es, id, svc) || (Heard(brokers, id, svc) == None && Lost(es, id, svc))
  }

  lemma HeartbeatFaithful(brokers: seq<Node>, es: seq<Event>, e: Event)
    requires Faithful(brokers, es) && e.Heartbeat?
    ensures Faithful(Apply(brokers, e), es + [e])
  {
    var after, all := Apply(brokers, e), es + [e];
    assert all[..|all| - 1] == es && all[|all| - 1] == e;
    RegistrationUnique(brokers, e.id, e.svc, e.tBroker, e.tSvc);
    forall id: string, svc: string ensures PairFaithful(after, all, id, svc) {
      EnterSetsPair(brokers, e.id, e.svc, e.tBroker, e.tSvc, id, svc);
      assert PairFaithful(brokers, es, id, svc);
    }
    forall id: string ensures KeptOrGone(BrokerHeard(after, id), LoggedBroker(all, id)) {
      EnterSetsPair(brokers, e.id, e.svc, e.tBroker, e.tSvc, id, "");
      assert KeptOrGone(BrokerHeard(brokers, id), LoggedBroker(es, id));
    }
  }

  lemma TickFaithful(brokers: seq<Node>, es: seq<Event>, now: int)
    requires Faithful(brokers, es)
    ensures Faithful(Prune(brokers, now), es + [Tick(now)])
  {
    var after, all := Prune(brokers, now), es + [Tick(now)];
    assert all[..|all| - 1] == es && all[|all| - 1] == Tick(now);
    PruneUnique(brokers, now);
    TakenIsOld(brokers, now);
    forall id: string, svc: string ensures PairFaithful(after, all, id, svc) {
      PrunedPair(brokers, now, id, svc);
      assert PairFaithful(brokers, es, id, svc);
      assert KeptOrGone(BrokerHeard(brokers, id), LoggedBroker(es, id));
    }
    forall id: string ensures KeptOrGone(BrokerHeard(after, id), LoggedBroker(all, id)) {
      PrunedPair(brokers, now, id, "");
      assert KeptOrGone(BrokerHeard(brokers, id), LoggedBroker(es, id));
    }
  }

  /** After any interleaving of registrations and ticks each entry carries the
      time its pair, or its broker, was last logged. */
  lemma {:induction false} IndexIsFaithful(es: seq<Event>)
    ensures Faithful(After(es), es)
    decreases |es|
  {
    if es != [] {
      var k := |es| - 1;
      assert es == es[..k] + [es[k]];
      IndexIsFaithful(es[..k]);
      if es[k].Tick? { TickFaithful(After(es[..k]), es[..k], es[k].now); } else { HeartbeatFaithful(After(es[..k]), es[..k], es[k]); }
    }
  }

  /** The pair's last registration read an earlier second for the broker than for the service. */
  predicate Straddled(es: seq<Event>, id: string, svc: string)
  {
    var e := LastRegi(es, id, svc);
    e.Some? && e.value.tBroker < e.value.tSvc
  }

  lemma {:induction false} BrokerLoggedSince(es: seq<Event>, id: string, svc: string)
    requires Chronological(es) && LastRegi(es, id, svc).Some?
    ensures var tb := LoggedBroker(es, id); tb.Some? && LastRegi(es, id, svc).value.tBroker <= tb.value <= End(es[|es| - 1])
    decreases |es|
  {
    var k := |es| - 1;
    assert es[k] in es;
    if LastRegi(es, id, svc) != Some(es[k]) {
      assert forall e :: e in es[..k] ==> e in es;
      BrokerLoggedSince(es[..k], id, svc);
    }
  }

  /** What was lost was old, or its last registration straddled a second. */
  lemma {:induction false} LostIsOldOrStraddled(es: seq<Event>, id: string, svc: string)
    requires Chronological(es) && Lost(es, id, svc)
    ensures Logged(es, id, svc).Some?
    ensures Old(Logged(es, id, svc).value, End(es[|es| - 1])) || Straddled(es, id, svc)
    decreases |es|
  {
    var k := |es| - 1;
    assert es[k] in es && forall e :: e in es[..k] ==> e in es;
    if Lost(es[..k], id, svc) {
      LostIsOldOrStraddled(es[..k], id, svc);
    } else {
      BrokerLoggedSince(es[..k], id, svc);
    }
  }

  /** So a pair without an entry was never logged, or not within the last three
      seconds, or its last registration read two different seconds. */
  lemma IndexFollowsLog(es: seq<Event>)
    requires Chronological(es) && es != []
    ensures Unique(After(es))
    ensures forall id: string, svc: string ::
              || Heard(After(es), id, svc) == Logged(es, id, svc)
              || (Heard(After(es), id, svc) == None && Logged(es, id, svc).Some?
                  && (End(es[|es| - 1]) - Logged(es, id, svc).value > 3 || Straddled(es, id, svc)))
  {
    IndexIsFaithful(es);
    forall id: string, svc: string
      ensures || Heard(After(es), id, svc) == Logged(es, id, svc)
              || (Heard(After(es), id, svc) == None && Logged(es, id, svc).Some?
                  && (End(es[|es| - 1]) - Logged(es, id, svc).value > 3 || Straddled(es, id, svc)))
    {
      assert PairFaithful(After(es), es, id, svc);
      if Lost(es, id, svc) { LostIsOldOrStraddled(es, id, svc); }
    }
  }

  // ----- The query ----------------------------------------------------------

  /** The answer is another broker with the service; there is none only if no other broker has it. */
  ghost predicate Answers(brokers: seq<Node>, me: string, svc: string, r: Option<string>)
  {
    && (r.Some? ==> r.value != me && Heard(brokers, r.value, svc).Some?)
    && (r == None ==> forall id: string :: id != me ==> Heard(brokers, id, svc) == None)
  }

  lemma SkipFirst(b: Node, rest: seq<Node>, me: string, svc: string, r: Option<string>)
    requires Answers(rest, me, svc, r) && (b.name == me || HeardBelow(b.kids, svc) == None)
    requires forall n :: n in rest ==> n.name != b.name
    ensures Answers([b] + rest, me, svc, r)
  {
    forall id: string ensures Heard([b] + rest, id, svc) == if id == b.name then HeardBelow(b.kids, svc) else Heard(rest, id, svc) {
      HeardFirst(b, rest, id, svc);
    }
    if r.Some? {
      var n := rest[IndexOf(rest, r.value)];
      assert n in rest && n.name == r.value;
    }
  }

  lemma {:induction false} QueryIsExact(brokers: seq<Node>, me: string, svc: string)
    requires Unique(brokers)
    ensures Answers(brokers, me, svc, FindSvc(brokers, me, svc))
    decreases brokers
  {
    if brokers != [] {
      var b, rest := brokers[0], brokers[1..];
      assert brokers == [b] + rest && forall n :: n in rest ==> n in brokers;
      QueryIsExact(rest, me, svc);
      HeardFirst(b, rest, b.name, svc);
      if b.name == me || HeardBelow(b.kids, svc) == None { SkipFirst(b, rest, me, svc, FindSvc(rest, me, svc)); }
    }
  }

  /** Broker i can answer the query. */
  predicate Offers(brokers: seq<Node>, i: nat, me: string, svc: string)
    requires i < |brokers|
  {
    brokers[i].name != me && exists j :: 0 <= j < |brokers[i].kids| && brokers[i].kids[j].name == svc
  }

  ghost predicate FirstOffer(brokers: seq<Node>, i: nat, me: string, svc: string)
  {
    && i <= |brokers| && (i < |brokers| ==> Offers(brokers, i, me, svc))
    && forall k :: 0 <= k < i ==> !Offers(brokers, k, me, svc)
  }

  /** Of several brokers that offer the service the first in the index answers. */
  lemma {:induction false} AnswerIsFirst(brokers: seq<Node>, me: string, svc: string) returns (i: nat)
    ensures FirstOffer(brokers, i, me, svc)
    ensures FindSvc(brokers, me, svc) == if i < |brokers| then Some(brokers[i].name) else None
    decreases brokers
  {
    if brokers == [] {
      i := 0;
    } else {
      assert Offers(brokers, 0, me, svc) <==> brokers[0].name != me && IndexOf(brokers[0].kids, svc) < |brokers[0].kids| by {
        var j := IndexOf(brokers[0].kids, svc);
        assert j < |brokers[0].kids| ==> brokers[0].kids[j].name == svc;
      }
      if Offers(brokers, 0, me, svc) {
        i := 0;
      } else {
        i := AnswerIsFirst(brokers[1..], me, svc);
        assert forall k :: 0 < k < |brokers| ==> (Offers(brokers, k, me, svc) <==> Offers(brokers[1..], k - 1, me, svc));
        i := i + 1;
      }
    }
  }

  /** `find_svc_exist_tree` never answers with the asking broker, answers only
      with a broker that registered the service, and finds one whenever another
      broker registered it within the last three seconds, its clock reads agreeing. */
  lemma QueryAgainstLog(es: seq<Event>, me: string, svc: string)
    requires Chronological(es) && es != []
    ensures var r := FindSvc(After(es), me, svc);
            && (r.Some? ==> r.value != me && Logged(es, r.value, svc).Some?)
            && (r == None ==> forall id: string :: id != me && Logged(es, id, svc).Some? ==>
                  End(es[|es| - 1]) - Logged(es, id, svc).value > 3 || Straddled(es, id, svc))
  {
    IndexFollowsLog(es);
    QueryIsExact(After(es), me, svc);
  }

  // ----- Convergence --------------------------------------------------------

  function OldCount(kids: seq<Node>, now: int): nat
  {
    if kids == [] then 0
    else (if Old(kids[0].info.hb, now) then 1 else 0) + OldCount(kids[0].kids, now) + OldCount(kids[1..], now)
  }

  lemma {:induction false} OldCountConcat(a: seq<Node>, b: seq<Node>, now: int)
    ensures OldCount(a + b, now) == OldCount(a, now) + OldCount(b, now)
    decreases |a|
  {
    if a == [] { assert a + b == b; } else { assert (a + b)[1..] == a[1..] + b; OldCountConcat(a[1..], b, now); }
  }

  lemma {:induction false} NoneOld(svcs: seq<Node>, now: int)
    requires FirstOld(svcs, now) == |svcs| && forall n :: n in svcs ==> n.kids == []
    ensures OldCount(svcs, now) == 0
    decreases |svcs|
  {
    if svcs != [] {
      assert svcs[0] in svcs && forall n :: n in svcs[1..] ==> n in svcs;
      NoneOld(svcs[1..], now);
    }
  }

  /** The index has two levels. */
  predicate TwoLevels(brokers: seq<Node>)
  {
    forall b :: b in brokers ==> forall n :: n in b.kids ==> n.kids == []
  }

  lemma OldCountCons(b: Node, rest: seq<Node>, now: int)
    ensures OldCount([b] + rest, now) == (if Old(b.info.hb, now) then 1 else 0) + OldCount(b.kids, now) + OldCount(rest, now)
  {
  }

  /** A tick removes at least one old node, if there is one. */
  lemma {:induction false} TickMakesProgress(brokers: seq<Node>, now: int)
    requires TwoLevels(brokers)
    ensures TwoLevels(Prune(brokers, now))
    ensures if OldCount(brokers, now) == 0 then Prune(brokers, now) == brokers else OldCount(Prune(brokers, now), now) < OldCount(brokers, now)
    decreases |brokers|
  {
    if brokers != [] {
      var b, rest := brokers[0], brokers[1..];
      assert b in brokers && (forall n :: n in rest ==> n in brokers) && brokers == [b] + rest;
      var j := FirstOld(b.kids, now);
      OldCountCons(b, rest, now);
      if !Old(b.info.hb, now) {
        if j < |b.kids| {
          SplitCount(b.kids, j, now);
          OldCountCons(b.(kids := b.kids[..j] + b.kids[j + 1..]), rest, now);
        } else {
          NoneOld(b.kids, now);
          TickMakesProgress(rest, now);
          OldCountCons(b, Prune(rest, now), now);
        }
      }
    }
  }

  lemma SplitCount(kids: seq<Node>, j: nat, now: int)
    requires j < |kids| && Old(kids[j].info.hb, now)
    ensures OldCount(kids[..j] + kids[j + 1..], now) < OldCount(kids, now)
  {
    assert kids == kids[..j] + kids[j..];
    OldCountConcat(kids[..j], kids[j..], now);
    OldCountConcat(kids[..j], kids[j + 1..], now);
    assert kids[j..][1..] == kids[j + 1..];
  }

  function Ticks(brokers: seq<Node>, now: int, n: nat): seq<Node>
    decreases n
  {
    if n == 0 then brokers else Ticks(Prune(brokers, now), now, n - 1)
  }

  lemma TicksLeaveNoneOld(brokers: seq<Node>, now: int, n: nat)
    requires TwoLevels(brokers) && n >= OldCount(brokers, now)
    ensures OldCount(Ticks(brokers, now, n), now) == 0
  {
    NoneOldAtEnd(brokers, now, n, Ticks(brokers, now, n));
  }

  lemma {:induction false} NoneOldAtEnd(brokers: seq<Node>, now: int, n: nat, end: seq<Node>)
    requires TwoLevels(brokers) && n >= OldCount(brokers, now) && end == Ticks(brokers, now, n)
    ensures OldCount(end, now) == 0
    decreases n
  {
    if n > 0 {
      TickMakesProgress(brokers, now);
      NoneOldAtEnd(Prune(brokers, now), now, n - 1, end);
    }
  }

  lemma {:induction false} LogHasTwoLevels(es: seq<Event>)
    ensures TwoLevels(After(es))
    decreases |es|
  {
    if es != [] {
      var before, e := After(es[..|es| - 1]), es[|es| - 1];
      LogHasTwoLevels(es[..|es| - 1]);
      if e.Tick? {
        TickMakesProgress(before, e.now);
      } else {
        EnterTwoLevels(before, e.id, e.svc, e.tBroker, e.tSvc);
      }
    }
  }

  lemma EnterTwoLevels(brokers: seq<Node>, id: string, svc: string, tBroker: int, now: int)
    requires TwoLevels(brokers)
    ensures TwoLevels(ChkSmallTree(brokers, id, svc, tBroker, now))
  {
    var b := AddOrTouch(brokers, id, tBroker);
    EnterPosition(brokers, id, tBroker, id);
    var i := IndexOf(b, id);
    assert i < |brokers| ==> brokers[i] in brokers;
    var svcs := AddOrTouch(b[i].kids, svc, now);
    forall n | n in svcs ensures n.kids == [] {
      var j := IndexOf(b[i].kids, svc);
      assert j < |b[i].kids| ==> b[i].kids[j] in b[i].kids;
      assert n in b[i].kids || n == svcs[j];
    }
    forall m | m in b[i := b[i].(kids := svcs)] ensures forall n :: n in m.kids ==> n.kids == [] {
      assert m == b[i].(kids := svcs) || m in brokers;
    }
  }

  /** In every reachable index, with no new registrations, as many ticks as
      there are old nodes leave none. */
  lemma PruningConverges(es: seq<Event>, now: int, n: nat)
    requires n >= OldCount(After(es), now)
    ensures OldCount(Ticks(After(es), now, n), now) == 0
  {
    LogHasTwoLevels(es);
    TicksLeaveNoneOld(After(es), now, n);
  }

  lemma {:induction false} FlatServices(prefix: seq<string>, svcs: seq<Node>)
    requires forall n :: n in svcs ==> n.kids == []
    ensures |Flatten(prefix, svcs)| == |svcs|
    ensures forall j :: 0 <= j < |svcs| ==> Flatten(prefix, svcs)[j] == Entry(prefix + [svcs[j].name], svcs[j].info)
    decreases svcs
  {
    if svcs != [] {
      assert svcs[0] in svcs && forall n :: n in svcs[1..] ==> n in svcs;
      FlatServices(prefix, svcs[1..]);
      assert Flatten(prefix + [svcs[0].name], svcs[0].kids) == [];
    }
  }

  /** A run of n entries starting with the first old one, all of it below that one. */
  predicate FirstOldRun(es: seq<Entry>, i: nat, n: nat, now: int)
  {
    && i + n <= |es| && n > 0
    && Old(es[i].info.hb, now) && (forall k :: 0 <= k < i ==> !Old(es[k].info.hb, now))
    && forall k :: i <= k < i + n ==> es[i].path <= es[k].path
  }

  /** A broker's own line and one line for each of its services. */
  lemma BrokerLines(b: Node)
    requires forall n :: n in b.kids ==> n.kids == []
    ensures |FlattenOne([], b)| == 1 + |b.kids| && FlattenOne([], b)[0] == Entry([b.name], b.info)
    ensures forall k :: 0 < k <= |b.kids| ==> FlattenOne([], b)[k] == Entry([b.name] + [b.kids[k - 1].name], b.kids[k - 1].info)
  {
    FlatServices([b.name], b.kids);
    assert [] + [b.name] == [b.name];
    forall k | 0 < k <= |b.kids| ensures FlattenOne([], b)[k] == Flatten([b.name], b.kids)[k - 1] {}
  }

  lemma OldServiceRun(b: Node, j: nat, now: int)
    requires !Old(b.info.hb, now) && (forall n :: n in b.kids ==> n.kids == [])
    requires j == FirstOld(b.kids, now) < |b.kids|
    ensures FirstOldRun(FlattenOne([], b), 1 + j, 1, now)
  {
    BrokerLines(b);
    var es := FlattenOne([], b);
    forall k | 0 <= k < 1 + j ensures !Old(es[k].info.hb, now) {
      if k > 0 { assert es[k].info == b.kids[k - 1].info; }
    }
  }

  lemma ServiceLineGone(b: Node, j: nat)
    requires (forall n :: n in b.kids ==> n.kids == []) && j < |b.kids|
    ensures var es := FlattenOne([], b);
            |es| == 1 + |b.kids| && FlattenOne([], b.(kids := b.kids[..j] + b.kids[j + 1..])) == es[..1 + j] + es[2 + j..]
  {
    var b' := b.(kids := b.kids[..j] + b.kids[j + 1..]);
    BrokerLines(b);
    BrokerLines(b');
    var es, left := FlattenOne([], b), FlattenOne([], b');
    forall k | 0 < k < |left| ensures left[k] == es[if k <= j then k else k + 1] {
      assert b'.kids[k - 1] == b.kids[if k <= j then k - 1 else k];
    }
  }

  lemma ExtendRun(es: seq<Entry>, tail: seq<Entry>, i: nat, n: nat, now: int)
    requires FirstOldRun(es, i, n, now)
    ensures FirstOldRun(es + tail, i, n, now)
    ensures (es + tail)[..i] + (es + tail)[i + n..] == es[..i] + es[i + n..] + tail
  {
  }

  lemma FreshBroker(b: Node, now: int)
    requires !Old(b.info.hb, now) && FirstOld(b.kids, now) == |b.kids| && forall n :: n in b.kids ==> n.kids == []
    ensures var es := FlattenOne([], b); |es| == 1 + |b.kids| && forall k :: 0 <= k < |es| ==> !Old(es[k].info.hb, now)
    ensures OldCount(b.kids, now) == 0
  {
    BrokerLines(b);
    NoneOld(b.kids, now);
    var es := FlattenOne([], b);
    forall k | 0 <= k < |es| ensures !Old(es[k].info.hb, now) {
      if k > 0 { assert es[k].info == b.kids[k - 1].info; }
    }
  }

  /** The tick takes the run of n entries at i out of the flat view, that run being the first old one. */
  predicate TickTakes(brokers: seq<Node>, now: int, i: nat, n: nat)
  {
    var es := Flatten([], brokers);
    FirstOldRun(es, i, n, now) && Flatten([], Prune(brokers, now)) == es[..i] + es[i + n..]
  }

  lemma FlattenCons(b: Node, rest: seq<Node>)
    ensures Flatten([], [b] + rest) == FlattenOne([], b) + Flatten([], rest)
  {
  }

  lemma TakesBroker(b: Node, rest: seq<Node>, now: int)
    requires Old(b.info.hb, now) && forall n :: n in b.kids ==> n.kids == []
    ensures TickTakes([b] + rest, now, 0, 1 + |b.kids|)
  {
    BrokerLines(b);
    FlattenCons(b, rest);
    assert ([b] + rest)[1..] == rest && Prune([b] + rest, now) == rest;
    var es := Flatten([], [b] + rest);
    forall k | 0 <= k < 1 + |b.kids| ensures es[0].path <= es[k].path { assert es[k] == FlattenOne([], b)[k]; }
  }

  lemma PruneService(b: Node, rest: seq<Node>, now: int)
    requires !Old(b.info.hb, now) && FirstOld(b.kids, now) < |b.kids|
    ensures var j := FirstOld(b.kids, now); Prune([b] + rest, now) == [b.(kids := b.kids[..j] + b.kids[j + 1..])] + rest
  {
    assert ([b] + rest)[1..] == rest;
  }

  lemma TakesService(b: Node, rest: seq<Node>, now: int)
    requires !Old(b.info.hb, now) && (forall n :: n in b.kids ==> n.kids == []) && FirstOld(b.kids, now) < |b.kids|
    ensures TickTakes([b] + rest, now, 1 + FirstOld(b.kids, now), 1)
  {
    var j := FirstOld(b.kids, now);
    var b' := b.(kids := b.kids[..j] + b.kids[j + 1..]);
    PruneService(b, rest, now);
    FlattenCons(b, rest);
    FlattenCons(b', rest);
    ServiceRun(b, j, Flatten([], rest), now);
  }

  lemma ServiceRun(b: Node, j: nat, tail: seq<Entry>, now: int)
    requires !Old(b.info.hb, now) && (forall n :: n in b.kids ==> n.kids == []) && j == FirstOld(b.kids, now) < |b.kids|
    ensures var es := FlattenOne([], b) + tail;
            && FirstOldRun(es, 1 + j, 1, now)
            && FlattenOne([], b.(kids := b.kids[..j] + b.kids[j + 1..])) + tail == es[..1 + j] + es[1 + j + 1..]
  {
    OldServiceRun(b, j, now);
    ServiceLineGone(b, j);
    ExtendRun(FlattenOne([], b), tail, 1 + j, 1, now);
  }

  lemma TakesLater(b: Node, rest: seq<Node>, now: int, i: nat, n: nat)
    requires !Old(b.info.hb, now) && (forall n :: n in b.kids ==> n.kids == []) && FirstOld(b.kids, now) == |b.kids|
    requires TickTakes(rest, now, i, n)
    ensures TickTakes([b] + rest, now, 1 + |b.kids| + i, n)
  {
    FreshBroker(b, now);
    ShiftRun(FlattenOne([], b), Flatten([], rest), i, n, now);
    FlattenCons(b, rest);
    FlattenCons(b, Prune(rest, now));
    PruneRest(b, rest, now);
  }

  lemma PruneRest(b: Node, rest: seq<Node>, now: int)
    requires !Old(b.info.hb, now) && FirstOld(b.kids, now) == |b.kids|
    ensures Prune([b] + rest, now) == [b] + Prune(rest, now)
  {
    assert ([b] + rest)[1..] == rest;
  }

  lemma OldInRest(b: Node, rest: seq<Node>, now: int)
    requires !Old(b.info.hb, now) && FirstOld(b.kids, now) == |b.kids| && forall n :: n in b.kids ==> n.kids == []
    ensures OldCount([b] + rest, now) == OldCount(rest, now)
  {
    OldCountCons(b, rest, now);
    NoneOld(b.kids, now);
  }

  /** In every reachable index a tick takes away the first old node in preorder, with what hangs below it. */
  lemma TickRemovesFirstOld(es: seq<Event>, now: int) returns (i: nat, n: nat)
    requires OldCount(After(es), now) > 0
    ensures TickTakes(After(es), now, i, n)
  {
    LogHasTwoLevels(es);
    FirstOldGoes(After(es), now);
    i, n :| TickTakes(After(es), now, i, n);
  }

  ghost predicate TakesFirstOld(brokers: seq<Node>, now: int)
  {
    exists i: nat, n: nat :: TickTakes(brokers, now, i, n)
  }

  lemma {:induction false} FirstOldGoes(brokers: seq<Node>, now: int)
    requires TwoLevels(brokers) && OldCount(brokers, now) > 0
    ensures TakesFirstOld(brokers, now)
    decreases brokers
  {
    var b, rest := brokers[0], brokers[1..];
    assert brokers == [b] + rest;
    FirstOfTwoLevels(b, rest);
    if Old(b.info.hb, now) {
      TakesBroker(b, rest, now);
    } else if FirstOld(b.kids, now) < |b.kids| {
      TakesService(b, rest, now);
    } else {
      OldInRest(b, rest, now);
      FirstOldGoes(rest, now);
      var i: nat, n: nat :| TickTakes(rest, now, i, n);
      TakesLater(b, rest, now, i, n);
    }
  }

  lemma FirstOfTwoLevels(b: Node, rest: seq<Node>)
    requires TwoLevels([b] + rest)
    ensures TwoLevels(rest) && forall n :: n in b.kids ==> n.kids == []
  {
    var all := [b] + rest;
    assert b in all && forall m :: m in rest ==> m in all;
  }

  lemma ShiftRun(head: seq<Entry>, es: seq<Entry>, i: nat, n: nat, now: int)
    requires FirstOldRun(es, i, n, now) && forall k :: 0 <= k < |head| ==> !Old(head[k].info.hb, now)
    ensures FirstOldRun(head + es, |head| + i, n, now)
    ensures (head + es)[..|head| + i] + (head + es)[|head| + i + n..] == head + (es[..i] + es[i + n..])
  {
  }

  /** The broker's clock read comes first: the order that protects fresh
      services from being pruned with their broker survives a registration
      exactly when both reads agree. */
  lemma OneInstantIsExact(brokers: seq<Node>, id: string, svc: string, tBroker: int, tSvc: int)
    requires Unique(brokers) && HbOrdered(brokers) && HbBounded(brokers, tBroker) && tBroker <= tSvc
    ensures HbOrdered(ChkSmallTree(brokers, id, svc, tBroker, tSvc)) <==> tBroker == tSvc
  {
    if tBroker == tSvc {
      EnterKeepsShape(brokers, id, svc, tBroker);
    } else {
      var b := AddOrTouch(brokers, id, tBroker);
      EnterPosition(brokers, id, tBroker, id);
      var i := IndexOf(b, id);
      EnterPosition(b[i].kids, svc, tSvc, svc);
      var after := ChkSmallTree(brokers, id, svc, tBroker, tSvc);
      var c := after[i].kids[IndexOf(after[i].kids, svc)];
      assert after[i] in after && c in after[i].kids && c.info.hb == tSvc && after[i].info.hb == tBroker;
    }
  }

  // ----- Services lost with their broker ------------------------------------

  /** The pair has this heartbeat, and neither it nor its broker is old. */
  predicate Held(brokers: seq<Node>, now: int, id: string, svc: string, hb: int)
  {
    && Heard(brokers, id, svc) == Some(hb) && !Old(hb, now)
    && BrokerHeard(brokers, id).Some? && !Old(BrokerHeard(brokers, id).value, now)
  }

  lemma TickKeeps(brokers: seq<Node>, now: int, id: string, svc: string, hb: int)
    requires Unique(brokers) && Held(brokers, now, id, svc, hb)
    ensures Held(Prune(brokers, now), now, id, svc, hb)
  {
    TakenIsOld(brokers, now);
    PrunedPair(brokers, now, id, svc);
  }

  /** What every tick keeps, any number of them keep. */
  lemma {:induction false} TicksInvariant(kept: seq<Node> -> bool, brokers: seq<Node>, now: int, n: nat)
    requires kept(brokers) && forall b :: kept(b) ==> kept(Prune(b, now))
    ensures kept(Ticks(brokers, now, n))
    decreases n
  {
    if n > 0 { TicksInvariant(kept, Prune(brokers, now), now, n - 1); }
  }

  lemma TicksKeep(brokers: seq<Node>, now: int, n: nat, id: string, svc: string, hb: int)
    requires Unique(brokers) && Held(brokers, now, id, svc, hb)
    ensures Heard(Ticks(brokers, now, n), id, svc) == Some(hb)
  {
    ghost var kept := b => Unique(b) && Held(b, now, id, svc, hb);
    forall b | kept(b) ensures kept(Prune(b, now)) {
      TickKeeps(b, now, id, svc, hb);
      PruneUnique(b, now);
    }
    TicksInvariant(kept, brokers, now, n);
  }

  lemma TicksKeepBroker(brokers: seq<Node>, now: int, n: nat, id: string)
    requires Unique(brokers)
    ensures KeptOrGone(BrokerHeard(Ticks(brokers, now, n), id), BrokerHeard(brokers, id))
  {
    var before := BrokerHeard(brokers, id);
    ghost var kept := b => Unique(b) && KeptOrGone(BrokerHeard(b, id), before);
    forall b | kept(b) ensures kept(Prune(b, now)) {
      PrunedPair(b, now, id, "");
      PruneUnique(b, now);
    }
    TicksInvariant(kept, brokers, now, n);
  }

  lemma {:induction false} NoneCounted(kids: seq<Node>, now: int, i: nat)
    requires OldCount(kids, now) == 0 && i < |kids|
    ensures !Old(kids[i].info.hb, now)
    decreases i
  {
    if i > 0 { NoneCounted(kids[1..], now, i - 1); }
  }

  lemma OldBrokerGoes(brokers: seq<Node>, now: int, n: nat, id: string, svc: string)
    requires Unique(brokers) && TwoLevels(brokers) && n >= OldCount(brokers, now)
    requires BrokerHeard(brokers, id).Some? && Old(BrokerHeard(brokers, id).value, now)
    ensures Heard(Ticks(brokers, now, n), id, svc) == None
  {
    var left := Ticks(brokers, now, n);
    TicksLeaveNoneOld(brokers, now, n);
    TicksKeepBroker(brokers, now, n, id);
    var i := IndexOf(left, id);
    if i < |left| { NoneCounted(left, now, i); }
  }

  /** A tick takes a service that is not old exactly when its broker is the first old node. */
  lemma TickTakesFresh(es: seq<Event>, id: string, svc: string, now: int)
    requires Heard(After(es), id, svc).Some? && !Old(Heard(After(es), id, svc).value, now)
    ensures Heard(Prune(After(es), now), id, svc) == None <==> FirstTaken(After(es), now) == TakenBroker(id)
  {
    IndexIsFaithful(es);
    TakenIsOld(After(es), now);
    PrunedPair(After(es), now, id, svc);
  }

  /** Enough ticks at one instant, from `clock` on, take the entry of a service
      that is not old by then. */
  ghost predicate LosableFresh(brokers: seq<Node>, id: string, svc: string, hb: int, clock: int)
  {
    exists now: int, n: nat :: now >= clock && !Old(hb, now) && Heard(Ticks(brokers, now, n), id, svc) == None
  }

  /** Given enough ticks, a service in the index can be lost with its broker,
      although heard within three seconds, exactly when its broker was last
      heard before it. */
  lemma LosableIsExact(es: seq<Event>, id: string, svc: string, clock: int)
    requires Heard(After(es), id, svc).Some? && !Old(Heard(After(es), id, svc).value, clock)
    ensures var hb, tb := Logged(es, id, svc), LoggedBroker(es, id);
            hb.Some? && tb.Some? && (LosableFresh(After(es), id, svc, hb.value, clock) <==> tb.value < hb.value)
  {
    IndexIsFaithful(es);
    assert PairFaithful(After(es), es, id, svc);
    assert KeptOrGone(BrokerHeard(After(es), id), LoggedBroker(es, id));
    var hb, tb := Heard(After(es), id, svc).value, BrokerHeard(After(es), id).value;
    if tb < hb {
      var now := if tb + 4 > clock then tb + 4 else clock;
      LogHasTwoLevels(es);
      OldBrokerGoes(After(es), now, OldCount(After(es), now), id, svc);
    } else {
      forall now: int, n: nat | now >= clock && !Old(hb, now) ensures Heard(Ticks(After(es), now, n), id, svc) != None {
        TicksKeep(After(es), now, n, id, svc, hb);
      }
    }
  }

  /** It happens: a first registration read in two seconds is pruned three seconds later. */
  lemma StraddledServiceLost(id: string, svc: string)
    ensures var es := [Heartbeat(id, svc, 0, 1), Tick(4)];
            Chronological(es) && Logged(es, id, svc) == Some(1) && !Old(1, 4) && After(es) == []
  {
    var e, es := Heartbeat(id, svc, 0, 1), [Heartbeat(id, svc, 0, 1), Tick(4)];
    assert es[..1] == [e] && [e][..0] == [];
    assert LastRegi(es, id, svc) == LastRegi([e], id, svc) == Some(e);
    assert After([e]) == Apply([], e) && After(es) == Prune(After([e]), 4);
  }
}
