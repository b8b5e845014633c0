/** Whether the broker an index answers with is served: registrations are
    published to the threads before the slot table accepts or rejects them. */
module HubAnswers {
  import opened Names
  import opened Wire
  import opened Forest
  import opened Registry
  import opened RegistryTheory
  import opened RegistryRuns
  import opened Directory
  import Log = DirectoryTheory

  // ----- Slots and the last registration of a name --------------------------

  predicate Accepted<K(==)>(s: Reg<K>, r: Regi<K>)
    requires r.levels.Valid()
  {
    var answer := Classify(s.slots, r.key, r.levels.path[0]);
    answer.Serviced? || answer.Vacant?
  }

  predicate SlotNamed<K>(s: Reg<K>, name: string)
  {
    exists i :: 0 <= i < |s.slots| && s.slots[i].Used? && s.slots[i].name == name
  }

  /** No registration of that name, and no sweep that finds the instant t stale. */
  ghost predicate Quiet<K>(es: seq<Event<K>>, name: string, t: int)
  {
    forall j :: 0 <= j < |es| ==> QuietEvent(es[j], name, t)
  }

  predicate QuietEvent<K>(e: Event<K>, name: string, t: int)
  {
    match e
    case Registration(r) => r.levels.Valid() && r.levels.path[0] != name
    case Expire(now) => now - t <= 5
    case RunOne => true
  }

  predicate TopHeard(tree: seq<Node>, name: string, t: int)
  {
    var top := Lookup(tree, [name]);
    top.Some? && top.value.hb == t
  }

  lemma {:induction false} FreshTopStays(tree: seq<Node>, name: string, t: int, now: int)
    requires TopHeard(tree, name, t) && now - t <= 5
    ensures TopHeard(Sweep(tree, now), name, t)
    decreases tree
  {
    var n, rest := tree[0], tree[1..];
    assert tree == [n] + rest && Sweep(tree, now) == SweepOne(n, now) + Sweep(rest, now);
    if n.name == name {
      LookupFirst(n, rest);
      assert SweepOne(n, now) == [n.(kids := Sweep(n.kids, now))];
      LookupFirst(n.(kids := Sweep(n.kids, now)), Sweep(rest, now));
    } else {
      LookupRest(n, rest, name);
      FreshTopStays(rest, name, t, now);
      if Stale(n.info.hb, now) {
        assert [] + Sweep(rest, now) == Sweep(rest, now);
      } else {
        LookupRest(n.(kids := Sweep(n.kids, now)), Sweep(rest, now), name);
      }
    }
  }

  lemma LookupFirst(n: Node, rest: seq<Node>)
    ensures Lookup([n] + rest, [n.name]) == Some(n.info)
  {
  }

  lemma LookupRest(n: Node, rest: seq<Node>, name: string)
    requires n.name != name
    ensures Lookup([n] + rest, [name]) == Lookup(rest, [name])
  {
    assert ([n] + rest)[1..] == rest;
  }

  lemma AcceptedTop<K>(s: Reg<K>, r: Regi<K>)
    requires Sorted(s.tree) && r.levels.Valid() && Accepted(s, r)
    ensures TopHeard(Register(s, r).tree, r.levels.path[0], r.levels.times[0])
  {
    RegisterUpdatesPath(s, r, [r.levels.path[0]]);
    assert [r.levels.path[0]] <= r.levels.path;
  }

  lemma StepKeepsTop<K>(s: Reg<K>, e: Event<K>, name: string, t: int)
    requires Sorted(s.tree) && TopHeard(s.tree, name, t)
    requires QuietEvent(e, name, t)
    ensures TopHeard(Step(s, e).tree, name, t)
  {
    match e
    case Registration(r) =>
      RegisterUpdatesPath(s, r, [name]);
      assert !([name] <= r.levels.path);
    case Expire(now) => FreshTopStays(s.tree, name, t, now);
    case RunOne =>
  }

  lemma StepKeepsUnnamed<K>(s: Reg<K>, e: Event<K>, name: string)
    requires !SlotNamed(s, name) && (e.Registration? ==> e.r.levels.Valid() && e.r.levels.path[0] != name)
    ensures !SlotNamed(Step(s, e), name)
  {
  }

  lemma OrderlyPrefix<K(!new)>(keyOf: string -> K, s: Reg<K>, es: seq<Event<K>>, j: nat)
    requires OrderlyRun(keyOf, s, es) && j <= |es|
    ensures OrderlyRun(keyOf, s, es[..j])
  {
    forall i | 0 <= i < j ensures Orderly(keyOf, Run(s, es[..j][..i]), es[..j][i]) { assert es[..j][..i] == es[..i]; }
  }

  ghost predicate AllValid<K>(es: seq<Event<K>>)
  {
    forall e :: e in es && e.Registration? ==> e.r.levels.Valid()
  }

  lemma RunStep<K>(s: Reg<K>, es: seq<Event<K>>, e: Event<K>)
    requires AllValid(es) && (e.Registration? ==> e.r.levels.Valid())
    ensures Run(s, es + [e]) == Step(Run(s, es), e)
  {
    assert (es + [e])[..|es|] == es;
  }

  lemma {:induction false} RunSplit<K>(s: Reg<K>, a: seq<Event<K>>, b: seq<Event<K>>)
    requires AllValid(a) && AllValid(b)
    ensures AllValid(a + b)
    ensures Run(s, a + b) == Run(Run(s, a), b)
    decreases |b|
  {
    if b == [] {
      assert a + b == a;
    } else {
      var before, e := b[..|b| - 1], b[|b| - 1];
      assert a + b == (a + before) + [e] && b == before + [e];
      assert e in b && forall x :: x in before ==> x in b;
      RunSplit(s, a, before);
      RunStep(s, a + before, e);
      RunStep(Run(s, a), before, e);
    }
  }

  lemma OrderlySuffix<K(!new)>(keyOf: string -> K, s: Reg<K>, a: seq<Event<K>>, b: seq<Event<K>>)
    requires OrderlyRun(keyOf, s, a + b)
    ensures AllValid(a) && OrderlyRun(keyOf, Run(s, a), b)
  {
    assert forall e :: e in a || e in b ==> e in a + b;
    forall i | 0 <= i < |b| ensures Orderly(keyOf, Run(Run(s, a), b[..i]), b[i]) {
      assert (a + b)[..|a| + i] == a + b[..i] && (a + b)[|a| + i] == b[i];
      RunSplit(s, a, b[..i]);
    }
  }

  /** The state with which a run goes on is consistent. */
  lemma RunsOn<K(!new)>(keyOf: string -> K, s: Reg<K>, es: seq<Event<K>>, e: Event<K>)
    requires OrderlyRun(keyOf, s, es + [e])
    ensures OrderlyRun(keyOf, s, es) && Orderly(keyOf, Run(s, es), e)
  {
    OrderlyPrefix(keyOf, s, es + [e], |es|);
    assert (es + [e])[..|es|] == es && (es + [e])[|es|] == e;
  }

  lemma QuietBefore<K>(es: seq<Event<K>>, e: Event<K>, name: string, t: int)
    requires Quiet(es + [e], name, t)
    ensures Quiet(es, name, t) && QuietEvent(e, name, t)
  {
    assert (es + [e])[|es|] == e && forall j :: 0 <= j < |es| ==> (es + [e])[j] == es[j];
  }

  lemma {:induction false} TopThrough<K(!new)>(keyOf: string -> K, s: Reg<K>, es: seq<Event<K>>, name: string, t: int)
    requires Good(s) && KeysByName(keyOf, s) && OrderlyRun(keyOf, s, es) && Quiet(es, name, t) && TopHeard(s.tree, name, t)
    ensures Good(Run(s, es)) && KeysByName(keyOf, Run(s, es)) && TopHeard(Run(s, es).tree, name, t)
    decreases |es|
  {
    if es != [] {
      var before, e := es[..|es| - 1], es[|es| - 1];
      assert es == before + [e];
      RunsOn(keyOf, s, before, e);
      QuietBefore(before, e, name, t);
      TopThrough(keyOf, s, before, name, t);
      StepPreserves(keyOf, Run(s, before), e);
      StepKeepsTop(Run(s, before), e, name, t);
      RunStep(s, before, e);
    }
  }

  lemma {:induction false} UnnamedThrough<K>(s: Reg<K>, es: seq<Event<K>>, name: string, t: int)
    requires Quiet(es, name, t) && !SlotNamed(s, name)
    ensures !SlotNamed(Run(s, es), name)
    decreases |es|
  {
    if es != [] {
      var before, e := es[..|es| - 1], es[|es| - 1];
      assert es == before + [e];
      QuietBefore(before, e, name, t);
      UnnamedThrough(s, before, name, t);
      StepKeepsUnnamed(Run(s, before), e, name);
      RunStep(s, before, e);
    }
  }

  /** A rejected registration finds no slot under its name. */
  lemma RejectedUnnamed<K(!new)>(keyOf: string -> K, s: Reg<K>, r: Regi<K>)
    requires r.levels.Valid() && KeysDistinct(s.slots) && KeysByName(keyOf, s) && r.key == keyOf(r.levels.path[0]) && !Accepted(s, r)
    ensures !SlotNamed(s, r.levels.path[0]) && Register(s, r) == s
  {
    var k := FindKey(s.slots, r.key);
    forall i | 0 <= i < |s.slots| && s.slots[i].Used? ensures s.slots[i].name != r.levels.path[0] {
      if s.slots[i].key == r.key { assert i == k; }
    }
  }

  /** A top node of that name has a slot of that name. */
  lemma TopHasSlot<K>(s: Reg<K>, name: string)
    requires Good(s) && Lookup(s.tree, [name]).Some?
    ensures SlotNamed(s, name)
  {
    var n := s.tree[IndexOf(s.tree, name)];
    assert n in s.tree && Linked(s.slots, n);
    assert s.slots[n.info.slot.value].name == name;
  }

  /** From a consistent state: after a registration, until the next one of its
      name, and with no sweep more than five seconds later, the name has a used
      slot if and only if that registration was accepted. */
  lemma ServedSince<K(!new)>(keyOf: string -> K, s: Reg<K>, r: Regi<K>, after: seq<Event<K>>)
    requires Good(s) && KeysByName(keyOf, s) && r.levels.Valid() && Orderly(keyOf, s, Registration(r))
    requires OrderlyRun(keyOf, Register(s, r), after) && Quiet(after, r.levels.path[0], r.levels.times[0])
    ensures SlotNamed(Run(Register(s, r), after), r.levels.path[0]) <==> Accepted(s, r)
  {
    var name, t := r.levels.path[0], r.levels.times[0];
    if Accepted(s, r) {
      AcceptedTop(s, r);
      StepPreserves(keyOf, s, Registration(r));
      TopThrough(keyOf, Register(s, r), after, name, t);
      TopHasSlot(Run(Register(s, r), after), name);
    } else {
      RejectedUnnamed(keyOf, s, r);
      UnnamedThrough(Register(s, r), after, name, t);
    }
  }

  /** Over whole orderly runs: a name last registered after the events `before`
      has a used slot at the end if and only if that registration was accepted. */
  lemma ServedIsExact<K(!new)>(keyOf: string -> K, n: nat, before: seq<Event<K>>, r: Regi<K>, after: seq<Event<K>>)
    requires r.levels.Valid() && OrderlyRun(keyOf, Empty(n), before + [Registration(r)] + after)
    requires Quiet(after, r.levels.path[0], r.levels.times[0])
    ensures SlotNamed(Run(Empty(n), before + [Registration(r)] + after), r.levels.path[0]) <==> Accepted(Run(Empty(n), before), r)
  {
    var s, all := Run(Empty(n), before), before + [Registration(r)];
    OrderlyPrefix(keyOf, Empty(n), all + after, |all|);
    assert (all + after)[..|all|] == all;
    RunsOn(keyOf, Empty(n), before, Registration(r));
    RunPreserves(keyOf, n, before);
    RunStep(Empty(n), before, Registration(r));
    OrderlySuffix(keyOf, Empty(n), all, after);
    RunSplit(Empty(n), all, after);
    ServedSince(keyOf, s, r, after);
  }

  // ----- Answers ------------------------------------------------------------

  /** What a thread logs was published by the hub, for a registration accepted or not. */
  ghost predicate PublishedBy(es: seq<Event<string>>, log: seq<Log.Event>)
  {
    forall h :: h in log && h.Heartbeat? ==> exists k :: 0 <= k < |es| && Publishes(es[k], h.id, h.svc)
  }

  /** The registration goes out under its broker's id, for its service. */
  predicate Publishes(e: Event<string>, id: string, svc: string)
  {
    && e.Registration? && |e.r.levels.path| > 1
    && BrokerId(e.r.key, e.r.levels.path[0]) == id && e.r.levels.path[1] == svc
  }

  /** An index answers only with the id of a broker that registered the service at the hub. */
  lemma AnswerIsPublished(es: seq<Event<string>>, log: seq<Log.Event>, me: string, svc: string) returns (k: nat)
    requires PublishedBy(es, log) && FindSvc(Log.After(log), me, svc).Some?
    ensures k < |es| && Publishes(es[k], FindSvc(Log.After(log), me, svc).value, svc)
  {
    var id := FindSvc(Log.After(log), me, svc).value;
    Log.IndexIsFaithful(log);
    Log.QueryIsExact(Log.After(log), me, svc);
    assert Log.PairFaithful(Log.After(log), log, id, svc);
    var h := Log.LastRegi(log, id, svc).value;
    k :| 0 <= k < |es| && Publishes(es[k], h.id, h.svc);
  }
}
