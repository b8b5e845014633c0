/** Sweeps, pending events and whole runs of the registry. */
module RegistryRuns {
  import opened Names
  import opened Forest
  import opened TreeOrder
  import opened Expiry
  import opened Registry
  import opened RegistryTheory

  // ----- The sweep ----------------------------------------------------------

  lemma {:induction false} NothingReleasedBelow(kids: seq<Node>, now: int)
    requires NoSlots(kids)
    ensures Released(kids, now) == [] && NoSlots(Sweep(kids, now))
    decreases kids
  {
    if kids != [] {
      assert kids[0] in kids;
      NothingReleasedBelow(kids[0].kids, now);
      forall n | n in kids[1..] ensures n.info.slot == None && NoSlots(n.kids) { assert n in kids; }
      NothingReleasedBelow(kids[1..], now);
      assert forall n :: n in Sweep(kids, now) ==> n in SweepOne(kids[0], now) || n in Sweep(kids[1..], now);
    }
  }

  /** Every top node holds a slot of its own. */
  ghost predicate SlotsDistinct(tree: seq<Node>)
  {
    && (forall n :: n in tree ==> n.info.slot.Some? && NoSlots(n.kids))
    && forall a, b :: 0 <= a < b < |tree| ==> tree[a].info.slot != tree[b].info.slot
  }

  ghost predicate NoRepeats(s: seq<nat>)
  {
    forall a, b :: 0 <= a < b < |s| ==> s[a] != s[b]
  }

  /** A sweep divides the slots held by nodes: each stays with its node or is released once. */
  lemma {:induction false} SweepDividesSlots(tree: seq<Node>, now: int)
    requires SlotsDistinct(tree)
    ensures forall i: nat :: Points(tree, i) <==> Points(Sweep(tree, now), i) || i in Released(tree, now)
    ensures forall i: nat :: !(Points(Sweep(tree, now), i) && i in Released(tree, now))
    ensures NoRepeats(Released(tree, now))
    decreases tree
  {
    if tree != [] {
      var n, rest := tree[0], tree[1..];
      assert n in tree;
      NothingReleasedBelow(n.kids, now);
      assert forall m :: m in tree <==> m == n || m in rest;
      assert SlotsDistinct(rest) by { forall m | m in rest ensures m.info.slot.Some? && NoSlots(m.kids) { assert m in tree; } }
      SweepDividesSlots(rest, now);
      var own := n.info.slot.value;
      assert !Points(rest, own) by { PointsByIndex(rest, own); }
      var kept, swept := SweepOne(n, now), Sweep(tree, now);
      assert forall m :: m in swept <==> m in kept || m in Sweep(rest, now);
      forall i: nat ensures Points(swept, i) <==> (kept != [] && i == own) || Points(Sweep(rest, now), i) {
        if kept != [] { assert kept[0] in swept && kept[0].info == n.info; }
      }
      forall i: nat ensures Points(tree, i) <==> i == own || Points(rest, i) {}
      if Stale(n.info.hb, now) {
        assert Released(tree, now) == [own] + Released(rest, now);
      } else {
        assert Released(tree, now) == Released(rest, now);
      }
    }
  }

  lemma GoodSlotsDistinct<K>(s: Reg<K>)
    requires Good(s)
    ensures SlotsDistinct(s.tree)
  {
    forall a, b | 0 <= a < b < |s.tree| ensures s.tree[a].info.slot != s.tree[b].info.slot {
      assert Linked(s.slots, s.tree[a]) && Linked(s.slots, s.tree[b]);
      Distinct(s.tree, a, b);
    }
    forall n | n in s.tree ensures n.info.slot.Some? && NoSlots(n.kids) { assert Linked(s.slots, n); }
  }

  lemma SweptStayLinked<K>(s: Reg<K>, now: int)
    requires Good(s)
    ensures forall m :: m in Sweep(s.tree, now) ==> Linked(s.slots, m)
  {
    forall m | m in Sweep(s.tree, now) ensures Linked(s.slots, m) {
      SweepKeeps(s.tree, now, m);
      var n :| n in s.tree && m == n.(kids := Sweep(n.kids, now));
      assert Linked(s.slots, n);
      NothingReleasedBelow(n.kids, now);
    }
  }

  lemma SweepPreserves<K>(s: Reg<K>, now: int)
    requires Good(s)
    ensures Good(SweepTree(s, now))
  {
    var s', gone := SweepTree(s, now), Released(s.tree, now);
    SweepSorted(s.tree, now);
    SweptStayLinked(s, now);
    GoodSlotsDistinct(s);
    SweepDividesSlots(s.tree, now);
    forall i: nat ensures Release(i) in s'.jobs <==> Release(i) in s.jobs || i in gone { ReleaseJobsOf(gone, i); }
    ReleasesAreOrdered(s, s', gone);
  }

  lemma ReleaseJobsOf(gone: seq<nat>, i: nat)
    ensures Release(i) in ReleaseJobs(gone) <==> i in gone
    ensures Start(i) !in ReleaseJobs(gone)
  {
    if i in gone {
      var k :| 0 <= k < |gone| && gone[k] == i;
      assert ReleaseJobs(gone)[k] == Release(i);
    }
  }

  lemma ReleasesAreOrdered<K>(s: Reg<K>, s': Reg<K>, gone: seq<nat>)
    requires JobsOrdered(s) && s'.slots == s.slots && s'.jobs == s.jobs + ReleaseJobs(gone) && NoRepeats(gone)
    requires forall i :: i in gone ==> Release(i) !in s.jobs
    ensures JobsOrdered(s')
  {
  }

  // ----- Pending events -----------------------------------------------------

  /** The event about to run finds what it needs: a start finds a claimed slot
      without sockets, a release finds one whose sockets are open. */
  lemma JobIsSafe<K>(s: Reg<K>)
    requires Good(s) && s.jobs != []
    ensures var i := s.jobs[0].slot;
            i < |s.slots| && s.slots[i].Used? && (s.jobs[0].Release? <==> s.slots[i].polling)
  {
  }

  lemma RunJobPreserves<K>(s: Reg<K>)
    requires Good(s)
    ensures Good(RunJob(s))
  {
    if s.jobs != [] {
      JobIsSafe(s);
      if s.jobs[0].Release? { ReleasePreserves(s); } else { StartPreserves(s); }
    }
  }

  lemma ReleasePreserves<K>(s: Reg<K>)
    requires Good(s) && s.jobs != [] && s.jobs[0].Release? && s.jobs[0].slot < |s.slots|
    ensures Good(RunJob(s))
  {
    assert s.jobs[0] in s.jobs;
    assert forall n :: n in s.tree ==> Linked(s.slots, n) && n.info.slot != Some(s.jobs[0].slot);
  }

  lemma StartPreserves<K>(s: Reg<K>)
    requires Good(s) && s.jobs != [] && s.jobs[0].Start? && s.jobs[0].slot < |s.slots|
    ensures Good(RunJob(s))
  {
    assert s.jobs[0] in s.jobs;
  }

  // ----- Whole runs ---------------------------------------------------------

  datatype Event<K> = Registration(r: Regi<K>) | Expire(now: int) | RunOne

  function Step<K(==)>(s: Reg<K>, e: Event<K>): Reg<K>
    requires e.Registration? ==> e.r.levels.Valid()
  {
    match e
    case Registration(r) => Register(s, r)
    case Expire(now) => SweepTree(s, now)
    case RunOne => RunJob(s)
  }

  function Run<K(==)>(s: Reg<K>, es: seq<Event<K>>): Reg<K>
    requires forall e :: e in es && e.Registration? ==> e.r.levels.Valid()
    decreases |es|
  {
    if es == [] then s else
    var before := Run(s, es[..|es| - 1]);
    Step(before, es[|es| - 1])
  }

  function Empty<K>(n: nat): Reg<K>
  {
    Reg(seq(n, _ => Free), [], [])
  }

  /** Each name always claims the same key, and no release of that name is pending. */
  ghost predicate Orderly<K(!new)>(keyOf: string -> K, s: Reg<K>, e: Event<K>)
  {
    e.Registration? ==>
      && e.r.levels.Valid()
      && e.r.key == keyOf(e.r.levels.path[0])
      && forall i: nat :: i < |s.slots| && s.slots[i].Used? && s.slots[i].name == e.r.levels.path[0] ==> Release(i) !in s.jobs
  }

  ghost predicate KeysByName<K(!new)>(keyOf: string -> K, s: Reg<K>)
  {
    forall i :: 0 <= i < |s.slots| && s.slots[i].Used? ==> s.slots[i].key == keyOf(s.slots[i].name)
  }

  ghost predicate OrderlyRun<K(!new)>(keyOf: string -> K, s: Reg<K>, es: seq<Event<K>>)
  {
    && (forall e :: e in es && e.Registration? ==> e.r.levels.Valid())
    && forall k :: 0 <= k < |es| ==> Orderly(keyOf, Run(s, es[..k]), es[k])
  }

  /** Under these two habits of the callers every registration is safe. */
  lemma OrderlyIsSafe<K(!new)>(keyOf: string -> K, s: Reg<K>, r: Regi<K>)
    requires Good(s) && KeysByName(keyOf, s) && Orderly(keyOf, s, Registration(r))
    ensures Safe(s, r)
  {
    var name, i := r.levels.path[0], FindKey(s.slots, r.key);
    OrderedSearch(s.tree, name);
    if i < |s.slots| && s.slots[i].name == name {
      assert Points(s.tree, i);
      var n :| n in s.tree && n.info.slot == Some(i);
      assert Linked(s.slots, n);
      var k :| 0 <= k < |s.tree| && s.tree[k] == n;
      assert s.tree[k].name == name && Same(s.tree, name);
    } else if i == |s.slots| {
      forall n | n in s.tree ensures n.name != name { assert Linked(s.slots, n); }
    }
  }

  lemma StepPreserves<K(!new)>(keyOf: string -> K, s: Reg<K>, e: Event<K>)
    requires Good(s) && KeysByName(keyOf, s) && Orderly(keyOf, s, e)
    ensures Good(Step(s, e)) && KeysByName(keyOf, Step(s, e)) && |Step(s, e).slots| == |s.slots|
  {
    match e
    case Registration(r) => OrderlyIsSafe(keyOf, s, r); RegisterPreserves(s, r);
    case Expire(now) => SweepPreserves(s, now);
    case RunOne => RunJobPreserves(s);
  }

  /** In every state of every orderly run table, tree and events are consistent. */
  lemma {:induction false} RunPreserves<K(!new)>(keyOf: string -> K, n: nat, es: seq<Event<K>>)
    requires OrderlyRun(keyOf, Empty(n), es)
    ensures Good(Run(Empty(n), es)) && KeysByName(keyOf, Run(Empty(n), es)) && |Run(Empty(n), es).slots| == n
    decreases |es|
  {
    if es != [] {
      var k := |es| - 1;
      forall j | 0 <= j < k ensures Orderly(keyOf, Run(Empty(n), es[..k][..j]), es[..k][j]) {
        assert es[..k][..j] == es[..j];
      }
      RunPreserves(keyOf, n, es[..k]);
      assert Orderly(keyOf, Run(Empty(n), es[..k]), es[k]);
      StepPreserves(keyOf, Run(Empty(n), es[..k]), es[k]);
    }
  }

  /** Whatever callers do, two used slots never share a key. */
  lemma {:induction false} KeysStayDistinct<K>(n: nat, es: seq<Event<K>>)
    requires forall e :: e in es && e.Registration? ==> e.r.levels.Valid()
    ensures KeysDistinct(Run(Empty(n), es).slots)
    decreases |es|
  {
    if es != [] {
      KeysStayDistinct(n, es[..|es| - 1]);
      var s, e := Run(Empty(n), es[..|es| - 1]), es[|es| - 1];
      assert e in es;
      if e.Registration? {
        assert FindKey(s.slots, e.r.key) == |s.slots| ==>
            forall j :: 0 <= j < |s.slots| && s.slots[j].Used? ==> s.slots[j].key != e.r.key;
      }
    }
  }

  /** With no release pending, used slots and top nodes correspond one to one, by pointer and by name. */
  lemma SlotsAndNodesCorrespond<K>(s: Reg<K>)
    requires Good(s) && forall i: nat :: Release(i) !in s.jobs
    ensures forall i: nat :: i < |s.slots| && s.slots[i].Used? <==>
              exists k :: 0 <= k < |s.tree| && s.tree[k].info.slot == Some(i)
    ensures forall j, k :: 0 <= j < |s.tree| && 0 <= k < |s.tree| && s.tree[j].info.slot == s.tree[k].info.slot ==> j == k
    ensures forall k :: 0 <= k < |s.tree| ==> Linked(s.slots, s.tree[k])
    ensures forall i, j :: 0 <= i < j < |s.slots| && s.slots[i].Used? && s.slots[j].Used? ==> s.slots[i].name != s.slots[j].name
  {
    GoodSlotsDistinct(s);
    forall i: nat ensures i < |s.slots| && s.slots[i].Used? <==> exists k :: 0 <= k < |s.tree| && s.tree[k].info.slot == Some(i) {
      PointsByIndex(s.tree, i);
      if Points(s.tree, i) {
        var n :| n in s.tree && n.info.slot == Some(i);
        assert Linked(s.slots, n);
      }
    }
    forall i, j | 0 <= i < j < |s.slots| && s.slots[i].Used? && s.slots[j].Used? ensures s.slots[i].name != s.slots[j].name {
      var a :| 0 <= a < |s.tree| && s.tree[a].info.slot == Some(i);
      var b :| 0 <= b < |s.tree| && s.tree[b].info.slot == Some(j);
      assert Linked(s.slots, s.tree[a]) && Linked(s.slots, s.tree[b]);
      Distinct(s.tree, a, b);
    }
  }

  // ----- Silence ------------------------------------------------------------

  lemma {:induction false} RunJobsPreserves<K>(s: Reg<K>)
    requires Good(s)
    ensures Good(RunJobs(s)) && RunJobs(s).jobs == [] && RunJobs(s).tree == s.tree && |RunJobs(s).slots| == |s.slots|
    decreases |s.jobs|
  {
    if s.jobs != [] {
      RunJobPreserves(s);
      RunJobsPreserves(RunJob(s));
    }
  }

  lemma {:induction false} StaleForestVanishes(tree: seq<Node>, now: int)
    requires forall n :: n in tree ==> Stale(n.info.hb, now)
    ensures Sweep(tree, now) == []
    decreases tree
  {
    if tree != [] {
      assert tree[0] in tree;
      StaleForestVanishes(tree[1..], now);
    }
  }

  /** After more than five silent seconds one sweep and the events it schedules free the whole table. */
  lemma SilenceFreesEverything<K>(s: Reg<K>, now: int)
    requires Good(s) && forall n :: n in s.tree ==> now - n.info.hb > 5
    ensures var s' := RunJobs(SweepTree(s, now));
            s'.tree == [] && s'.jobs == [] && |s'.slots| == |s.slots| && forall i :: 0 <= i < |s'.slots| ==> s'.slots[i].Free?
  {
    StaleForestVanishes(s.tree, now);
    SweepPreserves(s, now);
    RunJobsPreserves(SweepTree(s, now));
    var s' := RunJobs(SweepTree(s, now));
    forall i | 0 <= i < |s'.slots| ensures s'.slots[i].Free? {
      assert !Points(s'.tree, i) && Release(i) !in s'.jobs;
    }
  }
}
