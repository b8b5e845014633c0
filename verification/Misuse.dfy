/** What registrations outside the habits that keep the registry consistent lead to. */
module Misuse {
  import opened Names
  import opened Forest
  import opened TreeOrder
  import opened Registry
  import opened RegistryTheory
  import opened RegistryRuns
  import opened Heartbeats

  // ----- Leaked slots -------------------------------------------------------

  /** Some node, at whatever level, holds slot i. */
  predicate Holds(kids: seq<Node>, i: nat)
  {
    exists n :: n in kids && (n.info.slot == Some(i) || Holds(n.kids, i))
  }

  /** A used slot that no node points at and no pending event will release. */
  ghost predicate Leaked<K>(s: Reg<K>, i: nat)
  {
    i < |s.slots| && s.slots[i].Used? && !Holds(s.tree, i) && Release(i) !in s.jobs
  }

  lemma {:induction false} ChkTreeHolds(kids: seq<Node>, path: seq<string>, info: Info, note: Option<Traffic>, i: nat)
    requires path != [] && !Holds(kids, i) && info.slot != Some(i)
    ensures !Holds(ChkTree(kids, path, info, note), i)
    decreases path
  {
    var k, after := FirstGE(kids, path[0]), ChkTree(kids, path, info, note);
    if |path| > 1 && Same(kids, path[0]) {
      assert kids[k] in kids;
      ChkTreeHolds(kids[k].kids, path[1..], info, note, i);
    }
    forall n | n in after ensures n.info.slot != Some(i) && !Holds(n.kids, i) {
      if n !in kids { assert k < |kids| ==> kids[k] in kids; }
    }
  }

  lemma {:induction false} ChkPathHolds(kids: seq<Node>, r: Levels, n: nat, i: nat)
    requires r.Valid() && n <= |r.path| && !Holds(kids, i)
    ensures !Holds(ChkPath(kids, r, n), i)
    decreases n
  {
    if n > 0 {
      ChkPathHolds(kids, r, n - 1, i);
      ChkTreeHolds(ChkPath(kids, r, n - 1), r.path[..n], r.Fresh(n - 1, None), r.notes[n - 1], i);
    }
  }

  /** A sweep neither hands out slots nor releases one that no node holds. */
  lemma {:induction false} SweepHolds(kids: seq<Node>, now: int, i: nat)
    requires !Holds(kids, i)
    ensures !Holds(Sweep(kids, now), i) && i !in Released(kids, now)
    decreases kids
  {
    if kids != [] {
      var n, rest := kids[0], kids[1..];
      assert n in kids && forall m :: m in rest ==> m in kids;
      SweepHolds(n.kids, now, i);
      SweepHolds(rest, now, i);
      forall m | m in Sweep(kids, now) ensures m.info.slot != Some(i) && !Holds(m.kids, i) {
        assert m in SweepOne(n, now) || m in Sweep(rest, now);
      }
    }
  }

  lemma RegisterKeepsLeak<K>(s: Reg<K>, r: Regi<K>, i: nat)
    requires Leaked(s, i) && r.levels.Valid()
    ensures Leaked(Register(s, r), i)
  {
    match Classify(s.slots, r.key, r.levels.path[0])
    case Serviced(_) => ChkPathHolds(s.tree, r.levels, |r.levels.path|, i);
    case Vacant(j) => ChkTreeHolds(s.tree, r.levels.path[..1], r.levels.Fresh(0, Some(j)), r.levels.notes[0], i);
    case _ =>
  }

  lemma RunJobKeepsLeak<K>(s: Reg<K>, i: nat)
    requires Leaked(s, i)
    ensures Leaked(RunJob(s), i)
  {
    if s.jobs != [] { assert s.jobs[0] in s.jobs; }
  }

  lemma StepKeepsLeak<K>(s: Reg<K>, e: Event<K>, i: nat)
    requires Leaked(s, i) && (e.Registration? ==> e.r.levels.Valid())
    ensures Leaked(Step(s, e), i)
  {
    match e
    case Registration(r) => RegisterKeepsLeak(s, r, i);
    case Expire(now) => SweepHolds(s.tree, now, i); ReleaseJobsOf(Released(s.tree, now), i);
    case RunOne => RunJobKeepsLeak(s, i);
  }

  /** A leak is permanent: whatever is registered, swept or run later, the slot
      stays used and nothing will ever free it. */
  lemma {:induction false} LeakIsPermanent<K>(s: Reg<K>, es: seq<Event<K>>, i: nat)
    requires Leaked(s, i) && forall e :: e in es && e.Registration? ==> e.r.levels.Valid()
    ensures Leaked(Run(s, es), i)
    decreases |es|
  {
    if es != [] {
      var k := |es| - 1;
      assert es[k] in es && forall e :: e in es[..k] ==> e in es;
      LeakIsPermanent(s, es[..k], i);
      StepKeepsLeak(Run(s, es[..k]), es[k], i);
    }
  }

  lemma {:induction false} NoSlotsHoldsNone(kids: seq<Node>, i: nat)
    requires NoSlots(kids)
    ensures !Holds(kids, i)
    decreases kids
  {
    forall n | n in kids ensures n.info.slot != Some(i) && !Holds(n.kids, i) { NoSlotsHoldsNone(n.kids, i); }
  }

  /** An unsafe registration that takes a free slot leaks it: the node is there
      already and keeps its own pointer. */
  lemma UnsafeVacantLeaks<K>(s: Reg<K>, r: Regi<K>)
    requires Good(s) && r.levels.Valid() && !Safe(s, r) && Classify(s.slots, r.key, r.levels.path[0]).Vacant?
    ensures Leaked(Register(s, r), Classify(s.slots, r.key, r.levels.path[0]).slot)
  {
    var name, i, s' := r.levels.path[0], FindFree(s.slots), Register(s, r);
    assert r.levels.path[..1] == [name];
    var k := FirstGE(s.tree, name);
    forall n | n in s'.tree ensures n.info.slot != Some(i) && !Holds(n.kids, i) {
      var m := if n in s.tree then n else s.tree[k];
      assert m in s.tree && Linked(s.slots, m) && n.info.slot == m.info.slot && n.kids == m.kids;
      NoSlotsHoldsNone(m.kids, i);
    }
  }

  // ----- One name, two port decades -----------------------------------------

  lemma EmptyIsGood<K>(n: nat)
    ensures Good(Empty<K>(n))
  {
  }

  lemma FirstRegistration<K>(n: nat, r: Regi<K>)
    requires n > 0 && r.levels.Valid()
    ensures var s, name := Register(Empty<K>(n), r), r.levels.path[0];
            && Good(s) && s.slots == Empty<K>(n).slots[0 := Used(r.key, name, false)]
            && s.tree == [Node(name, r.levels.Fresh(0, Some(0)), [])] && s.jobs == [Start(0)]
  {
    var s := Empty<K>(n);
    EmptyIsGood<K>(n);
    assert Classify(s.slots, r.key, r.levels.path[0]) == Vacant(0);
    RegisterPreserves(s, r);
    assert r.levels.path[..1] == [r.levels.path[0]];
  }

  lemma FoundFirst(kids: seq<Node>, name: string)
    requires kids != [] && kids[0].name == name
    ensures Same(kids, name) && FirstGE(kids, name) == 0
  {
    Trichotomy(name, name);
  }

  /** A name registered under a second key takes a second slot, and that slot is
      lost for good: no later event frees it. */
  lemma TwoKeysLeak<K>(n: nat, r: Regi<K>, r': Regi<K>, es: seq<Event<K>>)
    requires n > 1 && r.levels.Valid() && r'.levels.Valid()
    requires r.key != r'.key && r.levels.path[0] == r'.levels.path[0]
    requires forall e :: e in es && e.Registration? ==> e.r.levels.Valid()
    ensures var s := Register(Register(Empty(n), r), r'); !Good(s) && Leaked(Run(s, es), 1)
  {
    var s := Register(Empty(n), r);
    FirstRegistration(n, r);
    var name := r.levels.path[0];
    FoundFirst(s.tree, name);
    assert Classify(s.slots, r'.key, name) == Vacant(1) by { assert s.slots[0].Used? && s.slots[1].Free?; }
    RegisterPreserves(s, r');
    UnsafeVacantLeaks(s, r');
    LeakIsPermanent(Register(s, r'), es, 1);
  }

  // ----- A release still pending --------------------------------------------

  lemma FirstSweep<K>(n: nat, r: Regi<K>, now: int)
    requires n > 0 && r.levels.Valid() && now - r.levels.times[0] > 5
    ensures var s := SweepTree(RunJob(Register(Empty(n), r)), now);
            Good(s) && s.tree == [] && s.slots == Empty<K>(n).slots[0 := Used(r.key, r.levels.path[0], true)] && s.jobs == [Release(0)]
  {
    var s1 := Register(Empty(n), r);
    FirstRegistration(n, r);
    RunJobPreserves(s1);
    var s2 := RunJob(s1);
    assert s2.jobs == [];
    SweepPreserves(s2, now);
    OneStale(s2.tree[0], now);
    assert s2.tree == [s2.tree[0]] && ReleaseJobs([0]) == [Release(0)];
  }

  lemma OneStale(n: Node, now: int)
    requires Stale(n.info.hb, now)
    ensures Sweep([n], now) == [] && Released([n], now) == SlotOf(n)
  {
    assert [n][1..] == [];
  }

  /** A service swept and registered again before its release has run gets nodes
      without a slot. */
  lemma RegisteredWhileReleasing<K>(n: nat, r: Regi<K>, now: int)
    requires n > 0 && r.levels.Valid() && now - r.levels.times[0] > 5
    ensures var s := Register(SweepTree(RunJob(Register(Empty(n), r)), now), r);
            !Good(s) && exists m :: m in s.tree && m.info.slot == None
  {
    var s := SweepTree(RunJob(Register(Empty(n), r)), now);
    FirstSweep(n, r, now);
    assert s.slots[0].Used? && s.slots[0].key == r.key;
    assert FindKey(s.slots, r.key) == 0 && Classify(s.slots, r.key, r.levels.path[0]) == Serviced(0);
    RegisterPreserves(s, r);
    UnservedNodeHasNoSlot(s.tree, r.levels, |r.levels.path|);
  }

  /** What a registration from an empty tree leaves holds no slot, but has its top node. */
  lemma SlotlessPath(r: Levels, i: nat)
    requires r.Valid()
    ensures var tree := ChkPath([], r, |r.path|); !Holds(tree, i) && Same(tree, r.path[0])
  {
    ChkPathHolds([], r, |r.path|, i);
    ChkPathSorted([], r, |r.path|);
    TouchedAt([], r, 0);
    assert r.path[..1] == [r.path[0]];
    OrderedSearch(ChkPath([], r, |r.path|), r.path[0]);
  }

  lemma AfterRelease<K>(n: nat, r: Regi<K>, now: int)
    requires n > 0 && r.levels.Valid() && now - r.levels.times[0] > 5
    ensures var s := RunJob(Register(SweepTree(RunJob(Register(Empty(n), r)), now), r));
            && s.slots == Empty<K>(n).slots && s.jobs == [] && !Holds(s.tree, 0) && Same(s.tree, r.levels.path[0])
  {
    var s := SweepTree(RunJob(Register(Empty(n), r)), now);
    FirstSweep(n, r, now);
    assert s.slots[0].Used? && s.slots[0].key == r.key;
    assert FindKey(s.slots, r.key) == 0 && Classify(s.slots, r.key, r.levels.path[0]) == Serviced(0);
    SlotlessPath(r.levels, 0);
    var s' := Register(s, r);
    assert s'.jobs == [Release(0)] && s'.tree == ChkPath([], r.levels, |r.levels.path|);
    assert s'.slots[0 := Free] == Empty<K>(n).slots;
  }

  /** Once that release has run, the next registration of the name takes a slot
      that its node does not hold, and no later event frees it. */
  lemma SlotlessNodeLeaks<K>(n: nat, r: Regi<K>, now: int, es: seq<Event<K>>)
    requires n > 0 && r.levels.Valid() && now - r.levels.times[0] > 5
    requires forall e :: e in es && e.Registration? ==> e.r.levels.Valid()
    ensures Leaked(Run(Register(RunJob(Register(SweepTree(RunJob(Register(Empty(n), r)), now), r)), r), es), 0)
  {
    var s := RunJob(Register(SweepTree(RunJob(Register(Empty(n), r)), now), r));
    AfterRelease(n, r, now);
    ClaimedUnheld(s, r);
    LeakIsPermanent(Register(s, r), es, 0);
  }

  /** A free table whose tree has the name already, but no pointer to slot 0. */
  lemma ClaimedUnheld<K>(s: Reg<K>, r: Regi<K>)
    requires s.slots != [] && (forall i :: 0 <= i < |s.slots| ==> s.slots[i].Free?) && s.jobs == []
    requires r.levels.Valid() && !Holds(s.tree, 0) && Same(s.tree, r.levels.path[0])
    ensures Leaked(Register(s, r), 0)
  {
    var name, s' := r.levels.path[0], Register(s, r);
    assert Classify(s.slots, r.key, name) == Vacant(0) && r.levels.path[..1] == [name];
    var k := FirstGE(s.tree, name);
    forall n | n in s'.tree ensures n.info.slot != Some(0) && !Holds(n.kids, 0) {
      var m := if n in s.tree then n else s.tree[k];
      assert m in s.tree && n.info.slot == m.info.slot && n.kids == m.kids;
    }
  }

  // ----- Clock reads in two seconds -----------------------------------------

  lemma {:induction false} OneTop(kids: seq<Node>, r: Levels, n: nat)
    requires r.Valid() && n <= |r.path| && |kids| == 1 && kids[0].name == r.path[0]
    ensures |ChkPath(kids, r, n)| == 1
  {
    FoundFirst(kids, r.path[0]);
    ChkPathTops(kids, r, n);
  }

  /** A registered service whose next registration reads one second for the
      service and a later one for the process: a sweep in time drops the process
      with its service, although it was heard of within five seconds. */
  lemma StraddledProcessLost<K>(n: nat, r: Regi<K>, r': Regi<K>, now: int)
    requires n > 0 && r.levels.Valid() && r'.levels.Valid() && r'.key == r.key && r'.levels.path == r.levels.path
    requires |r.levels.path| > 1 && r'.levels.times[0] + 5 < now <= r'.levels.times[1] + 5
    ensures var s := Register(Register(Empty(n), r), r');
            && Lookup(s.tree, r.levels.path[..2]).Some? && !Stale(Lookup(s.tree, r.levels.path[..2]).value.hb, now)
            && SweepTree(s, now).tree == []
  {
    var s1, path := Register(Empty(n), r), r'.levels.path;
    FirstRegistration(n, r);
    assert s1.slots[0].Used? && s1.slots[0].key == r.key;
    assert FindKey(s1.slots, r'.key) == 0 && Classify(s1.slots, r'.key, path[0]) == Serviced(0);
    StraddledUpdate(s1.tree, r'.levels, now);
  }

  lemma StraddledUpdate(kids: seq<Node>, r: Levels, now: int)
    requires r.Valid() && |r.path| > 1 && Sorted(kids) && |kids| == 1 && kids[0].name == r.path[0]
    requires r.times[0] + 5 < now <= r.times[1] + 5
    ensures var tree := ChkPath(kids, r, |r.path|);
            && Lookup(tree, r.path[..2]).Some? && !Stale(Lookup(tree, r.path[..2]).value.hb, now)
            && Sweep(tree, now) == []
  {
    TouchedAt(kids, r, 1);
    StaleTop(kids, r, now);
  }

  lemma StaleTop(kids: seq<Node>, r: Levels, now: int)
    requires r.Valid() && Sorted(kids) && |kids| == 1 && kids[0].name == r.path[0] && r.times[0] + 5 < now
    ensures Sweep(ChkPath(kids, r, |r.path|), now) == []
  {
    TouchedAt(kids, r, 0);
    OneTop(kids, r, |r.path|);
    assert r.path[..1] == [r.path[0]];
    SingleTop(ChkPath(kids, r, |r.path|), r.path[0]);
    OneStale(ChkPath(kids, r, |r.path|)[0], now);
  }

  lemma SingleTop(tree: seq<Node>, name: string)
    requires |tree| == 1 && Lookup(tree, [name]).Some?
    ensures tree == [tree[0]] && Lookup(tree, [name]) == Some(tree[0].info)
  {
  }
}
