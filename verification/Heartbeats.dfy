/** When registrations keep the heartbeat order that makes hierarchical expiry exact. */
module Heartbeats {
  import opened Names
  import opened Forest
  import opened TreeOrder
  import opened Expiry
  import opened Registry
  import opened RegistryRuns

  /** A `chk_tree` call at the instant `now`, its parent having been touched at that instant. */
  lemma {:induction false} ChkTreeHb(kids: seq<Node>, path: seq<string>, info: Info, note: Option<Traffic>)
    requires path != [] && Sorted(kids) && HbOrdered(kids) && HbBounded(kids, info.hb) && ParentPresent(kids, path)
    requires |path| > 1 ==> Lookup(kids, path[..|path| - 1]).value.hb == info.hb
    ensures HbOrdered(ChkTree(kids, path, info, note)) && HbBounded(ChkTree(kids, path, info, note), info.hb)
    decreases path
  {
    var i, after := FirstGE(kids, path[0]), ChkTree(kids, path, info, note);
    assert i < |kids| ==> kids[i] in kids;
    if |path| > 1 {
      ParentPresentBelow(kids, path);
      OrderedSearch(kids, path[0]);
      var short := path[..|path| - 1];
      assert short[0] == path[0] && short[1..] == path[1..][..|path| - 2];
      ChkTreeHb(kids[i].kids, path[1..], info, note);
      BelowParent(kids[i], path[1..], info, note);
      ReplacedHb(kids, i, kids[i].(kids := ChkTree(kids[i].kids, path[1..], info, note)), info.hb);
    } else if Same(kids, path[0]) {
      ReplacedHb(kids, i, kids[i].(info := Touch(kids[i].info, info.hb, note)), info.hb);
    } else {
      RowHb(kids, after, Node(path[0], info, []), info.hb);
    }
  }

  lemma ReplacedHb(kids: seq<Node>, i: nat, n: Node, hb: int)
    requires HbOrdered(kids) && HbBounded(kids, hb) && i < |kids|
    requires n.info.hb <= hb && HbOrdered(n.kids) && HbBounded(n.kids, hb) && forall c :: c in n.kids ==> c.info.hb <= n.info.hb
    ensures HbOrdered(kids[i := n]) && HbBounded(kids[i := n], hb)
  {
    RowHb(kids, kids[i := n], n, hb);
  }

  /** A row of old nodes and one well-kept new one. */
  lemma RowHb(kids: seq<Node>, after: seq<Node>, n: Node, hb: int)
    requires HbOrdered(kids) && HbBounded(kids, hb) && forall m :: m in after ==> m in kids || m == n
    requires n.info.hb <= hb && HbOrdered(n.kids) && HbBounded(n.kids, hb) && forall c :: c in n.kids ==> c.info.hb <= n.info.hb
    ensures HbOrdered(after) && HbBounded(after, hb)
  {
  }

  /** The children the call leaves under n are no more recent than n. */
  lemma BelowParent(n: Node, path: seq<string>, info: Info, note: Option<Traffic>)
    requires path != [] && Sorted(n.kids) && HbBounded(n.kids, info.hb) && ParentPresent(n.kids, path)
    requires forall c :: c in n.kids ==> c.info.hb <= n.info.hb
    requires |path| == 1 ==> n.info.hb == info.hb
    ensures forall c :: c in ChkTree(n.kids, path, info, note) ==> c.info.hb <= n.info.hb
  {
  }

  predicate OneInstant(r: Levels, now: int)
  {
    forall k :: 0 <= k < |r.times| ==> r.times[k] == now
  }

  /** One clock instant for a whole registration keeps the order. */
  lemma {:induction false} ChkPathHb(kids: seq<Node>, r: Levels, n: nat, now: int)
    requires r.Valid() && n <= |r.path| && Sorted(kids) && HbOrdered(kids) && HbBounded(kids, now) && OneInstant(r, now)
    ensures HbOrdered(ChkPath(kids, r, n)) && HbBounded(ChkPath(kids, r, n), now)
    decreases n
  {
    if n > 0 {
      var before, path := ChkPath(kids, r, n - 1), r.path[..n];
      ChkPathHb(kids, r, n - 1, now);
      ChkPathSorted(kids, r, n - 1);
      if n > 1 {
        assert path[..n - 1] == r.path[..n - 1];
        ChkPathIsUpsert(kids, r, n - 1, r.path[..n - 1]);
      }
      assert r.times[n - 1] == now;
      ChkTreeHb(before, path, r.Fresh(n - 1, None), r.notes[n - 1]);
    }
  }

  lemma {:induction false} OrderedAlongPath(kids: seq<Node>, path: seq<string>)
    requires |path| > 1 && HbOrdered(kids) && Lookup(kids, path[..|path| - 1]).Some? && Lookup(kids, path).Some?
    ensures Lookup(kids, path).value.hb <= Lookup(kids, path[..|path| - 1]).value.hb
    decreases path
  {
    var i, short := IndexOf(kids, path[0]), path[..|path| - 1];
    assert short[0] == path[0] && short[1..] == path[1..][..|path| - 2];
    assert kids[i] in kids;
    if |path| == 2 {
      var j := IndexOf(kids[i].kids, path[1]);
      assert path[1..] == [path[1]];
      assert kids[i].kids[j] in kids[i].kids;
    } else {
      OrderedAlongPath(kids[i].kids, path[1..]);
    }
  }

  /** The clock never runs backwards, but it is read once per level: the order
      survives a registration exactly when all its reads fall in one instant. */
  lemma OneInstantIsExact(kids: seq<Node>, r: Levels)
    requires r.Valid() && Sorted(kids) && HbOrdered(kids) && HbBounded(kids, r.times[0])
    requires forall k :: 0 < k < |r.times| ==> r.times[k - 1] <= r.times[k]
    ensures HbOrdered(ChkPath(kids, r, |r.path|)) <==> OneInstant(r, r.times[0])
  {
    if OneInstant(r, r.times[0]) {
      ChkPathHb(kids, r, |r.path|, r.times[0]);
    } else {
      var n :| 0 <= n < |r.times| && r.times[n] != r.times[0];
      var k := LastTick(r.times, n);
      TickBreaksOrder(kids, r, k);
    }
  }

  lemma {:induction false} LastTick(times: seq<int>, n: nat) returns (k: nat)
    requires n < |times| && times[n] != times[0]
    requires forall k :: 0 < k < |times| ==> times[k - 1] <= times[k]
    ensures 0 < k < |times| && times[k - 1] < times[k]
    decreases n
  {
    if times[n - 1] == times[n] { k := LastTick(times, n - 1); } else { k := n; }
  }

  lemma TouchedAt(kids: seq<Node>, r: Levels, k: nat)
    requires r.Valid() && Sorted(kids) && k < |r.path|
    ensures var after := Lookup(ChkPath(kids, r, |r.path|), r.path[..k + 1]); after.Some? && after.value.hb == r.times[k]
  {
    ChkPathIsUpsert(kids, r, |r.path|, r.path[..k + 1]);
  }

  lemma TickBreaksOrder(kids: seq<Node>, r: Levels, k: nat)
    requires r.Valid() && Sorted(kids) && 0 < k < |r.path| && r.times[k - 1] < r.times[k]
    ensures !HbOrdered(ChkPath(kids, r, |r.path|))
  {
    TouchedAt(kids, r, k - 1);
    TouchedAt(kids, r, k);
    assert r.path[..k + 1][..k] == r.path[..k];
    var after := ChkPath(kids, r, |r.path|);
    if HbOrdered(after) {
      OrderedAlongPath(after, r.path[..k + 1]);
      assert false;
    }
  }

  // ----- Whole runs ---------------------------------------------------------

  /** Every registration happens at one instant of a clock that never runs backwards. */
  ghost predicate Timed<K>(es: seq<Event<K>>, clock: seq<int>)
  {
    && |clock| == |es| + 1
    && (forall e :: e in es && e.Registration? ==> e.r.levels.Valid())
    && (forall k :: 0 < k < |clock| ==> clock[k - 1] <= clock[k])
    && forall k :: 0 <= k < |es| && es[k].Registration? ==> OneInstant(es[k].r.levels, clock[k + 1])
  }

  /** What every tree of such a run has. */
  predicate WellKept(tree: seq<Node>, now: int)
  {
    Sorted(tree) && HbOrdered(tree) && HbBounded(tree, now)
  }

  lemma PathKeepsTree(tree: seq<Node>, r: Levels, now: int)
    requires WellKept(tree, now) && r.Valid() && OneInstant(r, now)
    ensures WellKept(ChkPath(tree, r, |r.path|), now)
  {
    ChkPathSorted(tree, r, |r.path|);
    ChkPathHb(tree, r, |r.path|, now);
  }

  lemma TopKeepsTree(tree: seq<Node>, r: Levels, slot: Option<nat>, now: int)
    requires WellKept(tree, now) && r.Valid() && OneInstant(r, now)
    ensures WellKept(ChkLevel(tree, r, 0, slot), now)
  {
    ChkLevelIsUpsert(tree, r, 0, slot, r.path[..1]);
    assert r.times[0] == now;
    ChkTreeHb(tree, r.path[..1], r.Fresh(0, slot), r.notes[0]);
  }

  lemma StepKeepsTree<K>(s: Reg<K>, e: Event<K>, now: int)
    requires WellKept(s.tree, now)
    requires e.Registration? ==> e.r.levels.Valid() && OneInstant(e.r.levels, now)
    ensures WellKept(Step(s, e).tree, now)
  {
    match e
    case Registration(r) =>
      PathKeepsTree(s.tree, r.levels, now);
      TopKeepsTree(s.tree, r.levels, Some(FindFree(s.slots)), now);
    case Expire(t) =>
      SweepSorted(s.tree, t);
      SweepHbOrdered(s.tree, t);
      SweepHbBounded(s.tree, now, t);
    case RunOne =>
  }

  /** In every state of every such run the children are ascending by name and
      no sweep takes a fresh node: it leaves exactly what flat expiry would. */
  lemma {:induction false} RunKeepsTree<K>(n: nat, es: seq<Event<K>>, clock: seq<int>)
    requires Timed(es, clock)
    ensures WellKept(Run(Empty(n), es).tree, clock[|es|])
    decreases |es|
  {
    if es != [] {
      var k := |es| - 1;
      assert Timed(es[..k], clock[..k + 1]);
      RunKeepsTree(n, es[..k], clock[..k + 1]);
      var before := Run(Empty(n), es[..k]);
      BoundedLater(before.tree, clock[k], clock[k + 1]);
      assert es[k] in es;
      StepKeepsTree(before, es[k], clock[k + 1]);
    }
  }

  /** So the sweep keeps exactly the nodes heard of within the last five
      seconds, each at its path, in the same order. */
  lemma RunSweepsExactly<K>(n: nat, es: seq<Event<K>>, clock: seq<int>, now: int)
    requires Timed(es, clock)
    ensures var t := Run(Empty(n), es).tree;
            && Flatten([], Sweep(t, now)) == KeepFresh(Flatten([], t), now)
            && forall e :: e in Flatten([], Sweep(t, now)) <==> e in Flatten([], t) && now - e.info.hb <= 5
  {
    var t := Run(Empty(n), es).tree;
    RunKeepsTree(n, es, clock);
    HbOrderedLosesNothing(t, now);
    SweepIsFlatExpiry([], t, now);
    forall e ensures e in KeepFresh(Flatten([], t), now) <==> e in Flatten([], t) && now - e.info.hb <= 5 {
      KeepFreshMembers(Flatten([], t), now, e);
    }
  }
}
