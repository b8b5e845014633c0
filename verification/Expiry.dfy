/** The hierarchical expiry sweep against flat expiry, node by node. */
module Expiry {
  import opened Names
  import opened Forest

  // ----- Filters over concatenations ----------------------------------------

  lemma {:induction false} KeepFreshConcat(a: seq<Entry>, b: seq<Entry>, now: int)
    ensures KeepFresh(a + b, now) == KeepFresh(a, now) + KeepFresh(b, now)
    decreases a
  {
    if a == [] {
      assert a + b == b;
    } else {
      assert (a + b)[1..] == a[1..] + b;
      KeepFreshConcat(a[1..], b, now);
    }
  }

  /** The lines kept are those of at most five seconds of silence. */
  lemma {:induction false} KeepFreshMembers(es: seq<Entry>, now: int, e: Entry)
    ensures e in KeepFresh(es, now) <==> e in es && now - e.info.hb <= 5
    decreases es
  {
    if es != [] { KeepFreshMembers(es[1..], now, e); }
  }

  /** KeepFresh distributes over a node: its own line, its subtree. */
  lemma KeepFreshOne(prefix: seq<string>, n: Node, now: int)
    ensures KeepFresh(FlattenOne(prefix, n), now) ==
            (if Stale(n.info.hb, now) then [] else [Entry(prefix + [n.name], n.info)])
            + KeepFresh(Flatten(prefix + [n.name], n.kids), now)
  {
  }

  lemma {:induction false} AllStaleIsEmpty(prefix: seq<string>, kids: seq<Node>, now: int)
    ensures AllStale(kids, now) <==> KeepFresh(Flatten(prefix, kids), now) == []
    decreases kids
  {
    if kids != [] {
      var n, rest := kids[0], kids[1..];
      KeepFreshConcat(FlattenOne(prefix, n), Flatten(prefix, rest), now);
      KeepFreshOne(prefix, n, now);
      AllStaleIsEmpty(prefix + [n.name], n.kids, now);
      AllStaleIsEmpty(prefix, rest, now);
      assert kids == [n] + rest;
    }
  }

  /** The sweep never keeps more than flat expiry would, and it keeps the same
      lines in the same order exactly when no fresh node sits under a stale one. */
  lemma {:induction false} SweepIsFlatExpiry(prefix: seq<string>, kids: seq<Node>, now: int)
    ensures |Flatten(prefix, Sweep(kids, now))| <= |KeepFresh(Flatten(prefix, kids), now)|
    ensures NoFreshUnderStale(kids, now) <==>
            Flatten(prefix, Sweep(kids, now)) == KeepFresh(Flatten(prefix, kids), now)
    ensures |Flatten(prefix, Sweep(kids, now))| == |KeepFresh(Flatten(prefix, kids), now)|
            ==> NoFreshUnderStale(kids, now)
    decreases kids
  {
    if kids != [] {
      var n, rest := kids[0], kids[1..];
      assert kids == [n] + rest;
      KeepFreshConcat(FlattenOne(prefix, n), Flatten(prefix, rest), now);
      KeepFreshOne(prefix, n, now);
      SweepIsFlatExpiry(prefix, rest, now);
      if Stale(n.info.hb, now) {
        AllStaleIsEmpty(prefix + [n.name], n.kids, now);
        assert Sweep(kids, now) == Sweep(rest, now);
      } else {
        SweepIsFlatExpiry(prefix + [n.name], n.kids, now);
        var n' := n.(kids := Sweep(n.kids, now));
        assert ([n'] + Sweep(rest, now))[1..] == Sweep(rest, now);
      }
    }
  }

  // ----- The order of heartbeats --------------------------------------------

  lemma {:induction false} OrderedStaleness(kids: seq<Node>, hb: int, now: int)
    requires HbOrdered(kids) && Stale(hb, now)
    requires forall n :: n in kids ==> n.info.hb <= hb
    ensures AllStale(kids, now)
    decreases kids
  {
    forall n | n in kids ensures Stale(n.info.hb, now) && AllStale(n.kids, now) {
      OrderedStaleness(n.kids, n.info.hb, now);
    }
  }

  /** Parents heard from no earlier than their children: then no fresh node is lost. */
  lemma {:induction false} HbOrderedLosesNothing(kids: seq<Node>, now: int)
    requires HbOrdered(kids)
    ensures NoFreshUnderStale(kids, now)
    decreases kids
  {
    forall n | n in kids
      ensures if Stale(n.info.hb, now) then AllStale(n.kids, now) else NoFreshUnderStale(n.kids, now)
    {
      if Stale(n.info.hb, now) { OrderedStaleness(n.kids, n.info.hb, now); } else { HbOrderedLosesNothing(n.kids, now); }
    }
  }

  lemma {:induction false} AllStaleLosesNothing(kids: seq<Node>, now: int)
    requires AllStale(kids, now)
    ensures NoFreshUnderStale(kids, now)
    decreases kids
  {
  }

  /** No sweep, at whatever time, takes a fresh node away with its parent. */
  ghost predicate NeverLosesFresh(kids: seq<Node>)
  {
    forall now: int :: NoFreshUnderStale(kids, now)
  }

  lemma {:induction false} LosingNothingNeedsOrder(kids: seq<Node>)
    requires NeverLosesFresh(kids)
    ensures HbOrdered(kids)
    decreases kids
  {
    forall n | n in kids ensures HbOrdered(n.kids) {
      forall now: int ensures NoFreshUnderStale(n.kids, now) {
        assert NoFreshUnderStale(kids, now);
        if Stale(n.info.hb, now) { AllStaleLosesNothing(n.kids, now); }
      }
      LosingNothingNeedsOrder(n.kids);
    }
    forall n, c | n in kids && c in n.kids ensures c.info.hb <= n.info.hb {
      var late := n.info.hb + TMCHK_NORESP + 1;
      assert NoFreshUnderStale(kids, late);
      assert AllStale(n.kids, late);
      assert Stale(c.info.hb, late);
    }
  }

  /** The heartbeat order is not only enough but needed. */
  lemma HbOrderIsExact(kids: seq<Node>)
    ensures HbOrdered(kids) <==> NeverLosesFresh(kids)
  {
    if HbOrdered(kids) {
      forall now: int ensures NoFreshUnderStale(kids, now) { HbOrderedLosesNothing(kids, now); }
    }
    if NeverLosesFresh(kids) { LosingNothingNeedsOrder(kids); }
  }

  /** What a sweep keeps is a subsequence of the children, each with its name and contents. */
  lemma {:induction false} SweepKeeps(kids: seq<Node>, now: int, m: Node)
    requires m in Sweep(kids, now)
    ensures exists n :: n in kids && !Stale(n.info.hb, now) && m == n.(kids := Sweep(n.kids, now))
    decreases kids
  {
    if m !in SweepOne(kids[0], now) { SweepKeeps(kids[1..], now, m); }
  }

  lemma {:induction false} SweepHbOrdered(kids: seq<Node>, now: int)
    requires HbOrdered(kids)
    ensures HbOrdered(Sweep(kids, now))
    decreases kids
  {
    forall m | m in Sweep(kids, now)
      ensures HbOrdered(m.kids) && forall c :: c in m.kids ==> c.info.hb <= m.info.hb
    {
      SweepKeeps(kids, now, m);
      var n :| n in kids && m == n.(kids := Sweep(n.kids, now));
      SweepHbOrdered(n.kids, now);
      forall c | c in m.kids ensures c.info.hb <= m.info.hb { SweepKeeps(n.kids, now, c); }
    }
  }

  lemma {:induction false} BoundedLater(kids: seq<Node>, clock: int, later: int)
    requires HbBounded(kids, clock) && clock <= later
    ensures HbBounded(kids, later)
    decreases kids
  {
    forall n | n in kids ensures n.info.hb <= later && HbBounded(n.kids, later) { BoundedLater(n.kids, clock, later); }
  }

  lemma {:induction false} SweepHbBounded(kids: seq<Node>, clock: int, now: int)
    requires HbBounded(kids, clock)
    ensures HbBounded(Sweep(kids, now), clock)
    decreases kids
  {
    forall m | m in Sweep(kids, now) ensures m.info.hb <= clock && HbBounded(m.kids, clock) {
      SweepKeeps(kids, now, m);
      var n :| n in kids && m == n.(kids := Sweep(n.kids, now));
      SweepHbBounded(n.kids, clock, now);
    }
  }

  /** Order by name survives a sweep at every level. */
  lemma {:induction false} SweepSorted(kids: seq<Node>, now: int)
    requires Sorted(kids)
    ensures Sorted(Sweep(kids, now))
    decreases kids
  {
    if kids != [] {
      var n, rest := kids[0], kids[1..];
      SweepSorted(n.kids, now);
      assert n in kids && forall r :: r in rest ==> r in kids;
      SweepSorted(rest, now);
      forall m | m in Sweep(rest, now) ensures Less(n.name, m.name) {
        SweepKeeps(rest, now, m);
      }
      var row := SweepOne(n, now) + Sweep(rest, now);
      forall m | m in row ensures Sorted(m.kids) {
        if m in Sweep(rest, now) {} else { assert m in SweepOne(n, now); }
      }
    }
  }
}
