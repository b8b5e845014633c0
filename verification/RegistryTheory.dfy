/** The slot table and the registry tree correspond, over every run of
    registrations, sweeps and pending events. */
module RegistryTheory {
  import opened Names
  import opened Forest
  import opened TreeOrder
  import opened Registry

  // ----- What registration does to the top level ----------------------------

  /** Same names and same slot pointers at the top, no slot below. */
  ghost predicate SameTops(a: seq<Node>, b: seq<Node>)
  {
    && |a| == |b|
    && forall i :: 0 <= i < |a| ==>
         a[i].name == b[i].name && a[i].info.slot == b[i].info.slot && (NoSlots(a[i].kids) ==> NoSlots(b[i].kids))
  }

  lemma {:induction false} ChkTreeNoSlots(kids: seq<Node>, path: seq<string>, info: Info, note: Option<Traffic>)
    requires path != [] && NoSlots(kids) && info.slot == None
    ensures NoSlots(ChkTree(kids, path, info, note))
    decreases path
  {
    var i := FirstGE(kids, path[0]);
    if |path| > 1 && Same(kids, path[0]) {
      ChkTreeNoSlots(kids[i].kids, path[1..], info, note);
    }
    var after := ChkTree(kids, path, info, note);
    forall n | n in after ensures n.info.slot == None && NoSlots(n.kids) {
      if n !in kids { assert i < |kids| ==> kids[i] in kids; }
    }
  }

  /** A call for a level below an existing top node leaves the top row's names and slots alone. */
  lemma ChkTreeTops(kids: seq<Node>, path: seq<string>, info: Info, note: Option<Traffic>)
    requires path != [] && Same(kids, path[0]) && info.slot == None
    ensures SameTops(kids, ChkTree(kids, path, info, note))
    ensures Same(ChkTree(kids, path, info, note), path[0])
  {
    var i, after := FirstGE(kids, path[0]), ChkTree(kids, path, info, note);
    if |path| > 1 && NoSlots(kids[i].kids) { ChkTreeNoSlots(kids[i].kids, path[1..], info, note); }
    FirstGEOfNames(kids, after, path[0]);
  }

  lemma {:induction false} FirstGEOfNames(a: seq<Node>, b: seq<Node>, name: string)
    requires |a| == |b| && forall i :: 0 <= i < |a| ==> a[i].name == b[i].name
    ensures FirstGE(a, name) == FirstGE(b, name)
    decreases a
  {
  }

  lemma {:induction false} ChkPathTops(kids: seq<Node>, r: Levels, n: nat)
    requires r.Valid() && n <= |r.path| && Same(kids, r.path[0])
    ensures SameTops(kids, ChkPath(kids, r, n)) && Same(ChkPath(kids, r, n), r.path[0])
    decreases n
  {
    if n > 0 {
      ChkPathTops(kids, r, n - 1);
      ChkTreeTops(ChkPath(kids, r, n - 1), r.path[..n], r.Fresh(n - 1, None), r.notes[n - 1]);
    }
  }

  // ----- Registration -------------------------------------------------------

  lemma PointsByIndex(tree: seq<Node>, i: nat)
    ensures Points(tree, i) <==> exists k :: 0 <= k < |tree| && tree[k].info.slot == Some(i)
  {
  }

  lemma SameTopsPoint(a: seq<Node>, b: seq<Node>)
    requires SameTops(a, b)
    ensures forall i: nat :: Points(a, i) <==> Points(b, i)
  {
  }

  lemma KnownPreserves<K>(s: Reg<K>, r: Regi<K>)
    requires Good(s) && r.levels.Valid() && Same(s.tree, r.levels.path[0])
    ensures Good(s.(tree := ChkPath(s.tree, r.levels, |r.levels.path|)))
  {
    var after := ChkPath(s.tree, r.levels, |r.levels.path|);
    ChkPathSorted(s.tree, r.levels, |r.levels.path|);
    ChkPathTops(s.tree, r.levels, |r.levels.path|);
    SameTopsPoint(s.tree, after);
    forall m | m in after ensures Linked(s.slots, m) {
      var i :| 0 <= i < |after| && after[i] == m;
      assert Linked(s.slots, s.tree[i]);
    }
  }

  /** A registration for a slot that is served. */
  lemma ServicedPreserves<K>(s: Reg<K>, r: Regi<K>)
    requires Good(s) && r.levels.Valid() && Classify(s.slots, r.key, r.levels.path[0]).Serviced?
    ensures Good(Register(s, r)) <==> Same(s.tree, r.levels.path[0])
  {
    if Same(s.tree, r.levels.path[0]) {
      KnownPreserves(s, r);
    } else {
      UnservedNodeHasNoSlot(s.tree, r.levels, |r.levels.path|);
      var m :| m in Register(s, r).tree && m.info.slot == None;
      assert !Linked(s.slots, m);
    }
  }

  /** A node created by a served registration carries no slot pointer. */
  lemma {:induction false} UnservedNodeHasNoSlot(kids: seq<Node>, r: Levels, n: nat)
    requires r.Valid() && 0 < n <= |r.path| && Sorted(kids) && !Same(kids, r.path[0])
    ensures exists m :: m in ChkPath(kids, r, n) && m.info.slot == None
  {
    var q := [r.path[0]];
    OrderedSearch(kids, r.path[0]);
    ChkPathIsUpsert(kids, r, n, q);
    var after := ChkPath(kids, r, n);
    assert after[IndexOf(after, q[0])] in after;
  }

  /** A registration that takes the free slot i. */
  lemma VacantPreserves<K>(s: Reg<K>, r: Regi<K>)
    requires Good(s) && r.levels.Valid() && Classify(s.slots, r.key, r.levels.path[0]).Vacant?
    ensures Good(Register(s, r)) <==> !Same(s.tree, r.levels.path[0])
  {
    var name, i, s' := r.levels.path[0], FindFree(s.slots), Register(s, r);
    assert r.levels.path[..1] == [name];
    forall n | n in s.tree ensures Linked(s'.slots, n) && n.info.slot != Some(i) {
      assert Linked(s.slots, n);
    }
    assert !Points(s.tree, i) && Release(i) !in s.jobs;
    if Same(s.tree, name) {
      var k := FirstGE(s.tree, name);
      var tops := s.tree[k := s.tree[k].(info := Touch(s.tree[k].info, r.levels.times[0], r.levels.notes[0]))];
      assert s'.tree == tops;
      assert SameTops(s.tree, tops);
      SameTopsPoint(s.tree, tops);
      assert Release(i) !in s'.jobs;
      assert s'.slots[i].Used?;
    } else {
      NewNodeIsGood(s, r, s', i);
    }
  }

  lemma NewNodeIsGood<K>(s: Reg<K>, r: Regi<K>, s': Reg<K>, i: nat)
    requires Good(s) && r.levels.Valid() && !Same(s.tree, r.levels.path[0])
    requires Classify(s.slots, r.key, r.levels.path[0]) == Vacant(i) && s' == Register(s, r)
    requires !Points(s.tree, i) && Release(i) !in s.jobs
    requires forall n :: n in s.tree ==> Linked(s'.slots, n)
    ensures Good(s')
  {
    var name := r.levels.path[0];
    var k, leaf := FirstGE(s.tree, name), Node(name, r.levels.Fresh(0, Some(i)), []);
    assert r.levels.path[..1] == [name];
    ChkLevelIsUpsert(s.tree, r.levels, 0, Some(i), [name]);
    assert s'.tree == s.tree[..k] + [leaf] + s.tree[k..];
    NewNodePoints(s.tree, k, leaf, i);
    assert Linked(s'.slots, leaf);
    RowLinked(s'.slots, s.tree, s'.tree, leaf);
    NewSlotIsOwned(s, s', i, r.key, name);
    NewStartIsOrdered(s, s', i, r.key, name);
    NewKeyDistinct(s.slots, i, r.key, name);
  }

  lemma RowLinked<K>(slots: seq<Slot<K>>, tree: seq<Node>, after: seq<Node>, leaf: Node)
    requires (forall n :: n in tree ==> Linked(slots, n)) && Linked(slots, leaf) && forall n :: n in after ==> n in tree || n == leaf
    ensures forall n :: n in after ==> Linked(slots, n)
  {
  }

  lemma NewKeyDistinct<K>(slots: seq<Slot<K>>, i: nat, key: K, name: string)
    requires KeysDistinct(slots) && i < |slots| && FindKey(slots, key) == |slots|
    ensures KeysDistinct(slots[i := Used(key, name, false)])
  {
  }

  lemma NewSlotIsOwned<K>(s: Reg<K>, s': Reg<K>, i: nat, key: K, name: string)
    requires Owned(s) && i < |s.slots| && Release(i) !in s.jobs
    requires s'.jobs == s.jobs + [Start(i)]
    requires s'.slots == s.slots[i := Used(key, name, false)]
    requires forall j: nat :: Points(s'.tree, j) <==> j == i || Points(s.tree, j)
    ensures Owned(s')
  {
  }

  lemma NewNodePoints(tree: seq<Node>, k: nat, leaf: Node, i: nat)
    requires k <= |tree| && leaf.info.slot == Some(i)
    ensures forall j: nat :: Points(tree[..k] + [leaf] + tree[k..], j) <==> j == i || Points(tree, j)
  {
  }

  lemma NewStartIsOrdered<K>(s: Reg<K>, s': Reg<K>, i: nat, key: K, name: string)
    requires JobsOrdered(s) && i < |s.slots| && s.slots[i].Free? && Release(i) !in s.jobs
    requires s'.jobs == s.jobs + [Start(i)]
    requires s'.slots == s.slots[i := Used(key, name, false)]
    ensures JobsOrdered(s')
  {
  }

  /** Registration keeps table, tree and events consistent exactly when it is
      safe; and a conflict or a full table changes nothing at all. */
  lemma RegisterPreserves<K>(s: Reg<K>, r: Regi<K>)
    requires Good(s) && r.levels.Valid()
    ensures Good(Register(s, r)) <==> Safe(s, r)
    ensures Classify(s.slots, r.key, r.levels.path[0]) in [Conflict, Full] ==> Register(s, r) == s
  {
    match Classify(s.slots, r.key, r.levels.path[0])
    case Serviced(_) => ServicedPreserves(s, r);
    case Vacant(_) => VacantPreserves(s, r);
    case _ =>
  }

  /** What a registration leaves in the tree, path by path: a served one updates
      or enters every level of its path, a new one only the top level with its
      slot, any other nothing.  The slot table changes only for a new one. */
  lemma RegisterUpdatesPath<K>(s: Reg<K>, r: Regi<K>, q: seq<string>)
    requires Sorted(s.tree) && r.levels.Valid() && q != []
    ensures var s', answer, before := Register(s, r), Classify(s.slots, r.key, r.levels.path[0]), Lookup(s.tree, q);
            var here := 0 < |q| <= |r.levels.path| && q <= r.levels.path;
            Lookup(s'.tree, q) ==
              if answer.Serviced? && here then Some(Stored(before, r.levels.Fresh(|q| - 1, None), r.levels.notes[|q| - 1]))
              else if answer.Vacant? && q == [r.levels.path[0]] then Some(Stored(before, r.levels.Fresh(0, Some(answer.slot)), r.levels.notes[0]))
              else before
    ensures var s', answer := Register(s, r), Classify(s.slots, r.key, r.levels.path[0]);
            && |s'.slots| == |s.slots|
            && (answer.Vacant? ==> answer.slot < |s.slots| && s.slots[answer.slot].Free? && s'.jobs == s.jobs + [Start(answer.slot)]
                                   && s'.slots[answer.slot] == Used(r.key, r.levels.path[0], false))
            && (!answer.Vacant? ==> s'.slots == s.slots && s'.jobs == s.jobs)
            && forall i :: 0 <= i < |s.slots| && !(answer.Vacant? && i == answer.slot) ==> s'.slots[i] == s.slots[i]
  {
    match Classify(s.slots, r.key, r.levels.path[0])
    case Serviced(_) => ChkPathIsUpsert(s.tree, r.levels, |r.levels.path|, q);
    case Vacant(i) =>
      ChkLevelIsUpsert(s.tree, r.levels, 0, Some(i), q);
      assert r.levels.path[..1] == [r.levels.path[0]];
    case _ =>
  }
}
