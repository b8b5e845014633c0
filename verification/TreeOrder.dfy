/** The name-ordered tree refines a map from paths to node contents. */
module TreeOrder {
  import opened Names
  import opened Forest

  /** In an ascending row of children the ordered search finds a name exactly when it is there. */
  lemma OrderedSearch(kids: seq<Node>, name: string)
    requires Ascending(kids)
    ensures IndexOf(kids, name) == if Same(kids, name) then FirstGE(kids, name) else |kids|
  {
    var i, j := FirstGE(kids, name), IndexOf(kids, name);
    if j < |kids| { Trichotomy(kids[j].name, name); }
    if i < |kids| { Trichotomy(kids[i].name, name); }
  }

  /** The first position of a name is the only one a search can return. */
  lemma FirstPosition(row: seq<Node>, name: string, j: nat)
    requires j <= |row| && (forall a :: 0 <= a < j ==> row[a].name != name)
    requires j < |row| ==> row[j].name == name
    ensures IndexOf(row, name) == j
  {
  }

  /** Replacing child i by one of the same name, or inserting a new name at its place, keeps the order. */
  lemma ReplaceAscending(kids: seq<Node>, i: nat, n: Node)
    requires Ascending(kids) && i < |kids| && n.name == kids[i].name
    ensures Ascending(kids[i := n])
    ensures forall m :: m in kids[i := n] ==> m == n || m in kids
  {
  }

  lemma InsertAscending(kids: seq<Node>, n: Node)
    requires Ascending(kids) && !Same(kids, n.name)
    ensures var i := FirstGE(kids, n.name); Ascending(kids[..i] + [n] + kids[i..])
  {
    var i := FirstGE(kids, n.name);
    forall j | i <= j < |kids| ensures Less(n.name, kids[j].name) {
      Trichotomy(n.name, kids[i].name);
      if i < j { Transitive(n.name, kids[i].name, kids[j].name); }
    }
  }

  /** The parent of `path` is in the forest; level one hangs off the root. */
  predicate ParentPresent(kids: seq<Node>, path: seq<string>)
    requires path != []
  {
    |path| == 1 || Lookup(kids, path[..|path| - 1]).Some?
  }

  lemma {:induction false} ParentPresentBelow(kids: seq<Node>, path: seq<string>)
    requires Ascending(kids) && |path| > 1 && ParentPresent(kids, path)
    ensures Same(kids, path[0]) && ParentPresent(kids[FirstGE(kids, path[0])].kids, path[1..])
  {
    OrderedSearch(kids, path[0]);
    assert path[..|path| - 1][0] == path[0];
    assert path[..|path| - 1][1..] == path[1..][..|path| - 2];
  }

  /** A `chk_tree` call whose parent exists keeps every level ascending. */
  lemma {:induction false} ChkTreeSorted(kids: seq<Node>, path: seq<string>, info: Info, note: Option<Traffic>)
    requires path != [] && Sorted(kids) && ParentPresent(kids, path)
    ensures Sorted(ChkTree(kids, path, info, note))
    decreases path
  {
    var i := FirstGE(kids, path[0]);
    if |path| == 1 {
      if Same(kids, path[0]) {
        assert Sorted(kids[i].kids);
        ReplaceAscending(kids, i, kids[i].(info := Touch(kids[i].info, info.hb, note)));
      } else {
        InsertAscending(kids, Node(path[0], info, []));
      }
    } else {
      ParentPresentBelow(kids, path);
      assert kids[i] in kids;
      ChkTreeSorted(kids[i].kids, path[1..], info, note);
      ReplaceAscending(kids, i, kids[i].(kids := ChkTree(kids[i].kids, path[1..], info, note)));
    }
  }

  /** What one `chk_tree` call leaves at its own path. */
  function Stored(before: Option<Info>, info: Info, note: Option<Traffic>): Info
  {
    if before.Some? then Touch(before.value, info.hb, note) else info
  }

  lemma LookupReplaced(kids: seq<Node>, i: nat, n: Node, q: seq<string>)
    requires Ascending(kids) && i < |kids| && n.name == kids[i].name && q != []
    ensures Lookup(kids[i := n], q) ==
            if q[0] != n.name then Lookup(kids, q)
            else if |q| == 1 then Some(n.info) else Lookup(n.kids, q[1..])
  {
    ReplaceAscending(kids, i, n);
    var j := IndexOf(kids, q[0]);
    FirstPosition(kids[i := n], q[0], j);
    if q[0] == n.name && j != i { Distinct(kids, i, j); }
  }

  lemma Distinct(kids: seq<Node>, i: nat, j: nat)
    requires Ascending(kids) && i < |kids| && j < |kids| && i != j
    ensures kids[i].name != kids[j].name
  {
    if i < j { Trichotomy(kids[i].name, kids[j].name); } else { Trichotomy(kids[j].name, kids[i].name); }
  }

  lemma LookupInserted(kids: seq<Node>, n: Node, q: seq<string>)
    requires Ascending(kids) && !Same(kids, n.name) && q != []
    ensures var i := FirstGE(kids, n.name);
            Lookup(kids[..i] + [n] + kids[i..], q) ==
            if q[0] != n.name then Lookup(kids, q)
            else if |q| == 1 then Some(n.info) else Lookup(n.kids, q[1..])
    ensures q[0] == n.name ==> Lookup(kids, q) == None
  {
    var i := FirstGE(kids, n.name);
    var row := kids[..i] + [n] + kids[i..];
    OrderedSearch(kids, n.name);
    if q[0] == n.name {
      FirstPosition(row, q[0], i);
      LookupAt(row, i, q);
    } else {
      LookupMoved(kids, i, n, q);
    }
  }

  lemma LookupAt(row: seq<Node>, i: nat, q: seq<string>)
    requires q != [] && i == IndexOf(row, q[0]) < |row|
    ensures Lookup(row, q) == if |q| == 1 then Some(row[i].info) else Lookup(row[i].kids, q[1..])
  {
  }

  lemma LookupMoved(kids: seq<Node>, i: nat, n: Node, q: seq<string>)
    requires i <= |kids| && q != [] && n.name != q[0]
    ensures Lookup(kids[..i] + [n] + kids[i..], q) == Lookup(kids, q)
  {
    var row, k := kids[..i] + [n] + kids[i..], IndexOf(kids, q[0]);
    InsertedPosition(kids, i, n, q[0]);
    if k < |kids| {
      var k' := if k < i then k else k + 1;
      assert row[k'] == kids[k];
      LookupAt(row, k', q);
      LookupAt(kids, k, q);
    }
  }

  lemma InsertedPosition(kids: seq<Node>, i: nat, n: Node, name: string)
    requires i <= |kids| && n.name != name
    ensures IndexOf(kids[..i] + [n] + kids[i..], name) ==
            if IndexOf(kids, name) < i then IndexOf(kids, name) else IndexOf(kids, name) + 1
  {
    var row, k := kids[..i] + [n] + kids[i..], IndexOf(kids, name);
    var k' := if k < i then k else k + 1;
    forall a | 0 <= a < k' ensures row[a].name != name {
      assert row[a] == if a < i then kids[a] else if a == i then n else kids[a - 1];
    }
    FirstPosition(row, name, k');
  }

  /** One `chk_tree` call whose parent exists is an insert-or-update at exactly its path. */
  lemma {:induction false} ChkTreeIsUpsert(kids: seq<Node>, path: seq<string>, info: Info, note: Option<Traffic>, q: seq<string>)
    requires path != [] && q != [] && Sorted(kids) && ParentPresent(kids, path)
    ensures Lookup(ChkTree(kids, path, info, note), q) ==
            if q == path then Some(Stored(Lookup(kids, path), info, note)) else Lookup(kids, q)
    decreases path
  {
    var i := FirstGE(kids, path[0]);
    OrderedSearch(kids, path[0]);
    if |path| == 1 {
      assert path == [path[0]];
      assert |q| == 1 ==> q == [q[0]];
      if Same(kids, path[0]) {
        LookupReplaced(kids, i, kids[i].(info := Touch(kids[i].info, info.hb, note)), q);
      } else {
        LookupInserted(kids, Node(path[0], info, []), q);
        if |q| > 1 { assert Lookup([], q[1..]) == None; }
      }
    } else {
      ParentPresentBelow(kids, path);
      var n := kids[i].(kids := ChkTree(kids[i].kids, path[1..], info, note));
      LookupReplaced(kids, i, n, q);
      assert path == [path[0]] + path[1..] && q == [q[0]] + q[1..];
      assert kids[i] in kids;
      if |q| > 1 { ChkTreeIsUpsert(kids[i].kids, path[1..], info, note, q[1..]); }
    }
  }

  /** What a call leaves of a node: one that was there keeps host and slot, gets
      the clock read as its heartbeat and, where the level keeps them, the
      message's counters; a new one starts with the given host, slot and no traffic. */
  predicate Renewed(before: Option<Info>, after: Option<Info>, host: string, hb: int, slot: Option<nat>, note: Option<Traffic>)
  {
    && after.Some? && after.value.hb == hb
    && (before.Some? ==>
          && after.value.host == before.value.host && after.value.slot == before.value.slot
          && after.value.traffic == if note.Some? then note.value else before.value.traffic)
    && (before == None ==> after.value.host == host && after.value.slot == slot && after.value.traffic == Traffic(0, 0, 0, 0))
  }

  /** A call whose parent exists, for a node that is there or is not. */
  lemma ChkTreeRenews(kids: seq<Node>, path: seq<string>, info: Info, note: Option<Traffic>)
    requires path != [] && Sorted(kids) && ParentPresent(kids, path) && info.traffic == Traffic(0, 0, 0, 0)
    ensures Renewed(Lookup(kids, path), Lookup(ChkTree(kids, path, info, note), path), info.host, info.hb, info.slot, note)
  {
    ChkTreeIsUpsert(kids, path, info, note, path);
  }

  /** Without its parent the node ends up anywhere but at its path. */
  lemma {:induction false} ChkTreeNeedsParent(kids: seq<Node>, path: seq<string>, info: Info, note: Option<Traffic>)
    requires path != [] && Sorted(kids)
    ensures Lookup(ChkTree(kids, path, info, note), path).Some? <==> ParentPresent(kids, path)
    decreases path
  {
    if ParentPresent(kids, path) {
      ChkTreeIsUpsert(kids, path, info, note, path);
    } else {
      var i := FirstGE(kids, path[0]);
      OrderedSearch(kids, path[0]);
      if Same(kids, path[0]) {
        assert path[..|path| - 1][0] == path[0] && path[..|path| - 1][1..] == path[1..][..|path| - 2];
        assert kids[i] in kids;
        ChkTreeNeedsParent(kids[i].kids, path[1..], info, note);
        LookupReplaced(kids, i, kids[i].(kids := ChkTree(kids[i].kids, path[1..], info, note)), path);
      } else if |path| == 2 && i < |kids| {
        LookupReplaced(kids, i, kids[i].(kids := kids[i].kids + [Node(path[1], info, [])]), path);
      }
    }
  }

  /** A process registered while its service is missing is attached under the
      next larger service, if there is one. */
  lemma WrongBase(kids: seq<Node>, path: seq<string>, info: Info, note: Option<Traffic>)
    requires |path| == 2 && Sorted(kids) && !Same(kids, path[0]) && FirstGE(kids, path[0]) < |kids|
    requires var n := kids[FirstGE(kids, path[0])]; Lookup(n.kids, [path[1]]) == None
    ensures var n := kids[FirstGE(kids, path[0])];
            Lookup(ChkTree(kids, path, info, note), [n.name, path[1]]) == Some(info)
  {
    var i := FirstGE(kids, path[0]);
    var n, q := kids[i], [kids[i].name, path[1]];
    var row := n.kids + [Node(path[1], info, [])];
    LookupReplaced(kids, i, n.(kids := row), q);
    assert IndexOf(n.kids, path[1]) == |n.kids|;
    FirstPosition(row, path[1], |n.kids|);
    assert q[1..] == [path[1]];
  }

  /** One level of a registration, its parent level being there. */
  lemma ChkLevelIsUpsert(kids: seq<Node>, r: Levels, k: nat, slot: Option<nat>, q: seq<string>)
    requires r.Valid() && k < |r.path| && Sorted(kids) && q != []
    requires k > 0 ==> Lookup(kids, r.path[..k]).Some?
    ensures Sorted(ChkLevel(kids, r, k, slot))
    ensures Lookup(ChkLevel(kids, r, k, slot), q) ==
            if q == r.path[..k + 1] then Some(Stored(Lookup(kids, q), r.Fresh(k, slot), r.notes[k])) else Lookup(kids, q)
  {
    var path := r.path[..k + 1];
    assert path[..k] == r.path[..k];
    ChkTreeSorted(kids, path, r.Fresh(k, slot), r.notes[k]);
    ChkTreeIsUpsert(kids, path, r.Fresh(k, slot), r.notes[k], q);
  }

  /** The paths a registration of n levels touches. */
  predicate Touched(r: Levels, n: nat, q: seq<string>)
    requires r.Valid()
  {
    0 < |q| <= n && q <= r.path
  }

  lemma {:induction false} ChkPathSorted(kids: seq<Node>, r: Levels, n: nat)
    requires r.Valid() && n <= |r.path| && Sorted(kids)
    ensures Sorted(ChkPath(kids, r, n))
    ensures n > 0 ==> Lookup(ChkPath(kids, r, n), r.path[..n]).Some?
    decreases n
  {
    if n > 0 {
      ChkPathSorted(kids, r, n - 1);
      ChkLevelIsUpsert(ChkPath(kids, r, n - 1), r, n - 1, None, r.path[..n]);
    }
  }

  /** The calls of one registration keep the order (`ChkPathSorted`) and update
      exactly its own path, each level under the level before it. */
  lemma {:induction false} ChkPathIsUpsert(kids: seq<Node>, r: Levels, n: nat, q: seq<string>)
    requires r.Valid() && n <= |r.path| && Sorted(kids) && q != []
    ensures Lookup(ChkPath(kids, r, n), q) ==
            if Touched(r, n, q) then Some(Stored(Lookup(kids, q), r.Fresh(|q| - 1, None), r.notes[|q| - 1]))
            else Lookup(kids, q)
    decreases n
  {
    if n > 0 {
      ChkPathIsUpsert(kids, r, n - 1, q);
      ChkPathSorted(kids, r, n - 1);
      ChkLevelIsUpsert(ChkPath(kids, r, n - 1), r, n - 1, None, q);
      TouchedStep(r, n, q);
    }
  }

  lemma TouchedStep(r: Levels, n: nat, q: seq<string>)
    requires r.Valid() && 0 < n <= |r.path|
    ensures Touched(r, n, q) <==> q == r.path[..n] || Touched(r, n - 1, q)
    ensures q == r.path[..n] ==> |q| == n && !Touched(r, n - 1, q)
  {
    if |q| == n && q <= r.path { assert q == r.path[..n]; }
  }

  /** The calls of one registration, level by level: each node on the path is
      renewed with its level's host, clock read and counters; no other path changes. */
  lemma ChkPathRenews(kids: seq<Node>, r: Levels, n: nat, q: seq<string>)
    requires r.Valid() && n <= |r.path| && Sorted(kids) && q != []
    ensures var after := Lookup(ChkPath(kids, r, n), q);
            if |q| <= n && q == r.path[..|q|]
            then Renewed(Lookup(kids, q), after, r.hosts[|q| - 1], r.times[|q| - 1], None, r.notes[|q| - 1])
            else after == Lookup(kids, q)
  {
    ChkPathIsUpsert(kids, r, n, q);
  }

  /** Two ordered forests that agree as maps are the same forest: the tree
      represents its path map without redundancy. */
  lemma {:induction false} Canonical(a: seq<Node>, b: seq<Node>)
    requires Sorted(a) && Sorted(b)
    requires forall q: seq<string> :: q != [] ==> Lookup(a, q) == Lookup(b, q)
    ensures a == b
    decreases a
  {
    if a == [] {
      if b != [] { FirstNamesAgree(b, a); }
    } else {
      FirstNamesAgree(a, b);
      FirstNodesAgree(a, b);
      Canonical(a[0].kids, b[0].kids);
      forall q: seq<string> | q != [] ensures Lookup(a[1..], q) == Lookup(b[1..], q) {
        LookupTail(a, q);
        LookupTail(b, q);
      }
      Canonical(a[1..], b[1..]);
      assert a == [a[0]] + a[1..] && b == [b[0]] + b[1..];
    }
  }

  lemma FirstNamesAgree(a: seq<Node>, b: seq<Node>)
    requires Sorted(a) && Sorted(b) && a != []
    requires forall q: seq<string> :: q != [] ==> Lookup(a, q) == Lookup(b, q)
    ensures b != [] && a[0].name == b[0].name
  {
    var p := [a[0].name];
    assert Lookup(a, p).Some?;
    var j := IndexOf(b, a[0].name);
    assert j < |b|;
    assert Lookup(b, [b[0].name]).Some?;
    var k := IndexOf(a, b[0].name);
    assert k < |a|;
    if j > 0 && k > 0 { Trichotomy(a[0].name, b[0].name); }
  }

  lemma FirstNodesAgree(a: seq<Node>, b: seq<Node>)
    requires a != [] && b != [] && a[0].name == b[0].name
    requires forall q: seq<string> :: q != [] ==> Lookup(a, q) == Lookup(b, q)
    ensures a[0].info == b[0].info
    ensures forall q: seq<string> :: q != [] ==> Lookup(a[0].kids, q) == Lookup(b[0].kids, q)
  {
    assert Lookup(a, [a[0].name]) == Lookup(b, [a[0].name]);
    forall q: seq<string> | q != [] ensures Lookup(a[0].kids, q) == Lookup(b[0].kids, q) {
      var p := [a[0].name] + q;
      assert Lookup(a, p) == Lookup(b, p);
      assert p[1..] == q;
    }
  }

  lemma LookupTail(a: seq<Node>, q: seq<string>)
    requires a != [] && Ascending(a) && q != []
    ensures Lookup(a[1..], q) == if q[0] == a[0].name then None else Lookup(a, q)
  {
    if q[0] == a[0].name {
      forall j | 0 <= j < |a[1..]| ensures a[1..][j].name != q[0] { Distinct(a, 0, j + 1); }
      FirstPosition(a[1..], q[0], |a[1..]|);
    }
  }
}
