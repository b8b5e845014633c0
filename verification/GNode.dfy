/** The registry tree as the program holds it: nodes on the heap, changed in
    place.  `Tree()` is the value the theory in Forest speaks about. */
module Nodes {
  import opened Names
  import opened Forest

  class GNode {
    const name: string
    const host: string
    const slot: Option<nat>
    var hb: int
    var traffic: Traffic
    var children: seq<GNode>
    ghost var repr: set<GNode>

    /** `NewNode`: the clock is read into the heartbeat, the counters start at zero. */
    constructor (name: string, info: Info)
      ensures Valid() && fresh(repr) && Tree() == Node(name, info, [])
    {
      this.name, this.host, this.slot := name, info.host, info.slot;
      hb, traffic, children := info.hb, info.traffic, [];
      repr := {this};
    }

    /** Children own disjoint subtrees: the structure is a tree, not a graph. */
    ghost predicate Valid()
      reads this, repr
      decreases repr
    {
      && this in repr
      && (forall c :: c in children ==> c in repr && c.repr <= repr && this !in c.repr && c.Valid())
      && (forall i, j :: 0 <= i < j < |children| ==> children[i].repr !! children[j].repr)
    }

    ghost function Tree(): Node
      requires Valid()
      reads this, repr
      decreases repr
    {
      Node(name, Info(host, hb, traffic, slot),
           seq(|children|, i requires 0 <= i < |children| && Valid() reads this, repr => children[i].Tree()))
    }

    lemma ChildAt(i: nat)
      requires Valid() && i < |children|
      ensures children[i].Valid() && children[i].Tree() == Tree().kids[i]
    {
    }

    /** One child's subtree was changed in place and may have grown; all else stayed. */
    twostate lemma ChildChanged(i: nat)
      requires old(Valid()) && i < |old(children)| && children == old(children)
      requires hb == old(hb) && traffic == old(traffic)
      requires children[i].Valid() && fresh(children[i].repr - old(children[i].repr))
      requires repr == old(repr) + children[i].repr
      requires forall o :: o in old(repr) && o != this && o !in old(children[i].repr) ==> unchanged(o)
      ensures Valid()
      ensures Tree() == old(Tree()).(kids := old(Tree()).kids[i := children[i].Tree()])
    {
      forall j | 0 <= j < |children| && j != i
        ensures children[j].Valid() && children[j].Tree() == old(children[j].Tree()) && children[j].repr == old(children[j].repr)
      {
        assert children[j] in old(children);
        assert old(children[j].repr) !! old(children[i].repr);
      }
    }

    /** `g_node_children_foreach` with `chk_tree_callback`: the callback sees
        every child and stops looking at the first name that is not smaller. */
    method FindChild(wanted: string) returns (findNode: nat, sameNodeExist: bool, insertBeforeThis: bool)
      requires Valid()
      ensures findNode == FirstGE(Tree().kids, wanted)
      ensures sameNodeExist <==> Same(Tree().kids, wanted)
      ensures insertBeforeThis <==> findNode < |children| && !sameNodeExist
    {
      findNode, sameNodeExist, insertBeforeThis := |children|, false, false;
      var find := false;
      ghost var kids := Tree().kids;
      assert kids[..0] == [];
      for n := 0 to |children|
        invariant find ==> findNode < n && findNode == FirstGE(kids, wanted)
        invariant find ==> (sameNodeExist <==> kids[findNode].name == wanted) && insertBeforeThis == !sameNodeExist
        invariant !find ==> findNode == |children| && !sameNodeExist && !insertBeforeThis
        invariant !find ==> forall m :: 0 <= m < n ==> Less(kids[m].name, wanted)
      {
        if !find {
          ChildAt(n);
          assert kids[n].name == children[n].name;
          if Less(children[n].name, wanted) {
          } else if children[n].name == wanted {
            find, findNode, sameNodeExist := true, n, true;
          } else {
            find, findNode, insertBeforeThis := true, n, true;
          }
        }
      }
    }

    /** A fresh leaf entered the row of children, all else stayed. */
    twostate lemma LeafAdded(i: nat, new node: GNode)
      requires old(Valid()) && i <= |old(children)| && node.Valid() && fresh(node.repr)
      requires children == old(children)[..i] + [node] + old(children)[i..] && repr == old(repr) + node.repr
      requires hb == old(hb) && traffic == old(traffic)
      requires forall o :: o in old(repr) && o != this ==> unchanged(o)
      ensures Valid()
      ensures Tree() == old(Tree()).(kids := old(Tree()).kids[..i] + [node.Tree()] + old(Tree()).kids[i..])
    {
      LeafAddedValid(i, node);
      var kids := old(Tree()).kids;
      assert Tree().kids == kids[..i] + [node.Tree()] + kids[i..];
    }

    twostate lemma LeafAddedValid(i: nat, new node: GNode)
      requires old(Valid()) && i <= |old(children)| && node.Valid() && fresh(node.repr)
      requires children == old(children)[..i] + [node] + old(children)[i..] && repr == old(repr) + node.repr
      requires forall o :: o in old(repr) && o != this ==> unchanged(o)
      ensures Valid() && forall c :: c in old(children) ==> c.Tree() == old(c.Tree())
    {
      forall c | c in old(children) ensures c.Valid() && c.Tree() == old(c.Tree()) && c.repr == old(c.repr) && c.repr <= old(repr) {}
      forall c | c in children ensures c == node || c in old(children) {}
    }

    /** `AddNode`: a new leaf before child i, or last when i is the number of children. */
    method AddNode(i: nat, leaf: string, info: Info)
      requires Valid() && i <= |children|
      modifies this
      ensures Valid() && fresh(repr - old(repr))
      ensures Tree() == old(Tree()).(kids := old(Tree()).kids[..i] + [Node(leaf, info, [])] + old(Tree()).kids[i..])
    {
      var node := new GNode(leaf, info);
      children := children[..i] + [node] + children[i..];
      repr := repr + node.repr;
      LeafAdded(i, node);
    }

    /** `update_node_info`. */
    method UpdateNodeInfo(now: int, note: Option<Traffic>)
      requires Valid()
      modifies this`hb, this`traffic
      ensures Valid()
      ensures Tree() == old(Tree()).(info := Touch(old(Tree()).info, now, note))
      ensures hb == now && traffic == if note.Some? then note.value else old(traffic)
      ensures children == old(children) && repr == old(repr)
    {
      hb := now;
      if note.Some? { traffic := note.value; }
      assert Tree().kids == old(Tree()).kids;
    }

    /** `chk_tree` below this node, for the node at `path`. */
    method ChkTree(path: seq<string>, info: Info, note: Option<Traffic>)
      requires Valid() && path != []
      modifies repr
      ensures Valid() && fresh(repr - old(repr))
      ensures Tree() == old(Tree()).(kids := Forest.ChkTree(old(Tree()).kids, path, info, note))
      decreases |path|, 1
    {
      var findNode, sameNodeExist, insertBeforeThis := FindChild(path[0]);
      if |path| == 1 && !sameNodeExist {
        AddNode(findNode, path[0], info);
      } else if sameNodeExist || (|path| == 2 && insertBeforeThis) {
        ChkChild(findNode, path, sameNodeExist, info, note);
      }
    }

    method ChkChild(i: nat, path: seq<string>, same: bool, info: Info, note: Option<Traffic>)
      requires Valid() && path != [] && i < |children| && (same || |path| == 2)
      modifies repr
      ensures Valid() && fresh(repr - old(repr))
      ensures Tree() == old(Tree()).(kids := var n := old(Tree()).kids[i];
                old(Tree()).kids[i := if !same then n.(kids := n.kids + [Node(path[1], info, [])])
                                      else if |path| == 1 then n.(info := Touch(n.info, info.hb, note))
                                      else n.(kids := Forest.ChkTree(n.kids, path[1..], info, note))])
      decreases |path|, 0
    {
      label before:
      ghost var n := children[i].Tree();
      assert n == Tree().kids[i] && |n.kids| == |children[i].children|;
      if !same {
        children[i].AddNode(|children[i].children|, path[1], info);
        assert n.kids[..|n.kids|] + [Node(path[1], info, [])] + n.kids[|n.kids|..] == n.kids + [Node(path[1], info, [])];
      } else if |path| == 1 {
        children[i].UpdateNodeInfo(info.hb, note);
      } else {
        children[i].ChkTree(path[1..], info, note);
      }
      repr := repr + children[i].repr;
      ChildChanged@before(i);
    }

    method RemoveAt(i: nat)
      requires Valid() && i < |children|
      modifies this`children
      ensures Valid() && children == old(children)[..i] + old(children)[i + 1..]
      ensures Tree() == old(Tree()).(kids := old(Tree()).kids[..i] + old(Tree()).kids[i + 1..])
    {
      label before:
      children := children[..i] + children[i + 1..];
      ChildRemoved@before(i);
    }

    twostate lemma ChildRemoved(i: nat)
      requires old(Valid()) && i < |old(children)| && children == old(children)[..i] + old(children)[i + 1..]
      requires repr == old(repr) && hb == old(hb) && traffic == old(traffic)
      requires forall o :: o in old(repr) && o != this ==> unchanged(o)
      ensures Valid()
      ensures Tree() == old(Tree()).(kids := old(Tree()).kids[..i] + old(Tree()).kids[i + 1..])
    {
      forall c | c in children ensures c in old(children) && c.Valid() && c.Tree() == old(c.Tree()) && c.repr == old(c.repr) {}
      assert Valid();
      forall k | 0 <= k < |children| ensures children[k] == old(children)[if k < i then k else k + 1] {}
      assert Tree().kids == old(Tree()).kids[..i] + old(Tree()).kids[i + 1..];
    }

    /** `remove_node_callback` on child i; returns the position of the next sibling. */
    method RemoveNodeCallback(i: nat, now: int) returns (next: nat, released: seq<nat>)
      requires Valid() && i < |children|
      modifies repr
      ensures Valid() && repr == old(repr)
      ensures var kids := old(Tree()).kids; var kept := SweepOne(kids[i], now);
              Tree() == old(Tree()).(kids := kids[..i] + kept + kids[i + 1..]) && next == i + |kept|
      ensures released == ReleasedOne(old(Tree()).kids[i], now)
      decreases repr, 0
    {
      ghost var kids := Tree().kids;
      label before:
      assert kids[i] == children[i].Tree();
      if Stale(children[i].hb, now) {
        released := if children[i].slot.Some? then [children[i].slot.value] else [];
        RemoveAt(i);
        next := i;
        assert kids[..i] + [] + kids[i + 1..] == kids[..i] + kids[i + 1..];
      } else {
        released := children[i].TraverseDotRemove(now);
        ChildChanged@before(i);
        next := i + 1;
        assert kids[i := children[i].Tree()] == kids[..i] + [children[i].Tree()] + kids[i + 1..];
      }
    }

    /** `traverse_dot_remove`: the loop keeps its place while children disappear. */
    method TraverseDotRemove(now: int) returns (released: seq<nat>)
      requires Valid()
      modifies repr
      ensures Valid() && repr == old(repr)
      ensures Tree() == old(Tree()).(kids := Forest.Sweep(old(Tree()).kids, now))
      ensures released == Released(old(Tree()).kids, now)
      decreases repr, 1
    {
      released := [];
      var next: nat := 0;
      ghost var all := Tree();
      ghost var seen: nat := 0;
      while next < |children|
        invariant Valid() && repr == old(repr)
        invariant HalfSwept(all, seen, now, Tree(), next, released) && |Tree().kids| == |children|
        decreases |all.kids| - seen
      {
        SweepAdvance(all, seen, now, Tree(), next, released);
        var gone;
        next, gone := RemoveNodeCallback(next, now);
        released := released + gone;
        seen := seen + 1;
      }
      SweepDone(all.kids, seen, now);
    }
  }

  /** A sweep that has seen the first children of `all` and stands at position next of what is left. */
  ghost predicate HalfSwept(all: Node, seen: nat, now: int, tree: Node, next: nat, released: seq<nat>)
  {
    && seen <= |all.kids| && next == |Sweep(all.kids[..seen], now)|
    && tree == all.(kids := Sweep(all.kids[..seen], now) + all.kids[seen..])
    && released == Released(all.kids[..seen], now)
  }

  lemma {:induction false} SweepConcat(a: seq<Node>, b: seq<Node>, now: int)
    ensures Sweep(a + b, now) == Sweep(a, now) + Sweep(b, now) && Released(a + b, now) == Released(a, now) + Released(b, now)
    decreases |a|
  {
    if a == [] {
      assert a + b == b;
    } else {
      var n, rest := a[0], a[1..];
      assert a == [n] + rest && a + b == [n] + (rest + b);
      SweepConcat(rest, b, now);
      SweepCons(n, rest, now);
      SweepCons(n, rest + b, now);
      Assoc(SweepOne(n, now), Sweep(rest, now), Sweep(b, now));
      Assoc(ReleasedOne(n, now), Released(rest, now), Released(b, now));
    }
  }

  lemma SweepCons(n: Node, rest: seq<Node>, now: int)
    ensures Sweep([n] + rest, now) == SweepOne(n, now) + Sweep(rest, now)
    ensures Released([n] + rest, now) == ReleasedOne(n, now) + Released(rest, now)
  {
    assert ([n] + rest)[1..] == rest;
  }

  /** A sweep over one more sibling. */
  lemma SweepPrefix(kids: seq<Node>, k: nat, now: int)
    requires k < |kids|
    ensures Sweep(kids[..k + 1], now) == Sweep(kids[..k], now) + SweepOne(kids[k], now)
    ensures Released(kids[..k + 1], now) == Released(kids[..k], now) + ReleasedOne(kids[k], now)
  {
    assert kids[..k + 1] == kids[..k] + [kids[k]];
    SweepConcat(kids[..k], [kids[k]], now);
    SweepCons(kids[k], [], now);
    assert [kids[k]] + [] == [kids[k]];
  }

  lemma SweepDone(all: seq<Node>, k: nat, now: int)
    requires k == |all|
    ensures Sweep(all[..k], now) + all[k..] == Sweep(all, now) && Released(all[..k], now) == Released(all, now)
  {
    assert all[..k] == all && all[k..] == [];
  }

  /** One more step of a sweep in progress. */
  lemma SweepAdvance(all: Node, seen: nat, now: int, tree: Node, at: nat, released: seq<nat>)
    requires HalfSwept(all, seen, now, tree, at, released) && at < |tree.kids|
    ensures seen < |all.kids|
    ensures var kept := SweepOne(tree.kids[at], now);
            HalfSwept(all, seen + 1, now, tree.(kids := tree.kids[..at] + kept + tree.kids[at + 1..]), at + |kept|,
                      released + ReleasedOne(tree.kids[at], now))
  {
    assert tree.kids[at] == all.kids[seen];
    SweepPrefix(all.kids, seen, now);
  }
}
