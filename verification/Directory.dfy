/** hub.c: each hub thread's index of which broker offers which service. */
module Directory {
  import opened Names
  import opened Forest
  import opened Nodes

  /** Seconds without a registration after which an index entry is pruned. */
  const TMCHK_BROKER_SVC := 3

  predicate Old(hb: int, now: int)
  {
    now - hb > TMCHK_BROKER_SVC
  }

  function Leaf(hb: int): Info
  {
    Info("", hb, NO_TRAFFIC, None)
  }

  /** The entry of that name gets a new heartbeat, or is appended. */
  function AddOrTouch(kids: seq<Node>, name: string, now: int): seq<Node>
  {
    var i := IndexOf(kids, name);
    if i < |kids| then kids[i := kids[i].(info := Touch(kids[i].info, now, None))]
    else kids + [Node(name, Leaf(now), [])]
  }

  /** `chk_small_tree`: first the broker's node, then the service below it;
      the clock is read for each. */
  function ChkSmallTree(brokers: seq<Node>, id: string, svc: string, tBroker: int, tSvc: int): seq<Node>
  {
    var b := AddOrTouch(brokers, id, tBroker);
    var i := IndexOf(b, id);
    if i == |b| then b else b[i := b[i].(kids := AddOrTouch(b[i].kids, svc, tSvc))]
  }

  /** Position of the first old entry, or |kids|. */
  function FirstOld(kids: seq<Node>, now: int): (i: nat)
    ensures i <= |kids|
    ensures forall j :: 0 <= j < i ==> !Old(kids[j].info.hb, now)
    ensures i < |kids| ==> Old(kids[i].info.hb, now)
  {
    if kids == [] || Old(kids[0].info.hb, now) then 0 else 1 + FirstOld(kids[1..], now)
  }

  /** `remove_smalltree_callback`: at most one node per tick, then return. */
  function Prune(brokers: seq<Node>, now: int): seq<Node>
  {
    if brokers == [] then []
    else if Old(brokers[0].info.hb, now) then brokers[1..]
    else
      var b := brokers[0];
      var j := FirstOld(b.kids, now);
      if j < |b.kids| then [b.(kids := b.kids[..j] + b.kids[j + 1..])] + brokers[1..]
      else [b] + Prune(brokers[1..], now)
  }

  /** `find_svc_exist_tree`: the first broker other than `me` that has the service. */
  function FindSvc(brokers: seq<Node>, me: string, svc: string): Option<string>
  {
    if brokers == [] then None
    else if brokers[0].name != me && IndexOf(brokers[0].kids, svc) < |brokers[0].kids| then Some(brokers[0].name)
    else FindSvc(brokers[1..], me, svc)
  }

  class SmallTree {
    const root: GNode
    const me: string

    constructor (me: string, now: int)
      ensures Valid() && fresh(this) && fresh(root.repr) && this.me == me && Brokers() == []
    {
      root := new GNode("", Leaf(now));
      this.me := me;
    }

    ghost predicate Valid()
      reads root, root.repr
    {
      root.Valid()
    }

    ghost function Brokers(): seq<Node>
      requires Valid()
      reads root, root.repr
    {
      root.Tree().kids
    }

    /** Find a child by name, update its heartbeat, or append it. */
    static method Enter(parent: GNode, name: string, now: int) returns (i: nat)
      requires parent.Valid()
      modifies parent.repr
      ensures parent.Valid() && fresh(parent.repr - old(parent.repr))
      ensures parent.Tree() == old(parent.Tree()).(kids := AddOrTouch(old(parent.Tree()).kids, name, now))
      ensures i == IndexOf(parent.Tree().kids, name) && i < |parent.children|
    {
      ghost var kids := parent.Tree().kids;
      i := 0;
      while i < |parent.children| && parent.children[i].name != name
        invariant i <= |parent.children| && parent.Valid() && parent.repr == old(parent.repr)
        invariant parent.Tree() == old(parent.Tree())
        invariant forall j :: 0 <= j < i ==> kids[j].name != name
      {
        assert kids[i] == parent.children[i].Tree();
        i := i + 1;
      }
      assert i < |kids| ==> kids[i] == parent.children[i].Tree();
      assert IndexOf(kids, name) == i;
      if i < |parent.children| {
        parent.ChkChild(i, [name], true, Leaf(now), None);
        SameNames(kids, parent.Tree().kids, name);
      } else {
        parent.AddNode(i, name, Leaf(now));
        assert kids[..i] + [Node(name, Leaf(now), [])] + kids[i..] == kids + [Node(name, Leaf(now), [])];
        Appended(kids, Node(name, Leaf(now), []));
      }
    }

    static lemma {:induction false} SameNames(a: seq<Node>, b: seq<Node>, name: string)
      requires |a| == |b| && forall j :: 0 <= j < |a| ==> a[j].name == b[j].name
      ensures IndexOf(a, name) == IndexOf(b, name)
      decreases a
    {
    }

    static lemma {:induction false} Appended(kids: seq<Node>, n: Node)
      requires IndexOf(kids, n.name) == |kids|
      ensures IndexOf(kids + [n], n.name) == |kids|
      decreases kids
    {
      if kids != [] {
        assert (kids + [n])[1..] == kids[1..] + [n];
        Appended(kids[1..], n);
      }
    }

    /** `chk_small_tree`. */
    method ChkSmall(id: string, svc: string, tBroker: int, tSvc: int)
      requires Valid()
      modifies root.repr
      ensures Valid() && fresh(root.repr - old(root.repr))
      ensures Brokers() == ChkSmallTree(old(Brokers()), id, svc, tBroker, tSvc)
    {
      var i := Enter(root, id, tBroker);
      EnterBelow(i, svc, tSvc);
    }

    method EnterBelow(i: nat, svc: string, now: int)
      requires Valid() && i < |root.children|
      modifies root.repr
      ensures Valid() && fresh(root.repr - old(root.repr))
      ensures Brokers() == var b := old(Brokers()); b[i := b[i].(kids := AddOrTouch(b[i].kids, svc, now))]
    {
      label before:
      ghost var b := root.Tree().kids[i];
      assert b == root.children[i].Tree();
      var _ := Enter(root.children[i], svc, now);
      root.repr := root.repr + root.children[i].repr;
      root.ChildChanged@before(i);
    }

    /** `find_svc_exist_tree`. */
    method FindSvcExistTree(svc: string) returns (id: Option<string>)
      requires Valid()
      ensures id == FindSvc(Brokers(), me, svc)
    {
      ghost var b := Brokers();
      for i := 0 to |root.children|
        invariant FindSvc(b[i..], me, svc) == FindSvc(b, me, svc)
      {
        var broker := root.children[i];
        assert b[i] == broker.Tree() && b[i..][1..] == b[i + 1..];
        if broker.name == me {
          continue;
        }
        for j := 0 to |broker.children|
          invariant forall k :: 0 <= k < j ==> b[i].kids[k].name != svc
        {
          assert broker.Tree().kids[j] == broker.children[j].Tree();
          if broker.children[j].name == svc {
            return Some(broker.name);
          }
        }
      }
      id := None;
    }
  
    method RemoveService(i: nat, j: nat)
      requires Valid() && i < |root.children| && j < |Brokers()[i].kids|
      modifies root.repr
      ensures Valid() && root.repr == old(root.repr)
      ensures Brokers() == var b := old(Brokers()); b[i := b[i].(kids := b[i].kids[..j] + b[i].kids[j + 1..])]
    {
      label before:
      ghost var b := root.Tree().kids[i];
      assert b == root.children[i].Tree() && |b.kids| == |root.children[i].children|;
      root.children[i].RemoveAt(j);
      root.ChildChanged@before(i);
    }

    /** The inner loop of the pruning tick looks for the first old service. */
    static method FindOld(broker: GNode, now: int) returns (j: nat)
      requires broker.Valid()
      ensures j == FirstOld(broker.Tree().kids, now) && |broker.Tree().kids| == |broker.children|
    {
      ghost var kids := broker.Tree().kids;
      j := 0;
      while j < |broker.children|
        invariant j <= |broker.children| && forall k :: 0 <= k < j ==> !Old(kids[k].info.hb, now)
      {
        broker.ChildAt(j);
        if Old(broker.children[j].hb, now) {
          return;
        }
        j := j + 1;
      }
    }

    /** The first old service of broker i, if any, goes. */
    method PruneBelow(i: nat, now: int) returns (done: bool)
      requires Valid() && i < |root.children|
      modifies root.repr
      ensures Valid() && root.repr == old(root.repr)
      ensures var b := old(Brokers()); var j := FirstOld(b[i].kids, now);
              && (done <==> j < |b[i].kids|)
              && Brokers() == if done then b[i := b[i].(kids := b[i].kids[..j] + b[i].kids[j + 1..])] else b
    {
      assert Brokers()[i] == root.children[i].Tree();
      var j := FindOld(root.children[i], now);
      done := j < |root.children[i].children|;
      if done {
        RemoveService(i, j);
      }
    }

    /** The tick seen from broker i, the ones before it being clean. */
    static lemma PruneFrom(b: seq<Node>, i: nat, now: int)
      requires i < |b|
      ensures var j := FirstOld(b[i].kids, now);
              b[..i] + Prune(b[i..], now) ==
              if Old(b[i].info.hb, now) then b[..i] + b[i + 1..]
              else if j < |b[i].kids| then b[i := b[i].(kids := b[i].kids[..j] + b[i].kids[j + 1..])]
              else b[..i + 1] + Prune(b[i + 1..], now)
    {
    }

    /** One round of the outer loop: done when a node was destroyed. */
    method PruneBroker(i: nat, now: int) returns (done: bool)
      requires Valid() && i < |root.children|
      modifies root.repr
      ensures Valid() && root.repr == old(root.repr)
      ensures var b := old(Brokers());
              if done then Brokers() == b[..i] + Prune(b[i..], now)
              else Brokers() == b && b[..i] + Prune(b[i..], now) == b[..i + 1] + Prune(b[i + 1..], now)
    {
      PruneFrom(Brokers(), i, now);
      root.ChildAt(i);
      if Old(root.children[i].hb, now) {
        root.RemoveAt(i);
        done := true;
      } else {
        done := PruneBelow(i, now);
      }
    }

    /** `remove_smalltree_callback`. */
    method RemoveSmalltreeCallback(now: int)
      requires Valid()
      modifies root.repr
      ensures Valid() && root.repr == old(root.repr)
      ensures Brokers() == Prune(old(Brokers()), now)
    {
      ghost var b := Brokers();
      assert b[..0] + Prune(b[0..], now) == Prune(b, now);
      var i := 0;
      while i < |root.children|
        invariant Valid() && root.repr == old(root.repr) && i <= |root.children| && Brokers() == b
        invariant Prune(b, now) == b[..i] + Prune(b[i..], now)
      {
        var done := PruneBroker(i, now);
        if done {
          return;
        }
        i := i + 1;
      }
    }
  }
}
