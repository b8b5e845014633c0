/** Slot table, registry tree and pending events, as broker.c and hub.c keep
    them.  K is what a slot is claimed by: the port decade of a service in
    broker.c, the host of a broker in hub.c. */
module Registry {
  import opened Names
  import opened Forest

  /** `used` with `svc_name` / `svc_start_port`, or `broker_name` / `broker_host`;
      `polling` is set once the start event has opened the sockets. */
  datatype Slot<K> = Free | Used(key: K, name: string, polling: bool)

  /** One-shot events, run in the order they were scheduled. */
  datatype Job = Start(slot: nat) | Release(slot: nat)

  datatype Reg<K> = Reg(slots: seq<Slot<K>>, tree: seq<Node>, jobs: seq<Job>)

  /** A registration: the slot key it asks for and its path in the tree. */
  datatype Regi<K> = Regi(key: K, levels: Levels)

  datatype Answer = Conflict | Serviced(slot: nat) | Vacant(slot: nat) | Full

  /** First used slot claimed by `key`, or |slots|. */
  function FindKey<K(==)>(slots: seq<Slot<K>>, key: K): (i: nat)
    ensures i <= |slots|
    ensures forall j :: 0 <= j < i ==> !(slots[j].Used? && slots[j].key == key)
    ensures i < |slots| ==> slots[i].Used? && slots[i].key == key
  {
    if slots == [] || (slots[0].Used? && slots[0].key == key) then 0 else 1 + FindKey(slots[1..], key)
  }

  /** First free slot, or |slots|. */
  function FindFree<K>(slots: seq<Slot<K>>): (i: nat)
    ensures i <= |slots|
    ensures forall j :: 0 <= j < i ==> slots[j].Used?
    ensures i < |slots| ==> slots[i].Free?
  {
    if slots == [] || slots[0].Free? then 0 else 1 + FindFree(slots[1..])
  }

  function Classify<K(==)>(slots: seq<Slot<K>>, key: K, name: string): Answer
  {
    var i, free := FindKey(slots, key), FindFree(slots);
    if i < |slots| then (if slots[i].name == name then Serviced(i) else Conflict)
    else if free < |slots| then Vacant(free) else Full
  }

  /** `chk_svc_dealer` / `chk_svc_broker`: a known service updates its path, a new
      one takes a slot and enters only its top node, all others change nothing. */
  function Register<K(==)>(s: Reg<K>, r: Regi<K>): Reg<K>
    requires r.levels.Valid()
  {
    var name := r.levels.path[0];
    match Classify(s.slots, r.key, name)
    case Conflict => s
    case Full => s
    case Serviced(_) => s.(tree := ChkPath(s.tree, r.levels, |r.levels.path|))
    case Vacant(i) => Reg(s.slots[i := Used(r.key, name, false)],
                          ChkLevel(s.tree, r.levels, 0, Some(i)), s.jobs + [Start(i)])
  }

  function ReleaseJobs(slots: seq<nat>): seq<Job>
  {
    seq(|slots|, k requires 0 <= k < |slots| => Release(slots[k]))
  }

  /** `removetree_callback`. */
  function SweepTree<K>(s: Reg<K>, now: int): Reg<K>
  {
    s.(tree := Sweep(s.tree, now), jobs := s.jobs + ReleaseJobs(Released(s.tree, now)))
  }

  /** The event loop runs the oldest pending event. */
  function RunJob<K>(s: Reg<K>): Reg<K>
  {
    if s.jobs == [] || s.jobs[0].slot >= |s.slots| then s.(jobs := if s.jobs == [] then [] else s.jobs[1..])
    else
      var i := s.jobs[0].slot;
      var slot := if s.jobs[0].Release? then Free
                  else if s.slots[i].Used? then s.slots[i].(polling := true) else Free;
      s.(slots := s.slots[i := slot], jobs := s.jobs[1..])
  }

  function RunJobs<K>(s: Reg<K>): Reg<K>
    decreases |s.jobs|
  {
    if s.jobs == [] then s else RunJobs(RunJob(s))
  }

  // ----- Consistency --------------------------------------------------------

  ghost predicate KeysDistinct<K>(slots: seq<Slot<K>>)
  {
    forall i, j :: 0 <= i < j < |slots| && slots[i].Used? && slots[j].Used? ==> slots[i].key != slots[j].key
  }

  /** Only top-level nodes hold a slot. */
  ghost predicate NoSlots(kids: seq<Node>)
  {
    forall n :: n in kids ==> n.info.slot == None && NoSlots(n.kids)
  }

  /** The node's pointer leads to a used slot of the same name. */
  ghost predicate Linked<K>(slots: seq<Slot<K>>, n: Node)
  {
    && n.info.slot.Some? && n.info.slot.value < |slots|
    && slots[n.info.slot.value].Used? && slots[n.info.slot.value].name == n.name
    && NoSlots(n.kids)
  }

  ghost predicate Points(tree: seq<Node>, i: nat)
  {
    exists n :: n in tree && n.info.slot == Some(i)
  }

  /** Every used slot is held by a node or by a pending release, never both. */
  ghost predicate Owned<K>(s: Reg<K>)
  {
    && (forall i :: 0 <= i < |s.slots| && s.slots[i].Used? ==> Points(s.tree, i) || Release(i) in s.jobs)
    && (forall i: nat :: Release(i) in s.jobs ==> i < |s.slots| && s.slots[i].Used? && !Points(s.tree, i))
  }

  /** Events are scheduled once, a start before the release of the same slot,
      and a slot polls as soon as its start has run. */
  ghost predicate JobsOrdered<K>(s: Reg<K>)
  {
    && (forall a, b :: 0 <= a < b < |s.jobs| ==> s.jobs[a] != s.jobs[b])
    && (forall a, b :: 0 <= a < b < |s.jobs| && s.jobs[a].Release? ==> s.jobs[b] != Start(s.jobs[a].slot))
    && (forall i: nat :: Start(i) in s.jobs ==> i < |s.slots|)
    && (forall i :: 0 <= i < |s.slots| ==> (Start(i) in s.jobs <==> s.slots[i].Used? && !s.slots[i].polling))
  }

  ghost predicate Good<K>(s: Reg<K>)
  {
    && Sorted(s.tree)
    && KeysDistinct(s.slots)
    && (forall n :: n in s.tree ==> Linked(s.slots, n))
    && Owned(s)
    && JobsOrdered(s)
  }

  /** What a caller can check before registering: a served name has its node,
      a name about to get a slot has none. */
  predicate Safe<K(==)>(s: Reg<K>, r: Regi<K>)
    requires r.levels.Valid()
  {
    var name := r.levels.path[0];
    match Classify(s.slots, r.key, name)
    case Serviced(_) => Same(s.tree, name)
    case Vacant(_) => !Same(s.tree, name)
    case _ => true
  }
}
