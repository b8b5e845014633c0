/** The registry tree as a value: what `chk_tree` and the expiry sweep do to an
    ordered forest of named nodes of any depth.  broker.c uses two levels
    (service, process), hub.c three (broker, service, process). */
module Forest {
  import opened Names

  /** `mq_sndrcv_t`. */
  datatype Traffic = Traffic(sendCnt: int, recvCnt: int, sendByte: int, recvByte: int)

  const NO_TRAFFIC := Traffic(0, 0, 0, 0)

  /** What a node stores besides its name and children; `slot` is the
      `svc_ctx` / `broker_ctx` pointer, as an index into the slot table. */
  datatype Info = Info(host: string, hb: int, traffic: Traffic, slot: Option<nat>)

  datatype Node = Node(name: string, info: Info, kids: seq<Node>)

  /** Seconds of silence after which a node is removed (TMCHK_NORESP). */
  const TMCHK_NORESP := 5

  predicate Stale(hb: int, now: int)
  {
    now - hb > TMCHK_NORESP
  }

  // ----- Name order ---------------------------------------------------------

  /** Position of the first child whose name is not before `name`. */
  function FirstGE(kids: seq<Node>, name: string): (i: nat)
    ensures i <= |kids|
    ensures forall j :: 0 <= j < i ==> Less(kids[j].name, name)
    ensures i < |kids| ==> !Less(kids[i].name, name)
  {
    if kids == [] || !Less(kids[0].name, name) then 0 else 1 + FirstGE(kids[1..], name)
  }

  predicate Ascending(kids: seq<Node>)
  {
    forall i, j :: 0 <= i < j < |kids| ==> Less(kids[i].name, kids[j].name)
  }

  /** Children are strictly ascending by name at every level. */
  predicate Sorted(kids: seq<Node>)
  {
    Ascending(kids) && forall n :: n in kids ==> Sorted(n.kids)
  }

  predicate Same(kids: seq<Node>, name: string)
  {
    var i := FirstGE(kids, name);
    i < |kids| && kids[i].name == name
  }

  // ----- The path map -------------------------------------------------------

  /** Position of the first child named `name`, or |kids|. */
  function IndexOf(kids: seq<Node>, name: string): (i: nat)
    ensures i <= |kids|
    ensures forall j :: 0 <= j < i ==> kids[j].name != name
    ensures i < |kids| ==> kids[i].name == name
  {
    if kids == [] || kids[0].name == name then 0 else 1 + IndexOf(kids[1..], name)
  }

  /** The forest read as a map from paths of names to node contents. */
  function Lookup(kids: seq<Node>, path: seq<string>): Option<Info>
    requires path != []
  {
    var i := IndexOf(kids, path[0]);
    if i == |kids| then None
    else if |path| == 1 then Some(kids[i].info)
    else Lookup(kids[i].kids, path[1..])
  }

  // ----- chk_tree -----------------------------------------------------------

  /** `update_node_info`: a new heartbeat and, where the level keeps traffic, new counters. */
  function Touch(info: Info, hb: int, note: Option<Traffic>): Info
  {
    info.(hb := hb, traffic := if note.Some? then note.value else info.traffic)
  }

  /** One `chk_tree` call for the node at `path`.  Every level but the last is
      only searched.  When a level is missing, `find_node` is the next larger
      sibling, and the code uses it as the parent if it was one level up. */
  function ChkTree(kids: seq<Node>, path: seq<string>, info: Info, note: Option<Traffic>): seq<Node>
    requires path != []
  {
    var i := FirstGE(kids, path[0]);
    if |path| == 1 then
      if Same(kids, path[0]) then kids[i := kids[i].(info := Touch(kids[i].info, info.hb, note))]
      else kids[..i] + [Node(path[0], info, [])] + kids[i..]
    else if Same(kids, path[0]) then
      kids[i := kids[i].(kids := ChkTree(kids[i].kids, path[1..], info, note))]
    else if |path| == 2 && i < |kids| then
      kids[i := kids[i].(kids := kids[i].kids + [Node(path[1], info, [])])]
    else kids
  }

  /** One registration message, level by level: names, the host each new node
      records, the clock read of each `chk_tree` call and the counters stored on update. */
  datatype Levels = Levels(path: seq<string>, hosts: seq<string>, times: seq<int>, notes: seq<Option<Traffic>>)
  {
    predicate Valid()
    {
      0 < |path| == |hosts| == |times| == |notes|
    }

    function Fresh(k: nat, slot: Option<nat>): Info
      requires Valid() && k < |path|
    {
      Info(hosts[k], times[k], NO_TRAFFIC, slot)
    }
  }

  /** The `chk_tree` call of level k. */
  function ChkLevel(kids: seq<Node>, r: Levels, k: nat, slot: Option<nat>): seq<Node>
    requires r.Valid() && k < |r.path|
  {
    ChkTree(kids, r.path[..k + 1], r.Fresh(k, slot), r.notes[k])
  }

  /** The successive `chk_tree` calls for the first n levels. */
  function ChkPath(kids: seq<Node>, r: Levels, n: nat): seq<Node>
    requires r.Valid() && n <= |r.path|
  {
    if n == 0 then kids else ChkLevel(ChkPath(kids, r, n - 1), r, n - 1, None)
  }

  // ----- The expiry sweep ---------------------------------------------------

  /** `traverse_dot_remove`: a silent child goes with its whole subtree, the others are swept inside. */
  function Sweep(kids: seq<Node>, now: int): seq<Node>
  {
    if kids == [] then []
    else SweepOne(kids[0], now) + Sweep(kids[1..], now)
  }

  function SweepOne(n: Node, now: int): seq<Node>
  {
    if Stale(n.info.hb, now) then [] else [n.(kids := Sweep(n.kids, now))]
  }

  /** The slots whose release `RemoveNode` schedules, in the order of removal. */
  function Released(kids: seq<Node>, now: int): seq<nat>
  {
    if kids == [] then []
    else ReleasedOne(kids[0], now) + Released(kids[1..], now)
  }

  function ReleasedOne(n: Node, now: int): seq<nat>
  {
    if Stale(n.info.hb, now) then SlotOf(n) else Released(n.kids, now)
  }

  function SlotOf(n: Node): seq<nat>
  {
    if n.info.slot.Some? then [n.info.slot.value] else []
  }

  /** One line of the flat view: a path and the heartbeat of its own node. */
  datatype Entry = Entry(path: seq<string>, info: Info)

  /** All nodes in preorder. */
  function Flatten(prefix: seq<string>, kids: seq<Node>): seq<Entry>
    decreases kids
  {
    if kids == [] then []
    else FlattenOne(prefix, kids[0]) + Flatten(prefix, kids[1..])
  }

  function FlattenOne(prefix: seq<string>, n: Node): seq<Entry>
    decreases n
  {
    [Entry(prefix + [n.name], n.info)] + Flatten(prefix + [n.name], n.kids)
  }

  /** The entries whose own heartbeat is recent enough. */
  function KeepFresh(es: seq<Entry>, now: int): (r: seq<Entry>)
    ensures |r| <= |es|
  {
    if es == [] then []
    else (if Stale(es[0].info.hb, now) then [] else [es[0]]) + KeepFresh(es[1..], now)
  }

  predicate AllStale(kids: seq<Node>, now: int)
  {
    forall n :: n in kids ==> Stale(n.info.hb, now) && AllStale(n.kids, now)
  }

  /** No node above a fresh one is stale. */
  predicate NoFreshUnderStale(kids: seq<Node>, now: int)
  {
    forall n :: n in kids ==>
      if Stale(n.info.hb, now) then AllStale(n.kids, now) else NoFreshUnderStale(n.kids, now)
  }

  /** Parents were heard from at least as recently as their children. */
  predicate HbOrdered(kids: seq<Node>)
  {
    forall n :: n in kids ==> HbOrdered(n.kids) && forall c :: c in n.kids ==> c.info.hb <= n.info.hb
  }

  /** No heartbeat lies in the future. */
  predicate HbBounded(kids: seq<Node>, clock: int)
  {
    forall n :: n in kids ==> n.info.hb <= clock && HbBounded(n.kids, clock)
  }
}
