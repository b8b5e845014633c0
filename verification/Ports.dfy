/** Which addresses a service slot binds and which ones its clients connect to. */
module Ports {
  import opened RegistryRuns
  import opened BrokerRegistry

  /** The sockets a service slot binds (`connect_svc_slot`). */
  datatype SlotSocket = Pub | Push | Pull

  /** The sockets a client connects (`crt_cli_sock`). */
  datatype ClientSocket = CliSub | CliPull | CliPush

  datatype Address = Ipc(path: string) | Tcp(port: int)

  /** The socket that serves a client socket. */
  function Partner(c: ClientSocket): SlotSocket
  {
    match c
    case CliSub => Pub
    case CliPull => Push
    case CliPush => Pull
  }

  /** `connect_svc_slot`: the two addresses each socket is bound to. */
  function Bound(svc: string, startPort: int, s: SlotSocket): set<Address>
  {
    match s
    case Pub => {Tcp(startPort), Ipc(svc + "_PUBL.ipc")}
    case Push => {Tcp(startPort + 1), Ipc(svc + "_PUSH.ipc")}
    case Pull => {Tcp(startPort + 2), Ipc(svc + "_PULL.ipc")}
  }

  /** `make_addr_str`. */
  function ClientAddress(svc: string, port: Short, viaIpc: bool, c: ClientSocket): Address
  {
    match c
    case CliSub => if viaIpc then Ipc(svc + "_PUBL.ipc") else Tcp(port as int)
    case CliPull => if viaIpc then Ipc(svc + "_PUSH.ipc") else Tcp(port as int + 1)
    case CliPush => if viaIpc then Ipc(svc + "_PULL.ipc") else Tcp(port as int + 2)
  }

  /** A client meets its service's sockets in matching roles exactly when it
      connects locally or its port is the first of a decade. */
  lemma ClientMeetsService(svc: string, port: Short, viaIpc: bool)
    ensures (forall c: ClientSocket :: ClientAddress(svc, port, viaIpc, c) in Bound(svc, Decade(port), Partner(c)))
            <==> viaIpc || port % 10 == 0
  {
    if !viaIpc && port % 10 != 0 {
      assert ClientAddress(svc, port, viaIpc, CliSub) !in Bound(svc, Decade(port), Partner(CliSub));
    }
  }

  lemma {:induction false} KeysAreDecades(n: nat, es: seq<Event<int>>)
    requires forall e :: e in es && e.Registration? ==> e.r.levels.Valid() && e.r.key % 10 == 0
    ensures forall i :: 0 <= i < |Run(Empty(n), es).slots| && Run(Empty(n), es).slots[i].Used? ==> Run(Empty(n), es).slots[i].key % 10 == 0
    decreases |es|
  {
    if es != [] {
      KeysAreDecades(n, es[..|es| - 1]);
      assert es[|es| - 1] in es;
    }
  }

  /** A registration asks for the decade of its port, towards zero. */
  lemma RegistrationsAskForDecades(m: MqRegi, tSvc: int, tProc: int)
    ensures var d, p: int := ToRegi(m, tSvc, tProc).key, m.port;
            d % 10 == 0 && if p >= 0 then 0 <= d <= p < d + 10 else d - 10 < p <= d <= 0
  {
  }

  lemma PortInDecade(svc: string, startPort: int, s: SlotSocket, port: int)
    requires startPort % 10 == 0 && Tcp(port) in Bound(svc, startPort, s)
    ensures startPort == port - port % 10 && port % 10 == (match s case Pub => 0 case Push => 1 case Pull => 2)
  {
  }

  /** In every reachable state two different used slots bind no TCP port in common. */
  lemma BoundPortsDisjoint(n: nat, es: seq<Event<int>>, i: nat, j: nat, a: SlotSocket, b: SlotSocket, port: int)
    requires forall e :: e in es && e.Registration? ==> e.r.levels.Valid() && e.r.key % 10 == 0
    requires var slots := Run(Empty(n), es).slots;
             && i < |slots| && j < |slots| && slots[i].Used? && slots[j].Used?
             && Tcp(port) in Bound(slots[i].name, slots[i].key, a) && Tcp(port) in Bound(slots[j].name, slots[j].key, b)
    ensures i == j && a == b
  {
    var slots := Run(Empty(n), es).slots;
    KeysAreDecades(n, es);
    KeysStayDistinct(n, es);
    PortInDecade(slots[i].name, slots[i].key, a, port);
    PortInDecade(slots[j].name, slots[j].key, b, port);
  }
}
