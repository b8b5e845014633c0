# Broker and inter-hub verification

This project models a ZeroMQ service broker (`broker.c`), the hub that joins brokers (`hub.c`) and the wrapper
their clients use (`zmq_wrapper.c`), and proves what their routing, registration and configuration paths guarantee.
`dafny verify dfyconfig.toml` checks all of it.

## How the model is built

Three layers, from the program's own form to the theorems.

1. **Live structures.** Sockets, the slot tables, the registry tree, the hub threads' service index and the client
   counters are classes and arrays changed in place, with one method for each C function and its loops
   (`Sockets`, `Relay`, `Router`, `HubThread`, `Directory`, `Nodes`, `BrokerRegistry`, `HubRegistry`, `Client`, `Config`).
   Each method is proved equal to a function of the old state.
2. **Values.** Those functions work on part queues, forests and slot sequences, for every script of send results
   (accepted, EINTR, EHOSTUNREACH, any other error). The theory modules prove what they guarantee
   (`RelayTheory`, `RouterTheory`, `TreeOrder`, `Expiry`, `Heartbeats`, `RegistryTheory`, `RegistryRuns`, `Misuse`,
   `DirectoryTheory`, `HubAnswers`).
3. **Messages.** With sends that succeed, a round of each program turns whole messages into whole messages
   (`RouterEmission`, `HubEmission`; `RouterExits` and `HubExits` say what becomes of them when sends fail) and a
   callback whole queues of them (`HubQueues`, `HubIndex`); on these `EndToEnd` follows a request and its response
   through every hop and `Network` follows any number of them through any number of brokers; `Restart` is the case of a
   broker that comes back under a new name.

A socket is a queue of (bytes, more flag) parts. A ROUTER refuses a message whose first part is not a connected
identity and strips that part on the way out; PUB/SUB matches a subscription as a prefix of the first part. Byte
strings are strings whose chars stand for bytes. The slot table and the tree share one theory: the broker's slots are
keyed by port decade and its tree has two levels, the hub's slots are keyed by host and its tree has three.

## What the code needs, and where it falls short

Each item is a theorem below, with the exact condition where the code does not always meet the property.

- Slot table and tree stay consistent after a registration if and only if a served name has its node and a name that
  gets a slot has none. Callers ensure it by registering a name always in one port decade (at the hub: one host) and
  not while the release of its slot is pending (`RegistryTheory.RegisterPreserves`, `RegistryRuns.OrderlyIsSafe`).
  Otherwise, from the empty table: a name registered in two decades takes a second slot that nothing ever frees
  (`Misuse.TwoKeysLeak`, `Misuse.LeakIsPermanent`); one registered again between its sweep and its release gets a node
  without a slot (`Misuse.RegisteredWhileReleasing`), and its next slot is never freed (`Misuse.SlotlessNodeLeaks`).
- The expiry sweep equals flat expiry if and only if no fresh node hangs below a stale one; that is so at every time if
  and only if parents were heard from no earlier than their children; and a registration keeps that order if and only
  if all its clock reads give the same second. `time()` is read once per level, so a tick between two reads lets a
  later sweep drop a fresh process with its service (`Heartbeats.OneInstantIsExact`, `Misuse.StraddledProcessLost`).
- In the hub's index, where the clock is read once for the broker and once for the service, a service heard within three
  seconds can be pruned with its broker, given enough ticks, if and only if the broker's last read is the earlier one; a
  single tick takes it if and only if its broker is the first old node (`DirectoryTheory.LosableIsExact`,
  `DirectoryTheory.TickTakesFresh`, `DirectoryTheory.StraddledServiceLost`).
- `chk_tree` puts a node at its path if and only if the parent is there; for a missing parent it attaches the node
  under the next larger sibling (`TreeOrder.ChkTreeNeedsParent`, `TreeOrder.WrongBase`).
- The hub's receive buffers are zeroed once per callback and not terminated after a receive. A type is dispatched as
  received if and only if the last longer part read before it in the same callback left a NUL byte at its end; "svc_req"
  read after "svc_res_interhub" is taken for "svc_req_interhub" and dropped (`HubEmission.ReadAsReceived`,
  `HubEmission.RequestAfterResponse`). For a queue whose requests are all offered, `interhub_callback` dispatches every
  message as received if and only if no request and no notice stands behind a response; it then publishes all of them
  (`HubQueues.QueueIsReadRight`). A request that nobody offers leaves its tag and body to be read as types; with an
  eighth body byte that is not NUL, the offered request behind it is lost (`HubQueues.RequestAfterUnoffered`,
  `HubQueues.OfferedRequestLost`). What is published for any queue is `HubQueues.UpPublishes`.
- Registrations share a queue and the topic buffer with messages for the broker. All those found by a call are entered
  if and only if none stands behind a topic longer than "svc_reg", as every thread id is; so a live service can be
  pruned (`HubIndex.QueueTaken`, `HubIndex.AllEnteredIsExact`, `HubIndex.LiveServicePruned`).
- A router round ends inside its message, for any results of the sends, if and only if the loop guard fires, the hub is
  unreachable, or a send fails before the last part; EINTR counts as a failure only in the heads of messages to the hub,
  where a send is not tried again (`RouterExits.UndrainedExits`). When sends succeed only the first two are left
  (`RouterExits.SuccessfulExits`). The next round then drops the rest and at most one further message
  (`RouterTheory.RoundResynchronises`).
- A request that crossed the hub is back at the broker it came from if and only if the index answered the asking thread
  with another id that begins with the thread's own (`Network.ReturnIsExact`, `Network.RequestGoesTo`). That happens
  when a broker is restarted before its old slot is released and its new process id extends the old one: the new name is
  rejected, but published all the same, and the old thread still serves the host (`Restart.NewNameRejected`,
  `Restart.RestartedBrokerReturns`). The bounds on steps and crossings hold in any case (`Network.NoForwardingLoop`).
- An index answers with brokers whose registrations were published, accepted or not. In an orderly run a name heard of
  within five seconds has a slot if and only if its last registration was accepted (`HubAnswers.ServedIsExact`); a
  request for a rejected one is lost, even if another broker offers the service (`Restart.OfferedElsewhereLost`).
- A TCP client meets its service's sockets if and only if its port is a multiple of ten (`Ports.ClientMeetsService`).
- Hub topics of two hosts are told apart under all broker names if and only if neither host, followed by an underscore,
  begins the other. The hosts the hub receives are the transport's peer addresses (hub.c:653, hub.c:678), numeric and
  free of underscores, so its topics are told apart; hosts like "a" and "a_b" are no input of the hub
  (`HubRegistry.IsolationIsExact`, `HubRegistry.IdGivesHost`, `HubRegistry.UnderscoreHostsCollide`).
- A configuration file arrives as it is if and only if it has no NUL byte: each chunk is cut at its first one
  (`Config.ConfigRoundTrip`).
- A configuration file name without any dot is dereferenced through a null result of `strchr`
  (`Config.FileNamesAccepted`).

Assumptions kept open in the statements: requests name a service, not `inter_hub`; the ids of the threads are
prefix-free, as `HubRegistry.TopicIsolation` shows of used slots (`Network.PrefixFree`); strings fit their C buffers;
ZeroMQ delivers whole messages.

## Model

| member | source | states |
|---|---|---|
| Wire.ReusedBuffer | hub.c:277-278 | a string received into a buffer is read back whole exactly when a terminator already stood behind it |
| Wire.TagRoundTrip | mq.h:62-67 | decoding the 121 bytes of an encoded tag gives the tag back |
| Wire.StampsDecode | broker.c:614-614 | setting via_interhub and printing the broker id each change that one field of a tag in flight |
| Relay.RetrySend | zmq_wrapper.c:363-383 | the EINTR retry loop ends, with the first result that is not EINTR |
| Relay.RelayParts | zmq_wrapper.c:342-393 | the relay loop, including from a socket to itself, leaves both ends, errno and svc_host as specified |
| Relay.DrainLeftParts | broker.c:646-659 | the drain loop stops, given that whole messages arrive |
| Relay.MqRelayCallback | broker.c:101-117 | moves at most 1000 parts, going on whatever the sends return, as RelayTheory.BatchIsExact spells out |
| Relay.StripOne | broker.c:131-139 | one round of the sub-to-pub relay: first part dropped, rest relayed, drained on failure |
| Relay.MqRelayCallbackSubToPub | broker.c:119-141 | at most 1000 such rounds |
| RelayTheory.RelayIsExact | zmq_wrapper.c:353-392 | for every script of send results: exactly the parts before the failed one go out with their more flags, the input is read through it, and svc_host gets it exactly on EHOSTUNREACH |
| RelayTheory.InterruptsAreInvisible | zmq_wrapper.c:381-382 | a run with EINTR results ends as the same run without them: no part is doubled or skipped |
| RelayTheory.DrainReachesBoundary | broker.c:646-659 | draining from any part of a message stops at its end |
| RelayTheory.RelayThenDrain | broker.c:135-138 | after a relay, however it ended, a drain leaves the receiver at the next message |
| RelayTheory.BatchIsExact | broker.c:112-116 | for every script of send results a callback of n rounds reads min(n, queue) parts and sends, in order and with their more flags, exactly those whose own send was accepted, each once |
| RelayTheory.BatchesKeepStream | broker.c:101-117 | however arrivals and 1000-part batches cut the stream, sent parts and queue together are what came in, in order |
| RelayTheory.StripIsExact | broker.c:119-141 | messages are consumed whole and their tails sent in order; a failing send cuts only the last; no cut and no early stop when sends succeed |
| Router.SendAll | broker.c:620-628 | a chain of sends joined by && stops at the first that returns too few bytes |
| Router.RouterThread.RelayReqToInterhub | broker.c:605-631 | the loop guard, the notice, the forwarded head and the relayed body, with every partial failure |
| Router.RouterThread.RelayResToInterhub | broker.c:633-644 | the response goes to the hub behind its type |
| Router.RouterThread.RelayTo | broker.c:701-710 | only EHOSTUNREACH leads to the hub, or to a drain without one |
| Router.RouterThread.Handle | broker.c:678-711 | dispatch on the message type |
| Router.RouterThread.OneRound | broker.c:671-711 | one round reads identity and type and dispatches |
| Router.RouterThread.RouterCallback | broker.c:661-713 | at most 1000 rounds, ending when no identity or type can be read |
| RouterTheory.RoundIsAligned | broker.c:671-711 | from a message boundary one round reads identity, type and part or all of that message, never part of the next, whatever the sends return |
| RouterTheory.RoundResynchronises | broker.c:694-699 | from the rest of a message one round is back on a boundary, having dropped the rest and at most one further message |
| RouterTheory.RunsStand | broker.c:661-713 | over any number of rounds and any send results the receiver stands inside or at the end of a message it was given |
| RouterEmission.RoundEmits | broker.c:605-713 | when sends succeed, which messages leave which socket and how many parts are read |
| RouterEmission.RoundsEmit | broker.c:670-712 | a callback that finds n such messages takes them all and each socket sends what they call for, in order |
| RouterEmission.LoopGuard | broker.c:610-612 | a request marked via_interhub never starts another message to the hub, whatever the sends return |
| RouterExits.UndrainedExits | broker.c:661-713 | for every script of send results a round ends inside its message exactly when the loop guard fires, the hub is unreachable, or a part before the last, or a part of a head, is refused |
| RouterExits.RelayReachesEnd | zmq_wrapper.c:353-392 | a relay reads its message to the end exactly when no part but the last is refused by a result that is neither EINTR nor acceptance |
| RouterExits.ChainIsExact | broker.c:620-628 | a chain of sends goes through exactly when no result in its part of the script, EINTR included, stops it |
| RouterExits.ChainSends | broker.c:620-628 | however a chain of sends ends, its parts before the first one not accepted went out |
| RouterExits.ForwardSends | broker.c:614-630 | whatever the sends return, a request for a reachable hub goes out up to some part, completely exactly when no send is refused; a cut notice does not hold it back |
| RouterExits.HubResponseSends | broker.c:633-644 | whatever the sends return, so does a response for a reachable hub |
| RouterExits.SuccessfulExits | broker.c:610-612 | when sends succeed, parts are left behind exactly when the loop guard fires or the hub is unreachable |
| RouterExits.InterruptedExits | zmq_wrapper.c:381-382 | a response or a request for a connected peer that meets nothing but EINTR is read to its end |
| HubThread.BrokerThread.FindSvcThenRelay | hub.c:232-252 | lookup before the tag is read, stamp, publish to the found broker's id |
| HubThread.BrokerThread.FindBrokerThenRelay | hub.c:254-268 | a response is published to the broker id it names |
| HubThread.BrokerThread.UpHandle | hub.c:278-286 | dispatch of the thread's dealer messages |
| HubThread.BrokerThread.InterhubCallback | hub.c:270-288 | the whole loop, with its reused type buffer |
| HubThread.BrokerThread.RelayToBrokerAs | hub.c:91-110 | a published message is handed to the broker's router under a plain type |
| HubThread.BrokerThread.DownHandle | hub.c:122-137 | a registration enters the index, any other topic is relayed down |
| HubThread.BrokerThread.BrokerSubCallback | hub.c:112-140 | the whole loop, with its reused topic buffer and the clock reads of each round |
| HubEmission.ReadAsReceived | hub.c:275-278 | a type or topic is read as received exactly when the last longer part read before it in the same callback left a NUL at its end; for strings, when nothing longer was read |
| HubEmission.RequestAfterResponse | hub.c:278-281 | a request read after a hub response is taken for an unknown type |
| HubEmission.UpEmits | hub.c:232-288 | what a thread publishes for each message of its broker, and how many parts it reads |
| HubEmission.UpSkipsLeftover | hub.c:241-243 | what is left of a request nobody offers is skipped part by part, nothing is published, and the next message is met where it starts with the buffer those parts have left |
| HubEmission.DownEmits | hub.c:91-140 | what a thread sends to its broker for each published message |
| HubEmission.DownRegisters | hub.c:122-126 | a registration read right enters the index under the id and service its bytes give |
| HubEmission.RegiRoundTrip | hub.c:34-36 | from a registration's bytes a thread reads host and broker name as the id host_name, and the tag's service |
| HubIndex.RegistrationIndexed | hub.c:122-126 | a registration read right sets the heartbeats of its own broker id and service, each to its clock read, and of no other pair |
| HubIndex.RegistrationLogged | hub.c:32-36 | in the log it is a heartbeat of that id and service |
| HubExits.UpUnderFailures | hub.c:240-266 | whatever the sends return, an offered request or a response is published up to some part, completely exactly when no send is refused, and the rest is read through the refused part |
| HubExits.DownUnderFailures | hub.c:91-110 | whatever the sends return, the same of a message handed down to the broker |
| HubQueues.UpBuffer | hub.c:275-277 | in every round, whatever is queued and whatever the sends return, the type buffer holds what the parts read as types so far have left in it |
| HubQueues.CallbackIsSteps | hub.c:277-287 | the callback is these rounds, continued to the end of the queue |
| HubQueues.RoundReadsRight | hub.c:277-278 | a type is read right in a round exactly when the last longer part read as a type before left a NUL at its end |
| HubQueues.UpPublishes | hub.c:270-288 | what a call publishes for any queue of requests, responses and notices, offered or not, in whatever order, no other part reading as a type |
| HubQueues.QueueIsReadRight | hub.c:277-282 | with all requests offered, every message is dispatched as received exactly when no request and no notice stands behind a response, and all are then published in order |
| HubQueues.ReadAfterLeftover | hub.c:277-278 | behind skipped parts a type is read right exactly when they left a NUL at its end |
| HubQueues.RequestAfterUnoffered | hub.c:240-243 | the request behind one nobody offers is published exactly when that one's tag and body left a NUL at the end of the type |
| HubQueues.OfferedRequestLost | hub.c:240-243 | so an offered request is lost behind one nobody offers whose body has an eighth byte other than NUL |
| HubIndex.QueueTaken | hub.c:112-140 | of any queue of registrations and messages for the broker all messages go down in order, and exactly the registrations in front of the first topic longer than svc_reg enter the index |
| HubIndex.DownBuffer | hub.c:118-121 | the topic buffer at the end of such a call is what all topics have left in it |
| HubIndex.AllEnteredIsExact | hub.c:121-122 | all registrations found are entered exactly when none stands behind such a topic |
| HubIndex.EnteredUnderFailures | hub.c:91-140 | whatever the sends to the broker return, the registrations in front of the first long topic are entered and none behind it, if no part from there on leaves a NUL behind svc_reg |
| HubIndex.ThreadFollowsLog | hub.c:112-202 | over any calls and ticks the index is that of the log of the registrations entered; in each call either the sends to the broker succeed, or no part from the first long topic on leaves a NUL behind svc_reg |
| HubIndex.PublishedIsEntered | hub.c:655-658 | for the same calls, that log is the log of all registrations published to the thread exactly when in no queue one stood behind such a topic |
| HubIndex.ThreadAnswers | hub.c:204-230 | for the same calls, the thread's answers are then right about everything published to it |
| HubIndex.RegistrationLost | hub.c:121-122 | a registration behind a message for the broker is not entered |
| HubIndex.LiveServicePruned | hub.c:177-201 | a service registered within one second of the tick is pruned because its last registration stood behind a message |
| Directory.SmallTree.Enter | hub.c:47-63 | find by name and touch, or append |
| Directory.SmallTree.ChkSmall | hub.c:32-89 | a registration touches or creates the broker entry and the service entry below it |
| Directory.SmallTree.FindSvcExistTree | hub.c:204-230 | the first other broker offering the service |
| Directory.SmallTree.PruneBelow | hub.c:189-200 | the first old service of a broker goes, if there is one |
| Directory.SmallTree.RemoveSmalltreeCallback | hub.c:171-202 | one tick removes at most one node and returns |
| DirectoryTheory.EnterSetsPair | hub.c:32-89 | a registration sets the heartbeats of its own pair and broker, each to its own clock read, and no others |
| DirectoryTheory.PrunedPair | hub.c:171-202 | a tick removes exactly the pairs of the node it takes, a broker or one service, and changes no other |
| DirectoryTheory.TakenIsOld | hub.c:177-201 | the node a tick takes is in the index and old; it takes none only if no broker is old |
| DirectoryTheory.IndexIsFaithful | hub.c:32-202 | after any interleaving of entered registrations and ticks each entry has its pair's or broker's last logged read, and a pair is missing only if some later tick found it or its broker old |
| DirectoryTheory.IndexFollowsLog | hub.c:32-89 | with a clock never set back, a logged pair is missing only if it was not logged within three seconds or its last registration read two different seconds |
| DirectoryTheory.QueryAgainstLog | hub.c:204-230 | the query never answers with the asking broker, only with one whose registration of the service was entered, and finds one entered elsewhere within three seconds in one second |
| DirectoryTheory.AnswerIsFirst | hub.c:208-225 | the answer is the first broker in the index, other than the asker, that offers the service |
| DirectoryTheory.TickRemovesFirstOld | hub.c:177-201 | in every reachable index a tick removes the first old node in preorder with its subtree |
| DirectoryTheory.TickMakesProgress | hub.c:177-201 | a tick leaves fewer old nodes, or changes nothing when there are none |
| DirectoryTheory.PruningConverges | hub.c:171-202 | in every reachable index, without registrations, as many ticks as there are old nodes leave none |
| DirectoryTheory.OneInstantIsExact | hub.c:53-78 | the order that protects fresh services from a broker's removal survives a registration exactly when its two clock reads agree |
| DirectoryTheory.LosableIsExact | hub.c:177-187 | given enough ticks at one instant, a service heard within three seconds can be taken exactly when its broker's last logged read is before the service's |
| DirectoryTheory.TickTakesFresh | hub.c:177-201 | one tick takes a service that is not old exactly when its broker is the first old node |
| DirectoryTheory.StraddledServiceLost | hub.c:53-83 | a first registration read in two seconds is pruned three seconds later |
| EndToEnd.MessagesOfStream | zmq_wrapper.c:364-364 | the more flags of relayed parts determine the messages |
| EndToEnd.LocalRoundTrip | broker.c:661-713 | a request arrives as (tag, body); the answer built from the tag reaches exactly the processes whose slot and own subscription are prefixes of the tag's service and process name |
| EndToEnd.HubRoundTrip | hub.c:91-268 | the same through two brokers and two hub threads: the tag arrives marked and stamped, the answer comes back behind a zero-padded name |
| EndToEnd.PathsAgree | zmq_wrapper.c:175-252 | with prefix-free names only the asking process gets the answer, and both paths give it the body that was sent |
| EndToEnd.ClientsRead | zmq_wrapper.c:217-252 | the receiving calls return the tag and body, and the body, of delivered messages |
| Network.HubStep | hub.c:241-251 | a hub thread hands on at most one message, to at most one thread; a request leaves it marked and stamped with its origin, and the work left goes down |
| Network.StepDecreases | broker.c:605-631 | every handling step, lossy or not, keeps the facts about packets and lowers the work left |
| Network.NoForwardingLoop | broker.c:609-614 | in any network of threads with prefix-free ids and any run: at most five steps per message, no second crossing of the hub, requests that crossed are marked and stamped |
| Network.RequestGoesTo | hub.c:244-245 | an answered request goes to a thread exactly when the answer begins with that thread's id |
| Network.RequestLost | hub.c:244-245 | it is lost exactly when the answer begins with no thread's id |
| Network.ReturnIsExact | hub.c:204-230 | over any run requests that crossed are never back at their broker exactly when no index answers a thread with another id beginning with its own |
| Network.DistinguishableStays | hub.c:213-223 | no request comes back through an index that knows no other id beginning with the thread's own |
| Restart.NewNameRejected | hub.c:609-611 | a second broker name from one host changes neither table nor tree |
| Restart.RestartedBrokerReturns | hub.c:655-661 | the index knows the rejected name all the same; if it extends the old one, a request for its service comes back to its origin |
| Restart.OfferedElsewhereLost | hub.c:213-223 | a request answered with a rejected broker is lost although another one offers the service |
| HubAnswers.ServedIsExact | hub.c:597-639 | in an orderly run a name has a used slot, until its next registration and while no sweep comes more than five seconds later, exactly when its last registration was accepted |
| HubAnswers.AnswerIsPublished | hub.c:655-658 | an index answers only with the id of a broker that registered the service at the hub |
| Client.ClientSock.MqSendReq | zmq_wrapper.c:128-150 | the four parts of a request; exactly when every part was accepted and the body is not empty one send and its bytes are counted, receives never |
| Client.ClientSock.MqSendRes | zmq_wrapper.c:175-205 | the parts of a response, with the broker for one that came through the hub; counted as a send |
| Client.ClientSock.MqRecvReq | zmq_wrapper.c:217-233 | tag and body of a request, counted as a receive, or failure |
| Client.ClientSock.MqRecvRes | zmq_wrapper.c:235-252 | the part behind the name, counted as a receive, or failure |
| Client.RecvReqIsExact | zmq_wrapper.c:217-233 | a request is read exactly when tag and body are there, neither empty and the tag announcing the body; nothing happens on an idle socket; what a failed call consumes |
| Client.RecvResIsExact | zmq_wrapper.c:235-252 | a response is read exactly when name and body are there, neither empty; what a failed call consumes |
| Client.ClientSock.MqRegi | zmq_wrapper.c:104-126 | at most once a second the counters are taken, cleared and published, even if the sends fail |
| Client.TrafficConserved | zmq_wrapper.c:99-150 | over any calls, snapshots and live counters together grow by the number of successful sends, their bytes, the number of successful receives and theirs, counter by counter |
| Client.OneSnapshotPerSecond | zmq_wrapper.c:108-117 | snapshots are at least a second apart however the clock is read |
| Forest.FirstGE | broker.c:242-253 | the position chk_tree_callback reports: all names before it are smaller, its own is not |
| Nodes.GNode.constructor | broker.c:189-207 | a new node has its name, host, clock read, slot and no traffic |
| Nodes.GNode.FindChild | broker.c:224-255 | the search over all children finds the equal name or the first larger one |
| Nodes.GNode.AddNode | broker.c:209-212 | a leaf enters before the given sibling |
| Nodes.GNode.UpdateNodeInfo | broker.c:257-262 | the clock read becomes the heartbeat, the message's counters are stored where the level keeps them, and nothing else changes |
| Nodes.GNode.ChkTree | broker.c:264-308 | the in-place search and update or insert, at any depth |
| Nodes.GNode.RemoveNodeCallback | broker.c:520-531 | a stale child goes with its subtree and schedules its slot's release, a fresh one is swept inside |
| Nodes.GNode.TraverseDotRemove | broker.c:533-539 | the sweep that deletes children while it walks over them |
| TreeOrder.ChkTreeSorted | broker.c:298-307 | a call whose parent exists keeps every level strictly ascending by name |
| TreeOrder.ChkTreeIsUpsert | broker.c:264-308 | a call whose parent exists changes exactly its own path |
| TreeOrder.ChkTreeRenews | broker.c:298-307 | at its path an existing node keeps host and slot, gets the clock read as heartbeat and the message's counters where the level keeps them; a new one starts with host, slot and no traffic |
| TreeOrder.ChkTreeNeedsParent | broker.c:283-296 | the node ends up at its path exactly when the parent exists |
| TreeOrder.WrongBase | broker.c:293-293 | a process of a missing service goes under the next larger service |
| TreeOrder.ChkPathSorted | hub.c:625-627 | the calls of one registration keep the order and leave the whole path present |
| TreeOrder.ChkPathIsUpsert | hub.c:625-627 | the calls of one registration update exactly the prefixes of its path, in either tree |
| TreeOrder.ChkPathRenews | hub.c:463-469 | the calls of one registration renew so the node of each level, with that level's host, clock read and counters, and no other path |
| TreeOrder.Canonical | broker.c:302-306 | an ordered tree is determined by its path map |
| Expiry.SweepIsFlatExpiry | broker.c:520-539 | the sweep keeps what flat expiry keeps, in order, exactly when no fresh node hangs below a stale one, and never keeps more |
| Expiry.HbOrderIsExact | broker.c:526-530 | no sweep at any time loses a fresh node exactly when parents are at least as recent as children |
| Expiry.SweepSorted | hub.c:785-804 | sibling order survives a sweep at every level |
| Heartbeats.OneInstantIsExact | broker.c:259-260 | a registration keeps that order exactly when all its clock reads agree |
| Heartbeats.RunKeepsTree | broker.c:310-346 | over every run of registrations, sweeps and events both orders hold |
| Heartbeats.RunSweepsExactly | broker.c:541-549 | in every such state the sweep keeps exactly the nodes heard of within five seconds |
| RegistryTheory.RegisterPreserves | broker.c:310-346 | table, tree and events stay consistent exactly when the registration is safe; a conflict or a full table changes nothing |
| RegistryTheory.RegisterUpdatesPath | broker.c:333-343 | which paths and which slot a registration changes, in each of the four cases |
| RegistryRuns.SweepPreserves | broker.c:214-222 | a sweep keeps them consistent: every slot stays with its node or is released once |
| RegistryRuns.SweepDividesSlots | broker.c:214-222 | no slot is both kept and released, none is released twice |
| RegistryRuns.RunJobPreserves | broker.c:82-99 | so does running a pending event |
| RegistryRuns.JobIsSafe | broker.c:88-96 | a release finds open sockets, a start a claimed slot without any |
| RegistryRuns.OrderlyIsSafe | broker.c:320-330 | one key per name and no pending release of it make a registration safe |
| RegistryRuns.RunPreserves | broker.c:310-346 | consistency over every run of callers with these habits |
| RegistryRuns.KeysStayDistinct | hub.c:604-617 | over every run whatsoever no two used slots share a key |
| RegistryRuns.SlotsAndNodesCorrespond | broker.c:168-187 | with no release pending, used slots and top nodes correspond one to one by pointer and name |
| RegistryRuns.SilenceFreesEverything | broker.c:541-549 | after more than five silent seconds one sweep and its events free the whole table |
| Misuse.UnsafeVacantLeaks | broker.c:340-341 | an unsafe registration that takes a free slot leaves it used with no node or pending release for it |
| Misuse.LeakIsPermanent | broker.c:214-222 | over every later run such a slot stays used and unheld |
| Misuse.TwoKeysLeak | broker.c:320-341 | from the empty table, one name under two keys is inconsistent and its second slot is never freed |
| Misuse.RegisteredWhileReleasing | broker.c:333-336 | a service swept and registered again before its release has run gets a node without a slot |
| Misuse.SlotlessNodeLeaks | broker.c:340-341 | after that release the next registration of the name takes a slot that is never freed |
| Misuse.StraddledProcessLost | broker.c:526-530 | a registration with clock reads in two seconds lets a sweep drop a process heard of within five seconds |
| BrokerRegistry.MainCtx.CreateNewDealer | broker.c:168-187 | the first free slot is claimed and its start scheduled |
| BrokerRegistry.MainCtx.ChkSvcDealer | broker.c:310-346 | the registration in the message's fields: served, its service's and its process's node are renewed; new, its service gets slot and node; otherwise nothing changes |
| BrokerRegistry.MainCtx.RegiAction | broker.c:349-373 | the same with localdomain as host for ipc and the peer address for TCP; published to the hub, if there is one, under the broker's name |
| BrokerRegistry.RegisterIsExact | broker.c:333-343 | what a registration leaves at each path, in slots and in events, field by field |
| BrokerRegistry.TwoProcesses | broker.c:232-237 | two processes of a served service have two nodes, each with its own heartbeat, below one service node |
| BrokerRegistry.MainCtx.RemovetreeCallback | broker.c:541-549 | the sweep method refines the sweep step |
| BrokerRegistry.MainCtx.RunOldest | broker.c:143-166 | the oldest pending start or release runs |
| HubRegistry.MainCtx.CreateNewBroker | hub.c:408-426 | the first free broker slot is claimed and its start scheduled |
| HubRegistry.MainCtx.ChkSvcBroker | hub.c:597-639 | the registration in the message's fields: of a served broker the nodes of broker, service and process are renewed; new, it gets slot and node; rejected exactly for a host served under another name, changing nothing |
| HubRegistry.MainCtx.RegiAction | hub.c:641-666 | the same with the peer address as host; the registration is published to all threads before it is accepted or rejected |
| HubRegistry.RegisterIsExact | hub.c:472-488 | what a registration leaves at each path, in slots and in events, field by field: hosts, clock reads, counters at processes only |
| HubRegistry.TwoProcesses | hub.c:436-441 | two processes of one service at a served broker have two nodes, each with its own heartbeat |
| HubRegistry.MainCtx.RemovetreeCallback | hub.c:806-814 | the hub's sweep refines the sweep step |
| HubRegistry.MainCtx.RunOldest | hub.c:392-401 | the oldest pending start or release runs |
| HubRegistry.IdGivesHost | hub.c:26-26 | with an underscore-free host an id that is a prefix of another names the same host |
| HubRegistry.MatchIsExact | hub.c:26-26 | when one id is a prefix of another: same host, or the name makes up for the rest of the longer host |
| HubRegistry.IsolationIsExact | hub.c:26-26 | two hosts are told apart under all names exactly when neither, followed by an underscore, begins the other |
| HubRegistry.TopicIsolation | hub.c:155-156 | in every reachable state, for hosts so told apart, a used slot's id is matched by its own id subscription and by no other |
| HubRegistry.RegistrationTopicClash | hub.c:155-155 | an id is also matched by the registration subscription exactly for host svc and a name starting with reg, or a host that goes on from svc_ in that way |
| HubRegistry.UnderscoreHostsCollide | hub.c:26-26 | hosts a and a_b can share an id; a_b and c_d cannot |
| Ports.ClientMeetsService | zmq_wrapper.c:37-58 | a client meets its service's sockets in matching roles exactly when it uses ipc or a port that is a multiple of ten |
| Ports.PortInDecade | broker.c:40-66 | a slot binds its publisher to the first port of its decade, push to the second, pull to the third |
| Ports.RegistrationsAskForDecades | broker.c:313-313 | a registration asks for the multiple of ten next to its port towards zero |
| Ports.BoundPortsDisjoint | broker.c:40-66 | over every run two used slots bind no TCP port in common |
| Config.PublishConfFromFile | broker.c:715-741 | head, chunks as strlen measures them until a send fails, and the empty last part, as Config.PublishIsExact spells out |
| Config.PublishIsExact | broker.c:727-737 | for every script of send results: nothing behind a cut head; the chunks up to the first not accepted; the empty last part in any case |
| Config.MqRecvConfName | zmq_wrapper.c:254-270 | the name, unless the message ends early |
| Config.MqRecvConfBody | zmq_wrapper.c:272-283 | a chunk, or the end for the last part |
| Config.RecvConfNameIsExact | zmq_wrapper.c:254-270 | a name is read exactly when two parts are there that both announce another; none on an idle socket or a message that ends early |
| Config.RecvConfBodyIsExact | zmq_wrapper.c:272-283 | a chunk is read exactly when a part is there that announces another |
| Config.ChunksAreTheFile | broker.c:731-735 | the chunks fgets returns are non-empty, at most 1023 bytes long and join to the file; what is sent is each up to its first NUL |
| Config.ChunksAreLines | broker.c:731-731 | no newline inside a chunk; one that neither fills the buffer nor ends the file ends with a newline |
| Config.LinesAreTheFile | broker.c:732-732 | what is sent joins to the file exactly when the file has no NUL byte |
| Config.ReaderIsExact | zmq_wrapper.c:254-283 | for any file the reader gets the name and what was sent, and stops on the message boundary |
| Config.ConfigRoundTrip | broker.c:715-741 | from file through topic strip to client: the name and every text, each fitting its buffer; they join to the file exactly when it has no NUL byte |
| Config.FileNamesAccepted | broker.c:743-778 | accepted exactly for a dot-free base with an underscore followed by .conf; the parts rejoin; fatal exactly without a dot |
| Config.FileNameRoundTrip | broker.c:764-771 | splitting svc_conf.conf gives (svc, conf) back |

## Left out

- ZeroMQ, libevent, GLib and pthreads themselves: sockets are part queues with scripted outcomes, one-shot events a queue, timers and threads the order of steps.
- HubRegistry.MainCtx.RunOldest: start and release run on two event loops and a thread in the hub; they are modelled as one first-in first-out queue, and a release as a single step.
- Network.NoForwardingLoop: a failing send loses the whole message; messages cut in the middle are covered per round by RouterTheory.RunsStand and RouterEmission.LoopGuard.
- HubExits.UpUnderFailures: EHOSTUNREACH is only ever a ROUTER's verdict, never injected on a publisher or dealer.
- EndToEnd.HubRoundTrip: each hop runs on sockets that have sent nothing before and when every send succeeds; whole queues of other traffic are the subject of RouterEmission.RoundsEmit, HubQueues.UpPublishes and HubIndex.QueueTaken, which say what is lost in them.
- HubThread.BrokerThread.BrokerSubCallback: of the serialised mq_regi_t only broker host, broker name and service are decoded, at the offsets of a 64-bit build.
- HubIndex.ThreadFollowsLog: calls in which a send to the broker fails and a part left unread puts a NUL behind svc_reg.
- DirectoryTheory.LosableIsExact: the number of ticks is not bounded by the seconds left; DirectoryTheory.TickTakesFresh is about a single one.
- The bytes of a registration as broker and hub send it on: an encoding given as a parameter.
- HubQueues.UpPublishes: no name, tag or body reads as a type or as the beginning of one.
- HubIndex.QueueTaken: no topic is a beginning of "svc_reg" and no registration's host is a type of the hub.
- Overflow and truncation of C buffers and of the int counters; memory that is never freed.
- Fixed wording of log messages, including the notice ahead of a forwarded request; mq_send_log.
- Graph drawing, lsyncd control, inotify set-up, socket options, argument parsing, main functions and thread bodies.
- Node data that is only drawn (port, transport, node type of the tree), since it never decides anything.
