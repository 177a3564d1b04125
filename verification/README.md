# kubewg verification

This project models kubewg, a control plane that keeps WireGuard networks in Kubernetes objects, and proves what its
controllers and printers do.

**The model.** `Peer`, `Network` and `RouteBinding` objects of one namespace live in a store. The peer controller
(`PeerController`) places a peer in a network, copies its address out of the network's allocations, then computes the
list of peers to configure. The network controller (`NetworkController`) appends address assignments. Each reads through
a `Client` whose cache may lag behind the server, and writes only the status of its own object, only if that status
changed and only if the object's version is still the one read. The reconcile methods, their loops and the watch
handlers are proved equal to specification functions; everything else is proved about those functions. What these mean
is stated apart from them: in the contracts of the methods, case by case in `ReconcileFacts`, and on concrete inputs in
`Samples`.

**Step systems.** In `Runs`, `Convergence` and `Divergence` a reconcile reads the state it writes. There the number of
writes is bounded, every resting state is a closed form over the specs, and four fair rounds always reach it. In
`StaleReads` each object and list may be any past one and users change objects in between; there the two controllers still
agree on addresses, and allocations only grow. `StaleConvergence` keeps the specs fixed but allows any old reads: the
invariant, the closed form and its exact exceptions hold there as well, and `StaleWrites` bounds the writes. In `Watch`
and `WatchLists` reconciles are driven by a queue that only the watch handlers feed.

**What follows for the network.** `MeshFacts` characterises the computed lists, `Reachability` does longest-prefix
lookup in them over IPv4 prefixes (section 3.1 of RFC 4632), `Guardlet` and `Mkconf` print them and define readers for
what was printed, and `EndToEnd` joins these to the controllers.

**Where the code differs from its comments or guide.** The code is what is modelled. `Witnesses` holds a concrete input
for each difference.

- The network controller builds a list without the entries of vanished peers and then stores the longer one, so
  allocations are append-only (`Allocations.PruneExact`, `StaleReads.AllocationsGrow`).
- A rule without an address assigns the empty address, and the peer then stays unaddressed.
- An endpoint is documented as optional, but an empty one does not split, which fails the mesh of the peer and of all
  its neighbours. Because of this the resting list of some peers depends on timing: `Divergence.Jammed` is the exact
  condition, stated over the specs.
- A route binding names a network, but its routes are given to selected peers of any network, while its watch handler
  requests only peers of the named one: `Triggers.BindingCoverageExact` is the exact condition under which nobody is
  missed.
- The handler for networks does not request peers that still wait for a network: `Triggers.NetworkCoverageExact` is the
  exact condition under which nobody is missed.
- A change to a peer makes only that peer reconcile; `Triggers.OwnRequestSuffices` is the exact condition under which no
  other list needs it. So under watch events alone networks and addresses settle (`Watch.WatchEventsSettle`), but lists
  may stay outdated: `WatchLists.WatchConvergesExact` is the exact condition, over the specs, under which they never do.
- A peer that can be addressed but whose endpoint does not split is retried forever: `Watch.QueueEmptiesExact`.
- The guardlet drops the brackets of an IPv6 endpoint; mkconf adds the mask 32 even to an address that has a mask:
  `Mkconf.PrintersAgreeExact` says exactly when the two outputs agree.

**Assumed of the environment.** Object names are unique and network names not empty (`Runs.WellFormed`); new objects have
empty statuses; every write gets a fresh version. Results over runs assume a fixed order of lists; that order does not
matter is proved separately (`NetworkChoice`, `MeshFacts.MeshOrderFree`).

## Model

| member | source | states |
|---|---|---|
| Api.PeerMatchesSelector | pkg/api/selectors.go:7-27 | a peer matches if and only if it is named, or the wanted labels are not empty and each of them, key and value, is among its own; in whatever order they are visited |
| Api.MatchesRule | pkg/controller/peer/peer_controller.go:231-237 | a rule without a selector matches every peer, otherwise its selector decides |
| Api.MatchesExact | pkg/api/selectors.go:7-27 | labels match as pairs of key and value |
| Samples.OtherValueRefused | pkg/api/selectors.go:14-26 | a label of that key with another value refuses a rule, an address and a binding |
| Samples.SameValueAccepted | pkg/api/selectors.go:14-26 | the same value is accepted beside further labels; an empty selector matches nobody |
| ApiServer.CommitPeerExact | pkg/controller/peer/peer_controller.go:372-377 | a write is accepted if and only if the stored object of that name has the version that was read; then that object alone gets the new status, with a version above the old clock |
| ApiServer.CommitNetworkExact | pkg/controller/network/network_controller.go:186-192 | the same for a network |
| ApiServer.Client.UpdatePeerStatus | pkg/controller/peer/peer_controller.go:372-377 | with unique names, reports success if and only if the version read is current; on success one status and version change and nothing else, otherwise nothing changes |
| ApiServer.Client.UpdateNetworkStatus | pkg/controller/network/network_controller.go:186-192 | the same for a network |
| NetworkController.FirstRule | pkg/controller/network/network_controller.go:206-213 | the returned rule matches and no earlier one does; none is returned only if no rule matches |
| NetworkController.AllocateIP | pkg/controller/network/network_controller.go:197-216 | for every rule that matches with none before it, the result is that rule's address, empty if it names none; an error if and only if no rule matches |
| NetworkController.AssignedAddress | pkg/controller/network/network_controller.go:197-216 | the address of whichever rule matches with none before it; none if and only if no rule matches |
| Samples.FirstRuleWins | pkg/controller/network/network_controller.go:206-213 | of two matching rules the first gives the address |
| NetworkController.NetworkOutcomeOf | pkg/controller/network/network_controller.go:186-192 | a due write is stored and reported as success if the version read is current, and is refused and reported as an error otherwise |
| NetworkController.Prune | pkg/controller/network/network_controller.go:178-184 | keeps, in order, the entries of the wanted names and no others |
| NetworkController.MapPeer | pkg/controller/network/network_controller.go:88-114 | requests the listed networks whose name is the peer's current network |
| NetworkController.ReconcileNetwork.Reconcile | pkg/controller/network/network_controller.go:128-195 | the new server state in full: the read network plus entries for its unlisted members, stored unless nothing changed; an error if and only if that write was due and the version had moved, and then nothing changes; the dropped list |
| ReconcileFacts.WrittenNetworkExact | pkg/controller/network/network_controller.go:148-192 | a network is written with its new entries behind the stored ones, if and only if there are any |
| ReconcileFacts.FreshInOrder | pkg/controller/network/network_controller.go:155-176 | each member without an entry that some rule matches adds one, in the order of the peer list |
| ReconcileFacts.LiveInOrder | pkg/controller/network/network_controller.go:178-184 | the dropped list keeps the order of the stored one |
| PeerController.AllocateNetwork | pkg/controller/peer/peer_controller.go:228-253 | the one selecting network, nothing, or an error when there are several |
| PeerController.ReconcilePeer.RouteRulesForPeer | pkg/controller/peer/peer_controller.go:255-269 | the bindings whose selector matches, in order, whatever network they name |
| PeerController.ReconcilePeer.BuildEntry | pkg/controller/peer/peer_controller.go:195-213 | the neighbour's name and key, its endpoint if and only if that has a host, then the host address with mask 32 followed by all routes of its bindings in order |
| PeerController.ReconcilePeer.ComputePeerConfigurations | pkg/controller/peer/peer_controller.go:159-217 | an error if and only if the own endpoint or that of an addressed neighbour does not split; else each entry has the name, key and endpoint of one neighbour where either side listens, and each such neighbour has an entry |
| Samples.ListsComputed | pkg/controller/peer/peer_controller.go:159-217 | the lists of a server with two routes and of a roaming client |
| PeerController.ReconcilePeer.Reconcile | pkg/controller/peer/peer_controller.go:280-383 | the new server state in full for each of the three phases; when a write is due, success if and only if the version read is current, and then just that status is stored; when none is due, an error if and only if the mesh could not be computed |
| PeerController.PeerOutcomeOf | pkg/controller/peer/peer_controller.go:372-377 | the same for a peer; when no write is due only a failed mesh is an error |
| Samples.ConflictReported | pkg/controller/peer/peer_controller.go:372-377 | a peer placed from an old copy is not stored, and an error is returned |
| ReconcileFacts.PlacingExact | pkg/controller/peer/peer_controller.go:312-332 | an unplaced peer gets the name of the only network that selects it, and else its status stays |
| ReconcileFacts.AddressingExact | pkg/controller/peer/peer_controller.go:334-348 | an unaddressed peer gets the address of the first allocation under its name, and else its status stays |
| ReconcileFacts.ComputingExact | pkg/controller/peer/peer_controller.go:350-370 | an addressed peer gets the computed list, or the reconcile fails |
| ReconcileFacts.MissingNetworkExact | pkg/controller/peer/peer_controller.go:334-358 | a peer whose network is gone keeps its status, addressed or not |
| ReconcileFacts.WrittenPeerExact | pkg/controller/peer/peer_controller.go:372-377 | the object written is the one read with the new status, if and only if that differs |
| ReconcileFacts.SelectsExact | pkg/controller/peer/peer_controller.go:239-250 | a network selects a peer through any of its rules, with or without an address |
| ReconcileFacts.RoutesInOrder | pkg/controller/peer/peer_controller.go:207-213 | allowed routes stand in the order of the bindings, and each matching binding adds all of its routes |
| PeerController.SplitNetMaskExact | pkg/controller/peer/peer_controller.go:219-226 | host and mask surround the first slash, unless there is none or nothing follows it |
| ReconcileFacts.RequestsInOrder | pkg/controller/peer/peer_controller.go:108-117 | both handlers request each listed peer of the network once, in list order |
| PeerController.MapNetwork | pkg/controller/peer/peer_controller.go:97-120 | requests the listed peers whose current network is the changed one |
| PeerController.MapRouteBinding | pkg/controller/peer/peer_controller.go:126-148 | requests the listed peers whose current network is the one the binding names |
| NetworkChoice.ChoiceExact | pkg/controller/peer/peer_controller.go:228-253 | a network is chosen if and only if it alone has a matching rule; an error if and only if two have one; nothing if and only if none has |
| NetworkChoice.ChoiceListOrderFree | pkg/controller/peer/peer_controller.go:239-250 | the choice does not depend on the order of the network list |
| NetworkChoice.ChoiceRuleOrderFree | pkg/controller/peer/peer_controller.go:239-250 | nor on the order of rules inside networks or of names inside selectors |
| NetworkChoice.ChosenNetworkGrants | pkg/controller/network/network_controller.go:197-216 | a network chosen by the peer controller always has a rule for the network controller to allocate from |
| MeshFacts.EntriesExact | pkg/controller/peer/peer_controller.go:172-216 | the entries are those of exactly the linked peers, in list order |
| MeshFacts.EntryNamesExact | pkg/controller/peer/peer_controller.go:172-216 | a name is listed if and only if it is that of an addressed peer of the same network where one side listens |
| MeshFacts.EntryNamesUnique | pkg/controller/peer/peer_controller.go:172-216 | no name is listed twice |
| MeshFacts.EntryOf | pkg/controller/peer/peer_controller.go:195-214 | the entry under a peer's name is that peer's, and is there if the peer is linked |
| MeshFacts.AllowedExact | pkg/controller/peer/peer_controller.go:203-213 | an entry allows exactly the peer's host address with mask 32 and the routes of every binding selecting it |
| MeshFacts.MeshOrderFree | pkg/controller/peer/peer_controller.go:172-216 | reordering the peer list only reorders the entries, and does not turn success into failure |
| MeshFacts.MeshSymmetric | pkg/controller/peer/peer_controller.go:166-202 | of two addressed peers each lists the other or neither does, with the endpoints of the listening sides, at least one of which can be dialled |
| MeshFacts.MeshCongruent | pkg/controller/peer/peer_controller.go:159-217 | the result depends on metadata, specs, networks and addresses only, never on stored peer lists |
| Allocations.FreshExact | pkg/controller/network/network_controller.go:155-176 | the appended entries are those of member peers without one, with their first rule's address |
| Allocations.NextAllocationsExtend | pkg/controller/network/network_controller.go:148-176 | whatever peer list was read, names stay unique and the old list is a prefix of the new one |
| Allocations.PruneExact | pkg/controller/network/network_controller.go:178-184 | the dropped list keeps present members' entries unchanged, and equals the stored list if and only if every stored name is a present member |
| Runs.WriteDecreases | pkg/controller/peer/peer_controller.go:311-372 | every write lowers a measure made of missing networks, entries and addresses and of outdated lists |
| Runs.BoundedWrites | pkg/controller/peer/peer_controller.go:311-377 | n peers cause at most 3n(n+1)+n writes in any run of reconciles that read the current state, from any statuses, in any order |
| Runs.Settles | pkg/controller/peer/peer_controller.go:372-377 | every state can be driven to one in which no reconcile writes |
| Convergence.RunInv | pkg/controller/network/network_controller.go:155-173 | in every state of every run of reconciles that read the current state, from empty statuses: a peer is unplaced or at home, unaddressed or at its home address, and each allocation is that of a placed peer with its home address |
| Convergence.StepEstablishes | pkg/controller/peer/peer_controller.go:311-370 | with earlier rounds complete, reconciling an object completes its part of the next round |
| Convergence.StepKeeps | pkg/controller/peer/peer_controller.go:311-372 | no reconcile undoes completed progress |
| Convergence.DoneRests | pkg/controller/peer/peer_controller.go:365-377 | after four rounds nothing writes, also where some mesh cannot be computed |
| Convergence.Confluence | pkg/controller/peer/peer_controller.go:280-383 | every run of reconciles that read the current state, from empty statuses, that comes to rest ends in the closed form of the specs: network, address, allocations up to order, and every computable list |
| Convergence.FourRoundsConverge | pkg/controller/peer/peer_controller.go:280-383 | any interleaving that contains one pass over peers, one over networks and two more over peers ends at rest in that closed form |
| Convergence.PruneIsIdentity | pkg/controller/network/network_controller.go:178-188 | in such runs, which delete nothing, the list that is built and dropped equals the list that is stored |
| Convergence.PlacedPeersAllocate | pkg/controller/network/network_controller.go:162-173 | in such runs no placed peer meets the allocation error, and once its network is reconciled its recorded address is that of the first matching rule |
| Convergence.AddressesDistinct | pkg/controller/network/network_controller.go:197-216 | in every state of such runs: if rules hold distinct addresses and each is the first match of at most one peer, no two peers of a network share an address |
| Divergence.UnjammedList | pkg/controller/peer/peer_controller.go:166-189 | a peer that is not jammed rests with its final list, or with none when that cannot be computed |
| Divergence.ListDeterminedIffNotJammed | pkg/controller/peer/peer_controller.go:166-189 | the resting list of a peer is the same for every order of reconciles if and only if it is not the case that its final mesh fails on one neighbour while another could be listed |
| StaleReads.ControllersAgree | pkg/controller/peer/peer_controller.go:334-348 | with arbitrarily old objects and lists and version-checked writes, a peer's address is always the one its network records for its name |
| StaleReads.AllocationsGrow | pkg/controller/network/network_controller.go:148-173 | in every history allocation names are unique and later allocations extend earlier ones |
| StaleReads.CommitsStick | pkg/controller/peer/peer_controller.go:311-348 | a commit based on old lists never moves a placed peer nor changes an address |
| StaleReads.AtomicIsNext | pkg/controller/peer/peer_controller.go:280-383 | reconciles that read the current state are a special case, so the safety results hold for atomic runs too |
| StaleConvergence.ReachableInv | pkg/controller/network/network_controller.go:155-173 | in every state that reconciles with arbitrarily old reads can reach from empty statuses: a peer is unplaced or at home, unaddressed or at its home address, and each allocation is that of a placed peer with its home address |
| StaleConvergence.Confluence | pkg/controller/peer/peer_controller.go:280-383 | wherever old reads lead, a state in which no up-to-date reconcile writes is the closed form of the specs: network, address, allocations up to order, and every computable list |
| StaleConvergence.AddressesDistinct | pkg/controller/network/network_controller.go:197-216 | in any of these reachable states: if rules hold distinct addresses and each is the first match of at most one peer, no two peers of a network share an address |
| StaleConvergence.PlacedPeersAllocate | pkg/controller/network/network_controller.go:162-173 | whatever lists a network reconcile reads, no peer it sees in the network meets the allocation error, and the list it computes, and stores if accepted, records for that peer the address of the first matching rule |
| StaleConvergence.RunIsExecution | pkg/controller/peer/peer_controller.go:280-383 | every run of reconciles that read the current state is one of these executions |
| StaleWrites.ListWritesBounded | pkg/controller/peer/peer_controller.go:350-377 | with old reads, as long as a reconcile lists peers no older than the object it read, the list of a peer is written at most 2n-1 times |
| StaleWrites.BoundedWrites | pkg/controller/peer/peer_controller.go:311-377 | under the same condition n peers cause at most 2n(n+1) writes in any execution with old reads from empty statuses |
| StaleWrites.BoundedRunWrites | pkg/controller/peer/peer_controller.go:311-377 | so do all runs of reconciles that read the current state, from empty statuses |
| StaleConvergence.UnjammedList | pkg/controller/peer/peer_controller.go:166-189 | a peer that is not jammed rests with its final list, or with none when that cannot be computed, whatever was read on the way |
| StaleConvergence.ListDeterminedIffNotJammed | pkg/controller/peer/peer_controller.go:166-189 | the resting list of a peer is the same in all executions with old reads if and only if the peer is not jammed |
| Watch.PeerRequestsExact | pkg/controller/network/network_controller.go:88-114 | a written peer puts just itself and the listed network it was or is in into the queue |
| Watch.NetworkRequestsExact | pkg/controller/peer/peer_controller.go:97-120 | a written network puts just itself and the peers in it into the queue |
| Watch.WatchEventsSettle | pkg/controller/peer/peer_controller.go:57-148 | once no request in the queue fed by the watch handlers would change anything, networks, addresses and allocations are the closed form, also where failing reconciles are retried forever; the cluster is then at rest if and only if the lists are final too |
| Watch.QueueEmptiesExact | pkg/controller/peer/peer_controller.go:166-189 | from empty statuses the queue can run empty if and only if every peer that gets an address has an endpoint that splits |
| Watch.HomesSplitRunsEmpty | pkg/controller/peer/peer_controller.go:57-148 | it is then empty after at most n + m + (3n(n+1)+n)(n+3) requests of n peers and m networks, in any order |
| WatchLists.ListSettlesExact | pkg/controller/peer/peer_controller.go:64-88 | watch events alone bring the computable list of a peer to its final contents in every order of service if and only if that peer can be linked to nobody |
| WatchLists.WatchConvergesExact | pkg/controller/peer/peer_controller.go:64-88 | they bring the cluster to rest in every order of service if and only if no peer with a computable list can be linked to anyone |
| WatchLists.EmptyQueueRestsExact | pkg/controller/peer/peer_controller.go:64-88 | every run that empties the queue ends at rest if and only if the queue cannot run empty at all or no peer with a computable list can be linked to anyone |
| Watch.QueueRunsEmpty | pkg/controller/peer/peer_controller.go:57-148 | if every endpoint splits, the same bound on served requests holds from any statuses |
| Witnesses.QueueDrainsTooEarly | pkg/controller/peer/peer_controller.go:64-88 | two peers for which the queue runs empty although one of them would still list the other |
| Witnesses.JammedExists | pkg/controller/peer/peer_controller.go:166-189 | two listening peers and one without an endpoint: the list of the first depends on timing |
| Witnesses.StrayBindingMissed | pkg/controller/peer/peer_controller.go:126-148 | a binding that names another network changes a list, and its handler does not request that peer |
| Witnesses.NewKeyMissed | pkg/controller/peer/peer_controller.go:64-68 | a new key of one peer changes the list of another |
| Witnesses.WaitingPeersMissed | pkg/controller/peer/peer_controller.go:97-120 | creating a network, giving it its first rule, and deleting one of two that contend: each changes what a waiting peer does without requesting it |
| Witnesses.Ipv6PrintersDisagree | pkg/controller/guardlet/peer_controller.go:96-100 | `[::1]:8` splits, is printed as `::1:8` in the arguments, and reads back differently from the file |
| Witnesses.MaskedPrintersDisagree | cmd/mkconf/main.go:104 | an own address with the mask 24 makes the two printers disagree |
| Witnesses.EmptyMaskReadDifferently | pkg/controller/peer/peer_controller.go:219-226 | peer controller and guardlet read different hosts out of an address that ends in a slash |
| Witnesses.VanishedPeerKept | pkg/controller/network/network_controller.go:178-188 | the entry of a vanished peer is not in the built list but stays stored |
| Witnesses.EmptyGrant | pkg/controller/network/network_controller.go:207-210 | a matching rule without an address grants the empty one |
| Triggers.BindingChangeCovered | pkg/controller/peer/peer_controller.go:126-148 | if every changed binding, old or new, selects peers of its own network only, each peer whose list changes is requested for one of them, also when a binding moves to another network |
| Triggers.BindingCoverageExact | pkg/controller/peer/peer_controller.go:126-148 | creating, editing or deleting bindings requests all affected peers if and only if every peer on a computable list whose routes change is in a network that one of the bindings, old or new, names |
| Triggers.BindingCreationExact | pkg/controller/peer/peer_controller.go:126-148 | for one binding with routes that is created or deleted: if and only if every selected peer on a computable list is in the network it names |
| Triggers.AffectedPeerRequested | pkg/controller/peer/peer_controller.go:97-120 | a peer that reconciles differently after a network change is requested if and only if it has a network already |
| Triggers.NetworkCoverageExact | pkg/controller/peer/peer_controller.go:97-120 | creating, changing or deleting a network requests every affected peer if and only if no waiting peer would be placed differently |
| Triggers.CreationMissesWaitingPeers | pkg/controller/peer/peer_controller.go:108-117 | a peer that a newly created network would take is not requested |
| Triggers.PeerChangeCovered | pkg/controller/network/network_controller.go:88-114 | every network that allocates differently after a peer change is requested for the old or the new version of a changed peer |
| Triggers.OwnRequestSuffices | pkg/controller/peer/peer_controller.go:64-68 | a change to a peer changes no other list if and only if every other peer whose list is otherwise computable makes the same of the old and the new version: the same entry, none, or a failure |
| Reachability.RoutesToUnique | README.md:385-410 | a longest-prefix lookup has at most one result |
| Reachability.ContainsBlock | README.md:385-410 | a prefix contains the block of addresses that begins at the multiple of its size |
| Reachability.DirectExact | pkg/controller/peer/peer_controller.go:203-213 | a linked member is looked up directly if and only if no linked peer that is listed after it carries a route to just its address |
| Reachability.DetourExact | README.md:385-410 | a member that cannot be connected is looked up at the hub if and only if the hub's longest route to it is longer than every other linked peer's, or as long and listed last |
| Reachability.DeliveryExact | README.md:385-410 | two members reach each other, directly when they can be connected and else through a listening hub, with each receiver accepting the source address, if and only if all these lookups are clear |
| Reachability.HubReachability | README.md:385-410 | with a listening hub that carries the longest route to every other member, any two members reach each other, also beside an exit node with a default route |
| Scenario.ServerIsHub | README.md:385-403 | the guide's server with a subnet route, and two roaming clients, meet the conditions for a hub |
| Scenario.ServerIsHubBesideExit | README.md:385-410 | it stays the hub when one of the clients offers a default route |
| Scenario.ClientsMeetAtServer | README.md:385-410 | the two clients reach each other in two hops |
| EndToEnd.FairRoundsDeliver | pkg/controller/peer/peer_controller.go:280-383 | after four fair rounds from empty statuses, the lists stored for two members of a network with a hub carry traffic both ways |
| EndToEnd.RestDelivers | pkg/controller/peer/peer_controller.go:280-383 | the same at rest after any execution with old reads |
| EndToEnd.InstalledIsFinal | pkg/controller/guardlet/peer_controller.go:82-111 | at rest the guardlet's arguments read back to the closed form of the specs |
| EndToEnd.RestInstalls | pkg/controller/guardlet/peer_controller.go:82-111 | the same at rest after any execution with old reads |
| Text.RejoinExact | pkg/controller/guardlet/peer_controller.go:96-100 | host, colon and port give the endpoint back if and only if the host had no brackets |
| Text.SplitHostPortExact | pkg/controller/guardlet/peer_controller.go:96-100 | an endpoint splits into a host and a port if and only if it is the two around a colon, both free of colons and brackets, or such a port after a bracketed host; a second colon without brackets is refused |
| Text.DecodeListExact | pkg/controller/guardlet/peer_controller.go:102-106 | a joined list reads back if and only if no entry holds a comma and the list is not one empty entry |
| Guardlet.BuildPeerCfg | pkg/controller/guardlet/peer_controller.go:90-107 | an error if and only if the key is empty or an endpoint is given that does not split; else keyword and value for the key, for the endpoint if and only if there is one, for the allowed list if and only if it is not empty, each at its place |
| Guardlet.BuildCfgArgs | pkg/controller/guardlet/peer_controller.go:82-111 | an error if and only if the own endpoint does not split or some listed peer cannot be printed; else interface, port and key file first, then the peers in order |
| Samples.ArgumentsPrinted | pkg/controller/guardlet/peer_controller.go:82-111 | the arguments for a server and a roaming client, which has no endpoint argument |
| Guardlet.PrintedReads | pkg/controller/guardlet/peer_controller.go:82-111 | printed arguments read back to interface, port, key file and every peer in order, whatever the keys spell |
| Guardlet.RoundTripExact | pkg/controller/guardlet/peer_controller.go:82-111 | they read back to the peers as listed if and only if no endpoint is bracketed and every allowed list is printable |
| Guardlet.PrinterInjective | pkg/controller/guardlet/peer_controller.go:82-111 | such statuses that print alike agree in everything but peer names |
| Guardlet.ComputedPrints | pkg/controller/guardlet/peer_controller.go:84-100 | a computed status fails to print if and only if the own endpoint no longer splits or a listed key is empty |
| Guardlet.LocalAddress | pkg/controller/guardlet/peer_controller.go:138-146 | the part before the first slash, and the address with mask 32 added only if it had none |
| Guardlet.HostsAgreeExact | pkg/controller/peer/peer_controller.go:219-226 | the peer controller and the guardlet read the same host out of an address if and only if its first slash is not its last character |
| Mkconf.GenerateConf | cmd/mkconf/main.go:90-120 | the rendered template for the peer; an error if and only if its own endpoint does not split |
| Mkconf.TextIsLines | cmd/mkconf/main.go:135-149 | the template renders to these whole lines, with an Endpoint line only for a non-empty endpoint |
| Samples.FilePrinted | cmd/mkconf/main.go:90-149 | the file for the same peer, line by line |
| Mkconf.ConfReads | cmd/mkconf/main.go:90-149 | the text reads back to port, address with mask 32, private key and every peer in order if and only if none of them holds a newline |
| Mkconf.OneLinedAgree | cmd/mkconf/main.go:90-149 | without newlines, arguments and file give the same port, the same peers if and only if no listed endpoint is bracketed, and the same own address if and only if it had no mask |
| Mkconf.PrintersAgreeExact | cmd/mkconf/main.go:90-149 | the file says just what the arguments say if and only if nothing holds a newline, no listed endpoint is bracketed and the own address has no mask |
| Mkconf.ComputedPrintersAgree | cmd/mkconf/main.go:95-109 | for a computed list the same, with the brackets looked for in the endpoints of the listening neighbours |

## Left out

- Convergence.Confluence: peer lists are claimed only where the final list is computable; for the others Divergence.ListDeterminedIffNotJammed says exactly which are determined.
- Convergence.FourRoundsConverge: assumes a schedule with four rounds, as periodic resync gives; what watch events alone achieve is Watch.WatchEventsSettle.
- Convergence.PruneIsIdentity: for reconciles that read the current state only; with an old peer list the built list can lack entries that are stored.
- Watch.WatchEventsSettle: served reconciles read the current state, and users change nothing meanwhile; route bindings are then fixed, and what their handler requests at the start is among the requests for all peers.
- StaleReads.ControllersAgree: assumes that networks are not deleted, since the recorded address goes with the network.
- Reachability.DeliveryExact: lookups are those after one `wg set` of the whole list, where a prefix given twice belongs to the peer named last; peers that only an earlier call configured are not considered.
- StaleWrites.BoundedWrites: assumes that a reconcile lists peers no older than the object it read; with older lists a peer could alternate between two of them.
- The list of route bindings is read once per reconcile here; the code reads it again for every neighbour.
- Failed reads and lists of the API client are steps that change nothing; their retries are not modelled.
- The subnet of a network and the address passed to the mesh computation are unused by the code and here.
- Go's difference between a nil and an empty slice: neither survives storage.
- Addresses outside the subnet, which the code does not check.
- Manager, flags, scheme and watch wiring, logging, events, generated deep copies, and the webhook packages.
- The API server and cache beyond versions and old reads.
- The guardlet's commands, interfaces and existing addresses; only the arguments and addresses it computes are modelled.
- IPv6 prefixes in routing, which the code does not support either.
