# RoutWire, verified

RoutWire's `meshd` is a serverless WireGuard mesh daemon, and the repository
also carries the chat engine its store comes from. Nobody coordinates: every
node publishes a sealed, numbered record under one shared key of a store whose
values expire, reads everybody else's, and reconciles its kernel (WireGuard
peers, NAT rules) to what it read. This project models those reconcilers in
Dafny and proves what they promise.

- **Roster** (`MockStore`, `ReliableStore`, `Names`, `Record`, `Roster`,
  `RosterProtocol`). The TTL store is a class with in-place compaction, proved
  to refine its own call history. Folding what was read is a homomorphism from
  concatenation to merge. The protocol is a state machine over any number of
  daemons that start, restart, draft, put and re-put, while others read,
  outsiders write and the clock advances. `FetchSeesLatestPosts` holds in
  every reachable world. That a restart's seed beats everything posted before
  is proved, not assumed.
- **Tick** (`Overlay`, `Addresses`, `Peers`, `Device`, `Plans`, `Daemon`,
  `Mesh`). The kernel device, its roaming peers and the passing of time are
  driven by an arbitrary environment. Every device call of a Tick is recorded in a ghost log, and the
  results speak about that log: no Apply touches a live session, how a race
  may end, how many Applies there are, which peers are left.
- **Firewall** (`Router`, `SpokeNat`, `Spokes`). Tracking and the kernel's
  rule list stay in step over all runs with arbitrary command failures; what a
  run leaves behind is characterised exactly. The daemon's second layer of
  tracking, and the spoke file beneath it, are proved on top.
- **Room** (`Envelope`, `Window`, `Room`, `StableSorting`). Once-only delivery
  over all runs, the rolling window, and messages carried past any number of
  TTLs by refreshing.

## How to read the model

Classes stand for the objects the code updates in place. Whatever the code
asks of the outside world is a parameter: `Weather` functions answer the n-th
store or device call (how long it took, whether it failed, which values were
visible, where each peer has roamed), `fails` decides which firewall commands
fail, `NetLib` stands for Go's `net` functions. Store call, device call or
firewall command number n is also entry n of a log, so the logs say exactly what
was asked and what the world made of it. What others put into a shared store,
or read from it, between a room's polls and in the pauses of a FetchStable is a
parameter as well (`Foreign`). Nothing is assumed about these unless a contract
says so, so each result is for every environment. A `for` over a Go map picks
keys in an arbitrary order.

Cryptography is symbolic: a box opens only under its own key, a signature
verifies only over the body it was made for, key derivation is injective in
PSK and normalized name, deterministic sealing uses a digest of the text as
its nonce, and JSON round-trips.

What the code itself needs, and where it appears:

- Ticks run one at a time. `cmd/meshd/main.go:295-305` starts `Run` beside the
  first `Tick` without a lock; the methods here are sequential.
- The clock is monotone, after the epoch and before the year 2262 (`Monotone`,
  `TWO_63`). `ClockRunningBackLoses` shows why the first matters.
- One process per name, and no two sequence numbers in one nanosecond
  (`RosterProtocol.Enabled`).
- The nodes themselves are the only ones to put genuine records under the
  roster key; others may write anything else there (`RosterProtocol.Enabled`).
- Spoke overlay addresses are pairwise distinct (`DistinctIPs`);
  `DistinctSpokeIPsIff` says when they are, `CollisionLosesRule` what happens
  when they are not.
- Roster names are not assumed to be normalized. `NewDaemon` normalizes its own
  name (`internal/mesh/daemon.go:80-84`), but a record under another spelling
  passes `VerifyBinding`, because the derivation normalizes
  (`RespelledNameSharesKey`), and is then a second plan for the same WireGuard
  key. The results about sessions are stated per key for that reason.
- No other process edits the NAT list, and none edits the spoke file while a
  Tick runs (between Ticks it may). `iptables -C` answers truthfully.
- The overlay CIDR's text has no `|` in it (it is a printed `net.IPNet`).

Where comments and code disagree, the code is modelled: `nextSeq`'s comment
says a process starts from the unix time, but `NewDaemon` seeds it with
nanoseconds (`internal/mesh/daemon.go:109`), which is what makes a restart
safe; `OverlayIP`'s comment says the address comes from the public key, the
code hashes the private one (`internal/mesh/crypto.go:120-133`); `AnnounceNAT`
promises that all rules are removed on `Close`, which holds exactly when the
world fails no announcement or closing delete (`RunAndClose`).

## Model

| member | source | states |
|---|---|---|
| `MockStores.ListedExactlyWhenPut` | internal/engine/mockstore.go:42-111 | Under any clock, a read lists a value exactly once if a Put of it still stands (not rewritten, deleted or purged since) and is not due, and otherwise never |
| `MockStores.SurvivesByLastWrite` | internal/engine/mockstore.go:42-111 | With a monotone clock that is: the last Put or Delete of the value is a Put less than a TTL ago, in both directions |
| `MockStores.PutKeepsAlive` | internal/engine/mockstore.go:55-72 | Putting a value again only extends its life |
| `MockStores.ClockRunningBackLoses` | internal/engine/mockstore.go:97-111 | A concrete history in which a clock running back loses a value whose last write says it is live |
| `MockStores.ReplayExpiry` | internal/engine/mockstore.go:42-111 | After any history every key's entries are distinct values, each dated by the Put that still stands |
| `MockStores.CompactLive` | internal/engine/mockstore.go:97-111 | Compaction over the shared array keeps exactly the live entries, in order, losing and repeating none |
| `MockStores.CompactWithout` | internal/engine/mockstore.go:75-87 | The same for deletion |
| `MockStores.Renew` | internal/engine/mockstore.go:55-72 | The search loop redates an existing value in place or appends a new one |
| `MockStores.MockStore.constructor` | internal/engine/mockstore.go:28-40 | A non-positive TTL becomes ten minutes; the store starts empty |
| `MockStores.MockStore.Purge` | internal/engine/mockstore.go:97-111 | Drops the expired entries of one key, and the key when none is left |
| `MockStores.MockStore.Get` | internal/engine/mockstore.go:42-51 | Lists each surviving value once and nothing else, in terms of the history alone |
| `MockStores.MockStore.Put` | internal/engine/mockstore.go:55-72 | Keeps the contents equal to the replay of the history |
| `MockStores.MockStore.Delete` | internal/engine/mockstore.go:75-87 | Keeps the contents equal to the replay of the history |
| `ReliableStores.RawStore.Put` | internal/engine/store.go:20-25 | Accepted exactly when the world does not fail this call; an accepted Put is stored, a refused one exactly when the world delivers it all the same |
| `ReliableStores.RawStore.Sleep` | internal/engine/store.go:124-133 | Ends early exactly when the context is done |
| `ReliableStores.RawStore.Get` | internal/engine/store.go:20-25 | An error exactly when the world fails this call; otherwise, once each, exactly the surviving values visible at that moment |
| `ReliableStores.ReliableStore.Confirm` | internal/engine/store.go:106-117 | True exactly when a read succeeded and showed the exact value |
| `ReliableStores.ReliableStore.Attempt` | internal/engine/store.go:80-104 | One Put and, only if accepted, one confirming read |
| `ReliableStores.ReliableStore.Publish` | internal/engine/store.go:80-104 | The calls made are exactly those of the outcome: failed attempts each followed by a whole sleep, then either a read that shows the value (success, and nothing else is), or the last of exactly max(0, maxRetries)+1 attempts failing at the Put or at the confirmation (two error kinds), or a sleep that ended early with retries left (cancelled); nothing but this value is put, and an accepted Put is in the store |
| `ReliableStores.PublishEnds` | internal/engine/store.go:80-104 | In any such run of calls: one Put per attempt, and success exactly when some read showed the value |
| `Names.NormalizeFixedPoints` | internal/mesh/crypto.go:45-47 | Normalization reaches exactly the trimmed lower-case strings and is the identity on exactly those |
| `Names.NormalizeIdempotent` | internal/mesh/crypto.go:45-47 | Normalizing twice is normalizing once |
| `Names.ValidIsNormal` | internal/mesh/crypto.go:31-47 | A name that validates is already normalized |
| `Names.NormalizeReads` | internal/mesh/crypto.go:45-47 | What white space surrounds, however much and of whatever kind, is left in lower case, character by character |
| `Names.ValidMatches` | internal/mesh/crypto.go:31-43 | A name is valid exactly when it is 1 to 32 letters a to z, digits and hyphens |
| `Records.SealedRecordRoundTrip` | internal/mesh/record.go:45-101 | What a validly named node signs and seals opens, verifies and binds to exactly that record |
| `Records.GenuineIsBound` | internal/mesh/record.go:59-101 | A value the fold can accept is boxed under the PSK, signed over this very body by the key derived for its name, and claims that name's address |
| `Rosters.FoldHomomorphism` | internal/mesh/roster.go:68-126 | Folding a concatenation is merging the folds, including that the first seen wins a tie |
| `Rosters.FoldPicksFirstHighest` | internal/mesh/roster.go:70-87 | For every name that occurs the fold holds the first record of highest Seq, and no other name |
| `Rosters.OrderIrrelevantIffTieFree` | internal/mesh/roster.go:70-87 | The fold is the same for every order of the values exactly when no two different records of one name tie for its highest Seq |
| `Rosters.SameRecordsSameFold` | internal/mesh/roster.go:70-87 | Without such ties duplicates do not matter either |
| `Rosters.ReadingsAsOne` | internal/mesh/roster.go:95-126 | With one cutoff, what several reads accept is what one read of all their values accepts |
| `Rosters.Roster.constructor` | internal/mesh/roster.go:27-39 | Our own name is normalized |
| `Rosters.Roster.FoldValues` | internal/mesh/roster.go:68-88 | The loop over the values computes the fold of the accepted records |
| `Rosters.Roster.Fetch` | internal/mesh/roster.go:63-89 | One read, folded with the cutoff of the moment it came back; an error exactly when the world failed it; what it folds is the visible part of what the store held |
| `Rosters.MergeInto` | internal/mesh/roster.go:104-115 | The loop over one view, in any order, computes the merge |
| `Rosters.Roster.FetchStable` | internal/mesh/roster.go:95-126 | Exactly as many reads as the context allows out of max(1, attempts), while others put and read anything in the pauses, each failing when the world fails it and otherwise showing the visible part of what the store, others' puts included, held at its moment; the result is the single-pass fold of what all the reads that succeeded accepted, each at the cutoff of its moment; an error exactly when that is empty, a read failed, and it was not a pause that ended the loop |
| `Rosters.MergeRead` | internal/mesh/roster.go:104-115 | One more read is one more merge, and a failed one changes nothing |
| `Rosters.SortedNames` | internal/mesh/roster.go:129-136 | Every name exactly once, strictly ascending |
| `Rosters.StringBeforeIs` | internal/mesh/roster.go:129-136 | Ascending is the order by the first difference, a prefix first |
| `RosterProtocol.NextSeqGrows` | internal/mesh/daemon.go:172-178 | Sequence numbers strictly grow and never outrun the nanosecond clock |
| `RosterProtocol.InvStep` | internal/mesh/daemon.go:172-217 | Every event keeps the protocol invariant: posts are genuine, numbers never outrun the clock, nothing stored is newer than its node's latest post |
| `RosterProtocol.RunInv` | internal/mesh/daemon.go:109-217 | The invariant holds at every point of every run |
| `RosterProtocol.RestartOutranksThePast` | internal/mesh/daemon.go:109-178 | In every reachable world, what a node drafts next outranks everything ever posted under its name, across restarts |
| `RosterProtocol.PartialReadIsSound` | internal/mesh/roster.go:63-89 | However partial the read: nobody without a current post is reported, nothing beyond the latest post is, and seeing the latest post is enough to report exactly it |
| `RosterProtocol.FetchSeesLatestPosts` | internal/mesh/roster.go:63-89 | In every reachable world a full read gives exactly the other nodes whose most recent post is unexpired and stamped, in whole seconds, at most 86400 ago, each with exactly that record |
| `RosterProtocol.ReadForADay` | internal/mesh/roster.go:63-89 | In any run: what a node drafts at t and puts at p, with no later post, is in a full read by another exactly while now < p + ttl and the clock's second is at most 86400 after that of t; so surely up to 24 hours after t and surely not from a second later on; what is read has the name, address, port, candidates and announcements drafted |
| `RosterProtocol.FetchInWorld` | internal/mesh/roster.go:63-89 | The Fetch method itself, over a store in the state of a reachable world: its view is sound there, and exact if the answer missed nothing |
| `RosterProtocol.StableFetch` | internal/mesh/roster.go:95-126 | Several partial reads in different worlds: what is reported was current in one of them, is never newer than the latest post in the end nor older than any latest post a read showed, and is exactly the latest post once a read showed that |
| `RosterProtocol.StableFetchInRun` | internal/mesh/roster.go:95-126 | The same for moments of one run with anybody posting in between |
| `RosterProtocol.FetchStableInWorld` | internal/mesh/roster.go:95-126 | The FetchStable method itself, from the state of a reachable world, while others go on posting and reading between its reads: in every run of the protocol that does to the store what they did, each entry was current at one of the reads and no newer than the latest post at the end, and every node current at a read that missed nothing is there with nothing older than its latest post then, and with exactly that unless it has posted again |
| `RosterProtocol.AnythingFitsAPause` | internal/mesh/roster.go:114-120 | Whatever any run of the protocol does to the store, others' puts and reads in a pause can do |
| `RosterProtocol.QuietMesh` | internal/mesh/roster.go:95-126 | If nobody does anything in the pauses there is such a run, and in it nobody's latest post changes |
| `RosterProtocol.AcceptedNoNewer` | internal/mesh/roster.go:95-126 | Whatever was accepted in one world is no newer than the latest post in any later one, and equal in number only if it is that post |
| `Overlay.OverlayInsideCidr` | internal/mesh/crypto.go:119-138 | There is an address exactly in IPv4 blocks up to /30, and it lies inside the block, for /0 to /30 and any base |
| `Overlay.OverlayHostPart` | internal/mesh/crypto.go:119-138 | Its host bits are those set in the base or in the hash |
| `Overlay.OverlayCollisions` | internal/mesh/crypto.go:119-138 | Two nodes collide exactly when their hashes agree on the host bits that the base leaves clear |
| `Overlay.CanonicalOverlayCollisions` | internal/mesh/crypto.go:119-138 | For a canonical CIDR: exactly when the hashes agree on the host bits |
| `Overlay.SlashZero` | internal/mesh/crypto.go:131-131 | At /0 the 32-bit shift overflows and the subtraction wraps to the all-ones mask |
| `Overlay.PrivateIsPrefixMembership` | internal/mesh/peers.go:111-125 | An address in its four bytes, or in the sixteen of an IPv4-mapped one (section 2.5.5.2 of RFC 4291), is private exactly when it lies in the blocks of section 3 of RFC 1918 or in 100.64.0.0/10 (section 7 of RFC 6598); no other is |
| `StableSorting.StableSortSorts` | internal/mesh/peers.go:82-84 | The specification of the sort is sorted, a permutation, and keeps tied elements in order |
| `StableSorting.StableSortUnique` | internal/mesh/peers.go:82-84 | It is the only stable sort of its input |
| `StableSorting.SliceStable` | internal/engine/window.go:14-42 | Sorting in place gives exactly that |
| `Peers.TwoScoreSort` | internal/mesh/peers.go:68-84 | Sorting stably by two scores is partitioning by score |
| `Peers.SortIsRanked` | internal/mesh/peers.go:68-84 | Scoring and sorting puts the reflexive candidates first across sites and last otherwise, each part in its original order |
| `Peers.DropUndialable` | internal/mesh/peers.go:52-67 | The in-place filter keeps exactly the dialable candidates, in order |
| `Peers.OrderEndpoints` | internal/mesh/peers.go:16-80 | Across sites (the hosts of the two lists' first reflexive candidates are there and differ) exactly the private host candidates are gone and reflexive ones come first; otherwise it is a permutation with reflexive ones last; each kind in the order advertised |
| `Peers.DialOrderMembers` | internal/mesh/peers.go:16-80 | A candidate is dialled exactly when advertised and not a private host address across sites, both in terms of the candidates; within a site it is a permutation of what was advertised |
| `Peers.DialList` | internal/mesh/daemon.go:513-530 | Computes the dial order with the kernel's observation before it when that adds something usable |
| `Peers.OrderedForIsSafe` | internal/mesh/daemon.go:513-530 | One address is added, at the front, exactly when the kernel observed one with an IP that is not link-local, that no candidate in the order has and, across sites, is not private; then across sites no private address is dialled unless it was advertised as something other than a host address |
| `Devices.DiffIsSound` | internal/mesh/device_linux.go:94-137 | Any prefix of the diff keeps every wanted peer's session, handshake and unasserted endpoint; the whole diff leaves exactly the wanted peers at the asserted endpoints |
| `Devices.Device.BuildDiff` | internal/mesh/device_linux.go:94-137 | An update for every wanted peer and a removal for every other, nothing else, of known length, asserting the last endpoint given |
| `Devices.BuildUpdates` | internal/mesh/device_linux.go:107-124 | One update per desire with AllowedIPs, and the set of wanted keys |
| `Devices.AddRemovals` | internal/mesh/device_linux.go:125-133 | One removal per stale peer, in any order, touching no update |
| `Devices.Device.Apply` | internal/mesh/device_linux.go:94-137 | Accepted exactly when the interface is there and the kernel gets through the whole diff; sound wherever it stops; the log stays a true run of the kernel |
| `Devices.Device.Handshake` | internal/mesh/device_linux.go:169-180 | The kernel's handshake for the peer at that moment, none if the interface or the peer is missing |
| `Devices.Device.Endpoint` | internal/mesh/device_linux.go:184-195 | The kernel's endpoint for the peer at that moment, none if the interface or the peer is missing |
| `Devices.RanSnoc` | internal/mesh/device_linux.go:94-195 | Each call follows on the last: only roaming and time have changed the kernel in between, and its answer is what kernel and world make it |
| `Plans.AssertedNoneIff` | internal/mesh/device_linux.go:109-123 | A list of desires asserts nothing for a key exactly when no desire that counts gives it an endpoint |
| `Plans.LivePeerLeftAlone` | internal/mesh/daemon.go:224-245 | An Apply built from plans leaves a key whose every plan is live as it was: endpoint, session and handshake |
| `Plans.PeersAreThePlans` | internal/mesh/device_linux.go:94-137 | An accepted Apply leaves exactly the planned keys; peers there before and after keep their session |
| `Plans.RaceGoesOn` | internal/mesh/daemon.go:267-300 | Dials in list order make a race: it goes on past skipped and silent ones and ends at a win or a refusal |
| `Plans.DialedPlanFollowsTheKernel` | internal/mesh/daemon.go:283-295 | A won plan credits and carries on with the endpoint the kernel reports, or with what was dialled if it reports none or the same; any other dial leaves the endpoint it tried |
| `Plans.SettledMore` | internal/mesh/daemon.go:246-301 | The turns of the plans, in order, account for all changes to the memory of winners |
| `Daemons.ParseCIDRs` | internal/mesh/daemon.go:419-431 | Valid entries in order of first appearance, no text twice |
| `Daemons.ParsedCIDRsKeepAll` | internal/mesh/daemon.go:419-431 | A subnet is in the result exactly when some entry parses to it |
| `Daemons.Daemon.constructor` | internal/mesh/daemon.go:58-123 | Starts from the spoke file, or from no spokes if it cannot be read, with no winners and the nanosecond seed |
| `Daemons.Daemon.NextSeq` | internal/mesh/daemon.go:172-178 | The next number, seeded with the unix time when it was zero and wrapping at 64 bits; strictly larger short of the wrap |
| `Daemons.Daemon.ReloadSpokes` | internal/mesh/daemon.go:319-329 | Takes the file's names, all storable; a read error or a missing path keeps the set in memory |
| `Daemons.Daemon.AllowedIPs` | internal/mesh/daemon.go:410-431 | The peer's valid announcements, then its overlay address |
| `Daemons.PlanAllows` | internal/mesh/daemon.go:410-431 | A plan allows exactly its peer's overlay address and, for a roster peer, the subnets that its announcements parse to |
| `Daemons.Daemon.BuildPlans` | internal/mesh/daemon.go:433-495 | One plan for each derivable roster name or spoke and for nothing else: its key, its announced subnets and address, its remembered winner, and for a roster peer the dial list of its candidates behind the kernel's own observation; no Apply |
| `Daemons.Daemon.MarkFresh` | internal/mesh/daemon.go:224-226 | Each plan is marked live exactly when its own poll showed a handshake less than the stale limit old |
| `Daemons.Daemon.PickInitial` | internal/mesh/daemon.go:227-240 | A stale peer gets its remembered winner, else its first candidate, else nothing; a live peer gets no endpoint |
| `Daemons.Daemon.TryConnect` | internal/mesh/daemon.go:552-562 | Sleeps and polls in turn until the wait is over; succeeds exactly when the last poll shows a handshake newer than the call, and none before it did |
| `Daemons.Daemon.ApplyWith` | internal/mesh/daemon.go:532-539 | One Apply of the whole state: the raced peer's desire with only its endpoint changed, everybody else's as it was |
| `Daemons.Daemon.DialOne` | internal/mesh/daemon.go:269-295 | Exactly one of: skipped, its address does not resolve; refused, the Apply failed; silent, no poll showed a newer handshake until the wait was over; won, one did, and the endpoint read right after, or the candidate if the kernel has none, is credited and remembered; in each case the plan is left with the endpoint that later Applies will assert |
| `Daemons.Daemon.RacePeer` | internal/mesh/daemon.go:267-300 | The candidates are dialled in list order up to the first win or refusal or to the end; the memory of this peer, and of nobody else, is the win, or is cleared exactly when there was none; the plan is as the last dial that was not skipped left it; nothing happens when there was nothing to dial |
| `Daemons.Daemon.AdoptLive` | internal/mesh/daemon.go:248-266 | A live peer with no remembered winner is observed once and the kernel's endpoint, if any, becomes its winner; otherwise nothing happens; never an Apply |
| `Daemons.Daemon.RaceAll` | internal/mesh/daemon.go:246-301 | Every plan has its turn as above and nobody else's memory changes; total Applies within the sum of the stale peers' list lengths; every Apply respects the live peers |
| `Daemons.Daemon.SyncNat` | internal/mesh/daemon.go:365-406 | Router and spoke tracking stay in step if the world failed no removal; a wanted spoke is untracked afterwards only if the world failed its own command; if nothing failed, the tracked spokes are the current ones, the announcements the configured ones, and the port is open in both families |
| `Daemons.Daemon.EvictStaleSpokes` | internal/mesh/daemon.go:334-361 | A spoke is dropped exactly when its poll showed a handshake at least three stale limits old, or nine minutes when there is no limit; one never connected stays; the file is rewritten only if something changed, and then holds exactly the rest |
| `Daemons.Daemon.Tick` | internal/mesh/daemon.go:192-314 | Succeeds exactly when there is a roster and the kernel accepts the first Apply, which is of exactly the marked and primed plans; on failure no NAT, spoke, file or memory change; on success peers, memory, NAT and spokes as above |
| `Daemons.LiveSessionsUntouched` | internal/mesh/daemon.go:224-300 | If every poll of a key before the first Apply found the interface there and the kernel with a handshake less than the stale limit old, every Apply of the Tick, racing ones included, asserts nothing for it and leaves its kernel entry unchanged |
| `Daemons.PlanGoesByItsPoll` | internal/mesh/daemon.go:224-301 | Each plan goes by what the kernel had at its own poll: live, no Apply gives it an endpoint; otherwise the first Apply asserts the endpoint that won last time, else the first candidate, and after a success it has been raced if it has candidates |
| `Daemons.StalePlanIsAsserted` | internal/mesh/daemon.go:224-240 | That guard is needed: the first Apply asserts an endpoint for a key as soon as one stale plan for it has one |
| `Daemons.OneApplyWhenAllLive` | internal/mesh/daemon.go:224-300 | With all peers live a Tick issues exactly one Apply |
| `Daemons.PlannedPubsDistinctIff` | internal/mesh/daemon.go:433-495 | The plans of a Tick have distinct keys exactly when no two planned names normalize alike |
| `Daemons.RespelledNameSharesKey` | internal/mesh/record.go:87-101 | A record under another spelling of a name is accepted as genuine and shares its WireGuard key |
| `Daemons.PlannedKeys` | internal/mesh/daemon.go:433-495 | The planned keys are exactly those of the derivable roster names and spokes |
| `Daemons.TickRespectsSessions` | internal/mesh/daemon.go:192-314 | For a whole Tick over any roster: its trace is of the device calls made, over the spokes its file held; it succeeds exactly when the kernel accepts the first Apply; each accepted Apply leaves exactly the keys of the fetched names and spokes, staying peers keep their sessions; what is left alone, asserted and raced is decided by the kernel's own handshakes as in the two rows above, and every turn of the race is accounted for |
| `Daemons.RunTicks` | internal/mesh/daemon.go:319-406 | Over any run of Ticks, with the spoke file edited in between: each begins where the last ended, with the file as edited, loads what that file holds, handles its endpoints and succeeds exactly when the world lets its first Apply through; the router masks exactly the tracked spokes if addresses are distinct and the world failed no removal; if it failed nothing and the last Tick succeeded, those are the spokes it had loaded |
| `Daemons.EvictedSpokeIsGone` | internal/mesh/daemon.go:319-406 | After the next successful Tick, with any failing ones in between, an evicted spoke has a peer exactly when the roster names it in some spelling, and no NAT rule if the world failed no removal; each Tick succeeds exactly when the world lets it |
| `Mesh.MeshTick` | internal/mesh/daemon.go:192-314 | FetchStable from a reachable world, with other nodes posting between its reads, and the Tick on its result: in every run of the protocol that explains the store, the peers afterwards are spokes or nodes current at one of the reads, and include every valid spoke and every node current at a read that missed nothing; the spokes are those the file held |
| `Mesh.PostedIsPlannable` | internal/mesh/daemon.go:443-452 | A node that has posted derives a key and an address, so no Tick leaves it out |
| `Routers.NoLeaksIffDeletesSucceeded` | internal/mesh/router.go:752-813 | A rule is left behind without tracking exactly when some announcement or closing delete failed |
| `Routers.WantedSpells` | internal/mesh/router.go:740-746 | The wanted keys are exactly the IPv4 announcements paired with the overlay, and each key spells its rule |
| `Routers.LinuxRouter.AddSource` | internal/mesh/router.go:705-727 | A new source is one insert, tracked exactly when the world lets it through; a tracked one costs no command; not IPv4 is refused |
| `Routers.LinuxRouter.RemoveSource` | internal/mesh/router.go:775-792 | A tracked source is one delete, forgotten exactly when the world lets it through; anything else costs no command |
| `Routers.LinuxRouter.AnnounceNAT` | internal/mesh/router.go:736-773 | From any prior tracking: one delete for each tracked key no longer wanted, then one insert for each wanted key not tracked, and nothing else, so none on a repeat; if no command fails the tracked keys are exactly the wanted ones |
| `Routers.LinuxRouter.EnsurePort` | internal/mesh/router.go:683-703 | In each address family the accept is inserted when a probe misses it and the world lets the insert through; nothing else changes, and a failure is not reported |
| `Routers.LinuxRouter.Close` | internal/mesh/router.go:794-818 | Deletes each tracked rule once and forgets it whatever came of that; what is left is the list found at the start under the rules whose deletes failed; reports success exactly when none of its NAT deletes did; then deletes one matching port rule per family, whoever put it there |
| `Routers.InputRestoredIff` | internal/mesh/router.go:814-818 | Closing restores an INPUT list exactly when the port rule was ours or absent and its delete went through, or a rule found at the start could not be deleted |
| `Routers.Serve` | internal/mesh/router.go:705-792 | In any run of requests, with any commands failing, each request issues exactly the commands that those so far call for; if no command fails, the tracked sources and announcements are those asked for in the end |
| `Routers.RunAndClose` | internal/mesh/router.go:705-813 | For any sequence of requests and any failing commands: each request's commands as above; before Close the NAT list is one rule per key that the accepted commands leave tracked, and what has leaked, on top of the initial list, and without failures those are the keys asked for; Close deletes each of them once; the final list is the initial one, as a sequence, exactly when the world failed no announcement or closing delete |
| `SpokeNat.SpokeTracker.RemoveDeparted` | internal/mesh/daemon.go:390-395 | Departed spokes are forgotten regardless; the router drops a subset of their rules, all of them if the world failed no removal |
| `SpokeNat.SpokeTracker.AddArrived` | internal/mesh/daemon.go:396-405 | Every new spoke is tried: one that is not tracked and masked afterwards had its own command failed by the world |
| `SpokeNat.SpokeTracker.Sync` | internal/mesh/daemon.go:384-405 | In step before and distinct addresses give in step after when the world failed no removal, and the tracked spokes are the wanted ones but for those whose own command it failed |
| `SpokeNat.KeptSourcesSurvive` | internal/mesh/daemon.go:390-395 | With distinct addresses, dropping departed spokes never unmasks one that stays |
| `SpokeNat.CollisionLosesRule` | internal/mesh/daemon.go:384-405 | A failure-free sync ends in step exactly when no staying spoke shares its address with a departing one, unless an arriving one brings it back |
| `Addresses.DottedInjective` | internal/mesh/crypto.go:119-138 | Different overlay addresses have different texts |
| `Addresses.DottedReads` | internal/mesh/crypto.go:119-138 | The text is the four bytes in decimal, the leading one first |
| `Addresses.BytesJoin` | internal/mesh/crypto.go:119-138 | And those are the bytes of the address |
| `Addresses.DistinctSpokeIPsIff` | internal/mesh/crypto.go:115-138 | The spokes have distinct addresses exactly when no two valid ones have hashes that agree on the host bits the base leaves clear |
| `Spokes.SaveLoadRoundTrip` | internal/mesh/spokes.go:15-57 | Loading what was saved gives the same set exactly when every name is non-empty, normalized and on one line |
| `Spokes.LoadedAreStorable` | internal/mesh/spokes.go:15-33 | Whatever the file holds, only such names are loaded |
| `Spokes.LoadedFromLines` | internal/mesh/spokes.go:15-33 | From any lines, the last ended or not, exactly their normal forms are loaded, and nothing from a blank one |
| `Spokes.SpokeFile.Load` | internal/mesh/spokes.go:15-33 | The file's names; a missing file is the empty set, an unreadable one an error |
| `Spokes.SpokeFile.Save` | internal/mesh/spokes.go:36-57 | Replaces the file whole or leaves it; reads back as saved exactly for storable names |
| `Spokes.SpokeFile.AddSpoke` | internal/mesh/spokes.go:60-74 | Adds exactly the normalized name; a blank one adds nothing; one with a line break inside does not survive; fails exactly when a needed read or write does |
| `Spokes.SpokeFile.RemoveSpoke` | internal/mesh/spokes.go:77-88 | Removes exactly the normalized name; fails exactly when a needed read or write does |
| `Envelopes.MarshalDecodes` | internal/engine/envelope.go:59-127 | What is marshalled decodes to the same message |
| `Envelopes.RemarshalReproducesIffCanonical` | internal/engine/envelope.go:59-127 | Re-marshalling a decoded envelope reproduces the stored bytes exactly when they were made by Marshal |
| `Envelopes.DecimalReads` | internal/engine/envelope.go:73-75 | The digits of a sequence number read back as it, without a leading zero |
| `Envelopes.IDIdentifies` | internal/engine/envelope.go:73-75 | Two IDs are equal exactly when sender key text and sequence number are, for all strings |
| `Windows.DedupeByID` | internal/engine/window.go:47-57 | Lists, in some order, the last envelope of every ID, once |
| `Windows.DedupedCount` | internal/engine/window.go:47-57 | As many envelopes as distinct IDs |
| `Windows.KeepTop` | internal/engine/window.go:14-31 | Sorts newest first and truncates |
| `Windows.WindowKeepsNewest` | internal/engine/window.go:14-42 | min(N, count) envelopes, ascending by timestamp and sequence number; together with the omitted ones exactly the input; nothing omitted is newer than anything kept |
| `Windows.WindowByTime` | internal/engine/window.go:14-42 | By timestamp and then sequence number the window ascends, and nothing left out is newer than anything in it |
| `Windows.WindowIDsDistinct` | internal/engine/window.go:14-57 | The window's IDs are pairwise distinct |
| `Windows.FewRivalsKeepsPlace` | internal/engine/window.go:25-31 | An envelope with fewer than N others at least as new is kept |
| `Windows.ListingOrderIrrelevantIffNoTies` | internal/engine/window.go:14-57 | Windows of every size are the same for every order of the map's listing exactly when no two envelopes share timestamp and sequence number |
| `Windows.ListingOrderIrrelevantForIff` | internal/engine/window.go:14-57 | For one size N the window is, exactly when each tie has at least N newer envelopes: no tie among the kept ones or across the cut |
| `Rooms.DeliveriesStayUnique` | internal/engine/engine.go:134-168 | Delivering the unseen windowed messages that open keeps all deliveries distinct |
| `Rooms.NewContactsAreNew` | internal/engine/engine.go:136-140 | A contact is announced exactly when unknown and the sender of a windowed message |
| `Rooms.Room.Commit` | internal/engine/engine.go:126-168 | One poll's window, without reference to how it is computed: exactly the messages that open and whose IDs were not seen are delivered, in window order; exactly the senders not known are announced; seen and known grow by exactly the window's |
| `Rooms.ContactPerMessage` | internal/engine/engine.go:134-140 | A new sender is announced as often as he has windowed messages under that name |
| `Rooms.Room.Refresh` | internal/engine/engine.go:180-185 | Every message of the list is published, in order, with its retries; nothing else is written; every accepted Put is in the store |
| `Rooms.RefreshGetsThrough` | internal/engine/engine.go:180-185 | A message of the list is stored again unless the store fails every Put that is made of it |
| `Rooms.Room.Reconcile` | internal/engine/engine.go:114-187 | One poll as a whole: the read and the refresh are all its store calls; a failed read changes nothing; the refresh is of the whole window with anyMember set and else of our own messages in it; what it delivers and announces is as for Commit |
| `Rooms.ToRefreshMembers` | internal/engine/engine.go:170-179 | Exactly the windowed messages that are ours, or all of them, are refreshed |
| `Rooms.Room.Send` | internal/engine/engine.go:91-109 | Publishes under the next sequence number and our own key, with exactly the store calls of its outcome; returns an ID exactly when a read confirmed the message, which is then in the store |
| `Rooms.Room.Current` | internal/engine/engine.go:211-221 | The window's messages that open, in order |
| `Rooms.SendMany` | internal/engine/engine.go:91-109 | Sends every draft under the counter's next number, each ID returned exactly when a read confirmed that message; all IDs of a session are different for up to 2^64 messages |
| `Rooms.PollMany` | internal/engine/engine.go:114-187 | A run of polls with others at work on the store in between: the records account for every store call and the whole history; delivered, once each, are exactly the messages that open and that some poll showed, unless their ID had been seen or shown before, poll by poll and in window order; announced are exactly the senders shown who were not known, each by the first poll that shows him |
| `Rooms.PollsDeliver` | internal/engine/engine.go:114-168 | The lemma behind it, for any records of polls |
| `Rooms.PollsKeepOnce` | internal/engine/engine.go:134-168 | Over any number of polls deliveries stay distinct, and no contact is announced by two of them |
| `Rooms.RefreshAddsNothing` | internal/engine/engine.go:170-185 | Each refreshed value was among the values read, if those were canonical |
| `Rooms.PollLeaves` | internal/engine/engine.go:114-187 | What a poll does to the store: live afterwards, under any key, is exactly what would have been live without it and, if every message it refreshed had a Put accepted less than a TTL ago, those messages as marshalled |
| `Rooms.PollGainsNothingIff` | internal/engine/engine.go:114-187 | A poll adds no value to the store, and so only extends expiries, if every message it refreshes was live in it at the read as this code marshals it; when its refreshes get through within a TTL, only then |
| `Rooms.CanonicalPollGainsNothing` | internal/engine/engine.go:114-187 | So a poll adds none when all that was read had been marshalled by this code, however the refreshes go |
| `Rooms.OtherSealIsStoredTwice` | internal/engine/engine.go:114-187 | A real room and one real poll over a store holding one message sealed another way: before it the store holds that value alone, afterwards exactly two, and both decode to the message |
| `Rooms.LiveMessageIsWindowed` | internal/engine/engine.go:114-132 | A live, visible message with its ID to itself and fewer than N rivals is in the window that the poll builds |
| `Rooms.KeepsAlive` | internal/engine/engine.go:114-187 | In any run of polls that PollMany makes, less than a TTL apart and with others putting and reading anything in between: a message once put that the room refreshes, so placed or already windowed, is in the window at every poll and still stored less than a TTL after the last, unless a read failed or the store failed every Put a poll made of it |
| `Rooms.SendThenPoll` | internal/engine/engine.go:91-187 | The same from the sender's side: a message that Send returned an ID for, then polls |

## Left out

- HKDF, SHA-256, ed25519 and secretbox internals, and `cutHex40`: idealised as described above.
- The OpenDHT HTTP client, STUN, interface enumeration and UDP probing: reads are arbitrary visible subsets, candidates are inputs, handshakes belong to the environment.
- A third party putting back a genuine record it has read: the protocol model has no such event.
- nftables self-heal and the log-only warnings: they depend on kernel chain positions outside this model.
- `Forwarding` and its restore on `Close`, `CleanupFirewall`, `ApplyRoutes`: not modelled; routes stay stale by design when announcements become empty.
- The kernel's AllowedIPs and keepalive: AllowedIPs are merged and not replaced, so exactness is claimed for peer keys only.
- Private endpoints in the first Apply: a remembered private winner is still asserted across sites, so the claim is made for the dial list only.
- Peers that win a race within a Tick: later Applies of that Tick re-assert their endpoint; the claim is about peers live at the start.
- `Daemon.Run`, `Room.Run`, concurrent Ticks and concurrent edits of the spoke file: the code takes no lock.
- Configuration, CLI, YAML, service scripts and export text: field-wise logic and templates.
- Names.NormalizeFixedPoints: lowers only the letters whose lower case is ASCII; other letters stay, and no name with one is valid.
- Names.NormalizeIdempotent: the same.
- `SigningBytes`, `Envelope.Verify` and the fields of a delivered `Message`: a delivery is identified with its envelope, and whether it opens is a parameter.
- A negative window size, which makes `keepTop` panic.
- Daemons.Daemon.Tick: takes the fetched roster as an input; publishing our record is modelled in `RosterProtocol` and `ReliableStores`, and its failure does not change the rest of a Tick.
- Rooms.PollMany: within one poll a contact is announced once per windowed message of its sender, as in the code; others put and read between polls, not between the calls of one, and delete nothing.
- Routers.LinuxRouter.Close: its result covers the NAT deletes, not the nftables ones.
- Routers.LinuxRouter.EnsurePort: only the per-Tick check is modelled; `openPort` at start runs the same probes and inserts and fails on an error.
- Spokes.SpokeFile.Save: the temporary file and rename are one atomic step that succeeds or changes nothing.
