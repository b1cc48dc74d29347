# A verified model of the relay's registry and federation

The relay keeps an in-memory registry of which agents offer which skills, shares it with other relays by pull and
push, and serves it through gRPC and REST. Around that sit a per-peer backoff, a circuit breaker, a policy engine and a
paginated directory. This project models that behaviour in Dafny 4.11 and proves what it guarantees. Run
`dafny verify dfyconfig.toml` to check everything.

## How it is built

- **Code with state is code with state here.** `RegistryStore.Registry`, `Federation.Server`, `Federation.Federation`,
  `Gate.GRPCServer`, `Breaker.CircuitBreaker`, `BreakerRegistries.BreakerRegistry` and `Policy.Engine` are classes with
  the fields of the originals. Their methods have the originals' branches and loops, and each is proved to change the
  state exactly as a specification function says. What those functions mean is proved beside them in terms of the
  fields alone: which records, skills, tags, instants and origins there are before and after (`UnregisterKeeps`,
  `AnswersAreRight`, `StoredIsGreatest`, `AnswersAreCurrent`, `DecisionIsRight` and the methods' own contracts).
- **Runs are sequences of steps on values.** The theorems about whole runs (`Network`, `Resurrection`, `Survival`,
  `Pull`, `History`, `Backoff`, `Breaker`, `BreakerCreation`, `Gate`) use the same specification functions, so they
  speak about the methods.
  `Shipment` connects the two classes of the protocol with both models of it: records shipped by pull or push and merged
  at any later time are a run of the network model, and a request with its answer is the three steps of the pull model.
- **Nondeterminism is kept.** Map iteration picks any next key. `sort.Slice` is known only to sort, not to be stable.
  The network is the set of all snapshots ever taken, any of which may be delivered at any time, any number of times,
  or never.
- **Time** is an integer number of nanoseconds. Every clock reading is an argument of the method that makes it. Clocks
  of different relays are unrelated; each is non-decreasing and non-negative in the network and pull models.
  `uint64(now.UnixNano())` and the backoff product keep their 64-bit wrap-around.
- `filepath.Match` is an arbitrary predicate, `"*"` matching everything. A remote call is a function from the request's
  cursor to an optional response.

## Findings

- **Pull loses registrations, and `Pull.LossCharacterisation` says exactly which.** The server reads its clock after its
  snapshot, so a registration made in between falls behind the cursor undelivered. The other two ways are the limit,
  and a registration that is expired when asked for and then revived by a heartbeat. Each has a run in which it happens:
  `Pull.RaceLosesRegistration`, `Pull.CutLosesRegistration`, `Pull.ExpiryLosesRegistration`. No later pull brings such
  a registration until it is made again.
- **The backoff is lost at the 32nd consecutive failure.** The 64-bit product wraps to a negative delay
  (`Backoff.BackoffLostAt32`), so the intended spacing of k failures holds in every run if and only if k is at most 32
  (`Backoff.SpacedAsIntendedThrough32`). `Backoff.HeldBackExactly` says what every failure up to the 63rd holds back;
  beyond it the float conversion is platform-defined.
- **Merge order matters exactly when capacity is contended** (`Merge.ConvergesExactlyWhenDecided`).
- **A version that a relay has superseded can become visible there again**, because eviction forgets versions. With
  nothing more being sent, it can if and only if the network carries an older version that outlives a newer one which
  the relay would take, and the relay has or can come to have room for the peer (`Resurrection.ResurrectionExactly`).
  While all messages about a peer expire in the order of their versions, it cannot
  (`Resurrection.OrderedNeverResurrects`); the messages of a peer that registers at one relay do
  (`Resurrection.NoStaleResurrection`), those of a peer with two homes need not (`Scenarios.TwoHomesResurrect`).
- **Nothing announces a removal, and a removed agent goes on being answered elsewhere**
  (`Scenarios.RemovedAgentIsAnswered`: up to the last instant of its lease). With nothing more being sent, a relay can
  come to show it if and only if some message about it has not expired there and the relay has or can come to have room;
  with room at hand, so it is whatever is sent (`Survival.RemovedAgentSurvivesExactly`). Past the end of the leases its
  homes could last have given, no relay does (`Survival.RemovedAgentFades`).
- **`agent_count` counts mentions**, which is the number of agents exactly when no record repeats the skill
  (`Directory.CountsAgreeWithIndexes`).
- Where comments and code differ, the code is followed: an equal version is accepted only from a lower origin ID
  (internal/registry/registry.go:495 says `>=`); `AllRegistrations` returns local records only (line 420); a half-open
  breaker lets every request through (internal/resilience/breaker.go:17 says a limited number); heartbeats and partial
  unregistrations are not "updates since" for a pull (internal/registry/registry.go:542).

## Model

| member | source | states |
|---|---|---|
| `Common.SortSlice` | internal/policy/engine.go:36-38 | sorting yields some sorted arrangement of the same elements; which one among equals is not promised |
| `Common.LessAtFirstDifference` | internal/registry/registry.go:507-508 | the order on origin and peer IDs: the first difference decides, and a proper prefix comes first |
| `Records.WithoutLists` | internal/registry/registry.go:249-271 | a partial unregistration leaves exactly the skills not named |
| `SkillIndex.AddToSkillIndex` | internal/registry/registry.go:162-171 | the peer joins the sets of exactly the skills listed, duplicates included, and no set is empty |
| `SkillIndex.RemoveFromSkillIndex` | internal/registry/registry.go:174-183 | the peer leaves exactly those sets, and emptied sets are dropped |
| `SkillIndex.CoherentIndexIsUnique` | internal/registry/registry.go:95-97 | the stored records determine their index |
| `SkillIndex.FindableIffSkilled` | internal/registry/registry.go:303-306 | the index reaches every stored peer exactly when each record lists a skill |
| `RegistryStore.Registry.constructor` | internal/registry/registry.go:110-139 | zero limits and lifetime take their defaults; the registry starts empty and coherent |
| `RegistryStore.Registry.Register` | internal/registry/registry.go:187-225 | refuses exactly a new peer on a full registry; otherwise stores all given skills, name and description under the reading and its lease, touching no other record; both stores, indexes, counters and capacities stay in agreement |
| `RegistryStore.Registry.Unregister` | internal/registry/registry.go:229-280 | drops the named skills or the whole registration, keeping all six structures in agreement |
| `RegistryModel.UnregisterKeeps` | internal/registry/registry.go:233-279 | the skills that are not named stay, untouched and in order; with none named or none left the peer goes; no other record and no other field changes |
| `RegistryStore.RemoveNamed` | internal/registry/registry.go:254-264 | only the sets of listed and named skills lose the peer |
| `RegistryStore.KeepOthers` | internal/registry/registry.go:266-271 | the filtered list is the list without the named skills, in order |
| `RegistryStore.Registry.Heartbeat` | internal/registry/registry.go:347-358 | moves a known peer's expiry, expired or not, to the instant returned; every other field and every other record stays |
| `RegistryStore.Registry.RemovePeer` | internal/registry/registry.go:361-371 | forgets a peer in all structures |
| `RegistryStore.Registry.EvictExpired` | internal/registry/registry.go:456-492 | both stores keep exactly the records not past their expiry, indexes and counters following |
| `RegistryModel.EvictionForgetsExpired` | internal/registry/registry.go:460-478 | exactly the records past their expiry go from both stores, and none is altered |
| `RegistryStore.EvictFrom` | internal/registry/registry.go:460-478 | deleting while iterating, in any order, leaves exactly the unexpired records with a coherent index |
| `RegistryStore.Registry.RegisterFederated` | internal/registry/registry.go:496-540 | a stored record gives way exactly to a higher version, or to an equal one from an origin that comes earlier; a new peer is refused exactly when the store is full; no other record changes |
| `RegistryStore.IndexesFollowStores` | internal/registry/registry.go:89-103 | an index names exactly the peers whose records list the skill and keeps no empty set, records are stored under their peers, counters count |
| `RegistryStore.Registry.DiscoverBySkill` | internal/registry/registry.go:285-343 | for every iteration order the result is a legal answer over the plain stored records |
| `RegistryStore.Scan` | internal/registry/registry.go:305-339 | going through the index with early exit finds min(room, matches) distinct unskipped matches |
| `RegistryStore.HasSkill` | internal/registry/registry.go:575-585 | true exactly when some listed skill has the ID and every tag asked for |
| `RegistryStore.TagsMatch` | internal/registry/registry.go:587-594 | every tag asked for has its value, an absent tag reading as the empty string |
| `RegistryStore.Registry.GetRegistration` | internal/registry/registry.go:406-418 | a fresh local record, else a fresh federated one |
| `RegistryStore.Registry.AllRegistrations` | internal/registry/registry.go:421-433 | every fresh local record once |
| `RegistryStore.Registry.FederatedRegistrations` | internal/registry/registry.go:561-573 | every fresh federated record once |
| `RegistryStore.Registry.LocalRegistrations` | internal/registry/registry.go:543-558 | every unexpired local record registered at or after the instant, once |
| `RegistryModel.DiscoveryIsSound` | internal/registry/registry.go:285-343 | results are live, match skill and tags, and name distinct peers |
| `RegistryModel.AnswersAreRight` | internal/registry/registry.go:305-340 | every answer is a stored record, not past its expiry, from a store that was asked, with a skill that has the ID and every tag asked for; no peer twice, never more than the limit |
| `RegistryModel.LocalIsAnswered` | internal/registry/registry.go:305-318 | below the limit every live local record with such a skill is answered, and never another one for its peer |
| `RegistryModel.FederatedIsAnswered` | internal/registry/registry.go:322-340 | and every live federated one, unless a local one is answered in its place |
| `RegistryModel.RegisteredIsDiscoverable` | internal/registry/registry.go:201-217 | a registration is answered by a discovery of any of its skills and tags until it expires |
| `RegistryModel.RenewedIsDiscoverable` | internal/registry/registry.go:356-357 | so is a renewed one, for the new lease |
| `RegistryModel.DiscoveryPrefersLocal` | internal/registry/registry.go:304-340 | a live matching local record shadows the federated one, and a federated result implies that all local matches are present |
| `RegistryModel.DiscoveryIsComplete` | internal/registry/registry.go:285-343 | the number of results is min(effective limit, matching peers), all of them when they fit |
| `RegistryModel.EvictionIsInvisible` | internal/registry/registry.go:406-433 | lookups and listings at or after an eviction return the same with or without it |
| `RegistryModel.EvictionIsInvisibleToDiscovery` | internal/registry/registry.go:285-343 | the very same discovery results are possible with and without it |
| `RegistryModel.EvictTwice` | internal/registry/registry.go:456-478 | evictions compose to the latest one, so eviction is idempotent |
| `RegistryModel.EvictionCommutes` | internal/registry/registry.go:187-280 | a local operation leaves the same live records with or without an eviction just before it, if and only if it revives no expired record and its admission does not hang on the room expired records take, or the lifetime is negative |
| `Merge.BeatsIsStrictTotalOrder` | internal/registry/registry.go:500-509 | keys are ordered strictly and totally: by version upwards, then by origin downwards |
| `Merge.StoredIsBest` | internal/registry/registry.go:503-509 | a stored record beats or ties everything delivered for its peer |
| `Merge.StoredIsGreatest` | internal/registry/registry.go:500-509 | a stored record has the greatest version delivered or first held for its peer, and among those an origin than which none comes earlier |
| `Merge.CallsKeepGreatest` | internal/registry/registry.go:500-537 | the same of every sequence of calls to register federated records, stated on the stores they leave |
| `Merge.StoredKeys` | internal/registry/registry.go:510-515 | deliveries only add named peers, never beyond capacity, and all of them while there is room |
| `Merge.DeliveryTakesEffect` | internal/registry/registry.go:503-515 | after a delivery, in any place among others, a record at least as new is stored, unless the peer is new and the store is full; with room for all named peers, always |
| `Merge.AgreeOnShared` | internal/registry/registry.go:494-509 | same deliveries in any order and multiplicity: same (version, origin) for every peer both stores hold |
| `Merge.Convergence` | internal/registry/registry.go:494-540 | unless capacity is contended the stores hold the same peers, and are equal when the key determines the payload |
| `Merge.ConvergedIndexes` | internal/registry/registry.go:519-538 | converged registries have equal federated indexes and counts |
| `Merge.ConvergesExactlyWhenDecided` | internal/registry/registry.go:510-515 | all orders agree if and only if every named peer fits or no new one does |
| `History.StoredIsChampion` | internal/registry/registry.go:496-540 | over any deliveries and evictions, the stored record is the greatest since insertion, with the earliest payload for its key |
| `History.KeyNeverDecreases` | internal/registry/registry.go:503-509 | between insertion and eviction the stored key never goes down |
| `History.NeverOverCapacity` | internal/registry/registry.go:510-515 | no run stores more federated records than the limit |
| `Network.SentWasHeld` | internal/federation/grpc_server.go:53-73 | every message was a local registration of the relay it names as origin |
| `Network.OneHopProvenance` | internal/federation/gossip.go:152-167 | every federated record anywhere is a snapshot its origin relay held locally; nothing is re-exported |
| `Network.OriginInvHolds` | internal/registry/registry.go:199-217 | among messages a peer's single home ever sent, a lower version never expires after a higher one |
| `Resurrection.GuardedForever` | internal/registry/registry.go:471-477 | in every run, with no assumption on homes, lifetimes or clocks, a relay that has stored a record stores it or a successor of it ever after, or one of these has expired by its clock |
| `Resurrection.OrderedNeverResurrects` | internal/registry/registry.go:496-540 | from however many relays the messages about a peer come: while they expire in version order, no relay shows a version older than one it has stored |
| `Resurrection.NoStaleResurrection` | internal/registry/registry.go:496-540 | so for a peer with one home: once a relay has stored a version, no older one is visible there again, under loss, duplication, reordering, heartbeats and evictions |
| `Resurrection.NoStaleDiscovery` | internal/registry/registry.go:322-340 | nor does any later discovery there answer an older version |
| `Resurrection.CanShowExactly` | internal/registry/registry.go:471-515 | in every state of every run, and with nothing more being sent, a relay can come to show a peer if and only if some message about it has not expired there and the relay has room or can have it in time by an expiry |
| `Resurrection.ResurrectionExactly` | internal/registry/registry.go:471-477 | and it can come to show an older version than one it has ever stored if and only if, with such room, the network carries an older version that can outlive a newer one the relay would take |
| `Scenarios.TwoHomesResurrect` | internal/registry/registry.go:471-477 | two relays accept an agent with one skill and a third pulls from both; every discovery there first answers version 10 and later version 5 |
| `Survival.AlwaysLeased` | internal/registry/registry.go:199-217 | every message about a peer comes from one of its homes and expires no later than a registration or heartbeat there now would |
| `Survival.StaysVisible` | internal/registry/registry.go:471-540 | once a relay has stored a version of a peer with one home, it shows that or a newer one in every run for as long as the record stored has not expired |
| `Survival.RemovedAgentFades` | internal/registry/registry.go:361-371 | once all homes have dropped an agent and none accepts it again, no relay whose clock has passed the end of the leases they could then have given answers it, by discovery or lookup, in any continuation |
| `Survival.RemovedAgentSurvivesExactly` | internal/registry/registry.go:361-371 | until then a relay can come to show it if and only if some message about it has not expired there and there is or can be room; with room at hand, whatever else is registered and sent |
| `Survival.ShownIsAnswered` | internal/registry/registry.go:285-343 | what is shown of an agent not held locally is what discoveries below the limit and lookups answer |
| `Scenarios.RemovedAgentIsAnswered` | internal/registry/registry.go:361-371 | an agent of one home is removed there and every discovery at a second relay still answers it, at the very end of its lease |
| `Pull.InvHolds` | internal/federation/grpc_server.go:53-55 | in every interleaving of registry changes with the two-step handler, answers form a chain of half-open intervals |
| `Pull.CursorCrosses` | internal/federation/gossip.go:119-183 | the cursor passes each instant at exactly one answer |
| `Pull.LossAtCrossing` | internal/federation/grpc_server.go:53-84 | that answer delivers a registration unless it was expired, cut off or raced; no later one ever does |
| `Pull.LossCharacterisation` | internal/federation/grpc_server.go:53-84 | a registration behind the cursor was never delivered if and only if its crossing answer lost it in one of three ways and no answer stamped at the instant of registration brought it |
| `Pull.NothingMissed` | internal/registry/registry.go:543-558 | what the crossing answer did not find expired, cut off or have made between its two clock readings was delivered, however far apart the readings are and equal instants included |
| `Pull.RaceLosesRegistration` | internal/federation/grpc_server.go:53-55 | any admissible registration can be lost, while live, by being made between snapshot and timestamp |
| `Pull.ExpiryLosesRegistration` | internal/registry/registry.go:549-552 | or by being expired when asked for and revived by a heartbeat before the answer arrives |
| `Pull.CutLosesRegistration` | internal/federation/grpc_server.go:57-60 | or, under any limit, by being one of more registrations than it admits |
| `Federation.Server.SyncRegistrations` | internal/federation/grpc_server.go:34-85 | answers with a legal cut of the current local records registered since the instant, from the zero time when none is named, and stamps it afterwards |
| `Federation.AnswersAreCurrent` | internal/federation/grpc_server.go:57-73 | an answer holds copies, under this relay's ID and with every field, of unexpired records registered at or after the instant, each peer once |
| `Federation.AnswersAreComplete` | internal/federation/grpc_server.go:44-60 | all of them, unless the limit (500 by default, 5000 at most) is reached |
| `Federation.Server.PushRegistrations` | internal/federation/grpc_server.go:88-147 | merges the records that name a peer, in order; accepted and rejected add up and count exactly |
| `Federation.PushedAre` | internal/federation/grpc_server.go:95-125 | the records that name a peer are merged, absent timestamps as the zero time, an absent origin as the sender |
| `Federation.PushOneMore` | internal/federation/grpc_server.go:95-138 | a record is accepted when it names a stored peer, stale or not, or there is room |
| `Federation.Federation.RecordPeerFailure` | internal/federation/gossip.go:197-209 | one more failure and its delay, for this peer only |
| `Federation.Federation.RecordPeerSuccess` | internal/federation/gossip.go:212-219 | the peer's failures are forgotten, no other peer's |
| `Federation.Federation.SyncPeer` | internal/federation/gossip.go:95-194 | asks from the cursor of this relay, or names no instant without one; skipped or failed pulls move nothing but the backoff; a successful one merges all timestamped records and moves the cursor to the timestamp |
| `Federation.RequestsFollowStamps` | internal/federation/gossip.go:119-183 | over every sequence of calls on a new federation, each asks from the timestamp of the last answer merged from that relay, and names no instant before the first |
| `Federation.Federation.MergePulled` | internal/federation/gossip.go:142-176 | merges the timestamped records in order, inferring a missing origin |
| `Federation.PulledAre` | internal/federation/gossip.go:143-167 | the records with both timestamps are merged, every field kept and a missing origin inferred |
| `Federation.Federation.PushLocal` | internal/federation/gossip.go:223-297 | every client gets the same records under this relay's ID, none when there is nothing to send; an error is returned if and only if some call fails, and it is that of a failed call |
| `Shipment.PullRoundTrip` | internal/federation/gossip.go:142-167 | what a relay answers is what the other merges, under the answering relay's ID |
| `Shipment.PushRoundTrip` | internal/federation/grpc_server.go:95-125 | the same for a push |
| `Shipment.PullIsRun` | internal/federation/gossip.go:128-167 | a pull answered in one state and merged in any later one is a run of the network model without local steps of its own |
| `Shipment.RequestIsPull` | internal/federation/grpc_server.go:34-85 | a request at the client's cursor, the registry changing while it is handled, and its answer are steps of the pull model that leave the cursor at the timestamp and deliver exactly the records sent |
| `Shipment.RequestsReadCursor` | internal/federation/gossip.go:119-132 | from the first request on, calls ask from the cursor of the pull model |
| `Shipment.PushIsRun` | internal/federation/gossip.go:240-274 | so is a push of local records read in one state and merged in any later one |
| `Shipment.DeliveredIsKept` | internal/federation/gossip.go:142-167 | a delivered registration that has room where it is merged is stored at a key no lower than its own, and in every run from then on that key or a greater one is held there or has expired by the relay's clock |
| `Shipment.DeliveredIsDiscoverable` | internal/federation/gossip.go:142-167 | for a peer with one home, it or a newer version is discoverable there until the record stored expires |
| `Backoff.DelayExactThrough31` | internal/federation/gossip.go:203-206 | through the 31st failure the product fits in int64 and the delay is min(5s*2^(n-1), 300s) |
| `Backoff.DelayExactly` | internal/federation/gossip.go:203-206 | up to the 63rd failure, the delay is the intended one if and only if a given bit of the base delay is clear, and otherwise there is none |
| `Backoff.HeldBackExactly` | internal/federation/gossip.go:203-206 | so each of these failures holds the next call back for exactly the intended delay, or not at all |
| `Backoff.BackoffLostAt32` | internal/federation/gossip.go:203 | the 32nd delay is negative |
| `Backoff.StreakInv` | internal/federation/gossip.go:106-140 | the failure count is the current streak, and each gap in it is at least what its failure holds back |
| `Backoff.BackoffSpacing` | internal/federation/gossip.go:106-140 | in every run, k consecutive failures take at least what the first k-1 hold back, for k <= 32 the sum of the intended delays, any success restarting the count |
| `Backoff.SpacingIsTight` | internal/federation/gossip.go:106-140 | and for every k there is a run that takes exactly so long |
| `Backoff.SpacedAsIntendedThrough32` | internal/federation/gossip.go:203-209 | in every run k failures take at least the sum of the intended delays, if and only if k <= 32 |
| `Backoff.TotalDelayClosedForm` | internal/federation/gossip.go:37-40 | that sum is 315 + 300(k-7) seconds from the seventh failure on |
| `Backoff.NoSpacingAfter32` | internal/federation/gossip.go:111-117 | after the 32nd failure the next call is not held back |
| `Breaker.CircuitBreaker.Allow` | internal/resilience/breaker.go:50-69 | rejects exactly while open and not yet past the cooldown, turning half-open when past it |
| `Breaker.CircuitBreaker.RecordSuccess` | internal/resilience/breaker.go:72-87 | closed: failures are forgotten; half-open: one more success, closing at the threshold; open: nothing |
| `Breaker.CircuitBreaker.RecordFailure` | internal/resilience/breaker.go:90-107 | closed: one more failure, opening for a cooldown at the threshold; half-open: opens again; open: nothing |
| `Breaker.CircuitBreaker.GetState` | internal/resilience/breaker.go:110-120 | reports the state after the transition a query may cause |
| `Breaker.CircuitBreaker.Reset` | internal/resilience/breaker.go:123-131 | back to the initial state |
| `Breaker.ClosedCountsFailures` | internal/resilience/breaker.go:76-100 | while closed the count is the run of failures since the breaker closed, below the threshold |
| `Breaker.CountsRest` | internal/resilience/breaker.go:50-131 | otherwise it rests at the threshold, and successes are counted only while half-open |
| `Breaker.HalfOpenCountsSuccesses` | internal/resilience/breaker.go:79-85 | while half-open the count is an unbroken run of successes below the threshold |
| `Breaker.RecoveryTakesThresholdSuccesses` | internal/resilience/breaker.go:79-106 | closing without reset takes exactly the threshold of successes with no failure between |
| `Breaker.RejectsDuringCooldown` | internal/resilience/breaker.go:57-63 | from a trip to its cooldown's last instant every request is rejected |
| `Breaker.TripsAreApart` | internal/resilience/breaker.go:94-105 | two trips are more than a cooldown apart |
| `Breaker.TripsTakeCooldowns` | internal/resilience/breaker.go:94-105 | k >= 2 trips take more than k-1 cooldowns |
| `BreakerRegistries.BreakerRegistry.Get` | internal/resilience/registry.go:39-58 | an existing breaker is returned and kept; a missing one is created closed with the defaults |
| `BreakerRegistries.BreakerRegistry.List` | internal/resilience/registry.go:61-73 | reports every breaker once, each after its own query transition |
| `BreakerCreation.InvHolds` | internal/resilience/registry.go:39-58 | in every interleaving each name has at most one breaker ever created |
| `BreakerCreation.NeverReplaced` | internal/resilience/registry.go:39-58 | a stored breaker and a returned one never change |
| `BreakerCreation.SingleBreakerPerName` | internal/resilience/registry.go:39-58 | any two calls return the same breaker if and only if they named the same |
| `Policy.Engine.Evaluate` | internal/policy/engine.go:29-65 | for any arrangement the sort picks: the effect of a matching rule of least priority number, or allow |
| `Policy.DecisionIsRight` | internal/policy/engine.go:40-64 | that effect is of a rule of least priority number among those whose patterns match and whose namespace is empty or the request's; allow only when there is none or it says so |
| `Policy.Engine.AddRule` | internal/policy/engine.go:68-81 | adds a rule under a new ID; IDs stay unique |
| `Policy.Engine.RemoveRule` | internal/policy/engine.go:84-96 | removes exactly the rule with the ID |
| `Policy.Engine.UpdateRule` | internal/policy/engine.go:109-121 | replaces exactly the rule with the ID |
| `Policy.DecisionsAreFirstMatches` | internal/policy/engine.go:33-64 | the possible decisions are exactly the first matches over all priority orders of the rules |
| `Policy.DeterminedIffOneEffect` | internal/policy/engine.go:33-64 | the rule set determines the decision if and only if all deciding rules share an effect |
| `Directory.ListAgents` | internal/api/handlers.go:47-105 | total and page are cut from some ascending answer, at limit 1-1000 or else 100 and offset 0 or more or else 0; without a skill the answer holds exactly the fresh records of both stores |
| `Directory.CollectAgents` | internal/api/handlers.go:65-75 | a skill query's discovery, or all fresh records of both stores |
| `Directory.SortedAnswerIsListing` | internal/api/handlers.go:66-80 | with at most 1000 matches the sorted answer is every matching peer once, strictly ascending |
| `Directory.ListingIffWithinLimit` | internal/api/handlers.go:68-70 | the sorted answer is the complete listing if and only if there are at most 1000 matches |
| `Directory.ListingIsUnique` | internal/api/handlers.go:77-80 | there is only one such listing, so discovery order does not show |
| `Directory.PagesTileTheListing` | internal/api/handlers.go:66-98 | pages at offsets 0, L, 2L, ... put together are the listing, with a constant total |
| `Directory.ListSkills` | internal/api/handlers.go:122-149 | each mentioned skill of the fresh records once, strictly ascending, with its number of mentions |
| `Directory.SummaryCounts` | internal/api/handlers.go:130-134 | mentions are the places at which the records list the skill |
| `Directory.MentionsCountPeers` | internal/api/handlers.go:130-134 | mentions equal the peers listing the skill if and only if none lists it twice |
| `Directory.CountsAgreeWithIndexes` | internal/api/handlers.go:122-149 | with nothing expiring, listed skills are the indexes' keys, and agent_count is the size of their sets if and only if no record repeats the skill |
| `Gate.GRPCServer.RegisterSkills` | internal/registry/grpc_server.go:29-67 | refuses exactly an empty peer, no skills or an empty skill ID and, when full, a new peer; otherwise registers all the skills given, and nothing else changes |
| `Gate.GRPCServer.UnregisterSkills` | internal/registry/grpc_server.go:69-77 | unregisters for a named peer |
| `Gate.GRPCServer.Heartbeat` | internal/registry/grpc_server.go:114-127 | renews a known peer's registration, expired or not, and nothing else |
| `Gate.RunsKeepAdmissible` | internal/registry/grpc_server.go:29-77 | over all runs every stored entry has a peer ID and at least one skill, none with an empty ID |
| `Gate.EveryAgentIsFindable` | internal/registry/grpc_server.go:29-77 | over all runs the index reaches exactly the stored agents |

## Left out

- Libp2p host, circuit relay, NAT traversal, keys, flags and startup wiring.
- gRPC and HTTP transport, protobuf and JSON encoding, contexts, tickers and goroutine lifetimes: a method body under a
  mutex is one step, an RPC is a message.
- Metrics, tracing, logging and the web interface.
- `filepath.Match`: an arbitrary predicate stands for it.
- Pointer sharing: stored records are values, so tag maps shared with a caller, and the slice sharing that
  `copySkills` prevents, are not modelled.
- `internal/namespace`, `internal/mcp`, `internal/health` and `HealthStatus`: simple maps and read-only reports.
- `Count`, `FederatedCount` and `Stats`: they return the counters that `Valid` ties to the stores.
- The unfiltered listing is stated as it is: a peer in both stores appears twice, in either order.
- Capacity refusals at the pulling relay: `Pull` speaks of delivery in a response; what the merge then makes of it is
  the subject of `Merge.DeliveryTakesEffect` and `Shipment.DeliveredIsKept`.
- The batch counters of a push are unbounded integers, not `int32`.
