# Verified models of the chihaya tracker

This project models the parts of the chihaya BitTorrent tracker where it is hardest to see that the code is right, and
proves what they promise for every input, every run or every reachable state. Nothing here runs the tracker: the models
are Dafny, and the verifier checks the proofs (`dafny verify dfyconfig.toml`).

What is modelled, bottom up:

- **One abstract store.** `PeerStoreSpec` is the map of swarms that both peer stores implement: puts, deletes,
  graduation and expiry. `PeerTotals` counts its peers.
- **The Redis store as a concurrent protocol.** `RedisCommands` and `RedisProtocol` run any number of tracker
  instances and collectors, interleaved at the granularity of single Redis commands and MULTI/EXEC blocks with WATCH
  versions. The invariants tie the listings and the three kinds of counters to the swarms in every reachable state.
  `RedisPass` and `RedisListing` follow one collection through any interference, `RedisAnnounce` an announce that
  reads twice.
  `RedisWitnesses` has the runs that break what does not hold. `RedisStore` is the same store as a class, run without
  interference.
- **The in-memory store.** `MemoryStore` has the shards, their counters and the two-level maps as mutable objects, each
  locked section one method, proved against the abstract map. Every operation is one locked section, and the locks keep
  the sections of a shard apart (`ShardLocks.MutualExclusion`), so a concurrent run is a run of these methods in some
  order. `MemoryGc` interleaves a collection with arbitrary other operations,
  `MemoryTotals` adds up what the shards report, and `ShardLocks` is the lock protocol itself, under Go's
  writer-preferring RWMutex.
- **Announces.** `PeerSelection`, `AnnounceSpec` and `AnnounceAnswers` say which answers to an announce are possible;
  `SwarmInteraction` follows roles over whole runs; `StoreEquivalence` compares the two stores.
- **The wire.** `Bencode`, `BencodeEncoder` and `BencodeDecoder` are the codec, and `BencodeWindow` is what the
  decoder sees of its input through a buffered reader; `Responses`, `HttpWriter` and
  `AnnouncePath` go from a store to the bytes that a client reads back; `UdpOptions` and `UrlParams` parse the BEP 41
  options; `ConnectionId` is the reusable identifier generator of BEP 15.
- **Middleware.** `TrafficPush` keeps the books of pushed traffic over whole runs; `XorShift` and `VarInterval` are the
  random draws and the interval variation.

Where the code and what is said about it differ, the model follows the code, a lemma shows the difference, and another
gives the exact condition:

- With two collectors the infohash counter can be decremented twice for one swarm (`InfohashCountCanGoNegative`); it is
  exact at rest if and only if no EXEC hit an already unlisted key (`InfohashCounterDrift`), which a single collector
  never does.
- A Redis collector deletes by the value it read, so a peer refreshed meanwhile is deleted although it is fresh
  (`RefreshedPeerCanBeCollected`), exactly when it was written with a later time in between.
- A Redis collection leaves a key listed without a peer only if somebody else took the last peer meanwhile
  (`LeftoverNeedsInterference`); then it can (`KeyCanBeLeftBehind`).
- AnnouncePeers of the Redis store reads the leechers first and the seeders afterwards. `RepeatsIff` says exactly when
  an answer can name a peer twice; a leecher that graduates in between does (`GraduateIsNamedTwice`).
- The dual-stack in-memory store takes its two read locks in opposite orders for IPv4 and IPv6 announcers;
  `CallsDeadlockIff` says exactly which sets of calls can deadlock.
- The interface promises peers of the announcer's family. A dual-stack answer keeps to it exactly when it does not
  overflow (`DualStackAnswerIsPureIff`). If it does overflow, a UDP client reads no possible answer at all (`OverUdp`),
  the compact HTTP writer panics for an IPv4 announcer (`CompactPanicsIff`, `OverflowPanics`), and an IPv6 client is shown IPv4 peers as
  mapped addresses (`OverHttp`).
- An announcer that gets no peers counts itself. It is then counted twice exactly if it was stored already
  (`CountedOnceIff`), as a lone leecher is that announces again (`LoneLeecherCountsTwice`).
- The Redis store means to leave the announcer out of its answer and does not: it compares a byte slice with a
  string-based key type. `RedisMeetsItselfIff` says exactly when a leecher can be sent to itself, `LoneLeecher` is a
  case, and `SameAnswersIff` says exactly when the two stores have the same possible answers.
- The bencode decoder reads a string with a single read of its 4096-byte buffer, so not everything the encoder writes
  can be read back: `DecodeTree` has the exact condition for any nested value, in terms of the lengths in it, and
  `DecodeString` for a single string, whose encoding must fit the buffer.
- A comment says a failed traffic push is made up for by the next announce. The snapshot has already moved on, so it is
  not (`FailedPushIsNotMadeUp`, `StreamIsExactIff`).
- The bounded draw promises a result in range; at the one draw 2^63 it is negative unless the bound is a power of two
  (`IntnInRangeIff`). Every interval is varied as configured if and only if the maximum is a power of two and, added
  whole, does not overflow (`AlwaysInRangeIff`).
- A shard count of 2^31 or more breaks the 32-bit shard index (`ShardDivisorExactIff`).

## Model

| member | source | states |
|---|---|---|
| BitTorrent.SanitizeAnnounce | bittorrent/sanitize.go:17-42 | accepted exactly for a non-zero port and a 4- or 16-byte address; then the address has its canonical width, its family matches it, and numWant is defaulted or capped |
| BitTorrent.PeerKeyRoundTrip | storage/memory/peer_store.go:188-214 | a sanitised peer is recovered from its key, and the length of the key tells the family |
| BitTorrent.StoredKeyDecodes | storage/memory/peer_store.go:197-214 | decoding a stored key never panics, keeps the family of its swarm and encodes back to the same key |
| BitTorrent.FamiliesHaveDistinctKeys | storage/memory/peer_store.go:188-195 | no key belongs to both families |
| BitTorrent.TruncDivLaw | frontend/udp/writer.go:42-42 | durations are divided towards zero: the remainder is smaller than the divisor and has the sign of the dividend |
| BitTorrent.BigEndianOrder | frontend/udp/writer.go:42-44 | the most significant byte comes first: numbers compare as their bytes do |
| BitTorrent.HexAt | bittorrent/bittorrent.go:83-85 | an info hash is printed as two lower-case digits a byte, the high one first |
| RedisCommands.SeederFieldByPosition | storage/redis/peer_store.go:288-294 | position 5 of a swarm key name tells a seeder key from a leecher key |
| RedisCommands.KeyNamesDistinct | storage/redis/peer_store.go:284-306 | no two of the Redis keys used (families, swarms, counters) share a name |
| RedisProtocol.StepKeepsInv | storage/redis/peer_store.go:352-554 | every command of every thread keeps the protocol invariant (listings, peer counters, infohash counters, collectors' watch versions) |
| RedisProtocol.RunKeepsInv | storage/redis/peer_store.go:352-825 | so does every interleaving of any number of clients and collectors |
| RedisProtocol.LiveSwarmsStayListed | storage/redis/peer_store.go:784-811 | in every reachable state a non-empty swarm is listed in the hash of its family, so collectors still see it |
| RedisProtocol.PeerCountersBalance | storage/redis/peer_store.go:751-782 | in every reachable state a seeder or leecher counter plus everything still to be sent, a collector's running count included, is the number of peers stored, each counted once |
| RedisProtocol.InfohashCounterDrift | storage/redis/peer_store.go:794-804 | in every reachable state the infohash counter, the pending INCRs and the blind decrements add up to the listed seeder keys; at rest it is exact if and only if there was no blind decrement |
| RedisProtocol.AloneRunIsNeverBlind | storage/redis/peer_store.go:736-742 | a run with at most one collector at a time makes no blind decrement |
| RedisProtocol.LoneCollectorKeepsInfohashCount | storage/redis/peer_store.go:788-811 | with at most one collector at a time the infohash counter plus the pending INCRs is the number of listed seeder keys, in every interleaving |
| RedisProtocol.RunTime | storage/redis/peer_store.go:366-377 | a stored time is that of the last write of the run, or the one from before it |
| RedisProtocol.PairWasStored | storage/redis/peer_store.go:745-772 | whatever runs after a collector's HGETALL, the pair it is at was stored when the reply was taken |
| RedisProtocol.CollectorDeletesFreshPeerIff | storage/redis/peer_store.go:745-772 | from a collector's HGETALL on, in every interleaving, its step deletes a peer that is fresh at that moment if and only if the reply had it due and it was last written since with a time beyond the cutoff |
| RedisWitnesses.TwoCollectorsGoBlind | storage/redis/peer_store.go:784-811 | two collectors over one empty listed swarm decrement the infohash counter twice |
| RedisWitnesses.InfohashCountCanGoNegative | storage/redis/peer_store.go:784-811 | from an empty database a run with two collectors takes the infohash counter to -1 |
| RedisWitnesses.RefreshedPeerCanBeCollected | storage/redis/peer_store.go:745-772 | from the empty database, with two threads, for any swarm: a run in which a peer refreshed after HGETALL is deleted with its new time |
| RedisPass.NothingDueSurvivesACollection | storage/redis/peer_store.go:721-825 | in every run from the empty database, whatever other threads do, no peer stays due from the start of a collection to its end, although the replies it works from are stale |
| RedisListing.ExecGoesThroughIff | storage/redis/peer_store.go:784-811 | from its WATCH on, whatever runs in between, the EXEC takes the key off its family hash, for either role, and for a seeder key one off the infohash counter, if and only if no command modified the swarm since |
| RedisListing.LeftoverNeedsInterference | storage/redis/peer_store.go:721-825 | after every collection in every run from the empty database, a key of either role is listed if and only if its swarm has a peer, unless another thread took the last peer of that swarm while the collection ran |
| RedisListing.UndisturbedCollection | storage/redis/peer_store.go:721-825 | a collection nobody disturbs, step by step through the protocol, leaves exactly the peers beyond the cutoff and lists a key if and only if its swarm has a peer |
| RedisListing.KeyCanBeLeftBehind | storage/redis/peer_store.go:734-817 | from the empty database, with two threads: a run in which a peer comes and goes while the collection is past its family, and the key stays listed |
| RedisListing.ListedSince | storage/redis/peer_store.go:372-375 | in every run a listed key has the time of the last put or graduation into its swarm |
| RedisAnnounce.RepeatsIff | storage/redis/peer_store.go:574-631 | whatever runs between the two reads, some answer to a leecher names a peer twice if and only if a peer is a leecher in the first read and a seeder in the second and the seeders leave room |
| RedisAnnounce.UntornClasses | storage/redis/peer_store.go:604-631 | with nothing between the two reads the classes are those of the store at rest |
| RedisAnnounce.BothReadsNeedWrite | storage/redis/peer_store.go:574-592 | in every run, a peer that was no seeder at the first read is in both reads only if it was written as a seeder in between |
| RedisAnnounce.GraduateIsNamedTwice | storage/redis/peer_store.go:604-631 | from the empty database, for any swarm: a run in which a leecher graduates between the reads and every answer of two names it twice |
| RedisStore.QuietRunIsConsistent | storage/redis/peer_store.go:352-825 | every interleaving with at most one collector at a time leaves a consistent database once nothing is in flight |
| RedisStore.RedisStore.PutPeer | storage/redis/peer_store.go:352-397 | a put changes the abstract map as specified and leaves every counter and listing exact |
| RedisStore.RedisStore.DeletePeer | storage/redis/peer_store.go:399-431 | a delete reports a missing peer exactly when it is missing, and keeps everything exact |
| RedisStore.RedisStore.GraduateLeecher | storage/redis/peer_store.go:504-554 | a graduation moves the peer between the roles and keeps everything exact |
| RedisStore.RedisStore.AnnouncePeers | storage/redis/peer_store.go:556-634 | a missing swarm is reported exactly when both roles are empty; otherwise the peers are those behind a selection from its classes in order |
| RedisStore.ScannedIsFresh | storage/redis/peer_store.go:752-772 | going through the flat HGETALL reply, fields and values alternating, leaves exactly the peers beyond the cutoff |
| RedisStore.RedisStore.ScanSwarm | storage/redis/peer_store.go:744-772 | the loop leaves exactly the fresh peers and counts the others |
| RedisStore.RedisStore.ExpireSwarm | storage/redis/peer_store.go:744-782 | after the DECRBY the counter of the role is exact again |
| RedisStore.RedisStore.CollectSwarm | storage/redis/peer_store.go:741-816 | one swarm is swept and unlisted exactly if it is empty |
| RedisStore.RedisStore.CollectGroup | storage/redis/peer_store.go:734-817 | the keys HKEYS returned for one family are all dealt with, and no other family is touched |
| RedisStore.RedisStore.CollectGarbage | storage/redis/peer_store.go:721-825 | without interference a collection leaves exactly the peers beyond the cutoff, lists a swarm if and only if it has a peer, and leaves all counters exact |
| MemoryStore.ShardIndexInHalf | storage/memory/peer_store.go:266-275 | for a valid shard count the index is in bounds, IPv4 in the lower half and IPv6 exactly one half above it |
| MemoryStore.IndexIsShardIndex | storage/memory/peer_store.go:266-275 | the 32-bit arithmetic of shardIndex comes to plain arithmetic for every valid shard count |
| MemoryStore.ShardDivisorExactIff | storage/memory/peer_store.go:266-275 | the divisor is the number of shards per family if and only if that number is below 2^31 |
| MemoryStore.OneSwarmChanged | storage/memory/peer_store.go:216-235 | a change of one swarm in its shard, with the counters following, keeps the whole store a representation of the abstract map |
| MemoryStore.Shard.Put | storage/memory/peer_store.go:286-305 | the locked part of a put updates swarm and counter together |
| MemoryStore.Shard.Delete | storage/memory/peer_store.go:317-338 | the locked part of a delete updates swarm and counter, drops an empty swarm, and never underflows |
| MemoryStore.Shard.Graduate | storage/memory/peer_store.go:414-439 | the locked part of a graduation moves the peer and both counters |
| MemoryStore.Shard.Expire | storage/memory/peer_store.go:763-775 | deleting from the map while ranging over it leaves exactly the fresh peers and an exact counter |
| MemoryStore.Shard.Visit | storage/memory/peer_store.go:754-783 | one visit of the collector expires both roles and drops an empty swarm; an info hash that has gone is passed over |
| MemoryStore.MemoryStore.constructor | storage/memory/peer_store.go:130-150 | a new store of valid shard count represents the empty map |
| MemoryStore.MemoryStore.PutPeer | storage/memory/peer_store.go:277-306 | PutSeeder and PutLeecher refine the abstract put: shard placement, counters, key families, no empty swarm |
| MemoryStore.MemoryStore.DeletePeer | storage/memory/peer_store.go:308-339 | DeleteSeeder and DeleteLeecher refine the abstract delete and report a missing peer exactly when it is missing |
| MemoryStore.MemoryStore.GraduateLeecher | storage/memory/peer_store.go:405-440 | refines the abstract graduation |
| MemoryStore.MemoryStore.VisitSwarm | storage/memory/peer_store.go:754-783 | a collector's visit refines the abstract visit |
| MemoryStore.MemoryStore.CollectGarbage | storage/memory/peer_store.go:735-791 | without interference a collection refines the abstract sweep |
| MemoryStore.MemoryStore.ScrapeSwarm | storage/memory/peer_store.go:675-726 | the counts are those of the swarm, in dual-stack mode of both families together, modulo 2^32; ScrapedCounts says which peers that is |
| MemoryStore.MemoryStore.AnnouncePeers | storage/memory/peer_store.go:442-673 | a missing swarm is reported exactly when it is missing; otherwise the answer is a selection from the priority classes of its mode, each peer decoded from its key |
| MemoryStore.StoredKeysTyped | storage/memory/peer_store.go:216-235 | every key held in a swarm has the family of that swarm |
| PeerTotals.TotalSizeCounts | storage/redis/peer_store.go:310-346 | the sum of the sizes of all swarms of a family and role is the number of peers stored there |
| MemoryTotals.TotalsExact | storage/memory/peer_store.go:239-255 | in every store the counters of all shards add up to the peers stored and their swarms to the info hashes that have a peer |
| MemoryTotals.PopulateProm | storage/memory/peer_store.go:241-255 | the loop over the shards reports exactly these numbers |
| MemoryGc.Pass.VisitTakesOnlyDue | storage/memory/peer_store.go:754-783 | whatever else is running, a visit never removes or changes a peer whose time at that moment is beyond the cutoff |
| MemoryGc.Pass.NothingDueSurvivesAPass | storage/memory/peer_store.go:742-786 | no peer that is present and due throughout an interleaved pass survives it, although the lists are stale |
| MemoryGc.Pass.PassLeavesOnlyFreshPeers | storage/memory/peer_store.go:735-791 | if all writes of the run carry times beyond the cutoff, every peer left at the end of the pass is fresh |
| PeerSelection.PickFrom | storage/memory/peer_store.go:468-520 | the loop over one map picks distinct peers other than the excluded one, until numWant is met or the map is used up |
| PeerSelection.SelectionLength | storage/memory/peer_store.go:580-663 | a selection has exactly min(numWant, available) peers |
| PeerSelection.NegativeWantTakesFirst | storage/memory/peer_store.go:469-480 | a negative numWant returns the whole first class and nothing else |
| PeerSelection.SelectionPriority | storage/memory/peer_store.go:580-663 | a peer of a later class appears only once every earlier class is used up |
| PeerSelection.SelectionUsesClassIff | storage/memory/peer_store.go:580-663 | a selection from disjoint classes draws on a class if and only if the classes before it leave room and it has a peer |
| PeerSelection.InSomeIff | storage/memory/peer_store.go:580-663 | some answer holds a peer if and only if a class that has it is reached |
| PeerSelection.InEveryIff | storage/memory/peer_store.go:580-663 | every answer holds a peer if and only if a class that has it is used up |
| AnnounceAnswers.AnswerLength | storage/memory/peer_store.go:580-663 | an answer of either mode has exactly min(numWant, available) peers |
| AnnounceSpec.MissingIff | storage/memory/peer_store.go:464-466 | a missing resource is reported if and only if nobody is stored, in either role, in the families that are searched |
| AnnounceSpec.ScrapedCounts | storage/memory/peer_store.go:694-723 | a scrape counts every stored peer of the role, in dual-stack mode of both families, each once |
| AnnounceAnswers.InSomeAnswerIff | storage/memory/peer_store.go:442-672 | from the stored peers alone: some answer holds a peer if and only if it is eligible and more are asked for than come before it, seeders before leechers and the announcer's family before the other |
| AnnounceAnswers.InEveryAnswerIff | storage/memory/peer_store.go:442-672 | every answer holds it if and only if as many are asked for as come before it or with it |
| AnnounceAnswers.AnswerHasNoDuplicates | storage/memory/peer_store.go:580-663 | no peer is returned twice if no peer has both roles |
| AnnounceAnswers.LeecherNeverMeetsItself | storage/memory/peer_store.go:580-663 | a leecher not recorded as a seeder is never in its own answer, in either mode |
| AnnounceAnswers.MeetsItselfIff | storage/memory/peer_store.go:580-663 | some in-memory answer holds the announcing leecher if and only if it is recorded as a seeder and anybody is asked for, in either mode |
| AnnounceAnswers.SingleStackAnswerIsPure | storage/memory/peer_store.go:458-520 | a single-stack answer has only peers of the announcer's family |
| AnnounceAnswers.DualStackAnswerIsPureIff | storage/storage.go:81-96 | a dual-stack answer has only peers of the announcer's family if and only if numWant is met before a non-empty class of the other family |
| ShardLocks.DeadlockHasKnot | storage/memory/peer_store.go:528-539 | every deadlocked state holds the same knot: two double readers in opposite orders and a writer waiting on each of their shards |
| ShardLocks.DeadlockNeedsConflict | storage/memory/peer_store.go:528-539 | a deadlock can only be reached if all four parts of a knot occur in the programs |
| ShardLocks.OrderedNeverDeadlocks | storage/memory/peer_store.go:707-710 | any number of threads that take double locks lower half first never deadlock, in any schedule |
| ShardLocks.MutualExclusion | storage/memory/peer_store.go:216-235 | in every schedule of any programs a shard has one writer at a time and no reader while it is written |
| ShardLocks.NoIPv6AnnouncerNoDeadlock | storage/memory/peer_store.go:528-539 | any programs of store calls without an IPv6 dual-stack announce never deadlock, in any schedule |
| ShardLocks.PoolDeadlocksIff | storage/memory/peer_store.go:528-539 | a pool of sections, one per thread, has a deadlocking schedule if and only if it holds the four parts of a knot for some shard |
| ShardLocks.LocksHeldIff | storage/memory/peer_store.go:277-791 | a call holds a shard for writing or for reading at some point if and only if it changes, or reads, an info hash of that shard, in dual-stack mode of either family |
| ShardLocks.CallsDeadlockIff | storage/memory/peer_store.go:528-540 | a set of concurrent calls can deadlock if and only if the store is dual-stack and, for one pair of shards, there are an announce by an IPv6 peer, an announce by an IPv4 peer or a scrape, and a mutation or collector's visit of either shard |
| ShardLocks.FourCallsDeadlock | storage/memory/peer_store.go:528-540 | four calls on any one info hash can deadlock, and cannot in single-stack mode |
| StoreEquivalence.ServeMemory | storage/memory/peer_store.go:277-440 | a call on the single-stack in-memory store has the specified effect and answer |
| StoreEquivalence.ServeRedis | storage/redis/peer_store.go:352-554 | a call on the Redis store has the same effect and answer |
| StoreEquivalence.ServeHistory | storage/storage.go:50-106 | over every sequential history the two stores return the same errors and counts and agree on missing swarms |
| StoreEquivalence.ScrapeFollows | storage/memory/peer_store.go:675-726 | in either mode a scrape after any request counts one more exactly for a new peer, one less exactly for a removed one, and less exactly those collected, in dual-stack mode whichever family the request was about |
| StoreEquivalence.RedisMeetsItselfIff | storage/redis/peer_store.go:604-631 | some Redis answer to a leecher holds the leecher itself if and only if anybody is asked for and it is a seeder, or a leecher for whom the seeders leave room |
| StoreEquivalence.RedisAlwaysMeetsItselfIff | storage/redis/peer_store.go:604-631 | every Redis answer holds it if and only if its class is used up, so a stored leecher always once all peers fit |
| StoreEquivalence.LoneLeecher | storage/redis/peer_store.go:616-620 | a leecher alone in its swarm is sent to itself by the Redis store and to nobody by the in-memory store |
| StoreEquivalence.SameAnswersIff | storage/redis/peer_store.go:594-631 | the two stores have the same possible answers if and only if the announcer seeds, is no stored leecher, or the seeders leave no room |
| SwarmInteraction.HandleAnnounce | middleware/hooks.go:33-65 | every event changes the store as specified and no error is returned, Stopped on an unknown peer included |
| SwarmInteraction.RolesAfter | middleware/hooks.go:33-65 | the roles of every peer after an announce, from its roles before |
| SwarmInteraction.TimesAfter | middleware/hooks.go:33-65 | after an announce its peer is stored with its time in the role it took, and no other stored time has changed |
| SwarmInteraction.StoppedLeavesNoTrace | middleware/hooks.go:38-49 | from any state, Stopped takes the peer out of both roles and touches no other peer |
| SwarmInteraction.BothRolesIff | middleware/hooks.go:50-63 | the exact announces that give a peer a second role |
| SwarmInteraction.WellBehavedRunsKeepRolesDisjoint | middleware/hooks.go:33-65 | over every run of announces and collections in which each peer leeches, completes and seeds in that order between Stopped events, no peer ever has both roles |
| SwarmInteraction.StoredSinceLastTook | middleware/hooks.go:33-65 | over every run of announces and collections, whoever is stored has the time at which it last took its role |
| Decimal.ParseFormat | frontend/http/bencode/encoder.go:106-117 | parsing a printed integer gives the integer if and only if it is in int64 range |
| Decimal.ParsesIff | frontend/http/bencode/decoder.go:91-91 | exactly the spellings of the 64-bit integers are parsed, with a plus sign and leading zeros at will, each to the integer it spells |
| Bencode.DecodeEncode | frontend/http/bencode/decoder.go:33-141 | decoding an encoding followed by any rest gives the value and leaves exactly that rest |
| Bencode.EncodingsArePrefixFree | frontend/http/bencode/encoder.go:40-196 | no encoding is a proper prefix of another, and equal encodings mean equal values |
| Bencode.DecodesIffInRange | frontend/http/bencode/decoder.go:33-141 | an encoding decodes if and only if every integer in it is in int64 range and no string in it is longer than the 2^48 bytes Go can allocate |
| Bencode.DictDecodes | frontend/http/bencode/decoder.go:114-141 | a dictionary decodes to the last value of each of its keys and has no other key |
| BencodeWindow.ParseAgrees | frontend/http/bencode/decoder.go:33-141 | what is decoded through the 4096-byte buffer is always the value the grammar gives, with exactly its bytes consumed; an input that fits the buffer also fails exactly as the grammar does |
| BencodeWindow.TreeLands | frontend/http/bencode/decoder.go:33-141 | at any point of the buffer, the encoding of a value followed by anything is decoded, with that rest left over and so much of it buffered, if and only if the lengths in it let it through |
| BencodeDecoder.Unmarshal | frontend/http/bencode/decoder.go:33-71 | value, error, bytes consumed and bytes buffered are those of the windowed grammar, on every input and at every point of the buffer |
| BencodeDecoder.ReadString | frontend/http/bencode/decoder.go:49-69 | a string is read if and only if its length field lies within the buffer and its content is all buffered, or none of it and at least 4096 bytes |
| BencodeDecoder.Decode | frontend/http/bencode/decoder.go:26-30 | the value is the one of the grammar; an input of at most 4096 bytes gives exactly its value or error |
| BencodeDecoder.DecodeTree | frontend/http/bencode/decoder.go:26-30 | the encoding of any value, followed by anything, decodes to that value if and only if it is in range and the lengths in it let it through the buffer, and fails otherwise |
| BencodeDecoder.DecodeString | frontend/http/bencode/decoder.go:26-30 | a string at the head of any input decodes if and only if its encoding is at most 4096 bytes long |
| BencodeDecoder.ReadList | frontend/http/bencode/decoder.go:94-112 | lists, to the terminator, as the windowed grammar reads them |
| BencodeDecoder.ReadDict | frontend/http/bencode/decoder.go:114-141 | dictionaries as the windowed grammar reads them, last value winning for a repeated key |
| BencodeDecoder.ReadTerminatedInt | frontend/http/bencode/decoder.go:83-92 | an integer up to its terminator, which must be among the next 4096 bytes |
| BencodeEncoder.Marshal | frontend/http/bencode/encoder.go:40-104 | succeeds exactly on supported data and then writes the encoding of some ordering of it |
| BencodeEncoder.SupportedIff | frontend/http/bencode/encoder.go:40-104 | data is supported if and only if nothing of an unsupported type occurs in it, at any depth |
| BencodeEncoder.MarshalMap | frontend/http/bencode/encoder.go:179-196 | a map is written in some iteration order, each entry once |
| BencodeEncoder.OrdersValue | frontend/http/bencode/encoder.go:179-196 | whatever the iteration order, the value written is the same |
| BencodeEncoder.MarshalledDecodes | frontend/http/bencode/encoder.go:40-196 | what is written decodes to the normal form of the data, with any rest left over |
| Responses.HandleAnnounce | middleware/hooks.go:93-105 | the response holds a possible answer of the store, or the announcer alone, with the counts; in single-stack mode only peers of its family |
| Responses.AppendPeers | middleware/hooks.go:107-135 | an empty answer is replaced by the announcer, which is then counted in its role |
| Responses.CountedOnceIff | middleware/hooks.go:93-123 | the count of the announcer's role is that of the swarm with the announcer in it, modulo 2^32, if and only if it is alone and not yet stored or not alone and already stored |
| Responses.OthersCounted | middleware/hooks.go:93-123 | the count of the other role is that of the stored peers |
| Responses.LoneLeecherCountsTwice | middleware/hooks.go:114-123 | a stored leecher that is all there is of its swarm is answered with itself and reported as two |
| Responses.FilledPeers | middleware/hooks.go:107-135 | the peers of a response are sanitised, and all of the announcer's family if and only if the answer does not overflow |
| Responses.ReadPacked | frontend/udp/writer.go:51-54 | a client recovers a packed list of addresses of one width |
| Responses.WriteAnnounce | frontend/udp/writer.go:34-58 | a client reads back action, transaction, interval, counts and the exact peer list if and only if every address has the width of the list |
| HttpWriter.CompactAll | frontend/http/writer.go:39-56 | the compact list is built if and only if every peer has an address of the list's kind, and is then the packed list |
| HttpWriter.WriteAnnounceResponse | frontend/http/writer.go:30-59 | the writer panics exactly if some peer does not fit its list; otherwise a client decodes the counts, the intervals and both exact peer lists from the body, empty lists left out |
| HttpWriter.CompactPanicsIff | frontend/http/writer.go:90-110 | the compact writer panics on a response if and only if it is a dual-stack response to an IPv4 announcer that overflows into IPv6 |
| AnnouncePath.OverUdp | frontend/udp/frontend.go:314-320 | in either mode and for either family, the client reads the store's counts and the exact endpoints of a possible answer from a packet of 20+6n or 20+18n bytes if and only if the answer does not overflow into the other family |
| AnnouncePath.OverHttp | middleware/logic.go:50-64 | in either mode the writer panics if and only if the announcer is an IPv4 peer and the answer overflows; otherwise the client decodes the store's counts, the intervals and a possible answer under the key of its family only, exact unless it overflows, and then with IPv4 peers as mapped addresses |
| AnnouncePath.OverflowPanics | frontend/http/writer.go:90-99 | a dual-stack store with one IPv6 leecher, asked by an IPv4 seeder for one peer: the writer panics |
| AnnouncePath.FilledLength | middleware/hooks.go:107-135 | a response lists at least one peer and, beyond the announcer alone, at most numWant |
| UdpOptions.SplitIsUnique | frontend/udp/parser.go:159-199 | a packet is a stream of options and a stopping tail in at most one way |
| UdpOptions.ScanOptions | frontend/udp/parser.go:159-199 | on every packet the loop stays in bounds, ends, and gives the URL of its options, or the error its tail calls for |
| UdpOptions.ErrorsIff | frontend/udp/parser.go:159-199 | malformed is reported if and only if well-formed options are followed by a URL option that is cut short, and unknown if and only if by an option of another type |
| UdpOptions.HandleOptionalParameters | frontend/udp/parser.go:159-199 | the URL is handed to the URL parser, and errors are reported, exactly so |
| UdpOptions.OptionsParseAsUrl | frontend/udp/parser.go:159-199 | however a URL is cut into chunks of at most 255 bytes, with any no-ops and anything behind an end marker, it parses as the whole URL does; and only such packets are accepted |
| UrlParams.ParseQuery | bittorrent/params.go:128-181 | either the first token that cannot be read gives the error, or the parameters hold the last value of every key and the info hashes in order |
| UrlParams.ParseURLData | bittorrent/params.go:107-124 | path and query are split at the first question mark |
| UrlParams.ParseIsUnique | bittorrent/params.go:107-181 | a URL has one parse |
| UrlParams.WrittenQueryParses | bittorrent/params.go:128-181 | a query written field by field, with values or without and any run of separators, is accepted if and only if every field unescapes and every info hash has 20 bytes, and else refused with the error of the first that does not; it then holds the last value of every key, whatever its case, and the info hashes in order |
| ConnectionId.ConnectionIDGenerator.Generate | frontend/udp/connection_id.go:88-100 | the identifier depends only on key, address and time, whatever state the generator is in, and is left in the buffer the next call overwrites |
| ConnectionId.ConnectionIDGenerator.Validate | frontend/udp/connection_id.go:103-116 | the verdict depends only on key, identifier, address, time and skew |
| ConnectionId.NewConnectionID | frontend/udp/connection_id.go:22-24 | a generator of its own gives the same identifier as a reused one |
| ConnectionId.ValidConnectionID | frontend/udp/connection_id.go:29-31 | a generator of its own gives the same verdict as a reused one |
| ConnectionId.Reuse | frontend/udp/connection_id.go:68-116 | over any history of calls a reused generator answers each as a generator of its own would |
| ConnectionId.AcceptedIff | frontend/udp/connection_id.go:103-116 | an identifier made in a second below 2^32 is accepted for its address exactly up to 120 s after that second and from the allowed skew before it |
| ConnectionId.AcceptedAtOnceIff | frontend/udp/connection_id.go:91-91 | an identifier is accepted at the time it is made if and only if the 32-bit time stamp has not wrapped |
| ConnectionId.AcceptedElsewhereIff | frontend/udp/connection_id.go:88-116 | for another address it is accepted if and only if the tags of time stamp and address agree in their first four bytes |
| ConnectionId.OnlyMadeIdsAreAccepted | frontend/udp/connection_id.go:103-116 | of all byte strings, exactly those made for the address at some timely second are accepted |
| TrafficPush.LastKeyInjective | middleware/trafficpush/trafficpush.go:176-176 | no two accounts share a snapshot key, even if a passkey holds the separator |
| TrafficPush.Hook.HandleAnnounce | middleware/trafficpush/trafficpush.go:181-253 | the snapshot moves on first; the delta against it is pushed if and only if one of the attempts succeeds |
| TrafficPush.Serve | middleware/trafficpush/trafficpush.go:147-256 | a sequence of announces on one hook is a run of the specification |
| TrafficPush.TrafficIsConserved | middleware/trafficpush/trafficpush.go:181-253 | over every run, interleaved with other accounts, what is pushed plus what is lost is the last report plus the reports before each drop, less what the snapshot held at the start |
| TrafficPush.LostIff | middleware/trafficpush/trafficpush.go:204-253 | traffic is lost if and only if some announce with a moved counter failed on every attempt |
| TrafficPush.StreamIsExactIff | middleware/trafficpush/trafficpush.go:181-253 | from an empty store the stream is exact for an account if and only if that never happened |
| TrafficPush.FailedPushIsNotMadeUp | middleware/trafficpush/trafficpush.go:244-250 | from any state, after a failed push the same counter reported again adds nothing to the stream, whether that push succeeds or not |
| TrafficPush.StreamIsDelivered | middleware/trafficpush/trafficpush.go:192-253 | over every run the stream names exactly the delivered announces, in order and with their times |
| TrafficPush.TimeIsConserved | middleware/trafficpush/trafficpush.go:204-213 | over every run with a clock past the epoch, interleaved with other accounts, the durations pushed and those lost add up to the time from the first announce, or the snapshot, to the last |
| XorShift.StepIsBijective | middleware/pkg/random/xorshift.go:7-13 | the step has an inverse on both sides |
| XorShift.RunsNeverMeet | middleware/pkg/random/xorshift.go:7-13 | two runs that ever agree at the same step began in the same state |
| XorShift.NeverZeroIff | middleware/pkg/random/xorshift.go:7-13 | a run is at the zero state if and only if it began there |
| XorShift.RepetitionReturnsToStart | middleware/pkg/random/xorshift.go:7-13 | a run that repeats a state comes back to its start |
| XorShift.BoundedValue | middleware/pkg/random/xorshift.go:22-27 | the draw is the word's distance from zero, either way round, modulo n; at 2^63 it comes out with the wrong sign |
| XorShift.IntnInRangeIff | middleware/pkg/random/xorshift.go:18-28 | the draw is in [0, n) if and only if the word is not 2^63 or n is a power of two |
| VarInterval.HandleAnnounce | middleware/varinterval/varinterval.go:93-113 | exactly the modified responses get the drawn increase, min interval included as configured, and nothing else of the response changes |
| VarInterval.ChanceIsProbability | middleware/varinterval/varinterval.go:96-97 | the drawn chance is always in [0, 1) |
| VarInterval.ModifiesIff | middleware/varinterval/varinterval.go:96-98 | a response is modified if and only if the distance of the first draw from zero, in 2^24 parts, falls below the probability |
| VarInterval.IncreaseValue | middleware/varinterval/varinterval.go:99-101 | the increase is one more than the distance of the second draw from zero modulo the maximum, but for the draw 2^63 |
| VarInterval.SameSumsSameState | middleware/pkg/random/entropy.go:13-17 | requests whose info hash words and peer ID words add up alike start from one state |
| VarInterval.EveryStateIsDerived | middleware/pkg/random/entropy.go:13-17 | every generator state is derived from some request |
| VarInterval.AddedInRangeIff | middleware/varinterval/varinterval.go:99-107 | for any interval, the increase is added as it is and lies between 1 s and the maximum if and only if the draw is not 2^63 or the maximum is a power of two, and the sum fits an int64 |
| VarInterval.SomeRequestFails | middleware/varinterval/varinterval.go:93-107 | for any valid configuration whose maximum is no power of two, a request that is modified and gets nothing added, or less |
| VarInterval.SomeRequestGetsAll | middleware/varinterval/varinterval.go:93-107 | for any valid configuration whose maximum is a power of two, a request that is modified and gets the whole maximum |
| VarInterval.AlwaysInRangeIff | middleware/varinterval/varinterval.go:93-107 | for any valid configuration and any interval, every response it modifies gets between 1 s and the maximum added as it is if and only if the maximum is a power of two and the interval plus the maximum fits an int64 |

## Left out

- The HTTP and UDP servers, sockets, routing, timeouts and configuration files.
- Approval of clients and torrents, JWT and passkey checks: their results come from cryptography and services outside the code.
- Metrics other than the three totals of the in-memory store, and logging; Stop and the closed-store panics.
- The fixed-offset part of the UDP announce parser, ParseScrape, the HTTP request parser, scrape and error responses, and the non-compact HTTP response.
- Redis network failures and timeouts: an INCR lost after its EXEC leaves a counter wrong for good, and the protocol model has no such step.
- AnnouncePeers and ScrapeSwarm are not steps of the concurrent Redis machine, which they do not change; the two reads of AnnouncePeers are related to its runs in RedisAnnounce.
- PutSeeder and PutLeecher (and the two deletes) are one member with a role parameter, in both stores; the bodies differ only in the role and, in Redis, in the infohash count.
- Peer counters of the in-memory shards are natural numbers, proved never to underflow; overflow of uint64 is not modelled.
- StoreEquivalence.ServeHistory: compares errors, counts and missing swarms, not the peers selected, because both stores pick in an unspecified order; SameAnswersIff says when they have the same possible answers.
- RedisStore.RedisStore.AnnouncePeers: the announcer is not excluded, because the code compares a byte slice with a string-based key type, which is never equal.
- RedisStore.RedisStore.CollectGarbage: states the outcome without interference; under interference the invariants of RedisProtocol apply.
- ShardLocks.OrderedNeverDeadlocks: readers that are already waiting may be overtaken by a later writer in the model; the schedules it allows include those of Go's mutex, so absence of deadlock carries over, and the deadlocking schedules it constructs do not use the difference.
- MemoryStore.MemoryStore.constructor: takes the dual-stack switch as a parameter, although New always turns it on.
- BencodeDecoder.Unmarshal: the input is a byte buffer, as in Unmarshal, and not a stream that may deliver less than is asked for. A string length that is negative or beyond 2^48, the limit on linux/amd64, is an outcome of its own, where the code panics.
- BencodeEncoder.Marshal: custom Marshaler implementations and write errors are not modelled, and dictionary keys are written in any order, as the code does, not sorted as BEP 3 asks.
- UrlParams.ParseQuery: percent-decoding and lower-casing are parameters, since they belong to the Go library.
- ConnectionId.ConnectionIDGenerator.Generate: HMAC-SHA256 is an arbitrary function of key and message with 32-byte results.
- TrafficPush.TrafficIsConserved: covers sequential runs in which every snapshot read and write succeeds; two announces of one account in flight at once are not modelled.
- VarInterval.HandleAnnounce: the probability is a real number; the drawn chance is a multiple of 2^-24, which a 32-bit float holds exactly, and int is 64 bits wide.
