# A model of a BitTorrent DHT crawler

dht-spider is a node of the BitTorrent DHT (BEP 5) that also downloads torrent metadata from peers
(BEP 9). This project models its core in Dafny and proves what that core is for:

* **The routing table.** A binary trie over 160-bit ids, changed in place, whose leaves hold buckets of at
  most `k` nodes and split when they are full; beside it a list of all buckets ever made and a cache of nodes
  by address. `Tries` and `Tables` say what the table is as a value; `Routing` has the classes with the
  pointers, and each of its methods is proved to do to the heap what the function of the value says. `Ages`
  says when each leaf last changed, and so which leaves a refresh asks. An invariant that counts ids (a leaf
  at depth `L > 0` has `k + 1 <= 2^(161 - L)`) shows that an insertion never runs out of bits for `k >= 2`,
  and exactly when it does otherwise. Every leaf's prefix spells its path, so the branch that would store a
  candidate is never taken.
* **Bitmaps and the XOR metric.** `Bitmaps` has the packed bits, and shows that comparing byte by byte
  and then bit by bit is comparing big-endian integers.
* **Bencode.** `Bencode` has the decoder as functions over an index, `BencodeCodec` the loops that write
  and read; every value is read back from its encoding wherever that stands, and what is decoded depends
  on nothing but the bytes read.
* **Metadata download.** `Wire` handles one message after another; slots hold exact blocks only, any order
  of true blocks completes, and nothing is delivered whose size or hash is wrong. `WireEffects` reads what
  the session sends: a peer that answers it completes the download.
* **Transactions, peers, and the node.** `Transactions`, `Backoff` and `Peers` treat their tables over
  whole histories. `DhtMachine` is the node as a state machine whose events are packets, ticks and
  commands, and the class `DhtNodes.Dht` is the imperative node, each of whose methods is a step of the
  machine. `DhtSafety` proves an invariant of every reachable state. On it rest the modules that say how
  queries begin and end (`DhtFlights`, `DhtEndings`), when there is one per address (`DhtFinds`), who is
  asked (`DhtAsking`) and what (`DhtSending`), what becomes of pings (`DhtPings`, `DhtPingRuns`), how long
  queries wait (`DhtWaiting`), who is not listened to (`DhtBlocking`), what is learnt, remembered and
  forgotten (`DhtLearning`, `DhtMemory`, `DhtAgreement`), how old leaves are (`DhtAges`), what an
  announcement stores (`DhtAnnouncements`), and what an id or an address that changes hands does
  (`DhtMoves`). `DhtPossible` shows that the machine never gets stuck, `DhtAnswers` reads every reply as
  its receiver does, and `DhtReplies` shows that what one node answers is what another learns.

Time is an integer given to every step. Random bytes, the order in which a hash table is walked, resolved
host names and whether an announcement carries a valid token are inputs, or part of the event, and every result
holds for all of them. SHA-1 is an arbitrary function. Addresses are structured values; the text they are
turned into as keys is not part of the model.

## What the code does that its documentation does not say

Each of these is a lemma; where a promise fails, the exact condition under which it holds is proved beside it.

* Metadata whose size is a positive multiple of 16384 never completes, and any other positive size does
  (`Wire.SessionCompletesExactly`): the size check asks of the last block a length of
  `metadata_size % BLOCK`, which is 0 (`Wire.WholeBlocksNeverComplete`).
* With buckets of one node an insertion can be dropped (`Tables.OneNodeBucketsDrop`;
  `Tries.PlaceRunsOutExactly` says when).
* An id seen at a second address leaves its first address in the cache (`Tables.MovedIdDisagrees`;
  `Tables.InsertAgreesExactly` says when cache and trie part).
* A pruning can take a fresh node out of the trie: of a node that has moved the old address goes stale in
  the cache, and its removal takes the id out of the trie (`Pruning.PruningLosesMoved`; in a run of the
  node `DhtMoves.TickLosesMoved`). While the bound on nodes removes nobody, it happens if and only if a
  stale cache entry holds the id of a fresh node of the trie (`Pruning.FreshNodesStayExactly`,
  `DhtMemory.TickKeepsFreshExactly`).
* A ping is ended by no answer. An error message under its id ends it, and, if and only if the node is
  configured to retry nothing (`try_times` of 0), so does a tick after its timeout
  (`DhtPings.PingEndsExactly`, `DhtPings.PingStaysExactly`). Only then does a tick ever take the branch
  that forgets a node whose ping timed out (`DhtPings.TimeoutsForgetExactly`,
  `DhtPingRuns.PingsAreGivenUpExactly`). While a ping is in flight and not overdue, no leaf is
  refreshed (`DhtPings.PingHoldsUpRefresh`).
* Where ids and addresses keep to one binding, a node that is pinged for its silence is pruned by the same
  tick (`DhtAgreement.PingedAreForgotten`).
* Searches for nodes are not kept to one per address (`DhtFinds.TwoJoinsAskTwice`): a run has at most
  one in flight per address if and only if no join and no refresh in it searches an address twice or one
  that is being searched (`DhtFinds.RunKeepsToOneExactly`). A refresh does so when two ids share an
  address (`DhtMoves.RefreshSearchesTwice`); where ids and addresses keep to one binding none does, and
  joins are all that is left (`DhtMoves.BoundRunKeepsToOneExactly`). Lookups started through the public
  `get_peers` are kept to one if and only if none of the nodes there is room for was being asked
  (`DhtFinds.PublicSearchKeepsToOneExactly`).

## Model

| member | source | states |
|---|---|---|
| Bitmaps.Bitmap.Set | src/bitmap.rs:12 | sets the one bit and no other, and the bits past the size stay zero |
| Bitmaps.Bitmap.Unset | src/bitmap.rs:13 | clears the one bit and no other |
| Bitmaps.Bitmap.ComparePrefix | src/bitmap.rs:14-16 | the sign of the byte-wise comparison is the order of the first `n` bits read as big-endian numbers, and 0 means they agree |
| Bitmaps.Bitmap.Xor | src/bitmap.rs:17 | each bit of the result is the exclusive or of the two |
| Bitmaps.Bitmap.ExtendOne | src/bitmap.rs:20 | a fresh bitmap with exactly this bit appended |
| Bitmaps.Bitmap.MatchesIdPrefix | src/bitmap.rs:21-30 | true exactly when the bitmap is a prefix of the id's 160 bits |
| Bitmaps.CompareDistance | src/routing.rs:197-202 | comparing two ids by XOR with a target orders them by the integer distance of BEP 5 |
| Bitmaps.DistanceSeparates | src/routing.rs:197-202 | two ids are equally far from a target only if they are the same id, and only the target itself is at distance 0 |
| Buckets.ReorderedSorts | src/routing.rs:24-29 | reordering a bucket puts its nodes oldest first and only permutes them |
| Buckets.ReorderedIsStable | src/routing.rs:24-29 | nodes active at the same moment keep their relative order |
| Buckets.InsertBinds | src/routing.rs:30-45 | a bucket with room, or with the id, afterwards holds its old nodes with this id bound to this node, in order; it has grown by one exactly if the id was new |
| Routing.KBucket.Insert | src/routing.rs:30-45 | the bucket on the heap does what the bucket as a value does, and says whether the node is new |
| Routing.KBucket.Replace | src/routing.rs:51-60 | the same for the removal of an id, with the newest candidate taking its place |
| Routing.KBucket.RandomChildId | src/routing.rs:61-81 | the id has the bucket's prefix, whatever the random bytes, and their bits below it |
| Tries.SplitKeepsNodes | src/routing.rs:117-146 | a split loses, adds and changes no node |
| Bits.FewStringsOfLength | src/routing.rs:151-191 | at most `2^n` bit strings have length `n`: the pigeonhole behind the bound on depth |
| Tries.FullBucketHasDepth | src/routing.rs:117-146 | so a full bucket that lacks an id of its prefix has room below it: `k + 1 <= 2^(160 - depth)` |
| Tries.SplitWellFormed | src/routing.rs:117-146 | splitting a full leaf for an id it lacks keeps the whole trie well formed: shape, prefixes, distinct ids, order, bucket size, no candidates, and the counting bound on depth |
| Tries.PlaceBinds | src/routing.rs:148-192 | from any depth, an insertion keeps the trie well formed and its nodes become the old ones with this id bound to this node, or stay the same if the bits run out |
| Tries.PlaceRunsOutExactly | src/routing.rs:148-192 | an insertion falls out of its loop exactly when the id's leaf is at depth 160, or lacks the id and holds `k` nodes that all share the id's first 159 bits |
| Tries.NeverRunsOut | src/routing.rs:151-191 | for `k >= 2` that never happens in a well-formed trie |
| Tries.LeafDepth | src/routing.rs:151-191 | a leaf below the root satisfies `k + 1 <= 2^(161 - depth)`; for `k = 8` the depth is at most 157 |
| Tries.NodeAtItsLeaf | src/routing.rs:222-229 | every stored node is in the leaf its id leads to, and no other node has its id |
| Tries.RemoveIdRemoves | src/routing.rs:222-229 | walking to an id's leaf and replacing it takes exactly that id out of the trie and keeps it well formed |
| Routing.Split | src/routing.rs:117-146 | the vertex becomes inner with two fresh leaves that hold the halves in order, under the prefix extended by 0 and by 1, and its bucket is drained; at depth 160 nothing happens |
| Routing.RoutingTable.constructor | src/routing.rs:109-114 | a valid table of one empty leaf, listed, with an empty cache |
| Routing.RoutingTable.Insert | src/routing.rs:148-192 | trie and cache become those of the insertion as a value, every leaf stays linked and listed, and the answer is whether the id was new |
| Routing.RoutingTable.RemoveByAddr | src/routing.rs:215-220 | the address leaves the cache and the cached id leaves the trie; nothing else changes |
| Routing.RoutingTable.RemoveFromBuckets | src/routing.rs:222-229 | the walk by bits finds the id's leaf and removes the id there |
| Tables.InsertIntoBinds | src/routing.rs:148-192 | after an insertion the trie's nodes are the old ones with this id rebound, the cache maps the address to the node, and for `k >= 2` it is never dropped |
| Tables.RunIsValid | src/routing.rs:148-274 | after any run of insertions, removals and prunings the trie is well formed, the cache is keyed by address, and both hold only inserted nodes |
| Tables.InsertAgreesExactly | src/routing.rs:164-170 | an insertion keeps cache and trie the same set of nodes if and only if the node's id and address are bound to each other among the nodes held |
| Tables.RunAgrees | src/routing.rs:115-274 | under one id-address binding, after any run cache and trie hold the same nodes and the cache's size counts the trie's nodes |
| Tables.MovedIdDisagrees | src/routing.rs:164-170 | a run that inserts one id at two addresses: two cache entries, and one node in the trie, the later |
| Tables.OneNodeBucketsDrop | src/routing.rs:191 | with `k = 1`, of two ids that differ in the last bit only the first is kept |
| Ages.PlaceMarks | src/routing.rs:19-192 | an insertion gives the current time to the leaves it makes by splitting and, if it stores, to the leaf of its id; every other leaf is as it was |
| Ages.RemoveMarks | src/routing.rs:51-60 | a removal gives it to the id's leaf if that held the id, and leaves every other as it was |
| Ages.LastChangedExactly | src/routing.rs:19-274 | after any run every leaf bears the time of the last operation that made it, stored into it or took a node out of it |
| Ages.RefreshedExactly | src/routing.rs:231-242 | after any run in which time does not go back, a refresh asks the first nodes of a leaf if and only if no such operation is younger than the expiry |
| Neighbors.CutOffIsNearest | src/routing.rs:194-205 | sorting the cached nodes by distance and cutting off leaves the min(size, len) nearest, nearest first, none nearer omitted |
| Routing.RoutingTable.NeighborsByTarget | src/routing.rs:194-205 | returns those nodes |
| Routing.RoutingTable.GetNeighborsCompact | src/routing.rs:208-213 | the concatenated compact contacts of those nodes, in that order |
| Routing.RoutingTable.ListCoversLeaves | src/routing.rs:109-192 | the list of buckets holds every leaf's bucket exactly once, and every other entry is empty |
| Plans.StaleNodesExactly | src/routing.rs:245-256 | so a walk over the list finds every stale node of the trie exactly once and no other |
| Routing.RoutingTable.CollectExpiredNodes | src/routing.rs:245-256 | the loop returns the addresses that walk finds, in its order |
| Routing.RoutingTable.FreshPlan | src/routing.rs:231-242 | the tasks are those of the due buckets with one target each, which fits its bucket's prefix; a crawler is told to clear the addresses asked |
| Plans.TasksStayInLeaf | src/routing.rs:231-242 | the target of each task leads to the leaf of the node that is asked |
| Plans.EachLeafItsShare | src/routing.rs:231-242 | each leaf contributes exactly min(refresh number, its size) tasks if it is due, and none otherwise |
| Pruning.DroppingOldestPrunes | src/routing.rs:266-273 | dropping the oldest in excess leaves exactly `max` nodes, none of the dropped more recent than any left |
| Routing.RoutingTable.Prune | src/routing.rs:259-274 | no stale node is left, the size is the smaller of the bound and the number of fresh nodes, the dropped are no more recent than the kept, and the trie loses exactly the nodes with the id of an entry the cache loses |
| Tables.RemoveAddrsRemoves | src/routing.rs:215-229 | removing addresses one by one takes exactly them out of the cache, and out of the trie exactly the nodes with the id of an entry removed |
| Pruning.FreshNodesStayExactly | src/routing.rs:259-273 | when the bound removes nobody, a pruning takes no fresh node out of the trie if and only if no stale cache entry holds the id of one |
| Pruning.PruningLosesMoved | src/routing.rs:259-264 | a run after which a pruning empties the trie of a fresh node that stays cached |
| Compact.IpPortBytesRoundTrip | src/util.rs:9-18 | every six bytes are written back |
| Compact.IpPortReads | src/util.rs:9-18 | six bytes are four octets and the port, high byte first |
| Compact.ContactsAreRead | src/util.rs:31-42 | of every 26 bytes the first twenty are the id, then come the octets and the port |
| Compact.DecodeCompactNodes | src/util.rs:31-42 | the loop reads one contact for each 26 bytes, and none from a string of another length |
| Compact.BytesRoundTrip | src/util.rs:31-42 | and every string of whole compact nodes is written back from the contacts read |
| Compact.ContactsRoundTripExactly | src/util.rs:9-42 | listed contacts are read back in order if and only if all addresses are IPv4 |
| Decimals.SizeRoundTrip | src/bencode.rs:25 | a printed length is read back |
| Decimals.SignedRoundTrip | src/bencode.rs:34 | a printed 64-bit integer is read back, the minimum included |
| Utf8.LossyKeepsValid | src/bencode.rs:66 | the lossy reading of a key is the identity on valid UTF-8 |
| Utf8.ValidExactly | src/bencode.rs:66 | text is valid if and only if it is spelled by characters: code points up to U+10FFFF that are no surrogates, each in its shortest form |
| Utf8.ReplacementIs | src/bencode.rs:66 | what stands for an ill-formed part is U+FFFD |
| Utf8.LossyIsValid | src/bencode.rs:66 | and always valid UTF-8 |
| SortedMaps.GetPut | src/bencode.rs:66 | putting a key in a dictionary changes what is found under that key and under no other |
| Bencode.DecodingIsLocal | src/bencode.rs:38-69 | an item read at `i` up to `j` is read from those bytes between any others, with the same value and a shifted index |
| Bencode.ItemRoundTrip | src/bencode.rs:38-80 | every value is read back from its encoding at any index, and the returned index is the encoding's end |
| Bencode.RoundTrip | src/bencode.rs:71-80 | decoding an encoding followed by anything yields the value and the encoding's length |
| Bencode.PrefixFree | src/bencode.rs:79-80 | no encoding is a prefix of another value's, so encoding is injective |
| Bencode.DecodedIsWellFormed | src/bencode.rs:38-69 | what is decoded has integers in range and dictionaries with ascending valid keys |
| Bencode.RecodingIsStable | src/bencode.rs:38-80 | encoding what was decoded and decoding it again changes nothing |
| Bencode.FormatSample | src/bencode.rs:73-79 | the bytes of a dictionary with a list of a negative number and a string |
| Bencode.LenientSample | src/bencode.rs:31-36 | a number with a plus sign and a leading zero is read |
| BencodeCodec.WriteItem | src/bencode.rs:79 | the recursive printer appends exactly the encoding to the buffer |
| BencodeCodec.Serialize | src/bencode.rs:80 | so encoding yields it |
| BencodeCodec.ReadList | src/bencode.rs:49-57 | the loop over items is the recursive decoder |
| BencodeCodec.ReadDict | src/bencode.rs:59-69 | the loop over entries is the recursive decoder |
| Wire.HandleKeepsExact | src/wire.rs:168-220 | every message keeps each slot empty or of its exact length, and what it delivers has the announced size and the wanted hash |
| Wire.ExchangeDeliversExact | src/wire.rs:168-220 | over any messages at all, what is delivered hashes to the info hash, has the size the session was told, at most the maximum, and is empty or no whole number of blocks |
| Wire.WholeBlocksNeverComplete | src/wire.rs:199-207 | metadata of a positive whole number of blocks is never delivered, whatever is received |
| Wire.AnyOrderCompletes | src/wire.rs:192-214 | true blocks in any order, repeated, and among other messages, deliver the original bytes as soon as all have been seen and not before |
| Wire.EncodedBlockIsHonest | src/wire.rs:193-203 | a header encoded by the codec with the true block behind it counts as such a block: the returned index is where the block begins |
| Wire.SessionCompletesExactly | src/wire.rs:177-214 | a session with an honest peer delivers if and only if every piece arrives and the size is not a multiple of the block size |
| Wire.FetchMetadata | src/wire.rs:162-220 | the loop over mutable slots is that exchange, with its requests and forwarded peers |
| WireEffects.HandshakeAsks | src/wire.rs:176-191 | a first handshake is accepted if and only if it tells a size within bounds; then as many slots are open as blocks cover the size, and each piece is asked for once, in order, in a message that reads so under the peer's number for the extension; without a number nothing is asked |
| WireEffects.OthersForward | src/wire.rs:193-218 | any other message sends nothing but the addresses of a peer exchange under the peer's number for it, one for every six bytes: four octets, and the port in network order |
| WireEffects.GivesUpExactly | src/wire.rs:165-214 | a peer is given up if and only if a message is too long, or an extended one has no number, is a second or malformed handshake, comes before the first, is no dictionary, or is a piece without an index, of the wrong length, or that completes metadata of the wrong hash |
| WireEffects.AnsweredSessionCompletes | src/wire.rs:177-214 | a session with an honest peer that answers every request it is sent delivers the metadata, unless the size is a whole number of blocks |
| TransactionIds.ToBytes | src/util.rs:21-26 | the loop yields the shortest big-endian bytes of the number, one byte for zero |
| TransactionIds.FromBytes | src/util.rs:28 | the fold reads the big-endian number that any string of bytes denotes, modulo 2^64 |
| TransactionIds.NoLeadingZero | src/util.rs:21-26 | the bytes are at most eight and have no leading zero, but for zero itself |
| TransactionIds.IntRoundTrip | src/util.rs:21-28 | every 64-bit number is read back |
| TransactionIds.IdsDiffer | src/util.rs:21-26 | different numbers have different bytes |
| Transactions.LookupFindsLatest | src/transaction.rs:33-53 | over any interleaving with fresh ids, a lookup by type and address finds the transaction of that kind accepted last if it is in flight, and nothing otherwise |
| Transactions.NeverOverfull | src/transaction.rs:36-44 | no run has more than 10000 transactions in flight |
| Transactions.InsertionHonestExactly | src/transaction.rs:36-47 | though the index is never cleaned, an insertion keeps it truthful if and only if no other entry holds the new id |
| Transactions.NextIdIsFresh | src/transaction.rs:33 | until the cursor wraps, the id drawn is that of no transaction in flight and of no index entry |
| TransactionManagers.TransactionManager.GenId | src/transaction.rs:33 | hands out the cursor modulo its bound as bytes and advances it, wrapping at 2^64 |
| TransactionManagers.TransactionManager.Insert | src/transaction.rs:36-44 | enters both tables unless the first is full |
| TransactionManagers.TransactionManager.GetByIndex | src/transaction.rs:47 | reads through the index into what is in flight |
| TransactionManagers.TransactionManager.ScanTimeouts | src/transaction.rs:55-71 | divides exactly what is overdue into what may be sent again and what is to be dropped |
| Backoff.WaitedIsGeometric | src/transaction.rs:61-65 | while nothing saturates the waits add up to `base * (2^n - 1)` |
| Backoff.BackoffHolds | src/transaction.rs:55-72 | over any run a query is sent again at most the allowed number of times, and each time only after all the waits before |
| Backoff.GivenUpNotBefore | src/transaction.rs:55-71 | what is dropped has been sent again exactly that often, `base * (2^(max + 1) - 1)` seconds or more after it began |
| Peers.RunKeepsLatest | src/peers.rs:14-17 | after any history the peers of an infohash are its last `k` distinct ones by latest arrival, and the table is within its bound |
| Peers.RefusedForGood | src/peers.rs:15 | an infohash once refused is refused ever after |
| Peers.PeersManager.Insert | src/peers.rs:14-17 | the deque is changed in place as that history says |
| Peers.PeersManager.Get | src/peers.rs:18 | returns the most recent part, at most `size` |
| DhtNodes.Dht.HandlePacket | src/dht.rs:88-100 | a packet is a step of the machine: senders on the blacklist are ignored, queries, responses and errors dispatched, and only queries replied to |
| DhtNodes.Dht.HandleRequest | src/dht.rs:102-177 | a query changes peers and routing table as the machine says, and the bytes of the reply are those of the node's answer, with nodes nearest the id asked about |
| DhtNodes.Dht.HandleResponse | src/dht.rs:179-274 | a response changes routing table, transactions and peers as the machine says |
| DhtNodes.Dht.Tick | src/dht.rs:334-347 | a tick is a possible step of the machine: its walks find exactly what is due, silent and timed out |
| DhtNodes.Dht.Search | src/dht.rs:350-382 | a command is a possible step: it asks the cached nodes nearest first |
| DhtAnnouncements.AnnouncementIsStored | src/dht.rs:148-171 | a complete announcement with a valid token in Standard mode stores the sender's address as the newest peer of the infohash, with the announced token and port: the sender's own for a nonzero `implied_port`, else the given one cut to 16 bits, 0 if negative in 32; other infohashes stay, and a new infohash is refused if there are 50000 |
| DhtAnnouncements.OthersStoreNothing | src/dht.rs:102-177 | any other query, and any to a crawler or with an invalid token, leaves the peers alone |
| DhtAnnouncements.AnnouncedIsListed | src/dht.rs:131-171 | whoever asks for the infohash after an announcement over IPv4 reads the announced address in the reply |
| DhtAnswers.InvalidIdIsRefused | src/dht.rs:108-110 | a query without an id of twenty bytes is answered with error 203 |
| DhtAnswers.PingIsAnswered | src/dht.rs:112-117 | a ping is answered with an id: the node's own, or in a crawler one with the first fifteen bytes of the sender's |
| DhtAnswers.FindNodeIsAnswered | src/dht.rs:118-130 | a search is answered with the given nodes, which are near its target, without a target with error 203, and by a crawler not at all |
| DhtAnswers.GetPeersIsAnswered | src/dht.rs:131-147 | a lookup is answered with the token and the latest peers, if none is known with the given nodes, by a crawler with neither, and without an infohash with error 203 |
| DhtAnswers.AnnouncementIsAnswered | src/dht.rs:148-172 | an announcement is answered if and only if the node is no crawler, the token valid, and infohash, port and token are there |
| DhtAnswers.OthersAreNotAnswered | src/dht.rs:102-177 | other queries are not answered |
| DhtAnswers.PingReplySample | src/krpc.rs:17-24 | the reply to a ping is byte for byte that of the example in BEP 5 |
| DhtReplies.ResponseIsRead | src/krpc.rs:17-24 | a response is read by the packet reader as one, under the id of the query it answers and with its body |
| DhtReplies.TrailingIsIgnored | src/krpc.rs:36 | a packet is read the same whatever follows its message |
| DhtReplies.NodesToldAreLearnt | src/dht.rs:118-129 | the answer to a search, received by the node that asked, makes it learn the listed nodes in their order, if and only if all their addresses are IPv4 |
| DhtReplies.PeersToldAreStored | src/dht.rs:139-145 | the answer to a lookup makes the node that asked store the latest peers with IPv4 addresses, oldest first |
| DhtSafety.ReachedIsSafe | src/dht.rs:332-388 | every reachable state is safe: routing table valid and within `max_nodes`, transactions, peers and blacklist within bounds, queries with just the fields of their type, index truthful, and every lookup and ping the one the index has |
| DhtPossible.TickIsPossible | src/dht.rs:334-347 | in every safe state, at any time, a tick can happen: its walks have something to yield |
| DhtPossible.SearchIsPossible | src/dht.rs:350-382 | and so can a command |
| DhtFlights.OneLookupAndOnePing | src/dht.rs:209-375 | in every reachable state with at most max_cursor ids drawn, at most one get_peers and one ping is in flight per address, and the guard by index is exact |
| DhtFlights.AnswerEndsExactly | src/dht.rs:190-273 | an answer ends its query exactly if that is a search for nodes, or a lookup that got peers or was made to announce, or an announcement that got peers; no other query is touched |
| DhtEndings.QueryEndsExactly | src/dht.rs:88-100 | a step ends a query of any type if and only if it is an error message under its id, a complete answer from its address whose contents end that type, or a tick in which it times out; otherwise the query goes on, sent again only by such a tick's sweep |
| DhtEndings.QueryStaysExactly | src/dht.rs:332-388 | over whole runs a query is still in flight, the same but for retries, if and only if no such step has happened since |
| DhtFlights.OtherAnswerExtends | src/dht.rs:190-193 | an answer from another address than was asked changes nothing; an answer to nothing ends nothing |
| DhtFinds.AskedExactly | src/dht.rs:276-321 | of any queries sent without consulting the index those count for which there is room: in the end there is one per address if and only if their addresses are distinct and none was being asked |
| DhtFinds.JoinKeepsToOneExactly | src/dht.rs:276-305 | joining keeps to one find_node per address if and only if no first contact there is room for is listed twice or being searched |
| DhtFinds.RefreshKeepsToOneExactly | src/dht.rs:339 | a refresh does if and only if the addresses it asks, as far as there is room, are distinct |
| DhtFinds.StepKeepsToOneExactly | src/dht.rs:332-388 | any other step always does, and a join or refresh exactly under its condition |
| DhtFinds.RunKeepsToOneExactly | src/dht.rs:332-388 | a run has one find_node per address all along if and only if every join and refresh in it meets its condition |
| DhtFinds.TwoJoinsAskTwice | src/dht.rs:276-305 | a run of two joins does not |
| DhtFinds.PublicSearchKeepsToOneExactly | src/dht.rs:306-321 | the public lookup keeps to one get_peers per address if and only if none of the nodes there is room for was being asked |
| DhtSending.CommandSendsExactly | src/dht.rs:350-382 | all that a command sends are get_peers for its infohash to cached nodes not being asked, bearing the port to announce, new and not retried; every such node gets one unless the table is full in the end |
| DhtSending.CommandIsFollowed | src/dht.rs:241-382 | and as long as one of those is in flight, an answer to it with a token, that brings peers or finds room, makes the node announce the infohash to that address |
| DhtSending.AnswerSends | src/dht.rs:200-273 | all that an answer makes the node send are queries to its contacts for the infohash or target of the query answered, without a port, and an announcement of that infohash to who answered |
| DhtSending.TickSends | src/dht.rs:276-342 | all that a tick sends are find_node for the own id to first contacts if nobody is known, and else pings to the silent and, with nothing left in flight, the tasks of the refresh |
| DhtAsking.SearchAsksEveryNode | src/dht.rs:350-382 | after a command every cached node has one lookup in flight, unless the table is full |
| DhtAsking.LookupSpreads | src/dht.rs:200-253 | after an answer to a lookup or an announcement the addresses with a lookup in flight are exactly those that had one and those at which a contact of the answer is not blocked and comes while neither the routing table nor the table of transactions is full; only the lookup answered itself is in flight exactly if the answer does not end it |
| DhtAsking.SearchSpreads | src/dht.rs:200-273 | after an answer to a search exactly these are in flight: the searches besides the one answered, and one to each address of which the index knew none and at which a contact is not blocked and finds room |
| DhtAsking.RoomIsFound | src/dht.rs:200-211 | a contact finds room if there is still room once all have been learnt |
| DhtAsking.AnnouncementFollows | src/dht.rs:241-271 | a lookup made to announce ends with its answer, and if that has a token an announcement under a new id is in flight to the same address if and only if the answer brought peers, or the table of transactions is not full once its contacts have been learnt |
| DhtAsking.TickPingsTheSilent | src/dht.rs:341-342 | after a tick every silent node that its sweep and refresh leave in the trie has exactly one ping in flight, unless the table is full |
| DhtPings.PingTimesOutExactly | src/dht.rs:336-338 | a tick gives up a ping if and only if `try_times` is 0 and ten seconds have passed |
| DhtPings.TimeoutsForgetExactly | src/dht.rs:338 | a sweep takes exactly the addressees of overdue pings out of the cache, ends exactly those pings, and with retries allowed leaves the routing table alone |
| DhtPings.PingEndsExactly | src/dht.rs:95-97 | a step ends a ping if and only if it is an error message under its id, or a tick that finds it overdue |
| DhtPings.PingStaysExactly | src/dht.rs:334-388 | over whole runs a ping is still in flight, unchanged, if and only if no such step has happened since, and if it is a tick that does not find it overdue refreshes nothing |
| DhtPings.PingHoldsUpRefresh | src/dht.rs:339 | with a ping in flight that is not overdue a tick refreshes nothing |
| DhtPingRuns.PingIsSent | src/dht.rs:341-342 | for every configuration that keeps nodes, a run in which a node greets, keeps silent, and is pinged |
| DhtPingRuns.PingsAreGivenUpExactly | src/dht.rs:338 | some run has a tick give up a ping if and only if `try_times` is 0 |
| DhtWaiting.GivenUpAfterAllRetries | src/dht.rs:336-338 | in every reachable state, what a tick gives up was sent again exactly `try_times` times and began at least the sum of all its timeouts before, which for up to 30 retries is `10 * (2^(try_times + 1) - 1)` seconds |
| DhtWaiting.TimesOutExactly | src/dht.rs:335-338 | in every reachable state a query is given up if and only if it has been retried `try_times` times and has waited `10 * 2^retries` seconds since (up to 30 retries), and sent again if and only if it has waited so, has not, and is a lookup or a search |
| DhtBlocking.HeardExactly | src/dht.rs:92 | a sender is heard if and only if he is not on the blacklist for less than 3600 seconds |
| DhtBlocking.TickBlocksExactly | src/dht.rs:338-344 | after a tick the blacklist holds entries younger than that only, all those that were, and new ones only for queries other than pings that timed out |
| DhtBlocking.UnresponsiveAreBlocked | src/dht.rs:338 | whoever lets a query other than a ping time out, at a tick whose sweep leaves the blacklist not full, has every packet within the hour change nothing, however the run goes on |
| DhtLearning.AnswerTeaches | src/dht.rs:200-206 | an answer changes cache and trie contact by contact, in order: one that is not blocked, comes while there are fewer than `max_nodes` nodes and has a place in the trie is cached under its address and bound to its id, any other changes nothing |
| DhtLearning.ContactIsCached | src/dht.rs:200-206 | so with room for all every unblocked contact is cached afterwards, unless a later one has its address |
| DhtLearning.TickLeavesExactly | src/dht.rs:334-346 | after a tick exactly those nodes are cached that were, whose ping is not overdue, whom a crawler's refresh did not ask, and who are not stale |
| DhtMemory.SendersAreRemembered | src/dht.rs:102-176 | the sender of a query other than a ping with all its arguments is bound in the trie and cached if there is room for it in both; with nodes enough the table stays as it is, without a place in the trie its nodes and the cache do; any other query changes nothing |
| DhtMemory.PruningDropsOnlyStale | src/dht.rs:345 | a tick's pruning leaves cached exactly the nodes that are not stale, as the bound on nodes never removes one, and the trie loses exactly the nodes with the id of a stale entry |
| DhtMemory.TickKeepsFreshExactly | src/dht.rs:345 | a tick's pruning takes no fresh node out of the trie if and only if no stale cache entry holds the id of one |
| DhtMemory.PeersAreTheLatest | src/dht.rs:168-247 | in every reachable state the peers of each infohash are the last `k` distinct ones of one history of arrivals |
| DhtAgreement.ReachedAgrees | src/dht.rs:176-205 | if the contacts that the packets of a run speak of keep to one id-address binding, cache and trie hold the same nodes in the state reached, and the cache's size counts them |
| DhtAgreement.PingedAreForgotten | src/dht.rs:341-345 | under such a binding every node a tick pings is gone from cache and trie when it ends |
| DhtAges.LeafBearsTime | src/dht.rs:332-388 | over whole runs a leaf that has changed bears the time of an event since, and any other is as it was |
| DhtAges.TickRefreshesExactly | src/dht.rs:339 | a tick with nothing left in flight asks the first `refresh_node_num` nodes of every leaf unchanged for `kbucket_expired_after`, and none of any other |
| DhtAges.TickAsksInLeaf | src/dht.rs:339 | each about an id of its own leaf |
| DhtAges.TickPingsExactly | src/dht.rs:341-342 | and it pings exactly where nodes have been silent for longer than `node_expired_after` |
| DhtMoves.TickLosesMoved | src/dht.rs:345 | a run in which a node greets from two addresses, and a tick after which it is cached under the second, fresh, and no longer in the trie |
| DhtMoves.BoundRunKeepsToOneExactly | src/dht.rs:332-388 | under one id-address binding of all contacts spoken of, a run has one find_node per address all along if and only if every join in it meets its condition: refreshes always do |
| DhtMoves.RefreshSearchesTwice | src/dht.rs:339 | without it a run with no join at all in which a refresh searches one address twice |

## Left out

- Sockets, timers, tasks, name resolution, TCP framing and timeouts: packets and payloads are given as sequences; a stream that ends early is an exchange with no further message, and a message over 1048576 bytes fails.
- The bytes of the queries sent, callbacks and logging: of what the node sends only its replies are modelled.
- Tokens (src/token.rs): the token handed out, and whether an announcement's token is valid, are inputs; and bare addresses on the blacklist, which the node never enters.
- src/web.rs, src/storage.rs, src/main.rs, src/logger.rs, and the queue around `fetch_metadata` in src/wire.rs.
- The loop of `Dht::run` (src/dht.rs:69-86), an older variant of the one in `Dht::start` that blocks the addressee of a ping too.
- Text forms of addresses as keys; decoded contacts are always IPv4, for which the forms used in src/dht.rs agree.
- Responder channels and the sharing of a transaction by reference count: a transaction is a value in the table.
- `add_candidate` (src/routing.rs:46-50) and the branch that calls it (src/routing.rs:184-188): proved unreachable, so the body there is a proof that it is not entered.
- The bound of the call stack on nested bencode; arithmetic is as in a release build, where `pieces_num - 1` wraps for a size of 0.
- Standard library sorting is a stable insertion, decimal parsing and printing and lossy UTF-8 are as the Rust standard library documents them.
- Transactions.LookupFindsLatest: asks for fresh ids, since two transactions under one id overwrite one another; the ids drawn are fresh until the cursor wraps (`Transactions.NextIdIsFresh`).
- DhtFlights.OneLookupAndOnePing: is stated for runs that have drawn at most max_cursor ids, after which ids repeat; so are the other results about queries in flight.
- DhtPingRuns.PingsAreGivenUpExactly: is stated for a configuration that keeps nodes at all, `max_nodes` and the bucket size being positive; with either at 0 the routing table stays empty.
- DhtWaiting.GivenUpAfterAllRetries: says when a query may be given up, not that it will be: that needs a tick.
- Routing.RoutingTable.FreshPlan: takes a random id for each bucket, also for those that turn out not to be due.
