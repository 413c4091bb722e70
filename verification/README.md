# A verified model of an authenticated Kademlia node

The project models the deterministic core of a Kademlia node whose records are signed documents, and
proves what that core keeps over every run. Sockets, tasks, clocks, random numbers and signature schemes
are parameters or steps of a state machine. `dafny verify dfyconfig.toml` checks everything.

## How it is put together

| files | what they model |
|---|---|
| `Bits`, `Nodes`, `Contacts` | exclusive-or on naturals, aligned power-of-two blocks, 20-byte identifiers and their 128-bit fold, lists of contacts |
| `Buckets`, `Insertion`, `Table`, `Depths`, `TableRuns`, `Unrolling`, `Jams` | k-buckets with replacement lists, recursive insertion with splits, the table, the prefix that the identifiers of a bucket share, every run of it, what not returning means for the recursion over the bucket vector, and a run that ends in it |
| `KBuckets`, `RoutingTables` | the same as classes that are updated in place, proved equal to the functions |
| `Sorting`, `Neighbors`, `NearestNeighbors`, `NeighborLimits` | the traverser and the neighbours it collects, exactly when they are the k nearest, and runs after which they are not |
| `Refresh`, `Replication` | the refresh pass over lonely buckets, and which holder passes a record on |
| `Closest`, `NodeHeaps`, `Crawls`, `Replies`, `ValueCrawls` | the bounded heap of near nodes and the iterative lookups against an arbitrary network, with replies in any order |
| `CacheTargets`, `SilentPeers` | which peer a value lookup caches the value at, and a lookup that ends with a peer that never answered |
| `Fragmentation`, `Reassembly` | datagrams of a message and their reassembly under loss, reordering, duplication and collection |
| `Storage`, `Auth`, `Cache`, `Records`, `CachedStores`, `RecordHandlers` | the store with lazy expiry, verdicts on records, the verdict cache, the life of a record under interleaved handlers, and what the cache does to it |
| `Dispatch` | the receive loop and its bounded worker queues |

Conventions:

- The bucket width is a parameter `w` and the fold a parameter `f`; the node uses `w = 128` and
  `Nodes.Fold`. Times are naturals. A bucket insertion uses one time for all its splits.
- A contact list or bucket that the program owns inside a container is a value in a `seq` field; the class
  methods put it into a temporary object, change it and put it back.
- The network of a lookup is any function from the asked node to a reply. Since no identifier is asked
  twice, this covers replies that change over time. Iteration over a hash map is an arbitrary choice.
- `Table.Inv` is the table invariant: the buckets tile the whole space with aligned blocks, every bucket
  is well formed (at most k primaries, at most 5k replacements, replacements only beside k primaries, no
  identifier twice, everybody inside the range), every held point is the fold of its identifier, and the
  owner is nowhere.

Where the code and its comments disagree, the model follows the code:

- `src/node.rs:19-22` says the fold loses nothing. `Nodes.FoldFibre` shows that every folded value has one
  preimage for each choice of four bytes. So insertion can fail to return: `Table.AddJams` says exactly when,
  and `Jams.RealJam` gives the run.
- `src/routing.rs:325-331` promises the k closest nodes. `NearestNeighbors.NearestExactly` says exactly when
  the answer is right, and `NeighborLimits.WrongAnswerReached` gives, for every k, a run after which it is not.
- `src/crawling.rs:168-170` promises the single nearest node without the value as the place to cache it.
  `CacheTargets.TargetExactly` says exactly when that is so in every order of the replies, and
  `CacheTargets.WrongTargetReached` gives a lookup that picks a farther one.
- `src/protocol.rs:209-216` accepts messages up to 262144 bytes. `Reassembly.TooLargeNeverDelivered` shows
  that those above 261800 bytes are never delivered.
- `src/protocol.rs:837-838` promises to verify a value for its key. The cache key leaves out the mode of the
  key: `CachedStores.StoresVerifiedExactly` says exactly when this makes no difference, and
  `CachedStores.StatusKeyTaken` gives the run in which it does.

## Model

| member | source | states |
|---|---|---|
| `Bits.XorBits` | src/node.rs:64-66 | each bit of the distance is the sum, without carry, of the bits of the two points at its place |
| `Bits.XorExactly` | src/node.rs:64-66 | the distance is the one number whose bits are set exactly where the points differ |
| `Bits.XorCancels` | src/node.rs:64-66 | two points at the same distance from a target are the same point |
| `Bits.BlockSeparates` | src/node.rs:64-66 | from inside an aligned block, exactly the points of the block are nearer than its width |
| `Bits.Halves` | src/routing.rs:117-122 | an aligned block of more than one point halves at the midpoint into two aligned, non-empty blocks |
| `Bits.BlocksCompare` | src/node.rs:64-66 | seen from any target, of two disjoint aligned blocks one is nearer with all its points |
| `Nodes.FromBytesConcat` | src/node.rs:55-61 | bytes are read with the most significant first: bytes in front count for as many powers of 256 as there are bytes behind them |
| `Nodes.FoldParts` | src/node.rs:55-61 | the low 96 bits of the fold are bytes 4 to 15, and the top 32 are the exclusive-or of the first four bytes and the last four |
| `Nodes.FoldFibre` | src/node.rs:55-61 | the fold has exactly one preimage for each choice of the last four bytes, so it is not injective |
| `Buckets.AddAccepts` | src/routing.rs:74-86 | a contact is accepted when it is a primary already or there is room; it becomes the newest primary and nobody is forgotten |
| `Buckets.AddRefuses` | src/routing.rs:87-94 | a refused contact is the newest replacement; only the oldest replacement of a list at its cap is forgotten, for a contact unknown so far |
| `Buckets.AddExactly` | src/routing.rs:74-94 | what an addition does to the two lists place by place: the contact goes from its old place to the end of the primaries, or to the end of the replacements, whose first members leave above the cap; nobody else changes place |
| `Buckets.RemoveNodeFacts` | src/routing.rs:100-108 | removal forgets exactly one identifier, keeps all other primaries and stays well formed |
| `Buckets.RemoveExactly` | src/routing.rs:100-108 | what a removal does to the two lists place by place: the contact is taken out of its place, and if it was a primary the last remaining replacement becomes the last primary; nobody else changes place |
| `Buckets.NewestPromoted` | src/routing.rs:96-108 | in a well-formed bucket the last primary after the removal of one is the last replacement before it |
| `Buckets.SplitKnown` | src/routing.rs:117-133 | the halves together know exactly the contacts of the bucket |
| `Buckets.SplitPrimaries` | src/routing.rs:117-133 | no primary is demoted by a split |
| `Insertion.InsertAligned` | src/routing.rs:299-313 | every resulting bucket is an aligned block, and the bucket around the contact halves with each split |
| `Insertion.InsertContacts` | src/routing.rs:299-313 | through any number of splits every primary stays primary and only one evicted replacement can be lost |
| `Insertion.InsertReturns` | src/routing.rs:299-313 | insertion returns when fewer than k other contacts share the folded identifier |
| `Insertion.InsertJams` | src/routing.rs:299-313 | insertion fails to return if and only if the contact is refused, k others in the bucket share its point, and every block around the point, filled with the bucket's contacts that belong there, may split |
| `Unrolling.UnrollIsInsert` | src/routing.rs:299-313 | the recursion that finds the bucket, adds, splits the bucket in the vector and starts over ends exactly when insertion on values returns, after one call more than it makes splits, with the same table and answer |
| `Unrolling.NoReturnIsForever` | src/routing.rs:299-313 | that an addition fails to return means that no number of calls of that recursion comes to an end |
| `Insertion.OwnPointSplits` | src/routing.rs:303-309 | at the owner's own point every such block may split |
| `Table.HomeBucket` | src/routing.rs:369-374 | an identifier is known to the bucket around its point and to no other |
| `Table.AddKeepsInv` | src/routing.rs:292-313 | adding a contact keeps the table invariant |
| `Table.AddSplits` | src/routing.rs:299-313 | one addition makes at most `w` splits, each of which halves the bucket around the contact |
| `Table.AddReturns` | src/routing.rs:292-313 | an addition returns when fewer than k other known identifiers fold to the same point |
| `Table.AddJams` | src/routing.rs:292-313 | an addition fails to return if and only if its bucket refuses it, k others there fold to its point, and every block around the point in the bucket's range may split |
| `Table.AddConserves` | src/routing.rs:292-313 | afterwards the table knows what it knew plus the contact, minus at most one identifier, the oldest of 5k replacements; every primary is still one |
| `Table.AddPlaces` | src/routing.rs:292-313 | no answer means newest primary; an answered contact is the oldest primary of a full bucket that does not cover the owner and whose shared prefix has a length divisible by 5, and the new contact is its newest replacement |
| `Table.AddAnswer` | src/routing.rs:292-313 | nobody is answered if and only if the contact is now a primary |
| `Table.RemoveKeepsInv` | src/routing.rs:315-318 | removing a contact keeps the table invariant |
| `Table.RemoveForgets` | src/routing.rs:315-318 | removal forgets that identifier everywhere, nothing else, and demotes nobody |
| `Table.RemoveInPlace` | src/routing.rs:315-318 | only the bucket around the contact changes, and its lists change as a removal changes them place by place |
| `TableRuns.RunSafe` | src/routing.rs:292-318 | every table reachable by additions, removals and lookups satisfies the invariant and knows only offered identifiers |
| `TableRuns.RemovedStaysOut` | src/routing.rs:315-318 | a removed identifier is nowhere in the table until it is offered again |
| `TableRuns.RunReturns` | src/routing.rs:299-313 | when at most k offered identifiers fold to any one point, every addition in every run returns |
| `Jams.RealJam` | src/routing.rs:299-313 | for every owner and every k below 2^32 - 1 there is a run of real identifiers after which an addition does not return |
| `Buckets.AgreeFrom` | src/routing.rs:137-159 | the found bit is the first one where the contacts disagree, or the end of the identifier |
| `Depths.BitAtIs` | src/routing.rs:147-151 | bit j of an identifier is that of the identifier as a number, counted from the top |
| `Depths.DepthExactly` | src/routing.rs:137-159 | the identifiers of a list share their first d bits, as numbers, if and only if d is at most the depth |
| `Depths.MaySplitExactly` | src/routing.rs:304-307 | a bucket may split if and only if it covers the owner or the length of the longest common prefix of its primaries is no multiple of 5 |
| `KBuckets.KBucket.AddNode` | src/routing.rs:74-94 | the in-place lists after an addition, and the flag, are those of the bucket function and change place by place as stated there |
| `KBuckets.KBucket.RemoveNode` | src/routing.rs:100-108 | the in-place lists after a removal are those of the bucket function; the last remaining replacement takes the vacated place |
| `KBuckets.KBucket.Split` | src/routing.rs:117-133 | re-adding all contacts one by one fills the two halves with exactly the contacts of their ranges, primaries first |
| `KBuckets.KBucket.Depth` | src/routing.rs:137-159 | the bit loop finds the length of the common prefix of the primaries |
| `RoutingTables.RoutingTable.constructor` | src/routing.rs:278-284 | a new table is one bucket over the whole space |
| `RoutingTables.RoutingTable.BucketIndexFor` | src/routing.rs:369-374 | the found bucket is the first that covers the point, or the last one |
| `RoutingTables.RoutingTable.SplitBucket` | src/routing.rs:362-367 | the halves stand in the place of the split bucket, also for a single point; the table stays a tiling if there was more than one |
| `RoutingTables.RoutingTable.Insert` | src/routing.rs:299-313 | the recursion over the bucket vector computes the insertion on values, and ends whenever that one does |
| `RoutingTables.RoutingTable.AddContact` | src/routing.rs:292-297 | the table and the answer are those of the specification, and the invariant stays |
| `RoutingTables.RoutingTable.RemoveContact` | src/routing.rs:315-318 | the identifier is gone, everybody else is still known, only the bucket around the contact changes, as a removal from it does, and the invariant stays |
| `RoutingTables.RoutingTable.IsNewNode` | src/routing.rs:320-323 | a node is new if and only if it is a primary nowhere in the table |
| `RoutingTables.RoutingTable.FindNeighbors` | src/routing.rs:332-354 | the answer is a legal one for the table before the call, and only the stamp of the target's bucket changes |
| `Neighbors.Traverser.constructor` | src/routing.rs:211-231 | the traverser starts in the target's bucket with the buckets left and right of it stacked |
| `Neighbors.Traverser.Next` | src/routing.rs:237-266 | each call yields the next contact of the remaining traversal and the traversal ends |
| `Neighbors.AroundOnce` | src/routing.rs:210-267 | for any target the traversal yields every primary of every bucket exactly once |
| `Neighbors.FindNeighbors` | src/routing.rs:332-354 | the loop with its early stop and the sort return the first k eligible contacts of the traversal, nearest first |
| `Neighbors.AnswerSize` | src/routing.rs:332-354 | the answer has min(k, eligible) distinct contacts and never the target or the excluded node |
| `Neighbors.AnswerHasBucket` | src/routing.rs:332-354 | every eligible contact of the target's bucket is answered |
| `Neighbors.AnswerBucketFirst` | src/routing.rs:332-354 | contacts of the target's bucket come strictly before all others and are strictly nearer |
| `Neighbors.AnswerNearest` | src/routing.rs:332-354 | in particular, whoever is left out is strictly farther when the target's bucket supplies k or at most k are eligible |
| `NeighborLimits.FirstBucketAnswers` | src/routing.rs:219-231 | if the target's bucket offers nobody and the first bucket offers k, the answer is k contacts of the first bucket, wherever the target is |
| `NearestNeighbors.CloserMeansNearer` | src/routing.rs:332-354 | contacts of two buckets of a reachable table compare in distance as the buckets do |
| `NearestNeighbors.VisitsAll` | src/routing.rs:210-267 | the traversal empties every bucket once, one after the other, each from its end |
| `NearestNeighbors.VisitsByPosition` | src/routing.rs:210-267 | the order by position: the target's bucket, then the first bucket of the table and the one right of the target's, the second and the next, and so on, and then the rest of the longer side in order |
| `NearestNeighbors.SuppliesExactly` | src/routing.rs:332-354 | a bucket supplies a contact if and only if it has an eligible one and fewer than k eligible ones come before it |
| `NearestNeighbors.LeavesExactly` | src/routing.rs:332-354 | a bucket leaves an eligible contact out if and only if those before it and its own are more than k |
| `NearestNeighbors.NearestExactly` | src/routing.rs:332-354 | the answer is the k nearest if and only if, in the order of the visits, every bucket with an eligible contact that is reached before k are counted is closer than every other bucket not finished by then, and the bucket inside which the count reaches k has its nearest eligible contacts last |
| `NeighborLimits.ThreeBucketsReached` | src/routing.rs:292-318 | for every k, additions that fill and split the table twice and removals that empty its last quarter lead to a table whose traversal from there starts with the farthest bucket |
| `NeighborLimits.WrongAnswerReached` | src/routing.rs:325-354 | for every k, real identifiers lead a real table to a state in which the answer is k contacts and a known contact that it leaves out is nearer than all of them |
| `Refresh.PointFolds` | src/protocol.rs:960-964 | an identifier drawn for a point folds back to that point |
| `Refresh.GetRefreshIds` | src/protocol.rs:951-967 | one identifier is drawn for each lonely bucket and folds into its range; every bucket untouched for more than 3600 seconds gets one, and no other does |
| `Refresh.RefreshReaches` | src/network.rs:694-703 | once all drawn identifiers were looked up, whatever else ran in between, every bucket over any point of a range lonely at the draw lies inside that range, has a stamp from the draw or later, and is not lonely |
| `Replication.ReplicatesExactly` | src/protocol.rs:884-916 | a stored record is passed on if and only if its key has 20 bytes and nobody is known near it, or the newcomer is nearer to it than the last neighbour and the holder nearer than the first |
| `Replication.ReplicatesNear` | src/protocol.rs:884-916 | with the neighbours in ascending distance: the newcomer is nearer than some of them, and the holder nearer than all |
| `Replication.AtMostOneHolder` | src/protocol.rs:904-909 | of two holders that see each other, at most one finds itself closest |
| `Replication.OnlyClosestPasses` | src/protocol.rs:884-916 | in a fully connected cluster of at most k + 1 nodes, a node finds itself closest if and only if it is closer to the key than all others |
| `Closest.ClosestUnique` | src/node.rs:176-185 | there is only one set of the k closest |
| `Closest.ClosestGrows` | src/node.rs:176-185 | the k closest of the k closest and more are the k closest of all |
| `NodeHeaps.StreamingTopK` | src/node.rs:160-185 | after any sequence of pushes the heap holds exactly the `maxsize` closest of everything ever pushed |
| `NodeHeaps.PushOrderIrrelevant` | src/node.rs:160-185 | pushing the same nodes in any order and any grouping leaves the same identifiers |
| `NodeHeaps.NodeHeap.Push` | src/node.rs:160-173 | the heap becomes the cut of the old heap and the new identifiers |
| `NodeHeaps.NodeHeap.EnforceMaxsize` | src/node.rs:176-185 | as many nodes stay as fit, and no dropped node is nearer than one kept |
| `NodeHeaps.NodeHeap.Remove` | src/node.rs:188-199 | every node stays as often as it was there, except those with a named identifier, which are gone |
| `NodeHeaps.NodeHeap.PopLeft` | src/node.rs:202-204 | a nearest node leaves, and nothing else |
| `NodeHeaps.NodeHeap.GetUncontacted` | src/node.rs:244-260 | ascending in distance, and, for a heap within its size, exactly the nodes that were not contacted |
| `Crawls.PicksExactly` | src/crawling.rs:134-147 | a round asks nodes of the heap that were not contacted, nearest first: `alpha` of them, or all that are left if fewer are or the nearest did not change; nobody left out is nearer than one asked |
| `Crawls.PicksNobody` | src/crawling.rs:134-147 | a round asks nobody if and only if everybody near was asked, or `alpha` is 0 and the nearest changed |
| `Crawls.SpiderCrawl.FindRound` | src/crawling.rs:127-161 | the asked nodes are such a round, `lastIds` are the sorted identifiers, the asked ones are marked, and exactly they have a reply |
| `Crawls.Absorb` | src/crawling.rs:268-277 | in whatever order the replies are taken, the heap stays a top-k of all that was heard if all replied, and the silent peers of the round are gone |
| `Crawls.VouchStep` | src/crawling.rs:268-277 | a silent peer is near again only if a node asked later names it |
| `SilentPeers.SilentAnswerReached` | src/crawling.rs:259-283 | that happens: a real lookup ends with a peer among its nodes that never answered |
| `Crawls.FindNodes` | src/crawling.rs:259-283 | the lookup ends; no identifier is asked twice; only nodes heard of are asked; every answered node was asked, and one that was silent was named again by a node asked later; if all asked nodes replied, the answer is exactly the k closest of all nodes heard of; at most one round per asked node plus one (`alpha` at least 1) or two (`alpha` 0) |
| `Crawls.AnyNetKeyed` | src/crawling.rs:59-74 | whatever a network replies, decoded nodes lie at the distance of their folded identifier |
| `Crawls.DecodedExactly` | src/crawling.rs:59-74 | every tuple of a reply with an identifier of 20 bytes comes out as the node with that identifier, its fold and the address of the tuple, wherever it stands, and nothing else does |
| `Crawls.DecodedConcat` | src/crawling.rs:59-74 | the tuples are decoded in order, a malformed one does not stop the rest |
| `Crawls.ReachesGlobalClosest` | src/crawling.rs:259-283 | if every asked node replies and all but `g` name a strictly closer node, a lookup from any start answers `g` first |
| `ValueCrawls.Majority` | src/crawling.rs:217-227 | the chosen value occurs at least as often as any other |
| `ValueCrawls.FindValue` | src/crawling.rs:187-243 | the rounds form a trace, with the replies of each in some order; a hit is the majority value of the first round that brought one, and the cache target is the peer remembered after that trace, an asked node without the value, there if and only if an asked node lacked it, such that every other is no nearer or has k nodes heard of at least as near as itself; a miss means nobody asked had a value and the nodes are those of a node lookup; rounds are bounded as above |
| `Replies.TraceTracked` | src/crawling.rs:196-214 | in every trace, in every order of the replies: only nodes heard of are near, nobody is asked twice, and of the nodes without the value each is no nearer than the remembered one or has k nodes heard of at least as near as itself |
| `CacheTargets.RoundExactly` | src/crawling.rs:199-213 | in a round, the nearest node without the value is remembered in every order of the replies if and only if fewer than k nearer nodes are near at its start or named by the other nodes of the round without the value |
| `CacheTargets.TargetExactly` | src/crawling.rs:168-170 | over the whole lookup, the nearest node without the value is the cache target in every order of the replies of its round and every continuation if and only if that holds in the round that asks it |
| `CacheTargets.NearestForgotten` | src/crawling.rs:199-213 | when the farther of two peers names two nodes nearer than both, there is an order in which the farther one is remembered and the nearer one is not |
| `CacheTargets.WrongTargetReached` | src/crawling.rs:168-170 | real identifiers and replies make a lookup pick the farther of two nodes without the value |
| `Fragmentation.EncodeFragments` | src/fragmentation.rs:83-108 | the datagrams are the pieces of the payload under their headers, one for the empty payload |
| `Fragmentation.ChunkAt` | src/fragmentation.rs:83-108 | piece i is the stretch of the payload from 1400 times i, 1400 bytes long or up to the end |
| `Fragmentation.DatagramLayout` | src/fragmentation.rs:83-108 | where magic number, message number, index, count and chunk stand in a datagram, most significant byte first |
| `Fragmentation.ParseDatagram` | src/fragmentation.rs:119-141 | parsing an encoded datagram gives back its number, index, count and chunk |
| `Fragmentation.ParseExactly` | src/fragmentation.rs:119-141 | parsing accepts exactly the bytes that are laid out as a fragment with an index below its count, and reads that fragment |
| `Fragmentation.JoinChunks` | src/fragmentation.rs:83-108 | the chunks joined are the payload |
| `Fragmentation.PieceCount` | src/protocol.rs:293-301 | of the messages a sender accepts, exactly those up to 261800 bytes fit the receiver's bound |
| `Reassembly.ReassemblySafe` | src/protocol.rs:276-344 | for any reordering, duplication, loss, collection and foreign traffic, every delivery has the payload that was sent, and there are never more deliveries than copies of any one datagram |
| `Reassembly.DeliveredOnce` | src/protocol.rs:276-344 | a message whose datagrams each arrive once, in any order and however late, is delivered exactly once if no collection between its first and its last datagram comes a lifetime or more after the first, and never otherwise |
| `Reassembly.ThrownIsLost` | src/protocol.rs:192-196 | a buffer that is thrown away takes a copy of some datagram with it for good |
| `Reassembly.KeptExactly` | src/protocol.rs:192-196 | the buffer of the message is kept through all events if and only if no collection comes so late |
| `Reassembly.TooLargeNeverDelivered` | src/protocol.rs:293-301 | a message above 261800 bytes that the sender accepts is never buffered or delivered |
| `Reassembly.AssemblyNeverFails` | src/protocol.rs:329-343 | in every run, a buffer that reports completeness can be assembled |
| `Reassembly.ReassemblyEntry.Insert` | src/fragmentation.rs:58-68 | a chunk is counted once and the last one reports completeness |
| `Reassembly.ReassemblyEntry.Assembled` | src/fragmentation.rs:70-76 | the loop joins all chunks, or fails if one is missing |
| `Reassembly.Reassembler.HandleDatagram` | src/protocol.rs:276-344 | the handler is one receive step, followed by a collection when a buffer stays incomplete |
| `Storage.LazyRefinesEager` | src/storage.rs:63-121 | no sequence of operations at any times can tell the lazy store from one that drops records the instant they expire |
| `Storage.ForgetfulStorage.PutIfAbsent` | src/storage.rs:76-93 | the record is written if and only if the key is absent or its record is older than the lifetime; a live one is kept and reported |
| `Storage.ForgetfulStorage.Read` | src/storage.rs:95-100 | the value is returned if and only if it is there and not older than the lifetime |
| `Auth.SplitPacked` | src/auth_handler.rs:78-104 | a record laid out as algorithm, signature and document splits into these |
| `Auth.SplitCovers` | src/auth_handler.rs:78-104 | signature and document cover the whole record after the name field, and the signature has its algorithm's length |
| `Auth.SplitExactly` | src/auth_handler.rs:78-104 | a record splits into exactly the parts it is laid out of |
| `Auth.SelfSignedExactly` | src/auth_handler.rs:150-157 | a record is accepted if and only if the foreign verifier accepts its signature over its document under the key in that document |
| `Auth.RotationExactly` | src/auth_handler.rs:164-182 | a rotation is accepted if and only if the verifier accepts the given signature over the new record under the key in the old document, and the new record's own signature |
| `Auth.DeleteSignedExactly` | src/auth_handler.rs:198-211 | a deletion is accepted if and only if the verifier accepts the given signature over the message under the key in the stored document |
| `Auth.IssuerSignedExactly` | src/auth_handler.rs:212-223 | a record is accepted as the issuer's if and only if the verifier accepts its signature over its document under the issuer's key |
| `Auth.PackedVerdicts` | src/auth_handler.rs:78-104 | the same for a record as a signer packs it |
| `Records.Provenance` | src/protocol.rs:465-617 | in every interleaving of checks, reads, verdicts and commits, each write is a store with an accepting answer, of the cache or of a verification, onto an absent or expired key, or a rotation authorised by a value that was live at the key, or an issuer's record; every stored value is one of these |
| `Records.ChangesLogged` | src/protocol.rs:465-617 | a step that leaves another record at a key is a logged write of it at the current time |
| `Records.DeletionsExactly` | src/protocol.rs:585-617 | a record leaves the store if and only if a deletion commits that is signed with the key of a value that was live there |
| `Records.AncestryEnds` | src/protocol.rs:513-549 | every write has a finite ancestry at its own key, each member authorised by the next, that ends in an accepted store or an issuer's record |
| `Records.StoredHasAncestry` | src/protocol.rs:465-617 | in every run, whatever is stored has such an ancestry |
| `Records.ReplacesExactly` | src/protocol.rs:513-549 | in every run, the commit of an accepted update replaces the value that authorised it if and only if the record is still there and nobody has written at its key since the value that was read |
| `Records.NoOverlapReplacesAuthoriser` | src/protocol.rs:513-549 | in particular when nobody writes or removes the record between read and commit, whatever is refused meanwhile |
| `Records.OverlapForks` | src/protocol.rs:513-549 | two overlapping updates fork: the later commit replaces a value that did not authorise it |
| `Records.OverlapReachable` | src/protocol.rs:465-549 | a store and two reads reach such an overlap |
| `CachedStores.RootVerified` | src/protocol.rs:839-869 | every record written by a store was accepted, in some mode, by a real verification of the same bytes before or with the answer it used |
| `CachedStores.StoredIsSigned` | src/auth_handler.rs:150-181 | in every run, with the cache or without, everything stored splits into parts whose signature over the document the verifier accepts, under the key in that document or the issuer's key |
| `CachedStores.StoresVerifiedExactly` | src/protocol.rs:465-511 | over all runs, every stored record verifies in the mode of its key if and only if there is no cache or no record is asked in both modes and accepted in only one |
| `CachedStores.StatusKeyTaken` | src/protocol.rs:839-869 | with the cache, a self-signed record that the issuer did not sign can end up at the status key |
| `RecordHandlers.Handlers.RpcStore` | src/protocol.rs:465-511 | the record is inserted, and success reported, if and only if no live record is there and the cache remembers an acceptance or, without a remembered answer, the verifier accepts its signature under the key that its mode demands |
| `RecordHandlers.RequestExactly` | src/protocol.rs:513-617 | an update, a status list or a deletion is accepted if and only if the verifier accepts the signatures that it needs |
| `RecordHandlers.StoreOnceIs` | src/protocol.rs:465-511 | from any state, the steps of the state machine for an undisturbed store do the same to the store and the cache |
| `RecordHandlers.Handlers.ReadPhase` | src/protocol.rs:513-617 | what the update, status-list and delete handlers read before they suspend, and that an absent key ends them |
| `RecordHandlers.Handlers.CommitPhase` | src/protocol.rs:513-617 | success means that the verifier accepts the signatures over the value read; then the record is written or removed, and otherwise nothing changes; the same as in the state machine |
| `Cache.CacheTransparent` | src/protocol.rs:839-869 | over all runs, interleavings and evictions the answers are the uncached verdicts if and only if there is no cache or no record is asked in both modes and accepted in only one |
| `Cache.StepGrounded` | src/protocol.rs:839-869 | every acceptance, remembered or new, goes back to a real verification of the same bytes |
| `Cache.OneModeTransparent` | src/network.rs:535-568 | in particular when each record is asked in one mode only |
| `Cache.ConflictShows` | src/signature_cache.rs:27-39 | the run in which an acceptance in one mode answers a check in the other |
| `Cache.CheckNowIsSteps` | src/protocol.rs:839-869 | an undisturbed check is a look and, on a miss, a finish; only acceptances are remembered |
| `Dispatch.Conserved` | src/network.rs:96-140 | in every interleaving with the workers: no queue above 256; every received datagram is queued once, taken once or in the loop's hands; each worker gets its share in order of arrival; the loop blocks only after finding every queue full in that pass |
| `Dispatch.PassSettles` | src/network.rs:115-133 | an undisturbed pass puts the datagram into the first queue with room in cyclic order, or blocks at the base |
| `Dispatch.FirstRoomIsFirst` | src/network.rs:117-124 | the chosen try finds room and no try before it does |
| `Dispatch.NoRoomAnywhere` | src/network.rs:125-129 | a pass that fails has seen every queue full, from whichever worker it starts |
| `Dispatch.Dispatcher.Place` | src/network.rs:115-133 | the loop over the workers sends to the first with room, sets the next start behind it, and changes nothing if there is none |

## Left out

- UDP sockets, tasks, timeouts, serialization and logging: only the steps they trigger are modelled.
- Signature algorithms, base64, the document parser, SHA-1 and SHA-256: parameters, with collision freedom as a stated hypothesis of the cache results.
- The issuer's key file is read once per run in the model; a key that changes between checks is not modelled.
- `Server::set`, `update` and `delete` and their fan-out: message plumbing whose local writes add easy cases to the record results.
- Counting of invalid signatures and the removal it triggers: the removal is an ordinary `Remove` of `TableRuns`, and the peer can be added again.
- LRU order by time seen: promotion and splitting append older replacements, so it is not an invariant.
- A relation between `depth` and bucket width: `depth` reads raw identifiers and ranges use the fold.
- Closest nodes of a lookup in which peers fail: the code does not promise them; `Crawls.FindNodes` then says only which nodes can be answered.
- RoutingTables.RoutingTable.Insert: requires that insertion on values returns, because the code recurses for ever otherwise (`Unrolling.NoReturnIsForever`); `Table.AddJams` says exactly when.
- RoutingTables.RoutingTable.AddContact: requires the same, for the same reason.
- Unrolling.NoReturnIsForever: integers are unbounded in the model; at the very last point of the space the endless split computes `mid + 1` of the largest 128-bit number (`src/routing.rs:123`), which panics with overflow checks, and without them wraps to a further bucket behind the full one, so the recursion goes on.
- NodeHeaps.NodeHeap.PopLeft: does not say which of several nodes at the same distance leaves.
- CacheTargets.TargetExactly: assumes that the nodes near at the start of the round and those it names are at different distances, because the unstable sort of the source does not say which of two at the same distance is cut.
- CacheTargets.RoundExactly: assumes the same, for the same reason.
- Reassembly.ReassemblySafe: a key may be reused once its buffer is gone; two messages in flight under one key are not covered.
- Storage.ForgetfulStorage.PutIfAbsent: assumes that no stored time is in the future, as a monotonic clock guarantees.
- Aliasing between buckets in the bucket vector: buckets are values in the vector, as the program owns them.
- Refused sends: datagrams dropped by the operating system before the loop receives them are not modelled.
