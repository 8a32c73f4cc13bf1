# R2N: a verified model of its core

R2N is a virtual LAN. A supernode keeps rooms, hands out virtual addresses and relays frames;
edges keep peer tables, frame and seal packets, and switch and score paths. This project models
those parts in Dafny and proves what they promise over every input, every run and every
interleaving. `dafny verify dfyconfig.toml` checks all of it.

Code that updates fields or buffers in place is a class or a method here (`ClampMss`,
`EncodeInto`, `Cipher`, `SeenFloodPackets`, `PacketSlab`, `RoomAddressPool`, `RoomObject`,
`SupernodeObject`, `EdgeObject`, `Dataplane`, `PathManager`, `QosScheduler`). Each is proved equal
to a function on values, and the lemmas about runs are about those functions.

| file | models |
|---|---|
| `Bytes.dfy`, `Common.dfy`, `Finite.dfy`, `Ipv4Net.dfy` | fixed-width integers, identifiers, counting, CIDR networks |
| `Checksum.dfy`, `Defense.dfy` | the Internet checksum, MSS clamping, the ICMP reply |
| `ReplayWindow.dfy`, `FloodCache.dfy` | the replay window, the flood duplicate cache |
| `Header.dfy`, `Relay.dfy`, `Delivery.dfy` | the wire format, slab and relay, end-to-end delivery |
| `AddressPool.dfy`, `Rooms.dfy`, `Supernode.dfy`, `UniqueAddresses.dfy` | subnets, leases, membership, unique addresses |
| `PeerView.dfy`, `ServedRoom.dfy` | peer views, and the supernode seen from one room |
| `Switch.dfy`, `PathSelection.dfy`, `Qos.dfy` | the learning switch, path choice, the scheduler |

## How to read the results

- **Release arithmetic.** The replay window follows a release build: a shift by 64 is masked to 0
  (a debug build panics there). No nonce is ever accepted twice (`AtMostOnce`). "Refused only as a
  duplicate or as 64 behind" is false after some long jumps (`StaleBitsRefuse`); `ExactRuns` says
  exactly which runs keep it.
- **The restore fallback.** Joining an unknown room re-creates it; with an exhausted pool it gets
  192.168.255.0/24. `SharedAddress` is a run in which two memberships then share an address.
  `DisjointUnlessFallback` and `UniqueUnlessFallback` say exactly when one request breaks
  disjointness or uniqueness, `DisjointRuns` says exactly which runs keep subnets disjoint, and
  `AddressesUnique` gives unique addresses in all of these, runs with a live fallback room included.
  `UniqueRuns` says exactly which runs keep addresses unique, overlapping subnets or not.
- **Idealised AEAD.** A cipher is a pair of functions with `open(seal(p)) = p`, and the network may
  deliver any bytes at all, reflected frames included, except bytes that would open without having
  been sealed by one of the two ends. A peer without a cipher sends and accepts plaintext.
- **Peer views.** Addresses and nicknames converge in every run. Public keys do not:
  a re-registration is not passed on (`KeysGoStale`); `KeyRuns` says exactly which runs keep them.
  `ServedRoom` ties these views to the supernode's handler.
- **Learning MACs.** Lookup and learning are separate steps, and peers may go in between
  (`StaleEntry`); `CurrentRuns` says exactly which runs keep every entry on a current peer.
- **Clocks, randomness and verdicts** (instants, random room ids and tokens, which registered
  address a frame goes to, whether a join is refused) are parameters of the steps.
- **Rust panics.** `ClampSafe` and the precondition of `BuildIcmpFragNeeded` describe the packets on
  which the originals do not index out of range; `WellFormedIsSafe` shows that well-formed packets
  are among them. Overflow checks come from the types: every `u32` sum is proved to fit.

## Model

| member | source | states |
|---|---|---|
| Defense.ClampMss | crates/r2n-dataplane/src/defense.rs:1-70 | the in-place routine, loop and early returns included, computes the recursive specification `Clamp` (new bytes and verdict) on every packet of at most 65535 bytes that it can index |
| Defense.ClampOptions | crates/r2n-dataplane/src/defense.rs:30-58 | the option loop agrees with the recursive option parser and reports exactly whether a reached MSS was too large |
| Defense.ClampOption | crates/r2n-dataplane/src/defense.rs:32-57 | one round of the loop: it stops only where the parser stops, and otherwise leaves the same final packet and verdict to reach |
| Defense.WalkStable | crates/r2n-dataplane/src/defense.rs:30-58 | changing MSS values never changes which options the walk finds |
| Defense.ClampKeeps | crates/r2n-dataplane/src/defense.rs:49-65 | only MSS values and the two TCP checksum bytes change, and only if a rewrite is reported |
| Defense.ClampValue | crates/r2n-dataplane/src/defense.rs:42-55 | every reached 4-byte MSS option ends up as its minimum with the bound |
| Defense.ClampFitsMtu | crates/r2n-dataplane/src/defense.rs:49-54 | every announced segment size is zero or fits the MTU together with the headers, for every MTU, the 16-bit cast included |
| Defense.ClampChecksum | crates/r2n-dataplane/src/defense.rs:62-65 | a rewritten packet's TCP checksum verifies over the pseudo-header of RFC 9293, section 3.1 |
| Defense.ClampIdempotent | crates/r2n-dataplane/src/defense.rs:26-69 | a second clamp with the same MTU returns false and changes nothing |
| Defense.WellFormedIsSafe | crates/r2n-dataplane/src/defense.rs:10-47 | a full IP header and options inside the segment are enough for all accesses to be in range |
| Defense.RecomputeTcpChecksum | crates/r2n-dataplane/src/defense.rs:72-101 | the in-place checksum routine stores the specified checksum and nothing else, without overflow |
| Checksum.FoldCarries | crates/r2n-dataplane/src/defense.rs:96-98 | the fold loop terminates and computes `Fold` |
| Checksum.AccumulateWords | crates/r2n-dataplane/src/defense.rs:87-94 | the 32-bit accumulator never overflows, for odd and even lengths up to 65535 |
| Checksum.IpChecksum | crates/r2n-dataplane/src/defense.rs:143-157 | the complement of the folded word sum of the slice |
| Checksum.FoldResidue | crates/r2n-dataplane/src/defense.rs:96-98 | folding keeps the sum modulo 65535 and reaches zero only from zero |
| Checksum.FoldIsOnesSum | crates/r2n-dataplane/src/defense.rs:87-99 | deferred carries give the end-around-carry sum of RFC 1071, section 1 |
| Checksum.FieldChecksumVerifies | crates/r2n-dataplane/src/defense.rs:72-101 | storing the computed checksum makes the data verify, whatever the field held before |
| Defense.BuildIcmpFragNeeded | crates/r2n-dataplane/src/defense.rs:103-141 | the built reply is `FragReply`, and there is none exactly for a packet too short to quote |
| Defense.FragReplyVerifies | crates/r2n-dataplane/src/defense.rs:103-141 | the reply goes back to the sender, is ICMP type 3 code 4 with the MTU and the quoted packet (RFC 792; RFC 1191, section 4), and both its checksums verify |
| ReplayWindow.Cipher.DecryptInPlace | crates/r2n-crypto/src/lib.rs:126-145 | check, authentication, then advance, as the run function `Decrypt` |
| ReplayWindow.Cipher.CheckReplayWindow | crates/r2n-crypto/src/lib.rs:147-156 | lets a nonce through exactly when `Passes` holds |
| ReplayWindow.Cipher.AdvanceReplayWindow | crates/r2n-crypto/src/lib.rs:158-168 | the window update with the masked shift |
| ReplayWindow.AtMostOnce | crates/r2n-crypto/src/lib.rs:126-168 | over any attempts with any gaps no nonce is accepted twice; every accepted nonce within 63 of the last has its bit set |
| ReplayWindow.ExactStep | crates/r2n-crypto/src/lib.rs:158-168 | an attempt keeps an exact window exact if and only if it jumps by less than 64 or no bit above the lowest is set |
| ReplayWindow.ExactRuns | crates/r2n-crypto/src/lib.rs:147-168 | a run is exact at every point if and only if each attempt meets that condition |
| ReplayWindow.RefusalInRuns | crates/r2n-crypto/src/lib.rs:147-156 | after such a run a nonce is refused if and only if it was accepted or is 64 or more behind |
| ReplayWindow.StaleBitsRefuse | crates/r2n-crypto/src/lib.rs:160-163 | a concrete run after which a never-accepted nonce one behind is refused |
| Header.EncodeInto | crates/r2n-proto/src/lib.rs:219-240 | writes the 148 bytes of `Encode` in place, nothing behind them, and refuses a short buffer untouched |
| Header.Layout | crates/r2n-proto/src/lib.rs:224-238 | where the parts of an encoded header lie, byte 147 being zero |
| Header.FromU8 | crates/r2n-proto/src/lib.rs:171-184 | inverts `AsU8` and refuses every other byte |
| Header.DecodeEncode | crates/r2n-proto/src/lib.rs:219-278 | decoding an encoded header gives it back for version 2, and is refused for any other version |
| Header.EncodeDecode | crates/r2n-proto/src/lib.rs:219-278 | re-encoding an accepted header reproduces its bytes, except that byte 147 becomes zero |
| Header.RecvEncoded | crates/r2n-transport/src/lib.rs:120-145 | an encoded data frame is received as itself and never as a control frame |
| Header.RecvDecoded | crates/r2n-transport/src/lib.rs:120-145 | whatever is received as data is its re-encoded header and payload, byte 147 aside, of the announced length |
| Relay.Run | crates/r2n-supernode-lib/src/lib.rs:167-211 | in every interleaving free and held slots partition the slab, held slots never alias, and each datagram sent is, once, byte for byte the one received for it |
| Relay.RelayDrains | crates/r2n-supernode-lib/src/lib.rs:176-207 | when no relay task is left every slot is free again, exactly once |
| Relay.PartitionRelease | crates/r2n-slab/src/lib.rs:69-71 | a held slot can always be pushed back, and the partition is kept |
| Relay.PacketSlab.AcquireSlot | crates/r2n-slab/src/lib.rs:59-67 | pops the head of the free queue |
| Relay.PacketSlab.ReleaseSlot | crates/r2n-slab/src/lib.rs:69-71 | pushes to the bounded free queue |
| Relay.PacketSlab.CopyIntoSlot | crates/r2n-slab/src/lib.rs:77-86 | writes the frame to the front of its slot and touches no other slot |
| Relay.PacketSlab.constructor | crates/r2n-slab/src/lib.rs:37-53 | all slots zeroed and free, in order |
| Delivery.FrameInSlot | crates/r2n-dataplane/src/lib.rs:499-569 | payload, header and (under a cipher) tag written in place give exactly the frame, whose header is the associated data; without a cipher the payload goes in as it is |
| Delivery.FrameSurvivesTransport | crates/r2n-dataplane/src/lib.rs:485-491 | every frame that can be built fits the 1600-byte slot, is relayed, and passes the receiver's framing checks unchanged |
| Delivery.FrameIsDelivered | crates/r2n-dataplane/src/lib.rs:599-630 | between paired ends an arriving frame is delivered with its payload if (under a cipher) the window passes its nonce and, for a flood, its TTL and packet id are not zero and its key is new; otherwise nothing is delivered |
| Delivery.EndToEnd | crates/r2n-dataplane/src/lib.rs:599-630 | over every network run, frames of either end included: under a cipher each delivered packet was sent by the sender with that header and payload and meant for this receiver, no nonce twice; with or without one, the flood headers the receiver accepts, and the floods it delivers, of one key are more than 30 s or at least 4096 accepted floods apart |
| Delivery.OpenedWasSenders | crates/r2n-dataplane/src/lib.rs:730-733 | a frame that opens and does not name the receiver as its source is the sender's, although both ends seal under one key |
| Delivery.ArriveFollows | crates/r2n-dataplane/src/lib.rs:735-753 | the receiver's verdicts on flood headers are exactly those of the cache run over all its lookups |
| Delivery.PlaintextIsUnchecked | crates/r2n-dataplane/src/lib.rs:617-628 | without a cipher any unicast frame addressed here in the peer's name is delivered as it is, so the cipher in `EndToEnd` is needed |
| Delivery.OpenedWasSent | crates/r2n-dataplane/src/lib.rs:617-628 | what opens under the re-encoded header is the payload sealed under the same header |
| FloodCache.SeenFloodPackets.InsertIfNew | crates/r2n-dataplane/src/lib.rs:73-84 | the queue and the set stay duplicate-free and equal, and the call is the specified insertion |
| FloodCache.SeenFloodPackets.PruneQueue | crates/r2n-dataplane/src/lib.rs:86-99 | both pruning loops, as the specified suffix |
| FloodCache.InsertRefines | crates/r2n-dataplane/src/lib.rs:73-84 | a key is refused if and only if it was accepted at most 30 s ago with fewer than 4096 acceptances since |
| FloodCache.RunRepresents | crates/r2n-dataplane/src/lib.rs:60-100 | over every run with a monotone clock the queue is a duplicate-free, time-ordered suffix of the acceptances, at most 4096 long, and nothing before it counts any more |
| FloodCache.RunSpacedOut | crates/r2n-dataplane/src/lib.rs:73-99 | two acceptances of one key are more than 30 s or at least 4096 acceptances apart |
| Ipv4Net.OverlapIsShared | crates/r2n-room/src/lib.rs:217-223 | the overlap test holds if and only if some address lies in both networks |
| AddressPool.RoomAddressPool.AllocateWithAvoidance | crates/r2n-room/src/lib.rs:157-187 | the search loop computes the specified allocation |
| AddressPool.IndicesArePermutation | crates/r2n-room/src/lib.rs:200-215 | both search orders are permutations of all the pool's subnets |
| AddressPool.CandidateFits | crates/r2n-room/src/lib.rs:166-176 | the address arithmetic stays in the pool and in 32 bits, the zero shift included |
| AddressPool.CandidatesDisjoint | crates/r2n-room/src/lib.rs:173-176 | different subnets of the pool share no address |
| AddressPool.AllocateSound | crates/r2n-room/src/lib.rs:157-187 | a new allocation is unused and overlaps nothing to be avoided; an old one is kept; failure changes nothing |
| AddressPool.AllocateComplete | crates/r2n-room/src/lib.rs:173-186 | exhaustion is reported if and only if the room has no subnet and every subnet of the pool is taken or blocked |
| AddressPool.PoolRuns | crates/r2n-room/src/lib.rs:136-192 | after any operations on a new pool, each allocated subnet is aligned, inside it and disjoint from all others |
| Rooms.RoomObject.Allocate | crates/r2n-room/src/lib.rs:88-125 | the lease reuse and the host search loop, as specified, with the lease recorded |
| Rooms.RoomObject.AddOrReuseMember | crates/r2n-room/src/lib.rs:68-82 | the new members and leases |
| Rooms.FirstFreeIsLowest | crates/r2n-room/src/lib.rs:112-124 | the search yields the lowest unused host before the broadcast address, or every one is used |
| Rooms.LeaseIsReused | crates/r2n-room/src/lib.rs:89-96 | a leased node gets its lease; the conflict fallback is never taken |
| Rooms.AddSound | crates/r2n-room/src/lib.rs:68-125 | leases stay injective host addresses equal to members' addresses, none changes, and failure means no lease and every host from the role's first one leased |
| Rooms.LeasesStable | crates/r2n-room/src/lib.rs:63-126 | the same over every sequence of joins and departures |
| Rooms.ReturningMember | crates/r2n-room/src/lib.rs:84-96 | a member who leaves and returns gets the same address, whatever happened in between |
| Supernode.SupernodeObject.HandleControl | crates/r2n-supernode-lib/src/lib.rs:219-565 | the four membership arms, on the room and pool objects, as the step function `Handle` |
| Supernode.SupernodeObject.Create | crates/r2n-supernode-lib/src/lib.rs:285-359 | allocation, the new room and its owner, as `HandleCreate` |
| Supernode.SupernodeObject.Join | crates/r2n-supernode-lib/src/lib.rs:365-440 | restoration, token and subnet checks, and admission, as `HandleJoin` |
| Supernode.SupernodeObject.Leave | crates/r2n-supernode-lib/src/lib.rs:527-565 | removal, and for the last member the end of the room and its allocation, as `HandleLeave` |
| Supernode.StepGood | crates/r2n-supernode-lib/src/lib.rs:221-565 | each arm keeps leases sound, members registered, and live rooms on their allocated subnets except at most one on the fallback, unless a join restores its room from an exhausted pool while the fallback overlaps a live room |
| Supernode.DisjointRuns | crates/r2n-supernode-lib/src/lib.rs:221-565 | for every run from an empty supernode, live rooms have disjoint subnets at every point if and only if no request is a restoring join on an exhausted pool while 192.168.255.0/24 overlaps a live room |
| Supernode.AddressesUnique | crates/r2n-supernode-lib/src/lib.rs:221-565 | in all those runs no two memberships share an address and every member is registered |
| UniqueAddresses.UniqueUnlessClash | crates/r2n-supernode-lib/src/lib.rs:285-440 | from unique addresses and sound rooms, overlapping or not, one request keeps addresses unique if and only if the address it would get (the lease, or the lowest free host) is not in use in another room |
| UniqueAddresses.UniqueRuns | crates/r2n-supernode-lib/src/lib.rs:221-565 | for every run from an empty supernode, addresses are unique at every point if and only if no request does that; members are registered in every run |
| UniqueAddresses.DisjointNeverClashes | crates/r2n-supernode-lib/src/lib.rs:377-440 | runs that keep subnets disjoint are among them |
| Supernode.CreateSucceeds | crates/r2n-supernode-lib/src/lib.rs:285-359 | a new room's owner gets host 1, and creation fails only if the pool has no subnet to give |
| Supernode.DisjointUnlessFallback | crates/r2n-supernode-lib/src/lib.rs:377-399 | one request keeps subnets disjoint if and only if it is not a restoring join on an exhausted pool while 192.168.255.0/24 overlaps a live room |
| Supernode.UniqueUnlessFallback | crates/r2n-supernode-lib/src/lib.rs:377-440 | one request keeps all addresses unique if and only if it is not a join admitted to the fallback subnet while a membership already has 192.168.255.2 |
| Supernode.SharedAddress | crates/r2n-supernode-lib/src/lib.rs:377-440 | a concrete run in which two memberships share an address |
| PeerView.StepAgrees | crates/r2n-supernode-lib/src/lib.rs:285-565 | every creation, registration, join, leave, command or delivery keeps each staying member's settled table equal to the room without itself |
| PeerView.ViewsConverge | crates/r2n-edge-lib/src/lib.rs:890-1068 | in every interleaving, for a room created or restored, a member with no departure in flight ends up with exactly the other members, addresses and nicknames included |
| PeerView.KeysUnlessRekeyed | crates/r2n-supernode-lib/src/lib.rs:597-609 | one step keeps all staying members' tables right, public keys included, if and only if it does not register another key for a member while another one stays |
| PeerView.KeyRuns | crates/r2n-supernode-lib/src/lib.rs:221-565 | for every run, those tables are right at every point if and only if no step does that |
| PeerView.KeysGoStale | crates/r2n-supernode-lib/src/lib.rs:238-283 | two nodes register, one creates the room, the other joins it and registers another key: the creator keeps the old one, whatever nodes, keys and subnet with hosts are taken |
| ServedRoom.HandleIsSeen | crates/r2n-supernode-lib/src/lib.rs:219-565 | what the handler does to a room, and the kind of frames it answers with, is what serving that request does to the room's peer views; requests about other rooms do not touch it |
| ServedRoom.RunIsSeen | crates/r2n-supernode-lib/src/lib.rs:219-565 | the same over every run of requests sent from the nodes' own addresses |
| PeerView.ListForgets | crates/r2n-edge-lib/src/lib.rs:1016-1046 | a peer list makes whatever the table held before irrelevant |
| PeerView.EdgeObject.HandlePeerList | crates/r2n-edge-lib/src/lib.rs:1016-1046 | upsert and prune leave exactly the listed peers without oneself |
| PeerView.EdgeObject.HandlePeerUpdate | crates/r2n-edge-lib/src/lib.rs:1047-1068 | adding (never oneself) and removing a peer |
| PeerView.EdgeObject.Leave | crates/r2n-edge-lib/src/lib.rs:1374-1393 | the table is cleared, and room zero is left when no room is active |
| Switch.Dataplane.LearnMac | crates/r2n-dataplane/src/lib.rs:785-802 | prune, note, and above 4096 entries evict one seen least recently |
| Switch.Dataplane.EvictOldestMac | crates/r2n-dataplane/src/lib.rs:810-819 | removes exactly one entry with the smallest last-seen time, and nothing from an empty table |
| Switch.Dataplane.SelectL2Targets | crates/r2n-dataplane/src/lib.rs:448-475 | a unicast MAC with a live entry for a current peer selects that peer alone; any other frame selects every peer exactly once as flood; a runt selects none |
| Switch.RunBounded | crates/r2n-dataplane/src/lib.rs:785-819 | over every run the table holds at most 4096 entries |
| Switch.CurrentUnlessLate | crates/r2n-dataplane/src/lib.rs:219-238 | a step keeps "every entry names a current peer" if and only if it does not learn a MAC for a node that is no longer a peer, leaving aside an entry that is itself the one evicted |
| Switch.CurrentRuns | crates/r2n-dataplane/src/lib.rs:599-709 | over every run, peers changing between lookup and learning included, that holds at every point if and only if no step does so |
| Switch.NotOvertaken | crates/r2n-dataplane/src/lib.rs:608-709 | it never happens unless a removal overtakes a frame between its lookup and its learning |
| Switch.StaleEntry | crates/r2n-dataplane/src/lib.rs:235-238 | a run in which clearing the peers does, and leaves a stale entry |
| Switch.LiveIsKnown | crates/r2n-dataplane/src/lib.rs:455-466 | as long as nothing was learned late, a live entry for a unicast MAC is all it takes for the frame to go to one peer alone |
| PathSelection.PathManager.Reevaluate | crates/r2n-dataplane/src/path.rs:89-109 | the active path is the lowest-indexed minimum score among paths with a success under 5 s ago, or the first if there is none |
| PathSelection.PathManager.RecordSuccessOn | crates/r2n-dataplane/src/path.rs:72-79 | the named path's estimates move and the choice is made anew |
| PathSelection.PathManager.RecordFailureOn | crates/r2n-dataplane/src/path.rs:81-87 | the named path's loss rises and the choice is made anew |
| PathSelection.PathManager.AddOrUpdatePath | crates/r2n-dataplane/src/path.rs:63-70 | the position of the address, new or old; the choice stays |
| PathSelection.RunInv | crates/r2n-dataplane/src/path.rs:14-110 | addresses stay distinct, entry 0 stays the relay, the active position is valid, loss is a ratio and jitter is not negative |
| PathSelection.RunWithin | crates/r2n-dataplane/src/path.rs:15-37 | over every run a path's round trip stays in every interval that holds its own start value and the samples recorded for it, and its jitter is at most the interval's width |
| PathSelection.RunIsUnique | crates/r2n-dataplane/src/path.rs:63-109 | the operations determine all paths and choices |
| Qos.QosScheduler.PushItem | crates/r2n-qos/src/lib.rs:70-82 | the push, dropping the oldest bulk item at capacity |
| Qos.QosScheduler.PopItem | crates/r2n-qos/src/lib.rs:84-90 | the pop in priority order |
| Qos.PopIsHighest | crates/r2n-qos/src/lib.rs:84-90 | a pop takes the head of the highest non-empty class and changes nothing else |
| Qos.FifoPerClass | crates/r2n-qos/src/lib.rs:59-91 | over any run each class is first in, first out with nothing lost outside bulk, and bulk never exceeds max(1, capacity) |
| Qos.BulkConservation | crates/r2n-qos/src/lib.rs:70-90 | every bulk item pushed was popped, dropped or is still queued |

## Left out

- Noise handshake, key agreement, signatures and serialisation of control frames: library code.
- The supernode's zombie reaper, management API and punch requests; the `LeaveRoom` arm is modelled by its intended effect (the original still holds the room's map guard when it removes the room).
- Concurrent decryption on one cipher: check and advance are separate critical sections; the edge's receive loop makes the calls one after another, and so does the model.
- Slot conservation for the edge's own sends: its error paths return before the slot is released; only the relay is claimed to drain.
- PeerView.ViewsConverge: assumes reliable first-in first-out channels, a single room, a fixed address per node and successful activation.
- PathSelection.PathManager.Reevaluate: real numbers stand for `f32`, with infinity for `f32::MAX`, and one instant per recorded result.
- Delivery.EndToEnd: covers one sender and one receiver that share a cipher, or none, throughout; the slab's exhaustion, the scheduler and the traffic policy around a send are not part of the run model.
- NAT traversal, STUN, port mapping, discovery and policy classification, devices, routes, CLI, configuration and metrics: I/O and platform code, or claims easier than those above.
