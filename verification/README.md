# tinc 1.1: Dafny models of its protocol and routing core

tinc is a mesh VPN daemon. This project models the algorithmic cores of its C
implementation (`tinc-c/src`) in Dafny and proves what each of them is for. It checks with
`dafny verify dfyconfig.toml`.

| files | what they model |
|---|---|
| `Sptps`, `SptpsSession`, `SptpsStream`, `SptpsProtocol`, `SptpsGuard` | the SPTPS session: record framing, handshake and rekey state machine, stream reader, two endpoints joined by FIFO byte channels, and one endpoint facing an arbitrary peer |
| `ReplayBitmap`, `SptpsReplay`, `LegacyReplay` | the sliding-window replay filters of SPTPS datagrams and of the legacy protocol |
| `MeshGraph`, `Sssp`, `SsspTermination`, `SsspTurns`, `SsspDivergence`, `SpanningTree`, `Mst`, `MeshDaemon`, `Broadcast` | shortest paths with re-queueing, the minimum spanning tree with its rewind, and flooding over it |
| `OrderedIndex`, `Edges` | the edge indices and the effect of ADD_EDGE and DEL_EDGE messages on them |
| `SplayShape`, `SplayUp`, `SplayDown`, `SplayMerge`, `SplaySearch`, `SplayDescent`, `SplayOrder`, `SplayInsert`, `SplayTree` | the splay tree with its threaded list |
| `SplayIndex`, `TreeOrders` | an ordered splay tree as the sorted sequence that the edge and subnet indices are, for the comparisons tinc gives its trees |
| `HashCache`, `SubnetOrder`, `Subnets` | subnet lookup and its lossy hash cache |
| `Base64` | tinc's base64 |
| `OnesComplement`, `Ttl`, `Fragment` | checksums, time to live and IPv4 fragmentation |
| `Basics` | what several parts share |
| `Inhabited` | concrete cryptography, peers and network that meet the assumptions of the main results |

Objects that the C code updates in place are classes whose methods follow the code and are
proved equal to value-level specifications; the theorems are about those specifications.

- Cryptography is a record of arbitrary functions (`Sptps.Crypto`) with the laws
  `Sptps.Lawful` asks for: Diffie-Hellman commutes, genuine signatures verify, and opening
  undoes sealing under the same key and number. Random draws are a function of a counter.
  In the two-party theorem both applications accept the records they are handed.
- The splay tree lives in an explicit memory, a map from addresses to the five pointer
  fields of a node, so that every store of the code is a map update. The left and right
  variants of a step are one step with a side. A reading (the in-order sequence, and the
  range of places below each node) is ghost.
- Node and owner names are compared through their order only. Edges are records at
  addresses, so that reverse pointers can be followed and can dangle if the code let them.
- Hash functions are arbitrary functions into the table; the byte order of the machine is
  a parameter of the checksum.

## Where the code does not do what one might expect

Each of these has an exact condition.

- `SsspDivergence.EndsIff`: the shortest-path search need not stop. On a mesh of six nodes
  with one weight of -1 and some OPTION_INDIRECT edges it re-queues three nodes forever,
  each round three hops further out and one unit lighter. It stops on all meshes whose
  weights are at least m if and only if m is not negative or no edge carries the option.
- `SptpsReplay.RightIffNoWrap`: close to 2^32 the horizon `inseqno + 8 * replaywin` wraps
  and the filter's verdicts go wrong, in every state in which it wraps but one: the last
  number of all is expected, and no late number is still missing.
- `LegacyReplay.OnceIffWindow`: the legacy protocol takes repeated packets with a replay
  window of zero, and with one so long that MAX_SEQNO plus its length exceeds 32 bits.
- `Subnets.RuleIffAligned`: among overlapping subnets of equal prefix length the lower
  address comes before the lower weight. Addresses with stray bits after the prefix,
  which ADD_SUBNET messages may carry, therefore break the weight rule;
  `Subnets.StrayBits` is such a table.
- `SubnetOrder.InsertSorted`, `SubnetOrder.RemovedSorted`: an ownerless subnet compares
  equal to any owner's subnet with the same net and weight. Adding one where the other is
  has no effect, and deleting one that is not there removes the other.
  `OrderedIndex.DeleteUndoesIff`: deleting undoes adding if and only if nothing compared
  equal.
- `HashCache.InsertKeepsIff`: inserting a key that is live while an earlier probe is free
  leaves two live slots for it. The lookups only insert keys that a search did not find.
- `OnesComplement.OrderMatters`: on a big-endian machine an odd last byte is added to the
  wrong half of its word, which is harmless for zero only. `OnesComplement.ExactIff`: from
  131073 bytes on the accumulator can wrap.
- `Fragment.ReassemblesIff`: fragments of a datagram whose last offset exceeds 13 bits do
  not reassemble.
- `Ttl.Answered4Iff`: whether an expired IPv4 packet is answered depends on header bytes 11
  and 32, the low checksum byte and a byte behind a header without options, instead of
  byte 9, the protocol, and the first byte behind the header, the ICMP type.
  `Ttl.AnsweredWrongly` has a time-exceeded message that is answered and a UDP packet that
  is not. `Ttl.Answered6Iff`: the IPv6 test reads the right bytes, and only a packet that
  ends with its header can mislead it.

## Model

| member | source | states |
|---|---|---|
| `SptpsSession.Session.constructor` | tinc-c/src/sptps.c:712-758 | A started session holds what the value model of sptps_start says, its first KEX is sent, and its receive buffer can hold a length field. |
| `SptpsSession.Session.SendRecordPriv` | tinc-c/src/sptps.c:133-156 | Exactly the framed (and, once a key is set, sealed) record is appended to the output, under the current number, and the number advances modulo 2^32. |
| `SptpsSession.Session.SendRecord` | tinc-c/src/sptps.c:159-171 | Application records are refused before the handshake and for types from 128 on, and otherwise sent as above. |
| `SptpsSession.Session.SendKex` | tinc-c/src/sptps.c:174-196 | A fresh nonce and key share become mykex and go out; refused while one is pending. |
| `SptpsSession.Session.SendSig` | tinc-c/src/sptps.c:202-226 | The signature covers role bit, both KEX messages and the label, in that order. |
| `SptpsSession.Session.ForceKex` | tinc-c/src/sptps.c:381-388 | A rekey starts only from the idle state with keys in place, and otherwise changes nothing. |
| `SptpsSession.Session.GenerateKeyMaterial` | tinc-c/src/sptps.c:229-266 | Key material is the PRF of the shared secret with the nonces in initiator-first order, whichever side computes it. |
| `SptpsSession.Session.ReceiveAck` | tinc-c/src/sptps.c:274-292 | The incoming key takes effect on an empty ACK and the material is forgotten. |
| `SptpsSession.Session.ReceiveKex` | tinc-c/src/sptps.c:295-318 | One well-sized KEX message of the right version is stored per round. |
| `SptpsSession.Session.SwitchOutgoing` | tinc-c/src/sptps.c:355-377 | Responder signature first, then the ACK still under the old key, then the new outgoing key. |
| `SptpsSession.Session.ReceiveSig` | tinc-c/src/sptps.c:321-378 | One signature equals the value model, which takes it if and only if it has 64 bytes and verifies over the peer's view (`SptpsGuard.SigIff`); any other one changes nothing. |
| `SptpsSession.Session.ReceiveHandshake` | tinc-c/src/sptps.c:391-449 | The state machine KEX, SIG, ACK, SECONDARY_KEX, including the implicit rekey that a KEX in the idle state starts. |
| `SptpsSession.Session.Append` | tinc-c/src/sptps.c:626-629 | The receive buffer grows by exactly the copied bytes, inside its allocation. |
| `SptpsSession.Session.Grow` | tinc-c/src/sptps.c:643-650 | Reallocation to record length plus 19 keeps the two length bytes. |
| `SptpsSession.Session.ReceiveData` | tinc-c/src/sptps.c:606-656 | One call of sptps_receive_data equals its value-level specification, and every write stays inside the receive buffer. |
| `SptpsSession.Session.ReceiveBody` | tinc-c/src/sptps.c:658-672 | Reading goes up to the end of the record and no further. |
| `SptpsSession.Session.DecryptInPlace` | tinc-c/src/sptps.c:678-683 | Decrypting with source and destination both inside the buffer leaves length field, plaintext and old tag bytes where the next step expects them. |
| `SptpsSession.Session.Complete` | tinc-c/src/sptps.c:674-708 | A whole record is opened under the current number, terminated, and handed on with its type; the number advances even if that fails. |
| `SptpsSession.Session.HandleRecord` | tinc-c/src/sptps.c:688-704 | Application records before the handshake and unknown types are errors; what is handed over is the decrypted payload. |
| `Sptps.ReceiveDataValid` | tinc-c/src/sptps.c:606-709 | Whatever bytes come in, the session stays well formed: pending KEX, nonce and key fields agree with its state. |
| `Sptps.HandshakeValid` | tinc-c/src/sptps.c:391-449 | No handshake message, valid or not, breaks that agreement. |
| `SptpsStream.CallIsPush` | tinc-c/src/sptps.c:606-709 | One call with a non-empty buffer consumes at least one byte or fails, and does what feeding the consumed bytes one at a time does. |
| `SptpsStream.FeedIsPush` | tinc-c/src/meta.c:224-233 | The caller's loop over one buffer equals feeding its bytes one at a time, with the same first failure. |
| `SptpsStream.ChunkingIrrelevant` | tinc-c/src/sptps.c:606-709 | For every split of a byte stream into chunks: same records, same first failure, same final state. |
| `SptpsProtocol.SameMaterial` | tinc-c/src/sptps.c:229-266 | Both sides of a round derive the same key material, because Diffie-Hellman commutes and the seed order is fixed. |
| `SptpsProtocol.TakeHandshake` | tinc-c/src/sptps.c:391-449 | In every position of the exchange the peer's next handshake message is accepted and leads to the next position, with the messages that position must send. |
| `SptpsProtocol.CompleteOpens` | tinc-c/src/sptps.c:674-708 | A record sealed under the receiver's key and number opens to what was sealed. |
| `SptpsProtocol.PushKeeps` | tinc-c/src/sptps.c:606-709 | The two-party invariant survives the arrival of any single byte. |
| `SptpsProtocol.DeliverKeeps` | tinc-c/src/sptps.c:606-709 | ... and any call of sptps_receive_data with bytes the peer sent, which cannot fail. |
| `SptpsProtocol.SendKeeps` | tinc-c/src/sptps.c:159-171 | ... and any application send, at any moment, in the middle of a rekey too. |
| `SptpsProtocol.RekeyKeeps` | tinc-c/src/sptps.c:381-388 | ... and a forced rekey by either side at any moment. |
| `SptpsProtocol.RunKeeps` | tinc-c/src/sptps.c:391-449 | The invariant holds after every interleaving of sends, rekeys and deliveries. |
| `SptpsProtocol.QuietSettled` | tinc-c/src/sptps.c:321-378 | With both channels empty both ends are in SECONDARY_KEX with matching keys and counters, and everything sent has been delivered. |
| `SptpsProtocol.EveryRunIsSafe` | tinc-c/src/sptps.c:133-171 | Main result for two honest stream peers: no receive call fails in any run, every pending record is sealed under the key and number it will be opened with, deliveries are a prefix of what was sent, and empty channels mean settled ends. |
| `SptpsGuard.SignedIs` | tinc-c/src/sptps.c:198-207 | The signed message, by position: role byte, 65 bytes of the signer's KEX, 65 of the other's, label; and no other message. |
| `SptpsGuard.MaterialIs` | tinc-c/src/sptps.c:243-261 | The key material is the PRF of the shared secret with "key expansion", the initiator's nonce, the responder's nonce and the label, by position. |
| `SptpsGuard.WireIs` | tinc-c/src/sptps.c:133-156 | A record on the wire: length most significant byte first, then type and data, in the clear or sealed. |
| `SptpsGuard.SendsSealed` | tinc-c/src/sptps.c:159-171 | Application data is sent if and only if keys are in place and the type is below 128, and then sealed under the outgoing key and number. |
| `SptpsGuard.KexIs` | tinc-c/src/sptps.c:174-196 | Our KEX message: version 0, fresh nonce, public key of the fresh secret; refused if and only if one is pending. |
| `SptpsGuard.ForceIff` | tinc-c/src/sptps.c:381-388 | A rekey can be forced if and only if the session is idle with no KEX message pending. |
| `SptpsGuard.SigIff` | tinc-c/src/sptps.c:321-378 | For any data in state SIG: accepted if and only if it is a 64-byte signature, under the expected key, of that message; refused data changes nothing; accepted data switches to the named halves of the named key material. |
| `SptpsGuard.KexIff` | tinc-c/src/sptps.c:295-318 | For any data in the KEX states: accepted if and only if it has 65 bytes and version 0 (and, when idle, no KEX message of ours is pending); no key changes. |
| `SptpsGuard.AckIff` | tinc-c/src/sptps.c:274-292 | For any data in state ACK: accepted if and only if empty; the incoming key becomes the named half and nothing else changes. |
| `SptpsGuard.RecordIff` | tinc-c/src/sptps.c:688-704 | Data records are delivered if and only if there is an incoming key, types above 128 and handshake messages before the start are refused, and refusals change nothing. |
| `SptpsGuard.NotStarted` | tinc-c/src/sptps.c:606-612 | Before sptps_start nothing is read. |
| `SptpsGuard.Stays` | tinc-c/src/sptps.c:606-709 | No bytes take keys away again. |
| `SptpsGuard.AuthenticIff` | tinc-c/src/sptps.c:606-709 | Main result for an arbitrary peer and any stream of bytes: the endpoint gets keys if and only if the stream begins with a KEX record of version 0 and a SIG record that verifies, under the expected key, over that KEX message and its own; before that it delivers nothing. |
| `SptpsGuard.KeysMove` | tinc-c/src/sptps.c:674-708 | After that, for any record: it counts only if it opens under the incoming key and number, the outgoing key changes only on a verifying signature, and the incoming key only on the acknowledgement. |
| `SptpsReplay.Filter.constructor` | tinc-c/src/sptps.c:712-758 | A new filter expects number 0 and has nothing marked late. |
| `SptpsReplay.Filter.CheckSeqno` | tinc-c/src/sptps.c:451-513 | Verdict and new state equal the value model; with update_state false the verdict is the same and nothing changes. |
| `SptpsReplay.Filter.MarkAll` | tinc-c/src/sptps.c:476-479 | All bits set. |
| `SptpsReplay.Filter.MarkMissing` | tinc-c/src/sptps.c:485-490 | Exactly the bits of the skipped numbers are set. |
| `SptpsReplay.Filter.MarkReceived` | tinc-c/src/sptps.c:493-495 | Exactly the bit of the accepted number is cleared. |
| `ReplayBitmap.MarkRangeLate` | tinc-c/src/sptps.c:487-489 | Within one window the circular bitmap tells skipped numbers from all others. |
| `SptpsReplay.VerdictIsFresh` | tinc-c/src/sptps.c:457-491 | While the horizon does not wrap the bitmap verdict on every number is the abstract one: never accepted, not older than the window, and not far in the future unless enough of those were refused before. |
| `SptpsReplay.UpdateRefines` | tinc-c/src/sptps.c:451-513 | Each call of the bitmap filter is a step of the filter that remembers every accepted number; a refused number may be any, an accepted one needs a successor in 32 bits. |
| `SptpsReplay.InitialRepresents` | tinc-c/src/sptps.c:712-758 | The initial bitmap represents the numbers the handshake used up. |
| `SptpsReplay.RunRefines` | tinc-c/src/sptps.c:451-513 | In every run in which no state's horizon wraps and no accepted number lacks a successor, all verdicts equal those of the abstract filter. |
| `SptpsReplay.AcceptedOnce` | tinc-c/src/sptps.c:451-513 | In such a run the bitmap filter accepts no number twice. |
| `SptpsReplay.OnceIffWindow` | tinc-c/src/sptps.c:457-498 | That holds for a configuration if and only if it has a window. |
| `SptpsReplay.ReceivedCounts` | tinc-c/src/sptps.c:500-510 | The received counter counts the accepted numbers. |
| `SptpsReplay.RightIffNoWrap` | tinc-c/src/sptps.c:459-459 | In every state the verdicts are right for all 32-bit numbers if and only if inseqno + 8 * replaywin fits 32 bits, or the last number is expected, rejections are left and nothing from the wrapped horizon on is missing. |
| `LegacyReplay.Node.constructor` | tinc-c/src/protocol_key.c:397-405 | A node starts without a valid key and with an empty window. |
| `LegacyReplay.Node.ReceivePacket` | tinc-c/src/net_packet.c:467-554 | Verdict and new window equal the value model, which refines a filter without bitmap (`LegacyReplay.VerdictsAgree`); no packet is taken without a valid key. |
| `LegacyReplay.Node.MarkMissing` | tinc-c/src/net_packet.c:535-538 | Exactly the skipped numbers are marked late. |
| `LegacyReplay.Node.ClearAll` | tinc-c/src/net_packet.c:528-528 | The window forgets everything when a far-future packet is finally taken. |
| `LegacyReplay.Node.RegenerateKey` | tinc-c/src/net_setup.c:152-159 | Only the validity of the key changes. |
| `LegacyReplay.Node.SendAnsKey` | tinc-c/src/protocol_key.c:397-405 | A new key comes with number 0, an empty window and validity. |
| `LegacyReplay.StepCovers` | tinc-c/src/net_packet.c:512-554 | Every event keeps the bitmap an exact record: inside the window exactly those numbers are marked that were not accepted under the current key and lie above the last far-future jump. |
| `LegacyReplay.AcceptsIff` | tinc-c/src/net_packet.c:517-541 | Under a valid key a number is accepted if and only if it is ahead within reach, further ahead after enough refusals, or behind within the window, never accepted and not given up by a far-future jump. |
| `LegacyReplay.StepRefines` | tinc-c/src/net_packet.c:467-554 | Each event is a step of a filter that only remembers the numbers taken, the highest, the last far-future jump and the refusals since one was taken. |
| `LegacyReplay.VerdictsAgree` | tinc-c/src/net_packet.c:467-554 | In every run of packets, expiries and new keys each packet is taken or refused as that filter says, and farfuture is its count of far-future packets refused since one was last taken, which a new key does not reset. |
| `LegacyReplay.AcceptedOncePerKey` | tinc-c/src/net_packet.c:467-554 | In every run of packets, key expiries and key exchanges no number is accepted twice under one key, without any assumption about wrapping numbers. |
| `LegacyReplay.OnceIffWindow` | tinc-c/src/net_packet.c:517-544 | That holds for a configuration if and only if it has a replay window, and MAX_SEQNO plus its length stays within 32 bits. |
| `MeshDaemon.Daemon.SsspBfs` | tinc-c/src/graph.c:125-212 | On every mesh on which the search ends: visited means reachable over edges with a reverse; weight and nexthop belong to a real walk; one walk of the recorded distance leads over via, without OPTION_INDIRECT before it and with its first such edge right behind it, and a direct node is its own via; without OPTION_INDIRECT distance, weight and nexthop are those of a walk with least hops, and least weight among those. |
| `MeshDaemon.Daemon.ExamineEdges` | tinc-c/src/graph.c:156-205 | One pass over a node's edges is the specified relaxation of each of them in turn. |
| `MeshDaemon.Daemon.CheckReachability` | tinc-c/src/graph.c:214-320 | Reachability follows the visited flags, exactly the keys of nodes whose reachability changed are invalidated, and a device in standby goes down when the last other node is lost and up when every reachable other node is new. |
| `MeshDaemon.Daemon.FollowAll` | tinc-c/src/graph.c:221-311 | The three counts of the loop are the sizes of the sets of other nodes that are reachable, newly so, and no longer so. |
| `MeshDaemon.Daemon.Follow` | tinc-c/src/graph.c:222-256 | One node toggles when its flags differ, loses its key then, and is counted unless it is ourselves. |
| `MeshDaemon.Daemon.MstKruskal` | tinc-c/src/graph.c:65-117 | The scan with its rewind chooses exactly the links of the specified greedy tree, and flags exactly our connections on it. |
| `MeshDaemon.Daemon.StartingPoint` | tinc-c/src/graph.c:80-87 | The first edge in weight order from a reachable node gives the starting point. |
| `MeshDaemon.Daemon.FlagConnections` | tinc-c/src/graph.c:102-108 | The connection of the edge or of its reverse is flagged, whichever is ours. |
| `MeshDaemon.Daemon.UpdateGraph` | tinc-c/src/graph.c:322-327 | Routes, component and minimum spanning tree together, in the order of graph(); without OPTION_INDIRECT and with a connection for each of our edges this is what the broadcast theorem asks of a daemon. |
| `MeshDaemon.Daemon.BroadcastPacket` | tinc-c/src/net_packet.c:1614-1639 | Every flagged connection except the one behind from->nexthop gets exactly one copy. |
| `Sssp.UpdateSound` | tinc-c/src/graph.c:178-198 | An update keeps what is recorded true of real walks, direct or indirect. |
| `Sssp.RelayedSnoc` | tinc-c/src/graph.c:178-198 | An update takes via from the examined node if the way is or becomes indirect, and from the edge otherwise: it stays right before the first OPTION_INDIRECT edge of the walk. |
| `Sssp.DropHead` | tinc-c/src/graph.c:149-209 | A node whose edges have all been examined can leave the list: everything it reaches is recorded at most one hop further. |
| `Sssp.NoBetterWalk` | tinc-c/src/graph.c:138-209 | Without OPTION_INDIRECT no walk is shorter than the recorded distance, nor lighter at that length. |
| `Sssp.SearchDone` | tinc-c/src/graph.c:125-212 | An empty list means sound routes, and optimal ones without OPTION_INDIRECT. |
| `SsspTermination.ScanLess` | tinc-c/src/graph.c:178-204 | Re-queueing a node lowers the tuple of unvisited nodes, summed weights and indirect nodes. |
| `SsspTermination.Progress` | tinc-c/src/graph.c:149-209 | With non-negative weights, or without OPTION_INDIRECT, every turn of the outer loop lowers the measure that bounds the search. |
| `SsspTurns.TurnKeeps` | tinc-c/src/graph.c:149-209 | Every turn keeps the invariant of the search, whatever the mesh. |
| `SsspTurns.EndsWhen` | tinc-c/src/graph.c:125-212 | The search stops without negative weights, and with any weights without OPTION_INDIRECT. |
| `SsspDivergence.ScanMark` | tinc-c/src/graph.c:178-204 | What one scanned edge does to the fields that decide the course of the search. |
| `SsspDivergence.Round` | tinc-c/src/graph.c:149-209 | Six turns on the mesh of six nodes lead back to the same flags and list, three hops further out and one unit lighter. |
| `SsspDivergence.NeverEnds` | tinc-c/src/graph.c:125-212 | On that well-formed mesh, with weights from -1 to 1, the list never becomes empty. |
| `SsspDivergence.EndsIff` | tinc-c/src/graph.c:125-212 | The search stops on all meshes with weights of at least m, with or without OPTION_INDIRECT edges, if and only if m is not negative or there are none. |
| `SpanningTree.Exchange` | tinc-c/src/graph.c:80-116 | A spanning tree can trade a link leaving a subtree for any other such link. |
| `SpanningTree.AddLightest` | tinc-c/src/graph.c:80-116 | Adding a lightest leaving link keeps the chosen links part of some minimum tree. |
| `SpanningTree.TreeIsMinimal` | tinc-c/src/graph.c:80-116 | No link of a spanning tree can be spared. |
| `SpanningTree.SpanNeedsLinks` | tinc-c/src/graph.c:80-116 | Holding n nodes together takes n - 1 links. |
| `SpanningTree.SpansIffConnected` | tinc-c/src/graph.c:80-116 | Spanning by cuts is connectedness by paths. |
| `Mst.FirstSafeLightest` | tinc-c/src/graph.c:93-97 | The first usable edge in weight order that leaves the visited set is a lightest one. |
| `Mst.MstIsMinimum` | tinc-c/src/graph.c:65-117 | The chosen links are a spanning tree of the component, n - 1 of them, and no spanning tree weighs less. |
| `Broadcast.TargetsAre` | tinc-c/src/net_packet.c:1614-1639 | Once routes have converged, what broadcast_packet sends at a daemon goes to its tree neighbours other than the one the packet came from. |
| `Broadcast.TreeFlagged` | tinc-c/src/graph.c:102-108 | With a connection for each of its edges, a daemon's flagged connections are those to its tree neighbours. |
| `Broadcast.SameComponent` | tinc-c/src/graph.c:125-212 | The component of one daemon is the component of each of its members, because edges with a reverse can be walked back. |
| `Broadcast.Settles` | tinc-c/src/graph.c:322-327 | Daemons that ran graph() over the same edges agree on component and tree. |
| `Broadcast.Conserved` | tinc-c/src/net_packet.c:1614-1639 | At every moment each transmission has either been delivered or is in flight. |
| `Broadcast.RunFloods` | tinc-c/src/net_packet.c:1614-1639 | In every order of deliveries the links used so far are a subtree, the daemons it joins are exactly those that have got the packet or are being sent it, and nobody is sent it twice. |
| `Broadcast.ExactlyOnce` | tinc-c/src/net_packet.c:1614-1639 | If every daemon that the origin reaches ran graph() over the same edges, none with OPTION_INDIRECT, and has a connection for each of its edges, then in every order of deliveries each of them gets the packet exactly once and the flood stops after n - 1 transmissions. |
| `Edges.EdgeTables.constructor` | tinc-c/src/edge.c:49-61 | No nodes and no edges are consistent. |
| `Edges.EdgeTables.EdgeAdd` | tinc-c/src/edge.c:82-103 | A new edge enters both trees and is tied to its opposite; an existing one makes it a no-op; nothing else changes. |
| `Edges.EdgeTables.EdgeDel` | tinc-c/src/edge.c:105-112 | The edge leaves both trees, its opposite stops pointing to it, and nothing else changes. |
| `Edges.EdgeTables.Update` | tinc-c/src/protocol_edge.c:159-182 | A known edge carries the new attributes, and a new weight moves it in the weight tree without breaking its order. |
| `Edges.EdgeTables.KnowNode` | tinc-c/src/protocol_edge.c:113-121 | A new node has no edges; nothing else changes. |
| `Edges.EdgeTables.NewEdge` | tinc-c/src/protocol_edge.c:196-202 | A fresh edge record is in no tree yet. |
| `Edges.EdgeTables.AddEdge` | tinc-c/src/protocol_edge.c:98-204 | What an ADD_EDGE message does to every entry, field by field, and the answer: a message that is taken and passed on sets weight, options, address and a real local address; any other changes nothing. |
| `Edges.EdgeTables.DelEdge` | tinc-c/src/protocol_edge.c:247-319 | What a DEL_EDGE message does to every entry, including the clean-up of an unreachable node's edge to us, and the answer. |
| `Edges.MergedIs` | tinc-c/src/protocol_edge.c:159-202 | The entry after a message that is taken, field by field; a missing local address leaves a known one. |
| `Edges.AddReplies` | tinc-c/src/protocol_edge.c:86-217 | Which ADD_EDGE messages are errors, passed over, corrected by ADD_EDGE, corrected by DEL_EDGE, or taken and passed on. |
| `Edges.DelReplies` | tinc-c/src/protocol_edge.c:247-319 | The same for DEL_EDGE. |
| `Edges.RepeatQuiet` | tinc-c/src/protocol_edge.c:134-150 | Repeating a message that was taken is passed over and changes nothing. |
| `Edges.ReversePointsBack` | tinc-c/src/edge.c:92-96 | A reverse is set if and only if the opposite edge is present, and then points back. |
| `Edges.AddReverse` | tinc-c/src/edge.c:92-96 | Adding an edge keeps that. |
| `Edges.DropReverse` | tinc-c/src/edge.c:105-112 | Deleting one keeps that. |
| `Edges.CarryingWeight` | tinc-c/src/protocol_edge.c:178-182 | Unlink, change weight, insert again keeps the weight tree sorted and complete. |
| `Edges.ViewWellFormed` | tinc-c/src/edge.c:31-121 | Consistent indices are the well-formed graph that the graph algorithms assume: the weight tree is the union of the node trees, sorted by weight, from, to. |
| `Edges.ViewEntries` | tinc-c/src/graph.c:178-178 | Its edges are exactly the entries, with their weights, and OPTION_INDIRECT as the lowest option bit. |
| `Edges.ViewReverse` | tinc-c/src/edge.c:92-96 | In that graph an edge has a reverse if and only if its reverse pointer is set. |
| `OrderedIndex.InsertIs` | tinc-c/src/edge.c:82-103 | An insertion into a tree adds exactly the element and keeps the order. |
| `OrderedIndex.DeleteIs` | tinc-c/src/edge.c:105-112 | A deletion by comparison removes exactly the element. |
| `OrderedIndex.OccupiedIff` | tinc-c/src/splay_tree.c:411-437 | The place of an element is taken if and only if something compares equal to it. |
| `OrderedIndex.DeleteUndoesIff` | tinc-c/src/subnet.c:194-214 | Deleting undoes inserting if and only if nothing compared equal before. |
| `SplayIndex.InsertRealises` | tinc-c/src/splay_tree.c:411-437 | Putting a node where its key splits the tree is the insertion into the sorted sequence. |
| `SplayIndex.RemoveRealises` | tinc-c/src/splay_tree.c:547-590 | Taking the node out that a search finds is the deletion from the sorted sequence. |
| `SplayIndex.PresentPlace` | tinc-c/src/splay_tree.c:411-424 | An insertion is refused if and only if something compares equal. |
| `TreeOrders.EdgesLawful` | tinc-c/src/edge.c:31-55 | Both edge comparisons are total orders up to equality, as the splay tree asks. |
| `TreeOrders.EdgeIndices` | tinc-c/src/edge.c:82-112 | The edge indices, read as records, change as the two splay trees do. |
| `TreeOrders.SubnetsLawful` | tinc-c/src/subnet_parse.c:119-208 | The subnet comparison is a strict order too, though an ownerless subnet may compare equal to several. |
| `SplayTree.Tree.constructor` | tinc-c/src/splay_tree.c:269-277 | An empty tree. |
| `SplayTree.Tree.Link` | tinc-c/src/splay_tree.c:178-180 | A child pointer and its parent pointer are set together. |
| `SplayTree.Tree.Zig` | tinc-c/src/splay_tree.c:176-192 | The stores of a zig step. |
| `SplayTree.Tree.ZigZig` | tinc-c/src/splay_tree.c:196-223 | The stores of a zig-zig step, left or right. |
| `SplayTree.Tree.ZigZag` | tinc-c/src/splay_tree.c:224-252 | The stores of a zig-zag step, left or right. |
| `SplayTree.Tree.Reattach` | tinc-c/src/splay_tree.c:254-260 | The node takes its grandparent's place below the great-grandparent. |
| `SplayTree.Tree.SplayBottomUp` | tinc-c/src/splay_tree.c:172-265 | The node becomes the root; the tree stays a search tree over the same sequence with consistent parents, and the threads stay. |
| `SplayShape.RotateShape` | tinc-c/src/splay_tree.c:172-265 | Rotating any node over its parent keeps a search tree of the same sequence. |
| `SplayUp.ZigZigShape` | tinc-c/src/splay_tree.c:196-223 | The zig-zig stores are two rotations. |
| `SplayUp.ZigZagShape` | tinc-c/src/splay_tree.c:224-252 | The zig-zag stores are two rotations. |
| `SplayTree.Tree.SplayTopDown` | tinc-c/src/splay_tree.c:29-170 | The root becomes the node at which the plain descent of the tree before the call ends, with the same comparison result; sequence, parents and threads are kept. |
| `SplayTree.Tree.Descend` | tinc-c/src/splay_tree.c:30-163 | The loop over the three partial trees, and their joining. |
| `SplayTree.Tree.Step` | tinc-c/src/splay_tree.c:43-137 | One turn: zig-zig, zig-zag or the last zig, on either side. |
| `SplayTree.Tree.Join` | tinc-c/src/splay_tree.c:139-159 | Hooking the two side trees to the root gives one search tree of the same sequence. |
| `SplayDown.MoveApart` | tinc-c/src/splay_tree.c:79-86 | Moving the middle root to a side tree keeps the three partial trees an exact partition of the sequence. |
| `SplayDown.TurnApart` | tinc-c/src/splay_tree.c:52-57 | So does the rotation of a zig-zig step. |
| `SplayMerge.MergeShape` | tinc-c/src/splay_tree.c:139-159 | The merged tree is a search tree of the whole sequence. |
| `SplayDescent.ZigZigStep` | tinc-c/src/splay_tree.c:47-62 | A zig-zig turn keeps the partition and the way to where the descent ends, and shrinks the middle tree. |
| `SplayDescent.ZigZagStep` | tinc-c/src/splay_tree.c:63-77 | A zig-zag turn does too. |
| `SplayTree.Tree.SearchClosestNosplay` | tinc-c/src/splay_tree.c:338-377 | The plain descent ends at the specified node. |
| `SplaySearch.EndsOnce` | tinc-c/src/splay_tree.c:338-377 | A descent ends at one node only, so splaying and plain search return the same node. |
| `SplaySearch.EndIsClosest` | tinc-c/src/splay_tree.c:338-377 | If the key comes before that node, the node before it comes before the key, and the other way round. |
| `SplayOrder.DescentSplits` | tinc-c/src/splay_tree.c:338-377 | In an ordered tree everything before and after the end compares accordingly with the key. |
| `SplayTree.Tree.SearchClosest` | tinc-c/src/splay_tree.c:379-381 | The key, or a neighbour of the place where it belongs. |
| `SplayTree.Tree.SearchNode` | tinc-c/src/splay_tree.c:329-336 | Finds the key if and only if it is there. |
| `SplayTree.Tree.SearchClosestSmaller` | tinc-c/src/splay_tree.c:383-394 | The greatest element not greater than the key, through the threads; one that compares equal where several may. |
| `SplayTree.Tree.SearchClosestGreater` | tinc-c/src/splay_tree.c:396-407 | The smallest element not smaller than the key, through the threads; one that compares equal where several may. |
| `SplayTree.Tree.Insert` | tinc-c/src/splay_tree.c:411-437 | A key not there yet goes in at its place and the order holds, a key that is there changes nothing: the elements are those of an insertion into the sorted sequence. |
| `SplayTree.Tree.InsertNode` | tinc-c/src/splay_tree.c:439-462 | The same for an existing node outside the tree, whose old links are cleared first. |
| `SplayTree.Tree.Rekey` | tinc-c/src/protocol_edge.c:178-182 | Unlink, change the key and insert the same node again is a deletion and an insertion in the sorted sequence. |
| `SplayTree.Tree.InsertTop` | tinc-c/src/splay_tree.c:464-469 | The only element. |
| `SplayTree.Tree.InsertBefore` | tinc-c/src/splay_tree.c:471-507 | The sequence gains exactly the node, just before its neighbour (at the end without one); count and threads follow. |
| `SplayTree.Tree.InsertAfter` | tinc-c/src/splay_tree.c:509-545 | The same, just after it (at the start without one). |
| `SplayTree.Tree.Unlink` | tinc-c/src/splay_tree.c:547-557 | The key goes if it is there, and only it: the elements are those of a deletion from the sorted sequence. |
| `SplayTree.Tree.UnlinkNode` | tinc-c/src/splay_tree.c:559-590 | The sequence loses exactly the node; count, threads and tree follow. |
| `SplayInsert.InsertShape` | tinc-c/src/splay_tree.c:492-504 | Hanging a node above its splayed neighbour gives a search tree with the node next to it. |
| `SplayInsert.UnlinkShape` | tinc-c/src/splay_tree.c:572-586 | Joining the subtrees of the splayed node gives a search tree of the rest. |
| `SplayOrder.BetweenThreads` | tinc-c/src/splay_tree.c:482-490 | Threading a node in between two neighbours gives the threads of the longer sequence. |
| `SplayOrder.PastThreads` | tinc-c/src/splay_tree.c:560-570 | Threading past a node gives those of the shorter one. |
| `HashCache.Table.Search` | tinc-c/src/hash.h:57-66 | The value in the first of four probes that holds the key. |
| `HashCache.Table.Insert` | tinc-c/src/hash.h:43-56 | One slot is written, the key is found afterwards, and the table stays well kept if and only if the key was not live or its own slot was written. |
| `HashCache.Table.Delete` | tinc-c/src/hash.h:67-76 | No slot is live for the key afterwards and no other entry changes. |
| `HashCache.Table.Clear` | tinc-c/src/hash.h:77-80 | Nothing is live. |
| `HashCache.Table.constructor` | tinc-c/src/subnet.c:111-113 | A new table has no live slot. |
| `HashCache.OneLiveSlot` | tinc-c/src/hash.h:35-80 | Each key has at most one live slot and it is the one a search finds. |
| `HashCache.InsertKeeps` | tinc-c/src/hash.h:43-56 | Inserting a key that is not live keeps that, whatever entry it evicts. |
| `HashCache.InsertKeepsIff` | tinc-c/src/hash.h:43-56 | An insertion keeps one live slot per key if and only if the key was not live or is written to its own slot. |
| `HashCache.RemoveKeeps` | tinc-c/src/hash.h:67-76 | Emptying a slot keeps that. |
| `SubnetOrder.MaskCmp` | tinc-c/src/subnet_parse.c:32-50 | Zero if and only if the first masklen bits agree. |
| `SubnetOrder.MaskCheck` | tinc-c/src/subnet_parse.c:98-115 | True if and only if no bit is set after the first masklen. |
| `SubnetOrder.CompareFlip` | tinc-c/src/subnet_parse.c:185-208 | The comparison is antisymmetric, and zero only for equal subnets and for an ownerless and an owned one that are otherwise the same. |
| `SubnetOrder.CompareChain` | tinc-c/src/subnet_parse.c:137-208 | It is transitive. |
| `SubnetOrder.InsertSorted` | tinc-c/src/subnet.c:194-204 | An insertion keeps the order, and adds exactly the subnet if and only if it clashes with none. |
| `SubnetOrder.RemovedSorted` | tinc-c/src/subnet.c:206-214 | A deletion keeps the order, and removes exactly the subnet if and only if it clashes with none. |
| `Subnets.SubnetTable.constructor` | tinc-c/src/subnet.c:132-137 | Empty tree, cleared caches. |
| `Subnets.SubnetTable.Lookup` | tinc-c/src/subnet.c:256-322 | The cached lookup returns what the uncached scan returns, in every reachable state. |
| `Subnets.SubnetTable.Search` | tinc-c/src/subnet.c:267-279 | The loop finds the first usable match, or else the last match. |
| `Subnets.SubnetTable.FlushTable` | tinc-c/src/subnet.c:116-128 | The tables of the other address kinds are left alone. |
| `Subnets.SubnetTable.CacheFlush` | tinc-c/src/subnet.c:166-190 | After the tree changed by one subnet, forgetting one key or one table is enough for every remaining entry to be right. |
| `Subnets.SubnetTable.Add` | tinc-c/src/subnet.c:194-204 | The tree is that of the insertion and all cached answers are right. |
| `Subnets.SubnetTable.Del` | tinc-c/src/subnet.c:206-214 | The tree loses what compares equal, if anything does, and all cached answers are right. |
| `Subnets.RemovedConcerns` | tinc-c/src/subnet.c:206-214 | Whichever subnet that compares equal goes, only lookups of addresses in the deleted net change. |
| `Subnets.SubnetTable.Graph` | tinc-c/src/graph.c:322-327 | Reachability may change arbitrarily, because the caches are flushed first. |
| `Subnets.ScanFinds` | tinc-c/src/subnet.c:267-279 | Place by place, which subnet the loop finds. |
| `Subnets.ScanFollowsRule` | tinc-c/src/subnet.c:256-322 | Longest prefix, then lowest weight, then lowest owner name among the subnets that contain the address bit by bit and are ownerless or have a reachable owner, else the last match, else none; for subnets that share prefix and address whenever they overlap. |
| `Subnets.TidyAligned` | tinc-c/src/subnet_parse.c:87-115 | Subnets that pass subnetcheck share prefix and address whenever they overlap. |
| `Subnets.RuleIffAligned` | tinc-c/src/subnet_parse.c:137-159 | All tables over a set of nets, with any owners, weights and reachability, follow the rule for every address if and only if overlapping nets of equal prefix length share their address. |
| `Subnets.StrayBits` | tinc-c/src/subnet_parse.c:137-159 | A table of 10.0.0.1/24 and 10.0.0.2/24 breaks it. |
| `Base64.Encode` | tinc-c/src/utils.c:140-195 | The destination holds the encoding and a zero byte, also when it is the source buffer. |
| `Base64.Tail` | tinc-c/src/utils.c:146-171 | The incomplete last group. |
| `Base64.Group` | tinc-c/src/utils.c:173-184 | One complete group, written in front of the following ones. |
| `Base64.Put` | tinc-c/src/utils.c:176-183 | The symbols of one triplet, least significant bits first. |
| `Base64.Decode` | tinc-c/src/utils.c:82-120 | The buffer holds what the string stands for, or 0 is returned; also in place. |
| `Base64.Take` | tinc-c/src/utils.c:87-102 | One symbol; the fourth of a group completes three bytes or fails. |
| `Base64.Finish` | tinc-c/src/utils.c:104-119 | The incomplete last group. |
| `Base64.RoundTrip` | tinc-c/src/utils.c:82-187 | Decoding gives back every byte string, with either alphabet. |
| `Base64.SymbolIs` | tinc-c/src/utils.c:27-28 | The symbols run from A to Z, a to z and 0 to 9, and end with + and /, or - and _. |
| `Base64.TextAllowed` | tinc-c/src/utils.c:140-195 | An encoding consists of letters, digits and the two further symbols of its own alphabet. |
| `Base64.TextBits` | tinc-c/src/utils.c:140-187 | The bits of the input, six to a symbol and least significant first, are the bits of the text, with zeros behind the end. |
| `Base64.DecodedBits` | tinc-c/src/utils.c:82-120 | Any string of known symbols decodes to its bits in the same order, as far as they fill bytes; a single symbol left over is dropped. |
| `Base64.BufferRoundTrip` | tinc-c/src/utils.c:82-187 | So does decoding the buffer that an encoding leaves behind, whatever follows the terminator. |
| `Base64.FailsIff` | tinc-c/src/utils.c:87-106 | Decoding fails if and only if a character outside both alphabets comes before the end. |
| `Base64.EncodedLength` | tinc-c/src/utils.c:140-187 | Length of an encoding. |
| `OnesComplement.InetChecksum` | tinc-c/src/route.c:63-84 | The 32-bit accumulator loop computes the wrapping sum, and the exact checksum up to 131072 bytes. |
| `OnesComplement.Folded` | tinc-c/src/route.c:79-81 | Folding carries back in until 16 bits are left. |
| `OnesComplement.FoldIs` | tinc-c/src/route.c:79-81 | Folding is arithmetic modulo 65535 in which only zero is zero. |
| `OnesComplement.Chains` | tinc-c/src/route.c:63-84 | A checksum chains exactly over an even-length split. |
| `OnesComplement.InsertedChecks` | tinc-c/src/route.c:199-208 | A buffer with its checksum put into a zero word at an even place re-checks to 0. |
| `OnesComplement.OrderIrrelevant` | tinc-c/src/route.c:63-84 | Whether an even-length buffer checks does not depend on the byte order. |
| `OnesComplement.OrderMatters` | tinc-c/src/route.c:75-77 | Whether a buffer that ends in an odd byte checks is independent of the byte order for all buffers if and only if that byte is zero. |
| `OnesComplement.NeverBoth` | tinc-c/src/route.c:75-77 | With any other odd last byte no buffer checks in both byte orders. |
| `OnesComplement.NoOverflow` | tinc-c/src/route.c:66-73 | Up to 131072 bytes the accumulator does not wrap. |
| `OnesComplement.ExactIff` | tinc-c/src/route.c:66-73 | The code computes the checksum of all buffers of n bytes, whatever the previous sum, if and only if n is at most 131072. |
| `OnesComplement.HeavyWraps` | tinc-c/src/route.c:66-73 | For every greater length a buffer on which the result is wrong. |
| `Ttl.DecrementTtl` | tinc-c/src/route.c:328-387 | What happens to every byte of IPv4, IPv6, 802.1Q-tagged and other packets, and when an ICMP message is due. |
| `Ttl.Update` | tinc-c/src/route.c:351-365 | The incremental update in place. |
| `Ttl.DecrementedChecks` | tinc-c/src/route.c:351-365 | The header checks afterwards if and only if it checked before, in either byte order. |
| `Ttl.ForwardedChecks` | tinc-c/src/route.c:351-365 | The same for the packet, of which nothing but time to live and checksum changes. |
| `Ttl.HandledIs` | tinc-c/src/route.c:328-387 | For every packet, tagged or not: it stops if and only if it is IPv4 or IPv6 and too short or expired; a forwarded IPv4 packet has time to live one lower, a header that is valid if and only if it was, and nothing else changed; IPv6 only its hop limit, by one; any other nothing. |
| `Ttl.Answered4Iff` | tinc-c/src/route.c:343-346 | For every expired IPv4 packet the decision to answer is right if and only if bytes 11 and 32 of the header say what byte 9 and the first byte behind the header say. |
| `Ttl.AnsweredWrongly` | tinc-c/src/route.c:343-346 | An expired time-exceeded message that is answered, and an expired UDP packet that is not. |
| `Ttl.Answered6Iff` | tinc-c/src/route.c:372-375 | For every expired IPv6 packet the decision is right if and only if the packet goes beyond its header or the header and the byte behind it do not look like a time-exceeded message. |
| `Fragment.FragmentIpv4` | tinc-c/src/route.c:570-618 | The fragments sent are the specified ones; none for headers with options or a wrong length. |
| `Fragment.SendAll` | tinc-c/src/route.c:600-617 | The loop over what is left to send. |
| `Fragment.Emit` | tinc-c/src/route.c:606-611 | The header struct reused from fragment to fragment gives the same header as a fresh copy. |
| `Fragment.HeaderIs` | tinc-c/src/route.c:606-609 | Length, flags and offset read back, everything else is kept, and the header checks. |
| `Fragment.ReassemblesIff` | tinc-c/src/route.c:600-617 | Payloads put where their offsets say give the original payload, within the size limit, with the right flags and valid checksums, if and only if the last offset fits 13 bits. |
| `Fragment.LegalFits` | tinc-c/src/route.c:594-598 | It does for every datagram that ends within 65535 bytes. |
| `Fragment.SentReassembles` | tinc-c/src/route.c:570-618 | What is sent for such a datagram reassembles to it. |
| `Fragment.FieldBytes` | tinc-c/src/route.c:585-598 | Length, flags and offset of a header, by byte and bit. |
| `Fragment.FragmentableIff` | tinc-c/src/route.c:581-590 | A packet is fragmented if and only if its header has five words and gives the length of the packet. |
| `Fragment.LargestFragments` | tinc-c/src/route.c:595-601 | All fragments but the last are as large as the path allows in steps of eight bytes, and the path allows at least 590. |

## Left out

- MeshDaemon.Daemon.SsspBfs: distances are claimed minimal only without OPTION_INDIRECT, as a direct route is preferred to a shorter indirect one; whether a particular mesh with both negative weights and OPTION_INDIRECT ends is not decided in advance.
- MeshDaemon.Daemon.CheckReachability: does not model the scripts, SPTPS sessions, MTU and UDP fields that are reset with a change of reachability.
- MeshDaemon.Daemon.BroadcastPacket: MST mode only; direct mode and tunnelserver mode have no flooding to speak of.
- SptpsSession.Session.SendRecordPriv: the send callback always succeeds, and so do key generation, random draws and cipher set-up, whose failures end the session in the code.
- SplayTree.Tree.Insert: the allocator chooses the new node's address, which is a parameter; the generation counter and freeing are not modelled.
- SplayTree.Tree.SplayTopDown: update in place is on the explicit memory map rather than on heap objects, so aliasing between different trees is not captured.
- Subnets.SubnetTable.Add: subnets are values in one sorted sequence (what the splay tree provides); the per-owner trees, expiry and the lifetime of freed subnets are not modelled.
- Subnets.SubnetTable.Lookup: IPv4 and IPv6; the MAC cache is shared between owner-restricted and global lookups.
- Base64.Decode: the decoding table is an array of signed char, as on the common platforms.
- Edges.EdgeTables.AddEdge: parsing, duplicate suppression, forwarding and logging are reduced to the answer; freeing is not modelled.
- SPTPS datagram handshakes (sptps.c:112-131, 536-603) beyond the replay filter, and adversarial networks: the two-party theorem is for honest peers over FIFO channels.
- Signed overflow of `a->weight - b->weight`: weights are mathematical integers.
- hex2bin and bin2hex, clamp_mss, PMTU probing, sockets, devices, event loop, configuration and control socket: plumbing, or only easier members.
