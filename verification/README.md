# GRID0-relay: a model of the relay's cores

GRID0-relay bridges a Nintendo Switch on Wi-Fi to a ZeroTier overlay network. This
Dafny project models the parts of it that keep state or do modular arithmetic, and
proves what they promise for every input and over every run. I/O becomes events
(a frame, a clock reading, an ACK count, a timer tick, a resolved promise) and
actions (a frame sent, a callback made). `dafny verify dfyconfig.toml` covers all files.

Each core has two halves. A pure half gives the step as a function on values and
proves the theorems over all runs. An imperative half (`UvlTcp`, `LanClient`,
`DhcpServer`, `Sha1Transform`, `Sha1Stream`, `SlpServer`, the classes in `Arp`,
`SwitchLearning` and `Discovery`, and the checksum, translation and Base64 methods)
updates arrays, linked objects and fields as the source does, and is proved equal to
the pure half step by step.

| files | what they model |
|---|---|
| `WriteQueue`, `UvlTcp` | the TCP write queue over lwIP (`uv_lwip/uv_lwip.c`) |
| `Fragments`, `Reassembly`, `Eviction`, `Transit`, `LanClient` | fragmenting and reassembling packets, and a packet's way from sender to receiver (`src/lan-client.c`) |
| `InternetChecksum`, `LwipChecksum`, `RelayChecksum` | the Internet checksum and its fast forms |
| `Ipv4`, `AddressTranslation`, `Relay`, `Neighbors` | address rewriting, a packet's way through two relays, and the way back (`src/lan-play.c`) |
| `SwitchLearning`, `Discovery` | learning the console, and the ARP sweep for it (`src/lan-play.c`) |
| `Sha1`, `Sha1Transform`, `Sha1Stream` | streaming SHA-1 (`src/sha1.c`) against FIPS 180-4 |
| `Dhcp`, `DhcpPick`, `DhcpProgress`, `DhcpRelease`, `DhcpServer` | the DHCP lease allocator (`src/dhcp-server.c`) |
| `Arp` | the neighbour table (`src/arp.c`) |
| `UdpServer`, `UdpForwarding`, `UdpRouting`, `UdpBytes`, `UdpRegistry`, `UdpLogin`, `SlpServer` | the public relay server (`server/src/udpserver.ts`) |
| `UdpCrossing` | a packet's way from one client over that server to another |
| `Base64` | the codec (`src/rpc/base64.hpp`) against RFC 4648 |
| `Bytes` | bytes, words and chains, shared |

## Where the code and its promises differ

The model follows the code. These are the places where a promise, a comment or an
expectation holds only under a condition. Where the text says "if and only if", both
directions are proved.

- The comment on the second lwIP checksum bounds its input by 0x20000 bytes; the 32-bit accumulator holds every sum if and only if the length is at most 0x20002 (`InternetChecksum.AccumulatorRange`).
- `calc_checksum` adds a last odd byte as a low byte. It is the RFC 1071 checksum if and only if the length is even or that byte is zero (`RelayChecksum.CalcChecksum`).
- `calc_payload_checksum` steps two bytes over the end of an odd part. Its reads stay inside the parts of a chain if and only if, from the left, every odd part is the last or has its last word completed by a next part of exactly one byte (`RelayChecksum.InsideIffReadable`); a byte followed by an empty part, or by two bytes, fails (`RelayChecksum.OddPartReadsOutside`).
- A slot of the fragment table keeps 16 bits of the counter that numbers packets, and its age is reckoned against the whole counter. So when all 100 slots are open, a fragment of a new packet is dropped if and only if every slot was opened among the last 100 packets and among the first 65536 (`Eviction.DroppedIff`). A hundred packets left open one after the other wedge the table if and only if the last is still numbered below 65536 (`Eviction.HundredOpenPacketsWedge`); then every fragment of another packet is dropped until one of them is delivered (`Eviction.WedgedUntilDelivery`).
- The slot that makes room is the one with the smallest 16-bit number (`Eviction.TakenIff`). It is the one open longest if and only if all were opened in one lap of that number (`Eviction.LongestOpenIsTakenIff`, while no packet stays open for 65536 others). When the last of a hundred in a row starts a lap, as at counter 65537, the newest makes room (`Eviction.NewestIsTaken`), and every counter value is reached (`Eviction.EveryCounterIsReached`).
- The DHCP allocator picks only usable addresses if and only if the relay's own overlay address is one (`Dhcp.PicksAreUsableIff`). A DISCOVER replaces an acknowledged lease of an hour by a reservation of two minutes (`Dhcp.OfferReserves`).
- `SHA1Update` tests a 32-bit sum. Its last copy stays inside the 64-byte buffer if and only if the buffered byte count plus the length fits 32 bits (`Sha1Stream.InsideIffFits`); one buffered byte and a length of 2^32 - 1 fail (`Sha1Stream.LongestUpdateFails`). The total length may exceed 2^64 bits, as the counter wraps like the length field.
- The Nintendo flag of a learned console is not cleared when its MAC is replaced. It is wrong if and only if the first claim came from a Nintendo MAC and the first first-hand claim of that address did not (`SwitchLearning.VendorFlag`, `SwitchLearning.VendorFlagWrong`).
- A wake-up of the write queue completes every acknowledged request if and only if the callback that empties the queue does not submit an empty request first, because the successor is read before the callback runs (`WriteQueue.WakeCompletesAcknowledged`, `WriteQueue.EmptyRequestWaits`). After a cancellation an empty request is reported as written although bytes before it never were (`WriteQueue.EmptyAfterCancel`, `WriteQueue.CanceledRun`).
- The sender cuts packets of every 16-bit length, but a receiver has room for all parts if and only if the packet is at most 1500 bytes long (`Reassembly.FitsReceiverIff`).
- The public server takes a fragment of at most four payload bytes for too short and drops it. So it routes all datagrams of a packet if and only if the packet is longer than a bare header and more than four bytes are left for its last part (`UdpCrossing.AllAddressedIff`); a packet of 504 bytes in parts of 500 never arrives through it (`UdpCrossing.ShortTailIsDropped`).
- The address rewrite takes a later fragment of a UDP datagram for a whole one and writes a checksum into its payload. The payload survives if and only if the packet is not taken for UDP or those two bytes are already right (`AddressTranslation.PayloadSurvivesIff`, `AddressTranslation.FragmentIsDamaged`).
- A packet for one host crosses the overlay if and only if the sender's neighbour table has nothing or the right MAC for it; any other entry loses it (`Relay.AcrossTwoRelays`, `Relay.StaleNeighborLoses`). A reply finds the right entry or none, unless somebody else claims the sender's address in between (`Neighbors.ReplyComesBack`).
- A login attempt at the public server is verified against whatever the peer's challenge holds. The peer has been sent that challenge, completely filled, if and only if its marker is cleared when the attempt arrives (`UdpLogin.AttemptAgainstShownIff`), and the server does not test it: a first message and an attempt right behind it can log in against a blank challenge (`UdpLogin.LoginWithoutChallenge`).
- With an auth provider only users can send, but floods also reach registered peers without a user (`UdpRouting.StrangersReceiveFloods`).
- A peer of the public server whose random challenge could not be filled is never challenged again (`UdpServer.AbandonedForGood`). A wrong password is reported twice.

## Model

| member | source | states |
|---|---|---|
| `WriteQueue.RunIsFifo` | uv_lwip/uv_lwip.c:90-211 | over every run of writes, wake-ups, ACKs and closes: the bytes handed to TCP are a prefix of all requests concatenated in order; until a cancellation the pending counts add up to bytes handed minus bytes acknowledged; callbacks fire once per request in FIFO order, and success only after every byte up to the request's end is acknowledged, except for an empty request after a cancellation |
| `WriteQueue.EmptyAfterCancel` | uv_lwip/uv_lwip.c:96-103 | the exception is real: in every state where a cancellation emptied the queue before all bytes were acknowledged, an empty request is reported as written before its end is acknowledged |
| `WriteQueue.CanceledRun` | uv_lwip/uv_lwip.c:68-115 | such states are reached: any non-empty request, a close, and the wake-up that follows |
| `WriteQueue.FinishedIffAcked` | uv_lwip/uv_lwip.c:96 | the completion test on the head request is exact: it succeeds if and only if all bytes up to the request's end are acknowledged |
| `WriteQueue.WakeCompletesAcknowledged` | uv_lwip/uv_lwip.c:90-117 | after every wake-up of an open connection, whatever the callbacks submit, the head request is already acknowledged if and only if it is an empty request first submitted by the callback that emptied the queue |
| `WriteQueue.WakeReports` | uv_lwip/uv_lwip.c:90-117 | open or closed, whatever the callbacks submit: of the requests queued before a wake-up exactly those whose bytes are acknowledged are reported as written; a closed client calls back all the others as canceled, an open one keeps them |
| `WriteQueue.EmptyRequestWaits` | uv_lwip/uv_lwip.c:96-103 | that happens: an empty request whose callback submits another empty one |
| `WriteQueue.FillIsWorkConserving` | uv_lwip/uv_lwip.c:160-211 | without ERR_MEM the writer hands over all unsent bytes or fills the send window, whichever is less |
| `WriteQueue.WakeFillsWindow` | uv_lwip/uv_lwip.c:90-211 | a wake-up of an open connection without ERR_MEM leaves TCP with as long a prefix of all requests, those its callbacks submit included, as the send window allows |
| `WriteQueue.WriteBufAdvances` | uv_lwip/uv_lwip.c:119-154 | a partial write hands over consecutive bytes of the current buffer, shrinks the window by as many, and moves to the next buffer only when this one is finished |
| `WriteQueue.FillFromConserves` | uv_lwip/uv_lwip.c:160-211 | filling from the cursor keeps queue order, extends what TCP has by exactly the bytes written, and adds them to the pending counts |
| `WriteQueue.SpreadConserves` | uv_lwip/uv_lwip.c:304-353 | an ACK lowers the pending counts by its length in total, changes no buffer and keeps acknowledgement in queue order |
| `WriteQueue.StepKeepsInv` | uv_lwip/uv_lwip.c:90-353 | every event keeps the invariant tying queue, stream, callbacks and acknowledgements |
| `WriteQueue.HandedIsPrefix` | uv_lwip/uv_lwip.c:160-211 | when sending is in queue order, what TCP has is a prefix of the queued contents |
| `WriteQueue.CancelAllKeepsInv` | uv_lwip/uv_lwip.c:68-88 | cancellation calls back every request still queued, in order, and empties the queue |
| `UvlTcp.Client.Write` | uv_lwip/uv_lwip.c:473-503 | linking a request at the tail is appending it to the queue |
| `UvlTcp.Client.WriteBufToTcp` | uv_lwip/uv_lwip.c:119-154 | the loop over the current buffer leaves the request, window, result and bytes of `WriteBuf`, the step `WriteBufAdvances` is about |
| `UvlTcp.Client.WriteToTcp` | uv_lwip/uv_lwip.c:160-211 | the two loops over the linked queue leave the queue and the bytes of `Fill`, the function the conservation lemmas are about |
| `UvlTcp.Client.SentFunc` | uv_lwip/uv_lwip.c:304-353 | the ACK loop over the linked queue spreads the ACK as `SpreadConserves` says and never runs past the end of the queue |
| `UvlTcp.Client.AsyncWriteCb` | uv_lwip/uv_lwip.c:90-117 | on the linked objects a wake-up is the pure wake-up step, so the run theorems above hold of them; every acknowledged request queued before it is called back as written, also when the client is closed, and the rest is canceled or kept |
| `UvlTcp.Client.ReapQueue` | uv_lwip/uv_lwip.c:96-107 | the completion loop unlinks and calls back exactly the finished prefix of the queue |
| `UvlTcp.Client.CancelReqs` | uv_lwip/uv_lwip.c:68-88 | every queued request is unlinked and called back with the cancel status, when those callbacks submit nothing |
| `UvlTcp.Client.Close` | uv_lwip/uv_lwip.c:213-225 | a freed connection only marks the client closed |
| `UvlTcp.Client.constructor` | uv_lwip/uv_lwip.c:614-640 | a new client has an empty queue and satisfies the invariant |
| `Fragments.DecodeEncode` | src/lan-client.c:257-263 | reading the fragment header gives back the fields that were written, and the payload follows it |
| `Fragments.PartsCover` | src/lan-client.c:469-472 | the number of parts is exact: part i exists if and only if it starts inside the packet |
| `Fragments.CutIsWhole` | src/lan-client.c:483-497 | for every packet of 16-bit length and every part size from the configured minimum on, the payloads of all fragments, joined in order, are the packet |
| `Reassembly.NeverCorrupts` | src/lan-client.c:252-331 | with no bound on the number of packets, whatever arrives in whatever order, evicted, duplicated or late, a delivered packet is byte for byte the one sent under the completing fragment's source and id |
| `Reassembly.DeliveredWhenComplete` | src/lan-client.c:252-331 | with at most 100 packets open, the arrival that completes a packet delivers it, and no earlier one does |
| `Reassembly.DeliveredExactlyOnce` | src/lan-client.c:252-331 | with at most 100 packets open, a packet all of whose parts arrive, duplicates before completion included, is delivered by exactly one arrival |
| `Reassembly.SmallWorldIsRoomy` | src/lan-client.c:277-289 | every run over the fragments of at most 100 packets stays within the table |
| `Reassembly.ProcessRefines` | src/lan-client.c:252-331 | one call refines the abstract reassembler: a set of received parts per open packet |
| `Reassembly.FullHolds` | src/lan-client.c:315-325 | the bitmap test recognises completeness exactly, and the buffer of a complete slot is the packet |
| `Eviction.FullTableDrops` | src/lan-client.c:291-328 | when all slots are in use, a fragment of a new packet is ignored if and only if no slot's 16-bit number is more than 100 away from the counter |
| `Eviction.DroppedIff` | src/lan-client.c:281-328 | after every run of fragments that leaves the table full, a fragment of a new packet is dropped if and only if every slot was opened among the first 65536 packets and among the last 100 |
| `Eviction.TakenIff` | src/lan-client.c:292-309 | in a full table the slot picked is the first with the smallest 16-bit number |
| `Eviction.LongestOpenIsTakenIff` | src/lan-client.c:292-309 | while no packet stays open for 65536 others, the slot picked is the one open longest if and only if all slots were opened in one lap of the 16-bit number |
| `Eviction.FirstIsTakenIff` | src/lan-client.c:281-309 | of 100 packets opened one after the other from any counter value, the first is picked if and only if no lap lies between first and last |
| `Eviction.NewestIsTaken` | src/lan-client.c:281-309 | when the last of them starts a lap, it is the last that is picked |
| `Eviction.EveryCounterIsReached` | src/lan-client.c:281-325 | for every counter value there is a run from the start that leaves the table idle at it |
| `Eviction.HundredOpenPacketsWedge` | src/lan-client.c:291-312 | from an idle table at any counter value, one fragment each of 100 packets leaves the table stuck if and only if the last packet is numbered below 65536 |
| `Eviction.WedgedUntilDelivery` | src/lan-client.c:291-328 | over every run of fragments that delivers nothing, a stuck table stays stuck, keeps the same packets open and drops every fragment of any other packet |
| `Reassembly.FitsReceiverIff` | src/lan-client.c:314-319 | the receiver's copies of all fragments of a packet stay inside the slot's buffer and bitmap if and only if the packet is at most 1500 bytes long |
| `Reassembly.SentIsReceived` | src/lan-client.c:485-497 | the datagrams the sender cuts are the fragments the receiver's theorems speak of |
| `Transit.DatagramsCarryPacket` | src/lan-client.c:459-504 | whole or cut, for every length and part size the sender accepts, the bytes behind the headers of all datagrams, joined, are the packet |
| `Transit.ArrivesOnce` | src/lan-client.c:380-504 | every packet of 20 to 1500 bytes, sent whole or in fragments to a receiver with a free slot, is handed on exactly once and unchanged, and leaves the table as it was but for the slot, which is free again |
| `Transit.TypeDecides` | src/lan-client.c:388-403 | the flag in the top bit of the type byte is ignored, and only the two packet types hand anything on or touch the table |
| `LanClient.Client.SendIpv4` | src/lan-client.c:459-504 | a packet of more than one part, of any 16-bit length, is sent as all its fragments under a fresh id, any other packet whole; the bytes the datagrams carry, joined, are the packet |
| `LanClient.Client.CutPacket` | src/lan-client.c:483-497 | the cutting loop emits every part once, in order, with its header |
| `LanClient.Client.LocateSlot` | src/lan-client.c:266-312 | the three searches find the slot of the same packet, else a free one, else the one whose 16-bit number is farthest from the counter if that is beyond the threshold |
| `LanClient.Client.OldestSlot` | src/lan-client.c:292-302 | the scan finds the first open slot whose 16-bit number is farthest from the counter, and that distance |
| `LanClient.Client.ProcessFrag` | src/lan-client.c:252-331 | the in-place reassembler computes the pure step: same slots, same delivery |
| `LanClient.Client.OnRecv` | src/lan-client.c:380-410 | the dispatch on the type byte is the step of `Transit.ArrivesOnce`: same slots, same packet handed on |
| `LanClient.Client.constructor` | src/lan-client.c:65-68 | the table starts empty |
| `InternetChecksum.SumIsInternetSum` | src/lan-play.c:146-163 | adding 16-bit words and reducing afterwards gives the one's complement sum of RFC 1071 |
| `InternetChecksum.SumFlip` | lwip/src/include/lwip/inet_chksum.h:46-52 | summing in the other byte order is multiplying by 256 modulo 65535 |
| `InternetChecksum.HostSum` | lwip/src/core/inet_chksum.c:132-173 | the folded host-order sum is the reference sum in host byte order, on either kind of host |
| `InternetChecksum.FoldTwice` | lwip/src/include/lwip/inet_chksum.h:46-52 | two foldings reduce every 32-bit value to its one's complement representative |
| `InternetChecksum.AccumulatorRange` | lwip/src/core/inet_chksum.c:117-131 | a 32-bit accumulator holds every sum of n bytes if and only if n <= 0x20002 |
| `InternetChecksum.StoredChecksumVerifies` | src/lan-play.c:191-192 | storing the inverted sum in a zeroed aligned field makes the whole sum all ones |
| `LwipChecksum.StandardChksum1` | lwip/src/core/inet_chksum.c:79-114 | the byte-pair version returns the reference sum in host order |
| `LwipChecksum.StandardChksum2` | lwip/src/core/inet_chksum.c:132-173 | the word version returns it from every start alignment, with no overflow up to 0x20002 bytes |
| `LwipChecksum.StandardChksum3` | lwip/src/core/inet_chksum.c:188-255 | the 32-bit version with end-around carry returns it from every start alignment and for every length |
| `LwipChecksum.AccumulateStep` | lwip/src/core/inet_chksum.c:574-584 | one buffer of a chain keeps the relation between accumulator, swap flag and a factor 256 modulo 65535 |
| `LwipChecksum.SumChain` | lwip/src/core/inet_chksum.c:574-588 | the chain loop computes the sum of the concatenated bytes, odd lengths included |
| `LwipChecksum.ChksumPbuf` | lwip/src/core/inet_chksum.c:567-589 | the checksum of a chain cut anywhere is that of the concatenated bytes |
| `LwipChecksum.ChksumPseudo` | lwip/src/core/inet_chksum.c:259-327 | with the pseudo header it is that of pseudo header and bytes |
| `RelayChecksum.FoldAll` | src/lan-play.c:151-152 | folding carries reaches the one's complement representative of every 32-bit sum |
| `RelayChecksum.SubtractAll` | src/ipv4/ipv4.c:163-165 | repeated subtraction of 0xffff reaches the same representative |
| `RelayChecksum.AddBytes` | src/lan-play.c:155-163 | the helper adds the words of a buffer, a last odd byte as a high byte |
| `RelayChecksum.HeaderChecksum` | src/lan-play.c:146-153 | the header checksum is the inverted RFC 1071 sum |
| `RelayChecksum.UdpChecksum` | src/lan-play.c:165-179 | the UDP checksum covers pseudo header and datagram, and is never sent as zero |
| `RelayChecksum.CalcChecksum` | src/ipv4/ipv4.c:152-167 | calc_checksum equals the RFC 1071 checksum if and only if the length is even or the last byte is zero |
| `RelayChecksum.CalcPayloadChecksum` | src/ipv4/ipv4.c:169-201 | over every chain all reads stay inside of, the checksum is that of the flattened bytes |
| `RelayChecksum.InsideIffReadable` | src/ipv4/ipv4.c:175-193 | the bounds-checked cursor stays inside the parts if and only if, from the left, every odd part is the last or has its last word completed by a next part of exactly one byte |
| `RelayChecksum.OddPartReadsOutside` | src/ipv4/ipv4.c:176-188 | after a single byte, an empty part and a part of two bytes are read outside |
| `AddressTranslation.RewriteAddresses` | src/lan-play.c:181-201 | the in-place rewrite refuses exactly the packets it cannot parse and leaves those alone |
| `AddressTranslation.RewrittenShape` | src/lan-play.c:181-201 | only the addresses and the two checksums of a whole UDP packet change; the UDP checksum is present afterwards |
| `AddressTranslation.RewrittenHeaderValid` | src/lan-play.c:190-192 | the header checksum verifies after the rewrite of every packet that can be parsed, fragments and other protocols included |
| `AddressTranslation.PayloadSurvivesIff` | src/lan-play.c:194-199 | for every packet that can be parsed, the payload is unchanged if and only if it is not taken for UDP or its bytes 6 and 7 already are the checksum computed |
| `AddressTranslation.FragmentIsDamaged` | src/lan-play.c:194-199 | every later UDP fragment whose bytes 6 and 7 are zero is altered |
| `AddressTranslation.RewrittenUdpValid` | src/lan-play.c:194-199 | the UDP checksum of the rewritten packet verifies by the receiver's rule |
| `Relay.BroadcastIsLast` | src/lan-play.c:847 | the overlay broadcast address is the one address of the subnet with every host bit set, for every mask |
| `Relay.OverlayIsSubnet` | src/lan-play.c:128-136 | is_zerotier_destination holds exactly for the addresses whose masked bits are those of the relay, the broadcast address included |
| `Relay.WifiOutcome` | src/lan-play.c:221-285 | what becomes of every packet captured on Wi-Fi, by the fields of its RFC 791 header: which are not relayed, that port-unreachable errors and datagrams of a port that cannot be reserved are swallowed, and the frame all others are sent on in |
| `Relay.OverlayOutcome` | src/lan-play.c:338-374 | what becomes of every packet captured on the overlay, by the fields of its header: frames of the relay itself are ignored, those for the last address go to everybody on Wi-Fi, those for the relay or its console to the console, no others |
| `Relay.RewrittenIsPacket` | src/lan-play.c:181-201 | a rewritten packet is the packet with the new addresses and a new header checksum: version, lengths, identification, flags, time to live, protocol and options are kept, and of the payload all but a UDP checksum |
| `Relay.RelayWifiIpv4` | src/lan-play.c:221-285 | for every frame, a relayed frame carries the packet of the received one, from the relay's overlay address and MAC, either for the last address of the overlay subnet and to everybody or for a host of it and to the neighbour's MAC, with nothing but the addresses, the header checksum and the place of a UDP checksum changed; the header checksum verifies, and the UDP checksum of a whole datagram |
| `Relay.RelayZerotierIpv4` | src/lan-play.c:338-374 | for every frame, a delivered frame carries the packet of the received one with its source kept, to everybody if it was for the last address of the overlay subnet, else to the console's address and MAC, with nothing but the addresses, the header checksum and the place of a UDP checksum changed; the header checksum verifies, and the UDP checksum of a whole datagram |
| `Relay.PeersAgree` | src/lan-play.c:128-136 | relays on one overlay agree on its broadcast address and its members |
| `Relay.FirstRelay` | src/lan-play.c:221-285 | the sender's relay forwards exactly the packets for the overlay, as from its own overlay address, in a frame for the neighbour entry's MAC, or for everybody when there is none or it is a broadcast |
| `Relay.SecondRelay` | src/lan-play.c:338-374 | the receiver's relay delivers exactly broadcasts and packets for its overlay address or its console |
| `Relay.AcrossTwoRelays` | src/lan-play.c:221-374 | a whole UDP packet of console A reaches B's Wi-Fi if and only if it is for 10.255.255.255 or the address of the overlay subnet with every host bit set, or for B's overlay address or B's console on the overlay while A's neighbour table has nothing or B's MAC for it; it arrives with only addresses and checksums changed and both checksums valid |
| `Relay.ReplyReachesSender` | src/lan-play.c:221-374 | what console B sends to the source it saw is delivered to console A, addressed to it, with both checksums valid, if and only if B's neighbour table has nothing or A's MAC for it |
| `Relay.StaleNeighborLoses` | src/lan-play.c:968-984 | any other neighbour entry loses every packet for one host |
| `Neighbors.ReplyComesBack` | src/lan-play.c:695-717 | once a packet of console A has crossed to host B, whatever frames B captures before and after, unless somebody else claims A's overlay address later, a datagram console B sends to that address at any later time is delivered to console A; nothing is assumed of B's neighbour table |
| `Neighbors.AnnouncedIsFound` | src/lan-play.c:701-717 | after a frame that announces an address, with no later claim by another, the table gives the announced MAC or none at every later time, and does give it for 30 seconds unless it was full of other live addresses when the frame came |
| `Neighbors.SenderIsHeard` | src/lan-play.c:701-717 | the frame a relay sends announces its overlay address and MAC to the other relay |
| `Neighbors.PacketIsHeardIff` | src/lan-play.c:701-717 | an IPv4 packet of another station teaches the table its source and MAC exactly when the source is an address of the overlay subnet other than the last and the relay's own |
| `Neighbors.ArpIsHeardIff` | src/lan-play.c:701-717 | an ARP packet does so with the sender it names, whatever its opcode, exactly under the same condition and if the frame comes from the MAC it names |
| `Neighbors.LearnNeighbor` | src/lan-play.c:695-717 | the capture handler changes the table by exactly the announcement the frame contains, IPv4 or ARP, if any |
| `Neighbors.NeighborMac` | src/lan-play.c:968-977 | the two lookups, each with its own clock reading, give the MAC or decide for a broadcast |
| `SwitchLearning.RunIsExpected` | src/lan-play.c:590-670 | over every frame sequence, the learned console is the first claimed address, its MAC that of the first first-hand claim of that address or else of the first claim, confirmed if and only if there is a first-hand claim; the conflict count is the number of claims naming another MAC than the one in force |
| `SwitchLearning.MacChangesAtMostOnce` | src/lan-play.c:630-642 | once learned, the address never changes, the MAC changes at most once, and never after confirmation |
| `SwitchLearning.RunFollows` | src/lan-play.c:630-651 | no later frame takes back the address, the DHCP class, a confirmation or a confirmed MAC; a changed MAC was provisional and becomes confirmed |
| `SwitchLearning.RunIsSound` | src/lan-play.c:594-647 | in every reachable state a DHCP-classified console has a Nintendo MAC, and a learned address is an admissible host address with a station MAC |
| `SwitchLearning.ArpSender` | src/lan-play.c:594-605 | an ARP frame speaks for its sender exactly when it is a request or reply whose two source MACs agree and are a station's |
| `SwitchLearning.Ipv4Sender` | src/lan-play.c:606-614 | an IPv4 frame speaks for its source exactly when its MAC is a station's and its header is well formed, first-hand only as a broadcast |
| `SwitchLearning.PacketSender` | src/lan-play.c:606-614 | by the fields of the RFC 791 header, the source address is what the frame speaks for, first-hand in a broadcast to the last overlay address or 10.255.255.255 |
| `SwitchLearning.ClaimableIff` | src/lan-play.c:615-629 | the admission tests hold exactly for host addresses of the Wi-Fi or the overlay subnet that are not the relay's; DHCP class means on Wi-Fi and not on the overlay |
| `SwitchLearning.LearnedIsHost` | src/lan-play.c:590-670 | in every reachable state the console has such an address and a station MAC, off the overlay only with a Nintendo prefix |
| `SwitchLearning.PassedOnIff` | src/lan-play.c:590-687 | over every capture, a frame is passed on to the relay exactly when it speaks for the first address ever claimed |
| `SwitchLearning.VendorFlag` | src/lan-play.c:648-651 | over every capture the Nintendo flag disagrees with the MAC in force if and only if the first claim came from a Nintendo MAC and the first first-hand claim of its address from another vendor's |
| `SwitchLearning.VendorFlagWrong` | src/lan-play.c:648-651 | such captures exist: unicast traffic under a Nintendo MAC, then an ARP claim under another |
| `SwitchLearning.SeededIsInForce` | src/lan-play.c:643-646 | over every capture the ARP table is seeded at most twice, the second time only on confirmation, and last with the address and MAC in force |
| `SwitchLearning.Learner.LearnFrame` | src/lan-play.c:590-670 | the in-place learner computes the pure step, its verdict, and what the ARP table is seeded with |
| `SwitchLearning.Learner.Admit` | src/lan-play.c:615-629 | the admission tests accept exactly the admissible addresses, DHCP ones only with a Nintendo MAC |
| `SwitchLearning.Learner.IsNintendoMac` | src/nintendo_oui.h:131-138 | the scan of the vendor table decides membership of the MAC's prefix |
| `SwitchLearning.Learner.InWifiSubnet` | src/lan-play.c:138-144 | the subnet loop decides membership in the Wi-Fi subnet |
| `SwitchLearning.Learner.IsNetworkAddress` | src/lan-play.c:621-623 | the loop recognises an address without host bits |
| `Discovery.ProbedOncePerPeriod` | src/lan-play.c:477-519 | from every reachable state, within one period, every host 2..254 of each swept subnet is probed at exactly one tick, except the relay's own Wi-Fi host, which is never probed |
| `Discovery.Periodic` | src/lan-play.c:508-518 | from every reachable state the sweep repeats after 1106 ticks, or 853 without a known Wi-Fi subnet |
| `Discovery.OnlyHostsAreProbed` | src/lan-play.c:491-506 | every probe is for a host 2..254 of a swept subnet and not for the relay itself on Wi-Fi |
| `Discovery.ReachablePosition` | src/lan-play.c:917-920 | every reachable state is a position of one cycle: Wi-Fi sweep, overlay sweep, pause |
| `Discovery.Discoverer.OnTimer` | src/lan-play.c:477-519 | the callback computes the pure tick and probe, and stops for good once a console is seen |
| `Discovery.Discoverer.Sweeping` | src/lan-play.c:477-519 | over a whole run of ticks, probes follow the sweep until the first tick that sees a console; none is sent from then on |
| `Sha1Stream.DigestOfPieces` | src/sha1.c:116-198 | for every message and every absorbable split into updates, on a host of either byte order, init, updates and final give the FIPS 180-4 digest of the whole message |
| `Sha1Stream.Context.Update` | src/sha1.c:130-150 | for every length whose last copy stays inside the buffer, an update appends to the message the context stands for: whole blocks hashed, the rest buffered, bits counted |
| `Sha1Stream.InsideIffFits` | src/sha1.c:139-149 | the last copy stays inside the 64-byte buffer if and only if buffered position plus length is below 2^32 |
| `Sha1Stream.LongestUpdateFails` | src/sha1.c:139-149 | with one byte buffered and 2^32 - 1 more, the wrapped test lets the copy leave the buffer |
| `Sha1Stream.Context.Final` | src/sha1.c:155-198 | final returns the digest of the absorbed message and wipes state, counters and buffer |
| `Sha1Stream.Context.constructor` | src/sha1.c:116-125 | init stands for the empty message |
| `Sha1Stream.Context.Count` | src/sha1.c:135-138 | carry detection and the two additions keep the split counter equal to the bit count modulo 2^64 |
| `Sha1Stream.Context.Absorb` | src/sha1.c:139-149 | the hashing and buffering part, for every buffered position and length that fit 32 bits together |
| `Sha1Stream.Context.HashBlocksOf` | src/sha1.c:143-145 | the block loop hashes every whole block that is left; its 32-bit index does not wrap |
| `Sha1Stream.Context.Pad` | src/sha1.c:184-189 | the padding loop terminates after exactly the zeros FIPS 180-4 section 5.1.1 asks for |
| `Sha1Stream.Context.FinalCount` | src/sha1.c:179-182 | the eight octets read from the counter are the 64-bit length field of the message before padding |
| `Sha1Stream.Context.ReadState` | src/sha1.c:191-194 | the digest octets are the state words, most significant first |
| `Sha1Stream.NoWrap` | src/sha1.c:143 | the loop index stays aligned with the blocks and below 2^32 - 63 |
| `Sha1.PaddedLength` | src/sha1.c:184-190 | the padded message is a whole number of blocks, so nothing is left buffered |
| `Sha1Transform.Transform` | src/sha1.c:55-111 | on a host of either byte order, the in-place 16-word circular schedule with rotated register arguments computes the 80-word, 80-round compression of FIPS 180-4 section 6.1.2 for every state and block |
| `Sha1Transform.EightyRounds` | src/sha1.c:80-99 | the unrolled rounds, five at a time, equal the 80 rounds of the definition |
| `Sha1Transform.Blk` | src/sha1.c:42-43 | overwriting one word of the circular buffer yields the next word of the schedule |
| `Sha1Transform.ReverseLoads` | src/sha1.c:35-36 | byte reversal of a little-endian load is the big-endian word of the block |
| `Sha1Transform.Blk0Loads` | src/sha1.c:34-41 | the variant of blk0 for the host's byte order gives the big-endian word of the block |
| `Sha1Transform.MixIsRound` | src/sha1.c:46-50 | one macro application is one round, with the register names rotated |
| `Dhcp.AckedAddressIsExclusive` | src/dhcp-server.c:335-418 | over every run with a non-decreasing clock, after an ACK of an address to a client every OFFER or ACK of it within the lease time goes to that client, unless the client itself has since sent DISCOVER or RELEASE |
| `Dhcp.AckFollowsDiscover` | src/dhcp-server.c:374-409 | every ACK is preceded by a DISCOVER of the same client that claimed the same address |
| `Dhcp.ReachableInv` | src/dhcp-server.c:55-170 | in every reachable state no two used leases share a MAC and no two live ones share an address, even when the clock moves between the reads of one event |
| `Dhcp.ConsumeKeepsInv` | src/dhcp-server.c:335-418 | one request keeps both exclusions across its three clock reads |
| `Dhcp.PickIsExclusive` | src/dhcp-server.c:89-147 | a picked address is not live with any other client |
| `Dhcp.HeldSince` | src/dhcp-server.c:374-409 | from an ACK to the end of its lease the client keeps holding the address, whatever others send |
| `Dhcp.AckHolds` | src/dhcp-server.c:374-409 | an ACK leaves the client holding the acknowledged address for the lease time |
| `Dhcp.OfferReserves` | src/dhcp-server.c:354-372 | an OFFER reserves the address for two minutes, also when it replaces a longer lease |
| `Dhcp.LeasesAreDiscovered` | src/dhcp-server.c:149-170 | every used lease goes back to an OFFER to the same client |
| `Dhcp.PicksAreUsableIff` | src/dhcp-server.c:89-147 | over every table of eight leases on usable addresses, the allocator picks only addresses that are neither network, broadcast nor gateway if and only if the relay's own overlay address is such an address |
| `Dhcp.RepliesAreUsable` | src/dhcp-server.c:335-418 | then every address offered or acknowledged over every run is one |
| `Dhcp.PickPrefers` | src/dhcp-server.c:89-147 | picks are in order of preference: the client's live lease, the relay's own address when free, the highest available of the window |
| `DhcpPick.SubnetIsBlock` | src/dhcp-server.c:96-97 | the subnet is the block of addresses around the relay's own; network and broadcast address are its first and last |
| `DhcpPick.PickIsOffered` | src/dhcp-server.c:89-147 | what the allocator picks, without its loops: the client's own live address; else the relay's, exactly when no ARP entry, other console or live lease of another speaks against it; else the highest of the 24 host addresses below the broadcast address that nobody uses, and none exactly when there is none |
| `DhcpPick.OfferIsRight` | src/dhcp-server.c:354-372 | a console's DISCOVER is offered exactly that address, in terms of the leases before the sweep; without an offer there is none, or no room for a lease |
| `Dhcp.ExhaustedOnlyByArp` | src/dhcp-server.c:128-146 | with the full 24-address window, pick fails only if at least 13 of its addresses are live in the ARP cache |
| `DhcpProgress.OfferIsHonoured` | src/dhcp-server.c:335-409 | over every run, a REQUEST for an offered address within two minutes is acknowledged, whatever other clients send in between, unless the client itself sends DISCOVER or RELEASE |
| `DhcpProgress.RequestAnswer` | src/dhcp-server.c:374-409 | a console's REQUEST is acknowledged exactly when it owns what it asks for, refused exactly when that is another address of the overlay subnet, and otherwise left to the server it was meant for |
| `DhcpProgress.DiscoverIsAnswered` | src/dhcp-server.c:354-372 | with the full window, a console's DISCOVER is offered an address unless all eight leases are taken by others or 13 addresses of the window are live in the ARP cache |
| `DhcpProgress.FirstConsole` | src/dhcp-server.c:335-409 | the first console is offered the relay's own overlay address and gets it |
| `DhcpRelease.ReleaseFrees` | src/dhcp-server.c:411-415 | a console's RELEASE leaves it without a lease, touches no unexpired lease of another, and is not answered |
| `DhcpRelease.ReleasedUntilDiscover` | src/dhcp-server.c:335-418 | over every run, from its RELEASE to its next DISCOVER a client has no lease, whatever it and others send |
| `DhcpRelease.ReleasedIsOfferedAgain` | src/dhcp-server.c:113-124 | over every run, the relay's own address, once released by the only client that held it, is offered to the first console that sends DISCOVER after that without a lease of its own, unless the ARP cache or another detected console speaks against it |
| `DhcpRelease.OnlyConsolesAreAnswered` | src/dhcp-server.c:347-352 | a request of any other vendor is not answered and changes no lease that has not expired |
| `DhcpRelease.CountersCountReplies` | src/dhcp-server.c:354-409 | over every run the three counters are the numbers of OFFERs, ACKs and NAKs that went out |
| `DhcpServer.Server.SweepExpired` | src/dhcp-server.c:55-62 | the in-place sweep clears exactly the expired leases |
| `DhcpServer.Server.FindClient` | src/dhcp-server.c:64-71 | the scan finds the first used lease of a client |
| `DhcpServer.Server.PickIp` | src/dhcp-server.c:89-147 | the loops compute the pure pick |
| `DhcpServer.Server.ClaimLease` | src/dhcp-server.c:149-170 | the claim reuses the client's lease or takes a free one, in place |
| `DhcpServer.Server.HandleDiscover` | src/dhcp-server.c:354-372 | the DISCOVER branch computes the pure step and its reply |
| `DhcpServer.Server.HandleRequest` | src/dhcp-server.c:374-409 | the REQUEST branch computes the pure step and its reply |
| `DhcpServer.Server.ConsumeRequest` | src/dhcp-server.c:335-418 | the whole request, in place, computes the pure step, so the run theorems above hold of the array; a RELEASE leaves no lease of the client and keeps those of the others |
| `DhcpServer.Server.constructor` | src/dhcp-server.c:50-53 | the server starts without leases |
| `Arp.LookupIsTimedMap` | src/arp.c:163-227 | after every run of announcements with a non-decreasing clock, at every later time, lookup of a real address returns exactly what the latest accepted announcement of it says, although one address may occupy several entries |
| `Arp.RefusedIffFull` | src/arp.c:208-227 | an announcement is refused, changing nothing, if and only if every entry holds another address that has not expired; so no entry holds the refused one |
| `Arp.KnownIsRefreshed` | src/arp.c:208-227 | an address that is known when it is announced again is never refused |
| `Arp.RunInv` | src/arp.c:208-227 | in every reachable state no entry outlives the latest announcement of its address, and an unexpired one is held before every older entry of the address |
| `Arp.Table.SetEntry` | src/arp.c:208-227 | the first-fit loop computes the pure step in place and reports whether it stored |
| `Arp.Table.HasIp` | src/arp.c:168-183 | the scan decides whether a live entry exists |
| `Arp.Table.GetMacByIp` | src/arp.c:185-206 | the scan returns the MAC the pure lookup finds, and asks for the address exactly when there is none |
| `Arp.Table.constructor` | src/arp.c:163-166 | the table starts as the empty run |
| `UdpServer.AuthMeIsFilled` | server/src/udpserver.ts:204-245 | in every interleaving, with the random source writing in any pieces, an AuthMe frame carries a cleared marker and 64 bytes every one of which the source has written, and all AuthMe frames for one peer carry the same |
| `UdpServer.RunGrows` | server/src/udpserver.ts:204-245 | over every run a peer's challenge is assigned at most once and not altered once its marker is cleared, and a user is never lost |
| `UdpServer.OnlyUsersForward` | server/src/udpserver.ts:163-283 | with an auth provider, over every run, every forwarded packet comes from a peer holding a user, a packet sent to one peer goes to one, and every cache entry belongs to one |
| `UdpServer.StrangersAreNotForwarded` | server/src/udpserver.ts:177-184 | with an auth provider, nothing has been forwarded for a peer without a user |
| `UdpServer.ChallengedIffFilled` | server/src/udpserver.ts:229-244 | in every run the peers that have been sent a challenge are exactly those whose challenge is filled |
| `UdpServer.RejectedIsAbandoned` | server/src/udpserver.ts:231-235 | a rejected fill leaves the marker set with nothing pending that could clear it |
| `UdpServer.AbandonedForGood` | server/src/udpserver.ts:231-243 | such a peer is not challenged in any continuation |
| `UdpServer.StepKeepsInv` | server/src/udpserver.ts:163-318 | every datagram, promise, failed send and housekeeping tick keeps the invariant over peers, buffers, maps, pending calls and frames sent |
| `UdpForwarding.ForwardedIsReceived` | server/src/udpserver.ts:246-283 | over every run a forwarded frame carries the kind and payload of a datagram received from the forwarding peer's address; a flooded one does not go back there; a unicast one goes to an address from which its destination was seen as a source |
| `UdpForwarding.FloodReaches` | server/src/udpserver.ts:309-313 | a flooded packet goes to every registered address but the sender's |
| `UdpRouting.PacketIsForwarded` | server/src/udpserver.ts:163-283 | a packet from a permitted peer makes the source in its bytes a route to that peer for 30 seconds, and goes to the one peer the destination in its bytes is a route to or else to every other registered address |
| `UdpRouting.EventBytes` | server/src/udpserver.ts:246-283 | source and destination are bytes 12 to 19 behind the type byte of an IPv4 datagram and bytes 0 to 7 of a fragment; shorter datagrams and other types have none |
| `UdpRouting.RouteIsUsed` | server/src/udpserver.ts:246-283 | over every run, until another packet claims the address or it expires, every permitted packet for it is sent to the peer it is a route to, and to nobody else |
| `UdpRouting.StrangersReceiveFloods` | server/src/udpserver.ts:309-313 | a packet for an unknown address reaches the registered peers without a user as well |
| `UdpBytes.RepliesGoToClaimant` | server/src/udpserver.ts:246-283 | over every run, until somebody claims the address again or 30 seconds have passed, every permitted datagram whose destination bytes are the source bytes of an earlier one is sent on to the sender of that one and to nobody else |
| `UdpBytes.UnaddressedIsDropped` | server/src/udpserver.ts:246-249 | a datagram without two addresses is not sent on and leaves no route |
| `UdpCrossing.CutAddresses` | src/lan-client.c:459-504 | in every fragment with more than four payload bytes the server reads the source and destination of the whole packet; in the others none |
| `UdpCrossing.AllAddressedIff` | server/src/udpserver.ts:246-249 | the server routes all datagrams of a packet if and only if the packet is longer than a bare header and more than four bytes are left for its last part |
| `UdpCrossing.PacketCrosses` | server/src/udpserver.ts:246-283 | such a packet, cut by the sending client and sent through the server with a route to its destination, leaves the server as exactly its datagrams, all to the peer of that route, and is handed on there exactly once and unchanged |
| `UdpCrossing.ShortTailIsDropped` | server/src/udpserver.ts:246-249 | the condition fails: of a packet of 504 bytes in parts of 500 the last datagram is dropped |
| `UdpRegistry.RegistryIsTimedMap` | server/src/udpserver.ts:74-101 | over every run the peer manager is a map from addresses to expiry times: an address is registered until 30 seconds after its last datagram other than a ping, a failed send to it, or the housekeeping after that time |
| `UdpRegistry.PingIsAnswered` | server/src/udpserver.ts:263-265 | a ping is answered with its first four bytes, to its sender alone, and changes nothing else |
| `UdpRegistry.RoutesExpire` | server/src/udpserver.ts:36-43 | housekeeping removes exactly the expired routes |
| `UdpLogin.OnlyVerifyLogsIn` | server/src/udpserver.ts:213-216 | a peer's user changes only when its own pending verification, against its own challenge, succeeds, and then to the verified name |
| `UdpLogin.UsersAskedToLogIn` | server/src/udpserver.ts:205-216 | over every run a peer's user is a name some login attempt from its address gave |
| `UdpLogin.AttemptLogsIn` | server/src/udpserver.ts:205-216 | a login attempt of a peer that has been assigned a challenge, filled or not, once verified, logs it in under the name it gave |
| `UdpLogin.AttemptIsRefused` | server/src/udpserver.ts:215-227 | an attempt that fails verification changes no peer; a wrong password is reported to the peer's own address twice, an error of the provider once |
| `UdpLogin.OtherAttemptsAreIgnored` | server/src/udpserver.ts:205-210 | an attempt too short to name a user, or of a peer without a challenge, starts and changes nothing |
| `UdpLogin.FirstMessageStartsFill` | server/src/udpserver.ts:229-241 | the first other message of a stranger assigns a blank challenge of 64 bytes with its marker set and begins its filling, further ones do nothing until it is filled; nothing is sent |
| `UdpLogin.WrittenIsKept` | server/src/udpserver.ts:234 | what the random source writes is in the buffer at that offset, and nothing else of it or of another buffer changes |
| `UdpLogin.FilledIsShown` | server/src/udpserver.ts:234-243 | once filled, the challenge is sent to its peer and to nobody else: a cleared marker and the 64 bytes |
| `UdpLogin.AttemptAgainstShownIff` | server/src/udpserver.ts:205-216 | over every run, an attempt is verified against a challenge the peer has been sent, completely filled, if and only if its marker is cleared when the attempt arrives |
| `UdpLogin.LoginWithoutChallenge` | server/src/udpserver.ts:205-216 | so a peer can log in that was never sent a challenge, against a blank one |
| `UdpLogin.StrangerIsChallenged` | server/src/udpserver.ts:229-244 | a stranger whose challenge is filled is shown it again for everything but a ping or a login attempt |
| `SlpServer.SLPServer.OnDatagram` | server/src/udpserver.ts:163-200 | a datagram is one more event: the peer and buffer objects, the maps and the suspended calls that refer to them, and the datagrams sent are those of the run of all events so far, so the run theorems above hold of the heap |
| `SlpServer.SLPServer.LastIsRouted` | server/src/udpserver.ts:246-283 | after every run of calls that ends with a permitted packet, the cache refers to the sender's object under the source in the packet's bytes for 30 seconds, and the packet has been sent, byte for byte, to the object cached for the destination in its bytes alone, or else to every other registered address |
| `SlpServer.SLPServer.SentIsReceived` | server/src/udpserver.ts:246-313 | after every run of calls, a packet that was sent is a datagram that was received, byte for byte but for the flag in the top bit |
| `SlpServer.SLPServer.constructor` | server/src/udpserver.ts:121-151 | the new server stands for the run without events |
| `SlpServer.SLPServer.CachedHaveUsers` | server/src/udpserver.ts:246-283 | with an auth provider, after every run of calls, every peer object the address cache refers to holds a user |
| `SlpServer.SLPServer.SuspendedShareBuffer` | server/src/udpserver.ts:215-234 | after every run of calls, a suspended call refers to the very buffer its peer object refers to |
| `SlpServer.SLPServer.RandomWrites` | server/src/udpserver.ts:234 | bytes written through the suspended call's reference, in any pieces and after any other events, are seen through the peer's |
| `SlpServer.SLPServer.FillThrows` | server/src/udpserver.ts:231-235 | a failed fill ends the call and leaves the shared marker set |
| `SlpServer.SLPServer.VerifyThrows` | server/src/udpserver.ts:221-227 | a failed verification ends the call and is reported to the address of the object it refers to |
| `SlpServer.SLPServer.OnNeedAuth` | server/src/udpserver.ts:204-245 | up to the first await: the new buffer object is referred to by the peer and by the suspended call; a pending fill is recognised in the shared marker byte; the objects stand for the model's next state |
| `SlpServer.SLPServer.AfterFill` | server/src/udpserver.ts:234-243 | after any other events in between, even if the maps have dropped the peer, clearing the marker through the call's reference and sending what the peer refers to shows the filled challenge |
| `SlpServer.SLPServer.AfterVerify` | server/src/udpserver.ts:215-227 | after any other events in between, the user is set in, or the refusal sent to, the very object the call was started for |
| `SlpServer.SLPServer.OnIpv4` | server/src/udpserver.ts:266-283 | the sender object is put in the cache and the packet goes to the object found there, or to all registered others; the objects and the datagrams sent stand for the model's next state |
| `SlpServer.SLPServer.SendBroadcast` | server/src/udpserver.ts:309-313 | the loop over the map sends, through the references it holds, the datagrams of the pure flood, in insertion order |
| `SlpServer.SLPServer.GetPeer` | server/src/udpserver.ts:82-97 | returns the object that stands for the model's peer of this address, an old one with its fields intact or a new one nobody else refers to |
| `SlpServer.SLPServer.DeletePeer` | server/src/udpserver.ts:79-81 | a failed send drops the address from the map; the object stays whole for the cache and the suspended calls that refer to it |
| `SlpServer.SLPServer.ClearExpired` | server/src/udpserver.ts:314-317 | housekeeping keeps exactly the unexpired entries of both maps, each by its own clock reading, and no object is lost to a suspended call |
| `Base64.RoundTrip` | src/rpc/base64.hpp:34-111 | for every byte string, decoding its encoding gives it back |
| `Base64.EncodedLength` | src/rpc/base64.hpp:55-70 | the encoding has four characters for every three bytes begun, with exactly the needed padding, only at the end |
| `Base64.Encode` | src/rpc/base64.hpp:34-74 | the loops over the scratch arrays compute the RFC 4648 encoding, all three tail cases |
| `Base64.Decode` | src/rpc/base64.hpp:76-111 | the loops compute the octets of the symbols before the first character that is not one, for every input string |
| `Base64.EncodeTail` | src/rpc/base64.hpp:55-70 | one or two trailing bytes, filled up with zero bits and padded |
| `Base64.DecodeTail` | src/rpc/base64.hpp:100-108 | trailing symbols give the same octets whatever bytes the scratch array still holds |
| `Base64.IndexOf` | src/rpc/base64.hpp:24-27 | searching the table gives a symbol's value |

## Left out

- Capture, injection, sockets, timers and logging: foreign calls, modelled as events and outputs.
- The Qt application, the supervisor, packaging and build scripts, and the WebSocket RPC around the Base64 codec.
- TCP itself: `tcp_write` and `tcp_sndbuf` are a send window and a list of moments at which memory runs out. The fatal error returns of `tcp_write` and of `tcp_output` (uv_lwip/uv_lwip.c:137 and 204), which close the client, are not modelled.
- UvlTcp.Client.Write: requires at least one buffer, as all callers pass, and a request that is neither queued nor still the tail; with no buffer the source reads past its buffer array, and a finished request submitted again from its own callback would be linked to itself.
- UvlTcp.Client.CancelReqs: cancel callbacks that submit requests, which the source then forgets, and the read callback that follows are not modelled.
- UvlTcp.Client.AsyncWriteCb: the requests a callback submits are given as data, not as code that runs.
- Fragment identifiers: the int counter `local_id` is unbounded here and `frag_id` is reduced to 16 bits as the header does; a wrap of the int counters is not modelled.
- LanClient.Client.ProcessFrag: requires a fragment whose part fits the slot's buffer and bitmap, which the source does not check; `Reassembly.FitsReceiverIff` says when the relay's own sender guarantees it.
- Transit.ArrivesOnce: one packet at a time to a receiver with a free slot and no slot open under its source and id; interleaved packets are the subject of `Reassembly.DeliveredExactlyOnce`.
- LanClient.Client.OnRecv: keepalives, server texts and login challenges are taken for datagrams that carry no packet; what the client does with them is not modelled.
- LanClient.Client.SendIpv4: requires a part size at or above the configured minimum, as the relay's startup check demands; a failing socket send in mid-packet is not modelled.
- RelayChecksum.CalcChecksum: lengths above 0x20002, where the 32-bit sum can wrap, are not covered.
- RelayChecksum.CalcPayloadChecksum: gives no value on the chains where the source reads outside a part, and none for more than 0x20002 bytes.
- Relay.AcrossTwoRelays: whole UDP datagrams only; IP fragments and packets whose UDP length differs from the IP length are not covered, and the host port reservation is taken to succeed.
- Neighbors.ReplyComesBack: the two hosts have different overlay addresses, the sender's is neither zero nor a broadcast and its MAC is a station's, and its packet says IP version 4; other frames do not teach the table.
- LwipChecksum.ChksumPseudo: IPv4 addresses only; the IPv6 pseudo header and the partial checksum are not modelled.
- SwitchLearning.Learner.LearnFrame: parsing is a function on the frame's bytes; the delivery probe that follows the seeding is not modelled.
- DhcpPick.PickIsOffered: not for the one subnet whose broadcast address is 0.0.0.0, where the candidates wrap around.
- DHCP option parsing and reply layout: the allocator starts from a parsed request. Subnet masks are contiguous.
- Sha1Stream.Context.Update: gives no value for the lengths where the source's last copy leaves the buffer.
- The public server: verification is an oracle; the auth provider sees the challenge at an unspecified moment; an unhandled rejection does not stop the process; text messages are kept as strings instead of bytes; the counters of bytes per second are not modelled.
- SlpServer.SLPServer.AfterFill: requires that the random source has written every byte, which is when the promise resolves.
- Base64.IndexOf: only for characters of the alphabet, the only ones it is called with.
- The gateway, the proxy, the SOCKS client, IPv4 dispatch in `src/ipv4/ipv4.c` and diagnostics.
