# A verified model of pig's core

pig tunnels IP packets between hosts. This project models, in Dafny 4.11, the parts of it that carry
the most state and arithmetic, and proves what they are for:

* **Route table** (`bits.dfy`, `prefix_trie.dfy`, `trie_shape.dfy`, `trie_zipper.dfy`,
  `route_table.dfy`, `demux.dfy`). The path-compressed trie is a linked structure that is relinked in
  place. `Table` ties it to a trie value and that to a plain map from prefix to route; a lookup is a
  longest-prefix match on the map, and the shape of the trie depends on the stored prefixes alone. The
  demultiplexer's sorted list picks the same prefix.
* **STUN** (`bytes.dfy`, `scan.dfy`, `stun_*.dfy`). The attribute list, the length field and the raw bytes
  of a message stay in step; decoding inverts encoding; MESSAGE-INTEGRITY and FINGERPRINT verify on
  what they were added to, also once both are there and the message has travelled; a Binding exchange
  between two ICE agents with mirrored credentials succeeds and reports the address that was seen. Of
  every received message, built here or not, `stun_checks.dfy` says exactly when it passes the checks.
* **Tunnel framing** (`framing.dfy`, `receiver.dfy`, `sender.dfy`, `tunnel.dfy`). Batching at one end, any
  cut of the byte stream into reads, framing in a fixed buffer at the other end and rewriting in a pooled
  buffer hand on the packets that were sent, each changed in one address and its checksums only.
* **Checksums, IPv6 headers and rewriting** (`checksum.dfy`, `packet_checksums.dfy`, `ipv6_headers.dfy`,
  `ipv6_chains.dfy`, `stale_bytes.dfy`, `packet_rewrite.dfy`, `pooled_slices.dfy`, `cut_slices.dfy`).
  Accumulating in 32 bits and folding twice is one's-complement addition, the updated packet's checksums
  hold, and the header walk finds the transport header exactly when a chain of extension headers leads to
  one, which is checked against an encoder of such chains. A packet is rewritten
  in a pooled slice: with old bytes behind it, and, where slices come back cut, possibly without all of the
  packet in view. The conditions under which neither shows are exact.
* **Queue** (`fifo.dfy`, `fifo_monitor.dfy`, `fifo_refinement.dfy`). The ring buffer is a sequence, and as
  a monitor, whose critical sections are the calls on the ring, it loses no wakeup exactly for the
  configurations named there.
* **State machines** (`ice_race.dfy`, `nat_discovery.dfy`, `ip_pool.dfy`). The race of the ICE paths, NAT
  behaviour discovery against a NAT, and the address pool.

`scan.dfy` holds the one loop that the attribute decoder and both receivers share: an offset that moves
through a buffer as the bytes at hand decide. `selection.dfy` says what it is to keep some elements of a
list; `wrappers.dfy` and `sets.dfy` hold common definitions.

HMAC-SHA1, CRC-32 and the preparation of credentials are functions about which nothing is assumed but
the size of their results. Network losses, short and failing writes, failing connects and binds, drop
decisions, the old contents of pooled slices, the length of those that come back cut, and what connection
tracking says of a packet are choices over which the theorems quantify. The room of a pooled slice is that
of the code: the MTU on the server, a size class that is at least the MTU on the client.

Where the code and its comments part, the model follows the code. The comment on the value list of a trie
node speaks of one entry per interface (`pkg/route/table.go:53`), while the loop overwrites every entry and
appends one more; hence the latest route wins per prefix.

Properties that fail have a concrete input and the exact condition:

* the decoder slices past its bytes: `StunAttributes.DecodeOverruns`, `LongTextOverruns` and `OverrunIff`;
* reading the address of a response slices past its end: `StunChecks.ResponseOverruns` and `ResponseOverrunsIff`;
* decoder and integrity scan part: `StunBoundary.ScanMisses` and `TrailsAgreeIff`;
* the client's loop runs past its bytes: `Receiver.ClientOverruns` and `ClientWalk`;
* old bytes of a pooled buffer show in a packet: `StaleBytes.StaleUdpShows`, `AloneIff4` and `AloneIff6`;
* a UDP length beyond the MTU lets them show in the client's larger buffers: `CutSlices.ClientBufferShows`;
* a packet goes on with old checksums from a slice that was cut: `CutSlices.CutPacketUnsound`, `OutSoundIff4`,
  `BringsUpIff4` and `BringsUpIff6`;
* the ICMP checksum leaves a byte out: `PacketChecksums.OddByteMissed` and `IcmpSoundIff`;
* a batch does not fall back into its packets: `Sender.RuntIsRejected` and `FlushExactIff`;
* a wakeup is lost: `FifoMonitor.LosingRunLoses` and `WakeupsSufficeIff`;
* a connection is left open: `IceRace.ListenLeaks` and `ListenLeaksIff`;
* filtering tests mislead: `NatDiscovery.FilteringAfterMapping` and `FilteringExactIff`;
* a host without a NAT is reported behind one: `NatDiscovery.PublicHostReportedNatted` and `ReportsNatIff`;
* an address is not understood when it comes back: `IpPool.LeadingZeroMisread` and `ReturnsIff`.

`dafny verify dfyconfig.toml` checks the whole project.

## Model

| member | source | states |
|---|---|---|
| Bits.CommonBits | pkg/route/table_helpers.go:44-51 | the bit length of the exclusive or gives the number of equal leading bits: the keys agree up to it and differ right after it |
| Bits.MaskPrefix | pkg/route/table_helpers.go:55-62 | clearing bit after bit gives the key that agrees up to the mask and is zero beyond it |
| PrefixTrie.InsertCanonical | pkg/route/table.go:192-253 | an insertion keeps the trie canonical: lengths grow and keys agree along every path, value-less nodes branch |
| PrefixTrie.InsertStored | pkg/route/table.go:192-253 | an insertion gives the inserted prefix the inserted route and changes no other prefix |
| PrefixTrie.RemoveCanonical | pkg/route/table.go:255-323 | a removal with compression keeps the trie canonical, at or below the old root's prefix |
| PrefixTrie.RemoveStored | pkg/route/table.go:255-323 | a removal forgets the removed prefix and changes no other |
| PrefixTrie.FindStored | pkg/route/table.go:154-190 | the route the descent ends with is stored for a prefix of the destination, and its adapter is not excluded |
| PrefixTrie.FindLongest | pkg/route/table.go:154-190 | no stored prefix of the destination with a visible route is longer |
| PrefixTrie.FindIsBestRoute | pkg/route/table.go:154-190 | the descent is a longest-prefix match on the plain map, with the default route as last resort |
| PrefixTrie.BestRouteUnique | pkg/route/table.go:154-190 | the longest-prefix match leaves no choice of route |
| TrieShape.ShapeDetermined | pkg/route/table.go:192-323 | canonical tries that store the same prefixes are equal up to their value lists |
| TrieShape.NodeBound | pkg/route/table.go:192-323 | a trie for n prefixes has at most 2n - 1 nodes |
| TrieShape.HistoryRefines | pkg/route/table.go:107-118 | after every history of insertions and removals the trie is canonical and stores exactly the map the history leaves |
| TrieShape.HistoriesAgree | pkg/route/table.go:107-118 | two histories leave tries of the same shape if and only if they leave the same prefixes |
| TrieZipper.InsertPlug | pkg/route/table.go:192-253 | inserting where the loop's descent ends is inserting into the whole trie |
| TrieZipper.RemovePlug | pkg/route/table.go:255-294 | removing where the descent ends and compressing on the way up is removing from the whole trie |
| TrieZipper.ClimbMayStop | pkg/route/table.go:298-323 | the climb may stop at the first ancestor that stays: compression above it changes nothing |
| RouteTable.RtNode.AddRoute | pkg/route/table.go:53-60 | the node's list holds only the latest route, one entry more than before |
| RouteTable.InsertedAt | pkg/route/table.go:192-253 | an insertion at the end of a descent leaves a canonical table that stores the map with the prefix set |
| RouteTable.RemovedAt | pkg/route/table.go:255-294 | a removal at the end of a descent leaves a canonical table that stores the map without the prefix |
| RouteTable.EndOfWalk | pkg/route/table.go:255-294 | where the walk to a prefix ends decides whether the prefix is stored |
| RouteTable.Table.Relink | pkg/route/table.go:327-337 | exactly the one child pointer, or the root, is exchanged |
| RouteTable.Table.InsertHere | pkg/route/table.go:192-253 | the four in-place cases of an insertion leave the linked nodes of the inserted trie, with fresh nodes only |
| RouteTable.Table.Descend | pkg/route/table.go:192-253 | the loop ends at the node where the insertion has to happen |
| RouteTable.Table.Collapse | pkg/route/table.go:298-323 | relinking upward leaves the trie in which every ancestor is compressed |
| RouteTable.Table.FindExact | pkg/route/table.go:255-294 | the node of exactly this prefix is found if and only if the prefix is stored |
| RouteTable.Table.InsertPrefix | pkg/route/table.go:192-253 | the linked nodes stay a canonical trie and the map gains the prefix |
| RouteTable.Table.RemovePrefix | pkg/route/table.go:255-294 | reports whether the prefix was stored; the linked nodes stay a canonical trie and the map loses the prefix |
| RouteTable.Table.Insert | pkg/route/table.go:107-111 | a route of the family becomes the latest of its prefix, or the default route; any other leaves the table alone |
| RouteTable.Table.Remove | pkg/route/table.go:113-118 | the prefix or the default route is forgotten, and the result says whether it was there |
| RouteTable.Table.ExcludeAdapter | pkg/route/table.go:77-83 | the names are added to the excluded adapters |
| RouteTable.Table.Consider | pkg/route/table.go:170-183 | of a node's list the first route that is not excluded becomes the best |
| RouteTable.Table.Lookup | pkg/route/table.go:90-95 | the answer is the longest-prefix match on the map, for the table's family only |
| Demux.PrefixLen | pkg/demux/route_table.go:73-79 | the number of ones in the mask |
| Demux.ContainsIsPrefix | pkg/demux/route_table.go:81-90 | for parsed networks containment is the prefix order |
| Demux.SortByLength | pkg/demux/route_table.go:41-54 | a permutation of the routes in falling order of prefix length |
| Demux.ParsedCounts | pkg/demux/route_table.go:41-54 | a network is added for the tunnel as often as it is listed, and nothing else is |
| Demux.WithoutSelects | pkg/demux/route_table.go:56-65 | what is left are the routes of the other tunnels, all of them, each as often as before and in the old order |
| Demux.TunnelTable.AddRoutes | pkg/demux/route_table.go:41-54 | the list stays sorted and gains exactly the networks that parse, each as often as it is listed; the routes of other tunnels are those from before |
| Demux.TunnelTable.RemoveRoutes | pkg/demux/route_table.go:56-65 | the tunnel's routes and its role as default are gone, and no lookup can return it; every other route is there as often as before, and in the old order |
| Demux.TunnelTable.SetDefault | pkg/demux/route_table.go:67-71 | only the default tunnel changes |
| Demux.TunnelTable.Lookup | pkg/demux/route_table.go:81-90 | the first containing network of the sorted list is the longest one, and the default tunnel is the last resort |
| Demux.SamePickAsTable | pkg/demux/route_table.go:81-90 | with the same prefixes of the address's width, the empty one being the table's default route, and no excluded adapter, list and route table pick the same prefix |
| Scan.WalkLoop | pkg/stun/attributes.go:65-92 | the offset loop takes the items, and leaves the bytes, that the recursive walk does |
| StunAttributes.DecodeAttributes | pkg/stun/attributes.go:65-92 | the decoding loop gives the decoded list, an error, or an overrun, as the value-level decoder |
| StunAttributes.ValueInverse | pkg/stun/attributes.go:100-868 | for each of the fifteen types the value bytes give back the attribute |
| StunAttributes.DecodeEncode | pkg/stun/attributes.go:65-98 | one attribute survives encoding and decoding, whatever follows, and its padded size leads to the next |
| StunAttributes.DecodeAllEncodeAll | pkg/stun/attributes.go:65-98 | decoding gives back every attribute list that was encoded |
| StunAttributes.DecodedIs | pkg/stun/attributes.go:65-868 | what is decoded from any bytes has the type and length they announce, fits its wire format and encodes to the same value; an ERROR-CODE has the announced code and reason |
| StunAttributes.UnknownSkipped | pkg/stun/attributes.go:74-81 | an attribute of an unknown type is passed over by its length without padding |
| StunAttributes.RegistryNumbers | pkg/stun/attributes.go:24-41 | the type numbers are those of the registry |
| StunAttributes.DecodeOverruns | pkg/stun/attributes.go:331-354 | an eight-byte input on which the ERROR-CODE decoder slices past the end |
| StunAttributes.LongTextOverruns | pkg/stun/attributes.go:106-120 | a USERNAME of 65532 bytes, all of them there, on which the 16-bit end of the slice wraps around |
| StunAttributes.OverrunIff | pkg/stun/attributes.go:65-354 | the decoder's slices fail if and only if the walk reaches an ERROR-CODE that announces more bytes than there are, or a USERNAME, REALM or NONCE of 65532 bytes or more |
| StunMessage.AppendInStep | pkg/stun/message.go:226-236 | appending keeps list, length field and raw bytes in step |
| StunMessage.AppendBuilt | pkg/stun/message.go:201-223 | a checked append keeps the order in which closing attributes may follow each other |
| StunMessage.AppendIff | pkg/stun/message.go:191-223 | an attribute is refused if and only if the last one closes the list to it: FINGERPRINT to all, the digests to all but what may follow them |
| StunMessage.LengthAligned | pkg/stun/message.go:201-236 | the length field and the raw length stay multiples of four |
| StunMessage.HeaderRoundTrip | pkg/stun/header.go:59-85 | the header survives encoding and decoding |
| StunMessage.HeaderOnWire | pkg/stun/header.go:59-85 | on the wire the header is type, length and magic cookie in network order, then the transaction ID |
| StunMessage.DecodeRaw | pkg/stun/message.go:88-102 | decoding the raw bytes, whatever follows them, gives back the message |
| StunIntegrity.BoundarySkips | pkg/stun/integrity.go:135-172 | the scan steps over every attribute that is not MESSAGE-INTEGRITY |
| StunBoundary.DecoderFinds | pkg/stun/attributes.go:65-92 | on received bytes, the first MESSAGE-INTEGRITY of the decoded list is the one the decoder's walk comes to |
| StunBoundary.TrailsAgreeIff | pkg/stun/integrity.go:135-172 | scan and decoder visit the same attributes on the way to it if and only if every unknown attribute on that way has a length of whole words |
| StunBoundary.ScanFindsDigest | pkg/stun/integrity.go:68-172 | then the scan stops at the very attribute whose digest is checked |
| StunBoundary.ScanMisses | pkg/stun/attributes.go:74-81 | a received message whose MESSAGE-INTEGRITY the decoder finds and the scan does not |
| StunBoundary.MeetAgain | pkg/stun/attributes.go:74-81 | a received message on which the walks part and still end at the same attribute |
| StunIntegrity.MacIsSigned | pkg/stun/integrity.go:135-172 | the computed digest depends on the attributes before MESSAGE-INTEGRITY only: not on the digest in it, what follows it, or the length field |
| StunIntegrity.AddIntegrityIs | pkg/stun/integrity.go:95-127 | appending zeros and patching list and raw bytes is appending the attribute with the right digest |
| StunIntegrity.AddIntegrityProtects | pkg/stun/integrity.go:95-127 | the message carries the password's digest as its first MESSAGE-INTEGRITY |
| StunIntegrity.ProtectedVerifies | pkg/stun/integrity.go:68-91 | a protected message verifies with another password exactly when both give the same digest, so with its own |
| StunIntegrity.AddFingerprintIs | pkg/stun/fingerprint.go:45-61 | adding is appending to the message without a trailing FINGERPRINT, whether or not one was there |
| StunIntegrity.FingerprintVerifies | pkg/stun/fingerprint.go:64-79 | an added FINGERPRINT verifies |
| StunIntegrity.FingerprintIdempotent | pkg/stun/fingerprint.go:45-61 | adding it again changes nothing |
| StunIntegrity.FingerprintKeepsProtection | pkg/stun/fingerprint.go:45-61 | a protected message stays protected when a FINGERPRINT is added |
| StunIntegrity.SerializedIsWritten | pkg/stun/message.go:142-176 | serialising and writing a message yield the same bytes |
| StunBinding.TypeRoundTrip | pkg/stun/stun.go:106-154 | method and class survive the interleaved type field, and every type field without its top two bits is made of them |
| Bytes.XorBitsAt | pkg/stun/stun.go:236-256 | a bit of the exclusive or is one if and only if the two bits differ |
| StunBinding.XorInto | pkg/stun/stun.go:240-256 | the loop masks byte after byte: each bit of the result is one if and only if the bits of address and mask differ; masking again gives the bytes back |
| StunBinding.CreateXorMappedAddress | pkg/stun/stun.go:180-268 | the value built is, behind zero and family, the port and the address with the bits of cookie and transaction ID flipped, and reads back as the address, in its four-byte form where there is one |
| StunBinding.XorAddressRoundTrip | pkg/stun/attributes.go:500-532 | the address survives XOR-MAPPED-ADDRESS for both families and every port |
| StunBinding.XorAddressMasks | pkg/stun/stun.go:180-268 | the masks are the magic cookie of the header and, beyond four bytes, the transaction ID |
| StunBinding.CanonicalIs | pkg/stun/stun.go:218-262 | an IPv4 address in its IPv6 form counts as IPv4, any other address as it is |
| StunBinding.OptionsHeld | pkg/stun/binding.go:38-73 | a message is given exactly the attributes its credentials and ICE settings stand for |
| StunBinding.NewBuilt | pkg/stun/message.go:69-85 | a new message holds the given attributes, in step |
| StunBinding.SealIs | pkg/stun/binding.go:38-101 | building with a password yields the attributes followed by their MESSAGE-INTEGRITY |
| StunBinding.WrittenArrives | pkg/stun/message.go:168-176 | what is written arrives as the same message with a FINGERPRINT that verifies |
| StunChecks.PlainArrives | pkg/stun/message.go:168-176 | a message not marked for a FINGERPRINT is written as it is, and arrives |
| StunExchange.AuthenticIff | pkg/stun/integrity.go:195-235 | of a message with the sender's digest, the credential check passes exactly when user name and digest are the expected ones |
| StunChecks.PassesAuthIff | pkg/stun/integrity.go:195-235 | any received message passes the credential check if and only if none is asked for, or its first USERNAME is the expected one after preparation and not empty, and it has a MESSAGE-INTEGRITY whose first holds the digest for the password |
| StunChecks.NoDigestNoPass | pkg/stun/integrity.go:76-78 | a message without MESSAGE-INTEGRITY passes no check with a password |
| StunChecks.DigestAddedIff | pkg/stun/integrity.go:68-127 | a digest is added if and only if there is a password and no closing attribute yet; none is checked without a password |
| StunChecks.FingerprintedIff | pkg/stun/fingerprint.go:64-79 | any received message passes the FINGERPRINT check if and only if its first FINGERPRINT is the masked CRC of all but its last eight bytes with the length field that counts them |
| StunChecks.FingerprintCovers | pkg/stun/fingerprint.go:26-79 | for a message that ends with its FINGERPRINT, that is the CRC of the bytes before it as they are |
| StunChecks.DigestCovers | pkg/stun/integrity.go:68-172 | for a message that ends with its MESSAGE-INTEGRITY, the digest is that of the bytes before it as they are |
| StunChecks.DigestCoversBefore | pkg/stun/integrity.go:68-172 | with a FINGERPRINT behind it, that of the same bytes with a length field that leaves the FINGERPRINT out |
| StunChecks.ValidIff | pkg/stun/message.go:123-139 | a message is valid if and only if the top bits of its type are clear, the cookie is right, the length is in whole words, the credentials pass, and a FINGERPRINT that is asked for is there and right |
| StunChecks.AnsweredIff | pkg/stun/binding.go:104-147 | a request is answered if and only if it is a valid Binding request, with its transaction ID, the attributes of the options and the address it came from |
| StunChecks.SealsOpen | pkg/stun/binding.go:76-101 | a message of attributes that do not close it is always built, with a digest if and only if there is a password |
| StunChecks.AcceptedIff | pkg/stun/binding.go:150-193 | a response yields an address, or runs past the end of one, if and only if it is a valid success response to this transaction whose address does |
| StunChecks.AddressFrom | pkg/stun/message.go:252-291 | the address is that of the first XOR-MAPPED-ADDRESS, else of the first MAPPED-ADDRESS, else there is none |
| StunChecks.AddressRead | pkg/stun/attributes.go:426-439 | a MAPPED-ADDRESS of 8 or 20 bytes is read as the port and the address of its family as they stand; it is sliced past its end if and only if it names IPv6 in 8 bytes |
| StunChecks.XorAddressRead | pkg/stun/attributes.go:500-532 | an XOR-MAPPED-ADDRESS is read as the port and address that differ from it in the bits of the mask, and fails for any other family or length |
| StunChecks.ResponseOverrunsIff | pkg/stun/attributes.go:426-439 | reading the address of a decoded response slices past its end if and only if the response is valid, of this transaction, without XOR-MAPPED-ADDRESS, and its first MAPPED-ADDRESS names IPv6 in 8 bytes |
| StunChecks.ResponseOverruns | pkg/stun/attributes.go:426-439 | such a response, of 32 bytes |
| StunExchange.RequestChecked | pkg/stun/binding.go:76-101 | a built request arrives, with remote and local fragment as user name, the ICE settings, the digest for the remote password and a FINGERPRINT, and passes the peer's checks exactly when the peer expects the user name and its password gives the digest |
| StunExchange.ResponseAccepted | pkg/stun/binding.go:104-147 | the response of a mirrored agent arrives and passes the requester's checks, with the address as first XOR-MAPPED-ADDRESS |
| StunExchange.BindingExchange | pkg/stun/binding.go:76-193 | request, answer and reading of the answer succeed for mirrored credentials, and the address read is the one the responder saw |
| StunObject.FindBoundary | pkg/stun/integrity.go:135-172 | the index loop finds the first MESSAGE-INTEGRITY |
| StunObject.FingerprintOf | pkg/stun/fingerprint.go:26-42 | the length field is overwritten and put back: the buffer is as before, and the CRC is that of the adjusted message |
| StunObject.Message.constructor | pkg/stun/message.go:69-85 | a new object is a built message without attributes |
| StunObject.Message.UnsafeAppendAttribute | pkg/stun/message.go:226-236 | the object becomes the message with the attribute appended |
| StunObject.Message.AppendAttribute | pkg/stun/message.go:191-223 | the object becomes the appended message, or stays as it was when the order forbids it |
| StunObject.Message.AddMessageIntegrity | pkg/stun/integrity.go:95-127 | in-place patching leaves a message protected with the password |
| StunObject.Message.AppendFingerprint | pkg/stun/fingerprint.go:45-61 | truncating and extending in place is adding the FINGERPRINT |
| StunObject.Message.WriteTo | pkg/stun/message.go:168-176 | the bytes sent are the raw bytes of the message as it then is |
| Framing.CarryOver | pkg/server/handlers.go:59-125 | taking the packets of a first part and carrying its rest over gives what the whole stream gives |
| Framing.PacketsOfConcat | pkg/server/handlers.go:59-125 | packets written one after the other are found again, with nothing left |
| Framing.NothingLost | pkg/server/handlers.go:59-125 | the packets found and the rest are the whole stream |
| Framing.MovesIff | pkg/server/handlers.go:61-88 | a receiver cannot go on if and only if the version is neither 4 nor 6 or an IPv4 header announces nothing; it takes what is announced as soon as it is there |
| Framing.IsPacketIff | pkg/server/handlers.go:61-88 | a packet has at least 20 bytes, version 4 or 6, and the length its header announces |
| Receiver.WithinSelects | pkg/server/handlers.go:81-88 | exactly the packets up to the MTU are handed on, each as often as it came and in order |
| Receiver.ServerWalk | pkg/server/handlers.go:61-113 | the server's loop takes exactly the packets of the stream that are within the MTU |
| Receiver.TakeAll | pkg/server/handlers.go:61-113 | the same for the loop over the buffer, with what is left to carry over |
| Receiver.ClientWalk | pkg/client/handlers.go:82-142 | the client's loop does the same, except that it runs past its bytes exactly when they end within a packet beyond the MTU |
| Receiver.ClientTakeAll | pkg/client/handlers.go:82-142 | the same for the loop over the buffer |
| Receiver.ClientOverruns | pkg/client/handlers.go:96-105 | twenty bytes on which the client's loop runs past the end |
| Receiver.GetBuffer | pkg/common/buffer.go:50-67 | a slice of the room asked for, all of it in view unless slices come back cut, and of unknown contents |
| Receiver.HandOn | pkg/server/handlers.go:89-106 | a packet is rewritten in such a slice, or runs over its end, which a safe packet never does |
| Receiver.TunnelReceiver.OnRead | pkg/server/handlers.go:45-125 | after every read the buffer holds the rest, and a slice has been handed on for each packet within the MTU, of all bytes received, however they were cut |
| Receiver.TunnelReceiver.Compact | pkg/server/handlers.go:115-124 | moving the rest to the front keeps its bytes |
| Receiver.TunnelReceiver.RoomToRead | pkg/server/handlers.go:51-60 | the buffer is full only when a packet announces more than it holds |
| Receiver.Leftover | pkg/server/handlers.go:59-125 | of any part of a packet stream the first packets are found, what is left is shorter than a packet, and no loop gets stuck or overruns |
| Sender.FlushStream | pkg/client/handlers.go:322-334 | whatever the short writes, success means that the wire gained exactly the batch |
| Sender.FlushAsPackets | pkg/client/handlers.go:338-365 | each write is one packet of the batch, in order; a failing flush stops within one packet |
| Sender.FlushExactIff | pkg/server/streams.go:211-238 | a batch falls back into the pieces it was made of if and only if each has at least 20 bytes, version 4 or 6, and the length its header says |
| Sender.RuntIsRejected | pkg/server/streams.go:211-238 | a buffer that announces four bytes is accepted and its batch is not flushed |
| Sender.InBufferPackets | pkg/server/streams.go:83-113 | what a buffer of its version holds is such a packet, if it announces at least 20 bytes |
| Sender.InBufferIs | pkg/server/streams.go:83-113 | of a buffer that starts with a packet of its version exactly that packet is accepted, whatever follows it |
| Sender.InBufferElse | pkg/server/streams.go:83-113 | of any other buffer of its version nothing is accepted, or fewer than 20 bytes |
| Sender.TunnelSender.Flush | pkg/server/streams.go:73-81 | the batch, within its limit or a single packet, moves to the wire |
| Sender.TunnelSender.Accept | pkg/server/streams.go:83-113 | what was accepted is on the wire or in the batch, in order, with the packet the buffer starts with as the last; the batch stays below the limit between calls |
| Sender.TunnelSender.Round | pkg/server/streams.go:115-144 | after a round the wire carries everything accepted so far and then the packets the queued buffers start with, in order; one packet per write where datagrams are kept apart |
| Tunnel.Delivery | pkg/client/handlers.go:214-334 | what is handed on is, in order and with nothing left over, what was sent within the MTU; in a slice that shows all of it a packet differs from the one sent in its address and checksums only, which hold, and depends on nothing else if it is self-contained; in one that does not, an IPv4 packet has only its address set |
| Tunnel.QueuedArrive | pkg/server/streams.go:83-144 | from queue to interface: of queued buffers that start with packets, exactly the packets within the MTU arrive, in order, behind those sent before |
| Tunnel.UnderWay | pkg/server/handlers.go:27-127 | at every moment the same holds of a first part of what was sent, nothing is stuck, and there is room to read: for the server with packets up to its buffer, for the client up to the MTU |
| Tunnel.NeverCut | pkg/server/adapter_linux.go:54-99 | where slices are never cut, each shows all of its packet |
| Tunnel.NoCrash | pkg/server/handlers.go:92-106 | the rewriting stays within its slice if and only if the headers of the IPv4 packets keep the routines there, which they always do in 78 bytes that are not cut |
| Checksum.OnesSumIs | pkg/network/checksum.go:36-55 | adding with end-around carries is reducing the plain sum |
| Checksum.FoldIs | pkg/network/checksum.go:48-49 | two folds reduce every 32-bit sum |
| Checksum.Completes | pkg/network/checksum.go:51-53 | a sum completed with its complement comes to all ones, also when zero is written as all ones |
| Checksum.AddWords | pkg/network/checksum.go:67-75 | the loop sums the words without overflowing 32 bits |
| Checksum.SetChecksum | pkg/network/checksum.go:66-83 | the loop, the folds and the writes put the complement of the sum into the field and change nothing else |
| Checksum.FinishedSums | pkg/network/checksum.go:57-84 | written into a zeroed field that the sum covers, it brings the sum to all ones |
| Checksum.FinishedNotOnes | pkg/network/checksum.go:77-83 | where zero may be written, all ones is not, unless nothing but zeros was summed |
| PacketChecksums.PseudoHeaderSum4 | pkg/network/checksum.go:151-171 | the sum of the bytes of the pseudo-header |
| PacketChecksums.UpdateHeaderChecksum | pkg/network/checksum.go:36-55 | the header checksum is brought up to date for every header length within the buffer |
| PacketChecksums.HeaderSound4 | pkg/network/checksum.go:36-55 | the header then sums to all ones |
| PacketChecksums.UpdateTcpChecksum | pkg/network/checksum.go:57-84 | the TCP checksum is brought up to date, a negative length wrapping around in the sum |
| PacketChecksums.TcpSound4 | pkg/network/checksum.go:57-84 | pseudo-header and segment then sum to all ones |
| PacketChecksums.UpdateUdpChecksum | pkg/network/checksum.go:86-127 | the UDP checksum is brought up to date if header and announced length fit the buffer |
| PacketChecksums.UdpSound4 | pkg/network/checksum.go:86-127 | pseudo-header and datagram then sum to all ones, and the checksum is not zero |
| PacketChecksums.UpdateIcmpChecksum | pkg/network/checksum.go:129-149 | the ICMP checksum is brought up to date over the even part of the message |
| PacketChecksums.IcmpSound4 | pkg/network/checksum.go:129-149 | the even part of the message then sums to all ones |
| PacketChecksums.UpdateChecksum4 | pkg/network/checksum.go:17-34 | bytes change in the header checksum and the TCP, UDP or ICMP checksum only, and every checksum of a packet holds whose header has its 20 bytes and ends within it; a packet longer than its buffer is left alone |
| PacketChecksums.ChangesOnlyIn4 | pkg/network/checksum.go:17-149 | the bytes that may change are 10 and 11 of the header and 16 and 17 of a TCP segment, 6 and 7 of a UDP datagram that fits, 2 and 3 of an ICMP message |
| PacketChecksums.OnlyChecksumsChange4 | pkg/network/checksum.go:17-149 | whatever the header, bytes outside the two checksum fields stay as they are |
| PacketChecksums.UpdatedSound4 | pkg/network/checksum.go:17-34 | the four updates together leave every checksum sound |
| PacketChecksums.OddByteMissed | pkg/network/checksum.go:137-141 | an echo request of five bytes whose checksum, once updated, does not hold over the whole message |
| PacketChecksums.IcmpSoundIff | pkg/network/checksum.go:129-149 | after the update the ICMP checksum holds over the whole message if and only if its length is even or its last byte is zero |
| PacketChecksums.PseudoHeaderSum6 | pkg/network/checksum6.go:145-168 | the sum of the bytes of the pseudo-header |
| PacketChecksums.UpdateChecksum6 | pkg/network/checksum6.go:17-143 | of whatever transport header is reached the checksum holds afterwards, over the rest of the payload for TCP and ICMPv6 and over the announced length for UDP; only its two bytes change, and none if the header is short or there is none |
| PacketChecksums.TransportSound6 | pkg/network/checksum6.go:33-143 | pseudo-header and segment then sum to all ones: for TCP and ICMPv6 the rest of the payload, for UDP the announced length, or the rest if that is zero |
| PacketChecksums.UpdateBringsUp6 | pkg/network/checksum6.go:17-143 | the same of the updated packet, with the offsets of the checksums, and unchanged when a transport header is not there in full |
| PooledSlices.Rewrite | pkg/server/handlers.go:92-106 | one address is set in the room of a slice and the checksums are brought up to date in its view |
| PacketRewrite.Handed4 | pkg/server/handlers.go:92-106 | of an IPv4 packet handed on only address and checksums changed, and the packet without its buffer is sound |
| PacketRewrite.Handed6 | pkg/client/handlers.go:128-133 | the same of an IPv6 packet, with at most the checksum of its transport header changed |
| PooledSlices.SizeClass | pkg/common/buffer.go:50-67 | the smallest size class that is large enough, or just enough beyond the largest |
| PooledSlices.WithinView | pkg/server/handlers.go:89-106 | a packet in view comes out as if the view were the buffer |
| PooledSlices.BeyondView | pkg/network/checksum.go:17-20 | of a packet not all in view, the IPv4 routine changes nothing, and the IPv6 routine takes the view for the packet |
| PooledSlices.SafeIff | pkg/network/checksum.go:17-149 | a packet keeps the routines within every slice if and only if its header keeps them within the room, or within the packet where slices are cut |
| PooledSlices.HandedOnArrives | pkg/server/handlers.go:89-106 | whatever the slice held and showed, and whatever connection tracking said, what is handed on is the packet, rewritten as stated; a self-contained packet comes out as from a clean slice |
| PooledSlices.DeliveredAddresses4 | pkg/server/handlers.go:92-106 | the server sets the source address and leaves the destination alone, the client sets the destination that connection tracking names and leaves the source alone |
| PooledSlices.DeliveredAddresses6 | pkg/client/handlers.go:115-133 | the same for the IPv6 address of either side, where there is one |
| CutSlices.OutSoundIff4 | pkg/network/checksum.go:17-20 | an IPv4 packet comes out with sound checksums if and only if the slice shows all of it, or they were sound for the new address before |
| CutSlices.BringsUpIff4 | pkg/network/checksum.go:17-34 | packets of a length come out sound, whatever they hold, if and only if the slice shows all of them |
| CutSlices.BringsUpIff6 | pkg/network/ipv6.go:122-126 | the same for IPv6, from the length on that has a checksum |
| CutSlices.CutPacketUnsound | pkg/server/adapter_others.go:41-50 | a packet of 28 bytes in a slice cut to 20 goes on with a header that does not hold |
| CutSlices.ClientBufferShows | pkg/client/handlers.go:107-109 | with an MTU of 1500, a packet of 28 bytes whose UDP length of 1510 lets old bytes show in the 2048 bytes it is given, and would not in 1500 |
| StaleBytes.AloneIff4 | pkg/network/checksum.go:17-127 | an IPv4 packet comes out the same whatever lies behind it in the buffer if and only if its header ends within it and a UDP length does so or leaves the buffer |
| StaleBytes.AloneIff6 | pkg/network/checksum6.go:17-115 | the same for the UDP length of an IPv6 packet |
| StaleBytes.StaleUdpShows | pkg/network/checksum.go:86-127 | a packet of 28 bytes with a UDP length of 10 that comes out of a buffer of 30 in more than one way |
| Ipv6Headers.TransportHeader | pkg/network/ipv6.go:117-177 | succeeds if and only if a chain of extension headers within the payload leads to TCP, UDP or ICMPv6, and returns the only such header; it ends on every input |
| Ipv6Chains.TransportIff | pkg/network/ipv6.go:117-177 | of a packet written with any list of extension headers the transport header is found if and only if it is TCP, UDP or ICMPv6 with at least a byte of payload and no header is that of a later fragment; and it is the one behind the last of them |
| Ipv6Headers.TransportSame | pkg/network/ipv6.go:117-177 | neither addresses nor bytes behind the payload move the transport header |
| Fifo.RingPush | pkg/queue/fifo.go:69-92 | writing at the cursor appends to the sequence the ring stands for |
| Fifo.RingPop | pkg/queue/fifo.go:133-145 | zeroing the slot at the cursor takes the first element off the sequence |
| Fifo.FIFO.Push | pkg/queue/fifo.go:69-92 | appends, or drops for the stated reason, and signals exactly when the queue was empty |
| Fifo.FIFO.Pop | pkg/queue/fifo.go:133-145 | the first element, the end of a closed queue, or a wait |
| Fifo.FIFO.PopAll | pkg/queue/fifo.go:147-163 | all elements in order, the end of a closed queue, or a wait |
| Fifo.FIFO.TryPop | pkg/queue/fifo.go:108-119 | the first element without waiting; the report of emptiness is about the queue afterwards |
| Fifo.FIFO.TryPopAll | pkg/queue/fifo.go:121-131 | all elements in order without waiting |
| Fifo.FIFO.Close | pkg/queue/fifo.go:165-170 | closing loses nothing |
| FifoMonitor.RunKeeps | pkg/queue/fifo.go:62-170 | in every interleaving elements are delivered in order, none lost or doubled, and the sleepers are accounted for |
| FifoMonitor.ClosedForGood | pkg/queue/fifo.go:69-72 | once closed, a queue accepts nothing more in any run |
| FifoMonitor.AcceptsIff | pkg/queue/fifo.go:69-92 | an item is accepted if and only if the queue is open, has room, and the item is not dropped |
| FifoMonitor.TakesIff | pkg/queue/fifo.go:133-163 | a consumer goes to sleep if and only if the queue is empty and open, and takes one item or all |
| FifoRefinement.PushStep | pkg/queue/fifo.go:69-92 | the monitor's push is the call on the ring: same item, same refusals, and a sleeper is woken if and only if the queue was empty |
| FifoRefinement.ConsumeStep | pkg/queue/fifo.go:133-163 | the monitor's pass of a consumer is the call of pop or pop-all, with what it returns |
| FifoRefinement.DrainStep | pkg/queue/fifo.go:108-131 | the monitor's drain is the call of the non-blocking pops |
| FifoRefinement.CloseStep | pkg/queue/fifo.go:165-170 | the monitor's close is the call of close, with its broadcast still to come |
| FifoMonitor.LosingRunLoses | pkg/queue/fifo.go:87-90 | with two consumers, one popping singly, a run after which one sleeps beside a non-empty queue |
| FifoMonitor.WakeupsSufficeIff | pkg/queue/fifo.go:69-92 | no run loses a wakeup if and only if the queue holds at most one element, there is at most one consumer, or all drain |
| FifoMonitor.SingleConsumer | pkg/queue/fifo.go:133-170 | one consumer never sleeps beside a non-empty queue, nor beside a closed one with no broadcast to come |
| IceRace.RunKeeps | pkg/controller/dial_ice.go:164-196 | what every interleaving of the path goroutines keeps |
| IceRace.AtMostOneWinner | pkg/controller/dial_ice.go:164-196 | at most one goroutine reports a win, and its path is the selected one |
| IceRace.SelectedIff | pkg/controller/dial_ice.go:137-150 | after the join a path is selected if and only if one got through its checks |
| IceRace.DialClosesLosers | pkg/controller/dial_ice.go:164-196 | on the dialling side exactly the selected connection is left open |
| IceRace.ListenLeaks | pkg/controller/listen_ice.go:155-163 | a run that leaves a connection open that is not selected |
| IceRace.ListenLeaksIff | pkg/controller/listen_ice.go:145-179 | on the listening side a connection is left open besides the selected one if and only if its bind failed |
| IceRace.RunsAreShort | pkg/controller/dial_ice.go:126-137 | no run takes more than four steps a path |
| IceRace.NeverStuck | pkg/controller/dial_ice.go:126-137 | a goroutine that has not returned can take a step, so every race comes to its join |
| NatDiscovery.MappingTests | pkg/stun/nat_discovery.go:368-430 | a mapping behaviour that is reported is the NAT's, with or without losses |
| NatDiscovery.FilteringTests | pkg/stun/nat_discovery.go:393-440 | a filter is never reported laxer than it is |
| NatDiscovery.Discover | pkg/stun/nat_discovery.go:257-356 | without losses mapping and filtering behaviour are the NAT's; with losses the mapping still is, the filter is never reported laxer, and open internet only for an open filter; a NAT is reported if and only if the mapped address gives one away; blocked hosts are reported as such |
| NatDiscovery.OpenIff | pkg/stun/nat_discovery.go:341-356 | a host found without a NAT is reported on the open internet if and only if a datagram from the server's other address and port gets in, and behind a firewall otherwise |
| NatDiscovery.FilteringExactIff | pkg/stun/nat_discovery.go:393-440 | the filtering tests tell the filter if and only if nothing sent before opens it for them |
| NatDiscovery.FilteringAfterMapping | pkg/stun/nat_discovery.go:302-326 | run after the mapping tests they would take every filter for an open one |
| NatDiscovery.NattedIff | pkg/stun/nat_discovery.go:496-529 | the test for a NAT is right, whatever the addresses, if and only if the socket is bound to one; for any other it reports a NAT if and only if the mapped address is public |
| NatDiscovery.ReportsNatIff | pkg/stun/nat_discovery.go:257-356 | so is the report of a whole run |
| NatDiscovery.PublicHostReportedNatted | pkg/stun/nat_discovery.go:514-529 | a public host without a NAT, on a socket left to the system, is reported behind one |
| IpPool.KeyInjective | pkg/server/ippool.go:52-61 | no two addresses share a key |
| IpPool.ReturnsIff | pkg/server/ippool.go:63-103 | an address handed out is understood when it comes back if and only if its leading byte is not zero |
| IpPool.FullWidth | pkg/server/ippool.go:83-103 | in its full width every address is understood, and an IPv4 address in its IPv6 form, too |
| IpPool.LeadingZeroMisread | pkg/server/ippool.go:63-103 | 0.1.2.3 is handed out as three bytes, which count as no address |
| IpPool.Pool.Allocate | pkg/server/ippool.go:63-81 | the lowest free host address, neither network nor broadcast address; fails if and only if there is none |
| IpPool.Pool.SetUsed | pkg/server/ippool.go:83-87 | exactly this address becomes used |
| IpPool.Pool.Release | pkg/server/ippool.go:89-93 | exactly this address becomes free |
| IpPool.Leases.Allocate | pkg/server/server.go:199-205 | the lowest host address that is neither held nor the adapter's; fails if and only if there is none; the bytes name it again if and only if its leading byte is not zero |
| IpPool.Leases.Release | pkg/server/server.go:207-213 | exactly the named address is free again, the adapter's too if it is named |

## Left out

- RouteTable.Table.Insert: asks for a mask no longer than the address; a route with a longer mask is not modelled.
- StunAttributes.DecodeOne: the ERROR-CODE slice beyond the buffer is one outcome, although the result there depends on the capacity behind the slice.
- StunMessage.DecodeRaw: asks for fewer than 65536 attribute bytes, since the length field wraps beyond.
- StunExchange.BindingExchange: asks for credentials that stay non-empty when prepared, and for messages that fit the length field.
- StunObject.Message.Strip: asks for a built message; the raw bytes are a sequence field, so sharing of the buffer with a caller is not modelled.
- Receiver.TunnelReceiver.OnRead: a full inbound channel, which drops packets, is not modelled; the MTU is at least 40, below which the setting of an IPv6 address fails.
- PooledSlices.ViewOk: a slice that comes back cut shows at least 20 bytes, since it was cut to a packet that was read.
- PooledSlices.UpdateView: the checksum routines work on a copy of the view, which is put back, where the code works in place.
- PacketChecksums.UpdatedSound4: is about headers of at least 20 bytes that end within the packet; of others `OnlyChecksumsChange4` and the functions say what comes out, and no sum is claimed.
- Tunnel.Delivery: is about packets of at least 20 bytes that are as long as their header says; shorter ones, which the sender lets through, are the subject of `Sender.FlushExactIff`.
- NatDiscovery.Discover: late and foreign responses, which the transaction check turns into errors, are not modelled.
- The SHA-256 variants of MESSAGE-INTEGRITY, long-term credentials and error responses.
- The growing buffer under a STUN message (`pkg/stun/buffer.go`): a slice with spare capacity, whose contents the raw bytes are.
- The client's connection tracking: its keys are hash values, so its results rest on hashes not colliding.
- The bypass routes around the ICE race, the route manager and the watch loops: the backend is the kernel.
- WRED's drop decision is a parameter of the push; its averages are not modelled.
- The streamed outbound loops, which write each packet on a stream of its own.
- Timers, deadlines and contexts, beyond the failures and cancellations they cause.
- Platform adapters, system calls, concrete transports, signalling, authentication, configuration and the command line.
