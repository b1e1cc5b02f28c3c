# A verified model of the byte and table algorithms of FreeRTOS-Plus-TCP

This Dafny project models the parts of the TCP/IP stack that are algorithms over bytes and
tables, and proves what they promise: for every input, for every run, and across functions.
`dafny verify dfyconfig.toml` checks all of it.

One configuration is modelled: IPv4 and IPv6 enabled, checksums computed in software, a
little-endian host, `ipconfigARP_STORES_REMOTE_ADDRESSES` 0, a DNS cache with several addresses
per row, a stand-alone DNS client (no call-backs), and a 32-bit `TickType_t` with ticks of a
millisecond; the DNS cache is modelled for every tick rate.

| module | file | what it models |
|---|---|---|
| `Words` | `Words.dfy` | bytes, 16- and 32-bit words, network order |
| `Checksum` | `Checksum.dfy` | `usGenerateChecksum` against the sum of section 1 of RFC 1071 |
| `Ipv6Extensions` | `Ipv6Extensions.dfy` | the walk over IPv6 extension headers and their removal in place |
| `StandardHeaders` | `StandardHeaders.dfy` | the sizes of extension headers by their standards, and when the walk follows them |
| `ProtocolChecksum` | `ProtocolChecksum.dfy` | which bytes the checksum of a frame covers; generate and verify |
| `OptionHeaders` | `OptionHeaders.dfy` | IPv4 headers with options: exactly when a generated frame is accepted |
| `KnownFrames` | `KnownFrames.dfy` | what checksums cover by their standards, and frames with known checksums |
| `PacketSummaries` | `PacketSummaries.dfy` | `usGenerateProtocolChecksum` and its stages |
| `Icmp` | `Icmp.dfy` | the echo reply built in the buffer of the request |
| `Corruption` | `Corruption.dfy` | a frame with a changed byte is not accepted |
| `Ipv6Text` | `Ipv6Text.dfy` | canonical IPv6 text (RFC 5952) and the printer |
| `Ipv6Parser` | `Ipv6Parser.dfy` | the one-pass parser |
| `MalformedText` | `MalformedText.dfy` | what the parser makes of texts that are no addresses |
| `DnsNames` | `DnsNames.dfy` | what the code takes a DNS name to mean, and the three walkers |
| `StandardNames` | `StandardNames.dfy` | what a DNS name means by RFC 1035, and when the code agrees |
| `DnsQuestion` | `DnsQuestion.dfy` | the name encoder of a query |
| `DnsAnswers` | `DnsAnswers.dfy` | the record loop and the chain of aliases |
| `AliasChain` | `AliasChain.dfy` | which names and addresses of a reply are used, on the bytes of the message |
| `ArpCache` | `ArpCache.dfy` | the ARP table as a map with ageing and eviction |
| `ArpWaiting` | `ArpWaiting.dfy` | the one-slot buffer that waits for an ARP reply |
| `RouterAdvertisement` | `RouterAdvertisement.dfy` | validation and options of a Router Advertisement |
| `AddressConfiguration` | `AddressConfiguration.dfy` | the state machine of router discovery and address probing |
| `TickClock` | `TickClock.dfy` | seconds computed from a 32-bit tick counter, and how long their difference is an age |
| `DnsCache` | `DnsCache.dfy` | the DNS cache over all runs |
| `DnsAddresses` | `DnsAddresses.dfy` | which addresses of a name are kept and returned |
| `Rotation` | `Rotation.dfy` | the 8-bit counter that turns them over |
| `BitConfig` | `BitConfig.dfy` | the byte stream with a sticky error |
| `Dhcpv6Message` | `Dhcpv6Message.dfy` | the options of a DHCPv6 message, and the echoed client identifier |
| `DhcpSocket` | `DhcpSocket.dfy` | the reference-counted socket shared by all DHCP clients |

## How the model is built

Code that changes a buffer, a table or a struct in place is a method on an array or on a class
with the fields of the struct. Each method is proved equal to a specification on values: the
one's-complement sum, the canonical text, the labels that a name resolves to, or a step of a
transition relation. The main results are lemmas about these specifications.

Integers are unbounded in Dafny. Where the C type matters the wrap is written out: the
carry-counted additions of the checksum, the 8-bit rotation counter, the 32-bit age and the 32-bit
tick counter of the DNS cache, the 16-bit cast of the record count, the 24 bits of a transaction
identifier, the 32-bit timer of a lease, the single byte that holds a label length.

Allocation, clocks, random numbers, the kernel and the network appear as parameters: the new
address of `FreeRTOS_CreateIPv6Address`, whether a timer has run out, whether an event could be
queued, whether a socket could be created or bound, how many list nodes can be allocated, the
current time of the two caches.

### Where the code differs from its comments and standards

* `source/FreeRTOS_DNS_Parser.c:1223-1224` says that an alias with an undecodable target rejects
  every later record. It does not: a label of one NUL byte decodes to a text that is an empty C
  string, which equals the emptied name. `DnsAnswers.UndecodableTargetDoesNotBlock` gives a message,
  and `DnsAnswers.UndecodableTargetBlocks` the exact condition.
* `DNS_DecodeName` and RFC 1035 (sections 2.3.4 and 4.1.4) differ in six ways. The code takes every
  length octet below 192 as a label, which has at most 63 bytes; it follows pointers that go forward;
  and it does not bound the length of the name. It refuses names with more than 8 pointers, the root,
  and a single label that fills the destination. `StandardNames.DecodesStandardExactly` says that
  there is no other difference, and the lemmas behind it give a name for each one. A pointer goes
  backwards here if it refers to an offset in front of the part of the name that it is in.
* An authentication header counts words of 4 bytes (section 2.2 of RFC 4302), the second octet of a
  fragment header is reserved, and an encrypted payload hides what follows. The walk over extension
  headers measures all of them in units of 8 bytes. `StandardHeaders.ChainExactly` has the exact
  condition, `StandardHeaders.AuthenticatedCut` a frame that loses the start of its datagram.
* The clock of the DNS cache counts seconds up to the wrap of the tick counter only
  (`source/FreeRTOS_DNS_Cache.c:223`), which makes an old entry look new after a round of the counter:
  `TickClock.ReliableExactly` and `DnsCache.StaleFound`.
* The timer of an IPv6 lease is a 32-bit number of ticks (`source/FreeRTOS_RA.c:597`), into which long
  lifetimes do not fit: `AddressConfiguration.LeaseTimeExactly`.
* `FreeRTOS_inet_pton6` takes texts for addresses that section 2.2 of RFC 4291 does not allow: too few
  groups, anything behind eight groups, and anything behind "::" (`MalformedText.FewGroupsAccepted`,
  `MalformedText.EightGroupsEnough`, `MalformedText.NothingRejectedBehindColons`).
* The counter that turns over the addresses of a name is said to roll over
  (`source/FreeRTOS_DNS_Cache.c:370-374`); when it does, an address may be left out of the turn:
  `Rotation.ReturnsAllExactly` and `Rotation.OneOfThreeMissed`.
* `source/FreeRTOS_ARP.c:1095-1096` says that a row whose age reaches 0 is removed. Only its IP
  address is cleared; the MAC address and the valid flag stay, and such a row is reused when the MAC
  address is seen again. A configured age of 0, which `FreeRTOSIPConfigDefaults.h` allows, makes
  rows that never expire: `ArpCache.LiveExactly`, `ArpCache.ZeroAgeNeverExpires` and
  `ArpCache.ZeroAgeWaitsForever`.
* `ipconfigRA_SEARCH_COUNT` may be configured as 0, but one solicitation is sent in any case
  (`AddressConfiguration.SilentRun`).
* Over IPv4 headers with options the sums of UDP and TCP end too early, so that a short message is
  generated with a checksum that the receive side drops: `OptionHeaders.ShortDatagramRejected` gives
  a frame, `OptionHeaders.GuaranteedExactly` the exact condition on the sizes, and
  `OptionHeaders.VerifiesExactly` the exact condition on the frame.
* The checksum field of an ICMPv6 message is accessed before its length is checked
  (`source/FreeRTOS_IP_Utils.c:1166-1172`). It lies outside the frame exactly for a message cut off
  in front of it, behind extension headers: `ProtocolChecksum.FieldOutside`, with
  `ProtocolChecksum.FieldBehindFrame` as a frame.

## Model

| member | source | states |
|---|---|---|
| Checksum.GenerateChecksum | source/FreeRTOS_IP_Utils.c:1270-1436 | for every seed, every byte sequence of 32-bit length and every start alignment the result is the end-around-carry sum of the big-endian, zero-padded words (section 1 of RFC 1071); only the carry-counted additions may wrap |
| Checksum.AddCounting | source/FreeRTOS_IP_Utils.c:1347-1384 | a 32-bit addition that may wrap, with the wrap kept as a carry: nothing is lost |
| Checksum.TwoFolds | source/FreeRTOS_IP_Utils.c:1412-1425 | two folds bring every sum that the loops can produce into 16 bits without changing the checksum |
| Checksum.SwappedSum | source/FreeRTOS_IP_Utils.c:1291-1311 | summing with all bytes swapped and swapping the result back gives the same sum (section 2(B) of RFC 1071), so the alignment of the data does not matter |
| Checksum.OnesSumChain | source/FreeRTOS_IP_Utils.c:1270-1436 | summing an even-length prefix and continuing from its sum equals one sum over the concatenation |
| Checksum.ContinueChecksum | source/FreeRTOS_IP_Utils.c:1270-1436 | continuing a checksum over the next piece gives the checksum of all pieces |
| Checksum.OnesSumZero | source/FreeRTOS_IP_Utils.c:1270-1436 | the result is 0 if and only if the seed and all data are 0 |
| Ipv6Extensions.GetExtensionHeaderLength | source/FreeRTOS_IPv6_Utils.c:196-295 | returns the length of a chain of extension headers and the protocol behind it exactly when the chain stays inside the buffer and ends in TCP, UDP or ICMPv6; otherwise the buffer length; always terminates |
| Ipv6Extensions.OrderSigns | source/FreeRTOS_IPv6.c:584-632 | the order is positive for extension headers only, and 1 for hop-by-hop only |
| Ipv6Extensions.NetworkBuffer.HandleExtensionHeaders | source/FreeRTOS_IPv6.c:648-702 | succeeds exactly when removal is configured and the headers end inside the frame and its payload; then the buffer holds the stripped frame, otherwise it is unchanged |
| Ipv6Extensions.StrippedFrame | source/FreeRTOS_IPv6.c:648-702 | stripping keeps the bytes behind the headers that are walked over and all other header fields; next header and payload length describe them, and a second walk finds no extension headers |
| StandardHeaders.ChainExactly | source/FreeRTOS_IPv6_Utils.c:214-283 | a walk that reaches an upper layer ends each header where its standard does, all the way, if and only if every authentication and fragment header has the second octet 0 and there is no encrypted payload |
| StandardHeaders.StrippedStandard | source/FreeRTOS_IPv6.c:648-702 | under that condition stripping keeps exactly the upper layer of the packet |
| StandardHeaders.OneHeaderExactly | source/FreeRTOS_IPv6.c:648-702 | with one extension header the upper layer is the one of the standards if and only if the header meets that condition |
| StandardHeaders.AuthenticatedCut | source/FreeRTOS_IPv6_Utils.c:236-246 | of a datagram behind an authentication header of 24 bytes the first 16 bytes are removed, too |
| ProtocolChecksum.StrippedVerdict | source/FreeRTOS_IPv6.c:648-702 | a frame gets the same checksum verdict before and after its extension headers are removed |
| ProtocolChecksum.CoveredIsPseudoHeader | source/FreeRTOS_IP_Utils.c:597-609 | over IPv4 without options the summed bytes are the pseudo-header followed by the message |
| KnownFrames.CoveredIsPseudoHeaderIPv6 | source/FreeRTOS_IP_Utils.c:545-592 | over IPv6, with or without extension headers, the summed bytes are the two addresses, the length of the message in 32 bits, three zeros and the protocol, and the message (section 8.1 of RFC 2460) |
| KnownFrames.UdpIPv6Frame | source/FreeRTOS_IP_Utils.c:1088-1223 | a UDP datagram over IPv6, and its checksum 0xffd2 in its place |
| KnownFrames.EchoIPv6Known | source/FreeRTOS_IP_Utils.c:1088-1223 | an echo request over IPv6 gets the checksum 0x7fb7 in its place |
| KnownFrames.TcpIPv4Known | source/FreeRTOS_IP_Utils.c:1088-1223 | a TCP segment over IPv4 gets the checksum 0xafdf in its place |
| KnownFrames.IcmpIPv4Known | source/FreeRTOS_IP_Utils.c:1088-1223 | an ICMP or IGMP message over IPv4 gets the checksum 0xf7ff in its place, without a pseudo-header |
| KnownFrames.VerdictCodes | source/FreeRTOS_IP_Utils.c:1119-1223 | the verdict is one of four values; `ipUNHANDLED_PROTOCOL` exactly for messages of other protocols, and never correct beyond the MTU |
| KnownFrames.UdpZeroDropped | source/FreeRTOS_IP_Utils.c:1172-1187 | a UDP message without checksum is dropped |
| KnownFrames.CompleteExactly | source/FreeRTOS_IP_Utils.c:384-486 | how many bytes of a message have to be there, for every protocol and for the kinds of ICMPv6 messages |
| Corruption.HeaderChangeRefused | source/FreeRTOS_IPv4.c:484-508 | a frame that is accepted is not accepted any more when any one byte of its IPv4 header, other than the first, is changed |
| Corruption.MessageChangeRefused | source/FreeRTOS_IP_Utils.c:1088-1223 | a correct frame is not correct any more when any one covered byte of the message, or of the addresses, is changed |
| Corruption.ByteChangeDetected | source/FreeRTOS_IP_Utils.c:1270-1436 | a complete sum is not complete any more when any one byte is changed |
| ProtocolChecksum.PatchedSum | source/FreeRTOS_IP_Utils.c:616-647 | putting the complement of the sum into a cleared word makes the sum 0xffff, also when 0 is replaced by 0xffff for UDP |
| OptionHeaders.VerifiesExactly | source/FreeRTOS_IP_Utils.c:1088-1223 | for every frame whose checksum is generated, over IPv4 with any header size and over IPv6 with or without extension headers, for UDP, TCP, ICMP, IGMP and ICMPv6: the receive side accepts it if and only if its field is summed, or, where IPv4 options push the field or half of it out of the sum, the sum happens to be complete without it, and otherwise it says `ipWRONG_CRC`; only the checksum field was written, and a UDP field is never 0 |
| OptionHeaders.GuaranteedExactly | source/FreeRTOS_IP_Utils.c:597-609 | for every header size, message size and protocol: generated frames are accepted for every content if and only if the whole field is among the summed bytes, as it is without IP options |
| OptionHeaders.ShortDatagramRejected | source/FreeRTOS_IP_Utils.c:597-609 | an empty UDP datagram behind an IPv4 header of 24 bytes: its checksum is generated, and the receive side drops the result |
| OptionHeaders.FieldIsComplement | source/FreeRTOS_IP_Utils.c:616-647 | the field of every generated frame is the complement of the sum without it, except that UDP has 0xffff in place of 0 |
| ProtocolChecksum.FieldOutside | source/FreeRTOS_IP_Utils.c:1164-1192 | of the messages that pass the checks only an ICMPv6 message with less than 4 bytes left has its field outside the frame; it is behind extension headers, and its verdict is `ipINVALID_LENGTH` |
| ProtocolChecksum.FieldBehindFrame | source/FreeRTOS_IP_Utils.c:1172 | a frame of 63 bytes, with consistent lengths and removable extension headers, whose field is read at byte 64 |
| PacketSummaries.GenerateProtocolChecksum | source/FreeRTOS_IP_Utils.c:1088-1223 | incoming: the frame is unchanged and the result is the verdict on it, with every error code; outgoing: the frame is the generated one, and bytes behind it are untouched; an outgoing message whose field lies behind the frame has it cleared there and gets `ipINVALID_LENGTH` |
| PacketSummaries.LocateMessage | source/FreeRTOS_IP_Utils.c:1119-1162 | the length checks of the frame find exactly the upper-layer message or report the error code |
| PacketSummaries.PacketSummary.IPv4Checks | source/FreeRTOS_IPv4_Utils.c:78-155 | finds the message of an IPv4 frame exactly when its lengths are consistent |
| PacketSummaries.PacketSummary.IPv6Checks | source/FreeRTOS_IPv6_Utils.c:74-136 | finds the message behind the extension headers exactly when payload length and buffer hold it |
| PacketSummaries.PacketSummary.ProtocolChecks | source/FreeRTOS_IP_Utils.c:384-486 | accepts the protocols that are handled, when the transport header is complete |
| PacketSummaries.PacketSummary.MtuCheck | source/FreeRTOS_IP_Utils.c:494-524 | no error exactly when the message holds its header and the packet fits the MTU |
| PacketSummaries.PacketSummary.Calculate | source/FreeRTOS_IP_Utils.c:532-647 | the value to be stored, or the verdict on the received sum |
| PacketSummaries.PacketSummary.SetChecksum | source/FreeRTOS_IP_Utils.c:148-172 | writes the field of the protocol and nothing else; nothing for a protocol that is not handled |
| PacketSummaries.PacketSummary.GetChecksum | source/FreeRTOS_IP_Utils.c:182-210 | reads the field of the protocol in host order, or gives `ipUNHANDLED_PROTOCOL` |
| PacketSummaries.CheckAndSum | source/FreeRTOS_IP_Utils.c:1194-1213 | MTU check, sum, and the field of an outgoing frame |
| PacketSummaries.PrepareField | source/FreeRTOS_IP_Utils.c:1164-1192 | clears the field of an outgoing frame; reads the field of every incoming one, and drops exactly the UDP frames without checksum |
| Icmp.AllowIPPacket | source/FreeRTOS_IPv4.c:484-508 | the receive side accepts exactly the frames whose header sums to 0xffff and whose verdict is correct |
| Icmp.ProcessEchoRequest | source/FreeRTOS_ICMP.c:139-194 | any IPv4 frame becomes the reply with the header checksum and the generated protocol checksum |
| Icmp.EchoReplyAccepted | source/FreeRTOS_ICMP.c:139-194 | the reply passes the receive-side header and protocol checks, its addresses are exchanged, and the identifier, sequence number and data are those of the request |
| Icmp.EchoReplyFields | source/FreeRTOS_ICMP.c:139-194 | the time to live is 64 and the fragment field 0; the Ethernet header, the first fields of the IP header, the protocol and the code of the message are kept |
| Ipv6Text.SearchZeros | source/FreeRTOS_IPv6_Sockets.c:238-280 | finds the leftmost longest run of at least two zero groups (sections 4.2.2 and 4.2.3 of RFC 5952), or none |
| Ipv6Text.CompressedUnique | source/FreeRTOS_IPv6_Sockets.c:238-280 | there is one such run only |
| Ipv6Text.HexShape | source/FreeRTOS_IPv6_Sockets.c:196-230 | a group is printed in lower case and without leading zeros (sections 4.1 and 4.3 of RFC 5952) |
| Ipv6Text.HexPrintShort | source/FreeRTOS_IPv6_Sockets.c:196-230 | prints a group in lower-case hexadecimal without leading zeros, cut off at the size of the buffer |
| Ipv6Text.Printer.WriteZeros | source/FreeRTOS_IPv6_Sockets.c:293-331 | appends the colons of the compressed run and moves behind it, or reports that they do not fit |
| Ipv6Text.Printer.WriteShort | source/FreeRTOS_IPv6_Sockets.c:344-385 | appends a separator and one group, or reports that they do not fit |
| Ipv6Text.RestIsText | source/FreeRTOS_IPv6_Sockets.c:402-456 | the pieces that the loop prints are the canonical text |
| Ipv6Text.Ntop6 | source/FreeRTOS_IPv6_Sockets.c:402-456 | for every buffer size: the canonical text with its NUL inside the buffer if and only if the size is at least that of the text with the last group counted as four digits, or, for a run of zeros at the end, that of the text and its NUL, and one more behind a group of one digit; 40 bytes are always enough; nothing behind the size is written |
| Ipv6Text.NeededIsEnough | source/FreeRTOS_IPv6_Sockets.c:293-385 | the room tests of all pieces together ask for exactly that size |
| Ipv6Parser.TextRoundTrip | source/FreeRTOS_IPv6_Sockets.c:568-659 | for every address, parsing its canonical text succeeds and gives exactly its 16 bytes |
| Ipv6Parser.AnyTextParsed | source/FreeRTOS_IPv6_Sockets.c:568-659 | every text of every address is parsed to exactly that address: eight numbers, or fewer around one "::" for the zero groups left out, with digits in either case and any number of leading zeros |
| Ipv6Parser.CaseIgnored | source/FreeRTOS_IPv6_Sockets.c:606-638 | texts that differ in the case of letters only are parsed alike, also malformed ones |
| MalformedText.BadCharacterRejected | source/FreeRTOS_IPv6_Sockets.c:468-530 | a character that is no digit and no colon is rejected behind one to eight numbers |
| MalformedText.LargeNumberRejected | source/FreeRTOS_IPv6_Sockets.c:468-530 | a number of more than 16 bits is rejected in each of the eight places |
| MalformedText.FewGroupsAccepted | source/FreeRTOS_IPv6_Sockets.c:568-659 | less than eight numbers without "::" are taken for the first groups of an address |
| MalformedText.EightGroupsEnough | source/FreeRTOS_IPv6_Sockets.c:568-659 | whatever follows eight numbers and a colon is ignored |
| MalformedText.NothingRejectedBehindColons | source/FreeRTOS_IPv6_Sockets.c:640-649 | behind "::" no text is rejected |
| Ipv6Parser.PrintedRoundTrip | source/FreeRTOS_IPv6_Sockets.c:402-659 | a buffer in which the printer left an address parses to that address |
| Ipv6Parser.ZerosRestored | source/FreeRTOS_IPv6_Sockets.c:538-557 | moving the bytes behind "::" to the end re-inserts exactly the zeros that were left out |
| Ipv6Parser.FeedJoined | source/FreeRTOS_IPv6_Sockets.c:468-530 | reading groups separated by colons stores all but the last one, which is pending |
| Ipv6Parser.FeedWellFormed | source/FreeRTOS_IPv6_Sockets.c:468-530 | for any text the index stays inside the target and what is behind it stays zero |
| Ipv6Parser.AddressReader.AddNibble | source/FreeRTOS_IPv6_Sockets.c:468-530 | one character: the new state and whether it is accepted, with every error |
| Ipv6Parser.AddressReader.Read | source/FreeRTOS_IPv6_Sockets.c:606-638 | the loop up to the end of the text or the first refused character |
| Ipv6Parser.AddressReader.SetZeros | source/FreeRTOS_IPv6_Sockets.c:538-557 | the overlapping in-place move equals a move between different buffers |
| Ipv6Parser.Pton6 | source/FreeRTOS_IPv6_Sockets.c:568-659 | for every C string, the result and the 16 bytes; bytes behind them are untouched |
| DnsNames.DecodeName | source/FreeRTOS_DNS_Parser.c:753-852 | terminates on every message, also with pointer cycles, and reads only inside it; succeeds with a text exactly when the name resolves to a non-empty list of labels within the hop limit and the text fits, where every length octet below 192 starts a label; on failure the output is empty |
| StandardNames.ReadIsStandard | source/FreeRTOS_DNS_Parser.c:781-818 | what the code reads is a name by section 4.1.4 of RFC 1035 if and only if its labels have at most 63 bytes and every pointer goes backwards; then the labels are the same |
| StandardNames.StandardIsRead | source/FreeRTOS_DNS_Parser.c:783-807 | a name by that section, which bounds the number of pointers by nothing but the message, is read if and only if it has no more pointers than the hop limit |
| StandardNames.DecodedIsStandard | source/FreeRTOS_DNS_Parser.c:753-852 | a text that is decoded is the one of RFC 1035 if and only if no label has more than 63 bytes, every pointer goes backwards and the name has at most 255 octets; otherwise it is no name |
| StandardNames.StandardIsDecoded | source/FreeRTOS_DNS_Parser.c:753-852 | a name by RFC 1035 whose text fits with its terminator is decoded if and only if it has at most 8 pointers, is not the root, and a single label leaves one byte unused; otherwise it is refused |
| StandardNames.DecodesStandardExactly | source/FreeRTOS_DNS_Parser.c:753-852 | for every message, offset and destination the outcome is that of RFC 1035 if and only if what is decoded meets the first, and the name that should be decoded the second of these conditions |
| StandardNames.NoLongNameInUse | source/FreeRTOS_DNS_Parser.c:939-967 | in a destination of 254 bytes, or less, only labels and pointers can make what is decoded no name |
| StandardNames.LongLabelDecoded | source/FreeRTOS_DNS_Parser.c:783-842 | every label of 64 to 191 bytes is decoded, although it is no name |
| StandardNames.LongNameDecoded | source/FreeRTOS_DNS_Parser.c:820-842 | a name of four or more labels of 63 bytes, of more than 255 octets, is decoded if the text fits |
| StandardNames.ForwardPointerDecoded | source/FreeRTOS_DNS_Parser.c:795-806 | a pointer to a later offset is followed |
| StandardNames.ManyPointersRefused | source/FreeRTOS_DNS_Parser.c:788-793 | a name behind nine pointers that all go backwards is refused |
| StandardNames.ExactRoomRefused | source/FreeRTOS_DNS_Parser.c:820-826 | every name of one label is refused when the destination has exactly the bytes of text and terminator |
| StandardNames.RootRefused | source/FreeRTOS_DNS_Parser.c:809-818 | the root is refused |
| DnsNames.NoRoom | source/FreeRTOS_DNS_Parser.c:820-826 | a label for which there is no room cannot be part of a name that fits |
| DnsNames.ReadNameField | source/FreeRTOS_DNS_Parser.c:60-163 | the text and the length of a complete name field that fits, 0 otherwise; a field that starts with a pointer has length 2 and leaves no text |
| DnsNames.SkipNameField | source/FreeRTOS_DNS_Parser.c:174-256 | the length of a name, which ends at a zero or behind a pointer, 0 when it is malformed or empty |
| DnsNames.WalkEncoded | source/FreeRTOS_DNS_Parser.c:60-852 | all three walkers recover the labels and the length of a name in wire form (section 3.1 of RFC 1035), wherever it is and whatever follows |
| DnsNames.PlainIsEncoded | source/FreeRTOS_DNS_Parser.c:753-852 | a name that is resolved without following a pointer is in wire form |
| DnsNames.WalkersAgree | source/FreeRTOS_DNS_Parser.c:60-852 | when a name is decoded without a pointer, `DNS_ReadNameField` gives the same text with the same destination size, and `DNS_SkipNameField` the same length |
| DnsNames.CompressedName | source/FreeRTOS_DNS_Parser.c:174-256 | labels and a pointer resolve to the labels and the name at the offset in the low 14 bits, and the name ends behind the pointer if one more byte follows |
| DnsQuestion.CreateDnsMessage | source/FreeRTOS_DNS.c:1495-1594 | for every host name: header, encoded name, type and class fill exactly the requested size |
| DnsQuestion.WireIsEncoded | source/FreeRTOS_DNS.c:1547-1573 | replacing the dots by lengths in place gives the wire form of the labels |
| DnsQuestion.DottedLabels | source/FreeRTOS_DNS.c:1547-1573 | the labels of a host name joined by dots are the host name |
| DnsQuestion.QuestionRoundTrip | source/FreeRTOS_DNS.c:799-831 | for every host name with labels of 1 to 63 bytes the question has the size that `prvGetPayloadBuffer` asks for, and every walker recovers the name or its encoded length |
| DnsQuestion.QuestionFields | source/FreeRTOS_DNS.c:1495-1594 | the other fields of a query in network order: one question of the type and the class of the internet, recursion desired, no records |
| DnsAnswers.ParseSet.ParseAnswers | source/FreeRTOS_DNS_Parser.c:882-1267 | cursor and remaining bytes always add up to the message; the addresses stored are those of the records walked over, the result is the first one, or 0 for a malformed section, and the bytes reported as read are those of the owner names |
| DnsAnswers.ParseSet.ParseRecord | source/FreeRTOS_DNS_Parser.c:919-1254 | one record: skipped, used, or the reason to stop; the expected name stays the end of the chain of aliases |
| DnsAnswers.ParseSet.NameMatches | source/FreeRTOS_DNS_Parser.c:939-967 | the decoded owner equals the expected name as C strings, ignoring case |
| DnsAnswers.AnswersAreOwned | source/FreeRTOS_DNS_Parser.c:1042-1200 | an address is accepted if and only if its record is an address record of the right length owned by the end of the alias chain that starts at the queried name and follows the matching records in front of it |
| AliasChain.AcceptedExactly | source/FreeRTOS_DNS_Parser.c:939-1232 | stated on the bytes of the message: record j gives an address if and only if it is a complete address record of the right data length whose owner is the last of the names that the aliases in front of it lead to; the address and the time to live are its bytes |
| AliasChain.AliasFollowed | source/FreeRTOS_DNS_Parser.c:1219-1228 | behind an alias of the expected name, and no other alias of the name in its data, a record is owned by the expected name exactly when its decoded owner is that name, ignoring case |
| AliasChain.LeadsToEnd | source/FreeRTOS_DNS_Parser.c:1219-1232 | the expected name is the last of the names that the aliases lead to, each of which is in the data of the first alias of the one before |
| AliasChain.NextRecord | source/FreeRTOS_DNS_Parser.c:1042-1254 | where the next record starts |
| AliasChain.AliasedAddressAccepted | source/FreeRTOS_DNS_Parser.c:882-1267 | a reply of 52 bytes with an alias, and the address of its target, which is accepted |
| AliasChain.SameNameExactly | source/FreeRTOS_DNS_Parser.c:939-967 | names are compared ignoring the case of ASCII letters only |
| AliasChain.BytesOfRecords | source/FreeRTOS_DNS_Parser.c:890-905 | the test of the number of records rejects no message in which that many records with data have been walked over |
| DnsAnswers.UndecodableTargetBlocks | source/FreeRTOS_DNS_Parser.c:1219-1232 | behind an alias with an undecodable target all records are rejected if and only if no later owner decodes to a text that starts with a NUL |
| DnsAnswers.UndecodableTargetDoesNotBlock | source/FreeRTOS_DNS_Parser.c:1219-1232 | a reply of 50 bytes in which the target of the matching alias cannot be decoded, and the address record behind it is accepted |
| ArpCache.ReachableSound | source/FreeRTOS_ARP.c:619-694 | in every reachable state no two rows share a non-zero IP or a non-zero MAC address, and with positive configured ages a row with an IP address has an age above 0 |
| ArpCache.RefreshHits | source/FreeRTOS_ARP.c:619-694 | after a refresh the look-up of the address hits with exactly the given MAC address and end-point |
| ArpCache.ReserveWaits | source/FreeRTOS_ARP.c:619-694 | a refresh without MAC address leaves a known address alone and makes an unknown one wait |
| ArpCache.RefreshKeepsOthers | source/FreeRTOS_ARP.c:619-694 | at most one other address loses its row; the look-up of every other address is unchanged |
| ArpCache.RefreshEvictsOldest | source/FreeRTOS_ARP.c:705-813 | a row is lost to an entry with the same MAC address, or because it is the oldest and no row is free |
| ArpCache.ExpiresExactly | source/FreeRTOS_ARP.c:1098-1138 | an entry of age n is found until the nth ageing and is a miss from then on |
| ArpCache.ExpiresOverRun | source/FreeRTOS_ARP.c:1098-1138 | in every run that does not refresh an address, it is a miss after as many ageings as its age |
| ArpCache.StoredLives | source/FreeRTOS_ARP.c:619-694 | a stored address is found for as many periods as the configured age, and is a miss from then on |
| ArpCache.ReservedWaits | source/FreeRTOS_ARP.c:619-694 | a reserved address waits for as many periods as there are retransmissions |
| ArpCache.TouchedLives | source/FreeRTOS_ARP.c:583-607 | an entry whose age is refreshed is found as before, and as long as a new one |
| ArpCache.LiveExactly | source/FreeRTOS_ARP.c:619-694 | every row with an IP address has an age above 0 in every state of every run from the empty table, if and only if both configured ages are positive |
| ArpCache.ZeroAgeNeverExpires | source/FreeRTOS_ARP.c:1098-1138 | with a configured age of 0 a stored row is found after any number of ageings |
| ArpCache.ZeroAgeWaitsForever | source/FreeRTOS_ARP.c:1098-1138 | with 0 retransmissions configured a reserved address waits after any number of ageings |
| ArpCache.ClearedIsGone | source/FreeRTOS_ARP.c:1426-1444 | after clearing an end-point no look-up returns it |
| ArpCache.ClearedExactly | source/FreeRTOS_ARP.c:1426-1444 | clearing an end-point removes exactly its addresses, and clearing all removes all |
| ArpCache.RemovedExactly | source/FreeRTOS_ARP.c:552-571 | removing a MAC address removes exactly its row; all other look-ups are unchanged |
| ArpCache.RequestsExactly | source/FreeRTOS_ARP.c:1098-1138 | ageing asks for exactly the addresses that wait or have three periods left or less, among them all that expire |
| ArpCache.AnnouncedExactly | source/FreeRTOS_ARP.c:1140-1160 | exactly the IPv4 addresses of the end-points that are up are announced |
| ArpCache.DueExactly | source/FreeRTOS_ARP.c:1142 | they are announced again when more than 20 seconds have passed, also when the tick counter has wrapped |
| ArpCache.Table.IsIpInCache | source/FreeRTOS_ARP.c:479-504 | true exactly when the look-up hits |
| ArpCache.Table.CacheLookup | source/FreeRTOS_ARP.c:1053-1087 | the answer of the first row with the address |
| ArpCache.Table.FindEntry | source/FreeRTOS_ARP.c:705-813 | the rows with the IP and the MAC address, and the oldest one if there is neither; a row with both is refreshed |
| ArpCache.Table.RefreshEntry | source/FreeRTOS_ARP.c:619-694 | a refresh step of the table; nothing for an address that is not local |
| ArpCache.Table.RefreshAge | source/FreeRTOS_ARP.c:583-607 | only the age of the row with both addresses changes |
| ArpCache.Table.AgeCache | source/FreeRTOS_ARP.c:1098-1161 | every row becomes one period older, expired ones lose their IP address; the addresses asked for, and, when the period is over, the addresses announced for the end-points that are up |
| ArpCache.Table.ClearArp | source/FreeRTOS_ARP.c:1426-1444 | exactly the rows of the end-point are cleared |
| ArpCache.Table.RemoveByMac | source/FreeRTOS_ARP.c:552-571 | the first row with the MAC address is cleared and its IP address returned |
| ArpWaiting.EveryRun | source/FreeRTOS_IP_Timers.c:237-254 | in every interleaving of arrival, reply and timer the slot is occupied exactly when the resolution timer is active, every stored buffer left once before the next was stored, and no buffer is lost or released twice |
| ArpWaiting.HeldIsNotReleased | source/FreeRTOS_ARP.c:436-467 | a buffer in the slot is neither free nor queued nor in other hands |
| ArpWaiting.LeavesExactly | source/FreeRTOS_ARP.c:421-468 | in every run the slot is emptied exactly by a reply of the sender of the frame, or by the timer |
| ArpWaiting.LeavesTo | source/FreeRTOS_ARP.c:436-467 | the buffer is queued behind all others, or released, and nothing else moves |
| ArpWaiting.FilledExactly | source/FreeRTOS_IP.c:1798-1820 | the slot is filled exactly by the first buffer in the queue when its IPv4 or ARP frame has to wait, and the timer set to the maximum delay |
| ArpWaiting.StepConserves | source/FreeRTOS_IP.c:1798-1820 | no step changes how often a buffer exists |
| ArpWaiting.IpTask.ProcessEthernetPacket | source/FreeRTOS_IP.c:1779-1862 | stores a waiting frame if the slot is free and releases it otherwise |
| ArpWaiting.IpTask.ProcessPacketReply | source/FreeRTOS_ARP.c:421-468 | a reply of the sender empties the slot: the buffer is queued again, or released if that fails |
| ArpWaiting.IpTask.TimerCheck | source/FreeRTOS_IP_Timers.c:549-582 | an expired active timer is reported and started again with its reload time |
| ArpWaiting.IpTask.CheckNetworkTimers | source/FreeRTOS_IP_Timers.c:237-254 | an expired timer empties the slot and releases the buffer |
| RouterAdvertisement.ReadReply | source/FreeRTOS_RA.c:283-407 | returns a prefix option only if the options exactly tile the option area in non-zero units of 8 bytes and all prefix options have full size; then the last one |
| RouterAdvertisement.TilingUnique | source/FreeRTOS_RA.c:298-383 | an option area can be divided into options in one way only |
| RouterAdvertisement.LastPrefixIsLast | source/FreeRTOS_RA.c:331-355 | no prefix option follows the one that is returned |
| RouterAdvertisement.NoTiling | source/FreeRTOS_RA.c:388-404 | a malformed or cut-off option excludes every tiling |
| RouterAdvertisement.ReceiveAdvertisement | source/FreeRTOS_RA.c:418-532 | an offer is taken from valid advertisements of link-local routers only, with a prefix length of 1 to 128 |
| RouterAdvertisement.AdvertisementOffer | source/FreeRTOS_RA.c:418-532 | an advertisement of 102 bytes and its offer |
| RouterAdvertisement.AdvertisementsDropped | source/FreeRTOS_RA.c:432-484 | the same with any other hop limit, code, source outside fe80::/10, lifetime 0 or cut-off payload is dropped |
| RouterAdvertisement.PrefixLengthChecked | source/FreeRTOS_RA.c:503-510 | an option is offered exactly when its prefix length is 1 to 128 |
| AddressConfiguration.UpOnlyAfterProbes | source/FreeRTOS_RA.c:546-627 | over every run, with any arrivals, an end-point is brought up only directly after `ipconfigRA_IP_TEST_COUNT` + 1 probes for the same address without a conflict |
| AddressConfiguration.SilentRun | source/FreeRTOS_RA.c:745-796 | without messages the end-point is brought up in exactly call `ipconfigRA_SEARCH_COUNT` + `ipconfigRA_IP_TEST_COUNT` + 1 after the reset, with `ipconfigRA_SEARCH_COUNT` solicitations (one if that is 0) |
| AddressConfiguration.OfferTaken | source/FreeRTOS_RA.c:511-522 | in every run, a waiting end-point that receives an offer has the prefix, its length, the router and the new address, and has probed that address |
| AddressConfiguration.AnnouncedRun | source/FreeRTOS_RA.c:546-725 | without a conflict it is brought up in exactly call `ipconfigRA_IP_TEST_COUNT` + 1 behind the offer, with that address, after `ipconfigRA_IP_TEST_COUNT` + 1 probes for it |
| AddressConfiguration.ConflictProbesNew | source/FreeRTOS_RA.c:578-583 | when the probed address is claimed, the next timer call probes its new address, and the count starts again |
| AddressConfiguration.LeaseRenewed | source/FreeRTOS_RA.c:700-725 | when a lease has run out, routers are solicited again |
| AddressConfiguration.OthersIgnored | source/FreeRTOS_RA.c:236-260 | messages that come in another state, or claim another address, change nothing |
| AddressConfiguration.LeaseTimeExactly | source/FreeRTOS_RA.c:594-603 | when a lease starts, the 32-bit timer is set to the preferred lifetime if and only if that is at most 4294967 seconds; it is disabled, so that the lease is not renewed, if and only if the lifetime is a multiple of 2^29 seconds |
| AddressConfiguration.EndPoint.HandleWaitStates | source/FreeRTOS_RA.c:546-627 | the wait states: next attempt, giving up on routers, conflict, another probe, or up |
| AddressConfiguration.EndPoint.HandleOtherStates | source/FreeRTOS_RA.c:638-725 | the other states: solicitation, probe with a new address after a conflict, lease, restart |
| AddressConfiguration.EndPoint.RunProcess | source/FreeRTOS_RA.c:745-796 | one cycle of the state machine |
| AddressConfiguration.DeliverNA | source/FreeRTOS_RA.c:236-260 | every end-point of the interface that wants an advertisement and probes the claimed address remembers the conflict; the others are unchanged |
| AddressConfiguration.DeliverRA | source/FreeRTOS_RA.c:494-525 | every end-point of the interface that waits for an advertisement takes the prefix and probes a new address; the others are unchanged, and so are all for a prefix length that is not valid |
| DnsCache.EveryRun | source/FreeRTOS_DNS_Cache.c:203-304 | over all runs: one row per name and family, all addresses of a row of one family, 1 to limit addresses in an occupied row |
| DnsCache.FoundIsFresh | source/FreeRTOS_DNS_Cache.c:355-401 | in every run, an address that is found or copied was stored for that name, and the last call that stored one of that family for the name is less than its time to live ago by the clock, both since the last reset |
| TickClock.ReliableExactly | source/FreeRTOS_DNS_Cache.c:223 | for every tick rate, the difference of two times of the clock is right about being less than a time to live, whenever the first was taken, if and only if the ticks between them are a round of the 32-bit counter less one second, or fewer |
| DnsCache.FoundInTime | source/FreeRTOS_DNS_Cache.c:203-268 | in every run, an address that is found was stored less than its time to live ago in ticks, if no more than a round less one second has passed |
| DnsCache.StaleFound | source/FreeRTOS_DNS_Cache.c:355-401 | about a round later, an address with a time to live of one second is found again |
| DnsCache.EntrySurvives | source/FreeRTOS_DNS_Cache.c:443-473 | a new entry is still there after as many insertions as there are other rows, unless it is looked up after its time |
| DnsCache.InsertedLast | source/FreeRTOS_DNS_Cache.c:443-473 | after an insertion all other rows are taken before the new one |
| DnsAddresses.AllAddressesCopied | source/FreeRTOS_DNS_Cache.c:412-538 | over every run in which the entry of a name is not lost, a fresh look-up gives the caller exactly the addresses that were stored for the name, in order, if there is room for them |
| DnsAddresses.ListOverRun | source/FreeRTOS_DNS_Cache.c:412-432 | in such a run the entry has exactly the kept addresses, whatever else is stored and looked up |
| DnsAddresses.FirstReplaced | source/FreeRTOS_DNS_Cache.c:420-429 | an address behind a full row replaces the first one only |
| DnsAddresses.FoundExactly | source/FreeRTOS_DNS_Cache.c:355-401 | in such a run an address is found exactly until the time to live of the last one that was stored has passed |
| DnsAddresses.ExpiredIsGone | source/FreeRTOS_DNS_Cache.c:393-398 | a look-up that finds an entry too old removes it, and no other one |
| DnsAddresses.NothingBehindClear | source/FreeRTOS_DNS_Cache.c:183-187 | after a reset nothing is found |
| DnsAddresses.LookupReturns | source/FreeRTOS_DNS_Cache.c:366-383 | look-up number k returns the address at the counter plus k, in 8 bits, modulo the number of addresses |
| Rotation.ReturnsAllExactly | source/FreeRTOS_DNS_Cache.c:370-383 | as many look-ups as there are addresses return each of them if and only if the 8-bit counter does not wrap in between, or their number divides 256 |
| Rotation.OneOfThreeMissed | source/FreeRTOS_DNS_Cache.c:376-380 | with three addresses one is left out when the counter wraps |
| DnsCache.Rotate | source/FreeRTOS_DNS_Cache.c:366-380 | the rotation index is defined and inside the row |
| DnsCache.Cache.FindEntryIndex | source/FreeRTOS_DNS_Cache.c:313-341 | the first row of the name and the family |
| DnsCache.Cache.GetCacheEntry | source/FreeRTOS_DNS_Cache.c:355-401 | a fresh row gives its next address and the list of all, an old one is emptied |
| DnsCache.Cache.ReadCache | source/FreeRTOS_DNS_Cache.c:481-538 | the list of all addresses of the row, as far as list nodes can be allocated |
| DnsCache.Cache.UpdateCacheEntry | source/FreeRTOS_DNS_Cache.c:412-432 | another address is added, or replaces the first one in a full row |
| DnsCache.Cache.InsertCacheEntry | source/FreeRTOS_DNS_Cache.c:443-473 | a name that is short enough takes the next row in turn |
| DnsCache.Cache.LookUp | source/FreeRTOS_DNS_Cache.c:203-304 | a step of the cache; the result is true for an expired row, too, but no address is given |
| DnsCache.Cache.DnsLookup | source/FreeRTOS_DNS_Cache.c:100-113 | the result is a non-zero address if and only if that address is found in the cache |
| DnsCache.Cache.DnsUpdate | source/FreeRTOS_DNS_Cache.c:163-177 | updates the row of the name and the family, or inserts one |
| DnsCache.Cache.DnsClear | source/FreeRTOS_DNS_Cache.c:183-187 | all rows are empty |
| BitConfig.RoundTrip | source/FreeRTOS_BitConfig.c:99-328 | any sequence of 8-, 16-, 32-bit and block writes that leaves no error is read back with the same widths |
| BitConfig.WritesFit | source/FreeRTOS_BitConfig.c:246-265 | writes succeed exactly when all of them fit and there was no error; the index stays inside the buffer and an error stays |
| BitConfig.NetworkOrder | source/FreeRTOS_BitConfig.c:295-328 | the most significant byte is written first |
| BitConfig.BitStream.WriteBytes | source/FreeRTOS_BitConfig.c:246-265 | a block is appended, or the error is set and nothing written |
| BitConfig.BitStream.Write8 | source/FreeRTOS_BitConfig.c:277-283 | one byte is appended |
| BitConfig.BitStream.Write16 | source/FreeRTOS_BitConfig.c:295-304 | two bytes in network order are appended |
| BitConfig.BitStream.Write32 | source/FreeRTOS_BitConfig.c:316-328 | four bytes in network order are appended |
| BitConfig.BitStream.Read | source/FreeRTOS_BitConfig.c:99-129 | the next bytes, or the error |
| BitConfig.BitStream.PeekLast | source/FreeRTOS_BitConfig.c:141-164 | the last bytes in front of the index, or the error |
| BitConfig.BitStream.Read8 | source/FreeRTOS_BitConfig.c:173-185 | the next byte, all ones on an error |
| BitConfig.BitStream.Read16 | source/FreeRTOS_BitConfig.c:195-208 | the next 16-bit value, all ones on an error |
| BitConfig.BitStream.Read32 | source/FreeRTOS_BitConfig.c:218-233 | the next 32-bit value, all ones on an error |
| Dhcpv6Message.Sender.Send | source/FreeRTOS_DHCPv6.c:954-1103 | the transaction of an exchange is made once; a message is sent exactly in the states that have one, with a random number, a socket and memory; the identifier kept is the one sent |
| Dhcpv6Message.SendMessage | source/FreeRTOS_DHCPv6.c:1022-1087 | the message is complete in the 256-byte buffer for every server identifier, and the identifier kept is the one sent |
| Dhcpv6Message.MessageTiles | source/FreeRTOS_DHCPv6.c:1022-1087 | the options tile the message exactly from byte 4 to its end under an option-length walk (section 22.1 of RFC 3315) |
| Dhcpv6Message.MessageIsExpected | source/FreeRTOS_DHCPv6.c:1022-1087 | every byte of the message, for every client |
| Dhcpv6Message.MessageKinds | source/FreeRTOS_DHCPv6.c:994-1010 | the first message is a Solicit (1), later ones are Requests (3), with the transaction behind the type |
| Dhcpv6Message.TransactionIs | source/FreeRTOS_DHCPv6.c:962-980 | the transaction is the random number in 24 bits, the time stamp the time since 2000 modulo 2^32 seconds |
| Dhcpv6Message.DelegationTiles | source/FreeRTOS_DHCPv6.c:1064-1075 | the prefix option tiles the delegation option that contains it |
| Dhcpv6Message.WalkOptions | source/FreeRTOS_DHCPv6.c:1022-1087 | the walk over written options gives back exactly these options |
| Dhcpv6Message.HandleClientId | source/FreeRTOS_DHCPv6.c:1266-1297 | a client-identifier option is accepted if and only if it holds the identifier that the client sent |
| DhcpSocket.EveryRun | source/FreeRTOS_DHCP.c:852-950 | for any number of end-points and every sequence of calls with any failures: the user count is the number of end-points that hold the socket, each holds the shared one, and it is open exactly while it has users |
| DhcpSocket.CreateAndClose | source/FreeRTOS_DHCP.c:852-950 | who holds the socket after a creation, and that closing closes it exactly for the last user |
| DhcpSocket.OthersKeep | source/FreeRTOS_DHCP.c:852-950 | no call changes what other end-points hold, or replaces a socket that has users |
| DhcpSocket.SharedSocket.CloseSocket | source/FreeRTOS_DHCPv6.c:845-874 | one user leaves; the last one closes the socket |
| DhcpSocket.SharedSocket.CreateSocketIPv4 | source/FreeRTOS_DHCP.c:889-950 | creation for IPv4, where the socket may not be created or not be bound |
| DhcpSocket.SharedSocket.CreateSocketIPv6 | source/FreeRTOS_DHCPv6.c:881-921 | creation for IPv6, which asserts success |

## Left out

- Drivers, sockets, queues, the heap and the scheduler: their answers are parameters of the model.
- Logging, trace macros, application hooks, call-backs and `strerror` texts: no influence on the algorithms.
- Other `#if` configurations, and big-endian hosts: one configuration is fixed above.
- OptionHeaders.VerifiesExactly: over IPv4 headers with options the code sums a range for UDP and TCP that is not the pseudo-header and the message (`source/FreeRTOS_IP_Utils.c:597-609`), so acceptance there is acceptance by this stack only.
- PacketSummaries.GenerateProtocolChecksum: an IPv4 header has at least 20 bytes, as its caller checks in `source/FreeRTOS_IP.c:2025-2040`, and the storage behind the frame holds the checksum field where `ProtocolChecksum.FieldOutside` says that the frame does not.
- Icmp.EchoReplyAccepted: is for requests that passed the receive side, with an IPv4 header without options and consistent lengths within the MTU.
- Ipv6Parser.Pton6: malformed text is rejected in the cases of `MalformedText` only, as in `source/FreeRTOS_IPv6_Sockets.c:631-649`; the model gives the result for every text.
- DnsAnswers.ParseSet.ParseAnswers: models the linked list of addresses and the cache updates as one list of answers.
- `DNS_ParseDNSReply` around the record loop, and the replies to LLMNR, mDNS and NBNS queries: header filling with hooks.
- ArpWaiting.IpTask.ProcessEthernetPacket: the slot of IPv6 neighbour discovery appears only as a place that may take an IPv6 frame.
- Dhcpv6Message.SendMessage: the server identifier has at most 128 bytes, the size of its buffer; the socket call is left out.
- Dhcpv6Message.HandleClientId: the other options of a received message are not modelled.
- Header checks that only decide, such as `prvCheckIP4HeaderOptions`, end-point getters and setters, and the whole TCP window code: easy branches, or not part of this model.
