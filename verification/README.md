# A model of the network stack

This project models the core of a small IPv4 stack for 8-bit AVR microcontrollers and proves what its
protocols, buffers and checksums keep. `dafny verify dfyconfig.toml` checks all of it.

| file | what it models |
|---|---|
| `Machine.dfy` | fixed-width integers with their wrap-around, byte order, memory copies |
| `Checksum.dfy` | `src/net/checksum.c` against RFC 1071 and RFC 1624 |
| `Net.dfy` | `src/net/net.c`, `src/net/eth.c`, the circular queue of `src/net/net.h`, and where buffers go |
| `NetDev.dfy` | the transmit loops of `src/net/net_dev.c` against a driver that may answer anything |
| `Sockets.dfy`, `SocketRuns.dfy` | `src/net/socket.c`, and runs of socket calls from the start of a program |
| `Udp.dfy`, `AfInet.dfy` | sending: `src/netinet/udp.c`, `src/netinet/ip.c`, `src/netinet/af_inet.c` |
| `Ip.dfy`, `Icmp.dfy`, `Receive.dfy` | receiving: `ip_recv`, `src/netinet/icmp.c`, and the dispatchers `src/net/pkt_hdlr.c`, `src/net/ip_proto.c` |
| `Arp.dfy`, `ArpNet.dfy` | `src/netinet/arp.c` at one node, and among many nodes on an unreliable network (RFC 826) |
| `DhcpOptions.dfy`, `DhcpClient.dfy`, `DhcpTaken.dfy` | `src/net/ipconfig.c`: the options, the reply handler, and what it takes from a reply |
| `DhcpRuns.dfy`, `DhcpRequests.dfy`, `DhcpXids.dfy`, `DhcpExchange.dfy` | every interleaving of handler and main loop: what success means, what requests name, which replies an attempt takes, the exchange with a server |
| `DhcpMain.dfy`, `DhcpFrame.dfy`, `DhcpScenes.dfy` | the main loop as written, the packets it sends, and runs from concrete frames |
| `Inet.dfy` | `src/arpa/inet.c` |

How the outside is modelled:

- A device is a finite *script* of polls: what its flags say and what `start_tx` answers at each turn of a
  transmit loop. The script is arbitrary; when it is used up the device is down. So the theorems hold for every
  run whose transmit loops end.
- Where buffers go is a ledger: `taken` lists the buffers the driver consumed, `freed` those given back to the
  allocator. Each contract says exactly what is appended to either, which excludes double frees, frees of
  consumed buffers, and leaks other than those stated.
- Whether an allocation succeeds is an input, as are clocks, `rand()` and arriving packets. The DHCP loop takes
  what `rand()` and `malloc` answer at each call, the length of its time-out and the replies that arrive, all of
  them arbitrary.
- What a function computes on bytes is also stated in plain numbers, by offset: the lemmas whose names end in
  `InNumbers` or `ReadsBack`, and `DhcpTaken`.
- The DHCP main loop is cut at every read and write of a variable it shares with the interrupt-driven handler;
  between any two cuts any number of arbitrary frames may be handled.
- A received packet whose lengths point outside its buffer reads foreign memory; what such a read returns is
  arbitrary: a parameter where the bytes matter, a nondeterministic checksum elsewhere. A claim that depends on a
  length says so.

What the code does differs in places from what it seems to intend. The model follows the code, and each case has
a statement that delimits it:

- `icmp_echo` returns `NETDEV_RX_DROP`, which is true, for a request to another address, so that buffer is neither
  freed nor sent (`Receive.Stack.RecvPktHandler`: the only such case; `Receive.LeakOne`: it occurs).
- `ip_recv` has a misplaced parenthesis in its length test (`Ip.LengthTestIff`), which also makes it refuse
  frames this very stack builds (`Udp.FrameAcceptedIff`).
- `dhcp_recv` uses the UDP length without converting it (`DhcpClient.UnswappedLength`), and treats a reply without
  message type according to an uninitialised variable; the model takes the `default` branch there.
- `dhcp()` can report success after a time-out, and without any acknowledgement: exactly when is
  `DhcpRuns.SuccessIff`, a run in which it happens `DhcpScenes.SuccessWithoutAck`.
- A reply handled while a request is being written can tear it apart: exactly when is
  `DhcpRequests.NamesOneOfferIff`, a run in which it happens `DhcpScenes.TornRequestOccurs`.
- A result of -1 counts as "consumed" in `netdev_queue_xmit`, so a buffer whose turn comes while the device is down
  is lost (`NetDev.OneQueued`, `NetDev.FreedTailFollowsLost`); in `netdev_list_xmit` the rest of a list can be lost
  (`NetDev.BuffersLostIff`).
- `inet_bind` converts `sin_port` and `udp_send_msg` does not (`AfInet.BindAndSendDisagree`).
- `icmp_hdr_create` adds a size to a pointer of the header type, so its data goes 64 bytes behind the header
  (`Icmp.IcmpHdrCreate`).
- An option that ends exactly at the packet's end is not read (`DhcpOptions.UnterminatedScan`).
- `arp_recv` requires only one of the two address lengths to be right, and the loopback test of `arp_proc` never
  holds (`Arp.ArpRecv`, `Arp.TakenUpIff`).
- `dhcp_send_request` counts its IP and UDP header twice, which leaves `tail` 28 bytes behind the end of the
  buffer; the frame is right all the same (`DhcpFrame.BuildPacket`, `DhcpFrame.RequestReadsBack`).
- The comment on `inet_addr` promises -1 on error; the code has no error path.

## Model

| member | source | states |
|---|---|---|
| InternetChecksum.InChecksum | src/net/checksum.c:12-33 | The result is the complement of the one's complement sum of RFC 1071, for every buffer and every 16-bit count |
| InternetChecksum.SumWords | src/net/checksum.c:13-26 | The 32-bit accumulator never wraps and ends as the plain sum of the words, an odd byte padded with zero |
| InternetChecksum.Fold | src/net/checksum.c:28-30 | The folding loop ends, for every 32-bit sum, with the one's complement value of that sum |
| InternetChecksum.FoldStep | src/net/checksum.c:29-30 | One round of folding keeps the one's complement value and strictly decreases the sum |
| InternetChecksum.CanonClosed | src/net/checksum.c:28-32 | The folded value in closed form: 0 for 0, else ((S-1) mod 65535)+1; it is 0xFFFF exactly for positive multiples of 65535 |
| InternetChecksum.ClosedForm | src/net/checksum.c:19-30 | Deferring the carries is right: adding with end-around carry word by word equals folding the plain sum |
| InternetChecksum.ByteOrderIndependence | src/net/checksum.c:12-33 | RFC 1071 section 2(B): the checksum over network-order words is the byte swap of the little-endian one, for every length, odd included |
| InternetChecksum.ReadingsDiffer | src/net/checksum.c:19-26 | The network-order sum equals 256 times the little-endian sum less 65535 times the sum of the high bytes |
| InternetChecksum.PassesIff | src/netinet/ip.c:41-43 | A buffer passes the receiver's test exactly when its plain sum is a positive multiple of 65535 |
| InternetChecksum.FieldPassesIff | src/netinet/ip.c:133-134 | Which values of an aligned checksum field make a buffer pass: the computed one, and 0xFFFF where that is 0; no other |
| InternetChecksum.InsertedChecksumPasses | src/netinet/ip.c:133-134 | Insert-then-verify: the checksum computed over the zeroed field makes the test pass, whatever the data, all zero included |
| InternetChecksum.SingleWordErrors | src/netinet/ip.c:41-43 | A passing buffer with one aligned word overwritten still passes exactly if the word is unchanged or went between the two zeros while the rest is not all zero |
| InternetChecksum.SetChecksum | src/netinet/icmp.c:65-66 | Zeroing and filling a field in place changes only that field and makes the structure pass |
| InternetChecksum.RecomputeIsIncremental | src/netinet/icmp.c:64-70 | A checksum recomputed after one word changed agrees modulo 65535 with RFC 1624 section 3 equation 3, and is that very number exactly under the stated condition on the two zeros |
| Net.NetBuff.constructor | src/net/net.c:24-48 | A new buffer is detached, empty and has its header offsets set |
| Net.NetBuff.EthHeaderCreate | src/net/eth.c:21-43 | Writes destination, source or the device's address, and type or, for a small one, the length, and nothing else; without a destination the rest is written and -1 returned; pkt_len grows by 14 |
| Net.NetBuff.Put | src/net/net.c:72-85 | Extends the tail and says exactly when the endless loop is entered |
| Net.FreeNetBuffList | src/net/net.c:98-105 | Frees every buffer of a chain once, in order, reading each link before its buffer is freed |
| Net.NbQueue.constructor | src/net/net.h:146-149 | An initialised queue is an empty ring |
| Net.NbQueue.Peek | src/net/net.h:134-140 | Returns the oldest buffer, or NULL exactly if the queue is empty |
| Net.NbQueue.Enqueue | src/net/net.h:156-166 | Appends at the end; the links stay mutually inverse around the sentinel and the length byte is the length modulo 256 |
| Net.NbQueue.Dequeue | src/net/net.h:173-186 | Takes off and detaches the oldest buffer, or returns NULL exactly if there is none |
| Net.NbQueue.Clear | src/net/net.h:192-197 | Ends, frees each queued buffer exactly once in order, and leaves the queue empty |
| Net.RunQueue | src/net/net.h:134-197 | Over any run of enqueue, dequeue and clear, the linked ring refines a mathematical FIFO: its contents, what dequeue returned and what was freed are exactly those of the run on a sequence |
| Net.FirstInFirstOut | src/net/net.h:134-197 | In every such run, removed followed by remaining is what was there followed by what was enqueued, and each removed buffer was either returned or freed, once |
| NetDev.NetdevListXmit | src/net/net_dev.c:147-178 | The driver consumes a prefix of the list in order; the rest is freed exactly when the last answer is not a completion |
| NetDev.ListOutcome | src/net/net_dev.c:151-169 | The outcome from the driver's answers alone: as many buffers go as it completed, and the error in hand is its last answer |
| NetDev.OneBufferDisposed | src/net/net_dev.c:147-178 | A list of one is consumed by the driver or freed, never both, never neither; consumed exactly if the driver completes anything before the device is seen down |
| NetDev.BuffersLostIff | src/net/net_dev.c:171-177 | Exactly when buffers of a longer list end neither consumed nor freed |
| NetDev.OfferWhileUp | src/net/net_dev.c:191-202 | The inner loop offers one buffer until it is consumed or the device goes down, and consumes it at most once |
| NetDev.NetdevQueueXmit | src/net/net_dev.c:185-212 | The queue is empty on return, whatever the driver answered; consumed and freed buffers are, in order, those whose fate the script decides |
| NetDev.AllTakenIff | src/net/net_dev.c:189-209 | Every queued buffer reaches the driver exactly if the driver completes that many before the device is first seen down |
| NetDev.FatesInAnswers | src/net/net_dev.c:185-212 | The fate of every buffer from the driver's answers alone: as many go as it completes before the device is first seen down; the next is lost; the rest is freed, with result -1, if its last answer was a refusal, and otherwise fares the same with what the device does after that |
| NetDev.FreedTailFollowsLost | src/net/net_dev.c:204-208 | Only a tail of the queue is ever freed, and some buffer before it is lost: neither sent nor freed |
| NetDev.OneQueued | src/net/net_dev.c:185-212 | A queue of one: consumed or lost, never freed; success is reported only if it was consumed |
| NetDev.TurnOutcome | src/net/net_dev.c:191-202 | A buffer's turn ends in consumption exactly if a completing answer is still to come, and uses up one |
| NetDev.CompleteInNumbers | src/net/net_dev.h:165-167 | Which answers count as consumed: all up to 14, so every negative error; 0x10, busy, does not |
| NetDev.ErrorOfLast | src/net/net_dev.c:185-212 | The result of the queue loop is about its last buffer: an answer that completes if the driver consumed it, and -1 if not |
| NetDev.ErrorOfOne | src/net/net_dev.c:185-212 | With one buffer queued, the result is the first completing answer, and -1 without one |
| Sockets.Socket.constructor | src/netinet/af_inet.c:161-206 | A new socket is unbound, its two queues are empty and share nothing |
| Sockets.ProtocolInNumbers | src/netinet/af_inet.c:161-199 | Which protocol a socket gets, in numbers: streams TCP (6), for 0 or 6; datagrams UDP (17), for 0 or 17, or ICMP (1), for 1; no other |
| Sockets.SocketList.Add | src/net/socket.c:25-34 | Prepends; links stay mutually inverse and the head's prev is NULL |
| Sockets.SocketList.Del | src/net/socket.c:40-47 | Removes exactly the given member, wherever it is in the list |
| Sockets.SocketList.Open | src/net/socket.c:282-338 | Fails, without effect, exactly for unsupported families, types and protocols and for lack of memory; else prepends a new socket of the chosen protocol |
| Sockets.SocketList.Close | src/net/socket.c:343-360 | Drains both queues, frees each queued buffer once, and removes exactly this socket |
| Sockets.SocketList.OpenNext | src/net/socket.c:282-338 | Keeps all listed sockets sound, no two of them sharing a queue or a buffer, and says what is new |
| Sockets.SocketList.CloseNext | src/net/socket.c:343-360 | The same for any listed socket, wherever it stands; the others' queues and buffers stay as they were |
| SocketRuns.SendNext | src/net/socket.c:187-219 | A send on a listed socket keeps the list and every socket sound, and brings in only new buffers |
| SocketRuns.OpensInNumbers | src/net/socket.c:303-334 | For which family, type and protocol numbers a call of socket() gives a socket |
| SocketRuns.RunSockets | src/net/socket.c:25-47 | Over any run of socket(), sock_close(), bind() and sendto() from the start of the program: links sound, nothing shared, the list is exactly the sockets opened and not closed, newest first, every send meets an empty queue, and nothing is ever freed |
| Udp.BuildIpHeader | src/netinet/ip.c:120-134 | The 20 bytes at offset 14 become the header for these addresses and this length and pass the receiver's checksum test; no other byte changes |
| Udp.BuildFrame | src/netinet/ip.c:95-141 | tail, end and pkt_len agree, all headers and the data lie where the receiver looks, and the trap of put_net_buff is unreachable |
| Udp.IpCreateNb | src/netinet/ip.c:85-154 | The new buffer is appended to the socket's queue, or for lack of memory the queue is as it was |
| Udp.UdpSend | src/netinet/udp.c:28-45 | With a queue of one, the buffer at the queue's next pointer is the one just built: it gets the UDP header, and it is the one the driver is offered |
| Udp.UdpSendMsg | src/netinet/udp.c:50-100 | Refused messages change nothing; otherwise one buffer carries exactly the frame for the datagram, is consumed or lost but never freed, the queue is empty again, and the result is the length or a negative error |
| Udp.FrameReadsBack | src/netinet/ip.c:120-141 | Round trip for every payload that fits a 16-bit frame length: a reader of RFC 791 and RFC 768 that insists on type 08 00, no fragment, time to live, both lengths and the header checksum gets the protocol, addresses, ports and payload that were sent |
| Udp.FrameInNumbers | src/netinet/ip.c:116-141 | Every byte of a frame by its RFC 791 and RFC 768 offset: broadcast destination, type 08 00, first byte 0x45, no fragment, time to live 64 and then the protocol, checksum, addresses, ports, lengths, no UDP checksum, payload |
| Udp.RefusedInNumbers | src/netinet/udp.c:57-76 | Which messages are refused, in numbers: the out-of-band flag 8, a name shorter than 7 bytes, without port, or of a family other than 0 and 1 |
| Udp.SendResultInNumbers | src/netinet/udp.c:91-99 | What the caller gets: the payload length as an int16_t holds it, or the driver's error as a negative number |
| Udp.FrameAcceptedIff | src/netinet/ip.c:41-48 | ip_recv accepts the frames this stack builds exactly unless the total length is a multiple of 256 below 5120 |
| AfInet.PortsInAWindow | src/netinet/af_inet.c:13-26 | Any 16384 consecutive ports are pairwise distinct and non-zero, and the next one repeats the first |
| AfInet.Ports.Get | src/netinet/af_inet.c:19-26 | The k-th port is htons(49152 + k mod 16384) for every k |
| AfInet.InetBind | src/netinet/af_inet.c:71-102 | Succeeds exactly for a usable address on a socket without a source port, and changes nothing otherwise |
| AfInet.BindableInNumbers | src/netinet/af_inet.c:77-89 | Which addresses can be bound, in numbers |
| AfInet.BindAndSendDisagree | src/netinet/af_inet.c:97 | One sin_port value given to bind and to send names the same port on the wire exactly if its two bytes are equal |
| AfInet.InetSendmsg | src/netinet/af_inet.c:109-128 | The source port is kept if set and else becomes the next free one; a sent frame has time to live 64 and protocol 17 and reads back as the datagram from this socket; the transmit queue is empty again |
| AfInet.RunCalls | src/netinet/af_inet.c:71-128 | Any run of binds and sends, whatever the driver answers: the queue is empty after each call, no buffer is ever freed, and the driver gets, in order, one frame for each send it completes, which reads back as that send's datagram |
| AfInet.SourcePortWrittenOnce | src/netinet/af_inet.c:91-112 | A source port that is not zero never changes under any run of binds and sends, and any send makes it non-zero |
| Icmp.IcmpEcho | src/netinet/icmp.c:46-75 | For our address the buffer becomes the reply in place and is consumed or freed; for another address nothing happens and true is returned |
| Icmp.ReplyInThreeSteps | src/netinet/icmp.c:59-70 | The reply mirrors both address pairs, keeps identifier, sequence number, payload and all else, with the time to live one less |
| Icmp.ReplyInNumbers | src/netinet/icmp.c:59-70 | The reply byte by byte: each address pair crosses over, type 0, time to live one less and 255 for 0, and every other byte outside the two checksums as it was |
| Icmp.MessageInNumbers | src/netinet/icmp.c:69-70 | Which bytes the ICMP checksum covers: total length less header length of them, from the end of the header |
| Icmp.ReplyIsAcceptable | src/netinet/icmp.c:62-70 | For a request with a consistent length, the reply passes both the IP and the ICMP checksum test |
| Icmp.IpChecksumIsIncremental | src/netinet/icmp.c:62-66 | Mirroring the addresses leaves the sum unchanged, so the recomputed header checksum is the RFC 1624 update for the TTL word |
| Icmp.IcmpChecksumIsIncremental | src/netinet/icmp.c:68-70 | The recomputed ICMP checksum is the RFC 1624 update for the type word, and which of the two zeros it is |
| Icmp.IcmpHdrCreate | src/netinet/icmp.c:133-149 | Never returns -1: the checksum it stores always passes its own test; and which bytes it writes |
| Receive.IcmpRecv | src/netinet/icmp.c:80-114 | Which messages are dropped, leaked or answered, with the buffer disposed of exactly once except in the leaking case |
| Receive.UnicastEchoInNumbers | src/netinet/icmp.c:85-101 | Which ICMP messages are looked into: type 8, to an address that is neither 224.0.0.0 to 239.255.255.255 nor 255.255.255.255 |
| Ip.LengthTestIff | src/netinet/ip.c:46-48 | The length test as written differs from the intended one exactly on lengths 1 to 19 and on multiples of 256 below 5120 |
| Ip.AcceptsInNumbers | src/netinet/ip.c:27-65 | Which packets ip_recv hands on, by byte and number: not for another host, first byte 0x45, header checksum, and the two length tests as written |
| Receive.IpRecv | src/netinet/ip.c:27-65 | Frees every frame it does not accept and every one that is not an echo request, untouched; an echo request has its outcome |
| Receive.Stack.RecvPktHandler | src/net/pkt_hdlr.c:26-46 | Whatever the frame, the handlers and the memory behind the buffer: freed exactly once, or consumed exactly once, or the one leaking kind; the effect on DHCP state and ARP table is that of the handler the frame is for, and of no other |
| Receive.HandlersInNumbers | src/net/pkt_hdlr.c:26-46 | Which handler a frame is for, by the Ethernet types 08 00 and 08 06 and protocol number 1 |
| Receive.LeakOne | src/netinet/icmp.c:52-54 | A concrete frame for each unicast address not ours that does leak, with success reported |
| Arp.DecodeEncode | src/netinet/arp.c:198-210 | The packet builder's bytes parse back to the packet (RFC 826 layout) |
| Arp.EncodeDecode | src/netinet/arp.c:57-85 | Parsing loses nothing: re-encoding gives the bytes that were received |
| Arp.EncodeInNumbers | src/netinet/arp.c:198-210 | The 28 bytes of a packet in the order of RFC 826, every number high byte first |
| Arp.DecodeInNumbers | src/netinet/arp.c:57-85 | The fields of a packet from its bytes, by offset |
| Arp.TakenUpIff | src/netinet/arp.c:63-83 | A packet is taken up exactly if it is an IPv4-over-Ethernet request or reply for this node from another address, and this node's address is not multicast |
| Arp.TakingInNumbers | src/netinet/arp.c:63-86 | In bytes: a frame is answered exactly if its packet starts 00 01 08 00, has one of the two address lengths right, names operation 00 01, this node as target and another sender; it is learnt exactly with 00 02 |
| Arp.ConcernsInNumbers | src/netinet/arp.c:129-148 | Wherever it lies in a buffer, a packet that starts 00 01 08 00 06 04 00 01 and asks for this node is answered, and with 00 02 the address at offset 8 is learnt for the one at offset 14 |
| Arp.AnswerInNumbers | src/netinet/arp.c:95-105 | Every byte of the answer from the bytes of the request |
| Arp.ArpProc | src/netinet/arp.c:57-122 | A request is answered in the received buffer, which is consumed or freed; a reply is learnt; anything else changes nothing; every other buffer is freed once |
| Arp.AnswerInPlace | src/netinet/arp.c:95-105 | The overlapping field copies turn the request into its reply and leave every other byte alone |
| Arp.ArpRecv | src/netinet/arp.c:129-148 | The same for the handler as registered, with frames for other hosts freed and reported as success; and in bytes: 00 01 08 00 06 04 00 01 from another address to ours is answered, the same with 00 02 is learnt |
| Arp.Table.Set | src/netinet/arp.c:20-25 | The one entry becomes the given pair |
| Arp.ArpCreate | src/netinet/arp.c:171-217 | The buffer holds exactly the Ethernet header and packet for the arguments or their defaults |
| Arp.FrameInNumbers | src/netinet/arp.c:192-210 | Every byte of a built frame: addresses, type 08 06, the packet |
| Arp.ArpSend | src/netinet/arp.c:231-245 | With given or default addresses: the packet's buffer is consumed by the driver or freed, never both, and the result says which |
| ArpNet.TruthfulRun | src/netinet/arp.c:57-148 | Under loss, duplication and reordering, every frame in the air and every learnt table entry carries some node's real pair of addresses |
| ArpNet.LookupIsRight | src/netinet/arp.c:33-37 | Whatever a lookup returns for a configured node's address is that node's hardware address |
| ArpNet.AnswerOnTheWire | src/netinet/arp.c:86-108 | The bytes the handler leaves in the buffer are those of the frame the protocol model puts into the air |
| ArpNet.RequestInNumbers | src/netinet/arp.c:171-217 | The bytes of the request one node sends for another's address |
| ArpNet.Resolves | src/netinet/arp.c:57-148 | A delivered request followed by delivery of its reply makes the requester's lookup return the responder's address, whatever happens in between |
| DhcpOptions.ParseReply | src/net/ipconfig.c:146-176 | The first loop ends and yields the last message type with data and the last server identifier of at least 4 bytes among the visited options |
| DhcpOptions.ParseAddresses | src/net/ipconfig.c:212-233 | The second loop visits the same options and takes the last mask, router and DNS entry |
| DhcpOptions.ScanEncoded | src/net/ipconfig.c:153-159 | The parser visits exactly the options of any list that an END mark closes in time, whatever pads lie between them |
| DhcpOptions.UnterminatedScan | src/net/ipconfig.c:153-159 | Without END mark, a list that fills the space loses its last option and nothing else, unless a pad follows it |
| DhcpOptions.ParseEncoded | src/net/ipconfig.c:146-233 | Option round trip: what both loops extract from an encoded list, for any list of options; an address option shorter than 4 bytes is completed by what follows it |
| DhcpOptions.MessageInNumbers | src/net/ipconfig.c:253-292 | Every byte of the options of a DISCOVER and of a REQUEST |
| DhcpOptions.MessageReadsBack | src/net/ipconfig.c:253-292 | What the writer writes, the parser reads back, under every option code: type, server and address whatever they are (the latter two in a REQUEST only), host name "bosduino" with its NUL, requests for 1, 3, 6 and 15; and nothing under any other code |
| DhcpClient.UnswappedLength | src/net/ipconfig.c:129-134 | Exactly which UDP lengths the length test drops |
| DhcpClient.Client.Recv | src/net/ipconfig.c:100-247 | The handler's whole effect on the shared variables, for every frame |
| DhcpClient.Client.RecvOptions | src/net/ipconfig.c:146-234 | The option block accepts, ignores or forgets, and what each leaves behind |
| DhcpTaken.JudgeInNumbers | src/net/ipconfig.c:105-210 | Which replies are taken up, ignored or taken for a refusal, by offset and number, for any options a reply carries |
| DhcpTaken.TakenInNumbers | src/net/ipconfig.c:178-241 | What each of the seven variables holds after an accepted OFFER or ACK with options: mask, router and DNS server are those of the last options 1, 3 and 6, the server that of the last option 54 in an OFFER, and what is missing comes from siaddr and giaddr or stays |
| DhcpTaken.OthersInNumbers | src/net/ipconfig.c:204-241 | What all other frames leave: a reply without options, a refusal, an ignored frame |
| DhcpRuns.GotReplyFreezes | src/net/ipconfig.c:136-138 | While got_reply is up, no series of frames changes any shared variable |
| DhcpRuns.SafeStep | src/net/ipconfig.c:100-415 | Every step of handler and main loop keeps the safety invariant |
| DhcpRuns.OkMeansAck | src/net/ipconfig.c:371-415 | Over every interleaving: leaving through the OK branch means that the last accepted reply was an ACK with our xid and hardware address, my_ip is the address it gave, and nothing delivered later changes a shared variable |
| DhcpTaken.OkHoldsTheAck | src/net/ipconfig.c:371-415 | Over every interleaving: after the OK branch the client's address, mask, router and DNS server are those its ACK carries, a missing one as it was when the ACK came |
| DhcpRuns.SettledStep | src/net/ipconfig.c:384-414 | Every step keeps what is known of a reply that came after the last test of got_reply |
| DhcpRuns.SuccessIff | src/net/ipconfig.c:381-414 | dhcp() returns 0 exactly if it left through the OK branch or the last accepted reply came during the last time-out or before the handler's removal; without acknowledgement exactly if such a late reply was no ACK; else it returns -1 and no address |
| DhcpRuns.LateReplySucceeds | src/net/ipconfig.c:399-414 | Any reply accepted at those two points makes every run from there end with success and its address |
| DhcpRequests.PairedStep | src/net/ipconfig.c:178-241 | Every step keeps server and address both unset or both from one accepted OFFER |
| DhcpRequests.RequestsNameOneOffer | src/net/ipconfig.c:253-274 | RFC 2131 section 4.3.2, in every reachable state: every REQUEST written without interference before an ACK names server and address of one single offer |
| DhcpRequests.NamesOneOfferIff | src/net/ipconfig.c:253-274 | The same exactly: for any REQUEST of any run, and any frames before and between its two copies, the condition on those frames under which it names one accepted offer, and otherwise not |
| DhcpRequests.OneReplyBetween | src/net/ipconfig.c:264-274 | One frame between the copies leaves the REQUEST whole exactly if it is ignored or acknowledges the very address offered |
| DhcpScenes.TornRequestOccurs | src/net/ipconfig.c:191-198 | A run from boot, with a concrete OFFER and a concrete refusal, in which a REQUEST names an address nobody offered |
| DhcpXids.XidRedrawn | src/net/ipconfig.c:91-94 | After xid_gen the xid consists of the bytes rand() gave, whatever arrived before and between its two stores |
| DhcpXids.OnlyTheLatestXid | src/net/ipconfig.c:141-142 | In every reachable state outside xid_gen, a reply is taken up or reset by only if it carries the xid drawn after the latest time-out, the k-th after k time-outs |
| DhcpRuns.CountedStep | src/net/ipconfig.c:381-405 | Every step keeps the balance of requests, time-outs and handled replies |
| DhcpRuns.AttemptBound | src/net/ipconfig.c:371-415 | Requests equal time-outs (at most 6) plus accepted replies after which the loop goes round plus one for a final ACK; at most one ACK is ever accepted; with n replies delivered there are at most 7 + n requests and a bounded number of steps |
| DhcpRuns.OffersFollowResets | src/net/ipconfig.c:178-198 | On a well-behaved network accepted OFFERs exceed the handler's resets by at most one, and so bound the requests |
| DhcpMain.Dhcp | src/net/ipconfig.c:371-415 | The loop as written ends, with at most 7 requests and one more per reply; each of its runs is a run of the transition system that delivers a prefix of the given replies in order, whose k-th xid is the k-th that rand() gives and whose k-th request is written exactly if memory has room; so the statements about those runs hold of it |
| DhcpMain.OptionsInit | src/net/ipconfig.c:253-292 | The writer stays inside its 312 bytes, and with the handler free to come between its reads it writes, byte for byte, the message the transition system records |
| DhcpMain.SentReadsBack | src/net/ipconfig.c:253-292 | Any message that is sent, torn apart or not, is read by the parser as recorded, under every option code |
| DhcpMain.SendRequest | src/net/ipconfig.c:297-349 | Writing a request takes the transition system's steps and puts the recorded options on the wire |
| DhcpFrame.BuildPacket | src/net/ipconfig.c:301-347 | The packet around the options: IP and UDP header, message, and where the buffer's offsets end up |
| DhcpFrame.SendPacket | src/net/ipconfig.c:297-365 | The buffer holds exactly the request's frame; the driver consumes it or it is freed, never both; without memory nothing happens |
| DhcpFrame.RequestReadsBack | src/net/ipconfig.c:316-347 | Any receiver reads in the frame a datagram from 0.0.0.0 port 68 to 255.255.255.255 port 67, and in it a client's request with that xid and hardware address and, under every option code, what the transition system recorded |
| DhcpFrame.RequestsAreIgnored | src/net/ipconfig.c:141-142 | The handler ignores every request, its own or another client's, whatever its state |
| DhcpFrame.CopiedFieldsPass | src/net/ipconfig.c:141-203 | A reply whose xid and hardware address are copied from the request passes the two tests on them: an ACK that is tested at all is accepted |
| DhcpExchange.Handshake | src/net/ipconfig.c:371-415 | RFC 2131 section 3.1, over every schedule without time-out or lack of memory: if the replies taken up are an OFFER after the first message and an ACK after the second, the client sent one DISCOVER and one REQUEST naming that offer, holds the acknowledged address, and has succeeded if it has finished |
| DhcpExchange.HandshakeHoldsTheAck | src/net/ipconfig.c:212-241 | In that exchange the client ends with the mask, router and DNS server of the ACK, each from its last option 1, 3 and 6, a missing one as it was when the ACK came |
| DhcpScenes.HandshakeOccurs | src/net/ipconfig.c:371-415 | For any such OFFER and ACK there is a run that goes that way |
| DhcpExchange.SilenceFails | src/net/ipconfig.c:399-412 | Over every schedule in which no reply is taken up, dhcp() gives up after six time-outs and six DISCOVERs, or fewer if memory ran out, with no address |
| DhcpScenes.SuccessWithoutAck | src/net/ipconfig.c:399-414 | A run in which dhcp() reports success though nothing was ever acknowledged |
| Inet.Class | src/arpa/inet.c:18-51 | The five classes as ranges of the leading byte |
| Inet.InetClassDetermine | src/arpa/inet.c:18-51 | The netmask has as many bytes of ones as the class has network bytes, and is left alone for classes D and E |
| Inet.InetAddr | src/arpa/inet.c:71-93 | For any string, the four fields the cursor delimits; the cursor ends behind the fourth and never passes the NUL |
| Inet.DottedReadsBack | src/arpa/inet.c:71-93 | For any four numbers below 1000 in dotted-decimal notation, the result is their low bytes in order |
| Inet.DottedQuadReadsBack | src/arpa/inet.c:71-93 | Inverts canonical dotted-decimal notation, for all octets |

## Left out

- Udp.UdpSendMsg: payloads over 65493 bytes, for which the 16-bit frame length wraps around.
- Receive.Stack.RecvPktHandler: frames shorter than the 46-byte payload of the shortest Ethernet frame, whose headers the source would read past the buffer; the driver hands over none.
- DhcpMain.SendRequest: within the loop only the options of a request are recorded; the packet around them and its way to the driver are `DhcpFrame.SendPacket`, which takes the options as given. What the driver answers has no effect on the loop.
- DhcpRuns.OffersFollowResets: assumes, as DhcpRequests does, that every reply carries the options cookie and that no OFFER names 255.255.255.255 as server or address; without that an OFFER can be accepted again.
- Sockets.SocketList.Open: a socket type and protocol that do not go together leave the source's result uninitialised; this is read as a failure.
- A transmit loop that spins for ever against a device that stays up and busy: scripts are finite.
- Pointer lifetimes: that a freed buffer is not used again is not a precondition anywhere; it follows from the ledger statements only as far as those go.
- `socket_list_init`, which writes through a null pointer; the list starts from its static initial value.
- The stack has one network device here, as `curr_net_dev` does; its addresses are parameters.
- The device driver, interrupt glue, `pgm_read_ptr` tables, printing, delays and the link-up wait of `ip_auto_config`.
- TCP, `accept`, `connect`, `listen`, `recvfrom`, `inet_aton`, `inet_ntoa`, `inet_ntop`, `inet_pton`, `inet_shutdown`: stubs in the source.
- UDP checksums, IP options and fragmentation, which the source does not implement.
- `netdev_register`, `netdev_open`, `netdev_close`, the `netdev_set_` calls and `nb_queue_dump`: no property beyond their bodies.
- Packet type `PKT_LOOPBACK`: its value does not fit the two-bit field, so no frame carries it.
