# Verified model of the c10gx ICMP server

The repository is a ping server in hardware. Received Ethernet packets pass two routers
(`rx_split_by_etype`, `rx_split_by_ipv4proto`), the ICMP packets pass four rewriting components
(`icmp_proc_swapmac`, `_swapip`, `_param`, `_ipv4chksum`), ARP packets go to `arp_proc`, and `tx_merge`
puts both kinds of answers on one wire. Beside the packet path sits a Nios II with a JTAG UART driver, an
alarm scheduler and a small printf for the boot log. This project models the packet path as a system of
clocked machines and those three pieces of firmware as imperative code, and proves what they guarantee.

## How the packet path is modelled

- A word is the Avalon-ST word: 64 data bits, kept as four 16-bit lanes in wire order, `sop`, `eop`, `empty`.
  `MaskFacts` reads every 64-bit register contents as exactly one word and proves that each mask-and-shift
  expression of the components, computed on any register contents, is read as the lane move of the model.
- Each component is a class whose fields are the function-static registers of the component, and one call of
  `Step` is one call of the component. Whether a read finds a word and whether a write is accepted are
  parameters of `Step`, so every pattern of bubbles, stalls and back-pressure is covered. Ghost fields log the
  words read and written since reset, and `Valid` ties every register to those logs.
- The specification of a component is a plain function from the words read to the words it can ever write
  (`IcmpSpec.Stream`, `RouteSpec.Routed`, `ArpSpec.Render`, `TxMerge.Project`). These functions are stated on
  unbounded word streams, for packets of every length; theorems about packets follow from them.
- `EchoServer.Server` holds all eight components and the FIFOs between them, wired as in the system netlist.
  A run is any sequence of calls of the components, in any order and with any stalls.
  `EndToEnd`, `OnTheWire` and `Complete` hold in every state such runs reach, for packets of every length.
  `EchoDrain.Serve` adds progress: when the stalls stop, and in whatever order and however often the components are
  called as long as none is left out for ever, the path runs dry within a bounded number of rounds and stays so.

| file | content |
|---|---|
| `Basics.dfy`, `Words.dfy`, `MaskFacts.dfy` | common types; words, packets, framing by `eop`; mask expressions on bit vectors |
| `IcmpSpec.dfy`, `IcmpUnits.dfy` | the ICMP components as stream functions, and as machines that refine them |
| `OnesComplement.dfy`, `EchoReply.dfy` | RFC 1071 arithmetic; the echo reply byte by byte and its two checksums |
| `RouteSpec.dfy`, `Routers.dfy` | routing as a packet filter, and the two routers that refine it |
| `TxMerge.dfy` | the packet-atomic arbiter |
| `ArpSpec.dfy`, `ArpProc.dfy`, `ArpWitness.dfy` | ARP frames and RFC 826; the ARP machine with its cache timer; two runs that end in a wrong reply |
| `EchoServer.dfy`, `EchoDrain.dfy` | the composed path: safety over all runs, completeness, progress |
| `Ring.dfy`, `JtagUart.dfy` | circular buffers; UART write and read with the interrupt routine anywhere in between |
| `AlarmList.dfy`, `AlarmRun.dfy` | the alarm list and exact firing; any mix of starts, stops and ticks |
| `LogPrintf.dfy` | integer output |

## Where the code falls short of its promise

Each of these is proved with the exact condition under which the code does meet the promise, and with an input
for which it does not.

- The IPv4 header sum is folded once. The header of a reply is accepted by a receiver if and only if that one fold
  leaves at most 0xFFFF; otherwise the field is exactly one too large (`EchoReply.HeaderChecksum`).
  `EchoReply.OneFoldFails` gives an ordinary 74-byte ping with correct checksums whose reply is rejected.
- `icmp_proc_param` adjusts the ICMP checksum for a type of 8 without looking at the type. On an accepted message
  the answer is accepted if and only if the type was 8 (`EchoReply.IcmpChecksum`); `EchoReply.WrongTypeFails` gives
  an echo reply that is answered.
- A packet gets through all four components if and only if its length is neither 1 nor 4 modulo 256
  (`EchoReply.PipelinePassesIff`); any other packet jams its component for good (`IcmpSpec.Jam`), and with it the
  whole path, which can run dry only if every ICMP packet received gets through (`EchoServer.Server.Complete`).
  `EchoReply.LengthFails` gives a packet of 260 words; lengths from 5 to 256 words are not affected.
- The words of an ARP reply are filled from whatever requester is on file when each is loaded, and the next
  request may be accepted while a reply waits for the output. A reply is the RFC 826 reply to its request if and only if
  the requester shares the gateway's upper 16 address bits, and a request that was pending when word 4 (word 5) was
  loaded came from the same hardware address (the same lower half of the protocol address):
  `ArpProc.ArpUnit.ReplyExact`, in every run. `ArpWitness.SecondRequester` and `ArpWitness.FarRequester`
  are runs that end in a wrong reply, one for each cause.

## Assumptions

- The comment at `src/arp_proc/arp_proc.cpp:37` gives the addresses as 192.0.2.100 and 192.0.2.1; the definitions
  below it say 192.168.2.100 and 192.168.2.1. The model uses the definitions.
- Framing comes from `eop` alone, as in the components; a one-word packet is one with `eop` on its first word.
- What the bytes of an echo reply are is stated for ICMP packets of 5 to 256 words, the range of the 8-bit word
  counter; which packets are answered, in what order and when, is stated for every length. The header checksum
  statements take the header at the fixed words the code uses, so without IP options.
- That the receive interrupt is never left off with room in the ring is claimed for devices whose RAVAIL is zero
  whenever RVALID is clear (`truthful`); the interrupt routine relies on it. Everything else about the UART holds of
  any device.
- An alarm is not registered when it is started, callbacks leave the list alone, and the 64-bit tick counter is
  not about to wrap. What a callback returns may depend on the tick in any way. In `AlarmRun` the caller looks at the
  links first: it leaves out starting an alarm that is registered and stopping one that was never started.

## Model

| member | source | states |
|---|---|---|
| MaskFacts.OneToOne | src/icmp_proc/icmp_proc.cpp:45-51 | every word of the model is read from exactly one 64-bit register contents |
| MaskFacts.MacLeadIs | src/icmp_proc/icmp_proc.cpp:122-127 | the three masked shifts of the first swapped word, on any two registers, are read as `MacLead` |
| MaskFacts.MacTrailIs | src/icmp_proc/icmp_proc.cpp:138-142 | the masked shift of the second swapped word is read as `MacTrail` |
| MaskFacts.IpLeadIs | src/icmp_proc/icmp_proc.cpp:196-202 | the four masked shifts of word 3 are read as `IpLead` |
| MaskFacts.IpTrailIs | src/icmp_proc/icmp_proc.cpp:213-217 | the masked shift of word 4 is read as `IpTrail` |
| MaskFacts.AdjustedIs | src/icmp_proc/icmp_proc.cpp:261-265 | the complement, conditional borrow, complement on 16-bit vectors is the integer function `UpdateSum` |
| MaskFacts.ParamWordIs | src/icmp_proc/icmp_proc.cpp:261-267 | word 4 as param assembles it is read as `ParamWord` |
| MaskFacts.ChksumWordIs | src/icmp_proc/icmp_proc.cpp:328-332 | complementing the 24-bit register and masking puts exactly `SumField` of its value into lane 0 |
| MaskFacts.PlusIs | src/icmp_proc/icmp_proc.cpp:354-371 | UINT24 addition on bit vectors is addition modulo 2 to the 24 |
| MaskFacts.AccumulateWord1 | src/icmp_proc/icmp_proc.cpp:350-353 | case 1 of the accumulation, on any register contents, is read as `Accumulate` for word 1 |
| MaskFacts.AccumulateWord2 | src/icmp_proc/icmp_proc.cpp:354-360 | the same for case 2, four lanes |
| MaskFacts.AccumulateWord3 | src/icmp_proc/icmp_proc.cpp:361-366 | the same for case 3, three lanes |
| MaskFacts.AccumulateWord4 | src/icmp_proc/icmp_proc.cpp:367-372 | the same for case 4, one lane and one fold |
| MaskFacts.RouteIs | src/rx_split/rx_split.cpp:92-97 | the masked comparisons of both routers decide as `EtypeRoute` and `ProtoRoute` do |
| MaskFacts.ArpFieldsAre | src/arp_proc/arp_proc.cpp:258-260 | the field extractions are read as sender hardware address, sender and target protocol address |
| MaskFacts.ReplyWordsAre | src/arp_proc/arp_proc.cpp:124-230 | the six words of a reply as the table and the masks assemble them are read as `ReplyWord` of the requester |
| MaskFacts.RequestWordsAre | src/arp_proc/arp_proc.cpp:124-196 | the same for the six words of a request |
| MaskFacts.DispatchIs | src/arp_proc/arp_proc.cpp:256-277 | the extracted operation and addresses, compared with 0x01, 0xC0A80264 and 0xC0A80201, decide as `AsksOwn` and `Announces` do |
| Words.ParseUnique | src/tx_merge/tx_merge.cpp:161-166 | cutting a word stream at eop recovers exactly the packets it was built from |
| IcmpUnits.SwapUnit.Step | src/icmp_proc/icmp_proc.cpp:91-237 | one call of swapmac or swapip under any stall: what is read, written and held, with the registers still equal to the stream function of everything read |
| IcmpUnits.SwapUnit.Forward | src/icmp_proc/icmp_proc.cpp:106-158 | with a ready sink every call brings the held words nearer to the output unless the head waits for its successor |
| IcmpUnits.SwapUnit.Settle | src/icmp_proc/icmp_proc.cpp:106-158 | draining ends with the output equal to the stream function of what was read, whatever the schedule was |
| IcmpUnits.ParamUnit.Step | src/icmp_proc/icmp_proc.cpp:240-291 | the same for param: type cleared and checksum adjusted on word 4 only |
| IcmpUnits.ParamUnit.Settle | src/icmp_proc/icmp_proc.cpp:250-290 | two calls empty param and everything read has been sent |
| IcmpUnits.ChksumUnit.Step | src/icmp_proc/icmp_proc.cpp:294-391 | one call under any stall: the shared accumulator stays the sum of exactly the words that entered stage 1, and word 3 leaves with its own packet's header sum |
| IcmpUnits.ChksumUnit.Forward | src/icmp_proc/icmp_proc.cpp:313-388 | with a ready sink the distance to the output shrinks in every call unless the head waits for word 4 |
| IcmpUnits.ChksumUnit.Settle | src/icmp_proc/icmp_proc.cpp:313-388 | draining ends with the output equal to the stream function of what was read |
| IcmpUnits.SumFacts | src/icmp_proc/icmp_proc.cpp:318-337 | when word 3 may leave stage 2, the field computed from the register is the one the packet specification demands |
| IcmpSpec.RegisterIsHeader | src/icmp_proc/icmp_proc.cpp:348-372 | after word 4 the register is that packet's own nine-lane sum less 0xFFFF for each unit of its upper half, so folded once and once only; nothing of an earlier packet is left, and 24 bits suffice |
| IcmpSpec.AllMonotone | src/icmp_proc/icmp_proc.cpp:91-391 | more input never changes what a component has already determined |
| IcmpSpec.PassesIff | src/icmp_proc/icmp_proc.cpp:113-120 | which packet lengths leave a component completely, for every length on the 8-bit counter |
| IcmpSpec.Jam | src/icmp_proc/icmp_proc.cpp:186-194 | a packet of a stuck length loses its last word and nothing after it is ever sent |
| IcmpSpec.AllFlatten | src/icmp_proc/icmp_proc.cpp:91-391 | on packets that fit, the word-stream function is the packet function applied to each packet in order |
| OnesComplement.OnesSumIs | src/icmp_proc/icmp_proc.cpp:365-372 | RFC 1071: end-around-carry addition equals the plain sum reduced modulo 65535, so order and grouping do not matter |
| OnesComplement.FoldOnceIs | src/icmp_proc/icmp_proc.cpp:369-371 | the field is the RFC 1071 checksum if upper and lower half of the sum add up to 16 bits at most, and one more than it otherwise |
| OnesComplement.FoldOnceVerifies | src/icmp_proc/icmp_proc.cpp:328-329 | data with that field is accepted if and only if upper and lower half of the sum add up to 16 bits at most |
| OnesComplement.UpdateSumIs | src/icmp_proc/icmp_proc.cpp:260-264 | the complement, borrow, complement sequence is one's-complement addition of 0x0800 and never yields 0x0000 |
| OnesComplement.AnswerKeepsSum | src/icmp_proc/icmp_proc.cpp:258-268 | for an echo request of any length, clearing the type and adjusting the field keeps the one's-complement sum |
| OnesComplement.AnswerVerifiesIff | src/icmp_proc/icmp_proc.cpp:258-268 | on an accepted message the answer is accepted if and only if the type was 8 |
| OnesComplement.AnswerIsRecomputation | src/icmp_proc/icmp_proc.cpp:260-264 | the incremental field equals full recomputation over the answer, 0xFFFF standing for zero |
| EchoReply.ReplyBytes | src/icmp_proc/icmp_proc.cpp:91-391 | RFC 792: every byte of the reply but the two checksums; addresses exchanged, type 0, all else untouched |
| EchoReply.ReplyFlags | src/icmp_proc/icmp_proc.cpp:91-391 | length and the sop, eop and empty of every word are those of the request |
| EchoReply.ReplyLane | src/icmp_proc/icmp_proc.cpp:91-391 | each 16-bit lane of the reply, with the two checksum fields given by the folded header sum and the adjusted ICMP field |
| EchoReply.PipelinePassesIff | src/icmp_proc/icmp_proc.cpp:113-120 | a packet of any length is sent completely, or all but its last word; exactly the lengths that are neither 1 nor 4 modulo 256 get through |
| EchoReply.HeaderChecksum | src/icmp_proc/icmp_proc.cpp:318-379 | the reply's IPv4 header is accepted if and only if upper and lower half of the header sum add up to at most 0xFFFF; the field is the RFC 1071 checksum, or one more |
| EchoReply.OneFoldFails | src/icmp_proc/icmp_proc.cpp:369-371 | a 74-byte ping with a correct header and a correct ICMP checksum whose reply carries a rejected header |
| EchoReply.MessageBytes | src/icmp_proc/icmp_proc.cpp:258-272 | the message that is summed is the bytes from byte 34 on, two to a lane, an odd last byte padded with zero |
| EchoReply.IcmpChecksum | src/icmp_proc/icmp_proc.cpp:258-272 | for an accepted message of any length, odd ones included, the reply's message is accepted if and only if it was an echo request |
| EchoReply.WrongTypeFails | src/icmp_proc/icmp_proc.cpp:258-272 | an accepted message of type 0 whose answer is rejected |
| EchoReply.LengthFails | src/icmp_proc/icmp_proc.cpp:186-194 | a packet of 260 words of which 259 are sent |
| EchoReply.PipelineOnPackets | src/icmp_proc/icmp_proc.cpp:414-478 | the four components in a row answer packets of any lengths one by one, up to the first that jams them |
| EchoReply.PipelineJams | src/icmp_proc/icmp_proc.cpp:186-194 | behind such a packet nothing is ever sent |
| EchoReply.AnsweredInFull | src/icmp_proc/icmp_proc.cpp:414-478 | nothing is held back exactly when every packet gets through |
| EchoReply.PipelineSafe | src/icmp_proc/icmp_proc.cpp:414-478 | under any interleaving what has left the last component is a prefix of that answer, for packets of any lengths |
| RouteSpec.RouteOfPrefix | src/rx_split/rx_split.cpp:203-229 | a routing decision never changes as more words arrive |
| RouteSpec.DeliveredMonotone | src/rx_split/rx_split.cpp:111-359 | what a longer input delivers to a port extends what a shorter one delivered |
| RouteSpec.ClassIs | src/rx_split/rx_split.cpp:206-219 | the class of a packet by its length and its second or third word |
| RouteSpec.DeliveredPackets | src/rx_split/rx_split.cpp:131-229 | on whole packets routing is a filter: complete, in order, each packet to one port |
| RouteSpec.DeliveredPartial | src/rx_split/rx_split.cpp:131-229 | the same with an unfinished last packet |
| Routers.EtypeRouter.RouteWord | src/rx_split/rx_split.cpp:142-182 | the routing stage moves at most one word, to the port of its own packet, and reports when a packet is about to begin |
| Routers.EtypeRouter.UpdateState | src/rx_split/rx_split.cpp:203-229 | the next state is the decision that the words in stages 2 and 1 allow, HOLD if they do not suffice |
| Routers.EtypeRouter.Step | src/rx_split/rx_split.cpp:111-232 | one call under any stall: ports plus registers stay the in-order partition of what was read |
| Routers.EtypeRouter.Settle | src/rx_split/rx_split.cpp:131-229 | with ready sinks the distance measure empties the registers and the ports hold what the input alone determines |
| Routers.EtypeRouter.FullRate | src/rx_split/rx_split.cpp:142-229 | n calls with source and sinks ready emit exactly max(0, n - 4) words for every mix of packet lengths |
| Routers.ProtoRouter.Step | src/rx_split/rx_split.cpp:235-359 | the same refinement with three words of lookahead |
| Routers.ProtoRouter.UpdateState | src/rx_split/rx_split.cpp:323-356 | the decision reads only words of the packet at the head, never of its successor |
| Routers.ProtoRouter.Settle | src/rx_split/rx_split.cpp:255-356 | draining, as for the first router |
| Routers.ProtoRouter.FullRate | src/rx_split/rx_split.cpp:263-356 | n calls emit exactly max(0, n - 5) words |
| TxMerge.AtomicShuffle | src/tx_merge/tx_merge.cpp:155-168 | an atomic output cut at eop is a shuffle of the packets of the two inputs, and the unfinished packet has one owner |
| TxMerge.Merger.Step | src/tx_merge/tx_merge.cpp:136-179 | one call: output and registers project to each input in order, no packet is interrupted, `port_select` names the owner of the unfinished packet |
| TxMerge.Merger.Settle | src/tx_merge/tx_merge.cpp:150-176 | what stays behind when drained waits for the rest of a packet of the other source |
| ArpSpec.FrameShape | src/arp_proc/arp_proc.cpp:124-131 | sop on word 0 only, eop with empty 6 on word 5 only |
| ArpSpec.ReplyIsRfc826 | src/arp_proc/arp_proc.cpp:198-230 | a reply is the RFC 826 reply to its request exactly if the upper address halves agree and no pending request from another address got into words 4 and 5 |
| ArpSpec.AskingPackets | src/arp_proc/arp_proc.cpp:256-266 | on a list of ARP packets the window finds exactly the requests for this device's address, in order |
| ArpSpec.RequestIsRfc826 | src/arp_proc/arp_proc.cpp:163-196 | a request is the RFC 826 request for the gateway |
| ArpSpec.OncePerPacket | src/arp_proc/arp_proc.cpp:256-277 | the six-word window is evaluated once per packet and reads that packet's own fields |
| ArpSpec.RenderPackets | src/arp_proc/arp_proc.cpp:156-234 | the rendered output cut at eop is exactly the list of frames |
| ArpProc.ArpUnit.Step | src/arp_proc/arp_proc.cpp:119-307 | one call: transfers, frame progress, the pending flag at each load of a reply word, acceptance, next mode and timer; a tick calls for a request unless fewer than 16 ticks came since the last announcement |
| ArpProc.ArpUnit.LoadWord | src/arp_proc/arp_proc.cpp:161-234 | the output stays whole frames and one prefix of the current frame |
| ArpProc.ArpUnit.Receive | src/arp_proc/arp_proc.cpp:248-286 | own-IP requests are accepted unless one is pending, gateway announcements reload the counter |
| ArpProc.ArpUnit.Transmitted | src/arp_proc/arp_proc.cpp:156-299 | everything sent is whole six-word frames and at most one prefix; replies started plus the pending flag equal the requests accepted; the counter is at most 16 |
| ArpProc.ArpUnit.Forward | src/arp_proc/arp_proc.cpp:156-307 | with a ready sink and no pps tick every call brings the unit nearer to rest, and a unit at rest stays so |
| ArpProc.ArpUnit.ReplyExact | src/arp_proc/arp_proc.cpp:198-299 | in every reachable state, exactly which loaded replies are the RFC 826 replies to their requests |
| ArpProc.ArpUnit.LastReplyExact | src/arp_proc/arp_proc.cpp:198-299 | a reply loaded with no request left to answer is right exactly if the requester shares the gateway's upper address half |
| ArpProc.ArpUnit.Run | src/arp_proc/arp_proc.cpp:119-307 | any sequence of offers, stalls and ticks ends in a state where that holds of every reply, and where the requests were called for by exactly the ticks with no announcement in the 16 ticks before |
| ArpProc.ArpUnit.ArmedWhen | src/arp_proc/arp_proc.cpp:237-277 | in every reachable state, which calls have called for a request: those with a pps tick and no announcement followed by fewer than 16 ticks before it; the counter is at most 16 |
| ArpProc.ArpUnit.Noticed | src/arp_proc/arp_proc.cpp:248-286 | the requests noticed are exactly those of the ARP packets received, and the accepted ones those taken on |
| ArpWitness.SecondRequester | src/arp_proc/arp_proc.cpp:266-293 | a run in which a second requester is accepted while the first reply waits, and the first reply is wrong |
| ArpWitness.FarRequester | src/arp_proc/arp_proc.cpp:220-221 | a run with one requester of another network half, and a wrong reply |
| EchoServer.ChainSelects | src/rx_split/rx_split.cpp:375-431 | the two routers in a row select exactly the packets with ethertype 0x0800, three words or more and protocol 1 |
| EchoServer.ChainSafe | src/rx_split/rx_split.cpp:375-431 | under any schedule the ICMP port receives a prefix of those packets |
| EchoServer.Server.StepArp | src/system/system.qsys:34884-34957 | one call of arp_proc in the path: what is read and written, and a tick that finds the cache run out leads to an ARP request, at once or after a reply |
| EchoServer.Server.Run | src/system/system.qsys:34884-34957 | any sequence of component calls is made as given, keeps every link and register consistent, and ends with a prefix of the echoes |
| EchoServer.Server.EndToEnd | src/system/system.qsys:34884-34957 | in every reachable state and for packets of every length, the words merged from the IPv4 side are a prefix of the replies to the ICMP packets received, up to the first that jams the path |
| EchoServer.Server.ArpNoticed | src/system/system.qsys:34884-34957 | in every reachable state the requests noticed are a prefix of the requests for this device among the ARP packets received, if those are well-shaped, and the accepted ones are those taken on |
| EchoServer.Server.OnTheWire | src/system/system.qsys:34884-34957 | the wire carries whole packets: a shuffle of a prefix of the echo replies and a prefix of the ARP frames, each one six words with sop, eop and content as specified |
| EchoServer.Server.Complete | src/system/system.qsys:34884-34957 | the path is quiet only if every ICMP packet received gets through, and then all replies have been sent, whatever the schedule was |
| EchoDrain.SwapFlows | src/icmp_proc/icmp_proc.cpp:111-133 | on packets that fit, a swapping component never jams |
| EchoDrain.ChksumFlows | src/icmp_proc/icmp_proc.cpp:318-337 | on packets that fit, the checksum component never jams |
| EchoDrain.MergeDone | src/tx_merge/tx_merge.cpp:155-168 | two inputs of whole packets never leave the arbiter waiting |
| EchoDrain.Call | src/system/system.qsys:34884-34957 | an unstalled call of any component uses up work if that component has any, takes none from the others, and changes nothing otherwise |
| EchoDrain.Serve | src/system/system.qsys:34884-34957 | from any reachable state, after boundedly many rounds that call every component in any order and number without stalls, the path is dry and the IPv4 words sent are exactly the replies to all ICMP packets, the ARP words exactly the frames with one reply for each request taken on; if the ARP packets are well-shaped the requests noticed are exactly those for this device |
| Ring.Put | src/enet_nios_proc/enet_nios_proc_bsp/drivers/src/altera_avalon_jtag_uart_init.c:150-151 | storing a byte and advancing appends it to the live bytes |
| Ring.Extend | src/enet_nios_proc/enet_nios_proc_bsp/drivers/src/altera_avalon_jtag_uart_write.c:122-126 | publishing a copied stretch appends it, wrap-around included |
| Ring.Release | src/enet_nios_proc/enet_nios_proc_bsp/drivers/src/altera_avalon_jtag_uart_read.c:128-139 | a contiguous read takes the oldest bytes, wrap-around included |
| Ring.RoomIs | src/enet_nios_proc/enet_nios_proc_bsp/drivers/src/altera_avalon_jtag_uart_write.c:107-115 | the space computation never exceeds the free slots, keeps one free, and is zero exactly when the ring is full |
| Ring.RunIs | src/enet_nios_proc/enet_nios_proc_bsp/drivers/src/altera_avalon_jtag_uart_read.c:121-127 | the data computation never exceeds the live bytes and is zero exactly when there are none |
| JtagUart.Uart.RxPass | src/enet_nios_proc/enet_nios_proc_bsp/drivers/src/altera_avalon_jtag_uart_init.c:126-168 | a read interrupt takes bytes until the ring is full or the device has none and stores them all in order; exactly when it is switched off; `last` is the newest data read |
| JtagUart.Uart.TxPass | src/enet_nios_proc/enet_nios_proc_bsp/drivers/src/altera_avalon_jtag_uart_init.c:170-202 | a write interrupt sends as many bytes as there are and as fit, and is switched off only when the ring is empty |
| JtagUart.Uart.Pass | src/enet_nios_proc/enet_nios_proc_bsp/drivers/src/altera_avalon_jtag_uart_init.c:119-203 | each control word read is honoured: with WI as many bytes are sent as there are and fit, with RI the ring is full or the device has no more afterwards |
| JtagUart.Uart.Isr | src/enet_nios_proc/enet_nios_proc_bsp/drivers/src/altera_avalon_jtag_uart_init.c:119-203 | one invocation ends at the first control word that shows neither RI nor WI |
| JtagUart.Uart.CopyIn | src/enet_nios_proc/enet_nios_proc_bsp/drivers/src/altera_avalon_jtag_uart_write.c:122-122 | with interrupts between the bytes the copy touches no live byte and the room stays valid |
| JtagUart.Uart.Fill | src/enet_nios_proc/enet_nios_proc_bsp/drivers/src/altera_avalon_jtag_uart_write.c:100-127 | accepts a prefix of the data, and less than all of it only if the ring was full when `seen` had been sent: 2047 of the bytes accepted were not in `seen`, and none has been accepted after that moment |
| JtagUart.Uart.Write | src/enet_nios_proc/enet_nios_proc_bsp/drivers/src/altera_avalon_jtag_uart_write.c:83-215 | takes exactly the reported prefix, refuses bytes only if the ring was full at a moment of the call after which none was accepted, gives up a blocking call only if the host was counted inactive just before the call or during it, waits only if blocking and only while the host is not timed out, loses no wake-up; interrupts between any two accesses |
| JtagUart.Uart.CopyOut | src/enet_nios_proc/enet_nios_proc_bsp/drivers/src/altera_avalon_jtag_uart_read.c:133-133 | with interrupts between the bytes the copy is the oldest live bytes |
| JtagUart.Uart.Drain | src/enet_nios_proc/enet_nios_proc_bsp/drivers/src/altera_avalon_jtag_uart_read.c:115-142 | the copy loop ends because space decreases, and stops short of the space given only after everything received before |
| JtagUart.Uart.Read | src/enet_nios_proc/enet_nios_proc_bsp/drivers/src/altera_avalon_jtag_uart_read.c:100-203 | hands over the next bytes in order, a short read everything received before the call; gives up a blocking call only without space or if the inactivity count was at least `timeout` just before the call or during it; waits only if blocking, with the ring empty and the host not timed out; loses no wake-up |
| JtagUart.Uart.Timeout | src/enet_nios_proc/enet_nios_proc_bsp/drivers/src/altera_avalon_jtag_uart_init.c:210-232 | activity resets the inactivity count, no activity raises it by one, to a limit; each call is logged with what it left |
| JtagUart.Uart.Session | src/enet_nios_proc/enet_nios_proc_bsp/drivers/src/altera_avalon_jtag_uart_init.c:106-204 | over any calls and any interrupts, every call is made unless a blocking one is still waiting, bytes sent are a prefix of the accepted prefixes in order and as many as the control words read asked for, bytes returned a prefix of those received, and no needed interrupt is off between calls |
| AlarmList.FiringsAre | src/enet_nios_proc/enet_nios_proc_bsp/HAL/src/alt_tick.c:79-82 | the firing ticks: the first at the deadline, each later one exactly the returned interval after the one before, ended only by a zero return |
| AlarmList.FiringsTick | src/enet_nios_proc/enet_nios_proc_bsp/HAL/src/alt_tick.c:106-119 | one tick adds at most one firing, at that tick, and moves the deadline by the returned interval |
| AlarmList.Insert | src/enet_nios_proc/enet_nios_proc_bsp/HAL/inc/sys/alt_llist.h:90-98 | four pointer writes keep the circle well formed and put the entry first |
| AlarmList.Remove | src/enet_nios_proc/enet_nios_proc_bsp/HAL/inc/sys/alt_llist.h:105-117 | unlinking deletes exactly that entry, leaves it self-linked, and is harmless when repeated |
| AlarmList.Scheduler.Start | src/enet_nios_proc/enet_nios_proc_bsp/HAL/src/alt_alarm_start.c:64-98 | the first deadline is n + 1 ticks ahead; error results leave the list alone |
| AlarmList.Scheduler.Stop | src/enet_nios_proc/enet_nios_proc_bsp/HAL/src/alt_tick.c:66-73 | exactly that alarm leaves the list; a second stop does nothing |
| AlarmList.Scheduler.Tick | src/enet_nios_proc/enet_nios_proc_bsp/HAL/src/alt_tick.c:87-121 | every alarm present at entry is served once although entries unlink themselves; the survivors keep their order |
| AlarmList.Scheduler.Ticks | src/enet_nios_proc/enet_nios_proc_bsp/HAL/src/alt_tick.c:87-121 | over any number of ticks each alarm fires at exactly the ticks `Firings` lists and stays registered exactly as long as it has another |
| AlarmList.AliveTick | src/enet_nios_proc/enet_nios_proc_bsp/HAL/src/alt_tick.c:111-119 | an alarm that has ended stays ended, so filtering tick by tick is filtering once |
| AlarmRun.StartOne | src/enet_nios_proc/enet_nios_proc_bsp/HAL/src/alt_alarm_start.c:64-98 | what the specification says of a start: the alarm has its first deadline and no calls, the others are as they were |
| AlarmRun.StopOne | src/enet_nios_proc/enet_nios_proc_bsp/HAL/src/alt_tick.c:66-73 | an alarm that is stopped is no longer registered and all others are as they were, also when it had left the list by itself |
| AlarmRun.TickOne | src/enet_nios_proc/enet_nios_proc_bsp/HAL/src/alt_tick.c:87-121 | exactly the alarms due in this tick are called, and each is registered again or gone as its callback returned |
| AlarmRun.Run | src/enet_nios_proc/enet_nios_proc_bsp/HAL/src/alt_tick.c:66-121 | over any mix of starts, stops and ticks of any alarms the clock, the registered alarms, their deadlines and all calls made are those of a specification without a list |
| AlarmRun.LifeIs | src/enet_nios_proc/enet_nios_proc_bsp/HAL/src/alt_tick.c:87-121 | from its start to the next command naming it an alarm is called at exactly the ticks `Firings` lists, whatever happens to others |
| LogPrintf.CountDigits | src/enet_nios_proc/enet_nios_proc_bsp/HAL/src/alt_log_printf.c:245-253 | the place value ends as base^(digits - 1) without overflowing 32 bits |
| LogPrintf.PrintDigits | src/enet_nios_proc/enet_nios_proc_bsp/HAL/src/alt_log_printf.c:281-297 | the digits printed are the shortest numeral of the value |
| LogPrintf.PrintInteger | src/enet_nios_proc/enet_nios_proc_bsp/HAL/src/alt_log_printf.c:208-297 | the output has the requested width, exactly the padding due, and reads back as the argument, or for the signed conversions as its 32-bit two's complement value |
| LogPrintf.RepChar | src/enet_nios_proc/enet_nios_proc_bsp/HAL/src/alt_log_printf.c:106-110 | repeats a character, nothing for counts of zero or less |
| LogPrintf.Assemble | src/enet_nios_proc/enet_nios_proc_bsp/HAL/src/alt_log_printf.c:257-278 | zeros after the sign or blanks before it do not change the value read back |

## Left out

- The stage index registers that are written and never read (`stage2_idx` in the swaps, `stage1_idx` in param, `stage3_idx` in the checksum component) and `gtw_mac`: no output depends on them.
- `icmp_proc_swapmac` and `icmp_proc_swapip` are one class with the kind as a parameter: their code differs only in the word indices and the two mask expressions.
- FIFO capacities: FIFOs are unbounded and any read or write may fail, which covers every capacity; that a full FIFO cannot block the path for ever is stated only as `EchoDrain.Serve` does, with sinks that accept. pps ticks are not part of its rounds: each one may start one more ARP request.
- Fairness of tx_merge: ARP has priority, so a source of ARP packets that never pauses can keep IPv4 waiting; no bound on the wait is claimed.
- `EchoServer.Server.ArpNoticed`: for ARP packets of six words or more that open with their only `sop`; the routers do not enforce that, and nothing is claimed about which requests are noticed on other input.
- `JtagUart.Uart.Read`: nothing is claimed about the receive interrupt for a device that reports bytes available with RVALID clear; by the contract of `JtagUart.Uart.RxPass` such a device gets it switched off with room left.
- `JtagUart.Uart.Write`: a blocking call may end as Waiting (a read as Spinning) where the program would keep spinning for longer than it is watched; that a spin loop ends depends on the host and on the timeout alarm.
- Real concurrency of a write call with a read call: both run in the one foreground thread, interrupted by the interrupt routine only; µC/OS-II builds, the small driver and the IGNORE_FIFO_FULL reset are not modelled.
- `AlarmList.Scheduler.Tick`: callbacks that start or stop alarms themselves, and the wrap of the 64-bit tick counter, are excluded.
- Format parsing of the log printf, the `%c` and `%s` conversions, and `long` values on machines wider than 32 bits.
- `rx_split_discard`, the I2C driver, the Verilog width converters and packet buffer, boot and system-call stubs: nothing in them bears on the properties above.
