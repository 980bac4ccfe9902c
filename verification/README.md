# Models and proofs for the practice programs

Dafny models of the four components of this repository that carry real invariants, and proofs about
them:

* the user-space IPv4/ICMP/ARP router (`hello-linux/practices/network-driver`): its in-place frame
  rewrites, the Internet checksum, and every run in which emitted frames come back;
* the XOR pipe driver (`hello-linux/practices/xorbox`): a ring with chunked transfers, faults, a
  changeable key and a lock, as a class and as interleaved small steps of many threads;
* the encrypted random-access buffer (`hello-linux/practices/crypto-buffer`): a seekable file kept as
  ciphertext, against a plain file;
* merge sort (`hello-c/merge-sort.c`) and the C, Python and Rust circular buffers.

`dafny verify dfyconfig.toml` checks the project.

## Layout

| files | subject |
|---|---|
| `Numbers.dfy` | minimum and maximum |
| `Bytes.dfy`, `Checksum.dfy`, `Rfc.dfy` | bytes, host byte orders, `calculate_checksum`, RFC 1071 and RFC 1624 |
| `Arp.dfy` | both `handle_arp`, RFC 826 |
| `Ip.dfy`, `IpTheorems.dfy`, `IpRouter.dfy` | IPv4 frames, what the rewrites guarantee, `handle_ip` in place |
| `EchoOptions.dfy`, `EchoConformance.dfy` | IP options in echo requests, and when the replies are those of RFC 1122 |
| `Router.dfy` | the dispatch of `main`, runs of the router |
| `Wire.dfy` | the same on bytes: which bytes leave which interface for which bytes that arrive |
| `XorPipe.dfy` | calls on the XOR pipe as atomic steps on a queue, whole histories |
| `XorBox.dfy` | the driver as a class |
| `XorThreads.dfy`, `XorSystem.dfy`, `XorProgress.dfy` | the driver under any number of threads: what all interleavings keep, and what threads can achieve |
| `CryptoFile.dfy`, `CryptoLaws.dfy` | the encrypted buffer, and what its users see |
| `CryptoRaces.dfy` | the encrypted buffer when writes overlap |
| `Bits.dfy`, `Ring.dfy`, `Rings.dfy`, `RingAgreement.dfy` | power-of-two masks, live windows, the three rings, their agreement |
| `MergeSort.dfy`, `MergeSortTheorems.dfy` | merge sort in place, stability, comparisons |

## How the models relate to the programs

Imperative code is modelled by methods on arrays and class fields, in the order of the source's
statements; each is proved against a function on values, and the theorems are about those functions.
A frame is the first `len` bytes of an `array<byte>`; the packed structs are byte ranges of it. Host byte
order is a parameter of everything that loads or stores a `uint16_t`. The kernel's choices (a copy that
fails, an interrupted wait, an allocation refused, the interface a frame arrives on) are parameters, and
the theorems hold for all of them. Ring capacities and the chunk size of the XOR pipe are arbitrary
positive numbers (4096 and 128 in the source).

Where the code and its surroundings differ, the code is followed:

* `bytes_read` in `dev_read` of the XOR pipe is not initialised in the source; it starts at 0 here.
* The ARP handlers do not look at the hardware and protocol types, and send the reply to the link-level
  source of the frame rather than to its ARP sender address. `Arp.ConformsToRfc826` gives the exact
  condition under which they do what RFC 826 says, `Arp.OtherHardwareAnswered` a frame on which they do not.
* The IP header of an echo reply keeps the request's time to live, and its checksum is computed twice.
* Every echo request for a gateway is answered as it stands. RFC 1122 has a host drop it if the header
  checksum does not verify or the version or source address is wrong, reassemble it if it is a fragment,
  pass it on if its source route is unfinished, reverse a source route in the reply, and never send a time
  to live of 0; it recommends to drop what came by link-level broadcast, and to add to a record route and to
  timestamps. A message whose ICMP checksum does not verify counts as damaged and is not to be answered.
  `EchoConformance.ConformsToRfc1122` gives the exact condition under which the reply is the right one;
  `FragmentAnswered`, `UnfinishedRouteAnswered` and `SourceRouteKept` there are requests on which it is not.
* Python's `pop` returns `False` on an empty ring, so a caller cannot tell that from a stored `False`;
  `Rings.PyRing.Pop` says exactly when `False` comes back.
* Seeking past the end of the encrypted buffer and writing there leaves bytes that read as 0x5A; a write
  of no bytes past the end raises the size. The plain file of `CryptoFile` behaves likewise.
* The ICMP checksum of a reply agrees with the incremental update of RFC 1624 exactly when the request
  carries a non-zero byte besides its type and its checksum (`IpTheorems.ReplyIsIncremental`);
  `IpTheorems.EmptyPingDiffers` is a request that does not.
* The driver of the encrypted buffer takes no lock. Writes that overlap can lower the high-water mark and
  mix their bytes; `CryptoRaces.MarkExact` and `CryptoRaces.OverlapExact` say exactly when they cannot.

## Model

| member | source | states |
|---|---|---|
| Checksum.Calculate | hello-linux/practices/network-driver/ipv4-and-icmp.c:74-95 | for data of any length the loop stores the complement of the folded 32-bit sum, the same bytes on either kind of host; the folding loop turns at most twice |
| Checksum.FoldCharacterised | hello-linux/practices/network-driver/ipv4-and-icmp.c:93 | folding yields the one 16-bit value congruent to the sum modulo 65535 that is zero only for a zero sum |
| Checksum.FoldTwice | hello-linux/practices/network-driver/ipv4-and-icmp.c:93 | a 32-bit accumulator needs at most two folding rounds |
| Checksum.NoOverflow | hello-linux/practices/network-driver/ipv4-and-icmp.c:77-94 | up to 131074 bytes nothing is lost in the accumulator, and data verifies exactly when its sum is a non-zero multiple of 65535 |
| Rfc.AccumulatorRange | hello-linux/practices/network-driver/ipv4-and-icmp.c:77-91 | the uint32_t accumulator holds the sum of all data of a length exactly when the length is at most 131074 |
| Rfc.SameBytes | hello-linux/practices/network-driver/ipv4-and-icmp.c:79-94 | dropping both byte-order conversions stores the same two bytes, for every input up to that length |
| Rfc.ByteOrderIndependence | hello-linux/practices/network-driver/ipv4-and-icmp.c:79-94 | that holds for all data of a length exactly when the length is at most 131074 |
| Rfc.DamageDetected | hello-linux/practices/network-driver/ipv4-and-icmp.c:74-95 | any single changed byte of data that verifies makes it fail to verify, odd last bytes included |
| Rfc.Example | hello-linux/practices/network-driver/ipv4-and-icmp.c:74-95 | the numerical example of RFC 1071, section 3, gives the checksum bytes stated there |
| Rfc.Incremental | hello-linux/practices/network-driver/ipv4-and-icmp.c:203-207 | full recomputation and equation 3 of RFC 1624 agree unless exactly one of the two sums is the positive zero |
| Ip.ParseSerialize | hello-linux/practices/network-driver/ipv4-and-icmp.c:51-63 | serialising a frame and parsing it gives the frame back |
| Ip.SerializeParse | hello-linux/practices/network-driver/ipv4-and-icmp.c:51-63 | parsing a frame and serialising it gives the bytes back, and locates the header |
| IpTheorems.HeaderVerifies | hello-linux/practices/network-driver/ipv4-and-icmp.c:174-179 | a header verifies exactly when its field holds the recomputed checksum, or 0xFFFF where that is 0; recomputing makes every header verify |
| IpTheorems.ForwardVerifies | hello-linux/practices/network-driver/ipv4-and-icmp.c:203-207 | a forwarded header verifies whatever checksum came in |
| IpTheorems.ForwardIsIncremental | hello-linux/practices/network-driver/ipv4-and-icmp.c:203-207 | for a header that verified, the checksum after the decrement is equation 3 of RFC 1624 on the TTL/protocol word, boundary cases included |
| IpTheorems.ForwardBytes | hello-linux/practices/network-driver/ipv4-and-icmp.c:203-214 | forwarding changes the time to live by one, the checksum and the link addresses, and no other byte |
| IpTheorems.EchoReplyHeader | hello-linux/practices/network-driver/ipv4-and-icmp.c:169-179 | the reply's header verifies; for a verifying request its checksum is the request's, 0xFFFF becoming 0 |
| IpTheorems.ReplyMessageVerifies | hello-linux/practices/network-driver/ipv4-and-icmp.c:181-187 | the reply message verifies, of even or odd length, whatever the request's checksum was |
| IpTheorems.ReplyChecksumShift | hello-linux/practices/network-driver/ipv4-and-icmp.c:182-187 | for a verifying request the new ICMP checksum is the old one plus 0x0800 modulo 65535 |
| IpTheorems.ReplyIsIncremental | hello-linux/practices/network-driver/ipv4-and-icmp.c:182-187 | it is the one equation 3 gives exactly when the request has a non-zero byte besides its type and checksum |
| IpTheorems.EmptyPingDiffers | hello-linux/practices/network-driver/ipv4-and-icmp.c:182-187 | an all-zero request that verifies, for which the code stores 0xFFFF and equation 3 gives 0 |
| IpTheorems.EchoReplyBytes | hello-linux/practices/network-driver/ipv4-and-icmp.c:165-192 | the reply byte by byte: addresses exchanged, type cleared, two checksums replaced; options, identifier, sequence, data and padding as they came |
| EchoConformance.ConformsToRfc1122 | hello-linux/practices/network-driver/ipv4-and-icmp.c:154-192 | the reply is one RFC 1122 has a host give exactly when the request has arrived undamaged, whole and at the end of any source route, with a positive time to live, and no option calls for a change |
| EchoConformance.WithoutOptions | hello-linux/practices/network-driver/ipv4-and-icmp.c:154-192 | for a 20-byte header that is: exactly when the request is to be answered as it stands and its time to live is positive |
| EchoConformance.SourceRouteKept | hello-linux/practices/network-driver/ipv4-and-icmp.c:169-171 | a verifying source-routed request whose reply goes straight to the sender with the route as it came, where it should go back through the route reversed |
| EchoConformance.UnfinishedRouteAnswered | hello-linux/practices/network-driver/ipv4-and-icmp.c:154-192 | a verifying request whose source route is unfinished is answered, where it should be passed on |
| EchoConformance.ReassembledReply | hello-linux/practices/network-driver/ipv4-and-icmp.c:181-187 | an answered first fragment put together with the other fragments verifies exactly when these add nothing to the sum |
| EchoConformance.FragmentAnswered | hello-linux/practices/network-driver/ipv4-and-icmp.c:154-192 | the first fragment of a verifying ping is answered, where it should wait, and the answer does not verify with the rest |
| IpRouter.ResumHeader | hello-linux/practices/network-driver/ipv4-and-icmp.c:174-175 | clearing the field and storing the computed checksum, in place, changes that field only |
| IpRouter.MakeReplyMessage | hello-linux/practices/network-driver/ipv4-and-icmp.c:182-187 | the in-place stores turn the message into the reply message and leave the padding |
| IpRouter.BuildEchoReply | hello-linux/practices/network-driver/ipv4-and-icmp.c:165-187 | the ordered in-place stores leave the echo reply of the parsed request |
| IpRouter.BuildForward | hello-linux/practices/network-driver/ipv4-and-icmp.c:203-211 | the ordered in-place stores leave the forwarded frame |
| IpRouter.HandleIp | hello-linux/practices/network-driver/ipv4-and-icmp.c:146-223 | reply, drop or forward decided as on the parsed frame, the buffer holding the serialised outcome, bytes past `len` untouched |
| Arp.ParseSerialize | hello-linux/practices/network-driver/ipv4-and-icmp.c:38-49 | serialising an ARP frame and parsing it gives the frame back |
| Arp.HandleArp | hello-linux/practices/network-driver/ipv4-and-icmp.c:123-144 | on at least 42 bytes the handler equals parse, RFC 826 reply, serialise; it sends exactly for requests for the gateway |
| Arp.HandleArpGuarded | hello-linux/practices/network-driver/arp.c:74-118 | the same with the length guard, for every length |
| Arp.ReplyBytes | hello-linux/practices/network-driver/arp.c:74-118 | the reply byte by byte: link-level source as destination, router and gateway as sender, asker as target, opcode 2, everything else kept |
| Arp.OthersIgnored | hello-linux/practices/network-driver/arp.c:74-118 | a frame that is no request for the gateway is neither answered nor changed |
| Arp.ConformsToRfc826 | hello-linux/practices/network-driver/arp.c:82-109 | the frame sent is the one RFC 826 prescribes, given by its bytes, exactly when a request for the gateway is about IP over Ethernet and its two sender link addresses agree |
| Arp.OtherHardwareAnswered | hello-linux/practices/network-driver/arp.c:82-109 | a request about other hardware that RFC 826 has ignored is answered |
| Arp.ReplyProvokesNone | hello-linux/practices/network-driver/ipv4-and-icmp.c:128-142 | a reply keeps length and trailing bytes and is answered at no gateway |
| Router.Receive | hello-linux/practices/network-driver/ipv4-and-icmp.c:253-280 | one turn of the main loop sends exactly what the step relation says, from the buffer |
| Router.ReceiveArpOnly | hello-linux/practices/network-driver/arp.c:159-185 | the same for the ARP-only router, on frames of any length |
| Router.ArpRoutersAgree | hello-linux/practices/network-driver/arp.c:159-185 | both routers treat ARP frames alike, and no reply is answered through either interface |
| Wire.SentVerifies | hello-linux/practices/network-driver/ipv4-and-icmp.c:174-187 | every IP frame sent verifies over the bytes its header length covers, and every reply over the bytes its total length covers, whatever checksums came in |
| Wire.WellFormedBytes | hello-linux/practices/network-driver/ipv4-and-icmp.c:146-192 | the frames considered, by bytes: the header lies within the frame, and for ICMP to a gateway the total length covers the ICMP header and lies within it too |
| Wire.IpOnWire | hello-linux/practices/network-driver/ipv4-and-icmp.c:146-281 | for every IP frame and interface, by bytes: a ping for either gateway goes back through its interface as the reply, what has more than one hop to live leaves the other interface with that one's address and one hop less, nothing else leaves |
| Wire.ArpOnWire | hello-linux/practices/network-driver/ipv4-and-icmp.c:123-144 | for every ARP frame and interface, by bytes: a request for 192.168.1.1 on tap0 or 192.168.2.1 on tap1 goes back with every field of the reply in its place, nothing else does, in both routers |
| Wire.OthersOnWire | hello-linux/practices/network-driver/ipv4-and-icmp.c:253-280 | frames of other types, and short ARP frames at the ARP-only router, make nothing leave |
| Wire.SentOnIsIncremental | hello-linux/practices/network-driver/ipv4-and-icmp.c:203-207 | in every frame sent on whose header verified, the checksum bytes are equation 3 of RFC 1624 on the bytes at 22 and 23 |
| Wire.FrameCauses | hello-linux/practices/network-driver/ipv4-and-icmp.c:128-214 | the bound for one frame among others, by its type and its byte 22 |
| Router.DeliverArp | hello-linux/practices/network-driver/ipv4-and-icmp.c:128-142 | an ARP frame that is answered turns into a well-formed one that never is again |
| Router.DeliverIp | hello-linux/practices/network-driver/ipv4-and-icmp.c:154-214 | an IP frame is answered or forwarded exactly while its budget is positive, which each emission lowers by one, and stays well-formed |
| Router.FedBack | hello-linux/practices/network-driver/ipv4-and-icmp.c:253-280 | a delivery takes its frame out of flight and puts back exactly what left in answer, under the same origin |
| Router.RunBound | hello-linux/practices/network-driver/ipv4-and-icmp.c:243-281 | in every run from any frames, delivered in any order through any interface with emissions fed back, and for any set of origins: emissions on account of their frames plus what these can still cause stay within their initial budget, exactly so for IP; and every delivery uses up a frame |
| Router.OneFrame | hello-linux/practices/network-driver/ipv4-and-icmp.c:128-214 | among any other frames in flight, in every run, an ARP frame causes at most one emission, an IP frame of time to live t at most max(t, 1), any other none; an echo request for a gateway causes exactly max(t, 1) once all is delivered |
| Router.RunToEnd | hello-linux/practices/network-driver/ipv4-and-icmp.c:154-214 | every set of frames can be delivered to the end; that takes one delivery for each frame and each emission, and IP frames have then used up exactly their budget |
| XorPipe.XorTwice | hello-linux/practices/xorbox/xorbox.c:78 | decrypting under the key of encryption restores the bytes |
| XorPipe.SetKeyOutcome | hello-linux/practices/xorbox/xorbox.c:139-161 | setting the key replaces the key and nothing else and returns 0, EFAULT if its copy fails; an interrupted call of any kind changes nothing; no other call touches the key |
| XorPipe.WriteOutcome | hello-linux/practices/xorbox/xorbox.c:97-137 | every outcome of a write: ENOSPC on a full pipe, else what fits is stored under the key and counted, or EFAULT with exactly the chunks before the fault stored |
| XorPipe.ReadOutcome | hello-linux/practices/xorbox/xorbox.c:52-96 | every outcome of a read: what there is, up to its length, decrypted and removed, or EFAULT with the chunks before the fault handed out and the faulting one gone |
| XorPipe.WriteShape | hello-linux/practices/xorbox/xorbox.c:97-137 | a write appends a prefix of its data under one key, all that fits if it succeeds |
| XorPipe.ReadShape | hello-linux/practices/xorbox/xorbox.c:52-96 | a read removes from the front and hands out a prefix of that under one key, all of it unless a copy faulted |
| XorPipe.WriteResumes | hello-linux/practices/xorbox/xorbox.c:114-131 | a write returns EFAULT exactly when the faulting chunk starts before the end of the transfer; it has stored exactly the chunks before, and writing the rest leaves what an undisturbed write leaves |
| XorPipe.ReadLosesOneChunk | hello-linux/practices/xorbox/xorbox.c:71-89 | a read returns EFAULT exactly when the faulting chunk starts before its end; it has delivered exactly the chunks before, and reading on hands out everything but the one chunk of the fault |
| XorPipe.RunBalanced | hello-linux/practices/xorbox/xorbox.c:67-136 | over any run, with faults and key changes, the accepted bytes are in order the removed ones followed by the stored ones, each delivered byte being the accepted one under the key of its write and the key of its read |
| XorPipe.Conservation | hello-linux/practices/xorbox/xorbox.c:71-131 | accepted = delivered + lost + stored over any run |
| XorPipe.HistoryIsReal | hello-linux/practices/xorbox/xorbox.c:95-136 | the history consists of what the calls themselves took and handed out |
| XorPipe.KeyAfterIsLast | hello-linux/practices/xorbox/xorbox.c:149 | the key in force after a sequence of calls is the argument of the last SetKey nothing hindered, or the initial key |
| XorPipe.RecordedKeys | hello-linux/practices/xorbox/xorbox.c:67-149 | every byte a call takes or hands out is recorded under the key in force at that call |
| XorPipe.KeyedFifo | hello-linux/practices/xorbox/xorbox.c:67-149 | over any run without lost bytes, byte by byte: what the reads handed out is what the writes took, in order, xor the key of its write xor the key of its read; the rest is in the pipe under the key of its write |
| XorPipe.PlainFifo | hello-linux/practices/xorbox/xorbox.c:67-136 | as long as no call changes the key and no read faults, the bytes read are exactly those written, in order, the rest being still in the pipe |
| XorBox.Device.constructor | hello-linux/practices/xorbox/xorbox.c:203-219 | a new device is an empty pipe under key 0x5A |
| XorBox.Device.EncryptChunk | hello-linux/practices/xorbox/xorbox.c:122-128 | the inner loop of a write moves one chunk into the ring |
| XorBox.Device.DecryptChunk | hello-linux/practices/xorbox/xorbox.c:74-81 | the inner loop of a read moves one chunk out of the ring |
| XorBox.Device.CopyOut | hello-linux/practices/xorbox/xorbox.c:71-89 | the chunk loop of a read, with the exact bytes gone at a fault |
| XorBox.Device.CopyIn | hello-linux/practices/xorbox/xorbox.c:114-131 | the chunk loop of a write, with the exact bytes stored at a fault |
| XorBox.Device.Read | hello-linux/practices/xorbox/xorbox.c:52-96 | the call has the effect and result of the atomic step; at every exit the indices agree and the lock is free |
| XorBox.Device.Write | hello-linux/practices/xorbox/xorbox.c:97-137 | likewise for writing |
| XorBox.Device.IoctlSetKey | hello-linux/practices/xorbox/xorbox.c:139-161 | likewise for setting the key |
| XorThreads.RingIsQueue | hello-linux/practices/xorbox/xorbox.c:74-128 | every small step on the ring is the same step on the queue it stands for |
| XorThreads.HolderAdvances | hello-linux/practices/xorbox/xorbox.c:62-131 | each small step of the lock holder keeps the account of how far its call has got, down to the byte |
| XorThreads.HolderEnds | hello-linux/practices/xorbox/xorbox.c:71-131 | each small step of the holder brings its unlocking nearer |
| XorThreads.WorkIsLinear | hello-linux/practices/xorbox/xorbox.c:71-131 | that takes at most three steps for each byte asked for, and two |
| XorSystem.NextKeeps | hello-linux/practices/xorbox/xorbox.c:60-150 | every action of any thread keeps the invariant: mutual exclusion, each thread where its history says, the trace linearized |
| XorSystem.Linearizable | hello-linux/practices/xorbox/xorbox.c:60-150 | in every interleaving the results are those of atomic calls in some order, the ring holds what they leave whenever the lock is free, and no thread outside its critical section holds the lock |
| XorSystem.LinearizationPoint | hello-linux/practices/xorbox/xorbox.c:60-150 | each returned call took effect once, between its invocation and its return, with the result of the atomic step at that point |
| XorProgress.LockGranted | hello-linux/practices/xorbox/xorbox.c:60 | a waiting thread that meets a free lock gets it in one step |
| XorProgress.WaitingIsServed | hello-linux/practices/xorbox/xorbox.c:60-150 | while nobody holds the lock, a waiting thread is served by its own steps with the outcome of the atomic step under whatever the kernel does to it |
| XorProgress.FreeLockServes | hello-linux/practices/xorbox/xorbox.c:60-150 | from any reachable state with the lock free an idle thread's call goes, by its own steps alone, through exactly its invocation, its undisturbed effect and its return |
| XorProgress.CallOccurs | hello-linux/practices/xorbox/xorbox.c:60-150 | the same for a call the kernel interrupts or makes fault, wherever it does |
| XorProgress.EverySequenceOccurs | hello-linux/practices/xorbox/xorbox.c:60-150 | the converse of linearizability: every sequence of atomic calls, with faults and interruptions, by any threads, is returned exactly so by some run of the driver |
| XorSystem.NothingSpurious | hello-linux/practices/xorbox/xorbox.c:60-150 | in every interleaving a thread's calls are linearized as interrupted or faulting at most as often as the kernel refused it a wait or a copy, and never if it refused none |
| XorSystem.LockIsReleased | hello-linux/practices/xorbox/xorbox.c:83-91 | a thread that holds the lock releases it within a bounded number of its own steps, whatever its copies do and however the steps of other threads fall between them |
| XorSystem.ConcurrentFifo | hello-linux/practices/xorbox/xorbox.c:60-150 | over every interleaving the bytes handed out are the accepted bytes in order under both keys |
| CryptoFile.ExactGuard | hello-linux/practices/crypto-buffer/my_crypto.c:164-166 | the length guard is exact unless the 64-bit sum wraps, and wrong exactly then |
| CryptoFile.WrapsBelowZero | hello-linux/practices/crypto-buffer/my_crypto.c:210-220 | a wrapped seek position is negative, so the call is refused as it would be in unbounded arithmetic |
| CryptoFile.StepRefines | hello-linux/practices/crypto-buffer/my_crypto.c:122-226 | one call gives the plain file's result; bytes past the high-water mark stay zero, size and position stay within the buffer, a failing call changes nothing |
| CryptoFile.RunRefines | hello-linux/practices/crypto-buffer/my_crypto.c:122-226 | over every sequence of calls through any number of files the device is a plain file whose unwritten bytes read as 0x5A |
| CryptoFile.ReadBack | hello-linux/practices/crypto-buffer/my_crypto.c:140-181 | bytes written are the bytes read back |
| CryptoLaws.FailsExactly | hello-linux/practices/crypto-buffer/my_crypto.c:122-226 | which error comes back, exactly when, with the buffer size as a number |
| CryptoLaws.WritesJoin | hello-linux/practices/crypto-buffer/my_crypto.c:158-196 | two writes through one file leave what one write of both their data leaves, and the file behind both |
| CryptoLaws.ReadsJoin | hello-linux/practices/crypto-buffer/my_crypto.c:122-155 | two reads through one file hand out, one after the other, what one read of both lengths does |
| CryptoLaws.HolesRead | hello-linux/practices/crypto-buffer/my_crypto.c:69-182 | on a new device, bytes before a write after a seek read as 0x5A, and another file just opened reads from the start |
| CryptoRaces.WithoutOverlap | hello-linux/practices/crypto-buffer/my_crypto.c:179-193 | writes that do not overlap, step by step, are writes on the plain file in their order |
| CryptoRaces.MarkExact | hello-linux/practices/crypto-buffer/my_crypto.c:189-193 | for any number of overlapping writes: in every interleaving those done lie below the high-water mark exactly when all that go past the mark at the outset end at the same place |
| CryptoRaces.OverlapExact | hello-linux/practices/crypto-buffer/my_crypto.c:179-193 | two overlapping writes are in every interleaving as good as one after the other exactly when they would fill at most one cell differently and do not both go past the mark to different places |
| CryptoRaces.ManyOverlap | hello-linux/practices/crypto-buffer/my_crypto.c:179-193 | any number of overlapping writes that fill no cell differently, those past the mark ending at the same place, leave in every interleaving what they leave one after another in any order |
| CryptoFile.Device.constructor | hello-linux/practices/crypto-buffer/my_crypto.c:58-70 | a new device is an empty file over a zeroed buffer |
| CryptoFile.Device.Read | hello-linux/practices/crypto-buffer/my_crypto.c:122-155 | the decrypting loop and the position update have the effect of the value-level call |
| CryptoFile.Device.Write | hello-linux/practices/crypto-buffer/my_crypto.c:158-196 | the guard, the encrypting loop, the position and the high-water mark have the effect of the value-level call |
| CryptoFile.Device.Llseek | hello-linux/practices/crypto-buffer/my_crypto.c:202-226 | the new position or the refusal is that of the value-level seek |
| Bits.CapacityCheck | hello-python/circular-buffer.py:3 | n & (n - 1) is zero exactly for the powers of two |
| Bits.AndBit | hello-python/circular-buffer.py:3 | a bit of x & y is set exactly when it is set in both |
| Bits.MaskedStep | hello-rust/circular-buffer.rs:36 | for a capacity that passes the check, (x + 1) & (n - 1) = (x + 1) mod n for every x |
| Bits.MaskNeedsPow2 | hello-c/da-basizz/circular-buffer.c:37-42 | masking is the remainder for every index exactly when the capacity is a power of two |
| Ring.WrapIsModulo | hello-linux/practices/xorbox/xorbox.c:79 | the remainder brings an index at most one lap ahead back into the ring |
| Ring.LiveIs | hello-rust/circular-buffer.rs:30-52 | counted from the tail modulo the capacity, the live slots are the first `count` |
| Ring.WindowPush | hello-linux/practices/xorbox/xorbox.c:125-127 | filling the slot at the head appends to the live window |
| Ring.WindowPop | hello-rust/circular-buffer.rs:47-48 | advancing the tail removes the oldest item, whatever is left in its slot |
| Rings.CRing.Init | hello-c/da-basizz/circular-buffer.c:14-19 | initialising any ring empties it |
| Rings.CRing.Push | hello-c/da-basizz/circular-buffer.c:31-46 | a push is that of the bounded queue |
| Rings.CRing.Pop | hello-c/da-basizz/circular-buffer.c:48-57 | a pop is that of the bounded queue, and leaves the out parameter alone when empty |
| Rings.PyRing.Create | hello-python/circular-buffer.py:2-10 | a ring comes into being, empty, exactly for the powers of two |
| Rings.PyRing.Push | hello-python/circular-buffer.py:29-38 | a push is that of the bounded queue |
| Rings.PyRing.Pop | hello-python/circular-buffer.py:40-48 | a pop is that of the bounded queue; False comes back exactly when the ring was empty or its oldest item was False |
| Rings.PyRing.Listing | hello-python/circular-buffer.py:12-18 | the listing shows the items, oldest first |
| Rings.RustRing.New | hello-rust/circular-buffer.rs:11-20 | construction panics exactly for capacities that are not powers of two |
| Rings.RustRing.Push | hello-rust/circular-buffer.rs:30-40 | a push is that of the bounded queue, a refused item is handed back, and slots hold Some exactly in the live window |
| Rings.RustRing.Pop | hello-rust/circular-buffer.rs:42-52 | a pop is that of the bounded queue and gives None only when the ring is empty |
| RingAgreement.PipeIsQueue | hello-linux/practices/xorbox/xorbox.c:75-127 | under key 0 a one-byte write or read of the pipe is a push or pop of the queue |
| RingAgreement.FirstInFirstOut | hello-c/da-basizz/circular-buffer.c:31-57 | over every sequence of operations on the queue all rings agree with: what was there and what was accepted is, in order, what was popped and what remains |
| RingAgreement.OutcomeOf | hello-c/da-basizz/circular-buffer.c:31-57 | a push is refused exactly when as many bytes wait as the ring holds, a pop gives the oldest waiting byte, or nothing exactly when none waits |
| RingAgreement.DriveC | hello-c/da-basizz/circular-buffer.c:31-57 | every sequence of pushes and pops is answered as by the queue |
| RingAgreement.DrivePython | hello-python/circular-buffer.py:29-48 | the same for the Python ring |
| RingAgreement.DriveRust | hello-rust/circular-buffer.rs:30-52 | the same for the Rust ring |
| RingAgreement.DrivePipe | hello-linux/practices/xorbox/xorbox.c:52-137 | the same for the pipe with key 0 |
| MergeSort.MergeLoop | hello-c/merge-sort.c:29-39 | the merging loop leaves a prefix of the merge and counts its comparisons |
| MergeSort.CopyRest | hello-c/merge-sort.c:41-51 | a copying loop moves the rest of a run behind what is done |
| MergeSort.MergeRuns | hello-c/merge-sort.c:17-52 | the segment becomes the merge of its two runs and nothing else changes |
| MergeSort.SortSegment | hello-c/merge-sort.c:54-63 | the recursion ends, the segment becomes its sort, nothing outside changes, and the comparisons are counted |
| MergeSortTheorems.MergeStable | hello-c/merge-sort.c:30 | merging keeps the order of equal keys, those of the left run first |
| MergeSortTheorems.SortIsTheStableSort | hello-c/merge-sort.c:17-63 | a sequence is the result exactly when it is sorted and keeps the elements of every key in their order |
| MergeSortTheorems.SortPermutes | hello-c/merge-sort.c:17-63 | the result is a permutation |
| MergeSortTheorems.MergeTestsBound | hello-c/merge-sort.c:29-39 | a merge of non-empty runs makes at most n1 + n2 - 1 comparisons |
| MergeSortTheorems.ComparisonBound | hello-c/merge-sort.c:29-62 | n >= 1 elements need at most n * ceil(log2 n) - 2^ceil(log2 n) + 1 comparisons |
| MergeSortTheorems.BoundAttained | hello-c/merge-sort.c:29-62 | for every n >= 1 some input needs exactly that many |
| MergeSortTheorems.SortedInput | hello-c/merge-sort.c:29-62 | how many comparisons input in order takes, by the halves of size ceil(n/2) and floor(n/2) |
| MergeSortTheorems.ReversedInput | hello-c/merge-sort.c:29-62 | the same for input in strictly reverse order |

## Left out

- TAP allocation, `select`, `read`, `write`, printing and address formatting of the routers: received frames are inputs, emitted frames are outputs.
- Frames whose IP header or ICMP message does not lie within them: the code reads past the frame there; `Ip.WellFormed` and the length condition of `Arp.HandleArp` exclude them.
- Bytes that a faulting `copy_to_user` may already have written to the user: the chunk of the fault counts as lost.
- Module initialisation and removal, device registration, the compat and default ioctl branches and the debug copy `original` of the XOR pipe.
- XorSystem.Linearizable: one byte moved within a chunk is one step, although in C it is several accesses to fields that only the lock holder touches.
- XorSystem.LockIsReleased: says nothing about which waiting thread the mutex admits next.
- CryptoRaces.OverlapExact: the offset of a write is its own while it runs, as through an open file of its own; reads and seeks that overlap a write are not modelled.
- EchoConformance.ConformsToRfc1122: the clock is a parameter; malformed options are left as they are rather than reported; a directed broadcast as source address is not recognised, as that takes a net mask.
- CryptoFile.Device.Write: `size_t` is taken as 64 bits wide, and lengths that do not fit a signed size, which the kernel refuses, are excluded.
- MergeSort.SortSegment: array indices do not overflow an `int`, and the variable-length arrays of `merge` always fit.
- Rings.CRing.Init: the capacity, a constant 8 in the source, is any power of two.
- The remaining programs of the repository: single-slot drivers, socket clients and servers, sniffers and small exercises.
