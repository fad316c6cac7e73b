# 5G core test harness: verified models

Dafny models of the packet, security and concurrency code in the test harness
and UE-side tools of the repository: the NAS security context, the concurrent
load tests, the Internet checksum and raw UDP packets, GTP-U and the TUN shim,
child security associations, NAS envelopes, SUCI packing and subscription
documents. `dafny verify dfyconfig.toml` checks the whole project.

Code that updates objects, buffers or tables is modelled by classes and
methods with loops, each proved equal to a function on values. What such a
function comes to, octet by octet or field by field, is stated beside it in plain
numbers (`EncodedAs`, `DecodedAs`, `OnTheWire`, `BuiltAs`, `HeaderAs`, `Delivers`,
`PackedAs`, `StoredAs` and their like). The results about runs, round trips and
interleavings are lemmas about those functions.

## How the modules fit together

- `Bytes`: octets, words and `Option`.
- `NasSecurity`: `RanUeContext`, `NASEncode` and `NASDecode` as methods on a
  context, and `Send` and `Receive`, the same on values. The library's plain
  coding, cipher and MAC are function-valued parameters, so every result holds
  for whatever functions they are. Both COUNT directions run the same code, so
  the peer is `Send` and `Receive` with the direction exchanged.
- `NasChannel`: sender and receiver over a lossy channel that keeps order.
  `NasIntegrityOnly`: what header types 1 and 3 do. `NasHandover`: COUNT use
  across any number of N2 handovers.
- `Checksum`, `ChecksumAlgebra`, `RawUdp`, `Ipv4HeaderChecksum`: the loops of
  the checksum against the one's-complement sum of RFC 1071, the packets that
  carry it, and the variant that folds once.
- `Gtpu`, `GtpuShim`: extension-header skipping against the chain of section
  5.2.1 of 3GPP TS 29.281, parsing, building, the forwarding loop, and one shim
  feeding another.
- `PagingController`, `Paging`, `HandoverBarrier`, `WorkDistribution`,
  `RegisteredIdentities`: the concurrent tests as step relations. A run is any sequence of enabled actions,
  for any number of threads and any workload, so each result covers every
  interleaving.
- `MobileIdentity`, `ChildSa`, `NasEnvelope`, `Suci`, `Subscription`: the
  identity generator, the child-SA tables, NAS messages over TCP, SUCI packing
  and the two document conversions.

## Where the code falls short of what it is for

Each is proved, with the exact condition under which the code does deliver.

- `NASEncode` ciphers every message (onvm_test/security.go:38) but `NASDecode`
  deciphers only types 2 and 4. A message delivered in time decodes to what was
  encoded if and only if its type is 2 or 4 or ciphering left its octets as they
  were (`DeliveryRoundTrip`; `RunRoundTrip` for whole runs). With the cipher of
  `IntegrityOnlyIsGarbled` the latter never happens, except to an empty message.
- With NIA0 the receiver removes 3 octets of a 7-octet header and never hands up
  the message that was sent (`NullIntegrityNeverRoundTrips`).
- A receiver finds the sender's COUNT exactly when the sender is fewer than 256
  steps ahead, the 24-bit wrap included (`RecoverExact`). Over a whole run it stays
  synchronised exactly when every delivery that opens no context is in that reach
  of the COUNT delivered before it (`RunSynchronisedExactly`). Losing a message
  that opens a context breaks this although no gap is long: the next message is
  understood only if the receiver happened to be within reach of COUNT 1
  (`LostOpening`).
- Opening a security context also resets the sender's receiving COUNT; the
  other direction survives exactly when its COUNT is below 256
  (`OpeningContextForgetsOtherDirection`).
- COUNTs stay unique over any number of handovers and any interleaving of calls
  if and only if at no handover both the source and a later context protect
  messages afterwards, and at most 2^24 messages go out
  (`NoReuseAcrossHandovers`). Otherwise they are reused one by one
  (`StaleSourceReusesCounts`).
- The IP header that `BuildRawUdpIp` emits has no identification field: the
  packet is two octets shorter than its length field says. On darwin the
  exchanged length octets break the IP checksum unless they are equal
  (`PacketOnTheWire`).
- `checksum`, with its uint32 accumulator, is right if and only if the number of
  carries lost is a multiple of 65535 (`AccumulatorExact`), and so is the claim
  that inserting it makes the buffer verify (`ChecksumSound`). Up to 131074 octets
  none is lost (`NothingLost`); at 131075 one can be (`AccumulatorBoundIsTight`).
- `CalculateIpv4HeaderChecksum` folds once; it is right exactly when that fold
  stays below 0xffff.
- Extension headers are skipped exactly when there are at most 8
  (`SkipIsExactUpToEight`). The shim leaves its loop on an exception exactly when
  a packet from the TUN device cannot be encoded, becomes a datagram of more than
  the 65507 octets that UDP over IPv4 carries, or is refused by the system
  (`CrashesExactly`).
- A blank PDU address is dropped by the paging controller and the round it
  belongs to never completes (`BlankAddressWedges`, `CompletesExactly`).
- The handover barrier is safe but not live: a spinning worker can still get past
  if and only if nobody has departed (`SpinnerExactly`), and every complete run
  ends with everybody departed if and only if there is at most one thread
  (`LiveExactly`).
- `generateSPI` looks at completed associations only, so two half associations
  may have one SPI and end as one (`ConcurrentHalvesCollide`). Every completed
  association is kept if and only if their inbound SPIs all differ
  (`KeepsAllExactly`); looking at the waiting ones as well would be enough
  (`CarefulAccount`).
- `GenerateMobileIdentityGroup` returns 10001 entries, of which the last repeats
  the first: they are distinct exactly up to 10000 (`DistinctExactly`), and so
  are the identities that a load test registers (`RegisteredExactly`).
- A NAS envelope holds a message exactly when it has at most 65535 octets
  (`EnvelopeExact`).
- A SUCI can be read back exactly when its IMSI is lower-case hexadecimal with
  no f in the place of a filler and the MNC length is 2 or 3 (`ReadSuci`).
- A subscription document survives the two conversions exactly under the
  conditions of `StoredThenRead` and `ReadThenStored`.

## Model

| member | source | states |
|---|---|---|
| `NasSecurity.NASEncode` | onvm_test/security.go:11-67 | the outcome and both COUNTs (`EncodedAs`, on octets and library calls): discriminator, type, MAC, low octet of the COUNT, ciphered body, both cipher and MAC keyed with the whole COUNT, the bearer of the access type and the uplink direction; plain coding without a context; nil context or message is an error that changes nothing; a failed library call leaves the COUNT unadvanced but keeps the reset |
| `NasSecurity.SendExactly` | onvm_test/security.go:23-67 | the same of `Send`, in either direction |
| `NasSecurity.NASDecode` | onvm_test/security.go:69-156 | the outcome and both COUNTs (`DecodedAs`, on octets and library calls): the COUNT is the first from the last one, or from 0 for types 3 and 4, that ends in octet 6; the MAC is reported as matching if and only if octets 2 to 5 are the calculated ones, and the body, deciphered for types 2 and 4, is handed up in both cases; plain messages, NIA0, short payloads and other types |
| `NasSecurity.ReceiveExactly` | onvm_test/security.go:69-156 | the same of `Receive`, in either direction |
| `NasSecurity.BearerValues` | onvm_test/ranUe.go:111-119 | bearer 1 for 3GPP access, 2 for non-3GPP access, 0 otherwise |
| `NasSecurity.RanUeContext.constructor` | onvm_test/ranUe.go:96-109 | COUNTs start at zero, 3GPP access by default |
| `NasSecurity.RanUeContext.TransferToTarget` | onvm_test/handover_test.go:489-492 | the target has the keys and both COUNTs of the source |
| `NasChannel.RecoverAdvancesByGapMod256` | onvm_test/security.go:124-128 | a sender d steps ahead is taken to be d mod 256 steps ahead, modulo 2^24 |
| `NasChannel.RecoverExact` | onvm_test/security.go:124-128 | the receiver rebuilds the sender's COUNT if and only if it is fewer than 256 steps ahead, wrap included |
| `NasChannel.WireLayout` | onvm_test/security.go:38-63 | where EPD, type, MAC, sequence number and ciphered text are on the wire, and what the MAC covers |
| `NasChannel.UnprotectProtected` | onvm_test/security.go:108-156 | with the same COUNT the MAC matches; types 2 and 4 yield the plain octets, types 1 and 3 the ciphered ones |
| `NasChannel.MacIsOnlyReported` | onvm_test/security.go:130-141 | two payloads that differ only in the MAC leave the same COUNT and hand up the same body; the report is true if and only if the MAC is the calculated one |
| `NasChannel.DeliveryExact` | onvm_test/security.go:11-156 | one message: the receiver's COUNT is the sender's if and only if the message opened a context or the gap is below 256, and what it then decodes |
| `NasChannel.DeliveryRoundTrip` | onvm_test/security.go:11-156 | a message delivered in time decodes to what was encoded, MAC matching, if and only if its type is ciphered or ciphering left its octets as they were; the converse for a codec that reads nothing but what it writes |
| `NasChannel.NullIntegrityNeverRoundTrips` | onvm_test/security.go:87-98 | with NIA0 no receiver, whatever its state, hands up the message that was sent, and its COUNT is not moved, for a canonical codec and a cipher that keeps length |
| `NasChannel.NullCipherIsLegible` | onvm_test/security.go:38-41 | under the null cipher every type is legible |
| `NasChannel.RunSynchronisedExactly` | onvm_test/security.go:11-156 | over every run of messages of types 1 to 4, whatever fails and whatever is lost, every delivery uses the sender's COUNT if and only if each one that opens no context finds the sender fewer than 256 steps ahead of the COUNT delivered before |
| `NasChannel.LostOpening` | onvm_test/security.go:26-29 | after a lost message that opens a context, the next is decoded under the sender's COUNT if and only if COUNT 1 is in reach of the receiver's old one |
| `NasChannel.RunRoundTrip` | onvm_test/security.go:11-156 | over every run of messages of types 1 to 4, whatever fails and whatever is lost, the receiver hands up exactly the messages that arrived, in order, each intact with a matching MAC and the sender's COUNT, if each is in reach of the one before and legible; reach is necessary, and legibility too for a canonical codec |
| `NasChannel.ReadableRunIsLegible` | onvm_test/security.go:11-156 | every arrival is legible when only types 2 and 4 are used or the cipher is null |
| `NasChannel.SecurityModeSynchronises` | onvm_test/security.go:26-29 | after a command and an answer that both open the context, both directions are in step, whatever the four COUNTs were |
| `NasChannel.OpeningContextForgetsOtherDirection` | onvm_test/security.go:26-29 | the reset of the receiving COUNT is survived if and only if the peer's sending COUNT is below 256 |
| `NasIntegrityOnly.IntegrityOnlyIsGarbled` | onvm_test/security.go:38-38 | the witness: with one library that meets all assumptions, no type 1 or 3 message but the empty one is legible, and each arrives garbled with a matching MAC |
| `NasHandover.HandoverContinuesCount` | onvm_test/handover_test.go:489-492 | for any number of handovers and failed calls, the i-th message that goes out uses COUNT start + i |
| `NasHandover.LatestOnlyNeverReuses` | onvm_test/handover_test.go:489-492 | when only the latest context protects messages, over any number of handovers no COUNT is used twice if and only if at most 2^24 messages go out |
| `NasHandover.UsesReachTheLibrary` | onvm_test/security.go:38-58 | over every run each message out was ciphered and authenticated by the library under the COUNT that is counted, with the keys of the context |
| `NasHandover.NoReuseAcrossHandovers` | onvm_test/handover_test.go:489-492 | for any calls in any contexts in any order, over any number of handovers: no COUNT is given to the cipher twice for messages that go out if and only if at no handover both the source and a later context protect messages afterwards, and at most 2^24 go out |
| `NasHandover.OneHandover` | onvm_test/handover_test.go:489-492 | one handover, any interleaving: no COUNT is used twice if and only if nothing of the source or nothing of the target goes out after it, and at most 2^24 messages do |
| `NasHandover.StaleSourceReusesCounts` | onvm_test/handover_test.go:489-492 | after a copy, in any interleaving, the i-th message of the source and the i-th of the target use the same COUNT |
| `NasHandover.EncodeAll` | onvm_test/security.go:11-67 | calls of `NASEncode` in a row use consecutive COUNTs, failures aside |
| `NasHandover.HandoverUplink` | onvm_test/handover_test.go:489-646 | messages before and after the transfer use one unbroken sequence of COUNTs |
| `Checksum.AddUp` | onvm_test/rawudp.go:44-51 | the accumulator is the sum of the words, odd tail padded, modulo 2^32 |
| `Checksum.FoldStep` | onvm_test/rawudp.go:52-54 | one fold keeps the value modulo 65535 and its representative, and makes it smaller |
| `Checksum.Fold` | onvm_test/rawudp.go:52-54 | the folding loop ends at the representative modulo 65535 in 1..65535, zero only for zero |
| `Checksum.FoldedSumIsOnesSum` | onvm_test/rawudp.go:43-67 | adding up and folding at the end equals adding with end-around carry all along |
| `Checksum.AccumulatorExact` | onvm_test/rawudp.go:43-67 | with a 32-bit accumulator the result is right if and only if the number of carries lost is a multiple of 65535 |
| `Checksum.NothingLost` | onvm_test/rawudp.go:44-51 | up to 65537 words no carry is lost |
| `Checksum.ChecksumOf` | onvm_test/rawudp.go:43-67 | the result is the complement of the one's-complement sum, all ones instead of zero, if and only if a multiple of 65535 carries is lost, and always up to 131074 octets |
| `Checksum.AccumulatorBoundIsTight` | onvm_test/rawudp.go:44-51 | the witness: 131075 octets of ones lose one carry and the checksum is wrong |
| `Checksum.ChecksumSound` | onvm_test/rawudp.go:43-67 | putting what `checksum` returns into any aligned zero field makes the buffer verify if and only if a multiple of 65535 carries is lost, and always up to 131074 octets |
| `Checksum.OnesSumVerifies` | onvm_test/rawudp.go:43-67 | the ideal sum makes a buffer of any length verify |
| `ChecksumAlgebra.ByteOrderIndependence` | onvm_test/rawudp.go:43-67 | for every length, swapping the octets of every word, an odd tail padded, swaps those of the checksum |
| `ChecksumAlgebra.OrderIndependence` | onvm_test/rawudp.go:43-67 | permuting aligned words leaves the sum unchanged |
| `ChecksumAlgebra.CorruptionDetectedExactly` | onvm_test/rawudp.go:43-67 | replacing one aligned word goes unnoticed if and only if it is congruent modulo 65535 and the buffer is not all zero |
| `RawUdp.IpHdr.Checksum` | onvm_test/rawudp.go:69-77 | the emitted header verifies afterwards |
| `RawUdp.UdpHdr.Checksum` | onvm_test/rawudp.go:79-102 | pseudo header, header and payload, odd payloads included, verify together afterwards if and only if a multiple of 65535 carries is lost, and always up to 131054 octets of payload; the checksum is not zero |
| `RawUdp.BuildRawUdpIp` | onvm_test/rawudp.go:104-164 | fails exactly above 65535 octets; otherwise the packet octet by octet (`OnTheWire`): IP header with length (exchanged on darwin), 64 hops, protocol 17, source before destination, then UDP ports and length, then the payload; both checksums verify and are not zero |
| `RawUdp.PacketOctets` | onvm_test/rawudp.go:14-41 | the same of every packet of this form |
| `RawUdp.PacketOnTheWire` | onvm_test/rawudp.go:124-163 | the packet is two octets shorter than its length field, ends in the payload, and its IP header verifies as sent if and only if not on darwin or the length octets are equal |
| `Ipv4HeaderChecksum.CalculateIpv4HeaderChecksum` | onvm_test/ranUe.go:37-52 | panics exactly for an address that is not IPv4; otherwise the result and one fold of the low 32 bits of the total add up to 0xffffffff, for fields of any value; when the fields fit their places, the low half is the checksum of the 20 octets if and only if the single fold is below 0xffff, and what it is otherwise |
| `Ipv4HeaderChecksum.WireOctets` | onvm_test/ranUe.go:37-52 | the 20 octets the checksum is compared on, octet by octet |
| `Ipv4HeaderChecksum.OrBitwise` | onvm_test/ranUe.go:39-43 | the or of the fields is bitwise, whatever their size and sign |
| `Ipv4HeaderChecksum.TotalFits` | onvm_test/ranUe.go:39-50 | the total is the sum of the header's words when its fields fit |
| `Gtpu.SkipExtHeaders` | python_ue_simulator/gtpu_shim.py:101-145 | the loop computes the bounded chain walk and stays between start and end of the buffer |
| `Gtpu.SkipStep` | python_ue_simulator/gtpu_shim.py:116-143 | one round octet by octet: the length-only reading, then the one with a type octet, then the end of the walk |
| `Gtpu.SkipIsBounded` | python_ue_simulator/gtpu_shim.py:101-145 | for every buffer, start and number of rounds the result is not before the start nor past the end |
| `Gtpu.SkipWalksChain` | python_ue_simulator/gtpu_shim.py:116-130 | on a well-formed chain the walk passes as many headers as it has rounds, or all |
| `Gtpu.SkipIsExactUpToEight` | python_ue_simulator/gtpu_shim.py:116-145 | before any payload the walk ends at the end of a well-formed chain if and only if it has at most 8 headers |
| `Gtpu.ParseWithOptionalFields` | python_ue_simulator/gtpu_shim.py:148-189 | any T-PDU with optional fields, a chain of at most 8 headers and trailing octets parses to its TEID and inner packet |
| `Gtpu.BuildSucceedsExactly` | python_ue_simulator/gtpu_shim.py:197-231 | building fails exactly for TEIDs outside 32 bits, lengths outside 16 bits and unknown modes |
| `Gtpu.ParseExactly` | python_ue_simulator/gtpu_shim.py:148-189 | what any octets parse to: refused if and only if shorter than 8, not version 1, not a T-PDU, or flagged for optional fields that are not there; else the TEID of octets 4 to 7 and what follows the headers, cut at the length field |
| `Gtpu.BuiltOctets` | python_ue_simulator/gtpu_shim.py:197-231 | the built datagram octet by octet, in both modes (`BuiltAs`) |
| `Gtpu.ParseBuilt` | python_ue_simulator/gtpu_shim.py:148-231 | parsing what was built, trailing octets appended, gives back TEID and inner packet |
| `Gtpu.BuildGTPv1Header` | onvm_test/gtp.go:22-58 | the header octet by octet (`HeaderAs`): each flag in its bit, length, TEID, and the optional fields exactly when a flag is set |
| `Gtpu.ParseGTPv1Header` | onvm_test/gtp.go:22-58 | the Python parser reads what the Go code builds, for every combination of flags and any chain of at most 8 headers |
| `GtpuShim.Shim.constructor` | python_ue_simulator/gtpu_shim.py:235-314 | the sequence number starts at the low 16 bits of the given one |
| `GtpuShim.Shim.OnTunReadable` | python_ue_simulator/gtpu_shim.py:323-340 | one packet from the TUN device (`ForwardedAs`): nothing if empty or not IPv4, an exception if TEID, mode, length or system do not let it pass, else the datagram octet by octet and the next sequence number |
| `GtpuShim.Shim.OnN3Readable` | python_ue_simulator/gtpu_shim.py:343-370 | a packet is written if and only if the datagram is a T-PDU of version 1 for an accepted TEID and carries this packet, which is IPv4 (`Delivers`); otherwise nothing is |
| `GtpuShim.Shim.OnReadable` | python_ue_simulator/gtpu_shim.py:318-370 | one event: its effect and the next sequence number |
| `GtpuShim.Shim.Serve` | python_ue_simulator/gtpu_shim.py:316-370 | the loop's effects and final sequence number over any sequence of events, ending at an exception |
| `GtpuShim.BuiltLength` | python_ue_simulator/gtpu_shim.py:338-339 | a packet becomes a datagram that UDP carries if and only if the TEID has 32 bits, the mode is known and packet and headers have at most 65507 octets |
| `GtpuShim.CrashesExactly` | python_ue_simulator/gtpu_shim.py:338-339 | the loop survives a run if and only if every IPv4 packet can be encoded, fits into a datagram and is not refused by the system |
| `GtpuShim.SurvivedIsPrefix` | python_ue_simulator/gtpu_shim.py:316-370 | the events before the end of the loop are a prefix, all of them if and only if everything can be sent |
| `GtpuShim.UplinkInOrder` | python_ue_simulator/gtpu_shim.py:323-340 | for every run, whatever arrives from N3 in between: the packets out are the IPv4 packets before the end of the loop, in order, the i-th with sequence number start + i modulo 65536 |
| `GtpuShim.DownlinkIgnoresUplink` | python_ue_simulator/gtpu_shim.py:343-370 | for every run, what is written depends on the datagrams before the end of the loop alone |
| `GtpuShim.EndToEnd` | python_ue_simulator/gtpu_shim.py:316-370 | for any two runs, under any interleavings and trailing octets, a second shim that accepts the TEID writes the IPv4 packets the first forwarded before its loop ended, in order, as far as it got before its own did; all of them when neither loop ends |
| `GtpuShim.OthersWriteNothing` | python_ue_simulator/gtpu_shim.py:353-354 | a shim that does not accept the TEID writes nothing of what the first one sends |
| `GtpuShim.SequenceNumberOnTheWire` | python_ue_simulator/gtpu_shim.py:220-229 | octets 8 and 9 are the sequence number modulo 65536 |
| `PagingController.DownlinkDataController.Receive` | onvm_test/paging_test.go:848-866 | one received address: blank ones ignored, the list flushed and restarted when full, every listed address pinged in order |
| `PagingController.CollectsInOrder` | onvm_test/paging_test.go:848-866 | over any values received, the lists flushed one after the other and what is still collected are the addresses that are not blank, in order, none lost or repeated, and every list flushed is full |
| `Paging.ControllerSeesAddresses` | onvm_test/paging_test.go:845-867 | the model's controller over signals is the program's controller over addresses |
| `Paging.NextInv` | onvm_test/paging_test.go:751-867 | every step keeps the round invariant: pending signals are of one round, one per worker, and batches and pings are of earlier rounds |
| `Paging.RoundBarrier` | onvm_test/paging_test.go:833-867 | after any run the k-th batch is exactly one address of every worker, all of round k |
| `Paging.ChannelNeverFull` | onvm_test/paging_test.go:896-896 | the signal channel never holds more than one value per thread of its threads + 1, so that a worker can always signal |
| `Paging.MeasureDecreases` | onvm_test/paging_test.go:751-867 | every step uses up exactly one unit of the work left, two for a blank address |
| `Paging.SomethingIsEnabled` | onvm_test/paging_test.go:751-867 | with no blank address, no reachable state is stuck before everything is finished |
| `Paging.RunsAreBounded` | onvm_test/paging_test.go:833-921 | no run is longer than 4 * threads * work_load actions, and with no blank address a run is stuck if and only if it has that length, if and only if every worker is done |
| `Paging.BlankAddressWedges` | onvm_test/paging_test.go:849-849 | a blank address of some round keeps that round's batch from ever being flushed |
| `Paging.CompletesExactly` | onvm_test/paging_test.go:833-921 | every run that cannot go on has finished if and only if no address is blank |
| `HandoverBarrier.Handovers.constructor` | onvm_test/handover_test.go:1842-1852 | the counter is zero and every worker is before the barrier |
| `HandoverBarrier.Handovers.ReachBarrier` | onvm_test/handover_test.go:1563-1563 | inc on the shared counter is the step Arrive |
| `HandoverBarrier.Handovers.Look` | onvm_test/handover_test.go:1564-1566 | one look at the counter is the step Pass exactly when that is enabled, and nothing otherwise |
| `HandoverBarrier.Handovers.Leave` | onvm_test/handover_test.go:1810-1810 | dec on the shared counter is the step Depart |
| `HandoverBarrier.Handovers.Interleave` | onvm_test/handover_test.go:1563-1810 | any interleaving of the workers on the shared counter ends where the step relation does |
| `HandoverBarrier.NextInv` | onvm_test/handover_test.go:1563-1810 | every step keeps counter = arrived - departed and that nobody is past the barrier before all have arrived |
| `HandoverBarrier.BarrierSafety` | onvm_test/handover_test.go:1563-1568 | in every interleaving, a worker past the barrier means every worker has arrived |
| `HandoverBarrier.PassExactly` | onvm_test/handover_test.go:1564-1566 | a spinning worker can pass if and only if all have arrived and none has departed |
| `HandoverBarrier.LateSpinnerIsLost` | onvm_test/handover_test.go:1564-1810 | once a worker has departed, one still spinning spins in every continuation |
| `HandoverBarrier.SpinnerExactly` | onvm_test/handover_test.go:1564-1810 | a spinning worker gets past in some continuation if and only if nobody has departed |
| `HandoverBarrier.LateSpinnerIsReachable` | onvm_test/handover_test.go:1563-1810 | with two threads or more a state with a lost spinner is reached |
| `HandoverBarrier.StuckExactly` | onvm_test/handover_test.go:1563-1810 | a reachable state is stuck if and only if everybody has departed or spins after somebody has |
| `HandoverBarrier.RunOn` | onvm_test/handover_test.go:1563-1810 | every run can be continued until nothing is enabled |
| `HandoverBarrier.LiveExactly` | onvm_test/handover_test.go:1842-1877 | every complete run ends with everybody departed if and only if there is at most one thread |
| `WorkDistribution.NextInv` | onvm_test/registration_test.go:850-931 | every step keeps: the log holds each begun item once, the channels carried what the workers sent, closed only when all are done |
| `WorkDistribution.SendsAreSafe` | onvm_test/registration_test.go:898-931 | no channel ever carries more than amount values, the second at most as many as the first and behind by at most one a worker, a send never blocks and never meets a closed channel |
| `WorkDistribution.SlicesAreDisjoint` | onvm_test/registration_test.go:919-923 | an item is the k-th of one worker only |
| `WorkDistribution.EverythingIsDoneAtClose` | onvm_test/registration_test.go:898-931 | at close each channel has carried exactly amount values and every item was registered exactly once |
| `WorkDistribution.NeverStuck` | onvm_test/registration_test.go:850-931 | until the channels are closed a worker or main can go on, even if no logger ever runs |
| `WorkDistribution.RunsComplete` | onvm_test/registration_test.go:850-931 | no run is longer than 5 * amount + threads + 1 actions, and a run that cannot go on has that length, closed channels and amount values taken from each |
| `MobileIdentity.GenerateMobileIdentityGroup` | onvm_test/registration_test.go:114-157 | 10001 identities, the i-th with the decimal digits of i, port 9487 + i and gNB number 1 + i, the last equal to the first, although the slice is first made 164 long |
| `MobileIdentity.Row` | onvm_test/registration_test.go:128-153 | the inner loop fills a hundred identities, growing the slice one at a time once it is full |
| `MobileIdentity.IdentityOctets` | onvm_test/registration_test.go:133-134 | the twelve octets of identity i, the last two its four digits |
| `MobileIdentity.DistinctIdentities` | onvm_test/registration_test.go:132-138 | different numbers mean different SUCIs, ports and gNB numbers |
| `MobileIdentity.DistinctExactly` | onvm_test/registration_test.go:900-900 | the slice taken, even into the capacity behind the generated one, has distinct identities if and only if it has at most 10000 |
| `RegisteredIdentities.NeverRegisteredTwice` | onvm_test/registration_test.go:898-931 | in every interleaving, at any moment, no identity was registered twice when there are at most 10000 items |
| `RegisteredIdentities.RegisteredExactly` | onvm_test/registration_test.go:898-931 | at close the identities registered are distinct if and only if there are at most 10000 items, for every amount that slicing accepts |
| `ChildSa.N3IWFIkeUe.GenerateSPI` | onvm_test/non3gpp_test.go:228-245 | the first random number whose low 32 bits no completed association has, big-endian |
| `ChildSa.N3IWFIkeUe.CreateHalfChildSA` | onvm_test/non3gpp_test.go:247-253 | the new tables, and the table invariant kept |
| `ChildSa.N3IWFIkeUe.TakeHalf` | onvm_test/non3gpp_test.go:259-266 | the half association leaves its table and is in neither, invariant kept |
| `ChildSa.N3IWFIkeUe.Record` | onvm_test/non3gpp_test.go:284-285 | the association is kept under its inbound SPI, invariant kept |
| `ChildSa.N3IWFIkeUe.CompleteChildSA` | onvm_test/non3gpp_test.go:255-288 | success exactly for a known message ID, at least one proposal and a key made of the first; then the waiting object itself, with that key, the outbound SPI and its own inbound SPI; the new tables are those of `Complete`, every completed entry under its own SPI and in one table only |
| `ChildSa.CreateExactly` | onvm_test/non3gpp_test.go:247-253 | the entry waits with its inbound SPI and nothing else; all other entries stay |
| `ChildSa.CompleteExactly` | onvm_test/non3gpp_test.go:255-288 | an unknown message ID changes nothing; success adds one entry and keeps the others if and only if the SPI was free; failure uses up only its message ID |
| `ChildSa.StepBalanced` | onvm_test/non3gpp_test.go:247-288 | every operation keeps the account of created, pending, completed, failed and lost associations |
| `ChildSa.RunBalanced` | onvm_test/non3gpp_test.go:247-288 | the account over any run, message IDs and SPIs reused or not |
| `ChildSa.CarefulAccount` | onvm_test/non3gpp_test.go:228-288 | with any number of halves waiting: if each is created under a free message ID with an SPI neither completed nor waiting, created = pending + completed + failed, nothing is replaced, and every entry is under its own SPI with a key |
| `ChildSa.SequentialAccount` | onvm_test/non3gpp_test.go:228-288 | when each half association ends before the next begins, looking at completed SPIs alone is enough for the same |
| `ChildSa.KeepsAllExactly` | onvm_test/non3gpp_test.go:228-288 | over any run every association completed is still in the table if and only if their inbound SPIs all differ |
| `ChildSa.ConcurrentHalvesCollide` | onvm_test/non3gpp_test.go:238-238 | two waiting halves with one SPI both succeed and one entry is left |
| `NasEnvelope.WriteEnvelope` | onvm_test/non3gpp_test.go:1823-1826 | the filled buffer is the length in 16 bits, the high octet first, then the message |
| `NasEnvelope.UnwrapExactly` | onvm_test/non3gpp_test.go:1799-1812 | what any octets unwrap to: a message of the length that the first two name, if that many follow |
| `NasEnvelope.TcpConn.ReadFull` | onvm_test/non3gpp_test.go:1800-1801 | however the stream is cut, reads until n octets are there; fails exactly when it ends before |
| `NasEnvelope.TcpConn.ReadEnvelope` | onvm_test/non3gpp_test.go:1799-1812 | the first message of what is unread, and the rest stays unread |
| `NasEnvelope.TcpConn.ReadAll` | onvm_test/non3gpp_test.go:1799-1812 | all messages of what is unread, in order |
| `NasEnvelope.EnvelopeExact` | onvm_test/non3gpp_test.go:1799-1826 | a message comes back out of its envelope if and only if it has at most 65535 octets |
| `NasEnvelope.UnwrapStream` | onvm_test/non3gpp_test.go:1799-1826 | a stream of envelopes unwraps to the messages it was made of if and only if each has at most 65535 octets |
| `NasEnvelope.ReadBack` | onvm_test/non3gpp_test.go:1799-1826 | however the stream is cut into pieces, the reader returns exactly the messages written if and only if each has at most 65535 octets |
| `Suci.EncodeSuci` | onvm_test/ueRanEmulator/main.go:103-133 | the SUCI octet by octet and its length (`PackedAs`): digits in pairs, fillers where the MNC has two digits and above an odd last digit, 8 + ceil(MSIN / 2) octets; panics exactly when the IMSI is shorter than MCC and MNC |
| `Suci.HexValue` | onvm_test/ueRanEmulator/main.go:90-101 | every hexadecimal digit has its value in either case, anything else is 0 |
| `Suci.AppendMsin` | onvm_test/ueRanEmulator/main.go:122-130 | the loop appends the packed MSIN, a filler above an odd last digit |
| `Suci.UnpackedPacked` | onvm_test/ueRanEmulator/main.go:122-130 | an MSIN of any length is read back if and only if it is lower-case hexadecimal and an even one does not end in f |
| `Suci.ReadSuci` | onvm_test/ueRanEmulator/main.go:90-133 | IMSI and MNC length are read back if and only if the MNC length is 2 or 3 and the IMSI is lower-case hexadecimal with no f where a filler goes |
| `Suci.SuciOfRead` | onvm_test/ueRanEmulator/main.go:103-133 | every buffer with the fixed octets is the SUCI of what is read from it |
| `Suci.DecimalSucisDiffer` | onvm_test/ueRanEmulator/main.go:90-133 | decimal IMSIs of any length with MNC length 2 or 3 share a SUCI if and only if they and the MNC lengths are equal |
| `Subscription.Document.ConvertToStored` | onvm_test/mongodb.go:86-139 | the document afterwards, field by field (`StoredAs`): ueId set, the sequence number wrapped, each key string under its new name and the old key gone, all else as it was |
| `Subscription.Document.MoveNested` | onvm_test/mongodb.go:100-118 | the nested string moves to the new key and the object goes; anything else changes nothing |
| `Subscription.Document.ConvertToRead` | onvm_test/mongodb.go:157-197 | the document afterwards, field by field (`ReadAs`): the sequence number unwrapped or formatted, each key string in an object under its old name and the new key gone, all else as it was |
| `Subscription.StoredLanes` | onvm_test/mongodb.go:86-139 | putting converts each key on its own, sets ueId and touches no other key |
| `Subscription.ReadLanes` | onvm_test/mongodb.go:157-197 | reading converts each key on its own and touches no other key |
| `Subscription.StoredThenRead` | onvm_test/mongodb.go:86-197 | putting then reading is the identity up to ueId if and only if the sequence number is no object with an sqn and each key object holds only its value with the new key free, or there is nothing to convert back |
| `Subscription.ReadThenStored` | onvm_test/mongodb.go:86-197 | reading then putting is the identity up to ueId if and only if the sequence number is in the new form or none, and each new key stands alone, or there is nothing to convert |
| `Subscription.ConversionsAreIdempotent` | onvm_test/mongodb.go:86-197 | each conversion done twice is done once, on every document |

## Left out

- Sockets, SCTP, TUN devices, MongoDB, netlink, timers and logging: events or parameters where a model needs them. Of the errors of system calls only those of sending a datagram are modelled.
- Library code that is not part of the repository: plain NAS coding, ciphers, MACs, key derivation, NGAP, IKE proposals, deepcopy and JSON. They are parameters; `CipherIsInvolution`, `CipherKeepsLength`, `CodecRoundTrips` and `CodecIsCanonical` name what a result needs of them. That the real codec is canonical is not claimed; only the converse half of a result uses it.
- NasSecurity.NASDecode: the MAC is compared but nothing is refused, as in the code; no result claims that forged messages are rejected.
- NasChannel.RunRoundTrip: header types other than 1 to 4, which `NASDecode` refuses or takes for plain messages, are outside the runs, as are calls whose new-context flag does not go with the type; the tests make none.
- NasSecurity.RanUeContext.TransferToTarget: only the COUNTs, algorithms, NAS keys and access type of the deep copy are modelled.
- NasHandover.HandoverUplink: the messages between the transfer and the two at lines 605 and 646 are any sequence of messages; NGAP around them is left out. TestMultiN2Handover copies the context at line 1247 without setting the COUNTs, which is a deepcopy question.
- Ipv4HeaderChecksum.CalculateIpv4HeaderChecksum: for fields wider than their place on the wire the value is stated, but not compared with the checksum of any octets.
- RawUdp.BuildRawUdpIp: address parsing is a parameter; None stands for text that is no IPv4 address and leaves the field zero.
- Gtpu.SkipExtHeaders: what the reading with a type octet makes of a buffer is stated round by round, but no chain of such headers is claimed to be skipped exactly, because the length-only reading is tried first.
- GtpuShim.Shim.Serve: command-line parsing, including parse_rx_teids and the default of the mode, is left out; poll results are a sequence of events; errors of reading, which end the loop as well, are no events.
- Paging.CompletesExactly: that the network pages a worker after its own address was pinged, and only then, is an assumption; TMSI matching is exact.
- HandoverBarrier.BarrierSafety: the spinning read, made without the mutex, is taken to be atomic; `block` only takes and gives back the mutex; each worker has one item, as in the test.
- WorkDistribution.EverythingIsDoneAtClose: no registration aborts its worker; what a logger writes is left out.
- MobileIdentity.GenerateMobileIdentityGroup: the SUPI, which a library computes from the SUCI, and the gNB name are left out.
- ChildSa.N3IWFIkeUe.GenerateSPI: the random numbers are a finite sequence, None when all are taken; that the loop ends is a matter of the random source.
- Suci.ReadSuci: the reader inverts the layout this code writes. For 3-digit MNCs that is not the order of section 9.11.3.4 of 3GPP TS 24.501, and no conformance is claimed. The 16-bit length wraps for MSINs above 131054 digits, as in the code, and the reader uses the buffer.
- Subscription.Document.ConvertToRead: formatting of a value that is no string is a parameter; the JSON steps before and after the conversions are left out, as is the difference between the two map types of the library.
- The builders of NGAP test packets, TMSI folding in decode.go, the key-exchange leading-zero loop, configuration, certificates and scripts: straight-line code, library questions, or code whose promise is not visible here.
