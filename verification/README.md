# Verified models of the ndn-rs core

A Dafny model of the parts of `ndn-rs` whose correctness is hardest to see from the code: the flash log store, the Marzullo time combiner, the windowed segment fetch, link fragmentation and reassembly, BLE framing, names as text and as storage keys, the store router, and RDR objects. `dafny verify dfyconfig.toml` checks everything.

Code that changes state in place is modelled by classes and loops proved against specification functions; code that only computes is modelled by functions. The promises are lemmas about those functions, for all inputs and all runs.

## Layout

| files | what they model |
|---|---|
| `FlashFormat`, `FlashStore`, `FlashAtomicity`, `FlashRuns`, `FlashLimits`, `FlashEngine` | the NOR flash log: byte format, device with power cuts, crash atomicity of one call, whole runs, the exact limits of the guarantee, and the engine as a class over an array of cells |
| `Marzullo` | the fault-tolerant interval combiner |
| `Fetch` | the windowed, verified segment fetch as a loop over what the network does |
| `Fragment`, `Reassembly`, `ReassemblyRuns`, `ReassemblyWire`, `ReassemblyBuffer` | NDNLPv2 fragmentation, the reassembly step, runs of it, raw frames end to end, and the buffer class |
| `BleFraming` | NDNts one-byte framing, one stream and many senders |
| `NameUri`, `NameText`, `NameKey` | names as URIs, what every text means as a name, and names as byte keys |
| `Backend`, `NamedStore`, `Router` | groups of writes, the named store over an ordered map, and the prefix router |
| `Rdr`, `RdrWire`, `RdrObject`, `RdrServer` | RDR metadata, what every input means as metadata, publishing and reassembly of objects, and answering Interests from caches |
| `Bytes`, `ByteOrder`, `Tlv`, `Options`, `Sets` | integers in bytes, lexicographic order, the TLV codec, optional values, set sizes |

## How the world is modelled

- Flash: a write ANDs bytes into cells and an erase sets them to 0xFF. A power cut lets any byte prefix of the current write, or any set of blocks of the current erase, take effect; the next thing that happens is a mount. The driver refuses misaligned or out-of-range requests without touching a cell. The engine's calls are also written as plans of device operations (`FlashStore`), and the class in `FlashEngine` is proved equal to them.
- Time, the network, the congestion window, verification verdicts, failures to send and the sink's answers are parameters of the fetch: a script of turns, each with arbitrary content. Eviction among equally old reassembly groups and the iteration order of the router's group table are arbitrary choices.
- SHA-256, the clock and the signer are parameters of `RdrObject.Assemble` and `RdrServer.Server`.
- Machine integers are written out wherever they matter: 64-bit sequence sums, 32-bit length casts and generation numbers, saturating and wrapping `i64` arithmetic.

## What turned out not to hold as stated

- **Flash, oversized groups.** Lengths are cast to 32 bits. A commit reports Ok exactly when the record as encoded passes the acceptance test (`FlashLimits.CommitAccepts`, for groups of any size). A group too long for 32 bits that is accepted is reported Ok although its record is not on flash: `FlashLimits.OversizedGroup` gives the map the next mount returns, which is the old one unless the payload happens to carry the right footer word where the truncated length points. The run theorem is about groups that fit, which are exactly those whose record is written whole (`FlashFormat.EncodeRecordIsFrame`).
- **Flash, interrupted erases.** An erase that finishes blocks out of order can raise a stale generation and bring back the old half. The mount after an erase cut with a given set of blocks done gives the same map from every state if and only if those blocks reach the generation field only together with the magic or version (`FlashLimits.EraseSurvivedIff`); otherwise a run from format already leads to a state where it does not. The run theorem assumes exactly that of each interruption. It holds of every set of blocks if and only if no erase block starts inside the generation field (`FlashLimits.GuardedIff`), and of every in-order erase (`FlashLimits.InOrderSurvives`).
- **Flash, very large devices.** The room test of `commit` adds in 32 bits. It can wrap on a device if and only if three halves reach 2^32 bytes and a header (`FlashLimits.WrapIff`); a commit for which it does is refused by the driver and changes nothing (`FlashLimits.WrappedCommit`).
- **Flash, interrupted formats.** A format cut after half B is erased and before half A is touched brings back whatever half A held (`FlashRuns.FormatCut` gives the outcome of every cut).
- **Marzullo.** The documentation says the smallest interval is returned; the code returns the leftmost region of greatest support (`Marzullo.LeftmostNotNarrowest`). It is a smallest one if and only if no begin and end of greatest support, of whichever inputs, are closer together than its own ends (`Marzullo.SmallestIff`; `Marzullo.SmallestFromInputs` states the same on the inputs alone). An interval of odd width loses its last nanosecond when rebuilt from centre and radius.
- **Fragmentation.** The 50-byte overhead is a true upper bound, reached only by chunks of 4 GiB or more. Every fragment fits the MTU exactly when the MTU is at least 35. A fragment whose sequence number wraps past 2^64 is not collected, so a packet whose sequence numbers wrap is never reassembled (`ReassemblyWire.WrappedNeverReassembles`).
- **BLE framing.** A packet that needs no cutting passes if and only if its first byte is below 0x80 and the stream is idle, or the bytes the stream still holds happen to complete to that very packet (`BleFraming.UncutPasses`). After a cut packet lost its last frame, an uncut one is swallowed (`BleFraming.UncutSwallowed`).
- **Wire names.** The TLV reader refuses types of 2^32 and above, so names and metadata survive the wire exactly when their component types are below that (`Rdr.NameOnWire`, `Rdr.MetaDataRoundTrip`).
- **Router scans.** A scan asks only the store its prefix routes to, so it misses names stored behind a longer route (`Router.ScanMisses`); the exact condition is `Router.ScanCompleteIff`, and `Router.TogetherIffNothingBelow` gives it on the routes alone.
- **File-backed objects with chunk size zero.** They are cut by one byte but announce segment size zero, so a download to a file is right exactly when the file has at most one byte (`RdrObject.FileDownload`).

## Model

| member | source | states |
|---|---|---|
| FlashRuns.CrashAtomicity | crates/core/ndn-storage/src/flash.rs:315-400 | over every run of commits, compactions, power cuts at any byte or block, and mounts, the map is the fold of the groups that landed; every group that returned Ok landed and every refused one did not |
| FlashRuns.RunFromFormat | crates/core/ndn-storage/src/flash.rs:433-460 | from a freshly formatted device of any contents, mounting after any run succeeds and yields exactly that fold |
| FlashRuns.FormatFresh | crates/core/ndn-storage/src/flash.rs:433-460 | an uninterrupted format of any cells succeeds with exactly the empty store |
| FlashRuns.FormatCut | crates/core/ndn-storage/src/flash.rs:433-460 | what the next mount returns after a format cut at any block or byte: half A alone, what is left of it, nothing, or the empty store |
| FlashRuns.FormatCutInOrder | crates/core/ndn-storage/src/flash.rs:451-454 | with in-order erases: the old store, half A alone, or unformatted |
| FlashRuns.StepAtomic | crates/core/ndn-storage/src/flash.rs:387-400 | one event keeps the invariant and its group lands wholly or not at all |
| FlashRuns.AppendIsAssignment | crates/core/ndn-storage/src/flash.rs:366-382 | every append starts aligned, inside its half and on erased cells, so the AND-write is plain assignment |
| FlashLimits.EraseSurvivedIff | crates/core/ndn-storage/src/flash.rs:166-194 | cutting an erase after exactly these blocks keeps the mounted map from every state, and already from every state a run from format reaches, if and only if they reach the generation field only together with the magic or version |
| FlashLimits.GuardedIff | crates/core/ndn-storage/src/flash.rs:166-194 | a device survives every set of blocks if and only if no block holds generation bytes alone |
| FlashLimits.InOrderSurvives | crates/core/ndn-storage/src/flash.rs:166-194 | blocks erased in order are survived on every device |
| FlashLimits.RaisedSuper | crates/core/ndn-storage/src/flash.rs:142-153 | after an erase that is not survived the superblock reads as its generation with the erased bytes raised |
| FlashLimits.StaleHalfSelected | crates/core/ndn-storage/src/flash.rs:315-341 | from every state, the mount after such an erase takes the live half if and only if the raised generation does not win |
| FlashLimits.StaleHalfReturns | crates/core/ndn-storage/src/flash.rs:315-341 | for every set of blocks not survived, a run from format to a state from which the next mount succeeds with another map |
| FlashLimits.CommitAccepts | crates/core/ndn-storage/src/flash.rs:366-400 | a commit of a group of any size reports Ok if and only if its encoded record is a whole number of write units, fits behind the compacted live set and does not wrap the room test |
| FlashLimits.OversizedGroup | crates/core/ndn-storage/src/flash.rs:198-224 | a group too long for 32 bits is reported Ok exactly when accepted, its record is then not on flash, and what the next mount returns |
| FlashLimits.OversizedGroupLost | crates/core/ndn-storage/src/flash.rs:198-224 | a concrete one of which nothing at all is written |
| FlashLimits.WrapIff | crates/core/ndn-storage/src/flash.rs:366-382 | a device has a state and a group with room for which the room test wraps if and only if three halves reach 2^32 and a header |
| FlashLimits.WrapWitness | crates/core/ndn-storage/src/flash.rs:366-382 | on such a device a run from format leads to one |
| FlashLimits.WrappedCommit | crates/core/ndn-storage/src/flash.rs:366-382 | when it wraps, the commit fails with a driver error and changes nothing, under every fault |
| FlashAtomicity.MountRebuilds | crates/core/ndn-storage/src/flash.rs:315-341 | between calls, a mount of the cells rebuilds exactly the RAM state: half, generation, offset, tail flag and index |
| FlashAtomicity.CompactAtomic | crates/core/ndn-storage/src/flash.rs:347-362 | a compaction cut anywhere leaves an image that mounts to the same map; one that completes keeps it with a clean tail in the other half |
| FlashAtomicity.CommitAtomic | crates/core/ndn-storage/src/flash.rs:387-400 | a commit applies its group wholly or not at all under every fault, reports which when it returns, and uninterrupted is accepted exactly when the group fits after compaction and the room test does not wrap |
| FlashAtomicity.AppendLands | crates/core/ndn-storage/src/flash.rs:366-382 | any byte prefix of a record appended to a clean log leaves the invariant with the group absent or complete; the full record applies it |
| FlashAtomicity.TornSuper | crates/core/ndn-storage/src/flash.rs:142-153 | a superblock cut before magic and version are complete is unreadable, one cut inside the generation reads as some 32-bit generation, a complete one as its own |
| FlashAtomicity.PartialEraseSuper | crates/core/ndn-storage/src/flash.rs:166-194 | an interrupted erase that reaches the generation only with the magic or version leaves the superblock unreadable or unchanged |
| FlashAtomicity.NextGenerationWins | crates/core/ndn-storage/src/flash.rs:157-159 | the incremented generation is newer than the current one across 32-bit wraparound |
| FlashAtomicity.NewerIff | crates/core/ndn-storage/src/flash.rs:155-159 | a generation is newer exactly if it is reached by counting up less than half the circle; of two different ones exactly one is newer unless they are opposite each other |
| FlashAtomicity.TwoReadable | crates/core/ndn-storage/src/flash.rs:315-341 | with both superblocks readable during a switch, either choice of the mount holds the current map |
| FlashAtomicity.ListingFits | crates/core/ndn-storage/src/flash.rs:347-362 | the live set written as one record always fits the other half |
| FlashAtomicity.NoWrapBelow | crates/core/ndn-storage/src/flash.rs:366-382 | below that size the room test never wraps for a group that has room |
| FlashAtomicity.Layout | crates/core/ndn-storage/src/flash.rs:88-122 | header and halves are the engine's divisions, aligned to write and erase units, and the device is usable exactly when a half holds a header and eight bytes |
| FlashFormat.EncodeRecordIsFrame | crates/core/ndn-storage/src/flash.rs:198-224 | the encoded record is the length, payload, footer and padding exactly when the lengths fit 32 bits |
| FlashFormat.ApplyEncoded | crates/core/ndn-storage/src/flash.rs:228-263 | applying an encoded payload is applying its operations in order |
| FlashFormat.ReplayLog | crates/core/ndn-storage/src/flash.rs:268-309 | replaying the records of any groups applies them all in order and continues at the rest |
| FlashFormat.TornLengthWord | crates/core/ndn-storage/src/flash.rs:268-309 | a proper prefix of a length word reads as erased only if nothing changed, and otherwise as a length past the half |
| FlashFormat.TornFooter | crates/core/ndn-storage/src/flash.rs:268-309 | a record cut after its length word and before its footer is complete stops the replay as a dirty tail |
| FlashFormat.TornRecord | crates/core/ndn-storage/src/flash.rs:268-309 | a record cut before its footer is complete is not replayed, and reads as a clean end only if no cell changed |
| FlashFormat.LiveSetFits | crates/core/ndn-storage/src/flash.rs:347-362 | puts for the live map encode to no more bytes than any log that produced it |
| FlashFormat.ReplayListing | crates/core/ndn-storage/src/flash.rs:347-362 | the listing a compaction writes rebuilds the map |
| FlashFormat.OneRecordFits | crates/core/ndn-storage/src/flash.rs:347-362 | one record of the merged groups is no longer than their separate records |
| FlashEngine.NorFlash.Write | crates/core/ndn-storage/src/flash.rs:567-587 | the device's write loop is the modelled AND-write, whole or cut |
| FlashEngine.NorFlash.Erase | crates/core/ndn-storage/src/flash.rs:567-587 | the device's erase loop sets exactly the erased blocks |
| FlashEngine.Encode | crates/core/ndn-storage/src/flash.rs:198-224 | the encoder's buffer equals the record function |
| FlashEngine.DecodePayload | crates/core/ndn-storage/src/flash.rs:228-263 | the payload loop equals the function, including where it stops on malformed bytes |
| FlashEngine.FlashState.ReadSuper | crates/core/ndn-storage/src/flash.rs:142-153 | reading a superblock from the array |
| FlashEngine.FlashState.ReplayHalf | crates/core/ndn-storage/src/flash.rs:268-309 | the replay loop sets index, offset and dirty flag as the replay function says |
| FlashEngine.FlashState.Mount | crates/core/ndn-storage/src/flash.rs:315-341 | outcome and state of a mount |
| FlashEngine.FlashState.WriteHalf | crates/core/ndn-storage/src/flash.rs:166-194 | erase, record, superblock last, under any fault |
| FlashEngine.FlashState.Compact | crates/core/ndn-storage/src/flash.rs:347-362 | outcome, state and cells of a compaction under any fault |
| FlashEngine.FlashState.Append | crates/core/ndn-storage/src/flash.rs:366-382 | outcome, state and cells of an append under any fault |
| FlashEngine.FlashState.Commit | crates/core/ndn-storage/src/flash.rs:387-400 | the class commits as the specification function that the run theorem is about |
| FlashEngine.FlashState.Format | crates/core/ndn-storage/src/flash.rs:433-460 | outcome and state of a format |
| Marzullo.Combine | crates/core/ndn-time/src/combine.rs:44-105 | support is the maximum over all points, the region is the intersection of the intervals over the leftmost such point, no arithmetic overflows, and `None` exactly for no input |
| Marzullo.SortEdges | crates/core/ndn-time/src/combine.rs:66-80 | the in-place insertion sort sorts the filled part of the array and leaves the rest |
| Marzullo.FillEdges | crates/core/ndn-time/src/combine.rs:50-64 | the array holds the endpoints of the considered intervals |
| Marzullo.Sweep | crates/core/ndn-time/src/combine.rs:82-97 | the counting loop finds the first position of greatest count |
| Marzullo.SupportIsRunning | crates/core/ndn-time/src/combine.rs:82-97 | the running count at a sorted edge is the number of intervals over that point |
| Marzullo.SweepCorrect | crates/core/ndn-time/src/combine.rs:82-104 | the swept region is the leftmost of greatest support |
| Marzullo.Rebuilt | crates/core/ndn-time/src/combine.rs:99-104 | centre and radius give back the bounds, less one at the top for odd widths |
| Marzullo.ReturnedPointsSupported | crates/core/ndn-time/src/combine.rs:8-14 | every returned point lies in as many inputs as reported |
| Marzullo.FaultTolerance | crates/core/ndn-time/src/combine.rs:8-14 | with at most f false inputs of n > 2f, support is at least n-f and every returned point shares n-2f truthful inputs with the true time |
| Marzullo.TruncationOnlyLowers | crates/core/ndn-time/src/combine.rs:38-43 | dropping inputs past the cap never raises the support |
| Marzullo.LeftmostNotNarrowest | crates/core/ndn-time/src/combine.rs:38-43 | a concrete input with a narrower region of the same support than the one returned |
| Marzullo.SmallestIff | crates/core/ndn-time/src/combine.rs:38-43 | the result is a smallest region of greatest support if and only if no begin and end of that support are closer than its own |
| Marzullo.SmallestFromInputs | crates/core/ndn-time/src/combine.rs:38-43 | the same condition stated on the inputs' endpoints alone |
| Marzullo.NarrowestIff | crates/core/ndn-time/src/combine.rs:82-97 | every region of greatest support is at least so wide if and only if no two of its possible ends are closer |
| Fetch.FetchSegments | crates/app/ndn-app/src/consumer.rs:753-950 | whatever the network does, the bookkeeping invariant holds; completion means every segment is done, and comes, unless the fetch fails, once a frame has arrived for every missing segment and the results are in; the Interests sent fall into one round per stall, a segment in flight was asked for exactly once in every round since its first, and never more is in flight than a window of the run allows; stall rounds are at most `SEG_MAX_STALLS` per missing segment; unless the fetch fails the sink has taken all it was given; every failure has its cause in the last turn taken |
| Fetch.TakeTurn | crates/app/ndn-app/src/consumer.rs:841-937 | one turn keeps the invariant, loses nothing done or being verified and completes when every segment is in and reported; it stalls exactly when its receive times out with nothing being verified, and a stall then re-sends as `Elapse` says; a failure is a bad segment, the closed connection, an Interest that cannot be sent, or the last stall allowed |
| Fetch.Receive | crates/app/ndn-app/src/consumer.rs:863-937 | the receive of a turn: a frame is kept, a closed connection ends the fetch, and only a stall sends anything |
| Fetch.Arrive | crates/app/ndn-app/src/consumer.rs:867-904 | a wanted frame is being verified or done afterwards, the bound of 256 is kept, any other frame changes nothing |
| Fetch.Elapse | crates/app/ndn-app/src/consumer.rs:906-937 | with nothing being verified the interval counts as exactly one stall; at the limit the fetch gives up; below it every segment in flight is sent exactly once more and no other, and the fetch fails if and only if one of those cannot be sent; with something being verified it waits for one result and sends nothing |
| Fetch.Refill | crates/app/ndn-app/src/consumer.rs:853-861 | exactly the next segments neither done nor being verified that the window has room for are requested, once each and in order; it fails if and only if one of those cannot be sent, at that one |
| Fetch.Drain | crates/app/ndn-app/src/consumer.rs:844-849 | applying finished verifications takes them all off the list, keeps the invariant or fails with a culprit |
| Fetch.ApplyKeeps | crates/app/ndn-app/src/consumer.rs:819-839 | applying one verdict keeps every part of the invariant |
| Fetch.Retransmit | crates/app/ndn-app/src/consumer.rs:926-937 | every segment in flight is sent once more, no other, failing exactly when one of them cannot be sent; then some were sent once more and one that cannot be was tried |
| Fetch.InflightNotEmpty | crates/app/ndn-app/src/consumer.rs:918-925 | when a stall is handled something is in flight, so the early timeout is unreachable |
| Fetch.SinkGotTheObject | crates/app/ndn-app/src/consumer.rs:592-609 | if verified frames carry the object's segments, the sink was given exactly those |
| Fragment.FragmentPacket | crates/core/ndn-packet/src/fragment.rs:33-58 | the loop emits one LpPacket per chunk with its index, count and sequence |
| Fragment.ChunksJoin | crates/core/ndn-packet/src/fragment.rs:33-58 | the chunks join to the packet, none is empty, all but the last are full |
| Fragment.ChunkCount | crates/core/ndn-packet/src/fragment.rs:33-58 | their number is the rounded-up quotient the header announces |
| Fragment.FragmentSize | crates/core/ndn-packet/src/fragment.rs:23-25 | the exact size of a fragment, at most 50 above its chunk, with equality exactly from 2^32 bytes |
| Fragment.FragmentsFit | crates/core/ndn-packet/src/fragment.rs:23-58 | every fragment fits the MTU if and only if the MTU is at least 35 or there is nothing to send |
| Fragment.ExtractFragment | crates/core/ndn-packet/src/lp/fragment.rs:15-68 | the extraction loop equals the scanning function, whose result on every frame is `ExtractIff` |
| Fragment.ExtractIff | crates/core/ndn-packet/src/lp/fragment.rs:15-68 | extraction finds a piece in exactly the frames that begin with an LpPacket whose fields say that piece: sequence, index and count are there, no count is below two, and of several fields of a kind the last one counts |
| Fragment.ExtractMeans | crates/core/ndn-packet/src/lp/fragment.rs:15-68 | the same from the sender's side, for every list of fields and whatever follows |
| Fragment.OtherFieldSkipped | crates/core/ndn-packet/src/lp/fragment.rs:35-59 | a field of any other type, wherever it stands, changes neither the numbers nor the chunk |
| Fragment.ExtractRecovers | crates/core/ndn-packet/src/lp/fragment.rs:15-68 | the receiver reads back the sender's fields and chunk from every multi-fragment packet |
| Reassembly.ProcessConserves | crates/core/ndn-packet/src/fragment.rs:132-207 | one call keeps the counters balanced, every pending group partial, and at most 1024 pending |
| Reassembly.PurgeConserves | crates/core/ndn-packet/src/fragment.rs:209-223 | a purge keeps exactly the groups younger than the timeout, as they were; the counters grow by the number of the others and the fragments they held |
| Reassembly.PurgeLater | crates/core/ndn-packet/src/fragment.rs:209-223 | what one purge drops every later purge would drop |
| Reassembly.OpenedNow | crates/core/ndn-packet/src/fragment.rs:173-178 | a group's age counts from the call that opened it and later calls leave it alone; with a positive timeout a purge at that instant keeps the group |
| ReassemblyRuns.RunConserves | crates/core/ndn-packet/src/fragment.rs:84-103 | in every state of every run fragments in are pending, handed up or wasted, and groups opened are completed, timed out, evicted or pending |
| ReassemblyRuns.ReassemblyCorrect | crates/core/ndn-packet/src/fragment.rs:132-207 | in any order, with repeats and other traffic, a packet of 1 to 400 fragments gives nothing until its last missing index and then exactly itself |
| ReassemblyRuns.DroppedOnlyIf | crates/core/ndn-packet/src/fragment.rs:156-172 | other traffic removes a group only when the table is full, and then only one at least as old as the timeout or the oldest one of those left |
| ReassemblyRuns.WireFragment | crates/forwarding/ndn-engine/src/stages/decode.rs:125-156 | a fragment off the wire reaches the buffer as the call for its chunk if and only if its sequence number did not wrap |
| ReassemblyWire.LinkReassembles | crates/forwarding/ndn-engine/src/stages/decode.rs:125-156 | raw frames end to end: from LpPackets for the packet's pieces, with whatever other fields, in any order, repeated and among other traffic, nothing until the last missing frame and then exactly the packet |
| ReassemblyWire.PlainFrame | crates/core/ndn-packet/src/fragment.rs:33-58 | the frames of `fragment_packet` are such LpPackets |
| ReassemblyWire.ReliableFrame | crates/core/ndn-packet/src/lp/encode.rs:53-83 | so are the frames of the reliable sender, with acknowledgements and link sequence numbers among the fields |
| ReassemblyWire.WrappedNeverReassembles | crates/forwarding/ndn-engine/src/stages/decode.rs:125-156 | a packet whose sequence numbers wrap past 2^64 is never handed up |
| ReassemblyBuffer.ReassemblyBuffer.Process | crates/core/ndn-packet/src/fragment.rs:132-207 | the class performs exactly the specified step for some permitted victim and keeps the ledger |
| ReassemblyBuffer.ReassemblyBuffer.PurgeExpired | crates/core/ndn-packet/src/fragment.rs:209-223 | exactly the groups at least as old as the timeout go, the others stay as they are, and the counters say so |
| ReassemblyBuffer.ReassemblyBuffer.FindOldest | crates/core/ndn-packet/src/fragment.rs:156-172 | a group with the least creation time |
| BleFraming.CutFrames | crates/core/ndn-ble-framing/src/lib.rs:90-115 | the cutting loop equals the frame function |
| BleFraming.FramesFit | crates/core/ndn-ble-framing/src/lib.rs:90-115 | every frame fits the payload limit if and only if the limit is at least two or the packet needs no cutting |
| BleFraming.RoundTrip | crates/core/ndn-ble-framing/src/lib.rs:143-172 | from any prior state the frames of a delimited packet that needs cutting give nothing until the last and then the packet, leaving an idle stream |
| BleFraming.DeliverableIff | crates/core/ndn-ble-framing/src/lib.rs:217-266 | a packet is delimited in this sense exactly if it is a whole TLV of at most 16 KiB, its two numbers in any of the four widths |
| BleFraming.UncutPasses | crates/core/ndn-ble-framing/src/lib.rs:143-172 | for every packet and every prior state, an uncut packet passes if and only if its first byte is below 0x80 and, on a stream that is not idle, what is buffered completes to the packet within the size limit |
| BleFraming.UncutSwallowed | crates/core/ndn-ble-framing/src/lib.rs:143-172 | a concrete stream left active by a lost frame and a packet it swallows |
| BleFraming.NdntsReassembler.FeedFrame | crates/core/ndn-ble-framing/src/lib.rs:143-172 | the class feeds as specified and its buffer stays within the limit |
| BleFraming.PerSenderReassembler.FeedFrame | crates/core/ndn-ble-framing/src/lib.rs:199-214 | one step of the sender table, never above 256 senders |
| BleFraming.Isolation | crates/core/ndn-ble-framing/src/lib.rs:199-214 | with at most 256 senders, any interleaving gives each sender the outputs of its own frames alone |
| NameUri.NameRoundTrip | crates/core/ndn-foundation-types/src/name.rs:384-405 | parsing the printed form of any name gives the name back |
| NameUri.ComponentRoundTrip | crates/core/ndn-foundation-types/src/name.rs:343-379 | the same for a component of any type and bytes |
| NameUri.PrintingInjective | crates/core/ndn-foundation-types/src/name.rs:494-551 | different names print differently |
| NameUri.IntegerRoundTrip | crates/core/ndn-foundation-types/src/name.rs:119-146 | integers decode to themselves and encode canonically |
| NameUri.PercentRoundTrip | crates/core/ndn-foundation-types/src/name.rs:422-464 | percent decoding inverts percent encoding |
| NameUri.UriValueRoundTrip | crates/core/ndn-foundation-types/src/name.rs:466-492 | the periods rule round-trips, empty and all-period values included |
| NameUri.FoldInteger | crates/core/ndn-foundation-types/src/name.rs:129-135 | the shift-and-or loop is the big-endian value modulo 2^64 |
| NameUri.DecodePercent | crates/core/ndn-foundation-types/src/name.rs:422-450 | the decoding loop, with its errors |
| NameText.ParseText | crates/core/ndn-foundation-types/src/name.rs:384-405 | the parser's loop: white space alone is the root, other text must begin with a slash, and then there is one component per non-empty piece between slashes, in order, or the first piece that is an error |
| NameText.TextMeans | crates/core/ndn-foundation-types/src/name.rs:384-405 | the same of the parsing function, for every text |
| NameText.TrimSpaces | crates/core/ndn-foundation-types/src/name.rs:385 | white space around a text changes nothing |
| NameText.TrimSplit | crates/core/ndn-foundation-types/src/name.rs:385 | nothing but white space is taken away, and all of it at both ends |
| NameText.SlashedSplit | crates/core/ndn-foundation-types/src/name.rs:397-402 | every text is its pieces with slashes between them |
| NameText.SplitSlashed | crates/core/ndn-foundation-types/src/name.rs:397-402 | and comes apart into exactly those |
| NameText.IntegerMeans | crates/core/ndn-foundation-types/src/name.rs:326-341 | an integer prefix before the first equals sign: with a 64-bit decimal behind it, plus sign allowed, the typed integer; with anything else the generic component of the whole part's decoded bytes |
| NameText.DigestMeans | crates/core/ndn-foundation-types/src/name.rs:349-360 | a digest prefix: the bytes whose two hexadecimal digits each, in either case, are the tail; anything else is an error |
| NameText.KeywordMeans | crates/core/ndn-foundation-types/src/name.rs:361-366 | the keyword prefix: the decoded tail |
| NameText.PlainMeans | crates/core/ndn-foundation-types/src/name.rs:367-379 | a decimal number before the first equals sign is the type and must fit 64 bits; every other part is a generic component |
| NameText.Labels | crates/core/ndn-foundation-types/src/name.rs:343-366 | trying the prefixes in turn is the same as looking up the text before the first equals sign |
| NameText.ValueIff | crates/core/ndn-foundation-types/src/name.rs:466-492 | a text is read as a value exactly if it decodes to the same bytes as the printed value; fewer than three periods are refused |
| NameText.DecodeFails | crates/core/ndn-foundation-types/src/name.rs:422-450 | percent-decoding fails exactly at a percent sign without two hexadecimal digits behind it |
| NameText.DecodeConcat | crates/core/ndn-foundation-types/src/name.rs:422-441 | decoding goes piece by piece |
| NameText.DecodeToken | crates/core/ndn-foundation-types/src/name.rs:422-450 | a byte other than the percent sign stands for itself, an escape in either case for its byte |
| NameText.PrintedByte | crates/core/ndn-foundation-types/src/name.rs:452-464 | letters, digits, hyphens, periods, underscores and tildes print as themselves, every other byte as a percent sign and two upper-case digits |
| NameText.PrintedRaw | crates/core/ndn-foundation-types/src/name.rs:452-479 | a value of such characters, not all periods, prints as itself |
| NameUri.PrintText | crates/core/ndn-foundation-types/src/name.rs:494-551 | the printer's loop |
| NameKey.KeyOrder | crates/core/ndn-storage/src/lib.rs:693-700 | byte order on keys is exactly canonical name order |
| NameKey.KeyPrefix | crates/core/ndn-storage/src/lib.rs:693-700 | byte prefix on keys is exactly component prefix on names |
| NameKey.KeyInjective | crates/core/ndn-storage/src/lib.rs:693-700 | names with one key are one name |
| NameKey.ElementOrder | crates/core/ndn-foundation-types/src/name.rs:45-52 | component order by type, length and bytes is the order of their encodings, decided at a byte both have |
| NameKey.VarNumOrder | crates/core/ndn-tlv/src/lib.rs:67-84 | shortest-form VAR-NUMBERs sort as their values and none is a prefix of another |
| NameKey.NameToKey | crates/core/ndn-storage/src/lib.rs:693-700 | the writer loop produces the key |
| NamedStore.ScanPrefix | crates/core/ndn-storage/src/lib.rs:211-231 | the early-breaking scan lists exactly the entries with the prefix, ascending, or the first `limit` of them |
| NamedStore.ScanListsNames | crates/core/ndn-storage/src/lib.rs:763-769 | on names: exactly those under the prefix, in canonical order |
| NamedStore.RepresentsBatch | crates/core/ndn-storage/src/lib.rs:797-807 | a translated batch does to the names what its operations say in order |
| NamedStore.Store.Get | crates/core/ndn-storage/src/lib.rs:750-752 | lookup by name |
| NamedStore.Store.Put | crates/core/ndn-storage/src/lib.rs:747-749 | insertion by name, nothing else changes |
| NamedStore.Store.Delete | crates/core/ndn-storage/src/lib.rs:753-755 | removal by name, nothing else changes |
| NamedStore.Store.WriteBatch | crates/core/ndn-storage/src/lib.rs:232-249 | the batch loop applies all operations in order |
| NamedStore.Store.ScanUnder | crates/core/ndn-storage/src/lib.rs:763-769 | the listing of stored names under a prefix, with their values |
| NamedStore.Store.FindUnder | crates/core/ndn-storage/src/lib.rs:756-762 | the value of the canonically smallest stored name under the prefix, or nothing exactly when there is none |
| Router.PickIndex | crates/core/ndn-storage/src/lib.rs:842-854 | the scan over route keys is longest component-prefix match, first among equals, else the fallback |
| Router.LookupsFollowOneMap | crates/core/ndn-storage/src/lib.rs:874-927 | whatever the stores held and however routes share them, after any operations a lookup gives what one map would, for every routed name |
| Router.CommitLast | crates/core/ndn-storage/src/lib.rs:914-927 | moving one group's operations behind all others' changes nothing |
| Router.StoreRouter.WriteBatch | crates/core/ndn-storage/src/lib.rs:914-927 | grouping by route and committing the groups in any order equals the operations in order |
| Router.StoreRouter.GroupOps | crates/core/ndn-storage/src/lib.rs:914-927 | each group holds exactly its route's operations in order, and every routed operation is in one |
| Router.StoreRouter.Get | crates/core/ndn-storage/src/lib.rs:876-881 | a lookup asks the one store the name routes to |
| Router.StoreRouter.Write | crates/core/ndn-storage/src/lib.rs:902-913 | insert and remove change only the store the name routes to |
| Router.StoreRouter.ScanUnder | crates/core/ndn-storage/src/lib.rs:888-898 | a scan asks the one store the prefix routes to |
| Router.RunDistributes | crates/core/ndn-storage/src/lib.rs:914-927 | operations keep each store holding exactly the names of the one map that route to it |
| Router.FromEmpty | crates/core/ndn-storage/src/lib.rs:874-927 | from empty stores, after any operations, lookups give what one map would and each store holds exactly its share of it |
| Router.ScanCompleteIff | crates/core/ndn-storage/src/lib.rs:888-898 | a scan lists every name under the prefix if and only if they all live in the prefix's own store |
| Router.TogetherIffNothingBelow | crates/core/ndn-storage/src/lib.rs:842-854 | that is so for all names if and only if no route below the prefix leads to another store |
| Router.ScanMisses | crates/core/ndn-storage/src/lib.rs:888-898 | a concrete name found by lookup and missed by a scan from above |
| Rdr.MetaDataRoundTrip | crates/app/ndn-app/src/rdr.rs:80-161 | decoding encoded metadata gives it back if and only if its name has 32-bit types |
| Rdr.NameOnWire | crates/core/ndn-foundation-types/src/name.rs:216-224 | a name survives encoding and decoding if and only if its types are below 2^32 |
| Rdr.DecodeMetaData | crates/app/ndn-app/src/rdr.rs:103-161 | the decoding loop, every error included |
| RdrWire.DecodeIff | crates/app/ndn-app/src/rdr.rs:103-161 | bytes are accepted as metadata exactly if they are elements that say it: names are names, integers 1, 2, 4 or 8 bytes wide, hashes in 32 bytes, and of several fields of a kind the last one counts |
| RdrWire.DecodeMeans | crates/app/ndn-app/src/rdr.rs:103-161 | the same for a list of elements, with every refusal: the first bad element gives the reason, then the missing name, then the missing FinalBlockID |
| RdrWire.NameIff | crates/core/ndn-foundation-types/src/name.rs:216-224 | bytes decode as a name exactly if they are the elements of its components, all types below 2^32 |
| Rdr.UnknownSkipped | crates/app/ndn-app/src/rdr.rs:103-161 | an unknown element anywhere changes nothing |
| Rdr.FinalBlockNames | crates/app/ndn-app/src/rdr.rs:166-223 | the FinalBlockID reads back as the last segment number and is that segment's name component |
| Rdr.LastSegmentIff | crates/app/ndn-app/src/rdr.rs:166-179 | the last segment is read as a number exactly from a FinalBlockID that begins with a segment component of that value or a generic one with that number in decimal |
| Rdr.CutSegments | crates/app/ndn-app/src/rdr.rs:329-350 | the cutting loop; empty content is one empty segment |
| Rdr.SegmentsJoin | crates/app/ndn-app/src/rdr.rs:329-350 | the segments join to the content |
| Rdr.FileServesSegments | crates/app/ndn-app/src/rdr.rs:296-313 | positioned reads of a file serve the segments of the in-memory object and nothing past them |
| RdrObject.Assemble | crates/app/ndn-app/src/rdr.rs:422-491 | for any source the published metadata decodes to the versioned name, sizes, digests and last segment; it is aggregated exactly when asked for and every segment can be read |
| RdrObject.HashSegments | crates/app/ndn-app/src/rdr.rs:443-458 | all digests in order, or none exactly when some segment cannot be read |
| RdrObject.Build | crates/app/ndn-app/src/rdr.rs:329-350 | an in-memory object serves the segments of its content and describes them |
| RdrObject.BuildFromFile | crates/app/ndn-app/src/rdr.rs:356-394 | a file-backed object serves the segments of the file cut by at least one byte and announces the chunk size as given |
| RdrObject.BuildMetadata | crates/app/ndn-app/src/rdr.rs:402-416 | a metadata-only object announces the count of its size and serves nothing |
| RdrObject.SourceServes | crates/app/ndn-app/src/rdr.rs:296-313 | memory and file sources serve exactly the segments of the content |
| RdrObject.AnswersItsNames | crates/app/ndn-app/src/rdr.rs:518-577 | the object's own Interests: a segment's gets that segment, final exactly for the last; past the end nothing; discovery gets the metadata |
| RdrObject.AnswerIff | crates/app/ndn-app/src/rdr.rs:518-577 | for every name: metadata exactly if the object name begins it and a metadata keyword stands behind; otherwise a segment exactly if the versioned name begins it, its last component is a segment number and the source holds that segment; nothing outside the object name is answered |
| RdrServer.Server.Answer | crates/app/ndn-app/src/rdr.rs:513-577 | for every name, the reply is the metadata, the segment or nothing as the components of the name say, signed; what was signed before is sent again without signing and never replaced; a failed signing changes no cache |
| RdrObject.JoinByIndex | crates/app/ndn-app/src/consumer.rs:599-609 | slots filled in any order join to the segments in order |
| RdrObject.WritesGiveContent | crates/app/ndn-app/src/consumer.rs:725-736 | positioned writes in any order leave the content followed by whatever the file had beyond it |
| RdrObject.FileDownload | crates/app/ndn-app/src/rdr.rs:356-371 | a file-backed object comes back if and only if the chunk size is not zero or the file has at most one byte |
| RdrObject.ObjectIdentity | crates/app/ndn-app/src/consumer.rs:753-950 | metadata and the verified frames of a completed fetch give the content back, in memory and on file |
| Tlv.ReadVarNum | crates/core/ndn-tlv/src/lib.rs:26-63 | a written VAR-NUMBER reads back, whatever follows |
| Tlv.ReadVarUnique | crates/core/ndn-tlv/src/lib.rs:26-63 | whatever reads as a number is its one shortest encoding |
| Tlv.ReadWritten | crates/core/ndn-tlv/src/reader.rs:47-107 | a written element with a 32-bit type reads back |

## Left out

- Runs of the flash store that continue after a driver error, bit rot, and bits of one byte programmed separately: the store gives no promise there.
- FlashRuns.CrashAtomicity: is about groups whose lengths fit 32 bits and erase interruptions that are survived; `FlashLimits` states exactly which those are and what happens to the others.
- Fetch.SinkGotTheObject: assumes that a verified frame for a segment number belongs to the object, since the loop pairs frames by trailing segment number only.
- Router: engine failures in the middle of a batch; each store commits its own group and no cross-store atomicity is offered.
- NameText.ParseText: error texts are an enumeration.
- RdrObject.SourceServes: read errors of the file are not modelled.
- RdrServer.Server.Answer: Interests are answered one after another; two concurrent first Interests for one packet may both sign it.
- Digest checks of aggregated segments in the consumer, which rest on collision resistance.
- Tasks, channels, timers and sockets around the fetch loop; the congestion controller is any window.
- The fjall and redb engines and the instrumenting and async wrappers, which forward calls.
- Management datasets and control parameters, which would only add easy codecs.
- Signatures, encryption and trust policy.
