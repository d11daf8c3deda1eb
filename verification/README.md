# Depthcharge, modelled and proved

Depthcharge is a boot loader. Most of it drives hardware; a few files hold state
machines, in-place buffers and set arithmetic that the rest relies on. This
project models those files in Dafny and proves what they are for, over every
input, every run and every reachable state:

- **Network.** The TFTP receiver composed with lock-step servers and a network
  that loses, repeats and reorders, with recovery from every loss; the uIP TCP
  machine with the life of a connection told from its history, in-order delivery,
  one outstanding piece of data and the death of silent connections; the fastboot
  framing machine, whose outcome does not depend on how TCP cuts the stream.
- **Address ranges.** The linked list of edges as a canonical set; the KASLR slot
  count and pick as a bijection onto all placements; the memory map of the device
  tree as a partition with tiled `reg` entries; the RAM test as a refinement of
  four nested loops.
- **Buffers and parsers.** The two-text OEM command-line record with its glob
  matcher and delete loop; the bootconfig area with its trailer and the boot-time
  stamp; the log ring against the full history; CRC-32 by words against the
  bitwise definition; the sparse-image writer against the reference expansion.

Code that works by changing things is a class or a method over arrays, sequences
or linked nodes, proved against functions on values; the laws are then proved
about those functions. Block devices, timers, random seeds, the application above
TCP and the command handlers below fastboot are parameters, so the results hold
for all of them.

| files | source |
|---|---|
| `EdgeSets`, `Ranges` | src/base/ranges.c |
| `Kaslr` | src/arch/arm/boot64.c |
| `DtMemory` | src/boot/dt_util.c |
| `MemoryTest` | src/diag/memory.c |
| `Tftp`, `TftpSystem` | src/netboot/tftp.c |
| `Fastboot`, `FastbootTcp`, `FastbootTcpSession` | src/fastboot/fastboot.c, src/fastboot/tcp.c |
| `UipTcp`, `UipConn`, `UipDelivery`, `UipLiveness`, `UipSender`, `UipLife` | src/net/uip.c |
| `Glob`, `CmdlineDelete` | src/fastboot/cmd.c |
| `OemCmdline` | src/base/android_misc.c |
| `Bootconfig`, `BootconfigBuffer`, `Boottime` | src/boot/bootconfig.c, src/boot/android_bootconfig_params.c, src/vboot/boot_info.c |
| `LogRing` | src/fastboot/log.c |
| `Iteration`, `Crc32` | src/boot/crc32.c |
| `Sparse`, `SparseWriter` | src/base/sparse.c, src/base/gpt.c |
| `Basics` | shared by the others |

## Where the code is not what one expects

Each of these is kept as the code has it, with a lemma that says exactly when the
expected property holds.

- Forcing a region whose end precedes its start breaks the edge list unless
  nothing had to change (`ReversedRegionExactly`). The source asserts that a
  region is not empty; `EmptyRegionExactly` says for which lists and addresses
  that assertion is needed.
- The first KASLR slot is right for offsets below 2 MiB and for few others
  (`KstartExactly`); address 0 doubles as "not found" (`PickedIsSlot`); the 16-bit
  seed reaches all placements only if there are at most 65536 (`SeedReachesAll`).
- The 32-bit slot count is right exactly when there are fewer than 2^32 slots
  (`CountedExactly`).
- The final assertion on the `reg` property fails in two ways: the entry count of a
  range wraps when rounding its size up leaves 64 bits (`CountAgreesExactly`), and
  the length wraps when entries times cells reach 2^32, since it is computed in
  32 bits. It holds exactly when neither happens (`AllocatedIsWritten`).
- A TFTP data packet is told apart by its block number modulo 65536 only
  (`AcceptsIffCongruent`). If packets may be of any age, files of up to 65536 blocks
  are still safe. A longer file goes wrong, with success reported, exactly when: it
  has more than 131072 blocks and the limit lets the client reach the first place
  behind one round where the last block's number is due (old acknowledgements let
  the server run ahead, and the file ends early); or it has fewer and the limit
  leaves room for one more round of numbers; or it has fewer, fits, and two of its
  full blocks 65536 apart differ (`AgeMattersExactly`).
- Fastboot framing is independent of segmentation exactly when the first bytes to
  arrive hold the whole handshake (`SegmentationIndependent`); a command cut by a
  segment boundary closes the connection if and only if it is longer than the
  message limit (`CutCommandExactly`); all packets are handled exactly when the
  last one is not empty, since an empty one waits for another byte
  (`FramesAreDelivered`, `HostPacketsAreHandled`).
- TIME_WAIT and FIN_WAIT_2 end exactly when their limit is below 256, the range of
  the 8-bit timer (`TimeWaitEndsExactly`). With something outstanding, silence
  closes a connection exactly when MAXRTX is below 256 or, in SYN_SENT and
  SYN_RCVD, MAXSYNRTX is (`GivesUpExactly`); together, for every reachable
  connection, `SilenceClosesExactly`.
- Data taken in sequence is answered at once, except exactly when it comes in
  FIN_WAIT_1, without a FIN, in the segment that acknowledges our own
  (`DataIsAnsweredExactly`).
- `set` reports an error after emptying the text exactly when the argument leaves
  no room for the delimiter (`SetLosesTextExactly`).
- A deletion from the record may leave a text without its final separator
  (`ApplyKeepsStructure`); the delete command only makes cuts that do not.
- Deleting the pattern `*` never finishes, and every other pattern does
  (`LoopFinishesExactly`).
- Where `char` is signed the bootconfig checksum is the sum of the bytes only if
  the number of bytes from 128 up is a multiple of 2^24
  (`ChecksumIsByteSumExactly`).
- A converted command line has the same fields exactly when its quotes are closed
  (`ConvertedKeepsFields`); the code refuses it otherwise.
- The space reserved for the boot time is enough because the delimiter literal
  counts as four bytes in C; two bytes are to spare (`ReserveIsEnough`).
- Recognising a sparse image reads six bytes however short the data is
  (`DependsOnDataOnlyExactly`).

## Model

| member | source | states |
|---|---|---|
| EdgeSets.SetRegionIsSetUpdate | src/base/ranges.c:60-108 | forcing [start, end) on a canonical list gives a canonical list whose set differs exactly inside the region |
| EdgeSets.ReversedRegionExactly | src/base/ranges.c:60-108 | with end < start the list stays canonical if and only if the status just below start was already the requested one, and then it is unchanged |
| EdgeSets.EmptyRegionExactly | src/base/ranges.c:66-66 | why start != end is asserted: otherwise the list would stay canonical if and only if the status at that address or just below it was already the requested one |
| EdgeSets.IntervalsAreMaximal | src/base/ranges.c:132-142 | the visited ranges are non-empty, ordered, separated by gaps, and their union is the set |
| EdgeSets.CanonicalIsUnique | src/base/ranges.c:60-108 | two canonical lists with the same set are equal |
| EdgeSets.RunInOneInterval | src/base/ranges.c:132-142 | every contiguous run of members lies inside one visited range |
| Ranges.Ranges.InsertBetween | src/base/ranges.c:30-40 | linking a new node puts its position at that place of the edge list and changes nothing else |
| Ranges.Ranges.SetRegionTo | src/base/ranges.c:60-108 | under the asserted start != end the in-place traversal with inserts and frees computes the edge list of the specification, also for end < start |
| Ranges.Ranges.Add | src/base/ranges.c:110-114 | for start < end: canonical again, and the set is the old one united with [start, end) |
| Ranges.Ranges.Sub | src/base/ranges.c:116-119 | for start < end: canonical again, and the set is the old one without [start, end) |
| Ranges.Ranges.ForEach | src/base/ranges.c:132-142 | the callbacks are exactly the ranges of the list in order; an odd last edge is noticed |
| Ranges.Ranges.SubFrom | src/base/ranges.c:121-130 | set difference of two heap lists, canonical |
| Kaslr.KstartIsFirst | src/arch/arm/boot64.c:58-66 | the first candidate is the least address from start on with the load offset as residue |
| Kaslr.KstartExactly | src/arch/arm/boot64.c:58-66 | for larger offsets this holds if and only if the offset is below two units and the start lies above its residue |
| Kaslr.KaslrRangeIs | src/arch/arm/boot64.c:68-85 | the 64-bit arithmetic gives the number of aligned addresses at which the image fits the range, and the first of them |
| Kaslr.SlotsArePlacements | src/arch/arm/boot64.c:68-111 | slot numbers below the total are a strictly increasing bijection onto all addresses with the right residue at which the whole image is available |
| Kaslr.KaslrContext.CountSlots | src/arch/arm/boot64.c:87-94 | one callback adds the slots of its range, modulo 2^32 |
| Kaslr.KaslrContext.PickSlot | src/arch/arm/boot64.c:96-111 | one callback takes the selected slot if it lies in its range and otherwise lowers the number by the slots passed |
| Kaslr.CountAll | src/arch/arm/boot64.c:144-145 | for every list of ranges the first traversal ends with the fixed-width count |
| Kaslr.CountedExactly | src/arch/arm/boot64.c:87-94 | with 64-bit addresses that count is the number of slots if and only if it is below 2^32 |
| Kaslr.PickAll | src/arch/arm/boot64.c:154-158 | for every list of ranges the second traversal ends with the fixed-width walk to the selected slot |
| Kaslr.WalkedIs | src/arch/arm/boot64.c:96-111 | within 64-bit addresses and 32-bit counts that walk is the one over the mathematical slots |
| Kaslr.PickedIsSlot | src/arch/arm/boot64.c:96-111 | the picked address is the selected slot if and only if that slot is not address 0 or nothing follows it |
| Kaslr.GetKernelRelocRandomAddr | src/arch/arm/boot64.c:113-164 | the remaining memory is the available set without the reserved one and the danger zone, and the result is what both traversals choose from it for the drawn number, or 0 without slots |
| Kaslr.ChoiceIsPlacement | src/arch/arm/boot64.c:147-164 | with no placement at 0, and within 64-bit addresses and 32-bit counts, the result of the fixed-width computation is a placement whenever there is one and 0 otherwise, for every seed |
| Kaslr.SkipTakesLowest | src/arch/arm/boot64.c:152-154 | without random choice the lowest placement is taken |
| Kaslr.SeedCounts | src/arch/arm/boot64.c:155-156 | higher seeds below the number of placements give higher addresses, and seeds repeat behind it |
| Kaslr.SeedReachesAll | src/arch/arm/boot64.c:152-156 | within 64-bit addresses and 32-bit counts the 16-bit seeds make the code choose every placement if and only if there are at most 65536 |
| DtMemory.CoreBlock | src/boot/dt_util.c:136-153 | an address is in the trimmed range if and only if its whole aligned MiB is in the untrimmed one |
| DtMemory.CoreIsWholeBlocks | src/boot/dt_util.c:136-153 | the trimmed ranges together are exactly the available whole aligned MiBs |
| DtMemory.CoreAndPaddingCover | src/boot/dt_util.c:136-153 | core and padding are disjoint and together are exactly the available ranges that hold a whole aligned MiB |
| DtMemory.AlignRamRange | src/boot/dt_util.c:136-153 | one callback adds the aligned core to mem and the padding on both sides to reserved, and nothing else |
| DtMemory.Partition | src/boot/dt_util.c:181-216 | mem is the whole aligned MiBs of the table, reserved the non-RAM memory and the padding without cbmem, cbmem the tables without pvmfw |
| DtMemory.CountAgreesExactly | src/boot/dt_util.c:100-134 | counted and written entries of a range agree if and only if rounding the size up stays within 64 bits |
| DtMemory.AllCountedExactly | src/boot/dt_util.c:100-134 | over all ranges never more entries are counted than written, and as many if and only if all sizes round up within 64 bits |
| DtMemory.EntriesTile | src/boot/dt_util.c:109-134 | the entries of a range are consecutive, non-empty, at most the maximum, and end at its end |
| DtMemory.EntriesFillCells | src/boot/dt_util.c:92-134 | every size fits its cells, and all but the last entry of a range are half of what the cells can count |
| DtMemory.AllEntriesFit | src/boot/dt_util.c:92-134 | the same bound for all ranges |
| DtMemory.UpdateMemProperty | src/boot/dt_util.c:109-134 | the write loop appends exactly those entries, each fitting its cells and all but the last half of what they count |
| DtMemory.CountEntries | src/boot/dt_util.c:100-107 | the counting traversal gives the sum of the counts modulo 2^32 |
| DtMemory.RegCoversMemory | src/boot/dt_util.c:223-236 | an address is in a written entry if and only if it is in mem |
| DtMemory.EmitReg | src/boot/dt_util.c:223-236 | count, allocate and write: the entries written, each fitting its cells, and the length allocated |
| DtMemory.AllocatedIsWritten | src/boot/dt_util.c:223-233 | the final assertion: allocated length equals written length if and only if all sizes round up within 64 bits and entries times cells stay below 2^32 |
| MemoryTest.ChunksTile | src/diag/memory.c:138-146 | the chunks of a range are non-empty, in order, inside it, at most one chunk size, and sum to its length |
| MemoryTest.AllChunksTile | src/diag/memory.c:138-152 | the chunks of all ranges are disjoint, ordered, inside the ranges, and hold as many bytes |
| MemoryTest.ScheduleBytes | src/diag/memory.c:319-328 | the nested loops process every byte twice per pattern |
| MemoryTest.CheckFollowsWrite | src/diag/memory.c:319-328 | every check has an earlier write of the same pattern to the same chunk |
| MemoryTest.WritesAreDisjoint | src/diag/memory.c:319-328 | two writes of one pattern never share an address |
| MemoryTest.NextChunkRemaining | src/diag/memory.c:184-224 | advancing the saved state drops exactly the first job from what the nested loops still have to do |
| MemoryTest.StartRemaining | src/diag/memory.c:169-182 | the reset state has the whole schedule before it |
| MemoryTest.Cyclic | src/diag/memory.c:80-88 | the pattern cache repeats the pattern |
| MemoryTest.CacheRepeats | src/diag/memory.c:79-88 | the cache starts with the pattern and repeats with its length |
| MemoryTest.OpWrite | src/diag/memory.c:90-100 | the chunk holds the repeated cache afterwards and no other byte changes |
| MemoryTest.OpReadAndCheck | src/diag/memory.c:102-115 | the check succeeds if and only if the chunk holds the repeated cache |
| MemoryTest.WriteChunk | src/diag/memory.c:341-341 | however the chunk is cut into mapped windows, each window holds the repeated cache from its start and no other byte changes |
| MemoryTest.CheckChunk | src/diag/memory.c:341-341 | the check succeeds if and only if every window does |
| MemoryTest.MapsAreCuts | src/arch/x86/physmem.c:160-212 | mapping in one piece and mapping 2 MiB pages above 4 GiB both cut a chunk into consecutive windows |
| MemoryTest.State.GoNextPattern | src/diag/memory.c:184-200 | next pattern with its cache filled, or the end of the run |
| MemoryTest.State.GoNextOperation | src/diag/memory.c:202-208 | next operation from the first range, else next pattern |
| MemoryTest.State.GoNextRange | src/diag/memory.c:210-216 | next range from its start, else next operation |
| MemoryTest.State.GoNextChunk | src/diag/memory.c:218-224 | next chunk, else next range; the state stays valid |
| MemoryTest.State.RunStep | src/diag/memory.c:329-384 | one call does one chunk of one operation, window by window, fails exactly when a check does not find the pattern in every window, and counts its bytes |
| MemoryTest.State.RunToEnd | src/diag/memory.c:319-384 | on memory that keeps what is written the jobs done are the whole schedule, the run ends, it passes, and the bytes processed are patterns times twice all bytes |
| Tftp.ReceiveKeepsOk | src/netboot/tftp.c:102-188 | no packet makes the received data exceed the limit, shrink, or run ahead of its block number |
| Tftp.TftpClient.Store | src/netboot/tftp.c:158-163 | the data lands behind what was received and nothing else changes |
| Tftp.TftpClient.Callback | src/netboot/tftp.c:102-188 | one packet moves the globals and the destination as the specification says; no byte past the received size changes |
| Tftp.TftpClient.Read | src/netboot/tftp.c:190-274 | for every sequence of packets and timeouts the result, the size and the destination are those of the specification |
| Tftp.RoundSends | src/netboot/tftp.c:165-257 | told from the data received: a taken block is acknowledged; after a timeout without one the read request is sent again with the port forgotten while there is no data, else the acknowledgement of the last block; nothing else is sent |
| Tftp.RoundReceives | src/netboot/tftp.c:104-188 | by the bytes of a packet: an error packet or a block that does not fit fails the transfer, the awaited block is taken, a short one ends it, all else changes nothing but the port |
| Tftp.RoundIgnores | src/netboot/tftp.c:110-115 | packets from other ports change nothing |
| Tftp.EndedStays | src/netboot/tftp.c:235-259 | the first round that ends the transfer is the last that counts |
| TftpSystem.BlocksCover | src/netboot/tftp.c:157-183 | blocks make up the file, only the last is short, and there always is a short last one |
| TftpSystem.AcceptsIffCongruent | src/netboot/tftp.c:134-163 | a data packet of block k is stored if and only if k equals the expected number modulo 65536 |
| TftpSystem.EndToEnd | src/netboot/tftp.c:102-274 | in every state of every run with lock-step servers over a losing, duplicating, reordering network, of packets below 65535 blocks old or for files of up to 65536 blocks: pending means the first 512*(n-1) bytes, success means the whole file, and the limit holds |
| TftpSystem.AgeMattersExactly | src/netboot/tftp.c:102-274 | for every file and every limit: with packets of any age some run reports success with a wrong file if and only if the file has more than 131072 blocks and the limit reaches its early end, or 65537 to 131072 blocks and the limit has room for one more round, or it fits and two full blocks 65536 apart differ |
| TftpSystem.RunIsLoose | src/netboot/tftp.c:102-274 | with packets of any age every state is as if they aged until block 65537 is awaited, and behind that success only comes with the number of the last block |
| TftpSystem.TimeoutAsks | src/netboot/tftp.c:244-257 | a timeout puts the read request or the last acknowledgement into the network again |
| TftpSystem.RecoversFromLoss | src/netboot/tftp.c:235-259 | from every reachable state of a pending transfer, even when the network has lost everything, some continuation that starts with a timeout ends in success with the file |
| TftpSystem.TransferPossible | src/netboot/tftp.c:190-274 | for every file within the limit some run ends in success with the file |
| Fastboot.Lookup | src/fastboot/fastboot.c:154-204 | the dispatch takes the first table entry that selects the packet |
| Fastboot.CommandWithArgument | src/fastboot/fastboot.c:165-202 | a packet made of the name, the separator and any bytes runs the first command it uses with exactly those bytes |
| Fastboot.CommandWithout | src/fastboot/fastboot.c:165-202 | the same for commands without arguments |
| Fastboot.CommandUnknown | src/fastboot/fastboot.c:203-203 | a packet that uses no command is reported and changes nothing else |
| Fastboot.DownloadLands | src/fastboot/fastboot.c:112-152 | however an announced download is cut into packets its bytes end up at the front of the staging area, nothing behind changes, and commands are taken again |
| Fastboot.SurplusIsRefused | src/fastboot/fastboot.c:136-141 | bytes beyond what was announced end the download without being stored |
| Fastboot.OverIgnoresPackets | src/fastboot/fastboot.c:215-218 | a finished session ignores packets |
| Fastboot.DownloadCompose | src/fastboot/fastboot.c:133-152 | handling two pieces of a download is handling them as one |
| Fastboot.PrepareDownload | src/fastboot/fastboot.c:112-117 | the session then expects exactly that many bytes |
| Fastboot.Ops.RunCommand | src/fastboot/fastboot.c:154-204 | the argument is moved in place and handed over unchanged; nothing outside the packet is written |
| Fastboot.Ops.HandleCommandAt | src/fastboot/fastboot.c:154-204 | dispatch on the bytes of the packet only, writing nothing outside it |
| Fastboot.Ops.HandleDownloadAt | src/fastboot/fastboot.c:133-152 | the bytes go to the staging buffer at the progress mark; too many are refused |
| Fastboot.Ops.HandlePacketAt | src/fastboot/fastboot.c:206-222 | one packet, by session state, writing nothing outside it |
| Fastboot.Ops.ResetSession | src/fastboot/fastboot.c:224-233 | back to waiting for commands |
| FastbootTcp.Step | src/fastboot/tcp.c:126-312 | one pass keeps the state well-formed and consumes bytes, closes, or goes to a lower state rank |
| FastbootTcp.Recv | src/fastboot/tcp.c:314-343 | the receive loop ends on every input, by closed flag, bytes left and state rank |
| FastbootTcp.SegmentationIndependent | src/fastboot/tcp.c:158-343 | for every well-formed stream and every cut the end state, commands run and staged buffer are those of the one-pass reference if and only if the first bytes to arrive hold the handshake; otherwise the connection is closed |
| FastbootTcp.ShortHandshakeCloses | src/fastboot/tcp.c:158-197 | a first segment under four bytes closes the connection, whatever follows |
| FastbootTcp.HandshakeExactly | src/fastboot/tcp.c:158-197 | the bytes FB01 open the session and are answered, any other first four bytes, or fewer, close it |
| FastbootTcp.LongCommandResets | src/fastboot/tcp.c:231-265 | a cut command over the limit closes the connection and resets the session |
| FastbootTcp.CutCommandExactly | src/fastboot/tcp.c:231-265 | a command cut by a segment boundary closes the connection if and only if it is longer than the limit |
| FastbootTcp.DecodeEncode | src/fastboot/tcp.c:199-229 | the header length field round trip |
| FastbootTcp.FramesAreDelivered | src/fastboot/tcp.c:199-312 | framed packets within the limits are a well-formed stream, and all are handled if and only if the last is not empty; an empty last one leaves the machine behind its header with the others handled |
| FastbootTcp.HostPacketsAreHandled | src/fastboot/tcp.c:158-343 | from the host's packets to the session through any segmentation: all handled if and only if the handshake arrives whole and the last packet is not empty |
| FastbootTcpSession.TcpSession.RecvHandshake | src/fastboot/tcp.c:158-197 | the handshake handler is one pass of the machine |
| FastbootTcpSession.TcpSession.RecvHeader | src/fastboot/tcp.c:199-229 | the header collector is one pass of the machine |
| FastbootTcpSession.TcpSession.RecvCommand | src/fastboot/tcp.c:231-265 | the command handler is one pass of the machine and leaves later bytes alone |
| FastbootTcpSession.TcpSession.RecvSegment | src/fastboot/tcp.c:267-292 | the segment collector is one pass of the machine |
| FastbootTcpSession.TcpSession.RecvDownload | src/fastboot/tcp.c:294-312 | the download handler is one pass of the machine and leaves later bytes alone |
| FastbootTcpSession.TcpSession.Receive | src/fastboot/tcp.c:314-343 | the loop over the packet buffer, which handlers change in place, refines the machine on the original bytes |
| UipConn.Connection.Listen | src/net/uip.c:1077-1098 | a SYN for a listening port opens a connection that expects the next number |
| UipConn.Connection.Open | src/net/uip.c:281-341 | an active open, with the receive number left from earlier use |
| UipConn.Connection.Input | src/net/uip.c:1153-1551 | a whole segment: reset, sequence check, acknowledgement, state switch |
| UipConn.Connection.Periodic | src/net/uip.c:589-676 | a timer tick, with the 8-bit timer and the backoff |
| UipConn.Connection.PollRequest | src/net/uip.c:561-574 | a poll request |
| UipLife.StateIsLife | src/net/uip.c:281-1551 | over every run from either opening the state is the one the history calls for: handshake, our FIN and its acknowledgement, the peer's FIN and who was first, resets, aborts and limits (section 3.2 of RFC 793) |
| UipLife.ClosedExactly | src/net/uip.c:1153-1551 | without reset, abort, refusal or limit a connection is closed exactly when the peer's FIN came first and ours is acknowledged |
| UipLife.LifeIsAnswered | src/net/uip.c:1153-1551 | a new FIN of ours is sent, the peer's is answered, resets are sent for aborts, refusals and limits only, and not in answer to resets |
| UipLife.FinStartsCount | src/net/uip.c:1346-1356 | our FIN is then all that is outstanding and its repetitions count from zero |
| UipLife.RepeatsUnacknowledged | src/net/uip.c:636-668 | what the timer repeats is the unacknowledged SYN, SYN and ACK, or FIN; data with the application's help only |
| UipLife.HandshakeRepeats | src/net/uip.c:1259-1261 | a repeated SYN gets the SYN and ACK again, a poll repeats our SYN |
| UipLife.WaitIsSilent | src/net/uip.c:608-609 | the ticks up to a repetition are silent and only count down |
| UipLife.WaitDoubles | src/net/uip.c:629-633 | each repetition doubles the next wait, up to four times, within 8 bits |
| UipLife.OpeningWaits | src/net/uip.c:281-341 | when the first repetition of either opening is due |
| UipLife.OpeningSizes | src/net/uip.c:1077-1098 | a new connection starts with the agreed size and the configured time-out |
| UipLife.SendsWhatFits | src/net/uip.c:1376-1463 | as much is sent as asked for, agreed, and advertised by the segment's window unless that is empty |
| UipLife.AckRestartsTimer | src/net/uip.c:1193-1233 | an acknowledgement restarts the timer, and the new estimate counts only without repetitions |
| UipLife.AcksAreQuiet | src/net/uip.c:1327-1551 | acknowledgements are not acknowledged |
| UipLife.ClosingWaitStarts | src/net/uip.c:1502-1551 | the closing timer starts at zero |
| UipDelivery.ArrivalKeepsInv | src/net/uip.c:1153-1551 | any truthful segment keeps the delivery invariant in every state |
| UipDelivery.InOrderDelivery | src/net/uip.c:1094-1551 | over every run of truthful segments, ticks and polls the application got exactly a prefix of the peer's stream, the whole of it after the FIN, and rcv_nxt counts SYN, bytes and FIN modulo 2^32 |
| UipDelivery.InOrderIsHanded | src/net/uip.c:1339-1411 | pieces arriving in order on an established connection are all handed over |
| UipLiveness.HandleKeepsOutstanding | src/net/uip.c:561-1551 | every event, for every configuration, keeps something outstanding in the states that wait for an acknowledgement |
| UipLiveness.OutstandingOverRuns | src/net/uip.c:561-1551 | the same over every run |
| UipLiveness.CountOverRuns | src/net/uip.c:604-630 | over every run the retransmission counter stays within MAXRTX when that fits 8 bits |
| UipLiveness.OpeningsKeepInv | src/net/uip.c:281-341 | both openings start with something outstanding |
| UipLiveness.TickCountsDown | src/net/uip.c:589-676 | a tick brings a dying connection strictly nearer to CLOSED, whatever the application does |
| UipLiveness.SilenceCloses | src/net/uip.c:589-676 | 256*(MAXRTX+1) ticks alone close every connection with outstanding data or in TIME_WAIT or FIN_WAIT_2 |
| UipLiveness.SilentConnectionDies | src/net/uip.c:281-676 | after any events since its opening a connection is established with nothing outstanding, or that many ticks close it |
| UipLiveness.TimeWaitEndsExactly | src/net/uip.c:597-603 | TIME_WAIT and FIN_WAIT_2 end by ticks if and only if the limit is below 256 |
| UipLiveness.GivesUpExactly | src/net/uip.c:604-630 | with something outstanding, in every state and from every counter value: ticks alone close the connection if and only if MAXRTX or, in the SYN states, MAXSYNRTX is below 256; then 65536 ticks do, whatever the application does |
| UipLiveness.SilenceClosesExactly | src/net/uip.c:281-676 | after any events since an opening, for every configuration, a connection is established with nothing outstanding or ticks can close it exactly when the limit for its state fits its counter |
| UipSender.SentIsOutstanding | src/net/uip.c:1413-1484 | every data segment sent is exactly what is outstanding and at most the agreed segment size |
| UipSender.OutstandingStays | src/net/uip.c:1431-1463 | on an established connection outstanding data changes only by being acknowledged |
| UipSender.NumberMovesByAcks | src/net/uip.c:1193-1233 | the send number moves by the outstanding length exactly on its acknowledgement |
| UipSender.NumberCountsAcks | src/net/uip.c:561-1551 | over every run the size bound holds and the send number is the initial one plus everything acknowledged modulo 2^32 |
| UipSender.SendingFromOpening | src/net/uip.c:281-1551 | from either opening: the send number is the initial one plus everything acknowledged, and the outstanding data never exceeds the agreed size |
| UipSender.DataIsAnsweredExactly | src/net/uip.c:1175-1551 | data out of sequence changes nothing and is answered; data in sequence is unanswered exactly when it is not taken, outside SYN_SENT and TIME_WAIT, or acknowledges our FIN without one of its own |
| Glob.TokensOfSplit | src/fastboot/cmd.c:294-341 | cutting a pattern at its next star preserves its tokens and leaves a strictly shorter pattern |
| Glob.MatchesBySplit | src/fastboot/cmd.c:294-341 | matching is matching the first piece, at any place after a star, and then the rest |
| Glob.IsMatching | src/fastboot/cmd.c:294-341 | the backtracking matcher answers true if and only if the text matches the pattern's tokens, for every text and pattern |
| Glob.EmptyTextExactly | src/fastboot/cmd.c:294-341 | the empty text matches exactly the empty pattern and the single star |
| CmdlineDelete.OpenIsClosed | src/fastboot/cmd.c:206-232 | no quote is open behind a text exactly when it is made of plain characters and of runs from a quote to the next quote of the same kind |
| CmdlineDelete.EndExactly | src/fastboot/cmd.c:206-232 | a parameter ends exactly at the first separator whose front is closed in that sense, or at the end of the text |
| CmdlineDelete.EndIsLocal | src/fastboot/cmd.c:211-232 | what follows the separator does not move a parameter's end |
| CmdlineDelete.FindEnd | src/fastboot/cmd.c:211-232 | the scanning loop finds that end |
| CmdlineDelete.JoinParams | src/fastboot/cmd.c:211-232 | parameters and delimiters joined are the text |
| CmdlineDelete.KeptParams | src/fastboot/cmd.c:366-397 | the parameters of what is kept are the parameters that do not match, in order: nothing is retokenised |
| CmdlineDelete.KeptIsIdempotent | src/fastboot/cmd.c:366-397 | deleting again deletes nothing |
| CmdlineDelete.KeptIsEnded | src/fastboot/cmd.c:366-397 | what is kept still ends with a separator |
| CmdlineDelete.LoopFinishesExactly | src/fastboot/cmd.c:366-397 | the loop finishes if and only if the pattern is not the single star, within the text length plus one passes and with the kept text |
| CmdlineDelete.DeletePass | src/fastboot/cmd.c:366-397 | one pass on the record never gets an error and is one pass of the loop on texts |
| CmdlineDelete.DeleteMatching | src/fastboot/cmd.c:343-398 | for every non-empty pattern but the single star exactly the non-matching parameters with their delimiters remain, the other text is unchanged and the record is valid |
| OemCmdline.ApplyKeepsStructure | src/base/android_misc.c:133-228 | an operation keeps the two-text structure if and only if it is not a deletion that removes a text's end without its separator |
| OemCmdline.EditsOneHalf | src/base/android_misc.c:133-214 | no operation but reset touches the other text |
| OemCmdline.RunsKeepStructure | src/base/android_misc.c:133-228 | the structure over every sequence of operations |
| OemCmdline.SetLosesTextExactly | src/base/android_misc.c:192-214 | a failing set has emptied the text if and only if there is no room for the delimiter alone |
| OemCmdline.SetIsIdempotent | src/base/android_misc.c:192-214 | a successful set gives the argument and one delimiter, an empty argument nothing, and repeating it changes nothing |
| OemCmdline.DeleteUndoesAppend | src/base/android_misc.c:133-190 | deleting what was appended restores both texts |
| OemCmdline.AppendByText | src/base/android_misc.c:133-163 | exactly when both texts and their NULs then fit 2036 bytes the argument and a space or line end are appended, else nothing changes |
| OemCmdline.DeleteByText | src/base/android_misc.c:165-190 | what is before and behind the part remains, and a part outside the text is refused |
| OemCmdline.ResetEmpties | src/base/android_misc.c:216-228 | both texts are empty afterwards |
| OemCmdline.ChecksumIsOverBytes | src/base/android_misc.h:39-55 | the checksum adds up the stored bytes of the header, in their order, and of the texts |
| OemCmdline.ChecksumVerifies | src/base/android_misc.c:24-74 | the sum over a record with its checksum filled in is zero |
| OemCmdline.ByteChangeNoticed | src/base/android_misc.c:54-57 | changing any single byte of the texts of a record that sums to zero makes it sum to something else |
| OemCmdline.Record.IsValid | src/base/android_misc.c:24-60 | the check accepts exactly the valid records |
| OemCmdline.Record.UpdateChecksum | src/base/android_misc.c:62-74 | makes a structured record valid |
| OemCmdline.Record.AppendCmd | src/base/android_misc.c:133-163 | although memmove shifts the other text: the edited text is the old one, the argument and one separator; no room changes nothing |
| OemCmdline.Record.DeleteCmd | src/base/android_misc.c:165-190 | removes exactly that part of that text, or nothing when it is not inside |
| OemCmdline.Record.SetCmd | src/base/android_misc.c:192-214 | the argument and one separator replace the text |
| OemCmdline.Record.ResetCmd | src/base/android_misc.c:216-228 | a valid record with two empty texts |
| OemCmdline.Record.Edit | src/base/android_misc.c:62-228 | any sequence of operations followed by the checksum update gives a valid record with the specified texts |
| Bootconfig.ChecksumIsByteSumExactly | src/boot/bootconfig.c:150-158 | the checksum is the byte sum if and only if char is unsigned or the bytes from 128 up are a multiple of 2^24 |
| Bootconfig.FoundAgain | src/boot/bootconfig.c:23-41 | from the trailer of a closed area start and room are recovered, and the size if and only if the text has no NUL |
| Bootconfig.FoundExactly | src/boot/bootconfig.c:23-41 | something is found if and only if the magic stands behind the area and a NUL in it, and the text ends at the first NUL |
| Bootconfig.CleanExactly | src/boot/bootconfig.c:108-118 | values with quotes or backslashes are the refused ones |
| Bootconfig.ConvertedKeepsFields | src/boot/bootconfig.c:66-103 | the lines of the converted command line are, in order, the fields white space outside quotes separates in it, if and only if its quotes are closed |
| Bootconfig.RunIsOneLineEnd | src/boot/bootconfig.c:76-81 | a run of white space outside quotes becomes one line end |
| Bootconfig.ConvertedEndsLine | src/boot/bootconfig.c:66-103 | the converted text ends with a line end and is at most one character longer |
| BootconfigBuffer.Buffer.Init | src/boot/bootconfig.c:9-21 | an empty text with room for a trailer |
| BootconfigBuffer.Buffer.Reinit | src/boot/bootconfig.c:23-41 | finds the area the trailer describes |
| BootconfigBuffer.Buffer.AppendParam | src/boot/bootconfig.c:105-137 | appends the entry if and only if the value is clean and it fits; otherwise the text is unchanged; nothing outside the free room changes |
| BootconfigBuffer.Buffer.AppendCmdline | src/boot/bootconfig.c:66-103 | appends the converted command line if and only if its quotes are closed and it fits; otherwise the text is unchanged |
| BootconfigBuffer.ComputeSum | src/boot/bootconfig.c:150-158 | the loop computes the checksum |
| BootconfigBuffer.Buffer.Finalize | src/boot/bootconfig.c:165-191 | closes the area with text, zeros and trailer if it fits, the checksum covering as many bytes as the 32-bit size field says, and changes nothing else |
| BootconfigBuffer.Buffer.RecalculateChecksum | src/boot/bootconfig.c:160-163 | replaces the checksum word only, by the sum over the claimed size |
| Boottime.ParseDecimal | src/boot/android_bootconfig_params.c:235-264 | the decimal digits of a number read back as the number |
| Boottime.StampReadsBack | src/boot/android_bootconfig_params.c:249-256 | the entry character by character, from which both times are read back behind their names |
| Boottime.ValueFits | src/boot/android_bootconfig_params.c:235-264 | the value fits its buffer and is acceptable for every pair of times |
| Boottime.ReserveIsEnough | src/vboot/boot_info.c:137-148 | the reserved space holds the entry of every pair of 64-bit times with two bytes to spare |
| Boottime.AppendBoottime | src/boot/android_bootconfig_params.c:235-264 | succeeds for every pair of times, changes only the reserved area and the checksum, and the area is closed again with the entry at the end |
| Boottime.CloseForBoot | src/vboot/boot_info.c:137-148 | closing fits or fails as a whole, and the ramdisk size grows to the end of the trailer |
| Boottime.BootAndStamp | src/boot/android_bootconfig_params.c:235-264 | closing at boot and stamping later, for every text and every pair of times |
| LogRing.WriteKeepsAgreement | src/fastboot/log.c:14-40 | overwriting around the ring keeps the agreement with the full history, also for writes longer than the ring |
| LogRing.FastbootLog.Write | src/fastboot/log.c:14-40 | the history grows by exactly what is written |
| LogRing.FastbootLog.WriteAll | src/fastboot/log.c:14-40 | the same over every sequence of writes |
| LogRing.FastbootLog.GetTotal | src/fastboot/log.c:42-45 | the length of the history |
| LogRing.FastbootLog.GetOldest | src/fastboot/log.c:47-53 | the oldest byte still available |
| LogRing.FastbootLog.GetBuf | src/fastboot/log.c:55-91 | exactly the requested slice of the history, and NULL exactly when out of range or out of memory |
| LogRing.GoesAroundExactly | src/fastboot/log.c:68-90 | memory is needed exactly when some byte of the slice lies in front of its first one |
| LogRing.FastbootLog.GetIter | src/fastboot/log.c:103-114 | an iterator exactly for the bytes still available |
| LogRing.FastbootLog.IncIter | src/fastboot/log.c:116-125 | moves to the next byte and stops exactly at the newest |
| LogRing.FastbootLog.DecIter | src/fastboot/log.c:127-136 | moves to the previous byte and stops exactly at the oldest |
| LogRing.FastbootLog.GetByteAtIter | src/fastboot/log.c:138-141 | the byte of the history the iterator stands for |
| LogRing.IterSteps | src/fastboot/log.c:116-136 | the two steps undo each other |
| LogRing.IterInjective | src/fastboot/log.c:103-114 | different available bytes have different iterators |
| LogRing.FastbootLog.ReadForward | src/fastboot/log.c:116-141 | iterating forward reads the history from there to its end |
| LogRing.FastbootLog.ReadBackward | src/fastboot/log.c:127-141 | iterating backward reads it in reverse to the oldest byte |
| Crc32.PatternIs | src/boot/crc32.c:58-69 | the listed powers give the reflected polynomial |
| Crc32.CrcTable.MakeTable | src/boot/crc32.c:60-78 | every table entry is eight bitwise steps of its index |
| Crc32.LookupIsEight | src/boot/crc32.c:81-81 | one table lookup is eight bitwise steps |
| Crc32.WordIsFourBytes | src/boot/crc32.c:95-117 | one 32-bit word and four zero steps are four bytes one after the other |
| Crc32.CrcTable.NoComp | src/boot/crc32.c:88-126 | head bytes, words and tail give the bitwise register for every buffer, length and alignment |
| Crc32.CrcTable.Compute | src/boot/crc32.c:129-132 | the checksum is the bitwise definition (section 8 of RFC 1952) |
| Crc32.ZeroByteChecksum | src/boot/crc32.c:129-132 | the known checksum of a single zero byte |
| Crc32.Streaming | src/boot/crc32.c:129-132 | continuing from a checksum is the checksum of the whole |
| Crc32.BurstDetected | src/boot/crc32.c:129-132 | a change within four consecutive bytes always changes the checksum |
| Sparse.WalkSound | src/base/sparse.c:152-272 | the chunks read before the verdict are sound and fit the region |
| Sparse.VerdictOfEncoded | src/base/sparse.c:114-272 | every expressible chunk list that fits is read back from its encoding |
| Sparse.ChunkByBytes | src/base/sparse.c:152-265 | what the twelve bytes of a chunk header ask for, type by type, with every refusal |
| Sparse.ImageByBytes | src/base/sparse.c:114-151 | what the bytes of the image header ask for |
| Sparse.LaidIsExpansion | src/base/sparse.c:177-264 | a disk is the old one with all chunks laid over it if and only if every byte of every chunk shows (its data, its word repeated, or the old byte) and no other byte differs |
| Sparse.BlocksAreAligned | src/base/sparse.c:203-230 | with block sizes and starts that are multiples of four every fill is aligned |
| SparseWriter.ImgBuff.Advance | src/base/sparse.c:99-111 | the next bytes, or NULL; never past the end of the image |
| SparseWriter.WriteChunk | src/base/sparse.c:152-272 | one pass reads one chunk and lays its cells, or reports why not and changes nothing but what a failing write changed |
| SparseWriter.WriteSparseImage | src/base/sparse.c:114-276 | the verdict and the reference expansion laid over the old disk unless a write fails; no byte outside the region on any outcome |
| SparseWriter.WriteEncoded | src/base/sparse.c:114-276 | for every expressible chunk list that fits the disk is its byte-by-byte expansion afterwards |
| SparseWriter.LayAll | src/base/sparse.c:152-272 | laying chunks one at a time is laying all their cells |
| SparseWriter.WritePartition | src/base/gpt.c:201-223 | missing partition, range check and hand-off: no byte outside the partition changes on any outcome |
| SparseWriter.PlainDataLands | src/base/gpt.c:219-222 | data without the signature is copied as it is and nothing else changes |
| SparseWriter.SparseDataExpands | src/base/gpt.c:216-217 | data with it is expanded byte by byte as its chunks say |
| SparseWriter.DependsOnDataOnlyExactly | src/base/gpt.c:216-220 | the outcome depends on the data only if and only if there are six bytes of it or they already differ from the signature |

## Left out

- Hardware drivers, board files, the user interface, vboot and libpayload: wiring.
- Block devices: a device is a disk with a budget of faultless writes, after which one writes only some of its bytes; reading, erasing and streams are not modelled.
- Fill writes of the block device: a start that is not a multiple of four is refused, as src/drivers/storage/blockdev.c does; how the fill buffer is built is not modelled.
- Partition table lookup: the entry, or that there is none, is a parameter.
- TFTP wire transport: UDP ports, addresses and timers are events; the printed error text is not modelled.
- UipTcp: URG, TCP options, round-trip arithmetic (the new estimate is a parameter), uip_stop, IP fragment reassembly, UDP, ARP, checksums, and the search for a connection slot.
- UipTcp: what the sender transmits when uip_close is called with data outstanding; the length is overwritten as in the source, and nothing is claimed about the bytes the peer then gets.
- Fastboot command handlers: any function of the session and the argument, with the contract that it keeps the session well-formed; uploads and the transmit queue are not modelled.
- Data in the same segment as the peer's FIN: the fastboot session gives up on a closed connection before receiving it (src/fastboot/tcp.c:370-378), so the framing results are for data that arrives before the FIN.
- Malformed and oversized download frames: their effect depends on segmentation, and the framing result is for frames within the bytes still expected.
- Memory test: which address failed, the progress display, the collection of the ranges under test, and the page tables behind the mapped windows.
- Kaslr.WalkedIs: for ranges and images whose sums fit 64 bits and fewer than 2^32 slots, as the source's types assume.
- DtMemory.Partition: tables whose ranges are not empty and end within 2^64 minus one MiB (an empty one stops at the assertion in src/base/ranges.c:66); device tree nodes themselves are not modelled.
- CmdlineDelete.DeleteMatching: not for the single star, for which the loop does not finish.
- Reading and writing the OEM record and its printing (src/base/android_misc.c:76-131): storage access and an accessor.
- Bootconfig parameters taken from the boot section (src/boot/bootconfig.c:43-64) and the `:=` update: the same append again.
- Boottime.AppendBoottime: for areas below 2^32 bytes, since the trailer has a 32-bit size; larger ones are truncated by the format.
- LogRing.FastbootLog.Write: the 64-bit counter of all bytes is unbounded here; the source's wraps after 2^64 bytes.
- Crc32.CrcTable.NoComp: for a little-endian host, on which the table conversion is the identity.
- SparseWriter.WriteSparseImage: which bytes a failing write leaves behind inside the region is not stated, only that nothing outside changes; the chunk counter is unbounded, the source's is an int.
- Log activation, console registration and freeing of copies (src/fastboot/log.c:93-101 and 147-170): allocation only.
